/** Text comparison of lib/irc_string.c: the network's case folding, ircd_strcmp, and the meaning of
    match2strings as declarative, case-insensitive glob matching. */
module IrcStrings {

  /** The ToLowerTab_8859_1 table: ASCII letters, the four national characters [ \ ] ^ and Latin-1 capitals. */
  function ToLower(c: char): char {
    if 'A' <= c <= '^' || (0xc0 <= c as int <= 0xde && c as int != 0xd7) then (c as int + 32) as char else c
  }

  function Fold(s: string): (r: string)
    ensures |r| == |s| && forall i | 0 <= i < |s| :: r[i] == ToLower(s[i])
  {
    seq(|s|, i requires 0 <= i < |s| => ToLower(s[i]))
  }

  /** Equal up to case. */
  predicate SameText(a: string, b: string) {
    Fold(a) == Fold(b)
  }

  /** A C string of bytes: no NUL inside. */
  predicate CString(s: string) {
    forall i | 0 <= i < |s| :: 0 < s[i] as int < 256
  }

  /** The value of a folded byte as a signed char; the end of a string counts as 0. */
  function Rank(s: string): int {
    if s == "" then 0
    else
      var b := ToLower(s[0]) as int;
      if b < 128 then b else b - 256
  }

  /** ircd_strcmp. */
  function StrCmp(a: string, b: string): int {
    if Rank(a) != Rank(b) then Rank(a) - Rank(b)
    else if a == "" || b == "" then 0
    else StrCmp(a[1..], b[1..])
  }

  lemma FoldParts(s: string)
    requires s != ""
    ensures Fold(s) == [ToLower(s[0])] + Fold(s[1..])
  {
  }

  lemma {:induction false} StrCmpZero(a: string, b: string)
    requires CString(a) && CString(b)
    ensures StrCmp(a, b) == 0 <==> SameText(a, b)
  {
    if a != "" && b != "" {
      FoldParts(a);
      FoldParts(b);
      StrCmpZero(a[1..], b[1..]);
      if SameText(a, b) {
        assert Fold(a)[1..] == Fold(a[1..]) && Fold(b)[1..] == Fold(b[1..]);
        assert Fold(a)[0] == Fold(b)[0];
      }
    } else {
      assert |Fold(a)| == |a| && |Fold(b)| == |b|;
    }
  }

  /** The comparison is a total preorder on C strings. */
  lemma {:induction false} StrCmpTransitive(a: string, b: string, c: string)
    requires CString(a) && CString(b) && CString(c)
    ensures StrCmp(a, b) <= 0 && StrCmp(b, c) <= 0 ==> StrCmp(a, c) <= 0
    ensures StrCmp(a, b) < 0 && StrCmp(b, c) <= 0 ==> StrCmp(a, c) < 0
    ensures StrCmp(a, b) <= 0 && StrCmp(b, c) < 0 ==> StrCmp(a, c) < 0
  {
    if a != "" && b != "" && c != "" {
      StrCmpTransitive(a[1..], b[1..], c[1..]);
    }
  }

  lemma {:induction false} StrCmpReverse(a: string, b: string)
    ensures StrCmp(a, b) == -StrCmp(b, a)
  {
    if a != "" && b != "" {
      StrCmpReverse(a[1..], b[1..]);
    }
  }

  datatype Tok = Star | Any | Lit(c: char)

  /** A backslash in front of a wildcard character makes it stand for itself. */
  function Width(p: string): (k: nat)
    requires p != ""
    ensures 1 <= k <= |p|
  {
    if p[0] == '\\' && |p| > 1 && IsWild(p[1]) then 2 else 1
  }

  function Head(p: string): Tok
    requires p != ""
  {
    if Width(p) == 2 then Lit(p[1])
    else if p[0] == '*' then Star
    else if p[0] == '?' then Any
    else Lit(p[0])
  }

  /** The items of a mask. */
  function Tokens(p: string): seq<Tok> {
    if p == "" then [] else [Head(p)] + Tokens(p[Width(p)..])
  }

  lemma {:induction false} FewTokens(p: string)
    ensures |Tokens(p)| <= |p|
  {
    if p != "" {
      FewTokens(p[Width(p)..]);
    }
  }

  predicate MatchTokens(ts: seq<Tok>, s: string) {
    if ts == [] then s == ""
    else match ts[0]
      case Star => exists k | 0 <= k <= |s| :: MatchTokens(ts[1..], s[k..])
      case Any => s != "" && MatchTokens(ts[1..], s[1..])
      case Lit(c) => s != "" && ToLower(c) == ToLower(s[0]) && MatchTokens(ts[1..], s[1..])
  }

  /** match2strings: the mask matches the whole string. */
  predicate Match(mask: string, s: string) {
    MatchTokens(Tokens(mask), s)
  }

  lemma FoldOnlyTokens(ts: seq<Tok>, s: string, t: string)
    requires SameText(s, t) && MatchTokens(ts, s)
    ensures MatchTokens(ts, t)
    decreases |ts|
  {
    assert |Fold(s)| == |s| && |Fold(t)| == |t|;
    assert forall i | 0 <= i < |s| :: ToLower(s[i]) == Fold(s)[i] == Fold(t)[i] == ToLower(t[i]);
    if ts != [] {
      match ts[0]
      case Star =>
        var k :| 0 <= k <= |s| && MatchTokens(ts[1..], s[k..]);
        assert Fold(s[k..]) == Fold(t[k..]);
        FoldOnlyTokens(ts[1..], s[k..], t[k..]);
      case _ =>
        assert Fold(s[1..]) == Fold(t[1..]);
        FoldOnlyTokens(ts[1..], s[1..], t[1..]);
    }
  }

  /** Matching does not look at case. */
  lemma FoldOnly(mask: string, s: string, t: string)
    requires SameText(s, t)
    ensures Match(mask, s) <==> Match(mask, t)
  {
    if Match(mask, s) { FoldOnlyTokens(Tokens(mask), s, t); }
    if Match(mask, t) { FoldOnlyTokens(Tokens(mask), t, s); }
  }

  predicate IsWild(c: char) {
    c == '*' || c == '?'
  }

  predicate HasWild(s: string) {
    exists i | 0 <= i < |s| :: IsWild(s[i])
  }

  /** A literal item of the mask occurs, up to case, in everything the mask matches. */
  lemma {:induction false} LiteralOccurs(ts: seq<Tok>, s: string, i: nat)
    requires MatchTokens(ts, s) && i < |ts| && ts[i].Lit?
    ensures exists j | 0 <= j < |s| :: ToLower(s[j]) == ToLower(ts[i].c)
    decreases |ts|
  {
    if i == 0 {
      assert ToLower(s[0]) == ToLower(ts[i].c);
    } else if ts[0].Star? {
      var k :| 0 <= k <= |s| && MatchTokens(ts[1..], s[k..]);
      LiteralOccurs(ts[1..], s[k..], i - 1);
      var j :| 0 <= j < |s[k..]| && ToLower(s[k..][j]) == ToLower(ts[1..][i - 1].c);
      assert s[k..][j] == s[k + j];
    } else {
      LiteralOccurs(ts[1..], s[1..], i - 1);
      var j :| 0 <= j < |s[1..]| && ToLower(s[1..][j]) == ToLower(ts[1..][i - 1].c);
      assert s[1..][j] == s[j + 1];
    }
  }

  /** One string a mask matches: an x for each star and question mark. */
  function Instance(ts: seq<Tok>): (s: string)
    ensures |s| == |ts|
  {
    if ts == [] then ""
    else (match ts[0] case Lit(c) => [c] case _ => "x") + Instance(ts[1..])
  }

  lemma {:induction false} InstanceMatches(ts: seq<Tok>)
    ensures MatchTokens(ts, Instance(ts))
  {
    if ts != [] {
      InstanceMatches(ts[1..]);
      var s := Instance(ts);
      assert s[1..] == Instance(ts[1..]);
    }
  }

  lemma {:induction false} TokensKeepLiteral(p: string, c: char, i: nat)
    requires i < |p| && p[i] == c && !IsWild(c) && c != '\\'
    ensures Lit(c) in Tokens(p)
  {
    if i > 0 {
      TokensKeepLiteral(p[Width(p)..], c, i - Width(p));
    }
  }

  lemma {:induction false} InstanceAvoids(p: string, c: char)
    requires c !in p && c != 'x'
    ensures c !in Instance(Tokens(p))
  {
    if p != "" {
      InstanceAvoids(p[Width(p)..], c);
      assert Tokens(p)[1..] == Tokens(p[Width(p)..]);
    }
  }

  function Literals(s: string): (ts: seq<Tok>)
    ensures |ts| == |s| && forall i | 0 <= i < |s| :: ts[i] == Lit(s[i])
  {
    seq(|s|, i requires 0 <= i < |s| => Lit(s[i]))
  }

  lemma {:induction false} TokensOfLiterals(s: string)
    requires !HasWild(s)
    ensures Tokens(s) == Literals(s)
  {
    if s != "" {
      assert !IsWild(s[0]) && (|s| > 1 ==> !IsWild(s[1]));
      assert forall i | 0 <= i < |s[1..]| :: !IsWild(s[1..][i]);
      TokensOfLiterals(s[1..]);
      LiteralsFirst(s);
    }
  }

  lemma LiteralsFirst(s: string)
    requires s != ""
    ensures Literals(s) == [Lit(s[0])] + Literals(s[1..])
  {
    var ts := [Lit(s[0])] + Literals(s[1..]);
    assert |ts| == |s|;
    forall i | 0 <= i < |s| ensures Literals(s)[i] == ts[i] {
      assert i > 0 ==> s[i] == s[1..][i - 1];
    }
  }

  /** A tail without wildcards, behind a wildcard character, tokenises by itself. */
  lemma {:induction false} TokensTail(p: string, tail: string)
    requires p != "" && IsWild(p[|p| - 1]) && !HasWild(tail)
    ensures Tokens(p + tail) == Tokens(p) + Literals(tail)
  {
    var q, k := p + tail, Width(p);
    assert q[0] == p[0] && (|p| > 1 ==> q[1] == p[1]);
    assert Width(q) == k && Head(q) == Head(p);
    assert q[k..] == p[k..] + tail;
    if |p| == k {
      assert p[k..] == "" && q[k..] == tail;
      TokensOfLiterals(tail);
    } else {
      TokensTail(p[k..], tail);
    }
    hide Width, Head, Literals, HasWild;
  }

  lemma {:induction false} MatchEndsWith(ts: seq<Tok>, tail: string, s: string)
    requires MatchTokens(ts + Literals(tail), s)
    ensures |s| >= |tail| && SameText(s[|s| - |tail|..], tail)
    decreases |ts| + |tail|
  {
    var us := ts + Literals(tail);
    if ts != [] {
      assert us[1..] == ts[1..] + Literals(tail);
      match us[0]
      case Star =>
        var k :| 0 <= k <= |s| && MatchTokens(us[1..], s[k..]);
        MatchEndsWith(ts[1..], tail, s[k..]);
        assert s[k..][|s[k..]| - |tail|..] == s[|s| - |tail|..];
      case _ =>
        MatchEndsWith(ts[1..], tail, s[1..]);
        assert s[1..][|s[1..]| - |tail|..] == s[|s| - |tail|..];
    } else if tail != "" {
      assert us[1..] == [] + Literals(tail[1..]);
      MatchEndsWith([], tail[1..], s[1..]);
      assert |s| == |tail| by { LiteralsLength(tail, s); }
      assert s[0..] == s && s[1..][0..] == s[1..];
      FoldParts(s);
      FoldParts(tail);
    } else {
      assert s[|s|..] == "";
    }
  }

  lemma {:induction false} LiteralsLength(tail: string, s: string)
    requires MatchTokens([] + Literals(tail), s)
    ensures |s| == |tail|
  {
    var us := [] + Literals(tail);
    if tail != "" {
      assert us[1..] == [] + Literals(tail[1..]);
      LiteralsLength(tail[1..], s[1..]);
    }
  }

  /** What a mask with a wildcard matches ends, up to case, with everything behind its last wildcard. */
  lemma TailOfMatch(p: string, tail: string, s: string)
    requires p != "" && IsWild(p[|p| - 1]) && !HasWild(tail)
    requires Match(p + tail, s)
    ensures |s| >= |tail| && SameText(s[|s| - |tail|..], tail)
  {
    TokensTail(p, tail);
    MatchEndsWith(Tokens(p), tail, s);
  }
}
