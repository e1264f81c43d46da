/** Case-insensitive glob matching: the recursive matcher of helpmod2/hgen.c. */
module Glob {
  import opened Options

  /** C's `tolower` in the "C" locale. */
  function ToLower(c: char): char {
    if 'A' <= c <= 'Z' then (c as int + 32) as char else c
  }

  /** The meaning of a pattern: `*` is any string, `?` any one character,
      any other character itself up to case; the whole string must be used. */
  ghost predicate Matches(p: string, s: string)
    decreases |p|
  {
    if p == "" then
      s == ""
    else if p[0] == '*' then
      exists k | 0 <= k <= |s| :: Matches(p[1..], s[k..])
    else
      s != "" && (p[0] == '?' || ToLower(p[0]) == ToLower(s[0])) && Matches(p[1..], s[1..])
  }

  /** A further `*` next to a `*` changes nothing. */
  lemma DoubleStar(p: string, s: string)
    requires |p| >= 2 && p[0] == '*' && p[1] == '*'
    ensures Matches(p, s) <==> Matches(p[1..], s)
  {
    if Matches(p, s) {
      var k :| 0 <= k <= |s| && Matches(p[1..], s[k..]);
      var j :| 0 <= j <= |s[k..]| && Matches(p[1..][1..], s[k..][j..]);
      assert s[k..][j..] == s[k + j..];
      assert Matches(p[1..][1..], s[k + j..]);
    }
    if Matches(p[1..], s) {
      assert s[0..] == s;
      assert Matches(p[1..], s[0..]);
    }
  }

  /** A pattern of stars alone matches the empty string, and it is the only kind that does. */
  lemma {:induction false} MatchesEmpty(p: string)
    ensures Matches(p, "") <==> forall i | 0 <= i < |p| :: p[i] == '*'
  {
    if p != "" && p[0] == '*' {
      MatchesEmpty(p[1..]);
      assert ""[0..] == "";
      assert Matches(p, "") <==> Matches(p[1..], "");
      assert forall i | 1 <= i < |p| :: p[i] == p[1..][i - 1];
    }
  }

  /** The first position at or after `from` whose character equals `chr` up to case. */
  method RStrChr(str: string, from: nat, chr: char) returns (at: Option<nat>)
    requires from <= |str|
    ensures at.None? ==> forall i | from <= i < |str| :: ToLower(str[i]) != ToLower(chr)
    ensures at.Some? ==> from <= at.value < |str| && ToLower(str[at.value]) == ToLower(chr)
    ensures at.Some? ==> forall i | from <= i < at.value :: ToLower(str[i]) != ToLower(chr)
  {
    var i := from;
    while i < |str|
      invariant from <= i <= |str|
      invariant forall j | from <= j < i :: ToLower(str[j]) != ToLower(chr)
    {
      if ToLower(str[i]) == ToLower(chr) {
        return Some(i);
      }
      i := i + 1;
    }
    return None;
  }

  /** A NULL pattern accepts everything; otherwise the answer is the meaning of the pattern. */
  method StrRegexp(str: string, pattern: Option<string>) returns (r: bool)
    ensures r <==> (pattern.Some? ==> Matches(pattern.value, str))
    decreases if pattern.Some? then |pattern.value| else 0, 0
  {
    if pattern.None? {
      return true;
    }
    var pat := pattern.value;
    var p, s := 0, 0;
    while p < |pat| && s < |str|
      invariant 0 <= p <= |pat| && 0 <= s <= |str|
      invariant Matches(pat, str) <==> Matches(pat[p..], str[s..])
      decreases |pat| - p
    {
      assert pat[p..][1..] == pat[p + 1..] && str[s..][1..] == str[s + 1..];
      if pat[p] == '?' {
        p, s := p + 1, s + 1;
      } else if pat[p] == '*' {
        p := SkipStars(pat, p, str[s..]);
        if p == |pat| {
          assert pat[p - 1..] == "*";
          assert str[s..][|str| - s..] == "";
          assert Matches("*"[1..], str[s..][|str| - s..]);
          return true;
        }
        assert pat[p - 1..][1..] == pat[p..];
        StarMatches(pat[p - 1..], str, s);
        r := MatchAfterStar(str, s, pat[p..]);
        return;
      } else if ToLower(pat[p]) != ToLower(str[s]) {
        return false;
      } else {
        p, s := p + 1, s + 1;
      }
    }
    ghost var q := p;
    while p < |pat| && pat[p] == '*'
      invariant q <= p <= |pat|
      invariant forall i | q <= i < p :: pat[i] == '*'
    {
      p := p + 1;
    }
    if s == |str| {
      MatchesEmpty(pat[q..]);
      assert str[s..] == "";
      if p < |pat| {
        assert pat[q..][p - q] != '*';
      }
    }
    return p == |pat| && s == |str|;
  }

  /** Steps over a run of stars: what is left, behind one star, means the same. */
  method SkipStars(pat: string, from: nat, ghost s: string) returns (p: nat)
    requires from < |pat| && pat[from] == '*'
    ensures from < p <= |pat| && pat[p - 1] == '*'
    ensures p < |pat| ==> pat[p] != '*'
    ensures Matches(pat[from..], s) <==> Matches(pat[p - 1..], s)
  {
    p := from + 1;
    while p < |pat| && pat[p] == '*'
      invariant from < p <= |pat| && pat[p - 1] == '*'
      invariant Matches(pat[from..], s) <==> Matches(pat[p - 1..], s)
    {
      DoubleStar(pat[p - 1..], s);
      assert pat[p - 1..][1..] == pat[p..];
      p := p + 1;
    }
  }

  ghost predicate MatchesAt(pat: string, str: string, k: nat)
    requires k <= |str|
  {
    Matches(pat, str[k..])
  }

  /** Some rest of the string, from the place `from` on, matches. */
  ghost predicate MatchesLater(pat: string, str: string, from: nat) {
    exists k :: from <= k <= |str| && MatchesAt(pat, str, k)
  }

  lemma StarMatches(pat: string, str: string, from: nat)
    requires pat != "" && pat[0] == '*' && from <= |str|
    ensures Matches(pat, str[from..]) <==> MatchesLater(pat[1..], str, from)
  {
    var s := str[from..];
    assert forall k | 0 <= k <= |s| :: s[k..] == str[from + k..];
    if Matches(pat, s) {
      var k :| 0 <= k <= |s| && Matches(pat[1..], s[k..]);
      assert MatchesAt(pat[1..], str, from + k);
    }
    if MatchesLater(pat[1..], str, from) {
      var k :| from <= k <= |str| && MatchesAt(pat[1..], str, k);
      assert s[k - from..] == str[k..];
    }
  }

  /** No match begins at another character than the literal that is due. */
  lemma SkippedNoMatch(str: string, s: nat, at: nat, pat: string)
    requires s <= at <= |str| && pat != "" && pat[0] != '*' && pat[0] != '?'
    requires forall i | s <= i < at :: ToLower(str[i]) != ToLower(pat[0])
    ensures forall k | s <= k < at :: !MatchesAt(pat, str, k)
  {
  }

  lemma NothingLeft(pat: string, str: string)
    requires pat != "" && pat[0] != '*'
    ensures !MatchesAt(pat, str, |str|)
  {
    assert str[|str|..] == "";
  }

  /** The two search loops of the `*` branch: every start for `?`, and otherwise a jump from one
      occurrence of the next literal to the next. No match is lost by the jump. */
  method MatchAfterStar(str: string, from: nat, pat: string) returns (r: bool)
    requires from <= |str| && pat != "" && pat[0] != '*'
    ensures r <==> MatchesLater(pat, str, from)
    decreases |pat|, 1
  {
    var s := from;
    if pat[0] == '?' {
      while s < |str|
        invariant from <= s <= |str|
        invariant forall k | from <= k < s :: !MatchesAt(pat, str, k)
      {
        r := StrRegexp(str[s..], Some(pat));
        assert r <==> MatchesAt(pat, str, s);
        if r {
          return;
        }
        s := s + 1;
      }
    } else {
      var at := RStrChr(str, s, pat[0]);
      while at.Some?
        invariant from <= s <= |str|
        invariant at.None? ==> forall i | s <= i < |str| :: ToLower(str[i]) != ToLower(pat[0])
        invariant at.Some? ==> s <= at.value < |str|
                               && (forall i | s <= i < at.value :: ToLower(str[i]) != ToLower(pat[0]))
        invariant forall k | from <= k < s :: !MatchesAt(pat, str, k)
        decreases |str| - s
      {
        SkippedNoMatch(str, s, at.value, pat);
        r := StrRegexp(str[at.value..], Some(pat));
        assert r <==> MatchesAt(pat, str, at.value);
        if r {
          return;
        }
        s := at.value + 1;
        at := RStrChr(str, s, pat[0]);
      }
      SkippedNoMatch(str, s, |str|, pat);
    }
    r := false;
    NothingLeft(pat, str);
    hide MatchesAt;
  }
}
