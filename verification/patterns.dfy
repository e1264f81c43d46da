/** mmatch of lib/irc_string.c, which match2patterns asks: one mask against another, with one place to fall back to;
    proved to be a declarative fitting of masks, and so never to claim that a mask encloses another when it does not. */
module MaskPatterns {
  import opened IrcStrings
  import opened MaskMatch

  /** An item of the old mask, other than a star, takes an item of the new one. */
  predicate Fits(a: Tok, b: Tok) {
    (a == Any && b != Star) || (a.Lit? && b.Lit? && ToLower(a.c) == ToLower(b.c))
  }

  /** The old items take the new ones, a star any number of them, even stars; with `open` some may be left over at
      the end. */
  predicate Embeds(os: seq<Tok>, ns: seq<Tok>, open: bool) {
    if os == [] then open || ns == []
    else if os[0] == Star then exists k | 0 <= k <= |ns| :: Embeds(os[1..], ns[k..], open)
    else ns != [] && Fits(os[0], ns[0]) && Embeds(os[1..], ns[1..], open)
  }

  /** The place the backward scan over '?' at the end of the mask stops at. */
  function BackOver(p: string, b: nat): (r: nat)
    requires b < |p|
    ensures r <= b && (r > 0 ==> p[r] != '?') && forall i | r < i <= b :: p[i] == '?'
  {
    if b > 0 && p[b] == '?' then BackOver(p, b - 1) else b
  }

  /** The mask ends with a star and then only '?', and this star is not its first character. */
  predicate EndsOpen(p: string) {
    p != "" && var b := BackOver(p, |p| - 1); b > 0 && p[b] == '*' && p[b - 1] != '\\'
  }

  /** match2patterns. */
  predicate Match2Patterns(p: string, q: string) {
    Embeds(Tokens(p), Tokens(q), EndsOpen(p))
  }

  // ---------------------------------------------------------------- the loop

  predicate StarEmbeds(os: seq<Tok>, ns: seq<Tok>, open: bool) {
    exists k | 0 <= k <= |ns| :: Embeds(os, ns[k..], open)
  }

  /** Since the place to fall back to, `oa` and `na`, items were taken one by one up to `os` and `ns`. */
  ghost predicate Run(oa: seq<Tok>, na: seq<Tok>, os: seq<Tok>, ns: seq<Tok>) {
    && |os| <= |oa|
    && var c := |oa| - |os|;
       c <= |na| && os == oa[c..] && ns == na[c..] && forall i | 0 <= i < c :: Fits(oa[i], na[i])
  }

  /** The first items, none of them a star, take as many items each time. */
  lemma {:induction false} FirstItems(os: seq<Tok>, ns: seq<Tok>, c: nat, open: bool)
    requires c <= |os| && forall i | 0 <= i < c :: os[i] != Star
    ensures Embeds(os, ns, open) ==> c <= |ns| && Embeds(os[c..], ns[c..], open)
    ensures c <= |ns| && (forall i | 0 <= i < c :: Fits(os[i], ns[i])) && Embeds(os[c..], ns[c..], open) ==> Embeds(os, ns, open)
    decreases c
  {
    if c == 0 {
      assert os[0..] == os && ns[0..] == ns;
    } else if ns != [] {
      FirstItems(os[1..], ns[1..], c - 1, open);
      assert os[1..][c - 1..] == os[c..];
      if c <= |ns| {
        assert ns[1..][c - 1..] == ns[c..];
        assert (forall i | 0 <= i < c :: Fits(os[i], ns[i])) ==> forall i | 0 <= i < c - 1 :: Fits(os[1..][i], ns[1..][i]);
      }
    }
  }

  lemma RunEmbeds(oa: seq<Tok>, na: seq<Tok>, os: seq<Tok>, ns: seq<Tok>, open: bool)
    requires Run(oa, na, os, ns)
    ensures Embeds(oa, na, open) <==> Embeds(os, ns, open)
  {
    FirstItems(oa, na, |oa| - |os|, open);
    hide Embeds;
  }

  lemma RunShifted(oa: seq<Tok>, na: seq<Tok>, os: seq<Tok>, ns: seq<Tok>, k: nat, open: bool)
    requires Run(oa, na, os, ns) && k <= |na| && Embeds(oa, na[k..], open)
    ensures k <= |ns| && Embeds(os, ns[k..], open)
  {
    var c := |oa| - |os|;
    FirstItems(oa, na[k..], c, open);
    assert na[k..][c..] == ns[k..];
    hide Embeds;
  }

  /** Reaching the next star at the first possible place loses nothing. */
  lemma NextStarReached(oa: seq<Tok>, na: seq<Tok>, os: seq<Tok>, ns: seq<Tok>, open: bool)
    requires Run(oa, na, os, ns) && os != [] && os[0] == Star
    ensures StarEmbeds(oa, na, open) <==> StarEmbeds(os[1..], ns, open)
  {
    RunEmbeds(oa, na, os, ns, open);
    assert na[0..] == na;
    if k :| 0 <= k <= |na| && Embeds(oa, na[k..], open) {
      RunShifted(oa, na, os, ns, k, open);
      var j :| 0 <= j <= |ns[k..]| && Embeds(os[1..], ns[k..][j..], open);
      assert ns[k..][j..] == ns[k + j..];
    }
  }

  lemma MoreStars(os: seq<Tok>, ns: seq<Tok>, open: bool)
    requires os != [] && os[0] == Star
    ensures StarEmbeds(os, ns, open) <==> StarEmbeds(os[1..], ns, open)
  {
    if k :| 0 <= k <= |ns| && Embeds(os, ns[k..], open) {
      var j :| 0 <= j <= |ns[k..]| && Embeds(os[1..], ns[k..][j..], open);
      assert ns[k..][j..] == ns[k + j..];
    }
    assert ns[0..] == ns;
  }

  /** The items do not fit here: the next try starts one item further on. */
  lemma FallBackItem(oa: seq<Tok>, na: seq<Tok>, open: bool)
    requires na != [] && !Embeds(oa, na, open)
    ensures StarEmbeds(oa, na, open) <==> StarEmbeds(oa, na[1..], open)
  {
    hide Embeds;
    assert na[0..] == na;
    if k :| 0 <= k <= |na| && Embeds(oa, na[k..], open) {
      assert na[1..][k - 1..] == na[k..];
    }
    if k :| 0 <= k <= |na[1..]| && Embeds(oa, na[1..][k..], open) {
      assert na[1..][k..] == na[k + 1..];
    }
  }

  /** The new mask is used up, and the old one asks for more. */
  lemma NothingLeft(oa: seq<Tok>, na: seq<Tok>, os: seq<Tok>, open: bool)
    requires Run(oa, na, os, []) && os != [] && os[0] != Star
    ensures !StarEmbeds(oa, na, open)
  {
    if k :| 0 <= k <= |na| && Embeds(oa, na[k..], open) {
      RunShifted(oa, na, os, [], k, open);
    }
  }

  /** What is still to be decided, in front of the first star and behind one. */
  ghost predicate Pending(oa: seq<Tok>, na: seq<Tok>, os: seq<Tok>, ns: seq<Tok>, wild: bool, open: bool) {
    if wild then StarEmbeds(oa, na, open) else Embeds(os, ns, open)
  }

  lemma TokensAt(p: string, i: nat)
    requires i <= |p|
    ensures i == |p| ==> Tokens(p[i..]) == []
    ensures i < |p| ==> Tokens(p[i..]) != [] && Tokens(p[i..])[0] == TokAt(p, i) && Tokens(p[i..])[1..] == Tokens(p[Next(p, i)..])
  {
    if i < |p| {
      FirstTok(p, i);
    }
  }

  /** The test of the source on two items, with `mq` and `nq` saying which of them were escaped. */
  predicate SameItem(mc: char, mq: bool, nc: char, nq: bool) {
    (mc == '*' && !mq) || ((!mq || nq) && ToLower(mc) == ToLower(nc)) || (mc == '?' && !mq && (nc != '*' || nq))
  }

  predicate Escaped(p: string, i: nat) {
    i + 1 < |p| && p[i] == '\\' && IsWild(p[i + 1])
  }

  lemma SameItemFits(p: string, m: nat, q: string, n: nat)
    requires m < |p| && n < |q| && TokAt(p, m) != Star
    ensures var m1, n1 := if Escaped(p, m) then m + 1 else m, if Escaped(q, n) then n + 1 else n;
            && Next(p, m) == m1 + 1 && Next(q, n) == n1 + 1
            && (SameItem(p[m1], Escaped(p, m), q[n1], Escaped(q, n)) <==> Fits(TokAt(p, m), TokAt(q, n)))
  {
    EscapedWidth(p, m);
    EscapedWidth(q, n);
    hide Escaped, Width, TokAt, Next, Head;
    WildsFold(p[if Escaped(p, m) then m + 1 else m], q[if Escaped(q, n) then n + 1 else n]);
  }

  lemma EscapedWidth(p: string, m: nat)
    requires m < |p|
    ensures Next(p, m) == if Escaped(p, m) then m + 2 else m + 1
    ensures TokAt(p, m) == if Escaped(p, m) then Lit(p[m + 1])
                           else if p[m] == '*' then Star else if p[m] == '?' then Any else Lit(p[m])
    ensures Escaped(p, m) ==> IsWild(p[m + 1])
  {
    assert p[m..][0] == p[m] && (m + 1 < |p| ==> p[m..][1] == p[m + 1]);
  }

  lemma WildsFold(a: char, b: char)
    ensures IsWild(a) && ToLower(a) == ToLower(b) ==> a == b
    ensures IsWild(b) && ToLower(a) == ToLower(b) ==> a == b
  {
  }

  /** The scan over stars. */
  method SkipStars(p: string, from: nat, ghost ns: seq<Tok>, ghost open: bool) returns (m: nat)
    requires from < |p| && p[from] == '*'
    ensures from < m <= |p| && (m < |p| ==> p[m] != '*')
    ensures StarEmbeds(Tokens(p[m..]), ns, open) <==> StarEmbeds(Tokens(p[from..])[1..], ns, open)
  {
    hide StarEmbeds, Tokens, TokAt, Next;
    m := from + 1;
    EscapedWidth(p, from);
    TokensAt(p, from);
    while m < |p| && p[m] == '*'
      invariant from < m <= |p|
      invariant StarEmbeds(Tokens(p[m..]), ns, open) <==> StarEmbeds(Tokens(p[from..])[1..], ns, open)
    {
      EscapedWidth(p, m);
      TokensAt(p, m);
      MoreStars(Tokens(p[m..]), ns, open);
      m := m + 1;
    }
  }

  /** The look back over '?' at the end. */
  method LooksOpen(p: string) returns (open: bool)
    ensures open == EndsOpen(p)
  {
    if p == "" {
      return false;
    }
    var b: nat := |p| - 1;
    while b > 0 && p[b] == '?'
      invariant b < |p| && BackOver(p, |p| - 1) == BackOver(p, b)
    {
      b := b - 1;
    }
    open := p[b] == '*' && b > 0 && p[b - 1] != '\\';
  }

  lemma RunStarts(os: seq<Tok>, ns: seq<Tok>)
    ensures Run(os, ns, os, ns)
  {
  }

  lemma RunGoesOn(oa: seq<Tok>, na: seq<Tok>, os: seq<Tok>, ns: seq<Tok>)
    requires Run(oa, na, os, ns) && os != [] && ns != [] && Fits(os[0], ns[0])
    ensures Run(oa, na, os[1..], ns[1..])
  {
    var c := |oa| - |os|;
    assert oa[c] == os[0] && na[c] == ns[0];
  }

  /** One item more has been taken. */
  lemma TookItem(oa: seq<Tok>, na: seq<Tok>, os: seq<Tok>, ns: seq<Tok>, wild: bool, open: bool)
    requires os != [] && os[0] != Star && ns != [] && Fits(os[0], ns[0]) && (wild ==> Run(oa, na, os, ns))
    ensures Pending(oa, na, os, ns, wild, open) <==> Pending(oa, na, os[1..], ns[1..], wild, open)
    ensures wild ==> Run(oa, na, os[1..], ns[1..])
  {
    if wild {
      RunGoesOn(oa, na, os, ns);
    }
    hide Run, StarEmbeds;
  }

  /** The items do not fit: without a star that decides it, and otherwise the next try starts one item further on. */
  lemma Misfit(oa: seq<Tok>, na: seq<Tok>, os: seq<Tok>, ns: seq<Tok>, wild: bool, open: bool)
    requires ns != [] && !Embeds(os, ns, open) && (wild ==> Run(oa, na, os, ns))
    ensures !wild ==> !Pending(oa, na, os, ns, wild, open)
    ensures wild ==> na != [] && (Pending(oa, na, os, ns, wild, open) <==> Pending(oa, na[1..], oa, na[1..], wild, open))
    ensures wild && os != oa ==> na[1..] != []
  {
    hide Embeds, StarEmbeds;
    if wild {
      RunEmbeds(oa, na, os, ns, open);
      FallBackItem(oa, na, open);
    }
  }

  lemma StarMet(oa: seq<Tok>, na: seq<Tok>, os: seq<Tok>, ns: seq<Tok>, wild: bool, open: bool)
    requires os != [] && os[0] == Star && (wild ==> Run(oa, na, os, ns))
    ensures Pending(oa, na, os, ns, wild, open) <==> StarEmbeds(os[1..], ns, open)
  {
    if wild {
      NextStarReached(oa, na, os, ns, open);
    }
  }

  lemma AllTaken(oa: seq<Tok>, na: seq<Tok>, ns: seq<Tok>, wild: bool, open: bool)
    requires (ns == [] || open) && (wild ==> Run(oa, na, [], ns))
    ensures Pending(oa, na, [], ns, wild, open)
  {
    if wild {
      RunEmbeds(oa, na, [], ns, open);
      assert na[0..] == na;
    }
  }

  lemma UsedUp(oa: seq<Tok>, na: seq<Tok>, os: seq<Tok>, wild: bool, open: bool)
    requires os != [] && os[0] != Star && (wild ==> Run(oa, na, os, []))
    ensures !Pending(oa, na, os, [], wild, open)
  {
    if wild {
      NothingLeft(oa, na, os, open);
    }
  }

  /** mmatch: true where the source answers 0. */
  method MMatch(oldMask: string, newMask: string) returns (encloses: bool)
    ensures encloses <==> Match2Patterns(oldMask, newMask)
  {
    hide Pending, Run, Tokens, TokAt, Next, EndsOpen, SameItem, StarEmbeds;
    var p, q := oldMask, newMask;
    var m: nat, n: nat, ma: nat, na: nat, wild := 0, 0, 0, 0, false;
    ghost var open := EndsOpen(p);
    Undecided(p, q);
    while true
      invariant ma <= m <= |p| && n <= |q| && na <= |q|
      invariant wild && ma < |p| ==> p[ma] != '*'
      invariant wild ==> Run(Tokens(p[ma..]), Tokens(q[na..]), Tokens(p[m..]), Tokens(q[n..]))
      invariant Match2Patterns(p, q) <==> Pending(Tokens(p[ma..]), Tokens(q[na..]), Tokens(p[m..]), Tokens(q[n..]), wild, open)
      decreases |p| - ma, |q| - na, |p| - m
    {
      if m < |p| && p[m] == '*' {
        TokensAt(p, m);
        EscapedWidth(p, m);
        StarMet(Tokens(p[ma..]), Tokens(q[na..]), Tokens(p[m..]), Tokens(q[n..]), wild, open);
        m := SkipStars(p, m, Tokens(q[n..]), open);
        wild, ma, na := true, m, n;
        RunStarts(Tokens(p[m..]), Tokens(q[n..]));
        BehindStar(Tokens(p[m..]), Tokens(q[n..]), open);
      }
      TokensAt(p, m);
      TokensAt(q, n);
      if m == |p| {
        var looksOpen := LooksOpen(p);
        if n == |q| || looksOpen {
          AllTaken(Tokens(p[ma..]), Tokens(q[na..]), Tokens(q[n..]), wild, open);
          return true;
        }
        Misfit(Tokens(p[ma..]), Tokens(q[na..]), Tokens(p[m..]), Tokens(q[n..]), wild, open);
        if !wild {
          return false;
        }
        TokensAt(q, na);
        TokensAt(p, ma);
        m, na := ma, Next(q, na);
        n := na;
        RunStarts(Tokens(p[m..]), Tokens(q[n..]));
        TokensAt(q, n);
      } else if n == |q| {
        EscapedWidth(p, m);
        UsedUp(Tokens(p[ma..]), Tokens(q[na..]), Tokens(p[m..]), wild, open);
        return false;
      }
      // at the end of the old mask the terminating characters are compared
      assert m < |p| ==> n < |q| && p[m] != '*';
      var mq, nq := Escaped(p, m), Escaped(q, n);
      var m1, n1 := if mq then m + 1 else m, if nq then n + 1 else n;
      if m < |p| {
        EscapedWidth(p, m);
        SameItemFits(p, m, q, n);
      }
      if m == |p| && n == |q| {
        // nothing moves
      } else if m < |p| && SameItem(p[m1], mq, q[n1], nq) {
        TookItem(Tokens(p[ma..]), Tokens(q[na..]), Tokens(p[m..]), Tokens(q[n..]), wild, open);
        m, n := m1 + 1, n1 + 1;
      } else {
        Misfit(Tokens(p[ma..]), Tokens(q[na..]), Tokens(p[m..]), Tokens(q[n..]), wild, open);
        if !wild {
          return false;
        }
        TokensAt(q, na);
        m, na := ma, Next(q, na);
        n := na;
        RunStarts(Tokens(p[m..]), Tokens(q[n..]));
      }
    }
  }

  lemma Undecided(p: string, q: string)
    ensures Match2Patterns(p, q) <==> Pending(Tokens(p[0..]), Tokens(q[0..]), Tokens(p[0..]), Tokens(q[0..]), false, EndsOpen(p))
  {
    assert p[0..] == p && q[0..] == q;
  }

  lemma BehindStar(os: seq<Tok>, ns: seq<Tok>, open: bool)
    ensures Pending(os, ns, os, ns, true, open) <==> StarEmbeds(os, ns, open)
  {
  }

  // ---------------------------------------------------------------- what it means

  /** What the rest of a mask matches is the rest of what the mask matches. */
  lemma {:induction false} MatchSplits(ns: seq<Tok>, s: string, k: nat) returns (i: nat)
    requires MatchTokens(ns, s) && k <= |ns|
    ensures i <= |s| && MatchTokens(ns[..k], s[..i]) && MatchTokens(ns[k..], s[i..])
    decreases k
  {
    hide MatchTokens, TakesSome;
    if k == 0 {
      i := 0;
      NothingSplit(ns, s);
    } else {
      var j := FirstTakes(ns, s);
      i := MatchSplits(ns[1..], s[j..], k - 1);
      assert ns[1..][k - 1..] == ns[k..] && s[j..][i..] == s[j + i..];
      MatchJoins(ns, s, k, j, i);
      i := j + i;
    }
  }

  lemma NothingSplit(ns: seq<Tok>, s: string)
    requires MatchTokens(ns, s)
    ensures MatchTokens(ns[..0], s[..0]) && MatchTokens(ns[0..], s[0..])
  {
    assert ns[0..] == ns && s[0..] == s && ns[..0] == [];
  }

  /** How many characters the first item takes. */
  lemma FirstTakes(ns: seq<Tok>, s: string) returns (j: nat)
    requires ns != [] && MatchTokens(ns, s)
    ensures j <= |s| && MatchTokens(ns[1..], s[j..]) && TakesSome(ns[0], s[..j])
  {
    if ns[0] == Star {
      j :| 0 <= j <= |s| && MatchTokens(ns[1..], s[j..]);
    } else {
      j := 1;
    }
  }

  predicate TakesSome(t: Tok, s: string) {
    t == Star || (|s| == 1 && Takes(t, s[0]))
  }

  lemma FirstJoins(ns: seq<Tok>, s: string, j: nat)
    requires ns != [] && j <= |s| && TakesSome(ns[0], s[..j]) && MatchTokens(ns[1..], s[j..])
    ensures MatchTokens(ns, s)
  {
    assert j > 0 ==> s[0] == s[..j][0];
    hide ToLower;
  }

  lemma MatchJoins(ns: seq<Tok>, s: string, k: nat, j: nat, i: nat)
    requires 0 < k <= |ns| && j + i <= |s| && TakesSome(ns[0], s[..j])
    requires MatchTokens(ns[1..][..k - 1], s[j..][..i])
    ensures MatchTokens(ns[..k], s[..j + i])
  {
    var ts, t := ns[..k], s[..j + i];
    assert ts[0] == ns[0] && ts[1..] == ns[1..][..k - 1] && t[j..] == s[j..][..i] && t[..j] == s[..j];
    FirstJoins(ts, t, j);
    hide MatchTokens, TakesSome;
  }

  lemma {:induction false} MatchConcat(a: seq<Tok>, b: seq<Tok>, x: string, y: string)
    requires MatchTokens(a, x) && MatchTokens(b, y)
    ensures MatchTokens(a + b, x + y)
    decreases |a|
  {
    hide MatchTokens, TakesSome;
    if a == [] {
      NothingMatched(x);
      assert a + b == b && x + y == y;
    } else {
      var j := FirstTakes(a, x);
      MatchConcat(a[1..], b, x[j..], y);
      assert (a + b)[1..] == a[1..] + b && (x + y)[j..] == x[j..] + y && (x + y)[..j] == x[..j];
      FirstJoins(a + b, x + y, j);
    }
  }

  lemma NothingMatched(x: string)
    requires MatchTokens([], x)
    ensures x == ""
  {
  }

  /** Where nothing is left over, the old mask matches whatever the new one matches. */
  lemma {:induction false} EmbedsSound(os: seq<Tok>, ns: seq<Tok>, s: string)
    requires Embeds(os, ns, false) && MatchTokens(ns, s)
    ensures MatchTokens(os, s)
    decreases |os|
  {
    if os != [] {
      if os[0] == Star {
        var k :| 0 <= k <= |ns| && Embeds(os[1..], ns[k..], false);
        var i := MatchSplits(ns, s, k);
        EmbedsSound(os[1..], ns[k..], s[i..]);
      } else {
        EmbedsSound(os[1..], ns[1..], s[1..]);
      }
    }
  }

  /** Where items may be left over, the old mask fits the items before them. */
  lemma {:induction false} EmbedsPrefix(os: seq<Tok>, ns: seq<Tok>) returns (r: nat)
    requires Embeds(os, ns, true)
    ensures r <= |ns| && Embeds(os, ns[..r], false)
    decreases |os|
  {
    if os == [] {
      r := 0;
      assert ns[..0] == [];
    } else if os[0] == Star {
      var k :| 0 <= k <= |ns| && Embeds(os[1..], ns[k..], true);
      r := EmbedsPrefix(os[1..], ns[k..]);
      assert ns[k..][..r] == ns[..k + r][k..];
      r := k + r;
    } else {
      r := EmbedsPrefix(os[1..], ns[1..]);
      assert ns[1..][..r] == ns[..1 + r][1..] && ns[..1 + r][0] == ns[0];
      r := 1 + r;
    }
  }

  /** How many items are not stars. */
  function Solids(ts: seq<Tok>): nat {
    if ts == [] then 0 else (if ts[0] == Star then 0 else 1) + Solids(ts[1..])
  }

  /** The shortest string a mask matches: an x for each '?'. */
  function Shortest(ts: seq<Tok>): (s: string)
    ensures |s| == Solids(ts)
  {
    if ts == [] then ""
    else (match ts[0] case Star => "" case Any => "x" case Lit(c) => [c]) + Shortest(ts[1..])
  }

  lemma {:induction false} ShortestMatches(ts: seq<Tok>)
    ensures MatchTokens(ts, Shortest(ts))
  {
    if ts != [] {
      ShortestMatches(ts[1..]);
      var s, j := Shortest(ts), if ts[0] == Star then 0 else 1;
      assert s[j..] == Shortest(ts[1..]);
      assert j > 0 ==> s[..j] == [s[0]];
      assert TakesSome(ts[0], s[..j]);
      FirstJoins(ts, s, j);
      hide MatchTokens, TakesSome;
    }
  }

  /** Items that end with a star and then only '?'. */
  predicate OpenItems(os: seq<Tok>) {
    exists i | 0 <= i < |os| :: os[i] == Star && forall j | i < j < |os| :: os[j] == Any
  }

  lemma {:induction false} AnysMatch(os: seq<Tok>, s: string)
    requires |s| == |os| && forall j | 0 <= j < |os| :: os[j] == Any
    ensures MatchTokens(os, s)
  {
    if os != [] {
      AnysMatch(os[1..], s[1..]);
    }
  }

  lemma {:induction false} AnysLength(os: seq<Tok>, s: string)
    requires MatchTokens(os, s) && forall j | 0 <= j < |os| :: os[j] == Any
    ensures |s| == |os|
  {
    if os != [] {
      AnysLength(os[1..], s[1..]);
    }
  }

  /** Such items match whatever comes behind something they match. */
  lemma {:induction false} OpenMatchesMore(os: seq<Tok>, s: string, more: string)
    requires OpenItems(os) && MatchTokens(os, s)
    ensures MatchTokens(os, s + more)
    decreases |os|
  {
    hide MatchTokens, TakesSome;
    var i :| 0 <= i < |os| && os[i] == Star && forall j | i < j < |os| :: os[j] == Any;
    var k := FirstTakes(os, s);
    if i == 0 {
      assert forall j | 0 <= j < |os[1..]| :: os[1..][j] == os[j + 1] == Any;
      AnysLength(os[1..], s[k..]);
      k := |s + more| - |os[1..]|;
      AnysMatch(os[1..], (s + more)[k..]);
      StarTakes((s + more)[..k]);
    } else {
      assert os[1..][i - 1] == os[i] && forall j | i - 1 < j < |os[1..]| :: os[1..][j] == os[j + 1];
      OpenMatchesMore(os[1..], s[k..], more);
      assert (s + more)[k..] == s[k..] + more && (s + more)[..k] == s[..k];
    }
    FirstJoins(os, s + more, k);
  }

  lemma StarTakes(s: string)
    ensures TakesSome(Star, s)
  {
  }

  lemma {:induction false} TokensOfAnys(p: string)
    requires forall i | 0 <= i < |p| :: p[i] == '?'
    ensures |Tokens(p)| == |p| && forall i | 0 <= i < |p| :: Tokens(p)[i] == Any
  {
    if p != "" {
      TokensOfAnys(p[1..]);
      assert Tokens(p) == [Any] + Tokens(p[1..]);
    }
  }

  /** A wildcard that is not escaped starts an item. */
  lemma {:induction false} TokensSplit(p: string, b: nat)
    requires b < |p| && IsWild(p[b]) && (b > 0 ==> p[b - 1] != '\\')
    ensures Tokens(p) == Tokens(p[..b]) + Tokens(p[b..])
    decreases b
  {
    hide Width, Head, IsWild;
    if b == 0 {
      assert p[..0] == "" && p[0..] == p;
    } else {
      var w, t := Width(p), p[..b];
      FirstOfPrefix(p, b);
      assert p[w..][..b - w] == t[w..] && p[w..][b - w..] == p[b..];
      TokensSplit(p[w..], b - w);
    }
  }

  lemma FirstOfPrefix(p: string, b: nat)
    requires 0 < b < |p| && IsWild(p[b]) && p[b - 1] != '\\'
    ensures Width(p) <= b && Width(p[..b]) == Width(p) && Head(p[..b]) == Head(p)
  {
    var t := p[..b];
    assert t[0] == p[0] && (b > 1 ==> t[1] == p[1]);
  }

  lemma StarToken(p: string, b: nat)
    requires b < |p| && p[b] == '*'
    ensures Tokens(p[b..]) == [Star] + Tokens(p[b + 1..])
  {
    assert p[b..][0] == '*' && p[b..][1..] == p[b + 1..];
  }

  lemma OpenTokens(p: string)
    requires EndsOpen(p)
    ensures OpenItems(Tokens(p))
  {
    var b := BackOver(p, |p| - 1);
    TokensSplit(p, b);
    var rest := p[b + 1..];
    StarToken(p, b);
    assert forall i | 0 <= i < |rest| :: rest[i] == p[b + 1 + i];
    hide Tokens;
    TokensOfAnys(rest);
    var ts, i := Tokens(p), |Tokens(p[..b])|;
    assert ts == Tokens(p[..b]) + ([Star] + Tokens(rest));
    assert ts[i] == Star;
    forall j | i < j < |ts| ensures ts[j] == Any {
      assert ts[j] == Tokens(rest)[j - i - 1];
    }
  }

  /** When match2patterns says yes, the first mask matches whatever the second matches. */
  lemma Match2PatternsSound(p: string, q: string, s: string)
    requires Match2Patterns(p, q) && Match(q, s)
    ensures Match(p, s)
  {
    var os, ns := Tokens(p), Tokens(q);
    if EndsOpen(p) {
      OpenTokens(p);
      var r := EmbedsPrefix(os, ns);
      var i := MatchSplits(ns, s, r);
      EmbedsSound(os, ns[..r], s[..i]);
      OpenMatchesMore(os, s[..i], s[i..]);
      assert s[..i] + s[i..] == s;
    } else {
      EmbedsSound(os, ns, s);
    }
  }

  /** It may say no although the first mask does match whatever the second matches: "*?" and "?*" mean the same. Where
      the mask ends open, as "a*?" does, it says yes. */
  lemma StarInFrontMisses(s: string)
    ensures Match("?*", s) ==> Match("*?", s)
    ensures !Match2Patterns("*?", "?*") && Match2Patterns("a*?", "a?*")
  {
    FrontTokens();
    NoFrontEmbedding([Any, Star]);
    FrontEmbedding([Lit('a'), Star, Any], [Lit('a'), Any, Star]);
    SomeCharacters(s);
    hide MatchTokens, Embeds, Tokens, EndsOpen;
  }

  lemma SomeCharacters(s: string)
    ensures MatchTokens([Any, Star], s) ==> MatchTokens([Star, Any], s)
  {
    assert [Star, Any][1..] == [Any] && [Any][1..] == [];
    if MatchTokens([Any, Star], s) {
      var k := |s| - 1;
      assert s[k..][1..] == "";
      assert MatchTokens([Any], s[k..]);
    }
  }

  lemma FrontEmbedding(os: seq<Tok>, ns: seq<Tok>)
    requires os == [Lit('a'), Star, Any] && ns == [Lit('a'), Any, Star]
    ensures Embeds(os, ns, true)
  {
    assert os[1..] == [Star, Any] && [Star, Any][1..] == [Any] && [Any][1..] == [];
    var rest := ns[1..];
    assert rest == [Any, Star] && rest[0..] == rest;
    assert Embeds([Any], rest[0..], true);
    assert Embeds([Star, Any], rest, true);
  }

  lemma FrontTokens()
    ensures Tokens("*?") == [Star, Any] && Tokens("?*") == [Any, Star]
    ensures Tokens("a*?") == [Lit('a'), Star, Any] && Tokens("a?*") == [Lit('a'), Any, Star]
    ensures !EndsOpen("*?") && EndsOpen("a*?")
  {
    assert "*?"[1..] == "?" && "?*"[1..] == "*" && "?"[1..] == "" && "*"[1..] == "";
    assert "a*?"[1..] == "*?" && "a?*"[1..] == "?*";
    assert BackOver("*?", 1) == 0 && BackOver("a*?", 2) == 1;
  }

  lemma NoFrontEmbedding(ns: seq<Tok>)
    requires ns == [Any, Star]
    ensures !Embeds([Star, Any], ns, false)
  {
    assert [Star, Any][1..] == [Any] && [Any][1..] == [];
    forall k | 0 <= k <= 2 ensures !Embeds([Any], ns[k..], false) {
      assert k == 0 ==> ns[k..] == ns && ns[1..] == [Star];
      assert k == 1 ==> ns[k..] == [Star];
    }
  }
}
