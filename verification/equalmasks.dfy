/** Two masks that ircd_strcmp takes for equal: when they match the same strings. The network folds a backslash and a bar
    together, and only a backslash makes the wildcard behind it stand for itself. */
module EqualMasks {
  import opened IrcStrings
  import opened MaskPatterns

  /** A backslash in front of a wildcard stands at the same places of both. */
  predicate SameEscapes(p: string, q: string)
    requires |p| == |q|
  {
    forall i | 0 < i < |p| && IsWild(p[i]) :: p[i - 1] == '\\' <==> q[i - 1] == '\\'
  }

  predicate SameTok(a: Tok, b: Tok) {
    match (a, b)
    case (Star, Star) => true
    case (Any, Any) => true
    case (Lit(c), Lit(d)) => ToLower(c) == ToLower(d)
    case _ => false
  }

  predicate SameToks(ts: seq<Tok>, us: seq<Tok>) {
    |ts| == |us| && forall i | 0 <= i < |ts| :: SameTok(ts[i], us[i])
  }

  lemma SameChars(p: string, q: string)
    requires SameText(p, q)
    ensures |p| == |q| && forall i | 0 <= i < |p| :: ToLower(p[i]) == ToLower(q[i])
    ensures forall i | 0 <= i < |p| :: (IsWild(p[i]) ==> q[i] == p[i]) && (IsWild(q[i]) ==> q[i] == p[i])
    ensures forall i | 0 <= i < |p| :: (p[i] == '\\' ==> q[i] == '\\' || q[i] == '|') && (q[i] == '\\' ==> p[i] == '\\' || p[i] == '|')
  {
    assert |Fold(p)| == |p| && |Fold(q)| == |q|;
    forall i | 0 <= i < |p| ensures ToLower(p[i]) == ToLower(q[i]) {
      assert Fold(p)[i] == Fold(q)[i];
    }
  }

  lemma SameRest(p: string, q: string, k: nat)
    requires SameText(p, q) && k <= |p|
    ensures k <= |q| && SameText(p[k..], q[k..])
  {
    SameChars(p, q);
    assert Fold(p[k..]) == Fold(p)[k..] && Fold(q[k..]) == Fold(q)[k..];
  }

  predicate FirstAlike(p: string, q: string)
    requires |p| == |q|
  {
    |p| > 1 && IsWild(p[1]) ==> (p[0] == '\\' <==> q[0] == '\\')
  }

  lemma SameHeads(p: string, q: string)
    requires SameText(p, q) && p != "" && |q| == |p|
    ensures FirstAlike(p, q) <==> Width(p) == Width(q)
    ensures FirstAlike(p, q) ==> SameTok(Head(p), Head(q))
    ensures !FirstAlike(p, q) ==> Head(p).Lit? && Head(q).Lit? && ToLower(Head(p).c) != ToLower(Head(q).c)
  {
    SameChars(p, q);
    hide SameText;
  }

  /** Escapes behind the first item. */
  lemma RestEscapes(p: string, q: string)
    requires SameText(p, q) && p != "" && |q| == |p| && FirstAlike(p, q) && Width(q) == Width(p)
    ensures var w := Width(p); SameEscapes(p, q) <==> SameEscapes(p[w..], q[w..])
  {
    SameChars(p, q);
    hide SameText;
    var w := Width(p);
    var a, b := p[w..], q[w..];
    if SameEscapes(p, q) {
      forall i | 0 < i < |a| && IsWild(a[i]) ensures a[i - 1] == '\\' <==> b[i - 1] == '\\' {
        assert a[i] == p[w + i] && a[i - 1] == p[w + i - 1] && b[i - 1] == q[w + i - 1];
      }
    }
    if SameEscapes(a, b) {
      forall i | 0 < i < |p| && IsWild(p[i]) ensures p[i - 1] == '\\' <==> q[i - 1] == '\\' {
        if i > w {
          assert a[i - w] == p[i] && a[i - w - 1] == p[i - 1] && b[i - w - 1] == q[i - 1];
        }
      }
    }
  }

  // ---------------------------------------------------------------- the same escapes

  lemma {:induction false} SameItems(p: string, q: string)
    requires SameText(p, q) && |p| == |q| && SameEscapes(p, q)
    ensures SameToks(Tokens(p), Tokens(q))
  {
    hide SameText, Width, Head, SameTok, IsWild;
    if p != "" {
      assert FirstAlike(p, q) by { EscapesAlike(p, q); }
      SameHeads(p, q);
      RestEscapes(p, q);
      SameRest(p, q, Width(p));
      SameItems(p[Width(p)..], q[Width(p)..]);
      hide SameEscapes;
    }
  }

  lemma EscapesAlike(p: string, q: string)
    requires |p| == |q| && SameEscapes(p, q)
    ensures FirstAlike(p, q)
  {
  }

  lemma SameToksRest(ts: seq<Tok>, us: seq<Tok>)
    requires SameToks(ts, us) && ts != []
    ensures SameTok(ts[0], us[0]) && SameToks(ts[1..], us[1..])
  {
    forall i | 0 <= i < |ts| - 1 ensures SameTok(ts[1..][i], us[1..][i]) {
      assert SameTok(ts[i + 1], us[i + 1]);
    }
  }

  lemma {:induction false} SameToksMatch(ts: seq<Tok>, us: seq<Tok>, s: string)
    requires SameToks(ts, us) && MatchTokens(ts, s)
    ensures MatchTokens(us, s)
    decreases |ts|
  {
    if ts != [] {
      SameToksRest(ts, us);
      if ts[0] == Star {
        var k :| 0 <= k <= |s| && MatchTokens(ts[1..], s[k..]);
        SameToksMatch(ts[1..], us[1..], s[k..]);
      } else {
        SameToksMatch(ts[1..], us[1..], s[1..]);
      }
    }
  }

  // ---------------------------------------------------------------- different escapes

  /** The items of two masks agree up to place `k`, where both have a literal, and not the same one. */
  predicate DifferAt(ts: seq<Tok>, us: seq<Tok>, k: nat) {
    && k < |ts| && k < |us| && SameToks(ts[..k], us[..k])
    && ts[k].Lit? && us[k].Lit? && ToLower(ts[k].c) != ToLower(us[k].c)
  }

  lemma {:induction false} FirstDifference(p: string, q: string) returns (k: nat)
    requires SameText(p, q) && |p| == |q| && !SameEscapes(p, q)
    ensures DifferAt(Tokens(p), Tokens(q), k)
  {
    hide SameText, Width, Head, SameTok, IsWild, FirstAlike, DifferAt;
    SomeChar(p, q);
    SameHeads(p, q);
    if !FirstAlike(p, q) {
      k := 0;
      DifferFirst(Tokens(p), Tokens(q));
    } else {
      var w := Width(p);
      RestEscapes(p, q);
      SameRest(p, q, w);
      var j := FirstDifference(p[w..], q[w..]);
      k := j + 1;
      DifferLater(Tokens(p), Tokens(q), j);
    }
  }

  lemma SomeChar(p: string, q: string)
    requires |p| == |q| && !SameEscapes(p, q)
    ensures p != "" && q != ""
  {
  }

  lemma DifferFirst(ts: seq<Tok>, us: seq<Tok>)
    requires ts != [] && us != [] && ts[0].Lit? && us[0].Lit? && ToLower(ts[0].c) != ToLower(us[0].c)
    ensures DifferAt(ts, us, 0)
  {
  }

  lemma DifferLater(ts: seq<Tok>, us: seq<Tok>, j: nat)
    requires ts != [] && us != [] && SameTok(ts[0], us[0]) && DifferAt(ts[1..], us[1..], j)
    ensures DifferAt(ts, us, j + 1)
  {
    hide SameTok, ToLower;
    var a, b, c, d := ts[..j + 1], us[..j + 1], ts[1..][..j], us[1..][..j];
    forall i | 0 <= i < |a| ensures SameTok(a[i], b[i]) {
      if i > 0 {
        assert a[i] == c[i - 1] && b[i] == d[i - 1];
      }
    }
  }

  lemma {:induction false} AtLeast(ts: seq<Tok>, s: string)
    requires MatchTokens(ts, s)
    ensures |s| >= Solids(ts)
    decreases |ts|
  {
    if ts != [] {
      if ts[0] == Star {
        var k :| 0 <= k <= |s| && MatchTokens(ts[1..], s[k..]);
        AtLeast(ts[1..], s[k..]);
      } else {
        AtLeast(ts[1..], s[1..]);
      }
    }
  }

  /** In a string as short as can be every item but a star takes one character. */
  lemma {:induction false} NoneToSpare(ts: seq<Tok>, s: string, k: nat)
    requires MatchTokens(ts, s) && |s| == Solids(ts) && k < |ts| && ts[k].Lit?
    ensures Solids(ts[..k]) < |s| && ToLower(ts[k].c) == ToLower(s[Solids(ts[..k])])
    decreases |ts|
  {
    if k == 0 {
      assert ts[..0] == [];
    } else {
      var rest := ts[1..];
      assert ts[..k] == [ts[0]] + rest[..k - 1] && ts[..k][1..] == rest[..k - 1];
      if ts[0] == Star {
        var j :| 0 <= j <= |s| && MatchTokens(rest, s[j..]);
        AtLeast(rest, s[j..]);
        assert s[j..] == s;
        NoneToSpare(rest, s, k - 1);
      } else {
        NoneToSpare(rest, s[1..], k - 1);
        var n := Solids(rest[..k - 1]);
        assert s[1..][n] == s[n + 1];
      }
    }
  }

  lemma {:induction false} SameSolids(ts: seq<Tok>, us: seq<Tok>)
    requires SameToks(ts, us)
    ensures Solids(ts) == Solids(us)
  {
    if ts != [] {
      SameToksRest(ts, us);
      SameSolids(ts[1..], us[1..]);
    }
  }

  /** Items that differ like this are told apart by the shortest string of one of them. */
  lemma ToldApart(ts: seq<Tok>, us: seq<Tok>, k: nat) returns (s: string)
    requires DifferAt(ts, us, k)
    ensures MatchTokens(ts, s) != MatchTokens(us, s)
  {
    hide MatchTokens, SameToks, ToLower;
    ShortestMatches(ts);
    ShortestMatches(us);
    SameSolids(ts[..k], us[..k]);
    s := if Solids(ts) <= Solids(us) then Shortest(ts) else Shortest(us);
    if MatchTokens(us, s) && MatchTokens(ts, s) {
      AtLeast(us, s);
      AtLeast(ts, s);
      NoneToSpare(us, s, k);
      NoneToSpare(ts, s, k);
      assert false;
    }
  }

  // ---------------------------------------------------------------- both directions

  /** Masks that are equal up to case match the same strings exactly when the same wildcards stand for themselves. */
  lemma EqualMatchExactly(p: string, q: string)
    requires SameText(p, q)
    ensures |p| == |q|
    ensures (forall s :: Match(p, s) <==> Match(q, s)) <==> SameEscapes(p, q)
  {
    SameChars(p, q);
    hide Tokens, MatchTokens, SameText, SameEscapes;
    if SameEscapes(p, q) {
      SameItems(p, q);
      SameToksBack(Tokens(p), Tokens(q));
      forall s ensures Match(p, s) <==> Match(q, s) {
        if Match(p, s) {
          SameToksMatch(Tokens(p), Tokens(q), s);
        }
        if Match(q, s) {
          SameToksMatch(Tokens(q), Tokens(p), s);
        }
      }
    } else {
      var k := FirstDifference(p, q);
      var s := ToldApart(Tokens(p), Tokens(q), k);
      assert Match(p, s) != Match(q, s);
    }
  }

  lemma SameToksBack(ts: seq<Tok>, us: seq<Tok>)
    requires SameToks(ts, us)
    ensures SameToks(us, ts)
  {
    forall i | 0 <= i < |us| ensures SameTok(us[i], ts[i]) {
      assert SameTok(ts[i], us[i]);
    }
  }
}
