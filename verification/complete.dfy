/** When mmatch of lib/irc_string.c misses nothing: for which masks it says yes of every mask that they enclose. */
module MaskCompleteness {
  import opened IrcStrings
  import opened MaskMatch
  import opened MaskPatterns

  /** The first mask matches whatever the second matches. */
  ghost predicate Includes(p: string, q: string) {
    forall s :: Match(q, s) ==> Match(p, s)
  }

  predicate StarLeft(ts: seq<Tok>, i: nat) {
    0 < i <= |ts| && ts[i - 1] == Star
  }

  /** Where items may be left over at the end, the end counts as a star. */
  predicate StarRight(ts: seq<Tok>, i: nat, open: bool) {
    if i + 1 < |ts| then ts[i + 1] == Star else open
  }

  /** Every '?' has a star on both sides, or on neither. */
  predicate Balanced(ts: seq<Tok>, open: bool) {
    forall i | 0 <= i < |ts| && ts[i] == Any :: StarLeft(ts, i) <==> StarRight(ts, i, open)
  }

  /** A character no literal takes. */
  predicate Spare(ts: seq<Tok>, z: char) {
    forall i | 0 <= i < |ts| && ts[i].Lit? :: ToLower(ts[i].c) != ToLower(z)
  }

  predicate Solid(ts: seq<Tok>) {
    forall i | 0 <= i < |ts| :: ts[i] != Star
  }

  // ---------------------------------------------------------------- strings that tell masks apart

  function Blank(z: char, n: nat): (s: string)
    ensures |s| == n && forall i | 0 <= i < n :: s[i] == z
  {
    seq(n, _ => z)
  }

  function FilledOne(t: Tok, z: char, n: nat): (s: string)
    ensures |s| == if t == Star then n else 1
    ensures TakesSome(t, s)
  {
    match t case Star => Blank(z, n) case Any => [z] case Lit(c) => [c]
  }

  /** A string the mask matches: `n` spare characters for a star, and one for a '?'. */
  function Filled(ts: seq<Tok>, z: char, n: nat): string {
    if ts == [] then "" else FilledOne(ts[0], z, n) + Filled(ts[1..], z, n)
  }

  lemma {:induction false} FilledMatches(ts: seq<Tok>, z: char, n: nat)
    ensures MatchTokens(ts, Filled(ts, z, n))
  {
    if ts != [] {
      FilledMatches(ts[1..], z, n);
      FilledParts(ts, z, n);
      FirstJoins(ts, Filled(ts, z, n), |FilledOne(ts[0], z, n)|);
      hide MatchTokens, FilledOne, TakesSome;
    }
  }

  lemma FilledParts(ts: seq<Tok>, z: char, n: nat)
    requires ts != []
    ensures var m, s := |FilledOne(ts[0], z, n)|, Filled(ts, z, n);
            && m <= |s| && s[..m] == FilledOne(ts[0], z, n) && s[m..] == Filled(ts[1..], z, n)
  {
    hide FilledOne;
  }

  lemma {:induction false} FilledJoins(a: seq<Tok>, b: seq<Tok>, z: char, n: nat)
    ensures Filled(a + b, z, n) == Filled(a, z, n) + Filled(b, z, n)
  {
    hide FilledOne;
    if a == [] {
      assert a + b == b;
    } else {
      assert (a + b)[1..] == a[1..] + b;
      FilledJoins(a[1..], b, z, n);
    }
  }

  /** Items without stars take a character each. */
  lemma {:induction false} SolidMatch(ts: seq<Tok>, s: string)
    requires Solid(ts)
    ensures MatchTokens(ts, s) <==> |s| == |ts| && forall i | 0 <= i < |ts| :: Takes(ts[i], s[i])
    decreases |ts|
  {
    if ts != [] && s != "" {
      SolidMatch(ts[1..], s[1..]);
      assert forall i | 0 <= i < |ts| - 1 && i < |s| - 1 :: ts[1..][i] == ts[i + 1] && s[1..][i] == s[i + 1];
      assert |s| == |ts| && (forall i | 0 <= i < |ts| - 1 :: Takes(ts[1..][i], s[1..][i])) && Takes(ts[0], s[0]) ==>
          forall i | 0 <= i < |ts| :: Takes(ts[i], if i == 0 then s[0] else s[1..][i - 1]);
    }
    hide ToLower;
  }

  /** Items without stars in front of others take the first characters. */
  lemma SolidFront(ts: seq<Tok>, c: nat, s: string)
    requires c <= |ts| && Solid(ts[..c]) && MatchTokens(ts, s)
    ensures c <= |s| && (forall i | 0 <= i < c :: Takes(ts[i], s[i])) && MatchTokens(ts[c..], s[c..])
  {
    hide MatchTokens, Takes;
    var i := MatchSplits(ts, s, c);
    SolidMatch(ts[..c], s[..i]);
    assert forall k | 0 <= k < c && c == i :: ts[..c][k] == ts[k] && s[..i][k] == s[k];
  }

  // ---------------------------------------------------------------- a chunk without stars, and where it can be found

  predicate FitsAt(c: seq<Tok>, ts: seq<Tok>, k: nat) {
    k + |c| <= |ts| && forall i | 0 <= i < |c| :: Fits(c[i], ts[k + i])
  }

  lemma FitsTaken(a: Tok, t: Tok, z: char, n: nat)
    requires a != Star && t != Star && Spare([a], z) && Takes(a, FilledOne(t, z, n)[0])
    ensures Fits(a, t)
  {
    assert [a][0] == a;
  }

  lemma SpareOne(ts: seq<Tok>, z: char, i: nat)
    requires Spare(ts, z) && i < |ts|
    ensures Spare([ts[i]], z) && (ts[i].Lit? ==> !Takes(ts[i], z))
  {
  }

  lemma NotBlank(a: Tok, s: string, i: nat, z: char, n: nat)
    requires i < |s| && i < n && Takes(a, s[i]) && !Takes(a, z)
    ensures !(n <= |s| && forall j | 0 <= j < n :: s[j] == z)
  {
  }

  /** A chunk that ends with a literal and takes the first characters fits the first items. */
  lemma {:induction false} FrontFits(c: seq<Tok>, ts: seq<Tok>, z: char, n: nat)
    requires c != [] && Solid(c) && c[|c| - 1].Lit? && Spare(c, z) && n >= |c|
    requires |c| <= |Filled(ts, z, n)| && forall i | 0 <= i < |c| :: Takes(c[i], Filled(ts, z, n)[i])
    ensures FitsAt(c, ts, 0)
    decreases |c|
  {
    hide Takes, Fits, FilledOne, Filled;
    var s := Filled(ts, z, n);
    FilledNothing(z, n);
    FilledParts(ts, z, n);
    SpareOne(c, z, |c| - 1);
    SpareOne(c, z, 0);
    FilledFirst(ts, z, n);
    NotBlank(c[|c| - 1], s, |c| - 1, z, n);
    if ts[0] == Star {
      assert false;
    } else {
      FitsTaken(c[0], ts[0], z, n);
      if |c| > 1 {
        var c', s' := c[1..], s[1..];
        assert forall i | 0 <= i < |c'| :: c'[i] == c[i + 1] && s'[i] == s[i + 1];
        assert forall i | 0 <= i < |c'| :: Takes(c'[i], s'[i]);
        FrontFits(c', ts[1..], z, n);
        assert forall i | 0 <= i < |c'| :: Fits(c[i + 1], ts[1..][i]);
      }
    }
  }

  lemma FilledNothing(z: char, n: nat)
    ensures Filled([], z, n) == ""
  {
  }

  /** How the string begins. */
  lemma FilledFirst(ts: seq<Tok>, z: char, n: nat)
    requires ts != []
    ensures var s := Filled(ts, z, n);
            if ts[0] == Star then n <= |s| && forall i | 0 <= i < n :: s[i] == z
            else s != "" && s[0] == FilledOne(ts[0], z, n)[0] && s[1..] == Filled(ts[1..], z, n)
  {
    FilledParts(ts, z, n);
    var s := Filled(ts, z, n);
    assert forall i | 0 <= i < |FilledOne(ts[0], z, n)| :: s[i] == FilledOne(ts[0], z, n)[i];
    hide Filled;
  }

  /** A chunk that begins and ends with literals is found in the string only where it fits the items. */
  lemma {:induction false} FoundFits(c: seq<Tok>, ts: seq<Tok>, z: char, n: nat, k: nat) returns (j: nat)
    requires c != [] && Solid(c) && c[0].Lit? && c[|c| - 1].Lit? && Spare(c, z) && n >= |c|
    requires k + |c| <= |Filled(ts, z, n)| && forall i | 0 <= i < |c| :: Takes(c[i], Filled(ts, z, n)[k + i])
    ensures FitsAt(c, ts, j)
    decreases |ts|
  {
    hide Takes, Fits, FilledOne, Filled, FitsAt;
    var s := Filled(ts, z, n);
    FilledNothing(z, n);
    FilledParts(ts, z, n);
    FilledFirst(ts, z, n);
    SpareOne(c, z, 0);
    var m := |FilledOne(ts[0], z, n)|;
    assert s[k + 0] == s[k];
    if k >= m {
      forall i | 0 <= i < |c| ensures Takes(c[i], s[m..][k - m + i]) {
        assert s[m..][k - m + i] == s[k + i];
      }
      var j' := FoundFits(c, ts[1..], z, n, k - m);
      FitsFurther(c, ts, j');
      j := j' + 1;
    } else if ts[0] == Star {
      assert false;
    } else {
      forall i | 0 <= i < |c| ensures Takes(c[i], s[i]) {
        assert s[k + i] == s[i];
      }
      FrontFits(c, ts, z, n);
      j := 0;
    }
  }

  lemma FitsFurther(c: seq<Tok>, ts: seq<Tok>, j: nat)
    requires ts != [] && FitsAt(c, ts[1..], j)
    ensures FitsAt(c, ts, j + 1)
  {
    hide Fits;
    forall i | 0 <= i < |c| ensures Fits(c[i], ts[j + 1 + i]) {
      assert ts[1..][j + i] == ts[j + 1 + i];
    }
  }

  /** A chunk that matches the whole string fits the items one by one. */
  lemma {:induction false} WholeFits(c: seq<Tok>, ts: seq<Tok>, z: char, n: nat)
    requires Solid(c) && Spare(c, z) && n > |c| && MatchTokens(c, Filled(ts, z, n))
    ensures Embeds(c, ts, false)
    decreases |c|
  {
    hide Fits, FilledOne, Filled, Takes;
    SolidMatch(c, Filled(ts, z, n));
    FilledNothing(z, n);
    if ts != [] {
      FilledFirst(ts, z, n);
    }
    if c != [] {
      assert ts != [] && ts[0] != Star;
      SpareOne(c, z, 0);
      FitsTaken(c[0], ts[0], z, n);
      WholeFits(c[1..], ts[1..], z, n);
    } else {
      assert ts == [];
    }
  }

  /** A chunk that begins with a literal and matches the end of the string fits the last items. */
  lemma {:induction false} EndFits(c: seq<Tok>, ts: seq<Tok>, z: char, n: nat, k: nat) returns (j: nat)
    requires c != [] && Solid(c) && c[0].Lit? && Spare(c, z) && n > |c|
    requires k <= |Filled(ts, z, n)| && MatchTokens(c, Filled(ts, z, n)[k..])
    ensures j <= |ts| && Embeds(c, ts[j..], false)
    decreases |ts|
  {
    hide Fits, FilledOne, Filled, Takes, Embeds, MatchTokens;
    var s := Filled(ts, z, n);
    SolidMatch(c, s[k..]);
    FilledNothing(z, n);
    FilledParts(ts, z, n);
    FilledFirst(ts, z, n);
    SpareOne(c, z, 0);
    assert s[k..][0] == s[k];
    var m := |FilledOne(ts[0], z, n)|;
    if k >= m {
      assert s[k..] == s[m..][k - m..];
      var j' := EndFits(c, ts[1..], z, n, k - m);
      assert ts[1..][j'..] == ts[j' + 1..];
      j := j' + 1;
    } else if ts[0] == Star {
      assert false;
    } else {
      assert s[0..] == s && ts[0..] == ts;
      WholeFits(c, ts, z, n);
      j := 0;
    }
  }

  // ---------------------------------------------------------------- nothing is missed

  lemma {:induction false} EmbedsOpen(os: seq<Tok>, ns: seq<Tok>, open: bool)
    requires Embeds(os, ns, false)
    ensures Embeds(os, ns, open)
    decreases |os|
  {
    if os != [] {
      if os[0] == Star {
        var k :| 0 <= k <= |ns| && Embeds(os[1..], ns[k..], false);
        EmbedsOpen(os[1..], ns[k..], open);
      } else {
        EmbedsOpen(os[1..], ns[1..], open);
      }
    }
    hide Fits;
  }

  /** What items behind a star match or take, they do behind anything. */
  lemma StarExtends(os: seq<Tok>, s: string, k: nat)
    requires os != [] && os[0] == Star && k <= |s| && MatchTokens(os, s[k..])
    ensures MatchTokens(os, s)
  {
    var j :| 0 <= j <= |s[k..]| && MatchTokens(os[1..], s[k..][j..]);
    assert s[k..][j..] == s[k + j..];
  }

  lemma StarTakesMore(os: seq<Tok>, ns: seq<Tok>, k: nat, open: bool)
    requires os != [] && os[0] == Star && k <= |ns|
    ensures Embeds(os[1..], ns[k..], open) ==> Embeds(os, ns, open)
    ensures Embeds(os, ns[k..], open) ==> Embeds(os, ns, open)
  {
    if Embeds(os, ns[k..], open) {
      var j :| 0 <= j <= |ns[k..]| && Embeds(os[1..], ns[k..][j..], open);
      assert ns[k..][j..] == ns[k + j..];
    }
  }

  lemma BalancedTail(os: seq<Tok>, open: bool)
    requires os != [] && Balanced(os, open) && (os[0] != Star || |os| == 1 || os[1] != Any)
    ensures Balanced(os[1..], open)
  {
    var ts := os[1..];
    forall i | 0 <= i < |ts| && ts[i] == Any ensures StarLeft(ts, i) <==> StarRight(ts, i, open) {
      assert os[i + 1] == Any;
    }
  }

  lemma BalancedFrom(os: seq<Tok>, c: nat, open: bool)
    requires Balanced(os, open) && c < |os| && os[c] == Star
    ensures Balanced(os[c..], open)
  {
    var ts := os[c..];
    forall i | 0 <= i < |ts| && ts[i] == Any ensures StarLeft(ts, i) <==> StarRight(ts, i, open) {
      assert os[i + c] == Any;
    }
  }

  lemma SpareFrom(os: seq<Tok>, c: nat, z: char)
    requires Spare(os, z) && c <= |os|
    ensures Spare(os[c..], z) && Spare(os[..c], z)
  {
    forall i | 0 <= i < |os| - c && os[c..][i].Lit? ensures ToLower(os[c..][i].c) != ToLower(z) {
      assert os[c + i].Lit?;
    }
  }

  /** A mask that does not begin with a star does not match a string that begins with too many spare characters. */
  lemma {:induction false} TooManySpare(os: seq<Tok>, s: string, z: char, n: nat, open: bool)
    requires os != [] && os[0] != Star && Balanced(os, open) && Spare(os, z)
    requires |os| < n <= |s| && forall i | 0 <= i < n :: s[i] == z
    ensures !MatchTokens(os, s)
    decreases |os|
  {
    SpareOne(os, z, 0);
    if os[0] == Any {
      assert StarLeft(os, 0) <==> StarRight(os, 0, open);
      if |os| > 1 {
        BalancedTail(os, open);
        SpareFrom(os, 1, z);
        assert forall i | 0 <= i < n - 1 :: s[1..][i] == s[i + 1];
        TooManySpare(os[1..], s[1..], z, n - 1, open);
      } else {
        assert os[1..] == [];
      }
    }
    hide ToLower;
  }

  /** `s` is matched by the new items and not by the old ones. */
  predicate Separates(os: seq<Tok>, ns: seq<Tok>, s: string) {
    MatchTokens(ns, s) && !MatchTokens(os, s)
  }

  /** The first item is not a star: it takes the first item of the other mask, or there is a string at once. */
  lemma {:induction false} SeparateItem(os: seq<Tok>, ns: seq<Tok>, open: bool, z: char, n: nat) returns (s: string)
    requires os != [] && os[0] != Star && Balanced(os, open) && Spare(os, z) && n > |os| && !Embeds(os, ns, open)
    ensures Separates(os, ns, s)
    decreases |os|, |ns|, 0
  {
    hide Fits, FilledOne, Filled, Takes;
    FilledMatches(ns, z, n);
    if ns != [] {
      FilledFirst(ns, z, n);
    }
    if ns == [] {
      s := "";
    } else if ns[0] == Star {
      s := Filled(ns, z, n);
      TooManySpare(os, s, z, n, open);
    } else if Fits(os[0], ns[0]) {
      BalancedTail(os, open);
      SpareFrom(os, 1, z);
      var s' := Separate(os[1..], ns[1..], open, z, n);
      s := FilledOne(ns[0], z, n) + s';
      assert s[1..] == s' && s[..1] == FilledOne(ns[0], z, n);
      FirstJoins(ns, s, 1);
    } else {
      s := Filled(ns, z, n);
      ItemMismatch(os[0], ns[0], z, n);
      SpareOne(os, z, 0);
      FirstTaken(os, s);
    }
  }

  lemma ItemMismatch(a: Tok, t: Tok, z: char, n: nat)
    requires a != Star && t != Star && !Fits(a, t) && Spare([a], z)
    ensures !Takes(a, FilledOne(t, z, n)[0])
  {
    assert [a][0] == a;
  }

  lemma FirstTaken(os: seq<Tok>, s: string)
    requires os != [] && os[0] != Star && s != "" && !Takes(os[0], s[0])
    ensures !MatchTokens(os, s)
  {
  }

  /** The length of the chunk without stars. */
  function ChunkLength(ts: seq<Tok>): (c: nat)
    ensures c <= |ts| && Solid(ts[..c]) && (c < |ts| ==> ts[c] == Star)
  {
    if ts == [] || ts[0] == Star then 0
    else
      var c := 1 + ChunkLength(ts[1..]);
      assert ts[..c] == [ts[0]] + ts[1..][..c - 1];
      c
  }

  lemma {:induction false} LeastFit(c: seq<Tok>, ts: seq<Tok>, k: nat) returns (k0: nat)
    requires FitsAt(c, ts, k)
    ensures FitsAt(c, ts, k0) && forall j | 0 <= j < k0 :: !FitsAt(c, ts, j)
    decreases k
  {
    if j :| 0 <= j < k && FitsAt(c, ts, j) {
      k0 := LeastFit(c, ts, j);
    } else {
      k0 := k;
    }
  }

  /** Nothing but a chunk behind the star: its place is the end. */
  lemma LastChunk(os: seq<Tok>, ns: seq<Tok>, open: bool, z: char, n: nat)
    requires |os| > 1 && os[0] == Star && os[1].Lit? && Solid(os[1..]) && Spare(os[1..], z)
    requires n > |os| && !Embeds(os, ns, open)
    ensures !MatchTokens(os, Filled(ns, z, n))
  {
    hide Filled, Spare;
    var s := Filled(ns, z, n);
    if k :| 0 <= k <= |s| && MatchTokens(os[1..], s[k..]) {
      hide MatchTokens, Embeds;
      var j := EndFits(os[1..], ns, z, n, k);
      EmbedsOpen(os[1..], ns[j..], open);
      StarTakesMore(os, ns, j, open);
    }
  }

  /** A chunk in front of a star ends with a literal. */
  lemma ChunkEnds(os: seq<Tok>, len: nat, open: bool)
    requires |os| > 1 && os[0] == Star && os[1].Lit? && Balanced(os, open)
    requires len + 1 < |os| && Solid(os[1..][..len]) && os[len + 1] == Star
    ensures len > 0 && os[len].Lit?
  {
    assert len > 0 ==> os[len] == os[1..][..len][len - 1];
    assert len > 1 ==> os[len - 1] == os[1..][..len][len - 2];
    assert os[len] == Any ==> (StarLeft(os, len) <==> StarRight(os, len, open));
  }

  lemma RestFails(os: seq<Tok>, ns: seq<Tok>, len: nat, k: nat, open: bool)
    requires os != [] && os[0] == Star && len < |os| && Solid(os[1..][..len])
    requires FitsAt(os[1..][..len], ns, k) && !Embeds(os, ns, open)
    ensures k + len <= |ns| && !Embeds(os[len + 1..], ns[k + len..], open)
  {
    var rest, from := os[1..], ns[k..];
    forall i | 0 <= i < len ensures Fits(rest[i], from[i]) && rest[i] != Star {
      assert rest[i] == rest[..len][i] && from[i] == ns[k + i];
    }
    FirstItems(rest, from, len, open);
    assert rest[len..] == os[len + 1..] && from[len..] == ns[k + len..];
    StarTakesMore(os, ns, k, open);
    hide Embeds, Fits;
  }

  /** The chunk fits nowhere. */
  lemma NoChunk(os: seq<Tok>, ns: seq<Tok>, len: nat, z: char, n: nat)
    requires os != [] && os[0] == Star && 0 < len < |os| && Solid(os[1..][..len]) && Spare(os[1..][..len], z) && n > |os|
    requires os[1].Lit? && os[len].Lit? && forall k | 0 <= k <= |ns| :: !FitsAt(os[1..][..len], ns, k)
    ensures !MatchTokens(os, Filled(ns, z, n))
  {
    hide Filled, Spare, Solid;
    var s := Filled(ns, z, n);
    if k :| 0 <= k <= |s| && MatchTokens(os[1..], s[k..]) {
      hide MatchTokens;
      SolidFront(os[1..], len, s[k..]);
      ChunkTaken(os, len, s, k);
      var j := FoundFits(os[1..][..len], ns, z, n, k);
      FitsBounds(os[1..][..len], ns, j);
    }
  }

  lemma FitsBounds(c: seq<Tok>, ts: seq<Tok>, k: nat)
    requires FitsAt(c, ts, k)
    ensures k + |c| <= |ts|
  {
  }

  lemma ChunkTaken(os: seq<Tok>, len: nat, s: string, k: nat)
    requires os != [] && len < |os| && k <= |s| && len <= |s[k..]|
    requires forall i | 0 <= i < len :: Takes(os[1..][i], s[k..][i])
    ensures forall i | 0 <= i < len :: Takes(os[1..][..len][i], s[k + i])
  {
    hide Takes;
    forall i | 0 <= i < len ensures Takes(os[1..][..len][i], s[k + i]) {
      assert s[k..][i] == s[k + i] && os[1..][..len][i] == os[1..][i];
    }
  }

  /** The chunk does not end before its first place, so what follows it is matched by what follows that place. */
  lemma NotEarlier(os: seq<Tok>, ns: seq<Tok>, len: nat, k0: nat, z: char, n: nat, s': string)
    requires os != [] && os[0] == Star && 0 < len && len + 1 < |os| && os[len + 1] == Star
    requires Solid(os[1..][..len]) && Spare(os[1..][..len], z) && n > |os| && os[1].Lit? && os[len].Lit?
    requires FitsAt(os[1..][..len], ns, k0) && forall j | 0 <= j < k0 :: !FitsAt(os[1..][..len], ns, j)
    requires !MatchTokens(os[len + 1..], s')
    ensures k0 + len <= |ns| && !MatchTokens(os, Filled(ns[..k0 + len], z, n) + s')
  {
    FitsBounds(os[1..][..len], ns, k0);
    hide Filled, Spare, Solid, FitsAt, Takes;
    var s := Filled(ns[..k0 + len], z, n) + s';
    if k :| 0 <= k <= |s| && MatchTokens(os[1..], s[k..]) {
      hide MatchTokens;
      SolidFront(os[1..], len, s[k..]);
      ChunkTaken(os, len, s, k);
      assert os[1..][len..] == os[len + 1..] && s[k..][len..] == s[k + len..];
      RestMatched(os, ns, len, k0, z, n, s', k);
    }
  }

  lemma RestMatched(os: seq<Tok>, ns: seq<Tok>, len: nat, k0: nat, z: char, n: nat, s': string, k: nat)
    requires 0 < len && len + 1 < |os| && os[len + 1] == Star && Solid(os[1..][..len]) && Spare(os[1..][..len], z) && n > |os|
    requires os[1].Lit? && os[len].Lit? && k0 + len <= |ns|
    requires FitsAt(os[1..][..len], ns, k0) && forall j | 0 <= j < k0 :: !FitsAt(os[1..][..len], ns, j)
    requires var s := Filled(ns[..k0 + len], z, n) + s';
             && k + len <= |s| && MatchTokens(os[len + 1..], s[k + len..])
             && forall i | 0 <= i < len :: Takes(os[1..][..len][i], s[k + i])
    ensures MatchTokens(os[len + 1..], s')
  {
    hide Filled, Spare, Solid, FitsAt, Takes, MatchTokens;
    var f := Filled(ns[..k0 + len], z, n);
    if k + len >= |f| {
      assert (f + s')[k + len..] == s'[k + len - |f|..];
      StarExtends(os[len + 1..], s', k + len - |f|);
    } else {
      var j := FoundEarlier(os, ns, len, k0, z, n, s', k);
    }
  }

  lemma FoundEarlier(os: seq<Tok>, ns: seq<Tok>, len: nat, k0: nat, z: char, n: nat, s': string, k: nat) returns (j: nat)
    requires os != [] && 0 < len < |os| && Solid(os[1..][..len]) && Spare(os[1..][..len], z) && n > |os| && os[1].Lit? && os[len].Lit?
    requires FitsAt(os[1..][..len], ns, k0) && k0 + len <= |ns|
    requires k + len < |Filled(ns[..k0 + len], z, n)|
    requires forall i | 0 <= i < len :: Takes(os[1..][..len][i], (Filled(ns[..k0 + len], z, n) + s')[k + i])
    ensures j < k0 && FitsAt(os[1..][..len], ns, j)
  {
    hide Filled, Spare, Solid, Takes, FilledOne;
    var c, e := os[1..][..len], k0 + len;
    var f, g := Filled(ns[..e], z, n), Filled(ns[..e - 1], z, n);
    assert Fits(c[len - 1], ns[k0 + (len - 1)]);
    hide Fits;
    assert ns[..e] == ns[..e - 1] + [ns[e - 1]];
    FilledJoins(ns[..e - 1], [ns[e - 1]], z, n);
    FilledAlone(ns[e - 1], z, n);
    forall i | 0 <= i < len ensures Takes(c[i], g[k + i]) {
      assert (f + s')[k + i] == g[k + i];
    }
    j := FoundFits(c, ns[..e - 1], z, n, k);
    FitsInLonger(c, ns, e - 1, j);
  }

  lemma FilledAlone(t: Tok, z: char, n: nat)
    ensures Filled([t], z, n) == FilledOne(t, z, n)
  {
    assert [t][1..] == [];
    FilledNothing(z, n);
    hide FilledOne;
  }

  lemma FitsInLonger(c: seq<Tok>, ts: seq<Tok>, e: nat, j: nat)
    requires e <= |ts| && FitsAt(c, ts[..e], j)
    ensures FitsAt(c, ts, j) && j + |c| <= e
  {
    hide Fits;
    forall i | 0 <= i < |c| ensures Fits(c[i], ts[j + i]) {
      assert ts[..e][j + i] == ts[j + i];
    }
  }

  /** A string the new mask matches and the old one does not, whenever mmatch says no. */
  lemma {:induction false} Separate(os: seq<Tok>, ns: seq<Tok>, open: bool, z: char, n: nat) returns (s: string)
    requires Balanced(os, open) && Spare(os, z) && n > |os| && !Embeds(os, ns, open)
    ensures Separates(os, ns, s)
    decreases |os|, |ns|, 1
  {
    hide Embeds, Balanced, Spare, FilledOne;
    if os == [] {
      NothingEmbeds(ns, open);
      s := Filled(ns, z, n);
      FilledMatches(ns, z, n);
      FilledFirst(ns, z, n);
    } else if os[0] != Star {
      s := SeparateItem(os, ns, open, z, n);
    } else if |os| == 1 {
      OneStarEmbeds(os, ns, open);
      assert false;
    } else if os[1] == Star {
      s := SeparateStars(os, ns, open, z, n);
    } else if os[1] == Any {
      s := SeparateAny(os, ns, open, z, n);
    } else {
      s := SeparateChunk(os, ns, open, z, n);
    }
  }

  lemma NothingEmbeds(ns: seq<Tok>, open: bool)
    ensures Embeds([], ns, open) <==> open || ns == []
  {
  }

  lemma OneStarEmbeds(os: seq<Tok>, ns: seq<Tok>, open: bool)
    requires |os| == 1 && os[0] == Star
    ensures Embeds(os, ns, open)
  {
    assert os[1..] == [] && ns[|ns|..] == [];
    assert Embeds(os[1..], ns[|ns|..], open);
  }

  lemma {:induction false} SeparateStars(os: seq<Tok>, ns: seq<Tok>, open: bool, z: char, n: nat) returns (s: string)
    requires |os| > 1 && os[0] == Star && os[1] == Star
    requires Balanced(os, open) && Spare(os, z) && n > |os| && !Embeds(os, ns, open)
    ensures Separates(os, ns, s)
    decreases |os|, |ns|, 0
  {
    StarTakesMore(os, ns, 0, open);
    assert ns[0..] == ns;
    BalancedTail(os, open);
    SpareFrom(os, 1, z);
    s := Separate(os[1..], ns, open, z, n);
    if k :| 0 <= k <= |s| && MatchTokens(os[1..], s[k..]) {
      StarExtends(os[1..], s, k);
    }
    hide Embeds;
  }

  /** A '?' between two stars, or between a star and an open end. */
  lemma {:induction false} SeparateAny(os: seq<Tok>, ns: seq<Tok>, open: bool, z: char, n: nat) returns (s: string)
    requires |os| > 1 && os[0] == Star && os[1] == Any
    requires Balanced(os, open) && Spare(os, z) && n > |os| && !Embeds(os, ns, open)
    ensures Separates(os, ns, s)
    decreases |os|, |ns|, 0
  {
    hide Fits, FilledOne, Takes, Embeds;
    assert StarLeft(os, 1) <==> StarRight(os, 1, open);
    if ns == [] {
      s := "";
      NeedsOne(os, s);
    } else if ns[0] == Star {
      StarTakesMore(os, ns, 1, open);
      s := Separate(os, ns[1..], open, z, n);
      assert s[0..] == s;
    } else if |os| == 2 {
      AnyStep(os, ns, open);
      NothingEmbeds(ns[1..], open);
      assert false;
    } else {
      AnyStep(os, ns, open);
      BalancedFrom(os, 2, open);
      SpareFrom(os, 2, z);
      var s' := Separate(os[2..], ns[1..], open, z, n);
      s := FilledOne(ns[0], z, n) + s';
      assert s[1..] == s' && s[..1] == FilledOne(ns[0], z, n);
      FirstJoins(ns, s, 1);
      OneMoreThan(os, s);
    }
  }

  lemma AnyStep(os: seq<Tok>, ns: seq<Tok>, open: bool)
    requires |os| > 1 && os[0] == Star && os[1] == Any && ns != [] && ns[0] != Star
    ensures Embeds(os[2..], ns[1..], open) ==> Embeds(os, ns, open)
  {
    assert os[1..][1..] == os[2..] && ns[0..] == ns;
    StarTakesMore(os, ns, 0, open);
    AnyTakes(ns[0]);
    hide Fits;
  }

  lemma AnyTakes(t: Tok)
    requires t != Star
    ensures Fits(Any, t)
  {
  }

  lemma NeedsOne(os: seq<Tok>, s: string)
    requires |os| > 1 && os[0] == Star && os[1] == Any && s == ""
    ensures !MatchTokens(os, s)
  {
  }

  lemma OneMoreThan(os: seq<Tok>, s: string)
    requires |os| > 2 && os[0] == Star && os[1] == Any && os[2] == Star && s != "" && !MatchTokens(os[2..], s[1..])
    ensures !MatchTokens(os, s)
  {
    if k :| 0 <= k <= |s| && MatchTokens(os[1..], s[k..]) {
      assert os[1..][1..] == os[2..] && s[k..][1..] == s[1..][k..];
      StarExtends(os[2..], s[1..], k);
    }
  }

  /** A chunk that begins with a literal, behind a star. */
  lemma {:induction false} SeparateChunk(os: seq<Tok>, ns: seq<Tok>, open: bool, z: char, n: nat) returns (s: string)
    requires |os| > 1 && os[0] == Star && os[1].Lit?
    requires Balanced(os, open) && Spare(os, z) && n > |os| && !Embeds(os, ns, open)
    ensures Separates(os, ns, s)
    decreases |os|, |ns|, 0
  {
    hide MatchTokens, Embeds, Filled, Balanced, Spare, FitsAt, ChunkLength;
    var rest := os[1..];
    var len := ChunkLength(rest);
    var c := rest[..len];
    SpareFrom(os, 1, z);
    SpareFrom(rest, len, z);
    if len == |rest| {
      assert c == rest;
      s := Filled(ns, z, n);
      FilledMatches(ns, z, n);
      LastChunk(os, ns, open, z, n);
    } else {
      assert os[len + 1] == Star;
      ChunkEnds(os, len, open);
      if k :| 0 <= k <= |ns| && FitsAt(c, ns, k) {
        var k0 := LeastFit(c, ns, k);
        var e := k0 + len;
        RestFails(os, ns, len, k0, open);
        BalancedFrom(os, len + 1, open);
        SpareFrom(os, len + 1, z);
        var s' := Separate(os[len + 1..], ns[e..], open, z, n);
        s := Filled(ns[..e], z, n) + s';
        FilledMatches(ns[..e], z, n);
        MatchConcat(ns[..e], ns[e..], Filled(ns[..e], z, n), s');
        assert ns[..e] + ns[e..] == ns;
        NotEarlier(os, ns, len, k0, z, n, s');
      } else {
        s := Filled(ns, z, n);
        FilledMatches(ns, z, n);
        NoChunk(os, ns, len, z, n);
      }
    }
  }

  // ---------------------------------------------------------------- what is missed otherwise

  /** There is a star behind the first `j` items that are not stars and in front of the next one. */
  predicate StarBefore(ts: seq<Tok>, j: nat) {
    if ts == [] then false
    else if ts[0] == Star then j == 0 || StarBefore(ts[1..], j)
    else j > 0 && StarBefore(ts[1..], j - 1)
  }

  lemma {:induction false} EmbedsSolids(os: seq<Tok>, ns: seq<Tok>, open: bool)
    requires Embeds(os, ns, open)
    ensures Solids(os) <= Solids(ns)
    decreases |os|
  {
    hide Fits;
    if os != [] {
      if os[0] == Star {
        var k :| 0 <= k <= |ns| && Embeds(os[1..], ns[k..], open);
        EmbedsSolids(os[1..], ns[k..], open);
        SolidsFrom(ns, k);
      } else {
        FitsSolid(os[0], ns[0]);
        EmbedsSolids(os[1..], ns[1..], open);
      }
    }
  }

  lemma FitsSolid(a: Tok, t: Tok)
    requires Fits(a, t)
    ensures t != Star
  {
  }

  lemma {:induction false} SolidsFrom(ts: seq<Tok>, k: nat)
    requires k <= |ts|
    ensures Solids(ts[k..]) <= Solids(ts)
    ensures Solids(ts[k..]) == Solids(ts) ==> forall j | StarBefore(ts, j) :: j == 0 || StarBefore(ts[k..], j)
    decreases k
  {
    if k == 0 {
      assert ts[0..] == ts;
    } else {
      SolidsFrom(ts[1..], k - 1);
      assert ts[1..][k - 1..] == ts[k..];
    }
  }

  lemma {:induction false} StarBeforeBound(ts: seq<Tok>, j: nat)
    requires StarBefore(ts, j)
    ensures j <= Solids(ts)
  {
    if !(ts[0] == Star && j == 0) {
      StarBeforeBound(ts[1..], if ts[0] == Star then j else j - 1);
    }
  }

  /** Where both masks have as many items that are not stars, each takes its counterpart, so the old mask needs a star
      wherever the new one has one. */
  lemma {:induction false} StarsNeeded(os: seq<Tok>, ns: seq<Tok>, open: bool, j: nat)
    requires Embeds(os, ns, open) && Solids(os) == Solids(ns) && StarBefore(ns, j)
    ensures StarBefore(os, j) || (open && j == Solids(os))
    decreases |os|
  {
    hide Fits;
    StarBeforeBound(ns, j);
    if os != [] {
      if os[0] == Star {
        var k :| 0 <= k <= |ns| && Embeds(os[1..], ns[k..], open);
        EmbedsSolids(os[1..], ns[k..], open);
        SolidsFrom(ns, k);
        if j > 0 {
          StarsNeeded(os[1..], ns[k..], open, j);
        }
      } else {
        FitsSolid(os[0], ns[0]);
        StarsNeeded(os[1..], ns[1..], open, j - 1);
      }
    }
  }

  lemma {:induction false} SolidsJoin(a: seq<Tok>, b: seq<Tok>)
    ensures Solids(a + b) == Solids(a) + Solids(b)
    ensures forall m: nat | m > 0 :: StarBefore(a + b, Solids(a) + m) <==> StarBefore(b, m)
    ensures StarBefore(b, 0) ==> StarBefore(a + b, Solids(a))
    ensures (a == [] || a[|a| - 1] != Star) && StarBefore(a + b, Solids(a)) ==> StarBefore(b, 0)
  {
    if a == [] {
      assert a + b == b;
    } else {
      SolidsJoin(a[1..], b);
      assert (a + b)[1..] == a[1..] + b;
      assert |a| > 1 ==> a[1..][|a[1..]| - 1] == a[|a| - 1];
      forall m: nat | m > 0 ensures StarBefore(a + b, Solids(a) + m) <==> StarBefore(b, m) {
        assert StarBefore(a[1..] + b, Solids(a[1..]) + m) <==> StarBefore(b, m);
      }
      if a[|a| - 1] != Star {
        EndsSolid(a, b);
      }
    }
  }

  lemma {:induction false} EndsSolid(a: seq<Tok>, b: seq<Tok>)
    requires a != [] && a[|a| - 1] != Star
    ensures StarBefore(a + b, Solids(a)) ==> StarBefore(b, 0)
  {
    assert (a + b)[1..] == a[1..] + b;
    if |a| > 1 {
      EndsSolid(a[1..], b);
      SomeSolid(a[1..]);
    } else {
      assert a[1..] == [] && a[1..] + b == b;
    }
  }

  lemma {:induction false} SomeSolid(a: seq<Tok>)
    requires a != [] && a[|a| - 1] != Star
    ensures Solids(a) > 0
  {
    if |a| > 1 {
      SomeSolid(a[1..]);
    }
  }

  /** The two ways a star and a '?' can stand next to each other. */
  function Pair(starFirst: bool): seq<Tok> {
    if starFirst then [Star, Any] else [Any, Star]
  }

  function PairText(starFirst: bool): string {
    if starFirst then "*?" else "?*"
  }

  lemma PairSolids(starFirst: bool, y: seq<Tok>)
    ensures Solids(Pair(starFirst) + y) == 1 + Solids(y)
    ensures StarBefore(Pair(starFirst) + y, 0) <==> starFirst
    ensures StarBefore(Pair(starFirst) + y, 1) <==> !starFirst || StarBefore(y, 0)
  {
    var ts := Pair(starFirst) + y;
    assert ts[1..][1..] == y;
    assert ts[1] == if starFirst then Any else Star;
  }

  /** With the pair the other way round the old mask does not fit, where it has a star on one side of the '?' only. */
  lemma PairMissed(x: seq<Tok>, starFirst: bool, y: seq<Tok>, open: bool)
    requires if starFirst then (y == [] ==> !open) && (y != [] ==> y[0] != Star) else x == [] || x[|x| - 1] != Star
    ensures !Embeds(x + (Pair(starFirst) + y), x + (Pair(!starFirst) + y), open)
  {
    hide Embeds;
    var os, ns := x + (Pair(starFirst) + y), x + (Pair(!starFirst) + y);
    SolidsJoin(x, Pair(starFirst) + y);
    SolidsJoin(x, Pair(!starFirst) + y);
    PairSolids(starFirst, y);
    PairSolids(!starFirst, y);
    var j := Solids(x) + if starFirst then 1 else 0;
    NoneYet(y);
    assert StarBefore(ns, j) && !StarBefore(os, j) && !(open && j == Solids(os));
    if Embeds(os, ns, open) {
      StarsNeeded(os, ns, open, j);
    }
  }

  lemma NoneYet(y: seq<Tok>)
    ensures (y == [] || y[0] != Star) ==> !StarBefore(y, 0) && (y != [] ==> Solids(y) > 0)
  {
  }

  /** The order within the pair makes no difference to what is matched. */
  lemma PairSame(y: seq<Tok>, s: string, starFirst: bool)
    requires MatchTokens(Pair(!starFirst) + y, s)
    ensures MatchTokens(Pair(starFirst) + y, s)
  {
    var ns, os := Pair(!starFirst) + y, Pair(starFirst) + y;
    assert ns[1..][1..] == y && os[1..][1..] == y && ns[1] == Pair(!starFirst)[1] && os[1] == Pair(starFirst)[1];
    hide MatchTokens, TakesSome;
    var j := FirstTakes(ns, s);
    var i := FirstTakes(ns[1..], s[j..]);
    assert s[j..][i..] == s[j + i..];
    PairTaken(ns[0], ns[1], s[..j], s[j..][..i]);
    var j' := if starFirst then j + i - 1 else 1;
    var rest := s[j'..];
    assert rest[j + i - j'..] == s[j + i..];
    PairTakes(os[0], os[1], s[..j'], rest[..j + i - j']);
    FirstJoins(os[1..], rest, j + i - j');
    FirstJoins(os, s, j');
  }

  lemma PairTaken(a: Tok, b: Tok, x: string, y: string)
    requires (a == Star && b == Any) || (a == Any && b == Star)
    requires TakesSome(a, x) && TakesSome(b, y)
    ensures |x| + |y| >= 1
  {
  }

  lemma PairTakes(a: Tok, b: Tok, x: string, y: string)
    requires (a == Star && b == Any && |y| == 1) || (a == Any && b == Star && |x| == 1)
    ensures TakesSome(a, x) && TakesSome(b, y)
  {
  }

  lemma SwapSame(x: seq<Tok>, y: seq<Tok>, s: string, starFirst: bool)
    requires MatchTokens(x + (Pair(!starFirst) + y), s)
    ensures MatchTokens(x + (Pair(starFirst) + y), s)
  {
    hide MatchTokens, Pair;
    var ns, end := x + (Pair(!starFirst) + y), Pair(!starFirst) + y;
    var i := MatchSplits(ns, s, |x|);
    assert ns[..|x|] == x && ns[|x|..] == end;
    PairSame(y, s[i..], starFirst);
    MatchConcat(x, Pair(starFirst) + y, s[..i], s[i..]);
    assert s[..i] + s[i..] == s;
  }

  /** The place of a wildcard in the text. */
  lemma {:induction false} PlaceOf(p: string, i: nat) returns (a: nat)
    requires i < |Tokens(p)| && !Tokens(p)[i].Lit?
    ensures a < |p| && Tokens(p[..a]) == Tokens(p)[..i] && Tokens(p[a..]) == Tokens(p)[i..]
    ensures IsWild(p[a]) && (a > 0 ==> p[a - 1] != '\\')
    decreases i
  {
    hide IsWild, Tokens, Width, Head;
    TokensParts(p);
    if i == 0 {
      WildHead(p);
      NoFront(p);
      a := 0;
    } else {
      var w, rest := Width(p), p[Width(p)..];
      var a' := PlaceOf(rest, i - 1);
      a := w + a';
      assert p[a..] == rest[a'..];
      NotEscaping(p, a');
      TokensOfFront(p, a);
      PlaceShifts(Tokens(p), Head(p), Tokens(rest), i);
    }
  }

  lemma TokensParts(p: string)
    ensures p == "" ==> Tokens(p) == []
    ensures p != "" ==> Tokens(p) == [Head(p)] + Tokens(p[Width(p)..])
  {
  }

  lemma NoFront(p: string)
    ensures p[..0] == "" && p[0..] == p && Tokens(p[..0]) == [] && Tokens(p)[..0] == [] && Tokens(p)[0..] == Tokens(p)
  {
  }

  lemma TokensOfFront(p: string, a: nat)
    requires p != "" && Width(p) <= a <= |p|
    ensures Tokens(p[..a]) == [Head(p)] + Tokens(p[Width(p)..][..a - Width(p)])
  {
    SameFront(p, a);
    hide Width, Head;
    assert p[..a][Width(p)..] == p[Width(p)..][..a - Width(p)];
  }

  lemma PlaceShifts(ts: seq<Tok>, t: Tok, rest: seq<Tok>, i: nat)
    requires ts == [t] + rest && 0 < i < |ts|
    ensures ts[i..] == rest[i - 1..] && ts[..i] == [t] + rest[..i - 1] && ts[i] == rest[i - 1]
  {
  }

  lemma WildHead(p: string)
    requires p != ""
    ensures !Head(p).Lit? ==> IsWild(p[0]) && Width(p) == 1
  {
  }

  lemma NotEscaping(p: string, a: nat)
    requires p != "" && a < |p[Width(p)..]| && IsWild(p[Width(p)..][a]) && (a > 0 ==> p[Width(p)..][a - 1] != '\\')
    ensures p[Width(p) + a - 1] != '\\'
  {
  }

  lemma SameFront(p: string, a: nat)
    requires p != "" && Width(p) <= a <= |p|
    ensures a > 0 && Head(p[..a]) == Head(p) && Width(p[..a]) == Width(p)
  {
    var t := p[..a];
    assert t[0] == p[0] && (a > 1 ==> t[1] == p[1]);
  }

  /** The text with the pair, and with the pair the other way round. */
  lemma PairPlace(p: string, i: nat, starFirst: bool) returns (a: nat)
    requires i + 1 < |Tokens(p)| && Tokens(p)[i] == Pair(starFirst)[0] && Tokens(p)[i + 1] == Pair(starFirst)[1]
    ensures a + 2 <= |p|
    ensures Tokens(p) == Tokens(p[..a]) + (Pair(starFirst) + Tokens(p[a + 2..])) && |Tokens(p[..a])| == i
    ensures var q := p[..a] + PairText(!starFirst) + p[a + 2..];
            Tokens(q) == Tokens(p[..a]) + (Pair(!starFirst) + Tokens(p[a + 2..]))
  {
    hide Tokens, PairText, IsWild;
    var ts := Tokens(p);
    a := PlaceOf(p, i);
    TwoWild(p[a..], starFirst);
    NoEscapeAtEnd(p, a);
    PairBehind(p[..a], starFirst, p[a + 2..]);
    assert p[a..][2..] == p[a + 2..] && ts == ts[..i] + ts[i..];
  }

  lemma NoEscapeAtEnd(p: string, a: nat)
    requires a <= |p| && (a > 0 ==> p[a - 1] != '\\')
    ensures p[..a] != "" ==> p[..a][|p[..a]| - 1] != '\\'
  {
  }

  lemma PairBehind(front: string, starFirst: bool, rest: string)
    requires front != "" ==> front[|front| - 1] != '\\'
    ensures Tokens(front + PairText(!starFirst) + rest) == Tokens(front) + (Pair(!starFirst) + Tokens(rest))
  {
    var q := front + PairText(!starFirst) + rest;
    assert q[|front|] == PairText(!starFirst)[0] && IsWild(q[|front|]);
    assert front != "" ==> q[|front| - 1] == front[|front| - 1];
    hide Tokens, Pair, PairText;
    assert q[..|front|] == front && q[|front|..] == PairText(!starFirst) + rest;
    TokensSplit(q, |front|);
    PairTokens(!starFirst, rest);
  }

  lemma TwoWild(s: string, starFirst: bool)
    requires |Tokens(s)| > 1 && Tokens(s)[0] == Pair(starFirst)[0] && Tokens(s)[1] == Pair(starFirst)[1]
    ensures |s| >= 2 && Tokens(s) == Pair(starFirst) + Tokens(s[2..])
  {
    WildHead(s);
    var t := s[1..];
    assert Tokens(s)[1..] == Tokens(t);
    WildHead(t);
    assert t[1..] == s[2..];
  }

  lemma PairTokens(starFirst: bool, rest: string)
    ensures Tokens(PairText(starFirst) + rest) == Pair(starFirst) + Tokens(rest)
  {
    var s := PairText(starFirst) + rest;
    assert s[0] == PairText(starFirst)[0] && s[1] == PairText(starFirst)[1] && s[1..][1..] == rest;
    assert Tokens(s[1..]) == [Pair(starFirst)[1]] + Tokens(rest);
    assert Tokens(s) == [Pair(starFirst)[0]] + Tokens(s[1..]);
  }

  /** Where some '?' has a star on one side only, there is a pair to turn round. */
  lemma UnbalancedPair(ts: seq<Tok>, open: bool) returns (i: nat, starFirst: bool)
    requires !Balanced(ts, open) && (open ==> OpenItems(ts))
    ensures i + 1 < |ts| && ts[i] == Pair(starFirst)[0] && ts[i + 1] == Pair(starFirst)[1]
    ensures if starFirst then !StarRight(ts, i + 1, open) else !StarLeft(ts, i)
  {
    var k :| 0 <= k < |ts| && ts[k] == Any && !(StarLeft(ts, k) <==> StarRight(ts, k, open));
    if StarLeft(ts, k) {
      i, starFirst := k - 1, true;
    } else if k + 1 < |ts| {
      i, starFirst := k, false;
    } else {
      var m :| 0 <= m < |ts| && ts[m] == Star && forall j | m < j < |ts| :: ts[j] == Any;
      i, starFirst := m, true;
    }
  }

  /** A mask whose wildcards are not balanced encloses some mask of which mmatch says no. */
  lemma SomeMissed(p: string) returns (q: string)
    requires !Balanced(Tokens(p), EndsOpen(p))
    ensures Includes(p, q) && !Match2Patterns(p, q)
  {
    var open, ts := EndsOpen(p), Tokens(p);
    if open {
      OpenTokens(p);
    }
    hide EndsOpen, Tokens, Balanced;
    var i, starFirst := UnbalancedPair(ts, open);
    var a := PairPlace(p, i, starFirst);
    q := p[..a] + PairText(!starFirst) + p[a + 2..];
    var x, y := Tokens(p[..a]), Tokens(p[a + 2..]);
    assert ts == x + (Pair(starFirst) + y);
    Neighbours(x, starFirst, y, open);
    PairMissed(x, starFirst, y, open);
    forall s | Match(q, s) ensures Match(p, s) {
      SwapSame(x, y, s, starFirst);
    }
  }

  lemma Neighbours(x: seq<Tok>, starFirst: bool, y: seq<Tok>, open: bool)
    requires var ts := x + (Pair(starFirst) + y); if starFirst then !StarRight(ts, |x| + 1, open) else !StarLeft(ts, |x|)
    ensures if starFirst then (y == [] ==> !open) && (y != [] ==> y[0] != Star) else x == [] || x[|x| - 1] != Star
  {
    var ts := x + (Pair(starFirst) + y);
    assert y != [] ==> ts[|x| + 2] == y[0];
    assert x != [] ==> ts[|x| - 1] == x[|x| - 1];
  }

  // ---------------------------------------------------------------- the condition

  /** For a mask with balanced wildcards mmatch says yes exactly of the masks it encloses. */
  lemma EnclosesExactly(p: string, q: string, z: char)
    requires Spare(Tokens(p), z) && Balanced(Tokens(p), EndsOpen(p))
    ensures Match2Patterns(p, q) <==> Includes(p, q)
  {
    hide EndsOpen, Tokens, Balanced, Spare;
    if Match2Patterns(p, q) {
      forall s | Match(q, s) ensures Match(p, s) {
        Match2PatternsSound(p, q, s);
      }
    } else {
      var s := Separate(Tokens(p), Tokens(q), EndsOpen(p), z, |Tokens(p)| + 1);
      assert Match(q, s) && !Match(p, s);
    }
  }

  /** A set of `n` characters from 1 on. */
  function FirstChars(n: nat): (cs: set<char>)
    requires n <= 64
    ensures |cs| == n && forall c | c in cs :: 0 < c as int <= n
  {
    if n == 0 then {} else FirstChars(n - 1) + {n as char}
  }

  function Folded(ts: seq<Tok>): (cs: set<char>)
    ensures |cs| <= |ts| && forall i | 0 <= i < |ts| && ts[i].Lit? :: ToLower(ts[i].c) in cs
  {
    if ts == [] then {}
    else
      var cs := Folded(ts[1..]) + if ts[0].Lit? then {ToLower(ts[0].c)} else {};
      assert forall i | 0 < i < |ts| && ts[i].Lit? :: ts[1..][i - 1] == ts[i];
      cs
  }

  lemma {:induction false} SmallerSet(a: set<char>, b: set<char>)
    requires a <= b
    ensures |a| <= |b|
  {
    if a != {} {
      var c :| c in a;
      SmallerSet(a - {c}, b - {c});
    }
  }

  /** A mask of fewer than 64 characters leaves some character spare. */
  lemma SpareFound(p: string) returns (z: char)
    requires |p| < 64
    ensures Spare(Tokens(p), z) && 0 < z as int < 256
  {
    FewTokens(p);
    var ts := Tokens(p);
    hide Tokens;
    var all, used := FirstChars(64), Folded(ts);
    if all <= used {
      SmallerSet(all, used);
    }
    z :| z in all && z !in used;
    assert ToLower(z) == z;
  }

  /** For every mask of up to 63 characters, as bans keep them: mmatch misses no mask that it encloses exactly when
      every '?' has a star on both sides or on neither, where the end counts as a star if the mask ends in a star,
      which is not its first character, and then only '?'. */
  lemma CompleteExactly(p: string)
    requires |p| < 64
    ensures (forall q | Includes(p, q) :: Match2Patterns(p, q)) <==> Balanced(Tokens(p), EndsOpen(p))
  {
    hide EndsOpen, Tokens, Balanced, Spare, Match2Patterns, Includes;
    if Balanced(Tokens(p), EndsOpen(p)) {
      var z := SpareFound(p);
      forall q | Includes(p, q) ensures Match2Patterns(p, q) {
        EnclosesExactly(p, q, z);
      }
    } else {
      var q := SomeMissed(p);
    }
  }

  /** A '?' between two stars is no harm; between a star and a literal it is. */
  lemma BetweenStars(open: bool)
    ensures Balanced(Tokens("a*?*b"), open) && !Balanced(Tokens("a*?b"), open)
  {
    BothSides();
    OneSide();
    hide Tokens;
    var ts := Tokens("a*?b");
    assert ts[2] == Any && StarLeft(ts, 2) && !StarRight(ts, 2, open);
  }

  lemma OneToken(s: string)
    requires s != "" && s[0] != '\\'
    ensures Tokens(s) == [if s[0] == '*' then Star else if s[0] == '?' then Any else Lit(s[0])] + Tokens(s[1..])
  {
  }

  lemma BothSides()
    ensures Tokens("a*?*b") == [Lit('a'), Star, Any, Star, Lit('b')]
  {
    hide Tokens;
    var s := "a*?*b";
    OneToken(s);
    OneToken(s[1..]);
    OneToken(s[1..][1..]);
    OneToken(s[1..][1..][1..]);
    OneToken(s[1..][1..][1..][1..]);
    NoTokens(s[1..][1..][1..][1..][1..]);
  }

  lemma NoTokens(s: string)
    requires s == ""
    ensures Tokens(s) == []
  {
  }

  lemma OneSide()
    ensures Tokens("a*?b") == [Lit('a'), Star, Any, Lit('b')]
  {
    hide Tokens;
    var s := "a*?b";
    OneToken(s);
    OneToken(s[1..]);
    OneToken(s[1..][1..]);
    OneToken(s[1..][1..][1..]);
    NoTokens(s[1..][1..][1..][1..]);
  }
}
