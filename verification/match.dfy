/** match of lib/irc_string.c, which match2strings asks: a mask against a string, with one place to fall back to
    instead of a recursion; proved to be the declarative matching of module IrcStrings. */
module MaskMatch {
  import opened IrcStrings

  /** The mask from `m` on matches the string from `s` on. */
  ghost predicate MatchesAt(mask: string, m: nat, str: string, s: nat)
    requires m <= |mask| && s <= |str|
  {
    MatchTokens(Tokens(mask[m..]), str[s..])
  }

  /** The same with a star in front. */
  ghost predicate StarMatchesAt(mask: string, m: nat, str: string, s: nat)
    requires m <= |mask| && s <= |str|
  {
    exists k :: s <= k <= |str| && MatchesAt(mask, m, str, k)
  }

  /** The item of the mask at `m`. */
  function TokAt(mask: string, m: nat): Tok
    requires m < |mask|
  {
    Head(mask[m..])
  }

  function Next(mask: string, m: nat): (n: nat)
    requires m < |mask|
    ensures m < n <= |mask|
  {
    m + Width(mask[m..])
  }

  lemma FirstTok(mask: string, m: nat)
    requires m < |mask|
    ensures Tokens(mask[m..]) == [TokAt(mask, m)] + Tokens(mask[Next(mask, m)..])
  {
    assert mask[m..][Width(mask[m..])..] == mask[Next(mask, m)..];
  }

  lemma AtEnd(mask: string, str: string, s: nat)
    requires s <= |str|
    ensures MatchesAt(mask, |mask|, str, s) <==> s == |str|
    ensures StarMatchesAt(mask, |mask|, str, s)
  {
    assert mask[|mask|..] == "";
    assert str[|str|..] == "";
    assert MatchesAt(mask, |mask|, str, |str|);
  }

  /** An item other than a star takes one character. */
  predicate Takes(t: Tok, c: char) {
    t == Any || (t.Lit? && ToLower(t.c) == ToLower(c))
  }

  lemma OneItem(mask: string, m: nat, str: string, s: nat)
    requires m < |mask| && s <= |str| && TokAt(mask, m) != Star
    ensures MatchesAt(mask, m, str, s) <==>
              s < |str| && Takes(TokAt(mask, m), str[s]) && MatchesAt(mask, Next(mask, m), str, s + 1)
  {
    FirstTok(mask, m);
    var ts := Tokens(mask[m..]);
    assert ts[1..] == Tokens(mask[Next(mask, m)..]);
    if s < |str| {
      assert str[s..][0] == str[s] && str[s..][1..] == str[s + 1..];
    }
    hide Tokens, Head, Width, ToLower;
  }

  lemma StarItem(mask: string, m: nat, str: string, s: nat)
    requires m < |mask| && s <= |str| && TokAt(mask, m) == Star
    ensures Next(mask, m) == m + 1
    ensures MatchesAt(mask, m, str, s) <==> StarMatchesAt(mask, m + 1, str, s)
    ensures StarMatchesAt(mask, m, str, s) <==> StarMatchesAt(mask, m + 1, str, s)
  {
    StarOnce(mask, m, str, s);
    if k :| s <= k <= |str| && MatchesAt(mask, m, str, k) {
      StarOnce(mask, m, str, k);
      var j :| k <= j <= |str| && MatchesAt(mask, m + 1, str, j);
    }
  }

  lemma StarOnce(mask: string, m: nat, str: string, s: nat)
    requires m < |mask| && s <= |str| && TokAt(mask, m) == Star
    ensures Next(mask, m) == m + 1
    ensures MatchesAt(mask, m, str, s) <==> StarMatchesAt(mask, m + 1, str, s)
  {
    FirstTok(mask, m);
    var ts, t := Tokens(mask[m..]), str[s..];
    assert ts[1..] == Tokens(mask[m + 1..]);
    hide Tokens, Head, Width;
    forall k | s <= k <= |str| ensures t[k - s..] == str[k..] {}
    if MatchesAt(mask, m, str, s) {
      var k :| 0 <= k <= |t| && MatchTokens(ts[1..], t[k..]);
      assert t[k..] == str[s + k..];
      assert MatchesAt(mask, m + 1, str, s + k);
    }
  }

  /** A '?' behind a star takes a character at once. */
  lemma AnyBehindStar(mask: string, m: nat, str: string, s: nat)
    requires m < |mask| && s <= |str| && TokAt(mask, m) == Any
    ensures StarMatchesAt(mask, m, str, s) <==> s < |str| && StarMatchesAt(mask, Next(mask, m), str, s + 1)
  {
    hide MatchesAt;
    if k :| s <= k <= |str| && MatchesAt(mask, m, str, k) {
      OneItem(mask, m, str, k);
    }
    if s < |str| && StarMatchesAt(mask, Next(mask, m), str, s + 1) {
      var k :| s + 1 <= k <= |str| && MatchesAt(mask, Next(mask, m), str, k);
      OneItem(mask, m, str, k - 1);
    }
  }

  /** What checking the items up to the next star, or the end, has found out. */
  datatype Outcome = NextStar | Ended | Mismatch | TooShort

  /** The first loop, for the part in front of the first star, and the chunk loop, for the part between two stars, are
      the same: items up to a star are checked one by one. `n` is how many characters were taken. */
  ghost predicate Checked(mask: string, m: nat, str: string, s: nat, m': nat, s': nat) {
    && m <= m' <= |mask| && s <= s' <= |str|
    && (MatchesAt(mask, m, str, s) <==> MatchesAt(mask, m', str, s'))
    && forall k | s <= k <= |str| && MatchesAt(mask, m, str, k) ::
         k + (s' - s) <= |str| && MatchesAt(mask, m', str, k + (s' - s))
  }

  lemma CheckedMore(mask: string, m: nat, str: string, s: nat, m': nat, s': nat)
    requires Checked(mask, m, str, s, m', s') && m' < |mask| && TokAt(mask, m') != Star
    ensures s' < |str| && Takes(TokAt(mask, m'), str[s']) ==> Checked(mask, m, str, s, Next(mask, m'), s' + 1)
    ensures s' == |str| || !Takes(TokAt(mask, m'), str[s']) ==> !MatchesAt(mask, m, str, s)
    ensures s' == |str| ==> forall k | s <= k <= |str| :: !MatchesAt(mask, m, str, k)
  {
    hide MatchesAt, TokAt, Next, Takes;
    OneItem(mask, m', str, s');
    forall k | s <= k <= |str| && MatchesAt(mask, m, str, k)
      ensures k + (s' - s) < |str| && MatchesAt(mask, Next(mask, m'), str, k + (s' + 1 - s))
    {
      OneItem(mask, m', str, k + (s' - s));
    }
  }

  method CheckItems(mask: string, m: nat, str: string, s: nat) returns (o: Outcome, m': nat, s': nat)
    requires m <= |mask| && s <= |str|
    ensures m <= m' <= |mask| && s <= s' <= |str|
    ensures o.NextStar? ==> m' < |mask| && TokAt(mask, m') == Star && Checked(mask, m, str, s, m', s')
    ensures o.Ended? ==> MatchesAt(mask, m, str, s)
    ensures o.Mismatch? ==> !MatchesAt(mask, m, str, s)
    ensures o.TooShort? ==> forall k | s <= k <= |str| :: !MatchesAt(mask, m, str, k)
  {
    hide MatchesAt, Checked;
    m', s' := m, s;
    assert Checked(mask, m, str, s, m', s') by { NothingChecked(mask, m, str, s); }
    while m' < |mask| && TokAt(mask, m') != Star
      invariant m <= m' <= |mask| && s <= s' <= |str| && Checked(mask, m, str, s, m', s')
      decreases |mask| - m'
    {
      var t := TokAt(mask, m');
      CheckedMore(mask, m, str, s, m', s');
      if t == Any {
        if s' == |str| {
          return TooShort, m', s';
        }
      } else if s' == |str| || ToLower(str[s']) != ToLower(t.c) {
        return Mismatch, m', s';
      }
      m', s' := Next(mask, m'), s' + 1;
    }
    if m' < |mask| {
      return NextStar, m', s';
    }
    AllChecked(mask, m, str, s, s');
    o := if s' == |str| then Ended else Mismatch;
  }

  lemma NothingChecked(mask: string, m: nat, str: string, s: nat)
    requires m <= |mask| && s <= |str|
    ensures Checked(mask, m, str, s, m, s)
  {
    hide MatchesAt;
  }

  lemma AllChecked(mask: string, m: nat, str: string, s: nat, s': nat)
    requires Checked(mask, m, str, s, |mask|, s')
    ensures MatchesAt(mask, m, str, s) <==> s' == |str|
  {
    AtEnd(mask, str, s');
    hide MatchesAt;
  }

  /** Behind a star nothing before the first place of the next literal can match. */
  lemma NotBefore(mask: string, m: nat, str: string, s: nat, k0: nat)
    requires m < |mask| && TokAt(mask, m).Lit? && s <= k0 <= |str|
    requires forall k | s <= k < k0 :: !Takes(TokAt(mask, m), str[k])
    ensures StarMatchesAt(mask, m, str, s) <==> StarMatchesAt(mask, m, str, k0)
    ensures k0 == |str| ==> !StarMatchesAt(mask, m, str, s)
  {
    hide MatchesAt, TokAt, Next;
    if k :| s <= k <= |str| && MatchesAt(mask, m, str, k) {
      OneItem(mask, m, str, k);
    }
    OneItem(mask, m, str, |str|);
  }

  /** The chunk did not match at the first place of its first literal: the next try starts behind that. */
  lemma FallBack(mask: string, m: nat, str: string, k0: nat)
    requires m < |mask| && TokAt(mask, m).Lit? && k0 < |str| && !MatchesAt(mask, Next(mask, m), str, k0 + 1)
    ensures StarMatchesAt(mask, m, str, k0) <==> StarMatchesAt(mask, m, str, k0 + 1)
  {
    hide MatchesAt, TokAt, Next;
    OneItem(mask, m, str, k0);
  }

  lemma NeverFits(mask: string, m: nat, str: string, k0: nat)
    requires m < |mask| && TokAt(mask, m).Lit? && k0 < |str|
    requires forall k | k0 + 1 <= k <= |str| :: !MatchesAt(mask, Next(mask, m), str, k)
    ensures !StarMatchesAt(mask, m, str, k0)
  {
    hide MatchesAt, TokAt, Next;
    forall k | k0 <= k <= |str| ensures !MatchesAt(mask, m, str, k) {
      OneItem(mask, m, str, k);
    }
  }

  /** The chunk matches at its first possible place: taking it there loses nothing for what follows the next star. */
  lemma TakeFirst(mask: string, m: nat, str: string, k0: nat, m': nat, s': nat)
    requires m < |mask| && TokAt(mask, m).Lit? && k0 < |str| && Takes(TokAt(mask, m), str[k0])
    requires Checked(mask, Next(mask, m), str, k0 + 1, m', s') && m' < |mask| && TokAt(mask, m') == Star
    ensures StarMatchesAt(mask, m, str, k0) <==> StarMatchesAt(mask, m' + 1, str, s')
  {
    hide MatchesAt, TokAt, Next, Takes;
    StarItem(mask, m', str, s');
    OneItem(mask, m, str, k0);
    if k :| k0 <= k <= |str| && MatchesAt(mask, m, str, k) {
      OneItem(mask, m, str, k);
      var j := k + 1 + (s' - (k0 + 1));
      StarItem(mask, m', str, j);
      var i :| j <= i <= |str| && MatchesAt(mask, m' + 1, str, i);
    }
  }

  lemma FromStart(mask: string, str: string)
    ensures Match(mask, str) <==> MatchesAt(mask, 0, str, 0)
  {
    assert mask[0..] == mask && str[0..] == str;
  }

  /** match: true where the source answers 0. */
  method MatchMask(mask: string, str: string) returns (matches: bool)
    ensures matches <==> Match(mask, str)
  {
    hide MatchesAt, StarMatchesAt, Checked, Match;
    FromStart(mask, str);
    var o: Outcome, m: nat, s: nat := CheckItems(mask, 0, str, 0);
    if !o.NextStar? {
      AtStart(mask, str);
      return o.Ended?;
    }
    CheckedFacts(mask, 0, str, 0, m, s);
    StarItem(mask, m, str, s);
    m := m + 1;
    while true
      invariant m <= |mask| && s <= |str| && (Match(mask, str) <==> StarMatchesAt(mask, m, str, s))
      decreases |mask| - m + |str| - s
    {
      // got_star
      if m == |mask| {
        AtEnd(mask, str, s);
        return true;
      }
      if TokAt(mask, m) == Star {
        StarItem(mask, m, str, s);
        m := m + 1;
      } else if TokAt(mask, m) == Any {
        AnyBehindStar(mask, m, str, s);
        if s == |str| {
          return false;
        }
        m, s := Next(mask, m), s + 1;
      } else {
        var k0 := NextLiteral(mask, m, str, s);
        NotBefore(mask, m, str, s, k0);
        if k0 == |str| {
          return false;
        }
        var bm, bs := m, k0 + 1;
        o, m, s := CheckItems(mask, Next(mask, m), str, k0 + 1);
        match o
        case NextStar =>
          TakeFirst(mask, bm, str, k0, m, s);
          m := m + 1;
        case Ended =>
          OneItem(mask, bm, str, k0);
          StarFrom(mask, bm, str, k0);
          return true;
        case Mismatch =>
          FallBack(mask, bm, str, k0);
          m, s := bm, bs;
        case TooShort =>
          NeverFits(mask, bm, str, k0);
          return false;
      }
    }
  }

  /** The first place from `s` on with the literal at `m`. */
  method NextLiteral(mask: string, m: nat, str: string, s: nat) returns (k: nat)
    requires m < |mask| && TokAt(mask, m).Lit? && s <= |str|
    ensures s <= k <= |str| && (k < |str| ==> Takes(TokAt(mask, m), str[k]))
    ensures forall j | s <= j < k :: !Takes(TokAt(mask, m), str[j])
  {
    k := s;
    var ch := TokAt(mask, m).c;
    while k < |str| && ToLower(str[k]) != ToLower(ch)
      invariant s <= k <= |str| && forall j | s <= j < k :: !Takes(TokAt(mask, m), str[j])
    {
      k := k + 1;
    }
  }

  lemma StarFrom(mask: string, m: nat, str: string, k: nat)
    requires m <= |mask| && k <= |str| && MatchesAt(mask, m, str, k)
    ensures StarMatchesAt(mask, m, str, k)
  {
    hide MatchesAt;
  }

  lemma CheckedFacts(mask: string, m: nat, str: string, s: nat, m': nat, s': nat)
    requires Checked(mask, m, str, s, m', s')
    ensures m <= |mask| && s <= |str| && m' <= |mask| && s' <= |str|
    ensures MatchesAt(mask, m, str, s) <==> MatchesAt(mask, m', str, s')
  {
    hide MatchesAt;
  }

  lemma AtStart(mask: string, str: string)
    ensures (forall k | 0 <= k <= |str| :: !MatchesAt(mask, 0, str, k)) ==> !MatchesAt(mask, 0, str, 0)
  {
    hide MatchesAt;
  }
}
