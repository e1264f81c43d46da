/** What bans match, when one ban encloses another, and the per-channel ban list of channel/channelbans.c. */
module BanLists {
  import opened IrcStrings
  import opened Options
  import opened Bans
  import opened MaskMatch
  import opened MaskPatterns

  datatype SetHost = SetHost(ident: Option<string>, host: string)

  /** The parts of a network user that bans look at. */
  datatype User = User(nick: string, ident: string, host: string, addr: Addr,
                       sethost: Option<SetHost>, account: Option<string>, hidehost: bool)

  predicate IsAccount(account: string) {
    0 < |account| <= ACCOUNTLEN
  }

  function FakeHost(account: string): string {
    account + "." + HIS_HIDDENHOST
  }

  /** A nick or user component lets the text pass. */
  predicate Passes(p: Part, s: string) {
    match p
    case Exact(t) => SameText(s, t)
    case Masked(t) => Match(t, s)
    case _ => true
  }

  predicate HostHit(p: Part, s: string) {
    HasText(p) && Passes(p, s)
  }

  function VisibleIdent(u: User): string {
    if u.sethost.Some? && u.sethost.value.ident.Some? then u.sethost.value.ident.value else u.ident
  }

  /** nickmatchban. */
  predicate NickMatchBan(u: User, b: Ban, visibleonly: bool) {
    var vis := visibleonly && (u.sethost.Some? || (u.account.Some? && u.hidehost));
    && !b.invalid
    && Passes(b.user, VisibleIdent(u))
    && Passes(b.nick, u.nick)
    && (|| b.host.Anything?
        || (b.ip.Some? && !vis && IpMaskCheck(u.addr, b.ip.value))
        || (b.hidden && u.account.Some? && HostHit(b.host, FakeHost(u.account.value)))
        || (u.sethost.Some? && HostHit(b.host, u.sethost.value.host))
        || (!vis && HostHit(b.host, u.host)))
  }

  /** Seen from outside, the user's own host and address do not show. */
  predicate Covered(u: User) {
    u.sethost.Some? || (u.account.Some? && u.hidehost)
  }

  /** Behind a set user name the real one does not matter. */
  lemma SetIdentCovers(u: User, ident: string, b: Ban, visibleonly: bool)
    requires u.sethost.Some? && u.sethost.value.ident.Some?
    ensures NickMatchBan(u, b, visibleonly) <==> NickMatchBan(u.(ident := ident), b, visibleonly)
  {
  }

  /** Where only what is visible counts, the real host and address of a masked user do not matter. */
  lemma MaskCovers(u: User, host: string, addr: Addr, b: Ban)
    requires Covered(u)
    ensures NickMatchBan(u, b, true) <==> NickMatchBan(u.(host := host, addr := addr), b, true)
  {
  }

  /** For everybody else it makes no difference what counts, and looking at more bans more. */
  lemma UnmaskedShows(u: User, b: Ban)
    ensures !Covered(u) ==> (NickMatchBan(u, b, true) <==> NickMatchBan(u, b, false))
    ensures NickMatchBan(u, b, true) ==> NickMatchBan(u, b, false)
  {
  }

  /** A ban on a host alone. */
  function HostBan(h: string, hidden: bool): Ban {
    Ban(Anything, Anything, Exact(h), None, false, hidden)
  }

  /** A ban on one host counts against the real host unless only what is visible counts and the user is covered, against a
      set host always, and against the host of the account also where the user does not use it. */
  lemma HostsSeen(u: User, h: string, hidden: bool, visibleonly: bool)
    ensures NickMatchBan(u, HostBan(h, hidden), visibleonly) <==>
              || (SameText(u.host, h) && !(visibleonly && Covered(u)))
              || (u.sethost.Some? && SameText(u.sethost.value.host, h))
              || (hidden && u.account.Some? && SameText(u.account.value + "." + HIS_HIDDENHOST, h))
  {
    hide SameText;
  }

  /** A ban on one user name, or on one nick, counts against who bears it, a set user name in place of the real one. */
  lemma NamesSeen(u: User, s: string, visibleonly: bool)
    ensures NickMatchBan(u, Ban(Anything, Exact(s), Anything, None, false, false), visibleonly) <==>
              SameText(if u.sethost.Some? && u.sethost.value.ident.Some? then u.sethost.value.ident.value else u.ident, s)
    ensures NickMatchBan(u, Ban(Exact(s), Anything, Anything, None, false, false), visibleonly) <==> SameText(u.nick, s)
  {
    hide SameText;
  }

  /** One of the three sections of banoverlap. */
  predicate Encloses(a: Part, b: Part) {
    match (a, b)
    case (Anything, _) => true
    case (Empty, Empty) => true
    case (Masked(p), Masked(q)) => Match2Patterns(p, q)
    case (Masked(p), Exact(s)) => Match(p, s)
    case (Exact(s), Exact(t)) => SameText(s, t)
    case _ => false
  }

  /** banoverlap: a encloses b. */
  predicate BanOverlap(a: Ban, b: Ban) {
    Encloses(a.nick, b.nick) && Encloses(a.user, b.user) && Encloses(a.host, b.host)
  }

  // ---------------------------------------------------------------- the hidden-host flag

  /** Skipping the generated host when the flag is clear loses no match. */
  ghost predicate HiddenFlagSafe(b: Ban) {
    forall account | IsAccount(account) && HostHit(b.host, FakeHost(account)) :: b.hidden
  }

  lemma SuffixOfSuffix(s: string, t: string, n: nat)
    requires SameText(s, t) && n <= |s|
    ensures |s| == |t| && SameText(s[|s| - n..], t[|t| - n..])
  {
    assert |Fold(s)| == |s| && |Fold(t)| == |t|;
    assert Fold(s[|s| - n..]) == Fold(s)[|s| - n..] == Fold(t)[|t| - n..] == Fold(t[|t| - n..]);
  }

  lemma SameTextSymmetric(s: string, t: string)
    requires SameText(s, t)
    ensures SameText(t, s)
  {
  }

  lemma FakeTail(account: string, n: nat)
    requires n <= HIDDENLEN
    ensures |FakeHost(account)| >= HIDDENLEN
    ensures FakeHost(account)[|FakeHost(account)| - n..] == HIS_HIDDENHOST[HIDDENLEN - n..]
  {
  }

  lemma MaskedHostMarked(h: string, account: string)
    requires LastWild(h) >= 0 && Match(h, FakeHost(account))
    ensures MarksHidden(h)
  {
    hide FakeHost, Match, SameText, LastWild;
    var w := LastWild(h);
    var tail := h[w + 1..];
    assert h == h[..w + 1] + tail;
    assert forall j | 0 <= j < |tail| :: tail[j] == h[w + 1 + j];
    TailOfMatch(h[..w + 1], tail, FakeHost(account));
    assert tail == h[|h| - |tail|..];
    TailMarked(h, tail, account);
  }

  lemma TailMarked(h: string, tail: string, account: string)
    requires LastWild(h) >= 0 && tail == h[LastWild(h) + 1..]
    requires var fake := FakeHost(account); |fake| >= |tail| && SameText(fake[|fake| - |tail|..], tail)
    ensures MarksHidden(h)
  {
    hide FakeHost, SameText, LastWild;
    var fake := FakeHost(account);
    var n := |tail|;
    assert tail == h[|h| - n..];
    if n >= HIDDENLEN {
      FakeTail(account, HIDDENLEN);
      SuffixOfSuffix(fake[|fake| - n..], tail, HIDDENLEN);
      assert fake[|fake| - n..][n - HIDDENLEN..] == fake[|fake| - HIDDENLEN..];
      assert HIS_HIDDENHOST[0..] == HIS_HIDDENHOST;
      assert tail[n - HIDDENLEN..] == h[|h| - HIDDENLEN..];
      SameTextSymmetric(HIS_HIDDENHOST, h[|h| - HIDDENLEN..]);
    } else {
      FakeTail(account, n);
      SameTextSymmetric(HIS_HIDDENHOST[HIDDENLEN - n..], tail);
    }
  }

  lemma ExactHostMarked(h: string, account: string)
    requires LastWild(h) < 0 && account != "" && SameText(FakeHost(account), h)
    ensures MarksHidden(h)
  {
    var fake := FakeHost(account);
    SuffixOfSuffix(fake, h, HIDDENLEN);
    assert fake[|fake| - HIDDENLEN..] == HIS_HIDDENHOST;
    SameTextSymmetric(HIS_HIDDENHOST, h[|h| - HIDDENLEN..]);
  }

  /** For every mask whose host is not cut, the flag is set whenever the host can match a generated hidden host. */
  lemma HiddenFlagComplete(lib: Lib, mask: string)
    requires |mask| - LastAt(mask) - 1 <= HOSTLEN || LastAt(mask) < 0
    ensures HiddenFlagSafe(BanOf(lib, mask))
  {
    hide MarksHidden, LastAt, Match, SameText, FakeHost, BanOf;
    var b := BanOf(lib, mask);
    HostOf(lib, mask);
    if mask != "*" && LastAt(mask) >= 0 {
      forall account | IsAccount(account) && HostHit(b.host, FakeHost(account))
        ensures b.hidden
      {
        HostMarked(mask[LastAt(mask) + 1..], account);
      }
    }
  }

  lemma HostOf(lib: Lib, mask: string)
    ensures var b := BanOf(lib, mask);
            if mask == "*" || LastAt(mask) < 0 then b.host.Anything?
            else var h := mask[LastAt(mask) + 1..]; b.host == HostPart(h) && b.hidden == (IsHostText(h) && MarksHidden(h))
  {
    hide LastAt, FirstBang, MarksHidden, IsHostText, UserPart, HostPart, NickOrAny, BadParts;
  }

  lemma HostMarked(h: string, account: string)
    requires |h| <= HOSTLEN && account != "" && HostHit(HostPart(h), FakeHost(account))
    ensures IsHostText(h) && MarksHidden(h)
  {
    hide Match, SameText, FakeHost, LastWild, MarksHidden;
    if LastWild(h) >= 0 {
      MaskedHostMarked(h, account);
    } else {
      ExactHostMarked(h, account);
    }
  }

  lemma {:induction false} StarsMatch(n: nat, s: string)
    requires n > 0
    ensures Match(seq(n, _ => '*'), s)
  {
    var stars := seq(n, _ => '*');
    assert stars[1..] == seq(n - 1, _ => '*');
    assert Tokens(stars) == [Star] + Tokens(stars[1..]);
    assert Tokens(stars)[1..] == Tokens(stars[1..]);
    if n > 1 {
      StarsMatch(n - 1, s);
      assert s[0..] == s;
    } else {
      assert Tokens(stars[1..]) == [];
      assert s[|s|..] == "";
      assert MatchTokens(Tokens(stars[1..]), s[|s|..]);
    }
  }

  /** What every generated hidden host ends with. */
  const HIDDEN_SUFFIX := "." + HIS_HIDDENHOST

  /** The star at `i` can take the account and the first `j` characters of the suffix. */
  predicate StarMeets(ts: seq<Tok>, i: nat, j: nat) {
    i < |ts| && j <= |HIDDEN_SUFFIX| && ts[i] == Star && MatchTokens(ts[i + 1..], HIDDEN_SUFFIX[j..])
  }

  /** Some items behind the first match the suffix, or the items behind some star match the rest of it; and what stands
      in front is not too long for an account. */
  predicate TokensHide(ts: seq<Tok>) {
    || (exists i | 1 <= i <= |ts| :: MatchTokens(ts[i..], HIDDEN_SUFFIX) && Solids(ts[..i]) <= ACCOUNTLEN)
    || (exists i, j | 0 <= i < |ts| && 0 <= j <= |HIDDEN_SUFFIX| :: StarMeets(ts, i, j) && Solids(ts[..i]) <= ACCOUNTLEN)
  }

  /** The host component matches the hidden host of some account. */
  predicate HidesSome(p: Part) {
    match p
    case Exact(t) => |HIDDEN_SUFFIX| < |t| <= ACCOUNTLEN + |HIDDEN_SUFFIX| && SameText(t[|t| - |HIDDEN_SUFFIX|..], HIDDEN_SUFFIX)
    case Masked(t) => TokensHide(Tokens(t))
    case _ => false
  }

  lemma FakeSuffix(account: string)
    ensures FakeHost(account) == account + HIDDEN_SUFFIX && |HIDDEN_SUFFIX| == HIDDENLEN + 1
  {
  }

  /** Where the items of a mask meet the end of what it matches. */
  lemma {:induction false} EndMet(ts: seq<Tok>, x: string, y: string) returns (i: nat, j: nat)
    requires MatchTokens(ts, x + y)
    ensures i <= |ts| && j <= |y| && Solids(ts[..i]) <= |x|
    ensures (MatchTokens(ts[i..], y) && (x != "" ==> i > 0)) || (i < |ts| && ts[i] == Star && MatchTokens(ts[i + 1..], y[j..]))
    decreases |ts|
  {
    hide MatchTokens, TakesSome;
    j := 0;
    if x == "" {
      i := 0;
      assert ts[0..] == ts && x + y == y && ts[..0] == [];
    } else {
      NothingOnlyEmpty(ts, x + y);
      var k := FirstTakes(ts, x + y);
      OneUnlessStar(ts[0], (x + y)[..k]);
      if k <= |x| {
        assert (x + y)[k..] == x[k..] + y;
        i, j := EndMet(ts[1..], x[k..], y);
        assert ts[1..][i..] == ts[i + 1..] && (i < |ts[1..]| ==> ts[1..][i + 1..] == ts[i + 1 + 1..]);
        assert ts[..i + 1][1..] == ts[1..][..i];
        i := i + 1;
      } else {
        i, j := 0, k - |x|;
        assert (x + y)[k..] == y[j..] && ts[..0] == [];
      }
    }
  }

  lemma NothingOnlyEmpty(ts: seq<Tok>, s: string)
    requires MatchTokens(ts, s) && s != ""
    ensures ts != []
  {
  }

  lemma OneUnlessStar(t: Tok, s: string)
    requires TakesSome(t, s)
    ensures t == Star || |s| == 1
  {
  }

  lemma AccountForItems(ts: seq<Tok>, i: nat) returns (account: string)
    requires 1 <= i <= |ts| && MatchTokens(ts[i..], HIDDEN_SUFFIX) && Solids(ts[..i]) <= ACCOUNTLEN
    ensures IsAccount(account) && MatchTokens(ts, FakeHost(account))
  {
    hide MatchTokens;
    account := AccountFor(ts[..i]);
    MatchConcat(ts[..i], ts[i..], account, HIDDEN_SUFFIX);
    FakeSuffix(account);
    assert ts[..i] + ts[i..] == ts;
  }

  /** The shortest account the items match, or an x where they match the empty string. */
  lemma AccountFor(ts: seq<Tok>) returns (account: string)
    requires ts != [] && Solids(ts) <= ACCOUNTLEN
    ensures IsAccount(account) && MatchTokens(ts, account)
  {
    account := Shortest(ts);
    ShortestMatches(ts);
    if account == "" {
      account := "x";
      StarsTakeOne(ts);
    }
  }

  lemma StarsTakeOne(ts: seq<Tok>)
    requires ts != [] && Solids(ts) == 0
    ensures MatchTokens(ts, "x")
  {
    hide MatchTokens, TakesSome;
    StarTakes("x");
    ShortestMatches(ts[1..]);
    assert Shortest(ts[1..]) == "" && "x"[1..] == "" && "x"[..1] == "x";
    FirstJoins(ts, "x", 1);
  }

  lemma AccountForStar(ts: seq<Tok>, i: nat, j: nat) returns (account: string)
    requires StarMeets(ts, i, j) && Solids(ts[..i]) <= ACCOUNTLEN
    ensures IsAccount(account) && MatchTokens(ts, FakeHost(account))
  {
    var front := Shortest(ts[..i]);
    var x := if front == "" then "x" else "";
    account := front + x;
    FakeSuffix(account);
    StarBetween(ts, i, HIDDEN_SUFFIX, j, x);
  }

  lemma StarBetween(ts: seq<Tok>, i: nat, y: string, j: nat, x: string)
    requires i < |ts| && ts[i] == Star && j <= |y| && MatchTokens(ts[i + 1..], y[j..])
    ensures MatchTokens(ts, Shortest(ts[..i]) + x + y)
  {
    hide MatchTokens, TakesSome, Shortest;
    var front, rest, end := Shortest(ts[..i]), ts[i..], x + y;
    ShortestMatches(ts[..i]);
    assert rest[1..] == ts[i + 1..] && end[|x| + j..] == y[j..];
    StarTakes(end[..|x| + j]);
    FirstJoins(rest, end, |x| + j);
    MatchConcat(ts[..i], rest, front, end);
    assert ts[..i] + rest == ts && front + end == front + x + y;
  }

  lemma TokensHideSome(ts: seq<Tok>)
    ensures TokensHide(ts) <==> exists account: string | IsAccount(account) :: MatchTokens(ts, FakeHost(account))
  {
    hide MatchTokens, FakeHost;
    if account: string :| IsAccount(account) && MatchTokens(ts, FakeHost(account)) {
      FakeSuffix(account);
      var i, j := EndMet(ts, account, HIDDEN_SUFFIX);
      assert Solids(ts[..i]) <= ACCOUNTLEN;
      assert (MatchTokens(ts[i..], HIDDEN_SUFFIX) && i > 0) || StarMeets(ts, i, j);
    }
    if i :| 1 <= i <= |ts| && MatchTokens(ts[i..], HIDDEN_SUFFIX) && Solids(ts[..i]) <= ACCOUNTLEN {
      var account := AccountForItems(ts, i);
    }
    if i, j :| 0 <= i < |ts| && 0 <= j <= |HIDDEN_SUFFIX| && StarMeets(ts, i, j) && Solids(ts[..i]) <= ACCOUNTLEN {
      var account := AccountForStar(ts, i, j);
    }
  }

  /** Which host components match a generated hidden host at all. */
  lemma HidesExactly(p: Part)
    ensures HidesSome(p) <==> exists account: string | IsAccount(account) :: HostHit(p, FakeHost(account))
  {
    hide MatchTokens, TokensHide, SameText;
    match p {
      case Exact(t) =>
        if account: string :| IsAccount(account) && SameText(FakeHost(account), t) {
          FakeSuffix(account);
          SameLength(FakeHost(account), t);
          SuffixOfSuffix(FakeHost(account), t, |HIDDEN_SUFFIX|);
          assert FakeHost(account)[|FakeHost(account)| - |HIDDEN_SUFFIX|..] == HIDDEN_SUFFIX;
          SameTextSymmetric(HIDDEN_SUFFIX, t[|t| - |HIDDEN_SUFFIX|..]);
        }
        if HidesSome(p) {
          var account := t[..|t| - |HIDDEN_SUFFIX|];
          SameTextSymmetric(t[|t| - |HIDDEN_SUFFIX|..], HIDDEN_SUFFIX);
          SamePrefixed(account, HIDDEN_SUFFIX, t[|account|..]);
          FakeSuffix(account);
          assert account + t[|account|..] == t;
          assert HostHit(p, FakeHost(account));
        }
      case Masked(t) =>
        TokensHideSome(Tokens(t));
        if account: string :| IsAccount(account) && MatchTokens(Tokens(t), FakeHost(account)) {
          assert HostHit(p, FakeHost(account));
        }
      case _ =>
    }
  }

  lemma SameLength(s: string, t: string)
    requires SameText(s, t)
    ensures |s| == |t|
  {
    assert |Fold(s)| == |s| && |Fold(t)| == |t|;
  }

  lemma SamePrefixed(x: string, s: string, t: string)
    requires SameText(s, t)
    ensures SameText(x + s, x + t)
  {
    assert Fold(x + s) == Fold(x) + Fold(s) && Fold(x + t) == Fold(x) + Fold(t);
  }

  /** Over all masks: the flag loses a match exactly when the host is cut and what is left of it, with the star in front,
      matches the hidden host of some account. */
  lemma HiddenFlagExact(lib: Lib, mask: string)
    ensures !HiddenFlagSafe(BanOf(lib, mask)) <==> CutHost(mask) && TokensHide(Tokens("*" + mask[|mask| - HOSTLEN + 1..]))
  {
    hide MarksHidden, LastAt, Match, SameText, FakeHost, BanOf, TokensHide, HostPart, Tokens;
    if CutHost(mask) {
      HostOf(lib, mask);
      var h := mask[LastAt(mask) + 1..];
      CutHostPart(h);
      assert mask[|mask| - HOSTLEN + 1..] == h[|h| - HOSTLEN + 1..];
      var b := BanOf(lib, mask);
      HidesExactly(b.host);
    } else {
      HiddenFlagComplete(lib, mask);
    }
  }

  /** One such mask: nothing but stars behind the '@'. */
  lemma TruncatedHostLosesMatch(lib: Lib)
    ensures var b := BanOf(lib, "*!*@" + seq(64, _ => '*'));
            HostHit(b.host, FakeHost("a")) && !b.hidden && !HiddenFlagSafe(b)
  {
    var h := seq(64, _ => '*');
    SplitMask("*", "*", h);
    assert "*" + "!" + "*" + "@" + h == "*!*@" + h;
    BanOfSplit(lib, "*", "*", h);
    assert "*" + h[2..] == seq(63, _ => '*');
    StarsMatch(63, FakeHost("a"));
    hide Match;
  }

  // ---------------------------------------------------------------- banoverlap is sound

  lemma SameTextTransitive(a: string, b: string, c: string)
    requires SameText(a, b) && SameText(b, c)
    ensures SameText(a, c)
  {
  }

  lemma EnclosedPasses(a: Part, b: Part, s: string)
    requires Encloses(a, b) && Passes(b, s)
    ensures Passes(a, s)
    ensures HasText(b) ==> HasText(a) || a.Anything?
    ensures b.Anything? ==> a.Anything?
  {
    hide Match, Match2Patterns;
    match (a, b)
    case (Masked(p), Masked(q)) =>
      Match2PatternsSound(p, q, s);
    case (Masked(p), Exact(t)) =>
      SameTextSymmetric(s, t);
      FoldOnly(p, t, s);
    case (Exact(t), Exact(t')) =>
      SameTextSymmetric(t, t');
      SameTextTransitive(s, t', t);
    case _ =>
  }

  /** A mask with an '@' that encloses a text forces an '@' there. */
  lemma EnclosedAt(a: Part, b: Part)
    requires Encloses(a, b)
    requires HasText(a) && '@' in a.text
    ensures HasText(b) && '@' in b.text
  {
    hide Match2Patterns;
    match (a, b)
    case (Masked(p), Masked(q)) =>
      InstanceMatches(Tokens(q));
      Match2PatternsSound(p, q, Instance(Tokens(q)));
      assert Match(q, Instance(Tokens(q)));
      if '@' !in q {
        InstanceAvoids(q, '@');
        AtOccurs(p, Instance(Tokens(q)));
      }
    case (Masked(p), Exact(s)) =>
      AtOccurs(p, s);
    case (Exact(s), Exact(t)) =>
      var i :| 0 <= i < |s| && s[i] == '@';
      assert |Fold(s)| == |s| && |Fold(t)| == |t|;
      assert Fold(s)[i] == Fold(t)[i];
      OnlyAtFoldsToAt(t[i]);
  }

  lemma OnlyAtFoldsToAt(c: char)
    ensures ToLower(c) == ToLower('@') ==> c == '@'
  {
  }

  lemma AtOccurs(p: string, s: string)
    requires '@' in p && Match(p, s)
    ensures '@' in s
  {
    var i :| 0 <= i < |p| && p[i] == '@';
    TokensKeepLiteral(p, '@', i);
    var k :| 0 <= k < |Tokens(p)| && Tokens(p)[k] == Lit('@');
    LiteralOccurs(Tokens(p), s, k);
    var j :| 0 <= j < |s| && ToLower(s[j]) == ToLower('@');
    OnlyAtFoldsToAt(s[j]);
  }

  /** The invalid flag says what makeban meant by it. */
  predicate FlagsAgree(b: Ban) {
    b.invalid == BadParts(b.user, b.host)
  }

  lemma ParsedFlagsAgree(lib: Lib, mask: string)
    ensures FlagsAgree(BanOf(lib, mask))
  {
    hide LastAt, FirstBang, MarksHidden, IsHostText, NickPart, UserPart, HostPart;
  }

  /** A ban enclosed by a nonsensical ban is nonsensical. */
  lemma InvalidEnclosed(a: Ban, b: Ban)
    requires BanOverlap(a, b) && FlagsAgree(a) && FlagsAgree(b)
    ensures a.invalid ==> b.invalid
  {
    hide Match;
    if HasText(a.user) && '@' in a.user.text {
      EnclosedAt(a.user, b.user);
    }
  }

  // ---------------------------------------------------------------- when enclosing is superset

  /** A text the network keeps: not blank, and not too long. */
  predicate Kept(s: string, n: nat) {
    0 < |s| <= n
  }

  /** A user as the network has them. */
  predicate ProperUser(u: User) {
    && Kept(u.nick, NICKLEN) && Kept(u.ident, USERLEN) && Kept(u.host, HOSTLEN)
    && (u.account.Some? ==> IsAccount(u.account.value))
    && (u.sethost.Some? ==>
          Kept(u.sethost.value.host, HOSTLEN) && (u.sethost.value.ident.Some? ==> Kept(u.sethost.value.ident.value, USERLEN)))
  }

  /** Every user `b` matches is matched by `a`, whether or not only visible hosts count. */
  ghost predicate Superset(a: Ban, b: Ban) {
    forall u, visibleonly | ProperUser(u) && NickMatchBan(u, b, visibleonly) :: NickMatchBan(u, a, visibleonly)
  }

  /** What makeban makes: the flags agree, and no kept text is too long, or empty but for the nick of the empty mask. */
  predicate WellMade(b: Ban) {
    && FlagsAgree(b) && (HasText(b.user) ==> b.user.text != "") && (HasText(b.host) ==> b.host.text != "")
    && (HasText(b.nick) && b.nick.text == "" ==> b.host.Anything?)
    && (HasText(b.nick) ==> |b.nick.text| <= NICKLEN) && (HasText(b.user) ==> |b.user.text| <= USERLEN)
  }

  lemma BanOfWellMade(lib: Lib, mask: string)
    ensures WellMade(BanOf(lib, mask))
  {
    hide BanOf, LastAt, WellMade, NickOnly, Assemble, NickSection, UserSection;
    ParsedFlagsAgree(lib, mask);
    if mask == "*" {
      StarBan(lib, mask);
      PlainWellMade(Ban(Anything, Anything, Anything, None, false, false));
    } else if LastAt(mask) < 0 {
      NickOnlyParsed(lib, mask);
      NickOnlyWellMade(mask);
    } else {
      BanOfSections(lib, mask);
      NickSectionFits(mask);
      NickSectionText(mask);
      AssembledWellMade(lib, NickSection(mask), UserSection(mask), mask[LastAt(mask) + 1..]);
    }
  }

  lemma PlainWellMade(b: Ban)
    requires b == Ban(Anything, Anything, Anything, None, false, false)
    ensures WellMade(b)
  {
  }

  lemma NickOnlyWellMade(mask: string)
    ensures WellMade(NickOnly(mask))
  {
  }

  lemma NickSectionText(mask: string)
    requires LastAt(mask) >= 0
    ensures HasText(NickSection(mask)) ==> NickSection(mask).text != ""
  {
    hide LastAt, FirstBang, HasWild;
  }

  lemma AssembledWellMade(lib: Lib, n: Part, u: string, h: string)
    requires |Shown(n)| <= NICKLEN && (HasText(n) ==> n.text != "")
    ensures WellMade(Assemble(lib, n, u, h))
  {
    hide MarksHidden, IsHostText, BadParts, HasWild, LastWild;
  }

  predicate NoLiteral(ts: seq<Tok>) {
    forall i | 0 <= i < |ts| :: !ts[i].Lit?
  }

  function Anys(ts: seq<Tok>): nat {
    if ts == [] then 0 else (if ts[0] == Any then 1 else 0) + Anys(ts[1..])
  }

  /** Stars and at most one '?'. */
  predicate Universal(ts: seq<Tok>) {
    NoLiteral(ts) && Star in ts && Anys(ts) <= 1
  }

  lemma {:induction false} NoLiteralMatches(ts: seq<Tok>, s: string)
    requires NoLiteral(ts)
    ensures MatchTokens(ts, s) <==> if Star in ts then |s| >= Anys(ts) else |s| == Anys(ts)
    decreases |ts|
  {
    if ts != [] {
      var rest := ts[1..];
      assert forall i | 0 <= i < |rest| :: rest[i] == ts[i + 1];
      assert Star in ts <==> ts[0] == Star || Star in rest;
      if ts[0] == Star {
        forall k | 0 <= k <= |s| ensures MatchTokens(rest, s[k..]) ==> |s| >= Anys(rest) {
          NoLiteralMatches(rest, s[k..]);
        }
        if |s| >= Anys(rest) {
          var k := |s| - Anys(rest);
          NoLiteralMatches(rest, s[k..]);
          assert MatchTokens(rest, s[k..]);
        }
      } else if s != "" {
        NoLiteralMatches(rest, s[1..]);
      }
    }
  }

  /** The items match every text but the empty one exactly when they are universal. */
  lemma OutsideItems(ts: seq<Tok>) returns (s: string)
    ensures 0 < |s| <= 2 && (MatchTokens(ts, s) <==> Universal(ts))
    ensures Universal(ts) ==> forall t: string | t != "" :: MatchTokens(ts, t)
  {
    hide MatchTokens;
    if !NoLiteral(ts) {
      var i :| 0 <= i < |ts| && ts[i].Lit?;
      s := if ToLower(ts[i].c) == 'x' then "y" else "x";
      if MatchTokens(ts, s) {
        LiteralOccurs(ts, s, i);
      }
    } else {
      s := if Star !in ts && Anys(ts) == 1 then "xx" else "x";
      NoLiteralMatches(ts, s);
      if Universal(ts) {
        forall t: string | t != "" ensures MatchTokens(ts, t) {
          NoLiteralMatches(ts, t);
        }
      }
    }
  }

  /** An address of `n` that `m` does not cover, where there is one. */
  predicate Covers(m: IpMask, n: IpMask) {
    m.bits <= n.bits <= 128 && m.addr[..m.bits] == n.addr[..m.bits]
  }

  lemma OutsideAddress(m: IpMask, n: IpMask) returns (addr: Addr)
    requires n.bits <= 128
    ensures IpMaskCheck(addr, n) && (IpMaskCheck(addr, m) <==> Covers(m, n))
  {
    addr := n.addr;
    if n.bits < m.bits <= 128 {
      addr := n.addr[n.bits := !m.addr[n.bits]];
      assert addr[..n.bits] == n.addr[..n.bits];
      assert addr[..m.bits][n.bits] == addr[n.bits] != m.addr[..m.bits][n.bits];
    }
  }

  /** No address is lost: `b` has none, or `a` matches every host, or its address mask covers that of `b`. */
  predicate AddressKept(a: Ban, b: Ban) {
    || b.ip.None? || b.ip.value.bits > 128
    || (a.host.Masked? && Universal(Tokens(a.host.text)))
    || (a.ip.Some? && Covers(a.ip.value, b.ip.value))
  }

  /** No hidden host is lost: `a` looks at them, or `b` does not, or its host matches none. */
  predicate HiddenKept(a: Ban, b: Ban) {
    a.hidden || !b.hidden || !HidesSome(b.host)
  }

  /** Putting `a` in the place of an enclosed `b` bans nobody less. */
  predicate Harmless(a: Ban, b: Ban) {
    b.invalid || a.host.Anything? || (AddressKept(a, b) && HiddenKept(a, b))
  }

  /** An address that is not lost is matched by the other ban too. */
  lemma AddressTaken(a: Ban, b: Ban, u: User)
    requires AddressKept(a, b) && ProperUser(u) && b.ip.Some? && IpMaskCheck(u.addr, b.ip.value)
    ensures (a.ip.Some? && IpMaskCheck(u.addr, a.ip.value)) || HostHit(a.host, u.host)
  {
    hide Tokens, MatchTokens, Universal;
    if a.host.Masked? && Universal(Tokens(a.host.text)) {
      var s := OutsideItems(Tokens(a.host.text));
    }
  }

  /** If a encloses b and that is harmless, then every user b matches a matches too. */
  lemma OverlapSound(a: Ban, b: Ban, u: User, visibleonly: bool)
    requires WellMade(a) && WellMade(b) && BanOverlap(a, b) && Harmless(a, b)
    requires ProperUser(u) && NickMatchBan(u, b, visibleonly)
    ensures NickMatchBan(u, a, visibleonly)
  {
    hide Passes, Encloses, FlagsAgree, FakeHost, VisibleIdent, HidesSome, AddressKept, HostHit, IpMaskCheck, ProperUser;
    InvalidEnclosed(a, b);
    EnclosedPasses(a.nick, b.nick, u.nick);
    EnclosedPasses(a.user, b.user, VisibleIdent(u));
    HostsKept(a, b, u);
    if b.ip.Some? && IpMaskCheck(u.addr, b.ip.value) && !a.host.Anything? {
      AddressTaken(a, b, u);
    }
  }

  lemma HostsKept(a: Ban, b: Ban, u: User)
    requires BanOverlap(a, b) && ProperUser(u)
    ensures b.host.Anything? ==> a.host.Anything?
    ensures HostHit(b.host, u.host) ==> HostHit(a.host, u.host) || a.host.Anything?
    ensures u.sethost.Some? && HostHit(b.host, u.sethost.value.host) ==> HostHit(a.host, u.sethost.value.host) || a.host.Anything?
    ensures u.account.Some? && HostHit(b.host, FakeHost(u.account.value)) ==>
              HidesSome(b.host) && (HostHit(a.host, FakeHost(u.account.value)) || a.host.Anything?)
  {
    hide Passes, Encloses, FakeHost, HidesSome;
    HidesExactly(b.host);
    if u.account.Some? && HostHit(b.host, FakeHost(u.account.value)) {
      EnclosedPasses(a.host, b.host, FakeHost(u.account.value));
    }
    if u.sethost.Some? && HostHit(b.host, u.sethost.value.host) {
      EnclosedPasses(a.host, b.host, u.sethost.value.host);
    }
    if HostHit(b.host, u.host) {
      EnclosedPasses(a.host, b.host, u.host);
    }
    AnyEnclosed(a.host, b.host);
  }

  lemma AnyEnclosed(a: Part, b: Part)
    requires Encloses(a, b)
    ensures b.Anything? ==> a.Anything?
    ensures b.Empty? ==> a.Anything? || a.Empty?
  {
  }

  /** A text the component lets pass. */
  function TextFor(p: Part): string {
    match p
    case Exact(t) => t
    case Masked(t) => Instance(Tokens(t))
    case _ => "x"
  }

  lemma TextForPasses(p: Part)
    ensures Passes(p, TextFor(p))
    ensures if HasText(p) then |TextFor(p)| <= |p.text| && (p.text != "" ==> TextFor(p) != "") else |TextFor(p)| == 1
  {
    if p.Masked? {
      InstanceMatches(Tokens(p.text));
      FewTokens(p.text);
    }
  }

  /** A host the component does not match, where there is one. */
  lemma OutsideHost(p: Part) returns (s: string)
    ensures 0 < |s| <= 2 && (HostHit(p, s) <==> p.Masked? && Universal(Tokens(p.text)))
  {
    match p
    case Exact(t) =>
      s := if SameText("x", t) then "xx" else "x";
      if SameText("x", t) && SameText("xx", t) {
        SameLength("x", t);
        SameLength("xx", t);
      }
    case Masked(t) => s := OutsideItems(Tokens(t));
    case _ => s := "x";
  }

  /** Otherwise some user is banned less: one at an address, or one behind a hidden host. */
  lemma OverlapLoses(a: Ban, b: Ban) returns (u: User, visibleonly: bool)
    requires WellMade(a) && WellMade(b) && BanOverlap(a, b) && !Harmless(a, b)
    ensures ProperUser(u) && NickMatchBan(u, b, visibleonly) && !NickMatchBan(u, a, visibleonly)
  {
    hide Passes, Encloses, BadParts, FakeHost, HidesSome, Universal, Tokens, Covers, TextFor;
    TextForPasses(b.nick);
    TextForPasses(b.user);
    AnyEnclosed(a.host, b.host);
    var s := OutsideHost(a.host);
    var nick, ident := TextFor(b.nick), TextFor(b.user);
    if !AddressKept(a, b) {
      visibleonly := false;
      var m := if a.ip.Some? then a.ip.value else b.ip.value;
      var addr := OutsideAddress(m, b.ip.value);
      u := User(nick, ident, s, if a.ip.Some? then addr else b.ip.value.addr, None, None, false);
    } else {
      visibleonly := true;
      HidesExactly(b.host);
      var account: string :| IsAccount(account) && HostHit(b.host, FakeHost(account));
      u := User(nick, ident, s, seq(128, _ => false), None, Some(account), true);
    }
  }

  /** banoverlap's "superset", for bans makeban has made: when it says that a encloses b, every user b matches is
      matched by a exactly when that is harmless. */
  lemma OverlapExact(a: Ban, b: Ban)
    requires WellMade(a) && WellMade(b) && BanOverlap(a, b)
    ensures Superset(a, b) <==> Harmless(a, b)
  {
    hide NickMatchBan, WellMade, BanOverlap, Harmless, ProperUser;
    if Harmless(a, b) {
      forall u, visibleonly | ProperUser(u) && NickMatchBan(u, b, visibleonly) ensures NickMatchBan(u, a, visibleonly) {
        OverlapSound(a, b, u, visibleonly);
      }
    } else {
      var u, visibleonly := OverlapLoses(a, b);
    }
  }

  // ---------------------------------------------------------------- the ban list

  function Keep(bans: seq<Ban>, nb: Ban): (r: seq<Ban>)
    ensures forall b :: b in r <==> b in bans && !BanOverlap(nb, b)
  {
    if bans == [] then []
    else if BanOverlap(nb, bans[0]) then Keep(bans[1..], nb)
    else [bans[0]] + Keep(bans[1..], nb)
  }

  lemma KeepUnfolds(bans: seq<Ban>, i: nat, nb: Ban)
    requires i < |bans|
    ensures var without := bans[..i] + bans[i + 1..];
            bans[..i] + Keep(bans[i..], nb)
            == if BanOverlap(nb, bans[i]) then without[..i] + Keep(without[i..], nb)
               else bans[..i + 1] + Keep(bans[i + 1..], nb)
  {
    hide BanOverlap;
    var without := bans[..i] + bans[i + 1..];
    assert bans[i..][0] == bans[i] && bans[i..][1..] == bans[i + 1..];
    assert without[..i] == bans[..i] && without[i..] == bans[i + 1..];
    var rest := Keep(bans[i + 1..], nb);
    assert bans[..i] + ([bans[i]] + rest) == bans[..i + 1] + rest;
  }

  lemma KeepNothing(bans: seq<Ban>, nb: Ban)
    ensures bans[..|bans|] + Keep(bans[|bans|..], nb) == bans
  {
  }

  predicate Enclosed(bans: seq<Ban>, nb: Ban) {
    exists b | b in bans :: BanOverlap(b, nb)
  }

  /** setban on the list: dropped when enclosed, otherwise put in front of what it does not enclose. */
  function SetBanIn(bans: seq<Ban>, nb: Ban): seq<Ban> {
    if Enclosed(bans, nb) then bans else [nb] + Keep(bans, nb)
  }

  predicate Banned(u: User, bans: seq<Ban>, visibleonly: bool) {
    exists b | b in bans :: NickMatchBan(u, b, visibleonly)
  }

  /** What setban leaves out for being enclosed is matched by what it keeps. */
  predicate KeepsMeaning(bans: seq<Ban>, nb: Ban) {
    if Enclosed(bans, nb) then exists b | b in bans :: BanOverlap(b, nb) && Harmless(b, nb)
    else forall b | b in bans && BanOverlap(nb, b) :: Harmless(nb, b)
  }

  /** After setban a user is banned exactly when it was before or the new ban matches it. */
  lemma SetBanBans(bans: seq<Ban>, nb: Ban, u: User, visibleonly: bool)
    requires (forall b | b in bans :: WellMade(b)) && WellMade(nb) && ProperUser(u) && KeepsMeaning(bans, nb)
    ensures Banned(u, SetBanIn(bans, nb), visibleonly) <==> Banned(u, bans, visibleonly) || NickMatchBan(u, nb, visibleonly)
  {
    hide NickMatchBan, BanOverlap, WellMade, Harmless, ProperUser;
    if Enclosed(bans, nb) {
      var b :| b in bans && BanOverlap(b, nb) && Harmless(b, nb);
      if NickMatchBan(u, nb, visibleonly) {
        OverlapSound(b, nb, u, visibleonly);
      }
    } else {
      var after := [nb] + Keep(bans, nb);
      assert nb in after && forall b :: b in after <==> b == nb || b in Keep(bans, nb);
      if Banned(u, bans, visibleonly) {
        var b :| b in bans && NickMatchBan(u, b, visibleonly);
        if BanOverlap(nb, b) {
          OverlapSound(nb, b, u, visibleonly);
        }
      }
    }
  }

  /** The bans of a list of masks, set one after the other. */
  function SetBans(lib: Lib, bans: seq<Ban>, words: seq<string>): seq<Ban>
    decreases |words|
  {
    if words == [] then bans else SetBans(lib, SetBanIn(bans, BanOf(lib, words[0])), words[1..])
  }

  /** Where one of the masks encloses another, that is harmless. */
  predicate HarmlessMasks(lib: Lib, masks: seq<string>) {
    forall x, y | x in masks && y in masks && BanOverlap(BanOf(lib, x), BanOf(lib, y)) :: Harmless(BanOf(lib, x), BanOf(lib, y))
  }

  ghost predicate FromMasks(lib: Lib, bans: seq<Ban>, masks: seq<string>) {
    forall b | b in bans :: exists m | m in masks :: b == BanOf(lib, m)
  }

  predicate SomeMaskMatches(lib: Lib, masks: seq<string>, u: User, visibleonly: bool) {
    exists m | m in masks :: NickMatchBan(u, BanOf(lib, m), visibleonly)
  }

  /** On a list built from masks alone a user is banned exactly when one of the masks that were set matches it. */
  lemma SetMasksBan(lib: Lib, masks: seq<string>, u: User, visibleonly: bool)
    requires HarmlessMasks(lib, masks) && ProperUser(u)
    ensures Banned(u, SetBans(lib, [], masks), visibleonly) <==> SomeMaskMatches(lib, masks, u, visibleonly)
  {
    hide NickMatchBan, BanOf, SetBans, HarmlessMasks, ProperUser;
    SetMoreMasks(lib, masks, [], masks, u, visibleonly);
  }

  lemma {:induction false} SetMoreMasks(lib: Lib, all: seq<string>, bans: seq<Ban>, rest: seq<string>, u: User, visibleonly: bool)
    requires HarmlessMasks(lib, all) && ProperUser(u) && FromMasks(lib, bans, all) && forall m | m in rest :: m in all
    ensures Banned(u, SetBans(lib, bans, rest), visibleonly)
       <==> Banned(u, bans, visibleonly) || SomeMaskMatches(lib, rest, u, visibleonly)
    decreases |rest|
  {
    hide NickMatchBan, BanOf, HarmlessMasks, ProperUser, FromMasks, SetBanIn, Banned;
    if rest != [] {
      var nb := BanOf(lib, rest[0]);
      OneMoreMask(lib, all, bans, rest[0], u, visibleonly);
      SetMoreMasks(lib, all, SetBanIn(bans, nb), rest[1..], u, visibleonly);
      assert forall m :: m in rest <==> m == rest[0] || m in rest[1..];
    }
  }

  lemma OneMoreMask(lib: Lib, all: seq<string>, bans: seq<Ban>, mask: string, u: User, visibleonly: bool)
    requires HarmlessMasks(lib, all) && ProperUser(u) && FromMasks(lib, bans, all) && mask in all
    ensures var nb := BanOf(lib, mask);
            && FromMasks(lib, SetBanIn(bans, nb), all)
            && (Banned(u, SetBanIn(bans, nb), visibleonly) <==> Banned(u, bans, visibleonly) || NickMatchBan(u, nb, visibleonly))
  {
    hide NickMatchBan, BanOf, BanOverlap, Harmless, WellMade, ProperUser, Banned;
    var nb := BanOf(lib, mask);
    BanOfWellMade(lib, mask);
    forall b | b in bans ensures WellMade(b) {
      var m :| m in all && b == BanOf(lib, m);
      BanOfWellMade(lib, m);
    }
    assert KeepsMeaning(bans, nb);
    SetBanBans(bans, nb, u, visibleonly);
  }

  /** Masks without addresses whose hosts are not cut are harmless to each other. */
  lemma TextMasksHarmless(lib: Lib, masks: seq<string>)
    requires forall m | m in masks :: BanOf(lib, m).ip.None? && !CutHost(m)
    ensures HarmlessMasks(lib, masks)
  {
    hide BanOf, BanOverlap, CutHost;
    forall x, y | x in masks && y in masks && BanOverlap(BanOf(lib, x), BanOf(lib, y))
      ensures Harmless(BanOf(lib, x), BanOf(lib, y))
    {
      TextHarmless(lib, x, BanOf(lib, y));
    }
  }

  lemma TextHarmless(lib: Lib, mask: string, b: Ban)
    requires !CutHost(mask) && BanOverlap(BanOf(lib, mask), b) && b.ip.None?
    ensures Harmless(BanOf(lib, mask), b)
  {
    hide BanOf, LastAt, FakeHost, Passes, Encloses, HidesSome;
    var a := BanOf(lib, mask);
    HiddenFlagComplete(lib, mask);
    HidesExactly(b.host);
    if HidesSome(b.host) {
      var account: string :| IsAccount(account) && HostHit(b.host, FakeHost(account));
      EnclosedPasses(a.host, b.host, FakeHost(account));
    }
  }

  /** No ban of the list encloses another. */
  predicate Antichain(bans: seq<Ban>) {
    forall i, j | 0 <= i < |bans| && 0 <= j < |bans| && i != j :: !BanOverlap(bans[i], bans[j])
  }

  lemma {:induction false} KeepAntichain(bans: seq<Ban>, nb: Ban)
    requires Antichain(bans)
    ensures Antichain(Keep(bans, nb))
  {
    hide BanOverlap;
    if bans != [] {
      assert forall i | 0 <= i < |bans[1..]| :: bans[1..][i] == bans[i + 1];
      KeepAntichain(bans[1..], nb);
      var rest := Keep(bans[1..], nb);
      forall k | 0 <= k < |rest|
        ensures !BanOverlap(bans[0], rest[k]) && !BanOverlap(rest[k], bans[0])
      {
        assert rest[k] in bans[1..];
      }
    }
  }

  lemma SetBanAntichain(bans: seq<Ban>, nb: Ban)
    requires Antichain(bans)
    ensures Antichain(SetBanIn(bans, nb))
  {
    KeepAntichain(bans, nb);
    hide BanOverlap;
    var rest := Keep(bans, nb);
    forall k | 0 <= k < |rest|
      ensures !BanOverlap(nb, rest[k]) && (!Enclosed(bans, nb) ==> !BanOverlap(rest[k], nb))
    {
      assert rest[k] in rest;
    }
  }

  /** clearban on the list: the first equal ban goes. */
  function ClearBanIn(bans: seq<Ban>, nb: Ban): seq<Ban> {
    if bans == [] then []
    else if BanEqual(nb, bans[0]) then bans[1..]
    else [bans[0]] + ClearBanIn(bans[1..], nb)
  }

  lemma ClearUnfolds(bans: seq<Ban>, i: nat, nb: Ban)
    requires i < |bans|
    ensures bans[..i] + ClearBanIn(bans[i..], nb)
            == if BanEqual(nb, bans[i]) then bans[..i] + bans[i + 1..] else bans[..i + 1] + ClearBanIn(bans[i + 1..], nb)
  {
    hide BanEqual;
    assert bans[i..][0] == bans[i] && bans[i..][1..] == bans[i + 1..];
    var rest := ClearBanIn(bans[i + 1..], nb);
    assert bans[..i] + ([bans[i]] + rest) == bans[..i + 1] + rest;
  }

  lemma ClearNothing(bans: seq<Ban>, nb: Ban)
    ensures bans[..|bans|] + ClearBanIn(bans[|bans|..], nb) == bans
    ensures bans[..0] + ClearBanIn(bans[0..], nb) == ClearBanIn(bans, nb)
  {
    assert bans[0..] == bans;
  }

  class ChannelBans {
    var bans: seq<Ban>

    constructor ()
      ensures bans == []
    {
      bans := [];
    }

    /** nickbanned. */
    method NickBanned(u: User, visibleonly: bool) returns (banned: bool)
      ensures banned == Banned(u, bans, visibleonly)
    {
      hide NickMatchBan;
      var i := 0;
      while i < |bans|
        invariant 0 <= i <= |bans|
        invariant forall j | 0 <= j < i :: !NickMatchBan(u, bans[j], visibleonly)
      {
        if NickMatchBan(u, bans[i], visibleonly) {
          return true;
        }
        i := i + 1;
      }
      return false;
    }

    /** The second loop of setban: what the new ban encloses is unlinked. */
    method RemoveEnclosed(nb: Ban)
      modifies this
      ensures bans == Keep(old(bans), nb)
    {
      hide BanOverlap;
      var i := 0;
      while i < |bans|
        invariant 0 <= i <= |bans|
        invariant bans[..i] + Keep(bans[i..], nb) == Keep(old(bans), nb)
        decreases |bans| - i
      {
        KeepUnfolds(bans, i, nb);
        if BanOverlap(nb, bans[i]) {
          bans := bans[..i] + bans[i + 1..];
        } else {
          i := i + 1;
        }
      }
      KeepNothing(bans, nb);
    }

    /** setban. */
    method SetBan(lib: Lib, mask: string) returns (added: bool)
      modifies this
      ensures added <==> !Enclosed(old(bans), BanOf(lib, mask))
      ensures bans == SetBanIn(old(bans), BanOf(lib, mask))
    {
      hide BanOverlap, BanOf;
      var nb := MakeBan(lib, mask);
      var i := 0;
      while i < |bans|
        invariant 0 <= i <= |bans|
        invariant forall j | 0 <= j < i :: !BanOverlap(bans[j], nb)
      {
        if BanOverlap(bans[i], nb) {
          return false;
        }
        i := i + 1;
      }
      assert !Enclosed(bans, nb);
      RemoveEnclosed(nb);
      bans := [nb] + bans;
      return true;
    }

    /** clearban. */
    method ClearBan(lib: Lib, mask: string) returns (found: bool)
      modifies this
      ensures bans == ClearBanIn(old(bans), BanOf(lib, mask))
      ensures found <==> exists b | b in old(bans) :: BanEqual(BanOf(lib, mask), b)
    {
      hide BanEqual, BanOf, ClearBanIn;
      var nb := MakeBan(lib, mask);
      ClearNothing(bans, nb);
      var i := 0;
      while i < |bans|
        invariant 0 <= i <= |bans| && bans == old(bans)
        invariant forall j | 0 <= j < i :: !BanEqual(nb, bans[j])
        invariant bans[..i] + ClearBanIn(bans[i..], nb) == ClearBanIn(bans, nb)
      {
        ClearUnfolds(bans, i, nb);
        if BanEqual(nb, bans[i]) {
          bans := bans[..i] + bans[i + 1..];
          return true;
        }
        i := i + 1;
      }
      ClearNothing(bans, nb);
      return false;
    }
  }

  /** "1*" matches everything that starts with a 1. */
  lemma OneStar(s: string)
    ensures Match("1*", s) <==> s != "" && s[0] == '1'
  {
    var p := "1*";
    assert p[1..] == "*" && p[1..][1..] == "";
    var ts := Tokens(p);
    assert ts == [Lit('1'), Star];
    assert ts[1..] == [Star] && ts[1..][1..] == [];
    if s != "" {
      assert s[1..][|s| - 1..] == "";
      assert MatchTokens([Star][1..], s[1..][|s| - 1..]);
      assert MatchTokens(ts[1..], s[1..]);
    }
  }

  function OneNetLib(addr: Addr): Lib {
    Lib(h => if h == "10.0.0.*" then Some(IpMask(addr, 120)) else None)
  }

  lemma OneEnclosesTen()
    ensures Match2Patterns("1*", "10.0.0.*")
  {
    var p := "1*";
    assert p[1..] == "*" && p[1..][1..] == "";
    assert Tokens(p) == [Lit('1'), Star];
    assert BackOver(p, 1) == 1 && EndsOpen(p);
    var ns := Tokens("10.0.0.*");
    assert ns[0] == Lit('1');
    OneStarTakes(ns);
    hide Tokens, Embeds;
  }

  lemma OneStarTakes(ns: seq<Tok>)
    requires ns != [] && ns[0] == Lit('1')
    ensures Embeds([Lit('1'), Star], ns, true)
  {
    assert [Lit('1'), Star][1..] == [Star] && [Star][1..] == [];
    assert Embeds([], ns[1..][0..], true);
    assert Embeds([Star], ns[1..], true);
  }

  lemma HostOnlyBan(lib: Lib, h: string)
    requires IsHostText(h) && HasWild(h) && '@' !in h
    ensures BanOf(lib, "*!*@" + h) == Ban(Anything, Anything, Masked(h), lib.ipmaskParse(h), false, MarksHidden(h))
  {
    assert "*" + "!" + "*" + "@" + h == "*!*@" + h;
    BanOfSplit(lib, "*", "*", h);
    HostOnlyParts(lib, h);
    hide *;
  }

  lemma HostOnlyParts(lib: Lib, h: string)
    requires IsHostText(h) && HasWild(h)
    ensures Assemble(lib, NickPart("*"), "*", h) == Ban(Anything, Anything, Masked(h), lib.ipmaskParse(h), false, MarksHidden(h))
  {
    var i :| 0 <= i < |h| && IsWild(h[i]);
    assert LastWild(h) >= 0;
    hide MarksHidden, LastWild;
    assert NickPart("*") == UserPart("*") == Anything;
    assert HostPart(h) == Masked(h);
    hide HostPart, NickPart, UserPart;
  }

  /** "1*" encloses "10.0.0.*" as text, but only the latter is also an address mask, so dropping it as enclosed leaves
      a user at such an address unbanned. */
  lemma AddressBanLost(addr: Addr)
    ensures var lib := OneNetLib(addr);
            var wide, nb := BanOf(lib, "*!*@1*"), BanOf(lib, "*!*@10.0.0.*");
            var u := User("n", "i", "h", addr, None, None, false);
            && ProperUser(u) && NickMatchBan(u, nb, false)
            && SetBanIn([wide], nb) == [wide] && !Banned(u, [wide], false)
  {
    hide Match, BanOf, MarksHidden, Match2Patterns;
    var lib := OneNetLib(addr);
    OneEnclosesTen();
    var one, ten := "1*", "10.0.0.*";
    assert IsWild(one[1]) && IsWild(ten[7]);
    assert |one| != |ten|;
    HostOnlyBan(lib, one);
    HostOnlyBan(lib, ten);
    assert "*!*@" + one == "*!*@1*" && "*!*@" + ten == "*!*@10.0.0.*";
    var wide, nb := BanOf(lib, "*!*@1*"), BanOf(lib, "*!*@10.0.0.*");
    OneStar("h");
    WideKeeps(wide, nb, User("n", "i", "h", addr, None, None, false));
  }

  lemma WideKeeps(wide: Ban, nb: Ban, u: User)
    requires BanOverlap(wide, nb) && !NickMatchBan(u, wide, false)
    ensures SetBanIn([wide], nb) == [wide] && !Banned(u, [wide], false)
  {
    hide BanOverlap, NickMatchBan;
    assert wide in [wide];
  }
}
