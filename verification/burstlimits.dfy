/** Where sendchanburst fails: channels whose lines are longer than irc_send lets through, and channels that come
    behind one with bans. */
module BurstLimits {
  import opened Options
  import opened IrcStrings
  import opened Decimal
  import opened Bans
  import opened BanLists
  import opened Burst
  import opened Wire
  import opened RoundTrips
  import opened BurstSender
  import H = UserHash

  // ---------------------------------------------------------------- channels that fit one line

  /** While the text leaves room for another user there is no wrap. */
  lemma {:induction false} OneLine(h: Head, us: seq<H.Word>)
    requires HeadOk(h) && forall i | 0 <= i < |us| :: |Text(h, Chunk(true, us[..i], []))| <= BUFSIZE - 10
    ensures AddUsers(h, START, us) == Emission([], Chunk(true, us, []))
  {
    hide HeadOk, Text;
    if us != [] {
      var last := |us| - 1;
      forall i | 0 <= i < last ensures us[..last][..i] == us[..i] {}
      OneLine(h, us[..last]);
      assert us == us[..last] + [us[last]];
      AddUsersMore(h, START, us[..last], us[last]);
      hide AddUsers;
    }
  }

  predicate Plain(us: seq<H.Word>) {
    forall i | 0 <= i < |us| :: H.Modes(us[i]) == 0
  }

  lemma {:induction false} PlainLength(us: seq<H.Word>)
    requires Plain(us)
    ensures |UsersText(us)| == if us == [] then 0 else 6 * |us| - 1
  {
    hide UsersText, UserText, H.Modes;
    if us == [] {
      EmptyUsersText();
    } else {
      var init, w := us[..|us| - 1], us[|us| - 1];
      assert us == init + [w];
      PlainLength(init);
      UsersAppend(init, w);
      PlainPiece(init, w);
    }
  }

  lemma PlainPiece(us: seq<H.Word>, w: H.Word)
    requires Plain(us) && H.Modes(w) == 0
    ensures |UserPiece(us, w)| == if us == [] then 5 else 6
  {
    hide UserText, H.Modes;
  }

  // ---------------------------------------------------------------- lines that are too long

  /** The user `w` is due on the line `k`, which has room for ten more bytes, and comes out past what irc_send sends. */
  predicate Overflows(h: Head, k: Chunk, w: H.Word)
    requires HeadOk(h)
  {
    k.users != [] && |Text(h, k)| <= BUFSIZE - 10 && |Text(h, k)| + |UserPiece(k.users, w)| > SENDLIMIT
  }

  /** Some user of `us` overflows the line it is due on. */
  ghost predicate SomeOverflows(h: Head, us: seq<H.Word>)
    requires HeadOk(h)
  {
    exists i :: 0 <= i < |us| && Overflows(h, AddUsers(h, START, us[..i]).cur, us[i])
  }

  ghost predicate SomeLong(h: Head, ks: seq<Chunk>)
    requires HeadOk(h)
  {
    exists k :: k in ks && |Text(h, k)| > SENDLIMIT
  }

  lemma SomeLongMore(h: Head, ks: seq<Chunk>, k: Chunk)
    requires HeadOk(h)
    ensures SomeLong(h, ks + [k]) <==> SomeLong(h, ks) || |Text(h, k)| > SENDLIMIT
  {
    hide HeadOk, Text;
    assert forall x :: x in ks + [k] <==> x in ks || x == k;
  }

  lemma SomeOverflowsMore(h: Head, us: seq<H.Word>, w: H.Word)
    requires HeadOk(h)
    ensures SomeOverflows(h, us + [w]) <==> SomeOverflows(h, us) || Overflows(h, AddUsers(h, START, us).cur, w)
  {
    hide HeadOk, AddUsers, Overflows;
    assert forall i | 0 <= i < |us| :: (us + [w])[..i] == us[..i] && (us + [w])[i] == us[i];
    assert (us + [w])[..|us|] == us && (us + [w])[|us|] == w;
  }

  /** The lines before the one being filled are finished. */
  predicate Fills(h: Head, e: Emission) {
    e.cur.bans == [] && (e.cur.users == [] ==> e == START)
  }

  lemma AddUserLong(h: Head, e: Emission, w: H.Word)
    requires HeadOk(h) && Fills(h, e)
    ensures var e' := AddUser(h, e, w);
            && Fills(h, e')
            && (SomeLong(h, Chunks(e')) <==> SomeLong(h, Chunks(e)) || Overflows(h, e.cur, w))
  {
    hide HeadOk, Text, SomeLong, UserPiece;
    FreshLine(h);
    var k, next := e.cur.(users := e.cur.users + [w]), Chunk(false, [w], []);
    SomeLongMore(h, e.done, e.cur);
    SomeLongMore(h, e.done, k);
    SomeLongMore(h, e.done + [e.cur], next);
    TextAddsUser(h, e.cur, w);
    TextAddsUser(h, Chunk(false, [], []), w);
    assert [] + [w] == [w];
  }

  lemma {:induction false} UsersLong(h: Head, us: seq<H.Word>)
    requires HeadOk(h)
    ensures var e := AddUsers(h, START, us);
            Fills(h, e) && (SomeLong(h, Chunks(e)) <==> SomeOverflows(h, us))
  {
    hide HeadOk, Text, AddUser, Overflows;
    if us == [] {
      FreshLine(h);
      assert Chunks(START) == [START.cur];
    } else {
      var init, w := us[..|us| - 1], us[|us| - 1];
      assert us == init + [w];
      UsersLong(h, init);
      hide AddUsers, SomeLong, SomeOverflows, Fills;
      AddUsersMore(h, START, init, w);
      AddUserLong(h, AddUsers(h, START, init), w);
      SomeOverflowsMore(h, init, w);
    }
  }

  lemma AddBanLong(h: Head, e: Emission, b: string)
    requires HeadOk(h) && |b| <= BANLEN
    ensures SomeLong(h, Chunks(AddBan(h, e, b))) <==> SomeLong(h, Chunks(e))
  {
    hide HeadOk, Text, SomeLong;
    FreshLine(h);
    var k, next := e.cur.(bans := e.cur.bans + [b]), Chunk(false, [], [b]);
    SomeLongMore(h, e.done, e.cur);
    SomeLongMore(h, e.done, k);
    SomeLongMore(h, e.done + [e.cur], next);
    TextAddsBan(h, e.cur, b);
    TextAddsBan(h, Chunk(false, [], []), b);
    assert [] + [b] == [b];
  }

  lemma {:induction false} BansLong(h: Head, e: Emission, bs: seq<string>)
    requires HeadOk(h) && forall b | b in bs :: |b| <= BANLEN
    ensures SomeLong(h, Chunks(AddBans(h, e, bs))) <==> SomeLong(h, Chunks(e))
    decreases |bs|
  {
    hide HeadOk, SomeLong, AddBan;
    if bs != [] {
      AddBanLong(h, e, bs[0]);
      BansLong(h, AddBan(h, e, bs[0]), bs[1..]);
    }
  }

  /** Some line of a channel is too long exactly when some user overflows the line it is due on; bans never do. */
  lemma LongExactly(h: Head, us: seq<H.Word>, bs: seq<string>)
    requires HeadOk(h) && forall b | b in bs :: |b| <= BANLEN
    ensures SomeLong(h, Layout(h, us, bs)) <==> SomeOverflows(h, us)
  {
    hide HeadOk, SomeLong, SomeOverflows, AddUsers, AddBans, Chunks, Fills;
    UsersLong(h, us);
    BansLong(h, AddUsers(h, START, us), bs);
  }

  /** The receiver ends with the users and modes of the channel exactly when no user overflows the line it is due on. */
  lemma UsersExactly(env: Env, h: Head, content: seq<H.Word>, nouser: H.Word, u: H.Users)
    requires Sendworthy(env, h, content, nouser, u)
    ensures var r := ReceiveAll(env, None, Texts(h, LinesOf(h, content, nouser)));
            r.Some? && (r.value.users == h.c.users <==> !SomeOverflows(h, Grouped(content, nouser)))
  {
    BurstRoundTrip(env, h, content, nouser, u);
    BanStringsAreWords(h.c.bans);
    hide HeadOk, H.Stores, BansSendable, BanStrings, Grouped, Text, Texts, ReceiveAll, Layout, SomeOverflows, BanWord;
    LongExactly(h, Grouped(content, nouser), BanStrings(h.c.bans));
    TextsMembers(h, LinesOf(h, content, nouser));
  }

  lemma PlainText(h: Head, us: seq<H.Word>)
    requires HeadOk(h) && h.newline && Plain(us)
    ensures |Text(h, Chunk(true, us, []))| == |Sp(LeadWords(h, true))| + if us == [] then 0 else 6 * |us| - 1
  {
    TextOfUsers(h, Chunk(true, us, []));
    PlainLength(us);
    hide HeadOk, Text, UsersText, Sp, LeadWords, Plain;
  }

  lemma PlainPrefix(us: seq<H.Word>, i: nat)
    requires Plain(us) && i <= |us|
    ensures Plain(us[..i])
  {
    hide H.Modes;
  }

  lemma ModePiece(us: seq<H.Word>, w: H.Word)
    requires us != [] && Plain(us) && H.Modes(w) != 0
    ensures |UserPiece(us, w)| == 6 + |Suffix(H.Modes(w))|
  {
    hide UserText, H.Modes, Suffix;
  }

  /** The bytes in the buffer when the first user with modes is due behind `n` users without. */
  function DueAt(h: Head, n: nat): int
    requires HeadOk(h)
  {
    |Sp(LeadWords(h, true))| + 6 * n - 1
  }

  /** When the first user with modes is due behind other users with too many bytes in the buffer for its mode letters,
      at 501 or 502 for op or voice and at 500 to 502 for both, the receiver ends with other modes, in any table. */
  lemma OverlongSent(env: Env, h: Head, content: seq<H.Word>, nouser: H.Word, u: H.Users, n: nat)
    requires Sendworthy(env, h, content, nouser, u)
    requires var us := Grouped(content, nouser);
             && 0 < n < |us| && Plain(us[..n]) && H.Modes(us[n]) != 0
             && DueAt(h, n) <= BUFSIZE - 10 && DueAt(h, n) + 6 + |Suffix(H.Modes(us[n]))| > SENDLIMIT
    ensures var r := ReceiveAll(env, None, Texts(h, LinesOf(h, content, nouser))); r.Some? && r.value.users != h.c.users
  {
    hide HeadOk, H.Stores, BansSendable, LinesOf, Grouped, Text, Texts, ReceiveAll, SomeOverflows, Sp, LeadWords, Plain,
      H.Modes, Suffix, UserPiece, AddUsers;
    var us := Grouped(content, nouser);
    UsersExactly(env, h, content, nouser, u);
    var front := us[..n];
    forall i | 0 <= i < n ensures |Text(h, Chunk(true, front[..i], []))| <= BUFSIZE - 10 {
      PlainPrefix(front, i);
      PlainText(h, front[..i]);
    }
    OneLine(h, front);
    PlainText(h, front);
    ModePiece(front, us[n]);
    OverflowAt(h, us, n);
  }

  lemma OverflowAt(h: Head, us: seq<H.Word>, n: nat)
    requires HeadOk(h) && n < |us| && Overflows(h, AddUsers(h, START, us[..n]).cur, us[n])
    ensures SomeOverflows(h, us)
  {
    hide HeadOk, Overflows, AddUsers;
  }

  // ---------------------------------------------------------------- a channel with such a line

  const NOUSER: H.Word := 0x3fff_ffff

  function TableMode(n: nat, i: nat): (m: nat)
    ensures m < 4
  {
    if i < n then 0 else 3
  }

  /** A table of `n` users without modes and one with op and voice, each in its own slot. */
  function Table(n: nat): (c: seq<H.Word>)
    requires n < 1000
    ensures |c| == n + 1 && forall i | 0 <= i <= n :: c[i] == H.MakeWord(i, TableMode(n, i))
  {
    seq<H.Word>(n + 1, i requires 0 <= i <= n => H.MakeWord(i, TableMode(n, i)))
  }

  predicate InTable(n: nat, i: nat) {
    i <= n
  }

  function TableUsers(n: nat): H.Users {
    H.Users(map i: nat | i <= n && InTable(n, i) :: TableMode(n, i), map i: nat | i <= n && InTable(n, i) :: i)
  }

  lemma TableStores(n: nat)
    requires n < 1000
    ensures H.Stores(Table(n), NOUSER, TableUsers(n))
  {
    var c, u := Table(n), TableUsers(n);
    assert forall k :: k in u.modes <==> 0 <= k && InTable(n, k);
    forall k | k in u.modes ensures H.MemberAt(c, NOUSER, u, k) {
      TableSlot(n, k);
      AtFirstProbe(k, n + 1);
      hide H.OnPath, H.MakeWord;
    }
    forall j | 0 <= j < |c| ensures H.SlotUsed(c, u, j) {
      TableSlot(n, j);
      assert InTable(n, j);
      hide H.MakeWord;
    }
    hide H.MemberAt, H.SlotUsed;
    assert u.modes.Keys == u.slot.Keys;
  }

  lemma TableSlot(n: nat, k: nat)
    requires k <= n < 1000
    ensures var w := Table(n)[k]; H.Numeric(w) == k && H.Modes(w) == (if k < n then 0 else 3) && w != NOUSER
  {
  }

  lemma AtFirstProbe(k: nat, size: nat)
    requires k < size
    ensures H.OnPath(k, size, k)
  {
    assert H.Reached(k, size, 0) && H.Probe(k, size, 0) == k;
  }

  lemma {:induction false} PassOnly(ws: seq<H.Word>, nouser: H.Word, m: nat, n: nat)
    requires forall i | 0 <= i < |ws| :: H.Modes(ws[i]) == m && ws[i] != nouser
    ensures Pass(ws, nouser, n) == if n == m then ws else []
  {
    hide H.Modes;
    if ws != [] {
      PassOnly(ws[1..], nouser, m, n);
    }
  }

  /** The users of the table in printing order. */
  lemma TableGrouped(n: nat)
    requires n < 1000
    ensures Grouped(Table(n), NOUSER) == Table(n) && Plain(Table(n)[..n]) && H.Modes(Table(n)[n]) == 3
  {
    var c := Table(n);
    var plain, w := c[..n], c[n];
    assert c == plain + [w];
    forall i | 0 <= i < n ensures H.Modes(plain[i]) == 0 && plain[i] != NOUSER {
      TableSlot(n, i);
    }
    TableSlot(n, n);
    hide H.Modes, Table;
    PassOnly(plain, NOUSER, 0, 0);
    PassOnly(plain, NOUSER, 0, 1);
    PassOnly(plain, NOUSER, 0, 2);
    PassOnly(plain, NOUSER, 0, 3);
    PassMore(plain, w, NOUSER, 0);
    PassMore(plain, w, NOUSER, 1);
    PassMore(plain, w, NOUSER, 2);
    PassMore(plain, w, NOUSER, 3);
    hide Pass;
    assert plain + [] + [] + [] + ([] + [w]) == c;
  }

  lemma SendworthyTable(env: Env, h: Head, n: nat)
    requires HeadOk(h) && h.newline && h.c.bans == [] && n < 1000 && H.Stores(Table(n), NOUSER, TableUsers(n))
    requires h.c.users == TableUsers(n).modes && h.c.users.Keys <= env.known
    ensures Sendworthy(env, h, Table(n), NOUSER, TableUsers(n))
  {
    hide HeadOk, H.Stores, Table;
    assert 0 in TableUsers(n).modes;
  }

  lemma {:induction false} NoFlags(letters: string)
    ensures PrintFlagsOf(letters, {}) == ""
  {
    if letters != "" {
      NoFlags(letters[1..]);
    }
  }

  lemma LeadWithoutModes(h: Head)
    requires HeadOk(h) && h.c.flags == {}
    ensures |Sp(LeadWords(h, true))| == |h.me| + |h.name| + |Print(h.c.timestamp)| + 7
  {
    var ts := Print(h.c.timestamp);
    hide Sp, Print, HeadOk, PrintFlagsOf, LeadWords;
    PlainLead(h);
    SpJoin([h.me, "B", h.name, ts], ["+"]);
    SpFour(h.me, "B", h.name, ts);
    SpOne("+");
  }

  lemma PlainLead(h: Head)
    requires HeadOk(h) && h.c.flags == {}
    ensures LeadWords(h, true) == [h.me, "B", h.name, Print(h.c.timestamp)] + ["+"]
  {
    NoFlags(CMODES);
    hide Print, HeadOk, PrintFlagsOf;
    assert PrintFlags({}) == "+";
    assert ModeWords(h) == ["+"];
  }

  /** One such channel: 197 letters of name, 49 users without modes, and one with op and voice. */
  function LongChannel(): Head {
    Head("AB", seq(197, _ => 'a'), Chan(1, {}, 0, None, [], TableUsers(49).modes), true)
  }

  lemma OverlongHappens(env: Env)
    requires TableUsers(49).modes.Keys <= env.known
    ensures var h := LongChannel();
            && Sendworthy(env, h, Table(49), NOUSER, TableUsers(49))
            && ReceiveAll(env, None, Texts(h, LinesOf(h, Table(49), NOUSER))) != Some(h.c)
  {
    var h := LongChannel();
    LongHeadOk();
    LeadWithoutModes(h);
    assert Print(1) == "1";
    hide HeadOk, Sp, LeadWords, Print, Table, TableUsers, LinesOf, ReceiveAll, Text, Grouped, H.Stores, H.Modes, Plain;
    TableStores(49);
    TableGrouped(49);
    SendworthyTable(env, h, 49);
    assert |Suffix(3)| == 3;
    hide Sendworthy, Suffix, LongChannel;
    OverlongSent(env, h, Table(49), NOUSER, TableUsers(49), 49);
  }

  lemma LongHeadOk()
    ensures HeadOk(LongChannel())
  {
    hide TableUsers;
    var h := LongChannel();
    assert h.name[0] == 'a' && ' ' !in h.name;
  }

  // ---------------------------------------------------------------- behind a channel with bans

  /** The channel `c` as read with its lone user taken for `n`. */
  function ReadShort(env: Env, c: Chan, n: nat, bans: seq<string>): Option<Chan> {
    if n in env.known then Some(c.(users := map[n := 0], bans := SetBans(env.lib, [], bans))) else None
  }

  /** A channel with one user sent while `newline` is clear: the user is printed with a comma in front, and the receiver
      drops the last digit of its numeric and its modes. If it knows no user of that shorter numeric it ends without the
      channel; otherwise only the users are wrong, and they are right exactly when the user has the numeric 0 and no
      modes. */
  lemma StaleNewline(env: Env, h: Head, content: seq<H.Word>, nouser: H.Word, u: H.Users, n: nat, m: nat)
    requires HeadOk(h) && !h.newline && nouser < H.NUMERICS && BansSendable(h.c.bans)
    requires H.Stores(content, nouser, u) && u.modes == h.c.users == map[n := m] && n in env.known
    ensures var r := ReceiveAll(env, None, Texts(h, LinesOf(h, content, nouser)));
            && r == ReadShort(env, h.c, n / 64, BanStrings(h.c.bans))
            && (r.Some? && r.value.users == h.c.users <==> n == 0 && m == 0)
  {
    hide HeadOk, H.Stores, Grouped, Text, Texts, ReceiveAll, Layout, H.Modes, H.Numeric, SetBans, BanStrings,
      BansSendable;
    var w := LoneUser(content, nouser, u, n, m);
    BanStringsAreWords(h.c.bans);
    var ks := LinesOf(h, content, nouser);
    LoneLines(h, w, BanStrings(h.c.bans));
    LoneAll(env, h, w, ks);
    assert map[n / 64 := 0][n / 64] == 0;
    assert n / 64 == n <==> n == 0;
    assert map[n / 64 := 0] == map[n := m] ==> n in map[n / 64 := 0];
    assert map[n := m][n] == m;
  }

  /** The lines of a lone user: the first names it, the others carry bans, and none is too long. */
  predicate LoneShape(h: Head, w: H.Word, ks: seq<Chunk>)
    requires HeadOk(h)
  {
    && ks != [] && ks[0].first && ks[0].users == [w] && |Text(h, ks[0])| <= SENDLIMIT
    && (forall b | b in ks[0].bans :: BanWord(b))
    && forall k | k in ks[1..] :: BansOnly(h, k)
  }

  predicate BansOnly(h: Head, k: Chunk)
    requires HeadOk(h)
  {
    !k.first && k.users == [] && |Text(h, k)| <= SENDLIMIT && forall b | b in k.bans :: BanWord(b)
  }

  lemma LoneLines(h: Head, w: H.Word, bs: seq<string>)
    requires HeadOk(h) && forall b | b in bs :: BanWord(b) && |b| <= BANLEN
    ensures LoneShape(h, w, Layout(h, [w], bs)) && JoinBans(Layout(h, [w], bs)) == bs
  {
    hide HeadOk, Text, Layout, BanWord, LineShape, JoinUsers, JoinBans, BansOnly, LoneShape;
    var ks := Layout(h, [w], bs);
    LayoutSound(h, [w], bs);
    LoneJoined(h, w, ks);
  }

  lemma LoneJoined(h: Head, w: H.Word, ks: seq<Chunk>)
    requires HeadOk(h) && WellLaid(h, ks) && ks != [] && ks[0].users != [] && JoinUsers(ks) == [w]
    requires forall b | b in JoinBans(ks) :: BanWord(b)
    ensures LoneShape(h, w, ks)
  {
    hide HeadOk, Text, BanWord, LineShape, JoinUsers, JoinBans, BansOnly, WellLaid;
    FirstTakesAll(ks, w);
    LoneWords(ks);
    LoneFirst(h, ks);
    LoneOthers(h, ks);
    assert ks[0] in ks;
  }

  lemma LoneFirst(h: Head, ks: seq<Chunk>)
    requires HeadOk(h) && WellLaid(h, ks) && |ks[0].users| <= 1
    ensures ks != [] && ks[0].first && |Text(h, ks[0])| <= SENDLIMIT
  {
    hide HeadOk, Text, LineShape;
    LoneFits(h, ks[0]);
  }

  lemma LoneOthers(h: Head, ks: seq<Chunk>)
    requires HeadOk(h) && WellLaid(h, ks) && forall k | k in ks[1..] :: k.users == []
    requires forall k | k in ks :: forall b | b in k.bans :: BanWord(b)
    ensures forall k | k in ks[1..] :: BansOnly(h, k)
  {
    hide HeadOk, Text, BanWord, LineShape;
    forall k | k in ks[1..] ensures BansOnly(h, k) {
      var i :| 1 <= i < |ks| && ks[i] == k;
      LoneFits(h, k);
    }
  }

  lemma LoneFits(h: Head, k: Chunk)
    requires HeadOk(h) && LineShape(h, k) && |k.users| <= 1
    ensures |Text(h, k)| <= SENDLIMIT
  {
  }

  lemma {:induction false} LoneWords(ks: seq<Chunk>)
    requires forall b | b in JoinBans(ks) :: BanWord(b)
    ensures forall k | k in ks :: forall b | b in k.bans :: BanWord(b)
  {
    hide BanWord;
    if ks != [] {
      LoneWords(ks[1..]);
      assert forall k :: k in ks <==> k == ks[0] || k in ks[1..];
    }
  }

  lemma FirstTakesAll(ks: seq<Chunk>, w: H.Word)
    requires ks != [] && ks[0].users != [] && JoinUsers(ks) == [w]
    ensures ks[0].users == [w] && forall k | k in ks[1..] :: k.users == []
  {
    var a, r := ks[0].users, JoinUsers(ks[1..]);
    assert |a + r| == 1 && a + r == [w];
    assert r == [] && a + [] == a;
    NoUsersJoined(ks[1..]);
  }

  lemma {:induction false} NoUsersJoined(ks: seq<Chunk>)
    requires JoinUsers(ks) == []
    ensures forall k | k in ks :: k.users == []
  {
    if ks != [] {
      assert |ks[0].users + JoinUsers(ks[1..])| == 0;
      NoUsersJoined(ks[1..]);
    }
  }

  /** What a receiver without the channel makes of the lines of a lone user. */
  lemma LoneAll(env: Env, h: Head, w: H.Word, ks: seq<Chunk>)
    requires HeadOk(h) && !h.newline && LoneShape(h, w, ks)
    ensures ReceiveAll(env, None, Texts(h, ks)) == ReadShort(env, h.c, H.Numeric(w) / 64, JoinBans(ks))
  {
    hide HeadOk, Text, ReceiveLine, H.Modes, H.Numeric, SetBans, BansOnly, HandleBurst, ArgsFor, ReadsAs;
    var n := H.Numeric(w) / 64;
    var users := "," + UserText(w) + Suffix(H.Modes(w));
    var k, rest := ks[0], ks[1..];
    assert k == Chunk(true, [w], k.bans);
    LoneReceived(env, h, k, w);
    LoneRead(env, h, n, users, k.bans);
    TextsFirst(h, ks);
    hide Texts;
    if n in env.known {
      var c := h.c.(users := map[n := 0], bans := SetBans(env.lib, [], k.bans));
      assert n in c.users;
      LoneRest(env, c, h, rest);
      SetBansJoin(env.lib, [], k.bans, JoinBans(rest));
    } else {
      LostRest(env, h, rest);
    }
  }

  lemma TextsFirst(h: Head, ks: seq<Chunk>)
    requires HeadOk(h) && ks != []
    ensures Texts(h, ks)[0] == Text(h, ks[0]) && Texts(h, ks)[1..] == Texts(h, ks[1..])
  {
    hide HeadOk, Text;
  }

  /** The bans behind a channel that was made. */
  lemma LoneRest(env: Env, c: Chan, h: Head, ks: seq<Chunk>)
    requires HeadOk(h) && c == h.c.(users := c.users, bans := c.bans) && c.users != map[]
    requires forall k | k in ks :: BansOnly(h, k)
    ensures KeyStored(c)
    ensures ReceiveAll(env, Some(c), Texts(h, ks)) == Some(c.(bans := SetBans(env.lib, c.bans, JoinBans(ks))))
  {
    hide Text, ReceiveLine, SetBans, ReceiveAll;
    forall k | k in ks ensures !k.first && Sendable(h, k) {
      assert BansOnly(h, k);
    }
    assert KeyStored(c);
    hide HeadOk, Sendable, AddNicks;
    ReceiveRest(env, c, h, ks);
    NobodyReceived(h, ks);
    NoNicks(env.known, c.users);
  }

  lemma {:induction false} NobodyReceived(h: Head, ks: seq<Chunk>)
    requires HeadOk(h) && forall k | k in ks :: BansOnly(h, k)
    ensures ReceivedAll(h, ks) == []
  {
    hide HeadOk, Text;
    if ks != [] {
      assert BansOnly(h, ks[0]);
      NobodyReceived(h, ks[1..]);
    }
  }

  /** The bans behind a channel that was not made. */
  lemma {:induction false} LostRest(env: Env, h: Head, ks: seq<Chunk>)
    requires HeadOk(h) && forall k | k in ks :: BansOnly(h, k)
    ensures ReceiveAll(env, None, Texts(h, ks)) == None
    decreases |ks|
  {
    hide HeadOk, ReceiveLine, Text;
    if ks != [] {
      assert BansOnly(h, ks[0]);
      BansLost(env, h, ks[0]);
      TextsFirst(h, ks);
      LostRest(env, h, ks[1..]);
    }
  }

  lemma BansLost(env: Env, h: Head, k: Chunk)
    requires HeadOk(h) && BansOnly(h, k)
    ensures ReceiveLine(env, None, Text(h, k)) == None
  {
    LineReceived(env, None, h, k);
    EmptyUsersText();
    assert UsersArriving(h, k) == "";
    hide HeadOk, Text, ReceiveLine, HandleBurst, ArgsFor, UsersText, BanWord;
    NextIsBurst(h, "", [], k.bans);
    var b := Said(h.c.timestamp, {}, 0, "", Mentions([]), k.bans);
    BurstMerges(env, None, ArgsFor(h, false, "", k.bans), b);
    hide SetBans, BanText, IsBurst;
    assert Merge(env, None, b) == None;
  }

  /** The only word of the table. */
  lemma LoneUser(content: seq<H.Word>, nouser: H.Word, u: H.Users, n: nat, m: nat) returns (w: H.Word)
    requires H.Stores(content, nouser, u) && nouser < H.NUMERICS && u.modes == map[n := m]
    ensures Grouped(content, nouser) == [w] && H.Numeric(w) == n && H.Modes(w) == m
  {
    hide H.Stores, Grouped, H.Modes, H.Numeric;
    StoredFacts(content, nouser, u);
    GroupedWords(content, nouser);
    GroupedDistinct(content, nouser);
    assert n in u.modes;
    GroupedNotEmpty(content, nouser, u);
    var us := Grouped(content, nouser);
    w := us[0];
    forall i | 0 <= i < |us| ensures us[i] != nouser && H.Numeric(us[i]) == n {
      assert us[i] in us;
      assert H.Numeric(us[i]) in u.modes.Keys;
    }
    assert H.Numeric(us[|us| - 1]) == n;
    assert us == [w];
    assert w in us;
  }

  /** The line of a lone user behind a comma. */
  lemma LoneReceived(env: Env, h: Head, k: Chunk, w: H.Word)
    requires HeadOk(h) && !h.newline && k.first && k.users == [w] && |Text(h, k)| <= SENDLIMIT
    ensures var users := "," + UserText(w) + Suffix(H.Modes(w));
            && ReceiveLine(env, None, Text(h, k)) == HandleBurst(env, None, ArgsFor(h, true, users, k.bans))
            && users != "" && ReadsAs(users, [Listed(H.Numeric(w) / 64, 0)])
  {
    hide HeadOk, Text, SplitLine, HandleBurst, H.Modes, H.Numeric, UserText, UsersText, Suffix;
    LineSplits(h, k);
    FirstUserText(w);
    var users := "," + UserText(w) + Suffix(H.Modes(w));
    assert users == "," + (UserText(w) + Suffix(H.Modes(w)));
    assert UsersArg(h, k) == users;
    CommaInFront(w);
    CommaWord(UserText(w) + Suffix(H.Modes(w)));
    hide ArgsFor, ArgsOf;
    SameArgs(h, k, users);
    assert ([h.me, "B"] + ArgsOf(h, k))[2..] == ArgsOf(h, k);
  }

  lemma CommaWord(t: string)
    requires ' ' !in t
    ensures IsWord("," + t) && IsUserArg("," + t)
  {
  }

  lemma SameArgs(h: Head, k: Chunk, users: string)
    requires HeadOk(h) && k.first && k.users != [] && users != "" && UsersArg(h, k) == users
    ensures ArgsOf(h, k) == ArgsFor(h, true, users, k.bans)
  {
    hide HeadOk, ModeWords, Print, UsersArg, BanText;
  }

  /** The first line of a channel whose only user is read as `m`. */
  lemma LoneRead(env: Env, h: Head, m: nat, users: string, bs: seq<string>)
    requires HeadOk(h) && ReadsAs(users, [Listed(m, 0)]) && users != "" && forall b | b in bs :: BanWord(b)
    ensures HandleBurst(env, None, ArgsFor(h, true, users, bs)) == ReadShort(env, h.c, m, bs)
  {
    hide HeadOk, HandleBurst, ArgsFor, ReadsAs, BanWord, SetBans;
    var us := [Listed(m, 0)];
    LoneNick(env, m);
    if m in env.known {
      assert us[0] in us;
      ReceiveFirst(env, h, users, us, bs);
    } else {
      FirstIsBurst(h, users, us, bs);
      BurstMerges(env, None, ArgsFor(h, true, users, bs), SaidBy(h, us, bs));
      NobodyMerged(env, h, us, bs);
    }
  }

  lemma LoneNick(env: Env, m: nat)
    ensures AddNicks(env.known, map[], [Listed(m, 0)], false) == if m in env.known then map[m := 0] else map[]
  {
    assert [Listed(m, 0)][1..] == [];
    assert AddNicks(env.known, map[m := 0], [], false) == map[m := 0];
  }

  lemma NobodyMerged(env: Env, h: Head, us: seq<Listed>, bs: seq<string>)
    requires HeadOk(h) && AddNicks(env.known, map[], us, false) == map[]
    ensures Merge(env, None, SaidBy(h, us, bs)) == None
  {
    AddNicksJoins(env.known, map[], us, false);
    hide AddNicks, Mentions, NewUsers, HeadOk, SetBans;
  }
}
