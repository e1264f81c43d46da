/** Printing a channel with sendchanburst and feeding the lines to a receiver rebuilds the channel,
    wherever the lines are wrapped. */
module RoundTrips {
  import opened Options
  import opened IrcStrings
  import opened Decimal
  import opened Bans
  import opened BanLists
  import opened Burst
  import opened Wire
  import H = UserHash

  // ---------------------------------------------------------------- mode letters read back

  lemma {:induction false} PrintedFlagsSet(letters: string, flags: set<char>, base: set<char>)
    requires forall c | c in letters :: IsCMode(c)
    ensures SetFlags(base, PrintFlagsOf(letters, flags), true) == base + set c | c in letters && c in flags
    ensures '-' !in PrintFlagsOf(letters, flags)
    decreases |letters|
  {
    if letters != "" {
      var c, rest := letters[0], letters[1..];
      assert IsCMode(c);
      assert forall d :: d in letters <==> d == c || d in rest;
      var base' := if c in flags then base + {c} else base;
      PrintedFlagsSet(rest, flags, base');
      hide IsCMode;
      var p := PrintFlagsOf(letters, flags);
      if c in flags {
        assert p[1..] == PrintFlagsOf(rest, flags);
      } else {
        assert p == PrintFlagsOf(rest, flags);
      }
    }
  }

  function Count(s: string, c: char): nat {
    if s == "" then 0 else (if s[0] == c then 1 else 0) + Count(s[1..], c)
  }

  lemma {:induction false} PrintedFlagsClaim(letters: string, flags: set<char>)
    ensures ArgLetters(PrintFlagsOf(letters, flags))
         == (if 'l' in flags then Count(letters, 'l') else 0) + (if 'k' in flags then Count(letters, 'k') else 0)
    decreases |letters|
  {
    if letters != "" {
      PrintedFlagsClaim(letters[1..], flags);
      var p := PrintFlagsOf(letters, flags);
      if letters[0] in flags {
        assert p[1..] == PrintFlagsOf(letters[1..], flags);
      } else {
        assert p == PrintFlagsOf(letters[1..], flags);
      }
    }
  }

  lemma LetterAt(i: nat)
    requires i < 16
    ensures |CMODES| == 16 && IsCMode(CMODES[i])
    ensures (CMODES[i] == 'l' <==> i == 5) && (CMODES[i] == 'k' <==> i == 6)
  {
    var s := CMODES;
    assert s[0] == 'n' && s[1] == 't' && s[2] == 's' && s[3] == 'p' && s[4] == 'i' && s[5] == 'l' && s[6] == 'k'
        && s[7] == 'm' && s[8] == 'c' && s[9] == 'C' && s[10] == 'r' && s[11] == 'D' && s[12] == 'u' && s[13] == 'N'
        && s[14] == 'M' && s[15] == 'T';
  }

  lemma LetterIn(c: char)
    requires IsCMode(c)
    ensures c in CMODES
  {
    var s := CMODES;
    assert s[0] == 'n' && s[1] == 't' && s[2] == 's' && s[3] == 'p' && s[4] == 'i' && s[5] == 'l' && s[6] == 'k'
        && s[7] == 'm' && s[8] == 'c' && s[9] == 'C' && s[10] == 'r' && s[11] == 'D' && s[12] == 'u' && s[13] == 'N'
        && s[14] == 'M' && s[15] == 'T';
  }

  /** The table has exactly the known letters, and 'l' and 'k' once each. */
  lemma TableLetters()
    ensures forall c :: c in CMODES <==> IsCMode(c)
    ensures Count(CMODES, 'l') == 1 && Count(CMODES, 'k') == 1
  {
    hide IsCMode, Count;
    var s := CMODES;
    LetterAt(0);
    forall c
      ensures c in s <==> IsCMode(c)
    {
      if c in s {
        var i :| 0 <= i < |s| && s[i] == c;
        LetterAt(i);
      }
      if IsCMode(c) {
        LetterIn(c);
      }
    }
    CountTable(0);
    assert s[0..] == s;
  }

  lemma {:induction false} CountTable(i: nat)
    requires i <= 16
    ensures |CMODES| == 16
    ensures Count(CMODES[i..], 'l') == (if i <= 5 then 1 else 0) && Count(CMODES[i..], 'k') == (if i <= 6 then 1 else 0)
    decreases 16 - i
  {
    LetterAt(0);
    if i < 16 {
      CountTable(i + 1);
      LetterAt(i);
      assert CMODES[i..][1..] == CMODES[i + 1..] && CMODES[i..][0] == CMODES[i];
    }
  }

  /** The printed mode string says the flags. */
  lemma PrintedFlagsSay(flags: set<char>)
    requires forall f | f in flags :: IsCMode(f)
    ensures SaysModes(PrintFlags(flags), flags)
  {
    TableLetters();
    var p := PrintFlagsOf(CMODES, flags);
    PrintedFlagsSet(CMODES, flags, {});
    PrintedFlagsClaim(CMODES, flags);
    assert flags == {} + set c | c in CMODES && c in flags;
    assert PrintFlags(flags) == "+" + p;
    hide PrintFlagsOf, Count, IsCMode, PrintFlags;
    PlusSays(p, flags);
  }

  lemma PlusSays(p: string, flags: set<char>)
    requires '-' !in p && SetFlags({}, p, true) == flags
    requires ArgLetters(p) == (if 'l' in flags then 1 else 0) + (if 'k' in flags then 1 else 0)
    ensures SaysModes("+" + p, flags)
  {
    assert ("+" + p)[1..] == p;
  }

  // ---------------------------------------------------------------- layout: where lines are wrapped

  /** The lines finished so far, and the one being filled. */
  datatype Emission = Emission(done: seq<Chunk>, cur: Chunk)

  function AddUser(h: Head, e: Emission, w: H.Word): Emission
    requires HeadOk(h)
  {
    if BUFSIZE - |Text(h, e.cur)| < 10 then Emission(e.done + [e.cur], Chunk(false, [w], []))
    else e.(cur := e.cur.(users := e.cur.users + [w]))
  }

  function AddUsers(h: Head, e: Emission, us: seq<H.Word>): Emission
    requires HeadOk(h)
    decreases |us|
  {
    if us == [] then e else AddUsers(h, AddUser(h, e, us[0]), us[1..])
  }

  function AddBan(h: Head, e: Emission, b: string): Emission
    requires HeadOk(h)
  {
    if BUFSIZE - |Text(h, e.cur)| < |b| + 10 then Emission(e.done + [e.cur], Chunk(false, [], [b]))
    else e.(cur := e.cur.(bans := e.cur.bans + [b]))
  }

  function AddBans(h: Head, e: Emission, bs: seq<string>): Emission
    requires HeadOk(h)
    decreases |bs|
  {
    if bs == [] then e else AddBans(h, AddBan(h, e, bs[0]), bs[1..])
  }

  const START := Emission([], Chunk(true, [], []))

  function Chunks(e: Emission): seq<Chunk> {
    e.done + [e.cur]
  }

  /** The lines of a channel with the users `us`, in printing order, and the bans `bs`. */
  function Layout(h: Head, us: seq<H.Word>, bs: seq<string>): seq<Chunk>
    requires HeadOk(h)
  {
    Chunks(AddBans(h, AddUsers(h, START, us), bs))
  }

  function JoinUsers(ks: seq<Chunk>): seq<H.Word> {
    if ks == [] then [] else ks[0].users + JoinUsers(ks[1..])
  }

  function JoinBans(ks: seq<Chunk>): seq<string> {
    if ks == [] then [] else ks[0].bans + JoinBans(ks[1..])
  }

  lemma {:induction false} JoinAppend(ks: seq<Chunk>, k: Chunk)
    ensures JoinUsers(ks + [k]) == JoinUsers(ks) + k.users
    ensures JoinBans(ks + [k]) == JoinBans(ks) + k.bans
  {
    if ks == [] {
      assert ks + [k] == [k] && [k][1..] == [];
    } else {
      assert (ks + [k])[1..] == ks[1..] + [k];
      JoinAppend(ks[1..], k);
    }
  }

  /** A line that is too long for irc_send: its last user starts a mode group within the last ten bytes. */
  predicate Overlong(h: Head, k: Chunk)
    requires HeadOk(h)
  {
    && SENDLIMIT < |Text(h, k)| < BUFSIZE && k.bans == [] && |k.users| >= 2
    && |Text(h, k.(users := k.users[..|k.users| - 1]))| <= BUFSIZE - 10
  }

  predicate LineShape(h: Head, k: Chunk)
    requires HeadOk(h)
  {
    |Text(h, k)| <= SENDLIMIT || Overlong(h, k)
  }

  /** Only the first line carries the modes, and every line is sent whole or is overlong. */
  predicate WellLaid(h: Head, ks: seq<Chunk>)
    requires HeadOk(h)
  {
    && ks != [] && ks[0].first
    && (forall i | 1 <= i < |ks| :: !ks[i].first)
    && (forall k | k in ks :: LineShape(h, k))
  }

  lemma {:induction false} SpJoin(a: seq<string>, b: seq<string>)
    ensures Sp(a + b) == Sp(a) + Sp(b)
  {
    if a == [] {
      assert a + b == b;
    } else {
      assert (a + b)[1..] == a[1..] + b;
      SpJoin(a[1..], b);
    }
  }

  lemma {:induction false} FlagsLength(letters: string, flags: set<char>)
    ensures |PrintFlagsOf(letters, flags)| <= |letters|
  {
    if letters != "" {
      FlagsLength(letters[1..], flags);
    }
  }

  lemma TimestampLength(n: nat)
    requires n < 0x8000_0000_0000_0000
    ensures |Print(n)| <= 19
  {
    assert Pow10(5) == 100_000;
    assert Pow10(10) == 10_000_000_000;
    assert Pow10(15) == 1_000_000_000_000_000;
    assert Pow10(19) == 10_000_000_000_000_000_000;
    PrintLength(n, 19, 10_000_000_000_000_000_000);
  }

  lemma LimitLength(n: nat)
    requires n < 0x8000_0000
    ensures |Print(n)| <= 10
  {
    assert Pow10(5) == 100_000;
    assert Pow10(10) == 10_000_000_000;
    PrintLength(n, 10, 10_000_000_000);
  }

  /** The leading words leave more than half of the buffer. */
  lemma LeadLength(h: Head, first: bool)
    requires HeadOk(h)
    ensures |Sp(LeadWords(h, first))| <= 300
  {
    var c := h.c;
    TimestampLength(c.timestamp);
    FlagsLength(CMODES, c.flags);
    if 'l' in c.flags {
      LimitLength(c.limit);
    }
    SpJoin(HeadWords(h), if first then ModeWords(h) else []);
    SpFour(h.me, "B", h.name, Print(c.timestamp));
    if first {
      SpModes(PrintFlags(c.flags), if 'l' in c.flags then [Print(c.limit)] else [],
              if 'k' in c.flags then [c.key.value] else []);
    }
    assert Sp([]) == "";
    hide Print, PrintFlagsOf, Sp;
  }

  lemma SpFour(a: string, b: string, c: string, d: string)
    ensures |Sp([a, b, c, d])| == |a| + |b| + |c| + |d| + 4
  {
    assert [a, b, c, d][1..] == [b, c, d] && [b, c, d][1..] == [c, d] && [c, d][1..] == [d];
    SpOne(d);
    assert |Sp([c, d])| == |c| + 1 + |d| + 1;
    assert |Sp([b, c, d])| == |b| + 1 + |Sp([c, d])|;
  }

  lemma SpModes(flags: string, limit: seq<string>, key: seq<string>)
    requires |limit| <= 1 && |key| <= 1 && |flags| <= 17
    requires limit != [] ==> |limit[0]| <= 10
    requires key != [] ==> |key[0]| <= 23
    ensures |Sp([flags] + limit + key)| <= 60
  {
    SpJoin([flags] + limit, key);
    SpJoin([flags], limit);
    SpOne(flags);
    if limit != [] { assert limit == [limit[0]]; SpOne(limit[0]); }
    if key != [] { assert key == [key[0]]; SpOne(key[0]); }
    assert Sp([]) == "";
    hide Sp;
  }

  /** What sendchanburst appends for one more user of the channel. */
  function Piece(h: Head, k: Chunk, w: H.Word): (s: string)
    ensures |s| <= 9
  {
    (if !h.newline && k.first && k.users == [] then "," else "") + UserPiece(k.users, w)
  }

  lemma TextAddsUser(h: Head, k: Chunk, w: H.Word)
    requires HeadOk(h) && k.bans == []
    ensures Text(h, k.(users := k.users + [w])) == Text(h, k) + Piece(h, k, w)
  {
    UsersAppend(k.users, w);
    EmptyUsersText();
    hide UsersText, UserPiece, LeadWords, Sp, HeadOk;
  }

  lemma {:induction false} BanTextAppend(bs: seq<string>, b: string)
    ensures BanText(bs + [b]) == BanText(bs) + b + " "
  {
    if bs == [] {
      assert bs + [b] == [b] && [b][1..] == [];
      assert BanText([b][1..]) == "";
    } else {
      assert (bs + [b])[1..] == bs[1..] + [b];
      BanTextAppend(bs[1..], b);
    }
  }

  /** What sendchanburst appends for one more ban. */
  function BanPiece(k: Chunk, b: string): string {
    (if k.bans != [] then "" else if k.users == [] then ":%" else " :%") + b + " "
  }

  /** The ban argument of a line, with what separates it from the users. */
  function BansText(k: Chunk): string {
    if k.bans == [] then "" else (if k.users == [] then ":%" else " :%") + BanText(k.bans)
  }

  lemma BansTextMore(k: Chunk, b: string)
    ensures BansText(k.(bans := k.bans + [b])) == BansText(k) + BanPiece(k, b)
  {
    BanTextAppend(k.bans, b);
    assert BanText([]) == "";
    hide BanText;
    var front := if k.users == [] then ":%" else " :%";
    if k.bans == [] {
      assert front + ("" + b + " ") == "" + (front + b + " ");
    } else {
      assert front + (BanText(k.bans) + b + " ") == front + BanText(k.bans) + ("" + b + " ");
    }
  }

  lemma TextParts(h: Head, k: Chunk)
    requires HeadOk(h)
    ensures Text(h, k) == Sp(LeadWords(h, k.first)) + UsersArg(h, k) + BansText(k)
  {
    hide UsersArg, LeadWords, Sp, HeadOk, BanText;
  }

  lemma TextAddsBan(h: Head, k: Chunk, b: string)
    requires HeadOk(h)
    ensures Text(h, k.(bans := k.bans + [b])) == Text(h, k) + BanPiece(k, b)
  {
    hide *;
    var k' := k.(bans := k.bans + [b]);
    TextParts(h, k);
    TextParts(h, k');
    BansTextMore(k, b);
    SameUsersArg(h, k, k');
    var front := Sp(LeadWords(h, k.first)) + UsersArg(h, k);
    assert front + (BansText(k) + BanPiece(k, b)) == front + BansText(k) + BanPiece(k, b);
  }

  lemma SameUsersArg(h: Head, k: Chunk, k': Chunk)
    requires k'.users == k.users && k'.first == k.first
    ensures UsersArg(h, k') == UsersArg(h, k)
  {
    hide UsersText;
  }

  lemma FreshLine(h: Head)
    requires HeadOk(h)
    ensures |Text(h, Chunk(false, [], []))| <= 300 && |Text(h, Chunk(true, [], []))| <= 300
  {
    LeadLength(h, false);
    LeadLength(h, true);
    FreshUsersArg(h, false, []);
    FreshUsersArg(h, true, []);
    hide LeadWords, Sp, HeadOk, UsersArg;
  }

  /** The first line names a user. */
  predicate Started(e: Emission) {
    (if e.done == [] then e.cur else e.done[0]).users != []
  }

  lemma UserShape(h: Head, k: Chunk, w: H.Word)
    requires HeadOk(h) && k.bans == [] && |Text(h, k)| <= BUFSIZE - 10
    ensures LineShape(h, k.(users := k.users + [w]))
  {
    TextAddsUser(h, k, w);
    FreshLine(h);
    var k' := k.(users := k.users + [w]);
    assert k'.users[..|k'.users| - 1] == k.users;
    assert k'.(users := k.users) == k;
    if k.users == [] {
      assert k == Chunk(k.first, [], []);
    }
    hide Text, Piece, HeadOk;
  }

  lemma AddUserLaid(h: Head, e: Emission, w: H.Word)
    requires HeadOk(h) && WellLaid(h, Chunks(e)) && e.cur.bans == []
    requires Started(e) || e == START
    ensures var e' := AddUser(h, e, w);
            && WellLaid(h, Chunks(e')) && e'.cur.bans == [] && Started(e')
            && JoinUsers(Chunks(e')) == JoinUsers(Chunks(e)) + [w] && JoinBans(Chunks(e')) == JoinBans(Chunks(e))
  {
    hide Text, HeadOk, JoinUsers, JoinBans, UserPiece;
    FreshLine(h);
    if BUFSIZE - |Text(h, e.cur)| >= 10 {
      UserShape(h, e.cur, w);
    }
    UserShape(h, Chunk(false, [], []), w);
    assert [] + [w] == [w];
    JoinAppend(e.done, e.cur);
    JoinAppend(e.done, e.cur.(users := e.cur.users + [w]));
    JoinAppend(e.done + [e.cur], Chunk(false, [w], []));
    hide LineShape;
    assert e.cur in Chunks(e);
    var e' := AddUser(h, e, w);
    assert Chunks(e)[|e.done|] == e.cur;
    LaidStep(h, e, e');
    StartStays(e, e');
  }

  lemma StartStays(e: Emission, e': Emission)
    requires e'.done == e.done + [e.cur] || (e'.done == e.done && |e'.cur.users| >= |e.cur.users|)
    ensures Started(e) ==> Started(e')
  {
    if |e'.done| > |e.done| {
      assert e'.done[0] == if e.done == [] then e.cur else e.done[0];
    }
  }

  /** A step changes the current line or starts a new one behind it. */
  lemma LaidStep(h: Head, e: Emission, e': Emission)
    requires HeadOk(h) && WellLaid(h, Chunks(e)) && LineShape(h, e'.cur)
    requires (e'.done == e.done && e'.cur.first == e.cur.first) || (e'.done == e.done + [e.cur] && !e'.cur.first)
    ensures WellLaid(h, Chunks(e'))
  {
    hide LineShape, HeadOk;
    assert Chunks(e)[|e.done|] == e.cur;
    forall k | k in Chunks(e')
      ensures LineShape(h, k)
    {
      assert k == e'.cur || k in Chunks(e);
    }
    var ks, ks' := Chunks(e), Chunks(e');
    forall i | 0 <= i < |ks'|
      ensures ks'[i].first == (i == 0)
    {
      if i < |e.done| {
        assert ks'[i] == ks[i];
      }
    }
  }

  lemma {:induction false} AddUsersLaid(h: Head, e: Emission, us: seq<H.Word>)
    requires HeadOk(h) && WellLaid(h, Chunks(e)) && e.cur.bans == []
    requires Started(e) || e == START
    ensures var e' := AddUsers(h, e, us);
            && WellLaid(h, Chunks(e')) && e'.cur.bans == [] && (us != [] || Started(e) ==> Started(e'))
            && JoinUsers(Chunks(e')) == JoinUsers(Chunks(e)) + us && JoinBans(Chunks(e')) == JoinBans(Chunks(e))
    decreases |us|
  {
    hide HeadOk, JoinUsers, JoinBans, AddUser, WellLaid;
    if us != [] {
      AddUserLaid(h, e, us[0]);
      AddUsersLaid(h, AddUser(h, e, us[0]), us[1..]);
      assert us == [us[0]] + us[1..];
    }
  }

  const BANLEN := 92  // the longest text bantostring prints

  lemma AddBanLaid(h: Head, e: Emission, b: string)
    requires HeadOk(h) && WellLaid(h, Chunks(e)) && |b| <= BANLEN && Started(e)
    ensures var e' := AddBan(h, e, b);
            && WellLaid(h, Chunks(e')) && Started(e')
            && JoinUsers(Chunks(e')) == JoinUsers(Chunks(e)) && JoinBans(Chunks(e')) == JoinBans(Chunks(e)) + [b]
  {
    FreshLine(h);
    TextAddsBan(h, e.cur, b);
    TextAddsBan(h, Chunk(false, [], []), b);
    assert [] + [b] == [b];
    JoinAppend(e.done, e.cur);
    JoinAppend(e.done, e.cur.(bans := e.cur.bans + [b]));
    JoinAppend(e.done + [e.cur], Chunk(false, [], [b]));
    hide Text, HeadOk, JoinUsers, JoinBans, WellLaid;
    var e' := AddBan(h, e, b);
    assert LineShape(h, e'.cur);
    LaidStep(h, e, e');
    StartStays(e, e');
  }

  lemma {:induction false} AddBansLaid(h: Head, e: Emission, bs: seq<string>)
    requires HeadOk(h) && WellLaid(h, Chunks(e)) && Started(e) && forall b | b in bs :: |b| <= BANLEN
    ensures var e' := AddBans(h, e, bs);
            && WellLaid(h, Chunks(e')) && Started(e')
            && JoinUsers(Chunks(e')) == JoinUsers(Chunks(e)) && JoinBans(Chunks(e')) == JoinBans(Chunks(e)) + bs
    decreases |bs|
  {
    hide HeadOk, JoinUsers, JoinBans, AddBan, WellLaid;
    if bs != [] {
      AddBanLaid(h, e, bs[0]);
      AddBansLaid(h, AddBan(h, e, bs[0]), bs[1..]);
      assert bs == [bs[0]] + bs[1..];
    }
  }

  /** However the lines are wrapped, they carry the users and the bans in order, the first line carries the modes
      and a user, and no line overruns the buffer. */
  lemma LayoutSound(h: Head, us: seq<H.Word>, bs: seq<string>)
    requires HeadOk(h) && us != [] && forall b | b in bs :: |b| <= BANLEN
    ensures var ks := Layout(h, us, bs);
            && WellLaid(h, ks) && ks[0].users != []
            && JoinUsers(ks) == us && JoinBans(ks) == bs
  {
    FreshLine(h);
    assert WellLaid(h, Chunks(START)) by {
      hide Text, HeadOk;
      assert Chunks(START) == [START.cur];
    }
    assert JoinUsers(Chunks(START)) == [] && JoinBans(Chunks(START)) == [] by {
      JoinAppend([], START.cur);
    }
    hide HeadOk, WellLaid, AddUsers, AddBans, JoinUsers, JoinBans;
    AddUsersLaid(h, START, us);
    AddBansLaid(h, AddUsers(h, START, us), bs);
    assert [] + us == us && [] + bs == bs;
  }

  // ---------------------------------------------------------------- the receiver

  /** One line arrives: irc_send has cut it, splitline cuts it up, the handler gets all but the first two parameters. */
  function ReceiveLine(env: Env, st: Option<Chan>, line: string): (r: Option<Chan>)
    requires ChanOk(st)
  {
    var args := SplitLine(Cut(line, SENDLIMIT), 0);
    if |args| < 2 then st else HandleBurst(env, st, args[2..])
  }

  ghost function ReceiveAll(env: Env, st: Option<Chan>, lines: seq<string>): (r: Option<Chan>)
    requires ChanOk(st)
    decreases |lines|
  {
    if lines == [] then st
    else
      var next := ReceiveLine(env, st, lines[0]);
      // a "+k" without its key would leave a flag without a key, which the handler must not be given
      if ChanOk(next) then ReceiveAll(env, next, lines[1..]) else next
  }

  function Texts(h: Head, ks: seq<Chunk>): (r: seq<string>)
    requires HeadOk(h)
    ensures |r| == |ks|
  {
    if ks == [] then [] else [Text(h, ks[0])] + Texts(h, ks[1..])
  }

  /** A user argument `users` and a ban argument behind the leading parameters. */
  function ArgsFor(h: Head, first: bool, users: string, bans: seq<string>): seq<string>
    requires HeadOk(h)
  {
    [h.name, Print(h.c.timestamp)]
    + (if first then ModeWords(h) else [])
    + (if users == "" then [] else [users])
    + (if bans == [] then [] else ["%" + BanText(bans)])
  }

  /** The receiver reads the user argument as `us`. */
  predicate ReadsAs(users: string, us: seq<Listed>) {
    if users == "" then us == [] else IsWord(users) && IsUserArg(users) && UserList(users, 0) == us
  }

  predicate BanWord(s: string) {
    s != "" && ' ' !in s
  }

  /** A channel with more users and bans. */
  function WithAll(env: Env, c: Chan, us: seq<Listed>, bs: seq<string>): Chan {
    c.(users := AddNicks(env.known, c.users, us, false), bans := SetBans(env.lib, c.bans, bs))
  }

  /** One word with a blank behind it. */
  lemma WordThenMore(w: string, rest: string)
    requires BanWord(w)
    ensures BanWords(w + " " + rest) == [w] + BanWords(rest)
  {
    WordLengthExact(w, " " + rest);
    var s := w + " " + rest;
    assert s == w + (" " + rest);
    assert s[..|w|] == w && s[|w| + 1..] == rest;
    hide WordLength;
  }

  lemma {:induction false} BanWordsRead(bs: seq<string>)
    requires forall b | b in bs :: BanWord(b)
    ensures BanWords(BanText(bs)) == bs
  {
    hide BanWord, BanWords;
    if bs == [] {
      NoWords();
    } else {
      WordThenMore(bs[0], BanText(bs[1..]));
      BanWordsRead(bs[1..]);
      assert bs == [bs[0]] + bs[1..];
    }
  }

  lemma NoWords()
    ensures BanWords("") == []
  {
  }

  /** A continuation line, on the channel the first line has made. */
  lemma ReceiveNext(env: Env, c: Chan, h: Head, users: string, us: seq<Listed>, bs: seq<string>)
    requires HeadOk(h) && KeyStored(c) && c.timestamp == h.c.timestamp && c.users != map[]
    requires ReadsAs(users, us) && forall b | b in bs :: BanWord(b)
    ensures HandleBurst(env, Some(c), ArgsFor(h, false, users, bs)) == Some(WithAll(env, c, us, bs))
  {
    hide ApplyArgs, SetBans, BanWords, BanText, UserList, AddNicks, Print, StrToL, KeyStored, BanWord;
    var args := ArgsFor(h, false, users, bs);
    var bans := if bs == [] then [] else ["%" + BanText(bs)];
    assert args[2..] == (if users == "" then [] else [users]) + bans;
    NextTimestamp(h);
    NextArgs(env, c, users, us, bs);
    NicksStay(env.known, c.users, us, false);
    hide ReadsAs, HeadOk;
  }

  lemma NextTimestamp(h: Head)
    requires HeadOk(h)
    ensures StrToL(Print(h.c.timestamp)) == h.c.timestamp
  {
    hide Print, StrToL;
    StrToLPrinted(h.c.timestamp);
  }

  /** The arguments after the timestamp of a continuation line. */
  lemma NextArgs(env: Env, c: Chan, users: string, us: seq<Listed>, bs: seq<string>)
    requires KeyStored(c) && ReadsAs(users, us) && forall b | b in bs :: BanWord(b)
    ensures ApplyArgs(env, c, (if users == "" then [] else [users]) + (if bs == [] then [] else ["%" + BanText(bs)]), false)
         == WithAll(env, c, us, bs)
  {
    hide ApplyArgs, SetBans, BanWords, BanText, AddNicks, KeyStored, BanWord;
    BanWordsRead(bs);
    var bans := if bs == [] then [] else ["%" + BanText(bs)];
    var c1 := c.(users := AddNicks(env.known, c.users, us, false));
    assert KeyStored(c1) by { NickUpdateKeepsKey(c, c1); }
    if users == "" {
      NoNicks(env.known, c.users);
      assert c1 == c && [] + bans == bans;
    } else {
      ApplyUserArg(env, c, users, bans, false);
    }
    BansApply(env, c1, bs);
  }

  lemma NoNicks(known: set<nat>, users: map<nat, nat>)
    ensures AddNicks(known, users, [], false) == users
  {
  }

  lemma NickUpdateKeepsKey(c: Chan, d: Chan)
    requires KeyStored(c) && d == c.(users := d.users)
    ensures KeyStored(d)
  {
  }

  lemma BansApply(env: Env, c: Chan, bs: seq<string>)
    requires KeyStored(c) && BanWords(BanText(bs)) == bs
    ensures ApplyArgs(env, c, if bs == [] then [] else ["%" + BanText(bs)], false) == c.(bans := SetBans(env.lib, c.bans, bs))
  {
    if bs == [] {
      ApplyNone(env, c, false);
    } else {
      ApplyBanArg(env, c, BanText(bs), [], false);
      ApplyNone(env, c.(bans := SetBans(env.lib, c.bans, bs)), false);
      assert ["%" + BanText(bs)] + [] == ["%" + BanText(bs)];
    }
    hide ApplyArgs, BanWords, BanText;
  }

  lemma NicksStay(known: set<nat>, users: map<nat, nat>, us: seq<Listed>, wipeout: bool)
    ensures forall n | n in users :: n in AddNicks(known, users, us, wipeout)
                                     && AddNicks(known, users, us, wipeout)[n] == users[n]
    ensures users != map[] ==> AddNicks(known, users, us, wipeout) != map[]
  {
    AddNicksJoins(known, users, us, wipeout);
    hide AddNicks;
    if users != map[] {
      var n :| n in users;
      assert n in AddNicks(known, users, us, wipeout);
    }
  }

  /** What the first line says. */
  function SaidBy(h: Head, us: seq<Listed>, bs: seq<string>): Said
    requires HeadOk(h)
  {
    Said(h.c.timestamp, h.c.flags, h.c.limit, if h.c.key.Some? then h.c.key.value else "", Mentions(us), bs)
  }

  /** The first line makes the channel, with its modes. */
  lemma ReceiveFirst(env: Env, h: Head, users: string, us: seq<Listed>, bs: seq<string>)
    requires HeadOk(h) && users != "" && ReadsAs(users, us) && forall b | b in bs :: BanWord(b)
    requires exists u | u in us :: u.numeric in env.known
    ensures HandleBurst(env, None, ArgsFor(h, true, users, bs)) == Some(WithAll(env, h.c.(users := map[], bans := []), us, bs))
  {
    FirstIsBurst(h, users, us, bs);
    FirstMerged(env, h, us, bs);
    hide *;
    BurstMerges(env, None, ArgsFor(h, true, users, bs), SaidBy(h, us, bs));
  }

  lemma FirstMerged(env: Env, h: Head, us: seq<Listed>, bs: seq<string>)
    requires HeadOk(h) && exists u | u in us :: u.numeric in env.known
    ensures ChanOk(None)
    ensures Merge(env, None, SaidBy(h, us, bs)) == Some(WithAll(env, h.c.(users := map[], bans := []), us, bs))
  {
    AddNicksJoins(env.known, map[], us, false);
    SomeoneKnown(env.known, us);
    hide SetBans, AddNicks, Mentions, NewUsers, StrCmp, IsWord, CString;
    assert {} + h.c.flags == h.c.flags;
  }

  lemma {:induction false} MentionKeys(us: seq<Listed>)
    ensures Mentions(us).Keys == set u | u in us :: u.numeric
  {
    if us != [] {
      MentionKeys(us[1..]);
      assert forall u :: u in us <==> u == us[0] || u in us[1..];
    }
  }

  lemma SomeoneKnown(known: set<nat>, us: seq<Listed>)
    requires exists u | u in us :: u.numeric in known
    ensures AddNicks(known, map[], us, false) != map[]
  {
    var u :| u in us && u.numeric in known;
    MentionKeys(us);
    AddNicksJoins(known, map[], us, false);
    hide AddNicks, Mentions;
    assert u.numeric in Mentions(us).Keys;
    assert u.numeric in AddNicks(known, map[], us, false);
  }

  lemma FirstIsBurst(h: Head, users: string, us: seq<Listed>, bs: seq<string>)
    requires HeadOk(h) && users != "" && ReadsAs(users, us) && forall b | b in bs :: BanWord(b)
    ensures IsBurst(ArgsFor(h, true, users, bs), SaidBy(h, us, bs))
  {
    var b := SaidBy(h, us, bs);
    var ts, modes := Print(h.c.timestamp), PrintFlags(h.c.flags);
    var limit := if h.c.limit >= 0 then Print(h.c.limit) else "";
    PrintedFlagsSay(h.c.flags);
    StrToLPrinted(h.c.timestamp);
    StrToLPrinted(h.c.limit);
    FirstArgs(h, users, us, bs, limit);
    ListsOfLine(users, us, bs);
    hide PrintFlags, StrToL, SaysModes, IsWord, Print, ArgsFor, Says, ListsOf, ListedUsers, ListedBans, Mentions;
    assert BurstParts(ArgsFor(h, true, users, bs), b, ts, modes, limit, ListsOf(users, bs));
  }

  /** The list arguments of a line. */
  function ListsOf(users: string, bs: seq<string>): seq<string> {
    (if users == "" then [] else [users]) + (if bs == [] then [] else ["%" + BanText(bs)])
  }

  lemma ListsOfLine(users: string, us: seq<Listed>, bs: seq<string>)
    requires ReadsAs(users, us) && forall b | b in bs :: BanWord(b)
    ensures forall l | l in ListsOf(users, bs) :: IsListArg(l)
    ensures ListedUsers(ListsOf(users, bs)) == us && ListedBans(ListsOf(users, bs)) == bs
  {
    hide BanWords, BanText, UserList, IsWord, BanWord;
    BanWordsRead(bs);
    var tail := if bs == [] then [] else ["%" + BanText(bs)];
    assert bs != [] ==> tail[1..] == [] && tail[0][1..] == BanText(bs) && tail[0][0] == '%';
    assert ListedUsers([]) == [] && ListedBans([]) == [];
    assert ListedUsers(tail) == [] && ListedBans(tail) == bs;
    if users == "" {
      assert ListsOf(users, bs) == tail;
    } else {
      assert ListsOf(users, bs) == [users] + tail && ListsOf(users, bs)[1..] == tail;
    }
  }

  /** A continuation line is a line of a burst that says no modes. */
  lemma NextIsBurst(h: Head, users: string, us: seq<Listed>, bs: seq<string>)
    requires HeadOk(h) && ReadsAs(users, us) && forall b | b in bs :: BanWord(b)
    ensures IsBurst(ArgsFor(h, false, users, bs), Said(h.c.timestamp, {}, 0, "", Mentions(us), bs))
  {
    var b := Said(h.c.timestamp, {}, 0, "", Mentions(us), bs);
    NextTimestamp(h);
    ListsOfLine(users, us, bs);
    hide StrToL, IsWord, Print, ListedUsers, ListedBans, Mentions, BanText, HeadOk, ReadsAs, BanWord, IsListArg;
    NextArgsFor(h, users, bs);
    hide ArgsFor, ListsOf;
    assert BurstParts(ArgsFor(h, false, users, bs), b, Print(h.c.timestamp), "", "", ListsOf(users, bs));
  }

  lemma NextArgsFor(h: Head, users: string, bs: seq<string>)
    requires HeadOk(h)
    ensures var args := ArgsFor(h, false, users, bs);
            |args| >= 2 && args[1] == Print(h.c.timestamp) && args[2..] == ListsOf(users, bs)
  {
    hide Print, BanText, HeadOk;
  }

  lemma FirstArgs(h: Head, users: string, us: seq<Listed>, bs: seq<string>, limit: string)
    requires HeadOk(h) && users != ""
    requires h.c.limit >= 0 ==> limit == Print(h.c.limit)
    ensures var args, b := ArgsFor(h, true, users, bs), SaidBy(h, us, bs);
            && |args| >= 2 && args[1] == Print(h.c.timestamp)
            && args[2..] == [PrintFlags(h.c.flags)] + Says(limit, b.key, b) + ListsOf(users, bs)
  {
    hide BanText, PrintFlags, Mentions, IsWord, Print;
    var b := SaidBy(h, us, bs);
    assert ModeWords(h) == [PrintFlags(h.c.flags)] + Says(limit, b.key, b);
    hide ModeWords, Says, HeadOk;
  }

  // ---------------------------------------------------------------- whole lines and cut lines

  /** A line that arrives whole, or is overlong. */
  predicate Sendable(h: Head, k: Chunk)
    requires HeadOk(h)
  {
    && LineShape(h, k)
    && PlainFirst(k.users) && forall b | b in k.bans :: BanWord(b)
  }

  /** How the receiver reads the modes of the last user of an overlong line, `kept` bytes of which arrive. */
  function CutMode(us: seq<H.Word>, kept: int): nat {
    if kept <= 6 then LastMode(us, 0) else if kept == 7 then 0 else 2
  }

  /** What the receiver reads of the users of a line. */
  function Received(h: Head, k: Chunk): seq<Listed>
    requires HeadOk(h)
  {
    if |Text(h, k)| <= SENDLIMIT || k.users == [] then Listing(k.users)
    else
      var us, w := k.users[..|k.users| - 1], k.users[|k.users| - 1];
      Listing(us) + [Listed(H.Numeric(w), CutMode(us, SENDLIMIT - |Text(h, k.(users := us))|))]
  }

  /** The user argument that arrives. */
  function UsersArriving(h: Head, k: Chunk): string
    requires HeadOk(h) && (|Text(h, k)| <= SENDLIMIT || Overlong(h, k))
  {
    if |Text(h, k)| <= SENDLIMIT then UsersText(k.users)
    else
      var us, w := k.users[..|k.users| - 1], k.users[|k.users| - 1];
      var kept := SENDLIMIT - |Text(h, k.(users := us))|;
      UsersText(us) + if kept <= |UserPiece(us, w)| then UserPiece(us, w)[..kept] else UserPiece(us, w)
  }

  lemma WholeLine(h: Head, k: Chunk)
    requires HeadOk(h) && (h.newline || !k.first) && Sendable(h, k) && |Text(h, k)| <= SENDLIMIT
    ensures SplitLine(Cut(Text(h, k), SENDLIMIT), 0) == [h.me, "B"] + ArgsFor(h, k.first, UsersText(k.users), k.bans)
    ensures ReadsAs(UsersText(k.users), Listing(k.users))
  {
    LineSplits(h, k);
    UsersRead(k.users);
    EmptyUsersText();
    if k.users != [] {
      UsersAreWord(k.users);
    }
    assert UsersArg(h, k) == UsersText(k.users);
    hide Text, SplitLine, UsersText, UserList, HeadOk, BanText, IsWord, Print, UsersArg;
    assert ArgsOf(h, k) == ArgsFor(h, k.first, UsersText(k.users), k.bans);
  }

  /** The piece of an overlong line's last user has a mode suffix, and the cut goes through it. */
  lemma OverlongPiece(h: Head, k: Chunk)
    requires HeadOk(h) && Overlong(h, k)
    ensures var us, w := k.users[..|k.users| - 1], k.users[|k.users| - 1];
            var kept := SENDLIMIT - |Text(h, k.(users := us))|;
            && us != [] && k.users == us + [w]
            && Text(h, k) == Text(h, k.(users := us)) + UserPiece(us, w)
            && 6 <= kept < |UserPiece(us, w)|
            && H.Modes(w) != LastMode(us, 0) && H.Modes(w) != 0
            && UserPiece(us, w) == "," + UserText(w) + Suffix(H.Modes(w))
            && |Suffix(H.Modes(w))| + 6 == |UserPiece(us, w)|
  {
    var us, w := k.users[..|k.users| - 1], k.users[|k.users| - 1];
    assert k.users == us + [w];
    var k0 := k.(users := us);
    TextAddsUser(h, k0, w);
    assert k0.(users := k0.users + [w]) == k;
    assert Piece(h, k0, w) == UserPiece(us, w);
    hide Text, UserText, HeadOk, H.Modes;
  }

  lemma CutUserReads(w: H.Word, j: nat, m: nat)
    requires j < |Suffix(H.Modes(w))|
    ensures UserList(UserText(w) + Suffix(H.Modes(w))[..j], m)
         == [Listed(H.Numeric(w), if j == 0 then m else if j == 1 then 0 else 2)]
  {
    var t := Suffix(H.Modes(w))[..j];
    var g := UserText(w) + t;
    UserTextReads(w);
    assert g[..5] == UserText(w);
    hide UserText, NumericToLong, H.Numeric, H.Modes;
    if j == 0 {
      assert |g| == 5;
    } else if j == 1 {
      assert g[5] == ':' && g[6..] == "";
      assert UserList("", 0) == [];
    } else {
      assert t == ":o";
      assert g[5] == ':' && g[6..] == "o" && "o"[1..] == "";
      assert ScanModes("o", 0) == ModeScan(2, 1);
      assert g[7..] == "" && UserList("", 2) == [];
    }
  }

  lemma CutPieceReads(us: seq<H.Word>, w: H.Word, kept: nat)
    requires us != [] && PlainFirst(us) && H.Modes(w) != LastMode(us, 0)
    requires UserPiece(us, w) == "," + UserText(w) + Suffix(H.Modes(w))
    requires 6 <= kept < |UserPiece(us, w)| && |UserPiece(us, w)| == 6 + |Suffix(H.Modes(w))|
    ensures ReadsAs(UsersText(us) + UserPiece(us, w)[..kept], Listing(us) + [Listed(H.Numeric(w), CutMode(us, kept))])
  {
    hide UserText, H.Modes, H.Numeric, Suffix, UserPiece, GroupText, UserList;
    var j := kept - 6;
    var g := UserText(w) + Suffix(H.Modes(w))[..j];
    CutPiece(UserText(w), Suffix(H.Modes(w)), kept);
    GroupReadsThen(us, 0, g);
    UsersAsGroup(us);
    CutUserReads(w, j, LastMode(us, 0));
    UsersAreWord(us);
    CutIsWord(us, w, j);
    hide PlainFirst;
  }

  lemma CutPiece(text: string, suffix: string, kept: nat)
    requires |text| == 5 && 6 <= kept <= 6 + |suffix|
    ensures ("," + text + suffix)[..kept] == "," + (text + suffix[..kept - 6])
  {
  }

  lemma UsersAsGroup(us: seq<H.Word>)
    requires us != []
    ensures UsersText(us) == GroupText(us, 0)
  {
    assert Suffix(0) == "";
  }

  lemma CutIsWord(us: seq<H.Word>, w: H.Word, j: nat)
    requires j <= |Suffix(H.Modes(w))| && us != [] && IsWord(UsersText(us)) && IsUserArg(UsersText(us))
    ensures var s := UsersText(us) + ("," + (UserText(w) + Suffix(H.Modes(w))[..j])); IsWord(s) && IsUserArg(s)
  {
    hide UsersText, UserText, Suffix, H.Modes;
    assert forall c | c in UserText(w) :: c != ' ';
    assert forall c | c in Suffix(H.Modes(w))[..j] :: c in Suffix(H.Modes(w));
  }

  /** What arrives of an overlong line is read with the wrong modes for its last user. */
  lemma CutLine(h: Head, k: Chunk)
    requires HeadOk(h) && (h.newline || !k.first) && Sendable(h, k) && Overlong(h, k)
    ensures SplitLine(Cut(Text(h, k), SENDLIMIT), 0) == [h.me, "B"] + ArgsFor(h, k.first, UsersArriving(h, k), k.bans)
    ensures ReadsAs(UsersArriving(h, k), Received(h, k))
  {
    OverlongPiece(h, k);
    var us, w := k.users[..|k.users| - 1], k.users[|k.users| - 1];
    var k0 := k.(users := us);
    var kept := SENDLIMIT - |Text(h, k0)|;
    assert PlainFirst(us);
    CutPieceReads(us, w, kept);
    assert UsersArriving(h, k) == UsersText(us) + UserPiece(us, w)[..kept];
    assert Received(h, k) == Listing(us) + [Listed(H.Numeric(w), CutMode(us, kept))];
    LeadAreWords(h, k.first);
    hide UserPiece, UsersText, UserList, PlainFirst, UserText, H.Modes, H.Numeric, Suffix, Received, UsersArriving, SplitLine,
      IsWord, Sp;
    CutText(h, k, us, w, kept);
  }

  lemma CutText(h: Head, k: Chunk, us: seq<H.Word>, w: H.Word, kept: nat)
    requires HeadOk(h) && (h.newline || !k.first) && k.bans == []
    requires Text(h, k) == Text(h, k.(users := us)) + UserPiece(us, w)
    requires kept < |UserPiece(us, w)| && |Text(h, k.(users := us))| + kept == SENDLIMIT
    requires IsWord(UsersText(us) + UserPiece(us, w)[..kept])
    ensures SplitLine(Cut(Text(h, k), SENDLIMIT), 0)
         == [h.me, "B"] + ArgsFor(h, k.first, UsersText(us) + UserPiece(us, w)[..kept], [])
  {
    hide *;
    var lead := LeadWords(h, k.first);
    var arriving := UsersText(us) + UserPiece(us, w)[..kept];
    LeadAreWords(h, k.first);
    LeadCount(h, k.first);
    TextOfUsers(h, k.(users := us));
    CutConcat(Text(h, k.(users := us)), UserPiece(us, w), kept);
    assert Text(h, k.(users := us)) + UserPiece(us, w)[..kept] == Sp(lead) + arriving;
    SplitWithUsers(lead, arriving);
    NotEmpty(arriving);
    ArgsForUsers(h, k.first, arriving);
  }

  lemma NotEmpty(w: string)
    requires IsWord(w)
    ensures w != ""
  {
  }

  lemma LeadCount(h: Head, first: bool)
    requires HeadOk(h)
    ensures |LeadWords(h, first)| <= 7
  {
  }

  lemma TextOfUsers(h: Head, k: Chunk)
    requires HeadOk(h) && (h.newline || !k.first) && k.bans == []
    ensures Text(h, k) == Sp(LeadWords(h, k.first)) + UsersText(k.users)
  {
    assert UsersArg(h, k) == UsersText(k.users);
    hide Sp, LeadWords, UsersText, HeadOk;
  }

  lemma CutConcat(a: string, b: string, kept: nat)
    requires kept < |b| && |a| + kept == SENDLIMIT
    ensures Cut(a + b, SENDLIMIT) == a + b[..kept]
  {
  }

  lemma ArgsForUsers(h: Head, first: bool, u: string)
    requires HeadOk(h) && u != ""
    ensures LeadWords(h, first) + [u] == [h.me, "B"] + ArgsFor(h, first, u, [])
  {
    hide HeadOk, Print, ModeWords;
  }

  lemma LineReceived(env: Env, st: Option<Chan>, h: Head, k: Chunk)
    requires HeadOk(h) && (h.newline || !k.first) && Sendable(h, k) && ChanOk(st)
    ensures ReceiveLine(env, st, Text(h, k)) == HandleBurst(env, st, ArgsFor(h, k.first, UsersArriving(h, k), k.bans))
    ensures ReadsAs(UsersArriving(h, k), Received(h, k))
    ensures k.users != [] ==> UsersArriving(h, k) != ""
  {
    if |Text(h, k)| <= SENDLIMIT {
      WholeLine(h, k);
      assert UsersArriving(h, k) == UsersText(k.users) && Received(h, k) == Listing(k.users);
    } else {
      CutLine(h, k);
    }
    hide Text, HeadOk, SplitLine, HandleBurst, ArgsFor, UserList, PlainFirst, IsWord;
    var args := ArgsFor(h, k.first, UsersArriving(h, k), k.bans);
    assert ([h.me, "B"] + args)[2..] == args;
  }

  /** What the receiver reads of the users of all lines. */
  function ReceivedAll(h: Head, ks: seq<Chunk>): seq<Listed>
    requires HeadOk(h)
  {
    if ks == [] then [] else Received(h, ks[0]) + ReceivedAll(h, ks[1..])
  }

  lemma AddNothing(env: Env, c: Chan)
    ensures WithAll(env, c, [], []) == c
  {
  }

  lemma AddMore(env: Env, c: Chan, us: seq<Listed>, bs: seq<string>, us': seq<Listed>, bs': seq<string>)
    ensures WithAll(env, WithAll(env, c, us, bs), us', bs') == WithAll(env, c, us + us', bs + bs')
  {
    AddNicksJoin(env.known, c.users, us, us', false);
    SetBansJoin(env.lib, c.bans, bs, bs');
    hide AddNicks, SetBans;
  }

  /** The continuation lines add up, wherever they were wrapped. */
  lemma {:induction false} ReceiveRest(env: Env, c: Chan, h: Head, ks: seq<Chunk>)
    requires HeadOk(h) && KeyStored(c) && c.timestamp == h.c.timestamp && c.users != map[]
    requires forall k | k in ks :: !k.first && Sendable(h, k)
    ensures ReceiveAll(env, Some(c), Texts(h, ks)) == Some(WithAll(env, c, ReceivedAll(h, ks), JoinBans(ks)))
    decreases |ks|
  {
    hide HeadOk, AddNicks, SetBans, Text, ReceiveLine, HandleBurst, PlainFirst, ArgsFor, Received, UsersArriving, ReadsAs;
    if ks == [] {
      AddNothing(env, c);
    } else {
      var k := ks[0];
      assert Sendable(h, k);
      LineReceived(env, Some(c), h, k);
      ReceiveNext(env, c, h, UsersArriving(h, k), Received(h, k), k.bans);
      NicksStay(env.known, c.users, Received(h, k), false);
      assert Texts(h, ks)[1..] == Texts(h, ks[1..]);
      ReceiveRest(env, WithAll(env, c, Received(h, k), k.bans), h, ks[1..]);
      AddMore(env, c, Received(h, k), k.bans, ReceivedAll(h, ks[1..]), JoinBans(ks[1..]));
    }
  }

  /** All lines, on a receiver that does not have the channel. */
  lemma ReceiveLines(env: Env, h: Head, ks: seq<Chunk>)
    requires HeadOk(h) && h.newline && WellLaid(h, ks) && ks[0].users != []
    requires forall k | k in ks :: Sendable(h, k)
    requires exists u | u in Received(h, ks[0]) :: u.numeric in env.known
    ensures ReceiveAll(env, None, Texts(h, ks))
         == Some(WithAll(env, h.c.(users := map[], bans := []), ReceivedAll(h, ks), JoinBans(ks)))
  {
    hide AddNicks, SetBans, Text, ReceiveLine, HandleBurst, PlainFirst, ArgsFor, Received, UsersArriving, ReadsAs, Print, IsCMode,
      IsWord, CString;
    var k, rest := ks[0], ks[1..];
    var us := Received(h, k);
    assert Sendable(h, k);
    LineReceived(env, None, h, k);
    assert HeadOk(h) ==> ('k' in h.c.flags ==> h.c.key.Some?);
    hide HeadOk;
    ReceiveFirst(env, h, UsersArriving(h, k), us, k.bans);
    var c := WithAll(env, h.c.(users := map[], bans := []), us, k.bans);
    SomeoneKnown(env.known, us);
    assert Texts(h, ks)[1..] == Texts(h, rest);
    forall r | r in rest
      ensures !r.first && Sendable(h, r)
    {
      var i :| 0 <= i < |rest| && rest[i] == r;
      assert ks[i + 1] == r;
    }
    hide Sendable;
    ReceiveRest(env, c, h, rest);
    AddMore(env, h.c.(users := map[], bans := []), us, k.bans, ReceivedAll(h, rest), JoinBans(rest));
  }
}
