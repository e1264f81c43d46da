/** sendchanburst as its loops, and the round trip through a receiver that does not have the channel. */
module BurstSender {
  import opened Options
  import opened Decimal
  import opened Bans
  import opened BanLists
  import opened Burst
  import opened Wire
  import opened RoundTrips
  import H = UserHash

  // ---------------------------------------------------------------- the users in printing order

  /** One of the four passes over the table: the users with modes `m`. */
  function Pass(content: seq<H.Word>, nouser: H.Word, m: nat): seq<H.Word> {
    if content == [] then []
    else
      (if content[0] != nouser && H.Modes(content[0]) == m then [content[0]] else []) + Pass(content[1..], nouser, m)
  }

  /** The passes in the order of `modeorder`: none, op, voice, both. */
  function Grouped(content: seq<H.Word>, nouser: H.Word): seq<H.Word> {
    Pass(content, nouser, 0) + Pass(content, nouser, 2) + Pass(content, nouser, 1) + Pass(content, nouser, 3)
  }

  lemma {:induction false} PassWords(content: seq<H.Word>, nouser: H.Word, m: nat)
    ensures forall w :: w in Pass(content, nouser, m) <==> w in content && w != nouser && H.Modes(w) == m
  {
    hide H.Modes;
    if content != [] {
      PassWords(content[1..], nouser, m);
      assert forall w :: w in content <==> w == content[0] || w in content[1..];
    }
  }

  lemma GroupedWords(content: seq<H.Word>, nouser: H.Word)
    ensures forall w :: w in Grouped(content, nouser) <==> w in content && w != nouser
  {
    PassWords(content, nouser, 0);
    PassWords(content, nouser, 1);
    PassWords(content, nouser, 2);
    PassWords(content, nouser, 3);
    assert forall w :: H.Modes(w) == 0 || H.Modes(w) == 1 || H.Modes(w) == 2 || H.Modes(w) == 3;
    hide Pass, H.Modes;
  }

  /** No numeric twice among the used words. */
  predicate Distinct(ws: seq<H.Word>, nouser: H.Word) {
    forall i, j | 0 <= i < j < |ws| && ws[i] != nouser && ws[j] != nouser :: H.Numeric(ws[i]) != H.Numeric(ws[j])
  }

  predicate Apart(a: seq<H.Word>, b: seq<H.Word>) {
    forall v, w | v in a && w in b :: H.Numeric(v) != H.Numeric(w)
  }

  lemma {:induction false} PassDistinct(content: seq<H.Word>, nouser: H.Word, m: nat)
    requires Distinct(content, nouser)
    ensures Distinct(Pass(content, nouser, m), nouser)
  {
    hide H.Modes, H.Numeric;
    if content != [] {
      var rest := content[1..];
      assert forall i | 0 <= i < |rest| :: rest[i] == content[i + 1];
      PassDistinct(rest, nouser, m);
      PassWords(rest, nouser, m);
      var p := Pass(rest, nouser, m);
      forall i | 0 <= i < |p|
        ensures content[0] != nouser ==> H.Numeric(content[0]) != H.Numeric(p[i])
      {
        assert p[i] in rest && p[i] != nouser;
        var k :| 0 <= k < |rest| && rest[k] == p[i];
        assert content[k + 1] == p[i];
      }
    }
  }

  lemma PassesApart(content: seq<H.Word>, nouser: H.Word, m: nat, n: nat)
    requires Distinct(content, nouser) && m != n
    ensures Apart(Pass(content, nouser, m), Pass(content, nouser, n))
  {
    PassWords(content, nouser, m);
    PassWords(content, nouser, n);
    hide H.Modes, H.Numeric, Pass;
    forall v, w | v in Pass(content, nouser, m) && w in Pass(content, nouser, n)
      ensures H.Numeric(v) != H.Numeric(w)
    {
      assert v in content && w in content;
      var i :| 0 <= i < |content| && content[i] == v;
      var j :| 0 <= j < |content| && content[j] == w;
      assert H.Numeric(content[if i < j then i else j]) != H.Numeric(content[if i < j then j else i]);
    }
  }

  lemma DistinctJoin(a: seq<H.Word>, b: seq<H.Word>, nouser: H.Word)
    requires Distinct(a, nouser) && Distinct(b, nouser) && Apart(a, b)
    ensures Distinct(a + b, nouser)
  {
    hide H.Numeric;
  }

  lemma ApartJoin(a: seq<H.Word>, b: seq<H.Word>, c: seq<H.Word>)
    requires Apart(a, c) && Apart(b, c)
    ensures Apart(a + b, c)
  {
    hide H.Numeric;
  }

  lemma GroupedDistinct(content: seq<H.Word>, nouser: H.Word)
    requires Distinct(content, nouser)
    ensures Distinct(Grouped(content, nouser), nouser)
  {
    var p0, p2, p1, p3 := Pass(content, nouser, 0), Pass(content, nouser, 2), Pass(content, nouser, 1), Pass(content, nouser, 3);
    PassDistinct(content, nouser, 0);
    PassDistinct(content, nouser, 2);
    PassDistinct(content, nouser, 1);
    PassDistinct(content, nouser, 3);
    PassesApart(content, nouser, 0, 2);
    PassesApart(content, nouser, 0, 1);
    PassesApart(content, nouser, 0, 3);
    PassesApart(content, nouser, 2, 1);
    PassesApart(content, nouser, 2, 3);
    PassesApart(content, nouser, 1, 3);
    hide Pass, Distinct, Apart;
    DistinctJoin(p0, p2, nouser);
    ApartJoin(p0, p2, p1);
    DistinctJoin(p0 + p2, p1, nouser);
    ApartJoin(p0, p2, p3);
    ApartJoin(p0 + p2, p1, p3);
    DistinctJoin(p0 + p2 + p1, p3, nouser);
  }

  lemma GroupedPlainFirst(content: seq<H.Word>, nouser: H.Word)
    ensures PlainFirst(Grouped(content, nouser))
  {
    PassWords(content, nouser, 0);
    PassWords(content, nouser, 2);
    PassWords(content, nouser, 1);
    PassWords(content, nouser, 3);
    hide Pass, H.Modes;
    var p0 := Pass(content, nouser, 0);
    var us := Grouped(content, nouser);
    forall i | 0 <= i < |us|
      ensures H.Modes(us[i]) == 0 <==> i < |p0|
    {
      if i < |p0| {
        assert us[i] in p0;
      } else {
        assert us[i] in Pass(content, nouser, 2) || us[i] in Pass(content, nouser, 1) || us[i] in Pass(content, nouser, 3);
      }
    }
  }

  /** What the table stores, read as a list of users. */
  lemma StoredFacts(content: seq<H.Word>, nouser: H.Word, u: H.Users)
    requires H.Stores(content, nouser, u) && nouser < H.NUMERICS
    ensures Distinct(content, nouser)
    ensures forall w | w in content && w != nouser :: H.Numeric(w) in u.modes && u.modes[H.Numeric(w)] == H.Modes(w)
    ensures forall n | n in u.modes :: exists w | w in content && w != nouser :: H.Numeric(w) == n
  {
    hide H.OnPath;
    forall i, j | 0 <= i < j < |content| && content[i] != nouser && content[j] != nouser
      ensures H.Numeric(content[i]) != H.Numeric(content[j])
    {
      assert H.SlotUsed(content, u, i) && H.SlotUsed(content, u, j);
    }
    forall w | w in content && w != nouser
      ensures H.Numeric(w) in u.modes && u.modes[H.Numeric(w)] == H.Modes(w)
    {
      var i :| 0 <= i < |content| && content[i] == w;
      assert H.SlotUsed(content, u, i);
      assert H.MemberAt(content, nouser, u, H.Numeric(w));
    }
    forall n | n in u.modes
      ensures exists w | w in content && w != nouser :: H.Numeric(w) == n
    {
      assert H.MemberAt(content, nouser, u, n);
      assert H.Numeric(content[u.slot[n]]) == n;
    }
  }

  // ---------------------------------------------------------------- the bans

  function BanStrings(bans: seq<Ban>): (r: seq<string>)
    ensures |r| == |bans| && forall i | 0 <= i < |bans| :: r[i] == BanToString(bans[i])
  {
    seq(|bans|, i requires 0 <= i < |bans| => BanToString(bans[i]))
  }

  function Reverse(bans: seq<Ban>): (r: seq<Ban>)
    ensures |r| == |bans| && forall b :: b in r <==> b in bans
  {
    if bans == [] then [] else Reverse(bans[1..]) + [bans[0]]
  }

  /** The ban prints as itself. */
  predicate Reparses(lib: Lib, b: Ban) {
    BanOf(lib, BanToString(b)) == b
  }

  /** The printed bans are words a line has room for, and none encloses another. */
  predicate BansSendable(bans: seq<Ban>) {
    Antichain(bans) && forall b | b in bans :: ' ' !in BanToString(b) && |BanToString(b)| <= BANLEN
  }

  lemma {:induction false} KeepAll(bans: seq<Ban>, nb: Ban)
    requires forall b | b in bans :: !BanOverlap(nb, b)
    ensures Keep(bans, nb) == bans
  {
    hide BanOverlap;
    if bans != [] {
      KeepAll(bans[1..], nb);
    }
  }

  lemma ReverseAppend(bans: seq<Ban>, b: Ban)
    ensures Reverse(bans + [b]) == [b] + Reverse(bans)
  {
    if bans == [] {
      assert bans + [b] == [b] && [b][1..] == [];
    } else {
      assert (bans + [b])[1..] == bans[1..] + [b];
      ReverseAppend(bans[1..], b);
    }
  }

  /** Setting the printed bans one by one rebuilds the list, newest first. */
  lemma {:induction false} BansRebuild(lib: Lib, done: seq<Ban>, rest: seq<Ban>)
    requires Antichain(done + rest) && forall b | b in rest :: Reparses(lib, b)
    ensures SetBans(lib, Reverse(done), BanStrings(rest)) == Reverse(done + rest)
    decreases |rest|
  {
    hide BanOf, BanToString, SetBanIn, Antichain, Keep;
    if rest == [] {
      assert done + rest == done;
    } else {
      var b := rest[0];
      assert done + rest == done + [b] + rest[1..];
      FirstBanRebuilds(lib, done, rest);
      BansRebuild(lib, done + [b], rest[1..]);
    }
  }

  lemma FirstBanRebuilds(lib: Lib, done: seq<Ban>, rest: seq<Ban>)
    requires Antichain(done + rest) && rest != [] && Reparses(lib, rest[0])
    ensures SetBans(lib, Reverse(done), BanStrings(rest)) == SetBans(lib, Reverse(done + [rest[0]]), BanStrings(rest[1..]))
  {
    hide BanToString, BanOf, SetBanIn, Antichain;
    var b, all := rest[0], done + rest;
    assert all[|done|] == b && all[..|done|] == done && b in all;
    OneBanRebuilds(done, b, all);
    ReverseAppend(done, b);
    assert BanStrings(rest)[0] == BanToString(b) && BanStrings(rest)[1..] == BanStrings(rest[1..]);
    hide Reverse, BanStrings;
  }

  lemma OneBanRebuilds(done: seq<Ban>, b: Ban, all: seq<Ban>)
    requires Antichain(all) && |done| < |all| && all[..|done|] == done && all[|done|] == b
    ensures SetBanIn(Reverse(done), b) == [b] + Reverse(done)
  {
    hide BanOverlap;
    forall x | x in Reverse(done)
      ensures !BanOverlap(b, x) && !BanOverlap(x, b)
    {
      assert x in done;
      var i :| 0 <= i < |done| && done[i] == x;
      assert all[i] == x;
    }
    KeepAll(Reverse(done), b);
  }

  lemma {:induction false} KeepShorter(bans: seq<Ban>, nb: Ban)
    ensures |Keep(bans, nb)| <= |bans| && (|Keep(bans, nb)| == |bans| ==> Keep(bans, nb) == bans)
  {
    hide BanOverlap;
    if bans != [] {
      KeepShorter(bans[1..], nb);
    }
  }

  /** What the words parse to, newest first. */
  function Parsed(lib: Lib, words: seq<string>): (r: seq<Ban>)
    ensures |r| == |words|
  {
    if words == [] then [] else Parsed(lib, words[1..]) + [BanOf(lib, words[0])]
  }

  /** A list in which every word has become an entry. */
  lemma {:induction false} AllKept(lib: Lib, bans: seq<Ban>, words: seq<string>)
    ensures var r := SetBans(lib, bans, words);
            |r| <= |bans| + |words| && (|r| == |bans| + |words| ==> r == Parsed(lib, words) + bans)
    decreases |words|
  {
    hide BanOf, Keep, BanOverlap;
    if words != [] {
      var nb := BanOf(lib, words[0]);
      KeepShorter(bans, nb);
      AllKept(lib, SetBanIn(bans, nb), words[1..]);
    }
  }

  lemma {:induction false} ParsedSame(lib: Lib, bans: seq<Ban>)
    requires Parsed(lib, BanStrings(bans)) == Reverse(bans)
    ensures forall b | b in bans :: Reparses(lib, b)
    decreases |bans|
  {
    hide BanOf, BanToString;
    if bans != [] {
      var words := BanStrings(bans);
      assert words[1..] == BanStrings(bans[1..]);
      var p, r := Parsed(lib, words[1..]), Reverse(bans[1..]);
      assert (p + [BanOf(lib, words[0])])[|p|] == (r + [bans[0]])[|r|];
      assert p == (p + [BanOf(lib, words[0])])[..|p|] == (r + [bans[0]])[..|r|] == r;
      ParsedSame(lib, bans[1..]);
    }
  }

  /** Setting the printed bans rebuilds the list, newest first, exactly when every ban prints as itself. */
  lemma RebuiltExactly(lib: Lib, bans: seq<Ban>)
    requires Antichain(bans)
    ensures SetBans(lib, [], BanStrings(bans)) == Reverse(bans) <==> forall b | b in bans :: Reparses(lib, b)
  {
    hide Antichain, Reparses, SetBans, BanStrings, Parsed;
    assert [] + bans == bans && Reverse([]) == [];
    if forall b | b in bans :: Reparses(lib, b) {
      BansRebuild(lib, [], bans);
    }
    if SetBans(lib, [], BanStrings(bans)) == Reverse(bans) {
      AllKept(lib, [], BanStrings(bans));
      assert Parsed(lib, BanStrings(bans)) + [] == Parsed(lib, BanStrings(bans));
      ParsedSame(lib, bans);
    }
  }

  /** A ban of the list was made from one of the masks, and prints as itself exactly when the mask says so. */
  ghost predicate FromMask(lib: Lib, masks: seq<string>, b: Ban) {
    exists m | m in masks :: b == BanOf(lib, m) && (Reparses(lib, b) <==> ComesBack(lib, m))
  }

  lemma MaskSendable(lib: Lib, mask: string)
    requires ' ' !in mask
    ensures var b := BanOf(lib, mask);
            && ' ' !in BanToString(b) && |BanToString(b)| <= BANLEN && (Reparses(lib, b) <==> ComesBack(lib, mask))
  {
    hide BanOf, BanEqual, ComesBack, BanToString;
    RoundTrip(lib, mask);
    EqualReflexive(BanOf(lib, mask));
    PrintedFits(lib, mask);
    PrintedNoBlank(lib, mask);
  }

  lemma PrintedNoBlank(lib: Lib, mask: string)
    requires ' ' !in mask
    ensures ' ' !in BanToString(BanOf(lib, mask))
  {
    hide BanOf, LastAt;
    if LastAt(mask) >= 0 {
      hide BanToString;
      RoundTripWithAt(lib, mask);
    } else if mask == "*" {
      StarBan(lib, mask);
    } else {
      NickOnlyParsed(lib, mask);
    }
  }

  /** What setban makes of blank-free masks can be sent. */
  lemma SetMasksSendable(lib: Lib, masks: seq<string>)
    requires forall m | m in masks :: ' ' !in m
    ensures var bans := SetBans(lib, [], masks); BansSendable(bans) && forall b | b in bans :: FromMask(lib, masks, b)
  {
    hide BanOf, BanToString, SetBans, Reparses, ComesBack;
    SetMasksFrom(lib, masks, [], masks);
    var bans := SetBans(lib, [], masks);
    forall b | b in bans
      ensures FromMask(lib, masks, b) && ' ' !in BanToString(b) && |BanToString(b)| <= BANLEN
    {
      var m :| m in masks && b == BanOf(lib, m);
      MaskSendable(lib, m);
    }
  }

  lemma {:induction false} SetMasksFrom(lib: Lib, all: seq<string>, bans: seq<Ban>, rest: seq<string>)
    requires Antichain(bans) && FromMasks(lib, bans, all) && forall m | m in rest :: m in all
    ensures Antichain(SetBans(lib, bans, rest)) && FromMasks(lib, SetBans(lib, bans, rest), all)
    decreases |rest|
  {
    hide BanOf, Antichain, BanOverlap;
    if rest != [] {
      SetBanAntichain(bans, BanOf(lib, rest[0]));
      SetMasksFrom(lib, all, SetBanIn(bans, BanOf(lib, rest[0])), rest[1..]);
    }
  }

  // ---------------------------------------------------------------- the loops

  lemma {:induction false} AddUsersMore(h: Head, e: Emission, us: seq<H.Word>, w: H.Word)
    requires HeadOk(h)
    ensures AddUsers(h, e, us + [w]) == AddUser(h, AddUsers(h, e, us), w)
    decreases |us|
  {
    hide HeadOk, AddUser;
    if us == [] {
      assert us + [w] == [w] && [w][1..] == [];
    } else {
      assert (us + [w])[1..] == us[1..] + [w];
      AddUsersMore(h, AddUser(h, e, us[0]), us[1..], w);
    }
  }

  lemma {:induction false} AddBansMore(h: Head, e: Emission, bs: seq<string>, b: string)
    requires HeadOk(h)
    ensures AddBans(h, e, bs + [b]) == AddBan(h, AddBans(h, e, bs), b)
    decreases |bs|
  {
    hide HeadOk, AddBan;
    if bs == [] {
      assert bs + [b] == [b] && [b][1..] == [];
    } else {
      assert (bs + [b])[1..] == bs[1..] + [b];
      AddBansMore(h, AddBan(h, e, bs[0]), bs[1..], b);
    }
  }

  lemma {:induction false} TextsMore(h: Head, ks: seq<Chunk>, k: Chunk)
    requires HeadOk(h)
    ensures Texts(h, ks + [k]) == Texts(h, ks) + [Text(h, k)]
  {
    hide HeadOk, Text;
    if ks == [] {
      assert ks + [k] == [k] && [k][1..] == [];
    } else {
      assert (ks + [k])[1..] == ks[1..] + [k];
      TextsMore(h, ks[1..], k);
    }
  }

  /** The buffer and the finished lines hold the emission `e`. */
  ghost predicate Holds(h: Head, e: Emission, lines: seq<string>, buf: string)
    requires HeadOk(h)
  {
    lines == Texts(h, e.done) && buf == Text(h, e.cur)
  }

  /** No comma comes in front of the next user: it is the first of its line, and if the line is the first, the flag was
      not left clear. */
  predicate AtLineStart(h: Head, e: Emission) {
    e.cur.users == [] && (h.newline || !e.cur.first)
  }

  /** The two flags say how the next user is to be printed: `newline` in front of the first user of a line, `newmode`
      in front of a user that starts a mode group. */
  ghost predicate FlagsSay(h: Head, e: Emission, curmode: nat, newmode: bool, newline: bool) {
    && e.cur.bans == []
    && newline == AtLineStart(h, e)
    && (newmode <==> e.cur.users == [] || LastMode(e.cur.users, 0) != curmode)
  }

  lemma FreshText(h: Head, first: bool)
    requires HeadOk(h)
    ensures Text(h, Chunk(first, [], [])) == Sp(LeadWords(h, first))
  {
    FreshUsersArg(h, first, []);
    hide Sp, LeadWords, UsersArg, HeadOk;
  }

  /** Printing one user. */
  method PutUser(h: Head, ghost e: Emission, lines: seq<string>, buf: string, w: H.Word, curmode: nat,
                 newmode: bool, newline: bool)
    returns (ghost e': Emission, lines': seq<string>, buf': string)
    requires HeadOk(h) && Holds(h, e, lines, buf) && FlagsSay(h, e, curmode, newmode, newline) && H.Modes(w) == curmode
    ensures e' == AddUser(h, e, w)
    ensures Holds(h, e', lines', buf') && FlagsSay(h, e', curmode, false, false)
  {
    hide Text, Texts, Sp, UserText, H.Modes, AddUser, HeadWords, LeadWords, Suffix, LastMode, IsWord, IsCMode;
    e' := AddUser(h, e, w);
    lines', buf' := lines, buf;
    var nm, nl := newmode, newline;
    ghost var k := e.cur;
    if BUFSIZE - |buf| < 10 {
      nm, nl := true, true;
      lines' := lines' + [buf];
      buf' := Sp(HeadWords(h));
      TextsMore(h, e.done, e.cur);
      FreshText(h, false);
      LeadIsHead(h);
      k := Chunk(false, [], []);
    }
    TextAddsUser(h, k, w);
    LastOfAppend(k.users, w);
    if nm {
      assert Piece(h, k, w) == (if nl then "" else ",") + UserText(w) + Suffix(curmode);
      buf' := buf' + ((if nl then "" else ",") + UserText(w) + Suffix(curmode));
    } else {
      assert Piece(h, k, w) == "," + UserText(w);
      buf' := buf' + ("," + UserText(w));
    }
    EmissionAfter(h, e, w, k);
  }

  lemma LeadIsHead(h: Head)
    requires HeadOk(h)
    ensures LeadWords(h, false) == HeadWords(h)
  {
  }

  lemma LastOfAppend(us: seq<H.Word>, w: H.Word)
    ensures LastMode(us + [w], 0) == H.Modes(w)
  {
  }

  lemma EmissionAfter(h: Head, e: Emission, w: H.Word, k: Chunk)
    requires HeadOk(h)
    requires k == if BUFSIZE - |Text(h, e.cur)| < 10 then Chunk(false, [], []) else e.cur
    ensures AddUser(h, e, w).cur == k.(users := k.users + [w])
    ensures AddUser(h, e, w).done == if BUFSIZE - |Text(h, e.cur)| < 10 then e.done + [e.cur] else e.done
  {
    assert [] + [w] == [w];
  }

  /** `modeorder`. */
  function ModeAt(j: nat): nat
    requires j < 4
  {
    if j == 0 then 0 else if j == 1 then 2 else if j == 2 then 1 else 3
  }

  function PassesUpTo(content: seq<H.Word>, nouser: H.Word, j: nat): seq<H.Word>
    requires j <= 4
  {
    if j == 0 then [] else PassesUpTo(content, nouser, j - 1) + Pass(content, nouser, ModeAt(j - 1))
  }

  lemma AllPasses(content: seq<H.Word>, nouser: H.Word)
    ensures PassesUpTo(content, nouser, 4) == Grouped(content, nouser)
  {
    hide Pass;
    var p0 := Pass(content, nouser, 0);
    assert PassesUpTo(content, nouser, 1) == [] + p0 == p0;
    assert PassesUpTo(content, nouser, 2) == p0 + Pass(content, nouser, 2);
    assert PassesUpTo(content, nouser, 3) == p0 + Pass(content, nouser, 2) + Pass(content, nouser, 1);
  }

  lemma {:induction false} PassMore(ws: seq<H.Word>, w: H.Word, nouser: H.Word, m: nat)
    ensures Pass(ws + [w], nouser, m) == Pass(ws, nouser, m) + if w != nouser && H.Modes(w) == m then [w] else []
  {
    hide H.Modes;
    if ws == [] {
      assert ws + [w] == [w] && [w][1..] == [];
    } else {
      assert (ws + [w])[1..] == ws[1..] + [w];
      PassMore(ws[1..], w, nouser, m);
    }
  }

  /** The group that was printed last will not come again. */
  ghost predicate GroupsLeft(e: Emission, j: nat) {
    e.cur.users == [] || forall i | j <= i < 4 :: LastMode(e.cur.users, 0) != ModeAt(i)
  }

  /** One pass over the table. */
  method PutGroup(h: Head, content: seq<H.Word>, nouser: H.Word, j: nat, ghost us: seq<H.Word>, ghost e: Emission,
                  lines: seq<string>, buf: string, newline: bool)
    returns (ghost us': seq<H.Word>, ghost e': Emission, lines': seq<string>, buf': string, newline': bool)
    requires HeadOk(h) && j < 4 && e == AddUsers(h, START, us) && Holds(h, e, lines, buf)
    requires e.cur.bans == [] && newline == AtLineStart(h, e) && GroupsLeft(e, j)
    ensures us' == us + Pass(content, nouser, ModeAt(j))
    ensures e' == AddUsers(h, START, us') && Holds(h, e', lines', buf')
    ensures e'.cur.bans == [] && newline' == AtLineStart(h, e') && GroupsLeft(e', j + 1)
  {
    hide HeadOk, AddUsers, Holds, LastMode, H.Modes, Pass;
    var curmode := ModeAt(j);
    var newmode := true;
    us', e', lines', buf', newline' := us, e, lines, buf, newline;
    var k := 0;
    assert content[..0] == [] && Pass([], nouser, curmode) == [] by { PassNone(nouser, curmode); }
    while k < |content|
      invariant 0 <= k <= |content|
      invariant us' == us + Pass(content[..k], nouser, curmode)
      invariant e' == AddUsers(h, START, us') && Holds(h, e', lines', buf')
      invariant FlagsSay(h, e', curmode, newmode, newline')
      invariant newmode ==> GroupsLeft(e', j)
    {
      assert content[..k + 1] == content[..k] + [content[k]];
      PassMore(content[..k], content[k], nouser, curmode);
      if content[k] != nouser && H.Modes(content[k]) == curmode {
        AddUsersMore(h, START, us', content[k]);
        us' := us' + [content[k]];
        e', lines', buf' := PutUser(h, e', lines', buf', content[k], curmode, newmode, newline');
        newmode, newline' := false, false;
      }
      k := k + 1;
    }
    assert content[..k] == content;
  }

  lemma PassNone(nouser: H.Word, m: nat)
    ensures Pass([], nouser, m) == []
  {
  }

  /** The header of a continuation line for bans, without a blank behind it. */
  function BanHeader(h: Head): string
    requires HeadOk(h)
  {
    h.me + " B " + h.name + " " + Print(h.c.timestamp)
  }

  lemma BanHeaderText(h: Head, b: string)
    requires HeadOk(h)
    ensures BanHeader(h) + " :%" + b + " " == Text(h, Chunk(false, [], [b]))
  {
    FreshUsersArg(h, false, [b]);
    LeadIsHead(h);
    var ts := Print(h.c.timestamp);
    BanTextOne(b);
    HeadText(h.me, h.name, ts);
    hide Print, Sp, UsersArg, BanText, HeadOk;
  }

  lemma BanTextOne(b: string)
    ensures BanText([b]) == b + " "
  {
    assert [b][1..] == [];
    assert BanText([b][1..]) == "";
  }

  lemma HeadText(me: string, name: string, ts: string)
    ensures Sp([me, "B", name, ts]) == me + " B " + name + " " + ts + " "
  {
    assert [me, "B", name, ts][1..] == ["B", name, ts] && ["B", name, ts][1..] == [name, ts] && [name, ts][1..] == [ts];
    SpOne(ts);
    assert Sp([name, ts]) == name + " " + (ts + " ");
    assert Sp(["B", name, ts]) == "B" + " " + (name + " " + (ts + " "));
  }

  /** Printing one ban. */
  method PutBan(h: Head, ghost e: Emission, lines: seq<string>, buf: string, b: string, newline: bool)
    returns (ghost e': Emission, lines': seq<string>, buf': string)
    requires HeadOk(h) && Holds(h, e, lines, buf) && newline == (e.cur.bans == [])
    requires e.cur.users != [] || e.cur.bans != []
    ensures e' == AddBan(h, e, b) && Holds(h, e', lines', buf') && e'.cur.bans != []
  {
    e' := AddBan(h, e, b);
    lines', buf' := lines, buf;
    var nl := newline;
    TextAddsBan(h, e.cur, b);
    BanHeaderText(h, b);
    TextsMore(h, e.done, e.cur);
    hide Text, Texts, HeadOk, BanHeader;
    if BUFSIZE - |buf| < |b| + 10 {
      nl := true;
      lines' := lines' + [buf];
      buf' := BanHeader(h);
      buf' := buf' + " :%" + b + " ";
    } else {
      assert (if nl then " :%" else "") + b + " " == BanPiece(e.cur, b);
      buf' := buf' + ((if nl then " :%" else "") + b + " ");
    }
  }

  lemma {:induction false} AddUsersNonempty(h: Head, e: Emission, us: seq<H.Word>)
    requires HeadOk(h) && (us != [] || e.cur.users != [])
    ensures AddUsers(h, e, us).cur.users != []
    decreases |us|
  {
    hide HeadOk, Text;
    if us != [] {
      AddUsersNonempty(h, AddUser(h, e, us[0]), us[1..]);
    }
  }

  /** sendchanburst for one channel: the four passes over the user table, then the bans. The flag `newline` is set once,
      before all channels: behind a ban it stays clear for the next channel. */
  method SendChanBurst(h: Head, content: seq<H.Word>, nouser: H.Word, bans: seq<Ban>)
    returns (lines: seq<string>, newline: bool)
    requires HeadOk(h) && Grouped(content, nouser) != []
    ensures lines == Texts(h, Layout(h, Grouped(content, nouser), BanStrings(bans)))
    ensures newline <==> bans == []
  {
    hide HeadOk, AddUsers, AddBans, AddBan, Pass, Text, Texts, LastMode, BanToString, Grouped, PassesUpTo;
    lines := [];
    var buf := Sp(LeadWords(h, true));
    newline := h.newline;
    ghost var us: seq<H.Word>, e := [], START;
    FreshText(h, true);
    StartHolds(h);
    PassesNone(content, nouser);
    var j := 0;
    while j < 4
      invariant 0 <= j <= 4
      invariant us == PassesUpTo(content, nouser, j)
      invariant e == AddUsers(h, START, us) && Holds(h, e, lines, buf)
      invariant e.cur.bans == [] && newline == AtLineStart(h, e) && GroupsLeft(e, j)
    {
      PassesNext(content, nouser, j);
      us, e, lines, buf, newline := PutGroup(h, content, nouser, j, us, e, lines, buf, newline);
      j := j + 1;
    }
    AllPasses(content, nouser);
    AddUsersNonempty(h, START, us);
    newline := true;
    ghost var e0 := e;
    ghost var bs := BanStrings(bans);
    AddBansNone(h, e0);
    var i := 0;
    while i < |bans|
      invariant 0 <= i <= |bans|
      invariant e == AddBans(h, e0, bs[..i]) && Holds(h, e, lines, buf)
      invariant newline == (e.cur.bans == []) == (i == 0) && (e.cur.users != [] || e.cur.bans != [])
    {
      assert bs[..i + 1] == bs[..i] + [bs[i]];
      AddBansMore(h, e0, bs[..i], bs[i]);
      e, lines, buf := PutBan(h, e, lines, buf, BanToString(bans[i]), newline);
      newline := false;
      i := i + 1;
    }
    assert bs[..i] == bs;
    TextsMore(h, e.done, e.cur);
    lines := lines + [buf];
  }

  lemma StartHolds(h: Head)
    requires HeadOk(h)
    ensures Texts(h, []) == [] && AddUsers(h, START, []) == START
  {
  }

  lemma AddBansNone(h: Head, e: Emission)
    requires HeadOk(h)
    ensures forall bs: seq<string> :: AddBans(h, e, bs[..0]) == e
  {
  }

  lemma PassesNone(content: seq<H.Word>, nouser: H.Word)
    ensures PassesUpTo(content, nouser, 0) == []
  {
  }

  lemma PassesNext(content: seq<H.Word>, nouser: H.Word, j: nat)
    requires j < 4
    ensures PassesUpTo(content, nouser, j + 1) == PassesUpTo(content, nouser, j) + Pass(content, nouser, ModeAt(j))
  {
  }

  // ---------------------------------------------------------------- the round trip

  /** The channel `h.c` as it stands in the table `content`, ready to be sent to a receiver that knows its users. */
  ghost predicate Sendworthy(env: Env, h: Head, content: seq<H.Word>, nouser: H.Word, u: H.Users) {
    && HeadOk(h) && h.newline && nouser < H.NUMERICS
    && H.Stores(content, nouser, u) && u.modes == h.c.users && u.modes != map[] && u.modes.Keys <= env.known
    && BansSendable(h.c.bans)
  }

  function LinesOf(h: Head, content: seq<H.Word>, nouser: H.Word): seq<Chunk>
    requires HeadOk(h)
  {
    Layout(h, Grouped(content, nouser), BanStrings(h.c.bans))
  }

  lemma {:induction false} PartsPlain(ks: seq<Chunk>)
    requires PlainFirst(JoinUsers(ks)) && forall b | b in JoinBans(ks) :: BanWord(b)
    ensures forall k | k in ks :: PlainFirst(k.users) && forall b | b in k.bans :: BanWord(b)
  {
    hide H.Modes, BanWord;
    if ks != [] {
      var a, r := ks[0].users, JoinUsers(ks[1..]);
      assert JoinUsers(ks) == a + r;
      assert forall i | 0 <= i < |a| :: a[i] == (a + r)[i];
      assert forall i | 0 <= i < |r| :: r[i] == (a + r)[|a| + i];
      PartsPlain(ks[1..]);
    }
  }

  lemma BanStringsAreWords(bans: seq<Ban>)
    requires BansSendable(bans)
    ensures forall s | s in BanStrings(bans) :: BanWord(s) && |s| <= BANLEN
  {
    forall s | s in BanStrings(bans)
      ensures BanWord(s) && |s| <= BANLEN
    {
      var i :| 0 <= i < |bans| && BanStrings(bans)[i] == s;
      assert bans[i] in bans;
      assert s != "" by { PrintedNotEmpty(bans[i]); }
    }
  }

  lemma PrintedNotEmpty(b: Ban)
    ensures BanToString(b) != ""
  {
    assert |BanToString(b)| >= 2;
  }

  lemma GroupedNotEmpty(content: seq<H.Word>, nouser: H.Word, u: H.Users)
    requires H.Stores(content, nouser, u) && nouser < H.NUMERICS && u.modes != map[]
    ensures Grouped(content, nouser) != []
  {
    hide H.Stores, Grouped, H.Modes, H.Numeric;
    StoredFacts(content, nouser, u);
    GroupedWords(content, nouser);
    var n :| n in u.modes;
    var w :| w in content && w != nouser && H.Numeric(w) == n;
    assert w in Grouped(content, nouser);
  }

  /** Every user is read in its place; the modes are right exactly in lines that arrive whole. */
  lemma {:induction false} ReceivedInPlace(h: Head, ks: seq<Chunk>)
    requires HeadOk(h) && forall k | k in ks :: LineShape(h, k)
    ensures var us, r := JoinUsers(ks), ReceivedAll(h, ks);
            && |r| == |us| && (forall i | 0 <= i < |us| :: r[i].numeric == H.Numeric(us[i]))
            && ((forall i | 0 <= i < |us| :: r[i].mode == H.Modes(us[i])) <==> forall k | k in ks :: |Text(h, k)| <= SENDLIMIT)
  {
    hide HeadOk, Text, Received, LineShape, H.Numeric, H.Modes;
    if ks != [] {
      var k, rest := ks[0], ks[1..];
      ReceivedLine(h, k);
      ReceivedInPlace(h, rest);
      PlacesJoin(k.users, Received(h, k), JoinUsers(rest), ReceivedAll(h, rest));
      assert forall x :: x in ks <==> x == k || x in rest;
    }
  }

  lemma PlacesJoin(a: seq<H.Word>, ra: seq<Listed>, b: seq<H.Word>, rb: seq<Listed>)
    requires |ra| == |a| && |rb| == |b|
    requires forall i | 0 <= i < |a| :: ra[i].numeric == H.Numeric(a[i])
    requires forall i | 0 <= i < |b| :: rb[i].numeric == H.Numeric(b[i])
    ensures var us, r := a + b, ra + rb;
            && |r| == |us| && (forall i | 0 <= i < |us| :: r[i].numeric == H.Numeric(us[i]))
            && ((forall i | 0 <= i < |us| :: r[i].mode == H.Modes(us[i]))
                <==> (forall i | 0 <= i < |a| :: ra[i].mode == H.Modes(a[i])) && (forall i | 0 <= i < |b| :: rb[i].mode == H.Modes(b[i])))
  {
    hide H.Numeric, H.Modes;
    var us, r := a + b, ra + rb;
    assert forall i | 0 <= i < |a| :: us[i] == a[i] && r[i] == ra[i];
    assert forall i | 0 <= i < |b| :: us[|a| + i] == b[i] && r[|a| + i] == rb[i];
  }

  lemma ReceivedLine(h: Head, k: Chunk)
    requires HeadOk(h) && LineShape(h, k)
    ensures var us, r := k.users, Received(h, k);
            && |r| == |us| && (forall i | 0 <= i < |us| :: r[i].numeric == H.Numeric(us[i]))
            && ((forall i | 0 <= i < |us| :: r[i].mode == H.Modes(us[i])) <==> |Text(h, k)| <= SENDLIMIT)
  {
    hide Text, HeadOk, H.Numeric, H.Modes, UserPiece, UserText, Suffix;
    ListingPlaces(k.users);
    if |Text(h, k)| > SENDLIMIT {
      OverlongPiece(h, k);
      var us, w := k.users[..|k.users| - 1], k.users[|k.users| - 1];
      var kept := SENDLIMIT - |Text(h, k.(users := us))|;
      ListingPlaces(us);
      WrongMode(us, w, kept);
      var r := Received(h, k);
      assert r == Listing(us) + [Listed(H.Numeric(w), CutMode(us, kept))];
      assert r[|us|].mode == CutMode(us, kept) && k.users[|us|] == w;
      hide Received;
    }
  }

  lemma {:induction false} ListingPlaces(us: seq<H.Word>)
    ensures forall i | 0 <= i < |us| :: Listing(us)[i] == Listed(H.Numeric(us[i]), H.Modes(us[i]))
  {
    hide H.Numeric, H.Modes;
    if us != [] {
      ListingPlaces(us[1..]);
    }
  }

  lemma WrongMode(us: seq<H.Word>, w: H.Word, kept: nat)
    requires 6 <= kept < |UserPiece(us, w)| && |Suffix(H.Modes(w))| + 6 == |UserPiece(us, w)|
    requires H.Modes(w) != LastMode(us, 0) && H.Modes(w) != 0
    ensures CutMode(us, kept) != H.Modes(w)
  {
    hide UserPiece, UserText, LastMode;
  }

  /** With distinct numerics, the last word about a user is the only one. */
  lemma {:induction false} MentionsInPlace(us: seq<Listed>)
    requires forall i, j | 0 <= i < j < |us| :: us[i].numeric != us[j].numeric
    ensures forall i | 0 <= i < |us| :: us[i].numeric in Mentions(us) && Mentions(us)[us[i].numeric] == us[i].mode
  {
    if us != [] {
      var rest := us[1..];
      assert forall i | 0 <= i < |rest| :: rest[i] == us[i + 1];
      MentionsInPlace(rest);
    }
  }

  lemma MentionsExactly(known: set<nat>, r: seq<Listed>) returns (got: map<nat, nat>)
    requires forall i, j | 0 <= i < j < |r| :: r[i].numeric != r[j].numeric
    requires forall i | 0 <= i < |r| :: r[i].numeric in known
    ensures got == AddNicks(known, map[], r, false)
    ensures forall i | 0 <= i < |r| :: r[i].numeric in got && got[r[i].numeric] == r[i].mode
    ensures forall n | n in got :: exists i | 0 <= i < |r| :: r[i].numeric == n
  {
    MentionsInPlace(r);
    MentionKeys(r);
    AddNicksJoins(known, map[], r, false);
    hide AddNicks, Mentions;
    var m := Mentions(r);
    got := AddNicks(known, map[], r, false);
    forall n | n in got
      ensures exists i | 0 <= i < |r| :: r[i].numeric == n
    {
      assert n in m.Keys;
      var l :| l in r && l.numeric == n;
    }
  }

  /** The users the receiver ends with are those of the channel exactly when every mode was read right. */
  lemma UsersRebuilt(known: set<nat>, us: seq<H.Word>, r: seq<Listed>, modes: map<nat, nat>, nouser: H.Word)
    requires |r| == |us| && Distinct(us, nouser) && nouser !in us
    requires forall i | 0 <= i < |us| :: r[i].numeric == H.Numeric(us[i])
    requires forall i | 0 <= i < |us| :: H.Numeric(us[i]) in modes && modes[H.Numeric(us[i])] == H.Modes(us[i])
    requires forall n | n in modes :: exists i | 0 <= i < |us| :: H.Numeric(us[i]) == n
    requires modes.Keys <= known
    ensures AddNicks(known, map[], r, false) == modes <==> forall i | 0 <= i < |us| :: r[i].mode == H.Modes(us[i])
  {
    hide H.Numeric, H.Modes, AddNicks;
    assert forall i | 0 <= i < |r| :: r[i].numeric in modes.Keys;
    forall i, j | 0 <= i < j < |r|
      ensures r[i].numeric != r[j].numeric
    {
      assert us[i] in us && us[j] in us;
      assert H.Numeric(us[i]) != H.Numeric(us[j]);
    }
    var got := MentionsExactly(known, r);
    SameMapByPlaces(got, modes, r, seq(|us|, i requires 0 <= i < |us| => H.Modes(us[i])));
  }

  lemma SameMapByPlaces(got: map<nat, nat>, modes: map<nat, nat>, r: seq<Listed>, right: seq<nat>)
    requires |right| == |r|
    requires forall i | 0 <= i < |r| :: r[i].numeric in got && got[r[i].numeric] == r[i].mode
    requires forall n | n in got :: exists i | 0 <= i < |r| :: r[i].numeric == n
    requires forall i | 0 <= i < |r| :: r[i].numeric in modes && modes[r[i].numeric] == right[i]
    requires forall n | n in modes :: exists i | 0 <= i < |r| :: r[i].numeric == n
    ensures got == modes <==> forall i | 0 <= i < |r| :: r[i].mode == right[i]
  {
    if forall i | 0 <= i < |r| :: r[i].mode == right[i] {
      assert got.Keys == modes.Keys;
    }
  }

  lemma {:induction false} TextsMembers(h: Head, ks: seq<Chunk>)
    requires HeadOk(h)
    ensures (forall line | line in Texts(h, ks) :: |line| <= SENDLIMIT) <==> (forall k | k in ks :: |Text(h, k)| <= SENDLIMIT)
  {
    hide HeadOk, Text;
    if ks != [] {
      TextsMembers(h, ks[1..]);
      assert forall line :: line in Texts(h, ks) <==> line == Text(h, ks[0]) || line in Texts(h, ks[1..]);
      assert forall k :: k in ks <==> k == ks[0] || k in ks[1..];
    }
  }

  /** The lines of a channel, as the receiver needs them. */
  lemma LinesSendable(env: Env, h: Head, content: seq<H.Word>, nouser: H.Word, u: H.Users)
    requires Sendworthy(env, h, content, nouser, u)
    ensures var ks := LinesOf(h, content, nouser);
            && WellLaid(h, ks) && ks[0].users != []
            && JoinUsers(ks) == Grouped(content, nouser) && JoinBans(ks) == BanStrings(h.c.bans)
            && (forall k | k in ks :: Sendable(h, k))
            && (exists l | l in Received(h, ks[0]) :: l.numeric in env.known)
  {
    GroupedNotEmpty(content, nouser, u);
    BanStringsAreWords(h.c.bans);
    var ks := LinesOf(h, content, nouser);
    hide Grouped, H.Stores, BansSendable, Layout, HeadOk, BanWord, BanStrings;
    LayoutSound(h, Grouped(content, nouser), BanStrings(h.c.bans));
    GroupedPlainFirst(content, nouser);
    PartsPlain(ks);
    forall k | k in ks
      ensures Sendable(h, k)
    {
      assert LineShape(h, k);
    }
    hide PlainFirst, LineShape, Sendable, Received, H.Numeric;
    FirstKnown(env, h, content, nouser, u, ks);
  }

  lemma FirstKnown(env: Env, h: Head, content: seq<H.Word>, nouser: H.Word, u: H.Users, ks: seq<Chunk>)
    requires HeadOk(h) && WellLaid(h, ks) && ks[0].users != [] && JoinUsers(ks) == Grouped(content, nouser)
    requires H.Stores(content, nouser, u) && nouser < H.NUMERICS && u.modes.Keys <= env.known
    ensures exists l | l in Received(h, ks[0]) :: l.numeric in env.known
  {
    assert LineShape(h, ks[0]);
    hide HeadOk, LineShape, Received, H.Numeric, H.Modes, H.Stores, Grouped;
    StoredFacts(content, nouser, u);
    GroupedWords(content, nouser);
    ReceivedLine(h, ks[0]);
    var w := ks[0].users[0];
    assert w in JoinUsers(ks);
    assert H.Numeric(w) in u.modes.Keys;
    assert Received(h, ks[0])[0] in Received(h, ks[0]);
  }

  /** The receiver's channel, with the users as they were read. */
  lemma Rebuilt(env: Env, h: Head, content: seq<H.Word>, nouser: H.Word, u: H.Users)
    requires Sendworthy(env, h, content, nouser, u)
    ensures HeadOk(h) && WellLaid(h, LinesOf(h, content, nouser))
    ensures ReceiveAll(env, None, Texts(h, LinesOf(h, content, nouser)))
         == Some(h.c.(users := AddNicks(env.known, map[], ReceivedAll(h, LinesOf(h, content, nouser)), false),
                      bans := SetBans(env.lib, [], BanStrings(h.c.bans))))
  {
    hide Grouped, H.Stores, BansSendable, HeadOk, BanStrings, LinesOf, SetBans, AddNicks, Text, Texts, Received, ReceiveAll, Sendable,
      Reverse, H.Numeric, H.Modes, WellLaid, ReceivedAll;
    var ks := LinesOf(h, content, nouser);
    LinesSendable(env, h, content, nouser, u);
    ReceiveLines(env, h, ks);
  }

  /** Sending a channel to a receiver that does not have it: for every table layout and every placement of line wraps
      the receiver ends with a channel of the same timestamp, flags, limit and key; with the same users and modes
      exactly when no line is longer than irc_send lets through; and with the same bans, in reverse order, exactly when
      every ban prints as itself. */
  lemma BurstRoundTrip(env: Env, h: Head, content: seq<H.Word>, nouser: H.Word, u: H.Users)
    requires Sendworthy(env, h, content, nouser, u)
    ensures var r := ReceiveAll(env, None, Texts(h, LinesOf(h, content, nouser)));
            && r.Some? && r.value == h.c.(users := r.value.users, bans := SetBans(env.lib, [], BanStrings(h.c.bans)))
            && (r.value.users == h.c.users <==> forall line | line in Texts(h, LinesOf(h, content, nouser)) :: |line| <= SENDLIMIT)
            && (r.value.bans == Reverse(h.c.bans) <==> forall b | b in h.c.bans :: Reparses(env.lib, b))
  {
    var ks := LinesOf(h, content, nouser);
    Rebuilt(env, h, content, nouser, u);
    LinesSendable(env, h, content, nouser, u);
    RebuiltExactly(env.lib, h.c.bans);
    hide Grouped, H.Stores, BansSendable, HeadOk, BanStrings, LinesOf, SetBans, AddNicks, Text, Texts, Received, ReceiveAll,
      Sendable, Reverse, H.Numeric, H.Modes, WellLaid, ReceivedAll, Reparses;
    ReceivedInPlace(h, ks);
    GroupUsersRebuilt(env, content, nouser, u, ReceivedAll(h, ks));
    TextsMembers(h, ks);
  }

  /** For a ban list that setban has made from masks: the whole channel comes back, with the bans in reverse order,
      when no line is too long and every mask is one that comes back. */
  lemma MasksRoundTrip(env: Env, h: Head, content: seq<H.Word>, nouser: H.Word, u: H.Users, masks: seq<string>)
    requires HeadOk(h) && h.newline && nouser < H.NUMERICS
    requires H.Stores(content, nouser, u) && u.modes == h.c.users && u.modes != map[] && u.modes.Keys <= env.known
    requires h.c.bans == SetBans(env.lib, [], masks) && forall m | m in masks :: ' ' !in m && ComesBack(env.lib, m)
    requires forall line | line in Texts(h, LinesOf(h, content, nouser)) :: |line| <= SENDLIMIT
    ensures ReceiveAll(env, None, Texts(h, LinesOf(h, content, nouser))) == Some(h.c.(bans := Reverse(h.c.bans)))
  {
    hide H.Stores, BansSendable, HeadOk, BanStrings, LinesOf, SetBans, Texts, ReceiveAll, Reverse, Reparses, ComesBack;
    SetMasksSendable(env.lib, masks);
    forall b | b in h.c.bans ensures Reparses(env.lib, b) {
      assert FromMask(env.lib, masks, b);
    }
    BurstRoundTrip(env, h, content, nouser, u);
  }

  lemma GroupUsersRebuilt(env: Env, content: seq<H.Word>, nouser: H.Word, u: H.Users, r: seq<Listed>)
    requires H.Stores(content, nouser, u) && nouser < H.NUMERICS && u.modes.Keys <= env.known
    requires var us := Grouped(content, nouser); |r| == |us| && forall i | 0 <= i < |us| :: r[i].numeric == H.Numeric(us[i])
    ensures var us := Grouped(content, nouser);
            AddNicks(env.known, map[], r, false) == u.modes <==> forall i | 0 <= i < |us| :: r[i].mode == H.Modes(us[i])
  {
    hide Grouped, H.Stores, H.Numeric, H.Modes, AddNicks;
    var us := Grouped(content, nouser);
    StoredFacts(content, nouser, u);
    GroupedWords(content, nouser);
    GroupedDistinct(content, nouser);
    forall n | n in u.modes
      ensures exists i | 0 <= i < |us| :: H.Numeric(us[i]) == n
    {
      var w :| w in content && w != nouser && H.Numeric(w) == n;
      assert w in us;
    }
    assert forall i | 0 <= i < |us| :: us[i] in us;
    UsersRebuilt(env.known, us, r, u.modes, nouser);
  }
}
