/** The burst on the wire: sendchanburst of channel/channel.c prints a channel over several lines, the parameter
    splitter of lib/splitline.c cuts each line up, and the burst handler rebuilds the channel. */
module Wire {
  import opened Options
  import opened IrcStrings
  import opened Decimal
  import opened Bans
  import opened BanLists
  import opened Burst
  import H = UserHash

  const BUFSIZE := 512
  const SENDLIMIT := 508   // what irc_send lets through: vsnprintf with a size of 509
  const CUMODE_VOICE := 0x4000_0000
  const CUMODE_OP := 0x8000_0000
  const MAXARGS := 20      // MAX_SERVERARGS

  // ---------------------------------------------------------------- numerics

  /** The `tokens` string. */
  function Token(d: nat): (c: char)
    requires d < 64
    ensures Digit64(c) == d && c != ' ' && c != ',' && c != ':' && c != '+' && c != '%'
  {
    if d < 26 then ('A' as int + d) as char
    else if d < 52 then ('a' as int + d - 26) as char
    else if d < 62 then ('0' as int + d - 52) as char
    else if d == 62 then '[' else ']'
  }

  /** longtonumeric. */
  function LongToNumeric(n: nat, len: nat): (s: string)
    ensures |s| == len
    ensures forall c | c in s :: c != ' ' && c != ',' && c != ':' && c != '+' && c != '%'
  {
    if len == 0 then "" else LongToNumeric(n / 64, len - 1) + [Token(n % 64)]
  }

  function Pow64(k: nat): nat {
    if k == 0 then 1 else 64 * Pow64(k - 1)
  }

  lemma {:induction false} NumericReadsBack(n: nat, len: nat)
    requires n < Pow64(len)
    ensures NumericToLong(LongToNumeric(n, len)) == n
  {
    if len > 0 {
      NumericReadsBack(n / 64, len - 1);
      assert LongToNumeric(n, len)[..len - 1] == LongToNumeric(n / 64, len - 1);
    }
  }

  function UserText(w: H.Word): (s: string)
    ensures |s| == 5
    ensures forall c | c in s :: c != ' ' && c != ',' && c != ':' && c != '+' && c != '%'
  {
    LongToNumeric(H.Numeric(w), 5)
  }

  lemma UserTextReads(w: H.Word)
    ensures NumericToLong(UserText(w)) == H.Numeric(w)
  {
    assert Pow64(5) == 64 * (64 * (64 * (64 * (64 * Pow64(0)))));
    NumericReadsBack(H.Numeric(w), 5);
  }

  lemma {:induction false} LeadingZero(s: string)
    requires s != "" && Digit64(s[0]) == 0
    ensures NumericToLong(s) == NumericToLong(s[1..])
  {
    var last := |s| - 1;
    if last == 0 {
      assert s[..0] == "" && s[1..] == "";
    } else {
      LeadingZero(s[..last]);
      assert s[..last][1..] == s[1..][..last - 1];
    }
  }

  /** A lone user with a comma in front reads as the user of the numeric without its last digit, and without modes. */
  lemma CommaInFront(w: H.Word)
    ensures UserList("," + UserText(w) + Suffix(H.Modes(w)), 0) == [Listed(H.Numeric(w) / 64, 0)]
  {
    var n, t := H.Numeric(w), UserText(w);
    var s := "," + t + Suffix(H.Modes(w));
    assert s[..5] == "," + t[..4] && s[5] == t[4];
    LeadingZero(s[..5]);
    assert s[..5][1..] == t[..4] == LongToNumeric(n / 64, 4);
    assert Pow64(4) == 64 * (64 * (64 * (64 * Pow64(0))));
    NumericReadsBack(n / 64, 4);
    assert |s[5..]| <= 4;
    hide NumericToLong, LongToNumeric, Digit64, Suffix, H.Modes;
    assert UserList(s[5..], 0) == [];
  }

  // ---------------------------------------------------------------- lists of users

  /** The mode suffix of a user that starts a group. */
  function Suffix(m: nat): (s: string)
    ensures |s| <= 3 && forall c | c in s :: c != ' '
  {
    if m == 0 then "" else ":" + (if m >= 2 then "o" else "") + (if m % 2 == 1 then "v" else "")
  }

  /** The letter o is op and the letter v is voice, in print and when read, and in the word of the table. */
  lemma LettersMean(t: string, m: nat, n: nat)
    requires |t| == 5 && n < H.NUMERICS
    ensures Suffix(0) == "" && Suffix(1) == ":v" && Suffix(2) == ":o" && Suffix(3) == ":ov"
    ensures UserList(t + ":v", m) == [Listed(NumericToLong(t), 1)]
    ensures UserList(t + ":o", m) == [Listed(NumericToLong(t), 2)]
    ensures UserList(t + ":ov", m) == UserList(t + ":vo", m) == [Listed(NumericToLong(t), 3)]
    ensures H.MakeWord(n, 1) == n + CUMODE_VOICE && H.MakeWord(n, 2) == n + CUMODE_OP
  {
    ScanLetters();
    ModesRead(t, ":v", m);
    ModesRead(t, ":o", m);
    ModesRead(t, ":ov", m);
    ModesRead(t, ":vo", m);
    hide ScanModes, UserList, NumericToLong;
  }

  lemma ScanLetters()
    ensures ScanModes("v", 0) == ModeScan(1, 1) && ScanModes("o", 0) == ModeScan(2, 1)
    ensures ScanModes("ov", 0) == ScanModes("vo", 0) == ModeScan(3, 2)
  {
    assert "v"[1..] == "" && "o"[1..] == "" && "ov"[1..] == "v" && "vo"[1..] == "o";
    assert ScanModes("v", 2) == ModeScan(3, 1) && ScanModes("o", 1) == ModeScan(3, 1);
  }

  lemma ModesRead(t: string, suffix: string, m: nat)
    requires |t| == 5 && suffix != "" && suffix[0] == ':' && ScanModes(suffix[1..], 0).used == |suffix| - 1
    ensures UserList(t + suffix, m) == [Listed(NumericToLong(t), ScanModes(suffix[1..], 0).mode)]
  {
    hide NumericToLong, ScanModes;
    var s := t + suffix;
    assert s[..5] == t && s[5] == ':' && s[6..] == suffix[1..] && s[5 + |suffix|..] == "";
    assert forall k :: UserList("", k) == [];
  }

  /** The modes of the last user so far. */
  function LastMode(us: seq<H.Word>, m: nat): nat {
    if us == [] then m else H.Modes(us[|us| - 1])
  }

  function Change(m: nat, before: nat): (s: string)
    ensures |s| <= 3 && forall c | c in s :: c != ' '
  {
    if m != before then Suffix(m) else ""
  }

  /** Users behind another one with modes `m`. */
  function Tail(us: seq<H.Word>, m: nat): string {
    if us == [] then ""
    else "," + UserText(us[0]) + Change(H.Modes(us[0]), m) + Tail(us[1..], H.Modes(us[0]))
  }

  /** The users of one line. */
  function UsersText(us: seq<H.Word>): string {
    if us == [] then ""
    else UserText(us[0]) + Suffix(H.Modes(us[0])) + Tail(us[1..], H.Modes(us[0]))
  }

  function Listing(us: seq<H.Word>): (r: seq<Listed>)
    ensures |r| == |us|
  {
    if us == [] then [] else [Listed(H.Numeric(us[0]), H.Modes(us[0]))] + Listing(us[1..])
  }

  /** Users without modes come first, as in the order sendchanburst prints. */
  predicate PlainFirst(us: seq<H.Word>) {
    forall i, j | 0 <= i < j < |us| && H.Modes(us[j]) == 0 :: H.Modes(us[i]) == 0
  }

  lemma ScanSuffix(m: nat, rest: string)
    requires 0 < m < 4 && (rest == "" || rest[0] == ',')
    ensures ScanModes(Suffix(m)[1..] + rest, 0) == ModeScan(m, |Suffix(m)| - 1 + if rest == "" then 0 else 1)
  {
    var s := Suffix(m)[1..] + rest;
    if m == 1 {
      assert s[1..] == rest;
    } else if m == 2 {
      assert s[1..] == rest;
    } else {
      assert s[0] == 'o' && s[1] == 'v' && s[1..][1..] == rest;
      assert ScanModes(rest, 3) == ModeScan(3, if rest == "" then 0 else 1);
      assert ScanModes(s[1..], 2) == ModeScan(3, 1 + if rest == "" then 0 else 1);
    }
  }

  /** The text of users whose group so far has modes `m`. */
  function GroupText(us: seq<H.Word>, m: nat): string
    requires us != []
  {
    UserText(us[0]) + Change(H.Modes(us[0]), m) + Tail(us[1..], H.Modes(us[0]))
  }

  lemma {:induction false} GroupReads(us: seq<H.Word>, m: nat)
    requires us != [] && PlainFirst(us) && (H.Modes(us[0]) == 0 ==> m == 0)
    ensures UserList(GroupText(us, m), m) == Listing(us)
    decreases |us|
  {
    var w, rest := us[0], us[1..];
    var mw := H.Modes(w);
    var s := GroupText(us, m);
    UserTextReads(w);
    assert s[..5] == UserText(w);
    if rest != [] {
      var g := GroupText(rest, mw);
      CommaGroup(UserText(rest[0]), Change(H.Modes(rest[0]), mw), Tail(rest[1..], H.Modes(rest[0])));
      assert Tail(rest, mw) == "," + g;
      assert forall i | 0 <= i < |rest| :: rest[i] == us[i + 1];
      GroupReads(rest, mw);
      hide H.Modes, H.Numeric, UserText, NumericToLong, GroupText, Suffix, Tail;
      if mw == m {
        CommaThenMore(us, m, s, g);
      } else {
        SuffixThenMore(us, mw, s, g);
      }
    } else {
      hide H.Modes, H.Numeric, UserText, NumericToLong, Suffix;
      if mw == m {
        JustOne(us, m, s);
      } else {
        SuffixThenEnd(us, mw, s);
      }
    }
  }

  /** Reading users and then more behind a comma. */
  lemma {:induction false} GroupReadsThen(us: seq<H.Word>, m: nat, g: string)
    requires us != [] && PlainFirst(us) && (H.Modes(us[0]) == 0 ==> m == 0)
    ensures UserList(GroupText(us, m) + ("," + g), m) == Listing(us) + UserList(g, LastMode(us, m))
    decreases |us|
  {
    hide H.Modes, H.Numeric, UserText, NumericToLong, Suffix, Change, Tail, UserList, GroupText;
    var w, rest := us[0], us[1..];
    var mw := H.Modes(w);
    var s := GroupText(us, m) + ("," + g);
    GroupUnfolds(us, m);
    if rest != [] {
      assert forall i | 0 <= i < |rest| :: rest[i] == us[i + 1];
      GroupReadsThen(rest, mw, g);
      Regroup4(UserText(w), Change(mw, m), GroupText(rest, mw), g);
      HeadReads(w, Change(mw, m) + ("," + (GroupText(rest, mw) + ("," + g))), s);
      FirstReads(us, m, s, GroupText(rest, mw) + ("," + g));
    } else {
      assert Listing(rest) == [];
      HeadReads(w, Change(mw, m) + ("," + g), s);
      FirstReads(us, m, s, g);
    }
  }

  lemma GroupUnfolds(us: seq<H.Word>, m: nat)
    requires us != []
    ensures var w, rest := us[0], us[1..];
            GroupText(us, m) == UserText(w) + Change(H.Modes(w), m) + (if rest == [] then "" else "," + GroupText(rest, H.Modes(w)))
  {
    hide H.Modes, UserText, Change;
    var rest, mw := us[1..], H.Modes(us[0]);
    if rest != [] {
      CommaGroup(UserText(rest[0]), Change(H.Modes(rest[0]), mw), Tail(rest[1..], H.Modes(rest[0])));
    }
  }

  lemma HeadReads(w: H.Word, x: string, s: string)
    requires s == UserText(w) + x
    ensures NumericToLong(s[..5]) == H.Numeric(w)
  {
    UserTextReads(w);
    hide UserText, NumericToLong;
    assert s[..5] == UserText(w);
  }

  lemma CommaGroup(a: string, b: string, c: string)
    ensures "," + a + b + c == "," + (a + b + c)
  {
  }

  lemma Regroup4(a: string, b: string, c: string, d: string)
    ensures a + b + ("," + c) + ("," + d) == a + b + ("," + (c + ("," + d)))
  {
  }

  /** The first user of a list that goes on. */
  lemma FirstReads(us: seq<H.Word>, m: nat, s: string, g: string)
    requires us != [] && (H.Modes(us[0]) == 0 ==> m == 0)
    requires s == UserText(us[0]) + Change(H.Modes(us[0]), m) + ("," + g)
    requires NumericToLong(s[..5]) == H.Numeric(us[0])
    ensures UserList(s, m) == [Listed(H.Numeric(us[0]), H.Modes(us[0]))] + UserList(g, H.Modes(us[0]))
  {
    var mw := H.Modes(us[0]);
    if mw == m {
      assert s[5] == ',' && s[6..] == g;
    } else {
      var k := |Suffix(mw)|;
      ScanSuffix(mw, "," + g);
      assert s[5] == ':' && s[6..] == Suffix(mw)[1..] + ("," + g);
      assert s[6 + k..] == g;
      hide ScanModes, Suffix, H.Modes, H.Numeric;
    }
  }

  lemma CommaThenMore(us: seq<H.Word>, m: nat, s: string, g: string)
    requires us != [] && H.Modes(us[0]) == m
    requires s == UserText(us[0]) + "," + g
    requires NumericToLong(s[..5]) == H.Numeric(us[0]) && UserList(g, m) == Listing(us[1..])
    ensures UserList(s, m) == Listing(us)
  {
    assert s[5] == ',' && s[6..] == g;
    hide H.Modes, H.Numeric;
  }

  lemma JustOne(us: seq<H.Word>, m: nat, s: string)
    requires |us| == 1 && H.Modes(us[0]) == m && s == UserText(us[0])
    requires NumericToLong(s[..5]) == H.Numeric(us[0])
    ensures UserList(s, m) == Listing(us)
  {
    assert Listing(us[1..]) == [];
    hide H.Modes, H.Numeric;
  }

  /** The pieces of a text behind its first five characters. */
  lemma AfterFive(u: string, suffix: string, g: string, s: string)
    requires |u| == 5 && suffix != "" && s == u + suffix + g
    ensures |s| > 5 && s[5] == suffix[0] && s[6..] == suffix[1..] + g && s[5 + |suffix|..] == g
  {
  }

  lemma SuffixThenMore(us: seq<H.Word>, mw: nat, s: string, g: string)
    requires us != [] && 0 < mw < 4 && H.Modes(us[0]) == mw
    requires s == UserText(us[0]) + Suffix(mw) + ("," + g)
    requires NumericToLong(s[..5]) == H.Numeric(us[0]) && UserList(g, mw) == Listing(us[1..])
    ensures forall m :: UserList(s, m) == Listing(us)
  {
    hide UserText, NumericToLong, H.Modes, H.Numeric, ScanModes, UserList;
    var k := |Suffix(mw)|;
    AfterFive(UserText(us[0]), Suffix(mw), "," + g, s);
    ScanSuffix(mw, "," + g);
    assert s[6 + k..] == s[5 + k..][1..] == g;
    ColonReads(s, mw, k);
    hide Suffix;
  }

  lemma ColonReads(s: string, mw: nat, k: nat)
    requires |s| > 5 && s[5] == ':' && ScanModes(s[6..], 0) == ModeScan(mw, k)
    ensures forall m :: UserList(s, m) == [Listed(NumericToLong(s[..5]), mw)] + UserList(s[6 + k..], mw)
  {
    hide NumericToLong, ScanModes;
  }

  lemma SuffixThenEnd(us: seq<H.Word>, mw: nat, s: string)
    requires |us| == 1 && 0 < mw < 4 && H.Modes(us[0]) == mw
    requires s == UserText(us[0]) + Suffix(mw)
    requires NumericToLong(s[..5]) == H.Numeric(us[0])
    ensures forall m :: UserList(s, m) == Listing(us)
  {
    hide UserText, NumericToLong, H.Modes, H.Numeric, ScanModes;
    assert s == UserText(us[0]) + Suffix(mw) + "";
    AfterFive(UserText(us[0]), Suffix(mw), "", s);
    ScanSuffix(mw, "");
    assert Listing(us[1..]) == [] && UserList("", mw) == [];
    hide Suffix;
  }

  /** The reader gets back every user of a line with its modes, although modes are printed once a group. */
  lemma UsersRead(us: seq<H.Word>)
    requires PlainFirst(us)
    ensures UserList(UsersText(us), 0) == Listing(us)
  {
    if us != [] {
      GroupReads(us, 0);
      assert Suffix(0) == "";
    }
  }

  lemma {:induction false} TailAppend(us: seq<H.Word>, m: nat, w: H.Word)
    ensures Tail(us + [w], m) == Tail(us, m) + "," + UserText(w) + Change(H.Modes(w), LastMode(us, m))
    decreases |us|
  {
    hide UserText, H.Modes, Change, LastMode;
    if us == [] {
      assert us + [w] == [w] && [w][1..] == [] && Tail([], H.Modes(w)) == "";
      NoLastMode(m);
    } else {
      assert (us + [w])[1..] == us[1..] + [w];
      TailAppend(us[1..], H.Modes(us[0]), w);
      LastModeOfTail(us, m);
      hide Tail;
    }
  }

  lemma NoLastMode(m: nat)
    ensures LastMode([], m) == m
  {
  }

  /** What sendchanburst appends for one more user. */
  function UserPiece(us: seq<H.Word>, w: H.Word): (s: string)
    ensures |s| <= 9
  {
    if us == [] then UserText(w) + Suffix(H.Modes(w))
    else "," + UserText(w) + Change(H.Modes(w), LastMode(us, 0))
  }

  lemma UsersAppend(us: seq<H.Word>, w: H.Word)
    ensures UsersText(us + [w]) == UsersText(us) + UserPiece(us, w)
  {
    hide UserText, H.Modes, Change, Suffix, Tail, LastMode;
    if us == [] {
      assert us + [w] == [w];
      FirstUserText(w);
    } else {
      assert (us + [w])[1..] == us[1..] + [w];
      TailAppend(us[1..], H.Modes(us[0]), w);
      LastModeOfTail(us, 0);
      Regroup5(UserText(us[0]) + Suffix(H.Modes(us[0])), Tail(us[1..], H.Modes(us[0])), UserText(w),
               Change(H.Modes(w), LastMode(us, 0)));
    }
  }

  lemma FirstUserText(w: H.Word)
    ensures UsersText([w]) == UserText(w) + Suffix(H.Modes(w)) && UsersText([]) == ""
  {
    hide UserText, H.Modes, Suffix;
    assert [w][1..] == [];
  }

  lemma LastModeOfTail(us: seq<H.Word>, m: nat)
    requires us != []
    ensures LastMode(us[1..], H.Modes(us[0])) == LastMode(us, m)
  {
    hide H.Modes;
  }

  lemma Regroup5(a: string, b: string, c: string, d: string)
    ensures a + (b + "," + c + d) == a + b + ("," + c + d)
  {
  }

  // ---------------------------------------------------------------- splitline

  /** splitline with the colon check, from a place between parameters, `count` parameters into the line. */
  function SplitLine(s: string, count: nat): seq<string>
    decreases |s|
  {
    if s == "" then []
    else if s[0] == ' ' then SplitLine(s[1..], count)
    else if s[0] == ':' && count > 0 then [s[1..]]
    else if count + 1 == MAXARGS then [s]
    else
      var k := WordLength(s);
      [s[..k]] + SplitLine(s[k..], count + 1)
  }

  predicate IsWord(s: string) {
    s != "" && ' ' !in s && s[0] != ':'
  }

  /** Words with a blank behind each. */
  function Sp(ws: seq<string>): string {
    if ws == [] then "" else ws[0] + " " + Sp(ws[1..])
  }

  lemma {:induction false} WordLengthExact(w: string, rest: string)
    requires ' ' !in w && (rest == "" || rest[0] == ' ')
    ensures WordLength(w + rest) == |w|
  {
    if w == "" {
      assert w + rest == rest;
    } else {
      assert (w + rest)[1..] == w[1..] + rest;
      WordLengthExact(w[1..], rest);
    }
  }

  lemma SplitOne(w: string, more: string, count: nat)
    requires IsWord(w) && count + 1 < MAXARGS
    ensures SplitLine(w + " " + more, count) == [w] + SplitLine(more, count + 1)
  {
    var s := w + (" " + more);
    assert s == w + " " + more;
    WordLengthExact(w, " " + more);
    hide WordLength;
    assert s[..|w|] == w && s[|w|..] == " " + more && (" " + more)[1..] == more;
  }

  lemma {:induction false} SplitWords(ws: seq<string>, rest: string, count: nat)
    requires forall w | w in ws :: IsWord(w)
    requires count + |ws| + 1 < MAXARGS
    ensures SplitLine(Sp(ws) + rest, count) == ws + SplitLine(rest, count + |ws|)
    decreases |ws|
  {
    hide SplitLine, IsWord;
    if ws == [] {
      assert Sp(ws) + rest == rest;
    } else {
      var more := Sp(ws[1..]) + rest;
      assert Sp(ws) + rest == ws[0] + " " + more;
      SplitOne(ws[0], more, count);
      SplitWords(ws[1..], rest, count + 1);
      assert ws == [ws[0]] + ws[1..];
    }
  }

  lemma SplitLast(w: string, count: nat)
    requires IsWord(w) && count + 1 < MAXARGS
    ensures SplitLine(w, count) == [w]
  {
    WordLengthExact(w, "");
    assert w + "" == w && w[|w|..] == "" && w[..|w|] == w;
  }

  /** The text behind a ban colon is one parameter. */
  lemma SplitColon(t: string, count: nat)
    requires 0 < count && count + 1 < MAXARGS
    ensures SplitLine(":" + t, count) == [t]
  {
    assert (":" + t)[1..] == t;
  }

  // ---------------------------------------------------------------- lines

  /** One line of a burst: some users and some bans; the first also carries the modes. */
  datatype Chunk = Chunk(first: bool, users: seq<H.Word>, bans: seq<string>)

  /** What is printed of a channel besides users and bans; `me` is our server's numeric, and `newline` the flag of
      that name as the channel before has left it. */
  datatype Head = Head(me: string, name: string, c: Chan, newline: bool)

  function PrintFlagsOf(letters: string, flags: set<char>): string {
    if letters == "" then ""
    else (if letters[0] in flags then [letters[0]] else "") + PrintFlagsOf(letters[1..], flags)
  }

  /** printflags. */
  function PrintFlags(flags: set<char>): string {
    "+" + PrintFlagsOf(CMODES, flags)
  }

  predicate HeadOk(h: Head) {
    && IsWord(h.me) && |h.me| <= 5
    && IsWord(h.name) && |h.name| <= 200
    && 0 <= h.c.timestamp < 0x8000_0000_0000_0000
    && (forall f | f in h.c.flags :: IsCMode(f))
    && (if 'l' in h.c.flags then 0 < h.c.limit < 0x8000_0000 else h.c.limit == 0)
    && (if 'k' in h.c.flags then h.c.key.Some? && IsWord(h.c.key.value) && |h.c.key.value| <= KEYLEN
                                 && CString(h.c.key.value)
        else h.c.key == None)
  }

  function HeadWords(h: Head): (ws: seq<string>)
    requires h.c.timestamp >= 0
    ensures |ws| == 4
  {
    [h.me, "B", h.name, Print(h.c.timestamp)]
  }

  function ModeWords(h: Head): (ws: seq<string>)
    requires HeadOk(h)
    ensures 1 <= |ws| <= 3
  {
    [PrintFlags(h.c.flags)]
    + (if 'l' in h.c.flags then [Print(h.c.limit)] else [])
    + (if 'k' in h.c.flags then [h.c.key.value] else [])
  }

  function LeadWords(h: Head, first: bool): seq<string>
    requires HeadOk(h)
  {
    HeadWords(h) + if first then ModeWords(h) else []
  }

  /** The users of a line as they are printed: with the flag clear a comma comes in front of the very first. */
  function UsersArg(h: Head, k: Chunk): string {
    (if !h.newline && k.first && k.users != [] then "," else "") + UsersText(k.users)
  }

  function Text(h: Head, k: Chunk): string
    requires HeadOk(h)
  {
    Sp(LeadWords(h, k.first))
    + UsersArg(h, k)
    + (if k.bans == [] then "" else (if k.users == [] then ":%" else " :%") + BanText(k.bans))
  }

  /** The parameters the handler gets: everything behind the sender and the command. */
  function ArgsOf(h: Head, k: Chunk): seq<string>
    requires HeadOk(h)
  {
    [h.name, Print(h.c.timestamp)]
    + (if k.first then ModeWords(h) else [])
    + (if k.users == [] then [] else [UsersArg(h, k)])
    + (if k.bans == [] then [] else ["%" + BanText(k.bans)])
  }

  lemma {:induction false} FlagsAreWord(letters: string, flags: set<char>)
    requires ' ' !in letters
    ensures ' ' !in PrintFlagsOf(letters, flags)
  {
    if letters != "" {
      FlagsAreWord(letters[1..], flags);
    }
  }

  lemma NumberIsWord(n: nat)
    ensures IsWord(Print(n))
  {
    var s := Print(n);
    assert IsDigit(s[0]);
    forall i | 0 <= i < |s| ensures s[i] != ' ' {
      assert IsDigit(s[i]);
    }
  }

  lemma LeadAreWords(h: Head, first: bool)
    requires HeadOk(h)
    ensures forall w | w in LeadWords(h, first) :: IsWord(w)
  {
    NumberIsWord(h.c.timestamp);
    if 'l' in h.c.flags {
      NumberIsWord(h.c.limit);
    }
    FlagsAreWord(CMODES, h.c.flags);
    assert IsWord("B");
    hide Print, PrintFlagsOf;
  }

  /** The handler takes it for a list of users. */
  predicate IsUserArg(s: string) {
    s != "" && s[0] != '+' && s[0] != '%'
  }

  lemma {:induction false} TailHasNoBlank(us: seq<H.Word>, m: nat)
    ensures ' ' !in Tail(us, m)
    decreases |us|
  {
    if us != [] {
      hide UserText, Suffix, H.Modes;
      TailHasNoBlank(us[1..], H.Modes(us[0]));
    }
  }

  lemma UsersAreWord(us: seq<H.Word>)
    requires us != []
    ensures IsWord(UsersText(us)) && IsUserArg(UsersText(us))
  {
    TailHasNoBlank(us[1..], H.Modes(us[0]));
    assert UserText(us[0])[0] in UserText(us[0]);
    hide UserText, Suffix, H.Modes, Tail;
  }

  lemma SplitPlain(ws: seq<string>)
    requires (forall w | w in ws :: IsWord(w)) && |ws| <= 7
    ensures SplitLine(Sp(ws), 0) == ws
  {
    assert Sp(ws) == Sp(ws) + "";
    SplitWords(ws, "", 0);
    SplitEmpty(|ws|);
    assert ws + [] == ws;
  }

  lemma SplitWithUsers(ws: seq<string>, u: string)
    requires (forall w | w in ws :: IsWord(w)) && |ws| <= 7 && IsWord(u)
    ensures SplitLine(Sp(ws) + u, 0) == ws + [u]
  {
    SplitWords(ws, u, 0);
    SplitLast(u, |ws|);
  }

  lemma SplitWithBans(ws: seq<string>, t: string)
    requires (forall w | w in ws :: IsWord(w)) && 0 < |ws| <= 7
    ensures SplitLine(Sp(ws) + (":" + t), 0) == ws + [t]
  {
    SplitWords(ws, ":" + t, 0);
    SplitColon(t, |ws|);
  }

  lemma SplitWithBoth(ws: seq<string>, u: string, t: string)
    requires (forall w | w in ws :: IsWord(w)) && |ws| <= 7 && IsWord(u)
    ensures SplitLine(Sp(ws) + (u + " " + (":" + t)), 0) == ws + [u] + [t]
  {
    hide SplitLine, IsWord;
    SplitWords(ws, u + " " + (":" + t), 0);
    SpOne(u);
    SplitWords([u], ":" + t, |ws|);
    SplitColon(t, |ws| + 1);
  }

  /** Cutting up a printed line gives back its parameters. */
  lemma LineSplits(h: Head, k: Chunk)
    requires HeadOk(h)
    ensures SplitLine(Text(h, k), 0) == [h.me, "B"] + ArgsOf(h, k)
  {
    hide SplitLine, Print, IsWord, UsersArg, BanText, Sp;
    var ws := LeadWords(h, k.first);
    LeadAreWords(h, k.first);
    assert 4 <= |ws| <= 7;
    assert ws == [h.me, "B"] + ([h.name, Print(h.c.timestamp)] + if k.first then ModeWords(h) else []);
    UsersArgIsWord(h, k);
    ListsSplit(ws, k.users != [], UsersArg(h, k), k.bans != [], BanText(k.bans));
    hide LeadWords, ModeWords, HeadWords, HeadOk;
  }

  lemma UsersArgIsWord(h: Head, k: Chunk)
    ensures if k.users == [] then UsersArg(h, k) == "" else IsWord(UsersArg(h, k)) && IsUserArg(UsersArg(h, k))
  {
    if k.users == [] {
      EmptyUsersText();
    } else {
      UsersAreWord(k.users);
    }
    hide UsersText;
  }

  lemma FreshUsersArg(h: Head, first: bool, bans: seq<string>)
    ensures UsersArg(h, Chunk(first, [], bans)) == ""
  {
    EmptyUsersText();
  }

  /** The users `u` and bans `b` of a line behind its leading words. */
  lemma ListsSplit(ws: seq<string>, hasUsers: bool, u: string, hasBans: bool, b: string)
    requires (forall w | w in ws :: IsWord(w)) && 0 < |ws| <= 7
    requires if hasUsers then IsWord(u) else u == ""
    ensures SplitLine(Sp(ws) + u + (if !hasBans then "" else (if !hasUsers then ":%" else " :%") + b), 0)
         == ws + (if !hasUsers then [] else [u]) + (if !hasBans then [] else ["%" + b])
  {
    hide SplitLine, IsWord, Sp;
    if !hasUsers && !hasBans {
      SplitPlain(ws);
      assert Sp(ws) + u + "" == Sp(ws);
    } else if !hasUsers {
      SplitWithBans(ws, "%" + b);
      Regroup(Sp(ws), u, b);
    } else if !hasBans {
      SplitWithUsers(ws, u);
      assert Sp(ws) + u + "" == Sp(ws) + u;
    } else {
      SplitWithBoth(ws, u, "%" + b);
      Regroup(Sp(ws), u, b);
    }
  }

  lemma Regroup(s: string, u: string, b: string)
    ensures s + u + (" :%" + b) == s + (u + " " + (":" + ("%" + b)))
    ensures s + u + (if u == "" then ":%" + b else "") == if u == "" then s + (":" + ("%" + b)) else s + u
  {
  }

  lemma EmptyUsersText()
    ensures UsersText([]) == ""
  {
  }

  lemma SplitEmpty(count: nat)
    ensures SplitLine("", count) == []
  {
  }

  lemma SpOne(w: string)
    ensures Sp([w]) == w + " "
  {
    assert [w][1..] == [];
    assert Sp([w][1..]) == "";
  }
}
