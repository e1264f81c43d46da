/** Channel state and the burst message of channel/channelhandlers.c: what one BURST does to our view of a
    channel, and why the order in which bursts of one channel arrive does not matter. */
module Burst {
  import opened IrcStrings
  import opened Options
  import opened Decimal
  import opened Bans
  import opened BanLists

  const KEYLEN := 23

  /** Our view of a channel. `flags` holds mode letters, `users` maps a user numeric to its op/voice modes. */
  datatype Chan = Chan(timestamp: int, flags: set<char>, limit: int, key: Option<string>,
                       bans: seq<Ban>, users: map<nat, nat>)

  /** What the handler looks up outside the channel: the users that exist, and the ban routines. */
  datatype Env = Env(lib: Lib, known: set<nat>)

  // ---------------------------------------------------------------- mode letters

  const CMODES: string := "ntspilkmcCrDuNMT"  // cmodeflags, in table order

  predicate IsCMode(c: char) {
    match c
    case 'n' => true case 't' => true case 's' => true case 'p' => true
    case 'i' => true case 'l' => true case 'k' => true case 'm' => true
    case 'c' => true case 'C' => true case 'r' => true case 'D' => true
    case 'u' => true case 'N' => true case 'M' => true case 'T' => true
    case _ => false
  }

  /** setflags: letters switch on after '+' and off after '-'; unknown letters do nothing. */
  function SetFlags(flags: set<char>, s: string, add: bool): set<char>
    decreases |s|
  {
    if s == "" then flags
    else if s[0] == '+' then SetFlags(flags, s[1..], true)
    else if s[0] == '-' then SetFlags(flags, s[1..], false)
    else if !IsCMode(s[0]) then SetFlags(flags, s[1..], add)
    else SetFlags(if add then flags + {s[0]} else flags - {s[0]}, s[1..], add)
  }

  /** How many arguments a mode string claims behind it. */
  function ArgLetters(s: string): nat {
    if s == "" then 0 else (if s[0] == 'k' || s[0] == 'l' then 1 else 0) + ArgLetters(s[1..])
  }

  // ---------------------------------------------------------------- the list of numerics

  /** numerictab: the value of a base64 digit, 0 for anything else. */
  function Digit64(c: char): (d: nat)
    ensures d < 64
  {
    if 'A' <= c <= 'Z' then c as int - 'A' as int
    else if 'a' <= c <= 'z' then c as int - 'a' as int + 26
    else if '0' <= c <= '9' then c as int - '0' as int + 52
    else if c == '[' then 62
    else if c == ']' then 63
    else 0
  }

  /** numerictolong. */
  function NumericToLong(s: string): nat {
    if s == "" then 0 else NumericToLong(s[..|s| - 1]) * 64 + Digit64(s[|s| - 1])
  }

  function WithVoice(m: nat): nat { if m % 2 == 0 then m + 1 else m }

  function WithOp(m: nat): nat { if m < 2 then m + 2 else m }

  datatype ModeScan = ModeScan(mode: nat, used: nat)

  /** The letters behind ':' up to and including the next comma. */
  function ScanModes(s: string, m: nat): (r: ModeScan)
    ensures r.used <= |s|
  {
    if s == "" then ModeScan(m, 0)
    else if s[0] == ',' then ModeScan(m, 1)
    else
      var r := ScanModes(s[1..], if s[0] == 'v' then WithVoice(m) else if s[0] == 'o' then WithOp(m) else m);
      ModeScan(r.mode, r.used + 1)
  }

  datatype Listed = Listed(numeric: nat, mode: nat)

  /** The users of a list argument; a mode group holds until the next one. */
  function UserList(s: string, mode: nat): seq<Listed> {
    if |s| < 5 then []
    else
      var n := NumericToLong(s[..5]);
      if |s| == 5 then [Listed(n, mode)]
      else if s[5] == ',' then [Listed(n, mode)] + UserList(s[6..], mode)
      else if s[5] == ':' then
        var r := ScanModes(s[6..], 0);
        [Listed(n, r.mode)] + UserList(s[6 + r.used..], r.mode)
      else [Listed(n, mode)] + UserList(s[5..], mode)
  }

  /** addnicktochannel: unknown users and users already there are refused. */
  function AddNick(known: set<nat>, users: map<nat, nat>, u: Listed): map<nat, nat> {
    if u.numeric !in known || u.numeric in users then users else users[u.numeric := u.mode]
  }

  function AddNicks(known: set<nat>, users: map<nat, nat>, us: seq<Listed>, wipeout: bool): map<nat, nat>
    decreases |us|
  {
    if us == [] then users
    else
      AddNicks(known, AddNick(known, users, if wipeout then us[0].(mode := 0) else us[0]), us[1..], wipeout)
  }

  /** The words of a ban argument: each ends at a blank or at the end. */
  function BanWords(s: string): seq<string> {
    if s == "" then []
    else
      var k := WordLength(s);
      [s[..k]] + BanWords(s[if k < |s| then k + 1 else k..])
  }

  function WordLength(s: string): (k: nat)
    ensures k <= |s| && ' ' !in s[..k] && (k < |s| ==> s[k] == ' ')
    ensures k == |s| ==> ' ' !in s
  {
    if s == "" || s[0] == ' ' then 0
    else
      var k := 1 + WordLength(s[1..]);
      assert s[..k] == [s[0]] + s[1..][..k - 1];
      assert k == |s| ==> s == [s[0]] + s[1..];
      k
  }

  // ---------------------------------------------------------------- handleburstmsg

  /** The handler compares against the stored key whenever the flag says there is one. */
  predicate KeyStored(c: Chan) {
    'k' in c.flags ==> c.key.Some?
  }

  function Cut(s: string, n: nat): string {
    if |s| > n then s[..n] else s
  }

  function MergeLimit(c: Chan, newlimit: int): int {
    if c.limit > 0 && 'l' in c.flags then (if newlimit < c.limit then newlimit else c.limit) else newlimit
  }

  function MergeKey(c: Chan, text: string): Option<string>
    requires KeyStored(c)
  {
    if 'k' in c.flags && StrCmp(text, c.key.value) >= 0 then c.key else Some(Cut(text, KEYLEN))
  }

  /** One mode argument with what follows it: the channel, and how many arguments were used; the handler gives up
      on the whole message when one is missing. */
  datatype ModeStep = ModeStep(c: Chan, used: nat, giveup: bool)

  function ApplyModes(c: Chan, args: seq<string>): (r: ModeStep)
    requires args != [] && KeyStored(c)
    ensures r.used <= |args| && (r.giveup || (r.used > 0 && KeyStored(r.c)))
  {
    var switched := SetFlags(c.flags - {'l', 'k'}, args[0], true);
    if 'l' in switched && |args| < 2 then
      ModeStep(c.(flags := switched), 1, true)
    else
      var c1 := if 'l' in switched then c.(flags := switched, limit := MergeLimit(c, StrToL(args[1])))
                else c.(flags := if 'l' in c.flags then switched + {'l'} else switched);
      var used := if 'l' in switched then 2 else 1;
      if 'k' in switched && |args| <= used then
        ModeStep(c1, used, true)
      else if 'k' in switched then
        ModeStep(c1.(key := MergeKey(c, args[used])), used + 1, false)
      else
        ModeStep(c1.(flags := if 'k' in c.flags then c1.flags + {'k'} else c1.flags), used, false)
  }

  /** The argument loop. */
  function ApplyArgs(env: Env, c: Chan, args: seq<string>, wipeout: bool): Chan
    requires KeyStored(c)
    decreases |args|
  {
    if args == [] then c
    else if args[0] != "" && args[0][0] == '+' then
      if wipeout then
        var skip := 1 + ArgLetters(args[0]);
        ApplyArgs(env, c, if skip <= |args| then args[skip..] else [], wipeout)
      else
        var r := ApplyModes(c, args);
        if r.giveup then r.c else ApplyArgs(env, r.c, args[r.used..], wipeout)
    else if args[0] != "" && args[0][0] == '%' then
      ApplyArgs(env, c.(bans := SetBans(env.lib, c.bans, BanWords(args[0][1..]))), args[1..], wipeout)
    else
      ApplyArgs(env, c.(users := AddNicks(env.known, c.users, UserList(args[0], 0), wipeout)), args[1..], wipeout)
  }

  function StripModes(users: map<nat, nat>): map<nat, nat> {
    map n | n in users :: 0
  }

  /** createchannel, and the clearing done for an older timestamp. */
  function Opened(st: Option<Chan>, timestamp: int): Chan {
    match st
    case None => Chan(timestamp, {}, 0, None, [], map[])
    case Some(c) =>
      if timestamp < c.timestamp then Chan(timestamp, {}, 0, None, [], StripModes(c.users)) else c
  }

  ghost predicate ChanOk(st: Option<Chan>) {
    st.Some? ==> KeyStored(st.value)
  }

  /** handleburstmsg: `args` are the channel name, the timestamp and the rest; a channel left empty goes away. */
  function HandleBurst(env: Env, st: Option<Chan>, args: seq<string>): Option<Chan>
    requires ChanOk(st)
  {
    if |args| < 2 then st
    else
      var ts := StrToL(args[1]);
      var c := ApplyArgs(env, Opened(st, ts), args[2..], st.Some? && ts > st.value.timestamp);
      if c.users == map[] then None else Some(c)
  }

  // ---------------------------------------------------------------- a well-formed burst

  /** What a burst says, apart from the wording. */
  datatype Said = Said(timestamp: int, flags: set<char>, limit: int, key: string, users: map<nat, nat>, bans: seq<string>)

  /** The first mention of a user counts. */
  function Mentions(us: seq<Listed>): map<nat, nat> {
    if us == [] then map[]
    else Mentions(us[1..])[us[0].numeric := us[0].mode]
  }

  /** A mode argument that switches on `flags` and announces exactly the values that follow. */
  predicate SaysModes(s: string, flags: set<char>) {
    && s != "" && s[0] == '+' && '-' !in s
    && SetFlags({}, s, true) == flags
    && ArgLetters(s) == (if 'l' in flags then 1 else 0) + (if 'k' in flags then 1 else 0)
  }

  /** An argument that lists users, or bans behind a '%'. */
  predicate IsListArg(s: string) {
    s == "" || s[0] != '+'
  }

  predicate IsBanArg(s: string) {
    s != "" && s[0] == '%'
  }

  function ListedUsers(lists: seq<string>): seq<Listed> {
    if lists == [] then []
    else (if IsBanArg(lists[0]) then [] else UserList(lists[0], 0)) + ListedUsers(lists[1..])
  }

  function ListedBans(lists: seq<string>): seq<string> {
    if lists == [] then []
    else (if IsBanArg(lists[0]) then BanWords(lists[0][1..]) else []) + ListedBans(lists[1..])
  }

  function Says(limit: string, key: string, b: Said): seq<string> {
    (if 'l' in b.flags then [limit] else []) + (if 'k' in b.flags then [key] else [])
  }

  /** The mode argument with the values it announces; a continuation line has none. */
  function ModeArgs(modes: string, limit: string, b: Said): seq<string> {
    if modes == "" then [] else [modes] + Says(limit, b.key, b)
  }

  predicate ModesSay(modes: string, limit: string, b: Said) {
    if modes == "" then b.flags == {}
    else SaysModes(modes, b.flags) && StrToL(limit) == b.limit && |b.key| <= KEYLEN && CString(b.key)
  }

  predicate ListsSay(lists: seq<string>, b: Said) {
    && (forall l | l in lists :: IsListArg(l))
    && Mentions(ListedUsers(lists)) == b.users && ListedBans(lists) == b.bans
  }

  /** The message has these parts, and they say `b`. */
  ghost predicate BurstParts(args: seq<string>, b: Said, ts: string, modes: string, limit: string, lists: seq<string>) {
    && |args| >= 2 && args[1] == ts && args[2..] == ModeArgs(modes, limit, b) + lists
    && StrToL(ts) == b.timestamp && ModesSay(modes, limit, b) && ListsSay(lists, b)
  }

  /** The message `args` is one line of a burst, saying `b`: at most one mode argument, and then any number of lists
      of users and of bans. */
  ghost predicate IsBurst(args: seq<string>, b: Said) {
    exists ts, modes, limit, lists :: BurstParts(args, b, ts, modes, limit, lists)
  }

  /** Words with a blank behind each. */
  function BanText(words: seq<string>): string {
    if words == [] then "" else words[0] + " " + BanText(words[1..])
  }

  /** The listed users that exist and are not there yet. */
  function NewUsers(known: set<nat>, users: map<nat, nat>, listed: map<nat, nat>, wipeout: bool): map<nat, nat> {
    map n | n in listed && n in known && n !in users :: if wipeout then 0 else listed[n]
  }

  /** The effect of a well-formed burst: the older timestamp wins, equal ones merge, a newer one brings only users. */
  function Merge(env: Env, st: Option<Chan>, b: Said): Option<Chan>
    requires ChanOk(st)
  {
    var c := Opened(st, b.timestamp);
    var newer := st.Some? && b.timestamp > st.value.timestamp;
    var users := c.users + NewUsers(env.known, c.users, b.users, newer);
    var bans := SetBans(env.lib, c.bans, b.bans);
    if users == map[] then None
    else if newer then Some(c.(users := users, bans := bans))
    else
      Some(Chan(c.timestamp, c.flags + b.flags,
                if 'l' in b.flags then MergeLimit(c, b.limit) else c.limit,
                if 'k' in b.flags then MergeKey(c, b.key) else c.key,
                bans, users))
  }

  lemma {:induction false} SetFlagsAdds(flags: set<char>, base: set<char>, s: string)
    requires '-' !in s
    ensures SetFlags(flags + base, s, true) == flags + SetFlags(base, s, true)
    decreases |s|
  {
    if s != "" {
      if IsCMode(s[0]) && s[0] != '+' {
        SetFlagsAdds(flags, base + {s[0]}, s[1..]);
        assert (flags + base) + {s[0]} == flags + (base + {s[0]});
      } else {
        SetFlagsAdds(flags, base, s[1..]);
      }
    }
  }

  lemma {:induction false} AddNicksJoins(known: set<nat>, users: map<nat, nat>, us: seq<Listed>, wipeout: bool)
    ensures AddNicks(known, users, us, wipeout)
         == users + NewUsers(known, users, Mentions(us), wipeout)
    decreases |us|
  {
    if us != [] {
      var u := if wipeout then us[0].(mode := 0) else us[0];
      AddNicksJoins(known, AddNick(known, users, u), us[1..], wipeout);
    }
  }

  /** The mode argument of a burst, on a channel whose modes are not ignored. */
  lemma ModesMerge(c: Chan, modes: string, limit: string, b: Said, rest: seq<string>)
    requires KeyStored(c) && SaysModes(modes, b.flags) && StrToL(limit) == b.limit && |b.key| <= KEYLEN
    ensures var args := [modes] + Says(limit, b.key, b) + rest;
            var r := ApplyModes(c, args);
            && !r.giveup && args[r.used..] == rest
            && r.c == c.(flags := c.flags + b.flags,
                         limit := if 'l' in b.flags then MergeLimit(c, b.limit) else c.limit,
                         key := if 'k' in b.flags then MergeKey(c, b.key) else c.key)
  {
    var base := c.flags - {'l', 'k'};
    SetFlagsAdds(base, {}, modes);
    assert base + {} == base;
    var args := [modes] + Says(limit, b.key, b) + rest;
    var switched := base + b.flags;
    assert SetFlags(c.flags - {'l', 'k'}, args[0], true) == switched;
    assert c.flags + b.flags == switched + (if 'l' in c.flags then {'l'} else {}) + (if 'k' in c.flags then {'k'} else {});
    hide SetFlags, MergeLimit, MergeKey, StrToL, SaysModes;
    if 'l' in b.flags {
      assert args[1] == limit;
    }
    if 'k' in b.flags {
      assert args[if 'l' in b.flags then 2 else 1] == b.key;
    }
    assert args[1 + |Says(limit, b.key, b)|..] == rest;
  }

  lemma ApplyNone(env: Env, c: Chan, wipeout: bool)
    requires KeyStored(c)
    ensures ApplyArgs(env, c, [], wipeout) == c
  {
  }

  lemma ApplyUserArg(env: Env, c: Chan, users: string, rest: seq<string>, wipeout: bool)
    requires KeyStored(c) && IsListArg(users) && !IsBanArg(users)
    ensures ApplyArgs(env, c, [users] + rest, wipeout)
         == ApplyArgs(env, c.(users := AddNicks(env.known, c.users, UserList(users, 0), wipeout)), rest, wipeout)
  {
    assert ([users] + rest)[1..] == rest;
    hide AddNicks, UserList, ApplyModes;
  }

  lemma ApplyBanArg(env: Env, c: Chan, text: string, rest: seq<string>, wipeout: bool)
    requires KeyStored(c)
    ensures ApplyArgs(env, c, ["%" + text] + rest, wipeout)
         == ApplyArgs(env, c.(bans := SetBans(env.lib, c.bans, BanWords(text))), rest, wipeout)
  {
    var args := ["%" + text] + rest;
    assert args[1..] == rest && args[0][1..] == text && args[0][0] == '%';
    hide SetBans, BanWords, ApplyModes;
  }

  lemma TakeOrGiveUp(env: Env, c: Chan, args: seq<string>)
    requires KeyStored(c) && args != [] && args[0] != "" && args[0][0] == '+'
    ensures var r := ApplyModes(c, args);
            ApplyArgs(env, c, args, false) == if r.giveup then r.c else ApplyArgs(env, r.c, args[r.used..], false)
  {
    hide ApplyModes;
  }

  lemma SkipModeArg(env: Env, c: Chan, args: seq<string>)
    requires KeyStored(c) && args != [] && args[0] != "" && args[0][0] == '+'
    requires 1 + ArgLetters(args[0]) <= |args|
    ensures ApplyArgs(env, c, args, true) == ApplyArgs(env, c, args[1 + ArgLetters(args[0])..], true)
  {
    hide ApplyModes, ArgLetters, UserList, BanWords, AddNicks, SetBans;
    assert args[0] != "" && args[0][0] == '+';
  }

  lemma {:induction false} AddNicksJoin(known: set<nat>, users: map<nat, nat>, us: seq<Listed>, vs: seq<Listed>, wipeout: bool)
    ensures AddNicks(known, AddNicks(known, users, us, wipeout), vs, wipeout) == AddNicks(known, users, us + vs, wipeout)
    decreases |us|
  {
    if us == [] {
      assert us + vs == vs;
    } else {
      assert (us + vs)[1..] == us[1..] + vs;
      AddNicksJoin(known, AddNick(known, users, if wipeout then us[0].(mode := 0) else us[0]), us[1..], vs, wipeout);
    }
  }

  lemma {:induction false} SetBansJoin(lib: Lib, bans: seq<Ban>, a: seq<string>, b: seq<string>)
    ensures SetBans(lib, SetBans(lib, bans, a), b) == SetBans(lib, bans, a + b)
    decreases |a|
  {
    hide SetBanIn, BanOf;
    if a == [] {
      assert a + b == b;
    } else {
      assert (a + b)[1..] == a[1..] + b;
      SetBansJoin(lib, SetBanIn(bans, BanOf(lib, a[0])), a[1..], b);
    }
  }

  /** The list arguments add up. */
  lemma {:induction false} ListsApply(env: Env, c: Chan, lists: seq<string>, wipeout: bool)
    requires KeyStored(c) && forall l | l in lists :: IsListArg(l)
    ensures ApplyArgs(env, c, lists, wipeout)
         == c.(users := AddNicks(env.known, c.users, ListedUsers(lists), wipeout),
               bans := SetBans(env.lib, c.bans, ListedBans(lists)))
    decreases |lists|
  {
    hide ApplyArgs, UserList, BanWords;
    if lists == [] {
      ApplyNone(env, c, wipeout);
    } else {
      var l, rest := lists[0], lists[1..];
      assert lists == [l] + rest;
      if IsBanArg(l) {
        var c1 := c.(bans := SetBans(env.lib, c.bans, BanWords(l[1..])));
        assert l == "%" + l[1..];
        ApplyBanArg(env, c, l[1..], rest, wipeout);
        ListsApply(env, c1, rest, wipeout);
        SetBansJoin(env.lib, c.bans, BanWords(l[1..]), ListedBans(rest));
        assert ListedUsers(lists) == [] + ListedUsers(rest) == ListedUsers(rest);
      } else {
        var c1 := c.(users := AddNicks(env.known, c.users, UserList(l, 0), wipeout));
        ApplyUserArg(env, c, l, rest, wipeout);
        ListsApply(env, c1, rest, wipeout);
        AddNicksJoin(env.known, c.users, UserList(l, 0), ListedUsers(rest), wipeout);
        assert ListedBans(lists) == [] + ListedBans(rest) == ListedBans(rest);
      }
      hide AddNicks, SetBans;
    }
  }

  lemma ListsJoin(env: Env, c: Chan, lists: seq<string>, b: Said, wipeout: bool)
    requires KeyStored(c) && ListsSay(lists, b)
    ensures ApplyArgs(env, c, lists, wipeout)
         == c.(users := c.users + NewUsers(env.known, c.users, b.users, wipeout), bans := SetBans(env.lib, c.bans, b.bans))
  {
    hide ApplyArgs, ListedUsers, ListedBans, AddNicks, Mentions, NewUsers, SetBans;
    ListsApply(env, c, lists, wipeout);
    AddNicksJoins(env.known, c.users, ListedUsers(lists), wipeout);
  }

  lemma NewerApplies(env: Env, c: Chan, modes: string, limit: string, lists: seq<string>, b: Said)
    requires KeyStored(c) && ModesSay(modes, limit, b) && ListsSay(lists, b)
    ensures ApplyArgs(env, c, ModeArgs(modes, limit, b) + lists, true)
         == c.(users := c.users + NewUsers(env.known, c.users, b.users, true), bans := SetBans(env.lib, c.bans, b.bans))
  {
    hide ApplyArgs, NewUsers, SetBans, SetFlags, ListsSay, StrToL, CString;
    var args := ModeArgs(modes, limit, b) + lists;
    ListsJoin(env, c, lists, b, true);
    if modes == "" {
      assert args == lists;
    } else {
      assert args[1 + ArgLetters(modes)..] == lists;
      SkipModeArg(env, c, args);
    }
  }

  lemma OlderApplies(env: Env, c: Chan, modes: string, limit: string, lists: seq<string>, b: Said)
    requires KeyStored(c) && ModesSay(modes, limit, b) && ListsSay(lists, b)
    ensures ApplyArgs(env, c, ModeArgs(modes, limit, b) + lists, false)
         == Chan(c.timestamp, c.flags + b.flags,
                 if 'l' in b.flags then MergeLimit(c, b.limit) else c.limit,
                 if 'k' in b.flags then MergeKey(c, b.key) else c.key,
                 SetBans(env.lib, c.bans, b.bans),
                 c.users + NewUsers(env.known, c.users, b.users, false))
  {
    hide ApplyArgs, ApplyModes, NewUsers, SetBans, SaysModes, ListsSay, Says, MergeLimit, MergeKey, StrToL, CString;
    if modes == "" {
      ListsJoin(env, c, lists, b, false);
      assert ModeArgs(modes, limit, b) + lists == lists && c.flags + {} == c.flags;
    } else {
      var args := [modes] + Says(limit, b.key, b) + lists;
      assert args[0] == modes;
      ModesMerge(c, modes, limit, b, lists);
      SayingPlus(modes, b.flags);
      TakeOrGiveUp(env, c, args);
      ListsJoin(env, ApplyModes(c, args).c, lists, b, false);
    }
  }

  lemma SayingPlus(modes: string, flags: set<char>)
    requires SaysModes(modes, flags)
    ensures modes != "" && modes[0] == '+'
  {
  }

  /** What the handler makes of a line of a burst is its merge with what was there. */
  lemma BurstMerges(env: Env, st: Option<Chan>, args: seq<string>, b: Said)
    requires ChanOk(st) && IsBurst(args, b)
    ensures HandleBurst(env, st, args) == Merge(env, st, b)
  {
    hide ApplyArgs, NewUsers, SetBans, ModesSay, ListsSay, MergeLimit, MergeKey, StrToL, StripModes;
    var ts, modes, limit, lists :| BurstParts(args, b, ts, modes, limit, lists);
    var c := Opened(st, b.timestamp);
    if st.Some? && b.timestamp > st.value.timestamp {
      NewerApplies(env, c, modes, limit, lists, b);
    } else {
      OlderApplies(env, c, modes, limit, lists, b);
    }
  }

  // ---------------------------------------------------------------- what one line leaves

  /** It names a user that exists. */
  predicate Joins(env: Env, b: Said) {
    exists n | n in b.users :: n in env.known
  }

  /** Modes, limit and key are those of the burst alone. */
  predicate ModesTaken(r: Chan, b: Said) {
    && r.flags == b.flags
    && r.limit == (if 'l' in b.flags then b.limit else 0)
    && r.key == if 'k' in b.flags then Some(b.key) else None
  }

  /** Modes, limit and key are as they were. */
  predicate ModesKept(r: Chan, c: Chan) {
    r.flags == c.flags && r.limit == c.limit && r.key == c.key
  }

  /** All flags of both; of two limits the smaller, of two keys the alphabetically first. */
  ghost predicate ModesJoined(r: Chan, c: Chan, b: Said) {
    && (forall f :: f in r.flags <==> f in c.flags || f in b.flags)
    && (if 'l' !in b.flags then r.limit == c.limit
        else if 'l' in c.flags && c.limit > 0 then r.limit in {b.limit, c.limit} && r.limit <= b.limit && r.limit <= c.limit
        else r.limit == b.limit)
    && (if 'k' !in b.flags then r.key == c.key
        else if 'k' in c.flags && c.key.Some? then r.key == if StrCmp(b.key, c.key.value) < 0 then Some(b.key) else c.key
        else r.key == Some(b.key))
  }

  /** Those who were there and those who come and exist are there. Who was there has the modes it had, unless they are
      cleared; who comes has those of the burst, unless it is not to bring any. */
  ghost predicate UsersJoined(env: Env, r: Chan, before: map<nat, nat>, b: Said, clear: bool, newer: bool) {
    && (forall n :: n in r.users <==> n in before || (n in b.users && n in env.known))
    && (forall n | n in r.users ::
          if n in before then r.users[n] == if clear then 0 else before[n]
          else r.users[n] == if newer then 0 else b.users[n])
  }

  /** What a line leaves of the channel `c` it meets: an older timestamp clears modes, key, limit, bans and all op and voice,
      an equal one joins everything, and a newer one brings only bans, and users without modes. */
  ghost predicate LeftOf(env: Env, c: Chan, b: Said, r: Chan) {
    if b.timestamp < c.timestamp then
      && r.timestamp == b.timestamp && ModesTaken(r, b)
      && r.bans == SetBans(env.lib, [], b.bans) && UsersJoined(env, r, c.users, b, true, false)
    else if b.timestamp == c.timestamp then
      && r.timestamp == c.timestamp && ModesJoined(r, c, b)
      && r.bans == SetBans(env.lib, c.bans, b.bans) && UsersJoined(env, r, c.users, b, false, false)
    else
      && r.timestamp == c.timestamp && ModesKept(r, c)
      && r.bans == SetBans(env.lib, c.bans, b.bans) && UsersJoined(env, r, c.users, b, false, true)
  }

  /** The channel a line opens. */
  ghost predicate OpenedBy(env: Env, b: Said, r: Chan) {
    && r.timestamp == b.timestamp && ModesTaken(r, b)
    && r.bans == SetBans(env.lib, [], b.bans) && UsersJoined(env, r, map[], b, false, false)
  }

  /** What the handler leaves, field by field; without a channel before and without a user who exists there is none. */
  lemma BurstLeaves(env: Env, st: Option<Chan>, args: seq<string>, b: Said)
    requires ChanOk(st) && IsBurst(args, b)
    ensures var r := HandleBurst(env, st, args);
            && (r == None <==> !Joins(env, b) && (st.None? || st.value.users == map[]))
            && (r.Some? ==> if st.None? then OpenedBy(env, b, r.value) else LeftOf(env, st.value, b, r.value))
  {
    BurstMerges(env, st, args, b);
    BurstKey(args, b);
    hide HandleBurst, IsBurst, SetBans, Joins;
    SomebodyLeft(env, st, b);
    var r := Merge(env, st, b);
    if r.Some? {
      if st.None? {
        MergeOpens(env, b);
      } else {
        MergeLeaves(env, st.value, b);
      }
    }
  }

  lemma BurstKey(args: seq<string>, b: Said)
    requires IsBurst(args, b)
    ensures 'k' in b.flags ==> |b.key| <= KEYLEN
  {
    hide ListsSay, SaysModes, StrToL;
    var ts, modes, limit, lists :| BurstParts(args, b, ts, modes, limit, lists);
  }

  lemma SomebodyLeft(env: Env, st: Option<Chan>, b: Said)
    requires ChanOk(st)
    ensures Merge(env, st, b) == None <==> !Joins(env, b) && (st.None? || st.value.users == map[])
  {
    hide SetBans, MergeKey, MergeLimit;
    var c := Opened(st, b.timestamp);
    var users := c.users + NewUsers(env.known, c.users, b.users, st.Some? && b.timestamp > st.value.timestamp);
    if Joins(env, b) {
      var n :| n in b.users && n in env.known;
      assert n in users;
    }
    if st.Some? && st.value.users != map[] {
      var n :| n in st.value.users;
      assert n in users;
    }
    if !Joins(env, b) && (st.None? || st.value.users == map[]) {
      assert users.Keys == {};
    }
  }

  lemma MergeOpens(env: Env, b: Said)
    requires ('k' in b.flags ==> |b.key| <= KEYLEN) && Merge(env, None, b).Some?
    ensures OpenedBy(env, b, Merge(env, None, b).value)
  {
    hide SetBans, StrCmp;
    assert {} + b.flags == b.flags;
  }

  lemma MergeLeaves(env: Env, c: Chan, b: Said)
    requires KeyStored(c) && ('k' in b.flags ==> |b.key| <= KEYLEN) && Merge(env, Some(c), b).Some?
    ensures LeftOf(env, c, b, Merge(env, Some(c), b).value)
  {
    hide SetBans, StrCmp;
    assert {} + b.flags == b.flags;
  }

  // ---------------------------------------------------------------- convergence

  /** A limit that is set is positive, and the key fits. */
  predicate Proper(b: Said) {
    ('l' in b.flags ==> b.limit > 0) && |b.key| <= KEYLEN && CString(b.key)
  }

  /** Why the first one must: a burst that opens a channel is lost exactly when it brings nobody. */
  lemma NobodyOpens(env: Env, b: Said)
    ensures Merge(env, None, b) == None <==> !Joins(env, b)
  {
    hide SetBans, MergeKey, MergeLimit;
    var users := map[] + NewUsers(env.known, map[], b.users, false);
    if Joins(env, b) {
      var n :| n in b.users && n in env.known;
      assert n in users;
    } else {
      assert users.Keys == {};
    }
  }

  predicate DisjointUsers(bs: seq<Said>) {
    forall i, j | 0 <= i < j < |bs| :: bs[i].users.Keys !! bs[j].users.Keys
  }

  predicate AllProper(bs: seq<Said>) {
    forall b | b in bs :: Proper(b)
  }

  /** The bursts applied one after the other to a channel we have not seen. */
  function MergeAll(env: Env, bs: seq<Said>): (st: Option<Chan>)
    ensures ChanOk(st)
  {
    if bs == [] then None else Merge(env, MergeAll(env, bs[..|bs| - 1]), bs[|bs| - 1])
  }

  /** The bursts that decide the modes: those with the smallest timestamp. */
  predicate Decides(bs: seq<Said>, ts: int, b: Said) {
    b in bs && b.timestamp == ts
  }

  /** `c` is the merge of `bs`, said without any order. */
  ghost predicate IsMergeOf(env: Env, bs: seq<Said>, c: Chan) {
    && (exists b | b in bs :: b.timestamp == c.timestamp)
    && (forall b | b in bs :: c.timestamp <= b.timestamp)
    && FlagsOf(bs, c)
    && LimitOf(bs, c)
    && KeyOf(bs, c)
    && UsersOf(env, bs, c)
  }

  ghost predicate FlagsOf(bs: seq<Said>, c: Chan) {
    forall f :: f in c.flags <==> exists b :: Decides(bs, c.timestamp, b) && f in b.flags
  }

  /** The smallest limit of the deciding bursts that set one. */
  ghost predicate LimitOf(bs: seq<Said>, c: Chan) {
    if 'l' in c.flags then
      && (exists b :: Decides(bs, c.timestamp, b) && 'l' in b.flags && b.limit == c.limit)
      && (forall b :: Decides(bs, c.timestamp, b) && 'l' in b.flags ==> c.limit <= b.limit)
    else c.limit == 0
  }

  /** The alphabetically first key of the deciding bursts that set one. */
  ghost predicate KeyOf(bs: seq<Said>, c: Chan) {
    if 'k' in c.flags then
      && c.key.Some? && CString(c.key.value)
      && (exists b :: Decides(bs, c.timestamp, b) && 'k' in b.flags && b.key == c.key.value)
      && (forall b :: Decides(bs, c.timestamp, b) && 'k' in b.flags ==> StrCmp(c.key.value, b.key) <= 0)
    else c.key == None
  }

  /** Everybody who exists is there, with modes only from the deciding bursts. */
  ghost predicate UsersOf(env: Env, bs: seq<Said>, c: Chan) {
    && (forall n :: n in c.users <==> n in env.known && exists b | b in bs :: n in b.users)
    && (forall b, n | b in bs && n in b.users && n in env.known ::
          n in c.users && c.users[n] == if b.timestamp == c.timestamp then b.users[n] else 0)
  }

  /** The order-free description leaves no choice, except how the key is capitalised. */
  lemma MergeIsUnique(env: Env, bs: seq<Said>, cs: seq<Said>, c: Chan, d: Chan)
    requires forall b :: b in bs <==> b in cs
    requires forall b | b in bs :: CString(b.key)
    requires IsMergeOf(env, bs, c) && IsMergeOf(env, cs, d)
    ensures c.timestamp == d.timestamp && c.flags == d.flags && c.limit == d.limit && c.users == d.users
    ensures c.key.Some? == d.key.Some? && (c.key.Some? ==> SameText(c.key.value, d.key.value))
  {
    assert c.timestamp == d.timestamp;
    assert forall b :: Decides(bs, c.timestamp, b) <==> Decides(cs, d.timestamp, b);
    assert c.flags == d.flags by {
      hide LimitOf, KeyOf, UsersOf, Decides;
    }
    assert c.limit == d.limit by {
      hide KeyOf, UsersOf, Decides;
    }
    SameUsers(env, bs, cs, c, d);
    if 'k' in c.flags {
      SameKey(bs, cs, c, d);
    }
  }

  lemma SameUsers(env: Env, bs: seq<Said>, cs: seq<Said>, c: Chan, d: Chan)
    requires forall b :: b in bs <==> b in cs
    requires UsersOf(env, bs, c) && UsersOf(env, cs, d) && c.timestamp == d.timestamp
    ensures c.users == d.users
  {
    assert c.users.Keys == d.users.Keys;
    forall n | n in c.users
      ensures c.users[n] == d.users[n]
    {
      var b :| b in bs && n in b.users;
    }
  }

  lemma SameKey(bs: seq<Said>, cs: seq<Said>, c: Chan, d: Chan)
    requires 'k' in c.flags && 'k' in d.flags && KeyOf(bs, c) && KeyOf(cs, d)
    requires forall b :: Decides(bs, c.timestamp, b) <==> Decides(cs, d.timestamp, b)
    ensures SameText(c.key.value, d.key.value)
  {
    StrCmpReverse(c.key.value, d.key.value);
    StrCmpZero(c.key.value, d.key.value);
    hide StrCmp, SameText, Decides;
  }

  /** A burst whose users are nobody's yet. */
  predicate FreshUsers(bs: seq<Said>, b: Said) {
    forall x | x in bs :: x.users.Keys !! b.users.Keys
  }

  /** The channel after a burst that opened it or was older than all before. */
  lemma OldestDecides(env: Env, bs: seq<Said>, b: Said, d: Chan)
    requires Proper(b) && forall x | x in bs :: b.timestamp < x.timestamp
    requires d.timestamp == b.timestamp && d.flags == b.flags
    requires d.limit == if 'l' in b.flags then b.limit else 0
    requires d.key == if 'k' in b.flags then Some(b.key) else None
    requires UsersOf(env, bs + [b], d)
    ensures IsMergeOf(env, bs + [b], d)
  {
    var cs := bs + [b];
    assert b in cs;
    assert forall x :: Decides(cs, d.timestamp, x) <==> x == b;
    hide UsersOf, Decides, Proper;
    SameCompares(b.key);
    assert Proper(b) ==> CString(b.key);
  }

  lemma SameCompares(s: string)
    ensures StrCmp(s, s) == 0
  {
    StrCmpReverse(s, s);
  }

  lemma UsersStep(env: Env, bs: seq<Said>, b: Said, c: Chan, d: Chan)
    requires UsersOf(env, bs, c) && FreshUsers(bs, b)
    requires d.timestamp == if b.timestamp < c.timestamp then b.timestamp else c.timestamp
    requires forall x | x in bs :: c.timestamp <= x.timestamp
    requires d.users == (if b.timestamp < c.timestamp then StripModes(c.users) else c.users)
                        + NewUsers(env.known, c.users, b.users, b.timestamp > c.timestamp)
    ensures UsersOf(env, bs + [b], d)
  {
    var cs := bs + [b];
    assert forall x :: x in cs <==> x in bs || x == b;
    forall n
      ensures n in d.users <==> n in env.known && exists x | x in cs :: n in x.users
    {
      if n in env.known && n in b.users {
        assert b in cs;
      }
      if n in c.users {
        var x :| x in bs && n in x.users;
        assert x in cs;
      }
    }
    forall x, n | x in cs && n in x.users && n in env.known
      ensures n in d.users && d.users[n] == if x.timestamp == d.timestamp then x.users[n] else 0
    {
      if x in bs {
        assert n in c.users && n !in b.users;
      }
    }
  }

  lemma EqualMerges(env: Env, bs: seq<Said>, b: Said, c: Chan, d: Chan)
    requires IsMergeOf(env, bs, c) && KeyStored(c) && Proper(b) && b.timestamp == c.timestamp
    requires AllProper(bs)
    requires d.timestamp == c.timestamp && d.flags == c.flags + b.flags
    requires d.limit == if 'l' in b.flags then MergeLimit(c, b.limit) else c.limit
    requires d.key == if 'k' in b.flags then MergeKey(c, b.key) else c.key
    requires UsersOf(env, bs + [b], d)
    ensures IsMergeOf(env, bs + [b], d)
  {
    hide UsersOf, Decides, MergeLimit, MergeKey, Proper, FlagsOf, LimitOf, KeyOf, AllProper, CString;
    EqualDecides(bs, b, c.timestamp);
    EqualFlags(bs, b, c, d);
    EqualLimit(env, bs, b, c, d);
    EqualKey(env, bs, b, c, d);
    var cs := bs + [b];
    assert b in cs && forall x :: x in cs <==> x in bs || x == b;
  }

  lemma EqualDecides(bs: seq<Said>, b: Said, ts: int)
    requires b.timestamp == ts
    ensures forall x :: Decides(bs + [b], ts, x) <==> Decides(bs, ts, x) || x == b
  {
  }

  lemma EqualFlags(bs: seq<Said>, b: Said, c: Chan, d: Chan)
    requires FlagsOf(bs, c) && d.flags == c.flags + b.flags
    requires forall x :: Decides(bs + [b], d.timestamp, x) <==> Decides(bs, c.timestamp, x) || x == b
    ensures FlagsOf(bs + [b], d)
  {
    assert Decides(bs + [b], d.timestamp, b);
    hide Decides;
  }

  lemma EqualLimit(env: Env, bs: seq<Said>, b: Said, c: Chan, d: Chan)
    requires LimitOf(bs, c) && AllProper(bs) && Proper(b)
    requires forall x :: Decides(bs + [b], d.timestamp, x) <==> Decides(bs, c.timestamp, x) || x == b
    requires d.flags == c.flags + b.flags
    requires d.limit == if 'l' in b.flags then MergeLimit(c, b.limit) else c.limit
    requires FlagsOf(bs, c)
    ensures LimitOf(bs + [b], d)
  {
    if 'l' in c.flags {
      var x :| Decides(bs, c.timestamp, x) && 'l' in x.flags && x.limit == c.limit;
      assert Proper(x);
      assert Decides(bs + [b], d.timestamp, x);
    }
    assert Decides(bs + [b], d.timestamp, b);
    assert 'l' !in c.flags ==> forall x | Decides(bs, c.timestamp, x) :: 'l' !in x.flags;
  }

  lemma EqualKey(env: Env, bs: seq<Said>, b: Said, c: Chan, d: Chan)
    requires KeyOf(bs, c) && KeyStored(c) && AllProper(bs) && Proper(b)
    requires forall x :: Decides(bs + [b], d.timestamp, x) <==> Decides(bs, c.timestamp, x) || x == b
    requires d.flags == c.flags + b.flags
    requires d.key == if 'k' in b.flags then MergeKey(c, b.key) else c.key
    requires FlagsOf(bs, c)
    ensures KeyOf(bs + [b], d)
  {
    assert Decides(bs + [b], d.timestamp, b);
    SameCompares(b.key);
    if 'k' in c.flags {
      var x :| Decides(bs, c.timestamp, x) && 'k' in x.flags && x.key == c.key.value;
      assert Decides(bs + [b], d.timestamp, x);
      SameCompares(c.key.value);
      StrCmpReverse(b.key, c.key.value);
      forall y | Decides(bs, c.timestamp, y) && 'k' in y.flags
        ensures StrCmp(b.key, c.key.value) < 0 ==> StrCmp(b.key, y.key) <= 0
      {
        assert Proper(y);
        StrCmpTransitive(b.key, c.key.value, y.key);
      }
    } else {
      assert forall x | Decides(bs, c.timestamp, x) :: 'k' !in x.flags;
    }
    hide StrCmp;
  }

  lemma NewerMerges(env: Env, bs: seq<Said>, b: Said, c: Chan, d: Chan)
    requires IsMergeOf(env, bs, c) && b.timestamp > c.timestamp
    requires d.timestamp == c.timestamp && d.flags == c.flags && d.limit == c.limit && d.key == c.key
    requires UsersOf(env, bs + [b], d)
    ensures IsMergeOf(env, bs + [b], d)
  {
    var cs := bs + [b];
    assert forall x :: Decides(cs, d.timestamp, x) <==> Decides(bs, c.timestamp, x);
    hide UsersOf, Decides;
    assert exists x | x in cs :: x.timestamp == d.timestamp;
  }

  lemma NobodyYet(env: Env, b: Said, d: Chan)
    requires d.timestamp == b.timestamp && d.users == map[] + NewUsers(env.known, map[], b.users, false)
    ensures UsersOf(env, [] + [b], d)
  {
    var cs: seq<Said> := [] + [b];
    assert b in cs;
    assert forall x :: x in cs <==> x == b;
  }

  /** Applying one more burst keeps the order-free description, and the channel stays; only the first one must bring a
      user. */
  lemma MergeStep(env: Env, bs: seq<Said>, b: Said, st: Option<Chan>)
    requires ChanOk(st) && Proper(b) && AllProper(bs) && FreshUsers(bs, b)
    requires if bs == [] then st == None && Joins(env, b)
             else st.Some? && st.value.users != map[] && IsMergeOf(env, bs, st.value)
    ensures var r := Merge(env, st, b); r.Some? && r.value.users != map[] && IsMergeOf(env, bs + [b], r.value)
  {
    hide SetBans, IsMergeOf, UsersOf;
    var r := Merge(env, st, b);
    if st == None {
      var n :| n in b.users && n in env.known;
      SomebodyJoins(env, map[], b, false, n);
      NobodyYet(env, b, r.value);
      OldestDecides(env, [], b, r.value);
    } else {
      var c := st.value;
      var was := if b.timestamp < c.timestamp then StripModes(c.users) else c.users;
      assert was.Keys == c.users.Keys;
      SameNewUsers(env, was, c.users, b, b.timestamp > c.timestamp);
      var n :| n in c.users;
      assert n in was + NewUsers(env.known, was, b.users, b.timestamp > c.timestamp);
      DescribedParts(env, bs, c);
      UsersStep(env, bs, b, c, r.value);
      if b.timestamp < c.timestamp {
        OldestDecides(env, bs, b, r.value);
      } else if b.timestamp == c.timestamp {
        EqualMerges(env, bs, b, c, r.value);
      } else {
        NewerMerges(env, bs, b, c, r.value);
      }
    }
  }

  lemma DescribedParts(env: Env, bs: seq<Said>, c: Chan)
    requires IsMergeOf(env, bs, c)
    ensures UsersOf(env, bs, c) && forall x | x in bs :: c.timestamp <= x.timestamp
  {
  }

  lemma SameNewUsers(env: Env, a: map<nat, nat>, b: map<nat, nat>, said: Said, wipeout: bool)
    requires a.Keys == b.Keys
    ensures NewUsers(env.known, a, said.users, wipeout) == NewUsers(env.known, b, said.users, wipeout)
  {
    assert forall n :: n in a <==> n in a.Keys;
    assert forall n :: n in b <==> n in b.Keys;
  }

  lemma SomebodyJoins(env: Env, users: map<nat, nat>, b: Said, wipeout: bool, n: nat)
    requires n in b.users && n in env.known
    ensures n in users + NewUsers(env.known, users, b.users, wipeout)
  {
  }

  lemma {:induction false} MergeAllDescribed(env: Env, bs: seq<Said>)
    requires AllProper(bs) && DisjointUsers(bs) && (bs != [] ==> Joins(env, bs[0]))
    ensures if bs == [] then MergeAll(env, bs) == None
            else MergeAll(env, bs).Some? && MergeAll(env, bs).value.users != map[] && IsMergeOf(env, bs, MergeAll(env, bs).value)
  {
    if bs != [] {
      var rest, b := bs[..|bs| - 1], bs[|bs| - 1];
      LastIsFresh(bs);
      assert bs == rest + [b];
      assert AllProper(rest) && Proper(b);
      hide Merge, IsMergeOf, Proper, Joins, DisjointUsers, AllProper, FreshUsers;
      MergeAllDescribed(env, rest);
      MergeStep(env, rest, b, MergeAll(env, rest));
    }
  }

  lemma LastIsFresh(bs: seq<Said>)
    requires bs != [] && DisjointUsers(bs)
    ensures DisjointUsers(bs[..|bs| - 1]) && FreshUsers(bs[..|bs| - 1], bs[|bs| - 1])
  {
  }

  lemma {:induction false} TwoOccurrences<T>(s: seq<T>, x: T) returns (i: nat, j: nat)
    requires multiset(s)[x] >= 2
    ensures i < j < |s| && s[i] == x && s[j] == x
  {
    assert s == [s[0]] + s[1..];
    if s[0] == x {
      assert multiset(s[1..])[x] >= 1;
      var k :| 0 <= k < |s[1..]| && s[1..][k] == x;
      i, j := 0, k + 1;
    } else {
      i, j := TwoOccurrences(s[1..], x);
      i, j := i + 1, j + 1;
    }
  }

  lemma {:induction false} CountTwo<T>(s: seq<T>, i: nat, j: nat)
    requires i < j < |s| && s[i] == s[j]
    ensures multiset(s)[s[i]] >= 2
  {
    assert s == s[..j] + [s[j]] + s[j + 1..];
    assert s[i] in s[..j];
  }

  /** Disjointness does not depend on the order. */
  lemma DisjointInAnyOrder(bs: seq<Said>, cs: seq<Said>)
    requires multiset(bs) == multiset(cs) && AllProper(bs) && DisjointUsers(bs)
    ensures AllProper(cs) && DisjointUsers(cs)
  {
    assert forall b :: b in bs <==> b in multiset(bs);
    assert forall b :: b in cs <==> b in multiset(cs);
    hide Proper;
    forall i, j | 0 <= i < j < |cs|
      ensures cs[i].users.Keys !! cs[j].users.Keys
    {
      assert cs[i] in multiset(cs) && cs[j] in multiset(cs);
      if cs[i] == cs[j] {
        CountTwo(cs, i, j);
        var k, l := TwoOccurrences(bs, cs[i]);
        assert bs[k].users.Keys !! bs[l].users.Keys;
      } else {
        var k :| 0 <= k < |bs| && bs[k] == cs[i];
        var l :| 0 <= l < |bs| && bs[l] == cs[j];
        assert bs[if k < l then k else l].users.Keys !! bs[if k < l then l else k].users.Keys;
      }
    }
  }

  /** Bursts of one channel with disjoint users give the same channel in every order in which the first one brings a
      user: the same timestamp, flags, limit and users with modes, and the same key up to case. */
  lemma BurstsConverge(env: Env, bs: seq<Said>, cs: seq<Said>)
    requires multiset(bs) == multiset(cs) && bs != [] && cs != [] && Joins(env, bs[0]) && Joins(env, cs[0])
    requires AllProper(bs) && DisjointUsers(bs)
    ensures MergeAll(env, bs).Some? && MergeAll(env, cs).Some?
    ensures SameChannel(MergeAll(env, bs).value, MergeAll(env, cs).value)
    ensures IsMergeOf(env, bs, MergeAll(env, bs).value)
  {
    assert forall b :: b in bs <==> b in multiset(bs);
    assert forall b :: b in cs <==> b in multiset(cs);
    DisjointInAnyOrder(bs, cs);
    MergeAllDescribed(env, bs);
    MergeAllDescribed(env, cs);
    forall b | b in bs
      ensures CString(b.key)
    {
      assert Proper(b);
    }
    hide IsMergeOf, SameText, CString, DisjointUsers, MergeAll;
    MergeIsUnique(env, bs, cs, MergeAll(env, bs).value, MergeAll(env, cs).value);
  }

  predicate SameChannel(c: Chan, d: Chan) {
    && c.timestamp == d.timestamp && c.flags == d.flags && c.limit == d.limit && c.users == d.users
    && c.key.Some? == d.key.Some?
    && (c.key.Some? ==> SameText(c.key.value, d.key.value))
  }

  // ---------------------------------------------------------------- lines of several servers

  /** One line of a burst, and what it says. */
  datatype Line = Line(args: seq<string>, said: Said)

  ghost predicate AllBursts(ls: seq<Line>) {
    forall l | l in ls :: IsBurst(l.args, l.said)
  }

  function Saids(ls: seq<Line>): (bs: seq<Said>)
    ensures |bs| == |ls| && forall i | 0 <= i < |ls| :: bs[i] == ls[i].said
  {
    seq(|ls|, i requires 0 <= i < |ls| => ls[i].said)
  }

  /** The lines handled one after the other. */
  ghost function HandleAll(env: Env, ls: seq<Line>): (st: Option<Chan>)
    requires AllBursts(ls)
    ensures st == MergeAll(env, Saids(ls))
  {
    if ls == [] then None
    else
      var init, last := ls[..|ls| - 1], ls[|ls| - 1];
      var st := HandleAll(env, init);
      assert Saids(ls)[..|ls| - 1] == Saids(init);
      BurstMerges(env, st, last.args, last.said);
      HandleBurst(env, st, last.args)
  }

  /** The lines `ls` are those of the servers `ss`, each server's in its order. */
  predicate Interleaves(ss: seq<seq<Line>>, ls: seq<Line>)
    decreases |ls|
  {
    if ls == [] then forall s | s in ss :: s == []
    else exists i | 0 <= i < |ss| :: ss[i] != [] && ss[i][0] == ls[0] && Interleaves(ss[i := ss[i][1..]], ls[1..])
  }

  function Flatten(ss: seq<seq<Line>>): seq<Line> {
    if ss == [] then [] else ss[0] + Flatten(ss[1..])
  }

  lemma {:induction false} FlattenEmpty(ss: seq<seq<Line>>)
    requires forall s | s in ss :: s == []
    ensures Flatten(ss) == []
  {
    if ss != [] {
      assert ss[0] in ss && forall s | s in ss[1..] :: s in ss;
      FlattenEmpty(ss[1..]);
    }
  }

  lemma {:induction false} FlattenWithout(ss: seq<seq<Line>>, i: nat)
    requires i < |ss| && ss[i] != []
    ensures multiset(Flatten(ss)) == multiset([ss[i][0]]) + multiset(Flatten(ss[i := ss[i][1..]]))
  {
    var ts := ss[i := ss[i][1..]];
    if i == 0 {
      assert ts[1..] == ss[1..] && ss[0] == [ss[0][0]] + ts[0];
      assert Flatten(ss) == [ss[0][0]] + (ts[0] + Flatten(ts[1..]));
    } else {
      assert ts[1..] == ss[1..][i - 1 := ss[i][1..]] && ts[0] == ss[0];
      FlattenWithout(ss[1..], i - 1);
    }
  }

  lemma {:induction false} InterleavedLines(ss: seq<seq<Line>>, ls: seq<Line>)
    requires Interleaves(ss, ls)
    ensures multiset(ls) == multiset(Flatten(ss))
    ensures ls != [] ==> exists i | 0 <= i < |ss| :: ss[i] != [] && ss[i][0] == ls[0]
    decreases |ls|
  {
    if ls == [] {
      FlattenEmpty(ss);
    } else {
      var i :| 0 <= i < |ss| && ss[i] != [] && ss[i][0] == ls[0] && Interleaves(ss[i := ss[i][1..]], ls[1..]);
      InterleavedLines(ss[i := ss[i][1..]], ls[1..]);
      FlattenWithout(ss, i);
      assert ls == [ls[0]] + ls[1..];
    }
  }

  lemma {:induction false} SaidsCount(ls: seq<Line>, ks: seq<Line>)
    requires multiset(ls) == multiset(ks)
    ensures multiset(Saids(ls)) == multiset(Saids(ks))
    decreases |ls|
  {
    if ls == [] {
      assert |multiset(ks)| == 0;
      assert ks == [];
    } else {
      assert ls[0] in multiset(ks);
      var i :| 0 <= i < |ks| && ks[i] == ls[0];
      WithoutLine(ls, 0);
      WithoutLine(ks, i);
      SaidsCount(ls[..0] + ls[1..], ks[..i] + ks[i + 1..]);
    }
  }

  lemma WithoutLine(ls: seq<Line>, i: nat)
    requires i < |ls|
    ensures var rest := ls[..i] + ls[i + 1..];
            && multiset(rest) == multiset(ls) - multiset{ls[i]} && |rest| == |ls| - 1
            && multiset(Saids(ls)) == multiset(Saids(rest)) + multiset{ls[i].said}
  {
    var a, c := ls[..i], ls[i + 1..];
    assert ls == a + [ls[i]] + c;
    OneBetween(a, ls[i], c);
    SaidsBetween(a, ls[i], c);
    OneBetween(Saids(a), ls[i].said, Saids(c));
    hide Saids;
  }

  lemma OneBetween<T>(a: seq<T>, x: T, c: seq<T>)
    ensures multiset(a + [x] + c) == multiset(a + c) + multiset{x}
  {
  }

  lemma SaidsBetween(a: seq<Line>, l: Line, c: seq<Line>)
    ensures Saids(a + [l] + c) == Saids(a) + [l.said] + Saids(c) && Saids(a + c) == Saids(a) + Saids(c)
  {
  }

  /** Every server's first line brings a user. */
  predicate FirstJoins(env: Env, ss: seq<seq<Line>>) {
    forall i | 0 <= i < |ss| && ss[i] != [] :: Joins(env, ss[i][0].said)
  }

  /** The bursts of several servers for one channel, each over any number of lines of any wording: two servers that
      receive them interleaved in different ways end with the same view. */
  lemma BurstMessagesConverge(env: Env, ss: seq<seq<Line>>, ls: seq<Line>, ks: seq<Line>)
    requires Interleaves(ss, ls) && Interleaves(ss, ks) && ls != [] && FirstJoins(env, ss)
    requires AllBursts(ls) && AllProper(Saids(ls)) && DisjointUsers(Saids(ls))
    ensures AllBursts(ks) && HandleAll(env, ls).Some? && HandleAll(env, ks).Some?
    ensures SameChannel(HandleAll(env, ls).value, HandleAll(env, ks).value)
    ensures IsMergeOf(env, Saids(ls), HandleAll(env, ls).value)
  {
    hide IsBurst, Interleaves, Proper, DisjointUsers, Joins, SameChannel, MergeAll, IsMergeOf;
    InterleavedLines(ss, ls);
    InterleavedLines(ss, ks);
    SameLines(ls, ks);
    SaidsCount(ls, ks);
    BurstsConverge(env, Saids(ls), Saids(ks));
  }

  lemma SameLines(ls: seq<Line>, ks: seq<Line>)
    requires multiset(ls) == multiset(ks)
    ensures (forall l :: l in ls <==> l in ks) && (ls != [] ==> ks != [])
  {
    assert forall l :: l in ls <==> l in multiset(ls);
    assert forall l :: l in ks <==> l in multiset(ks);
    if ls != [] {
      assert ls[0] in ks;
    }
  }
}
