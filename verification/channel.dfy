/** The channel record of channel/channel.h and its burst handler, updating the fields, the user table and the
    ban list in place; proved to do what module Burst says a burst means. */
module Channels {
  import opened IrcStrings
  import opened Options
  import opened Decimal
  import opened Bans
  import opened BanLists
  import opened Burst
  import H = UserHash

  const MAGIC_REMOTE_JOIN_TS := 1270080000

  const EMPTY_CHANNEL := Chan(MAGIC_REMOTE_JOIN_TS, {}, 0, None, [], map[])

  /** setflags, as its loop. */
  method ApplyFlagString(flags: set<char>, s: string) returns (r: set<char>)
    ensures r == SetFlags(flags, s, true)
  {
    hide IsCMode;
    r := flags;
    var add := true;
    var i := 0;
    while i < |s|
      invariant 0 <= i <= |s|
      invariant SetFlags(flags, s, true) == SetFlags(r, s[i..], add)
    {
      assert s[i..][0] == s[i] && s[i..][1..] == s[i + 1..];
      if s[i] == '+' {
        add := true;
      } else if s[i] == '-' {
        add := false;
      } else if IsCMode(s[i]) {
        r := if add then r + {s[i]} else r - {s[i]};
      }
      i := i + 1;
    }
    assert s[i..] == "";
  }

  /** The loop that counts the arguments an ignored mode string claims. */
  method CountArgs(s: string) returns (n: nat)
    ensures n == ArgLetters(s)
  {
    n := 0;
    var i := 0;
    while i < |s|
      invariant 0 <= i <= |s|
      invariant ArgLetters(s) == n + ArgLetters(s[i..])
    {
      assert s[i..][0] == s[i] && s[i..][1..] == s[i + 1..];
      if s[i] == 'k' || s[i] == 'l' {
        n := n + 1;
      }
      i := i + 1;
    }
    assert s[i..] == "";
  }

  /** numerictolong over five characters. */
  method ReadNumeric(s: string) returns (n: nat)
    ensures n == NumericToLong(s)
  {
    n := 0;
    var i := 0;
    while i < |s|
      invariant 0 <= i <= |s|
      invariant n == NumericToLong(s[..i])
    {
      assert s[..i + 1][..i] == s[..i];
      n := n * 64 + Digit64(s[i]);
      i := i + 1;
    }
    assert s[..i] == s;
  }

  lemma NumericFits(s: string)
    requires |s| == 5
    ensures NumericToLong(s) < 0x4000_0000
  {
    hide Digit64;
    var a, b, c, d := s[..4], s[..3], s[..2], s[..1];
    assert a[..3] == b && b[..2] == c && c[..1] == d && d[..0] == "" && s[..4] == a;
    assert NumericToLong("") == 0;
    assert NumericToLong(d) < 64;
    assert NumericToLong(c) < 64 * 64;
    assert NumericToLong(b) < 64 * 64 * 64;
    assert NumericToLong(a) < 64 * 64 * 64 * 64;
  }

  lemma {:induction false} ScanModesFits(s: string, m: nat)
    requires m < 4
    ensures ScanModes(s, m).mode < 4
  {
    if s != "" && s[0] != ',' {
      ScanModesFits(s[1..], if s[0] == 'v' then WithVoice(m) else if s[0] == 'o' then WithOp(m) else m);
    }
  }

  /** The mode loop behind a ':': stops behind the next comma. */
  method ReadModes(s: string, from: nat) returns (mode: nat, next: nat)
    requires from <= |s|
    ensures from <= next <= |s|
    ensures ScanModes(s[from..], 0) == ModeScan(mode, next - from)
    ensures mode < 4
  {
    ScanModesFits(s[from..], 0);
    hide WithVoice, WithOp;
    mode, next := 0, from;
    while next < |s|
      invariant from <= next <= |s|
      invariant ScanModes(s[from..], 0).mode == ScanModes(s[next..], mode).mode
      invariant ScanModes(s[from..], 0).used == next - from + ScanModes(s[next..], mode).used
    {
      assert s[next..][0] == s[next] && s[next..][1..] == s[next + 1..];
      if s[next] == 'v' {
        mode := WithVoice(mode);
      } else if s[next] == 'o' {
        mode := WithOp(mode);
      } else if s[next] == ',' {
        next := next + 1;
        return;
      }
      next := next + 1;
    }
    assert s[next..] == "";
  }

  lemma NoBanWord(lib: Lib, bans: seq<Ban>, s: string)
    requires s == ""
    ensures SetBans(lib, bans, BanWords(s)) == bans
  {
  }

  /** The first of the words that are left. */
  lemma NextBanWord(lib: Lib, bans: seq<Ban>, s: string, at: nat)
    requires at < |s|
    ensures var k := WordLength(s[at..]);
            var next := if at + k < |s| then at + k + 1 else at + k;
            && at + k <= |s| && next <= |s|
            && SetBans(lib, bans, BanWords(s[at..]))
               == SetBans(lib, SetBanIn(bans, BanOf(lib, s[at..][..k])), BanWords(s[next..]))
  {
    hide SetBanIn, BanOf, WordLength;
    var t, k := s[at..], WordLength(s[at..]);
    assert t[if k < |t| then k + 1 else k..] == s[if at + k < |s| then at + k + 1 else at + k..];
    var rest := BanWords(t[if k < |t| then k + 1 else k..]);
    assert BanWords(t) == [t[..k]] + rest && BanWords(t)[1..] == rest;
  }

  class Channel {
    var timestamp: int
    var flags: set<char>
    var limit: int
    var key: Option<string>
    var bans: ChannelBans
    var users: H.ChanUserHash

    ghost predicate Valid()
      reads this, users, users.content
    {
      users.Valid()
    }

    /** Our view of the channel as a value. */
    ghost function View(): Chan
      reads this, bans, users
    {
      Chan(timestamp, flags, limit, key, bans.bans, users.users.modes)
    }

    /** createchannel. */
    constructor (nouser: H.Word)
      requires nouser < H.NUMERICS
      ensures Valid() && View() == EMPTY_CHANNEL && users.nouser == nouser
      ensures fresh(bans) && fresh(users) && fresh(users.content)
    {
      timestamp, flags, limit, key := MAGIC_REMOTE_JOIN_TS, {}, 0, None;
      bans := new ChannelBans();
      users := new H.ChanUserHash(1, nouser);
    }

    /** The frame every step below keeps. */
    twostate predicate Kept()
      reads this, users, users.content
    {
      && Valid() && bans == old(bans) && users.nouser == old(users.nouser)
      && (users == old(users) || (fresh(users) && fresh(users.content)))
      && (users == old(users) ==> users.content == old(users.content))
    }

    /** addnicktochannel: refuses unknown users and users already there; the table grows as needed. */
    method AddNickToChannel(env: Env, n: nat, mode: nat)
      requires Valid() && n < H.NUMERICS && mode < 4 && users.nouser !in env.known
      modifies this`users, users, users.content
      ensures Kept()
      ensures View() == old(View()).(users := AddNick(env.known, old(View()).users, Listed(n, mode)))
    {
      hide users.Valid;
      if n !in env.known {
        return;
      }
      var w := H.MakeWord(n, mode);
      var at := users.Lookup(w);
      if at.Some? {
        return;
      }
      users := H.AddGrowing(users, w);
    }

    /** delnickfromchannel, on the channel: the slot is overwritten with nouser; `lost` says that nobody is left, where
        the source deletes the channel. */
    method DelNickFromChannel(known: set<nat>, n: nat) returns (lost: bool)
      requires Valid() && n < H.NUMERICS && users.nouser !in known
      modifies users, users.content
      ensures Kept() && users == old(users)
      ensures View() == if n in known then old(View()).(users := old(View()).users - {n}) else old(View())
      ensures lost <==> n in known && n in old(View()).users && View().users == map[]
    {
      lost := false;
      if n !in known {
        return;
      }
      var at := users.Lookup(H.MakeWord(n, 0));
      if at.None? {
        assert users.users.modes - {n} == users.users.modes;
        return;
      }
      users.Remove(at.value);
      lost := users.totalusers == 0;
    }

    /** The next user of a list: its numeric, the modes of its group, and where the following one starts. */
    static method ReadListed(s: string, at: nat, mode: nat, wipeout: bool) returns (n: nat, m: nat, next: nat)
      requires at + 5 <= |s| && mode < 4 && (wipeout ==> mode == 0)
      ensures at + 5 <= next <= |s| && n < H.NUMERICS && m < 4 && (wipeout ==> m == 0)
      ensures NextOfList(s, at, mode, wipeout, n, m, next)
    {
      hide NumericToLong, ScanModes;
      NumericFits(s[at..at + 5]);
      n := ReadNumeric(s[at..at + 5]);
      next, m := at + 5, mode;
      if next < |s| && s[next] == ',' {
        next := next + 1;
      } else if next < |s| && s[next] == ':' {
        m, next := ReadModes(s, next + 1);
        if wipeout {
          m := 0;
        }
      }
    }

    /** The loop over a list of numerics. */
    method AddListed(env: Env, s: string, wipeout: bool)
      requires Valid() && users.nouser !in env.known
      modifies this`users, users, users.content
      ensures Kept()
      ensures View() == old(View()).(users := AddNicks(env.known, old(View()).users, UserList(s, 0), wipeout))
    {
      hide AddNick, AddNicks, UserList, NumericToLong, ScanModes;
      hide users.Valid;
      var at, mode := 0, 0;
      ghost var goal := AddNicks(env.known, users.users.modes, UserList(s, 0), wipeout);
      assert s[0..] == s;
      while at < |s|
        invariant 0 <= at <= |s| && mode < 4 && (wipeout ==> mode == 0)
        invariant Kept()
        invariant View() == old(View()).(users := users.users.modes)
        invariant goal == AddNicks(env.known, users.users.modes, UserList(s[at..], mode), wipeout)
      {
        if |s| - at < 5 {
          break;
        }
        var n, m, next := ReadListed(s, at, mode, wipeout);
        ReadListedAdds(env.known, users.users.modes, s, at, mode, wipeout, n, m, next);
        AddNickToChannel(env, n, m);
        at, mode := next, m;
      }
      NothingListed(env.known, users.users.modes, s[at..], mode, wipeout);
    }

    /** The loop over the words of a ban argument. */
    method SetBanWords(env: Env, s: string)
      modifies bans
      ensures bans.bans == SetBans(env.lib, old(bans.bans), BanWords(s))
    {
      hide SetBanIn, BanOf, WordLength, SetBans, BanWords;
      var at := 0;
      assert s[0..] == s;
      while at < |s|
        invariant 0 <= at <= |s|
        invariant SetBans(env.lib, old(bans.bans), BanWords(s)) == SetBans(env.lib, bans.bans, BanWords(s[at..]))
      {
        NextBanWord(env.lib, bans.bans, s, at);
        var k := WordLength(s[at..]);
        var _ := bans.SetBan(env.lib, s[at..][..k]);
        at := if at + k < |s| then at + k + 1 else at + k;
      }
      NoBanWord(env.lib, bans.bans, s[at..]);
    }

    /** One mode argument that counts: `used` arguments are consumed, or the message is given up. */
    method TakeModes(args: seq<string>, arg: nat) returns (used: nat, giveup: bool)
      requires arg < |args| && KeyStored(View())
      modifies this`flags, this`limit, this`key
      ensures ApplyModes(old(View()), args[arg..]) == ModeStep(View(), used, giveup)
    {
      hide SetFlags, StrToL;
      ghost var rest := args[arg..];
      assert rest[0] == args[arg];
      assert arg + 1 < |args| ==> rest[1] == args[arg + 1];
      assert arg + 2 < |args| ==> rest[2] == args[arg + 2];
      var waslimit, waskeyed := 'l' in flags, 'k' in flags;
      flags := ApplyFlagString(flags - {'l', 'k'}, args[arg]);
      used := 1;
      if 'l' in flags {
        if arg + used >= |args| {
          return used, true;
        }
        var newlimit := StrToL(args[arg + used]);
        if limit > 0 && waslimit {
          if newlimit < limit {
            limit := newlimit;
          }
        } else {
          limit := newlimit;
        }
        used := used + 1;
      } else if waslimit {
        flags := flags + {'l'};
      }
      if 'k' in flags {
        if arg + used >= |args| {
          return used, true;
        }
        if waskeyed {
          if StrCmp(args[arg + used], key.value) < 0 {
            key := Some(Cut(args[arg + used], KEYLEN));
          }
        } else {
          key := Some(Cut(args[arg + used], KEYLEN));
        }
        used := used + 1;
      } else if waskeyed {
        flags := flags + {'k'};
      }
      return used, false;
    }

    /** A mode argument: skipped with its values when the incoming modes are ignored. */
    method TakeModeArg(env: Env, args: seq<string>, arg: nat, wipeout: bool) returns (next: nat, giveup: bool)
      requires arg < |args| && KeyStored(View()) && args[arg] != "" && args[arg][0] == '+'
      modifies this`flags, this`limit, this`key
      ensures ApplyArgs(env, old(View()), args[arg..], wipeout)
           == if giveup then View() else ApplyFrom(env, View(), args, next, wipeout)
      ensures !giveup ==> arg < next <= |args| && KeyStored(View())
    {
      hide ApplyModes, ArgLetters;
      ghost var c, rest := View(), args[arg..];
      if wipeout {
        var n := CountArgs(args[arg]);
        SkipModes(env, c, rest);
        next := if arg + 1 + n <= |args| then arg + 1 + n else |args|;
        assert rest[if 1 + n <= |rest| then 1 + n else |rest|..] == args[next..];
        return next, false;
      }
      TakeOrGiveUp(env, c, rest);
      var used;
      used, giveup := TakeModes(args, arg);
      next := arg + used;
      assert rest[used..] == args[next..];
    }

    /** A ban argument or a list of users. */
    method TakeListArg(env: Env, args: seq<string>, arg: nat, wipeout: bool)
      requires Valid() && users.nouser !in env.known && KeyStored(View())
      requires arg < |args| && !(args[arg] != "" && args[arg][0] == '+')
      modifies this`users, bans, users, users.content
      ensures Kept() && KeyStored(View())
      ensures ApplyArgs(env, old(View()), args[arg..], wipeout) == ApplyArgs(env, View(), args[arg + 1..], wipeout)
    {
      hide SetBans, BanWords, AddNicks, UserList, ApplyArgs;
      hide users.Valid;
      ghost var c := View();
      var s := args[arg];
      HeadAndRest(args, arg);
      if s != "" && s[0] == '%' {
        assert "%" + s[1..] == s;
        ApplyBanArg(env, c, s[1..], args[arg + 1..], wipeout);
        SetBanWords(env, s[1..]);
      } else {
        ApplyUserArg(env, c, s, args[arg + 1..], wipeout);
        AddListed(env, s, wipeout);
      }
    }

    /** The argument loop of handleburstmsg, from argument `from`. */
    method TakeArgs(env: Env, args: seq<string>, from: nat, wipeout: bool)
      requires Valid() && KeyStored(View()) && users.nouser !in env.known && from <= |args|
      modifies this, bans, users, users.content
      ensures Kept()
      ensures View() == ApplyArgs(env, old(View()), args[from..], wipeout)
    {
      hide ApplyArgs, KeyStored;
      hide users.Valid;
      var arg := from;
      while arg < |args|
        invariant from <= arg <= |args|
        invariant Kept() && KeyStored(View())
        invariant ApplyArgs(env, old(View()), args[from..], wipeout) == ApplyArgs(env, View(), args[arg..], wipeout)
        decreases |args| - arg
      {
        if args[arg] != "" && args[arg][0] == '+' {
          var next, giveup := TakeModeArg(env, args, arg, wipeout);
          if giveup {
            return;
          }
          arg := next;
        } else {
          TakeListArg(env, args, arg, wipeout);
          arg := arg + 1;
        }
      }
      assert args[arg..] == [];
      ApplyNone(env, View(), wipeout);
    }

    /** The clearing done when the incoming timestamp is older. */
    method TakeOver(ts: int)
      requires Valid()
      modifies this`timestamp, this`flags, this`limit, this`key, bans, users, users.content
      ensures Kept() && users == old(users)
      ensures View() == Chan(ts, {}, 0, None, [], StripModes(old(View()).users))
    {
      hide users.Valid;
      timestamp := ts;
      key, limit, flags := None, 0, {};
      bans.bans := [];
      users.StripModes();
    }
  }

  lemma HeadAndRest(args: seq<string>, arg: nat)
    requires arg < |args|
    ensures args[arg..] == [args[arg]] + args[arg + 1..]
  {
  }

  ghost function ApplyFrom(env: Env, c: Chan, args: seq<string>, next: nat, wipeout: bool): Chan {
    if next <= |args| && KeyStored(c) then ApplyArgs(env, c, args[next..], wipeout) else c
  }

  lemma SkipModes(env: Env, c: Chan, args: seq<string>)
    requires KeyStored(c) && args != [] && args[0] != "" && args[0][0] == '+'
    ensures var skip := 1 + ArgLetters(args[0]);
            ApplyArgs(env, c, args, true) == ApplyArgs(env, c, args[if skip <= |args| then skip else |args|..], true)
  {
    hide ApplyModes, ArgLetters;
    assert args[|args|..] == [];
  }

  /** One user of the list, and where the rest starts. */
  lemma ListedNext(known: set<nat>, users: map<nat, nat>, s: string, mode: nat, wipeout: bool, n: nat, m: nat, next: nat)
    requires 5 <= next <= |s| && n == NumericToLong(s[..5])
    requires if |s| > 5 && s[5] == ',' then m == mode && next == 6
             else if |s| > 5 && s[5] == ':' then next >= 6 && ScanModes(s[6..], 0) == ModeScan(m, next - 6)
             else m == mode && next == 5
    ensures AddNicks(known, users, UserList(s, mode), wipeout)
         == AddNicks(known, AddNick(known, users, Listed(n, if wipeout then 0 else m)), UserList(s[next..], m), wipeout)
  {
    hide AddNick, NumericToLong, ScanModes;
    var us := UserList(s, mode);
    if |s| == 5 {
      assert s[5..] == "";
    }
    assert us == [Listed(n, m)] + UserList(s[next..], m);
    hide UserList;
    assert us[1..] == UserList(s[next..], m);
  }

  ghost predicate NextOfList(s: string, at: nat, mode: nat, wipeout: bool, n: nat, m: nat, next: nat) {
    && at + 5 <= next <= |s| && n == NumericToLong(s[at..at + 5])
    && (if at + 5 < |s| && s[at + 5] == ',' then m == mode && next == at + 6
        else if at + 5 < |s| && s[at + 5] == ':' then
          && next == at + 6 + ScanModes(s[at + 6..], 0).used
          && m == if wipeout then 0 else ScanModes(s[at + 6..], 0).mode
        else m == mode && next == at + 5)
  }

  lemma ReadListedAdds(known: set<nat>, users: map<nat, nat>, s: string, at: nat, mode: nat, wipeout: bool,
                       n: nat, m: nat, next: nat)
    requires NextOfList(s, at, mode, wipeout, n, m, next) && (wipeout ==> mode == 0)
    ensures AddNicks(known, users, UserList(s[at..], mode), wipeout)
         == AddNicks(known, AddNick(known, users, Listed(n, m)), UserList(s[next..], m), wipeout)
  {
    hide AddNick, AddNicks, UserList, NumericToLong, ScanModes;
    var t := s[at..];
    assert t[..5] == s[at..at + 5] && t[next - at..] == s[next..];
    var m' := m;
    if at + 5 < |s| && s[at + 5] == ':' {
      assert t[6..] == s[at + 6..];
      m' := ScanModes(t[6..], 0).mode;
    }
    ListedNext(known, users, t, mode, wipeout, n, m', next - at);
    if wipeout {
      WipeoutForgetsModes(known, AddNick(known, users, Listed(n, 0)), s[next..], m');
    }
  }

  lemma NothingListed(known: set<nat>, users: map<nat, nat>, s: string, mode: nat, wipeout: bool)
    requires |s| < 5
    ensures AddNicks(known, users, UserList(s, mode), wipeout) == users
  {
  }

  /** When modes are ignored it does not matter which group a user stands in. */
  lemma {:induction false} WipeoutForgetsModes(known: set<nat>, users: map<nat, nat>, s: string, mode: nat)
    ensures AddNicks(known, users, UserList(s, mode), true) == AddNicks(known, users, UserList(s, 0), true)
    decreases |s|
  {
    if |s| < 5 {
      NothingListed(known, users, s, mode, true);
      NothingListed(known, users, s, 0, true);
    } else {
      hide AddNicks, AddNick, UserList, NumericToLong;
      var n := NumericToLong(s[..5]);
      var users' := AddNick(known, users, Listed(n, 0));
      if |s| > 5 && s[5] == ':' {
        var r := ScanModes(s[6..], 0);
        ListedNext(known, users, s, mode, true, n, r.mode, 6 + r.used);
        ListedNext(known, users, s, 0, true, n, r.mode, 6 + r.used);
      } else {
        var next := if |s| > 5 && s[5] == ',' then 6 else 5;
        ListedNext(known, users, s, mode, true, n, mode, next);
        ListedNext(known, users, s, 0, true, n, 0, next);
        WipeoutForgetsModes(known, users', s[next..], mode);
      }
    }
  }

  /** handleburstmsg: `cp` is the channel of that name, or null when we have none; so is the result. */
  method HandleBurstMsg(env: Env, nouser: H.Word, cp: Channel?, args: seq<string>) returns (r: Channel?)
    requires nouser < H.NUMERICS && nouser !in env.known
    requires cp != null ==> cp.Valid() && cp.users.nouser == nouser && KeyStored(cp.View())
    modifies if cp != null then {cp, cp.bans, cp.users, cp.users.content} else {}
    ensures r != null ==> r.Valid()
    ensures (if r == null then None else Some(r.View()))
         == HandleBurst(env, old(if cp == null then None else Some(cp.View())), args)
  {
    hide ApplyArgs, StrToL, H.Stores;
    if |args| < 2 {
      return cp;
    }
    var ts := StrToL(args[1]);
    var wipeout := false;
    if cp == null {
      r := new Channel(nouser);
      r.timestamp := ts;
    } else {
      r := cp;
      if ts < r.timestamp {
        r.TakeOver(ts);
      } else if ts > r.timestamp {
        wipeout := true;
      }
    }
    r.TakeArgs(env, args, 2, wipeout);
    if r.users.totalusers == 0 {
      r := null;
    }
  }
}
