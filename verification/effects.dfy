/** What each message does to every channel, said of its arguments alone: who is where afterwards, with which modes, which
    channels begin and end, and which timestamps change. */
module MessageEffects {
  import opened IrcStrings
  import opened Options
  import opened Decimal
  import opened Bans
  import opened BanLists
  import opened Burst
  import opened Channels
  import opened Membership

  // ---------------------------------------------------------------- one channel

  predicate Peopled(st: Option<Chan>) {
    st.Some? ==> st.value.users != map[]
  }

  /** A message that names the channel sets a timestamp that is missing. */
  function StampOf(c: Chan, named: bool, ts: int): int {
    if named && c.timestamp == MAGIC_REMOTE_JOIN_TS && ts != 0 then ts else c.timestamp
  }

  /** The user goes: the others stay as they are, and a channel without others ends. */
  function Without(st: Option<Chan>, u: nat): Option<Chan> {
    if st.None? || st.value.users.Keys <= {u} then None else Some(st.value.(users := st.value.users - {u}))
  }

  /** The user comes with the modes `m`, unless it is there; a channel begins with the timestamp `ts0`, no modes, no bans and
      nobody else. */
  function With(st: Option<Chan>, u: nat, m: nat, ts0: int): Option<Chan> {
    match st
    case None => Some(EMPTY_CHANNEL.(timestamp := ts0, users := map[u := m]))
    case Some(c) => Some(if u in c.users then c else c.(users := c.users[u := m]))
  }

  function Timed(st: Option<Chan>, named: bool, ts: int): Option<Chan> {
    if st.None? then None else Some(st.value.(timestamp := StampOf(st.value, named, ts)))
  }

  /** What a JOIN leaves of a channel: with `left`, there is a "0" in the list; `joins`, the channel is named behind it;
      `named`, it is named anywhere. */
  function JoinLeaves(st: Option<Chan>, u: nat, left: bool, joins: bool, named: bool, ts: int): Option<Chan> {
    var stays := Timed(if left then Without(st, u) else st, named, ts);
    if joins then With(stays, u, 0, if ts != 0 then ts else MAGIC_REMOTE_JOIN_TS) else stays
  }

  /** What a CREATE leaves of a channel: its maker is op. */
  function CreateLeaves(st: Option<Chan>, u: nat, named: bool, ts: int): Option<Chan> {
    if named then With(Timed(st, true, ts), u, 2, ts) else st
  }

  /** What a PART, a KICK or a QUIT leaves of a channel. */
  function PartLeaves(st: Option<Chan>, u: nat, named: bool): Option<Chan> {
    if named && st.Some? && u in st.value.users then Without(st, u) else st
  }

  // ---------------------------------------------------------------- one step of a list

  lemma LeaveAt(chans: map<string, Chan>, name: string, u: nat, n: string)
    requires Peopled(ChanIn(chans, n))
    ensures ChanIn(Leave(chans, name, u), n) == PartLeaves(ChanIn(chans, n), u, n == name)
  {
    if n in chans {
      LastUser(chans[n].users, u);
    }
  }

  lemma LastUser(users: map<nat, nat>, u: nat)
    ensures users - {u} == map[] <==> users.Keys <= {u}
  {
    assert forall v :: v in users - {u} <==> v in users && v != u;
    assert users.Keys <= {u} ==> (users - {u}).Keys == {};
  }

  lemma LeaveAllAt(chans: map<string, Chan>, u: nat, n: string)
    ensures ChanIn(LeaveAll(chans, u), n) == Without(ChanIn(chans, n), u)
    ensures Peopled(ChanIn(LeaveAll(chans, u), n))
  {
    if n in chans {
      LastUser(chans[n].users, u);
    }
  }

  lemma JoinedAt(chans: map<string, Chan>, u: nat, name: string, ts: int, n: string)
    ensures ChanIn(Joined(chans, u, name, ts), n)
         == if n == name then JoinLeaves(ChanIn(chans, n), u, false, true, true, ts) else ChanIn(chans, n)
  {
    if n == name && n !in chans {
      assert EMPTY_CHANNEL.users[u := 0] == map[u := 0];
    }
  }

  lemma CreatedAt(chans: map<string, Chan>, u: nat, name: string, ts: int, n: string)
    ensures ChanIn(Created(chans, u, name, ts), n) == CreateLeaves(ChanIn(chans, n), u, n == name, ts)
  {
    if n == name && n !in chans {
      assert EMPTY_CHANNEL.users[u := 2] == map[u := 2];
    }
  }

  // ---------------------------------------------------------------- whole lists

  /** The channels a JOIN names. */
  function Named(names: seq<string>): set<string> {
    set x | x in names && x != "0" :: Fold(x)
  }

  lemma NamedFirst(names: seq<string>)
    requires names != []
    ensures Named(names) == (if names[0] == "0" then {} else {Fold(names[0])}) + Named(names[1..])
    ensures "0" in names <==> names[0] == "0" || "0" in names[1..]
  {
    hide Fold;
    assert names == [names[0]] + names[1..];
  }

  lemma {:induction false} JoiningNamed(names: seq<string>)
    ensures Joining(names) <= Named(names)
  {
    hide Fold;
    if names != [] {
      NamedFirst(names);
      JoiningNamed(names[1..]);
      hide Named;
    }
  }

  /** Leaving everything first. */
  lemma LeftFirst(st: Option<Chan>, u: nat, left: bool, joins: bool, named: bool, ts: int)
    ensures JoinLeaves(Without(st, u), u, left, joins, named, ts) == JoinLeaves(st, u, true, joins, named, ts)
  {
    var once := Without(st, u);
    if once.Some? {
      var v :| v in st.value.users && v != u;
      assert v in once.value.users;
      assert once.value.users - {u} == once.value.users;
    }
  }

  /** Joining the channel first. */
  lemma JoinedFirst(st: Option<Chan>, u: nat, left: bool, joins: bool, named: bool, ts: int)
    requires Peopled(st)
    ensures JoinLeaves(JoinLeaves(st, u, false, true, true, ts), u, left, joins, named, ts)
         == JoinLeaves(st, u, left, joins || !left, true, ts)
  {
    var once := JoinLeaves(st, u, false, true, true, ts);
    assert once.Some? && u in once.value.users;
    if st.Some? {
      assert once.value.users - {u} == st.value.users - {u};
      assert once.value.users.Keys == st.value.users.Keys + {u};
    } else {
      assert once.value.users.Keys == {u};
    }
  }

  lemma {:induction false} JoinNamesAt(chans: map<string, Chan>, u: nat, names: seq<string>, ts: int, n: string)
    requires Peopled(ChanIn(chans, n))
    ensures ChanIn(JoinNames(chans, u, names, ts), n)
         == JoinLeaves(ChanIn(chans, n), u, "0" in names, n in Joining(names), n in Named(names), ts)
    decreases |names|
  {
    hide Fold, Joined, LeaveAll, Named, JoinLeaves, Without;
    if names == [] {
      NothingJoined(ChanIn(chans, n), u, ts);
    } else {
      var rest := names[1..];
      var left, joins, named := "0" in rest, n in Joining(rest), n in Named(rest);
      NamedFirst(names);
      if names[0] == "0" {
        LeaveAllAt(chans, u, n);
        JoinNamesAt(LeaveAll(chans, u), u, rest, ts, n);
        LeftFirst(ChanIn(chans, n), u, left, joins, named, ts);
      } else {
        JoinedAt(chans, u, Fold(names[0]), ts, n);
        StillPeopled(ChanIn(chans, n), u, ts);
        JoinNamesAt(Joined(chans, u, Fold(names[0]), ts), u, rest, ts, n);
        if n == Fold(names[0]) {
          JoinedFirst(ChanIn(chans, n), u, left, joins, named, ts);
        }
      }
    }
  }

  lemma NothingJoined(st: Option<Chan>, u: nat, ts: int)
    ensures JoinLeaves(st, u, false, false, false, ts) == st && Named([]) == {}
  {
  }

  lemma StillPeopled(st: Option<Chan>, u: nat, ts: int)
    ensures Peopled(JoinLeaves(st, u, false, true, true, ts))
  {
    var r := JoinLeaves(st, u, false, true, true, ts);
    assert u in r.value.users;
  }

  lemma CreatedAgain(st: Option<Chan>, u: nat, named: bool, ts: int)
    ensures CreateLeaves(CreateLeaves(st, u, true, ts), u, named, ts) == CreateLeaves(st, u, true, ts)
  {
  }

  lemma {:induction false} CreateNamesAt(chans: map<string, Chan>, u: nat, names: seq<string>, ts: int, n: string)
    ensures ChanIn(CreateNames(chans, u, names, ts), n) == CreateLeaves(ChanIn(chans, n), u, n in Folded(names), ts)
    decreases |names|
  {
    hide Fold, Created, Folded, CreateLeaves;
    if names == [] {
      NothingCreated(ChanIn(chans, n), u, ts);
    } else {
      FoldedFirst(names);
      CreatedAt(chans, u, Fold(names[0]), ts, n);
      NothingCreated(ChanIn(chans, n), u, ts);
      CreateNamesAt(Created(chans, u, Fold(names[0]), ts), u, names[1..], ts, n);
      CreatedAgain(ChanIn(chans, n), u, n in Folded(names[1..]), ts);
    }
  }

  lemma NothingCreated(st: Option<Chan>, u: nat, ts: int)
    ensures CreateLeaves(st, u, false, ts) == st && PartLeaves(st, u, false) == st && Folded([]) == {}
  {
  }

  lemma PartedAgain(st: Option<Chan>, u: nat, named: bool)
    ensures PartLeaves(PartLeaves(st, u, true), u, named) == PartLeaves(st, u, true)
    ensures Peopled(st) ==> Peopled(PartLeaves(st, u, true))
  {
    if st.Some? && Without(st, u).Some? {
      var v :| v in st.value.users && v != u;
      assert v in st.value.users - {u};
    }
  }

  lemma {:induction false} PartNamesAt(chans: map<string, Chan>, u: nat, names: seq<string>, n: string)
    requires Peopled(ChanIn(chans, n))
    ensures ChanIn(PartNames(chans, u, names), n) == PartLeaves(ChanIn(chans, n), u, n in Folded(names))
    decreases |names|
  {
    hide Fold, Leave, Folded, PartLeaves, Peopled;
    NothingCreated(ChanIn(chans, n), u, 0);
    if names != [] {
      FoldedFirst(names);
      LeaveAt(chans, Fold(names[0]), u, n);
      PartedAgain(ChanIn(chans, n), u, n in Folded(names[1..]));
      PartNamesAt(Leave(chans, Fold(names[0]), u), u, names[1..], n);
    }
  }

  // ---------------------------------------------------------------- the messages

  function JoinTime(args: seq<string>): int {
    if |args| > 1 then StrToL(args[1]) else 0
  }

  /** A JOIN: what it leaves of every channel, and who is where. */
  lemma JoinEffect(lib: Lib, net: Net, u: nat, args: seq<string>)
    requires Sound(net)
    ensures var after := Effect(lib, net, Join(u, args));
            if args == [] || u !in net.users then after == net
            else
              var names, ts := Names(args[0]), JoinTime(args);
              && after.users == net.users && OnlyMoves(net.chans, after.chans, u)
              && (forall n :: ChanIn(after.chans, n)
                              == JoinLeaves(ChanIn(net.chans, n), u, "0" in names, n in Joining(names), n in Named(names), ts))
              && forall n :: On(after.chans, u, n) <==> n in Joining(names) || ("0" !in names && On(net.chans, u, n))
  {
    hide Names, StrToL, JoinNames, JoinLeaves, Joining, Named, OnlyMoves, On;
    if args != [] && u in net.users {
      var names, ts := Names(args[0]), JoinTime(args);
      JoinNamesMoves(net.chans, u, names, ts, net.users);
      forall n ensures ChanIn(JoinNames(net.chans, u, names, ts), n)
                       == JoinLeaves(ChanIn(net.chans, n), u, "0" in names, n in Joining(names), n in Named(names), ts) {
        JoinNamesAt(net.chans, u, names, ts, n);
      }
    }
  }

  /** A CREATE. */
  lemma CreateEffect(lib: Lib, net: Net, u: nat, args: seq<string>)
    requires Sound(net)
    ensures var after := Effect(lib, net, Create(u, args));
            if |args| < 2 || u !in net.users then after == net
            else
              var named, ts := Folded(Names(args[0])), StrToL(args[1]);
              && after.users == net.users && OnlyMoves(net.chans, after.chans, u)
              && (forall n :: ChanIn(after.chans, n) == CreateLeaves(ChanIn(net.chans, n), u, n in named, ts))
              && forall n :: On(after.chans, u, n) <==> n in named || On(net.chans, u, n)
  {
    hide Names, StrToL, CreateNames, CreateLeaves, Folded, OnlyMoves, On;
    if |args| >= 2 && u in net.users {
      var names, ts := Names(args[0]), StrToL(args[1]);
      CreateNamesMoves(net.chans, u, names, ts, net.users);
      forall n ensures ChanIn(CreateNames(net.chans, u, names, ts), n)
                       == CreateLeaves(ChanIn(net.chans, n), u, n in Folded(names), ts) {
        CreateNamesAt(net.chans, u, names, ts, n);
      }
    }
  }

  /** A PART. */
  lemma PartEffect(lib: Lib, net: Net, u: nat, args: seq<string>)
    requires Sound(net)
    ensures var after := Effect(lib, net, Part(u, args));
            if args == [] || u !in net.users then after == net
            else
              var named := Folded(Names(args[0]));
              && after.users == net.users && OnlyMoves(net.chans, after.chans, u)
              && (forall n :: ChanIn(after.chans, n) == PartLeaves(ChanIn(net.chans, n), u, n in named))
              && forall n :: On(after.chans, u, n) <==> On(net.chans, u, n) && n !in named
  {
    hide Names, PartNames, PartLeaves, Folded, OnlyMoves, On;
    if args != [] && u in net.users {
      var names := Names(args[0]);
      PartNamesMoves(net.chans, u, names, net.users);
      forall n ensures ChanIn(PartNames(net.chans, u, names), n) == PartLeaves(ChanIn(net.chans, n), u, n in Folded(names)) {
        PartNamesAt(net.chans, u, names, n);
      }
    }
  }

  /** A KICK: the user named, whoever kicks, is taken off the channel named and off no other. */
  lemma KickEffect(lib: Lib, net: Net, args: seq<string>)
    requires Sound(net)
    ensures var after := Effect(lib, net, Kick(args));
            if |args| < 3 || NumericToLong(args[1]) !in net.users then after == net
            else
              var u, name := NumericToLong(args[1]), Fold(args[0]);
              && after.users == net.users && OnlyMoves(net.chans, after.chans, u)
              && (forall n :: ChanIn(after.chans, n) == PartLeaves(ChanIn(net.chans, n), u, n == name))
              && forall v, n :: On(after.chans, v, n) <==> On(net.chans, v, n) && !(v == u && n == name)
  {
    hide NumericToLong, Fold, Leave, PartLeaves, OnlyMoves;
    if |args| >= 3 && NumericToLong(args[1]) in net.users {
      var u, name := NumericToLong(args[1]), Fold(args[0]);
      LeaveMoves(net.chans, name, u, net.users);
      OthersStand(net.chans, Leave(net.chans, name, u), u);
      forall n ensures ChanIn(Leave(net.chans, name, u), n) == PartLeaves(ChanIn(net.chans, n), u, n == name) {
        LeaveAt(net.chans, name, u, n);
      }
      hide On;
    }
  }

  lemma OthersStand(before: map<string, Chan>, after: map<string, Chan>, u: nat)
    requires OnlyMoves(before, after, u)
    ensures forall v, n | v != u :: On(after, v, n) <==> On(before, v, n)
  {
    hide On;
  }

  /** A user quits. */
  lemma QuitEffect(lib: Lib, net: Net, u: nat)
    requires Sound(net)
    ensures var after := Effect(lib, net, LostNick(u));
            if u !in net.users then after == net
            else
              && after.users == net.users - {u} && OnlyMoves(net.chans, after.chans, u)
              && (forall n :: ChanIn(after.chans, n) == PartLeaves(ChanIn(net.chans, n), u, true))
              && forall n :: !On(after.chans, u, n)
  {
    hide LeaveAll, OnlyMoves, On;
    if u in net.users {
      LeaveAllMoves(net.chans, u, net.users);
      forall n ensures ChanIn(LeaveAll(net.chans, u), n) == PartLeaves(ChanIn(net.chans, n), u, true) {
        LeaveAllAt(net.chans, u, n);
        WithoutAbsent(ChanIn(net.chans, n), u);
      }
    }
  }

  lemma WithoutAbsent(st: Option<Chan>, u: nat)
    requires Peopled(st)
    ensures Without(st, u) == PartLeaves(st, u, true)
  {
    if st.Some? && u !in st.value.users {
      assert st.value.users - {u} == st.value.users;
      var v :| v in st.value.users;
    }
  }

  /** A burst line that meets no channel flagged as keyed without a key: what it leaves of its channel, and that it leaves
      every other alone. */
  lemma BurstEffect(lib: Lib, net: Net, args: seq<string>, b: Said)
    requires Sound(net) && Whole(net, ChanBurst(args)) && IsBurst(args, b)
    ensures args != []
    ensures var after, name, env := Effect(lib, net, ChanBurst(args)), Fold(args[0]), Env(lib, net.users);
            && after.users == net.users
            && (forall n | n != name :: ChanIn(after.chans, n) == ChanIn(net.chans, n))
            && match ChanIn(after.chans, name)
               case None => name !in net.chans && !Joins(env, b)
               case Some(r) => if name in net.chans then LeftOf(env, net.chans[name], b, r) else OpenedBy(env, b, r)
  {
    SomeArgs(args, b);
    hide Fold, HandleBurst, IsBurst, LeftOf, OpenedBy, Joins, BurstIn, KeyStored;
    var env, name := Env(lib, net.users), Fold(args[0]);
    BurstLeaves(env, ChanIn(net.chans, name), args, b);
    BurstAt(env, net.chans, args);
  }

  lemma BurstAt(env: Env, chans: map<string, Chan>, args: seq<string>)
    requires args != [] && ChanOk(ChanIn(chans, Fold(args[0])))
    ensures var after, name := BurstIn(env, chans, args), Fold(args[0]);
            && ChanIn(after, name) == HandleBurst(env, ChanIn(chans, name), args)
            && forall n | n != name :: ChanIn(after, n) == ChanIn(chans, n)
  {
    hide Fold, HandleBurst, KeyStored;
  }

  lemma SomeArgs(args: seq<string>, b: Said)
    requires IsBurst(args, b)
    ensures args != []
  {
    hide ModesSay, ListsSay, StrToL;
    var ts, modes, limit, lists :| BurstParts(args, b, ts, modes, limit, lists);
  }
}
