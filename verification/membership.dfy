/** Who is on which channel: the channel table of channel/channel.c, the channel array every nick carries, and the
    messages of channel/channelhandlers.c that change them. A nick's array holds channel pointers and a channel
    holds user numerics; the two must stay mirror images, or a pointer to a freed channel is left behind. */
module Membership {
  import opened IrcStrings
  import opened Options
  import opened Decimal
  import opened Bans
  import opened BanLists
  import opened Burst
  import opened Channels

  type Pointer = nat

  /** A channel record in use, and the folded name of the index entry that points to it. */
  datatype Record = Record(name: string, chan: Chan)

  /** The network as the messages describe it: the users there are, and the channels by folded name. */
  datatype Net = Net(users: set<nat>, chans: map<string, Chan>)

  // ---------------------------------------------------------------- what a message means

  /** The channel names of a list: a comma ends a name; nothing behind the last comma is no name. */
  function Names(s: string): seq<string>
    decreases |s|
  {
    if s == "" then []
    else
      var k := NameLength(s);
      [s[..k]] + Names(s[if k < |s| then k + 1 else k..])
  }

  function NameLength(s: string): (k: nat)
    ensures k <= |s| && (k < |s| ==> s[k] == ',')
    ensures s != "" ==> k > 0 || s[0] == ','
  {
    if s == "" || s[0] == ',' then 0 else 1 + NameLength(s[1..])
  }

  /** The user is on no channel any more, and a channel that loses its last user is gone. */
  function LeaveAll(chans: map<string, Chan>, u: nat): map<string, Chan> {
    map n | n in chans && chans[n].users - {u} != map[] :: chans[n].(users := chans[n].users - {u})
  }

  function Leave(chans: map<string, Chan>, name: string, u: nat): map<string, Chan> {
    if name !in chans || u !in chans[name].users then chans
    else if chans[name].users - {u} == map[] then chans - {name}
    else chans[name := chans[name].(users := chans[name].users - {u})]
  }

  /** A timestamp is taken over only where the channel has none yet. */
  function Stamped(c: Chan, ts: int): Chan {
    if c.timestamp == MAGIC_REMOTE_JOIN_TS && ts != 0 then c.(timestamp := ts) else c
  }

  function Joined(chans: map<string, Chan>, u: nat, name: string, ts: int): map<string, Chan> {
    var c := Stamped(if name in chans then chans[name] else EMPTY_CHANNEL, ts);
    chans[name := c.(users := AddNick({u}, c.users, Listed(u, 0)))]
  }

  function JoinNames(chans: map<string, Chan>, u: nat, names: seq<string>, ts: int): map<string, Chan>
    decreases |names|
  {
    if names == [] then chans
    else
      JoinNames(if names[0] == "0" then LeaveAll(chans, u) else Joined(chans, u, Fold(names[0]), ts), u, names[1..], ts)
  }

  function Created(chans: map<string, Chan>, u: nat, name: string, ts: int): map<string, Chan> {
    var c := if name in chans then Stamped(chans[name], ts) else EMPTY_CHANNEL.(timestamp := ts);
    chans[name := c.(users := AddNick({u}, c.users, Listed(u, 2)))]
  }

  function CreateNames(chans: map<string, Chan>, u: nat, names: seq<string>, ts: int): map<string, Chan>
    decreases |names|
  {
    if names == [] then chans else CreateNames(Created(chans, u, Fold(names[0]), ts), u, names[1..], ts)
  }

  function PartNames(chans: map<string, Chan>, u: nat, names: seq<string>): map<string, Chan>
    decreases |names|
  {
    if names == [] then chans else PartNames(Leave(chans, Fold(names[0]), u), u, names[1..])
  }

  function BurstIn(env: Env, chans: map<string, Chan>, args: seq<string>): map<string, Chan>
    requires args != [] ==> ChanOk(ChanIn(chans, Fold(args[0])))
  {
    if args == [] then chans
    else
      var name := Fold(args[0]);
      match HandleBurst(env, ChanIn(chans, name), args)
      case Some(c) => chans[name := c]
      case None => chans - {name}
  }

  function ChanIn(chans: map<string, Chan>, name: string): Option<Chan> {
    if name in chans then Some(chans[name]) else None
  }

  /** The messages, with the sender's numeric where the prefix is a user. */
  datatype Message =
    | NewNick(u: nat)
    | LostNick(u: nat)
    | Join(u: nat, args: seq<string>)
    | Create(u: nat, args: seq<string>)
    | Part(u: nat, args: seq<string>)
    | Kick(args: seq<string>)
    | ChanBurst(args: seq<string>)

  /** Not a burst for a channel flagged as keyed without a key, which the handler must not be given. */
  ghost predicate Whole(net: Net, m: Message) {
    m.ChanBurst? && m.args != [] ==> ChanOk(ChanIn(net.chans, Fold(m.args[0])))
  }

  /** What a message does to the network. */
  function Effect(lib: Lib, net: Net, m: Message): Net
    requires Whole(net, m)
  {
    match m
    case NewNick(u) => net.(users := net.users + {u})
    case LostNick(u) => if u in net.users then Net(net.users - {u}, LeaveAll(net.chans, u)) else net
    case Join(u, args) =>
      if args == [] || u !in net.users then net
      else net.(chans := JoinNames(net.chans, u, Names(args[0]), if |args| > 1 then StrToL(args[1]) else 0))
    case Create(u, args) =>
      if |args| < 2 || u !in net.users then net
      else net.(chans := CreateNames(net.chans, u, Names(args[0]), StrToL(args[1])))
    case Part(u, args) =>
      if args == [] || u !in net.users then net
      else net.(chans := PartNames(net.chans, u, Names(args[0])))
    case Kick(args) =>
      if |args| < 3 || NumericToLong(args[1]) !in net.users then net
      else net.(chans := Leave(net.chans, Fold(args[0]), NumericToLong(args[1])))
    case ChanBurst(args) =>
      net.(chans := BurstIn(Env(lib, net.users), net.chans, args))
  }

  /** Every message is whole when its turn comes. */
  ghost predicate AllWhole(lib: Lib, net: Net, ms: seq<Message>)
    requires Sound(net)
    decreases |ms|
  {
    ms == [] ||
    (Whole(net, ms[0]) &&
     (EffectSound(lib, net, ms[0]);
      AllWhole(lib, Effect(lib, net, ms[0]), ms[1..])))
  }

  /** Every channel has users, and only users that exist. */
  ghost predicate ChansSound(chans: map<string, Chan>, users: set<nat>) {
    forall n | n in chans :: chans[n].users != map[] && chans[n].users.Keys <= users
  }

  ghost predicate Sound(net: Net) {
    ChansSound(net.chans, net.users)
  }

  ghost function Effects(lib: Lib, net: Net, ms: seq<Message>): (r: Net)
    requires Sound(net) && AllWhole(lib, net, ms)
    ensures Sound(r)
    decreases |ms|
  {
    if ms == [] then net
    else
      EffectSound(lib, net, ms[0]);
      Effects(lib, Effect(lib, net, ms[0]), ms[1..])
  }

  // ---------------------------------------------------------------- the pointers

  ghost predicate NoRepeats(ps: seq<Pointer>) {
    forall i, j | 0 <= i < j < |ps| :: ps[i] != ps[j]
  }

  ghost predicate OnNick(nicks: map<nat, seq<Pointer>>, u: nat, p: Pointer) {
    u in nicks && p in nicks[u]
  }

  ghost predicate OnChannel(chans: map<Pointer, Record>, u: nat, p: Pointer) {
    p in chans && u in chans[p].chan.users
  }

  /** Nick arrays and channel tables are mirror images, and no array lists a channel twice. In particular every
      pointer in an array is the pointer of a channel in use. */
  ghost predicate Linked(nicks: map<nat, seq<Pointer>>, chans: map<Pointer, Record>) {
    && (forall u | u in nicks :: NoRepeats(nicks[u]))
    && (forall u, p | OnNick(nicks, u, p) :: OnChannel(chans, u, p))
    && (forall u, p | OnChannel(chans, u, p) :: OnNick(nicks, u, p))
  }

  /** The index points at exactly the channels in use. */
  ghost predicate Indexed(index: map<string, Pointer>, chans: map<Pointer, Record>) {
    && (forall n | n in index :: index[n] in chans && chans[index[n]].name == n)
    && (forall p | p in chans :: chans[p].name in index && index[chans[p].name] == p)
  }

  ghost predicate Populated(chans: map<Pointer, Record>) {
    forall p | p in chans :: chans[p].chan.users != map[]
  }

  ghost function ViewOf(index: map<string, Pointer>, chans: map<Pointer, Record>): map<string, Chan>
    requires Indexed(index, chans)
  {
    map n | n in index :: chans[index[n]].chan
  }

  // ---------------------------------------------------------------- the steps on the pointers

  function WithChan(chans: map<Pointer, Record>, p: Pointer, c: Chan): map<Pointer, Record>
    requires p in chans
  {
    chans[p := chans[p].(chan := c)]
  }

  lemma NewRecord(index: map<string, Pointer>, chans: map<Pointer, Record>, name: string, p: Pointer, c: Chan)
    requires Indexed(index, chans) && name !in index && p !in chans
    ensures Indexed(index[name := p], chans[p := Record(name, c)])
    ensures ViewOf(index[name := p], chans[p := Record(name, c)]) == ViewOf(index, chans)[name := c]
  {
  }

  lemma RecordGone(index: map<string, Pointer>, chans: map<Pointer, Record>, p: Pointer)
    requires Indexed(index, chans) && p in chans
    ensures Indexed(index - {chans[p].name}, chans - {p})
    ensures ViewOf(index - {chans[p].name}, chans - {p}) == ViewOf(index, chans) - {chans[p].name}
  {
  }

  lemma RecordChanged(index: map<string, Pointer>, chans: map<Pointer, Record>, p: Pointer, c: Chan)
    requires Indexed(index, chans) && p in chans
    ensures Indexed(index, WithChan(chans, p, c))
    ensures ViewOf(index, WithChan(chans, p, c)) == ViewOf(index, chans)[chans[p].name := c]
  {
  }

  lemma EmptyRecordLinked(nicks: map<nat, seq<Pointer>>, chans: map<Pointer, Record>, p: Pointer, r: Record)
    requires Linked(nicks, chans) && p !in chans && r.chan.users == map[]
    ensures Linked(nicks, chans[p := r])
  {
    var chans' := chans[p := r];
    forall u, q | OnChannel(chans', u, q) ensures OnChannel(chans, u, q) {}
    forall u, q | OnChannel(chans, u, q) ensures OnChannel(chans', u, q) {}
  }

  lemma SameUsersLinked(nicks: map<nat, seq<Pointer>>, chans: map<Pointer, Record>, p: Pointer, c: Chan)
    requires Linked(nicks, chans) && p in chans && c.users.Keys == chans[p].chan.users.Keys
    ensures Linked(nicks, WithChan(chans, p, c))
  {
    var chans' := WithChan(chans, p, c);
    forall u, q ensures OnChannel(chans', u, q) <==> OnChannel(chans, u, q) {}
  }

  /** One user joins a channel: its pointer goes to the end of the array. */
  lemma UserAdded(nicks: map<nat, seq<Pointer>>, chans: map<Pointer, Record>, p: Pointer, c: Chan, u: nat)
    requires Linked(nicks, chans) && p in chans && u in nicks && u !in chans[p].chan.users
    requires c.users.Keys == chans[p].chan.users.Keys + {u}
    ensures Linked(nicks[u := nicks[u] + [p]], WithChan(chans, p, c))
  {
    var nicks', chans' := nicks[u := nicks[u] + [p]], WithChan(chans, p, c);
    assert !OnChannel(chans, u, p) && !OnNick(nicks, u, p);
    forall v, q ensures OnChannel(chans', v, q) <==> OnChannel(chans, v, q) || (v == u && q == p) {}
    forall v, q ensures OnNick(nicks', v, q) <==> OnNick(nicks, v, q) || (v == u && q == p) {}
  }

  /** One user leaves a channel: `rest` is its array without the pointer. */
  lemma UserRemoved(nicks: map<nat, seq<Pointer>>, chans: map<Pointer, Record>, p: Pointer, u: nat, rest: seq<Pointer>)
    requires Linked(nicks, chans) && p in chans && u in nicks && p in nicks[u]
    requires NoRepeats(rest) && forall q :: q in rest <==> q in nicks[u] && q != p
    ensures var users := chans[p].chan.users - {u};
            Linked(nicks[u := rest],
                   if users == map[] then chans - {p} else WithChan(chans, p, chans[p].chan.(users := users)))
  {
    var users := chans[p].chan.users - {u};
    var nicks', chans' := nicks[u := rest],
                          if users == map[] then chans - {p} else WithChan(chans, p, chans[p].chan.(users := users));
    forall v, q ensures OnNick(nicks', v, q) <==> OnNick(nicks, v, q) && !(v == u && q == p) {}
    forall v, q ensures OnChannel(chans', v, q) <==> OnChannel(chans, v, q) && !(v == u && q == p) {
      if q == p && v != u && v in chans[p].chan.users {
        assert v in users;
      }
    }
  }

  /** array_delslot: the last item moves into the slot. */
  function DelSlot(ps: seq<Pointer>, i: nat): seq<Pointer>
    requires i < |ps|
  {
    var last := |ps| - 1;
    if i == last then ps[..last] else ps[i := ps[last]][..last]
  }

  lemma SlotDeleted(ps: seq<Pointer>, i: nat)
    requires i < |ps| && NoRepeats(ps)
    ensures NoRepeats(DelSlot(ps, i)) && forall q :: q in DelSlot(ps, i) <==> q in ps && q != ps[i]
  {
    var rest := DelSlot(ps, i);
    forall q ensures q in rest <==> q in ps && q != ps[i] {
      if q in ps && q != ps[i] {
        var k :| 0 <= k < |ps| && ps[k] == q;
        assert q == rest[if k == |ps| - 1 then i else k];
      }
    }
  }

  /** delnickfromchannel on the records. */
  function Removed(chans: map<Pointer, Record>, p: Pointer, u: nat): map<Pointer, Record>
    requires p in chans
  {
    var users := chans[p].chan.users - {u};
    if users == map[] then chans - {p} else WithChan(chans, p, chans[p].chan.(users := users))
  }

  lemma RemovedLeaves(index: map<string, Pointer>, chans: map<Pointer, Record>, p: Pointer, u: nat)
    requires Indexed(index, chans) && p in chans && u in chans[p].chan.users
    ensures var chans' := Removed(chans, p, u);
            var index' := if p in chans' then index else index - {chans[p].name};
            Indexed(index', chans') && ViewOf(index', chans') == Leave(ViewOf(index, chans), chans[p].name, u)
  {
    hide KeyStored;
    var users := chans[p].chan.users - {u};
    if users == map[] {
      RecordGone(index, chans, p);
    } else {
      RecordChanged(index, chans, p, chans[p].chan.(users := users));
    }
  }

  lemma NotThere(index: map<string, Pointer>, chans: map<Pointer, Record>, p: Pointer, u: nat)
    requires Indexed(index, chans) && p in chans && u !in chans[p].chan.users
    ensures Leave(ViewOf(index, chans), chans[p].name, u) == ViewOf(index, chans)
  {
  }

  lemma LeaveAllFirst(chans: map<string, Chan>, name: string, u: nat)
    ensures LeaveAll(Leave(chans, name, u), u) == LeaveAll(chans, u)
  {
    if name in chans {
      assert (chans[name].users - {u}) - {u} == chans[name].users - {u};
    }
  }

  lemma LeaveAllNothing(chans: map<string, Chan>, u: nat)
    requires forall n | n in chans :: u !in chans[n].users && chans[n].users != map[]
    ensures LeaveAll(chans, u) == chans
  {
    forall n | n in chans ensures chans[n].users - {u} == chans[n].users {}
  }

  class Network {
    const lib: Lib
    var nicks: map<nat, seq<Pointer>>
    var index: map<string, Pointer>
    var chans: map<Pointer, Record>

    ghost predicate Valid()
      reads this
    {
      Linked(nicks, chans) && Indexed(index, chans) && Populated(chans)
    }

    ghost function View(): Net
      reads this
      requires Indexed(index, chans)
    {
      Net(nicks.Keys, ViewOf(index, chans))
    }

    constructor (lib: Lib)
      ensures Valid() && View() == Net({}, map[]) && this.lib == lib
    {
      this.lib := lib;
      nicks, index, chans := map[], map[], map[];
    }

    /** createchannel; the record may reuse the memory of a freed one. */
    method CreateChannel(name: string) returns (p: Pointer)
      requires name !in index && Indexed(index, chans) && Linked(nicks, chans)
      modifies this`index, this`chans
      ensures p !in old(chans) && index == old(index)[name := p] && chans == old(chans)[p := Record(name, EMPTY_CHANNEL)]
      ensures Indexed(index, chans) && Linked(nicks, chans)
      ensures ViewOf(index, chans) == old(ViewOf(index, chans))[name := EMPTY_CHANNEL]
    {
      FreshPointer(chans.Keys);
      p :| p !in chans;
      NewRecord(index, chans, name, p, EMPTY_CHANNEL);
      EmptyRecordLinked(nicks, chans, p, Record(name, EMPTY_CHANNEL));
      index := index[name := p];
      chans := chans[p := Record(name, EMPTY_CHANNEL)];
    }

    /** delchannel. */
    method DelChannel(p: Pointer)
      requires p in chans && Indexed(index, chans)
      modifies this`index, this`chans
      ensures chans == old(chans) - {p} && index == old(index) - {old(chans)[p].name} && Indexed(index, chans)
      ensures ViewOf(index, chans) == old(ViewOf(index, chans)) - {old(chans)[p].name}
    {
      RecordGone(index, chans, p);
      index := index - {chans[p].name};
      chans := chans - {p};
    }

    /** addnicktochannel. */
    method AddNickToChannel(p: Pointer, u: nat, mode: nat) returns (failed: bool)
      requires p in chans && Indexed(index, chans) && Linked(nicks, chans)
      modifies this`nicks, this`chans
      ensures failed <==> u !in nicks || u in old(chans)[p].chan.users
      ensures Indexed(index, chans) && Linked(nicks, chans) && nicks.Keys == old(nicks.Keys)
      ensures var c := old(chans)[p].chan;
              chans == WithChan(old(chans), p, c.(users := AddNick(nicks.Keys, c.users, Listed(u, mode))))
    {
      if u !in nicks || u in chans[p].chan.users {
        return true;
      }
      var c := chans[p].chan.(users := chans[p].chan.users[u := mode]);
      UserAdded(nicks, chans, p, c, u);
      RecordChanged(index, chans, p, c);
      nicks := nicks[u := nicks[u] + [p]];
      chans := WithChan(chans, p, c);
      return false;
    }

    /** delnickfromchannel. With `updateuser` the pointer is looked up in the user's array and its slot deleted. */
    method DelNickFromChannel(p: Pointer, u: nat, updateuser: bool)
      requires p in chans && Indexed(index, chans) && (updateuser ==> Linked(nicks, chans))
      requires !updateuser ==> u in nicks && u in chans[p].chan.users
      modifies this
      ensures Indexed(index, chans) && nicks.Keys == old(nicks.Keys)
      ensures updateuser ==> Linked(nicks, chans)
      ensures !updateuser ==> nicks == old(nicks)
      ensures chans == if u in nicks && u in old(chans)[p].chan.users then Removed(old(chans), p, u) else old(chans)
      ensures ViewOf(index, chans) == if u in nicks then Leave(old(ViewOf(index, chans)), old(chans)[p].name, u)
                                      else old(ViewOf(index, chans))
    {
      hide Linked, Indexed, ViewOf, Leave;
      if u !in nicks {
        return;
      }
      if u !in chans[p].chan.users {
        NotThere(index, chans, p, u);
        return;
      }
      RemovedLeaves(index, chans, p, u);
      ghost var before := chans;
      RemoveMember(p, u);
      if updateuser {
        RemovePointer(before, p, u);
      }
    }

    method RemoveMember(p: Pointer, u: nat)
      requires p in chans && Indexed(index, chans) && u in chans[p].chan.users
      modifies this`index, this`chans
      ensures chans == Removed(old(chans), p, u)
      ensures index == if p in chans then old(index) else old(index) - {old(chans)[p].name}
    {
      hide Indexed, ViewOf;
      var users := chans[p].chan.users - {u};
      if users == map[] {
        DelChannel(p);
      } else {
        chans := WithChan(chans, p, chans[p].chan.(users := users));
      }
    }

    /** The search for the pointer in the array of a user who has just been taken off `p`. */
    method RemovePointer(ghost before: map<Pointer, Record>, p: Pointer, u: nat)
      requires Linked(nicks, before) && p in before && u in nicks && u in before[p].chan.users
      requires chans == Removed(before, p, u)
      modifies this`nicks
      ensures Linked(nicks, chans) && nicks.Keys == old(nicks.Keys)
    {
      hide WithChan;
      assert OnChannel(before, u, p) && OnNick(nicks, u, p);
      assert NoRepeats(nicks[u]);
      hide Linked, NoRepeats;
      var i := 0;
      while nicks[u][i] != p
        invariant i < |nicks[u]| && p !in nicks[u][..i]
        decreases |nicks[u]| - i
      {
        i := i + 1;
      }
      SlotDeleted(nicks[u], i);
      UserRemoved(nicks, before, p, u, DelSlot(nicks[u], i));
      nicks := nicks[u := DelSlot(nicks[u], i)];
    }

    /** One turn of the loop below; the array still lists what has been left already. */
    method LeaveFirst(u: nat, ps: seq<Pointer>)
      requires u in nicks && ps != [] && Linked(nicks[u := ps], chans) && Indexed(index, chans) && Populated(chans)
      modifies this
      ensures nicks == old(nicks) && Linked(nicks[u := ps[1..]], chans) && Indexed(index, chans) && Populated(chans)
      ensures LeaveAll(ViewOf(index, chans), u) == LeaveAll(old(ViewOf(index, chans)), u)
    {
      hide Indexed, ViewOf, LeaveAll, Leave;
      ghost var links := nicks[u := ps];
      assert OnNick(links, u, ps[0]) && OnChannel(chans, u, ps[0]);
      LeaveAllFirst(ViewOf(index, chans), chans[ps[0]].name, u);
      UserRemoved(links, chans, ps[0], u, ps[1..]);
      assert links[u := ps[1..]] == nicks[u := ps[1..]];
      hide Linked, NoRepeats;
      DelNickFromChannel(ps[0], u, false);
    }

    /** The loop of a user leaving everything: the array is walked as it is, and thrown away afterwards. */
    method LeaveChannels(u: nat)
      requires Valid() && u in nicks
      modifies this
      ensures nicks == old(nicks) && Linked(nicks[u := []], chans) && Indexed(index, chans) && Populated(chans)
      ensures ViewOf(index, chans) == LeaveAll(old(ViewOf(index, chans)), u)
    {
      hide Linked, Indexed, Populated, ViewOf, LeaveAll;
      var ps := nicks[u];
      assert nicks[u := ps] == nicks && ps[0..] == ps;
      for i := 0 to |ps|
        invariant nicks == old(nicks) && Indexed(index, chans) && Populated(chans)
        invariant Linked(nicks[u := ps[i..]], chans)
        invariant LeaveAll(ViewOf(index, chans), u) == LeaveAll(old(ViewOf(index, chans)), u)
      {
        assert ps[i..][1..] == ps[i + 1..];
        LeaveFirst(u, ps[i..]);
      }
      assert ps[|ps|..] == [];
      OnNothing(nicks[u := []], index, chans, u);
    }

    method FindOrCreateChannel(name: string) returns (p: Pointer, isnew: bool)
      requires Valid()
      modifies this`index, this`chans
      ensures Linked(nicks, chans) && Indexed(index, chans) && p in chans && Populated(chans - {p})
      ensures chans[p].name == name
      ensures isnew <==> name !in old(View().chans)
      ensures chans[p].chan == if isnew then EMPTY_CHANNEL else old(View().chans)[name]
      ensures ViewOf(index, chans) == old(ViewOf(index, chans))[name := chans[p].chan]
    {
      hide Linked, Indexed, Populated, ViewOf;
      NotInView(index, chans, name);
      if name in index {
        p, isnew := index[name], false;
        IndexedAt(index, chans, name);
        PopulatedAt(chans, p);
      } else {
        p := CreateChannel(name);
        isnew := true;
        FreshGone(old(chans), p, Record(name, EMPTY_CHANNEL));
      }
    }

    /** The user goes onto the channel, whose timestamp becomes `ts`. */
    method Enter(p: Pointer, u: nat, mode: nat, ts: int) returns (failed: bool)
      requires Linked(nicks, chans) && Indexed(index, chans) && p in chans && Populated(chans - {p})
      requires u in nicks
      modifies this`nicks, this`chans
      ensures Valid() && p in chans && nicks.Keys == old(nicks.Keys)
      ensures var c := old(chans)[p].chan;
              && chans[p].chan == c.(timestamp := ts, users := AddNick({u}, c.users, Listed(u, mode)))
              && (failed <==> u in c.users)
      ensures ViewOf(index, chans) == old(ViewOf(index, chans))[old(chans)[p].name := chans[p].chan]
    {
      hide Linked, Indexed, Populated, ViewOf;
      ghost var first, name := chans, chans[p].name;
      if chans[p].chan.timestamp != ts {
        ghost var c := chans[p].chan.(timestamp := ts);
        SameUsersLinked(nicks, chans, p, c);
        RecordChanged(index, chans, p, c);
        chans := WithChan(chans, p, chans[p].chan.(timestamp := ts));
      } else {
        RecordChanged(index, chans, p, chans[p].chan);
      }
      ghost var before := chans;
      failed := AddNickToChannel(p, u, mode);
      RecordChanged(index, before, p, chans[p].chan);
      assert first - {p} == before - {p};
      assert u in chans[p].chan.users;
      PopulatedWith(before, p, chans[p].chan);
    }

    /** JOIN of one channel. */
    method JoinChannel(u: nat, name: string, ts: int)
      requires Valid() && u in nicks
      modifies this
      ensures Valid() && View() == old(View()).(chans := Joined(old(View().chans), u, name, ts))
    {
      hide Linked, Indexed, Populated, ViewOf;
      var p, isnew := FindOrCreateChannel(name);
      var stamp := chans[p].chan.timestamp;
      if stamp == MAGIC_REMOTE_JOIN_TS && ts != 0 {
        stamp := ts;
      }
      var failed := Enter(p, u, 0, stamp);
      if failed && isnew {
        assert false;
      }
    }

    /** handlejoinmsg: "0" in the list leaves everything joined so far. */
    method HandleJoin(u: nat, args: seq<string>)
      requires Valid()
      modifies this
      ensures Valid() && View() == Effect(lib, old(View()), Join(u, args))
    {
      hide Linked, Indexed, Populated, ViewOf, Fold, Joined, LeaveAll, StrToL, Names;
      if args == [] || u !in nicks {
        return;
      }
      var ts := 0;
      if |args| > 1 {
        ts := StrToL(args[1]);
      }
      var next := 0;
      ghost var goal := JoinNames(ViewOf(index, chans), u, Names(args[0]), ts);
      assert args[0][0..] == args[0];
      while next < |args[0]|
        invariant next <= |args[0]| && Valid() && nicks.Keys == old(nicks.Keys)
        invariant JoinNames(ViewOf(index, chans), u, Names(args[0][next..]), ts) == goal
      {
        var name;
        ghost var names := Names(args[0][next..]);
        name, next := NextName(args[0], next);
        assert names[0] == name && names[1..] == Names(args[0][next..]);
        if name == "0" {
          LeaveChannels(u);
          nicks := nicks[u := []];
        } else {
          JoinChannel(u, Fold(name), ts);
        }
      }
      NoNames(args[0], next);
    }

    /** handlecreatemsg for one channel: its maker is op. */
    method CreateFor(u: nat, name: string, ts: int)
      requires Valid() && u in nicks
      modifies this
      ensures Valid() && View() == old(View()).(chans := Created(old(View().chans), u, name, ts))
    {
      hide Linked, Indexed, Populated, ViewOf;
      var p, isnew := FindOrCreateChannel(name);
      var stamp := chans[p].chan.timestamp;
      if isnew || (stamp == MAGIC_REMOTE_JOIN_TS && ts != 0) {
        stamp := ts;
      }
      var failed := Enter(p, u, 2, stamp);
      if failed && isnew {
        assert false;
      }
    }

    /** handlecreatemsg. */
    method HandleCreate(u: nat, args: seq<string>)
      requires Valid()
      modifies this
      ensures Valid() && View() == Effect(lib, old(View()), Create(u, args))
    {
      hide Linked, Indexed, Populated, ViewOf, Fold, Created, StrToL, Names;
      if |args| < 2 || u !in nicks {
        return;
      }
      var ts := StrToL(args[1]);
      var next := 0;
      ghost var goal := CreateNames(ViewOf(index, chans), u, Names(args[0]), ts);
      assert args[0][0..] == args[0];
      while next < |args[0]|
        invariant next <= |args[0]| && Valid() && nicks.Keys == old(nicks.Keys)
        invariant CreateNames(ViewOf(index, chans), u, Names(args[0][next..]), ts) == goal
      {
        var name;
        ghost var names := Names(args[0][next..]);
        name, next := NextName(args[0], next);
        assert names[0] == name && names[1..] == Names(args[0][next..]);
        CreateFor(u, Fold(name), ts);
      }
      NoNames(args[0], next);
    }

    /** What PART and KICK do once the user and the name are known. */
    method LeaveChannel(u: nat, name: string)
      requires Valid() && u in nicks
      modifies this
      ensures Valid() && View() == old(View()).(chans := Leave(old(View().chans), name, u))
    {
      hide Linked, Indexed, ViewOf;
      NotInView(index, chans, name);
      if name in index {
        IndexedAt(index, chans, name);
        DelNickFromChannel(index[name], u, true);
      }
    }

    /** handlepartmsg. */
    method HandlePart(u: nat, args: seq<string>)
      requires Valid()
      modifies this
      ensures Valid() && View() == Effect(lib, old(View()), Part(u, args))
    {
      hide Linked, Indexed, Populated, ViewOf, Fold, Leave, Names;
      if args == [] || u !in nicks {
        return;
      }
      var next := 0;
      ghost var goal := PartNames(ViewOf(index, chans), u, Names(args[0]));
      assert args[0][0..] == args[0];
      while next < |args[0]|
        invariant next <= |args[0]| && Valid() && nicks.Keys == old(nicks.Keys)
        invariant PartNames(ViewOf(index, chans), u, Names(args[0][next..])) == goal
      {
        var name;
        ghost var names := Names(args[0][next..]);
        name, next := NextName(args[0], next);
        assert names[0] == name && names[1..] == Names(args[0][next..]);
        LeaveChannel(u, Fold(name));
      }
      NoNames(args[0], next);
    }

    /** handlekickmsg. */
    method HandleKick(args: seq<string>)
      requires Valid()
      modifies this
      ensures Valid() && View() == Effect(lib, old(View()), Kick(args))
    {
      hide Linked, Indexed, Populated, ViewOf, Fold, Leave, NumericToLong;
      if |args| < 3 || NumericToLong(args[1]) !in nicks {
        return;
      }
      LeaveChannel(NumericToLong(args[1]), Fold(args[0]));
    }

    /** A user appears on the network, with an empty array. */
    method HandleNewNick(u: nat)
      requires Valid() && u !in nicks
      modifies this
      ensures Valid() && View() == Effect(lib, old(View()), NewNick(u))
    {
      hide Indexed, ViewOf;
      NewArrayLinked(nicks, chans, u);
      nicks := nicks[u := []];
    }

    /** A user leaves the network: off every channel, and its array freed. */
    method HandleLostNick(u: nat)
      requires Valid() && u in nicks
      modifies this
      ensures Valid() && View() == Effect(lib, old(View()), LostNick(u))
    {
      hide Linked, Indexed, ViewOf, Populated, LeaveAll;
      LeaveChannels(u);
      ArrayGone(nicks[u := []], chans, u);
      assert nicks[u := []] - {u} == nicks - {u};
      nicks := nicks - {u};
    }

    /** handleburstmsg, with the channel record it works on and the arrays of the users it adds. */
    method HandleChanBurst(args: seq<string>)
      requires Valid() && Whole(View(), ChanBurst(args))
      modifies this
      ensures Valid() && View() == Effect(lib, old(View()), ChanBurst(args))
    {
      hide Linked, Indexed, Populated, ViewOf, Fold, HandleBurst, KeyArrives, KeyStored;
      if args == [] {
        return;
      }
      var name := Fold(args[0]);
      NotInView(index, chans, name);
      var env := Env(lib, nicks.Keys);
      if name in index {
        var p := index[name];
        IndexedAt(index, chans, name);
        PopulatedAt(chans, p);
        var c := chans[p].chan;
        BurstGrows(env, Some(c), args);
        var r := HandleBurst(env, Some(c), args);
        JoinAll(p, r.value);
      } else {
        BurstGrows(env, None, args);
        var r := HandleBurst(env, None, args);
        if r.Some? {
          var p := CreateChannel(name);
          assert Populated(chans - {p}) by { FreshGone(old(chans), p, Record(name, EMPTY_CHANNEL)); }
          JoinAll(p, r.value);
          assert old(ViewOf(index, chans))[name := EMPTY_CHANNEL][name := r.value] == old(ViewOf(index, chans))[name := r.value];
        } else {
          assert ViewOf(index, chans) - {name} == ViewOf(index, chans);
        }
      }
    }

    /** The record becomes `c`, and everyone new on it gets the pointer. */
    method JoinAll(p: Pointer, c: Chan)
      requires Linked(nicks, chans) && Indexed(index, chans) && p in chans && Populated(chans - {p})
      requires c.users != map[]
      requires chans[p].chan.users.Keys <= c.users.Keys && c.users.Keys <= chans[p].chan.users.Keys + nicks.Keys
      modifies this`nicks, this`chans
      ensures Valid() && nicks.Keys == old(nicks.Keys)
      ensures ViewOf(index, chans) == old(ViewOf(index, chans))[old(chans)[p].name := c]
    {
      hide Linked, Indexed, ViewOf;
      RecordChanged(index, chans, p, c);
      PopulatedWith(chans, p, c);
      ArriveLinked(nicks, chans, p, c);
      nicks := Arrived(nicks, p, c.users.Keys - chans[p].chan.users.Keys);
      chans := WithChan(chans, p, c);
    }

    /** One message. */
    method Handle(m: Message)
      requires Valid() && Whole(View(), m)
      modifies this
      ensures Valid() && View() == Effect(lib, old(View()), m)
    {
      hide Linked, Indexed, Populated, ViewOf, Whole, HandleBurst, JoinNames, CreateNames, PartNames, LeaveAll;
      match m
      case NewNick(u) =>
        if u !in nicks {
          HandleNewNick(u);
        }
      case LostNick(u) =>
        if u in nicks {
          HandleLostNick(u);
        }
      case Join(u, args) => HandleJoin(u, args);
      case Create(u, args) => HandleCreate(u, args);
      case Part(u, args) => HandlePart(u, args);
      case Kick(args) => HandleKick(args);
      case ChanBurst(args) => HandleChanBurst(args);
    }

    /** Any run of messages: the arrays and the tables stay mirror images, and the network is what the messages say. */
    method Run(ms: seq<Message>)
      requires Valid() && Sound(View()) && AllWhole(lib, View(), ms)
      modifies this
      ensures Valid() && Sound(View()) && View() == Effects(lib, old(View()), ms)
    {
      hide Linked, Indexed, Populated, ViewOf, Effect, Whole, Sound;
      assert ms[0..] == ms;
      for i := 0 to |ms|
        invariant Valid() && Sound(View()) && AllWhole(lib, View(), ms[i..])
        invariant Effects(lib, View(), ms[i..]) == Effects(lib, old(View()), ms)
      {
        assert ms[i..][0] == ms[i] && ms[i..][1..] == ms[i + 1..];
        EffectSound(lib, View(), ms[i]);
        Handle(ms[i]);
      }
      assert ms[|ms|..] == [];
    }
  }

  lemma PopulatedAt(chans: map<Pointer, Record>, p: Pointer)
    requires Populated(chans) && p in chans
    ensures chans[p].chan.users != map[] && Populated(chans - {p})
  {
  }

  lemma PopulatedWith(chans: map<Pointer, Record>, p: Pointer, c: Chan)
    requires p in chans && Populated(chans - {p}) && c.users != map[]
    ensures Populated(WithChan(chans, p, c))
  {
    var chans' := WithChan(chans, p, c);
    forall q | q in chans' ensures chans'[q].chan.users != map[] {
      if q != p {
        assert q in chans - {p} && chans'[q] == (chans - {p})[q];
      }
    }
  }

  lemma FreshGone(chans: map<Pointer, Record>, p: Pointer, r: Record)
    requires Populated(chans) && p !in chans
    ensures Populated(chans[p := r] - {p})
  {
    assert chans[p := r] - {p} == chans;
  }

  function Arrived(nicks: map<nat, seq<Pointer>>, p: Pointer, us: set<nat>): map<nat, seq<Pointer>> {
    map u | u in nicks :: if u in us then nicks[u] + [p] else nicks[u]
  }

  lemma ArriveLinked(nicks: map<nat, seq<Pointer>>, chans: map<Pointer, Record>, p: Pointer, c: Chan)
    requires Linked(nicks, chans) && p in chans
    requires chans[p].chan.users.Keys <= c.users.Keys && c.users.Keys <= chans[p].chan.users.Keys + nicks.Keys
    ensures Linked(Arrived(nicks, p, c.users.Keys - chans[p].chan.users.Keys), WithChan(chans, p, c))
  {
    var us := c.users.Keys - chans[p].chan.users.Keys;
    var nicks', chans' := Arrived(nicks, p, us), WithChan(chans, p, c);
    forall u | u in us ensures !OnNick(nicks, u, p) {
      assert !OnChannel(chans, u, p);
    }
    forall v, q ensures OnChannel(chans', v, q) <==> OnChannel(chans, v, q) || (v in us && q == p) {}
    forall v, q ensures OnNick(nicks', v, q) <==> OnNick(nicks, v, q) || (v in us && q == p) {}
  }

  /** When the arguments run out behind a `+k`, a key is there already: `stored`, or one that came before. */
  predicate KeysArrive(args: seq<string>, stored: bool)
    decreases |args|
  {
    if args == [] then true
    else if args[0] != "" && args[0][0] == '+' then
      var on := SetFlags({}, args[0], true);
      var need := (if 'l' in on then 1 else 0) + (if 'k' in on then 1 else 0);
      if |args| <= need then 'k' !in on || stored else KeysArrive(args[1 + need..], stored || 'k' in on)
    else KeysArrive(args[1..], stored)
  }

  /** The same of a burst message and the channel it meets: of a newer burst no modes are taken, and an older one
      clears the key. */
  predicate KeyArrives(st: Option<Chan>, args: seq<string>) {
    |args| >= 2 ==>
      var ts := StrToL(args[1]);
      (st.Some? && ts > st.value.timestamp) || KeysArrive(args[2..], Opened(st, ts).key.Some?)
  }

  lemma {:induction false} SetFlagsLetter(flags: set<char>, base: set<char>, s: string, add: bool, c: char)
    requires c in flags <==> c in base
    ensures c in SetFlags(flags, s, add) <==> c in SetFlags(base, s, add)
    decreases |s|
  {
    if s != "" {
      var add' := if s[0] == '+' then true else if s[0] == '-' then false else add;
      if s[0] == '+' || s[0] == '-' || !IsCMode(s[0]) {
        SetFlagsLetter(flags, base, s[1..], add', c);
      } else if add {
        SetFlagsLetter(flags + {s[0]}, base + {s[0]}, s[1..], add', c);
      } else {
        SetFlagsLetter(flags - {s[0]}, base - {s[0]}, s[1..], add', c);
      }
    }
  }

  lemma ModesAndKey(c: Chan, args: seq<string>)
    requires KeyStored(c) && args != [] && args[0] != "" && args[0][0] == '+'
    ensures var on := SetFlags({}, args[0], true);
            var need := (if 'l' in on then 1 else 0) + (if 'k' in on then 1 else 0);
            var r := ApplyModes(c, args);
            && r.c.timestamp == c.timestamp && r.c.users == c.users
            && (r.giveup <==> |args| <= need)
            && (r.giveup ==> (KeyStored(r.c) <==> 'k' !in on || c.key.Some?))
            && (!r.giveup ==> r.used == 1 + need && (r.c.key.Some? <==> c.key.Some? || 'k' in on))
  {
    SetFlagsLetter(c.flags - {'l', 'k'}, {}, args[0], true, 'l');
    SetFlagsLetter(c.flags - {'l', 'k'}, {}, args[0], true, 'k');
    hide SetFlags, MergeLimit, StrToL, StrCmp;
  }

  /** The argument loop takes nobody off, adds only users that exist, and leaves a key behind its flag exactly when
      none was missing. */
  lemma {:induction false} ArgsGrow(env: Env, c: Chan, args: seq<string>, wipeout: bool)
    requires KeyStored(c)
    ensures var r := ApplyArgs(env, c, args, wipeout);
            && c.users.Keys <= r.users.Keys && r.users.Keys <= c.users.Keys + env.known
            && (KeyStored(r) <==> wipeout || KeysArrive(args, c.key.Some?))
    decreases |args|
  {
    hide AddNicks, UserList, SetBans, BanWords, ApplyModes, ArgLetters, SetFlags;
    if args == [] {
    } else if args[0] != "" && args[0][0] == '+' {
      if wipeout {
        var skip := 1 + ArgLetters(args[0]);
        ArgsGrow(env, c, if skip <= |args| then args[skip..] else [], wipeout);
      } else {
        ModesAndKey(c, args);
        var r := ApplyModes(c, args);
        if !r.giveup {
          ArgsGrow(env, r.c, args[r.used..], wipeout);
        }
      }
    } else if args[0] != "" && args[0][0] == '%' {
      ArgsGrow(env, c.(bans := SetBans(env.lib, c.bans, BanWords(args[0][1..]))), args[1..], wipeout);
    } else {
      var us := UserList(args[0], 0);
      NicksGrow(env.known, c.users, us, wipeout);
      ArgsGrow(env, c.(users := AddNicks(env.known, c.users, us, wipeout)), args[1..], wipeout);
    }
  }

  lemma NicksGrow(known: set<nat>, users: map<nat, nat>, us: seq<Listed>, wipeout: bool)
    ensures var r := AddNicks(known, users, us, wipeout);
            users.Keys <= r.Keys && r.Keys <= users.Keys + known
  {
    AddNicksJoins(known, users, us, wipeout);
  }

  /** A burst takes nobody off, adds only users that exist, and leaves a key behind its flag exactly when none was
      missing. */
  lemma BurstGrows(env: Env, st: Option<Chan>, args: seq<string>)
    requires ChanOk(st) && (st.Some? ==> st.value.users != map[])
    ensures var users := if st.Some? then st.value.users.Keys else {};
            match HandleBurst(env, st, args)
            case Some(c) =>
              && (KeyStored(c) <==> KeyArrives(st, args))
              && c.users != map[] && users <= c.users.Keys && c.users.Keys <= users + env.known
            case None => st.None?
  {
    hide ApplyArgs, StrToL;
    if |args| >= 2 {
      var ts := StrToL(args[1]);
      var c := Opened(st, ts);
      assert c.users.Keys == if st.Some? then st.value.users.Keys else {};
      if st.Some? {
        assert st.value.users.Keys != {};
      }
      ArgsGrow(env, c, args[2..], st.Some? && ts > st.value.timestamp);
    }
  }

  /** The scan for the next comma. */
  method NextName(s: string, from: nat) returns (name: string, next: nat)
    requires from < |s|
    ensures from < next <= |s|
    ensures Names(s[from..]) != [] && Names(s[from..])[0] == name && Names(s[from..])[1..] == Names(s[next..])
  {
    var pos := from;
    while pos < |s| && s[pos] != ','
      invariant from <= pos <= |s|
      invariant NameLength(s[from..]) == pos - from + NameLength(s[pos..])
    {
      assert s[pos..][0] == s[pos] && s[pos..][1..] == s[pos + 1..];
      pos := pos + 1;
    }
    name := s[from..pos];
    next := if pos < |s| then pos + 1 else pos;
    NamesFrom(s, from, pos);
  }

  lemma NamesFrom(s: string, from: nat, pos: nat)
    requires from <= pos <= |s| && from < |s| && NameLength(s[from..]) == pos - from
    ensures Names(s[from..]) == [s[from..pos]] + Names(s[if pos < |s| then pos + 1 else pos..])
  {
    hide NameLength;
    var t, k := s[from..], pos - from;
    assert t[..k] == s[from..pos];
    assert pos < |s| ==> t[k + 1..] == s[pos + 1..];
    assert pos == |s| ==> t[k..] == s[pos..];
  }

  lemma NoNames(s: string, next: nat)
    requires next == |s|
    ensures Names(s[next..]) == []
  {
  }

  lemma NewArrayLinked(nicks: map<nat, seq<Pointer>>, chans: map<Pointer, Record>, u: nat)
    requires Linked(nicks, chans) && u !in nicks
    ensures Linked(nicks[u := []], chans)
  {
    forall v, q ensures OnNick(nicks[u := []], v, q) <==> OnNick(nicks, v, q) {}
  }

  lemma ArrayGone(nicks: map<nat, seq<Pointer>>, chans: map<Pointer, Record>, u: nat)
    requires Linked(nicks, chans) && u in nicks && nicks[u] == []
    ensures Linked(nicks - {u}, chans)
  {
    forall v, q ensures OnNick(nicks - {u}, v, q) <==> OnNick(nicks, v, q) {}
  }

  lemma NotInView(index: map<string, Pointer>, chans: map<Pointer, Record>, name: string)
    requires Indexed(index, chans)
    ensures name in ViewOf(index, chans) <==> name in index
  {
  }

  lemma IndexedAt(index: map<string, Pointer>, chans: map<Pointer, Record>, name: string)
    requires Indexed(index, chans) && name in index
    ensures index[name] in chans && chans[index[name]].name == name
    ensures name in ViewOf(index, chans) && ViewOf(index, chans)[name] == chans[index[name]].chan
    ensures ViewOf(index, chans)[name := chans[index[name]].chan] == ViewOf(index, chans)
  {
  }

  lemma OnNothing(nicks: map<nat, seq<Pointer>>, index: map<string, Pointer>, chans: map<Pointer, Record>, u: nat)
    requires Linked(nicks, chans) && Indexed(index, chans) && Populated(chans) && u in nicks && nicks[u] == []
    ensures LeaveAll(ViewOf(index, chans), u) == ViewOf(index, chans)
  {
    forall n | n in index ensures u !in chans[index[n]].chan.users {
      assert !OnNick(nicks, u, index[n]);
    }
    LeaveAllNothing(ViewOf(index, chans), u);
  }

  lemma FreshPointer(used: set<Pointer>)
    ensures exists p: Pointer :: p !in used
  {
    var bound := Above(used);
    assert bound !in used;
  }

  ghost function Above(used: set<Pointer>): (b: Pointer)
    ensures forall p | p in used :: p < b
  {
    if used == {} then 0
    else
      var p :| p in used;
      var b := Above(used - {p});
      assert forall q | q in used :: q == p || q in used - {p};
      if p < b then b else p + 1
  }

  // ---------------------------------------------------------------- what the messages leave alone

  predicate On(chans: map<string, Chan>, v: nat, n: string) {
    n in chans && v in chans[n].users
  }

  /** `u` may have come or gone on channel `n`; everyone else stands where they stood, with the same modes, and a
      channel someone else is on keeps everything but a missing timestamp. */
  ghost predicate OnlyMoves(before: map<string, Chan>, after: map<string, Chan>, u: nat) {
    && (forall v, n | v != u :: On(before, v, n) <==> On(after, v, n))
    && (forall v, n | v != u && On(before, v, n) && On(after, v, n) ::
          && after[n].users[v] == before[n].users[v]
          && after[n] == before[n].(users := after[n].users, timestamp := after[n].timestamp)
          && (before[n].timestamp != MAGIC_REMOTE_JOIN_TS ==> after[n].timestamp == before[n].timestamp))
  }

  lemma LeaveAllMoves(chans: map<string, Chan>, u: nat, users: set<nat>)
    requires ChansSound(chans, users)
    ensures OnlyMoves(chans, LeaveAll(chans, u), u) && ChansSound(LeaveAll(chans, u), users - {u})
    ensures forall n :: !On(LeaveAll(chans, u), u, n)
  {
    var after := LeaveAll(chans, u);
    forall v, n | v != u ensures On(chans, v, n) <==> On(after, v, n) {
      if On(chans, v, n) {
        assert v in chans[n].users - {u};
      }
    }
  }

  lemma LeaveMoves(chans: map<string, Chan>, name: string, u: nat, users: set<nat>)
    requires ChansSound(chans, users)
    ensures OnlyMoves(chans, Leave(chans, name, u), u) && ChansSound(Leave(chans, name, u), users)
    ensures forall n :: On(Leave(chans, name, u), u, n) <==> On(chans, u, n) && n != name
  {
    var after := Leave(chans, name, u);
    forall v, n ensures On(after, v, n) <==> On(chans, v, n) && !(v == u && n == name) {
      if n == name && v != u && On(chans, v, n) {
        assert v in chans[n].users - {u};
      }
    }
  }

  lemma JoinedMoves(chans: map<string, Chan>, u: nat, name: string, ts: int, users: set<nat>)
    requires ChansSound(chans, users) && u in users
    ensures OnlyMoves(chans, Joined(chans, u, name, ts), u) && ChansSound(Joined(chans, u, name, ts), users)
    ensures forall n :: On(Joined(chans, u, name, ts), u, n) <==> On(chans, u, n) || n == name
  {
    var after := Joined(chans, u, name, ts);
    assert u in after[name].users;
    forall v, n ensures On(after, v, n) <==> On(chans, v, n) || (v == u && n == name) {}
  }

  lemma CreatedMoves(chans: map<string, Chan>, u: nat, name: string, ts: int, users: set<nat>)
    requires ChansSound(chans, users) && u in users
    ensures OnlyMoves(chans, Created(chans, u, name, ts), u) && ChansSound(Created(chans, u, name, ts), users)
    ensures forall n :: On(Created(chans, u, name, ts), u, n) <==> On(chans, u, n) || n == name
  {
    var after := Created(chans, u, name, ts);
    assert u in after[name].users;
    forall v, n ensures On(after, v, n) <==> On(chans, v, n) || (v == u && n == name) {}
  }

  lemma MovesChain(a: map<string, Chan>, b: map<string, Chan>, c: map<string, Chan>, u: nat)
    requires OnlyMoves(a, b, u) && OnlyMoves(b, c, u)
    ensures OnlyMoves(a, c, u)
  {
    hide On;
    forall v, n | v != u && On(a, v, n) && On(c, v, n)
      ensures On(a, v, n) && On(b, v, n) && On(c, v, n)
    {
    }
    MovesChainAt(a, b, c, u);
  }

  lemma MovesChainAt(a: map<string, Chan>, b: map<string, Chan>, c: map<string, Chan>, u: nat)
    requires OnlyMoves(a, b, u) && OnlyMoves(b, c, u)
    ensures forall v, n | v != u && On(a, v, n) && On(c, v, n) ::
              && c[n].users[v] == a[n].users[v]
              && c[n] == a[n].(users := c[n].users, timestamp := c[n].timestamp)
              && (a[n].timestamp != MAGIC_REMOTE_JOIN_TS ==> c[n].timestamp == a[n].timestamp)
  {
    forall v, n | v != u && On(a, v, n) && On(c, v, n)
      ensures && c[n].users[v] == a[n].users[v]
              && c[n] == a[n].(users := c[n].users, timestamp := c[n].timestamp)
              && (a[n].timestamp != MAGIC_REMOTE_JOIN_TS ==> c[n].timestamp == a[n].timestamp)
    {
      assert On(b, v, n);
    }
  }

  lemma SameMoves(chans: map<string, Chan>, u: nat)
    ensures OnlyMoves(chans, chans, u)
  {
  }

  /** The channels named behind the last "0" of a JOIN. */
  function Joining(names: seq<string>): set<string> {
    if names == [] then {}
    else if names[0] == "0" || "0" in names[1..] then Joining(names[1..])
    else {Fold(names[0])} + Joining(names[1..])
  }

  function Folded(names: seq<string>): set<string> {
    set x | x in names :: Fold(x)
  }

  lemma FoldedFirst(names: seq<string>)
    requires names != []
    ensures Folded(names) == {Fold(names[0])} + Folded(names[1..])
  {
    assert names == [names[0]] + names[1..];
  }

  /** After a JOIN the user is exactly on the channels named behind the last "0", and on those it was on before when
      there is no "0". */
  lemma {:induction false} JoinNamesMoves(chans: map<string, Chan>, u: nat, names: seq<string>, ts: int, users: set<nat>)
    requires ChansSound(chans, users) && u in users
    ensures var after := JoinNames(chans, u, names, ts);
            && OnlyMoves(chans, after, u) && ChansSound(after, users)
            && forall n :: On(after, u, n) <==> n in Joining(names) || ("0" !in names && On(chans, u, n))
    decreases |names|
  {
    hide ChansSound, OnlyMoves, Joined, LeaveAll, On, Fold;
    if names == [] {
      SameMoves(chans, u);
    } else {
      var next := if names[0] == "0" then LeaveAll(chans, u) else Joined(chans, u, Fold(names[0]), ts);
      if names[0] == "0" {
        LeaveAllMoves(chans, u, users);
        MoreUsers(next, users - {u}, users);
      } else {
        JoinedMoves(chans, u, Fold(names[0]), ts, users);
      }
      JoinNamesMoves(next, u, names[1..], ts, users);
      MovesChain(chans, next, JoinNames(next, u, names[1..], ts), u);
      assert "0" in names <==> names[0] == "0" || "0" in names[1..];
    }
  }

  lemma MoreUsers(chans: map<string, Chan>, some: set<nat>, more: set<nat>)
    requires ChansSound(chans, some) && some <= more
    ensures ChansSound(chans, more)
  {
  }

  lemma {:induction false} CreateNamesMoves(chans: map<string, Chan>, u: nat, names: seq<string>, ts: int, users: set<nat>)
    requires ChansSound(chans, users) && u in users
    ensures var after := CreateNames(chans, u, names, ts);
            && OnlyMoves(chans, after, u) && ChansSound(after, users)
            && forall n :: On(after, u, n) <==> n in Folded(names) || On(chans, u, n)
    decreases |names|
  {
    hide ChansSound, OnlyMoves, Created, On, Fold;
    if names == [] {
      SameMoves(chans, u);
    } else {
      var next := Created(chans, u, Fold(names[0]), ts);
      CreatedMoves(chans, u, Fold(names[0]), ts, users);
      CreateNamesMoves(next, u, names[1..], ts, users);
      MovesChain(chans, next, CreateNames(next, u, names[1..], ts), u);
      FoldedFirst(names);
      hide Folded;
    }
  }

  lemma {:induction false} PartNamesMoves(chans: map<string, Chan>, u: nat, names: seq<string>, users: set<nat>)
    requires ChansSound(chans, users)
    ensures var after := PartNames(chans, u, names);
            && OnlyMoves(chans, after, u) && ChansSound(after, users)
            && forall n :: On(after, u, n) <==> On(chans, u, n) && n !in Folded(names)
    decreases |names|
  {
    hide ChansSound, OnlyMoves, Leave, On, Fold;
    if names == [] {
      SameMoves(chans, u);
    } else {
      var next := Leave(chans, Fold(names[0]), u);
      LeaveMoves(chans, Fold(names[0]), u, users);
      PartNamesMoves(next, u, names[1..], users);
      MovesChain(chans, next, PartNames(next, u, names[1..]), u);
      FoldedFirst(names);
      hide Folded;
    }
  }

  /** A burst takes nobody off a channel, adds only users that exist, and touches no other channel. */
  lemma BurstMoves(lib: Lib, chans: map<string, Chan>, args: seq<string>, users: set<nat>)
    requires ChansSound(chans, users) && Whole(Net(users, chans), ChanBurst(args))
    ensures var after := BurstIn(Env(lib, users), chans, args);
            && ChansSound(after, users)
            && (forall v, n | On(chans, v, n) :: On(after, v, n))
            && (forall n | args == [] || n != Fold(args[0]) :: (n in after <==> n in chans) && (n in chans ==> after[n] == chans[n]))
  {
    hide HandleBurst, Fold;
    if args != [] {
      var name := Fold(args[0]);
      BurstGrows(Env(lib, users), ChanIn(chans, name), args);
      hide KeyArrives;
    }
  }

  lemma EffectSound(lib: Lib, net: Net, m: Message)
    requires Sound(net) && Whole(net, m)
    ensures Sound(Effect(lib, net, m))
  {
    hide ChansSound, OnlyMoves, JoinNames, CreateNames, PartNames, Leave, LeaveAll, BurstIn, Names, Fold, StrToL, NumericToLong, On;
    match m
    case NewNick(u) => MoreUsers(net.chans, net.users, net.users + {u});
    case LostNick(u) => LeaveAllMoves(net.chans, u, net.users);
    case Join(u, args) =>
      if args != [] && u in net.users {
        JoinNamesMoves(net.chans, u, Names(args[0]), if |args| > 1 then StrToL(args[1]) else 0, net.users);
      }
    case Create(u, args) =>
      if |args| >= 2 && u in net.users {
        CreateNamesMoves(net.chans, u, Names(args[0]), StrToL(args[1]), net.users);
      }
    case Part(u, args) =>
      if args != [] && u in net.users {
        PartNamesMoves(net.chans, u, Names(args[0]), net.users);
      }
    case Kick(args) =>
      if |args| >= 3 {
        LeaveMoves(net.chans, Fold(args[0]), NumericToLong(args[1]), net.users);
      }
    case ChanBurst(args) => BurstMoves(lib, net.chans, args, net.users);
  }

  ghost predicate KeysStored(chans: map<string, Chan>) {
    forall n | n in chans :: KeyStored(chans[n])
  }

  lemma {:induction false} JoinNamesKeys(chans: map<string, Chan>, u: nat, names: seq<string>, ts: int)
    requires KeysStored(chans)
    ensures KeysStored(JoinNames(chans, u, names, ts))
    decreases |names|
  {
    hide Fold;
    if names != [] {
      var next := if names[0] == "0" then LeaveAll(chans, u) else Joined(chans, u, Fold(names[0]), ts);
      assert KeysStored(next);
      hide Joined, LeaveAll;
      JoinNamesKeys(next, u, names[1..], ts);
    }
  }

  lemma {:induction false} CreateNamesKeys(chans: map<string, Chan>, u: nat, names: seq<string>, ts: int)
    requires KeysStored(chans)
    ensures KeysStored(CreateNames(chans, u, names, ts))
    decreases |names|
  {
    hide Fold;
    if names != [] {
      assert KeysStored(Created(chans, u, Fold(names[0]), ts));
      hide Created;
      CreateNamesKeys(Created(chans, u, Fold(names[0]), ts), u, names[1..], ts);
    }
  }

  lemma {:induction false} PartNamesKeys(chans: map<string, Chan>, u: nat, names: seq<string>)
    requires KeysStored(chans)
    ensures KeysStored(PartNames(chans, u, names))
    decreases |names|
  {
    hide Fold;
    if names != [] {
      assert KeysStored(Leave(chans, Fold(names[0]), u));
      hide Leave;
      PartNamesKeys(Leave(chans, Fold(names[0]), u), u, names[1..]);
    }
  }

  /** The burst is lost for want of users, or leaves no flag without a key. */
  predicate BringsKey(env: Env, chans: map<string, Chan>, args: seq<string>)
    requires args != [] && KeysStored(chans)
  {
    var st := ChanIn(chans, Fold(args[0]));
    HandleBurst(env, st, args).None? || KeyArrives(st, args)
  }

  lemma BurstKeys(lib: Lib, chans: map<string, Chan>, args: seq<string>, users: set<nat>)
    requires ChansSound(chans, users) && KeysStored(chans) && args != []
    ensures KeysStored(BurstIn(Env(lib, users), chans, args)) <==> BringsKey(Env(lib, users), chans, args)
  {
    hide HandleBurst, Fold, KeyArrives, KeyStored;
    var name := Fold(args[0]);
    BurstGrows(Env(lib, users), ChanIn(chans, name), args);
    var after := BurstIn(Env(lib, users), chans, args);
    assert forall n | n != name :: n in after ==> n in chans && after[n] == chans[n];
    match HandleBurst(Env(lib, users), ChanIn(chans, name), args)
    case Some(c) => assert after[name] == c;
    case None => assert name !in after;
  }

  /** While every keyed channel has its key every message may come, and all have it afterwards unless a burst, not lost
      for want of users, leaves the flag without a key. */
  lemma KeysKept(lib: Lib, net: Net, m: Message)
    requires Sound(net) && KeysStored(net.chans)
    ensures Whole(net, m)
    ensures KeysStored(Effect(lib, net, m).chans)
            <==> (m.ChanBurst? && m.args != [] ==> BringsKey(Env(lib, net.users), net.chans, m.args))
  {
    hide BringsKey, HandleBurst, Fold, JoinNames, CreateNames, PartNames, Names, StrToL, NumericToLong, ChansSound;
    match m
    case NewNick(u) =>
    case LostNick(u) =>
    case Join(u, args) =>
      if args != [] {
        JoinNamesKeys(net.chans, u, Names(args[0]), if |args| > 1 then StrToL(args[1]) else 0);
      }
    case Create(u, args) =>
      if |args| >= 2 {
        CreateNamesKeys(net.chans, u, Names(args[0]), StrToL(args[1]));
      }
    case Part(u, args) =>
      if args != [] {
        PartNamesKeys(net.chans, u, Names(args[0]));
      }
    case Kick(args) =>
    case ChanBurst(args) =>
      if args != [] {
        BurstKeys(lib, net.chans, args, net.users);
      }
  }

  lemma OneListed()
    ensures UserList("AAAAB", 0) == [Listed(1, 0)]
  {
    assert "AAAAB"[..5] == "AAAAB" && "AAAAB"[..4] == "AAAA" && "AAAA"[..3] == "AAA" && "AAA"[..2] == "AA";
    assert "AA"[..1] == "A" && "A"[..0] == "";
    assert NumericToLong("") == 0 && NumericToLong("A") == 0 && NumericToLong("AA") == 0;
    assert NumericToLong("AAA") == 0 && NumericToLong("AAAA") == 0 && NumericToLong("AAAAB") == 1;
  }

  lemma JustKey()
    ensures SetFlags({}, "+k", true) == {'k'}
  {
    assert "+k"[1..] == "k" && "k"[1..] == "";
    assert SetFlags({}, "k", true) == SetFlags({'k'}, "", true);
  }

  lemma KeyFlagAlone(env: Env, c: Chan, args: seq<string>)
    requires c.flags == {} && args == ["+k"]
    ensures ApplyArgs(env, c, args, false) == c.(flags := {'k'})
  {
    hide SetFlags, AddNicks, SetBans, UserList, BanWords, ApplyArgs;
    JustKey();
    assert c.flags - {'l', 'k'} == {};
    TakeOrGiveUp(env, c, args);
  }

  lemma OneAdded(env: Env, c: Chan, rest: seq<string>)
    requires c.users == map[] && 1 in env.known && KeyStored(c)
    ensures ApplyArgs(env, c, ["AAAAB"] + rest, false) == ApplyArgs(env, c.(users := map[1 := 0]), rest, false)
  {
    hide UserList, ApplyArgs;
    OneListed();
    ApplyUserArg(env, c, "AAAAB", rest, false);
    var us := [Listed(1, 0)];
    assert us[1..] == [];
    assert AddNicks(env.known, map[], us, false) == AddNicks(env.known, map[1 := 0], [], false) == map[1 := 0];
  }

  lemma SevenRead()
    ensures StrToL("7") == 7
  {
    assert Print(7) == "7";
    hide StrToL;
    StrToLPrinted(7);
  }

  /** A burst that announces a key and does not bring it leaves the channel flagged as keyed without a key. */
  lemma KeyMissing(env: Env)
    requires 1 in env.known
    ensures var r := HandleBurst(env, None, ["#c", "7", "AAAAB", "+k"]); r.Some? && !KeyStored(r.value)
  {
    hide ApplyArgs, StrToL, Print;
    var c := Chan(7, {}, 0, None, [], map[]);
    var args := ["#c", "7", "AAAAB", "+k"];
    SevenRead();
    assert args[2..] == ["AAAAB"] + ["+k"];
    OneAdded(env, c, ["+k"]);
    KeyFlagAlone(env, c.(users := map[1 := 0]), ["+k"]);
    assert StrToL(args[1]) == 7 && Opened(None, 7) == c;
    var c2 := c.(users := map[1 := 0], flags := {'k'});
    assert ApplyArgs(env, c, args[2..], false) == c2;
    assert 1 in c2.users && 'k' in c2.flags;
    assert HandleBurst(env, None, args) == Some(c2);
  }
}
