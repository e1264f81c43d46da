/** The hook dispatcher of core/hooks.c: per-hook linked lists ordered by priority, callbacks that register, deregister
    and trigger while lists are being walked, and nodes that are only freed when no list is. */
module HookDispatch {

  const HOOKMAX: nat := 5000
  const ENDOFHOOKSQUEUE: nat := 3  // HOOK_CORE_ENDOFHOOKSQUEUE

  /** A list node; callback 0 is the null pointer a deregistration leaves. `home` is the hook it belongs to, `serial` the
      place of its registration among all events. */
  class Hook {
    var callback: nat
    var next: Hook?
    const priority: int
    ghost const home: nat
    ghost const serial: nat

    constructor (callback: nat, priority: int, ghost home: nat, ghost serial: nat)
      ensures this.callback == callback && this.priority == priority && this.home == home && this.serial == serial
    {
      this.callback, this.priority := callback, priority;
      this.home, this.serial := home, serial;
      next := null;
    }
  }

  // ---------------------------------------------------------------- one list

  /** The node at a place, or null behind the end. */
  ghost function At(c: seq<Hook>, i: nat): Hook? {
    if i < |c| then c[i] else null
  }

  /** The nodes `c`, in order, are the list starting at `head`. */
  ghost predicate Chain(head: Hook?, c: seq<Hook>)
    reads c`next
  {
    && head == At(c, 0)
    && forall i | 0 <= i < |c| :: c[i].next == At(c, i + 1)
  }

  /** By priority, and first come first served among equals. */
  ghost predicate Before(a: Hook, b: Hook) {
    a.priority < b.priority || (a.priority == b.priority && a.serial < b.serial)
  }

  ghost predicate InOrder(c: seq<Hook>) {
    forall i, j | 0 <= i < j < |c| :: Before(c[i], c[j])
  }

  /** Some node has this callback. */
  ghost predicate Listed(c: seq<Hook>, callback: nat)
    reads c`callback
  {
    exists i :: 0 <= i < |c| && c[i].callback == callback
  }

  /** No callback is registered twice. */
  ghost predicate Distinct(c: seq<Hook>)
    reads c`callback
  {
    forall i, j | 0 <= i < j < |c| && c[i].callback == c[j].callback :: c[i].callback == 0
  }

  ghost predicate NoneDead(c: seq<Hook>)
    reads c`callback
  {
    forall i | 0 <= i < |c| :: c[i].callback != 0
  }

  /** The nodes with a callback. */
  ghost function Alive(c: seq<Hook>): (r: seq<Hook>)
    reads c`callback
    ensures forall n | n in r :: n in c && n.callback != 0
    ensures forall n | n in c && n.callback != 0 :: n in r
  {
    if c == [] then []
    else
      var last := |c| - 1;
      Alive(c[..last]) + if c[last].callback != 0 then [c[last]] else []
  }

  lemma {:induction false} AliveInOrder(c: seq<Hook>)
    requires InOrder(c)
    ensures InOrder(Alive(c))
  {
    if c != [] {
      var last := |c| - 1;
      AliveInOrder(c[..last]);
      forall n | n in Alive(c[..last]) ensures Before(n, c[last]) {
        var i :| 0 <= i < last && c[i] == n;
      }
    }
  }

  lemma AliveDistinct(c: seq<Hook>)
    requires InOrder(c) && Distinct(c)
    ensures Distinct(Alive(c)) && NoneDead(Alive(c))
    ensures forall callback | callback != 0 :: Listed(c, callback) <==> Listed(Alive(c), callback)
  {
    var r := Alive(c);
    AliveInOrder(c);
    forall i, j | 0 <= i < j < |r| ensures r[i].callback != r[j].callback {
      assert Before(r[i], r[j]) && r[i] in c && r[j] in c;
      var a :| 0 <= a < |c| && c[a] == r[i];
      var b :| 0 <= b < |c| && c[b] == r[j];
    }
    forall callback | callback != 0 ensures Listed(c, callback) <==> Listed(r, callback) {
      if Listed(c, callback) {
        var i :| 0 <= i < |c| && c[i].callback == callback;
        assert c[i] in r;
        var j :| 0 <= j < |r| && r[j] == c[i];
      }
      if Listed(r, callback) {
        var j :| 0 <= j < |r| && r[j].callback == callback;
        assert r[j] in c;
        var i :| 0 <= i < |c| && c[i] == r[j];
      }
    }
  }

  /** A list being relinked: all links but the last one stand, and the last node is `pp`. */
  ghost predicate Linked(head: Hook?, pp: Hook?, c: seq<Hook>)
    reads c`next
  {
    if c == [] then pp == null
    else
      && head == c[0] && pp == c[|c| - 1]
      && forall i | 0 <= i < |c| - 1 :: c[i].next == c[i + 1]
  }

  /** The links from place `i` on. */
  ghost predicate ChainFrom(hp: Hook?, c: seq<Hook>, i: nat)
    reads c`next
  {
    && i <= |c| && hp == At(c, i)
    && forall k | i <= k < |c| :: c[k].next == At(c, k + 1)
  }

  lemma AliveNext(c: seq<Hook>, i: nat)
    requires i < |c|
    ensures Alive(c[..i + 1]) == if c[i].callback != 0 then Alive(c[..i]) + [c[i]] else Alive(c[..i])
  {
    assert c[..i + 1][..i] == c[..i];
  }

  lemma AliveBehind(c: seq<Hook>, i: nat, pp: Hook)
    requires InOrder(c) && i < |c| && pp in Alive(c[..i])
    ensures pp in c && forall k | i <= k < |c| :: c[k] != pp
  {
    assert pp in c[..i];
    var j :| 0 <= j < i && c[j] == pp;
    forall k | i <= k < |c| ensures c[k] != pp {
      assert Before(c[j], c[k]);
    }
  }

  /** Sets the link of the last kept node. */
  method Link(head: Hook?, pp: Hook, n: Hook?, ghost kept: seq<Hook>)
    requires kept != [] && Linked(head, pp, kept) && InOrder(kept)
    modifies pp`next
    ensures Linked(head, pp, kept) && pp.next == n
  {
    forall i | 0 <= i < |kept| - 1 ensures kept[i] != pp {
      assert Before(kept[i], kept[|kept| - 1]);
    }
    pp.next := n;
  }

  lemma LinkedMore(head: Hook?, pp: Hook?, kept: seq<Hook>, hp: Hook)
    requires Linked(head, pp, kept) && (if kept == [] then head == hp else pp.next == hp)
    ensures Linked(head, hp, kept + [hp])
  {
    var r := kept + [hp];
    forall i | 0 <= i < |r| - 1 ensures r[i].next == r[i + 1] {
      if i == |kept| - 1 {
        assert r[i] == pp;
      }
    }
  }

  lemma LinkedAll(head: Hook?, pp: Hook, kept: seq<Hook>)
    requires kept != [] && Linked(head, pp, kept) && pp.next == null
    ensures Chain(head, kept)
  {
  }

  lemma AlivePrefixInOrder(c: seq<Hook>, i: nat)
    requires InOrder(c) && i <= |c|
    ensures InOrder(Alive(c[..i]))
  {
    AliveInOrder(c[..i]);
  }

  /** One node of the walk below. */
  method Keep(head: Hook?, pp: Hook?, hp: Hook, ghost c: seq<Hook>, ghost i: nat) returns (head': Hook?)
    requires InOrder(c) && ChainFrom(hp, c, i) && i < |c| && hp.callback != 0 && Linked(head, pp, Alive(c[..i]))
    modifies c`next
    ensures Linked(head', hp, Alive(c[..i + 1]))
    ensures ChainFrom(hp, c, i)
  {
    hide InOrder, Alive, Linked;
    AliveNext(c, i);
    AlivePrefixInOrder(c, i);
    head' := head;
    ghost var kept := Alive(c[..i]);
    KeptPrevious(head, pp, kept);
    if pp == null {
      head' := hp;
    } else {
      AliveBehind(c, i, pp);
      Link(head, pp, hp, kept);
    }
    LinkedMore(head', pp, kept, hp);
  }

  lemma KeptPrevious(head: Hook?, pp: Hook?, kept: seq<Hook>)
    requires Linked(head, pp, kept)
    ensures pp == null <==> kept == []
    ensures pp != null ==> pp in kept
    ensures kept == [] ==> forall h, q :: Linked(h, q, kept) <==> q == null
  {
  }

  /** The walk of collectgarbage: relinks the nodes that have a callback. */
  method CollectGarbage(head: Hook?, ghost c: seq<Hook>) returns (head': Hook?)
    requires Chain(head, c) && InOrder(c)
    modifies c`next
    ensures Chain(head', Alive(c))
  {
    hide InOrder, Alive, Linked;
    var hp := head;
    var pp: Hook? := null;
    head' := head;
    ghost var i: nat := 0;
    NoneAlive(head, c[..0]);
    while hp != null
      invariant ChainFrom(hp, c, i) && Linked(head', pp, Alive(c[..i]))
      decreases |c| - i
    {
      var np := hp.next;
      assert hp == c[i] && np == At(c, i + 1);
      AliveNext(c, i);
      if hp.callback != 0 {
        head' := Keep(head', pp, hp, c, i);
        pp := hp;
      }
      hp := np;
      i := i + 1;
    }
    assert c[..i] == c;
    AlivePrefixInOrder(c, i);
    KeptPrevious(head', pp, Alive(c));
    if pp == null {
      head' := null;
    } else {
      assert pp in c;
      Link(head', pp, null, Alive(c));
      LinkedAll(head', pp, Alive(c));
    }
  }

  lemma NoneAlive(head: Hook?, c: seq<Hook>)
    requires c == []
    ensures Alive(c) == [] && Linked(head, null, Alive(c))
  {
  }

  /** A node put into a list behind `pred`, or in front. */
  function Inserted(c: seq<Hook>, at: nat, n: Hook): seq<Hook>
    requires at <= |c|
  {
    c[..at] + [n] + c[at..]
  }

  method InsertNode(head: Hook?, pred: Hook?, n: Hook, ghost c: seq<Hook>, ghost at: nat) returns (head': Hook?)
    requires Chain(head, c) && at <= |c| && n !in c && pred == (if at == 0 then null else c[at - 1])
    requires forall i, j | 0 <= i < j < |c| :: c[i] != c[j]
    modifies n`next, (if pred == null then {} else {pred})`next
    ensures Chain(head', Inserted(c, at, n))
  {
    InsertedAt(c, at, n);
    hide Inserted;
    if pred == null {
      n.next := head;
      head' := n;
    } else {
      assert pred in c;
      assert c[at - 1].next == At(c, at);
      n.next := pred.next;
      pred.next := n;
      head' := head;
    }
    ghost var r := Inserted(c, at, n);
    forall i | 0 <= i < |r| ensures r[i].next == At(r, i + 1) {
      if i == at {
        assert r[i] == n && At(r, i + 1) == At(c, at);
      } else if i == at - 1 {
        assert r[i] == c[i] && r[i + 1] == n && c[i] in c;
      } else if i < at {
        assert r[i] == c[i] && r[i + 1] == c[i + 1] && c[i] != c[at - 1] && c[i] in c;
      } else {
        assert r[i] == c[i - 1] && At(r, i + 1) == At(c, i) && c[i - 1] in c;
        assert at > 0 ==> c[at - 1] != c[i - 1];
      }
    }
  }

  lemma EarlierPriorities(c: seq<Hook>, i: nat)
    requires InOrder(c) && i < |c|
    ensures forall k | 0 <= k < i :: c[k].priority <= c[i].priority
  {
    forall k | 0 <= k < i ensures c[k].priority <= c[i].priority {
      assert Before(c[k], c[i]);
    }
  }

  lemma InsertedAt(c: seq<Hook>, at: nat, n: Hook)
    requires at <= |c|
    ensures var r := Inserted(c, at, n);
            |r| == |c| + 1 && forall i | 0 <= i < |r| :: r[i] == if i < at then c[i] else if i == at then n else c[i - 1]
  {
  }

  lemma InOrderApart(c: seq<Hook>)
    requires InOrder(c)
    ensures forall i, j | 0 <= i < j < |c| :: c[i] != c[j]
  {
    forall i, j | 0 <= i < j < |c| ensures c[i] != c[j] {
      assert Before(c[i], c[j]);
    }
  }

  /** A new node stands behind everything of its own priority and before everything of a later one. */
  lemma InsertedInOrder(c: seq<Hook>, at: nat, n: Hook)
    requires InOrder(c) && at <= |c|
    requires forall i | 0 <= i < |c| :: c[i].serial < n.serial
    requires forall i | 0 <= i < |c| :: i < at <==> c[i].priority <= n.priority
    ensures InOrder(Inserted(c, at, n))
  {
    var r := Inserted(c, at, n);
    forall i, j | 0 <= i < j < |r| ensures Before(r[i], r[j]) {
      assert r[i] == if i < at then c[i] else if i == at then n else c[i - 1];
      assert r[j] == if j < at then c[j] else if j == at then n else c[j - 1];
    }
  }

  lemma InsertedListed(c: seq<Hook>, at: nat, n: Hook)
    requires at <= |c|
    ensures forall callback :: Listed(Inserted(c, at, n), callback) <==> Listed(c, callback) || callback == n.callback
    ensures forall m :: m in Inserted(c, at, n) <==> m in c || m == n
    ensures NoneDead(c) && n.callback != 0 ==> NoneDead(Inserted(c, at, n))
    ensures Distinct(c) && !Listed(c, n.callback) ==> Distinct(Inserted(c, at, n))
  {
    var r := Inserted(c, at, n);
    assert forall i | 0 <= i < |r| :: r[i] == if i < at then c[i] else if i == at then n else c[i - 1];
    forall callback ensures Listed(r, callback) <==> Listed(c, callback) || callback == n.callback {
      if Listed(c, callback) {
        var i :| 0 <= i < |c| && c[i].callback == callback;
        assert r[if i < at then i else i + 1].callback == callback;
      }
      assert r[at].callback == n.callback;
    }
    forall m ensures m in r <==> m in c || m == n {
      assert r[at] == n;
    }
  }

  // ---------------------------------------------------------------- what has happened

  datatype Note =
    | Registered(hook: nat, callback: nat, priority: int)
    | Deregistered(hook: nat, callback: nat)
    | Called(hook: nat, callback: nat)

  /** The callback stands registered after these events. */
  predicate Active(log: seq<Note>, hook: nat, callback: nat) {
    if log == [] then false
    else
      var last := |log| - 1;
      match log[last]
      case Registered(h, c, _) => (h == hook && c == callback) || Active(log[..last], hook, callback)
      case Deregistered(h, c) => !(h == hook && c == callback) && Active(log[..last], hook, callback)
      case Called(_, _) => Active(log[..last], hook, callback)
  }

  /** Nothing was ever called that did not stand registered at that moment. */
  ghost predicate CallsActive(log: seq<Note>) {
    forall i | 0 <= i < |log| && log[i].Called? :: Active(log[..i], log[i].hook, log[i].callback)
  }

  lemma ActiveAfter(log: seq<Note>, note: Note)
    ensures forall h, c :: Active(log + [note], h, c) <==>
              if note.Registered? && note.hook == h && note.callback == c then true
              else if note == Deregistered(h, c) then false
              else Active(log, h, c)
  {
    assert (log + [note])[..|log|] == log;
  }

  /** Where a callback stands in the list of its hook: by priority, and among equals by the time of its registration. */
  datatype Key = Start | Key(priority: int, at: nat)

  predicate Later(a: Key, b: Key) {
    b.Key? && (a == Start || a.priority < b.priority || (a.priority == b.priority && a.at < b.at))
  }

  /** As its last registration says. */
  function KeyOf(log: seq<Note>, hook: nat, callback: nat): (k: Key)
    ensures k.Key?
  {
    if log == [] then Key(0, 0)
    else
      var last := |log| - 1;
      if log[last].Registered? && log[last].hook == hook && log[last].callback == callback then Key(log[last].priority, last)
      else KeyOf(log[..last], hook, callback)
  }

  lemma KeyAfter(log: seq<Note>, note: Note)
    ensures forall h, c :: KeyOf(log + [note], h, c) ==
              if note.Registered? && note.hook == h && note.callback == c then Key(note.priority, |log|) else KeyOf(log, h, c)
  {
    assert (log + [note])[..|log|] == log;
  }

  ghost function KeyAt(n: Hook): Key {
    Key(n.priority, n.serial)
  }

  lemma CallsActiveAfter(log: seq<Note>, note: Note)
    requires CallsActive(log) && (note.Called? ==> Active(log, note.hook, note.callback))
    ensures CallsActive(log + [note])
  {
    var r := log + [note];
    forall i | 0 <= i < |r| && r[i].Called? ensures Active(r[..i], r[i].hook, r[i].callback) {
      assert i < |log| ==> r[..i] == log[..i];
      assert i == |log| ==> r[..i] == log;
    }
  }

  /** An event since the log had length `from`. */
  predicate Since(log: seq<Note>, from: nat, note: Note) {
    from <= |log| && note in log[from..]
  }

  lemma SinceLonger(log: seq<Note>, longer: seq<Note>, from: nat, note: Note)
    requires Since(log, from, note) && log <= longer
    ensures Since(longer, from, note)
  {
    var i :| 0 <= i < |log| - from && log[from..][i] == note;
    assert longer[from..][i] == note;
  }

  lemma SinceLater(log: seq<Note>, from: nat, later: nat, note: Note)
    requires Since(log, later, note) && from <= later
    ensures Since(log, from, note)
  {
    var i :| 0 <= i < |log| - later && log[later..][i] == note;
    assert log[from..][later - from + i] == note;
  }

  /** What the callbacks of a walk do, in order of the calls; what a callback triggers may go through the queue-end
      hook as well when it is the outermost walk. */
  datatype Act =
    | Register(hook: nat, callback: nat, priority: int)
    | Deregister(hook: nat, callback: nat)
    | Trigger(hook: nat, calls: Calls, final: Calls)
  datatype Script = Done | Then(act: Act, rest: Script)
  datatype Calls = Quiet | Next(script: Script, rest: Calls)

  /** Whoever uses the dispatcher names existing hooks and real callbacks. */
  predicate ActOk(act: Act) {
    match act
    case Register(hook, callback, _) => hook != HOOKMAX && callback != 0
    case Deregister(hook, callback) => hook != HOOKMAX && callback != 0
    case Trigger(hook, calls, final) => hook != HOOKMAX && CallsOk(calls) && CallsOk(final)
  }

  predicate ScriptOk(s: Script) {
    match s
    case Done => true
    case Then(act, rest) => ActOk(act) && ScriptOk(rest)
  }

  predicate CallsOk(c: Calls) {
    match c
    case Quiet => true
    case Next(script, rest) => ScriptOk(script) && CallsOk(rest)
  }

  function FirstScript(c: Calls): Script {
    if c.Next? then c.script else Done
  }

  function OtherCalls(c: Calls): Calls {
    if c.Next? then c.rest else Quiet
  }

  // What a walk and the callbacks in it add to the log, said of the log alone.

  /** A walk over the list of `h` has taken the log from `from` to `to`, calling one callback after the other: each stands
      registered when its turn comes, comes later in the order than the one before, and does the next of `calls`. `rest` is
      what is left of them, and the last one called stood at `key`. */
  ghost predicate WalkedTo(h: nat, calls: Calls, rest: Calls, from: seq<Note>, to: seq<Note>, key: Key)
    requires from <= to
    decreases |to| - |from|, calls, 0
  {
    if to == from then rest == calls && key == Start
    else exists before: Calls, mid: seq<Note>, last: Key, callback: nat ::
      && from <= mid && mid + [Called(h, callback)] <= to
      && WalkedTo(h, calls, before, from, mid, last)
      && callback != 0 && Active(mid, h, callback) && key == KeyOf(mid, h, callback) && Later(last, key)
      && Scripted(FirstScript(before), mid + [Called(h, callback)], to) && rest == OtherCalls(before)
  }

  ghost predicate Walked(h: nat, calls: Calls, from: seq<Note>, to: seq<Note>)
    requires from <= to
    decreases |to| - |from|, calls, 1
  {
    exists rest, key :: WalkedTo(h, calls, rest, from, to, key)
  }

  /** What a callback does, one thing after the other. */
  ghost predicate Scripted(s: Script, from: seq<Note>, to: seq<Note>)
    requires from <= to
    decreases |to| - |from|, s, 0
  {
    match s
    case Done => to == from
    case Then(act, rest) => exists mid :: from <= mid && mid <= to && Acted(act, from, mid) && Scripted(rest, mid, to)
  }

  /** One thing a callback does; what it triggers is a walk inside the one under way. */
  ghost predicate Acted(act: Act, from: seq<Note>, to: seq<Note>)
    requires from <= to
    decreases |to| - |from|, act, 0
  {
    match act
    case Register(hook, callback, priority) =>
      to == if hook < HOOKMAX && !Active(from, hook, callback) then from + [Registered(hook, callback, priority)] else from
    case Deregister(hook, callback) =>
      to == if hook < HOOKMAX && Active(from, hook, callback) then from + [Deregistered(hook, callback)] else from
    case Trigger(hook, calls, _) => if hook < HOOKMAX then Walked(hook, calls, from, to) else to == from
  }

  /** The outermost walk, up to the moment `mid`, and then the walk over the queue-end hook, in which everything that stood
      registered there at that moment is called unless it is deregistered. */
  ghost predicate TwoWalks(hook: nat, calls: Calls, final: Calls, from: seq<Note>, mid: seq<Note>, to: seq<Note>) {
    && from <= mid && mid <= to
    && Walked(hook, calls, from, mid) && Walked(ENDOFHOOKSQUEUE, final, mid, to)
    && forall callback | callback != 0 && Active(mid, ENDOFHOOKSQUEUE, callback) :: Handled(to, |mid|, ENDOFHOOKSQUEUE, callback)
  }

  lemma WalkedOn(h: nat, calls: Calls, before: Calls, from: seq<Note>, mid: seq<Note>, last: Key, callback: nat, to: seq<Note>)
    requires from <= mid && mid + [Called(h, callback)] <= to && WalkedTo(h, calls, before, from, mid, last)
    requires callback != 0 && Active(mid, h, callback) && Later(last, KeyOf(mid, h, callback))
    requires Scripted(FirstScript(before), mid + [Called(h, callback)], to)
    ensures WalkedTo(h, calls, OtherCalls(before), from, to, KeyOf(mid, h, callback))
  {
    hide Active, KeyOf, Later, Scripted;
  }

  lemma NotWalkedYet(h: nat, calls: Calls, log: seq<Note>)
    ensures WalkedTo(h, calls, calls, log, log, Start)
  {
  }

  lemma ScriptedOn(act: Act, rest: Script, from: seq<Note>, mid: seq<Note>, to: seq<Note>)
    requires from <= mid && mid <= to && Acted(act, from, mid) && Scripted(rest, mid, to)
    ensures Scripted(Then(act, rest), from, to)
  {
    hide Acted;
  }

  datatype Snap = Snap(callbacks: map<Hook, nat>, chains: seq<seq<Hook>>, log: seq<Note>)

  /** From `a` to `b` callbacks only go away by deregistration, and while lists are being walked no node is freed. */
  ghost predicate Evolves(a: Snap, b: Snap, walking: bool) {
    && a.log <= b.log && |a.chains| == |b.chains|
    && (forall n | n in a.callbacks ::
          && n in b.callbacks
          && (b.callbacks[n] == a.callbacks[n]
              || (b.callbacks[n] == 0 && Since(b.log, |a.log|, Deregistered(n.home, a.callbacks[n])))))
    && (walking ==> forall h | 0 <= h < |a.chains| :: forall n | n in a.chains[h] :: n in b.chains[h])
  }

  lemma EvolvesSame(a: Snap, walking: bool)
    ensures Evolves(a, a, walking)
  {
  }

  lemma EvolvesChain(a: Snap, b: Snap, c: Snap, walking: bool)
    requires Evolves(a, b, walking) && Evolves(b, c, walking)
    ensures Evolves(a, c, walking)
  {
    hide Since;
    forall n | n in a.callbacks
      ensures n in c.callbacks
      ensures c.callbacks[n] == a.callbacks[n]
              || (c.callbacks[n] == 0 && Since(c.log, |a.log|, Deregistered(n.home, a.callbacks[n])))
    {
      var gone := Deregistered(n.home, a.callbacks[n]);
      if b.callbacks[n] != a.callbacks[n] {
        SinceLonger(b.log, c.log, |a.log|, gone);
      } else if c.callbacks[n] != b.callbacks[n] {
        SinceLater(c.log, |a.log|, |b.log|, gone);
      }
    }
  }

  lemma NoteElsewhere(log: seq<Note>, note: Note, h: nat, c: seq<Hook>)
    requires Agrees(log, h, c) && note.hook != h
    ensures Agrees(log + [note], h, c)
  {
    ActiveAfter(log, note);
    KeyAfter(log, note);
    hide Active, KeyOf, Listed;
  }

  /** A registration's insertion keeps the list in order, without repeats, and in step with the log. */
  method InsertOk(head: Hook?, pred: Hook?, n: Hook, ghost c: seq<Hook>, ghost at: nat, ghost marked: bool,
                  ghost h: nat, ghost log: seq<Note>) returns (head': Hook?)
    requires ListOk(head, c, marked) && Agrees(log, h, c) && n !in c && n.callback != 0 && !Listed(c, n.callback)
    requires at <= |c| && pred == (if at == 0 then null else c[at - 1])
    requires forall i | 0 <= i < |c| :: c[i].serial < n.serial
    requires forall i | 0 <= i < |c| :: i < at <==> c[i].priority <= n.priority
    modifies n`next, (if pred == null then {} else {pred})`next
    requires n.serial == |log|
    ensures ListOk(head', Inserted(c, at, n), marked)
    ensures Agrees(log + [Registered(h, n.callback, n.priority)], h, Inserted(c, at, n))
  {
    hide Chain, Inserted, InOrder, Distinct, NoneDead, Active, Listed, KeyOf;
    InOrderApart(c);
    InsertedInOrder(c, at, n);
    InsertedListed(c, at, n);
    ghost var r := Inserted(c, at, n);
    assert InOrder(r) && Distinct(r) && (!marked ==> NoneDead(r));
    AgreesInserted(c, at, n, h, log);
    head' := InsertNode(head, pred, n, c, at);
    assert Chain(head', r);
    assert Distinct(r);
    assert NoneDead(r) || marked;
  }

  lemma AgreesInserted(c: seq<Hook>, at: nat, n: Hook, h: nat, log: seq<Note>)
    requires Agrees(log, h, c) && at <= |c| && n.callback != 0 && !Listed(c, n.callback) && n.serial == |log|
    ensures Agrees(log + [Registered(h, n.callback, n.priority)], h, Inserted(c, at, n))
  {
    hide InOrder, Active, KeyOf;
    var note := Registered(h, n.callback, n.priority);
    InsertedListed(c, at, n);
    ActiveAfter(log, note);
    KeyAfter(log, note);
    forall m | m in c ensures m.callback != n.callback {
      var i :| 0 <= i < |c| && c[i] == m;
    }
    hide Listed;
    var r := Inserted(c, at, n);
    forall callback | callback != 0 ensures Active(log + [note], h, callback) <==> Listed(r, callback) {
      assert Active(log, h, callback) <==> Listed(c, callback);
    }
    forall m | m in r && m.callback != 0 ensures KeyAt(m) == KeyOf(log + [note], h, m.callback) {
      assert m in c || m == n;
    }
  }

  lemma EvolvesInserted(a: Snap, h: nat, at: nat, n: Hook, note: Note)
    requires h < |a.chains| && at <= |a.chains[h]| && n !in a.callbacks
    ensures Evolves(a, Snap(a.callbacks[n := n.callback], a.chains[h := Inserted(a.chains[h], at, n)], a.log + [note]), true)
  {
    InsertedListed(a.chains[h], at, n);
    hide Inserted, Since;
  }

  /** A deregistration blanks the node and leaves it where it is. */
  method Blank(hp: Hook, ghost head: Hook?, ghost c: seq<Hook>, ghost marked: bool, ghost h: nat, ghost log: seq<Note>)
    requires ListOk(head, c, marked) && Agrees(log, h, c) && hp in c && hp.callback != 0
    modifies hp`callback
    ensures hp.callback == 0 && ListOk(head, c, true) && Agrees(log + [Deregistered(h, old(hp.callback))], h, c)
  {
    hide Chain, InOrder, Active, KeyOf;
    ActiveAfter(log, Deregistered(h, hp.callback));
    KeyAfter(log, Deregistered(h, hp.callback));
    ghost var callback := hp.callback;
    ghost var i :| 0 <= i < |c| && c[i] == hp;
    assert forall j | 0 <= j < |c| && j != i :: c[j].callback != callback;
    hp.callback := 0;
    forall cb | cb != 0 ensures Listed(c, cb) <==> cb != callback && old(Listed(c, cb)) {
      if cb != callback && old(Listed(c, cb)) {
        var k :| 0 <= k < |c| && old(c[k].callback) == cb;
        assert c[k].callback == cb;
      }
      if Listed(c, cb) {
        var k :| 0 <= k < |c| && c[k].callback == cb;
        assert old(c[k].callback) == cb;
      }
    }
  }

  lemma MarkedDirty(dirty: seq<bool>, dirtyhooks: seq<nat>, h: nat)
    requires DirtyOk(dirty, dirtyhooks) && h < |dirty| && !dirty[h]
    ensures DirtyOk(dirty[h := true], dirtyhooks + [h])
  {
  }

  lemma EvolvesBlanked(a: Snap, n: Hook, walking: bool)
    requires n in a.callbacks
    ensures Evolves(a, Snap(a.callbacks[n := 0], a.chains, a.log + [Deregistered(n.home, a.callbacks[n])]), walking)
  {
    var note := Deregistered(n.home, a.callbacks[n]);
    assert (a.log + [note])[|a.log|..] == [note];
  }

  method CollectOk(head: Hook?, ghost c: seq<Hook>, ghost marked: bool, ghost h: nat, ghost log: seq<Note>) returns (head': Hook?)
    requires ListOk(head, c, marked) && Agrees(log, h, c)
    modifies c`next
    ensures ListOk(head', Alive(c), false) && Agrees(log, h, Alive(c))
  {
    hide Chain, InOrder, Active, KeyOf, Alive, Listed, Distinct, NoneDead;
    AliveInOrder(c);
    AliveDistinct(c);
    head' := CollectGarbage(head, c);
  }

  lemma OneLessDirty(dirty: seq<bool>, pending: seq<nat>)
    requires DirtyOk(dirty, pending) && pending != []
    ensures DirtyOk(dirty[pending[0] := false], pending[1..])
  {
    var rest := pending[1..];
    forall h | 0 <= h < |dirty| ensures dirty[pending[0] := false][h] <==> h in rest {
      assert h in pending <==> h == pending[0] || h in rest;
    }
  }

  lemma {:induction false} AliveSame(c: seq<Hook>)
    requires NoneDead(c)
    ensures Alive(c) == c
  {
    hide Alive;
    if c == [] {
      NoneAlive(null, c);
    } else {
      var last := |c| - 1;
      AliveSame(c[..last]);
      AliveNext(c, last);
      assert c[..last + 1] == c && c[..last] + [c[last]] == c;
    }
  }

  lemma HomesAlive(chains: seq<seq<Hook>>, nodes: set<Hook>, now: nat, h: nat)
    requires Homes(chains, nodes, now) && h < |chains|
    ensures Homes(chains[h := Alive(chains[h])], nodes, now)
  {
    var r := Alive(chains[h]);
    forall i | 0 <= i < |r| ensures r[i] in nodes && r[i].home == h {
      assert r[i] in r && r[i] in chains[h];
    }
    hide Alive;
  }

  /** Since the log had length `from` the callback was called or taken off. */
  predicate Handled(log: seq<Note>, from: nat, hook: nat, callback: nat) {
    Since(log, from, Called(hook, callback)) || Since(log, from, Deregistered(hook, callback))
  }

  /** The node stands in the list from place `pos` on, with this callback. */
  ghost predicate StillTo(s: Snap, hook: nat, pos: nat, n: Hook, callback: nat) {
    && hook < |s.chains| && n in s.callbacks && s.callbacks[n] == callback
    && exists i :: pos <= i < |s.chains[hook]| && s.chains[hook][i] == n
  }

  /** A walk that started at `s0` and has come to place `pos`: what stood in the list then has been handled, or is
      still to come. */
  ghost predicate Pending(s0: Snap, s: Snap, hook: nat, pos: nat) {
    && hook < |s0.chains| && |s0.log| <= |s.log|
    && forall n | n in s0.chains[hook] && n in s0.callbacks && s0.callbacks[n] != 0 ::
         Handled(s.log, |s0.log|, hook, s0.callbacks[n]) || StillTo(s, hook, pos, n, s0.callbacks[n])
  }

  lemma PendingStart(s0: Snap, hook: nat)
    requires hook < |s0.chains|
    ensures Pending(s0, s0, hook, 0)
  {
    forall n | n in s0.chains[hook] && n in s0.callbacks ensures StillTo(s0, hook, 0, n, s0.callbacks[n]) {
      var i :| 0 <= i < |s0.chains[hook]| && s0.chains[hook][i] == n;
    }
  }

  /** One node is visited: called if it has a callback, passed over if not. */
  lemma PendingVisited(s0: Snap, s: Snap, hook: nat, pos: nat, notes: seq<Note>)
    requires Pending(s0, s, hook, pos) && hook < |s.chains| && pos < |s.chains[hook]|
    requires s.chains[hook][pos] in s.callbacks
    requires var cb := s.callbacks[s.chains[hook][pos]]; notes == if cb == 0 then [] else [Called(hook, cb)]
    ensures Pending(s0, s.(log := s.log + notes), hook, pos + 1)
  {
    hide Since;
    var hp := s.chains[hook][pos];
    var s' := s.(log := s.log + notes);
    forall n | n in s0.chains[hook] && n in s0.callbacks && s0.callbacks[n] != 0
      ensures Handled(s'.log, |s0.log|, hook, s0.callbacks[n]) || StillTo(s', hook, pos + 1, n, s0.callbacks[n])
    {
      var cb := s0.callbacks[n];
      if Handled(s.log, |s0.log|, hook, cb) {
        HandledLonger(s.log, s'.log, |s0.log|, hook, cb);
      } else {
        var i :| pos <= i < |s.chains[hook]| && s.chains[hook][i] == n;
        if i == pos {
          SinceLast(s.log, |s0.log|, Called(hook, cb));
        }
      }
    }
  }

  lemma SinceLast(log: seq<Note>, from: nat, note: Note)
    requires from <= |log|
    ensures Since(log + [note], from, note)
  {
    assert (log + [note])[from..][|log| - from] == note;
  }

  lemma HandledLonger(log: seq<Note>, longer: seq<Note>, from: nat, hook: nat, callback: nat)
    requires Handled(log, from, hook, callback) && log <= longer
    ensures Handled(longer, from, hook, callback)
  {
    hide Since;
    if Since(log, from, Called(hook, callback)) {
      SinceLonger(log, longer, from, Called(hook, callback));
    } else {
      SinceLonger(log, longer, from, Deregistered(hook, callback));
    }
  }

  /** While a callback runs the list may grow on both sides of the node being visited, and nothing behind it is
      lost other than by deregistration. */
  lemma PendingEvolves(s0: Snap, s: Snap, s': Snap, hook: nat, pos: nat, pos': nat)
    requires Pending(s0, s, hook, pos) && Evolves(s, s', true) && hook < |s.chains|
    requires 0 < pos <= |s.chains[hook]| && 0 < pos' <= |s'.chains[hook]|
    requires s.chains[hook][pos - 1] == s'.chains[hook][pos' - 1]
    requires InOrder(s.chains[hook]) && InOrder(s'.chains[hook])
    requires forall n | n in s0.chains[hook] :: n.home == hook
    ensures Pending(s0, s', hook, pos')
  {
    hide Since;
    forall n | n in s0.chains[hook] && n in s0.callbacks && s0.callbacks[n] != 0
      ensures Handled(s'.log, |s0.log|, hook, s0.callbacks[n]) || StillTo(s', hook, pos', n, s0.callbacks[n])
    {
      var cb := s0.callbacks[n];
      if Handled(s.log, |s0.log|, hook, cb) {
        HandledLonger(s.log, s'.log, |s0.log|, hook, cb);
      } else {
        var i :| pos <= i < |s.chains[hook]| && s.chains[hook][i] == n;
        assert n in s'.chains[hook];
        var j :| 0 <= j < |s'.chains[hook]| && s'.chains[hook][j] == n;
        assert Before(s.chains[hook][pos - 1], n);
        BeforeMeansBefore(s'.chains[hook], pos' - 1, j);
        if s'.callbacks[n] != s.callbacks[n] {
          SinceLater(s'.log, |s0.log|, |s.log|, Deregistered(hook, cb));
        }
      }
    }
  }

  lemma BeforeMeansBefore(c: seq<Hook>, i: nat, j: nat)
    requires InOrder(c) && i < |c| && j < |c| && Before(c[i], c[j])
    ensures i < j
  {
  }

  lemma EvolvesLonger(a: Snap, b: Snap, c: Snap)
    requires Evolves(a, b, true) && b.log <= c.log && c == b.(log := c.log)
    ensures Evolves(a, c, true)
  {
    EvolvesSame(b, true);
    assert Evolves(b, c, true);
    EvolvesChain(a, b, c, true);
  }

  lemma EvolvesTrimmed(a: Snap, b: Snap)
    requires b.callbacks == a.callbacks && b.log == a.log && |b.chains| == |a.chains|
    ensures Evolves(a, b, false)
  {
  }

  lemma EvolvesLoose(a: Snap, b: Snap)
    requires Evolves(a, b, true)
    ensures Evolves(a, b, false)
  {
  }

  lemma EvolvesLog(a: Snap, b: Snap)
    requires Evolves(a, b, false)
    ensures a.log <= b.log
  {
  }

  lemma EvolvesKeeps(a: Snap, b: Snap, hook: nat, pos: nat)
    requires Evolves(a, b, true) && hook < |a.chains| && pos < |a.chains[hook]|
    ensures hook < |b.chains| && exists i :: 0 <= i < |b.chains[hook]| && b.chains[hook][i] == a.chains[hook][pos]
  {
    var n := a.chains[hook][pos];
    assert n in b.chains[hook];
  }

  lemma PendingHook(s0: Snap, s: Snap, hook: nat, pos: nat)
    requires Pending(s0, s, hook, pos)
    ensures hook < |s0.chains|
  {
  }

  lemma PendingEnd(s0: Snap, s: Snap, hook: nat, pos: nat)
    requires Pending(s0, s, hook, pos) && hook < |s.chains| && pos >= |s.chains[hook]|
    ensures forall n | n in s0.chains[hook] && n in s0.callbacks && s0.callbacks[n] != 0 ::
              Handled(s.log, |s0.log|, hook, s0.callbacks[n])
  {
    hide Handled;
  }

  lemma HandledStays(log: seq<Note>, longer: seq<Note>, from: nat, hook: nat)
    requires log <= longer
    ensures forall callback | Handled(log, from, hook, callback) :: Handled(longer, from, hook, callback)
  {
    hide Handled;
    forall callback | Handled(log, from, hook, callback) ensures Handled(longer, from, hook, callback) {
      HandledLonger(log, longer, from, hook, callback);
    }
  }

  /** A walk that has come to place `pos` has called nothing that comes later in the order. */
  ghost predicate KeyUpTo(key: Key, c: seq<Hook>, pos: nat) {
    pos <= |c| && (key == Start || (pos > 0 && (key == KeyAt(c[pos - 1]) || Later(key, KeyAt(c[pos - 1])))))
  }

  lemma NoKeyYet(c: seq<Hook>)
    ensures KeyUpTo(Start, c, 0)
  {
  }

  lemma KeyPasses(key: Key, c: seq<Hook>, pos: nat)
    requires KeyUpTo(key, c, pos) && InOrder(c) && pos < |c|
    ensures Later(key, KeyAt(c[pos])) && KeyUpTo(key, c, pos + 1)
  {
    if pos > 0 {
      assert Before(c[pos - 1], c[pos]);
    }
  }

  lemma KeyReached(c: seq<Hook>, pos: nat)
    requires 0 < pos <= |c|
    ensures KeyUpTo(KeyAt(c[pos - 1]), c, pos)
  {
  }

  lemma DoesNothing(log: seq<Note>)
    ensures Scripted(Done, log, log)
  {
  }

  lemma ChainHead(head: Hook?, c: seq<Hook>)
    requires Chain(head, c)
    ensures head == At(c, 0)
  {
  }

  lemma ChainNext(head: Hook?, c: seq<Hook>, pos: nat)
    requires Chain(head, c) && 0 < pos <= |c|
    ensures c[pos - 1].next == At(c, pos)
  {
  }

  ghost predicate NoRepeats(s: seq<nat>) {
    forall i, j | 0 <= i < j < |s| :: s[i] != s[j]
  }

  /** The dirty list names exactly the marked hooks, each once. */
  ghost predicate DirtyOk(dirty: seq<bool>, dirtyhooks: seq<nat>) {
    && NoRepeats(dirtyhooks)
    && (forall k | 0 <= k < |dirtyhooks| :: dirtyhooks[k] < |dirty|)
    && (forall h | 0 <= h < |dirty| :: dirty[h] <==> h in dirtyhooks)
  }

  ghost predicate ListOk(head: Hook?, c: seq<Hook>, marked: bool)
    reads c
  {
    Chain(head, c) && InOrder(c) && Distinct(c) && (!marked ==> NoneDead(c))
  }

  /** The list holds exactly the callbacks that stand registered, each where its registration puts it. */
  ghost predicate Agrees(log: seq<Note>, h: nat, c: seq<Hook>)
    reads c`callback
  {
    && (forall callback | callback != 0 :: Active(log, h, callback) <==> Listed(c, callback))
    && (forall n | n in c && n.callback != 0 :: KeyAt(n) == KeyOf(log, h, n.callback))
  }

  ghost predicate Homes(chains: seq<seq<Hook>>, nodes: set<Hook>, now: nat) {
    && (forall h, i | 0 <= h < |chains| && 0 <= i < |chains[h]| :: chains[h][i] in nodes && chains[h][i].home == h)
    && (forall n | n in nodes :: n.serial < now)
  }

  lemma HomesApart(chains: seq<seq<Hook>>, nodes: set<Hook>, now: nat)
    requires Homes(chains, nodes, now)
    ensures forall h, m | 0 <= h < |chains| && m in chains[h] :: m in nodes && m.home == h && m.serial < now
  {
  }

  lemma HomesLonger(chains: seq<seq<Hook>>, nodes: set<Hook>, now: nat, later: nat)
    requires Homes(chains, nodes, now) && now <= later
    ensures Homes(chains, nodes, later)
  {
  }

  lemma HomesInserted(chains: seq<seq<Hook>>, nodes: set<Hook>, now: nat, h: nat, at: nat, n: Hook)
    requires Homes(chains, nodes, now) && h < |chains| && at <= |chains[h]| && n.home == h && n.serial == now
    ensures Homes(chains[h := Inserted(chains[h], at, n)], nodes + {n}, now + 1)
  {
    var r := Inserted(chains[h], at, n);
    assert forall i | 0 <= i < |r| :: r[i] == if i < at then chains[h][i] else if i == at then n else chains[h][i - 1];
  }

  /** The first `i` nodes hold another callback, and those before `at` have a priority up to the given one. */
  ghost predicate Passed(c: seq<Hook>, i: nat, at: nat, callback: nat, priority: int)
    reads c`callback
  {
    i <= |c| && forall k | 0 <= k < i :: c[k].callback != callback && (k < at <==> c[k].priority <= priority)
  }

  lemma PassedNone(c: seq<Hook>, callback: nat, priority: int)
    ensures Passed(c, 0, 0, callback, priority)
  {
  }

  lemma PassedMore(c: seq<Hook>, i: nat, at: nat, callback: nat, priority: int)
    requires Passed(c, i, at, callback, priority) && InOrder(c) && i < |c| && c[i].callback != callback && at <= i
    ensures Passed(c, i + 1, if c[i].priority <= priority then i + 1 else at, callback, priority)
  {
    EarlierPriorities(c, i);
  }

  lemma PassedAll(c: seq<Hook>, at: nat, callback: nat, priority: int)
    requires Passed(c, |c|, at, callback, priority)
    ensures !Listed(c, callback) && forall i | 0 <= i < |c| :: i < at <==> c[i].priority <= priority
  {
  }

  class HookTable {
    var heads: seq<Hook?>
    var dirty: seq<bool>
    var dirtyhooks: seq<nat>      // dirtyhooks[..dirtyhookcount]
    var hookqueuelength: nat      // how many list walks are under way

    ghost var chains: seq<seq<Hook>>
    ghost var nodes: set<Hook>    // every node ever made
    ghost var log: seq<Note>

    ghost predicate Valid()
      reads this, nodes
    {
      ValidWith(dirtyhooks)
    }

    ghost predicate ValidWith(pending: seq<nat>)
      reads this, nodes
    {
      && |heads| == |chains| == |dirty| == HOOKMAX
      && DirtyOk(dirty, pending)
      && CallsActive(log)
      && Homes(chains, nodes, |log|)
      && forall h | 0 <= h < HOOKMAX :: ListOk(heads[h], chains[h], dirty[h]) && Agrees(log, h, chains[h])
    }

    ghost function Now(): Snap
      reads this, nodes
    {
      Snap(map n | n in nodes :: n.callback, chains, log)
    }

    /** Nothing registered yet. */
    constructor ()
      ensures Valid() && hookqueuelength == 0 && log == [] && fresh(nodes)
    {
      heads := seq(HOOKMAX, _ => null);
      dirty := seq(HOOKMAX, _ => false);
      dirtyhooks, hookqueuelength := [], 0;
      chains := seq(HOOKMAX, _ => []);
      nodes, log := {}, [];
    }

    /** registerpriorityhook: refuses a callback the hook has already. */
    method RegisterPriorityHook(hooknum: nat, callback: nat, priority: int) returns (r: int)
      requires Valid() && hooknum != HOOKMAX && callback != 0
      modifies this`heads, this`chains, this`nodes, this`log, nodes
      ensures Valid() && fresh(nodes - old(nodes))
      ensures r == 0 <==> hooknum < HOOKMAX && !Active(old(log), hooknum, callback)
      ensures r == 0 ==> log == old(log) + [Registered(hooknum, callback, priority)]
      ensures r != 0 ==> Now() == old(Now())
      ensures Evolves(old(Now()), Now(), true)
    {
      hide Valid;
      EvolvesSame(Now(), true);
      if hooknum > HOOKMAX {
        return 1;
      }
      ListAt(hooknum);
      var pred, at, known := FindPlace(heads[hooknum], chains[hooknum], callback, priority);
      if known {
        return 1;
      }
      Put(hooknum, pred, at, callback, priority);
      return 0;
    }

    /** The new node goes into the list. */
    method Put(hooknum: nat, pred: Hook?, ghost at: nat, callback: nat, priority: int)
      requires Valid() && hooknum < HOOKMAX && callback != 0 && !Listed(chains[hooknum], callback)
      requires at <= |chains[hooknum]| && pred == (if at == 0 then null else chains[hooknum][at - 1])
      requires forall i | 0 <= i < |chains[hooknum]| :: i < at <==> chains[hooknum][i].priority <= priority
      modifies this`heads, this`chains, this`nodes, this`log, nodes
      ensures Valid() && fresh(nodes - old(nodes)) && log == old(log) + [Registered(hooknum, callback, priority)]
      ensures Evolves(old(Now()), Now(), true)
    {
      hide Active, Listed, CallsActive, ListOk, Inserted, Agrees, DirtyOk, Homes, Evolves;
      ghost var before := Now();
      var n, head := Attach(hooknum, pred, at, callback, priority);
      CallsActiveAfter(log, Registered(hooknum, callback, priority));
      HomesInserted(chains, nodes, |log|, hooknum, at, n);
      EvolvesInserted(before, hooknum, at, n, Registered(hooknum, callback, priority));
      heads, chains, nodes, log := heads[hooknum := head], chains[hooknum := Inserted(chains[hooknum], at, n)],
        nodes + {n}, log + [Registered(hooknum, callback, priority)];
      assert Now().callbacks == before.callbacks[n := n.callback];
      assert Now() == Snap(before.callbacks[n := n.callback], before.chains[hooknum := chains[hooknum]], log);
    }

    /** Makes the node and links it in; the table's own fields follow. */
    method Attach(hooknum: nat, pred: Hook?, ghost at: nat, callback: nat, priority: int) returns (n: Hook, head: Hook?)
      requires Valid() && hooknum < HOOKMAX && callback != 0 && !Listed(chains[hooknum], callback)
      requires at <= |chains[hooknum]| && pred == (if at == 0 then null else chains[hooknum][at - 1])
      requires forall i | 0 <= i < |chains[hooknum]| :: i < at <==> chains[hooknum][i].priority <= priority
      modifies nodes`next
      ensures fresh(n) && n !in nodes && n.callback == callback && n.home == hooknum && n.serial == |log|
      ensures Now() == old(Now())
      ensures var log' := log + [Registered(hooknum, callback, priority)];
              && ListOk(head, Inserted(chains[hooknum], at, n), dirty[hooknum])
              && Agrees(log', hooknum, Inserted(chains[hooknum], at, n))
              && forall h | 0 <= h < HOOKMAX && h != hooknum :: ListOk(heads[h], chains[h], dirty[h]) && Agrees(log', h, chains[h])
    {
      hide Active, Listed, CallsActive, ListOk, Inserted, Agrees, DirtyOk, Homes;
      ghost var c := chains[hooknum];
      assert ListOk(heads[hooknum], c, dirty[hooknum]);
      n := new Hook(callback, priority, hooknum, |log|);
      HomesApart(chains, nodes, |log|);
      assert pred != null ==> pred in c && pred in nodes && pred.home == hooknum;
      forall h | 0 <= h < HOOKMAX && h != hooknum ensures Agrees(log + [Registered(hooknum, callback, priority)], h, chains[h]) {
        NoteElsewhere(log, Registered(hooknum, callback, priority), h, chains[h]);
      }
      head := InsertOk(heads[hooknum], pred, n, c, at, dirty[hooknum], hooknum, log);
    }

    ghost method ListAt(h: nat)
      requires Valid() && h < HOOKMAX
      ensures |heads| == |chains| == |dirty| == HOOKMAX && ListOk(heads[h], chains[h], dirty[h]) && Agrees(log, h, chains[h])
    {
    }

    /** deregisterhook: the node stays in the list, without its callback. */
    method DeregisterHook(hooknum: nat, callback: nat) returns (r: int)
      requires Valid() && hooknum != HOOKMAX && callback != 0
      modifies this`dirty, this`dirtyhooks, this`log, nodes`callback
      ensures Valid()
      ensures r == 0 <==> hooknum < HOOKMAX && Active(old(log), hooknum, callback)
      ensures r == 0 ==> log == old(log) + [Deregistered(hooknum, callback)]
      ensures r != 0 ==> Now() == old(Now())
      ensures Evolves(old(Now()), Now(), true)
    {
      hide Valid, ValidWith, Listed, Evolves, Active, KeyOf, InOrder, Distinct, NoneDead;
      EvolvesSame(Now(), true);
      if hooknum > HOOKMAX {
        return 1;
      }
      ListAt(hooknum);
      var hp := FindCallback(heads[hooknum], chains[hooknum], callback);
      if hp == null {
        return 1;
      }
      ghost var before := Now();
      MarkDirty(hooknum);
      assert Now() == before;
      Drop(hooknum, hp);
      return 0;
    }

    method FindCallback(head: Hook?, ghost c: seq<Hook>, callback: nat) returns (hp: Hook?)
      requires Chain(head, c)
      ensures hp == null <==> !Listed(c, callback)
      ensures hp != null ==> hp in c && hp.callback == callback
    {
      hp := head;
      ghost var i: nat := 0;
      while hp != null && hp.callback != callback
        invariant i <= |c| && hp == At(c, i)
        invariant forall k | 0 <= k < i :: c[k].callback != callback
        decreases |c| - i
      {
        hp := hp.next;
        i := i + 1;
      }
    }

    method MarkDirty(hook: nat)
      requires Valid() && hook < HOOKMAX
      modifies this`dirty, this`dirtyhooks
      ensures Valid() && dirty[hook]
    {
      hide Chain, InOrder, Distinct, Agrees, DirtyOk, CallsActive, Homes;
      if dirty[hook] {
        return;
      }
      MarkedDirty(dirty, dirtyhooks, hook);
      dirty := dirty[hook := true];
      dirtyhooks := dirtyhooks + [hook];
    }

    method Drop(hooknum: nat, hp: Hook)
      requires Valid() && hooknum < HOOKMAX && dirty[hooknum] && hp in chains[hooknum] && hp.callback != 0
      modifies this`log, nodes`callback
      ensures Valid() && log == old(log) + [Deregistered(hooknum, old(hp.callback))]
      ensures Evolves(old(Now()), Now(), true)
    {
      hide Active, Listed, CallsActive, ListOk, Agrees, DirtyOk, Homes, Evolves;
      ghost var c, before, note := chains[hooknum], Now(), Deregistered(hooknum, hp.callback);
      HomesApart(chains, nodes, |log|);
      CallsActiveAfter(log, note);
      HomesLonger(chains, nodes, |log|, |log| + 1);
      EvolvesBlanked(before, hp, true);
      forall h | 0 <= h < HOOKMAX && h != hooknum ensures Agrees(log + [note], h, chains[h]) {
        NoteElsewhere(log, note, h, chains[h]);
      }
      Blank(hp, heads[hooknum], c, true, hooknum, log);
      log := log + [note];
      assert Now() == Snap(before.callbacks[hp := 0], before.chains, log);
    }

    /** Frees the dead nodes of one list. */
    method CollectOne(hook: nat, ghost pending: seq<nat>)
      requires pending != [] && hook == pending[0] && hook < HOOKMAX && ValidWith(pending) && hookqueuelength == 0
      modifies this`heads, this`chains, this`dirty, nodes`next
      ensures ValidWith(pending[1..])
      ensures chains == old(chains)[hook := Alive(old(chains)[hook])]
    {
      hide Active, Listed, CallsActive, ListOk, Agrees, DirtyOk, Homes, Alive;
      ghost var c := chains[hook];
      HomesApart(chains, nodes, |log|);
      HomesAlive(chains, nodes, |log|, hook);
      OneLessDirty(dirty, pending);
      var head := CollectOk(heads[hook], c, dirty[hook], hook, log);
      heads := heads[hook := head];
      chains := chains[hook := Alive(c)];
      dirty := dirty[hook := false];
    }

    /** The garbage loop at the end of the outermost walk. */
    method CollectAll()
      requires Valid() && hookqueuelength == 0
      modifies this`heads, this`chains, this`dirty, this`dirtyhooks, nodes`next
      ensures Valid() && dirtyhooks == [] && Evolves(old(Now()), Now(), false)
      ensures |chains| == |old(chains)| == HOOKMAX
      ensures forall h | 0 <= h < HOOKMAX :: NoneDead(chains[h]) && chains[h] == Alive(old(chains)[h])
    {
      hide Active, Listed, ValidWith, Alive, NoneDead, Evolves, DirtyOk;
      assert dirtyhooks[0..] == dirtyhooks;
      CleanLists(dirtyhooks);
      for i := 0 to |dirtyhooks|
        invariant dirtyhooks == old(dirtyhooks) && ValidWith(dirtyhooks[i..]) && |chains| == |old(chains)|
        invariant forall h | 0 <= h < HOOKMAX :: if h in dirtyhooks[i..] then chains[h] == old(chains)[h] else chains[h] == Alive(old(chains)[h])
      {
        assert dirtyhooks[i..][0] == dirtyhooks[i] && dirtyhooks[i..][1..] == dirtyhooks[i + 1..];
        CleanLists(dirtyhooks[i..]);
        assert dirtyhooks[i..][0] in dirtyhooks[i..];
        CollectOne(dirtyhooks[i], dirtyhooks[i..]);
      }
      assert dirtyhooks[|dirtyhooks|..] == [];
      CleanLists([]);
      EvolvesTrimmed(old(Now()), Now());
      ForgetDirty();
    }

    method ForgetDirty()
      requires ValidWith([])
      modifies this`dirtyhooks
      ensures Valid() && dirtyhooks == [] && Now() == old(Now())
    {
      hide DirtyOk, CallsActive, Homes, ListOk, Agrees;
      dirtyhooks := [];
    }

    /** Lists that are not waiting for collection have no dead nodes. */
    ghost method CleanLists(pending: seq<nat>)
      requires ValidWith(pending)
      ensures |chains| == HOOKMAX && forall h | h in pending :: h < HOOKMAX
      ensures forall i, j | 0 <= i < j < |pending| :: pending[i] != pending[j]
      ensures forall h | 0 <= h < HOOKMAX && h !in pending :: NoneDead(chains[h]) && Alive(chains[h]) == chains[h]
    {
      hide Chain, InOrder, Distinct, Agrees, CallsActive, Homes, NoneDead, Alive;
      forall h | 0 <= h < HOOKMAX && h !in pending ensures NoneDead(chains[h]) && Alive(chains[h]) == chains[h] {
        AliveSame(chains[h]);
      }
    }

    /** The call of one node's callback is noted. */
    ghost method NoteCall(hooknum: nat, hp: Hook)
      requires Valid() && hooknum < HOOKMAX && hp in chains[hooknum] && hp.callback != 0
      modifies this`log
      ensures Valid() && log == old(log) + [Called(hooknum, hp.callback)]
      ensures Active(old(log), hooknum, hp.callback) && KeyOf(old(log), hooknum, hp.callback) == KeyAt(hp)
    {
      hide Active, KeyOf, CallsActive, ListOk, DirtyOk, Homes;
      ghost var note := Called(hooknum, hp.callback);
      ghost var i :| 0 <= i < |chains[hooknum]| && chains[hooknum][i] == hp;
      assert Listed(chains[hooknum], hp.callback);
      assert Active(log, hooknum, hp.callback);
      CallsActiveAfter(log, note);
      ActiveAfter(log, note);
      KeyAfter(log, note);
      HomesLonger(chains, nodes, |log|, |log| + 1);
      hide Listed;
      log := log + [note];
    }

    /** The nodes of a list, as facts about the snapshot. */
    ghost method ListFacts(h: nat)
      requires Valid() && h < HOOKMAX
      ensures |heads| == |chains| == HOOKMAX && Chain(heads[h], chains[h]) && InOrder(chains[h])
      ensures forall n | n in chains[h] :: n in nodes && n.home == h
      ensures forall callback | callback != 0 :: Active(log, h, callback) <==> Listed(chains[h], callback)
    {
      hide Chain, InOrder, Active, Listed;
      HomesApart(chains, nodes, |log|);
    }

    /** hookqueuelength changes, and nothing else. */
    method SetQueueLength(n: nat)
      requires Valid()
      modifies this`hookqueuelength
      ensures Valid() && hookqueuelength == n && Now() == old(Now())
    {
      hide DirtyOk, CallsActive, Homes, ListOk, Agrees;
      hookqueuelength := n;
    }

    /** The call of the node a walk has come to. */
    ghost method VisitNode(hooknum: nat, hp: Hook, pos: nat, s0: Snap)
      requires Valid() && hooknum < HOOKMAX
      requires |chains| == HOOKMAX && pos < |chains[hooknum]| && chains[hooknum][pos] == hp && hp.callback != 0
      requires Evolves(s0, Now(), true) && Pending(s0, Now(), hooknum, pos)
      modifies this`log
      ensures Valid() && Evolves(s0, Now(), true) && Pending(s0, Now(), hooknum, pos + 1)
      ensures log == old(log) + [Called(hooknum, hp.callback)]
      ensures Active(old(log), hooknum, hp.callback) && KeyOf(old(log), hooknum, hp.callback) == KeyAt(hp)
    {
      hide Valid, ValidWith, Evolves, Pending, Chain, InOrder, Active, KeyOf, Listed;
      ListFacts(hooknum);
      ghost var s1 := Now();
      PendingVisited(s0, s1, hooknum, pos, [Called(hooknum, hp.callback)]);
      NoteCall(hooknum, hp);
      assert Now() == s1.(log := s1.log + [Called(hooknum, hp.callback)]);
      EvolvesLonger(s0, s1, Now());
    }

    ghost method PassDead(hooknum: nat, pos: nat, s0: Snap)
      requires Valid() && hooknum < HOOKMAX
      requires |chains| == HOOKMAX && pos < |chains[hooknum]| && chains[hooknum][pos].callback == 0
      requires Pending(s0, Now(), hooknum, pos)
      ensures Pending(s0, Now(), hooknum, pos + 1)
    {
      hide Valid, ValidWith, Pending, Chain, InOrder, Active, Listed;
      ListFacts(hooknum);
      PendingVisited(s0, Now(), hooknum, pos, []);
      assert Now().(log := log + []) == Now();
    }

    ghost method LinkAt(hooknum: nat, pos: nat)
      requires Valid() && hooknum < HOOKMAX && |chains| == HOOKMAX && 0 < pos <= |chains[hooknum]|
      ensures chains[hooknum][pos - 1].next == At(chains[hooknum], pos)
    {
      hide Valid, ValidWith, Chain, InOrder, Active, Listed;
      ListFacts(hooknum);
      ChainNext(heads[hooknum], chains[hooknum], pos);
    }

    /** What the callback does happens before the walk goes on from the same node. */
    method RunCallback(hooknum: nat, hp: Hook, ghost pos: nat, script: Script, ghost s0: Snap) returns (ghost pos': nat)
      requires Valid() && hooknum < HOOKMAX && hookqueuelength > 0 && ScriptOk(script)
      requires |chains| == HOOKMAX && 0 < pos <= |chains[hooknum]| && chains[hooknum][pos - 1] == hp
      requires Evolves(s0, Now(), true) && Pending(s0, Now(), hooknum, pos)
      requires forall n | hooknum < |s0.chains| && n in s0.chains[hooknum] :: n.home == hooknum
      modifies this, nodes
      ensures Valid() && fresh(nodes - old(nodes)) && hookqueuelength == old(hookqueuelength)
      ensures |chains| == HOOKMAX && 0 < pos' <= |chains[hooknum]| && chains[hooknum][pos' - 1] == hp
      ensures Evolves(s0, Now(), true) && Pending(s0, Now(), hooknum, pos')
      ensures old(log) <= log && Scripted(script, old(log), log)
      decreases script, 1
    {
      hide Valid, ValidWith, Evolves, Pending, Chain, InOrder, Active, Listed, Scripted;
      ListFacts(hooknum);
      ghost var s1 := Now();
      RunScript(script);
      ghost var s2 := Now();
      EvolvesChain(s0, s1, s2, true);
      ListFacts(hooknum);
      EvolvesKeeps(s1, s2, hooknum, pos - 1);
      ghost var i :| 0 <= i < |chains[hooknum]| && chains[hooknum][i] == hp;
      pos' := i + 1;
      PendingHook(s0, s1, hooknum, pos);
      PendingEvolves(s0, s1, s2, hooknum, pos, pos');
    }

    /** The node a walk has come to: its callback is called, and does the next of what is left of `calls`. */
    method CallNode(hooknum: nat, hp: Hook, ghost pos: nat, ghost calls: Calls, rest: Calls, ghost s0: Snap, ghost last: Key)
      returns (ghost pos': nat, rest': Calls)
      requires Valid() && hooknum < HOOKMAX && hookqueuelength > 0 && CallsOk(rest)
      requires |chains| == HOOKMAX && pos < |chains[hooknum]| && chains[hooknum][pos] == hp && hp.callback != 0
      requires Evolves(s0, Now(), true) && Pending(s0, Now(), hooknum, pos)
      requires forall n | hooknum < |s0.chains| && n in s0.chains[hooknum] :: n.home == hooknum
      requires s0.log <= log && WalkedTo(hooknum, calls, rest, s0.log, log, last) && Later(last, KeyAt(hp))
      modifies this, nodes
      ensures Valid() && fresh(nodes - old(nodes)) && hookqueuelength == old(hookqueuelength)
      ensures |chains| == HOOKMAX && 0 < pos' <= |chains[hooknum]| && chains[hooknum][pos' - 1] == hp
      ensures Evolves(s0, Now(), true) && Pending(s0, Now(), hooknum, pos')
      ensures rest == Quiet ==> chains == old(chains) && pos' == pos + 1
      ensures rest' == OtherCalls(rest) && KeyUpTo(KeyAt(hp), chains[hooknum], pos')
      ensures s0.log <= log && WalkedTo(hooknum, calls, rest', s0.log, log, KeyAt(hp))
      decreases rest, 0
    {
      hide Valid, ValidWith, Evolves, Pending, Chain, InOrder, Active, Listed, WalkedTo, KeyOf, Scripted, KeyUpTo, Later;
      ghost var mid, callback := log, hp.callback;
      VisitNode(hooknum, hp, pos, s0);
      ListFacts(hooknum);
      pos', rest' := pos + 1, rest;
      DoesNothing(log);
      if rest.Next? {
        pos' := RunCallback(hooknum, hp, pos', rest.script, s0);
        rest' := rest.rest;
      }
      WalkedOn(hooknum, calls, rest, s0.log, mid, last, callback, log);
      KeyReached(chains[hooknum], pos');
    }

    /** triggerhook's walk over the list. `calls` is what the callbacks do, in the order they are called. Nothing is
        freed meanwhile, whatever they do, so the node being visited and its successor are there when the walk goes
        on; and everything registered when the walk began is called unless it is deregistered. */
    method Walk(hooknum: nat, calls: Calls)
      requires Valid() && hooknum < HOOKMAX && CallsOk(calls)
      modifies this, nodes
      ensures Valid() && fresh(nodes - old(nodes)) && hookqueuelength == old(hookqueuelength)
      ensures Evolves(old(Now()), Now(), true)
      ensures forall callback | callback != 0 && Active(old(log), hooknum, callback) ::
                Handled(log, |old(log)|, hooknum, callback)
      ensures old(log) <= log && Walked(hooknum, calls, old(log), log)
      decreases calls, 1
    {
      hide Valid, ValidWith, Evolves, Pending, Chain, InOrder, Active, Listed, Handled, WalkedTo, KeyOf, Scripted, KeyUpTo, Later;
      ghost var s0 := Now();
      ListFacts(hooknum);
      PendingStart(s0, hooknum);
      EvolvesSame(s0, true);
      ghost var known := ListedIn(hooknum);
      SetQueueLength(hookqueuelength + 1);
      var hp, rest := heads[hooknum], calls;
      ghost var pos: nat := 0;
      ghost var key := Start;
      NotWalkedYet(hooknum, calls, log);
      NoKeyYet(chains[hooknum]);
      ChainHead(hp, chains[hooknum]);
      while hp != null
        invariant Valid() && fresh(nodes - old(nodes)) && hookqueuelength == old(hookqueuelength) + 1
        invariant Evolves(s0, Now(), true) && CallsOk(rest) && (rest == calls || rest < calls)
        invariant |chains| == HOOKMAX && pos <= |chains[hooknum]| && hp == At(chains[hooknum], pos)
        invariant Pending(s0, Now(), hooknum, pos)
        invariant old(log) <= log && WalkedTo(hooknum, calls, rest, old(log), log, key)
        invariant KeyUpTo(key, chains[hooknum], pos)
        decreases rest, |chains[hooknum]| - pos
      {
        ListFacts(hooknum);
        KeyPasses(key, chains[hooknum], pos);
        ghost var last := key;
        if hp.callback != 0 {
          key := KeyAt(hp);
          pos, rest := CallNode(hooknum, hp, pos, calls, rest, s0, last);
        } else {
          PassDead(hooknum, pos, s0);
          pos := pos + 1;
        }
        LinkAt(hooknum, pos);
        hp := hp.next;
      }
      PendingEnd(s0, Now(), hooknum, pos);
      SetQueueLength(hookqueuelength - 1);
    }

    /** Every registered callback belongs to a node. */
    ghost method ListedIn(h: nat) returns (known: bool)
      requires Valid() && h < HOOKMAX
      ensures |chains| == HOOKMAX
      ensures forall callback | callback != 0 && Active(log, h, callback) ::
                exists n :: n in chains[h] && n in nodes && n.callback == callback
    {
      hide Chain, InOrder, Active;
      known := true;
      ListFacts(h);
      forall callback | callback != 0 && Active(log, h, callback)
        ensures exists n :: n in chains[h] && n in nodes && n.callback == callback
      {
        var i :| 0 <= i < |chains[h]| && chains[h][i].callback == callback;
        assert chains[h][i] in chains[h];
      }
    }

    method RunScript(s: Script)
      requires Valid() && hookqueuelength > 0 && ScriptOk(s)
      modifies this, nodes
      ensures Valid() && fresh(nodes - old(nodes)) && hookqueuelength == old(hookqueuelength)
      ensures Evolves(old(Now()), Now(), true)
      ensures s == Done ==> Now() == old(Now())
      ensures old(log) <= log && Scripted(s, old(log), log)
      decreases s, 0
    {
      hide Valid, ValidWith, Evolves, Active, Scripted, Acted;
      ghost var s0 := Now();
      EvolvesSame(s0, true);
      DoesNothing(log);
      if s.Then? {
        Perform(s.act);
        ghost var s1 := Now();
        RunScript(s.rest);
        EvolvesChain(s0, s1, Now(), true);
        ScriptedOn(s.act, s.rest, s0.log, s1.log, log);
      }
    }

    method Perform(act: Act)
      requires Valid() && hookqueuelength > 0 && ActOk(act)
      modifies this, nodes
      ensures Valid() && fresh(nodes - old(nodes)) && hookqueuelength == old(hookqueuelength)
      ensures Evolves(old(Now()), Now(), true)
      ensures old(log) <= log && Acted(act, old(log), log)
      decreases act, 1
    {
      hide Valid, ValidWith, Evolves, Active, Walked;
      match act
      case Register(hook, callback, priority) =>
        var r := RegisterPriorityHook(hook, callback, priority);
      case Deregister(hook, callback) =>
        var r := DeregisterHook(hook, callback);
      case Trigger(hook, calls, final) =>
        TriggerHook(hook, calls, final);
    }

    /** triggerhook. `final` is what the callbacks of the queue-end hook do when this is the outermost walk. */
    method TriggerHook(hooknum: nat, calls: Calls, final: Calls)
      requires Valid() && hooknum != HOOKMAX && CallsOk(calls) && CallsOk(final)
      modifies this, nodes
      ensures Valid() && fresh(nodes - old(nodes)) && hookqueuelength == old(hookqueuelength)
      ensures Evolves(old(Now()), Now(), old(hookqueuelength) > 0)
      ensures hooknum < HOOKMAX ==> forall callback | callback != 0 && Active(old(log), hooknum, callback) ::
                Handled(log, |old(log)|, hooknum, callback)
      ensures CallsActive(log)
      ensures old(log) <= log && (hooknum > HOOKMAX ==> Now() == old(Now()))
      ensures hooknum < HOOKMAX && (hookqueuelength > 0 || hooknum == ENDOFHOOKSQUEUE) ==> Walked(hooknum, calls, old(log), log)
      ensures hooknum < HOOKMAX && hookqueuelength == 0 && hooknum != ENDOFHOOKSQUEUE ==>
                exists mid :: TwoWalks(hooknum, calls, final, old(log), mid, log)
      ensures hooknum < HOOKMAX && hooknum != ENDOFHOOKSQUEUE && hookqueuelength == 0 ==>
                dirtyhooks == [] && |chains| == HOOKMAX && forall h | 0 <= h < HOOKMAX :: NoneDead(chains[h])
      decreases Trigger(hooknum, calls, final), 0
    {
      hide Valid, ValidWith, Evolves, Active, Handled, CallsActive, Walked;
      ghost var s0 := Now();
      EvolvesSame(s0, true);
      EvolvesSame(s0, false);
      if hooknum > HOOKMAX {
        OnlyActiveCalled();
        return;
      }
      Walk(hooknum, calls);
      ghost var s1 := Now();
      EvolvesLoose(s0, s1);
      if hookqueuelength == 0 && hooknum != ENDOFHOOKSQUEUE {
        Walk(ENDOFHOOKSQUEUE, final);
        ghost var s2 := Now();
        EvolvesLoose(s1, s2);
        EvolvesChain(s0, s1, s2, false);
        CollectAll();
        EvolvesChain(s0, s2, Now(), false);
        EvolvesChain(s1, s2, Now(), false);
        EvolvesLog(s1, Now());
        HandledStays(s1.log, log, |s0.log|, hooknum);
        assert TwoWalks(hooknum, calls, final, s0.log, s1.log, log);
      }
      OnlyActiveCalled();
    }

    /** Nothing was ever called that did not stand registered at that moment. */
    ghost method OnlyActiveCalled()
      requires Valid()
      ensures CallsActive(log)
    {
      hide CallsActive, DirtyOk, Homes, ListOk, Agrees;
    }

    /** The search of a registration: the last node with a priority up to the new one's. */
    method FindPlace(head: Hook?, ghost c: seq<Hook>, callback: nat, priority: int)
      returns (pred: Hook?, ghost at: nat, known: bool)
      requires Chain(head, c) && InOrder(c)
      ensures known <==> Listed(c, callback)
      ensures !known ==> at <= |c| && pred == (if at == 0 then null else c[at - 1])
      ensures !known ==> forall i | 0 <= i < |c| :: i < at <==> c[i].priority <= priority
    {
      hide InOrder, Chain, Passed;
      var hp := head;
      pred, at := null, 0;
      ghost var i: nat := 0;
      ChainHead(head, c);
      PassedNone(c, callback, priority);
      while hp != null
        invariant i <= |c| && hp == At(c, i)
        invariant at <= i && pred == (if at == 0 then null else c[at - 1])
        invariant Passed(c, i, at, callback, priority)
        decreases |c| - i
      {
        if hp.callback == callback {
          return pred, at, true;
        }
        PassedMore(c, i, at, callback, priority);
        if priority >= hp.priority {
          pred, at := hp, i + 1;
        }
        i := i + 1;
        ChainNext(head, c, i);
        hp := hp.next;
      }
      PassedAll(c, at, callback, priority);
      known := false;
    }
  }
}
