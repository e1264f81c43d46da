/** The event scheduler of core/schedule.c: a binary heap of event records with back-pointers, recurring events,
    lazy deletion, and callbacks that may schedule and delete events themselves. */
module Scheduling {
  /** The scheduling fields of a record; callback 0 is the null pointer. */
  datatype Plan = Plan(next: int, oneshot: bool, interval: int, count: int, callback: nat, param: int, deleted: bool)

  /** A record, with its place in the heap array. */
  class Event {
    var plan: Plan
    var index: int

    constructor (plan: Plan)
      ensures this.plan == plan
    {
      this.plan := plan;
      index := 0;
    }
  }

  // ---------------------------------------------------------------- one event over time

  /** The record schedulerecurring sets up; a count of 1 is scheduleoneshot. */
  function NewPlan(first: int, count: int, interval: int, callback: nat, param: int): Plan {
    if count == 1 then Plan(first, true, 0, 1, callback, param, false)
    else Plan(first, false, interval, count - 1, callback, param, false)
  }

  /** What happens to a record just before its callback is called. */
  function Fire(p: Plan): Plan {
    if p.oneshot then p.(deleted := true)
    else if p.count > 0 then p.(next := p.next + p.interval, count := p.count - 1, oneshot := p.count - 1 == 0)
    else p.(next := p.next + p.interval)
  }

  /** A standing event is as it was asked for; a dropped one had no callback and left the queue without firing. */
  datatype Status = Standing | Cancelled | Dropped

  /** What was asked for, when it fired so far, and whether it was called off. */
  datatype Past = Past(first: int, total: int, interval: int, callback: nat, param: int, times: seq<int>, status: Status)

  function Wanted(first: int, count: int, interval: int, callback: nat, param: int): Past {
    Past(first, count, interval, callback, param, [], Standing)
  }

  function NthTime(h: Past, k: nat): int {
    h.first + k * h.interval
  }

  /** The `k`-th firing was asked for; a total of zero or less goes on for ever. */
  predicate Asked(h: Past, k: nat) {
    h.total < 1 || k < h.total
  }

  ghost predicate FiredInOrder(h: Past) {
    && (forall k | 0 <= k < |h.times| :: h.times[k] == NthTime(h, k) && Asked(h, k))
    && (h.total == 1 || h.interval > 0)
  }

  /** What fired had a callback, and what was dropped had none. */
  predicate CalledRightly(h: Past) {
    (h.times != [] ==> h.callback != 0) && (h.status == Dropped ==> h.callback == 0)
  }

  /** A record in the queue, and what it should have done so far. */
  ghost predicate Agrees(p: Plan, h: Past) {
    && FiredInOrder(h) && CalledRightly(h) && p.callback == h.callback && p.param == h.param
    && (h.status == Standing ==> (p.deleted <==> !Asked(h, |h.times|)))
    && (h.status != Standing ==> p.deleted)
    && (!p.deleted ==>
          && p.next == NthTime(h, |h.times|)
          && (p.oneshot <==> |h.times| == h.total - 1)
          && (!p.oneshot ==> p.interval == h.interval)
          && (!p.oneshot && h.total >= 1 ==> p.count == h.total - 1 - |h.times|)
          && (h.total < 1 ==> p.count < 0))
  }

  /** A record that has left the queue: called off, or done. */
  ghost predicate Settled(h: Past) {
    FiredInOrder(h) && CalledRightly(h) && (h.status == Standing ==> !Asked(h, |h.times|))
  }

  lemma NewAgrees(first: int, count: int, interval: int, callback: nat, param: int)
    requires count == 1 || interval > 0
    ensures Agrees(NewPlan(first, count, interval, callback, param), Wanted(first, count, interval, callback, param))
  {
  }

  /** Firing keeps the record in step with what was asked for: the time it fires at is the next one asked for. */
  lemma FireAgrees(p: Plan, h: Past)
    requires Agrees(p, h) && !p.deleted && p.callback != 0
    ensures Asked(h, |h.times|) && p.next == NthTime(h, |h.times|) && h.status == Standing
    ensures Agrees(Fire(p), h.(times := h.times + [p.next]))
  {
    var h' := h.(times := h.times + [p.next]);
    forall k | 0 <= k < |h'.times| ensures h'.times[k] == NthTime(h', k) && Asked(h', k) {
      if k < |h.times| {
        assert h'.times[k] == h.times[k] == NthTime(h, k);
      }
    }
    assert NthTime(h', |h'.times|) == NthTime(h, |h.times|) + h.interval;
  }

  /** Calling the firing off, on a record that is not marked yet. */
  lemma CancelAgrees(p: Plan, h: Past)
    requires Agrees(p, h)
    ensures Agrees(p.(deleted := true), h.(status := Cancelled)) && Settled(h.(status := Cancelled))
    ensures p.callback == 0 ==> Settled(h.(status := Dropped))
  {
    var h' := h.(status := Cancelled);
    var h'' := h.(status := Dropped);
    forall k | 0 <= k < |h.times| ensures h.times[k] == NthTime(h', k) == NthTime(h'', k) && Asked(h', k) && Asked(h'', k) {
      assert h.times[k] == NthTime(h, k);
    }
  }

  lemma DeletedSettles(p: Plan, h: Past)
    requires Agrees(p, h) && p.deleted
    ensures Settled(h)
  {
  }

  lemma TimesRise(h: Past, j: nat, k: nat)
    requires j <= k && h.interval > 0
    ensures NthTime(h, j) <= NthTime(h, k)
  {
    assert (k - j) * h.interval >= 0;
  }

  /** Everything asked for up to `when` has fired. */
  ghost predicate CaughtUp(h: Past, when: int) {
    forall k: nat | Asked(h, k) && NthTime(h, k) <= when :: k < |h.times|
  }

  lemma QueuedCaughtUp(p: Plan, h: Past, when: int)
    requires Agrees(p, h) && h.status == Standing && p.next > when
    ensures CaughtUp(h, when)
  {
    forall k: nat | Asked(h, k) && NthTime(h, k) <= when ensures k < |h.times| {
      if |h.times| <= k && h.total != 1 {
        TimesRise(h, |h.times|, k);
      }
    }
  }

  lemma SettledCaughtUp(h: Past, when: int)
    requires Settled(h) && h.status == Standing
    ensures CaughtUp(h, when)
  {
  }

  /** How much doscheduledevents still has to do with a record: fire it, perhaps several times, and take it away. */
  function Work(p: Plan, when: int): nat {
    if p.next > when then 0
    else if p.deleted then 1
    else if p.oneshot then 2
    else when - p.next + 3
  }

  lemma FireWorks(p: Plan, when: int)
    requires !p.deleted && p.next <= when && (p.oneshot || p.interval > 0)
    ensures Work(Fire(p), when) < Work(p, when)
  {
  }

  ghost function TotalWork(ps: map<Event, Plan>, when: int): nat {
    if ps == map[] then 0
    else
      var e :| e in ps;
      Work(ps[e], when) + TotalWork(ps - {e}, when)
  }

  lemma {:induction false} WorkSplits(ps: map<Event, Plan>, e: Event, when: int)
    requires e in ps
    ensures TotalWork(ps, when) == Work(ps[e], when) + TotalWork(ps - {e}, when)
    decreases |ps|
  {
    var d :| d in ps && TotalWork(ps, when) == Work(ps[d], when) + TotalWork(ps - {d}, when);
    if d != e {
      WorkSplits(ps - {d}, e, when);
      WorkSplits(ps - {e}, d, when);
      assert ps - {d} - {e} == ps - {e} - {d};
    }
  }

  lemma WorkChanges(ps: map<Event, Plan>, e: Event, p: Plan, when: int)
    requires e in ps
    ensures TotalWork(ps[e := p], when) == TotalWork(ps, when) - Work(ps[e], when) + Work(p, when)
  {
    WorkSplits(ps, e, when);
    WorkSplits(ps[e := p], e, when);
    assert ps[e := p] - {e} == ps - {e};
  }

  lemma WorkAdds(ps: map<Event, Plan>, e: Event, p: Plan, when: int)
    requires e !in ps
    ensures TotalWork(ps[e := p], when) == TotalWork(ps, when) + Work(p, when)
  {
    WorkSplits(ps[e := p], e, when);
    assert ps[e := p] - {e} == ps;
  }

  /** Fewer records, less work. */
  lemma {:induction false} WorkShrinks(ps: map<Event, Plan>, qs: map<Event, Plan>, when: int)
    requires forall e | e in qs :: e in ps && qs[e] == ps[e]
    ensures TotalWork(qs, when) <= TotalWork(ps, when)
    decreases |qs|
  {
    if qs != map[] {
      var e :| e in qs;
      WorkSplits(qs, e, when);
      WorkSplits(ps, e, when);
      WorkShrinks(ps - {e}, qs - {e}, when);
    }
  }

  // ---------------------------------------------------------------- the heap

  function Parent(k: int): (p: int)
    requires k > 0
    ensures 0 <= p < k && (k == 2 * p + 1 || k == 2 * p + 2)
  {
    (k - 1) / 2
  }

  ghost predicate Le(a: Event, b: Event)
    reads a`plan, b`plan
  {
    a.plan.next <= b.plan.next
  }

  /** No record is due before its parent. */
  ghost predicate Heap(es: seq<Event>)
    reads es`plan
  {
    forall k | 0 < k < |es| :: Le(es[Parent(k)], es[k])
  }

  /** A heap, except that the record at `i` may be due before its parent. */
  ghost predicate HeapUp(es: seq<Event>, i: int)
    reads es`plan
  {
    && (forall k | 0 < k < |es| && k != i :: Le(es[Parent(k)], es[k]))
    && (forall k | 0 < i < k < |es| && Parent(k) == i :: Le(es[Parent(i)], es[k]))
  }

  /** A heap, except that the record at `i` may stand wrongly to its parent and to its children. */
  ghost predicate HeapAround(es: seq<Event>, i: int)
    reads es`plan
  {
    && (forall k | 0 < k < |es| && k != i && Parent(k) != i :: Le(es[Parent(k)], es[k]))
    && (forall k | 0 < i < k < |es| && Parent(k) == i :: Le(es[Parent(i)], es[k]))
  }

  /** Every record knows its place; so no record is in the heap twice. */
  ghost predicate Placed(es: seq<Event>)
    reads es`index
  {
    forall k | 0 <= k < |es| :: es[k].index == k
  }

  /** The same, with one place still to be filled by a record that is nowhere else. */
  ghost predicate PlacedBut(es: seq<Event>, m: int)
    reads es`index
  {
    forall k | 0 <= k < |es| && k != m :: es[k].index == k && (0 <= m < |es| ==> es[k] != es[m])
  }

  ghost function Records(es: seq<Event>): set<Event> {
    set k | 0 <= k < |es| :: es[k]
  }

  lemma TopIsLeast(es: seq<Event>, k: nat)
    requires Heap(es) && k < |es|
    ensures Le(es[0], es[k])
    decreases k
  {
    if k > 0 {
      TopIsLeast(es, Parent(k));
    }
  }

  function Swapped(es: seq<Event>, i: nat, j: nat): (r: seq<Event>)
    requires i < |es| && j < |es|
    ensures |r| == |es| && r[i] == es[j] && r[j] == es[i] && forall k | 0 <= k < |es| && k != i && k != j :: r[k] == es[k]
    ensures forall e | e in r :: e in es
  {
    es[i := es[j]][j := es[i]]
  }

  lemma SwappedRecords(es: seq<Event>, i: nat, j: nat)
    requires i < |es| && j < |es|
    ensures Records(Swapped(es, i, j)) == Records(es)
  {
    var r := Swapped(es, i, j);
    forall e | e in Records(es) ensures e in Records(r) {
      var k :| 0 <= k < |es| && es[k] == e;
      assert r[if k == i then j else if k == j then i else k] == e;
    }
  }

  /** Sinking one level: the smaller child goes up. */
  lemma SunkOnce(es: seq<Event>, i: nat, c: nat)
    requires i < |es| && c < |es| && c > 0 && Parent(c) == i && HeapAround(es, i)
    requires es[c].plan.next < es[i].plan.next
    requires forall k | 0 < k < |es| && Parent(k) == i :: Le(es[c], es[k])
    ensures HeapAround(Swapped(es, i, c), c)
  {
    var r := Swapped(es, i, c);
    forall k | 0 < k < |r| && k != c && Parent(k) != c ensures Le(r[Parent(k)], r[k]) {
      if k == i {
        assert Le(es[Parent(i)], es[c]);
      } else if Parent(k) == i {
        assert r[i] == es[c] && r[k] == es[k];
      } else {
        assert Le(es[Parent(k)], es[k]);
      }
    }
    forall k | 0 < c < k < |r| && Parent(k) == c ensures Le(r[Parent(c)], r[k]) {
      assert Le(es[c], es[k]);
    }
  }

  /** What sinking below `c` leaves behind above it. */
  lemma SunkAll(es: seq<Event>, i: nat, c: nat, r: seq<Event>)
    requires i < |es| && c < |es| && c > 0 && Parent(c) == i && HeapAround(es, i)
    requires es[c].plan.next < es[i].plan.next && HeapAround(Swapped(es, i, c), c)
    requires |r| == |es| && HeapUp(r, c) && r[i] == es[c] && (i > 0 ==> r[Parent(i)] == es[Parent(i)])
    requires r[c] == es[i] || exists k | c < k < |r| && Parent(k) == c :: r[c] == es[k]
    ensures HeapUp(r, i)
  {
    var s := Swapped(es, i, c);
    assert Le(r[i], r[c]) by {
      if r[c] != es[i] {
        var k :| c < k < |r| && Parent(k) == c && r[c] == es[k];
        assert Le(s[Parent(c)], s[k]);
      }
    }
    forall k | 0 < i < k < |r| && Parent(k) == i ensures Le(r[Parent(i)], r[k]) {
      assert Le(es[Parent(i)], es[c]);
      assert k == c || Le(r[i], r[k]);
    }
  }

  /** Floating one level: the record changes places with its parent. */
  lemma FloatedOnce(es: seq<Event>, m: nat)
    requires 0 < m < |es| && HeapUp(es, m) && es[m].plan.next < es[Parent(m)].plan.next
    ensures HeapUp(Swapped(es, m, Parent(m)), Parent(m))
  {
    hide Parent, Swapped;
    var p := Parent(m);
    var r := Swapped(es, m, p);
    forall k | 0 < k < |r| && k != p ensures Le(r[Parent(k)], r[k]) {
      if k != m {
        assert Le(es[Parent(k)], es[k]);
        if Parent(k) == m {
          assert Le(es[p], es[k]);
        } else if Parent(k) == p {
          assert r[p] == es[m];
        }
      }
    }
    forall k | 0 < p < k < |r| && Parent(k) == p ensures Le(r[Parent(p)], r[k]) {
      assert Le(es[Parent(p)], es[p]);
      if k != m {
        assert Le(es[p], es[k]);
      }
    }
  }

  lemma FloatedAll(es: seq<Event>, m: nat)
    requires m < |es| && HeapUp(es, m) && (m > 0 ==> Le(es[Parent(m)], es[m]))
    ensures Heap(es)
  {
  }

  lemma Appended(es: seq<Event>, e: Event)
    requires Heap(es)
    ensures HeapUp(es + [e], |es|)
  {
    hide Parent;
    var r := es + [e];
    forall k | 0 < k < |r| && k != |es| ensures Le(r[Parent(k)], r[k]) {
      assert Le(es[Parent(k)], es[k]);
    }
  }

  /** The heap after the last record has moved to `i`. */
  lemma Replaced(es: seq<Event>, i: nat)
    requires Heap(es) && i < |es| - 1
    ensures HeapAround(es[..|es| - 1][i := es[|es| - 1]], i)
  {
    hide Parent;
    var r := es[..|es| - 1][i := es[|es| - 1]];
    forall k | 0 < k < |r| && k != i && Parent(k) != i ensures Le(r[Parent(k)], r[k]) {
      assert Le(es[Parent(k)], es[k]);
    }
    forall k | 0 < i < k < |r| && Parent(k) == i ensures Le(r[Parent(i)], r[k]) {
      assert Le(es[Parent(i)], es[i]) && Le(es[i], es[k]);
    }
  }

  lemma ShorterHeap(es: seq<Event>)
    requires Heap(es) && es != []
    ensures Heap(es[..|es| - 1])
  {
    hide Parent;
    var r := es[..|es| - 1];
    forall k | 0 < k < |r| ensures Le(r[Parent(k)], r[k]) {
      assert Le(es[Parent(k)], es[k]);
    }
  }

  lemma ReplacedRecords(es: seq<Event>, i: nat)
    requires i < |es| && Placed(es)
    ensures var last := |es| - 1;
            Records(if i == last then es[..last] else es[..last][i := es[last]]) == Records(es) - {es[i]}
  {
    var last := |es| - 1;
    var r := if i == last then es[..last] else es[..last][i := es[last]];
    forall e | e in Records(es) - {es[i]} ensures e in Records(r) {
      var k :| 0 <= k < |es| && es[k] == e;
      assert r[if k == last then i else k] == e;
    }
    forall e | e in Records(r) ensures e in Records(es) && e != es[i] {
      var k :| 0 <= k < |r| && r[k] == e;
      assert e == es[if k == i then last else k];
    }
  }

  lemma AppendedRecords(es: seq<Event>, e: Event)
    ensures Records(es + [e]) == Records(es) + {e}
  {
    var r := es + [e];
    assert r[|es|] == e;
    forall x | x in Records(es) ensures x in Records(r) {
      var k :| 0 <= k < |es| && es[k] == x;
      assert r[k] == x;
    }
  }

  lemma SomeRecords(es: seq<Event>, all: seq<Event>)
    requires Records(es) <= Records(all)
    ensures forall k | 0 <= k < |es| :: es[k] in all
  {
    forall k | 0 <= k < |es| ensures es[k] in all {
      assert es[k] in Records(es);
    }
  }

  lemma PlacedAlmost(es: seq<Event>, e: Event)
    requires Placed(es) && e !in Records(es)
    ensures PlacedBut(es + [e], |es|)
  {
  }

  lemma PlacedShorter(es: seq<Event>)
    requires Placed(es) && es != []
    ensures Placed(es[..|es| - 1])
  {
  }

  lemma PlacedNone(es: seq<Event>)
    requires es == []
    ensures Placed(es)
  {
  }

  lemma RecordAt(es: seq<Event>, k: nat)
    requires k < |es|
    ensures es[k] in Records(es)
  {
  }

  ghost function PlansOf(es: seq<Event>): (ps: map<Event, Plan>)
    reads es`plan
    ensures ps.Keys == Records(es)
  {
    map e | e in Records(es) :: e.plan
  }

  // ---------------------------------------------------------------- the queue and its history

  datatype Firing = Firing(event: Event, time: int)

  /** The times at which a record has fired. */
  ghost function TimesOf(log: seq<Firing>, e: Event): seq<int> {
    if log == [] then []
    else
      var last := |log| - 1;
      TimesOf(log[..last], e) + (if log[last].event == e then [log[last].time] else [])
  }

  /** The queue `ps` and the log agree with everything that was ever asked for. */
  ghost predicate Kept(ps: map<Event, Plan>, past: map<Event, Past>, log: seq<Firing>) {
    && ps.Keys <= past.Keys
    && (forall e | e in past :: if e in ps then Agrees(ps[e], past[e]) else Settled(past[e]))
    && (forall e | e in past :: past[e].times == TimesOf(log, e))
    && (forall k | 0 <= k < |log| :: log[k].event in past)
  }

  lemma {:induction false} NeverFired(log: seq<Firing>, e: Event)
    requires forall k | 0 <= k < |log| :: log[k].event != e
    ensures TimesOf(log, e) == []
  {
    if log != [] {
      NeverFired(log[..|log| - 1], e);
    }
  }

  lemma KeptKnows(ps: map<Event, Plan>, past: map<Event, Past>, log: seq<Firing>, e: Event)
    requires Kept(ps, past, log) && e in ps
    ensures e in past && Agrees(ps[e], past[e])
  {
  }

  lemma KeptAdded(ps: map<Event, Plan>, past: map<Event, Past>, log: seq<Firing>, e: Event, p: Plan, h: Past)
    requires Kept(ps, past, log) && e !in past && Agrees(p, h) && h.times == []
    ensures Kept(ps[e := p], past[e := h], log)
  {
    NeverFired(log, e);
  }

  lemma KeptFired(ps: map<Event, Plan>, past: map<Event, Past>, log: seq<Firing>, e: Event)
    requires Kept(ps, past, log) && e in ps && !ps[e].deleted && ps[e].callback != 0
    ensures past[e].status == Standing
    ensures Kept(ps[e := Fire(ps[e])], past[e := past[e].(times := past[e].times + [ps[e].next])], log + [Firing(e, ps[e].next)])
  {
    FireAgrees(ps[e], past[e]);
    var log' := log + [Firing(e, ps[e].next)];
    assert log'[..|log|] == log;
    forall d ensures TimesOf(log', d) == TimesOf(log, d) + if d == e then [ps[e].next] else [] {}
    hide Agrees, Settled, Fire, TimesOf;
  }

  lemma KeptCancelled(ps: map<Event, Plan>, past: map<Event, Past>, log: seq<Firing>, e: Event)
    requires Kept(ps, past, log) && e in ps
    ensures Kept(ps[e := ps[e].(deleted := true)], past[e := past[e].(status := Cancelled)], log)
  {
    CancelAgrees(ps[e], past[e]);
  }

  lemma KeptTaken(ps: map<Event, Plan>, past: map<Event, Past>, log: seq<Firing>, e: Event)
    requires Kept(ps, past, log) && e in ps && ps[e].deleted
    ensures Kept(ps - {e}, past, log)
  {
    DeletedSettles(ps[e], past[e]);
  }

  lemma KeptDropped(ps: map<Event, Plan>, past: map<Event, Past>, log: seq<Firing>, e: Event, status: Status)
    requires Kept(ps, past, log) && e in ps && (status == Cancelled || (status == Dropped && ps[e].callback == 0))
    ensures Kept(ps - {e}, past[e := past[e].(status := status)], log)
  {
    CancelAgrees(ps[e], past[e]);
  }

  /** Removing a record calls off what it still had to do; one that is marked deleted has nothing left to do. */
  function CalledOff(p: Plan, h: Past): Past {
    if p.deleted then h else h.(status := Cancelled)
  }

  lemma KeptCalledOff(ps: map<Event, Plan>, past: map<Event, Past>, log: seq<Firing>, e: Event)
    requires Kept(ps, past, log) && e in ps
    ensures Kept(ps - {e}, past[e := CalledOff(ps[e], past[e])], log)
  {
    if ps[e].deleted {
      KeptTaken(ps, past, log, e);
      assert past[e := past[e]] == past;
    } else {
      KeptDropped(ps, past, log, e, Cancelled);
    }
  }

  /** The history only grows: nothing asked for is forgotten, no firing is undone, and what was called off or dropped
      neither fires again nor comes back. */
  ghost predicate Grows(a: map<Event, Past>, b: map<Event, Past>) {
    forall e | e in a ::
      && e in b && b[e] == a[e].(times := b[e].times, status := b[e].status)
      && a[e].times <= b[e].times
      && (a[e].status != Standing ==> b[e].status != Standing && b[e].times == a[e].times)
  }

  lemma GrowsChain(a: map<Event, Past>, b: map<Event, Past>, c: map<Event, Past>)
    requires Grows(a, b) && Grows(b, c)
    ensures Grows(a, c)
  {
  }

  /** A queue with nothing due has caught up with everything that still stands. */
  lemma AllCaughtUp(ps: map<Event, Plan>, past: map<Event, Past>, log: seq<Firing>, when: int)
    requires Kept(ps, past, log) && forall e | e in ps :: ps[e].next > when
    ensures forall e | e in past && past[e].status == Standing :: CaughtUp(past[e], when)
  {
    forall e | e in past && past[e].status == Standing ensures CaughtUp(past[e], when) {
      if e in ps {
        QueuedCaughtUp(ps[e], past[e], when);
      } else {
        SettledCaughtUp(past[e], when);
      }
    }
  }

  /** An event asked for `total` times has, once its last time is past, fired exactly that often, at first,
      first + interval, and so on. */
  lemma FiresExactly(ps: map<Event, Plan>, past: map<Event, Past>, log: seq<Firing>, e: Event, when: int)
    requires Kept(ps, past, log) && e in past && past[e].status == Standing && CaughtUp(past[e], when)
    requires past[e].total >= 1 && NthTime(past[e], past[e].total - 1) <= when
    ensures var times := TimesOf(log, e);
            |times| == past[e].total && forall k | 0 <= k < |times| :: times[k] == past[e].first + k * past[e].interval
  {
    var h := past[e];
    var last: nat := h.total - 1;
    assert Asked(h, last) && last < |h.times|;
    assert Asked(h, |h.times| - 1);
    assert FiredInOrder(h);
    assert h.times == TimesOf(log, e);
    forall k | 0 <= k < |h.times| ensures h.times[k] == h.first + k * h.interval && k < h.total {
      assert h.times[k] == NthTime(h, k) && Asked(h, k);
    }
  }

  function Others(ps: map<Event, Plan>, callback: nat): map<Event, Plan> {
    map e | e in ps && ps[e].callback != callback :: ps[e]
  }

  predicate Matches(p: Plan, callback: nat, param: int) {
    p.callback == callback && p.param == param && !p.deleted
  }

  /** What a callback may do to the queue; a record in the queue is named by its place. */
  datatype Op =
    | AddOneShot(time: int, callback: nat, param: int)
    | AddRecurring(first: int, count: int, interval: int, callback: nat, param: int)
    | DeleteAt(place: nat, callback: nat, param: int)
    | DeleteMatching(callback: nat, param: int)
    | DeleteAll(callback: nat)

  /** What recurs goes forward in time. */
  predicate Sensible(op: Op) {
    op.AddRecurring? ==> op.count == 1 || op.interval > 0
  }

  predicate AllSensible(ops: seq<Op>) {
    forall op | op in ops :: Sensible(op)
  }

  /** The callback adds nothing that is due by `when`. */
  predicate AddsLater(op: Op, when: int) {
    match op
    case AddOneShot(time, _, _) => time > when
    case AddRecurring(first, _, _, _, _) => first > when
    case _ => true
  }

  predicate AllLater(ops: seq<Op>, when: int) {
    forall op | op in ops :: AddsLater(op, when)
  }

  // ---------------------------------------------------------------- what a run of the queue is

  /** The queue with its history. */
  datatype Snap = Snap(ps: map<Event, Plan>, past: map<Event, Past>, log: seq<Firing>)

  ghost predicate Added(a: Snap, p: Plan, h: Past, b: Snap) {
    exists e :: e in b.past && e !in a.past && b == Snap(a.ps[e := p], a.past[e := h], a.log)
  }

  ghost predicate Marked(a: Snap, callback: nat, param: int, b: Snap) {
    exists e :: && e in a.ps && e in a.past && Matches(a.ps[e], callback, param)
                && b == Snap(a.ps[e := a.ps[e].(deleted := true)], a.past[e := a.past[e].(status := Cancelled)], a.log)
  }

  function Cleared(ps: map<Event, Plan>, past: map<Event, Past>, callback: nat): map<Event, Past> {
    map e | e in past :: if e in ps && ps[e].callback == callback then CalledOff(ps[e], past[e]) else past[e]
  }

  /** What the operation makes of the queue: a new record, one mark on a record that matches, or all records of a
      callback taken away. */
  ghost predicate Performed(op: Op, a: Snap, b: Snap) {
    match op
    case AddOneShot(time, callback, param) => Added(a, NewPlan(time, 1, 0, callback, param), Wanted(time, 1, 0, callback, param), b)
    case AddRecurring(first, count, interval, callback, param) =>
      Added(a, NewPlan(first, count, interval, callback, param), Wanted(first, count, interval, callback, param), b)
    case DeleteAt(_, callback, param) => b == a || Marked(a, callback, param, b)
    case DeleteMatching(callback, param) =>
      Marked(a, callback, param, b) || (b == a && forall e | e in a.ps :: !Matches(a.ps[e], callback, param))
    case DeleteAll(callback) => b == Snap(Others(a.ps, callback), Cleared(a.ps, a.past, callback), a.log)
  }

  /** One operation after the other, from `mids[0]` on. */
  ghost predicate AllPerformed(ops: seq<Op>, mids: seq<Snap>) {
    |mids| == |ops| + 1 && forall i | 0 <= i < |ops| :: Performed(ops[i], mids[i], mids[i + 1])
  }

  /** Nothing in the queue is due before `e`, which is due by `when`. */
  ghost predicate DueFirst(ps: map<Event, Plan>, e: Event, when: int) {
    e in ps && ps[e].next <= when && forall d | d in ps :: ps[e].next <= ps[d].next
  }

  /** The record is updated and back in the queue, and its firing noted. */
  ghost function Fired(a: Snap, e: Event): Snap
    requires e in a.ps && e in a.past
  {
    Snap(a.ps[e := Fire(a.ps[e])], a.past[e := a.past[e].(times := a.past[e].times + [a.ps[e].next])],
         a.log + [Firing(e, a.ps[e].next)])
  }

  /** One turn with `e` in front: a deleted record goes, one without a callback is dropped, and any other fires and its
      callback is called, which performs `ops` by way of `mids`. */
  ghost predicate StepOf(a: Snap, b: Snap, e: Event, ops: seq<Op>, mids: seq<Snap>, when: int) {
    && DueFirst(a.ps, e, when) && e in a.past
    && if a.ps[e].deleted then b == a.(ps := a.ps - {e})
       else if a.ps[e].callback == 0 then b == a.(ps := a.ps - {e}, past := a.past[e := a.past[e].(status := Dropped)])
       else AllPerformed(ops, mids) && mids[0] == Fired(a, e) && mids[|mids| - 1] == b
  }

  ghost predicate Step(a: Snap, b: Snap, ops: seq<Op>, mids: seq<Snap>, when: int) {
    exists e :: e in a.ps && StepOf(a, b, e, ops, mids, when)
  }

  function OpsOf(calls: seq<seq<Op>>, k: int): seq<Op> {
    if 0 <= k < |calls| then calls[k] else []
  }

  /** The turns of a run: the `k`-th callback that is called performs `calls[k]`. */
  ghost predicate Turns(trace: seq<Snap>, inside: seq<seq<Snap>>, calls: seq<seq<Op>>, when: int) {
    && |trace| == |inside| + 1
    && forall i | 0 <= i < |inside| ::
         Step(trace[i], trace[i + 1], OpsOf(calls, |trace[i].log| - |trace[0].log|), inside[i], when)
  }

  /** The queue goes from `a` to `b` by such turns, until nothing is due by `when`. */
  ghost predicate Ran(a: Snap, b: Snap, trace: seq<Snap>, inside: seq<seq<Snap>>, calls: seq<seq<Op>>, when: int) {
    && Turns(trace, inside, calls, when) && trace[0] == a && trace[|trace| - 1] == b
    && forall e | e in b.ps :: b.ps[e].next > when
  }

  lemma OneMorePerformed(ops: seq<Op>, op: Op, mids: seq<Snap>, b: Snap)
    requires AllPerformed(ops, mids) && Performed(op, mids[|mids| - 1], b)
    ensures AllPerformed(ops + [op], mids + [b])
  {
    hide Performed;
    var all, m := ops + [op], mids + [b];
    forall i | 0 <= i < |all| ensures Performed(all[i], m[i], m[i + 1]) {
      if i < |ops| {
        assert m[i] == mids[i] && m[i + 1] == mids[i + 1];
      }
    }
  }

  lemma OneMoreTurn(trace: seq<Snap>, inside: seq<seq<Snap>>, calls: seq<seq<Op>>, when: int, b: Snap, mids: seq<Snap>)
    requires Turns(trace, inside, calls, when)
    requires Step(trace[|trace| - 1], b, OpsOf(calls, |trace[|trace| - 1].log| - |trace[0].log|), mids, when)
    ensures Turns(trace + [b], inside + [mids], calls, when)
  {
    hide Step, OpsOf;
    var t, ins := trace + [b], inside + [mids];
    forall i | 0 <= i < |ins| ensures Step(t[i], t[i + 1], OpsOf(calls, |t[i].log| - |t[0].log|), ins[i], when) {
      if i < |inside| {
        assert t[i] == trace[i] && t[i + 1] == trace[i + 1];
      }
    }
  }

  // ---------------------------------------------------------------- what is called off

  /** The operation deletes what was asked for like this. */
  predicate Names(op: Op, h: Past) {
    match op
    case DeleteAt(_, callback, param) => h.callback == callback && h.param == param
    case DeleteMatching(callback, param) => h.callback == callback && h.param == param
    case DeleteAll(callback) => h.callback == callback
    case _ => false
  }

  ghost predicate NamedIn(ops: seq<Op>, h: Past) {
    exists op :: op in ops && Names(op, h)
  }

  predicate WasCancelled(past: map<Event, Past>, e: Event) {
    e in past && past[e].status == Cancelled
  }

  /** Only what the operations name is called off. */
  ghost predicate OnlyNamed(past: map<Event, Past>, past': map<Event, Past>, ops: seq<Op>) {
    forall e | e in past' && past'[e].status == Cancelled :: WasCancelled(past, e) || NamedIn(ops, past'[e])
  }

  /** One of the first `n` callbacks called has named it for deletion. */
  ghost predicate NamedByCall(calls: seq<seq<Op>>, n: int, h: Past) {
    exists j :: 0 <= j < n && j < |calls| && NamedIn(calls[j], h)
  }

  ghost predicate OnlyCalledOff(past: map<Event, Past>, past': map<Event, Past>, calls: seq<seq<Op>>, n: int) {
    forall e | e in past' && past'[e].status == Cancelled :: WasCancelled(past, e) || NamedByCall(calls, n, past'[e])
  }

  /** Nothing that was asked for earlier or meanwhile is called off or dropped, if it has a callback. */
  ghost predicate AllStand(past: map<Event, Past>, past': map<Event, Past>) {
    forall e | e in past' && past'[e].callback != 0 && (e in past ==> past[e].status == Standing) :: past'[e].status == Standing
  }

  predicate Deletes(op: Op) {
    op.DeleteAt? || op.DeleteMatching? || op.DeleteAll?
  }

  lemma NamedLater(past: map<Event, Past>, past': map<Event, Past>, past'': map<Event, Past>, ops: seq<Op>, more: seq<Op>)
    requires OnlyNamed(past, past', ops) && OnlyNamed(past', past'', more) && Grows(past', past'')
    ensures OnlyNamed(past, past'', ops + more)
  {
    forall e | e in past'' && past''[e].status == Cancelled ensures WasCancelled(past, e) || NamedIn(ops + more, past''[e]) {
      if WasCancelled(past', e) {
        if !WasCancelled(past, e) {
          var op :| op in ops && Names(op, past'[e]);
          assert op in ops + more && Names(op, past''[e]);
        }
      } else {
        var op :| op in more && Names(op, past''[e]);
        assert op in ops + more;
      }
    }
  }

  lemma CalledOffLater(past: map<Event, Past>, past': map<Event, Past>, past'': map<Event, Past>, calls: seq<seq<Op>>,
                       n: nat, called: bool)
    requires OnlyCalledOff(past, past', calls, n) && OnlyNamed(past', past'', if called then OpsOf(calls, n) else [])
    requires Grows(past', past'')
    ensures OnlyCalledOff(past, past'', calls, if called then n + 1 else n)
  {
    var n' := if called then n + 1 else n;
    forall e | e in past'' && past''[e].status == Cancelled ensures WasCancelled(past, e) || NamedByCall(calls, n', past''[e]) {
      if WasCancelled(past', e) {
        if !WasCancelled(past, e) {
          var j :| 0 <= j < n && j < |calls| && NamedIn(calls[j], past'[e]);
          var op :| op in calls[j] && Names(op, past'[e]);
          assert op in calls[j] && Names(op, past''[e]);
          assert NamedIn(calls[j], past''[e]);
        }
      } else {
        assert called && n < |calls| && NamedIn(calls[n], past''[e]);
      }
    }
  }

  lemma SameNotNamed(past: map<Event, Past>, ops: seq<Op>)
    ensures OnlyNamed(past, past, ops)
  {
  }

  lemma NewNotNamed(past: map<Event, Past>, e: Event, h: Past, ops: seq<Op>)
    requires h.status == Standing
    ensures OnlyNamed(past, past[e := h], ops)
  {
  }

  lemma MarkedNamed(ps: map<Event, Plan>, past: map<Event, Past>, log: seq<Firing>, e: Event, op: Op, callback: nat, param: int)
    requires Kept(ps, past, log) && e in ps && e in past && Matches(ps[e], callback, param)
    requires op == DeleteMatching(callback, param) || (op.DeleteAt? && op.callback == callback && op.param == param)
    ensures OnlyNamed(past, past[e := past[e].(status := Cancelled)], [op])
  {
    var past' := past[e := past[e].(status := Cancelled)];
    KeptKnows(ps, past, log, e);
    hide Kept;
    forall d | d in past' && past'[d].status == Cancelled ensures WasCancelled(past, d) || NamedIn([op], past'[d]) {
      if d == e {
        assert op in [op] && Names(op, past'[d]);
      }
    }
  }

  lemma HitPerformed(a: Snap, hit: Event?, op: Op, callback: nat, param: int, b: Snap)
    requires Kept(a.ps, a.past, a.log) && b.log == a.log
    requires op == DeleteMatching(callback, param) || (op.DeleteAt? && op.callback == callback && op.param == param)
    requires if hit == null then b == a
             else && hit in a.ps && hit in a.past && Matches(a.ps[hit], callback, param)
                  && b.ps == a.ps[hit := a.ps[hit].(deleted := true)] && b.past == a.past[hit := a.past[hit].(status := Cancelled)]
    requires hit == null && op.DeleteMatching? ==> forall e | e in a.ps :: !Matches(a.ps[e], callback, param)
    ensures Performed(op, a, b) && OnlyNamed(a.past, b.past, [op])
  {
    if hit != null {
      MarkedNamed(a.ps, a.past, a.log, hit, op, callback, param);
      assert Marked(a, callback, param, b);
    }
    hide Kept, Marked;
  }

  lemma DroppedNotNamed(past: map<Event, Past>, e: Event)
    requires e in past
    ensures OnlyNamed(past, past[e := past[e].(status := Dropped)], [])
  {
  }

  lemma FiredNotNamed(past: map<Event, Past>, e: Event, t: int, past': map<Event, Past>, ops: seq<Op>)
    requires e in past && OnlyNamed(past[e := past[e].(times := past[e].times + [t])], past', ops)
    ensures OnlyNamed(past, past', ops)
  {
  }

  /** Taking all records of a callback away is what its operation says. */
  lemma AllGonePerformed(a: Snap, live: set<Event>, callback: nat, b: Snap, live': set<Event>)
    requires Kept(a.ps, a.past, a.log) && AllGone(a.ps, a.past, live, callback, b.ps, b.past, live')
    requires b.ps == Others(a.ps, callback) && b.log == a.log
    ensures Performed(DeleteAll(callback), a, b) && OnlyNamed(a.past, b.past, [DeleteAll(callback)])
  {
    var gone, op := a.ps.Keys - b.ps.Keys, DeleteAll(callback);
    assert forall e :: e in gone <==> e in a.ps && a.ps[e].callback == callback;
    assert b.past == Cleared(a.ps, a.past, callback);
    forall d | d in b.past && b.past[d].status == Cancelled ensures WasCancelled(a.past, d) || NamedIn([op], b.past[d]) {
      if d in gone {
        KeptKnows(a.ps, a.past, a.log, d);
        assert op in [op] && Names(op, b.past[d]);
      }
    }
  }

  lemma NamedDeletes(calls: seq<seq<Op>>, n: int, h: Past)
    requires NamedByCall(calls, n, h)
    ensures exists ops, op :: ops in calls && op in ops && Deletes(op)
  {
    var j :| 0 <= j < n && j < |calls| && NamedIn(calls[j], h);
    var op :| op in calls[j] && Names(op, h);
    assert calls[j] in calls && Deletes(op);
  }

  lemma NothingNamed(past: map<Event, Past>, past': map<Event, Past>, calls: seq<seq<Op>>, n: int)
    requires OnlyCalledOff(past, past', calls, n)
    requires forall e | e in past' && past'[e].status == Dropped :: past'[e].callback == 0
    requires forall ops, op | ops in calls && op in ops :: !Deletes(op)
    ensures AllStand(past, past')
  {
    forall e | e in past' ensures !NamedByCall(calls, n, past'[e]) {
      if NamedByCall(calls, n, past'[e]) {
        NamedDeletes(calls, n, past'[e]);
      }
    }
    hide NamedByCall;
  }

  class Scheduler {
    var events: seq<Event>

    ghost var live: set<Event>         // the records handed out by getschedule and not yet given back
    ghost var past: map<Event, Past>   // everything that was ever asked for
    ghost var log: seq<Firing>         // the callbacks made, in order

    ghost predicate Valid()
      reads this, events
    {
      Heap(events) && Placed(events) && Records(events) <= live && Kept(PlansOf(events), past, log)
    }

    ghost function Now(): Snap
      reads this, events
    {
      Snap(PlansOf(events), past, log)
    }

    constructor ()
      ensures Valid() && events == [] && past == map[] && log == [] && live == {}
    {
      events, live, past, log := [], {}, map[], [];
    }

    /** schedule_heapify: sinks the record at `i`. */
    method Heapify(i: nat)
      requires i < |events| && Placed(events) && HeapAround(events, i)
      modifies this`events, events`index
      ensures Placed(events) && |events| == |old(events)| && Records(events) == Records(old(events))
      ensures forall e | e in events :: e in old(events)
      ensures HeapUp(events, i)
      ensures forall k | 0 <= k < i :: events[k] == old(events[k])
      ensures events[i] == old(events[i]) || exists k | i < k < |events| && Parent(k) == i :: events[i] == old(events[k])
      decreases |events| - i
    {
      hide HeapAround, HeapUp, Placed, Records, Parent, Swapped;
      if i * 2 + 1 >= |events| {
        LeafUp(events, i);
        return;
      }
      var first := EarliestOf(i);
      if first == i {
        SettledUp(events, i);
        return;
      }
      ghost var es := events;
      SunkOnce(es, i, first);
      SwappedRecords(es, i, first);
      Swap(first, i);
      Heapify(first);
      SunkAll(es, i, first, events);
    }

    /** The earliest of a record and its children; the record itself when no child is before it. */
    method EarliestOf(i: nat) returns (first: nat)
      requires i * 2 + 1 < |events|
      ensures first < |events| && (first != i ==> first > 0 && Parent(first) == i && events[first].plan.next < events[i].plan.next)
      ensures forall k | 0 < k < |events| && (Parent(k) == i || k == i * 2 + 1 || k == i * 2 + 2) :: Le(events[first], events[k])
    {
      first := i;
      if events[i].plan.next > events[i * 2 + 1].plan.next {
        first := i * 2 + 1;
      }
      if i * 2 + 2 < |events| && events[first].plan.next > events[i * 2 + 2].plan.next {
        first := i * 2 + 2;
      }
    }

    /** Two records change places, and learn about it. */
    method Swap(i: nat, j: nat)
      requires i < |events| && j < |events| && Placed(events)
      modifies this`events, events`index
      ensures events == Swapped(old(events), j, i) && Placed(events)
    {
      var e := events[i];
      events := events[i := events[j]];
      events := events[j := e];
      events[i].index := i;
      events[j].index := j;
    }

    /** The way up in insertschedule: `mypos` is a vacant place, and a later parent is pulled down into it. */
    method InsertSchedule(sp: Event)
      requires Heap(events) && Placed(events) && sp !in Records(events)
      modifies this`events, events`index, sp`index
      ensures Heap(events) && Placed(events) && Records(events) == Records(old(events)) + {sp}
    {
      hide Heap, HeapUp, Placed, Records, Parent;
      var mypos: nat := |events|;
      Appended(events, sp);
      AppendedRecords(events, sp);
      ghost var es := events + [sp];
      PlacedAlmost(events, sp);
      events := events + [sp];
      while mypos != 0 && sp.plan.next < events[Parent(mypos)].plan.next
        invariant mypos < |events| == |es| && es == events[mypos := sp]
        invariant HeapUp(es, mypos) && PlacedBut(es, mypos) && Records(es) == Records(old(events)) + {sp}
        invariant forall k | 0 <= k < |events| :: events[k] == sp || events[k] in old(events)
      {
        var myparent := Parent(mypos);
        FloatedOnce(es, mypos);
        SwappedRecords(es, mypos, myparent);
        PullDown(mypos, sp);
        es := Swapped(es, mypos, myparent);
        mypos := myparent;
      }
      FloatedAll(es, mypos);
      PutIn(mypos, sp);
    }

    /** The parent moves down into the vacant place. */
    method PullDown(mypos: nat, ghost sp: Event)
      requires 0 < mypos < |events| && PlacedBut(events[mypos := sp], mypos)
      modifies this`events, events`index
      ensures events == old(events)[mypos := old(events)[Parent(mypos)]]
      ensures PlacedBut(events[Parent(mypos) := sp], Parent(mypos))
      ensures events[Parent(mypos) := sp] == Swapped(old(events)[mypos := sp], mypos, Parent(mypos))
    {
      hide Parent;
      var myparent := Parent(mypos);
      ghost var es := events[mypos := sp];
      events := events[mypos := events[myparent]];
      events[mypos].index := mypos;
      assert events[myparent := sp] == Swapped(es, mypos, myparent);
    }

    method PutIn(mypos: nat, sp: Event)
      requires mypos < |events| && PlacedBut(events[mypos := sp], mypos)
      modifies this`events, sp`index
      ensures events == old(events)[mypos := sp] && Placed(events)
    {
      events := events[mypos := sp];
      sp.index := mypos;
    }

    /** schedule_remove. */
    method ScheduleRemove(index: nat)
      requires Heap(events) && Placed(events) && index < |events|
      modifies this`events, events`index
      ensures Heap(events) && Placed(events) && Records(events) == Records(old(events)) - {old(events)[index]}
    {
      hide Heap, HeapUp, HeapAround, Placed, Records, Parent;
      ReplacedRecords(events, index);
      var last := |events| - 1;
      if index == last {
        ShorterHeap(events);
        PlacedShorter(events);
        events := events[..last];
        return;
      }
      Replaced(events, index);
      MoveLast(index);
      Heapify(index);
      var mypos: nat := index;
      while mypos != 0 && events[mypos].plan.next < events[Parent(mypos)].plan.next
        invariant mypos < |events| && HeapUp(events, mypos) && Placed(events)
        invariant forall k | 0 <= k < |events| :: events[k] in old(events)
        invariant Records(events) == Records(old(events)) - {old(events)[index]}
      {
        FloatedOnce(events, mypos);
        SwappedRecords(events, mypos, Parent(mypos));
        var myparent := Parent(mypos);
        Swap(myparent, mypos);
        mypos := myparent;
      }
      FloatedAll(events, mypos);
    }

    /** The last record takes the place of the one at `index`, which forgets its place. */
    method MoveLast(index: nat)
      requires index < |events| - 1 && Placed(events)
      modifies this`events, events`index
      ensures events == old(events)[..|old(events)| - 1][index := old(events)[|old(events)| - 1]] && Placed(events)
      ensures forall e | e in events :: e in old(events)
    {
      var last := |events| - 1;
      events[index].index := -1;
      events := events[..last][index := events[last]];
      events[index].index := index;
    }

    /** The front of the heap leaves it, as doscheduledevents takes it. */
    method TakeFirst() returns (sp: Event)
      requires Heap(events) && Placed(events) && events != []
      modifies this`events, events`index
      ensures sp == old(events)[0] && Heap(events) && Placed(events)
      ensures Records(events) == Records(old(events)) - {sp} && forall k | 0 <= k < |events| :: events[k] in old(events)
    {
      hide Heap, HeapUp, HeapAround, Placed, Records, Parent;
      sp := events[0];
      ReplacedRecords(events, 0);
      var last := |events| - 1;
      if last == 0 {
        ShorterHeap(events);
        PlacedShorter(events);
        sp.index := -1;
        events := events[..last];
        sp.index := 0;
        PlacedNone(events);
      } else {
        Replaced(events, 0);
        MoveLast(0);
        Heapify(0);
        FloatedAll(events, 0);
      }
    }

    /** schedulerecurring, and scheduleoneshot for a count of 1. */
    method ScheduleRecurring(first: int, count: int, interval: int, callback: nat, param: int) returns (sp: Event)
      requires Valid() && (count == 1 || interval > 0)
      modifies this, events`index
      ensures Valid() && fresh(sp) && sp !in old(past) && live == old(live) + {sp} && log == old(log)
      ensures PlansOf(events) == old(PlansOf(events))[sp := NewPlan(first, count, interval, callback, param)]
      ensures past == old(past)[sp := Wanted(first, count, interval, callback, param)]
    {
      hide Heap, Placed, Agrees, NewPlan, Kept;
      sp := new Event(NewPlan(first, count, interval, callback, param));
      NewAgrees(first, count, interval, callback, param);
      ghost var ps := PlansOf(events);
      KeptAdded(ps, past, log, sp, sp.plan, Wanted(first, count, interval, callback, param));
      InsertSchedule(sp);
      assert PlansOf(events) == ps[sp := sp.plan];
      live := live + {sp};
      past := past[sp := Wanted(first, count, interval, callback, param)];
    }

    /** Marks one record of the queue as deleted. */
    method MarkDeleted(sp: Event)
      requires Valid() && sp in Records(events)
      modifies this`past, sp`plan
      ensures Valid()
      ensures PlansOf(events) == old(PlansOf(events))[sp := old(sp.plan).(deleted := true)]
      ensures sp in old(past) && past == old(past)[sp := old(past)[sp].(status := Cancelled)]
    {
      hide Placed, Kept, Parent;
      ghost var ps := PlansOf(events);
      assert sp in past by { KeptKnows(ps, past, log, sp); }
      KeptCancelled(ps, past, log, sp);
      sp.plan := sp.plan.(deleted := true);
      past := past[sp := past[sp].(status := Cancelled)];
      assert PlansOf(events) == ps[sp := sp.plan];
    }

    /** deleteschedule: with a record, only if it is what the caller thinks it is; otherwise the first that matches. */
    method DeleteSchedule(sch: Event?, callback: nat, param: int) returns (ghost hit: Event?)
      requires Valid() && (sch != null ==> sch in Records(events))
      modifies this`past, events`plan
      ensures Valid()
      ensures hit != null ==>
                && hit in old(PlansOf(events)) && hit in old(past) && Matches(old(PlansOf(events))[hit], callback, param)
                && PlansOf(events) == old(PlansOf(events))[hit := old(PlansOf(events))[hit].(deleted := true)]
                && past == old(past)[hit := old(past)[hit].(status := Cancelled)]
      ensures hit == null ==> PlansOf(events) == old(PlansOf(events)) && past == old(past)
      ensures sch != null ==> hit == if Matches(old(PlansOf(events))[sch], callback, param) then sch else null
      ensures sch == null && hit == null ==>
                forall e | e in Records(events) :: !Matches(old(PlansOf(events))[e], callback, param)
    {
      hide Heap, Placed, Kept;
      hit := null;
      if sch != null {
        if Matches(sch.plan, callback, param) {
          MarkDeleted(sch);
          hit := sch;
        }
        return;
      }
      for i := 0 to |events|
        invariant events == old(events) && Valid() && past == old(past) && PlansOf(events) == old(PlansOf(events))
        invariant forall k | 0 <= k < i :: !Matches(events[k].plan, callback, param)
      {
        if Matches(events[i].plan, callback, param) {
          RecordAt(events, i);
          hit := events[i];
          MarkDeleted(events[i]);
          return;
        }
      }
    }

    /** freeschedule: only a record that was handed out and not given back yet. */
    ghost method FreeSchedule(sp: Event)
      requires sp in live
      modifies this`live
      ensures live == old(live) - {sp}
    {
      live := live - {sp};
    }

    /** The scan of deleteallschedules: removes and frees the first record with this callback. */
    method DeleteOne(callback: nat) returns (found: bool)
      requires Valid()
      modifies this`events, this`live, this`past, events`index
      ensures Valid() && Records(events) <= old(Records(events))
      ensures !found ==> past == old(past) && live == old(live) && events == old(events)
                         && Others(PlansOf(events), callback) == PlansOf(events)
      ensures found ==> OneGone(old(PlansOf(events)), old(past), old(live), callback, PlansOf(events), past, live)
    {
      hide Heap, Placed, Kept;
      for i := 0 to |events|
        invariant events == old(events) && Valid() && past == old(past) && live == old(live)
        invariant PlansOf(events) == old(PlansOf(events))
        invariant forall k | 0 <= k < i :: events[k].plan.callback != callback
      {
        if events[i].plan.callback == callback {
          RemoveAndFree(i);
          return true;
        }
      }
      return false;
    }

    method RemoveAndFree(i: nat)
      requires Valid() && i < |events|
      modifies this`events, this`live, this`past, events`index
      ensures Valid() && Records(events) <= old(Records(events))
      ensures OneGone(old(PlansOf(events)), old(past), old(live), old(events[i].plan.callback), PlansOf(events), past, live)
    {
      hide Heap, Placed, Kept;
      var sp := events[i];
      ghost var ps := PlansOf(events);
      RecordAt(events, i);
      KeptKnows(ps, past, log, sp);
      KeptCalledOff(ps, past, log, sp);
      ScheduleRemove(i);
      assert PlansOf(events) == ps - {sp};
      past := past[sp := CalledOff(ps[sp], past[sp])];
      FreeSchedule(sp);
    }

    /** deleteallschedules: starts over after each removal, until a scan finds nothing. */
    method DeleteAllSchedules(callback: nat)
      requires Valid()
      modifies this`events, this`live, this`past, events`index
      ensures Valid() && AllGone(old(PlansOf(events)), old(past), old(live), callback, PlansOf(events), past, live)
      ensures PlansOf(events) == Others(old(PlansOf(events)), callback)
    {
      hide Valid, Heap, Placed, Kept, AllGone, OneGone, Others, Records, PlansOf;
      ghost var ps0 := PlansOf(events);
      NoneGone(ps0, past, live, callback);
      var again := true;
      while again
        invariant Valid() && Records(events) <= old(Records(events))
        invariant AllGone(ps0, old(past), old(live), callback, PlansOf(events), past, live)
        invariant !again ==> Others(PlansOf(events), callback) == PlansOf(events)
        decreases Records(events), again
      {
        ghost var ps, was, alive := PlansOf(events), past, live;
        SomeRecords(events, old(events));
        again := DeleteOne(callback);
        if again {
          OneMoreGone(ps0, old(past), old(live), callback, ps, was, alive, PlansOf(events), past, live);
        }
      }
      OthersLeft(ps0, old(past), old(live), callback, PlansOf(events), past, live);
    }

    /** One thing a callback does. */
    method Perform(op: Op, when: int)
      requires Valid() && Sensible(op)
      modifies this, live
      ensures Valid() && fresh(live - old(live)) && log == old(log)
      ensures Performed(op, old(Now()), Now()) && OnlyNamed(old(past), past, [op])
      ensures Calm(old(PlansOf(events)), old(past), PlansOf(events), past, when, AddsLater(op, when))
    {
      hide Valid, Heap, Placed, Kept, Calm, AllGone, OneGone, Others, Matches, PlansOf, OnlyNamed;
      InLive();
      InStep();
      ghost var ps0, past0, a := PlansOf(events), past, Now();
      ghost var later := AddsLater(op, when);
      CalmSame(ps0, past0, when, later);
      match op
      case AddOneShot(time, callback, param) =>
        var sp := ScheduleRecurring(time, 1, 0, callback, param);
        CalmAdded(ps0, past0, sp, NewPlan(time, 1, 0, callback, param), past[sp], when, later);
        assert Added(old(Now()), NewPlan(time, 1, 0, callback, param), past[sp], Now());
        NewNotNamed(past0, sp, past[sp], [op]);
      case AddRecurring(first, count, interval, callback, param) =>
        var sp := ScheduleRecurring(first, count, interval, callback, param);
        CalmAdded(ps0, past0, sp, NewPlan(first, count, interval, callback, param), past[sp], when, later);
        assert Added(old(Now()), NewPlan(first, count, interval, callback, param), past[sp], Now());
        NewNotNamed(past0, sp, past[sp], [op]);
      case DeleteAt(place, callback, param) =>
        if place < |events| {
          RecordAt(events, place);
          var hit := DeleteSchedule(events[place], callback, param);
          CalmMarked(ps0, past0, PlansOf(events), past, hit, when, later);
          HitPerformed(a, hit, op, callback, param, Now());
        } else {
          SameNotNamed(past, [op]);
        }
      case DeleteMatching(callback, param) =>
        var hit := DeleteSchedule(null, callback, param);
        CalmMarked(ps0, past0, PlansOf(events), past, hit, when, later);
        HitPerformed(a, hit, op, callback, param, Now());
      case DeleteAll(callback) =>
        DeleteAllSchedules(callback);
        CalmCleared(ps0, past0, old(live), callback, PlansOf(events), past, live, when, later);
        AllGonePerformed(a, old(live), callback, Now(), live);
    }

    ghost method InStep()
      requires Valid()
      ensures Kept(Now().ps, Now().past, Now().log)
    {
      hide Heap, Placed, Kept;
    }

    /** The front of the queue is due first. */
    ghost method FrontIsLeast()
      requires Valid() && events != []
      ensures events[0] in PlansOf(events) && PlansOf(events)[events[0]] == events[0].plan
      ensures forall e | e in PlansOf(events) :: events[0].plan.next <= PlansOf(events)[e].next
    {
      hide Heap, Placed, Kept;
      RecordAt(events, 0);
      forall e | e in PlansOf(events) ensures events[0].plan.next <= PlansOf(events)[e].next {
        var k :| 0 <= k < |events| && events[k] == e;
        TopIsLeast(events, k);
      }
    }

    ghost method FrontQueued()
      requires Valid() && events != []
      ensures exists e :: e in PlansOf(events) && PlansOf(events)[e].next == events[0].plan.next
    {
      FrontIsLeast();
    }

    /** With nothing due at the front, everything has caught up. */
    ghost method NothingDue(when: int)
      requires Valid() && (events == [] || events[0].plan.next > when)
      ensures forall e | e in Records(events) :: e.plan.next > when
      ensures forall e | e in past && past[e].status == Standing :: CaughtUp(past[e], when)
    {
      if events != [] {
        FrontIsLeast();
      }
      AllCaughtUp(PlansOf(events), past, log, when);
    }

    ghost method AllKept()
      requires Valid()
      ensures forall e | e in past && past[e].status == Dropped :: past[e].callback == 0
      ensures forall e | e in Now().ps :: e in Records(events) && Now().ps[e] == e.plan
    {
      forall e | e in past && past[e].status == Dropped ensures past[e].callback == 0 {
        assert CalledRightly(past[e]);
      }
    }

    /** The lazy clean-up of a record that has left the queue. */
    ghost method GiveBack(sp: Event)
      requires Valid() && sp in live && sp !in Records(events)
      modifies this`live
      ensures Valid() && live == old(live) - {sp}
    {
      hide Heap, Placed, Kept;
      FreeSchedule(sp);
    }

    ghost method InLive()
      requires Valid()
      ensures forall k | 0 <= k < |events| :: events[k] in live
    {
      forall k | 0 <= k < |events| ensures events[k] in live {
        RecordAt(events, k);
      }
    }

    /** A callback, as the list of what it does. */
    method Call(ops: seq<Op>, when: int) returns (ghost mids: seq<Snap>)
      requires Valid() && AllSensible(ops)
      modifies this, live
      ensures Valid() && fresh(live - old(live)) && log == old(log)
      ensures AllPerformed(ops, mids) && mids[0] == old(Now()) && mids[|mids| - 1] == Now()
      ensures OnlyNamed(old(past), past, ops)
      ensures Calm(old(PlansOf(events)), old(past), PlansOf(events), past, when, AllLater(ops, when))
    {
      hide Valid, Calm, AddsLater, PlansOf, Performed, OnlyNamed, AllLater, Sensible, Grows;
      ghost var ps0, past0, later := PlansOf(events), past, AllLater(ops, when);
      CalmSame(ps0, past0, when, later);
      SameNotNamed(past, []);
      mids := [Now()];
      assert ops[..0] == [];
      for i := 0 to |ops|
        invariant Valid() && fresh(live - old(live)) && log == old(log)
        invariant Calm(ps0, past0, PlansOf(events), past, when, later)
        invariant AllPerformed(ops[..i], mids) && mids[0] == old(Now()) && mids[|mids| - 1] == Now()
        invariant OnlyNamed(past0, past, ops[..i])
      {
        ghost var ps, was := PlansOf(events), past;
        LaterOne(ops, i, when);
        Perform(ops[i], when);
        OneMorePerformed(ops[..i], ops[i], mids, Now());
        mids := mids + [Now()];
        CalmGrows(ps, was, PlansOf(events), past, when, AddsLater(ops[i], when));
        NamedLater(past0, was, past, ops[..i], [ops[i]]);
        assert ops[..i] + [ops[i]] == ops[..i + 1];
        CalmLess(ps, was, PlansOf(events), past, when, AddsLater(ops[i], when), later);
        CalmChain(ps0, past0, ps, was, PlansOf(events), past, when, later);
      }
      assert ops[..|ops|] == ops;
    }

    /** Takes the front of the queue away for good: it was deleted, or it has no callback. */
    method Discard() returns (sp: Event)
      requires Valid() && events != [] && (events[0].plan.deleted || events[0].plan.callback == 0)
      modifies this`events, this`past, events`index
      ensures sp == old(events)[0] && sp in live && Valid()
      ensures PlansOf(events) == old(PlansOf(events)) - {sp} && sp in old(PlansOf(events)) && sp in old(past)
      ensures past == if old(events)[0].plan.deleted then old(past) else old(past)[sp := old(past)[sp].(status := Dropped)]
    {
      hide Heap, Placed, Kept;
      ghost var ps := PlansOf(events);
      RecordAt(events, 0);
      KeptKnows(ps, past, log, events[0]);
      sp := TakeFirst();
      assert PlansOf(events) == ps - {sp};
      if sp.plan.deleted {
        KeptTaken(ps, past, log, sp);
      } else {
        KeptDropped(ps, past, log, sp, Dropped);
        past := past[sp := past[sp].(status := Dropped)];
      }
    }

    /** Takes the front of the queue out, updates it, and puts it back, all before the callback. */
    method Requeue()
      requires Valid() && events != [] && !events[0].plan.deleted && events[0].plan.callback != 0
      modifies this`events, this`past, this`log, events
      ensures Valid() && Records(events) == old(Records(events))
      ensures var sp := old(events)[0];
              && sp in old(PlansOf(events)) && sp in old(past) && Agrees(old(sp.plan), old(past)[sp])
              && PlansOf(events) == old(PlansOf(events))[sp := Fire(old(sp.plan))]
              && past == old(past)[sp := old(past)[sp].(times := old(past)[sp].times + [old(sp.plan).next])]
              && log == old(log) + [Firing(sp, old(sp.plan).next)]
    {
      hide Heap, Placed, Kept, Fire, Agrees;
      ghost var ps := PlansOf(events);
      RecordAt(events, 0);
      ghost var plan := events[0].plan;
      KeptKnows(ps, past, log, events[0]);
      KeptFired(ps, past, log, events[0]);
      var sp := TakeFirst();
      var plan' := Fire(sp.plan);
      sp.plan := plan';
      InsertSchedule(sp);
      assert PlansOf(events) == ps[sp := plan'];
      past := past[sp := past[sp].(times := past[sp].times + [plan.next])];
      log := log + [Firing(sp, plan.next)];
    }

    /** One turn of the loop below; `ops` is what the callback does if there is one. */
    method RunFirst(when: int, ops: seq<Op>) returns (called: bool, ghost mids: seq<Snap>)
      requires Valid() && events != [] && events[0].plan.next <= when
      requires AllSensible(ops)
      modifies this, live
      ensures Valid() && fresh(live - old(live))
      ensures Turn(old(PlansOf(events)), old(past), old(log), old(events[0].plan.next), PlansOf(events), past, log, when,
                   !called || AllLater(ops, when))
      ensures Step(old(Now()), Now(), ops, mids, when) && |log| == |old(log)| + if called then 1 else 0
      ensures OnlyNamed(old(past), past, if called then ops else [])
    {
      hide Valid, PlansOf, Turn, Calm, AllLater, Agrees, Fire, AllPerformed, OnlyNamed;
      InLive();
      FrontIsLeast();
      ghost var ps, was, logged := PlansOf(events), past, log;
      ghost var first, plan := events[0], events[0].plan;
      called, mids := false, [];
      if events[0].plan.deleted {
        var sp := Discard();
        GiveBack(sp);
        TakenTurn(ps, was, logged, first, was, when, true);
        SameNotNamed(past, []);
      } else if events[0].plan.callback == 0 {
        var sp := Discard();
        TakenTurn(ps, was, logged, first, past, when, true);
        DroppedNotNamed(was, first);
      } else {
        Requeue();
        ghost var ps1, past1 := PlansOf(events), past;
        assert Now() == Fired(old(Now()), first);
        mids := Call(ops, when);
        FiredTurn(ps, was, logged, first, ps1, past1, PlansOf(events), past, when, AllLater(ops, when));
        FiredNotNamed(was, first, ps[first].next, past, ops);
        called := true;
      }
      assert StepOf(old(Now()), Now(), first, ops, mids, when);
    }

    /** doscheduledevents: runs what is due by `when`. `calls` is what each callback does. The loop ends whatever they
        add; only what was due by `when` fires; and afterwards everything asked for up to `when`, and not called off, has
        fired exactly as often as asked. What is called off was named by a callback of this run, and what is dropped has
        no callback. If none of them adds anything that is due already, the callbacks are made in the order of their
        times. */
    method DoScheduledEvents(when: int, calls: seq<seq<Op>>) returns (ghost trace: seq<Snap>, ghost inside: seq<seq<Snap>>)
      requires Valid() && forall ops | ops in calls :: AllSensible(ops)
      modifies this, live
      ensures Valid() && fresh(live - old(live))
      ensures forall e | e in Records(events) :: e.plan.next > when
      ensures Grows(old(past), past)
      ensures forall e | e in past && past[e].status == Standing :: CaughtUp(past[e], when)
      ensures old(log) <= log && Timely(log, |old(log)|, when)
      ensures (forall ops | ops in calls :: AllLater(ops, when)) ==> InOrder(log, |old(log)|, when)
      ensures Ran(old(Now()), Now(), trace, inside, calls, when)
      ensures forall e | e in past && past[e].status == Dropped :: past[e].callback == 0
      ensures OnlyCalledOff(old(past), past, calls, |log| - |old(log)|)
      ensures (forall ops, op | ops in calls && op in ops :: !Deletes(op)) ==> AllStand(old(past), past)
    {
      hide Valid, Turn, Kept, CaughtUp, InOrder, Settled, Agrees, AllLater, AllSensible, TotalWork, Behind, Step, Turns, OnlyNamed,
        PlansOf, OpsOf, Running;
      trace, inside := [Now()], [];
      NotRunYet(Now(), calls, when);
      NoneInOrder(log, PlansOf(events), when);
      var made := 0;
      ghost var later := forall ops | ops in calls :: AllLater(ops, when);
      while events != [] && events[0].plan.next <= when
        invariant Valid() && fresh(live - old(live)) && made <= |calls|
        invariant Running(old(Now()), Now(), trace, inside, calls, when)
        invariant |log| - |old(log)| == made || (made == |calls| && |log| - |old(log)| >= made)
        invariant later ==> InOrder(log, |old(log)|, when) && Behind(log, |old(log)|, PlansOf(events))
        decreases |calls| - made, TotalWork(PlansOf(events), when)
      {
        ghost var ps, was, logged, t, now := PlansOf(events), past, log, events[0].plan.next, Now();
        FrontQueued();
        var ops := if made < |calls| then calls[made] else [];
        OpsAt(calls, made, |log| - |old(log)|);
        NothingSensible(when);
        ghost var mids;
        var called;
        called, mids := RunFirst(when, ops);
        RunsOn(old(Now()), now, Now(), trace, inside, mids, calls, t, when, called);
        trace, inside := trace + [Now()], inside + [mids];
        if !called || AllLater(ops, when) {
          TurnWorks(ps, was, logged, t, PlansOf(events), past, log, when);
        }
        if later {
          TurnOrdered(ps, was, logged, t, PlansOf(events), past, log, |old(log)|, when);
        }
        if called && made < |calls| {
          made := made + 1;
        }
      }
      NothingDue(when);
      AllKept();
      RanTo(old(Now()), Now(), trace, inside, calls, when);
    }
  }

  /** A run on its way, and what it has kept to so far. */
  ghost predicate Running(a: Snap, b: Snap, trace: seq<Snap>, inside: seq<seq<Snap>>, calls: seq<seq<Op>>, when: int) {
    && Turns(trace, inside, calls, when) && trace[0] == a && trace[|trace| - 1] == b
    && Grows(a.past, b.past) && a.log <= b.log && Timely(b.log, |a.log|, when)
    && OnlyCalledOff(a.past, b.past, calls, |b.log| - |a.log|)
  }

  lemma NotRunYet(a: Snap, calls: seq<seq<Op>>, when: int)
    ensures Running(a, a, [a], [], calls, when)
  {
    hide Step;
  }

  lemma RunsOn(a: Snap, b: Snap, c: Snap, trace: seq<Snap>, inside: seq<seq<Snap>>, mids: seq<Snap>, calls: seq<seq<Op>>,
               t: int, when: int, called: bool)
    requires Running(a, b, trace, inside, calls, when) && t <= when
    requires var ops := OpsOf(calls, |b.log| - |a.log|);
             && Step(b, c, ops, mids, when) && OnlyNamed(b.past, c.past, if called then ops else [])
             && Turn(b.ps, b.past, b.log, t, c.ps, c.past, c.log, when, !called || AllLater(ops, when))
    requires |c.log| == |b.log| + if called then 1 else 0
    ensures Running(a, c, trace + [c], inside + [mids], calls, when)
  {
    hide Step, OnlyNamed, OnlyCalledOff, OpsOf, Turn, Turns, Timely, AllLater, Grows;
    var n := |b.log| - |a.log|;
    assert |trace| == |inside| + 1 by { TraceLength(trace, inside, calls, when); }
    OneMoreTurn(trace, inside, calls, when, c, mids);
    TurnTimely(b.ps, b.past, b.log, t, c.ps, c.past, c.log, |a.log|, when, !called || AllLater(OpsOf(calls, n), when));
    GrowsChain(a.past, b.past, c.past);
    CalledOffLater(a.past, b.past, c.past, calls, n, called);
  }

  lemma TraceLength(trace: seq<Snap>, inside: seq<seq<Snap>>, calls: seq<seq<Op>>, when: int)
    requires Turns(trace, inside, calls, when)
    ensures |trace| == |inside| + 1
  {
    hide Step;
  }

  /** What holds at the end of a run. */
  lemma RanTo(a: Snap, b: Snap, trace: seq<Snap>, inside: seq<seq<Snap>>, calls: seq<seq<Op>>, when: int)
    requires Running(a, b, trace, inside, calls, when) && forall e | e in b.ps :: b.ps[e].next > when
    requires forall e | e in b.past && b.past[e].status == Dropped :: b.past[e].callback == 0
    ensures Ran(a, b, trace, inside, calls, when) && OnlyCalledOff(a.past, b.past, calls, |b.log| - |a.log|)
    ensures Grows(a.past, b.past) && a.log <= b.log && Timely(b.log, |a.log|, when)
    ensures (forall ops, op | ops in calls && op in ops :: !Deletes(op)) ==> AllStand(a.past, b.past)
  {
    hide OnlyCalledOff, Grows, Timely, Turns, Deletes, AllStand;
    if forall ops, op | ops in calls && op in ops :: !Deletes(op) {
      NothingNamed(a.past, b.past, calls, |b.log| - |a.log|);
    }
  }

  lemma OpsAt(calls: seq<seq<Op>>, made: nat, n: nat)
    requires made <= |calls| && made <= n && (n == made || made == |calls|)
    ensures OpsOf(calls, n) == if made < |calls| then calls[made] else []
  {
  }

  lemma NothingSensible(when: int)
    ensures AllSensible([]) && AllLater([], when)
  {
  }

  /** What fired was due. */
  ghost predicate Timely(log: seq<Firing>, from: nat, when: int) {
    from <= |log| && forall k | from <= k < |log| :: log[k].time <= when
  }

  ghost predicate InOrder(log: seq<Firing>, from: nat, when: int) {
    && Timely(log, from, when)
    && (forall j, k | from <= j < k < |log| :: log[j].time <= log[k].time)
  }

  /** Nothing in the queue is due before what has fired. */
  ghost predicate Behind(log: seq<Firing>, from: nat, ps: map<Event, Plan>) {
    forall k, e | from <= k < |log| && e in ps :: log[k].time <= ps[e].next
  }

  /** One turn of doscheduledevents on a queue whose front is due at `t`; `later` says that its callback, if any, has
      added nothing due by `when`. */
  ghost predicate Turn(ps: map<Event, Plan>, past: map<Event, Past>, log: seq<Firing>, t: int,
                       ps': map<Event, Plan>, past': map<Event, Past>, log': seq<Firing>, when: int, later: bool)
  {
    && Grows(past, past')
    && (later ==> TotalWork(ps', when) < TotalWork(ps, when) && forall e | e in ps' :: t <= ps'[e].next)
    && (log' == log || exists e :: e in past && log' == log + [Firing(e, t)])
  }

  lemma GrowsSame(past: map<Event, Past>)
    ensures Grows(past, past)
  {
  }

  lemma NoneInOrder(log: seq<Firing>, ps: map<Event, Plan>, when: int)
    ensures InOrder(log, |log|, when) && Timely(log, |log|, when) && Behind(log, |log|, ps)
  {
  }

  lemma TakenTurn(ps: map<Event, Plan>, past: map<Event, Past>, log: seq<Firing>, first: Event, past': map<Event, Past>, when: int,
                  later: bool)
    requires first in ps && ps[first].next <= when && forall e | e in ps :: ps[first].next <= ps[e].next
    requires past' == past || (first in past && past' == past[first := past[first].(status := Dropped)])
    ensures Turn(ps, past, log, ps[first].next, ps - {first}, past', log, when, later)
  {
    WorkSplits(ps, first, when);
    hide TotalWork;
  }

  lemma FiredTurn(ps: map<Event, Plan>, past: map<Event, Past>, log: seq<Firing>, first: Event,
                  ps1: map<Event, Plan>, past1: map<Event, Past>, ps': map<Event, Plan>, past': map<Event, Past>, when: int,
                  later: bool)
    requires first in ps && ps[first].next <= when && forall e | e in ps :: ps[first].next <= ps[e].next
    requires first in past && Agrees(ps[first], past[first]) && !ps[first].deleted && ps[first].callback != 0
    requires ps1 == ps[first := Fire(ps[first])]
    requires past1 == past[first := past[first].(times := past[first].times + [ps[first].next])]
    requires Calm(ps1, past1, ps', past', when, later)
    ensures Turn(ps, past, log, ps[first].next, ps', past', log + [Firing(first, ps[first].next)], when, later)
  {
    var p := ps[first];
    FireWorks(p, when);
    WorkChanges(ps, first, Fire(p), when);
    FireAgrees(p, past[first]);
    assert Grows(past, past1);
    GrowsChain(past, past1, past');
    assert p.next <= Fire(p).next;
    hide TotalWork, Grows, Agrees, Fire;
  }

  lemma TurnTimely(ps: map<Event, Plan>, past: map<Event, Past>, log: seq<Firing>, t: int,
                   ps': map<Event, Plan>, past': map<Event, Past>, log': seq<Firing>, from: nat, when: int, later: bool)
    requires Turn(ps, past, log, t, ps', past', log', when, later) && Timely(log, from, when) && t <= when
    ensures Timely(log', from, when) && log <= log' && Grows(past, past')
  {
    hide TotalWork, Grows;
  }

  lemma TurnWorks(ps: map<Event, Plan>, past: map<Event, Past>, log: seq<Firing>, t: int,
                  ps': map<Event, Plan>, past': map<Event, Past>, log': seq<Firing>, when: int)
    requires Turn(ps, past, log, t, ps', past', log', when, true)
    ensures TotalWork(ps', when) < TotalWork(ps, when)
  {
    hide TotalWork, Grows;
  }

  lemma TurnOrdered(ps: map<Event, Plan>, past: map<Event, Past>, log: seq<Firing>, t: int,
                    ps': map<Event, Plan>, past': map<Event, Past>, log': seq<Firing>, from: nat, when: int)
    requires Turn(ps, past, log, t, ps', past', log', when, true) && InOrder(log, from, when) && t <= when
    requires Behind(log, from, ps) && exists e :: e in ps && ps[e].next == t
    ensures InOrder(log', from, when) && Behind(log', from, ps')
  {
    hide TotalWork, Grows;
  }

  /** Between two firings: the history grows, and, if everything added is `later`, nothing due by `when` is added. */
  ghost predicate Calm(ps: map<Event, Plan>, past: map<Event, Past>, ps': map<Event, Plan>, past': map<Event, Past>, when: int,
                       later: bool)
  {
    && Grows(past, past')
    && (later ==>
          && TotalWork(ps', when) <= TotalWork(ps, when)
          && forall e | e in ps' :: ps'[e].next > when || (e in ps && ps[e].next == ps'[e].next))
  }

  lemma CalmGrows(ps: map<Event, Plan>, past: map<Event, Past>, ps': map<Event, Plan>, past': map<Event, Past>, when: int,
                  later: bool)
    requires Calm(ps, past, ps', past', when, later)
    ensures Grows(past, past')
  {
    hide TotalWork;
  }

  lemma LaterOne(ops: seq<Op>, i: nat, when: int)
    requires i < |ops| && AllSensible(ops)
    ensures Sensible(ops[i]) && (AllLater(ops, when) ==> AddsLater(ops[i], when))
  {
    hide Sensible, AddsLater;
    assert ops[i] in ops;
  }

  lemma CalmSame(ps: map<Event, Plan>, past: map<Event, Past>, when: int, later: bool)
    ensures Calm(ps, past, ps, past, when, later)
  {
    hide TotalWork;
  }

  lemma CalmLess(ps: map<Event, Plan>, past: map<Event, Past>, ps': map<Event, Plan>, past': map<Event, Past>, when: int,
                 later: bool, less: bool)
    requires Calm(ps, past, ps', past', when, later) && (less ==> later)
    ensures Calm(ps, past, ps', past', when, less)
  {
    hide TotalWork, Grows;
  }

  lemma CalmChain(ps: map<Event, Plan>, past: map<Event, Past>, ps': map<Event, Plan>, past': map<Event, Past>,
                  ps'': map<Event, Plan>, past'': map<Event, Past>, when: int, later: bool)
    requires Calm(ps, past, ps', past', when, later) && Calm(ps', past', ps'', past'', when, later)
    ensures Calm(ps, past, ps'', past'', when, later)
  {
    GrowsChain(past, past', past'');
    hide TotalWork, Grows;
  }

  lemma CalmAdded(ps: map<Event, Plan>, past: map<Event, Past>, e: Event, p: Plan, h: Past, when: int, later: bool)
    requires e !in past && e !in ps && (later ==> p.next > when)
    ensures Calm(ps, past, ps[e := p], past[e := h], when, later)
  {
    if later {
      WorkAdds(ps, e, p, when);
    }
    hide TotalWork;
  }

  lemma CalmMarked(ps: map<Event, Plan>, past: map<Event, Past>, ps': map<Event, Plan>, past': map<Event, Past>,
                   hit: Event?, when: int, later: bool)
    requires hit == null ==> ps' == ps && past' == past
    requires hit != null ==> hit in ps && hit in past && ps' == ps[hit := ps[hit].(deleted := true)]
                             && past' == past[hit := past[hit].(status := Cancelled)]
    ensures Calm(ps, past, ps', past', when, later)
  {
    if hit != null {
      WorkChanges(ps, hit, ps[hit].(deleted := true), when);
    }
    hide TotalWork;
  }

  lemma CalmCleared(ps: map<Event, Plan>, past: map<Event, Past>, live: set<Event>, callback: nat,
                    ps': map<Event, Plan>, past': map<Event, Past>, live': set<Event>, when: int, later: bool)
    requires AllGone(ps, past, live, callback, ps', past', live')
    ensures Calm(ps, past, ps', past', when, later) && live' <= live
  {
    WorkShrinks(ps, ps', when);
    hide TotalWork;
  }

  /** One record with this callback was removed, freed and called off. */
  ghost predicate OneGone(ps: map<Event, Plan>, past: map<Event, Past>, live: set<Event>, callback: nat,
                          ps': map<Event, Plan>, past': map<Event, Past>, live': set<Event>)
  {
    exists e :: && e in ps && ps[e].callback == callback && e in past && e in live
                && ps' == ps - {e} && live' == live - {e} && past' == past[e := CalledOff(ps[e], past[e])]
  }

  /** Only records with this callback were removed; they are freed and called off, and nothing else has changed. */
  ghost predicate AllGone(ps: map<Event, Plan>, past: map<Event, Past>, live: set<Event>, callback: nat,
                          ps': map<Event, Plan>, past': map<Event, Past>, live': set<Event>)
  {
    var gone := ps.Keys - ps'.Keys;
    && (forall e | e in ps' :: e in ps && ps'[e] == ps[e])
    && (forall e | e in gone :: ps[e].callback == callback && e in past)
    && live' == live - gone
    && past' == map e | e in past :: if e in gone then CalledOff(ps[e], past[e]) else past[e]
  }

  lemma NoneGone(ps: map<Event, Plan>, past: map<Event, Past>, live: set<Event>, callback: nat)
    ensures AllGone(ps, past, live, callback, ps, past, live)
  {
  }

  lemma OneMoreGone(ps: map<Event, Plan>, past: map<Event, Past>, live: set<Event>, callback: nat,
                    ps': map<Event, Plan>, past': map<Event, Past>, live': set<Event>,
                    ps'': map<Event, Plan>, past'': map<Event, Past>, live'': set<Event>)
    requires AllGone(ps, past, live, callback, ps', past', live')
    requires OneGone(ps', past', live', callback, ps'', past'', live'')
    ensures AllGone(ps, past, live, callback, ps'', past'', live'') && ps''.Keys < ps'.Keys
  {
    var e :| && e in ps' && ps'[e].callback == callback && e in past' && e in live'
             && ps'' == ps' - {e} && live'' == live' - {e} && past'' == past'[e := CalledOff(ps'[e], past'[e])];
    assert ps.Keys - ps''.Keys == (ps.Keys - ps'.Keys) + {e};
  }

  lemma OthersLeft(ps: map<Event, Plan>, past: map<Event, Past>, live: set<Event>, callback: nat,
                   ps': map<Event, Plan>, past': map<Event, Past>, live': set<Event>)
    requires AllGone(ps, past, live, callback, ps', past', live') && Others(ps', callback) == ps'
    ensures ps' == Others(ps, callback)
  {
    forall e | e in ps' ensures e in Others(ps', callback) {}
    forall e | e in Others(ps, callback) ensures e in ps' {
      assert e !in ps.Keys - ps'.Keys;
    }
  }

  lemma LeafUp(es: seq<Event>, i: nat)
    requires i < |es| <= 2 * i + 1 && HeapAround(es, i)
    ensures HeapUp(es, i)
  {
  }

  lemma SettledUp(es: seq<Event>, i: nat)
    requires 2 * i + 1 < |es| && HeapAround(es, i)
    requires Le(es[i], es[2 * i + 1]) && (2 * i + 2 < |es| ==> Le(es[i], es[2 * i + 2]))
    ensures HeapUp(es, i)
  {
    hide Parent;
    forall k | 0 < k < |es| && k != i ensures Le(es[Parent(k)], es[k]) {
      if Parent(k) == i {
        assert k == 2 * i + 1 || k == 2 * i + 2;
      }
    }
  }
}
