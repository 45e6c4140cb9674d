/*
 * The scheduler's sync-point queue (src/Scheduler.hh). Every device asks to
 * be woken at an exact emulated time by registering a sync point (time,
 * device, userData); the records live in a vector kept as a binary heap
 * whose front is a record of least time, and `schedule(limit)` dispatches
 * the due ones in time order.
 *
 * Times are emulated clock ticks. ASAP is the least time value, so an ASAP
 * record sorts before every other record and is always due.
 */
module Scheduler {

  type Time = nat

  /** Scheduler::ASAP: "as soon as possible", the least time. */
  const ASAP: Time := 0

  /** Identity of a Schedulable device; its behaviour is not modelled. */
  type DeviceId = nat

  /** Scheduler::SynchronizationPoint. */
  datatype SyncPoint = SyncPoint(time: Time, device: DeviceId, userData: int)

  /** One executeUntil(time, userData) call made on `point.device` for `point`. */
  datatype Execution = Execution(time: Time, point: SyncPoint)

  /** When a device, from inside its executeUntil, asks to be woken again:
      at ASAP, or a number of ticks after the current time. */
  datatype When = Asap | After(ticks: nat)
  datatype Registration = Registration(when: When, device: DeviceId, userData: int)

  /** The inverted `operator<`: a record is of lower priority than another
      exactly when its time is later. */
  predicate LowerPriority(a: SyncPoint, b: SyncPoint)
  {
    a.time > b.time
  }

  /** The parent slot of slot `i` in the implicit binary tree that
      `std::push_heap` and `std::pop_heap` keep in the vector. */
  function Parent(i: nat): nat
    requires i > 0
  {
    (i - 1) / 2
  }

  /** The edge into `i` respects the heap order: the parent is not of lower priority. */
  predicate EdgeOrdered(s: seq<SyncPoint>, i: nat)
    requires 0 < i < |s|
  {
    !LowerPriority(s[Parent(i)], s[i])
  }

  /** The std::*_heap invariant under the inverted order: no record is
      earlier than its parent. */
  ghost predicate IsHeap(s: seq<SyncPoint>)
  {
    forall i :: 0 < i < |s| ==> EdgeOrdered(s, i)
  }

  /** The front of a heap is a record of least time. */
  lemma {:induction false} HeapFrontLeast(s: seq<SyncPoint>, j: nat)
    requires IsHeap(s) && j < |s|
    ensures s[0].time <= s[j].time
    decreases j
  {
    if j > 0 {
      HeapFrontLeast(s, Parent(j));
      assert EdgeOrdered(s, j);
    }
  }

  lemma HeapFrontLeastAll(s: seq<SyncPoint>)
    requires IsHeap(s) && |s| > 0
    ensures forall j :: 0 <= j < |s| ==> s[0].time <= s[j].time
  {
    forall j | 0 <= j < |s| ensures s[0].time <= s[j].time {
      HeapFrontLeast(s, j);
    }
  }

  /** Heap order holds on every edge except the one into `k`. */
  ghost predicate HeapExceptInto(s: seq<SyncPoint>, k: nat)
  {
    forall i :: 0 < i < |s| && i != k ==> EdgeOrdered(s, i)
  }

  /** Heap order holds on every edge except those out of `k`. */
  ghost predicate HeapExceptOutOf(s: seq<SyncPoint>, k: nat)
  {
    forall i :: 0 < i < |s| && Parent(i) != k ==> EdgeOrdered(s, i)
  }

  /** The parent of `k` is no later than the children of `k`. */
  ghost predicate ParentBelowChildren(s: seq<SyncPoint>, k: nat)
  {
    0 < k < |s| ==>
      forall c :: 0 < c < |s| && Parent(c) == k ==> s[Parent(k)].time <= s[c].time
  }

  lemma ChildIndex(k: nat, c: nat)
    requires c > 0 && Parent(c) == k
    ensures c == 2 * k + 1 || c == 2 * k + 2
  {
  }

  /** The exchange of two slots that the heap algorithms perform at each
      level; it keeps the same records. */
  method Swap(s: seq<SyncPoint>, i: nat, j: nat) returns (t: seq<SyncPoint>)
    requires i < |s| && j < |s|
    ensures |t| == |s| && t == s[i := s[j]][j := s[i]]
    ensures multiset(t) == multiset(s)
  {
    t := s[i := s[j]][j := s[i]];
  }

  /** Swapping a record with its later parent moves the only disorder one level up. */
  lemma SiftUpStep(s: seq<SyncPoint>, k: nat)
    requires 0 < k < |s|
    requires HeapExceptInto(s, k) && ParentBelowChildren(s, k)
    requires s[Parent(k)].time > s[k].time
    ensures HeapExceptInto(s[k := s[Parent(k)]][Parent(k) := s[k]], Parent(k))
    ensures ParentBelowChildren(s[k := s[Parent(k)]][Parent(k) := s[k]], Parent(k))
  {
    var p := Parent(k);
    var t := s[k := s[p]][p := s[k]];
    forall i | 0 < i < |t| && i != p
      ensures EdgeOrdered(t, i)
    {
      if Parent(i) == p {
        if i != k {
          assert EdgeOrdered(s, i);
        }
      } else if Parent(i) == k {
        assert s[p].time <= s[i].time;
      } else if i != k {
        assert EdgeOrdered(s, i);
      }
    }
    if 0 < p {
      forall c | 0 < c < |t| && Parent(c) == p
        ensures t[Parent(p)].time <= t[c].time
      {
        assert EdgeOrdered(s, p);
        if c != k {
          assert EdgeOrdered(s, c);
        }
      }
    }
  }

  /** Swapping a record with its earliest child, when that child is earlier,
      moves the only disorder one level down. */
  lemma SiftDownStep(s: seq<SyncPoint>, k: nat, c: nat)
    requires k < c < |s| && Parent(c) == k
    requires HeapExceptOutOf(s, k) && ParentBelowChildren(s, k)
    requires forall d :: 0 < d < |s| && Parent(d) == k ==> s[c].time <= s[d].time
    requires s[c].time < s[k].time
    ensures HeapExceptOutOf(s[k := s[c]][c := s[k]], c)
    ensures ParentBelowChildren(s[k := s[c]][c := s[k]], c)
  {
    var t := s[k := s[c]][c := s[k]];
    forall i | 0 < i < |t| && Parent(i) != c
      ensures EdgeOrdered(t, i)
    {
      if i == k {
        assert s[Parent(k)].time <= s[c].time;
      } else if Parent(i) == k {
        assert s[c].time <= s[i].time;
      } else if i != c {
        assert EdgeOrdered(s, i);
      }
    }
    forall g | 0 < g < |t| && Parent(g) == c
      ensures t[Parent(c)].time <= t[g].time
    {
      assert EdgeOrdered(s, g);
    }
  }

  /** Moves the record at `k` towards the front until its parent is no later. */
  method SiftUp(s: seq<SyncPoint>, k0: nat) returns (h: seq<SyncPoint>)
    requires k0 < |s|
    requires HeapExceptInto(s, k0) && ParentBelowChildren(s, k0)
    ensures IsHeap(h) && multiset(h) == multiset(s) && |h| == |s|
  {
    h := s;
    var k: nat := k0;
    while k > 0 && h[Parent(k)].time > h[k].time
      invariant k < |h| == |s| && multiset(h) == multiset(s)
      invariant HeapExceptInto(h, k) && ParentBelowChildren(h, k)
      decreases k
    {
      SiftUpStep(h, k);
      h := Swap(h, k, Parent(k));
      k := Parent(k);
    }
    if k > 0 {
      assert EdgeOrdered(h, k);
    }
  }

  /** Moves the record at `k` away from the front, swapping it with its
      earliest child, until no child is earlier. */
  method SiftDown(s: seq<SyncPoint>, k0: nat) returns (h: seq<SyncPoint>)
    requires k0 < |s|
    requires HeapExceptOutOf(s, k0) && ParentBelowChildren(s, k0)
    ensures IsHeap(h) && multiset(h) == multiset(s) && |h| == |s|
  {
    h := s;
    var k: nat := k0;
    while true
      invariant k < |h| == |s| && multiset(h) == multiset(s)
      invariant HeapExceptOutOf(h, k) && ParentBelowChildren(h, k)
      decreases |h| - k
    {
      var c := 2 * k + 1;
      if c >= |h| {
        forall i | 0 < i < |h| ensures EdgeOrdered(h, i) {
          if Parent(i) == k {
            ChildIndex(k, i);
          }
        }
        return;
      }
      if c + 1 < |h| && h[c + 1].time < h[c].time {
        c := c + 1;
      }
      forall d | 0 < d < |h| && Parent(d) == k
        ensures h[c].time <= h[d].time
      {
        ChildIndex(k, d);
      }
      if h[k].time <= h[c].time {
        forall i | 0 < i < |h| ensures EdgeOrdered(h, i) {
        }
        return;
      }
      SiftDownStep(h, k, c);
      h := Swap(h, k, c);
      k := c;
    }
  }

  /** std::push_heap after push_back. */
  method HeapPush(s: seq<SyncPoint>, p: SyncPoint) returns (h: seq<SyncPoint>)
    requires IsHeap(s)
    ensures IsHeap(h) && multiset(h) == multiset(s) + multiset{p} && |h| == |s| + 1
  {
    var t := s + [p];
    forall i | 0 < i < |t| && i != |s| ensures EdgeOrdered(t, i) {
      assert EdgeOrdered(s, i);
    }
    forall c | 0 < c < |t| ensures Parent(c) != |s| {
    }
    h := SiftUp(t, |s|);
  }

  /** Takes the record at index `i` out of the heap: the last record takes
      its place and is moved up or down to restore the heap order. */
  method HeapRemoveAt(s: seq<SyncPoint>, i: nat) returns (h: seq<SyncPoint>)
    requires IsHeap(s) && i < |s|
    ensures IsHeap(h) && multiset(h) == multiset(s) - multiset{s[i]} && |h| == |s| - 1
  {
    var last := |s| - 1;
    assert s == s[..last] + [s[last]];
    if i == last {
      h := s[..last];
      forall j | 0 < j < |h| ensures EdgeOrdered(h, j) {
        assert EdgeOrdered(s, j);
      }
      return;
    }
    var t := s[..last][i := s[last]];
    assert multiset(t) == multiset(s) - multiset{s[i]} by {
      assert multiset(s) == multiset(s[..last]) + multiset{s[last]};
    }
    if i > 0 && t[i].time < t[Parent(i)].time {
      RemovedUp(s, t, i);
      h := SiftUp(t, i);
    } else {
      RemovedDown(s, t, i);
      h := SiftDown(t, i);
    }
  }

  /** A replacement earlier than its parent leaves disorder only on the edge into it. */
  lemma RemovedUp(s: seq<SyncPoint>, t: seq<SyncPoint>, i: nat)
    requires IsHeap(s) && 0 < i < |s| - 1
    requires t == s[..|s| - 1][i := s[|s| - 1]]
    requires t[i].time < t[Parent(i)].time
    ensures HeapExceptInto(t, i) && ParentBelowChildren(t, i)
  {
    forall j | 0 < j < |t| && j != i ensures EdgeOrdered(t, j) {
      assert EdgeOrdered(s, j);
      if Parent(j) == i {
        assert EdgeOrdered(s, i);
      }
    }
    forall c | 0 < c < |t| && Parent(c) == i
      ensures t[Parent(i)].time <= t[c].time
    {
      assert EdgeOrdered(s, i) && EdgeOrdered(s, c);
    }
  }

  /** A replacement no earlier than its parent leaves disorder only on the edges out of it. */
  lemma RemovedDown(s: seq<SyncPoint>, t: seq<SyncPoint>, i: nat)
    requires IsHeap(s) && i < |s| - 1
    requires t == s[..|s| - 1][i := s[|s| - 1]]
    requires i > 0 ==> t[Parent(i)].time <= t[i].time
    ensures HeapExceptOutOf(t, i) && ParentBelowChildren(t, i)
  {
    forall j | 0 < j < |t| && Parent(j) != i ensures EdgeOrdered(t, j) {
      if j != i {
        assert EdgeOrdered(s, j);
      }
    }
    forall c | 0 < c < |t| && Parent(c) == i && i > 0
      ensures t[Parent(i)].time <= t[c].time
    {
      assert EdgeOrdered(s, i) && EdgeOrdered(s, c);
    }
  }

  /** The sync point that a registration made at time `now` creates. */
  function Materialize(r: Registration, now: Time): (p: SyncPoint)
    ensures p.device == r.device && p.userData == r.userData
    ensures p.time == ASAP || p.time >= now
  {
    SyncPoint(if r.when.Asap? then ASAP else now + r.when.ticks, r.device, r.userData)
  }

  /** The records registered, in order, by the devices that were dispatched
      in `calls`, the k-th of them running the script `reactions[k]`. */
  ghost function Registered(calls: seq<Execution>, reactions: seq<seq<Registration>>): seq<SyncPoint>
  {
    if calls == [] then []
    else
      Registered(calls[..|calls| - 1], reactions) +
      (if |calls| - 1 < |reactions| then Materialized(reactions[|calls| - 1], calls[|calls| - 1].time) else [])
  }

  /** The sync points a device's script creates when run at time `now`. */
  function Materialized(regs: seq<Registration>, now: Time): seq<SyncPoint>
  {
    seq(|regs|, j requires 0 <= j < |regs| => Materialize(regs[j], now))
  }

  /** The records the calls were made for, in dispatch order. */
  ghost function Points(calls: seq<Execution>): seq<SyncPoint>
  {
    seq(|calls|, k requires 0 <= k < |calls| => calls[k].point)
  }

  function Max(a: Time, b: Time): Time
  {
    if a < b then b else a
  }

  /** The order properties of the dispatches made by one `schedule` call
      that started at time `start`: `floor` is the latest non-ASAP time
      dispatched, `now` the current time. */
  ghost predicate DispatchOrder(calls: seq<Execution>, start: Time, floor: Time, limit: Time, now: Time)
  {
    (forall k :: 0 <= k < |calls| ==> calls[k].point.time <= limit) &&
    (forall k :: 0 <= k < |calls| && calls[k].point.time != ASAP ==> calls[k].point.time <= floor) &&
    (forall i, j :: 0 <= i < j < |calls| && calls[j].point.time != ASAP ==>
       calls[i].point.time <= calls[j].point.time) &&
    (forall i, j :: 0 <= i < j < |calls| ==> calls[i].time <= calls[j].time) &&
    (forall k :: 0 <= k < |calls| ==>
       calls[k].point.time <= calls[k].time && start <= calls[k].time && calls[k].time <= now) &&
    (forall k :: 0 <= k < |calls| && calls[k].point.time != ASAP && start <= calls[k].point.time ==>
       calls[k].time == calls[k].point.time)
  }

  /** Dispatching the least pending record keeps the order properties. */
  lemma DispatchStep(calls: seq<Execution>, start: Time, floor: Time, limit: Time, sp: SyncPoint)
    requires DispatchOrder(calls, start, floor, limit, Max(start, floor))
    requires sp.time <= limit && (sp.time != ASAP ==> floor <= sp.time)
    ensures var floor' := if sp.time != ASAP then sp.time else floor;
            var now' := Max(Max(start, floor), sp.time);
            now' == Max(start, floor') &&
            DispatchOrder(calls + [Execution(now', sp)], start, floor', limit, now')
  {
    var now' := Max(Max(start, floor), sp.time);
    var e := Execution(now', sp);
    PointOrderSnoc(calls, e);
    TimeOrderSnoc(calls, e);
    var floor' := if sp.time != ASAP then sp.time else floor;
    var calls' := calls + [e];
    forall k | 0 <= k < |calls'|
      ensures calls'[k].point.time <= limit
      ensures calls'[k].point.time != ASAP ==> calls'[k].point.time <= floor'
      ensures calls'[k].point.time <= calls'[k].time && start <= calls'[k].time && calls'[k].time <= now'
      ensures calls'[k].point.time != ASAP && start <= calls'[k].point.time ==> calls'[k].time == calls'[k].point.time
    {
      if k < |calls| {
        assert calls'[k] == calls[k];
      }
    }
  }

  /** Appending a record due no earlier than every non-ASAP record before it
      keeps the non-ASAP records in time order. */
  lemma PointOrderSnoc(calls: seq<Execution>, e: Execution)
    requires forall i, j :: 0 <= i < j < |calls| && calls[j].point.time != ASAP ==>
               calls[i].point.time <= calls[j].point.time
    requires e.point.time != ASAP ==> forall k :: 0 <= k < |calls| ==> calls[k].point.time <= e.point.time
    ensures forall i, j :: 0 <= i < j < |calls + [e]| && (calls + [e])[j].point.time != ASAP ==>
              (calls + [e])[i].point.time <= (calls + [e])[j].point.time
  {
    var calls' := calls + [e];
    forall i, j | 0 <= i < j < |calls'| && calls'[j].point.time != ASAP
      ensures calls'[i].point.time <= calls'[j].point.time
    {
      if j == |calls| {
        assert calls'[i] == calls[i];
      }
    }
  }

  /** Appending a dispatch run no earlier than every one before it keeps the
      execution times non-decreasing. */
  lemma TimeOrderSnoc(calls: seq<Execution>, e: Execution)
    requires forall i, j :: 0 <= i < j < |calls| ==> calls[i].time <= calls[j].time
    requires forall k :: 0 <= k < |calls| ==> calls[k].time <= e.time
    ensures forall i, j :: 0 <= i < j < |calls + [e]| ==> (calls + [e])[i].time <= (calls + [e])[j].time
  {
    var calls' := calls + [e];
    forall i, j | 0 <= i < j < |calls'|
      ensures calls'[i].time <= calls'[j].time
    {
      if j == |calls| {
        assert calls'[i] == calls[i];
      }
    }
  }

  /** The order `schedule(limit)` promises for its dispatches, having
      started at time `start`: none later than `limit`, non-ASAP records in
      time order, execution times non-decreasing and never before a record's
      own time or `start`, a record due after `start` run exactly at its
      time, and none run after `limit` when `start` was not. */
  ghost predicate Scheduled(calls: seq<Execution>, start: Time, limit: Time)
  {
    (forall k :: 0 <= k < |calls| ==> calls[k].point.time <= limit) &&
    (forall i, j :: 0 <= i < j < |calls| && calls[j].point.time != ASAP ==>
       calls[i].point.time <= calls[j].point.time) &&
    (forall i, j :: 0 <= i < j < |calls| ==> calls[i].time <= calls[j].time) &&
    (forall k :: 0 <= k < |calls| ==> calls[k].point.time <= calls[k].time && start <= calls[k].time) &&
    (forall k :: 0 <= k < |calls| && calls[k].point.time != ASAP && start <= calls[k].point.time ==>
       calls[k].time == calls[k].point.time) &&
    (start <= limit ==> forall k :: 0 <= k < |calls| ==> calls[k].time <= limit)
  }

  /** When the loop of scheduleHelper stops, its order properties are those
      `schedule` promises. */
  lemma DispatchOrderScheduled(calls: seq<Execution>, start: Time, floor: Time, limit: Time)
    requires DispatchOrder(calls, start, floor, limit, Max(start, floor)) && floor <= limit
    ensures Scheduled(calls, start, limit)
  {
  }

  /** After a dispatch the non-ASAP records still pending are no earlier than
      the record just dispatched: the rest of the queue was not, and new
      registrations are at the current time or later. */
  lemma FloorKept(before: multiset<SyncPoint>, added: seq<SyncPoint>, after: multiset<SyncPoint>,
                  sp: SyncPoint, floor: Time, now: Time)
    requires before + multiset(added) == after + multiset{sp}
    requires forall p :: p in before ==> sp.time <= p.time
    requires sp.time != ASAP ==> floor == sp.time
    requires floor <= now
    requires forall p :: p in before && p.time != ASAP ==> floor <= p.time
    requires forall j :: 0 <= j < |added| ==> added[j].time == ASAP || now <= added[j].time
    ensures forall p :: p in after && p.time != ASAP ==> floor <= p.time
  {
    forall p | p in after && p.time != ASAP ensures floor <= p.time {
      assert p in before + multiset(added);
      if p !in before {
        assert p in added;
      }
    }
  }

  lemma RegisteredStep(calls: seq<Execution>, call: Execution, reactions: seq<seq<Registration>>)
    ensures Registered(calls + [call], reactions) ==
            Registered(calls, reactions) +
            (if |calls| < |reactions| then Materialized(reactions[|calls|], call.time) else [])
  {
    assert (calls + [call])[..|calls|] == calls;
  }

  /** What holds after every turn of scheduleHelper's loop, for a call
      that found `initial` pending at time `start` and now has `pending`
      left at time `now`: every record is either still pending or was
      dispatched, the order properties of the dispatches, and no pending
      non-ASAP record earlier than `floor`. */
  ghost predicate DispatchState(initial: multiset<SyncPoint>, start: Time, limit: Time, reactions: seq<seq<Registration>>,
                                calls: seq<Execution>, floor: Time, pending: multiset<SyncPoint>, now: Time)
  {
    initial + multiset(Registered(calls, reactions)) == pending + multiset(Points(calls)) &&
    floor <= limit && now == Max(start, floor) &&
    (forall p :: p in pending && p.time != ASAP ==> floor <= p.time) &&
    DispatchOrder(calls, start, floor, limit, now)
  }

  /** Dispatching the earliest pending record `sp`, which registers
      `added`, keeps the loop's state. */
  lemma DispatchStateStep(initial: multiset<SyncPoint>, start: Time, limit: Time, reactions: seq<seq<Registration>>,
                          calls: seq<Execution>, floor: Time, before: multiset<SyncPoint>, now: Time,
                          sp: SyncPoint, added: seq<SyncPoint>, after: multiset<SyncPoint>)
    requires DispatchState(initial, start, limit, reactions, calls, floor, before, now)
    requires sp in before && sp.time <= limit && forall p :: p in before ==> sp.time <= p.time
    requires added == Materialized(if |calls| < |reactions| then reactions[|calls|] else [], Max(now, sp.time))
    requires before + multiset(added) == after + multiset{sp}
    ensures var floor' := if sp.time != ASAP then sp.time else floor;
            DispatchState(initial, start, limit, reactions, calls + [Execution(Max(now, sp.time), sp)], floor', after, Max(now, sp.time))
  {
    var now' := Max(now, sp.time);
    var floor' := if sp.time != ASAP then sp.time else floor;
    var calls' := calls + [Execution(now', sp)];
    DispatchStep(calls, start, floor, limit, sp);
    DispatchAccounted(initial, reactions, calls, before, Execution(now', sp), added, after);
    FloorKept(before, added, after, sp, floor', now');
  }

  /** One call more: its record follows the others. */
  lemma PointsSnoc(calls: seq<Execution>, call: Execution)
    ensures Points(calls + [call]) == Points(calls) + [call.point]
  {
    var a, b := Points(calls + [call]), Points(calls) + [call.point];
    assert |a| == |b|;
    forall k | 0 <= k < |a|
      ensures a[k] == b[k]
    {
      if k < |calls| {
        assert (calls + [call])[k] == calls[k];
      }
    }
  }

  /** No record is lost or invented by a dispatch: `call`'s record leaves
      the pending ones and its registrations join them. */
  lemma DispatchAccounted(initial: multiset<SyncPoint>, reactions: seq<seq<Registration>>, calls: seq<Execution>,
                          before: multiset<SyncPoint>, call: Execution, added: seq<SyncPoint>, after: multiset<SyncPoint>)
    requires initial + multiset(Registered(calls, reactions)) == before + multiset(Points(calls))
    requires added == Materialized(if |calls| < |reactions| then reactions[|calls|] else [], call.time)
    requires before + multiset(added) == after + multiset{call.point}
    ensures initial + multiset(Registered(calls + [call], reactions)) == after + multiset(Points(calls + [call]))
  {
    var calls' := calls + [call];
    var done := multiset(Points(calls));
    var made := multiset(Registered(calls, reactions));
    RegisteredStep(calls, call, reactions);
    PointsSnoc(calls, call);
    assert multiset(Points(calls')) == done + multiset{call.point};
    assert multiset(Registered(calls', reactions)) == made + multiset(added);
    MultisetMove(initial, made, multiset(added), before, done, after, multiset{call.point});
  }

  /** Multiset bookkeeping of one dispatch: what was made and what was
      done both grow by what moved. */
  lemma MultisetMove<T>(initial: multiset<T>, made: multiset<T>, added: multiset<T>, before: multiset<T>,
                        done: multiset<T>, after: multiset<T>, moved: multiset<T>)
    requires initial + made == before + done
    requires before + added == after + moved
    ensures initial + (made + added) == after + (done + moved)
  {
    calc {
      initial + (made + added);
      (initial + made) + added;
      (before + done) + added;
      (before + added) + done;
      (after + moved) + done;
      after + (done + moved);
    }
  }

  class Scheduler {
    /** The heap of pending sync points. */
    var syncPoints: seq<SyncPoint>
    /** The current scheduler time. */
    var scheduleTime: Time
    /** Every executeUntil call made so far, oldest first. */
    ghost var executed: seq<Execution>

    ghost predicate Valid()
      reads this
    {
      IsHeap(syncPoints)
    }

    /** The pending sync points, as a multiset: the heap's order is not observable. */
    ghost function Pending(): multiset<SyncPoint>
      reads this
    {
      multiset(syncPoints)
    }

    constructor ()
      ensures Valid() && syncPoints == [] && scheduleTime == 0 && executed == []
    {
      syncPoints := [];
      scheduleTime := 0;
      executed := [];
    }

    /** Registers a sync point; the time may not lie before the current time,
        unless it is ASAP. A device may hold several sync points. */
    method SetSyncPoint(timestamp: Time, device: DeviceId, userData: int := 0)
      requires Valid()
      requires timestamp == ASAP || timestamp >= scheduleTime
      modifies this`syncPoints
      ensures Valid()
      ensures Pending() == old(Pending()) + multiset{SyncPoint(timestamp, device, userData)}
    {
      syncPoints := HeapPush(syncPoints, SyncPoint(timestamp, device, userData));
    }

    /** Removes one sync point of `device` with this userData, if there is one;
        which one is not specified. */
    method RemoveSyncPoint(device: DeviceId, userData: int := 0)
      requires Valid()
      modifies this`syncPoints
      ensures Valid()
      ensures (forall p :: p in old(syncPoints) ==> p.device != device || p.userData != userData) ==>
                syncPoints == old(syncPoints)
      ensures (exists p :: p in old(syncPoints) && p.device == device && p.userData == userData) ==>
                exists p :: p in old(syncPoints) && p.device == device && p.userData == userData &&
                            Pending() == old(Pending()) - multiset{p}
    {
      var i := 0;
      while i < |syncPoints|
        invariant 0 <= i <= |syncPoints|
        invariant forall j :: 0 <= j < i ==> syncPoints[j].device != device || syncPoints[j].userData != userData
      {
        if syncPoints[i].device == device && syncPoints[i].userData == userData {
          syncPoints := HeapRemoveAt(syncPoints, i);
          return;
        }
        i := i + 1;
      }
    }

    function GetCurrentTime(): Time
      reads this
    {
      scheduleTime
    }

    /** The time of the earliest pending sync point; ASAP reads as the current time. */
    function GetNext(): (t: Time)
      reads this
      requires Valid() && |syncPoints| > 0
      ensures (exists i :: 0 <= i < |syncPoints| && syncPoints[i].time == ASAP) ==> t == scheduleTime
      ensures (forall i :: 0 <= i < |syncPoints| ==> syncPoints[i].time != ASAP) ==>
                (exists i :: 0 <= i < |syncPoints| && syncPoints[i].time == t) &&
                (forall i :: 0 <= i < |syncPoints| ==> t <= syncPoints[i].time)
    {
      HeapFrontLeastAll(syncPoints);
      var time := syncPoints[0].time;
      if time == ASAP then scheduleTime else time
    }

    /** Only the CPU calls this, and never to go back in time. */
    method SetCurrentTime(time: Time)
      requires scheduleTime <= time
      modifies this`scheduleTime
      ensures scheduleTime == time
    {
      scheduleTime := time;
    }
  
    /** The registrations a device makes from inside its executeUntil, at
        the current time. */
    method RegisterAll(regs: seq<Registration>)
      requires Valid()
      modifies this`syncPoints
      ensures Valid()
      ensures Pending() == old(Pending()) + multiset(Materialized(regs, scheduleTime))
      ensures |syncPoints| == old(|syncPoints|) + |regs|
    {
      var j := 0;
      while j < |regs|
        invariant 0 <= j <= |regs| && Valid()
        invariant Pending() == old(Pending()) + multiset(Materialized(regs[..j], scheduleTime))
        invariant |syncPoints| == old(|syncPoints|) + j
      {
        var p := Materialize(regs[j], scheduleTime);
        SetSyncPoint(p.time, p.device, p.userData);
        assert Materialized(regs[..j + 1], scheduleTime) == Materialized(regs[..j], scheduleTime) + [p];
        j := j + 1;
      }
      assert regs[..j] == regs;
    }

    /** One turn of scheduleHelper's loop: the earliest record leaves the
        queue, the current time moves up to its time (an ASAP record, or one
        already passed, runs at the current time), the device's executeUntil
        is called, and it registers `regs`. */
    method DispatchFront(regs: seq<Registration>) returns (sp: SyncPoint, ghost added: seq<SyncPoint>)
      requires Valid() && |syncPoints| > 0
      modifies this
      ensures Valid()
      ensures sp == old(syncPoints[0]) && forall p :: p in old(Pending()) ==> sp.time <= p.time
      ensures scheduleTime == Max(old(scheduleTime), sp.time)
      ensures executed == old(executed) + [Execution(scheduleTime, sp)]
      ensures added == Materialized(regs, scheduleTime)
      ensures old(Pending()) + multiset(added) == Pending() + multiset{sp}
      ensures |syncPoints| == old(|syncPoints|) - 1 + |added|
    {
      sp := syncPoints[0];
      HeapFrontLeastAll(syncPoints);
      syncPoints := HeapRemoveAt(syncPoints, 0);
      scheduleTime := Max(scheduleTime, sp.time);
      executed := executed + [Execution(scheduleTime, sp)];
      added := Materialized(regs, scheduleTime);
      RegisterAll(regs);
    }

    /** Schedule till `limit`. The inline fast path leaves everything as it
        is unless the earliest sync point is due. Like setCurrentTime, this is
        only called by the CPU, which never asks for a limit in the past, so
        the current time never decreases. */
    method Schedule(limit: Time, reactions: seq<seq<Registration>>) returns (ghost calls: seq<Execution>)
      requires Valid() && |syncPoints| > 0
      requires scheduleTime <= limit
      modifies this
      ensures Valid() && executed == old(executed) + calls
      ensures old(scheduleTime) <= scheduleTime <= limit
      ensures limit < old(syncPoints)[0].time ==>
                calls == [] && syncPoints == old(syncPoints) && scheduleTime == old(scheduleTime)
      ensures old(syncPoints)[0].time <= limit ==> scheduleTime == limit
      ensures old(Pending()) + multiset(Registered(calls, reactions)) == Pending() + multiset(Points(calls))
      ensures forall p :: p in Pending() ==> limit < p.time
      ensures Scheduled(calls, old(scheduleTime), limit)
    {
      if limit >= syncPoints[0].time {
        calls := ScheduleHelper(limit, reactions);
      } else {
        calls := [];
        HeapFrontLeastAll(syncPoints);
      }
    }

    /** The loop state of scheduleHelper over the fields. */
    ghost predicate Dispatching(initial: multiset<SyncPoint>, start: Time, limit: Time,
                                reactions: seq<seq<Registration>>, calls: seq<Execution>, floor: Time)
      reads this
    {
      Valid() && DispatchState(initial, start, limit, reactions, calls, floor, Pending(), scheduleTime)
    }

    /** One turn of scheduleHelper's loop, with its bookkeeping. */
    method DispatchDue(ghost initial: multiset<SyncPoint>, ghost start: Time, limit: Time,
                       reactions: seq<seq<Registration>>, count: nat, ghost calls: seq<Execution>, ghost floor: Time)
      returns (ghost calls': seq<Execution>, ghost floor': Time)
      requires Dispatching(initial, start, limit, reactions, calls, floor) && count == |calls|
      requires |syncPoints| > 0 && syncPoints[0].time <= limit
      modifies this
      ensures Dispatching(initial, start, limit, reactions, calls', floor')
      ensures |calls'| == count + 1 && calls'[..count] == calls
      ensures executed == old(executed) + [calls'[count]]
      ensures count >= |reactions| ==> |syncPoints| < old(|syncPoints|)
    {
      ghost var before := Pending();
      ghost var now := scheduleTime;
      var sp: SyncPoint;
      ghost var added: seq<SyncPoint>;
      assert syncPoints[0] in before;
      sp, added := DispatchFront(if count < |reactions| then reactions[count] else []);
      DispatchStateStep(initial, start, limit, reactions, calls, floor, before, now, sp, added, Pending());
      floor' := if sp.time != ASAP then sp.time else floor;
      calls' := calls + [Execution(scheduleTime, sp)];
      assert calls'[..count] == calls;
    }

    /** The loop of scheduleHelper: dispatch while the front is due.
        `floor` is the time of the latest non-ASAP sync point dispatched. */
    method DispatchAll(limit: Time, reactions: seq<seq<Registration>>)
      returns (ghost calls: seq<Execution>, ghost floor: Time)
      requires Valid()
      modifies this
      ensures Dispatching(old(Pending()), old(scheduleTime), limit, reactions, calls, floor)
      ensures executed == old(executed) + calls
      ensures |syncPoints| == 0 || limit < syncPoints[0].time
    {
      calls := [];
      floor := 0;
      var count := 0;
      while |syncPoints| > 0 && syncPoints[0].time <= limit
        invariant count == |calls|
        invariant executed == old(executed) + calls
        invariant Dispatching(old(Pending()), old(scheduleTime), limit, reactions, calls, floor)
        decreases if count < |reactions| then |reactions| - count else 0, |syncPoints|
      {
        ghost var before := calls;
        calls, floor := DispatchDue(old(Pending()), old(scheduleTime), limit, reactions, count, calls, floor);
        assert calls == before + [calls[count]];
        count := count + 1;
      }
    }

    /** The slow path: dispatch due sync points, earliest first, re-reading
        the front after every call since the device may have registered new
        ones; afterwards the current time is `limit`. The k-th dispatched
        device registers `reactions[k]` (nothing beyond the script's end). */
    method ScheduleHelper(limit: Time, reactions: seq<seq<Registration>>) returns (ghost calls: seq<Execution>)
      requires Valid() && scheduleTime <= limit
      modifies this
      ensures Valid() && executed == old(executed) + calls
      ensures old(scheduleTime) <= scheduleTime == limit
      ensures old(Pending()) + multiset(Registered(calls, reactions)) == Pending() + multiset(Points(calls))
      ensures forall p :: p in Pending() ==> limit < p.time
      ensures Scheduled(calls, old(scheduleTime), limit)
    {
      ghost var floor: Time;
      calls, floor := DispatchAll(limit, reactions);
      if |syncPoints| > 0 {
        HeapFrontLeastAll(syncPoints);
      }
      DispatchOrderScheduled(calls, old(scheduleTime), floor, limit);
      scheduleTime := limit;
    }
  }
}
