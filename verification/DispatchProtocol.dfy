/**
 The dispatch pool under concurrency: any number of acquirers, `wait_next` callers and releases,
 interleaved at the granularity of the critical sections and of the notification calls.

 `Notify` is taken by its documented contract: a `Notified` future receives every
 `notify_waiters` call made after the future was created, polled or not.
 */
module DispatchProtocol {
  import opened Wrappers
  import opened DispatchOrder
  import opened DispatchPools

  datatype System = System(
    pool: PoolState,
    permits: set<nat>,          // permits still holding their pool
    awaiting: set<nat>,         // releases that took the pool and wait for the lock
    decremented: set<nat>,      // releases past the lock that have not notified yet
    abandoned: set<nat>,        // slots nobody is left to give back
    locking: set<nat>,          // wait_next callers holding a future, about to check under the lock
    parked: set<nat>,           // wait_next callers that found nothing and await their future
    notified: set<nat>,         // callers whose current future has been notified
    enqueued: seq<QueueItem>,   // history: every item queued
    handed: seq<QueueItem>      // history: every item wait_next returned
  )

  datatype Event =
    | TryAcquire(dispatch: QueuedDispatch, permit: nat)
    | CallWaitNext(waiter: nat)
    | Check(waiter: nat, item: Option<QueueItem>)
    | Wake(waiter: nat)
    | CancelWait(waiter: nat)
    | BeginRelease(permit: nat)        // release(self) polled, or drop inside a runtime
    | DropOutsideRuntime(permit: nat)
    | CancelRelease(permit: nat)       // dropped or aborted while waiting for the lock
    | Decrement(permit: nat)
    | NotifyWaiters(permit: nat)

  ghost predicate Initial(s: System, max: u64, maxQueueDepth: u64) {
    s == System(EmptyPool(max, maxQueueDepth), {}, {}, {}, {}, {}, {}, {}, [], [])
  }

  ghost predicate Step(s: System, e: Event, s': System) {
    match e
    case TryAcquire(dispatch, permit) =>
      var (pool, result) := TryAcquireOutcome(s.pool, dispatch);
      && permit !in s.permits + s.awaiting + s.decremented + s.abandoned
      && s' == s.(pool := pool,
                  permits := if result.Acquired? then s.permits + {permit} else s.permits,
                  enqueued := if result.Queued? then s.enqueued + [QueueItem(s.pool.seqNo, dispatch)] else s.enqueued)
    case CallWaitNext(w) =>
      && w !in s.locking + s.parked
      && s' == s.(locking := s.locking + {w})
    case Check(w, None) =>
      && w in s.locking
      && CheckOutcome(s.pool, s'.pool, None)
      && s' == s.(locking := s.locking - {w}, parked := s.parked + {w})
    case Check(w, Some(x)) =>
      && w in s.locking
      && CheckOutcome(s.pool, s'.pool, Some(x))
      && s' == s.(pool := s'.pool, locking := s.locking - {w}, notified := s.notified - {w}, handed := s.handed + [x])
    case Wake(w) =>
      && w in s.parked && w in s.notified
      && s' == s.(parked := s.parked - {w}, locking := s.locking + {w}, notified := s.notified - {w})
    case CancelWait(w) =>
      && w in s.locking + s.parked
      && s' == s.(locking := s.locking - {w}, parked := s.parked - {w}, notified := s.notified - {w})
    case BeginRelease(p) =>
      && p in s.permits
      && s' == s.(permits := s.permits - {p}, awaiting := s.awaiting + {p})
    case DropOutsideRuntime(p) =>
      && p in s.permits
      && s' == s.(permits := s.permits - {p}, abandoned := s.abandoned + {p})
    case CancelRelease(p) =>
      && p in s.awaiting
      && s' == s.(awaiting := s.awaiting - {p}, abandoned := s.abandoned + {p})
    case Decrement(p) =>
      && p in s.awaiting
      && s' == s.(pool := ReleaseOutcome(s.pool), awaiting := s.awaiting - {p}, decremented := s.decremented + {p})
    case NotifyWaiters(p) =>
      && p in s.decremented
      && s' == s.(decremented := s.decremented - {p}, notified := s.locking + s.parked)
  }

  /** Every finite interleaving from an empty pool. */
  ghost predicate IsRun(run: seq<System>, events: seq<Event>, max: u64, maxQueueDepth: u64) {
    && |run| == |events| + 1
    && Initial(run[0], max, maxQueueDepth)
    && forall i :: 0 <= i < |events| ==> Step(run[i], events[i], run[i + 1])
  }

  // ---------- What every step keeps ----------

  ghost predicate Separated(s: System) {
    && s.permits !! s.awaiting && s.permits !! s.decremented && s.permits !! s.abandoned
    && s.awaiting !! s.decremented && s.awaiting !! s.abandoned && s.decremented !! s.abandoned
    && s.locking !! s.parked
    && s.notified <= s.locking + s.parked
  }

  /** Every active slot is held by a permit or a pending release, or is gone for good. */
  ghost predicate SlotsAccountedFor(s: System) {
    s.pool.active == |s.permits| + |s.awaiting| + |s.abandoned| + |s.handed|
  }

  /** A caller can sleep through available work only while a wake-up is on its way. */
  ghost predicate NoLostWakeup(s: System) {
    CanHandOut(s.pool) && !(s.parked <= s.notified) ==> s.decremented != {}
  }

  /** What was queued is still queued or was handed out, once. */
  ghost predicate NothingLost(s: System) {
    multiset(s.enqueued) == s.pool.queue + multiset(s.handed)
  }

  /** Sequence numbers count the items queued, modulo 2^64. */
  ghost predicate Numbered(s: System) {
    && s.pool.seqNo == |s.enqueued| % TWO_TO_THE_64
    && forall i :: 0 <= i < |s.enqueued| ==> s.enqueued[i].seqNo == i % TWO_TO_THE_64
  }

  ghost predicate Invariant(s: System) {
    Separated(s) && WithinLimits(s.pool) && SlotsAccountedFor(s) && NoLostWakeup(s) && NothingLost(s) && Numbered(s)
  }

  lemma StepKeepsSeparated(s: System, e: Event, s': System)
    requires Separated(s) && Step(s, e, s')
    ensures Separated(s')
  {
  }

  lemma StepKeepsSlots(s: System, e: Event, s': System)
    requires Separated(s) && SlotsAccountedFor(s) && Step(s, e, s')
    ensures SlotsAccountedFor(s')
  {
    match e
    case TryAcquire(_, permit) => assert |s.permits + {permit}| == |s.permits| + 1;
    case BeginRelease(p) => assert |s'.permits| == |s.permits| - 1;
    case DropOutsideRuntime(p) => assert |s'.permits| == |s.permits| - 1;
    case CancelRelease(p) => assert |s'.awaiting| == |s.awaiting| - 1;
    case Decrement(p) => assert |s'.awaiting| == |s.awaiting| - 1;
    case _ =>
  }

  lemma StepKeepsWakeups(s: System, e: Event, s': System)
    requires Separated(s) && WithinLimits(s.pool) && NoLostWakeup(s) && Step(s, e, s')
    ensures NoLostWakeup(s')
  {
    match e
    case TryAcquire(dispatch, _) =>
      assert TryAcquireOutcome(s.pool, dispatch).1.Queued? ==> s'.pool.active == s'.pool.max;
    case Check(_, Some(x)) =>
      assert CanHandOut(s.pool);
    case Decrement(p) =>
      assert p in s'.decremented;
    case _ =>
  }

  lemma HandedOverItemIsKept(queue: multiset<QueueItem>, handed: seq<QueueItem>, x: QueueItem)
    requires x in queue
    ensures (queue - multiset{x}) + multiset(handed + [x]) == queue + multiset(handed)
  {
    assert queue == (queue - multiset{x}) + multiset{x};
  }

  lemma LoggedItemIsAdded(log: seq<QueueItem>, x: QueueItem)
    ensures multiset(log + [x]) == multiset(log) + multiset{x}
  {
  }

  lemma StepLosesNothing(s: System, e: Event, s': System)
    requires NothingLost(s) && Step(s, e, s')
    ensures NothingLost(s')
  {
    match e
    case Check(_, Some(x)) =>
      HandedOverItemIsKept(s.pool.queue, s.handed, x);
    case TryAcquire(dispatch, _) =>
      LoggedItemIsAdded(s.enqueued, QueueItem(s.pool.seqNo, dispatch));
    case _ =>
  }

  lemma StepKeepsNumbering(s: System, e: Event, s': System)
    requires Numbered(s) && Step(s, e, s')
    ensures Numbered(s')
  {
    match e
    case TryAcquire(dispatch, _) =>
      NextNumber(|s.enqueued|);
    case _ =>
  }

  lemma NextNumber(n: nat)
    ensures (n % TWO_TO_THE_64 + 1) % TWO_TO_THE_64 == (n + 1) % TWO_TO_THE_64
  {
  }

  /** Nothing is taken out of the histories, and an abandoned slot stays abandoned. */
  ghost predicate Extends(s: System, s': System) {
    && s.enqueued <= s'.enqueued
    && s.handed <= s'.handed
    && s.abandoned <= s'.abandoned
  }

  lemma StepExtends(s: System, e: Event, s': System)
    requires Step(s, e, s')
    ensures Extends(s, s')
  {
  }

  lemma ExtendsIsTransitive(s: System, t: System, u: System)
    requires Extends(s, t) && Extends(t, u)
    ensures Extends(s, u)
  {
  }

  lemma StepKeepsInvariant(s: System, e: Event, s': System)
    requires Invariant(s) && Step(s, e, s')
    ensures Invariant(s')
    ensures s'.pool.max == s.pool.max && s'.pool.maxQueueDepth == s.pool.maxQueueDepth
  {
    StepKeepsSeparated(s, e, s');
    StepKeepsSlots(s, e, s');
    StepKeepsWakeups(s, e, s');
    StepLosesNothing(s, e, s');
    StepKeepsNumbering(s, e, s');
    var dispatch := if e.TryAcquire? then e.dispatch else QueuedDispatch(0, P0);
    OutcomesKeepLimits(s.pool, dispatch, s'.pool, if e.Check? then e.item else None);
  }

  lemma {:induction false} InvariantThroughout(run: seq<System>, events: seq<Event>, max: u64, depth: u64, i: nat)
    requires IsRun(run, events, max, depth) && i < |run|
    ensures Invariant(run[i]) && run[i].pool.max == max && run[i].pool.maxQueueDepth == depth
  {
    if i > 0 {
      InvariantThroughout(run, events, max, depth, i - 1);
      StepKeepsInvariant(run[i - 1], events[i - 1], run[i]);
    }
  }

  // ---------- Safety over whole runs ----------

  /**
   In no interleaving does a caller stay parked, un-notified, beside a queued item and a free slot,
   unless some release has freed a slot and is about to notify.
   */
  lemma NoWakeupIsLost(run: seq<System>, events: seq<Event>, max: u64, depth: u64, i: nat, w: nat)
    requires IsRun(run, events, max, depth) && i < |run|
    requires w in run[i].parked && w !in run[i].notified
    requires |run[i].pool.queue| > 0 && run[i].pool.active < max
    ensures run[i].decremented != {}
  {
    InvariantThroughout(run, events, max, depth, i);
  }

  /**
   Why the future is created before the check: a notification that comes in between is not missed. The caller may find
   nothing and park, but it can wake at once. One that had no future then is not notified.
   */
  lemma FutureCatchesNotification(s: System, p: nat, s': System, w: nat, s'': System) returns (woken: System)
    requires Separated(s) && Step(s, NotifyWaiters(p), s') && w in s.locking && Step(s', Check(w, None), s'')
    ensures Step(s'', Wake(w), woken) && w in woken.locking && w !in woken.notified
    ensures forall v :: v in s'.notified <==> v in s.locking || v in s.parked
  {
    woken := s''.(parked := s''.parked - {w}, locking := s''.locking + {w}, notified := s''.notified - {w});
  }

  /** Slots are conserved, so the cap holds, releases always find a slot, and few calls of `wait_next` return. */
  lemma SlotsAreConserved(run: seq<System>, events: seq<Event>, max: u64, depth: u64, i: nat)
    requires IsRun(run, events, max, depth) && i < |run|
    ensures run[i].pool.active == |run[i].permits| + |run[i].awaiting| + |run[i].abandoned| + |run[i].handed|
    ensures run[i].pool.active <= max && |run[i].permits| <= max && |run[i].handed| <= max
    ensures i < |events| && events[i].Decrement? ==> run[i].pool.active > 0
    ensures i < |events| && events[i].Decrement? ==> run[i + 1].pool.active == run[i].pool.active - 1
  {
    InvariantThroughout(run, events, max, depth, i);
    assert i < |events| ==> Step(run[i], events[i], run[i + 1]);
    assert i < |events| && events[i].Decrement? ==> |run[i].awaiting| > 0;
  }

  /** Nothing queued is lost or handed out twice, and over a pool's whole life only `max + depth` items are ever queued. */
  lemma QueuedItemsAreConserved(run: seq<System>, events: seq<Event>, max: u64, depth: u64, i: nat)
    requires IsRun(run, events, max, depth) && i < |run|
    ensures multiset(run[i].enqueued) == run[i].pool.queue + multiset(run[i].handed)
    ensures |run[i].pool.queue| <= depth
    ensures |run[i].enqueued| <= max + depth
  {
    InvariantThroughout(run, events, max, depth, i);
    assert |multiset(run[i].enqueued)| == |run[i].pool.queue| + |multiset(run[i].handed)|;
  }

  /** Slots that never come back: those `wait_next` took and those abandoned. */
  ghost function Retired(s: System): nat {
    |s.handed| + |s.abandoned|
  }

  lemma ExtendsItself(s: System)
    ensures Extends(s, s)
  {
  }

  lemma {:induction false} RunExtends(run: seq<System>, events: seq<Event>, max: u64, depth: u64, i: nat, j: nat)
    requires IsRun(run, events, max, depth) && i <= j < |run|
    ensures Extends(run[i], run[j])
    decreases j - i
  {
    hide Step, Extends;
    ExtendsItself(run[i]);
    if i < j {
      RunExtends(run, events, max, depth, i, j - 1);
      StepExtends(run[j - 1], events[j - 1], run[j]);
      ExtendsIsTransitive(run[i], run[j - 1], run[j]);
    }
  }

  /** A permit dropped outside a runtime, or a release cancelled while it waits for the lock, never gives its slot back. */
  lemma LostSlotsStayLost(run: seq<System>, events: seq<Event>, max: u64, depth: u64, i: nat, j: nat, p: nat)
    requires IsRun(run, events, max, depth) && i < j < |run|
    requires events[i] == DropOutsideRuntime(p) || events[i] == CancelRelease(p)
    ensures p in run[j].abandoned && p !in run[j].permits + run[j].awaiting + run[j].decremented
    ensures run[j].pool.active >= |run[j].handed| + |run[j].abandoned| > 0
  {
    assert Step(run[i], events[i], run[i + 1]);
    RunExtends(run, events, max, depth, i + 1, j);
    InvariantThroughout(run, events, max, depth, j);
  }

  /** Once every slot is retired the pool is closed: nothing is ever acquired or handed out again. */
  lemma RetiredPoolIsClosed(run: seq<System>, events: seq<Event>, max: u64, depth: u64, i: nat, j: nat)
    requires IsRun(run, events, max, depth) && i <= j < |run| && Retired(run[i]) == max
    ensures run[j].pool.active == max && run[j].permits == {} && run[j].handed == run[i].handed
  {
    RunExtends(run, events, max, depth, i, j);
    SubsetHasNoMore(run[i].abandoned, run[j].abandoned);
    SlotsAreConserved(run, events, max, depth, j);
    assert |run[j].permits| == 0;
  }

  // ---------- Hand-out order ----------

  ghost predicate SameRank(x: QueueItem, y: QueueItem) {
    x.dispatch.priority == y.dispatch.priority
  }

  /** Sequence numbers still tell the order of queuing. */
  ghost predicate Unwrapped(s: System) {
    |s.enqueued| <= TWO_TO_THE_64
  }

  ghost predicate InQueuedOrder(s: System) {
    && (forall a, b :: 0 <= a < b < |s.handed| && SameRank(s.handed[a], s.handed[b])
          ==> s.handed[a].seqNo < s.handed[b].seqNo)
    && (forall a, q :: 0 <= a < |s.handed| && q in s.pool.queue && SameRank(s.handed[a], q)
          ==> s.handed[a].seqNo < q.seqNo)
  }

  /** Every item the queue still holds, or that was handed out, sits in the log at its own number. */
  lemma LoggedAtItsNumber(s: System, x: QueueItem)
    requires NothingLost(s) && Numbered(s) && Unwrapped(s) && (x in s.handed || x in s.pool.queue)
    ensures x.seqNo < |s.enqueued| && s.enqueued[x.seqNo] == x
  {
    assert x in multiset(s.enqueued);
  }

  lemma LoggedOnce(s: System, x: QueueItem)
    requires Numbered(s) && Unwrapped(s) && x in s.enqueued
    ensures multiset(s.enqueued)[x] == 1
  {
    var i :| 0 <= i < |s.enqueued| && s.enqueued[i] == x;
    forall j | 0 <= j < |s.enqueued| && j != i ensures s.enqueued[j] != x {
      assert s.enqueued[j].seqNo == j && s.enqueued[i].seqNo == i;
    }
    OccursOnce(s.enqueued, i);
  }

  lemma OccursOnce(log: seq<QueueItem>, i: nat)
    requires i < |log| && forall j :: 0 <= j < |log| && j != i ==> log[j] != log[i]
    ensures multiset(log)[log[i]] == 1
  {
    var before, after := log[..i], log[i + 1..];
    assert log == before + ([log[i]] + after);
    assert log[i] !in multiset(before) && log[i] !in multiset(after);
  }

  lemma QueuedItemsAreDistinct(s: System)
    requires NothingLost(s) && Numbered(s) && Unwrapped(s)
    ensures DistinctSeqs(s.pool.queue)
  {
    forall x | x in s.pool.queue ensures s.pool.queue[x] == 1 {
      assert x in multiset(s.enqueued);
      LoggedOnce(s, x);
    }
    forall x, y | x in s.pool.queue && y in s.pool.queue && x.seqNo == y.seqNo ensures x == y {
      LoggedAtItsNumber(s, x);
      LoggedAtItsNumber(s, y);
    }
  }

  /**
   On every queue the pool reaches while its counter has not wrapped, the comparator is lawful: sequence numbers are
   distinct and below the counter, so comparing equal, being `eq` and being the same item are one thing.
   */
  lemma ReachableQueuesAreLawful(run: seq<System>, events: seq<Event>, max: u64, depth: u64, i: nat)
    requires IsRun(run, events, max, depth) && i < |run|
    requires Unwrapped(run[i]) || max + depth <= TWO_TO_THE_64
    ensures |run[i].pool.queue| <= depth && DistinctSeqs(run[i].pool.queue)
    ensures |run[i].enqueued| < TWO_TO_THE_64 ==>
              forall x :: x in run[i].pool.queue ==> x.seqNo < run[i].pool.seqNo
    ensures forall x, y :: x in run[i].pool.queue && y in run[i].pool.queue ==>
              (Cmp(x, y) == Equal <==> Eq(x, y)) && (Eq(x, y) <==> x == y)
  {
    var s := run[i];
    InvariantThroughout(run, events, max, depth, i);
    QueuedItemsAreConserved(run, events, max, depth, i);
    QueuedItemsAreDistinct(s);
    forall x | x in s.pool.queue ensures x.seqNo < |s.enqueued| {
      LoggedAtItsNumber(s, x);
    }
    forall x, y | x in s.pool.queue && y in s.pool.queue
      ensures (Cmp(x, y) == Equal <==> Eq(x, y)) && (Eq(x, y) <==> x == y)
    {
      CmpAgreesWithEq(s.pool.queue, x, y);
    }
  }

  lemma RestComesLater(queue: multiset<QueueItem>, x: QueueItem, q: QueueItem)
    requires DistinctSeqs(queue) && IsNext(queue, x) && q in queue - multiset{x} && SameRank(x, q)
    ensures x.seqNo < q.seqNo
  {
    assert q in queue && Turn(x) <= Turn(q);
    assert q != x;
  }

  lemma CheckKeepsQueuedOrder(s: System, w: nat, x: QueueItem, s': System)
    requires NothingLost(s) && Numbered(s) && Unwrapped(s)
    requires InQueuedOrder(s) && Step(s, Check(w, Some(x)), s')
    ensures InQueuedOrder(s')
  {
    hide NothingLost, Numbered, Unwrapped, DistinctSeqs, IsNext, SameRank;
    QueuedItemsAreDistinct(s);
    forall q | q in s'.pool.queue && SameRank(x, q) ensures x.seqNo < q.seqNo {
      RestComesLater(s.pool.queue, x, q);
    }
    assert forall q :: q in s'.pool.queue ==> q in s.pool.queue;
    NextIsQueued(s.pool.queue, x);
  }

  lemma NextIsQueued(queue: multiset<QueueItem>, x: QueueItem)
    requires IsNext(queue, x)
    ensures x in queue
  {
  }

  lemma EnqueueKeepsQueuedOrder(s: System, dispatch: QueuedDispatch, permit: nat, s': System)
    requires NothingLost(s) && Numbered(s) && Unwrapped(s')
    requires InQueuedOrder(s) && Step(s, TryAcquire(dispatch, permit), s')
    ensures InQueuedOrder(s')
  {
    if |s'.enqueued| > |s.enqueued| {
      forall a | 0 <= a < |s.handed| ensures s.handed[a].seqNo < s.pool.seqNo {
        LoggedAtItsNumber(s, s.handed[a]);
      }
    }
  }

  lemma StepKeepsQueuedOrder(s: System, e: Event, s': System)
    requires NothingLost(s) && Numbered(s) && Unwrapped(s')
    requires InQueuedOrder(s) && Step(s, e, s')
    ensures InQueuedOrder(s')
  {
    StepExtends(s, e, s');
    match e
    case Check(w, Some(x)) => CheckKeepsQueuedOrder(s, w, x, s');
    case TryAcquire(dispatch, permit) => EnqueueKeepsQueuedOrder(s, dispatch, permit, s');
    case _ =>
  }

  lemma {:induction false} QueuedOrderThroughout(run: seq<System>, events: seq<Event>, max: u64, depth: u64, i: nat)
    requires IsRun(run, events, max, depth) && i < |run| && Unwrapped(run[i])
    ensures InQueuedOrder(run[i])
  {
    if i > 0 {
      StepExtends(run[i - 1], events[i - 1], run[i]);
      QueuedOrderThroughout(run, events, max, depth, i - 1);
      InvariantThroughout(run, events, max, depth, i - 1);
      StepKeepsQueuedOrder(run[i - 1], events[i - 1], run[i]);
    }
  }

  /** `x` entered the queue before `y`. */
  ghost predicate QueuedBefore(s: System, x: QueueItem, y: QueueItem) {
    exists i, j :: 0 <= i < j < |s.enqueued| && s.enqueued[i] == x && s.enqueued[j] == y
  }

  /** `e` hands out an item although another one of its priority, queued earlier, is still in the queue. */
  ghost predicate PassesAnEqual(s: System, e: Event) {
    && e.Check? && e.item.Some?
    && exists earlier :: earlier in s.pool.queue && earlier != e.item.value && SameRank(earlier, e.item.value)
                         && QueuedBefore(s, earlier, e.item.value)
  }

  lemma NextWasQueuedFirst(s: System, x: QueueItem, other: QueueItem)
    requires NothingLost(s) && Numbered(s) && Unwrapped(s)
    requires IsNext(s.pool.queue, x) && other in s.pool.queue && SameRank(x, other)
    ensures !QueuedBefore(s, other, x)
  {
    LoggedAtItsNumber(s, x);
    LoggedAtItsNumber(s, other);
    assert Turn(x) <= Turn(other);
  }

  /** An item is passed only after the counter has wrapped, and a pool small enough never gets there. */
  lemma PassingNeedsAWrap(run: seq<System>, events: seq<Event>, max: u64, depth: u64, i: nat)
    requires IsRun(run, events, max, depth) && i < |events| && PassesAnEqual(run[i], events[i])
    ensures !Unwrapped(run[i]) && max + depth >= TWO_TO_THE_64 + 2
  {
    hide QueuedBefore;
    var s, x := run[i], events[i].item.value;
    assert Step(s, events[i], run[i + 1]);
    InvariantThroughout(run, events, max, depth, i);
    HandingOutNeedsRoom(run, events, max, depth, i);
    var other :| other in s.pool.queue && SameRank(other, x) && QueuedBefore(s, other, x);
    if Unwrapped(s) {
      NextWasQueuedFirst(s, x, other);
    }
  }

  /** Equal priorities were handed out in the order they were queued. */
  ghost predicate HandedInOrder(s: System) {
    forall a, b :: 0 <= a < b < |s.handed| && SameRank(s.handed[a], s.handed[b])
      ==> QueuedBefore(s, s.handed[a], s.handed[b])
  }

  lemma LoggedInOrder(s: System)
    requires NothingLost(s) && Numbered(s) && Unwrapped(s) && InQueuedOrder(s)
    ensures HandedInOrder(s)
  {
    forall a, b | 0 <= a < b < |s.handed| && SameRank(s.handed[a], s.handed[b])
      ensures QueuedBefore(s, s.handed[a], s.handed[b])
    {
      LoggedAtItsNumber(s, s.handed[a]);
      LoggedAtItsNumber(s, s.handed[b]);
    }
  }

  lemma OrderOutlastsLogging(s: System, s': System)
    requires HandedInOrder(s) && s'.handed == s.handed && s.enqueued <= s'.enqueued
    ensures HandedInOrder(s')
  {
    forall a, b | 0 <= a < b < |s.handed| && SameRank(s.handed[a], s.handed[b])
      ensures QueuedBefore(s', s.handed[a], s.handed[b])
    {
      assert QueuedBefore(s, s.handed[a], s.handed[b]);
      var i, j :| 0 <= i < j < |s.enqueued| && s.enqueued[i] == s.handed[a] && s.enqueued[j] == s.handed[b];
      assert s'.enqueued[i] == s.handed[a] && s'.enqueued[j] == s.handed[b];
    }
  }

  /** A pool that has queued `max + depth` items has no free slot left. */
  lemma FreeSlotNeedsRoom(run: seq<System>, events: seq<Event>, max: u64, depth: u64, i: nat)
    requires IsRun(run, events, max, depth) && i < |run| && run[i].pool.active < max
    ensures |run[i].enqueued| < max + depth
  {
    InvariantThroughout(run, events, max, depth, i);
    assert |multiset(run[i].enqueued)| == |run[i].pool.queue| + |multiset(run[i].handed)|;
  }

  /** So it hands out nothing any more. */
  lemma HandingOutNeedsRoom(run: seq<System>, events: seq<Event>, max: u64, depth: u64, i: nat)
    requires IsRun(run, events, max, depth) && i < |events| && run[i + 1].handed != run[i].handed
    ensures |run[i + 1].enqueued| == |run[i].enqueued| < max + depth
  {
    assert Step(run[i], events[i], run[i + 1]);
    InvariantThroughout(run, events, max, depth, i);
    FreeSlotNeedsRoom(run, events, max, depth, i);
  }

  lemma {:induction false} HandedInOrderThroughout(run: seq<System>, events: seq<Event>, max: u64, depth: u64, i: nat)
    requires IsRun(run, events, max, depth) && i < |run|
    requires Unwrapped(run[i]) || max + depth <= TWO_TO_THE_64 + 1
    ensures HandedInOrder(run[i])
  {
    hide Step, HandedInOrder, InQueuedOrder;
    if Unwrapped(run[i]) {
      InvariantThroughout(run, events, max, depth, i);
      QueuedOrderThroughout(run, events, max, depth, i);
      LoggedInOrder(run[i]);
    } else {
      if run[i].handed != run[i - 1].handed {
        HandingOutNeedsRoom(run, events, max, depth, i - 1);
      }
      StepExtends(run[i - 1], events[i - 1], run[i]);
      HandedInOrderThroughout(run, events, max, depth, i - 1);
      OrderOutlastsLogging(run[i - 1], run[i]);
    }
  }

  /**
   Each return of `wait_next` is the least `(rank, seq)` then queued: nothing queued is more urgent, and nothing of its
   priority has a smaller number. Dispatches of one priority leave
   in the order they were queued as long as at most 2^64 were queued, and in a pool whose
   `max + depth` does not exceed 2^64 + 1 that is in every run, however long.
   */
  lemma HandOutOrder(run: seq<System>, events: seq<Event>, max: u64, depth: u64, i: nat)
    requires IsRun(run, events, max, depth) && i < |run|
    ensures i < |events| && events[i].Check? && events[i].item.Some? ==>
              IsNext(run[i].pool.queue, events[i].item.value)
              && run[i + 1].handed == run[i].handed + [events[i].item.value]
              && IsMostUrgent(run[i].pool.queue, events[i].item.value)
    ensures Unwrapped(run[i]) || max + depth <= TWO_TO_THE_64 + 1 ==>
              forall a, b :: 0 <= a < b < |run[i].handed| && SameRank(run[i].handed[a], run[i].handed[b])
                ==> QueuedBefore(run[i], run[i].handed[a], run[i].handed[b])
  {
    assert i < |events| ==> Step(run[i], events[i], run[i + 1]);
    if i < |events| && events[i].Check? && events[i].item.Some? {
      NextIsMostUrgent(run[i].pool.queue, events[i].item.value);
    }
    if Unwrapped(run[i]) || max + depth <= TWO_TO_THE_64 + 1 {
      HandedInOrderThroughout(run, events, max, depth, i);
    }
  }

  // ---------- The sorted queue it all amounts to ----------

  /** What an event does to a sorted queue: insert what was queued, take the front for what was handed out. */
  function SortedStep(q: seq<QueueItem>, s: System, e: Event): seq<QueueItem> {
    match e
    case TryAcquire(dispatch, _) =>
      if TryAcquireOutcome(s.pool, dispatch).1.Queued? then Insert(q, QueueItem(s.pool.seqNo, dispatch)) else q
    case Check(_, Some(_)) => if q == [] then q else q[1..]
    case _ => q
  }

  /** The sorted queue after the first `i` events. */
  function SortedQueue(run: seq<System>, events: seq<Event>, i: nat): seq<QueueItem>
    requires i <= |events| < |run|
  {
    if i == 0 then [] else SortedStep(SortedQueue(run, events, i - 1), run[i - 1], events[i - 1])
  }

  ghost predicate Lists(q: seq<QueueItem>, s: System) {
    SortedByTurn(q) && multiset(q) == s.pool.queue
  }

  lemma InsertFollowsQueueing(q: seq<QueueItem>, queue: multiset<QueueItem>, x: QueueItem)
    requires SortedByTurn(q) && multiset(q) == queue
    ensures SortedByTurn(Insert(q, x)) && multiset(Insert(q, x)) == queue + multiset{x}
  {
    hide SortedByTurn, Insert;
    InsertKeepsSorted(q, x);
    InsertAddsItem(q, x);
  }

  lemma TailFollowsHandingOut(q: seq<QueueItem>, queue: multiset<QueueItem>, x: QueueItem)
    requires SortedByTurn(q) && multiset(q) == queue && DistinctSeqs(queue) && IsNext(queue, x)
    ensures q != [] && x == q[0] && SortedByTurn(q[1..]) && multiset(q[1..]) == queue - multiset{x}
  {
    hide SortedByTurn, DistinctSeqs, IsNext;
    NextIsFront(q, x);
    TailIsSorted(q);
  }

  lemma StepFollowsSortedQueue(q: seq<QueueItem>, s: System, e: Event, s': System)
    requires Lists(q, s) && Step(s, e, s') && (e.Check? && e.item.Some? ==> DistinctSeqs(s.pool.queue))
    ensures Lists(SortedStep(q, s, e), s')
    ensures e.Check? && e.item.Some? ==> q != [] && e.item.value == q[0]
  {
    hide DistinctSeqs, SortedByTurn, Insert, IsNext;
    match e
    case TryAcquire(dispatch, _) =>
      InsertFollowsQueueing(q, s.pool.queue, QueueItem(s.pool.seqNo, dispatch));
    case Check(_, Some(x)) =>
      TailFollowsHandingOut(q, s.pool.queue, x);
    case _ =>
  }

  lemma TailIsSorted(q: seq<QueueItem>)
    requires SortedByTurn(q) && q != []
    ensures SortedByTurn(q[1..])
  {
  }

  /** While an item can be handed out, the numbers in the queue are distinct. */
  lemma DistinctWhileHandingOut(run: seq<System>, events: seq<Event>, max: u64, depth: u64, i: nat)
    requires IsRun(run, events, max, depth) && i < |run| && run[i].pool.active < max
    requires Unwrapped(run[i]) || max + depth <= TWO_TO_THE_64 + 1
    ensures DistinctSeqs(run[i].pool.queue)
  {
    InvariantThroughout(run, events, max, depth, i);
    FreeSlotNeedsRoom(run, events, max, depth, i);
    QueuedItemsAreDistinct(run[i]);
  }

  lemma RunStepFollows(q: seq<QueueItem>, run: seq<System>, events: seq<Event>, max: u64, depth: u64, i: nat)
    requires IsRun(run, events, max, depth) && i < |events| && Lists(q, run[i])
    requires Unwrapped(run[i]) || max + depth <= TWO_TO_THE_64 + 1
    ensures Lists(SortedStep(q, run[i], events[i]), run[i + 1])
    ensures events[i].Check? && events[i].item.Some? ==> q != [] && events[i].item.value == q[0]
  {
    hide Lists, DistinctSeqs, SortedStep;
    assert Step(run[i], events[i], run[i + 1]);
    if events[i].Check? && events[i].item.Some? {
      InvariantThroughout(run, events, max, depth, i);
      DistinctWhileHandingOut(run, events, max, depth, i);
    }
    StepFollowsSortedQueue(q, run[i], events[i], run[i + 1]);
  }

  /**
   Over a whole run the heap is a sorted queue: it holds the items of the queue that insertion by `(rank, seq)` and
   removal from the front would give, and every return of `wait_next` is that queue's front.
   */
  lemma {:induction false} HeapIsSortedQueue(run: seq<System>, events: seq<Event>, max: u64, depth: u64, i: nat)
    requires IsRun(run, events, max, depth) && i < |run|
    requires Unwrapped(run[i]) || max + depth <= TWO_TO_THE_64 + 1
    ensures Lists(SortedQueue(run, events, i), run[i])
    ensures i < |events| && events[i].Check? && events[i].item.Some? ==>
              SortedQueue(run, events, i) != [] && events[i].item.value == SortedQueue(run, events, i)[0]
  {
    hide Step, Unwrapped, SortedStep;
    if i > 0 {
      if Unwrapped(run[i]) {
        EarlierIsUnwrapped(run, events, max, depth, i);
      }
      HeapIsSortedQueue(run, events, max, depth, i - 1);
      RunStepFollows(SortedQueue(run, events, i - 1), run, events, max, depth, i - 1);
    }
    if i < |events| {
      RunStepFollows(SortedQueue(run, events, i), run, events, max, depth, i);
    }
  }

  lemma EarlierIsUnwrapped(run: seq<System>, events: seq<Event>, max: u64, depth: u64, i: nat)
    requires IsRun(run, events, max, depth) && 0 < i < |run| && Unwrapped(run[i])
    ensures Unwrapped(run[i - 1])
  {
    StepExtends(run[i - 1], events[i - 1], run[i]);
  }

  // ---------- Settling ----------

  /** The steps the pool takes by itself, with no new call, drop or cancellation. */
  predicate IsInternal(e: Event) {
    e.Check? || e.Wake? || e.Decrement? || e.NotifyWaiters?
  }

  ghost predicate IsInternalRun(run: seq<System>, events: seq<Event>) {
    && |run| == |events| + 1
    && forall i :: 0 <= i < |events| ==> IsInternal(events[i]) && Step(run[i], events[i], run[i + 1])
  }

  /** No internal step is possible. */
  ghost predicate Settled(s: System) {
    s.locking == {} && s.parked !! s.notified && s.awaiting == {} && s.decremented == {}
  }

  /** Rounds of waking that pending releases can still cause. */
  ghost function Rounds(s: System): nat {
    2 * |s.awaiting| + |s.decremented|
  }

  ghost function Callers(s: System): nat {
    |s.locking| + |s.parked|
  }

  /** What the callers can still do before the next notification. */
  ghost function Restlessness(s: System): nat {
    |s.locking| + 2 * |s.notified|
  }

  /** An upper bound on the internal steps left. */
  ghost function StepsLeft(s: System): nat {
    Restlessness(s) + Rounds(s) * (2 * Callers(s) + 1)
  }

  lemma NotifiedAreCallers(s: System)
    requires Separated(s)
    ensures |s.notified| <= Callers(s) == |s.locking + s.parked|
  {
    SubsetHasNoMore(s.notified, s.locking + s.parked);
  }

  lemma SubsetHasNoMore(a: set<nat>, b: set<nat>)
    requires a <= b
    ensures |a| <= |b|
  {
    assert b == a + (b - a);
  }

  lemma CallersOnlyLeave(s: System, e: Event, s': System)
    requires Separated(s) && Step(s, e, s') && IsInternal(e)
    ensures Callers(s') <= Callers(s)
    ensures e.NotifyWaiters? || e.Decrement? ==> Callers(s') == Callers(s) && Rounds(s') + 1 == Rounds(s)
    ensures e.Check? || e.Wake? ==> Rounds(s') == Rounds(s) && Restlessness(s') < Restlessness(s)
    ensures e.NotifyWaiters? || e.Decrement? ==> Restlessness(s') <= Restlessness(s) + 2 * |s'.notified|
  {
  }

  lemma InternalStepUsesOneUp(s: System, e: Event, s': System)
    requires Separated(s) && Step(s, e, s') && IsInternal(e)
    ensures StepsLeft(s') < StepsLeft(s)
  {
    InternalStepMovesOn(s, e, s');
    MovingOnUsesOneUp(s, s');
  }

  ghost predicate MovesOn(s: System, s': System) {
    && Callers(s') <= Callers(s)
    && ((Rounds(s') == Rounds(s) && Restlessness(s') < Restlessness(s))
        || (Rounds(s') + 1 == Rounds(s) && Restlessness(s') <= Restlessness(s) + 2 * Callers(s)))
  }

  lemma InternalStepMovesOn(s: System, e: Event, s': System)
    requires Separated(s) && Step(s, e, s') && IsInternal(e)
    ensures MovesOn(s, s')
  {
    CallersOnlyLeave(s, e, s');
    StepKeepsSeparated(s, e, s');
    NotifiedAreCallers(s');
  }

  lemma MovingOnUsesOneUp(s: System, s': System)
    requires MovesOn(s, s')
    ensures StepsLeft(s') < StepsLeft(s)
  {
    BoundDrops(Restlessness(s), Rounds(s), Callers(s), Restlessness(s'), Rounds(s'), Callers(s'));
  }

  /** Either a caller moves on within the round, or a round ends and may wake every caller again. */
  lemma BoundDrops(rest: nat, rounds: nat, callers: nat, rest': nat, rounds': nat, callers': nat)
    requires callers' <= callers
    requires (rounds' == rounds && rest' < rest) || (rounds' + 1 == rounds && rest' <= rest + 2 * callers)
    ensures rest' + rounds' * (2 * callers' + 1) < rest + rounds * (2 * callers + 1)
  {
    var width, width' := 2 * callers + 1, 2 * callers' + 1;
    assert rounds' * width' <= rounds' * width;
    if rounds' + 1 == rounds {
      assert rounds * width == rounds' * width + width;
    }
  }

  /** Left to itself the pool comes to rest: no internal run from a reachable state is longer than the bound. */
  lemma {:induction false} InternalRunsAreFinite(run: seq<System>, events: seq<Event>)
    requires IsInternalRun(run, events) && Separated(run[0])
    ensures |events| <= StepsLeft(run[0])
    decreases |events|
  {
    if events != [] {
      StepKeepsSeparated(run[0], events[0], run[1]);
      InternalStepUsesOneUp(run[0], events[0], run[1]);
      InternalRunsAreFinite(run[1..], events[1..]);
    }
  }

  /** It never stops early: an internal step is possible exactly while the pool is not settled. */
  lemma SettledIffNoInternalStep(s: System)
    requires Separated(s)
    ensures Settled(s) <==> forall e, s' :: IsInternal(e) ==> !Step(s, e, s')
  {
    if !Settled(s) {
      var e, s' := SomeInternalStep(s);
      assert IsInternal(e) && Step(s, e, s');
    }
  }

  lemma SomeInternalStep(s: System) returns (e: Event, s': System)
    requires Separated(s) && !Settled(s)
    ensures IsInternal(e) && Step(s, e, s')
  {
    if w :| w in s.locking {
      if CanHandOut(s.pool) {
        var x := SomeNext(s.pool.queue);
        e := Check(w, Some(x));
        s' := s.(pool := s.pool.(active := s.pool.active + 1, queue := s.pool.queue - multiset{x}),
                 locking := s.locking - {w}, notified := s.notified - {w}, handed := s.handed + [x]);
      } else {
        e := Check(w, None);
        s' := s.(locking := s.locking - {w}, parked := s.parked + {w});
      }
    } else if w :| w in s.parked && w in s.notified {
      e := Wake(w);
      s' := s.(parked := s.parked - {w}, locking := s.locking + {w}, notified := s.notified - {w});
    } else if p :| p in s.awaiting {
      e := Decrement(p);
      s' := s.(pool := ReleaseOutcome(s.pool), awaiting := s.awaiting - {p}, decremented := s.decremented + {p});
    } else {
      var p :| p in s.decremented;
      e := NotifyWaiters(p);
      s' := s.(decremented := s.decremented - {p}, notified := s.locking + s.parked);
    }
  }

  lemma {:induction false} SomeNext(queue: multiset<QueueItem>) returns (x: QueueItem)
    requires |queue| > 0
    ensures IsNext(queue, x)
    decreases |queue|
  {
    x :| x in queue;
    var rest := queue - multiset{x};
    assert queue == rest + multiset{x};
    if |rest| > 0 {
      var y := SomeNext(rest);
      if Turn(y) < Turn(x) {
        x := y;
      }
    }
  }

  /** At rest nobody waits beside work that could be handed out: no caller, no item, or no slot is left. */
  lemma SettledPoolHasServedItsCallers(run: seq<System>, events: seq<Event>, max: u64, depth: u64, i: nat)
    requires IsRun(run, events, max, depth) && i < |run| && Settled(run[i])
    ensures run[i].locking + run[i].parked == {} || run[i].pool.queue == multiset{} || run[i].pool.active == max
  {
    InvariantThroughout(run, events, max, depth, i);
    NothingDueAtRest(run[i]);
  }

  function Least(a: int, b: int): int {
    if a < b then a else b
  }

  /** Slots that are free or about to be. */
  ghost function FreeSlots(s: System): int {
    s.pool.max - s.pool.active + |s.awaiting|
  }

  /** How many items can still be handed out: one for each, as long as items, slots and callers last. */
  ghost function Due(s: System): int {
    Least(|s.pool.queue|, Least(FreeSlots(s), Callers(s)))
  }

  lemma NothingDueAtRest(s: System)
    requires Invariant(s) && Settled(s)
    ensures s.locking + s.parked == {} || s.pool.queue == multiset{} || s.pool.active == s.pool.max
    ensures Due(s) == 0
  {
    if s.parked != {} && s.pool.active < s.pool.max {
      var w :| w in s.parked;
      assert w !in s.notified;
      assert |s.pool.queue| == 0;
    }
  }

  lemma HandingOutUsesOneOfEach(s: System, w: nat, x: QueueItem, s': System)
    requires Step(s, Check(w, Some(x)), s')
    ensures |s.pool.queue| == |s'.pool.queue| + 1 && FreeSlots(s) == FreeSlots(s') + 1 && Callers(s) == Callers(s') + 1
  {
    assert s.pool.queue == s'.pool.queue + multiset{x};
    assert |s.locking| == |s'.locking| + 1;
  }

  lemma OtherInternalStepsUseNone(s: System, e: Event, s': System)
    requires Separated(s) && Step(s, e, s') && IsInternal(e) && !(e.Check? && e.item.Some?)
    requires e.Decrement? ==> s.pool.active > 0
    ensures s'.pool.queue == s.pool.queue && s'.handed == s.handed
    ensures FreeSlots(s') == FreeSlots(s) && Callers(s') == Callers(s)
  {
    hide CanHandOut, IsNext;
    match e
    case Check(w, _) => assert |s.locking| == |s'.locking| + 1;
    case Wake(w) => assert |s.parked| == |s'.parked| + 1;
    case Decrement(p) => assert |s.awaiting| == |s'.awaiting| + 1;
    case _ =>
  }

  lemma AwaitedSlotIsActive(s: System, p: nat)
    requires SlotsAccountedFor(s) && p in s.awaiting
    ensures s.pool.active > 0
  {
  }

  /** An internal step hands out one item that was due, or leaves what is due as it is. */
  lemma InternalStepPaysOne(s: System, e: Event, s': System)
    requires Invariant(s) && Step(s, e, s') && IsInternal(e)
    ensures if e.Check? && e.item.Some? then Due(s) == Due(s') + 1
            else Due(s') == Due(s) && s'.pool.queue == s.pool.queue && s'.handed == s.handed
  {
    hide NoLostWakeup, NothingLost, Numbered, FreeSlots, Callers;
    if e.Decrement? {
      AwaitedSlotIsActive(s, e.permit);
    }
    if e.Check? && e.item.Some? {
      HandingOutUsesOneOfEach(s, e.waiter, e.item.value, s');
    } else {
      hide Step;
      OtherInternalStepsUseNone(s, e, s');
    }
  }

  lemma DueIsInRange(q: seq<QueueItem>, s: System)
    requires Invariant(s) && Lists(q, s)
    ensures 0 <= Due(s) <= |q|
  {
  }

  lemma FewerAreDistinct(queue: multiset<QueueItem>, rest: multiset<QueueItem>)
    requires DistinctSeqs(queue) && rest <= queue
    ensures DistinctSeqs(rest)
  {
    forall x | x in rest ensures rest[x] == 1 {
      assert x in queue && rest[x] <= queue[x];
    }
    forall x, y | x in rest && y in rest && x.seqNo == y.seqNo ensures x == y {
      assert x in queue && y in queue;
    }
  }

  /** What is handed out so far and what is due, in front of what stays. */
  ghost predicate Serves(q: seq<QueueItem>, s: System, q': seq<QueueItem>, s': System)
    requires 0 <= Due(s) <= |q| && 0 <= Due(s') <= |q'|
  {
    s'.handed + q'[..Due(s')] == s.handed + q[..Due(s)] && q'[Due(s')..] == q[Due(s)..]
  }

  lemma ServedInTurn(q: seq<QueueItem>, s: System, s': System)
    requires 0 < Due(s) <= |q| && Due(s') == Due(s) - 1 && s'.handed == s.handed + [q[0]]
    ensures Serves(q, s, q[1..], s')
  {
    hide Due;
    assert q[..Due(s)] == [q[0]] + q[1..][..Due(s')];
  }

  lemma InternalStepServes(q: seq<QueueItem>, s: System, e: Event, s': System)
    requires Invariant(s) && Invariant(s') && Step(s, e, s') && IsInternal(e)
    requires Lists(q, s) && DistinctSeqs(s.pool.queue)
    ensures Lists(SortedStep(q, s, e), s') && DistinctSeqs(s'.pool.queue)
    ensures 0 <= Due(s) <= |q| && 0 <= Due(s') <= |SortedStep(q, s, e)|
    ensures Serves(q, s, SortedStep(q, s, e), s')
  {
    hide DistinctSeqs, Lists, Invariant, Due;
    InternalStepPaysOne(s, e, s');
    StepFollowsSortedQueue(q, s, e, s');
    FewerAreDistinct(s.pool.queue, s'.pool.queue);
    DueIsInRange(q, s);
    DueIsInRange(SortedStep(q, s, e), s');
    if e.Check? && e.item.Some? {
      hide Serves;
      ServedInTurn(q, s, s');
    }
  }

  /**
   However the internal steps are ordered, from a state with so many items, slots and callers the pool comes to rest
   after handing out exactly the least of these numbers of items, and they are the first of the sorted queue, in order.
   */
  lemma {:induction false} SettlingServesInOrder(run: seq<System>, events: seq<Event>, q: seq<QueueItem>)
    requires IsInternalRun(run, events) && Invariant(run[0]) && Settled(run[|events|])
    requires Lists(q, run[0]) && DistinctSeqs(run[0].pool.queue)
    ensures 0 <= Due(run[0]) <= |q|
    ensures run[|events|].handed == run[0].handed + q[..Due(run[0])]
    ensures Lists(q[Due(run[0])..], run[|events|])
    decreases |events|
  {
    hide Step, Invariant, Settled, Lists, DistinctSeqs, Due, SortedStep;
    DueIsInRange(q, run[0]);
    if events == [] {
      NothingDueAtRest(run[0]);
      assert q[..0] == [] && q[0..] == q;
    } else {
      StepKeepsInvariant(run[0], events[0], run[1]);
      InternalStepServes(q, run[0], events[0], run[1]);
      SettlingServesInOrder(run[1..], events[1..], SortedStep(q, run[0], events[0]));
    }
  }
}
