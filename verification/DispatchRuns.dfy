/** Runs of the dispatch pool built to show how far its guarantees reach. */
module DispatchRuns {
  import opened Wrappers
  import opened DispatchOrder
  import opened DispatchPools
  import opened DispatchProtocol

  ghost predicate Reachable(s: System, max: u64, depth: u64) {
    exists run, events :: IsRun(run, events, max, depth) && run[|events|] == s
  }

  lemma LongerRun(run: seq<System>, events: seq<Event>, e: Event, s': System, max: u64, depth: u64)
    requires IsRun(run, events, max, depth) && Step(run[|events|], e, s')
    ensures IsRun(run + [s'], events + [e], max, depth)
  {
    hide Step;
    var run', events' := run + [s'], events + [e];
    forall i | 0 <= i < |events'| ensures Step(run'[i], events'[i], run'[i + 1]) {
      assert i < |events| ==> run'[i] == run[i] && run'[i + 1] == run[i + 1] && events'[i] == events[i];
    }
  }

  lemma ReachableByStep(s: System, e: Event, s': System, max: u64, depth: u64)
    requires Reachable(s, max, depth) && Step(s, e, s')
    ensures Reachable(s', max, depth)
  {
    var run, events :| IsRun(run, events, max, depth) && run[|events|] == s;
    LongerRun(run, events, e, s', max, depth);
    assert (run + [s'])[|events + [e]|] == s';
  }

  // ---------- A pool large enough to wrap its counter ----------

  /**
   A pool's limits and what to do with it: an item at the lowest priority is queued first and waits throughout, the next
   `handed` items are urgent and handed out, and all that come later have priority `late`.
   */
  datatype Plan = Plan(max: u64, depth: u64, handed: nat, late: Priority)

  function Item(p: Plan, i: nat): QueueItem {
    QueueItem(i % TWO_TO_THE_64, QueuedDispatch(i, if i == 0 then P3 else if i <= p.handed then P0 else p.late))
  }

  function Log(p: Plan, n: nat): (log: seq<QueueItem>)
    ensures |log| == n && forall i :: 0 <= i < n ==> log[i] == Item(p, i)
  {
    seq(n, i requires 0 <= i < n => Item(p, i))
  }

  /** What is queued when items 1 to `r` of `n` have been handed out. */
  function Waitlist(p: Plan, r: nat, n: nat): seq<QueueItem>
    requires r < n
  {
    [Item(p, 0)] + Log(p, n)[r + 1..]
  }

  function Ids(lo: nat, hi: nat): (ids: set<nat>)
    ensures forall x: nat :: x in ids <==> lo <= x < hi
    decreases hi - lo
  {
    if lo >= hi then {} else {lo} + Ids(lo + 1, hi)
  }

  function Acquiring(p: Plan, k: u64): System {
    System(PoolState(p.max, p.depth, k, 0, multiset{}), Ids(0, k), {}, {}, {}, {}, {}, {}, [], [])
  }

  /** All slots in use, `n` items queued so far and items 1 to `r` handed out. */
  function Full(p: Plan, r: nat, n: nat): System
    requires r < n
  {
    System(PoolState(p.max, p.depth, p.max, n % TWO_TO_THE_64, multiset(Waitlist(p, r, n))),
           Ids(r, p.max), {}, {}, {}, {}, {}, {}, Log(p, n), Log(p, n)[1..r + 1])
  }

  /** The same with the slot of permit `r` given back and a caller about to check. */
  function Freed(p: Plan, r: nat, n: nat): System
    requires r < n && 0 < p.max
  {
    var s := Full(p, r, n);
    s.(pool := s.pool.(active := p.max - 1), permits := Ids(r + 1, p.max), locking := {0})
  }

  ghost predicate Happens(p: Plan, s: System) {
    Reachable(s, p.max, p.depth)
  }

  lemma {:induction false} ReachAcquiring(p: Plan, k: u64)
    requires k <= p.max
    ensures Happens(p, Acquiring(p, k))
  {
    if k == 0 {
      var s := Acquiring(p, 0);
      var events: seq<Event> := [];
      assert Ids(0, 0) == {};
      assert IsRun([s], events, p.max, p.depth) && [s][|events|] == s;
    } else {
      ReachAcquiring(p, k - 1);
      var before, after := Acquiring(p, k - 1), Acquiring(p, k);
      assert Ids(0, k) == Ids(0, k - 1) + {k - 1};
      assert Step(before, TryAcquire(QueuedDispatch(0, P0), k - 1), after);
      ReachableByStep(before, TryAcquire(QueuedDispatch(0, P0), k - 1), after, p.max, p.depth);
    }
  }

  lemma FirstIsQueued(p: Plan)
    requires 0 < p.depth
    ensures Step(Acquiring(p, p.max), TryAcquire(Item(p, 0).dispatch, p.max), Full(p, 0, 1))
  {
    hide Ids;
    assert Log(p, 1) == [] + [Item(p, 0)] && Log(p, 1)[1..] == [] && Waitlist(p, 0, 1) == [Item(p, 0)];
  }

  lemma LogGrows(p: Plan, r: nat, n: nat)
    requires r < n
    ensures Log(p, n + 1) == Log(p, n) + [Item(p, n)] && Log(p, n + 1)[1..r + 1] == Log(p, n)[1..r + 1]
    ensures multiset(Waitlist(p, r, n + 1)) == multiset(Waitlist(p, r, n)) + multiset{Item(p, n)}
    ensures |multiset(Waitlist(p, r, n))| == n - r
  {
    hide Item;
    assert Waitlist(p, r, n + 1) == Waitlist(p, r, n) + [Item(p, n)];
  }

  lemma QueueStep(p: Plan, r: nat, n: nat)
    requires r < n < r + p.depth
    ensures Step(Full(p, r, n), TryAcquire(Item(p, n).dispatch, p.max), Full(p, r, n + 1))
  {
    hide Log, Ids, Waitlist;
    LogGrows(p, r, n);
    NextNumber(n);
  }

  lemma ReachOneMoreQueued(p: Plan, r: nat, n: nat)
    requires r < n < r + p.depth && Happens(p, Full(p, r, n))
    ensures Happens(p, Full(p, r, n + 1))
  {
    hide Reachable, Step, Full, Item;
    QueueStep(p, r, n);
    ReachableByStep(Full(p, r, n), TryAcquire(Item(p, n).dispatch, p.max), Full(p, r, n + 1), p.max, p.depth);
  }

  lemma ReachFreed(p: Plan, r: nat, n: nat)
    requires r < n && r < p.max && Happens(p, Full(p, r, n))
    ensures Happens(p, Freed(p, r, n))
  {
    hide Reachable, Log, Waitlist;
    var s := Full(p, r, n);
    assert Ids(r, p.max) - {r} == Ids(r + 1, p.max);
    var s1 := s.(permits := Ids(r + 1, p.max), awaiting := {r});
    var s2 := s1.(pool := s.pool.(active := p.max - 1), awaiting := {}, decremented := {r});
    var s3 := s2.(decremented := {});
    ReachableByStep(s, BeginRelease(r), s1, p.max, p.depth);
    ReachableByStep(s1, Decrement(r), s2, p.max, p.depth);
    ReachableByStep(s2, NotifyWaiters(r), s3, p.max, p.depth);
    ReachableByStep(s3, CallWaitNext(0), Freed(p, r, n), p.max, p.depth);
  }

  lemma TurnOfItem(p: Plan, i: nat)
    requires i < TWO_TO_THE_64
    ensures Turn(Item(p, i)) >= i
    ensures 0 < i <= p.handed ==> Turn(Item(p, i)) == i
  {
  }

  lemma TurnOfWaiting(p: Plan)
    ensures Turn(Item(p, 0)) == 3 * TWO_TO_THE_64
  {
  }

  /** The items of a waiting list: item 0 and those after item `r`. */
  lemma WhoIsWaiting(p: Plan, r: nat, n: nat, y: QueueItem) returns (k: nat)
    requires r < n && y in multiset(Waitlist(p, r, n))
    ensures y == Item(p, k) && (k == 0 || r < k < n)
  {
    hide Item;
    var list := Waitlist(p, r, n);
    var j :| 0 <= j < |list| && list[j] == y;
    k := if j == 0 then 0 else r + j;
  }

  lemma UrgentIsNext(p: Plan, r: nat, n: nat)
    requires r + 1 < n <= TWO_TO_THE_64 && r + 1 <= p.handed
    ensures IsNext(multiset(Waitlist(p, r, n)), Item(p, r + 1))
  {
    hide Item, Turn;
    assert Waitlist(p, r, n)[1] == Item(p, r + 1);
    forall y | y in multiset(Waitlist(p, r, n)) ensures Turn(Item(p, r + 1)) <= Turn(y) {
      var k := WhoIsWaiting(p, r, n, y);
      TurnOfItem(p, r + 1);
      TurnOfWaiting(p);
      TurnOfItem(p, k);
    }
  }

  lemma SecondIsTaken(first: QueueItem, second: QueueItem, rest: seq<QueueItem>)
    ensures multiset([first] + rest) == multiset([first] + ([second] + rest)) - multiset{second}
  {
  }

  lemma LogSplits(log: seq<QueueItem>, k: nat)
    requires 0 < k < |log|
    ensures log[k..] == [log[k]] + log[k + 1..] && log[1..k + 1] == log[1..k] + [log[k]]
  {
  }

  lemma WaitlistSplits(p: Plan, r: nat, n: nat)
    requires r + 1 < n
    ensures Waitlist(p, r, n) == [Item(p, 0)] + ([Item(p, r + 1)] + Log(p, n)[r + 2..])
  {
    hide Item;
    LogSplits(Log(p, n), r + 1);
  }

  lemma UrgentIsTaken(p: Plan, r: nat, n: nat)
    requires r + 1 < n
    ensures multiset(Waitlist(p, r + 1, n)) == multiset(Waitlist(p, r, n)) - multiset{Item(p, r + 1)}
  {
    hide Item, Log;
    var rest := Log(p, n)[r + 2..];
    WaitlistSplits(p, r, n);
    SecondIsTaken(Item(p, 0), Item(p, r + 1), rest);
    assert Waitlist(p, r + 1, n) == [Item(p, 0)] + rest;
  }

  lemma HandOutStep(p: Plan, r: nat, n: nat)
    requires r + 1 < n <= TWO_TO_THE_64 && r + 1 <= p.handed && r < p.max
    ensures Step(Freed(p, r, n), Check(0, Some(Item(p, r + 1))), Full(p, r + 1, n))
  {
    hide Log, Ids, Item, IsNext, Waitlist;
    UrgentIsNext(p, r, n);
    UrgentIsTaken(p, r, n);
    LogSplits(Log(p, n), r + 1);
    LogGrows(p, r, n);
  }

  lemma ReachOneMoreHandedOut(p: Plan, r: nat, n: nat)
    requires r + 1 < n <= TWO_TO_THE_64 && r + 1 <= p.handed && r < p.max && Happens(p, Full(p, r, n))
    ensures Happens(p, Full(p, r + 1, n))
  {
    hide Reachable, Step, Full, Freed;
    ReachFreed(p, r, n);
    HandOutStep(p, r, n);
    ReachableByStep(Freed(p, r, n), Check(0, Some(Item(p, r + 1))), Full(p, r + 1, n), p.max, p.depth);
  }

  /** Filling the queue, then handing out and queuing in turn. */
  lemma {:induction false} ReachFull(p: Plan, r: nat, n: nat)
    requires r <= p.max && r <= p.handed && 1 < p.depth
    requires r < n <= p.depth + r <= TWO_TO_THE_64 + 1 && (r == 0 || n == p.depth + r)
    ensures Happens(p, Full(p, r, n))
    decreases r, n
  {
    hide Happens, Full, Acquiring, Item;
    if r > 0 {
      ReachFull(p, r - 1, n - 1);
      ReachOneMoreHandedOut(p, r - 1, n - 1);
      ReachOneMoreQueued(p, r, n - 1);
    } else if n > 1 {
      ReachFull(p, 0, n - 1);
      ReachOneMoreQueued(p, 0, n - 1);
    } else {
      ReachFirstQueued(p);
    }
  }

  lemma ReachFirstQueued(p: Plan)
    requires 0 < p.depth
    ensures Happens(p, Full(p, 0, 1))
  {
    hide Reachable, Step, Full, Acquiring, Item;
    ReachAcquiring(p, p.max);
    FirstIsQueued(p);
    ReachableByStep(Acquiring(p, p.max), TryAcquire(Item(p, 0).dispatch, p.max), Full(p, 0, 1), p.max, p.depth);
  }

  /** The plan that brings a pool to its wrap: hand out just enough to queue item 2^64. */
  function Wrapping(max: u64, depth: u64, late: Priority): Plan {
    Plan(max, depth, if depth <= TWO_TO_THE_64 then TWO_TO_THE_64 + 1 - depth else 0, late)
  }

  /** Item 2^64 carries number 0, as item 0 does, and both are queued. */
  lemma BothNumbersZero(max: u64, depth: u64, late: Priority)
    requires 1 < depth
    ensures var p := Wrapping(max, depth, late);
            var queue := multiset(Waitlist(p, p.handed, TWO_TO_THE_64 + 1));
            && Item(p, 0) in queue && Item(p, TWO_TO_THE_64) in queue
            && Item(p, TWO_TO_THE_64) == QueueItem(0, QueuedDispatch(TWO_TO_THE_64, late))
  {
    var p := Wrapping(max, depth, late);
    var list := Waitlist(p, p.handed, TWO_TO_THE_64 + 1);
    assert list[0] == Item(p, 0) && list[depth - 1] == Item(p, TWO_TO_THE_64);
  }

  // ---------- Lawful comparisons ----------

  /** Comparing equal and being `eq` agree. */
  ghost predicate IsLawful(queue: multiset<QueueItem>) {
    forall x, y :: x in queue && y in queue ==> (Cmp(x, y) == Equal <==> Eq(x, y))
  }

  ghost predicate AlwaysLawful(max: u64, depth: u64) {
    forall s :: Reachable(s, max, depth) ==> IsLawful(s.pool.queue)
  }

  lemma UnlawfulHappens(max: u64, depth: u64) returns (s: System)
    requires max + depth >= TWO_TO_THE_64 + 1
    ensures Reachable(s, max, depth) && !IsLawful(s.pool.queue)
  {
    hide Reachable;
    var p := Wrapping(max, depth, P0);
    ReachFull(p, p.handed, TWO_TO_THE_64 + 1);
    BothNumbersZero(max, depth, P0);
    s := Full(p, p.handed, TWO_TO_THE_64 + 1);
    var x, y := Item(p, 0), Item(p, TWO_TO_THE_64);
    assert x in s.pool.queue && y in s.pool.queue && Eq(x, y) && Cmp(x, y) != Equal;
  }

  /**
   The comparator agrees with `eq` on every queue a pool can reach exactly for the pools with `max + depth` of at most
   2^64. In every larger pool two items of one number and different priorities can be queued together.
   */
  lemma AlwaysLawfulIff(max: u64, depth: u64)
    ensures AlwaysLawful(max, depth) <==> max + depth <= TWO_TO_THE_64
  {
    if max + depth <= TWO_TO_THE_64 {
      forall s | Reachable(s, max, depth) ensures IsLawful(s.pool.queue) {
        var run, events :| IsRun(run, events, max, depth) && run[|events|] == s;
        ReachableQueuesAreLawful(run, events, max, depth, |events|);
      }
    } else {
      var s := UnlawfulHappens(max, depth);
    }
  }

  // ---------- First in, first out ----------

  ghost predicate NobodyIsPassed(max: u64, depth: u64) {
    forall s, e, s' :: Reachable(s, max, depth) && Step(s, e, s') ==> !PassesAnEqual(s, e)
  }

  lemma LastIsNext(p: Plan, r: nat)
    requires r < TWO_TO_THE_64 && p.late == P0 && p.handed < TWO_TO_THE_64
    ensures IsNext(multiset(Waitlist(p, r, TWO_TO_THE_64 + 1)), Item(p, TWO_TO_THE_64))
  {
    var list := Waitlist(p, r, TWO_TO_THE_64 + 1);
    assert list[TWO_TO_THE_64 - r] == Item(p, TWO_TO_THE_64);
    assert Turn(Item(p, TWO_TO_THE_64)) == 0;
  }

  lemma PassesEarlierItem(p: Plan, s: System, earlier: nat)
    requires p.late == P0 && p.handed < earlier < TWO_TO_THE_64
    requires s.enqueued == Log(p, TWO_TO_THE_64 + 1) && Item(p, earlier) in s.pool.queue
    ensures PassesAnEqual(s, Check(0, Some(Item(p, TWO_TO_THE_64))))
  {
    var x := Item(p, TWO_TO_THE_64);
    assert s.enqueued[earlier] == Item(p, earlier) && s.enqueued[TWO_TO_THE_64] == x;
    assert QueuedBefore(s, Item(p, earlier), x);
  }

  lemma NextCanBeHandedOut(s: System, w: nat, x: QueueItem) returns (s': System)
    requires w in s.locking && s.pool.active < s.pool.max && IsNext(s.pool.queue, x)
    ensures Step(s, Check(w, Some(x)), s')
  {
    PoppedIsHandedOut(s.pool, x);
    var pool := s.pool.(active := s.pool.active + 1, queue := s.pool.queue - multiset{x});
    s' := s.(pool := pool, locking := s.locking - {w}, notified := s.notified - {w}, handed := s.handed + [x]);
  }

  /** Item 2^64 passes everything of its priority queued before it. */
  lemma PassingHappens(max: u64, depth: u64) returns (s: System, e: Event, s': System)
    requires max + depth >= TWO_TO_THE_64 + 2
    ensures Reachable(s, max, depth) && Step(s, e, s') && PassesAnEqual(s, e)
  {
    hide Reachable, Step, Item, Ids, PassesAnEqual, IsNext, Log;
    var n := TWO_TO_THE_64 + 1;
    var p := Wrapping(max, depth, P0);
    var r := p.handed;
    ReachFull(p, r, n);
    ReachFreed(p, r, n);
    s := Freed(p, r, n);
    assert Waitlist(p, r, n)[1] == Item(p, r + 1);
    hide Waitlist;
    PassesEarlierItem(p, s, r + 1);
    LastIsNext(p, r);
    e := Check(0, Some(Item(p, TWO_TO_THE_64)));
    s' := NextCanBeHandedOut(s, 0, Item(p, TWO_TO_THE_64));
  }

  /**
   Where first-in-first-out ends: `wait_next` never passes over an equal queued earlier, in any run, exactly for the
   pools with `max + depth` of at most 2^64 + 1. Every larger pool has a run in which its counter wraps and it does.
   */
  lemma NobodyIsPassedIff(max: u64, depth: u64)
    ensures NobodyIsPassed(max, depth) <==> max + depth <= TWO_TO_THE_64 + 1
  {
    hide Step, PassesAnEqual;
    if max + depth <= TWO_TO_THE_64 + 1 {
      forall s, e, s' | Reachable(s, max, depth) && Step(s, e, s') ensures !PassesAnEqual(s, e) {
        if PassesAnEqual(s, e) {
          var run, events :| IsRun(run, events, max, depth) && run[|events|] == s;
          LongerRun(run, events, e, s', max, depth);
          PassingNeedsAWrap(run + [s'], events + [e], max, depth, |events|);
        }
      }
    } else {
      var s, e, s' := PassingHappens(max, depth);
    }
  }

  // ---------- One possible choice ----------

  /** Whenever an item can be handed out, only one item can be. */
  ghost predicate NextIsDetermined(max: u64, depth: u64) {
    forall s :: Reachable(s, max, depth) && CanHandOut(s.pool) ==> HasOneNext(s.pool.queue)
  }

  ghost predicate HasOneNext(queue: multiset<QueueItem>) {
    forall x, y :: IsNext(queue, x) && IsNext(queue, y) ==> x == y
  }

  lemma DistinctHasOneNext(queue: multiset<QueueItem>)
    requires DistinctSeqs(queue)
    ensures HasOneNext(queue)
  {
    forall x, y | IsNext(queue, x) && IsNext(queue, y) ensures x == y {
      CmpReversesTurn(x, y);
      CmpAgreesWithEq(queue, x, y);
    }
  }

  lemma LowestAreAllNext(p: Plan, r: nat, k: nat)
    requires p.late == P3 && p.handed <= r < TWO_TO_THE_64
    requires k % TWO_TO_THE_64 == 0 && k <= TWO_TO_THE_64 && (k == 0 || k > p.handed)
    requires Item(p, k) in multiset(Waitlist(p, r, TWO_TO_THE_64 + 1))
    ensures IsNext(multiset(Waitlist(p, r, TWO_TO_THE_64 + 1)), Item(p, k))
  {
    forall y | y in multiset(Waitlist(p, r, TWO_TO_THE_64 + 1)) ensures Turn(Item(p, k)) <= Turn(y) {
      var j := WhoIsWaiting(p, r, TWO_TO_THE_64 + 1, y);
    }
  }

  lemma ChoiceHappens(max: u64, depth: u64) returns (s: System)
    requires max + depth >= TWO_TO_THE_64 + 2
    ensures Reachable(s, max, depth) && CanHandOut(s.pool) && !HasOneNext(s.pool.queue)
  {
    hide Reachable, Waitlist, IsNext;
    var n := TWO_TO_THE_64 + 1;
    var p := Wrapping(max, depth, P3);
    ReachFull(p, p.handed, n);
    ReachFreed(p, p.handed, n);
    BothNumbersZero(max, depth, P3);
    LogGrows(p, p.handed, n);
    LowestAreAllNext(p, p.handed, 0);
    LowestAreAllNext(p, p.handed, TWO_TO_THE_64);
    s := Freed(p, p.handed, n);
    assert Item(p, 0) != Item(p, TWO_TO_THE_64);
  }

  /**
   What `wait_next` returns is settled by what is queued exactly for the pools with `max + depth` of at most 2^64 + 1.
   In every larger pool two items of one number and one priority can be first in line together.
   */
  lemma NextIsDeterminedIff(max: u64, depth: u64)
    ensures NextIsDetermined(max, depth) <==> max + depth <= TWO_TO_THE_64 + 1
  {
    if max + depth <= TWO_TO_THE_64 + 1 {
      forall s | Reachable(s, max, depth) && CanHandOut(s.pool) ensures HasOneNext(s.pool.queue) {
        var run, events :| IsRun(run, events, max, depth) && run[|events|] == s;
        InvariantThroughout(run, events, max, depth, |events|);
        DistinctWhileHandingOut(run, events, max, depth, |events|);
        DistinctHasOneNext(s.pool.queue);
      }
    } else {
      var s := ChoiceHappens(max, depth);
    }
  }

  // ---------- Newcomers ----------

  const URGENT := QueueItem(0, QueuedDispatch(1, P0))

  /** An urgent item queued while newcomer `k` has the only slot. */
  function Waiting(k: nat): System {
    System(PoolState(1, 1, 1, 1, multiset{URGENT}), {k}, {}, {}, {}, {}, {}, {}, [URGENT], [])
  }

  /** The `k`-th newcomer to get the slot, with a permit numbered `k`. */
  function Newcomer(k: nat): Event {
    TryAcquire(QueuedDispatch(k + 1, P3), k)
  }

  ghost predicate StillWaiting(s: System) {
    s.pool.queue == multiset{URGENT} && s.handed == []
  }

  /** The `k`-th newcomer asked for the slot and got it. */
  ghost predicate Passed(run: seq<System>, events: seq<Event>, k: nat) {
    0 < k && 4 * k + 2 < |run| && 4 * k + 1 < |events| && events[4 * k + 1] == Newcomer(k) && run[4 * k + 2].permits == {k}
  }

  lemma UrgentIsQueued() returns (run: seq<System>, events: seq<Event>)
    ensures IsRun(run, events, 1, 1) && |events| == 2 && run[2] == Waiting(0)
    ensures events[1] == TryAcquire(URGENT.dispatch, 1) && StillWaiting(run[2])
  {
    events := [TryAcquire(QueuedDispatch(0, P2), 0), TryAcquire(QueuedDispatch(1, P0), 1)];
    var s0 := System(EmptyPool(1, 1), {}, {}, {}, {}, {}, {}, {}, [], []);
    var s1 := s0.(pool := s0.pool.(active := 1), permits := {0});
    assert Step(s0, events[0], s1) && Step(s1, events[1], Waiting(0));
    run := [s0, s1, Waiting(0)];
  }

  /** The permit goes back, nobody waits to be notified, and a newcomer takes the slot. */
  lemma NewcomerPasses(run: seq<System>, events: seq<Event>, k: nat)
    returns (run': seq<System>, events': seq<Event>)
    requires IsRun(run, events, 1, 1) && run[|events|] == Waiting(k)
    ensures IsRun(run', events', 1, 1) && run <= run' && events <= events' && |events'| == |events| + 4
    ensures events'[|events| + 3] == Newcomer(k + 1)
    ensures run'[|events'|] == Waiting(k + 1) && run'[|events'|].permits == {k + 1}
    ensures forall j :: |run| <= j < |run'| ==> StillWaiting(run'[j])
  {
    var s := Waiting(k);
    var s1 := s.(permits := {}, awaiting := {k});
    var s2 := s1.(pool := s.pool.(active := 0), awaiting := {}, decremented := {k});
    var s3 := s2.(decremented := {});
    assert Step(s, BeginRelease(k), s1) && Step(s1, Decrement(k), s2) && Step(s2, NotifyWaiters(k), s3);
    assert Step(s3, Newcomer(k + 1), Waiting(k + 1));
    hide Step;
    LongerRun(run, events, BeginRelease(k), s1, 1, 1);
    var r1, e1 := run + [s1], events + [BeginRelease(k)];
    LongerRun(r1, e1, Decrement(k), s2, 1, 1);
    var r2, e2 := r1 + [s2], e1 + [Decrement(k)];
    LongerRun(r2, e2, NotifyWaiters(k), s3, 1, 1);
    var r3, e3 := r2 + [s3], e2 + [NotifyWaiters(k)];
    LongerRun(r3, e3, Newcomer(k + 1), Waiting(k + 1), 1, 1);
    run', events' := r3 + [Waiting(k + 1)], e3 + [Newcomer(k + 1)];
  }

  lemma LaterRunHasPassed(before: seq<System>, past: seq<Event>, run: seq<System>, events: seq<Event>, n: nat)
    requires before <= run && past <= events && |events| == 2 + 4 * n && |run| == |events| + 1
    requires 0 < n && events[4 * n + 1] == Newcomer(n) && run[|events|].permits == {n}
    requires forall k :: 0 < k < n ==> Passed(before, past, k)
    ensures forall k :: 0 < k <= n ==> Passed(run, events, k)
  {
    hide Newcomer;
    forall k | 0 < k <= n ensures Passed(run, events, k) {
      assert k < n ==> Passed(before, past, k);
    }
  }

  /**
   A freed slot goes to whoever takes the lock first. However many low-priority newcomers come,
   there is a run in which one after the other gets the slot while the same urgent item stays queued.
   */
  lemma {:induction false} NewcomersCanOvertakeForever(n: nat) returns (run: seq<System>, events: seq<Event>)
    ensures IsRun(run, events, 1, 1) && |events| == 2 + 4 * n && run[|events|] == Waiting(n)
    ensures events[1] == TryAcquire(URGENT.dispatch, 1)
    ensures forall k :: 0 < k <= n ==> Passed(run, events, k)
    ensures forall j :: 2 <= j < |run| ==> StillWaiting(run[j])
  {
    if n == 0 {
      run, events := UrgentIsQueued();
    } else {
      hide IsRun, Waiting, Newcomer, Passed, StillWaiting;
      var before, past := NewcomersCanOvertakeForever(n - 1);
      run, events := NewcomerPasses(before, past, n - 1);
      LaterRunHasPassed(before, past, run, events, n);
    }
  }
}
