/**
 The dispatch pool: the state its mutex guards, what each critical section does to that state,
 and the permit that gives a slot back.
 */
module DispatchPools {
  import opened Wrappers
  import opened DispatchOrder
  import opened DispatchHeaps

  /** What the mutex guards, with the heap read as the collection of items in it. */
  datatype PoolState = PoolState(max: u64, maxQueueDepth: u64, active: u64, seqNo: u64, queue: multiset<QueueItem>)

  datatype TryAcquireResult = Acquired | Queued(depth: nat) | QueueFull(depth: nat)

  ghost predicate WithinLimits(s: PoolState) {
    s.active <= s.max && |s.queue| <= s.maxQueueDepth
  }

  function EmptyPool(max: u64, maxQueueDepth: u64): PoolState {
    PoolState(max, maxQueueDepth, 0, 0, multiset{})
  }

  /** The critical section of `try_acquire`: a free slot goes to the caller even past a non-empty queue. */
  function TryAcquireOutcome(s: PoolState, dispatch: QueuedDispatch): (PoolState, TryAcquireResult) {
    if s.active < s.max then
      (s.(active := s.active + 1), Acquired)
    else if |s.queue| >= s.maxQueueDepth then
      (s, QueueFull(|s.queue|))
    else
      var queue := s.queue + multiset{QueueItem(s.seqNo, dispatch)};
      (s.(seqNo := (s.seqNo + 1) % TWO_TO_THE_64, queue := queue), Queued(|queue|))
  }

  /** `wait_next` can hand something out. */
  predicate CanHandOut(s: PoolState) {
    s.active < s.max && |s.queue| > 0
  }

  /** The critical section of `wait_next`: it hands out an item of least turn and takes a slot, or changes nothing. */
  ghost predicate CheckOutcome(s: PoolState, s': PoolState, item: Option<QueueItem>) {
    match item
    case None => !CanHandOut(s) && s' == s
    case Some(x) =>
      && CanHandOut(s) && IsNext(s.queue, x)
      && s' == s.(active := s.active + 1, queue := s.queue - multiset{x})
  }

  /** The critical section of `release`. */
  function ReleaseOutcome(s: PoolState): PoolState {
    if s.active > 0 then s.(active := s.active - 1) else s
  }

  lemma OutcomesKeepLimits(s: PoolState, dispatch: QueuedDispatch, s': PoolState, item: Option<QueueItem>)
    requires WithinLimits(s)
    ensures WithinLimits(TryAcquireOutcome(s, dispatch).0)
    ensures WithinLimits(ReleaseOutcome(s))
    ensures CheckOutcome(s, s', item) ==> WithinLimits(s')
  {
    if CheckOutcome(s, s', item) && item.Some? {
      assert |s.queue - multiset{item.value}| <= |s.queue|;
    }
  }

  /**
   What the caller is told: a permit exactly when a slot is free, otherwise the queue's current depth, counting the
   caller's own dispatch when it was queued, and a refusal exactly when neither slot nor room is left. A caller gets past
   queued dispatches exactly when `wait_next` could hand one of them out.
   */
  lemma TryAcquireReports(s: PoolState, dispatch: QueuedDispatch)
    requires WithinLimits(s)
    ensures var (s', result) := TryAcquireOutcome(s, dispatch);
            match result
            case Acquired => s.active < s.max && s'.active == s.active + 1 && s'.queue == s.queue
            case Queued(depth) =>
              s.active == s.max && s'.active == s.max && depth == |s'.queue| == |s.queue| + 1 <= s.maxQueueDepth
              && exists item: QueueItem :: item.dispatch == dispatch && s'.queue == s.queue + multiset{item}
            case QueueFull(depth) => s.active == s.max && s' == s && depth == |s.queue| == s.maxQueueDepth
    ensures TryAcquireOutcome(s, dispatch).1.Acquired? && |s.queue| > 0 <==> CanHandOut(s)
  {
    var item := QueueItem(s.seqNo, dispatch);
    assert item.dispatch == dispatch;
  }

  /** With distinct sequence numbers what is handed out is determined by what is queued. */
  lemma HandOutIsDetermined(s: PoolState, s1: PoolState, s2: PoolState, i1: Option<QueueItem>, i2: Option<QueueItem>)
    requires DistinctSeqs(s.queue)
    requires CheckOutcome(s, s1, i1) && CheckOutcome(s, s2, i2)
    ensures i1 == i2 && s1 == s2
  {
    if i1.Some? && i2.Some? {
      CmpReversesTurn(i1.value, i2.value);
      CmpAgreesWithEq(s.queue, i1.value, i2.value);
    }
  }

  lemma PoppedIsHandedOut(s: PoolState, x: QueueItem)
    requires s.active < s.max && IsNext(s.queue, x)
    ensures CheckOutcome(s, s.(active := s.active + 1, queue := s.queue - multiset{x}), Some(x))
  {
    assert s.queue == multiset{x} + (s.queue - multiset{x});
  }

  /** `wait_next` never leaves a more urgent item behind, nor an earlier one of the same priority. */
  lemma HandOutIsMostUrgent(s: PoolState, s': PoolState, x: QueueItem)
    requires CheckOutcome(s, s', Some(x))
    ensures IsMostUrgent(s.queue, x)
  {
    NextIsMostUrgent(s.queue, x);
  }

  class DispatchPool {
    const max: u64
    const maxQueueDepth: u64
    var active: u64
    var seqNo: u64
    const queue: DispatchHeap

    ghost predicate Valid()
      reads this, queue, queue.items
    {
      && queue.Valid()
      && queue.items.Length == maxQueueDepth
      && active <= max
    }

    ghost function Contents(): PoolState
      reads this, queue, queue.items
      requires Valid()
    {
      PoolState(max, maxQueueDepth, active, seqNo, queue.Queue())
    }

    constructor WithQueueLimit(max: u64, maxQueueDepth: u64)
      ensures Valid() && fresh(queue) && fresh(queue.items)
      ensures Contents() == EmptyPool(max, maxQueueDepth)
    {
      this.max := max;
      this.maxQueueDepth := maxQueueDepth;
      active := 0;
      seqNo := 0;
      queue := new DispatchHeap(maxQueueDepth);
    }

    /** A pool with the default queue limit. */
    static method New(max: u64) returns (pool: DispatchPool)
      ensures fresh(pool) && fresh(pool.queue) && fresh(pool.queue.items) && pool.Valid()
      ensures pool.Contents() == EmptyPool(max, 32)
    {
      pool := new DispatchPool.WithQueueLimit(max, 32);
    }

    method TryAcquire(dispatch: QueuedDispatch) returns (result: TryAcquireResult)
      requires Valid()
      modifies this, queue, queue.items
      ensures Valid()
      ensures (Contents(), result) == TryAcquireOutcome(old(Contents()), dispatch)
    {
      hide Heaped;
      ghost var before := Contents();
      assert |before.queue| == queue.len;
      if active < max {
        active := active + 1;
        return Acquired;
      }
      if queue.len >= maxQueueDepth {
        return QueueFull(queue.len);
      }
      var item := QueueItem(seqNo, dispatch);
      seqNo := (seqNo + 1) % TWO_TO_THE_64;
      queue.Push(item);
      return Queued(queue.len);
    }

    /** One pass of the loop in `wait_next` while it holds the lock. */
    method CheckNext() returns (dispatch: Option<QueuedDispatch>, ghost item: Option<QueueItem>)
      requires Valid()
      modifies this, queue, queue.items
      ensures Valid()
      ensures CheckOutcome(old(Contents()), Contents(), item)
      ensures dispatch == if item.Some? then Some(item.value.dispatch) else None
      ensures item.Some? ==> IsMostUrgent(old(Contents()).queue, item.value)
    {
      hide Heaped, IsNext, IsMostUrgent;
      ghost var before := Contents();
      assert |before.queue| == queue.len;
      dispatch, item := None, None;
      if active < max {
        var top := queue.Pop();
        if top.Some? {
          active := active + 1;
          dispatch, item := Some(top.value.dispatch), top;
          PoppedIsHandedOut(before, top.value);
          NextIsMostUrgent(before.queue, top.value);
          assert Contents() == before.(active := before.active + 1, queue := before.queue - multiset{top.value});
        }
      }
    }

    method Release()
      requires Valid()
      modifies this
      ensures Valid()
      ensures Contents() == ReleaseOutcome(old(Contents()))
    {
      if active > 0 {
        active := active - 1;
      }
    }

    method State() returns (max: nat, active: nat, queued: nat, depth: nat)
      requires Valid()
      ensures max == Contents().max && active == Contents().active
      ensures queued == |Contents().queue| && depth == Contents().maxQueueDepth
    {
      max, active, queued, depth := this.max, this.active, queue.len, maxQueueDepth;
    }
  }

  /** A permit holds its pool until the pool is taken out of it. */
  class DispatchPermit {
    var pool: DispatchPool?

    constructor (pool: DispatchPool)
      ensures this.pool == pool
    {
      this.pool := pool;
    }

    /** `self.pool.take()`: the permit is spent before anything is awaited. */
    method Take() returns (taken: DispatchPool?)
      modifies this
      ensures taken == old(pool) && pool == null
    {
      taken := pool;
      pool := null;
    }

    /** `Drop`: the pool is taken, and a release is spawned only inside a runtime. */
    method Drop(insideRuntime: bool) returns (spawned: DispatchPool?)
      modifies this
      ensures pool == null
      ensures spawned == if insideRuntime then old(pool) else null
    {
      var taken := Take();
      spawned := if insideRuntime then taken else null;
    }

    /** `release(self)` run to its end: the slot goes back once, and the drop that follows finds no pool. */
    method Release(insideRuntime: bool)
      requires pool != null && pool.Valid()
      modifies this, pool
      ensures pool == null
      ensures old(pool).Valid()
      ensures old(pool).Contents() == ReleaseOutcome(old(pool.Contents()))
    {
      var taken := Take();
      taken.Release();
      var spawned := Drop(insideRuntime);
      assert spawned == null;
    }
  }
}
