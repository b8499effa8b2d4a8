/** The pool's priority queue as a binary heap kept in place in an array. */
module DispatchHeaps {
  import opened Wrappers
  import opened DispatchOrder

  function Parent(i: nat): nat
    requires 0 < i
  {
    (i - 1) / 2
  }

  /** No item leaves before its parent. */
  ghost predicate Heaped(s: seq<QueueItem>) {
    forall i :: 0 < i < |s| ==> Turn(s[Parent(i)]) <= Turn(s[i])
  }

  /** A heap whose one doubtful edge is the one above `k`. */
  ghost predicate HeapedAbove(s: seq<QueueItem>, k: nat) {
    && (forall i :: 0 < i < |s| && i != k ==> Turn(s[Parent(i)]) <= Turn(s[i]))
    && (forall i :: 0 < i < |s| && 0 < k && Parent(i) == k ==> Turn(s[Parent(k)]) <= Turn(s[i]))
  }

  /** A heap whose doubtful edges are those below `k`. */
  ghost predicate HeapedBelow(s: seq<QueueItem>, k: nat) {
    && (forall i :: 0 < i < |s| && Parent(i) != k ==> Turn(s[Parent(i)]) <= Turn(s[i]))
    && (forall i :: 0 < i < |s| && 0 < k < |s| && Parent(i) == k ==> Turn(s[Parent(k)]) <= Turn(s[i]))
  }

  lemma {:induction false} RootIsLeast(s: seq<QueueItem>, i: nat)
    requires Heaped(s) && i < |s|
    ensures Turn(s[0]) <= Turn(s[i])
  {
    if i > 0 {
      RootIsLeast(s, Parent(i));
    }
  }

  /** The root of a heap is next in line. */
  lemma RootIsNext(s: seq<QueueItem>)
    requires Heaped(s) && s != []
    ensures IsNext(multiset(s), s[0])
  {
    forall y | y in multiset(s) ensures Turn(s[0]) <= Turn(y) {
      var i :| 0 <= i < |s| && s[i] == y;
      RootIsLeast(s, i);
    }
  }

  function Swapped(s: seq<QueueItem>, i: nat, j: nat): seq<QueueItem>
    requires i < |s| && j < |s|
  {
    s[i := s[j]][j := s[i]]
  }

  lemma SwapMovesUp(s: seq<QueueItem>, k: nat)
    requires HeapedAbove(s, k) && 0 < k < |s| && Turn(s[k]) < Turn(s[Parent(k)])
    ensures HeapedAbove(Swapped(s, k, Parent(k)), Parent(k))
  {
    var p := Parent(k);
    var t := Swapped(s, k, p);
    forall i | 0 < i < |t| && i != p ensures Turn(t[Parent(i)]) <= Turn(t[i]) {
      if i != k && Parent(i) != k && Parent(i) != p {
        assert t[i] == s[i] && t[Parent(i)] == s[Parent(i)];
      }
    }
    if 0 < p {
      assert Turn(t[Parent(p)]) == Turn(s[Parent(p)]) <= Turn(s[p]);
    }
  }

  lemma SwapMovesDown(s: seq<QueueItem>, k: nat, child: nat)
    requires HeapedBelow(s, k) && k < child < |s| && Parent(child) == k
    requires Turn(s[child]) < Turn(s[k])
    requires forall i :: 0 < i < |s| && Parent(i) == k ==> Turn(s[child]) <= Turn(s[i])
    ensures HeapedBelow(Swapped(s, k, child), child)
  {
  }

  lemma NothingBelowInDoubt(s: seq<QueueItem>, k: nat, child: nat)
    requires HeapedBelow(s, k) && k < child < |s| && Turn(s[k]) <= Turn(s[child])
    requires forall i :: 0 < i < |s| && Parent(i) == k ==> Turn(s[child]) <= Turn(s[i])
    ensures Heaped(s)
  {
  }

  class DispatchHeap {
    const items: array<QueueItem>
    var len: nat

    ghost predicate Valid()
      reads this, items
    {
      len <= items.Length && Heaped(items[..len])
    }

    /** The queue the heap stands for. */
    ghost function Queue(): multiset<QueueItem>
      reads this, items
      requires len <= items.Length
    {
      multiset(items[..len])
    }

    constructor (capacity: nat)
      ensures Valid() && fresh(items) && items.Length == capacity
      ensures Queue() == multiset{}
    {
      items := new QueueItem[capacity];
      len := 0;
    }

    method Push(item: QueueItem)
      requires Valid() && len < items.Length
      modifies this, items
      ensures Valid() && len == old(len) + 1
      ensures Queue() == old(Queue()) + multiset{item}
    {
      ghost var before := items[..len];
      items[len] := item;
      len := len + 1;
      assert items[..len] == before + [item];
      SiftUp(len - 1);
    }

    method SiftUp(start: nat)
      requires start < len <= items.Length
      requires HeapedAbove(items[..len], start)
      modifies items
      ensures Valid()
      ensures Queue() == old(Queue())
    {
      var k: nat := start;
      while 0 < k && Cmp(items[k], items[Parent(k)]) == Greater
        invariant k < len && HeapedAbove(items[..len], k)
        invariant Queue() == old(Queue())
        decreases k
      {
        CmpReversesTurn(items[k], items[Parent(k)]);
        SwapMovesUp(items[..len], k);
        Swap(k, Parent(k));
        k := Parent(k);
      }
      if 0 < k {
        CmpReversesTurn(items[k], items[Parent(k)]);
      }
    }

    method Pop() returns (top: Option<QueueItem>)
      requires Valid()
      modifies this, items
      ensures Valid()
      ensures top.None? <==> old(len) == 0
      ensures top.None? ==> Queue() == old(Queue())
      ensures top.Some? ==> IsNext(old(Queue()), top.value) && Queue() == old(Queue()) - multiset{top.value}
    {
      if len == 0 {
        return None;
      }
      ghost var before := items[..len];
      RootIsNext(before);
      top := Some(items[0]);
      len := len - 1;
      items[0] := items[len];
      assert len > 0 ==> items[..len] == before[..len][0 := before[len]];
      RemoveRoot(before, items[..len]);
      SiftDown();
    }

    method SiftDown()
      requires len <= items.Length && HeapedBelow(items[..len], 0)
      modifies items
      ensures Valid()
      ensures Queue() == old(Queue())
    {
      var k: nat := 0;
      while 2 * k + 1 < len
        invariant HeapedBelow(items[..len], k)
        invariant Queue() == old(Queue())
        decreases len - k
      {
        var child := EarlierChild(k);
        CmpReversesTurn(items[child], items[k]);
        if Cmp(items[child], items[k]) != Greater {
          NothingBelowInDoubt(items[..len], k, child);
          return;
        }
        SwapMovesDown(items[..len], k, child);
        Swap(k, child);
        k := child;
      }
      assert forall i :: 0 < i < len ==> Parent(i) != k;
    }

    /** The child of `k` that leaves first. */
    method EarlierChild(k: nat) returns (child: nat)
      requires 2 * k + 1 < len <= items.Length
      ensures k < child < len && Parent(child) == k
      ensures forall i :: 0 < i < len && Parent(i) == k ==> Turn(items[child]) <= Turn(items[i])
    {
      child := 2 * k + 1;
      if child + 1 < len {
        CmpReversesTurn(items[child + 1], items[child]);
        if Cmp(items[child + 1], items[child]) == Greater {
          child := child + 1;
        }
      }
      forall i | 0 < i < len && Parent(i) == k ensures Turn(items[child]) <= Turn(items[i]) {
        assert i == 2 * k + 1 || i == 2 * k + 2;
      }
    }

    method Swap(i: nat, j: nat)
      requires i < len && j < len && len <= items.Length
      modifies items
      ensures items[..len] == Swapped(old(items[..len]), i, j)
      ensures Queue() == old(Queue())
    {
      ghost var before := items[..len];
      items[i], items[j] := items[j], items[i];
      assert items[..len] == Swapped(before, i, j);
      SwapKeepsItems(before, i, j);
    }
  }

  lemma SwapKeepsItems(s: seq<QueueItem>, i: nat, j: nat)
    requires i < |s| && j < |s|
    ensures multiset(Swapped(s, i, j)) == multiset(s)
  {
  }

  /** Moving the last item to the root takes the root away and leaves only the root's edges in doubt. */
  lemma RemoveRoot(before: seq<QueueItem>, after: seq<QueueItem>)
    requires Heaped(before) && |before| == |after| + 1
    requires after == [] || after == before[..|after|][0 := before[|after|]]
    ensures HeapedBelow(after, 0)
    ensures multiset(after) == multiset(before) - multiset{before[0]}
  {
    var n := |after|;
    assert before == before[..n] + [before[n]];
    if n == 0 {
      assert before == [before[0]];
    } else {
      assert before[..n] == [before[0]] + before[1..n];
      assert after == [before[n]] + before[1..n];
    }
  }
}
