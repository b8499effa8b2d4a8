/**
 The order in which queued dispatches leave the pool: the comparator of `QueueItem`
 and the sorted queue it describes.
 */
module DispatchOrder {
  import opened Wrappers

  datatype Priority = P0 | P1 | P2 | P3

  datatype QueuedDispatch = QueuedDispatch(taskId: nat, priority: Priority)

  datatype QueueItem = QueueItem(seqNo: u64, dispatch: QueuedDispatch)

  datatype Ordering = Less | Equal | Greater
  {
    function Then(next: Ordering): Ordering {
      if this == Equal then next else this
    }

    function Reverse(): Ordering {
      match this
      case Less => Greater
      case Equal => Equal
      case Greater => Less
    }
  }

  function Rank(priority: Priority): nat {
    match priority
    case P0 => 0
    case P1 => 1
    case P2 => 2
    case P3 => 3
  }

  function CompareInt(a: int, b: int): Ordering {
    if a < b then Less else if a == b then Equal else Greater
  }

  /** The comparator handed to the max-heap: both keys are compared in reverse. */
  function Cmp(self: QueueItem, other: QueueItem): Ordering {
    var a := Rank(self.dispatch.priority);
    var b := Rank(other.dispatch.priority);
    CompareInt(b, a).Then(CompareInt(other.seqNo, self.seqNo))
  }

  /** `PartialEq` for `QueueItem`: by sequence number alone. */
  predicate Eq(self: QueueItem, other: QueueItem) {
    self.seqNo == other.seqNo
  }

  /** `(rank, seq)` read as one number: the smaller, the sooner the item leaves. */
  function Turn(item: QueueItem): nat {
    Rank(item.dispatch.priority) * TWO_TO_THE_64 + item.seqNo
  }

  /** The comparator is the reversed order of turns, so the heap's maximum is the least turn. */
  lemma CmpReversesTurn(x: QueueItem, y: QueueItem)
    ensures Cmp(x, y) == CompareInt(Turn(y), Turn(x))
  {
    var a, b := Rank(x.dispatch.priority), Rank(y.dispatch.priority);
    if a < b {
      assert Turn(x) < Turn(y);
    } else if b < a {
      assert Turn(y) < Turn(x);
    }
  }

  /** A lawful total order: reversing the arguments reverses the answer, and it is transitive. */
  lemma CmpIsTotalOrder(x: QueueItem, y: QueueItem, z: QueueItem)
    ensures Cmp(x, x) == Equal
    ensures Cmp(y, x) == Cmp(x, y).Reverse()
    ensures Cmp(x, y) != Greater && Cmp(y, z) != Greater ==> Cmp(x, z) != Greater
    ensures Cmp(x, y) == Equal <==> Rank(x.dispatch.priority) == Rank(y.dispatch.priority) && Eq(x, y)
  {
    CmpReversesTurn(x, y);
    CmpReversesTurn(y, x);
    CmpReversesTurn(y, z);
    CmpReversesTurn(x, z);
  }

  /** No two queued items carry the same sequence number. */
  ghost predicate DistinctSeqs(queue: multiset<QueueItem>) {
    && (forall x :: x in queue ==> queue[x] == 1)
    && (forall x, y :: x in queue && y in queue && x.seqNo == y.seqNo ==> x == y)
  }

  /** On such a queue the comparator and `eq` agree, as the `Ord` contract demands. */
  lemma CmpAgreesWithEq(queue: multiset<QueueItem>, x: QueueItem, y: QueueItem)
    requires DistinctSeqs(queue) && x in queue && y in queue
    ensures Cmp(x, y) == Equal <==> Eq(x, y)
    ensures Cmp(x, y) == Equal <==> x == y
  {
    CmpIsTotalOrder(x, y, x);
  }

  /** `item` is queued and nothing queued has an earlier turn. */
  ghost predicate IsNext(queue: multiset<QueueItem>, item: QueueItem) {
    item in queue && forall y :: y in queue ==> Turn(item) <= Turn(y)
  }

  /** P0 goes before P1, P1 before P2, and P2 before P3. */
  predicate IsMoreUrgent(p: Priority, q: Priority) {
    match p
    case P0 => q != P0
    case P1 => q == P2 || q == P3
    case P2 => q == P3
    case P3 => false
  }

  /** Nothing queued is more urgent than `x`, and nothing as urgent has a smaller number. */
  ghost predicate IsMostUrgent(queue: multiset<QueueItem>, x: QueueItem) {
    x in queue && forall y :: y in queue ==>
      && !IsMoreUrgent(y.dispatch.priority, x.dispatch.priority)
      && (y.dispatch.priority == x.dispatch.priority ==> x.seqNo <= y.seqNo)
  }

  /** What the order is for: the least turn is the most urgent item. */
  lemma NextIsMostUrgent(queue: multiset<QueueItem>, x: QueueItem)
    ensures IsNext(queue, x) <==> IsMostUrgent(queue, x)
  {
    hide Turn;
    forall y: QueueItem
      ensures Turn(x) <= Turn(y) <==>
              && !IsMoreUrgent(y.dispatch.priority, x.dispatch.priority)
              && (y.dispatch.priority == x.dispatch.priority ==> x.seqNo <= y.seqNo)
    {
      TurnIsUrgency(x, y);
    }
  }

  lemma TurnIsUrgency(x: QueueItem, y: QueueItem)
    ensures Turn(x) <= Turn(y) <==>
            && !IsMoreUrgent(y.dispatch.priority, x.dispatch.priority)
            && (y.dispatch.priority == x.dispatch.priority ==> x.seqNo <= y.seqNo)
  {
  }

  /** The comparator in the same terms: the greater item is the more urgent one, or the earlier of equals. */
  lemma CmpIsUrgency(x: QueueItem, y: QueueItem)
    ensures Cmp(x, y) == Greater <==>
            || IsMoreUrgent(x.dispatch.priority, y.dispatch.priority)
            || (x.dispatch.priority == y.dispatch.priority && x.seqNo < y.seqNo)
  {
  }

  ghost predicate SortedByTurn(s: seq<QueueItem>) {
    forall i, j :: 0 <= i < j < |s| ==> Turn(s[i]) <= Turn(s[j])
  }

  /** The reference queue: a sorted sequence, filled by insertion and emptied from the front. */
  function Insert(s: seq<QueueItem>, x: QueueItem): seq<QueueItem> {
    if s == [] || Turn(x) < Turn(s[0]) then [x] + s else [s[0]] + Insert(s[1..], x)
  }

  lemma {:induction false} InsertedFrom(s: seq<QueueItem>, x: QueueItem, j: nat)
    requires j < |Insert(s, x)|
    ensures Insert(s, x)[j] == x || Insert(s, x)[j] in s
  {
    hide Turn;
    if s != [] && Turn(s[0]) <= Turn(x) && j > 0 {
      InsertedFrom(s[1..], x, j - 1);
    }
  }

  lemma {:induction false} InsertKeepsSorted(s: seq<QueueItem>, x: QueueItem)
    requires SortedByTurn(s)
    ensures SortedByTurn(Insert(s, x))
  {
    hide Turn;
    if s != [] && Turn(s[0]) <= Turn(x) {
      var rest := Insert(s[1..], x);
      InsertKeepsSorted(s[1..], x);
      forall j | 0 <= j < |rest| ensures Turn(s[0]) <= Turn(rest[j]) {
        InsertedFrom(s[1..], x, j);
      }
      LeastInFront(s[0], rest);
    }
  }

  lemma LeastInFront(x: QueueItem, s: seq<QueueItem>)
    requires SortedByTurn(s) && forall j :: 0 <= j < |s| ==> Turn(x) <= Turn(s[j])
    ensures SortedByTurn([x] + s)
  {
    hide Turn;
  }

  lemma {:induction false} InsertAddsItem(s: seq<QueueItem>, x: QueueItem)
    ensures multiset(Insert(s, x)) == multiset(s) + multiset{x}
  {
    if s != [] && Turn(s[0]) <= Turn(x) {
      InsertAddsItem(s[1..], x);
      assert s == [s[0]] + s[1..];
    }
  }

  /** Taking any next item from the unordered queue takes the front of the sorted one. */
  lemma NextIsFront(s: seq<QueueItem>, item: QueueItem)
    requires SortedByTurn(s) && DistinctSeqs(multiset(s)) && IsNext(multiset(s), item)
    ensures s != [] && item == s[0]
    ensures multiset(s[1..]) == multiset(s) - multiset{item}
  {
    assert item in s && s[0] in multiset(s);
    assert Turn(item) == Turn(s[0]);
    CmpReversesTurn(item, s[0]);
    CmpAgreesWithEq(multiset(s), item, s[0]);
    assert s == [s[0]] + s[1..];
  }
}
