/**
 The min-queue behind both message schedulers: a binary heap ordered by due time, so that the
 top is an earliest item. Ties are left open: the contracts only say that the top is minimal.
 */
module PriorityQueues {

  datatype Item<T> = Item(data: T, time: real)

  predicate IsChild(i: int, parent: int) {
    0 <= parent && (i == 2 * parent + 1 || i == 2 * parent + 2)
  }

  ghost predicate IsHeap<T>(h: seq<Item<T>>) {
    forall p, i :: IsChild(i, p) && i < |h| ==> h[p].time <= h[i].time
  }

  // The children of `hole` are at least the parent of `hole`.
  ghost predicate Bridged<T>(h: seq<Item<T>>, hole: nat) {
    forall p, i :: IsChild(hole, p) && IsChild(i, hole) && i < |h| ==> h[p].time <= h[i].time
  }

  // A heap, except that `hole` may be earlier than its parent.
  ghost predicate IsHeapAbove<T>(h: seq<Item<T>>, hole: nat) {
    && (forall p, i :: IsChild(i, p) && i < |h| && i != hole ==> h[p].time <= h[i].time)
    && Bridged(h, hole)
  }

  // A heap, except that `hole` may be later than its children.
  ghost predicate IsHeapBelow<T>(h: seq<Item<T>>, hole: nat) {
    && (forall p, i :: IsChild(i, p) && i < |h| && p != hole ==> h[p].time <= h[i].time)
    && Bridged(h, hole)
  }

  // `x` is among the items, and none is due before it.
  ghost predicate Earliest<T>(items: multiset<Item<T>>, x: Item<T>) {
    x in items && forall y :: y in items ==> x.time <= y.time
  }

  lemma {:induction false} RootIsEarliest<T>(h: seq<Item<T>>, i: nat)
    requires IsHeap(h) && i < |h|
    ensures h[0].time <= h[i].time
  {
    if i > 0 {
      assert IsChild(i, (i - 1) / 2);
      RootIsEarliest(h, (i - 1) / 2);
    }
  }

  function Swap<T>(h: seq<T>, i: nat, j: nat): (r: seq<T>)
    requires i < |h| && j < |h|
    ensures multiset(r) == multiset(h)
  {
    h[i := h[j]][j := h[i]]
  }

  lemma SiftUpStep<T>(h: seq<Item<T>>, i: nat, parent: nat)
    requires IsChild(i, parent) && i < |h|
    requires IsHeapAbove(h, i) && h[i].time < h[parent].time
    ensures IsHeapAbove(Swap(h, i, parent), parent)
  {
  }

  lemma SiftUpDone<T>(h: seq<Item<T>>, i: nat)
    requires i < |h| && IsHeapAbove(h, i)
    requires i > 0 ==> h[(i - 1) / 2].time <= h[i].time
    ensures IsHeap(h)
  {
  }

  lemma SiftDownStep<T>(h: seq<Item<T>>, i: nat, child: nat)
    requires IsChild(child, i) && child < |h|
    requires IsHeapBelow(h, i) && h[child].time < h[i].time
    requires forall k :: IsChild(k, i) && k < |h| ==> h[child].time <= h[k].time
    ensures IsHeapBelow(Swap(h, i, child), child)
  {
  }

  class PriorityQueue<T> {
    var heap: seq<Item<T>>

    ghost predicate Valid()
      reads this
    {
      IsHeap(heap)
    }

    ghost function Items(): multiset<Item<T>>
      reads this
    {
      multiset(heap)
    }

    constructor ()
      ensures Valid() && Items() == multiset{}
    {
      heap := [];
    }

    predicate Empty()
      reads this
    {
      heap == []
    }

    function Top(): Item<T>
      requires heap != []
      reads this
    {
      heap[0]
    }

    lemma TopIsEarliest()
      requires Valid() && !Empty()
      ensures Earliest(Items(), Top())
    {
      forall y | y in Items() ensures Top().time <= y.time {
        var i :| 0 <= i < |heap| && heap[i] == y;
        RootIsEarliest(heap, i);
      }
    }

    method Push(x: Item<T>)
      requires Valid()
      modifies this
      ensures Valid() && Items() == old(Items()) + multiset{x}
    {
      var i := |heap|;
      heap := heap + [x];
      while i > 0 && heap[i].time < heap[(i - 1) / 2].time
        invariant 0 <= i < |heap|
        invariant Items() == old(Items()) + multiset{x}
        invariant IsHeapAbove(heap, i)
      {
        var parent := (i - 1) / 2;
        assert IsChild(i, parent);
        SiftUpStep(heap, i, parent);
        heap := Swap(heap, i, parent);
        i := parent;
      }
      SiftUpDone(heap, i);
    }

    method Pop()
      requires Valid() && !Empty()
      modifies this
      ensures Valid() && Items() == old(Items()) - multiset{old(Top())}
    {
      var last := heap[|heap| - 1];
      assert heap == heap[..|heap| - 1] + [last];
      if |heap| == 1 {
        heap := [];
      } else {
        var rest := heap[1..|heap| - 1];
        assert heap == [heap[0]] + rest + [last];
        heap := [last] + rest;
        assert forall i :: 1 <= i < |heap| ==> heap[i] == old(heap)[i];
        SiftDown();
      }
    }

    method SiftDown()
      requires heap != [] && IsHeapBelow(heap, 0)
      modifies this
      ensures Valid() && Items() == old(Items())
    {
      var i := 0;
      while 2 * i + 1 < |heap|
        invariant 0 <= i < |heap|
        invariant Items() == old(Items())
        invariant IsHeapBelow(heap, i)
        decreases |heap| - i
      {
        var child := 2 * i + 1;
        if child + 1 < |heap| && heap[child + 1].time < heap[child].time {
          child := child + 1;
        }
        if heap[i].time <= heap[child].time {
          return;
        }
        SiftDownStep(heap, i, child);
        heap := Swap(heap, i, child);
        i := child;
      }
    }
  }
}
