/** The scheduler's time-ordered job queue (quartz/queue.go): a slice of
    shared `Item` objects kept as a binary min-heap on their next run times,
    with each item recording its own slot. Go's container/heap drivers that the
    queue relies on (`up`, `down`, `Fix`, `Push`, `Pop`) are written out after
    the class, over the queue's five interface methods. */
module Quartz {
  import opened HeapOrder

  /** Go's `int64`, the type of a next run time. */
  newtype Int64 = x: int | -0x8000_0000_0000_0000 <= x < 0x8000_0000_0000_0000

  /** A queued job. The queue never looks at `job` or `trigger`; it orders
      items by `priority` and owns `index`, the item's slot while resident
      and -1 once popped. */
  class Item<Job, Trigger> {
    var job: Job
    var trigger: Trigger
    var priority: Int64
    var index: int

    /** A fresh item, with `index` at Go's zero value. */
    constructor (job: Job, trigger: Trigger, priority: Int64)
      ensures this.job == job && this.trigger == trigger
      ensures this.priority == priority && index == 0
    {
      this.job := job;
      this.trigger := trigger;
      this.priority := priority;
      index := 0;
    }
  }

  class PriorityQueue<Job, Trigger> {
    /** The slots, slot 0 first. */
    var items: seq<Item<Job, Trigger>>
    /** The next run time in each slot. */
    ghost var keys: seq<int>
    /** The resident items. */
    ghost var Repr: set<Item<Job, Trigger>>

    /** Every slot holds a resident item that records that slot and whose next
        run time is the slot's key, and every resident item sits in the slot it
        records (`pq[item.index] == item`). */
    ghost predicate Linked()
      reads this, Repr
    {
      && |keys| == |items|
      && (forall k :: 0 <= k < |items| ==>
            items[k] in Repr && items[k].index == k && keys[k] == items[k].priority as int)
      && (forall x :: x in Repr ==> 0 <= x.index < |items|)
      && (forall x {:trigger items[x.index]} :: x in Repr ==> items[x.index] == x)
    }

    /** With linked slots, the resident items are exactly the items in the slots. */
    lemma ResidentsOccupySlots()
      requires Linked()
      ensures forall x :: x in Repr <==> x in items
    {
      forall x | x in Repr
        ensures x in items
      {
        assert items[x.index] == x;
      }
    }

    /** With linked slots, there are as many resident items as slots: no item
        occupies two slots. */
    lemma ResidentCount()
      ensures Linked() ==> |Repr| == |items|
    {
      if Linked() {
        ResidentsOccupySlots();
        assert Repr == set x | x in items;
        DistinctCount(items);
      }
    }

    /** The queue's invariant: linked slots in min-heap order. */
    ghost predicate Valid()
      reads this, Repr
    {
      Linked() && IsHeap(keys)
    }

    /** An empty queue. */
    constructor ()
      ensures Valid() && items == [] && Repr == {}
    {
      items := [];
      keys := [];
      Repr := {};
    }

    /** The number of queued items. */
    function Len(): (n: nat)
      reads this, Repr
      ensures n == |items|
      ensures Linked() ==> n == |Repr|
    {
      ResidentCount();
      |items|
    }

    /** Slot `i` runs strictly earlier than slot `j`; no tie-break. */
    function Less(i: int, j: int): (b: bool)
      requires 0 <= i < |items| && 0 <= j < |items|
      reads this, items, Repr
      ensures Linked() ==> (b <==> keys[i] < keys[j])
    {
      items[i].priority < items[j].priority
    }

    /** Exchanges slots `i` and `j` and re-records both items' slots. */
    method Swap(i: int, j: int)
      requires 0 <= i < |items| && 0 <= j < |items|
      requires Linked()
      modifies `items, `keys, Repr`index
      ensures items == old(items)[i := old(items[j])][j := old(items[i])]
      ensures keys == Swapped(old(keys), i, j)
      ensures Linked()
    {
      items := items[i := items[j]][j := items[i]];
      keys := Swapped(keys, i, j);
      items[i].index := i;
      items[j].index := j;
      forall x | x in Repr
        ensures 0 <= x.index < |items| && items[x.index] == x
      {
        assert old(items[x.index]) == x;
      }
    }

    /** Appends `x` at slot `Len()` and records that slot in it. */
    method Push(x: Item<Job, Trigger>)
      modifies `items, `keys, `Repr, x`index
      ensures items == old(items) + [x] && x.index == old(|items|)
      ensures keys == old(keys) + [x.priority as int] && Repr == old(Repr) + {x}
      ensures old(Linked()) && x !in old(Repr) ==> Linked()
    {
      var n := |items|;
      x.index := n;
      items := items + [x];
      keys := keys + [x.priority as int];
      Repr := Repr + {x};
      if old(Linked()) && x !in old(Repr) {
        forall y | y in old(Repr)
          ensures 0 <= y.index < |items| && items[y.index] == y
        {
          assert old(items[y.index]) == y;
        }
      }
    }

    /** Removes and returns the item in the last slot, marking it not resident. */
    method Pop() returns (x: Item<Job, Trigger>)
      requires |items| > 0 && Linked()
      modifies `items, `keys, `Repr, {items[|items| - 1]}`index
      ensures x == old(items[|items| - 1]) && x.index == -1
      ensures items == old(items[..|items| - 1]) && keys == old(keys[..|keys| - 1])
      ensures Repr == old(Repr) - {x} && Linked()
    {
      var n := |items|;
      x := items[n - 1];
      x.index := -1;
      items := items[..n - 1];
      keys := keys[..n - 1];
      Repr := Repr - {x};
      forall y | y in Repr
        ensures 0 <= y.index < |items| && items[y.index] == y
      {
        assert old(items[y.index]) == y;
      }
    }

    /** The item in slot 0, which in a heap is one with the earliest run time. */
    function Head(): (x: Item<Job, Trigger>)
      requires |items| > 0
      reads this, Repr
      ensures x == items[0]
      ensures Valid() ==> forall y :: y in Repr ==> x.priority <= y.priority
    {
      assert Valid() ==> forall y :: y in Repr ==> items[0].priority <= y.priority by {
        if Valid() {
          forall y | y in Repr
            ensures items[0].priority <= y.priority
          {
            RootIsMinimum(keys, y.index);
          }
        }
      }
      items[0]
    }

    /** Sets `item`'s next run time to `nextRunTime` and re-establishes the
        heap with `Fix` at the item's recorded slot. For an item no longer
        resident (slot -1) only the priority changes. */
    method Update(item: Item<Job, Trigger>, nextRunTime: Int64)
      requires Valid()
      requires -1 <= item.index < |items| || item.index == 0
      modifies `items, `keys, Repr`index, item`priority
      ensures item.priority == nextRunTime
      ensures Valid() && Repr == old(Repr) && |items| == old(|items|)
      ensures forall x :: x in items <==> x in old(items)
      ensures item !in Repr ==> items == old(items)
    {
      ResidentsOccupySlots();
      item.priority := nextRunTime;
      if item in Repr {
        ChangeKey(keys, item.index, nextRunTime as int);
        keys := keys[item.index := nextRunTime as int];
      } else {
        HeapIsDownReady(keys, |keys|, item.index);
      }
      Fix(this, item.index);
      ResidentsOccupySlots();
    }
  }

  /** A sequence whose elements are pairwise distinct has as many distinct
      elements as positions. */
  lemma {:induction false} DistinctCount<T>(s: seq<T>)
    requires forall i, j :: 0 <= i < j < |s| ==> s[i] != s[j]
    ensures |set x | x in s| == |s|
  {
    if s != [] {
      var t := s[..|s| - 1];
      DistinctCount(t);
      assert (set x | x in s) == (set x | x in t) + {s[|s| - 1]};
    }
  }

  /** container/heap's `up`: moves the item at slot `j0` towards the root
      while it runs strictly earlier than its parent. */
  method Up<Job, Trigger>(h: PriorityQueue<Job, Trigger>, j0: int)
    requires h.Linked()
    requires -1 <= j0 < |h.items| || j0 == 0
    requires HeapExceptUp(h.keys, |h.items|, j0)
    modifies h`items, h`keys, h.Repr`index
    ensures h.Linked() && IsHeap(h.keys) && |h.items| == old(|h.items|)
    ensures old(IsHeap(h.keys)) ==> h.items == old(h.items)
  {
    ghost var I0, K0 := h.items, h.keys;
    ghost var ks := K0;
    var j := j0;
    while true
      invariant h.Linked() && |h.items| == |I0| && ks == h.keys && |ks| == |I0|
      invariant -1 <= j < |h.items| || j == 0
      invariant HeapExceptUp(ks, |ks|, j)
      invariant j == j0 ==> h.items == I0 && ks == K0
      invariant IsHeap(K0) ==> j == j0
      decreases j
    {
      var i := Parent(j);
      if i == j || !h.Less(j, i) {
        UpDone(ks, |ks|, j);
        break;
      }
      UpStep(ks, |ks|, j);
      h.Swap(i, j);
      ks := Swapped(ks, i, j);
      j := i;
    }
  }

  /** container/heap's `down`: moves the item at slot `i0` away from the root,
      within the first `n` slots, while its earlier-running child runs
      strictly earlier than it. Reports whether the item moved. */
  method Down<Job, Trigger>(h: PriorityQueue<Job, Trigger>, i0: int, n: int) returns (moved: bool)
    requires h.Linked()
    requires -1 <= i0 && 0 <= n <= |h.items|
    requires HeapExceptDown(h.keys, n, i0, i0)
    modifies h`items, h`keys, h.Repr`index
    ensures h.Linked() && |h.items| == old(|h.items|)
    ensures forall k :: n <= k < |h.items| ==> h.items[k] == old(h.items[k])
    ensures moved ==> IsHeapPrefix(h.keys, n)
    ensures !moved ==> h.items == old(h.items) && HeapExceptUp(h.keys, n, i0)
    ensures old(IsHeapPrefix(h.keys, n)) ==> !moved
  {
    ghost var I0, K0 := h.items, h.keys;
    ghost var ks := K0;
    var i := i0;
    while true
      invariant h.Linked() && |h.items| == |I0| && ks == h.keys && |ks| == |I0|
      invariant forall k :: n <= k < |h.items| ==> h.items[k] == I0[k]
      invariant i0 <= i
      invariant HeapExceptDown(ks, n, i, i0)
      invariant i == i0 ==> h.items == I0 && ks == K0
      invariant IsHeapPrefix(K0, n) ==> i == i0
      decreases n - i
    {
      var j1 := 2 * i + 1;
      if j1 >= n || j1 < 0 {
        DownDone(ks, n, i, i0);
        break;
      }
      var j := j1;
      var j2 := j1 + 1;
      if j2 < n && h.Less(j2, j1) {
        j := j2;
      }
      if !h.Less(j, i) {
        DownDone(ks, n, i, i0);
        break;
      }
      DownStep(ks, n, i, i0, j);
      h.Swap(i, j);
      ks := Swapped(ks, i, j);
      i := j;
    }
    moved := i > i0;
  }

  /** container/heap's `Fix`: re-establishes the heap after the key at slot
      `i` changed, sifting down first and, if the item did not move, up. */
  method Fix<Job, Trigger>(h: PriorityQueue<Job, Trigger>, i: int)
    requires h.Linked()
    requires -1 <= i < |h.items| || i == 0
    requires HeapExceptDown(h.keys, |h.items|, i, i)
    modifies h`items, h`keys, h.Repr`index
    ensures h.Valid() && |h.items| == old(|h.items|)
    ensures old(IsHeap(h.keys)) ==> h.items == old(h.items)
  {
    var moved := Down(h, i, h.Len());
    if !moved {
      assert old(IsHeap(h.keys)) ==> h.keys == old(h.keys);
      Up(h, i);
    }
  }

  /** container/heap's `Push`: queues `x` and sifts it up from the last slot. */
  method HeapPush<Job, Trigger>(h: PriorityQueue<Job, Trigger>, x: Item<Job, Trigger>)
    requires h.Valid() && x !in h.Repr
    modifies h`items, h`keys, h`Repr, h.Repr`index, x`index
    ensures h.Valid() && h.Repr == old(h.Repr) + {x} && |h.items| == old(|h.items|) + 1
  {
    PushReady(h.keys, x.priority as int);
    h.Push(x);
    Up(h, h.Len() - 1);
  }

  /** container/heap's `Pop`: moves the root to the last slot, sifts the new
      root down over the other slots and pops the last slot, returning an
      item with the earliest run time. */
  method HeapPop<Job, Trigger>(h: PriorityQueue<Job, Trigger>) returns (x: Item<Job, Trigger>)
    requires h.Valid() && |h.items| > 0
    modifies h`items, h`keys, h`Repr, h.Repr`index
    ensures x == old(h.items[0]) && x.index == -1
    ensures forall y :: y in old(h.Repr) ==> x.priority <= y.priority
    ensures h.Linked()
    ensures IsHeap(h.keys)
    ensures h.Repr == old(h.Repr) - {x}
    ensures |h.items| == old(|h.items|) - 1
  {
    forall y | y in h.Repr
      ensures h.items[0].priority <= y.priority
    {
      RootIsMinimum(h.keys, y.index);
    }
    var n := h.Len() - 1;
    PopReady(h.keys);
    h.Swap(0, n);
    var moved := Down(h, 0, n);
    if !moved {
      UpDone(h.keys, n, 0);
    }
    PrefixIsHeap(h.keys, n);
    ghost var rest := h.keys[..n];
    x := h.Pop();
    assert h.keys == rest;
  }
}
