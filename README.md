# Scheduler job queue (quartz/queue.go) in Dafny

The scheduler keeps its pending jobs in `PriorityQueue`, a Go slice of
`*Item`. Each item carries a job, its trigger, a `priority` (the next run
time, an `int64`) and an `index` (the item's own slot, or -1 once popped).
The slice implements Go's `heap.Interface` (`Len`, `Less`, `Swap`, `Push`,
`Pop`). On top of that it offers `Head`, a peek at slot 0, and `Update`,
which rewrites an item's next run time and calls `heap.Fix`.

The model has two modules.

- `HeapOrder` (heap_order.dfy) is the ordering side, on the sequence of
  keys read slot by slot.
  - `Parent` is container/heap's parent slot `(j - 1) / 2`, with Go's
    truncating division.
  - `IsHeap` is the min-heap order.
  - It also has the intermediate states of sift-up and sift-down, and one
    lemma per sift step that shows the step keeps that state.
- `Quartz` (queue.dfy) is the queue itself.
  - `Item` is a class with mutable `priority` and `index`.
  - `PriorityQueue` is a class whose `items` field is the slice. It also
    has two ghost fields: `keys`, the next run time in each slot, and
    `Repr`, the set of resident items.
  - `Linked()` is index consistency: every slot holds a resident item that
    records that slot and whose priority is the slot's key, and every
    resident item sits at `items[item.index]`.
  - `Valid()` is `Linked()` together with the min-heap order on `keys`.
  - `Len`, `Less`, `Swap`, `Push`, `Pop`, `Head` and `Update` are the
    queue's own operations.
  - `Up`, `Down`, `Fix`, `HeapPush` and `HeapPop` are container/heap's
    drivers (`up`, `down`, `Fix`, `Push`, `Pop`). They are written over
    the interface methods, loop for loop as in the Go standard library:
    `Fix` sifts down first and, if the item did not move, sifts up, and
    comparisons use `Less` strictly.

`Update` does not check that the item is still queued. For a popped item
(index -1) it writes the priority and calls `heap.Fix(pq, -1)`, which does
nothing. The model therefore accepts any slot on which `heap.Fix` does not
panic: -1, a slot in the queue, or 0 on an empty queue. For an item that is
not resident it proves that only the priority changes and the slots stay as
they were.

## Model

| member | source | states |
|---|---|---|
| Quartz.Item.constructor | quartz/queue.go:6-11 | a new item holds the given job, trigger and next run time, and `index` starts at Go's zero value |
| Quartz.PriorityQueue.constructor | quartz/queue.go:13-14 | the empty slice is a valid queue with no resident items |
| Quartz.PriorityQueue.ResidentsOccupySlots | quartz/queue.go:10 | with consistent indices, an item is resident exactly when it occupies a slot |
| Quartz.PriorityQueue.ResidentCount | quartz/queue.go:10 | with consistent indices, no item occupies two slots, so there are exactly as many resident items as slots |
| Quartz.PriorityQueue.Len | quartz/queue.go:16-17 | the length is the number of slots and, with consistent indices, the number of queued items |
| Quartz.PriorityQueue.Less | quartz/queue.go:19-22 | on a linked queue, slot `i` is less than slot `j` exactly when its next run time is strictly earlier; priority alone decides, with no tie-break |
| Quartz.PriorityQueue.Swap | quartz/queue.go:24-29 | slots `i` and `j` are exchanged, both moved items record their new slots, every other slot is unchanged, the keys are exchanged the same way and index consistency is kept |
| Quartz.PriorityQueue.Push | quartz/queue.go:31-38 | `x` is appended at slot `Len()` and records that slot; the old slots are unchanged; a new item keeps index consistency |
| Quartz.PriorityQueue.Pop | quartz/queue.go:40-49 | the last slot's item is returned with `index` -1 and is no longer resident; the other slots are unchanged and index consistency is kept |
| Quartz.PriorityQueue.Head | quartz/queue.go:51-54 | returns slot 0, and on a valid queue no resident item runs earlier |
| Quartz.PriorityQueue.Update | quartz/queue.go:56-60 | the item's priority becomes `nextRunTime`; heap order and index consistency hold again; the queue holds the same items; a non-resident item leaves every slot as it was |
| Quartz.Up | quartz/queue.go:59 | sift-up from a slot `j` where every edge except the one above `j` is ordered and `j`'s parent is no larger than `j`'s children ends in a heap, and does not move anything on a heap |
| Quartz.Down | quartz/queue.go:59 | sift-down within the first `n` slots keeps the slots from `n` on; if the item moved, the prefix is a heap; if not, the queue is untouched and only the edge above the start may be out of order; on a heap it never moves |
| Quartz.Fix | quartz/queue.go:59 | after the key at one slot changed, sift-down and then, if needed, sift-up restore the heap, and `Fix` on a heap moves nothing |
| Quartz.HeapPush | quartz/queue.go:31-38 | pushing a new item onto a valid queue and sifting it up gives a valid queue with that item resident and one more slot |
| Quartz.HeapPop | quartz/queue.go:40-49 | the popped item is the old root and no resident item ran earlier; it is marked -1, it is no longer resident, and the rest is a valid queue one slot shorter |
| HeapOrder.Parent | quartz/queue.go:59 | every slot above 0 has a parent below it that has it as its left or right child; slots 0 and -1 are their own parents, as Go's truncating division gives |
| HeapOrder.Swapped | quartz/queue.go:26 | exchanging two slots moves those two keys and keeps all the others |
| HeapOrder.EdgesAll | quartz/queue.go:13 | the slot-by-slot heap state says that every edge below `n` satisfies the edge condition |
| HeapOrder.HeapOrderIsParentOrder | quartz/queue.go:13 | `IsHeap` is exactly "every parent's next run time is no later than its child's" |
| HeapOrder.OutOfOrder | quartz/queue.go:59 | a child that runs earlier than its parent means the prefix is not a heap |
| HeapOrder.RootIsMinimum | quartz/queue.go:51-54 | in a heap, slot 0 holds the smallest key |
| HeapOrder.ChangeKey | quartz/queue.go:57-59 | rewriting one key of a heap leaves exactly the state `Fix` needs at that slot |
| HeapOrder.HeapIsDownReady | quartz/queue.go:59 | an unchanged heap is a valid start for `Fix` at any slot, including -1 |
| HeapOrder.UpStep | quartz/queue.go:59 | one swap of sift-up carries that state from `j` to its parent: afterwards every edge except the one above the parent is ordered and the parent's parent is no larger than the parent's new children; where the step is taken, the prefix was not a heap |
| HeapOrder.UpDone | quartz/queue.go:59 | sift-up that stops at the root or at a parent that is no larger leaves a heap |
| HeapOrder.DownStep | quartz/queue.go:59 | swapping with the smaller child that runs strictly earlier moves the out-of-order edges one level down; where the step is taken, the prefix was not a heap |
| HeapOrder.DownDone | quartz/queue.go:59 | sift-down that stops with no earlier child leaves a heap if the key moved, and otherwise the state sift-up expects |
| HeapOrder.PushReady | quartz/queue.go:33-38 | a heap with a key appended is the state sift-up expects at the new last slot |
| HeapOrder.PopReady | quartz/queue.go:42-49 | a heap whose root and last key are exchanged is, without its last slot, the state sift-down expects at the root |
| HeapOrder.PrefixIsHeap | quartz/queue.go:47 | when the first `n` slots are heap-ordered, cutting the slice to `n` slots gives a heap |

## Left out

- `Job` and `Trigger` are opaque type parameters. Computing next run times and running jobs lie outside the queue.
- The `interface{}` boxing and type assertion in `Push` and `Pop` are left out. `Push` takes an `Item` and `Pop` returns one.
- Go panics are modelled as preconditions, not as runtime errors. That covers indexing out of range in `Less`, `Swap`, `Pop` and `Head`, and `heap.Fix` on a slot outside -1 up to `Len()`.
- `append`'s memory growth and allocation failure are left out. The slice is a `seq` with unbounded capacity.
- The scheduler loop, its locking and its sleeping are not part of this model. They are concurrency and I/O outside queue.go.
- `heap.Init` and `heap.Remove` are not part of this model. The modelled container/heap drivers are the ones the queue's push, pop and update go through (`Push`, `Pop`, `Fix` and the `up` and `down` they use); building a heap from an arbitrary slice and removing from the middle lie outside that scope.
- `Item.index` is an unbounded `int`, not Go's platform-sized `int` (32 or 64 bits). A queue cannot hold enough items for the width to matter.
- Quartz.PriorityQueue.Swap: requires index consistency, although Go demands only in-range slots. The items it may re-index are the resident ones, and with aliased slots Go's promise that `pq[i].index == i` fails anyway.
- Quartz.PriorityQueue.Pop: requires index consistency, although Go demands only a non-empty slice. The ghost keys and resident set it maintains are defined only on a linked queue.
- Quartz.PriorityQueue.Update: requires a valid queue. That is the invariant every operation keeps, not a check the Go code makes.
- Quartz.PriorityQueue.Update: states that the queue holds the same items as a set. Together with index consistency, which makes the slots pairwise distinct, that is the same multiset.
- Quartz.HeapPush and Quartz.HeapPop: do not restate that other items' priorities and jobs are unchanged. Their `modifies` clauses already allow only slot indices to change.
