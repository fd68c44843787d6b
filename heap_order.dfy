/** The ordering side of the scheduler's job queue, on the sequence of keys
    (next run times) read slot by slot. This is the order that Go's
    container/heap keeps, and what every sift step of it preserves. */
module HeapOrder {

  /** The parent slot of `j` as container/heap computes it: `(j - 1) / 2`
      with Go's division, which truncates toward zero. So slots 0 and -1 are
      their own parents, which is what stops the sift-up loop. */
  function Parent(j: int): (p: int)
    ensures 0 < j ==> 0 <= p < j && (j == 2 * p + 1 || j == 2 * p + 2)
    ensures -1 <= j <= 0 ==> p == j
  {
    if j >= 1 then (j - 1) / 2 else -((1 - j) / 2)
  }

  /** `s` with slots `i` and `j` exchanged. */
  function Swapped(s: seq<int>, i: int, j: int): (r: seq<int>)
    requires 0 <= i < |s| && 0 <= j < |s|
    ensures |r| == |s| && r[i] == s[j] && r[j] == s[i]
    ensures forall k :: 0 <= k < |s| && k != i && k != j ==> r[k] == s[k]
  {
    s[i := s[j]][j := s[i]]
  }

  /** How far a sift has got: nothing is moving, a key is moving up and sits
      at slot `j`, or a key that started at slot `i0` is moving down and sits
      at slot `i`. */
  datatype Sift = Settled | SiftingUp(j: int) | SiftingDown(i: int, i0: int)

  /** The edge from slot `c` up to its parent is as ordered as the sift state
      requires. Settled: the parent's key is no larger. Sifting up at `j`: all
      edges but the one above `j` are ordered, and `j`'s parent is no larger
      than `j`'s children, so that swapping `j` upwards keeps the edges below
      it. Sifting down at `i`: all edges but those below `i` are ordered, and
      so is the one above `i` once the key has moved (`i != i0`); `i`'s parent
      is no larger than `i`'s children. */
  ghost predicate EdgeHolds(s: seq<int>, c: int, st: Sift)
    requires 0 < c < |s|
  {
    match st
    case Settled => s[Parent(c)] <= s[c]
    case SiftingUp(j) =>
      && (c != j ==> s[Parent(c)] <= s[c])
      && (Parent(c) == j && 0 < j ==> s[Parent(j)] <= s[c])
    case SiftingDown(i, i0) =>
      && (Parent(c) != i && (c != i || i != i0) ==> s[Parent(c)] <= s[c])
      && (Parent(c) == i && 0 < i ==> s[Parent(i)] <= s[c])
  }

  /** Every edge below slot `n` holds in sift state `st`, stated slot by slot. */
  ghost predicate Edges(s: seq<int>, n: int, st: Sift)
    requires n <= |s|
    decreases n
  {
    n <= 1 || (Edges(s, n - 1, st) && EdgeHolds(s, n - 1, st))
  }

  /** Every parent in the first `n` slots holds a key no larger than its child's. */
  ghost predicate IsHeapPrefix(s: seq<int>, n: int)
    requires n <= |s|
  {
    Edges(s, n, Settled)
  }

  ghost predicate IsHeap(s: seq<int>)
  {
    IsHeapPrefix(s, |s|)
  }

  /** The first `n` slots are in the state of sift-up with the moving key at `j`. */
  ghost predicate HeapExceptUp(s: seq<int>, n: int, j: int)
    requires 0 <= n <= |s|
  {
    Edges(s, n, SiftingUp(j))
  }

  /** The first `n` slots are in the state of sift-down from `i0`, with the
      moving key at `i`. */
  ghost predicate HeapExceptDown(s: seq<int>, n: int, i: int, i0: int)
    requires 0 <= n <= |s|
  {
    Edges(s, n, SiftingDown(i, i0))
  }

  /** `Edges` says the same as the edge condition at every slot below `n`. */
  lemma {:induction false} EdgesAll(s: seq<int>, n: int, st: Sift)
    requires 0 <= n <= |s|
    ensures Edges(s, n, st) <==> forall c :: 0 < c < n ==> EdgeHolds(s, c, st)
    decreases n
  {
    if n > 1 {
      EdgesAll(s, n - 1, st);
    }
  }

  /** A heap is exactly a sequence in which every slot's parent holds a key no
      larger than the slot's own. */
  lemma HeapOrderIsParentOrder(s: seq<int>)
    ensures IsHeap(s) <==> forall c :: 0 < c < |s| ==> s[Parent(c)] <= s[c]
  {
    EdgesAll(s, |s|, Settled);
    forall c | 0 < c < |s|
      ensures EdgeHolds(s, c, Settled) <==> s[Parent(c)] <= s[c]
    {
    }
  }

  /** A prefix with one child that is smaller than its parent is not a heap. */
  lemma OutOfOrder(s: seq<int>, n: int, c: int)
    requires 0 < c < n <= |s| && s[c] < s[Parent(c)]
    ensures !IsHeapPrefix(s, n)
  {
    EdgesAll(s, n, Settled);
    assert !EdgeHolds(s, c, Settled);
  }

  /** The root of a heap holds its smallest key. */
  lemma {:induction false} RootIsMinimum(s: seq<int>, k: int)
    requires IsHeap(s) && 0 <= k < |s|
    ensures s[0] <= s[k]
    decreases k
  {
    if k > 0 {
      EdgesAll(s, |s|, Settled);
      assert EdgeHolds(s, k, Settled);
      RootIsMinimum(s, Parent(k));
    }
  }

  /** Rewriting one key of a heap leaves exactly the state `Fix` starts from. */
  lemma ChangeKey(s: seq<int>, k: int, v: int)
    requires IsHeap(s) && 0 <= k < |s|
    ensures HeapExceptDown(s[k := v], |s|, k, k)
  {
    var r := s[k := v];
    EdgesAll(s, |s|, Settled);
    forall c | 0 < c < |s|
      ensures EdgeHolds(r, c, SiftingDown(k, k))
    {
      assert EdgeHolds(s, c, Settled);
      if Parent(c) == k && 0 < k {
        assert EdgeHolds(s, k, Settled);
      }
    }
    EdgesAll(r, |s|, SiftingDown(k, k));
  }

  /** A heap is a valid starting state for sift-down from any slot. */
  lemma HeapIsDownReady(s: seq<int>, n: int, i: int)
    requires 0 <= n <= |s| && IsHeapPrefix(s, n)
    ensures HeapExceptDown(s, n, i, i)
  {
    EdgesAll(s, n, Settled);
    forall c | 0 < c < n
      ensures EdgeHolds(s, c, SiftingDown(i, i))
    {
      assert EdgeHolds(s, c, Settled);
      if Parent(c) == i && 0 < i {
        assert EdgeHolds(s, i, Settled);
      }
    }
    EdgesAll(s, n, SiftingDown(i, i));
  }

  /** One step of sift-up: swapping the key at `j` with its larger parent
      carries the sift-up state from `j` to the parent. */
  lemma UpStep(s: seq<int>, n: int, j: int)
    requires 0 < j < n <= |s|
    requires HeapExceptUp(s, n, j) && s[j] < s[Parent(j)]
    ensures HeapExceptUp(Swapped(s, Parent(j), j), n, Parent(j))
    ensures !IsHeapPrefix(s, n)
  {
    var p := Parent(j);
    var r := Swapped(s, p, j);
    EdgesAll(s, n, SiftingUp(j));
    if 0 < p {
      assert EdgeHolds(s, p, SiftingUp(j));
    }
    forall c | 0 < c < n
      ensures EdgeHolds(r, c, SiftingUp(p))
    {
      assert EdgeHolds(s, c, SiftingUp(j));
      if c == j {
      } else if Parent(c) == j {
        assert s[p] <= s[c];
      } else if Parent(c) == p {
        assert s[p] <= s[c];
      } else if c == p {
      } else {
        assert r[Parent(c)] == s[Parent(c)] && r[c] == s[c];
      }
    }
    EdgesAll(r, n, SiftingUp(p));
    OutOfOrder(s, n, j);
  }

  /** Sift-up stops at the root or once the parent is no larger: a heap. */
  lemma UpDone(s: seq<int>, n: int, j: int)
    requires 0 <= n <= |s| && HeapExceptUp(s, n, j)
    requires j <= 0 || n <= j || s[Parent(j)] <= s[j]
    ensures IsHeapPrefix(s, n)
  {
    EdgesAll(s, n, SiftingUp(j));
    forall c | 0 < c < n
      ensures EdgeHolds(s, c, Settled)
    {
      assert EdgeHolds(s, c, SiftingUp(j));
    }
    EdgesAll(s, n, Settled);
  }

  /** One step of sift-down: swapping the key at `i` with its smaller child
      `j`, which is smaller than it, moves the disordered edges one level
      down. A prefix in which that happens was not a heap. */
  lemma DownStep(s: seq<int>, n: int, i: int, i0: int, j: int)
    requires i0 <= i && 0 <= i && 0 <= n <= |s|
    requires HeapExceptDown(s, n, i, i0)
    requires (j == 2 * i + 1 || j == 2 * i + 2) && j < n
    requires s[j] <= s[2 * i + 1] && (2 * i + 2 < n ==> s[j] <= s[2 * i + 2])
    requires s[j] < s[i]
    ensures HeapExceptDown(Swapped(s, i, j), n, j, i0)
    ensures !IsHeapPrefix(s, n)
  {
    assert Parent(j) == i;
    var r := Swapped(s, i, j);
    EdgesAll(s, n, SiftingDown(i, i0));
    if 0 < i {
      assert EdgeHolds(s, i, SiftingDown(i, i0));
    }
    forall c | 0 < c < n
      ensures EdgeHolds(r, c, SiftingDown(j, i0))
    {
      assert EdgeHolds(s, c, SiftingDown(i, i0));
      if c == j {
      } else if Parent(c) == i {
        assert c == 2 * i + 1 || c == 2 * i + 2;
        assert r[c] == s[c];
      } else if Parent(c) == j {
        assert s[j] <= s[c];
      } else if c == i {
        assert EdgeHolds(s, j, SiftingDown(i, i0));
      } else {
        assert r[Parent(c)] == s[Parent(c)] && r[c] == s[c];
      }
    }
    EdgesAll(r, n, SiftingDown(j, i0));
    OutOfOrder(s, n, j);
  }

  /** Sift-down stops when no child is smaller. If the key moved the prefix is
      a heap; if not, only the edge above the start may be disordered, which is
      the state sift-up expects. */
  lemma DownDone(s: seq<int>, n: int, i: int, i0: int)
    requires 0 <= n <= |s| && HeapExceptDown(s, n, i, i0)
    requires 0 <= i && 2 * i + 1 < n ==> s[i] <= s[2 * i + 1]
    requires 0 <= i && 2 * i + 2 < n ==> s[i] <= s[2 * i + 2]
    ensures i != i0 ==> IsHeapPrefix(s, n)
    ensures HeapExceptUp(s, n, i)
  {
    EdgesAll(s, n, SiftingDown(i, i0));
    forall c | 0 < c < n
      ensures EdgeHolds(s, c, SiftingUp(i)) && (i != i0 ==> EdgeHolds(s, c, Settled))
    {
      assert EdgeHolds(s, c, SiftingDown(i, i0));
      if Parent(c) == i {
        assert c == 2 * i + 1 || c == 2 * i + 2;
      }
    }
    EdgesAll(s, n, SiftingUp(i));
    EdgesAll(s, n, Settled);
  }

  /** Appending a key to a heap leaves the state sift-up starts from, with
      the new key in the new last slot. */
  lemma PushReady(s: seq<int>, v: int)
    requires IsHeap(s)
    ensures HeapExceptUp(s + [v], |s| + 1, |s|)
  {
    var r := s + [v];
    EdgesAll(s, |s|, Settled);
    forall c | 0 < c < |r|
      ensures EdgeHolds(r, c, SiftingUp(|s|))
    {
      if c != |s| {
        assert EdgeHolds(s, c, Settled);
      }
    }
    EdgesAll(r, |r|, SiftingUp(|s|));
  }

  /** Moving a heap's last key into the root and its root out to the last
      slot leaves the slots before the last in the state sift-down starts
      from at the root. */
  lemma PopReady(s: seq<int>)
    requires IsHeap(s) && |s| > 0
    ensures HeapExceptDown(Swapped(s, 0, |s| - 1), |s| - 1, 0, 0)
  {
    var n := |s| - 1;
    var r := Swapped(s, 0, n);
    EdgesAll(s, |s|, Settled);
    forall c | 0 < c < n
      ensures EdgeHolds(r, c, SiftingDown(0, 0))
    {
      assert EdgeHolds(s, c, Settled);
    }
    EdgesAll(r, n, SiftingDown(0, 0));
  }

  /** The first `n` slots of a sequence whose `n`-prefix is heap-ordered form a heap. */
  lemma PrefixIsHeap(s: seq<int>, n: int)
    requires 0 <= n <= |s| && IsHeapPrefix(s, n)
    ensures IsHeap(s[..n])
  {
    var r := s[..n];
    EdgesAll(s, n, Settled);
    forall c | 0 < c < n
      ensures EdgeHolds(r, c, Settled)
    {
      assert EdgeHolds(s, c, Settled);
    }
    EdgesAll(r, n, Settled);
  }
}
