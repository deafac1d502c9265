/** The min-heap of deadlines that drives active expiry: the source's `expHeap`
    under the sift-up and sift-down of Go's container/heap. */
module ExpHeap {
  import opened Basics

  datatype ExpEntry = ExpEntry(deadline: int, key: Bytes)

  type Heap = seq<ExpEntry>

  predicate Less(h: Heap, i: nat, j: nat)
    requires i < |h| && j < |h|
  {
    h[i].deadline < h[j].deadline
  }

  predicate IsParent(i: int, j: int) {
    j == 2 * i + 1 || j == 2 * i + 2
  }

  /** No element of h[..n] is due before its parent, except possibly those
      whose parent, or who themselves, are excused. */
  predicate OrderedBut(h: Heap, n: nat, child: int, parent: int)
    requires n <= |h|
  {
    forall i, j :: 0 <= i < j < n && IsParent(i, j) && j != child && i != parent ==>
      h[i].deadline <= h[j].deadline
  }

  predicate Ordered(h: Heap) {
    OrderedBut(h, |h|, -1, -1)
  }

  function Swap(h: Heap, i: nat, j: nat): (r: Heap)
    requires i < |h| && j < |h|
    ensures |r| == |h| && multiset(r) == multiset(h)
  {
    SwapPermutes(h, i, j);
    h[i := h[j]][j := h[i]]
  }

  lemma SwapPermutes(h: Heap, i: nat, j: nat)
    requires i < |h| && j < |h|
    ensures multiset(h[i := h[j]][j := h[i]]) == multiset(h)
  {
    var g := h[i := h[j]];
    assert multiset(g) == multiset(h) - multiset{h[i]} + multiset{h[j]};
    assert multiset(g[j := h[i]]) == multiset(g) - multiset{g[j]} + multiset{h[i]};
  }

  /** In an ordered heap the root is due first. */
  lemma {:induction false} RootIsLeast(h: Heap, j: nat)
    requires Ordered(h) && j < |h|
    ensures h[0].deadline <= h[j].deadline
  {
    if j > 0 {
      var i := (j - 1) / 2;
      assert IsParent(i, j);
      RootIsLeast(h, i);
    }
  }

  /** h is a heap but for the element at j, which may be due too early. */
  predicate Rising(h: Heap, j: nat) {
    OrderedBut(h, |h|, j, -1) &&
    forall g, c :: 0 <= g < c < |h| && IsParent(g, j) && IsParent(j, c) ==> h[g].deadline <= h[c].deadline
  }

  lemma RiseStep(h: Heap, i: nat, j: nat)
    requires i < j < |h| && Rising(h, j) && IsParent(i, j) && Less(h, j, i)
    ensures Rising(Swap(h, i, j), i)
  {
    var r := Swap(h, i, j);
    forall a, c | 0 <= a < c < |r| && IsParent(a, c) && c != i ensures r[a].deadline <= r[c].deadline {
      if a == j { assert IsParent(i, j) && IsParent(j, c); }
    }
  }

  /** The sift-up loop. */
  method Up(h0: Heap, j0: nat) returns (h: Heap)
    requires j0 + 1 == |h0| && OrderedBut(h0, |h0|, j0, -1)
    ensures Ordered(h) && multiset(h) == multiset(h0)
  {
    h := h0;
    var j: nat := j0;
    while true
      invariant j < |h| && multiset(h) == multiset(h0) && Rising(h, j)
      decreases j
    {
      var i: nat := if j == 0 then 0 else (j - 1) / 2;
      if i == j || !Less(h, j, i) {
        break;
      }
      RiseStep(h, i, j);
      h := Swap(h, i, j);
      j := i;
    }
  }

  /** h[..n] is a heap but for the element at i, which may be due too late. */
  predicate Sinking(h: Heap, n: nat, i: nat)
    requires n <= |h|
  {
    OrderedBut(h, n, -1, i) &&
    forall g, c :: 0 <= g < c < n && IsParent(g, i) && IsParent(i, c) ==> h[g].deadline <= h[c].deadline
  }

  lemma SinkStep(h: Heap, n: nat, i: nat, j: nat)
    requires n <= |h| && Sinking(h, n, i) && i < j < n && IsParent(i, j) && Less(h, j, i)
    requires forall c :: 0 <= c < n && IsParent(i, c) ==> h[j].deadline <= h[c].deadline
    ensures Sinking(Swap(h, i, j), n, j)
  {
    var r := Swap(h, i, j);
    forall a, c | 0 <= a < c < n && IsParent(a, c) && a != j ensures r[a].deadline <= r[c].deadline {
      if c == i { assert IsParent(a, i) && IsParent(i, j); }
    }
  }

  /** The sift-down loop over h[..n]. */
  method Down(h0: Heap, n: nat) returns (h: Heap)
    requires n <= |h0| && OrderedBut(h0, n, -1, 0)
    ensures |h| == |h0| && h[n..] == h0[n..] && multiset(h) == multiset(h0)
    ensures OrderedBut(h, n, -1, -1)
  {
    h := h0;
    var i: nat := 0;
    while true
      invariant |h| == |h0| && h[n..] == h0[n..] && multiset(h) == multiset(h0)
      invariant Sinking(h, n, i)
      decreases n - i
    {
      var j1 := 2 * i + 1;
      if j1 >= n {
        break;
      }
      var j := j1;
      if j1 + 1 < n && Less(h, j1 + 1, j1) {
        j := j1 + 1;
      }
      if !Less(h, j, i) {
        break;
      }
      SinkStep(h, n, i, j);
      h := Swap(h, i, j);
      i := j;
    }
  }

  /** heap.Push. */
  method Push(h0: Heap, x: ExpEntry) returns (h: Heap)
    requires Ordered(h0)
    ensures Ordered(h) && multiset(h) == multiset(h0) + multiset{x}
  {
    h := Up(h0 + [x], |h0|);
  }

  /** heap.Pop takes out an entry that is due no later than any other. */
  method Pop(h0: Heap) returns (x: ExpEntry, h: Heap)
    requires Ordered(h0) && |h0| > 0
    ensures Ordered(h) && multiset(h0) == multiset(h) + multiset{x}
    ensures x == h0[0] && forall e :: e in h0 ==> x.deadline <= e.deadline
  {
    forall e | e in h0 ensures h0[0].deadline <= e.deadline {
      var j :| 0 <= j < |h0| && h0[j] == e;
      RootIsLeast(h0, j);
    }
    var n := |h0| - 1;
    h := Swap(h0, 0, n);
    h := Down(h, n);
    x := h[n];
    assert h == h[..n] + [x];
    h := h[..n];
  }
}
