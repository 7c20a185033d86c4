/** The array-backed binary min-heap of `heap.h`: a vector in which every
    element is at least its parent, grown by sift-up and shrunk by
    sift-down. Elements are integers; the mutex guarding the vector is not
    modelled. */
module MinHeap {
  import opened Wrappers

  /** `SIZE_MAX` of a 64-bit `size_t`. */
  const SizeMax: nat := 0xFFFF_FFFF_FFFF_FFFF

  /** Index of the parent slot. At the root, `i - 1` wraps around in
      `size_t`, so the root's "parent" is a huge index; the sift-up loop
      never asks for it because it stops at the root. */
  function Parent(i: nat): (p: nat)
    ensures i == 0 ==> p == SizeMax / 2
    ensures i > 0 ==> p < i && (i == 2 * p + 1 || i == 2 * p + 2)
  {
    if i == 0 then SizeMax / 2 else (i - 1) / 2
  }

  /** Index of the left child slot. */
  function LeftChild(i: nat): (c: nat)
    ensures c > i && Parent(c) == i
  {
    i * 2 + 1
  }

  /** Index of the right child slot: next to the left child. */
  function RightChild(i: nat): (c: nat)
    ensures c > i && Parent(c) == i && c == LeftChild(i) + 1
  {
    i * 2 + 2
  }

  /** The min-heap property: no element is smaller than its parent. */
  ghost predicate IsHeap(a: seq<int>) {
    forall i :: 0 < i < |a| ==> a[Parent(i)] <= a[i]
  }

  /** `Heap<T>`: just the vector. Copies (constructor and assignment) are
      value copies, which an immutable datatype gives for free. */
  datatype Heap = Heap(elems: seq<int>)

  /** `Heap()`: the empty heap. */
  function EmptyHeap(): (h: Heap)
    ensures Size(h) == 0 && IsHeap(h.elems)
  {
    Heap([])
  }

  /** `Heap(const std::vector<T>&)` and `Heap(std::vector<T>&&)`: the vector
      is stored as given, without heapifying it. */
  function FromVector(v: seq<int>): (h: Heap)
    ensures multiset(h.elems) == multiset(v) && Size(h) == |v|
    ensures IsHeap(h.elems) <==> IsHeap(v)
  {
    Heap(v)
  }

  /** `Size()`: how many elements the heap holds, counted with
      multiplicity. */
  function Size(h: Heap): (n: nat)
    ensures n == |multiset(h.elems)|
  {
    |h.elems|
  }

  /** `std::swap` of two slots. */
  function Swap(a: seq<int>, i: nat, j: nat): (r: seq<int>)
    requires i < |a| && j < |a|
    ensures |r| == |a| && r[i] == a[j] && r[j] == a[i]
    ensures forall k :: 0 <= k < |a| && k != i && k != j ==> r[k] == a[k]
    ensures multiset(r) == multiset(a)
  {
    a[i := a[j]][j := a[i]]
  }

  // ---------------------------------------------------------------------
  // Sift-up (heap.h lines 24-30)

  /** A heap except that slot `k` may be smaller than its parent; `k`'s
      parent is still at most `k`'s children. This is the sift-up loop
      invariant. */
  ghost predicate HeapExceptUp(a: seq<int>, k: nat) {
    && (forall i :: 0 < i < |a| && i != k ==> a[Parent(i)] <= a[i])
    && (k > 0 ==> forall i :: 0 < i < |a| && Parent(i) == k ==> a[Parent(k)] <= a[i])
  }

  /** One swap of the sift-up loop moves the defect to the parent slot. */
  lemma SwapUpKeeps(a: seq<int>, k: nat)
    requires 0 < k < |a| && HeapExceptUp(a, k) && a[Parent(k)] > a[k]
    ensures HeapExceptUp(Swap(a, Parent(k), k), Parent(k))
  {
    var p := Parent(k);
    var b := Swap(a, p, k);
    forall i | 0 < i < |b| && i != p
      ensures b[Parent(i)] <= b[i]
    {
      if i == k {
      } else if Parent(i) == k {
        assert b[i] == a[i];
      } else if Parent(i) == p {
        assert a[p] <= a[i];
      } else {
        assert b[Parent(i)] == a[Parent(i)] && b[i] == a[i];
      }
    }
    if p > 0 {
      forall i | 0 < i < |b| && Parent(i) == p
        ensures b[Parent(p)] <= b[i]
      {
        assert b[Parent(p)] == a[Parent(p)];
        assert a[Parent(p)] <= a[p];
        if i != k {
          assert a[p] <= a[i];
        }
      }
    }
  }

  /** The sift-up loop from slot `k`: while the parent is bigger, swap with
      it. */
  function SiftUp(a: seq<int>, k: nat): (r: seq<int>)
    requires k < |a|
    ensures |r| == |a| && multiset(r) == multiset(a)
    ensures HeapExceptUp(a, k) ==> IsHeap(r)
    decreases k
  {
    if k != 0 && a[Parent(k)] > a[k] then
      assert HeapExceptUp(a, k) ==> HeapExceptUp(Swap(a, Parent(k), k), Parent(k)) by {
        if HeapExceptUp(a, k) {
          SwapUpKeeps(a, k);
        }
      }
      SiftUp(Swap(a, Parent(k), k), Parent(k))
    else
      a
  }

  /** A heap with one more slot at the end is a heap except at that slot. */
  lemma AppendExceptUp(a: seq<int>, x: int)
    requires IsHeap(a)
    ensures HeapExceptUp(a + [x], |a|)
  {
    var b := a + [x];
    forall i | 0 < i < |b| && i != |a|
      ensures b[Parent(i)] <= b[i]
    {
      assert b[Parent(i)] == a[Parent(i)] && b[i] == a[i];
    }
  }

  /** `Add`: push the element at the back, then sift it up. */
  function Add(h: Heap, x: int): (r: Heap)
    ensures Size(r) == Size(h) + 1
    ensures multiset(r.elems) == multiset(h.elems) + multiset{x}
    ensures IsHeap(h.elems) ==> IsHeap(r.elems)
  {
    assert IsHeap(h.elems) ==> HeapExceptUp(h.elems + [x], |h.elems|) by {
      if IsHeap(h.elems) {
        AppendExceptUp(h.elems, x);
      }
    }
    Heap(SiftUp(h.elems + [x], |h.elems|))
  }

  // ---------------------------------------------------------------------
  // Sift-down (heap.h lines 89-107)

  /** A heap except that slot `k` may be bigger than its children; `k`'s
      parent is still at most `k`'s children. This is the sift-down loop
      invariant. */
  ghost predicate HeapExceptDown(a: seq<int>, k: nat) {
    && (forall i :: 0 < i < |a| && Parent(i) != k ==> a[Parent(i)] <= a[i])
    && (k > 0 ==> forall i :: 0 < i < |a| && Parent(i) == k ==> a[Parent(k)] <= a[i])
  }

  /** The slot the sift-down loop compares `k` against: the smaller of `k`
      and its existing children, `k` on ties. */
  function Smallest(a: seq<int>, k: nat): (s: nat)
    requires k < |a|
    ensures s < |a| && a[s] <= a[k]
    ensures s == k || s == LeftChild(k) || s == RightChild(k)
    ensures LeftChild(k) < |a| ==> a[s] <= a[LeftChild(k)]
    ensures RightChild(k) < |a| ==> a[s] <= a[RightChild(k)]
    ensures s != k ==> a[s] < a[k]
  {
    var l := LeftChild(k);
    var r := RightChild(k);
    var s1 := if l < |a| && a[l] < a[k] then l else k;
    if r < |a| && a[r] < a[s1] then r else s1
  }

  /** One swap of the sift-down loop moves the defect to the child slot. */
  lemma SwapDownKeeps(a: seq<int>, k: nat)
    requires k < |a| && HeapExceptDown(a, k) && Smallest(a, k) != k
    ensures HeapExceptDown(Swap(a, k, Smallest(a, k)), Smallest(a, k))
  {
    var s := Smallest(a, k);
    var b := Swap(a, k, s);
    forall i | 0 < i < |b| && Parent(i) != s
      ensures b[Parent(i)] <= b[i]
    {
      if i == s {
      } else if Parent(i) == k {
        assert i == LeftChild(k) || i == RightChild(k);
        assert b[i] == a[i];
      } else if i == k {
        assert b[Parent(k)] == a[Parent(k)];
        assert a[Parent(k)] <= a[s];
      } else {
        assert b[Parent(i)] == a[Parent(i)] && b[i] == a[i];
      }
    }
    forall i | 0 < i < |b| && Parent(i) == s
      ensures b[Parent(s)] <= b[i]
    {
      assert i != k && i != s;
      assert a[Parent(i)] <= a[i];
    }
  }

  /** When no child is smaller than `k`, the defect is gone. */
  lemma SettledDown(a: seq<int>, k: nat)
    requires k < |a| && HeapExceptDown(a, k) && Smallest(a, k) == k
    ensures IsHeap(a)
  {
    forall i | 0 < i < |a|
      ensures a[Parent(i)] <= a[i]
    {
      if Parent(i) == k {
        assert i == LeftChild(k) || i == RightChild(k);
      }
    }
  }

  /** The sift-down loop from slot `k`: swap with the smaller child while it
      is smaller. On an empty vector the loop finds no child and stops. */
  function SiftDown(a: seq<int>, k: nat): (r: seq<int>)
    requires k < |a| || |a| == 0
    ensures |r| == |a| && multiset(r) == multiset(a)
    ensures HeapExceptDown(a, k) ==> IsHeap(r)
    decreases |a| - k
  {
    if |a| == 0 then a
    else
      var s := Smallest(a, k);
      if s == k then
        assert HeapExceptDown(a, k) ==> IsHeap(a) by {
          if HeapExceptDown(a, k) {
            SettledDown(a, k);
          }
        }
        a
      else
        assert HeapExceptDown(a, k) ==> HeapExceptDown(Swap(a, k, s), s) by {
          if HeapExceptDown(a, k) {
            SwapDownKeeps(a, k);
          }
        }
        SiftDown(Swap(a, k, s), s)
  }

  /** Lines 85-87: the root swapped with the last slot, and the vector
      trimmed by one. */
  function MoveLastToRoot(a: seq<int>): (r: seq<int>)
    requires |a| > 0
    ensures |r| == |a| - 1
    ensures multiset(r) + multiset{a[0]} == multiset(a)
    ensures IsHeap(a) ==> HeapExceptDown(r, 0)
  {
    var s := Swap(a, 0, |a| - 1);
    assert s == s[..|a| - 1] + [s[|a| - 1]];
    assert IsHeap(a) ==> HeapExceptDown(s[..|a| - 1], 0) by {
      if IsHeap(a) {
        var r := s[..|a| - 1];
        forall i | 0 < i < |r| && Parent(i) != 0
          ensures r[Parent(i)] <= r[i]
        {
          assert r[Parent(i)] == a[Parent(i)] && r[i] == a[i];
        }
      }
    }
    s[..|a| - 1]
  }

  // ---------------------------------------------------------------------
  // Pop

  /** `vec_.at(0)` on an empty vector throws `std::out_of_range`. */
  datatype HeapError = OutOfRange

  /** A popped value and the heap left behind. */
  datatype Popped = Popped(value: int, rest: Heap)

  /** The root of a heap is a minimum of it. */
  lemma {:induction false} RootIsMin(a: seq<int>, i: nat)
    requires IsHeap(a) && i < |a|
    ensures a[0] <= a[i]
    decreases i
  {
    if i > 0 {
      RootIsMin(a, Parent(i));
    }
  }

  /** `Pop`: read the root, move the last element to the root, shrink and
      sift down. On an empty heap it fails. */
  function Pop(h: Heap): (r: Result<Popped, HeapError>)
    ensures r.Failure? <==> Size(h) == 0
    ensures r.Success? ==> r.value.value == h.elems[0]
    ensures r.Success? ==> Size(r.value.rest) == Size(h) - 1
    ensures r.Success? ==> multiset(r.value.rest.elems) + multiset{r.value.value} == multiset(h.elems)
    ensures r.Success? && IsHeap(h.elems) ==>
              IsHeap(r.value.rest.elems) && forall x :: x in h.elems ==> r.value.value <= x
  {
    if |h.elems| == 0 then Failure(OutOfRange)
    else
      var a := MoveLastToRoot(h.elems);
      assert IsHeap(h.elems) ==> forall x :: x in h.elems ==> h.elems[0] <= x by {
        if IsHeap(h.elems) {
          forall x | x in h.elems
            ensures h.elems[0] <= x
          {
            var i :| 0 <= i < |h.elems| && h.elems[i] == x;
            RootIsMin(h.elems, i);
          }
        }
      }
      Success(Popped(h.elems[0], Heap(SiftDown(a, 0))))
  }

  // ---------------------------------------------------------------------
  // Draining a heap

  predicate Ascending(s: seq<int>) {
    forall i, j :: 0 <= i < j < |s| ==> s[i] <= s[j]
  }

  /** Everything left after popping a heap is at least the popped value. */
  lemma PoppedBelowRest(h: Heap, p: Popped, rest: seq<int>)
    requires Pop(h) == Success(p) && IsHeap(h.elems)
    requires multiset(rest) == multiset(p.rest.elems)
    ensures forall x :: x in rest ==> p.value <= x
  {
    assert Pop(h).value == p;
    assert multiset(p.rest.elems) + multiset{p.value} == multiset(h.elems);
    forall x | x in rest
      ensures p.value <= x
    {
      assert x in multiset(rest);
      assert x in multiset(h.elems);
      assert x in h.elems;
    }
  }

  /** A lower bound of an ascending sequence can go in front of it. */
  lemma PrependBelow(v: int, rest: seq<int>)
    requires Ascending(rest) && forall x :: x in rest ==> v <= x
    ensures Ascending([v] + rest)
  {
    var s := [v] + rest;
    forall i, j | 0 <= i < j < |s|
      ensures s[i] <= s[j]
    {
      assert s[j] == rest[j - 1] && rest[j - 1] in rest;
      if i > 0 {
        assert s[i] == rest[i - 1];
      }
    }
  }

  /** One round of draining: the popped minimum in front of the drained
      rest is still ascending. */
  lemma DrainStep(h: Heap, p: Popped, rest: seq<int>)
    requires Pop(h) == Success(p) && IsHeap(h.elems)
    requires Ascending(rest) && multiset(rest) == multiset(p.rest.elems)
    ensures Ascending([p.value] + rest)
  {
    PoppedBelowRest(h, p, rest);
    PrependBelow(p.value, rest);
  }

  /** Popping until the heap is empty, as the tests do with
      `while (heap.Size() > 0) heap.Pop()`. */
  function PopAll(h: Heap): (out: seq<int>)
    ensures |out| == Size(h) && multiset(out) == multiset(h.elems)
    ensures IsHeap(h.elems) ==> Ascending(out)
    decreases Size(h)
  {
    match Pop(h)
    case Failure(_) => []
    case Success(p) =>
      var rest := PopAll(p.rest);
      assert IsHeap(h.elems) ==> Ascending([p.value] + rest) by {
        if IsHeap(h.elems) {
          DrainStep(h, p, rest);
        }
      }
      [p.value] + rest
  }

  lemma AscendingTail(a: seq<int>)
    requires Ascending(a) && |a| > 0
    ensures Ascending(a[1..])
  {
    forall i, j | 0 <= i < j < |a| - 1
      ensures a[1..][i] <= a[1..][j]
    {
      assert a[1..][i] == a[i + 1] && a[1..][j] == a[j + 1];
    }
  }

  /** Ascending sequences with the same elements start with the same
      (least) element. */
  lemma SameHead(a: seq<int>, b: seq<int>)
    requires Ascending(a) && Ascending(b) && multiset(a) == multiset(b) && |a| > 0
    ensures |b| > 0 && a[0] == b[0]
  {
    assert a[0] in multiset(b);
    var j :| 0 <= j < |b| && b[j] == a[0];
    assert b[0] in multiset(a);
    var i :| 0 <= i < |a| && a[i] == b[0];
    assert a[0] <= a[i] && b[0] <= b[j];
  }

  lemma SameTails(a: seq<int>, b: seq<int>)
    requires |a| > 0 && |b| > 0 && a[0] == b[0] && multiset(a) == multiset(b)
    ensures multiset(a[1..]) == multiset(b[1..])
  {
    assert a == [a[0]] + a[1..];
    assert b == [b[0]] + b[1..];
    assert multiset(a[1..]) == multiset(a) - multiset{a[0]};
    assert multiset(b[1..]) == multiset(b) - multiset{b[0]};
  }

  /** Two ascending sequences holding the same elements are the same
      sequence: the output of draining a heap is determined by its
      contents. */
  lemma {:induction false} AscendingUnique(a: seq<int>, b: seq<int>)
    requires Ascending(a) && Ascending(b) && multiset(a) == multiset(b)
    ensures a == b
    decreases |a|
  {
    assert |a| == |multiset(a)| == |multiset(b)| == |b|;
    if |a| > 0 {
      SameHead(a, b);
      SameTails(a, b);
      AscendingTail(a);
      AscendingTail(b);
      AscendingUnique(a[1..], b[1..]);
      assert a == [a[0]] + a[1..] && b == [b[0]] + b[1..];
    }
  }

  /** Draining a heap yields exactly the ascending arrangement of its
      elements. */
  lemma DrainIsSorted(h: Heap, sorted: seq<int>)
    requires IsHeap(h.elems) && Ascending(sorted) && multiset(sorted) == multiset(h.elems)
    ensures PopAll(h) == sorted
  {
    AscendingUnique(PopAll(h), sorted);
  }

  // ---------------------------------------------------------------------
  // Building a heap from a vector

  /** Corrected vector constructor: the elements added one by one, so the
      result is a heap whatever order the vector is in. */
  function Heapify(v: seq<int>): (h: Heap)
    ensures IsHeap(h.elems) && multiset(h.elems) == multiset(v) && Size(h) == |v|
  {
    if |v| == 0 then EmptyHeap()
    else
      assert v == v[..|v| - 1] + [v[|v| - 1]];
      Add(Heapify(v[..|v| - 1]), v[|v| - 1])
  }

  /** Popping a heap built by `Heapify` yields the least element of the
      vector. */
  lemma HeapifiedPopsMin(v: seq<int>)
    requires |v| > 0
    ensures Pop(Heapify(v)).Success?
    ensures Pop(Heapify(v)).value.value in v
    ensures forall x :: x in v ==> Pop(Heapify(v)).value.value <= x
  {
    var h := Heapify(v);
    var r := Pop(h);
    assert r.Success?;
    var m := r.value.value;
    assert forall y :: y in h.elems ==> m <= y;
    assert m == h.elems[0];
    assert m in multiset(v);
    forall x | x in v
      ensures m <= x
    {
      assert x in multiset(v);
      assert x in multiset(h.elems);
      assert x in h.elems;
    }
  }
}
