/** Concrete runs of the min-heap: the add-then-drain run, the mixed
    add/pop run, and a heap built from an unsorted vector. Each run is
    stated for every heap holding the run's values, and a function shows
    that the run's additions build such a heap. */
module HeapScenarios {
  import opened Wrappers
  import opened MinHeap

  /** Adding 5, 3, 7, 1, 9, 2 to an empty heap. */
  function SixAdded(): (h: Heap)
    ensures IsHeap(h.elems) && multiset(h.elems) == multiset{5, 3, 7, 1, 9, 2}
  {
    Add(Add(Add(Add(Add(Add(EmptyHeap(), 5), 3), 7), 1), 9), 2)
  }

  /** 1, 2, 3, 5, 7, 9 is ascending, built from the back. */
  lemma SixAscending()
    ensures Ascending([1, 2, 3, 5, 7, 9])
  {
    PrependBelow(9, []);
    PrependBelow(7, [9]);
    PrependBelow(5, [7, 9]);
    PrependBelow(3, [5, 7, 9]);
    PrependBelow(2, [3, 5, 7, 9]);
    PrependBelow(1, [2, 3, 5, 7, 9]);
  }

  /** 1, 2, 3, 5, 7, 9 holds the values added, 5, 3, 7, 1, 9, 2. */
  lemma SixSameElements()
    ensures multiset([1, 2, 3, 5, 7, 9]) == multiset{5, 3, 7, 1, 9, 2}
  {
    assert multiset{5, 3, 7, 1, 9, 2} == multiset{1, 2, 3, 5, 7, 9};
    assert multiset([1, 2, 3, 5, 7, 9]) == multiset{1, 2, 3, 5, 7, 9};
  }

  /** Six pops of a heap holding 5, 3, 7, 1, 9, 2 yield the values in
      ascending order. */
  lemma SixPopsAscend(h: Heap)
    requires IsHeap(h.elems) && multiset(h.elems) == multiset{5, 3, 7, 1, 9, 2}
    ensures PopAll(h) == [1, 2, 3, 5, 7, 9]
  {
    SixAscending();
    SixSameElements();
    DrainIsSorted(h, [1, 2, 3, 5, 7, 9]);
  }

  /** The unsorted vector the vector constructor is given. */
  function Unsorted(): seq<int> {
    [50, 30, 70, 20, 40, 60, 80]
  }

  /** As written: the vector constructor keeps the vector as it is, which is
      not a heap, and the first pop returns 50 although 20 is smaller. */
  lemma VectorPopNotMin()
    ensures !IsHeap(FromVector(Unsorted()).elems)
    ensures Pop(FromVector(Unsorted())).Success?
    ensures Pop(FromVector(Unsorted())).value.value == 50
    ensures 20 in FromVector(Unsorted()).elems
  {
    var v := Unsorted();
    assert Parent(1) == 0 && v[0] > v[1];
  }

  /** Corrected: any heap holding the vector's elements, such as the one
      `Heapify` builds, pops 20 first. */
  lemma HeapifiedVectorPopsMin(h: Heap)
    requires IsHeap(h.elems) && multiset(h.elems) == multiset(Unsorted())
    ensures Pop(h).Success? && Pop(h).value.value == 20
  {
    var v := Unsorted();
    assert 20 in multiset(h.elems);
    assert 20 in h.elems;
    var m := Pop(h).value.value;
    assert m == h.elems[0] && m in multiset(v);
    assert m in v;
  }

  /** Adding 10 then 5 to an empty heap. */
  function TwoAdded(): (h: Heap)
    ensures IsHeap(h.elems) && multiset(h.elems) == multiset{10, 5}
  {
    Add(Add(EmptyHeap(), 10), 5)
  }

  /** Popping a heap holding 10 and 5 yields 5 and leaves 10. */
  lemma MixedFirstPop(h: Heap)
    requires IsHeap(h.elems) && multiset(h.elems) == multiset{10, 5}
    ensures Pop(h).Success? && Pop(h).value.value == 5
    ensures Pop(h).value.rest.elems == [10]
  {
    var p := Pop(h).value;
    assert 5 in multiset(h.elems) && 10 in multiset(h.elems);
    assert 5 in h.elems && 10 in h.elems;
    assert multiset(p.rest.elems) == multiset{10};
    assert |p.rest.elems| == 1 && p.rest.elems[0] in multiset(p.rest.elems);
  }

  /** Popping a heap holding 10, 3 and 8 yields 3 and leaves a heap of 10
      and 8. */
  lemma MixedSecondPop(h: Heap)
    requires IsHeap(h.elems) && multiset(h.elems) == multiset{10, 3, 8}
    ensures Pop(h).Success? && Pop(h).value.value == 3
    ensures IsHeap(Pop(h).value.rest.elems) && multiset(Pop(h).value.rest.elems) == multiset{10, 8}
  {
    var p := Pop(h).value;
    assert 3 in multiset(h.elems);
    assert 3 in h.elems;
    assert p.value in multiset(h.elems);
  }

  /** 1, 7, 8, 10, 15 is ascending and holds 10, 8, 1, 15, 7. */
  lemma FiveAscending()
    ensures Ascending([1, 7, 8, 10, 15])
    ensures multiset([1, 7, 8, 10, 15]) == multiset{10, 8, 1, 15, 7}
  {
    PrependBelow(15, []);
    PrependBelow(10, [15]);
    PrependBelow(8, [10, 15]);
    PrependBelow(7, [8, 10, 15]);
    PrependBelow(1, [7, 8, 10, 15]);
    assert multiset{10, 8, 1, 15, 7} == multiset{1, 7, 8, 10, 15};
  }

  /** The last round of the mixed run: draining a heap holding 10, 8, 1, 15
      and 7 yields them in ascending order. */
  lemma MixedDrain(h: Heap)
    requires IsHeap(h.elems) && multiset(h.elems) == multiset{10, 8, 1, 15, 7}
    ensures PopAll(h) == [1, 7, 8, 10, 15]
  {
    FiveAscending();
    DrainIsSorted(h, [1, 7, 8, 10, 15]);
  }

  /** The second round of additions: 3 and 8 join the 10 left by the
      first pop. */
  lemma SecondRound(h: Heap)
    requires IsHeap(h.elems) && h.elems == [10]
    ensures IsHeap(Add(Add(h, 3), 8).elems)
    ensures multiset(Add(Add(h, 3), 8).elems) == multiset{10, 3, 8}
  {
  }

  /** The third round of additions: 1, 15 and 7 join the 10 and 8 left by
      the second pop. */
  lemma ThirdRound(h: Heap)
    requires IsHeap(h.elems) && multiset(h.elems) == multiset{10, 8}
    ensures IsHeap(Add(Add(Add(h, 1), 15), 7).elems)
    ensures multiset(Add(Add(Add(h, 1), 15), 7).elems) == multiset{10, 8, 1, 15, 7}
  {
  }

  /** Lines 186-211: add 10 and 5, pop; add 3 and 8, pop; add 1, 15 and 7,
      then pop until empty. The pops yield 5, 3, then 1, 7, 8, 10, 15. */
  method MixedRun() returns (first: int, second: int, drained: seq<int>)
    ensures first == 5 && second == 3 && drained == [1, 7, 8, 10, 15]
  {
    var h := TwoAdded();
    MixedFirstPop(h);
    var p := Pop(h).value;
    first := p.value;
    SecondRound(p.rest);
    h := Add(Add(p.rest, 3), 8);
    MixedSecondPop(h);
    p := Pop(h).value;
    second := p.value;
    ThirdRound(p.rest);
    h := Add(Add(Add(p.rest, 1), 15), 7);
    MixedDrain(h);
    drained := PopAll(h);
  }
}
