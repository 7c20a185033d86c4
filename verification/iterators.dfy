/** `RemoveOdds` of `iterators.cpp`: erasing, in place, every element of a
    `std::list<int>` whose C++ remainder by 2 is 1. C++ `%` truncates toward
    zero, so negative odd numbers have remainder -1 and stay. */
module Iterators {

  /** C++ `x % 2` on `int`: the remainder of the quotient truncated toward
      zero, which takes the sign of the dividend. Line 22 only ever divides
      by 2. */
  function CppRem2(x: int): (r: int)
    ensures -1 <= r <= 1 && (x - r) % 2 == 0
    ensures r != 0 ==> (r < 0 <==> x < 0)
  {
    if x >= 0 then x % 2 else -((-x) % 2)
  }

  /** The test of line 22: the element is erased exactly when this holds. */
  predicate Erased(x: int) {
    CppRem2(x) == 1
  }

  /** Only positive odd numbers are erased; a negative odd number has
      remainder -1 and is kept. */
  lemma ErasedIffPositiveOdd(x: int)
    ensures Erased(x) <==> x > 0 && x % 2 == 1
    ensures x < 0 && x % 2 == 1 ==> CppRem2(x) == -1
  {
  }

  /** The elements that survive `RemoveOdds`, in their original order:
      the reference the in-place loop is compared with. */
  function Survivors(s: seq<int>): (r: seq<int>)
    ensures |r| <= |s|
  {
    if |s| == 0 then []
    else
      var init := Survivors(s[..|s| - 1]);
      var last := s[|s| - 1];
      if Erased(last) then init else init + [last]
  }

  /** An element survives exactly when it is in the list and is not erased. */
  lemma {:induction false} SurvivorsMembers(s: seq<int>)
    ensures forall x :: x in Survivors(s) <==> x in s && !Erased(x)
    decreases |s|
  {
    if |s| > 0 {
      SurvivorsMembers(s[..|s| - 1]);
      assert s == s[..|s| - 1] + [s[|s| - 1]];
    }
  }

  /** The survivors of one more element. */
  lemma SurvivorsStep(s: seq<int>, k: nat)
    requires k < |s|
    ensures Survivors(s[..k + 1]) == Survivors(s[..k]) + (if Erased(s[k]) then [] else [s[k]])
  {
    assert s[..k + 1][..k] == s[..k];
  }

  /** Lines 17-28: walk the list with an iterator; erase the element under
      it and step past it when it is odd, otherwise just step. The list is
      a sequence and the iterator an index into it. */
  method RemoveOdds(lst: seq<int>) returns (r: seq<int>)
    ensures r == Survivors(lst)
  {
    var l := lst;
    var it := 0;
    ghost var seen := 0;
    while it < |l|
      invariant 0 <= it <= |l| && 0 <= seen <= |lst|
      invariant l[..it] == Survivors(lst[..seen])
      invariant l[it..] == lst[seen..]
      decreases |l| - it
    {
      assert l[it] == lst[seen];
      SurvivorsStep(lst, seen);
      if Erased(l[it]) {
        assert (l[..it] + l[it + 1..])[it..] == l[it + 1..];
        l := l[..it] + l[it + 1..];
      } else {
        assert l[..it + 1] == l[..it] + [l[it]];
        it := it + 1;
      }
      seen := seen + 1;
    }
    assert lst[..seen] == lst;
    r := l;
  }

  // ---------------------------------------------------------------------
  // Properties

  /** Filtering a concatenation filters each part: survivors keep their
      relative order. */
  lemma {:induction false} SurvivorsAppend(a: seq<int>, b: seq<int>)
    ensures Survivors(a + b) == Survivors(a) + Survivors(b)
    decreases |b|
  {
    if |b| == 0 {
      assert a + b == a;
    } else {
      var ab := a + b;
      var init := b[..|b| - 1];
      assert ab[..|ab| - 1] == a + init;
      SurvivorsAppend(a, init);
      var tail := if Erased(b[|b| - 1]) then [] else [b[|b| - 1]];
      assert Survivors(b) == Survivors(init) + tail;
      assert Survivors(ab) == Survivors(a + init) + tail;
    }
  }

  /** Nothing left after `RemoveOdds` would be erased again. */
  lemma {:induction false} SurvivorsKeepAll(s: seq<int>)
    requires forall x :: x in s ==> !Erased(x)
    ensures Survivors(s) == s
    decreases |s|
  {
    if |s| > 0 {
      assert s[|s| - 1] in s;
      SurvivorsKeepAll(s[..|s| - 1]);
      assert s == s[..|s| - 1] + [s[|s| - 1]];
    }
  }

  /** Removing odds twice is removing them once. */
  lemma SurvivorsIdempotent(s: seq<int>)
    ensures Survivors(Survivors(s)) == Survivors(s)
  {
    SurvivorsMembers(s);
    SurvivorsKeepAll(Survivors(s));
  }

  /** Negative odd numbers survive, along with every even number. */
  lemma KeptUnlessPositiveOdd(s: seq<int>, i: int)
    requires 0 <= i < |s| && !(s[i] > 0 && s[i] % 2 == 1)
    ensures s[i] in Survivors(s)
  {
    ErasedIffPositiveOdd(s[i]);
    SurvivorsMembers(s);
  }

  /** Line 41: `{1, 2, 3, 4}` becomes `{2, 4}`. */
  lemma OneToFour()
    ensures Survivors([1, 2, 3, 4]) == [2, 4]
  {
    assert [1, 2, 3, 4] == [1, 2] + [3, 4];
    SurvivorsAppend([1, 2], [3, 4]);
    assert [1, 2][..1] == [1];
    assert [3, 4][..1] == [3];
    assert Survivors([1]) == [] by {
      assert [1][..0] == [];
    }
    assert Survivors([3]) == [] by {
      assert [3][..0] == [];
    }
  }

  /** A negative odd number is kept: `{-3, 5}` becomes `{-3}`. */
  lemma NegativeOddKept()
    ensures Survivors([-3, 5]) == [-3]
  {
    assert [-3, 5][..1] == [-3];
    assert [-3][..0] == [];
  }
}
