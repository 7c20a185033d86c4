/** The two variadic-template examples: the recursive `adder` and the toy
    `MyVector` whose `push_back_all` expands into one `push_back` per
    argument. A parameter pack is a non-empty sequence of arguments. */
module VariadicTemplates {

  // ---------------------------------------------------------------------
  // adder (variadic_templates.cpp lines 22-36)

  /** Summing left to right, as `std::accumulate` would: the reference the
      recursive `adder` is compared with. */
  function LeftSum(s: seq<int>): int {
    if |s| == 0 then 0 else LeftSum(s[..|s| - 1]) + s[|s| - 1]
  }

  /** Peeling the first element off a left-to-right sum. */
  lemma {:induction false} LeftSumFirst(s: seq<int>)
    requires |s| >= 1
    ensures LeftSum(s) == s[0] + LeftSum(s[1..])
    decreases |s|
  {
    if |s| == 1 {
      assert s[1..] == [];
      assert s[..0] == [];
    } else {
      var init := s[..|s| - 1];
      LeftSumFirst(init);
      assert init[1..] == s[1..][..|s| - 2];
      assert s[1..][|s| - 2] == s[|s| - 1];
    }
  }

  /** `adder(first, rest...)`: one argument is returned as is; otherwise the
      first is added to the sum of the rest, a right fold. It equals the
      left-to-right sum of all arguments. */
  function Adder(args: seq<int>): (r: int)
    requires |args| >= 1
    ensures r == LeftSum(args)
    decreases |args|
  {
    if |args| == 1 then
      assert args[..0] == [];
      args[0]
    else
      LeftSumFirst(args);
      args[0] + Adder(args[1..])
  }

  /** Line 119: `adder(1, 2, 3, 4, 5)` is 15. */
  lemma AdderOneToFive()
    ensures Adder([1, 2, 3, 4, 5]) == 15
  {
    var s := [1, 2, 3, 4, 5];
    assert s[1..] == [2, 3, 4, 5];
    assert s[1..][1..] == [3, 4, 5];
    assert s[1..][1..][1..] == [4, 5];
    assert s[1..][1..][1..][1..] == [5];
  }

  // ---------------------------------------------------------------------
  // MyVector (variadic_templates.cpp lines 53-100)

  /** `MyVector<T>`: the `size_` elements of `data_`. */
  datatype MyVector<T> = MyVector(data: seq<T>)

  /** `MyVector()`: no elements. */
  function EmptyVector<T>(): (v: MyVector<T>)
    ensures Size(v) == 0
  {
    MyVector([])
  }

  /** `size()`: how many elements are stored; none exactly for the empty
      vector. */
  function Size<T>(v: MyVector<T>): (n: nat)
    ensures n == 0 <==> v.data == []
  {
    |v.data|
  }

  /** `push_back`: a fresh array one longer, the old elements copied in
      order, the value in the last slot. */
  method PushBack<T>(v: MyVector<T>, value: T) returns (r: MyVector<T>)
    ensures Size(r) == Size(v) + 1
    ensures forall i :: 0 <= i < Size(v) ==> r.data[i] == v.data[i]
    ensures r.data[Size(v)] == value
  {
    var n := |v.data|;
    var grown := new T[n + 1](_ => value);
    var i := 0;
    while i < n
      invariant 0 <= i <= n
      invariant forall j :: 0 <= j < i ==> grown[j] == v.data[j]
    {
      grown[i] := v.data[i];
      i := i + 1;
    }
    grown[n] := value;
    r := MyVector(grown[..]);
  }

  /** `push_back_all(first, rest...)`: `push_back(first)`, then the rest
      when there is any. The arguments end up appended in order. */
  method PushBackAll<T>(v: MyVector<T>, args: seq<T>) returns (r: MyVector<T>)
    requires |args| >= 1
    ensures r.data == v.data + args
    decreases |args|
  {
    r := PushBack(v, args[0]);
    assert r.data == v.data + [args[0]];
    if |args| > 1 {
      r := PushBackAll(r, args[1..]);
      assert [args[0]] + args[1..] == args;
    }
  }

  /** Line 124: `push_back_all(10, 20, 30, 40)` on an empty vector holds
      10 20 30 40. */
  method PushBackAllTenToForty() returns (v: MyVector<int>)
    ensures Size(v) == 4 && v.data == [10, 20, 30, 40]
  {
    v := PushBackAll(EmptyVector(), [10, 20, 30, 40]);
  }
}
