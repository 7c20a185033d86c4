/** Price levels (FIFO queues of orders) and ladders (price-keyed maps of
    levels) of the order book, with the ordered-map queries the book needs. */
module Levels {
  import opened Orders

  /** A FIFO queue of orders at one price; index 0 is the oldest. */
  type Level = seq<Order>

  /** One side of the book: `std::map<Price, OrderPointers>`. */
  type Ladder = map<Price, Level>

  /** The level at price `p`, or the empty queue when none is registered. */
  function LevelAt(l: Ladder, p: Price): Level {
    if p in l then l[p] else []
  }

  /** The identifiers of a level, in queue order. */
  function Ids(level: Level): (ids: seq<OrderId>)
    ensures |ids| == |level|
    ensures forall i :: 0 <= i < |level| ==> ids[i] == level[i].id
  {
    seq(|level|, i requires 0 <= i < |level| => level[i].id)
  }

  /** No identifier occurs twice in the level. */
  predicate DistinctIds(level: Level) {
    forall i, j :: 0 <= i < j < |level| ==> level[i].id != level[j].id
  }

  /** Where `id` first sits in the level: the node a stored list iterator
      designates. */
  function Position(level: Level, id: OrderId): (k: nat)
    requires id in Ids(level)
    ensures k < |level| && level[k].id == id
    ensures forall j :: 0 <= j < k ==> level[j].id != id
  {
    if level[0].id == id then 0
    else
      assert id in Ids(level[1..]) by {
        var j :| 0 <= j < |level| && Ids(level)[j] == id;
        assert Ids(level[1..])[j - 1] == id;
      }
      1 + Position(level[1..], id)
  }

  /** `std::list::erase` at the handle stored for `id`: the order at that
      position leaves the queue and every other order keeps its relative
      place; erasing an id that is not queued changes nothing. */
  function RemoveId(level: Level, id: OrderId): (r: Level)
    ensures id !in Ids(level) ==> r == level
    ensures id in Ids(level) ==> |r| == |level| - 1
  {
    if id in Ids(level) then
      var k := Position(level, id);
      level[..k] + level[k + 1..]
    else level
  }

  /** The remaining quantity of the first order with `id` in the level, or 0
      when none is queued. */
  function RemainingIn(level: Level, id: OrderId): nat {
    if level == [] then 0
    else if level[0].id == id then level[0].remaining
    else RemainingIn(level[1..], id)
  }

  /** Skipping an order with another id does not change what remains of
      `id`. */
  lemma {:induction false} RemainingInSkip(a: Level, o: Order, c: Level, id: OrderId)
    requires o.id != id
    ensures RemainingIn(a + [o] + c, id) == RemainingIn(a + c, id)
    decreases |a|
  {
    if a == [] {
      assert a + [o] + c == [o] + c;
      assert ([o] + c)[1..] == c;
      assert a + c == c;
    } else {
      assert (a + [o] + c)[0] == a[0] && (a + c)[0] == a[0];
      if a[0].id != id {
        assert (a + [o] + c)[1..] == a[1..] + [o] + c;
        assert (a + c)[1..] == a[1..] + c;
        RemainingInSkip(a[1..], o, c, id);
      }
    }
  }

  /** Orders queued ahead that carry other ids do not change what remains
      of `id`. */
  lemma {:induction false} RemainingInPrefix(a: Level, c: Level, id: OrderId)
    requires id !in Ids(a)
    ensures RemainingIn(a + c, id) == RemainingIn(c, id)
    decreases |a|
  {
    if a == [] {
      assert a + c == c;
    } else {
      assert Ids(a)[0] == a[0].id;
      assert (a + c)[1..] == a[1..] + c;
      assert id !in Ids(a[1..]) by {
        forall i | 0 <= i < |a[1..]|
          ensures Ids(a[1..])[i] != id
        {
          assert Ids(a)[i + 1] == a[1..][i].id;
        }
      }
      RemainingInPrefix(a[1..], c, id);
    }
  }

  /** Erasing one id leaves what remains of every other order unchanged. */
  lemma RemainingInRemoveId(level: Level, x: OrderId, id: OrderId)
    requires id != x
    ensures RemainingIn(RemoveId(level, x), id) == RemainingIn(level, id)
  {
    if x in Ids(level) {
      var k := Position(level, x);
      assert level == level[..k] + [level[k]] + level[k + 1..];
      RemainingInSkip(level[..k], level[k], level[k + 1..], id);
    }
  }

  /** Every order of the level rests on `side` at `price` and is well formed. */
  predicate Uniform(level: Level, side: Side, price: Price) {
    forall i :: 0 <= i < |level| ==>
      level[i].side == side && level[i].price == price && WellFormed(level[i])
  }

  /** Position by position: the erased queue skips exactly the erased slot. */
  lemma RemoveIdShape(level: Level, id: OrderId)
    requires id in Ids(level)
    ensures |RemoveId(level, id)| == |level| - 1
    ensures forall i :: 0 <= i < |RemoveId(level, id)| ==>
              RemoveId(level, id)[i] == level[if i < Position(level, id) then i else i + 1]
  {
  }

  /** Erasing from a well-formed level leaves a well-formed level that no
      longer holds `id` and still holds every other identifier. */
  lemma RemoveIdPreserves(level: Level, id: OrderId, side: Side, price: Price)
    requires Uniform(level, side, price) && DistinctIds(level)
    ensures Uniform(RemoveId(level, id), side, price) && DistinctIds(RemoveId(level, id))
    ensures id !in Ids(RemoveId(level, id))
    ensures forall other :: other != id ==>
              (other in Ids(RemoveId(level, id)) <==> other in Ids(level))
  {
    if id in Ids(level) {
      RemoveIdWellFormed(level, id, side, price);
      RemoveIdDropsOnlyId(level, id);
    }
  }

  lemma RemoveIdWellFormed(level: Level, id: OrderId, side: Side, price: Price)
    requires Uniform(level, side, price) && DistinctIds(level) && id in Ids(level)
    ensures Uniform(RemoveId(level, id), side, price) && DistinctIds(RemoveId(level, id))
    ensures id !in Ids(RemoveId(level, id))
  {
    var r := RemoveId(level, id);
    var k := Position(level, id);
    RemoveIdShape(level, id);
    forall i, j | 0 <= i < j < |r|
      ensures r[i].id != r[j].id
    {
      assert r[i] == level[if i < k then i else i + 1];
      assert r[j] == level[if j < k then j else j + 1];
    }
    forall i | 0 <= i < |r|
      ensures Ids(r)[i] != id
    {
      assert r[i] == level[if i < k then i else i + 1];
    }
  }

  lemma RemoveIdDropsOnlyId(level: Level, id: OrderId)
    requires DistinctIds(level) && id in Ids(level)
    ensures forall other :: other != id ==>
              (other in Ids(RemoveId(level, id)) <==> other in Ids(level))
  {
    forall other | other != id
      ensures other in Ids(RemoveId(level, id)) <==> other in Ids(level)
    {
      if other in Ids(level) {
        RemoveIdKeeps(level, id, other);
      }
      if other in Ids(RemoveId(level, id)) {
        RemoveIdAddsNothing(level, id, other);
      }
    }
  }

  lemma RemoveIdKeeps(level: Level, id: OrderId, other: OrderId)
    requires id in Ids(level) && other in Ids(level) && other != id
    ensures other in Ids(RemoveId(level, id))
  {
    var r := RemoveId(level, id);
    var k := Position(level, id);
    RemoveIdShape(level, id);
    var j :| 0 <= j < |level| && Ids(level)[j] == other;
    var i := if j < k then j else j - 1;
    assert r[i] == level[j];
    assert Ids(r)[i] == other;
  }

  lemma RemoveIdAddsNothing(level: Level, id: OrderId, other: OrderId)
    requires id in Ids(level) && other in Ids(RemoveId(level, id))
    ensures other in Ids(level)
  {
    var r := RemoveId(level, id);
    var k := Position(level, id);
    RemoveIdShape(level, id);
    var i :| 0 <= i < |r| && Ids(r)[i] == other;
    var j := if i < k then i else i + 1;
    assert r[i] == level[j];
    assert Ids(level)[j] == other;
  }

  /** Replacing the front order by a partially filled copy of itself keeps the
      level's identifiers and well-formedness. */
  lemma ReplaceFrontPreserves(level: Level, o: Order, side: Side, price: Price)
    requires |level| > 0 && Uniform(level, side, price) && DistinctIds(level)
    requires o.id == level[0].id && o.side == side && o.price == price && WellFormed(o)
    ensures Uniform([o] + level[1..], side, price) && DistinctIds([o] + level[1..])
    ensures Ids([o] + level[1..]) == Ids(level)
  {
    var r := [o] + level[1..];
    assert forall i :: 0 < i < |r| ==> r[i] == level[i];
  }

  /** Appending a fresh order at the tail keeps the level well formed. */
  lemma AppendPreserves(level: Level, o: Order, side: Side, price: Price)
    requires Uniform(level, side, price) && DistinctIds(level) && o.id !in Ids(level)
    requires o.side == side && o.price == price && WellFormed(o)
    ensures Uniform(level + [o], side, price) && DistinctIds(level + [o])
    ensures Ids(level + [o]) == Ids(level) + [o.id]
  {
    var r := level + [o];
    assert forall i :: 0 <= i < |level| ==> r[i] == level[i] && Ids(level)[i] == level[i].id;
  }

  lemma Maximum(s: set<Price>) returns (m: Price)
    requires s != {}
    ensures m in s && forall p :: p in s ==> p <= m
  {
    var x :| x in s;
    var rest := s - {x};
    assert forall p :: p in s ==> p in rest || p == x;
    if rest == {} {
      m := x;
    } else {
      var r := Maximum(rest);
      m := if x > r then x else r;
    }
  }

  lemma Minimum(s: set<Price>) returns (m: Price)
    requires s != {}
    ensures m in s && forall p :: p in s ==> m <= p
  {
    var x :| x in s;
    var rest := s - {x};
    assert forall p :: p in s ==> p in rest || p == x;
    if rest == {} {
      m := x;
    } else {
      var r := Minimum(rest);
      m := if x < r then x else r;
    }
  }

  lemma MaxExists(s: set<Price>)
    requires s != {}
    ensures exists m :: m in s && forall p :: p in s ==> p <= m
  {
    var m := Maximum(s);
  }

  lemma MinExists(s: set<Price>)
    requires s != {}
    ensures exists m :: m in s && forall p :: p in s ==> m <= p
  {
    var m := Minimum(s);
  }

  /** The greatest registered price: `begin()` of a `std::greater` map. */
  function MaxPrice(s: set<Price>): (m: Price)
    requires s != {}
    ensures m in s && forall p :: p in s ==> p <= m
  {
    MaxExists(s);
    var m :| m in s && forall p :: p in s ==> p <= m; m
  }

  /** The least registered price: `begin()` of a `std::less` map. */
  function MinPrice(s: set<Price>): (m: Price)
    requires s != {}
    ensures m in s && forall p :: p in s ==> m <= p
  {
    MinExists(s);
    var m :| m in s && forall p :: p in s ==> m <= p; m
  }

  /** Price priority of a side: bids prefer higher prices, asks lower. */
  predicate Better(side: Side, p: Price, q: Price) {
    if side == Buy then p > q else p < q
  }

  /** The best price among `s` for `side`. */
  function BestOf(s: set<Price>, side: Side): (m: Price)
    requires s != {}
    ensures m in s && forall p :: p in s && p != m ==> Better(side, m, p)
  {
    if side == Buy then MaxPrice(s) else MinPrice(s)
  }

  /** The prices of a ladder in its iteration order, best first. */
  function PricesBestFirst(s: set<Price>, side: Side): (ps: seq<Price>)
    ensures |ps| == |s|
    ensures forall p :: p in s <==> p in ps
    ensures forall i, j :: 0 <= i < j < |ps| ==> Better(side, ps[i], ps[j])
    decreases |s|
  {
    if s == {} then []
    else
      var m := BestOf(s, side);
      var rest := PricesBestFirst(s - {m}, side);
      assert forall p :: p in rest ==> p in s && p != m;
      [m] + rest
  }
}
