/** Properties of the order book that relate several operations or explain
    what its invariant means. */
module BookProperties {
  import opened Orders
  import opened Levels
  import opened OrderBook

  // ---------------------------------------------------------------------
  // What the invariant means

  /** An id is indexed exactly when it rests in some level of some ladder:
      the index and the ladders describe the same set of orders. */
  lemma IndexedIffResting(b: Book, id: OrderId)
    requires Valid(b)
    ensures id in b.index <==> exists s, p :: p in LadderOf(b, s) && id in Ids(LadderOf(b, s)[p])
  {
    if id in b.index {
      assert EntryResolves(b, id);
    }
    if exists s, p :: p in LadderOf(b, s) && id in Ids(LadderOf(b, s)[p]) {
      var s, p :| p in LadderOf(b, s) && id in Ids(LadderOf(b, s)[p]);
      RestsOnce(b, id, s, p);
    }
  }

  /** An order resting in a level rests at the side and price its index
      entry names, and only at its first position there. */
  lemma RestsOnce(b: Book, id: OrderId, s: Side, p: Price)
    requires Valid(b) && p in LadderOf(b, s) && id in Ids(LadderOf(b, s)[p])
    ensures id in b.index && b.index[id].side == s && b.index[id].price == p
    ensures var level := LadderOf(b, s)[p];
            forall i :: 0 <= i < |level| && level[i].id == id ==> i == Position(level, id)
  {
    var level := LadderOf(b, s)[p];
    LevelOf(b, s, p);
    var i :| 0 <= i < |level| && Ids(level)[i] == id;
    assert b.index[level[i].id] == Entry(level[i].kind, s, p);
  }

  /** Every resting order has remaining quantity at most its initial one. */
  lemma RestingWellFormed(b: Book, s: Side, p: Price, i: int)
    requires Valid(b) && p in LadderOf(b, s) && 0 <= i < |LadderOf(b, s)[p]|
    ensures WellFormed(LadderOf(b, s)[p][i])
    ensures FilledQuantity(LadderOf(b, s)[p][i]) + LadderOf(b, s)[p][i].remaining
            == LadderOf(b, s)[p][i].initial
  {
    LevelOf(b, s, p);
  }

  // ---------------------------------------------------------------------
  // Resting without a cross

  /** A book without a resting Fill-And-Kill order has none at the front of
      its best bid. */
  lemma NoFakNoFront(b: Book)
    requires Valid(b) && NoRestingFak(b)
    ensures !FrontIsFak(b)
  {
    if b.bids != map[] {
      LevelOf(b, Buy, BestBid(b));
      var front := b.bids[BestBid(b)][0];
      assert front.id in b.index;
    }
  }

  /** Inserting an order that cannot cross keeps an uncrossed book uncrossed. */
  lemma InsertUncrossed(b: Book, o: Order)
    requires Valid(b) && Uncrossed(b) && o.id !in b.index && WellFormed(o)
    requires !CanMatch(b, o.side, o.price)
    ensures Uncrossed(Insert(b, o))
  {
    var r := Insert(b, o);
    if o.side == Buy {
      assert r.asks == b.asks;
      forall p, q | p in r.bids && q in r.asks ensures p < q {
        if p == o.price {
          assert !Crosses(Buy, o.price, q);
        } else {
          assert p in b.bids;
        }
      }
    } else {
      assert r.bids == b.bids;
      forall p, q | p in r.bids && q in r.asks ensures p < q {
        if q == o.price {
          assert !Crosses(Sell, o.price, p);
        } else {
          assert q in b.asks;
        }
      }
    }
  }

  /** Inserting a Good-Till-Cancel order does not put a Fill-And-Kill order
      at the front of the best bid. */
  lemma InsertKeepsFront(b: Book, o: Order)
    requires Valid(b) && !FrontIsFak(b) && o.id !in b.index && WellFormed(o)
    requires o.kind == GoodTillCancel
    ensures !FrontIsFak(Insert(b, o))
  {
    var r := Insert(b, o);
    if o.side == Sell {
      assert r.bids == b.bids;
    } else {
      assert r.bids.Keys == b.bids.Keys + {o.price};
      var m := BestBid(r);
      if m != o.price {
        InsertBelowBestBid(b, o);
      } else if o.price in b.bids {
        InsertAtBestBid(b, o);
      } else {
        InsertNewBestBid(b, o);
      }
    }
  }

  /** The best bid after inserting a bid elsewhere is the old best bid, with
      its queue untouched. */
  lemma InsertBelowBestBid(b: Book, o: Order)
    requires Valid(b) && !FrontIsFak(b) && o.id !in b.index && WellFormed(o) && o.side == Buy
    requires BestBid(Insert(b, o)) != o.price
    ensures !FrontIsFak(Insert(b, o))
  {
    var r := Insert(b, o);
    var m := BestBid(r);
    assert m in b.bids;
    assert BestBid(b) == m;
    assert r.bids[m] == b.bids[m];
    LevelOf(b, Buy, m);
  }

  /** A bid joining the best bid level queues behind its front. */
  lemma InsertAtBestBid(b: Book, o: Order)
    requires Valid(b) && !FrontIsFak(b) && o.id !in b.index && WellFormed(o) && o.side == Buy
    requires BestBid(Insert(b, o)) == o.price && o.price in b.bids
    ensures !FrontIsFak(Insert(b, o))
  {
    var r := Insert(b, o);
    var m := o.price;
    assert BestBid(b) == m;
    LevelOf(b, Buy, m);
    assert r.bids[m] == b.bids[m] + [o];
  }

  /** A bid opening a new best level is its front. */
  lemma InsertNewBestBid(b: Book, o: Order)
    requires Valid(b) && o.id !in b.index && WellFormed(o) && o.side == Buy
    requires BestBid(Insert(b, o)) == o.price && o.price !in b.bids
    ensures Insert(b, o).bids[o.price] == [o]
    ensures FrontIsFak(Insert(b, o)) <==> o.kind == FillAndKill
  {
    assert LevelAt(b.bids, o.price) == [];
  }

  /** A Good-Till-Cancel order that cannot cross rests at the tail of the
      queue for its exact price, produces no trade, and `Size` counts it. */
  lemma AddNonCrossingRests(b: Book, o: Order)
    requires Valid(b) && Uncrossed(b) && !FrontIsFak(b)
    requires o.kind == GoodTillCancel && o.id !in b.index && WellFormed(o)
    requires !CanMatch(b, o.side, o.price)
    ensures AddOrder(b, o) == (Insert(b, o), [])
    ensures LevelAt(LadderOf(AddOrder(b, o).0, o.side), o.price) == LevelAt(LadderOf(b, o.side), o.price) + [o]
    ensures AddOrder(b, o).0.index[o.id] == Entry(o.kind, o.side, o.price)
    ensures Size(AddOrder(b, o).0) == Size(b) + 1
  {
    var r := Insert(b, o);
    InsertUncrossed(b, o);
    InsertKeepsFront(b, o);
    assert MatchLoop(r) == (r, []);
    assert KillFrontFak(r) == r;
  }

  /** The empty tail of the trade list, proved apart from any book so that
      the sequence reasoning stays out of the matching proofs. */
  lemma AppendNothing(ts: seq<Trade>)
    ensures ts + [] == ts
  {
  }

  /** A match that takes the last bid ends matching: `MatchOrders` is that
      one trade, and the Fill-And-Kill check finds no bid to cancel. */
  lemma LastBidEndsMatching(b: Book, b1: Book, t: Trade)
    requires Valid(b) && CanTrade(b) && MatchStep(b) == (b1, t) && b1.bids == map[]
    ensures MatchOrders(b) == (b1, [t])
  {
    assert Uncrossed(b1);
    AppendNothing([t]);
    assert MatchLoop(b) == (b1, [t]);
    assert KillFrontFak(b1) == b1;
  }

  // ---------------------------------------------------------------------
  // Cancel and modify

  /** Cancelling splices the order out of its level: every other order of
      the level keeps its relative position. */
  lemma CancelSplicesLevel(b: Book, id: OrderId)
    requires Valid(b) && id in b.index
    ensures var e := b.index[id];
            var level := LadderOf(b, e.side)[e.price];
            id in Ids(level)
            && LevelAt(LadderOf(CancelOrder(b, id), e.side), e.price)
               == level[..Position(level, id)] + level[Position(level, id) + 1..]
  {
    var e := b.index[id];
    assert EntryResolves(b, id);
    var level := LadderOf(b, e.side)[e.price];
    var c := CancelOrder(b, id);
    assert LevelAt(LadderOf(c, e.side), e.price) == RemoveId(LevelAt(LadderOf(b, e.side), e.price), id);
    assert LevelAt(LadderOf(b, e.side), e.price) == level;
  }

  /** `Size` drops by one exactly when the cancelled id was resting. */
  lemma CancelSize(b: Book, id: OrderId)
    requires Valid(b)
    ensures Size(CancelOrder(b, id)) == if id in b.index then Size(b) - 1 else Size(b)
  {
    var r := CancelOrder(b, id);
    if id in b.index {
      assert r.index.Keys == b.index.Keys - {id};
    }
  }

  /** Cancelling twice is cancelling once. */
  lemma CancelIdempotent(b: Book, id: OrderId)
    requires Valid(b)
    ensures CancelOrder(CancelOrder(b, id), id) == CancelOrder(b, id)
    ensures id !in CancelOrder(b, id).index
  {
  }

  /** Cancelling keeps a book free of resting Fill-And-Kill orders. */
  lemma CancelKeepsNoFak(b: Book, id: OrderId)
    requires Valid(b) && NoRestingFak(b)
    ensures NoRestingFak(CancelOrder(b, id))
  {
  }

  /** Modifying a resting order that, after its cancellation, does not cross
      re-queues it at the tail of the level for its new price: it loses its
      time priority. */
  lemma ModifyLosesPriority(b: Book, m: OrderModify)
    requires Valid(b) && Uncrossed(b) && m.id in b.index && b.index[m.id].kind == GoodTillCancel
    requires !FrontIsFak(CancelOrder(b, m.id))
    requires !CanMatch(CancelOrder(b, m.id), m.side, m.price)
    ensures var c := CancelOrder(b, m.id);
            var o := ToOrder(m, GoodTillCancel);
            && ModifyOrder(b, m) == (Insert(c, o), [])
            && LevelAt(LadderOf(ModifyOrder(b, m).0, m.side), m.price)
               == LevelAt(LadderOf(c, m.side), m.price) + [o]
            && Size(ModifyOrder(b, m).0) == Size(b)
  {
    var c := CancelOrder(b, m.id);
    var o := ToOrder(m, GoodTillCancel);
    CancelSize(b, m.id);
    AddNonCrossingRests(c, o);
  }

  // ---------------------------------------------------------------------
  // Duplicate rejection

  /** Submitting an order whose id already rests changes nothing, so
      submitting the same order twice is submitting it once. */
  lemma DuplicateRejected(b: Book, o: Order)
    requires Valid(b) && WellFormed(o)
    ensures var r := AddOrder(b, o).0;
            o.id in r.index ==> AddOrder(r, o) == (r, [])
  {
  }
}
