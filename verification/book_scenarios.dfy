/** Concrete runs of the order book, including the run that shows a
    Fill-And-Kill sell resting after `AddOrder`. */
module BookScenarios {
  import opened Orders
  import opened Levels
  import opened OrderBook
  import opened BookProperties

  /** The Good-Till-Cancel buy of 5 at 100. */
  function GtcBid(): Order {
    NewOrder(GoodTillCancel, 1, Buy, 100, 5)
  }

  /** `GtcBid` resting in an empty book; `OneBidAdded` shows that this is
      what `AddOrder` makes of the empty book. */
  function OneBid(): (b: Book)
    ensures Valid(b) && Uncrossed(b) && NoRestingFak(b)
  {
    InsertUncrossed(EmptyBook(), GtcBid());
    Insert(EmptyBook(), GtcBid())
  }

  /** Adding `GtcBid` to the empty book rests it without a trade. */
  lemma OneBidAdded()
    ensures AddOrder(EmptyBook(), GtcBid()) == (OneBid(), [])
  {
    AddNonCrossingRests(EmptyBook(), GtcBid());
  }

  lemma OneBidShape()
    ensures OneBid() == Book(map[100 := [GtcBid()]], map[], map[1 := Entry(GoodTillCancel, Buy, 100)])
  {
    var r := Insert(EmptyBook(), GtcBid());
    assert LevelAt(map[], 100) + [GtcBid()] == [GtcBid()];
    assert r.bids == map[100 := [GtcBid()]];
    assert r.asks == map[];
    assert r.index == map[1 := Entry(GoodTillCancel, Buy, 100)];
  }

  /** The Fill-And-Kill sell of 10 at 100. */
  function FakSell(): Order {
    NewOrder(FillAndKill, 2, Sell, 100, 10)
  }

  /** `OneBid` after the Fill-And-Kill sell is inserted, before matching. */
  function Crossed(): (b: Book)
    ensures Valid(b)
    ensures b.bids == map[100 := [GtcBid()]]
    ensures b.asks == map[100 := [FakSell()]]
    ensures b.index == map[1 := Entry(GoodTillCancel, Buy, 100), 2 := Entry(FillAndKill, Sell, 100)]
  {
    CrossedShape();
    Insert(OneBid(), FakSell())
  }

  /** Inserting the sell leaves the bids and opens the ask level 100. */
  lemma CrossedShape()
    ensures var i := Insert(OneBid(), FakSell());
            && i.bids == map[100 := [GtcBid()]]
            && i.asks == map[100 := [FakSell()]]
            && i.index == map[1 := Entry(GoodTillCancel, Buy, 100), 2 := Entry(FillAndKill, Sell, 100)]
  {
    CrossedBids();
    CrossedAsks();
  }

  /** The bids and the index of the crossed book. */
  lemma CrossedBids()
    ensures var i := Insert(OneBid(), FakSell());
            && i.bids == map[100 := [GtcBid()]]
            && i.index == map[1 := Entry(GoodTillCancel, Buy, 100), 2 := Entry(FillAndKill, Sell, 100)]
  {
    OneBidShape();
  }

  /** The asks of the crossed book: the sell alone at 100. */
  lemma CrossedAsks()
    ensures Insert(OneBid(), FakSell()).asks == map[100 := [FakSell()]]
  {
    OneBidShape();
    var i := Insert(OneBid(), FakSell());
    assert i.asks.Keys == {100};
    assert LevelAt(map[], 100) + [FakSell()] == [FakSell()];
  }


  /** Both sides of the crossed book have their only level at 100. */
  lemma CrossedBest()
    ensures CanTrade(Crossed()) && BestBid(Crossed()) == 100 && BestAsk(Crossed()) == 100
  {
    var b := Crossed();
    assert 100 in b.bids && 100 in b.asks;
    assert BestBid(b) in b.bids && BestAsk(b) in b.asks;
  }

  /** Filling the only order of a level completely erases the level. */
  lemma FillOnlyOrder(b: Book, side: Side, price: Price, q: Quantity)
    requires Valid(b) && price in LadderOf(b, side) && |LadderOf(b, side)[price]| == 1
    requires q == LadderOf(b, side)[price][0].remaining
    ensures price !in LadderOf(FillFront(b, side, price, q), side)
    ensures FillFront(b, side, price, q).index == b.index - {LadderOf(b, side)[price][0].id}
  {
    var r := FillFront(b, side, price, q);
    if price in LadderOf(r, side) {
      LevelOf(r, side, price);
    }
  }

  /** The bid leg of the one match: the bid of 5 fills completely and its
      level, the only bid level, is erased. */
  function AfterBid(): (b: Book)
    ensures Valid(b) && b.bids == map[] && b.asks == Crossed().asks
    ensures b.index == Crossed().index - {1}
  {
    FillOnlyOrder(Crossed(), Buy, 100, 5);
    FillFront(Crossed(), Buy, 100, 5)
  }

  /** Only the sell stays indexed once the bid is gone. */
  lemma OnlySellIndexed()
    ensures map[1 := Entry(GoodTillCancel, Buy, 100), 2 := Entry(FillAndKill, Sell, 100)] - {1}
            == map[2 := Entry(FillAndKill, Sell, 100)]
  {
    var m := map[1 := Entry(GoodTillCancel, Buy, 100), 2 := Entry(FillAndKill, Sell, 100)] - {1};
    assert m.Keys == {2};
  }

  /** The ask leg of the one match: the sell keeps 5 and stays indexed. */
  function AfterMatch(): (b: Book)
    ensures Valid(b) && b.bids == map[] && b.index == AfterBid().index
    ensures LevelAt(b.asks, 100) == [FakSell().(remaining := 5)]
  {
    var o2 := FakSell();
    assert [o2.(remaining := 5)] + [o2][1..] == [o2.(remaining := 5)];
    FillFront(AfterBid(), Sell, 100, 5)
  }

  /** The trade of the one match. */
  function OneTrade(): (t: Trade)
    ensures t.bid.quantity == 5 && Balanced(t)
  {
    CrossedBest();
    MatchStep(Crossed()).1
  }

  /** The one match of the run trades 5 and ends with the ask leg. */
  lemma MatchOnce()
    ensures CanTrade(Crossed())
    ensures MatchStep(Crossed()) == (AfterMatch(), OneTrade())
  {
    CrossedBest();
  }

  /** The sell crosses the bid, so `AddOrder` inserts it and matches. */
  lemma SellAccepted()
    ensures AddOrder(OneBid(), FakSell()) == MatchOrders(Crossed())
  {
    OneBidAccepts();
    AddAccepted(OneBid(), FakSell());
  }

  /** The bid at 100 crosses the Fill-And-Kill sell, so the sell is accepted
      and inserted into the crossed book. */
  lemma OneBidAccepts()
    ensures Accepted(OneBid(), FakSell()) && Insert(OneBid(), FakSell()) == Crossed()
  {
    var b0 := OneBid();
    OneBidShape();
    assert BestBid(b0) == 100;
    assert CanMatch(b0, Sell, 100);
  }

  /** An accepted order is rested, then the book is matched. */
  lemma AddAccepted(b: Book, o: Order)
    requires Valid(b) && WellFormed(o) && Accepted(b, o)
    ensures AddOrder(b, o) == MatchOrders(Insert(b, o))
  {
    assert AddOrder(b, o) == RestAndMatch(b, o);
  }

  /** Matching the crossed book is the one match and nothing more. */
  lemma MatchingStopsAfterOne()
    ensures MatchOrders(Crossed()) == (AfterMatch(), [OneTrade()])
  {
    CrossedBest();
    MatchOnce();
    LastBidEndsMatching(Crossed(), AfterMatch(), OneTrade());
  }

  /** As written: a Fill-And-Kill sell of 10 at 100 against the bid of 5
      trades 5 and its remaining 5 rests on the ask side, because only the
      front of the best bid level is checked for Fill-And-Kill. */
  lemma FakSellRestsAsWritten()
    ensures var r := AddOrder(OneBid(), FakSell());
            && r == (AfterMatch(), [OneTrade()])
            && r.1[0].bid.quantity == 5
            && LevelAt(r.0.asks, 100) == [FakSell().(remaining := 5)]
            && r.0.index == map[2 := Entry(FillAndKill, Sell, 100)]
            && !NoRestingFak(r.0)
  {
    SellAccepted();
    MatchingStopsAfterOne();
    OnlySellIndexed();
  }

  /** Corrected: the same run with the Fill-And-Kill rule applied to the
      incoming order trades the same 5 and leaves an empty book. */
  lemma FakSellKilledCorrected()
    ensures var r := AddOrderKillingFak(OneBid(), FakSell());
            && |r.1| == 1
            && r.0.index == map[]
            && NoRestingFak(r.0)
  {
    FakSellRestsAsWritten();
    OnlySellIndexed();
  }

  /** Lines 359-363: a Good-Till-Cancel buy of 10 at 100 in an empty book
      makes `Size` 1; cancelling it makes `Size` 0 again. */
  lemma AddThenCancelSize()
    ensures var b := AddOrder(EmptyBook(), NewOrder(GoodTillCancel, 1, Buy, 100, 10)).0;
            Size(b) == 1 && Size(CancelOrder(b, 1)) == 0
  {
    var o := NewOrder(GoodTillCancel, 1, Buy, 100, 10);
    AddNonCrossingRests(EmptyBook(), o);
    var b := AddOrder(EmptyBook(), o).0;
    CancelSize(b, 1);
  }
}
