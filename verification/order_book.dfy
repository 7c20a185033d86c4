/** The limit order book of orderbook.cpp: a bid ladder (best = highest
    price), an ask ladder (best = lowest price) and an index from order id to
    resting order, with price-time-priority matching. Every operation is a
    pure transition on an immutable `Book`. */
module OrderBook {
  import opened Wrappers
  import opened Orders
  import opened Levels

  /** What an index entry reaches through its shared pointer and list
      iterator: the order's immutable attributes. Its position inside the
      level is found by identifier (`std::list` iterators are not modelled). */
  datatype Entry = Entry(kind: OrderType, side: Side, price: Price)

  datatype Book = Book(bids: Ladder, asks: Ladder, index: map<OrderId, Entry>)

  /** A default-constructed `OrderBook`. */
  function EmptyBook(): (b: Book)
    ensures Valid(b) && Uncrossed(b) && Size(b) == 0
  {
    Book(map[], map[], map[])
  }

  function LadderOf(b: Book, side: Side): Ladder {
    if side == Buy then b.bids else b.asks
  }

  /** `b` with the ladder of `side` and the index replaced. */
  function WithLadder(b: Book, side: Side, l: Ladder, index: map<OrderId, Entry>): (r: Book)
    ensures LadderOf(r, side) == l
    ensures LadderOf(r, Opposite(side)) == LadderOf(b, Opposite(side))
    ensures r.index == index
  {
    if side == Buy then Book(l, b.asks, index) else Book(b.bids, l, index)
  }

  // ---------------------------------------------------------------------
  // The class invariant

  /** A registered level: non-empty, every order on `side` at `price`, well
      formed, with distinct ids, each indexed at this very level. */
  ghost predicate LevelValid(level: Level, side: Side, price: Price, index: map<OrderId, Entry>) {
    && |level| > 0
    && Uniform(level, side, price)
    && DistinctIds(level)
    && forall i :: 0 <= i < |level| ==>
         level[i].id in index && index[level[i].id] == Entry(level[i].kind, side, price)
  }

  ghost predicate LadderValid(l: Ladder, side: Side, index: map<OrderId, Entry>) {
    forall p :: p in l ==> LevelValid(l[p], side, p, index)
  }

  /** Every index entry names a registered level that holds the order. */
  ghost predicate Resolves(b: Book) {
    forall id :: id in b.index ==> EntryResolves(b, id)
  }

  ghost predicate EntryResolves(b: Book, id: OrderId)
    requires id in b.index
  {
    var e := b.index[id];
    e.price in LadderOf(b, e.side) && id in Ids(LadderOf(b, e.side)[e.price])
  }

  /** The invariant every public operation keeps: no empty level, remaining
      never above initial, and an id is indexed iff it rests in exactly one
      level. */
  ghost predicate Valid(b: Book) {
    && LadderValid(b.bids, Buy, b.index)
    && LadderValid(b.asks, Sell, b.index)
    && Resolves(b)
  }

  /** No bid price reaches any ask price. */
  ghost predicate Uncrossed(b: Book) {
    forall p, q :: p in b.bids && q in b.asks ==> p < q
  }

  /** Removing levels cannot cross a book. */
  lemma ShrinkUncrossed(b: Book, r: Book)
    requires r.bids.Keys <= b.bids.Keys && r.asks.Keys <= b.asks.Keys
    ensures Uncrossed(b) ==> Uncrossed(r)
  {
  }

  /** `a` keeps a subset of the entries of `b`, unchanged. */
  ghost predicate SubIndex(a: map<OrderId, Entry>, b: map<OrderId, Entry>) {
    forall id :: id in a ==> id in b && a[id] == b[id]
  }

  lemma SideValid(b: Book, side: Side)
    requires Valid(b)
    ensures LadderValid(LadderOf(b, side), side, b.index)
  {
  }

  /** The level at `p` on `side` of a valid book is a valid level. */
  lemma LevelOf(b: Book, side: Side, p: Price)
    requires Valid(b) && p in LadderOf(b, side)
    ensures LevelValid(LadderOf(b, side)[p], side, p, b.index)
  {
    SideValid(b, side);
  }

  /** An indexed id rests only at the level its entry names. */
  lemma OnlyAtItsLevel(b: Book, id: OrderId, side: Side, p: Price)
    requires Valid(b) && id in b.index && p in LadderOf(b, side)
    requires side != b.index[id].side || p != b.index[id].price
    ensures id !in Ids(LadderOf(b, side)[p])
  {
    var level := LadderOf(b, side)[p];
    LevelOf(b, side, p);
    forall i | 0 <= i < |level| ensures Ids(level)[i] != id {
      assert b.index[level[i].id] == Entry(level[i].kind, side, p);
    }
  }

  /** An id that is not indexed rests in no level, so erasing it changes
      nothing. */
  lemma NotIndexedNowhere(b: Book, id: OrderId)
    requires Valid(b) && id !in b.index
    ensures forall s, p :: RemoveId(LevelAt(LadderOf(b, s), p), id) == LevelAt(LadderOf(b, s), p)
    ensures b.index - {id} == b.index
  {
    forall s, p | p in LadderOf(b, s)
      ensures id !in Ids(LadderOf(b, s)[p])
    {
      var level := LadderOf(b, s)[p];
      LevelOf(b, s, p);
      forall i | 0 <= i < |level| ensures Ids(level)[i] != id {
        assert level[i].id in b.index;
      }
    }
  }

  // ---------------------------------------------------------------------
  // Level validity under index changes

  lemma LevelWithoutId(level: Level, side: Side, p: Price, index: map<OrderId, Entry>, id: OrderId)
    requires LevelValid(level, side, p, index) && id !in Ids(level)
    ensures LevelValid(level, side, p, index - {id})
  {
    forall i | 0 <= i < |level| ensures level[i].id != id {
      assert Ids(level)[i] == level[i].id;
    }
  }

  lemma LevelWithNewId(level: Level, side: Side, p: Price, index: map<OrderId, Entry>, id: OrderId, e: Entry)
    requires LevelValid(level, side, p, index) && id !in index
    ensures LevelValid(level, side, p, index[id := e])
    ensures id !in Ids(level)
  {
    forall i | 0 <= i < |level| ensures Ids(level)[i] != id {
      assert level[i].id in index;
    }
  }

  lemma LadderWithNewId(l: Ladder, side: Side, index: map<OrderId, Entry>, id: OrderId, e: Entry)
    requires LadderValid(l, side, index) && id !in index
    ensures LadderValid(l, side, index[id := e])
  {
    forall p | p in l ensures LevelValid(l[p], side, p, index[id := e]) {
      LevelWithNewId(l[p], side, p, index, id, e);
    }
  }

  lemma LadderWithoutId(l: Ladder, side: Side, index: map<OrderId, Entry>, id: OrderId)
    requires LadderValid(l, side, index)
    requires forall p :: p in l ==> id !in Ids(l[p])
    ensures LadderValid(l, side, index - {id})
  {
    forall p | p in l ensures LevelValid(l[p], side, p, index - {id}) {
      LevelWithoutId(l[p], side, p, index, id);
    }
  }

  /** Erasing `id` from a valid level leaves a valid level (if any remains)
      under the index without `id`. */
  lemma RemovedLevelValid(level: Level, side: Side, p: Price, index: map<OrderId, Entry>, id: OrderId)
    requires LevelValid(level, side, p, index)
    requires |RemoveId(level, id)| > 0
    ensures LevelValid(RemoveId(level, id), side, p, index - {id})
  {
    var rest := RemoveId(level, id);
    RemoveIdPreserves(level, id, side, p);
    if id in Ids(level) {
      var k := Position(level, id);
      RemoveIdShape(level, id);
      forall i | 0 <= i < |rest|
        ensures rest[i].id in index - {id} && (index - {id})[rest[i].id] == Entry(rest[i].kind, side, p)
      {
        assert rest[i] == level[if i < k then i else i + 1];
        assert Ids(rest)[i] == rest[i].id;
      }
    } else {
      LevelWithoutId(level, side, p, index, id);
    }
  }

  /** Appending a fresh order to a valid (or absent) level gives a valid level
      under the index extended with the order. */
  lemma AppendedLevelValid(level: Level, o: Order, index: map<OrderId, Entry>)
    requires level == [] || LevelValid(level, o.side, o.price, index)
    requires o.id !in index && WellFormed(o)
    ensures LevelValid(level + [o], o.side, o.price, index[o.id := Entry(o.kind, o.side, o.price)])
  {
    var index' := index[o.id := Entry(o.kind, o.side, o.price)];
    if level != [] {
      LevelWithNewId(level, o.side, o.price, index, o.id, Entry(o.kind, o.side, o.price));
    }
    AppendPreserves(level, o, o.side, o.price);
    var r := level + [o];
    forall i | 0 <= i < |r|
      ensures r[i].id in index' && index'[r[i].id] == Entry(r[i].kind, o.side, o.price)
    {
      if i < |level| {
        assert r[i] == level[i];
      }
    }
  }

  // ---------------------------------------------------------------------
  // Best prices and crossing

  /** Price of the best bid level: `bids_.begin()`. */
  function BestBid(b: Book): (p: Price)
    requires b.bids != map[]
    ensures p in b.bids && forall q :: q in b.bids ==> q <= p
  {
    MaxPrice(b.bids.Keys)
  }

  /** Price of the best ask level: `asks_.begin()`. */
  function BestAsk(b: Book): (p: Price)
    requires b.asks != map[]
    ensures p in b.asks && forall q :: q in b.asks ==> p <= q
  {
    MinPrice(b.asks.Keys)
  }

  /** The oldest order at the best bid. */
  function BestBidFront(b: Book): (o: Order)
    requires Valid(b) && b.bids != map[]
    ensures o == b.bids[BestBid(b)][0]
  {
    LevelOf(b, Buy, BestBid(b));
    b.bids[BestBid(b)][0]
  }

  /** The oldest order at the best ask. */
  function BestAskFront(b: Book): (o: Order)
    requires Valid(b) && b.asks != map[]
    ensures o == b.asks[BestAsk(b)][0]
  {
    LevelOf(b, Sell, BestAsk(b));
    b.asks[BestAsk(b)][0]
  }

  /** An incoming order on `side` at `price` could trade with a resting
      opposite order at `q`. */
  predicate Crosses(side: Side, price: Price, q: Price) {
    if side == Buy then q <= price else price <= q
  }

  /** `CanMatch`: a buy crosses when some ask is at or below its price, a
      sell when some bid is at or above it. */
  function CanMatch(b: Book, side: Side, price: Price): (r: bool)
    ensures r <==> exists q :: q in LadderOf(b, Opposite(side)) && Crosses(side, price, q)
  {
    if side == Buy then
      assert LadderOf(b, Opposite(side)) == b.asks;
      b.asks != map[] && price >= BestAsk(b)
    else
      assert LadderOf(b, Opposite(side)) == b.bids;
      b.bids != map[] && price <= BestBid(b)
  }

  /** The matching loop's continue condition: both ladders occupied and the
      best bid at or above the best ask. */
  predicate CanTrade(b: Book) {
    b.bids != map[] && b.asks != map[] && BestBid(b) >= BestAsk(b)
  }

  lemma CanTradeIffCrossed(b: Book)
    ensures CanTrade(b) <==> !Uncrossed(b)
  {
    if !Uncrossed(b) {
      var p, q :| p in b.bids && q in b.asks && p >= q;
      assert BestBid(b) >= p && BestAsk(b) <= q;
    }
  }

  // ---------------------------------------------------------------------
  // Structural transitions

  /** The ladder with `o` queued at the tail of the level for its price. */
  function InsertedLadder(l: Ladder, o: Order): Ladder {
    l[o.price := LevelAt(l, o.price) + [o]]
  }

  /** The ladder with `id` erased from the level at `p`, and the level
      erased when it empties. */
  function UnlinkedLadder(l: Ladder, p: Price, id: OrderId): Ladder
    requires p in l
  {
    var rest := RemoveId(l[p], id);
    if |rest| == 0 then l - {p} else l[p := rest]
  }

  lemma InsertedLadderLevels(l: Ladder, o: Order)
    ensures LevelAt(InsertedLadder(l, o), o.price) == LevelAt(l, o.price) + [o]
    ensures forall p :: p != o.price ==> LevelAt(InsertedLadder(l, o), p) == LevelAt(l, p)
    ensures InsertedLadder(l, o).Keys == l.Keys + {o.price}
  {
  }

  lemma UnlinkedLadderLevels(l: Ladder, p: Price, id: OrderId)
    requires p in l
    ensures LevelAt(UnlinkedLadder(l, p, id), p) == RemoveId(l[p], id)
    ensures forall q :: q != p ==> LevelAt(UnlinkedLadder(l, p, id), q) == LevelAt(l, q)
    ensures UnlinkedLadder(l, p, id).Keys <= l.Keys
  {
  }

  /** Append a fresh order at the tail of the level for its exact price,
      creating the level if absent, and index it (`AddOrder`, lines 258-274). */
  function Insert(b: Book, o: Order): (r: Book)
    requires Valid(b) && o.id !in b.index && WellFormed(o)
    ensures Valid(r)
    ensures LevelAt(LadderOf(r, o.side), o.price) == LevelAt(LadderOf(b, o.side), o.price) + [o]
    ensures forall p :: p != o.price ==> LevelAt(LadderOf(r, o.side), p) == LevelAt(LadderOf(b, o.side), p)
    ensures LadderOf(r, o.side).Keys == LadderOf(b, o.side).Keys + {o.price}
    ensures LadderOf(r, Opposite(o.side)) == LadderOf(b, Opposite(o.side))
    ensures r.index == b.index[o.id := Entry(o.kind, o.side, o.price)] && |r.index| == |b.index| + 1
  {
    var r := WithLadder(b, o.side, InsertedLadder(LadderOf(b, o.side), o),
                        b.index[o.id := Entry(o.kind, o.side, o.price)]);
    InsertValid(b, o, r);
    InsertedLadderLevels(LadderOf(b, o.side), o);
    r
  }

  lemma InsertValid(b: Book, o: Order, r: Book)
    requires Valid(b) && o.id !in b.index && WellFormed(o)
    requires r == WithLadder(b, o.side, InsertedLadder(LadderOf(b, o.side), o),
                             b.index[o.id := Entry(o.kind, o.side, o.price)])
    ensures Valid(r)
  {
    var side, other := o.side, Opposite(o.side);
    var e := Entry(o.kind, o.side, o.price);
    SideValid(b, side);
    SideValid(b, other);
    InsertLadderValid(b, o, r);
    LadderWithNewId(LadderOf(b, other), other, b.index, o.id, e);
    InsertResolves(b, o, r);
    assert side == Buy || side == Sell;
  }

  lemma InsertLadderValid(b: Book, o: Order, r: Book)
    requires Valid(b) && o.id !in b.index && WellFormed(o)
    requires r == WithLadder(b, o.side, InsertedLadder(LadderOf(b, o.side), o),
                             b.index[o.id := Entry(o.kind, o.side, o.price)])
    ensures LadderValid(LadderOf(r, o.side), o.side, r.index)
  {
    var e := Entry(o.kind, o.side, o.price);
    var l := LadderOf(b, o.side);
    SideValid(b, o.side);
    LadderWithNewId(l, o.side, b.index, o.id, e);
    AppendedLevelValid(LevelAt(l, o.price), o, b.index);
  }

  lemma InsertResolves(b: Book, o: Order, r: Book)
    requires Valid(b) && o.id !in b.index && WellFormed(o)
    requires r == WithLadder(b, o.side, InsertedLadder(LadderOf(b, o.side), o),
                             b.index[o.id := Entry(o.kind, o.side, o.price)])
    ensures Resolves(r)
  {
    var level := LevelAt(LadderOf(b, o.side), o.price);
    if level != [] {
      LevelOf(b, o.side, o.price);
      LevelWithNewId(level, o.side, o.price, b.index, o.id, Entry(o.kind, o.side, o.price));
    }
    AppendPreserves(level, o, o.side, o.price);
    InsertedLadderLevels(LadderOf(b, o.side), o);
    assert EntryResolves(r, o.id);
    forall id | id in r.index && id != o.id ensures EntryResolves(r, id) {
      InsertKeepsEntry(b, o, r, id);
    }
  }

  lemma InsertKeepsEntry(b: Book, o: Order, r: Book, id: OrderId)
    requires Valid(b) && o.id !in b.index && WellFormed(o) && id in b.index
    requires r == WithLadder(b, o.side, InsertedLadder(LadderOf(b, o.side), o),
                             b.index[o.id := Entry(o.kind, o.side, o.price)])
    ensures EntryResolves(r, id)
  {
    var e := b.index[id];
    assert EntryResolves(b, id);
    InsertedLadderLevels(LadderOf(b, o.side), o);
    assert LevelAt(LadderOf(b, e.side), e.price) == LadderOf(b, e.side)[e.price];
    if e.side == o.side && e.price == o.price {
      AppendPreserves(LadderOf(b, e.side)[e.price], o, o.side, o.price) by {
        LevelOf(b, o.side, o.price);
        LevelWithNewId(LadderOf(b, e.side)[e.price], o.side, o.price, b.index, o.id, Entry(o.kind, o.side, o.price));
      }
    }
    assert o.side == Buy || o.side == Sell;
  }

  /** Take `id` out of its level and out of the index, erasing the level if
      it empties (`CancelOrder`, lines 284-307; also the pop of a filled
      order in `MatchOrders`, lines 204-222). */
  function Unlink(b: Book, id: OrderId): (r: Book)
    requires Valid(b) && id in b.index
    ensures Valid(r)
    ensures r.index == b.index - {id} && |r.index| == |b.index| - 1
    ensures forall s, p :: LevelAt(LadderOf(r, s), p) == RemoveId(LevelAt(LadderOf(b, s), p), id)
    ensures LadderOf(r, Opposite(b.index[id].side)) == LadderOf(b, Opposite(b.index[id].side))
    ensures r.bids.Keys <= b.bids.Keys && r.asks.Keys <= b.asks.Keys
  {
    var e := b.index[id];
    assert EntryResolves(b, id);
    var r := WithLadder(b, e.side, UnlinkedLadder(LadderOf(b, e.side), e.price, id), b.index - {id});
    UnlinkValid(b, id, r);
    UnlinkLevels(b, id, r);
    assert r.index.Keys == b.index.Keys - {id};
    r
  }

  /** `r` is `b` with `id` unlinked. */
  ghost predicate IsUnlinked(b: Book, id: OrderId, r: Book)
    requires Valid(b) && id in b.index
  {
    var e := b.index[id];
    EntryResolves(b, id)
    && r == WithLadder(b, e.side, UnlinkedLadder(LadderOf(b, e.side), e.price, id), b.index - {id})
  }

  lemma UnlinkValid(b: Book, id: OrderId, r: Book)
    requires Valid(b) && id in b.index && IsUnlinked(b, id, r)
    ensures Valid(r)
  {
    var e := b.index[id];
    var side, other := e.side, Opposite(e.side);
    SideValid(b, other);
    forall p | p in LadderOf(b, other) ensures id !in Ids(LadderOf(b, other)[p]) {
      OnlyAtItsLevel(b, id, other, p);
    }
    LadderWithoutId(LadderOf(b, other), other, b.index, id);
    UnlinkLadderValid(b, id, r);
    UnlinkResolves(b, id, r);
    assert side == Buy || side == Sell;
  }

  lemma UnlinkLadderValid(b: Book, id: OrderId, r: Book)
    requires Valid(b) && id in b.index && IsUnlinked(b, id, r)
    ensures LadderValid(LadderOf(r, b.index[id].side), b.index[id].side, r.index)
  {
    var e := b.index[id];
    var side := e.side;
    var l := LadderOf(b, side);
    SideValid(b, side);
    forall p | p in LadderOf(r, side) ensures LevelValid(LadderOf(r, side)[p], side, p, r.index) {
      if p == e.price {
        RemovedLevelValid(l[p], side, p, b.index, id);
      } else {
        OnlyAtItsLevel(b, id, side, p);
        LevelWithoutId(l[p], side, p, b.index, id);
      }
    }
  }

  lemma UnlinkResolves(b: Book, id: OrderId, r: Book)
    requires Valid(b) && id in b.index && IsUnlinked(b, id, r)
    ensures Resolves(r)
  {
    var e := b.index[id];
    var level := LadderOf(b, e.side)[e.price];
    LevelOf(b, e.side, e.price);
    RemoveIdPreserves(level, id, e.side, e.price);
    UnlinkedLadderLevels(LadderOf(b, e.side), e.price, id);
    forall id' | id' in r.index ensures EntryResolves(r, id') {
      assert EntryResolves(b, id');
      var e' := b.index[id'];
      if e'.side == e.side && e'.price == e.price {
        assert id' in Ids(RemoveId(level, id));
      }
    }
  }

  lemma UnlinkLevels(b: Book, id: OrderId, r: Book)
    requires Valid(b) && id in b.index && IsUnlinked(b, id, r)
    ensures forall s, p :: LevelAt(LadderOf(r, s), p) == RemoveId(LevelAt(LadderOf(b, s), p), id)
    ensures LadderOf(r, Opposite(b.index[id].side)) == LadderOf(b, Opposite(b.index[id].side))
    ensures r.bids.Keys <= b.bids.Keys && r.asks.Keys <= b.asks.Keys
  {
    var e := b.index[id];
    UnlinkedLadderLevels(LadderOf(b, e.side), e.price, id);
    forall s, p
      ensures LevelAt(LadderOf(r, s), p) == RemoveId(LevelAt(LadderOf(b, s), p), id)
    {
      if (s != e.side || p != e.price) && p in LadderOf(b, s) {
        OnlyAtItsLevel(b, id, s, p);
      }
    }
    assert e.side == Buy || e.side == Sell;
  }

  /** Replace the front order of a level by its partially filled copy; the
      copy keeps its place at the head of the queue. */
  function ReplaceFront(b: Book, side: Side, price: Price, o: Order): (r: Book)
    requires Valid(b) && price in LadderOf(b, side)
    requires var level := LadderOf(b, side)[price];
             |level| > 0 && o.id == level[0].id && o.kind == level[0].kind
             && o.side == side && o.price == price && WellFormed(o)
    ensures Valid(r) && r.index == b.index
    ensures LevelAt(LadderOf(r, side), price) == [o] + LadderOf(b, side)[price][1..]
    ensures forall p :: p != price ==> LevelAt(LadderOf(r, side), p) == LevelAt(LadderOf(b, side), p)
    ensures LadderOf(r, side).Keys == LadderOf(b, side).Keys
    ensures LadderOf(r, Opposite(side)) == LadderOf(b, Opposite(side))
  {
    var l := LadderOf(b, side);
    var r := WithLadder(b, side, l[price := [o] + l[price][1..]], b.index);
    ReplaceFrontValid(b, side, price, o, r);
    r
  }

  lemma ReplaceFrontValid(b: Book, side: Side, price: Price, o: Order, r: Book)
    requires Valid(b) && price in LadderOf(b, side)
    requires var level := LadderOf(b, side)[price];
             |level| > 0 && o.id == level[0].id && o.kind == level[0].kind
             && o.side == side && o.price == price && WellFormed(o)
    requires r == WithLadder(b, side, LadderOf(b, side)[price := [o] + LadderOf(b, side)[price][1..]], b.index)
    ensures Valid(r)
  {
    var level := LadderOf(b, side)[price];
    var level' := [o] + level[1..];
    SideValid(b, side);
    SideValid(b, Opposite(side));
    ReplacedLevelValid(b, side, price, o);
    assert LadderValid(LadderOf(r, side), side, r.index);
    forall id | id in r.index ensures EntryResolves(r, id) {
      assert EntryResolves(b, id);
    }
    assert side == Buy || side == Sell;
  }

  lemma ReplacedLevelValid(b: Book, side: Side, price: Price, o: Order)
    requires Valid(b) && price in LadderOf(b, side)
    requires var level := LadderOf(b, side)[price];
             |level| > 0 && o.id == level[0].id && o.kind == level[0].kind
             && o.side == side && o.price == price && WellFormed(o)
    ensures var level := LadderOf(b, side)[price];
            LevelValid([o] + level[1..], side, price, b.index) && Ids([o] + level[1..]) == Ids(level)
  {
    var level := LadderOf(b, side)[price];
    var level' := [o] + level[1..];
    LevelOf(b, side, price);
    ReplaceFrontPreserves(level, o, side, price);
    forall i | 0 <= i < |level'|
      ensures level'[i].id in b.index && b.index[level'[i].id] == Entry(level'[i].kind, side, price)
    {
      if i > 0 {
        assert level'[i] == level[i];
      }
    }
  }

  // ---------------------------------------------------------------------
  // Matching

  /** What remains of order `id` in the book: 0 once it no longer rests. */
  function Resting(b: Book, id: OrderId): nat {
    if id in b.index then
      RemainingIn(LevelAt(LadderOf(b, b.index[id].side), b.index[id].price), id)
    else 0
  }

  /** The quantity trade `t` takes from order `id`. */
  function Legs(t: Trade, id: OrderId): nat {
    (if t.bid.id == id then t.bid.quantity else 0) + (if t.ask.id == id then t.ask.quantity else 0)
  }

  /** The quantity the trades take from order `id`. */
  function Traded(ts: seq<Trade>, id: OrderId): nat {
    if ts == [] then 0 else Legs(ts[0], id) + Traded(ts[1..], id)
  }

  /** Fill the front order of the level at `price` on `side` by `q`; a
      filled order leaves the queue and the index, and an emptied level
      leaves the ladder (lines 200-222). A partially filled order keeps its
      place at the head of the queue. */
  function FillFront(b: Book, side: Side, price: Price, q: Quantity): (r: Book)
    requires Valid(b) && price in LadderOf(b, side) && |LadderOf(b, side)[price]| > 0
    requires q <= LadderOf(b, side)[price][0].remaining
    ensures Valid(r)
    ensures var level := LadderOf(b, side)[price];
            var front := level[0];
            if front.remaining == q then
              && r.index == b.index - {front.id}
              && LevelAt(LadderOf(r, side), price) == level[1..]
            else
              && r.index == b.index
              && LevelAt(LadderOf(r, side), price) == [front.(remaining := front.remaining - q)] + level[1..]
    ensures forall p :: p != price ==> LevelAt(LadderOf(r, side), p) == LevelAt(LadderOf(b, side), p)
    ensures LadderOf(r, side).Keys <= LadderOf(b, side).Keys
    ensures LadderOf(r, Opposite(side)) == LadderOf(b, Opposite(side))
  {
    var level := LadderOf(b, side)[price];
    LevelOf(b, side, price);
    var filled := Fill(level[0], q).value;
    if IsFilled(filled) then
      assert b.index[level[0].id] == Entry(level[0].kind, side, price);
      var r := Unlink(b, level[0].id);
      UnlinkFront(b, side, price, r);
      r
    else
      ReplaceFront(b, side, price, filled)
  }

  /** Filling the front order of a level by `q` takes `q` from that order's
      remaining quantity and leaves every other order's as it was. */
  lemma FillFrontResting(b: Book, side: Side, price: Price, q: Quantity)
    requires Valid(b) && price in LadderOf(b, side) && |LadderOf(b, side)[price]| > 0
    requires q <= LadderOf(b, side)[price][0].remaining
    ensures forall id :: Resting(FillFront(b, side, price, q), id) + (if id == LadderOf(b, side)[price][0].id then q else 0)
                         == Resting(b, id)
  {
    forall id
      ensures Resting(FillFront(b, side, price, q), id) + (if id == LadderOf(b, side)[price][0].id then q else 0)
              == Resting(b, id)
    {
      FillFrontRestingAt(b, side, price, q, id);
    }
  }

  lemma FillFrontRestingAt(b: Book, side: Side, price: Price, q: Quantity, id: OrderId)
    requires Valid(b) && price in LadderOf(b, side) && |LadderOf(b, side)[price]| > 0
    requires q <= LadderOf(b, side)[price][0].remaining
    ensures Resting(FillFront(b, side, price, q), id) + (if id == LadderOf(b, side)[price][0].id then q else 0)
            == Resting(b, id)
  {
    if id == LadderOf(b, side)[price][0].id {
      FillFrontRestingFront(b, side, price, q);
    } else if id in b.index {
      if b.index[id].side == side && b.index[id].price == price {
        FillFrontRestingBehind(b, side, price, q, id);
      } else {
        FillFrontRestingElsewhere(b, side, price, q, id);
      }
    }
  }

  /** The filled front order loses exactly `q`. */
  lemma FillFrontRestingFront(b: Book, side: Side, price: Price, q: Quantity)
    requires Valid(b) && price in LadderOf(b, side) && |LadderOf(b, side)[price]| > 0
    requires q <= LadderOf(b, side)[price][0].remaining
    ensures Resting(FillFront(b, side, price, q), LadderOf(b, side)[price][0].id) + q
            == Resting(b, LadderOf(b, side)[price][0].id)
  {
    var level := LadderOf(b, side)[price];
    var front := level[0];
    LevelOf(b, side, price);
    assert b.index[front.id] == Entry(front.kind, side, price);
    assert LevelAt(LadderOf(b, side), price) == level;
    FillFrontShape(b, side, price, q);
  }

  /** After the fill, the orders behind the front are the same queue; the
      front either left the index or stays first with `q` less. */
  lemma FillFrontShape(b: Book, side: Side, price: Price, q: Quantity)
    requires Valid(b) && price in LadderOf(b, side) && |LadderOf(b, side)[price]| > 0
    requires q <= LadderOf(b, side)[price][0].remaining
    ensures var level := LadderOf(b, side)[price];
            var r := FillFront(b, side, price, q);
            var rest := LevelAt(LadderOf(r, side), price);
            || (level[0].remaining == q && level[0].id !in r.index && rest == level[1..])
            || (&& r.index == b.index && rest != [] && rest[1..] == level[1..]
                && rest[0].id == level[0].id && rest[0].remaining == level[0].remaining - q)
  {
    var level := LadderOf(b, side)[price];
    var front := level[0];
    var rest := LevelAt(LadderOf(FillFront(b, side, price, q), side), price);
    if front.remaining != q {
      assert rest == [front.(remaining := front.remaining - q)] + level[1..];
    }
  }

  /** An order queued behind the front keeps its remaining quantity. */
  lemma FillFrontRestingBehind(b: Book, side: Side, price: Price, q: Quantity, id: OrderId)
    requires Valid(b) && price in LadderOf(b, side) && |LadderOf(b, side)[price]| > 0
    requires q <= LadderOf(b, side)[price][0].remaining
    requires id in b.index && id != LadderOf(b, side)[price][0].id
    requires b.index[id].side == side && b.index[id].price == price
    ensures Resting(FillFront(b, side, price, q), id) == Resting(b, id)
  {
    var r := FillFront(b, side, price, q);
    var level := LadderOf(b, side)[price];
    assert LevelAt(LadderOf(b, side), price) == level;
    assert id in r.index && r.index[id] == b.index[id];
    FillFrontShape(b, side, price, q);
  }

  /** An order resting at another level keeps its remaining quantity. */
  lemma FillFrontRestingElsewhere(b: Book, side: Side, price: Price, q: Quantity, id: OrderId)
    requires Valid(b) && price in LadderOf(b, side) && |LadderOf(b, side)[price]| > 0
    requires q <= LadderOf(b, side)[price][0].remaining
    requires id in b.index && id != LadderOf(b, side)[price][0].id
    requires b.index[id].side != side || b.index[id].price != price
    ensures Resting(FillFront(b, side, price, q), id) == Resting(b, id)
  {
    var r := FillFront(b, side, price, q);
    var e := b.index[id];
    assert id in r.index && r.index[id] == e;
    if e.side == side {
      assert LevelAt(LadderOf(r, side), e.price) == LevelAt(LadderOf(b, side), e.price);
    } else {
      assert e.side == Opposite(side);
    }
  }

  /** Unlinking the front order of a level removes exactly that order from
      its level and leaves every other level of the ladder alone. */
  lemma UnlinkFront(b: Book, side: Side, price: Price, r: Book)
    requires Valid(b) && price in LadderOf(b, side)
    requires LevelValid(LadderOf(b, side)[price], side, price, b.index)
    requires forall s, p :: LevelAt(LadderOf(r, s), p) ==
               RemoveId(LevelAt(LadderOf(b, s), p), LadderOf(b, side)[price][0].id)
    requires LadderOf(r, side).Keys <= LadderOf(b, side).Keys
    ensures LevelAt(LadderOf(r, side), price) == LadderOf(b, side)[price][1..]
    ensures forall p :: p != price ==> LevelAt(LadderOf(r, side), p) == LevelAt(LadderOf(b, side), p)
  {
    var level := LadderOf(b, side)[price];
    var id := level[0].id;
    assert LevelAt(LadderOf(r, side), price) == RemoveId(level, id);
    assert b.index[id] == Entry(level[0].kind, side, price);
    forall p | p != price
      ensures LevelAt(LadderOf(r, side), p) == LevelAt(LadderOf(b, side), p)
    {
      assert LevelAt(LadderOf(r, side), p) == RemoveId(LevelAt(LadderOf(b, side), p), id);
      if p in LadderOf(b, side) {
        OnlyAtItsLevel(b, id, side, p);
      }
    }
  }

  function Min(a: Quantity, b: Quantity): Quantity {
    if a <= b then a else b
  }

  /** The trade pairs an indexed bid and an indexed ask, each leg at its
      order's own price. */
  predicate TradeFrom(t: Trade, index: map<OrderId, Entry>) {
    && t.bid.id in index && index[t.bid.id].side == Buy && index[t.bid.id].price == t.bid.price
    && t.ask.id in index && index[t.ask.id].side == Sell && index[t.ask.id].price == t.ask.price
  }

  /** One match between the oldest order at the best bid and the oldest
      order at the best ask (lines 193-227): both are filled by the smaller
      remaining quantity, and each trade leg carries its order's own price. */
  function MatchStep(b: Book): (r: (Book, Trade))
    requires Valid(b) && CanTrade(b)
    ensures Valid(r.0)
    ensures SubIndex(r.0.index, b.index) && |r.0.index| < |b.index|
    ensures var bid := b.bids[BestBid(b)][0];
            var ask := b.asks[BestAsk(b)][0];
            && r.1.bid.id == bid.id && r.1.ask.id == ask.id
            && r.1.bid.price == BestBid(b) && r.1.ask.price == BestAsk(b)
            && Balanced(r.1)
            && r.1.bid.quantity <= bid.remaining && r.1.bid.quantity <= ask.remaining
            && (r.1.bid.quantity == bid.remaining || r.1.bid.quantity == ask.remaining)
    ensures TradeFrom(r.1, b.index)
    ensures r.0 == FillFront(FillFront(b, Buy, BestBid(b), r.1.bid.quantity), Sell, BestAsk(b), r.1.bid.quantity)
    ensures forall id :: Resting(r.0, id) + Legs(r.1, id) == Resting(b, id)
    ensures Uncrossed(b) ==> Uncrossed(r.0)
  {
    var bp := BestBid(b);
    var ap := BestAsk(b);
    var bid := b.bids[bp][0];
    var ask := b.asks[ap][0];
    var q := Min(bid.remaining, ask.remaining);
    var b1 := FillFront(b, Buy, bp, q);
    assert b1.asks == b.asks;
    var b2 := FillFront(b1, Sell, ap, q);
    BothLegsResting(b, q);
    assert bid.id in b.index && ask.id in b.index;
    assert b.index[bid.id].side == Buy && b.index[ask.id].side == Sell;
    assert |b2.index| < |b.index| by {
      if bid.remaining == q {
        assert |b1.index| == |b.index| - 1;
      } else {
        assert b1.index == b.index;
      }
      if ask.remaining == q {
        assert b2.index == b1.index - {ask.id};
        assert ask.id in b1.index;
      }
    }
    CanTradeIffCrossed(b);
    (b2, Trade(TradeInfo(bid.id, bid.price, q), TradeInfo(ask.id, ask.price, q)))
  }

  /** Filling the best bid front and then the best ask front by `q` takes
      `q` from each of the two orders and nothing from any other. */
  lemma BothLegsResting(b: Book, q: Quantity)
    requires Valid(b) && CanTrade(b)
    requires q <= b.bids[BestBid(b)][0].remaining && q <= b.asks[BestAsk(b)][0].remaining
    ensures var bid := b.bids[BestBid(b)][0];
            var ask := b.asks[BestAsk(b)][0];
            var b2 := FillFront(FillFront(b, Buy, BestBid(b), q), Sell, BestAsk(b), q);
            forall id :: Resting(b2, id) + Legs(Trade(TradeInfo(bid.id, bid.price, q), TradeInfo(ask.id, ask.price, q)), id)
                         == Resting(b, id)
  {
    var bp, ap := BestBid(b), BestAsk(b);
    var bid, ask := b.bids[bp][0], b.asks[ap][0];
    LevelOf(b, Buy, bp);
    LevelOf(b, Sell, ap);
    assert b.index[bid.id].side == Buy && b.index[ask.id].side == Sell;
    var b1 := FillFront(b, Buy, bp, q);
    assert b1.asks == b.asks;
    FillFrontResting(b, Buy, bp, q);
    FillFrontResting(b1, Sell, ap, q);
  }

  /** The outer and inner loops of `MatchOrders` (lines 180-229), one match
      per recursion: after a match that empties neither best level the best
      levels are unchanged, so re-reading them is the inner loop. The source
      re-reads a level it may just have erased (lines 191, 210, 220); this
      model takes the intended reading, leaving the inner loop once a level
      empties. */
  function MatchLoop(b: Book): (r: (Book, seq<Trade>))
    requires Valid(b)
    ensures Valid(r.0) && Uncrossed(r.0)
    ensures SubIndex(r.0.index, b.index)
    ensures |r.1| <= |b.index| - |r.0.index|
    ensures forall t :: t in r.1 ==> Balanced(t) && t.bid.price >= t.ask.price
    ensures forall t :: t in r.1 ==> TradeFrom(t, b.index)
    ensures forall id :: Resting(r.0, id) + Traded(r.1, id) == Resting(b, id)
    ensures Uncrossed(b) ==> r == (b, [])
    ensures !Uncrossed(b) ==> |r.1| > 0
    decreases |b.index|
  {
    CanTradeIffCrossed(b);
    if !CanTrade(b) then (b, [])
    else
      var (b1, t) := MatchStep(b);
      var (b2, ts) := MatchLoop(b1);
      PrependTradeFrom(t, ts, b1.index, b.index);
      PrependTraded(b, b1, b2, t, ts);
      (b2, [t] + ts)
  }

  /** One trade followed by more: what each order lost adds up. */
  lemma PrependTraded(b: Book, b1: Book, b2: Book, t: Trade, ts: seq<Trade>)
    requires forall id :: Resting(b1, id) + Legs(t, id) == Resting(b, id)
    requires forall id :: Resting(b2, id) + Traded(ts, id) == Resting(b1, id)
    ensures forall id :: Resting(b2, id) + Traded([t] + ts, id) == Resting(b, id)
  {
    forall id
      ensures Resting(b2, id) + Traded([t] + ts, id) == Resting(b, id)
    {
      assert ([t] + ts)[1..] == ts;
      assert Resting(b1, id) + Legs(t, id) == Resting(b, id);
      assert Resting(b2, id) + Traded(ts, id) == Resting(b1, id);
    }
  }

  /** Trades from a sub-index are trades from the larger index. */
  lemma PrependTradeFrom(t: Trade, ts: seq<Trade>, a: map<OrderId, Entry>, c: map<OrderId, Entry>)
    requires SubIndex(a, c) && TradeFrom(t, c)
    requires forall u :: u in ts ==> TradeFrom(u, a)
    ensures forall u :: u in [t] + ts ==> TradeFrom(u, c)
  {
    forall u | u in [t] + ts
      ensures TradeFrom(u, c)
    {
      if u != t {
        assert TradeFrom(u, a);
      }
    }
  }

  /** The oldest order at the best bid is Fill-And-Kill. */
  predicate FrontIsFak(b: Book)
    requires Valid(b)
  {
    b.bids != map[] && b.bids[BestBid(b)][0].kind == FillAndKill
  }

  /** Lines 231-239: after matching, a Fill-And-Kill order at the head of
      the best bid level is cancelled. Only the bid side is inspected. */
  function KillFrontFak(b: Book): (r: Book)
    requires Valid(b)
    ensures Valid(r)
    ensures !FrontIsFak(b) ==> r == b
    ensures FrontIsFak(b) ==> r == CancelOrder(b, b.bids[BestBid(b)][0].id)
    ensures FrontIsFak(b) ==> r.index == b.index - {b.bids[BestBid(b)][0].id} && |r.index| == |b.index| - 1
    ensures SubIndex(r.index, b.index)
    ensures Uncrossed(b) ==> Uncrossed(r)
  {
    if FrontIsFak(b) then
      var id := b.bids[BestBid(b)][0].id;
      LevelOf(b, Buy, BestBid(b));
      CancelOrder(b, id)
    else b
  }

  /** The Fill-And-Kill check leaves what remains of every order still
      resting, and removes only a Fill-And-Kill order. */
  lemma KillResting(b: Book)
    requires Valid(b)
    ensures forall id :: id in KillFrontFak(b).index ==> Resting(KillFrontFak(b), id) == Resting(b, id)
    ensures forall id :: id in b.index && id !in KillFrontFak(b).index ==> b.index[id].kind == FillAndKill
  {
    if FrontIsFak(b) {
      var front := b.bids[BestBid(b)][0];
      LevelOf(b, Buy, BestBid(b));
      assert b.index[front.id].kind == FillAndKill;
      CancelResting(b, front.id);
    }
  }

  /** `MatchOrders`: match while the book is crossed, then apply the
      Fill-And-Kill check; returns the trades in execution order. */
  function MatchOrders(b: Book): (r: (Book, seq<Trade>))
    requires Valid(b)
    ensures Valid(r.0) && Uncrossed(r.0)
    ensures SubIndex(r.0.index, b.index)
    ensures forall t :: t in r.1 ==> Balanced(t) && t.bid.price >= t.ask.price
    ensures forall t :: t in r.1 ==> TradeFrom(t, b.index)
    ensures !Uncrossed(b) ==> |r.1| > 0
    ensures forall id :: id in r.0.index ==> Resting(r.0, id) + Traded(r.1, id) == Resting(b, id)
    ensures forall id :: id in b.index && id !in r.0.index ==>
              Traded(r.1, id) == Resting(b, id) || b.index[id].kind == FillAndKill
  {
    var (b1, ts) := MatchLoop(b);
    KillResting(b1);
    (KillFrontFak(b1), ts)
  }

  // ---------------------------------------------------------------------
  // Public operations

  /** `AddOrder`: reject a duplicate id, reject a Fill-And-Kill order that
      cannot cross, otherwise rest the order at the tail of its level and
      match. */
  function AddOrder(b: Book, o: Order): (r: (Book, seq<Trade>))
    requires Valid(b) && WellFormed(o)
    ensures Valid(r.0)
    ensures o.id in b.index ==> r == (b, [])
    ensures o.kind == FillAndKill && !CanMatch(b, o.side, o.price) ==> r == (b, [])
    ensures Accepted(b, o) ==> Uncrossed(r.0)
    ensures Uncrossed(b) ==> Uncrossed(r.0)
    ensures forall id :: id in r.0.index ==>
              (id in b.index && r.0.index[id] == b.index[id])
              || (id == o.id && id !in b.index && r.0.index[id] == Entry(o.kind, o.side, o.price))
    ensures forall t :: t in r.1 ==> Balanced(t) && t.bid.price >= t.ask.price
    ensures forall t :: t in r.1 ==> TradeFrom(t, b.index[o.id := Entry(o.kind, o.side, o.price)])
    ensures Accepted(b, o) && CanMatch(b, o.side, o.price) ==> |r.1| > 0
    ensures Uncrossed(b) ==> forall t :: t in r.1 ==> LegOn(t, o.side).id == o.id
    ensures Accepted(b, o) ==> forall id :: id in r.0.index ==>
              Resting(r.0, id) + Traded(r.1, id) == if id == o.id then o.remaining else Resting(b, id)
    ensures forall id :: id in b.index && id !in r.0.index ==>
              Traded(r.1, id) == Resting(b, id) || b.index[id].kind == FillAndKill
    ensures o.id !in b.index && o.id !in r.0.index ==> Traded(r.1, o.id) == o.remaining || o.kind == FillAndKill
  {
    if o.id in b.index then (b, [])
    else if o.kind == FillAndKill && !CanMatch(b, o.side, o.price) then (b, [])
    else RestAndMatch(b, o)
  }

  /** The accepted branch of `AddOrder`: rest the order at the tail of its
      level, then match. Every trade pairs orders of the book after the
      insertion; on a book that was uncrossed, the new order is on its own
      side of every trade. */
  function RestAndMatch(b: Book, o: Order): (r: (Book, seq<Trade>))
    requires Valid(b) && WellFormed(o) && Accepted(b, o)
    ensures Valid(r.0) && Uncrossed(r.0)
    ensures forall id :: id in r.0.index ==>
              (id in b.index && r.0.index[id] == b.index[id])
              || (id == o.id && r.0.index[id] == Entry(o.kind, o.side, o.price))
    ensures forall t :: t in r.1 ==> Balanced(t) && t.bid.price >= t.ask.price
    ensures forall t :: t in r.1 ==> TradeFrom(t, b.index[o.id := Entry(o.kind, o.side, o.price)])
    ensures CanMatch(b, o.side, o.price) ==> |r.1| > 0
    ensures Uncrossed(b) ==> forall t :: t in r.1 ==> LegOn(t, o.side).id == o.id
    ensures forall id :: id in r.0.index ==>
              Resting(r.0, id) + Traded(r.1, id) == if id == o.id then o.remaining else Resting(b, id)
    ensures forall id :: id in b.index && id !in r.0.index ==>
              Traded(r.1, id) == Resting(b, id) || b.index[id].kind == FillAndKill
    ensures o.id !in r.0.index ==> Traded(r.1, o.id) == o.remaining || o.kind == FillAndKill
  {
    AcceptedIndex(b, o);
    AcceptedMatch(b, o);
    AcceptedResting(b, o);
    assert Uncrossed(b) ==> forall t :: t in MatchOrders(Insert(b, o)).1 ==> LegOn(t, o.side).id == o.id by {
      if Uncrossed(b) { AcceptedOnlyAgainst(b, o); }
    }
    MatchOrders(Insert(b, o))
  }

  /** After an accepted order is matched, every indexed order is an old one
      with its old entry, or the new order with its own entry. */
  lemma AcceptedIndex(b: Book, o: Order)
    requires Valid(b) && WellFormed(o) && o.id !in b.index
    ensures var r := MatchOrders(Insert(b, o)).0;
            forall id :: id in r.index ==>
              (id in b.index && r.index[id] == b.index[id])
              || (id == o.id && r.index[id] == Entry(o.kind, o.side, o.price))
  {
    var i := Insert(b, o);
    var r := MatchOrders(i).0;
    assert SubIndex(r.index, i.index);
    forall id | id in r.index
      ensures (id in b.index && r.index[id] == b.index[id])
              || (id == o.id && r.index[id] == Entry(o.kind, o.side, o.price))
    {
      assert id in i.index && r.index[id] == i.index[id];
    }
  }

  /** The leg of a trade on `side`. */
  function LegOn(t: Trade, side: Side): TradeInfo {
    if side == Buy then t.bid else t.ask
  }

  /** Every crossing pair of levels runs through the order `id` on `side`:
      its level on that side holds that order alone. */
  ghost predicate CrossesOnlyThrough(b: Book, side: Side, id: OrderId) {
    forall p, q :: p in b.bids && q in b.asks && p >= q ==>
      var level := if side == Buy then b.bids[p] else b.asks[q];
      |level| == 1 && level[0].id == id
  }

  /** An order inserted into an uncrossed book is the only way through which
      the book is crossed. */
  lemma InsertThrough(b: Book, o: Order)
    requires Valid(b) && Uncrossed(b) && o.id !in b.index && WellFormed(o)
    ensures CrossesOnlyThrough(Insert(b, o), o.side, o.id)
  {
    if o.side == Buy {
      InsertThroughBid(b, o);
    } else {
      InsertThroughAsk(b, o);
    }
  }

  /** `InsertThrough` for a buy: only the new bid level can reach an ask. */
  lemma InsertThroughBid(b: Book, o: Order)
    requires Valid(b) && Uncrossed(b) && o.id !in b.index && WellFormed(o) && o.side == Buy
    ensures CrossesOnlyThrough(Insert(b, o), Buy, o.id)
  {
    var i := Insert(b, o);
    assert i.asks == b.asks;
    forall p, q | p in i.bids && q in i.asks && p >= q
      ensures |i.bids[p]| == 1 && i.bids[p][0].id == o.id
    {
      assert p !in b.bids;
      assert LevelAt(i.bids, p) == LevelAt(b.bids, p) + [o];
    }
  }

  /** `InsertThrough` for a sell: only the new ask level can reach a bid. */
  lemma InsertThroughAsk(b: Book, o: Order)
    requires Valid(b) && Uncrossed(b) && o.id !in b.index && WellFormed(o) && o.side == Sell
    ensures CrossesOnlyThrough(Insert(b, o), Sell, o.id)
  {
    var i := Insert(b, o);
    assert i.bids == b.bids;
    forall p, q | p in i.bids && q in i.asks && p >= q
      ensures |i.asks[q]| == 1 && i.asks[q][0].id == o.id
    {
      assert q !in b.asks;
      assert LevelAt(i.asks, q) == LevelAt(b.asks, q) + [o];
    }
  }


  /** While a crossing runs through one order, that order is at the front
      of the best level of its side. */
  lemma FrontIsThrough(b: Book, side: Side, id: OrderId)
    requires Valid(b) && CanTrade(b) && CrossesOnlyThrough(b, side, id)
    ensures LegOn(MatchStep(b).1, side).id == id
  {
    assert BestBid(b) in b.bids && BestAsk(b) in b.asks;
  }

  /** A match keeps every crossing running through the same order. */
  lemma StepThrough(b: Book, side: Side, id: OrderId)
    requires Valid(b) && CanTrade(b) && CrossesOnlyThrough(b, side, id)
    ensures CrossesOnlyThrough(MatchStep(b).0, side, id)
  {
    if side == Buy {
      StepThroughBid(b, id);
    } else {
      StepThroughAsk(b, id);
    }
  }

  lemma StepThroughBid(b: Book, id: OrderId)
    requires Valid(b) && CanTrade(b) && CrossesOnlyThrough(b, Buy, id)
    ensures CrossesOnlyThrough(MatchStep(b).0, Buy, id)
  {
    var bp, ap := BestBid(b), BestAsk(b);
    var q := MatchStep(b).1.bid.quantity;
    var b1 := FillFront(b, Buy, bp, q);
    var r := MatchStep(b).0;
    assert r.bids == b1.bids && b1.asks == b.asks;
    assert r.asks.Keys <= b.asks.Keys;
    FillFrontShape(b, Buy, bp, q);
    assert |b.bids[bp]| == 1 && b.bids[bp][0].id == id;
    LevelOf(b, Buy, bp);
    forall p, p' | p in r.bids && p' in r.asks && p >= p'
      ensures |r.bids[p]| == 1 && r.bids[p][0].id == id
    {
      assert p in b.bids && p' in b.asks;
      LevelOf(b, Buy, p);
      assert b.bids[p][0].id == id;
      assert p == bp;
      LevelOf(r, Buy, p);
      assert LevelAt(r.bids, p) == r.bids[p];
    }
  }

  lemma StepThroughAsk(b: Book, id: OrderId)
    requires Valid(b) && CanTrade(b) && CrossesOnlyThrough(b, Sell, id)
    ensures CrossesOnlyThrough(MatchStep(b).0, Sell, id)
  {
    var bp, ap := BestBid(b), BestAsk(b);
    var q := MatchStep(b).1.bid.quantity;
    var b1 := FillFront(b, Buy, bp, q);
    var r := MatchStep(b).0;
    assert r == FillFront(b1, Sell, ap, q);
    assert b1.asks == b.asks && r.bids.Keys <= b.bids.Keys;
    FillFrontShape(b1, Sell, ap, q);
    assert |b.asks[ap]| == 1 && b.asks[ap][0].id == id;
    LevelOf(b, Sell, ap);
    forall p, p' | p in r.bids && p' in r.asks && p >= p'
      ensures |r.asks[p']| == 1 && r.asks[p'][0].id == id
    {
      assert p in b.bids && p' in b.asks;
      LevelOf(b, Sell, p');
      assert b.asks[p'][0].id == id;
      assert p' == ap;
      LevelOf(r, Sell, p');
      assert LevelAt(r.asks, p') == r.asks[p'];
    }
  }

  /** While every crossing runs through one order, every trade of the
      matching loop has that order on its side. */
  lemma {:induction false} LoopThrough(b: Book, side: Side, id: OrderId)
    requires Valid(b) && CrossesOnlyThrough(b, side, id)
    ensures forall t :: t in MatchLoop(b).1 ==> LegOn(t, side).id == id
    decreases |b.index|
  {
    CanTradeIffCrossed(b);
    if CanTrade(b) {
      var (b1, t) := MatchStep(b);
      FrontIsThrough(b, side, id);
      StepThrough(b, side, id);
      LoopThrough(b1, side, id);
      assert MatchLoop(b).1 == [t] + MatchLoop(b1).1;
    }
  }

  /** A fresh order rests with its whole remaining quantity, and inserting
      it leaves what remains of every other order unchanged. */
  lemma InsertResting(b: Book, o: Order)
    requires Valid(b) && o.id !in b.index && WellFormed(o)
    ensures Resting(Insert(b, o), o.id) == o.remaining
    ensures forall id :: id != o.id ==> Resting(Insert(b, o), id) == Resting(b, id)
  {
    var i := Insert(b, o);
    var level := LevelAt(LadderOf(b, o.side), o.price);
    assert o.id !in Ids(level) by {
      if o.price in LadderOf(b, o.side) {
        LevelOf(b, o.side, o.price);
      }
    }
    RemainingInPrefix(level, [o], o.id);
    forall id | id != o.id
      ensures Resting(i, id) == Resting(b, id)
    {
      if id in b.index {
        var e := b.index[id];
        assert id in i.index && i.index[id] == e;
        if e.side == o.side && e.price == o.price {
          RemainingInSkip(level, o, [], id);
          assert level + [o] + [] == level + [o] && level + [] == level;
        } else if e.side != o.side {
          assert e.side == Opposite(o.side);
        }
      }
    }
  }

  /** After an accepted order is inserted, matching trades only orders of
      the book or the new order, and trades at least once when the new
      order crosses. */
  lemma AcceptedMatch(b: Book, o: Order)
    requires Valid(b) && WellFormed(o) && Accepted(b, o)
    ensures var r := MatchOrders(Insert(b, o));
            && (forall t :: t in r.1 ==> TradeFrom(t, b.index[o.id := Entry(o.kind, o.side, o.price)]))
            && (CanMatch(b, o.side, o.price) ==> |r.1| > 0)
  {
    var i := Insert(b, o);
    if CanMatch(b, o.side, o.price) {
      var q :| q in LadderOf(b, Opposite(o.side)) && Crosses(o.side, o.price, q);
      assert o.price in LadderOf(i, o.side) && q in LadderOf(i, Opposite(o.side));
      assert o.side == Buy || o.side == Sell;
    }
  }

  /** After an accepted order is inserted into an uncrossed book, every
      trade has the new order on its side: resting orders are never
      matched against each other. */
  lemma AcceptedOnlyAgainst(b: Book, o: Order)
    requires Valid(b) && WellFormed(o) && Accepted(b, o) && Uncrossed(b)
    ensures forall t :: t in MatchOrders(Insert(b, o)).1 ==> LegOn(t, o.side).id == o.id
  {
    InsertThrough(b, o);
    LoopThrough(Insert(b, o), o.side, o.id);
  }

  /** After an accepted order is inserted and matched, every order still
      resting lost exactly what it traded, and every order gone was filled
      completely or was a Fill-And-Kill order. */
  lemma AcceptedResting(b: Book, o: Order)
    requires Valid(b) && WellFormed(o) && Accepted(b, o)
    ensures var r := MatchOrders(Insert(b, o));
            && (forall id :: id in r.0.index ==>
                  Resting(r.0, id) + Traded(r.1, id) == if id == o.id then o.remaining else Resting(b, id))
            && (forall id :: id in b.index && id !in r.0.index ==>
                  Traded(r.1, id) == Resting(b, id) || b.index[id].kind == FillAndKill)
            && (o.id !in r.0.index ==> Traded(r.1, o.id) == o.remaining || o.kind == FillAndKill)
  {
    InsertResting(b, o);
  }

  /** No Fill-And-Kill order rests anywhere in the book. */
  predicate NoRestingFak(b: Book) {
    forall id :: id in b.index ==> b.index[id].kind == GoodTillCancel
  }

  /** `AddOrder` with the Fill-And-Kill rule applied to the incoming order
      on either side: whatever the order did not fill is cancelled instead
      of resting. `AddOrder` inspects only the front of the best bid level,
      so a partially filled Fill-And-Kill sell rests; this is the evidently
      intended behaviour, used by `ModifyOrderKillingFak`. */
  function AddOrderKillingFak(b: Book, o: Order): (r: (Book, seq<Trade>))
    requires Valid(b) && WellFormed(o)
    ensures Valid(r.0) && r.1 == AddOrder(b, o).1
    ensures o.kind == GoodTillCancel ==> r == AddOrder(b, o)
    ensures o.kind == FillAndKill && o.id !in b.index ==> o.id !in r.0.index
    ensures NoRestingFak(b) ==> NoRestingFak(r.0)
    ensures Accepted(b, o) || Uncrossed(b) ==> Uncrossed(r.0)
    ensures forall id :: id in r.0.index ==>
              (id in b.index && r.0.index[id] == b.index[id])
              || (id == o.id && id !in b.index && r.0.index[id] == Entry(o.kind, o.side, o.price))
  {
    var (b1, ts) := AddOrder(b, o);
    if o.kind == FillAndKill && o.id !in b.index then (CancelOrder(b1, o.id), ts)
    else (b1, ts)
  }

  /** `AddOrder` goes past both rejection guards. */
  predicate Accepted(b: Book, o: Order) {
    o.id !in b.index && (o.kind == GoodTillCancel || CanMatch(b, o.side, o.price))
  }

  /** `CancelOrder`: a no-op for an unknown id; otherwise the order leaves
      the index and its level, and an emptied level leaves its ladder. */
  function CancelOrder(b: Book, id: OrderId): (r: Book)
    requires Valid(b)
    ensures Valid(r)
    ensures id !in b.index ==> r == b
    ensures r.index == b.index - {id}
    ensures forall s, p :: LevelAt(LadderOf(r, s), p) == RemoveId(LevelAt(LadderOf(b, s), p), id)
    ensures Uncrossed(b) ==> Uncrossed(r)
  {
    if id !in b.index then
      NotIndexedNowhere(b, id);
      b
    else
      CancelKnown(b, id);
      Unlink(b, id)
  }

  /** Cancelling takes the whole remaining quantity of the cancelled order
      off the book and leaves every other order's remaining quantity as it
      was. */
  lemma CancelResting(b: Book, x: OrderId)
    requires Valid(b)
    ensures Resting(CancelOrder(b, x), x) == 0
    ensures forall id :: id != x ==> Resting(CancelOrder(b, x), id) == Resting(b, id)
  {
    var r := CancelOrder(b, x);
    forall id | id != x
      ensures Resting(r, id) == Resting(b, id)
    {
      if id in b.index {
        var e := b.index[id];
        assert id in r.index && r.index[id] == e;
        RemainingInRemoveId(LevelAt(LadderOf(b, e.side), e.price), x, id);
      }
    }
  }

  lemma CancelKnown(b: Book, id: OrderId)
    requires Valid(b) && id in b.index
    ensures Uncrossed(b) ==> Uncrossed(Unlink(b, id))
  {
    ShrinkUncrossed(b, Unlink(b, id));
  }

  /** The modify operation (`MatchOrder`): unknown id yields no trades;
      otherwise cancel and re-add with the original order kind and the new
      side, price and quantity. The source reads the kind through a
      reference into the index entry that the cancel has just erased
      (lines 318-322); this model captures the kind before cancelling. */
  function ModifyOrder(b: Book, m: OrderModify): (r: (Book, seq<Trade>))
    requires Valid(b)
    ensures Valid(r.0)
    ensures m.id !in b.index ==> r == (b, [])
    ensures m.id in b.index ==> r == AddOrder(CancelOrder(b, m.id), ToOrder(m, b.index[m.id].kind))
    ensures m.id in b.index && m.id in r.0.index ==>
              r.0.index[m.id] == Entry(b.index[m.id].kind, m.side, m.price)
    ensures forall id :: id in r.0.index && id != m.id ==> id in b.index && r.0.index[id] == b.index[id]
    ensures Uncrossed(b) ==> Uncrossed(r.0)
    ensures NoRestingFak(b) ==> NoRestingFak(r.0)
    ensures forall t :: t in r.1 ==> Balanced(t) && t.bid.price >= t.ask.price
  {
    if m.id !in b.index then (b, [])
    else
      CancelThenAddIndex(b, m);
      CancelThenAddKeeps(b, m);
      CancelThenAdd(b, m)
  }

  /** Cancelling an indexed order and re-adding its replacement with the
      kind the cancelled order had. */
  function CancelThenAdd(b: Book, m: OrderModify): (Book, seq<Trade>)
    requires Valid(b) && m.id in b.index
  {
    AddOrder(CancelOrder(b, m.id), ToOrder(m, b.index[m.id].kind))
  }

  /** Cancelling and re-adding leaves every other order's index entry as it
      was, and indexes the replacement under its new side and price. */
  lemma CancelThenAddIndex(b: Book, m: OrderModify)
    requires Valid(b) && m.id in b.index
    ensures var r := CancelThenAdd(b, m).0;
            && (m.id in r.index ==> r.index[m.id] == Entry(b.index[m.id].kind, m.side, m.price))
            && (forall id :: id in r.index && id != m.id ==> id in b.index && r.index[id] == b.index[id])
  {
    var kind := b.index[m.id].kind;
    var c := CancelOrder(b, m.id);
    var r := AddOrder(c, ToOrder(m, kind));
    assert m.id !in c.index;
    forall id | id in r.0.index
      ensures id == m.id || (id in b.index && r.0.index[id] == b.index[id])
      ensures id == m.id ==> r.0.index[id] == Entry(kind, m.side, m.price)
    {
    }
  }

  /** Cancelling and re-adding keeps an uncrossed book uncrossed, and a
      book free of resting Fill-And-Kill orders free of them. */
  lemma CancelThenAddKeeps(b: Book, m: OrderModify)
    requires Valid(b) && m.id in b.index
    ensures Uncrossed(b) ==> Uncrossed(CancelThenAdd(b, m).0)
    ensures NoRestingFak(b) ==> NoRestingFak(CancelThenAdd(b, m).0)
  {
    if Uncrossed(b) {
      CancelThenAddUncrossed(b, m);
    }
    if NoRestingFak(b) {
      CancelThenAddNoFak(b, m);
    }
  }

  /** The uncrossed half of `CancelThenAddKeeps`. */
  lemma CancelThenAddUncrossed(b: Book, m: OrderModify)
    requires Valid(b) && m.id in b.index && Uncrossed(b)
    ensures Uncrossed(CancelThenAdd(b, m).0)
  {
    var c := CancelOrder(b, m.id);
    assert Uncrossed(c);
    assert CancelThenAdd(b, m) == AddOrder(c, ToOrder(m, b.index[m.id].kind));
  }

  /** The Fill-And-Kill half of `CancelThenAddKeeps`. */
  lemma CancelThenAddNoFak(b: Book, m: OrderModify)
    requires Valid(b) && m.id in b.index && NoRestingFak(b)
    ensures NoRestingFak(CancelThenAdd(b, m).0)
  {
    var r := CancelThenAdd(b, m).0;
    CancelThenAddIndex(b, m);
    forall id | id in r.index
      ensures r.index[id].kind == GoodTillCancel
    {
      if id != m.id {
        assert r.index[id] == b.index[id];
      }
    }
  }

  /** The modify operation re-adding through `AddOrderKillingFak`, the
      evidently intended add: the same trades as `ModifyOrder`, but a
      modified Fill-And-Kill order never rests. */
  function ModifyOrderKillingFak(b: Book, m: OrderModify): (r: (Book, seq<Trade>))
    requires Valid(b)
    ensures Valid(r.0) && r.1 == ModifyOrder(b, m).1
    ensures m.id !in b.index ==> r == (b, [])
    ensures m.id in b.index && b.index[m.id].kind == GoodTillCancel ==> r == ModifyOrder(b, m)
    ensures m.id in b.index && b.index[m.id].kind == FillAndKill ==> m.id !in r.0.index
    ensures NoRestingFak(b) ==> NoRestingFak(r.0)
    ensures Uncrossed(b) ==> Uncrossed(r.0)
  {
    if m.id !in b.index then (b, [])
    else
      var kind := b.index[m.id].kind;
      AddOrderKillingFak(CancelOrder(b, m.id), ToOrder(m, kind))
  }

  /** `Size`: the number of indexed (resting) orders. A valid book has
      none exactly when both ladders are empty. */
  function Size(b: Book): (n: nat)
    ensures Valid(b) ==> (n == 0 <==> b.bids == map[] && b.asks == map[])
  {
    assert Valid(b) ==> (|b.index| == 0 <==> b.bids == map[] && b.asks == map[]) by {
      if Valid(b) {
        OrdersRestIffIndexed(b);
      }
    }
    |b.index|
  }

  /** Every level holds an indexed order, and every indexed order names a
      registered level. */
  lemma OrdersRestIffIndexed(b: Book)
    requires Valid(b)
    ensures |b.index| == 0 <==> b.bids == map[] && b.asks == map[]
  {
    forall p | p in b.bids ensures b.bids[p][0].id in b.index {
      LevelOf(b, Buy, p);
    }
    forall p | p in b.asks ensures b.asks[p][0].id in b.index {
      LevelOf(b, Sell, p);
    }
    forall id | id in b.index ensures b.index[id].price in LadderOf(b, b.index[id].side) {
      assert EntryResolves(b, id);
    }
  }

  // ---------------------------------------------------------------------
  // Level snapshot

  /** The depth at a level as the source accumulates it: a left fold of the
      remaining quantities in `std::uint32_t`, wrapping modulo 2^32. */
  function Accumulate(level: Level, acc: Quantity): Quantity {
    if |level| == 0 then acc
    else Accumulate(level[1..], (acc + level[0].remaining) % QuantityModulus)
  }

  /** The true (unbounded) depth at a level. */
  function TotalRemaining(level: Level): nat {
    if |level| == 0 then 0 else level[0].remaining + TotalRemaining(level[1..])
  }

  /** The wrapping fold is the true depth reduced modulo 2^32. */
  lemma {:induction false} AccumulateWraps(level: Level, acc: Quantity)
    ensures Accumulate(level, acc) == (acc + TotalRemaining(level)) % QuantityModulus
    decreases |level|
  {
    if |level| > 0 {
      var acc' := (acc + level[0].remaining) % QuantityModulus;
      AccumulateWraps(level[1..], acc');
      ModAddLeft(acc + level[0].remaining, TotalRemaining(level[1..]));
    }
  }

  lemma ModAddLeft(x: nat, y: nat)
    ensures (x % QuantityModulus + y) % QuantityModulus == (x + y) % QuantityModulus
  {
  }

  /** One `LevelInfo` per price of `ps`, in that order. */
  function Infos(l: Ladder, ps: seq<Price>): (r: seq<LevelInfo>)
    requires forall p :: p in ps ==> p in l
    ensures |r| == |ps|
    ensures forall i :: 0 <= i < |ps| ==> r[i].price == ps[i] && r[i].quantity == Accumulate(l[ps[i]], 0)
  {
    if |ps| == 0 then []
    else [LevelInfo(ps[0], Accumulate(l[ps[0]], 0))] + Infos(l, ps[1..])
  }

  /** `infos` is the snapshot of ladder `l` of `side`: one entry per level,
      best price first, each with its level's depth modulo 2^32. */
  ghost predicate Describes(infos: seq<LevelInfo>, l: Ladder, side: Side) {
    && |infos| == |l|
    && (forall i, j :: 0 <= i < j < |infos| ==> Better(side, infos[i].price, infos[j].price))
    && (forall i :: 0 <= i < |infos| ==>
          infos[i].price in l && infos[i].quantity == TotalRemaining(l[infos[i].price]) % QuantityModulus)
    && (set i | 0 <= i < |infos| :: infos[i].price) == l.Keys
  }

  /** The `LevelInfo`s of one ladder in its iteration order. */
  function LadderInfos(l: Ladder, side: Side): (r: seq<LevelInfo>)
    ensures Describes(r, l, side)
  {
    var ps := PricesBestFirst(l.Keys, side);
    InfosDepth(l, ps);
    InfosCover(l, ps);
    Infos(l, ps)
  }

  /** Each info of `Infos` carries its level's true depth modulo 2^32. */
  lemma InfosDepth(l: Ladder, ps: seq<Price>)
    requires forall p :: p in ps ==> p in l
    ensures forall i :: 0 <= i < |ps| ==>
              Infos(l, ps)[i].quantity == TotalRemaining(l[ps[i]]) % QuantityModulus
  {
    forall i | 0 <= i < |ps|
      ensures Infos(l, ps)[i].quantity == TotalRemaining(l[ps[i]]) % QuantityModulus
    {
      AccumulateWraps(l[ps[i]], 0);
    }
  }

  /** The infos list exactly the prices of `ps`. */
  lemma InfosCover(l: Ladder, ps: seq<Price>)
    requires forall p :: p in ps ==> p in l
    ensures (set i | 0 <= i < |Infos(l, ps)| :: Infos(l, ps)[i].price) == set p | p in ps
  {
    var r := Infos(l, ps);
    forall p | p in ps ensures p in set i | 0 <= i < |r| :: r[i].price {
      var i :| 0 <= i < |ps| && ps[i] == p;
      assert r[i].price == p;
    }
  }

  /** `GetOrderInfos`: for every level, its price and aggregated depth; bids
      by descending price, asks by ascending price. */
  function GetOrderInfos(b: Book): (r: OrderbookLevelInfos)
    ensures Describes(r.bids, b.bids, Buy) && Describes(r.asks, b.asks, Sell)
  {
    OrderbookLevelInfos(LadderInfos(b.bids, Buy), LadderInfos(b.asks, Sell))
  }

  /** A default-constructed book reports no levels on either side. */
  lemma EmptyBookInfos()
    ensures GetOrderInfos(EmptyBook()).bids == [] && GetOrderInfos(EmptyBook()).asks == []
  {
  }
}
