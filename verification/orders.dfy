/** Orders, trades and level snapshots of the limit order book (orderbook.cpp). */
module Orders {
  import opened Wrappers

  /** Modulus of `std::uint32_t` arithmetic, the width of a quantity. */
  const QuantityModulus: int := 0x1_0000_0000

  /** `std::int32_t` prices in exchange ticks. */
  type Price = p: int | -0x8000_0000 <= p < 0x8000_0000

  /** `std::uint32_t` quantities. */
  type Quantity = q: int | 0 <= q < QuantityModulus

  /** `std::uint64_t` caller-assigned order identifiers. */
  type OrderId = n: int | 0 <= n < 0x1_0000_0000_0000_0000

  datatype OrderType = GoodTillCancel | FillAndKill

  datatype Side = Buy | Sell

  function Opposite(side: Side): Side {
    if side == Buy then Sell else Buy
  }

  /** One order; only `remaining` ever changes after construction. */
  datatype Order = Order(
    kind: OrderType,
    id: OrderId,
    side: Side,
    price: Price,
    initial: Quantity,
    remaining: Quantity)

  /** The order constructor: nothing filled yet. */
  function NewOrder(kind: OrderType, id: OrderId, side: Side, price: Price, quantity: Quantity): (o: Order)
    ensures o.id == id && o.kind == kind && o.side == side && o.price == price
    ensures o.initial == quantity
    ensures WellFormed(o) && FilledQuantity(o) == 0
    ensures IsFilled(o) <==> quantity == 0
  {
    Order(kind, id, side, price, quantity, quantity)
  }

  /** The class invariant `Fill` maintains: fills never exceed the initial quantity. */
  predicate WellFormed(o: Order) {
    o.remaining <= o.initial
  }

  /** `getFilledQuantity`: `initial - remaining` in unsigned 32-bit arithmetic. */
  function FilledQuantity(o: Order): (f: Quantity)
    ensures WellFormed(o) ==> f + o.remaining == o.initial
    ensures !WellFormed(o) ==> f == o.initial + QuantityModulus - o.remaining
  {
    (o.initial - o.remaining) % QuantityModulus
  }

  /** `isFilled`. */
  predicate IsFilled(o: Order) {
    o.remaining == 0
  }

  /** A well-formed order is filled exactly when its whole initial quantity
      has been filled. */
  lemma IsFilledIffAllFilled(o: Order)
    requires WellFormed(o)
    ensures IsFilled(o) <==> FilledQuantity(o) == o.initial
  {
  }

  /** The logic error `Fill` throws when asked to fill more than remains. */
  datatype FillError = OverFill(id: OrderId)

  /** `Order::Fill`: subtract exactly `q` from the remaining quantity, or fail. */
  function Fill(o: Order, q: Quantity): (r: Result<Order, FillError>)
    ensures r.Failure? <==> q > o.remaining
    ensures r.Failure? ==> r.error == OverFill(o.id)
    ensures r.Success? ==> r.value.remaining + q == o.remaining
    ensures r.Success? ==> r.value.(remaining := o.remaining) == o
    ensures r.Success? && WellFormed(o) ==>
              WellFormed(r.value) && FilledQuantity(r.value) == FilledQuantity(o) + q
    ensures r.Success? ==> (IsFilled(r.value) <==> q == o.remaining)
  {
    if q > o.remaining then Failure(OverFill(o.id))
    else Success(o.(remaining := o.remaining - q))
  }

  /** One side of a trade: which order, at its own limit price, how much. */
  datatype TradeInfo = TradeInfo(id: OrderId, price: Price, quantity: Quantity)

  /** A match event between a bid and an ask. */
  datatype Trade = Trade(bid: TradeInfo, ask: TradeInfo)

  /** Both legs of a trade exchange the same quantity. */
  predicate Balanced(t: Trade) {
    t.bid.quantity == t.ask.quantity
  }

  /** A modify request: the order kind is taken from the resting order. */
  datatype OrderModify = OrderModify(id: OrderId, side: Side, price: Price, quantity: Quantity)

  /** `OrderModify::ToOrderPointer`: a fresh order of the given kind with
      the request's id, side, price and quantity, nothing filled. */
  function ToOrder(m: OrderModify, kind: OrderType): (o: Order)
    ensures o.id == m.id && o.kind == kind && o.side == m.side && o.price == m.price
    ensures o.initial == m.quantity && o.remaining == m.quantity && WellFormed(o)
  {
    NewOrder(kind, m.id, m.side, m.price, m.quantity)
  }

  /** Aggregated depth at one price. */
  datatype LevelInfo = LevelInfo(price: Price, quantity: Quantity)

  /** Snapshot of both ladders, best price first. */
  datatype OrderbookLevelInfos = OrderbookLevelInfos(bids: seq<LevelInfo>, asks: seq<LevelInfo>)
}
