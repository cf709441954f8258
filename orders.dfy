/** The order record: its status and side constants, the predicates on them,
    its total value, the decimal presentation of price and amount, and the
    query scopes that select orders by one field. */
module Orders {
  import Decimal
  import Query

  type UserId = nat
  type OrderId = nat
  type Symbol = string

  const STATUS_OPEN: int := 1
  const STATUS_FILLED: int := 2
  const STATUS_CANCELLED: int := 3

  const SIDE_BUY: string := "buy"
  const SIDE_SELL: string := "sell"

  /** Digits after the point of the `price` and `amount` casts. */
  const PRICE_PLACES: nat := 2
  const AMOUNT_PLACES: nat := 8

  /** An order row. `createdAt` is the creation timestamp. */
  datatype Order = Order(
    id: OrderId,
    userId: UserId,
    symbol: Symbol,
    side: string,
    price: real,
    amount: real,
    status: int,
    createdAt: nat)

  /** The symbols the exchange trades. */
  predicate Supported(symbol: Symbol) {
    symbol == "BTC" || symbol == "ETH"
  }

  predicate IsOpen(o: Order) { o.status == STATUS_OPEN }
  predicate IsFilled(o: Order) { o.status == STATUS_FILLED }
  predicate IsCancelled(o: Order) { o.status == STATUS_CANCELLED }
  predicate IsBuy(o: Order) { o.side == SIDE_BUY }
  predicate IsSell(o: Order) { o.side == SIDE_SELL }

  /** Creation order: the earlier timestamp, the smaller identifier breaking
      a tie of timestamps. */
  predicate EarlierOrSame(a: Order, b: Order) {
    a.createdAt < b.createdAt || (a.createdAt == b.createdAt && a.id <= b.id)
  }

  /** The three status predicates exclude each other, and each holds exactly
      at its status constant. */
  lemma StatusPredicatesExclusive(o: Order)
    ensures IsOpen(o) <==> o.status == 1
    ensures IsFilled(o) <==> o.status == 2
    ensures IsCancelled(o) <==> o.status == 3
    ensures !(IsOpen(o) && IsFilled(o)) && !(IsOpen(o) && IsCancelled(o)) && !(IsFilled(o) && IsCancelled(o))
  {
  }

  /** The side predicates hold exactly at 'buy' and 'sell' and exclude each other. */
  lemma SidePredicatesExclusive(o: Order)
    ensures IsBuy(o) <==> o.side == "buy"
    ensures IsSell(o) <==> o.side == "sell"
    ensures !(IsBuy(o) && IsSell(o))
  {
  }

  /** What `amount` units at `price` are worth in the settlement currency:
      positive when both are, and dividing back to the price. */
  function Cost(price: real, amount: real): (v: real)
    ensures price > 0.0 && amount > 0.0 ==> v > 0.0
    ensures amount != 0.0 ==> v / amount == price
  {
    price * amount
  }

  /** The order's value: its amount at its price. */
  function TotalValue(o: Order): (v: real)
    ensures v == Cost(o.price, o.amount)
  {
    Cost(o.price, o.amount)
  }

  /** The presented price: two decimals, within half a cent of the stored one. */
  function PriceCast(o: Order): (p: real)
    ensures Decimal.HasScale(p, PRICE_PLACES)
    ensures o.price >= 0.0 ==> -0.5 < Decimal.Scaled(p, PRICE_PLACES) - Decimal.Scaled(o.price, PRICE_PLACES) <= 0.5
    ensures o.price <= 0.0 ==> -0.5 <= Decimal.Scaled(p, PRICE_PLACES) - Decimal.Scaled(o.price, PRICE_PLACES) < 0.5
    ensures Decimal.HasScale(o.price, PRICE_PLACES) ==> p == o.price
  {
    Decimal.RoundHalfUp(o.price, PRICE_PLACES)
  }

  /** The presented amount: eight decimals, within half a unit of 10^-8. */
  function AmountCast(o: Order): (a: real)
    ensures Decimal.HasScale(a, AMOUNT_PLACES)
    ensures o.amount >= 0.0 ==> -0.5 < Decimal.Scaled(a, AMOUNT_PLACES) - Decimal.Scaled(o.amount, AMOUNT_PLACES) <= 0.5
    ensures o.amount <= 0.0 ==> -0.5 <= Decimal.Scaled(a, AMOUNT_PLACES) - Decimal.Scaled(o.amount, AMOUNT_PLACES) < 0.5
    ensures Decimal.HasScale(o.amount, AMOUNT_PLACES) ==> a == o.amount
  {
    Decimal.RoundHalfUp(o.amount, AMOUNT_PLACES)
  }

  function ScopeOpen(q: seq<Order>): (r: seq<Order>)
    ensures forall o :: o in r <==> o in q && o.status == STATUS_OPEN
    ensures forall o: Order :: o.status == STATUS_OPEN ==> multiset(r)[o] == multiset(q)[o]
  {
    Query.Where(q, (o: Order) => o.status == STATUS_OPEN)
  }

  function ScopeFilled(q: seq<Order>): (r: seq<Order>)
    ensures forall o :: o in r <==> o in q && o.status == STATUS_FILLED
    ensures forall o: Order :: o.status == STATUS_FILLED ==> multiset(r)[o] == multiset(q)[o]
  {
    Query.Where(q, (o: Order) => o.status == STATUS_FILLED)
  }

  function ScopeCancelled(q: seq<Order>): (r: seq<Order>)
    ensures forall o :: o in r <==> o in q && o.status == STATUS_CANCELLED
    ensures forall o: Order :: o.status == STATUS_CANCELLED ==> multiset(r)[o] == multiset(q)[o]
  {
    Query.Where(q, (o: Order) => o.status == STATUS_CANCELLED)
  }

  function ScopeBuy(q: seq<Order>): (r: seq<Order>)
    ensures forall o :: o in r <==> o in q && o.side == SIDE_BUY
    ensures forall o: Order :: o.side == SIDE_BUY ==> multiset(r)[o] == multiset(q)[o]
  {
    Query.Where(q, (o: Order) => o.side == SIDE_BUY)
  }

  function ScopeSell(q: seq<Order>): (r: seq<Order>)
    ensures forall o :: o in r <==> o in q && o.side == SIDE_SELL
    ensures forall o: Order :: o.side == SIDE_SELL ==> multiset(r)[o] == multiset(q)[o]
  {
    Query.Where(q, (o: Order) => o.side == SIDE_SELL)
  }

  function ScopeForSymbol(q: seq<Order>, symbol: Symbol): (r: seq<Order>)
    ensures forall o :: o in r <==> o in q && o.symbol == symbol
    ensures forall o: Order :: o.symbol == symbol ==> multiset(r)[o] == multiset(q)[o]
  {
    Query.Where(q, (o: Order) => o.symbol == symbol)
  }

  /** The open, filled and cancelled scopes partition an order table whose
      statuses are all valid. */
  lemma StatusScopesPartition(q: seq<Order>)
    requires forall i :: 0 <= i < |q| ==> q[i].status in {STATUS_OPEN, STATUS_FILLED, STATUS_CANCELLED}
    ensures |ScopeOpen(q)| + |ScopeFilled(q)| + |ScopeCancelled(q)| == |q|
  {
    assert multiset(ScopeOpen(q)) + multiset(ScopeFilled(q)) + multiset(ScopeCancelled(q)) == multiset(q) by {
      forall o
        ensures (multiset(ScopeOpen(q)) + multiset(ScopeFilled(q)) + multiset(ScopeCancelled(q)))[o] == multiset(q)[o]
      {
        if o !in q {
          assert o !in ScopeOpen(q) && o !in ScopeFilled(q) && o !in ScopeCancelled(q);
        } else {
          var i :| 0 <= i < |q| && q[i] == o;
        }
      }
    }
    assert |multiset(q)| == |q|;
  }
}
