/** The validation rules of a request to place an order. A field the client
    did not send is `None`; the `numeric` rule is carried by the field type. */
module OrderRequests {
  import opened Wrappers
  import Orders

  datatype OrderInput = OrderInput(
    symbol: Option<string>,
    side: Option<string>,
    price: Option<real>,
    amount: Option<real>)

  const MIN_PRICE: real := 0.01
  const MIN_AMOUNT: real := 0.00000001

  /** symbol: required, one of 'BTC' and 'ETH' exactly (no case folding). */
  predicate SymbolRule(r: OrderInput) {
    r.symbol.Some? && Orders.Supported(r.symbol.value)
  }

  /** side: required, one of 'buy' and 'sell' exactly. */
  predicate SideRule(r: OrderInput) {
    r.side.Some? && (r.side.value == "buy" || r.side.value == "sell")
  }

  /** price: required, at least 0.01. */
  predicate PriceRule(r: OrderInput) {
    r.price.Some? && r.price.value >= MIN_PRICE
  }

  /** amount: required, at least 0.00000001. */
  predicate AmountRule(r: OrderInput) {
    r.amount.Some? && r.amount.value >= MIN_AMOUNT
  }

  /** The request passes every rule. */
  predicate PassesRules(r: OrderInput)
    ensures PassesRules(r) <==>
      && r.symbol in {Some("BTC"), Some("ETH")}
      && r.side in {Some("buy"), Some("sell")}
      && r.price.Some? && r.price.value >= 0.01
      && r.amount.Some? && r.amount.value >= 0.00000001
  {
    SymbolRule(r) && SideRule(r) && PriceRule(r) && AmountRule(r)
  }

  /** What an accepted request carries: both fields present, a supported
      symbol in upper case, a side in lower case, and strictly positive
      price and amount. */
  lemma AcceptedRequestShape(r: OrderInput)
    requires PassesRules(r)
    ensures r.symbol.Some? && r.side.Some? && r.price.Some? && r.amount.Some?
    ensures r.symbol.value in {"BTC", "ETH"} && r.side.value in {"buy", "sell"}
    ensures r.price.value > 0.0 && r.amount.value > 0.0
  {
  }
}
