/** Order intake: normalise and validate the request, then, in one
    transaction, reserve the cost of a buy from the balance or lock the
    quantity of a sell in the holding, and record the order as open. */
module OrderIntake {
  import opened Wrappers
  import opened Strings
  import opened Orders
  import opened Assets
  import opened Ledger
  import opened OrderRequests

  datatype Error =
    | UnsupportedSymbol
    | InvalidSide
    | NonPositivePriceOrAmount
    | InsufficientBalance
    | InsufficientAsset

  /** The request after normalisation: symbol upper-cased, side lower-cased,
      a missing field read as the empty string or zero. */
  datatype Normalised = Normalised(symbol: Symbol, side: string, price: real, amount: real)

  function SymbolOf(input: OrderInput): Symbol { ToUpper(input.symbol.GetOr("")) }
  function SideOf(input: OrderInput): string { ToLower(input.side.GetOr("")) }
  function PriceOf(input: OrderInput): real { input.price.GetOr(0.0) }
  function AmountOf(input: OrderInput): real { input.amount.GetOr(0.0) }

  /** The guards run before any state is touched, symbol first, then side,
      then price and amount; each error is reported exactly when its guard is
      the first to fail. */
  function Validate(input: OrderInput): (r: Result<Normalised, Error>)
    ensures r.Success? <==>
      Supported(SymbolOf(input)) && SideOf(input) in {SIDE_BUY, SIDE_SELL} && PriceOf(input) > 0.0 && AmountOf(input) > 0.0
    ensures r == Failure(UnsupportedSymbol) <==> !Supported(SymbolOf(input))
    ensures r == Failure(InvalidSide) <==> Supported(SymbolOf(input)) && SideOf(input) !in {SIDE_BUY, SIDE_SELL}
    ensures r == Failure(NonPositivePriceOrAmount) <==>
      Supported(SymbolOf(input)) && SideOf(input) in {SIDE_BUY, SIDE_SELL} && (PriceOf(input) <= 0.0 || AmountOf(input) <= 0.0)
    ensures r.Success? ==>
      r.value == Normalised(SymbolOf(input), SideOf(input), PriceOf(input), AmountOf(input))
  {
    var symbol := SymbolOf(input);
    var side := SideOf(input);
    var price := PriceOf(input);
    var amount := AmountOf(input);
    if !Supported(symbol) then Failure(UnsupportedSymbol)
    else if !(side == SIDE_BUY || side == SIDE_SELL) then Failure(InvalidSide)
    else if price <= 0.0 || amount <= 0.0 then Failure(NonPositivePriceOrAmount)
    else Success(Normalised(symbol, side, price, amount))
  }

  /** Buy: debit the whole cost `price * amount` from the user's balance, or
      fail with nothing changed when the balance is short of it. */
  function HandleBuy(s: State, user: UserId, symbol: Symbol, price: real, amount: real, now: nat)
    : (r: Step<Result<Order, Error>>)
    requires user in s.balances
    ensures r.result.Failure? <==> s.balances[user] < Cost(price, amount)
    ensures r.result.Failure? ==> r.result.error == InsufficientBalance && r.state == s
    ensures r.result.Success? ==>
      && r.result.value == Order(|s.orders|, user, symbol, SIDE_BUY, price, amount, STATUS_OPEN, now)
      && r.state.orders == s.orders + [r.result.value]
      && r.state.balances.Keys == s.balances.Keys
      && r.state.balances[user] == s.balances[user] - TotalValue(r.result.value)
      && r.state.balances[user] >= 0.0
      && (forall v :: v in s.balances && v != user ==> r.state.balances[v] == s.balances[v])
      && r.state.holdings == s.holdings
      && r.state.trades == s.trades
  {
    var cost := Cost(price, amount);
    if s.balances[user] < cost then Step(s, Failure(InsufficientBalance))
    else
      var o := Order(|s.orders|, user, symbol, SIDE_BUY, price, amount, STATUS_OPEN, now);
      Step(State(s.balances[user := s.balances[user] - cost], s.holdings, s.orders + [o], s.trades), Success(o))
  }

  /** Sell: move `amount` from the holding's `amount` to its `lockedAmount`,
      or fail with nothing changed (the zero row created for a user with no
      holding is rolled back with the transaction). */
  function HandleSell(s: State, user: UserId, symbol: Symbol, price: real, amount: real, now: nat)
    : (r: Step<Result<Order, Error>>)
    requires amount > 0.0
    ensures r.result.Failure? <==> HoldingOrZero(s.holdings, user, symbol).amount < amount
    ensures r.result.Failure? ==> r.result.error == InsufficientAsset && r.state == s
    ensures r.result.Success? ==>
      && (user, symbol) in s.holdings
      && r.result.value == Order(|s.orders|, user, symbol, SIDE_SELL, price, amount, STATUS_OPEN, now)
      && r.state.orders == s.orders + [r.result.value]
      && r.state.holdings.Keys == s.holdings.Keys
      && (var old_ := s.holdings[(user, symbol)]; var new_ := r.state.holdings[(user, symbol)];
          && new_.amount == old_.amount - amount
          && new_.lockedAmount == old_.lockedAmount + amount
          && new_.amount + new_.lockedAmount == old_.amount + old_.lockedAmount
          && new_.amount >= 0.0)
      && (forall k :: k in s.holdings && k != (user, symbol) ==> r.state.holdings[k] == s.holdings[k])
      && r.state.balances == s.balances
      && r.state.trades == s.trades
  {
    var key := (user, symbol);
    var h := HoldingOrZero(s.holdings, user, symbol);
    if h.amount < amount then Step(s, Failure(InsufficientAsset))
    else
      var o := Order(|s.orders|, user, symbol, SIDE_SELL, price, amount, STATUS_OPEN, now);
      var h' := Holding(h.amount - amount, h.lockedAmount + amount);
      Step(State(s.balances, s.holdings[key := h'], s.orders + [o], s.trades), Success(o))
  }

  /** `createOrder`: validate, then reserve and record. A failure of any kind
      leaves the state as it was; a success records one open order carrying
      exactly the normalised request. */
  function CreateOrder(s: State, user: UserId, input: OrderInput, now: nat): (r: Step<Result<Order, Error>>)
    requires user in s.balances
    ensures Validate(input).Failure? ==> r == Step(s, Failure(Validate(input).error))
    ensures r.result.Failure? ==> r.state == s
    ensures r.result.Success? ==>
      && Validate(input).Success?
      && r.result.value == Order(|s.orders|, user, SymbolOf(input), SideOf(input), PriceOf(input), AmountOf(input), STATUS_OPEN, now)
      && r.state.orders == s.orders + [r.result.value]
      && r.state.trades == s.trades
    ensures Validate(input).Success? && SideOf(input) == SIDE_BUY ==>
      r == HandleBuy(s, user, SymbolOf(input), PriceOf(input), AmountOf(input), now)
    ensures Validate(input).Success? && SideOf(input) == SIDE_SELL ==>
      r == HandleSell(s, user, SymbolOf(input), PriceOf(input), AmountOf(input), now)
  {
    match Validate(input)
    case Failure(e) => Step(s, Failure(e))
    case Success(n) =>
      if n.side == SIDE_BUY then HandleBuy(s, user, n.symbol, n.price, n.amount, now)
      else HandleSell(s, user, n.symbol, n.price, n.amount, now)
  }

  /** Upper-casing the symbol or lower-casing the side beforehand makes no
      difference: normalisation happens before any check. */
  lemma CreateOrderIgnoresCase(s: State, user: UserId, input: OrderInput, now: nat)
    requires user in s.balances
    ensures CreateOrder(s, user, input.(symbol := Some(SymbolOf(input)), side := Some(SideOf(input))), now)
         == CreateOrder(s, user, input, now)
  {
    ToUpperIdempotent(input.symbol.GetOr(""));
    ToLowerIdempotent(input.side.GetOr(""));
  }

  /** Intake keeps the invariant: balances and unlocked amounts stay
      non-negative, and each holding's locked amount still equals the total
      of its owner's open sell orders in that symbol. */
  lemma CreateOrderKeepsInv(s: State, user: UserId, input: OrderInput, now: nat)
    requires Inv(s) && user in s.balances
    ensures Inv(CreateOrder(s, user, input, now).state)
  {
    if Validate(input).Success? {
      var n := Validate(input).value;
      HandleKeepsInv(s, user, n.symbol, n.side, n.price, n.amount, now);
    }
  }

  /** Either reservation step, given what validation guarantees (a supported
      symbol, a known side, positive price and amount), keeps the invariant. */
  lemma HandleKeepsInv(s: State, user: UserId, symbol: Symbol, side: string, price: real, amount: real, now: nat)
    requires Inv(s) && user in s.balances
    requires Supported(symbol) && side in {SIDE_BUY, SIDE_SELL} && price > 0.0 && amount > 0.0
    ensures side == SIDE_BUY ==> Inv(HandleBuy(s, user, symbol, price, amount, now).state)
    ensures side == SIDE_SELL ==> Inv(HandleSell(s, user, symbol, price, amount, now).state)
  {
    var r := if side == SIDE_BUY then HandleBuy(s, user, symbol, price, amount, now)
             else HandleSell(s, user, symbol, price, amount, now);
    if r.result.Success? {
      var o := r.result.value;
      var t := r.state;
      assert WellFormedOrder(o, |s.orders|, t.balances);
      forall i | 0 <= i < |t.orders|
        ensures WellFormedOrder(t.orders[i], i, t.balances)
      {
        if i < |s.orders| { assert t.orders[i] == s.orders[i]; }
      }
      forall u, sym
        ensures LockedOf(t.holdings, u, sym) == OpenSellTotal(t.orders, u, sym)
      {
        OpenSellTotalAppend(s.orders, o, u, sym);
      }
    }
  }

  /** Every request the validation rules accept also passes the service's
      guards, and normalisation leaves its fields as they were. */
  lemma RulesImplyServiceChecks(input: OrderInput)
    requires PassesRules(input)
    ensures Validate(input).Success?
    ensures Validate(input).value
         == Normalised(input.symbol.value, input.side.value, input.price.value, input.amount.value)
  {
    var sym := input.symbol.value;
    var side := input.side.value;
    assert forall i :: 0 <= i < |sym| ==> !IsLower(sym[i]);
    ToUpperKeeps(sym);
    assert forall i :: 0 <= i < |side| ==> !IsUpper(side[i]);
    ToLowerKeeps(side);
  }

  /** The converse fails: the service alone accepts a lower-case symbol, an
      upper-case side and sub-cent prices that the rules reject. */
  lemma ServiceLaxerThanRules()
    ensures var input := OrderInput(Some("btc"), Some("BUY"), Some(0.001), Some(0.000000001));
      !PassesRules(input) && Validate(input).Success?
  {
    var input := OrderInput(Some("btc"), Some("BUY"), Some(0.001), Some(0.000000001));
    assert SymbolOf(input) == "BTC" by {
      var u := ToUpper("btc");
      assert u[0] == 'B' && u[1] == 'T' && u[2] == 'C';
    }
    assert SideOf(input) == "buy" by {
      var l := ToLower("BUY");
      assert l[0] == 'b' && l[1] == 'u' && l[2] == 'y';
    }
  }
}
