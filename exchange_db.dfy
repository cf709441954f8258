/** The stored tables and the three operations that write them, in the
    step-by-step form of the services: each method reads rows, checks, and
    then updates balances, holdings, order statuses and the trade log in
    place. Each is proved to leave exactly the state the corresponding
    transition function describes, so every property proved about those
    functions holds of the tables. */
module ExchangeDb {
  import opened Wrappers
  import opened Orders
  import opened Assets
  import opened Ledger
  import opened OrderRequests
  import OrderIntake
  import Matching
  import OrderController

  class Database {
    /** `users.balance`, by user. */
    var balances: map<UserId, real>
    /** `assets`, one row per (user, symbol). */
    var holdings: map<(UserId, Symbol), Holding>
    /** `orders`, the row with identifier `i` at position `i`. */
    var orders: seq<Order>
    /** `trades`, in insertion order. */
    var trades: seq<Trade>

    /** The tables as a value. */
    function Snapshot(): State
      reads this
    {
      State(balances, holdings, orders, trades)
    }

    ghost predicate Valid()
      reads this
    {
      Inv(Snapshot())
    }

    /** Start with the given users and balances, the given asset rows with
        nothing locked (there are no orders yet), and no orders or trades. */
    constructor (initial: map<UserId, real>, assets: map<(UserId, Symbol), real>)
      requires forall u :: u in initial ==> initial[u] >= 0.0
      requires forall k :: k in assets ==> assets[k] >= 0.0
      ensures Snapshot() == State(initial, map k | k in assets :: Holding(assets[k], 0.0), [], [])
      ensures Valid()
    {
      balances := initial;
      holdings := map k | k in assets :: Holding(assets[k], 0.0);
      orders := [];
      trades := [];
    }

    /** `OrderService::createOrder`: validate, then reserve and insert the
        open order. */
    method CreateOrder(user: UserId, input: OrderInput, now: nat) returns (r: Result<Order, OrderIntake.Error>)
      requires user in balances
      modifies this
      ensures Step(Snapshot(), r) == OrderIntake.CreateOrder(old(Snapshot()), user, input, now)
      ensures old(Valid()) ==> Valid()
    {
      ghost var s0 := Snapshot();
      if Inv(s0) {
        OrderIntake.CreateOrderKeepsInv(s0, user, input, now);
      }
      var v := OrderIntake.Validate(input);
      if v.Failure? {
        return Failure(v.error);
      }
      var n := v.value;
      if n.side == SIDE_BUY {
        r := HandleBuy(user, n.symbol, n.price, n.amount, now);
      } else {
        r := HandleSell(user, n.symbol, n.price, n.amount, now);
      }
    }

    /** `OrderService::handleBuy`, an internal step of `CreateOrder`: debit
        the cost from the balance unless it is short of it, and insert the
        open buy order. */
    method HandleBuy(user: UserId, symbol: Symbol, price: real, amount: real, now: nat)
      returns (r: Result<Order, OrderIntake.Error>)
      requires user in balances
      modifies this
      ensures Step(Snapshot(), r) == OrderIntake.HandleBuy(old(Snapshot()), user, symbol, price, amount, now)
      ensures old(Valid()) && Supported(symbol) && price > 0.0 && amount > 0.0 ==> Valid()
    {
      if Valid() && Supported(symbol) && price > 0.0 && amount > 0.0 {
        OrderIntake.HandleKeepsInv(Snapshot(), user, symbol, SIDE_BUY, price, amount, now);
      }
      var cost := Cost(price, amount);
      if balances[user] < cost {
        return Failure(OrderIntake.InsufficientBalance);
      }
      balances := balances[user := balances[user] - cost];
      var o := Order(|orders|, user, symbol, SIDE_BUY, price, amount, STATUS_OPEN, now);
      orders := orders + [o];
      r := Success(o);
    }

    /** `OrderService::handleSell`, an internal step of `CreateOrder`: move
        the amount from the unlocked to the locked part of the holding unless
        the unlocked part is short of it, and insert the open sell order. The zero row created for a user
        without one disappears with the rolled-back transaction when the
        check fails, so it is only written on success. */
    method HandleSell(user: UserId, symbol: Symbol, price: real, amount: real, now: nat)
      returns (r: Result<Order, OrderIntake.Error>)
      requires amount > 0.0
      modifies this
      ensures Step(Snapshot(), r) == OrderIntake.HandleSell(old(Snapshot()), user, symbol, price, amount, now)
      ensures old(Valid()) && user in old(balances) && Supported(symbol) && price > 0.0 ==> Valid()
    {
      if Valid() && user in balances && Supported(symbol) && price > 0.0 {
        OrderIntake.HandleKeepsInv(Snapshot(), user, symbol, SIDE_SELL, price, amount, now);
      }
      var key := (user, symbol);
      var h := HoldingOrZero(holdings, user, symbol);
      if h.amount < amount {
        return Failure(OrderIntake.InsufficientAsset);
      }
      h := h.(amount := h.amount - amount);
      h := h.(lockedAmount := h.lockedAmount + amount);
      holdings := holdings[key := h];
      var o := Order(|orders|, user, symbol, SIDE_SELL, price, amount, STATUS_OPEN, now);
      orders := orders + [o];
      r := Success(o);
    }

    /** `MatchingService::settleTrade`: refuse when the buyer's balance is
        below the commission; otherwise move the quantity and the money,
        both balances having been read before either is written. */
    method SettleTrade(buy: Order, sell: Order, volume: real, commission: real) returns (ok: bool)
      requires buy.userId in balances && sell.userId in balances
      modifies this
      ensures ok <==> old(balances[buy.userId]) >= commission
      ensures ok ==> Snapshot() == Matching.Settled(old(Snapshot()), buy, sell, volume, commission)
      ensures !ok ==> Snapshot() == old(Snapshot())
    {
      var buyerBalance := balances[buy.userId];
      var sellerBalance := balances[sell.userId];
      if buyerBalance < commission {
        return false;
      }
      var buyerKey := (buy.userId, buy.symbol);
      if buyerKey !in holdings {
        holdings := holdings[buyerKey := Holding(0.0, 0.0)];
      }
      holdings := holdings[buyerKey := holdings[buyerKey].(amount := holdings[buyerKey].amount + sell.amount)];
      var sellerKey := (sell.userId, sell.symbol);
      if sellerKey in holdings {
        holdings := holdings[sellerKey := holdings[sellerKey].(lockedAmount := holdings[sellerKey].lockedAmount - sell.amount)];
      }
      balances := balances[buy.userId := buyerBalance - commission];
      balances := balances[sell.userId := sellerBalance + volume];
      return true;
    }

    /** `MatchingService::matchOrder`: re-read the order, find the best
        counter-order, settle, fill both orders and log the trade. */
    method MatchOrder(order: Order) returns (r: Matching.MatchResult)
      requires Valid()
      modifies this
      ensures Step(Snapshot(), r) == Matching.MatchOrder(old(Snapshot()), order)
      ensures Valid()
    {
      ghost var s0 := Snapshot();
      Matching.MatchKeepsInv(s0, order);
      if !IsOpen(order) {
        return Matching.NoMatch;
      }
      if order.id >= |orders| || !IsOpen(orders[order.id]) {
        return Matching.NoMatch;
      }
      var current := orders[order.id];
      var found := Matching.FindCounterOrder(orders, current);
      if found.None? {
        return Matching.NoMatch;
      }
      var counter := found.value;
      InTable(s0, current);
      InTable(s0, counter);
      var buy := Matching.BuyLeg(current, counter);
      var sell := Matching.SellLeg(current, counter);
      var volume := TotalValue(sell);
      var commission := Matching.Commission(volume);
      var ok := SettleTrade(buy, sell, volume, commission);
      if !ok {
        return Matching.CommissionShortfall;
      }
      var trade := Trade(buy.id, sell.id, buy.symbol, sell.price, sell.amount, buy.userId, sell.userId, commission);
      assert orders == s0.orders;
      orders := orders[buy.id := buy.(status := STATUS_FILLED)];
      orders := orders[sell.id := sell.(status := STATUS_FILLED)];
      trades := trades + [trade];
      r := Matching.Matched(trade);
    }

    /** `OrderController::cancel`: find the user's order, refuse unless it
        is open, give back what it reserved and mark it cancelled. */
    method Cancel(user: UserId, id: int) returns (r: Result<Order, OrderController.CancelError>)
      requires user in balances
      modifies this
      ensures Step(Snapshot(), r) == OrderController.CancelOrder(old(Snapshot()), user, id)
      ensures old(Valid()) ==> Valid()
    {
      ghost var s0 := Snapshot();
      if Inv(s0) {
        OrderController.CancelKeepsInv(s0, user, id);
      }
      if !(0 <= id < |orders| && orders[id].userId == user) {
        return Failure(OrderController.NotFound);
      }
      var o := orders[id];
      if o.status != STATUS_OPEN {
        return Failure(OrderController.CannotCancel);
      }
      if IsBuy(o) {
        var refund := Cost(o.price, o.amount);
        balances := balances[user := balances[user] + refund];
      } else {
        var key := (user, o.symbol);
        if key in holdings {
          var h := holdings[key];
          h := h.(lockedAmount := h.lockedAmount - o.amount);
          h := h.(amount := h.amount + o.amount);
          holdings := holdings[key := h];
        }
      }
      o := o.(status := STATUS_CANCELLED);
      orders := orders[id := o];
      r := Success(o);
    }
  }
}
