/** The matching engine: for one open order, pick a single resting
    counter-order by price-time priority, settle the pair (commission from
    the buyer, full volume to the seller, the sold quantity from the seller's
    locked holding to the buyer's), record a trade and fill both orders. */
module Matching {
  import opened Wrappers
  import opened Orders
  import opened Assets
  import opened Ledger

  /** Commission rate, charged to the buyer on the trade volume. */
  const COMMISSION_RATE: real := 0.015

  /** The commission on a trade volume: 1.5 percent of it. */
  function Commission(volume: real): (c: real)
    ensures c * 1000.0 == volume * 15.0
    ensures volume > 0.0 ==> 0.0 < c < volume
  {
    volume * COMMISSION_RATE
  }

  datatype MatchResult = NoMatch | Matched(trade: Trade) | CommissionShortfall

  /** `c` may fill `o`: same symbol, open, opposite side, compatible price. An
      order that is not a buy is matched as a sell. */
  predicate Eligible(o: Order, c: Order) {
    && c.symbol == o.symbol
    && IsOpen(c)
    && if IsBuy(o) then c.side == SIDE_SELL && c.price <= o.price
       else c.side == SIDE_BUY && c.price >= o.price
  }

  /** `a` is taken no later than `b` as a counter-order for `o`: the lower
      ask for a buy, the higher bid for a sell, then the earlier one. */
  predicate Ahead(o: Order, a: Order, b: Order) {
    if IsBuy(o) then a.price < b.price || (a.price == b.price && EarlierOrSame(a, b))
    else a.price > b.price || (a.price == b.price && EarlierOrSame(a, b))
  }

  /** `findCounterOrder`: the eligible order that is ahead of every other
      eligible order, or none exactly when no order is eligible. */
  function FindCounterOrder(orders: seq<Order>, o: Order): (r: Option<Order>)
    ensures r.Some? ==> r.value in orders && Eligible(o, r.value)
    ensures r.Some? ==> forall c :: c in orders && Eligible(o, c) ==> Ahead(o, r.value, c)
    ensures r.None? <==> forall c :: c in orders ==> !Eligible(o, c)
  {
    if orders == [] then None
    else
      var n := |orders| - 1;
      var rest := FindCounterOrder(orders[..n], o);
      var last := orders[n];
      assert orders == orders[..n] + [last];
      if !Eligible(o, last) then rest
      else if rest.Some? && Ahead(o, rest.value, last) then rest
      else Some(last)
  }

  /** `settleTrade`: fail when the buyer's balance is below the commission;
      otherwise credit the buyer's holding with the sold quantity (creating a
      zero row if needed), take it from the seller's locked amount when the
      seller has a row, and move the money. Both balances are read before
      either is written, so when buyer and seller are the same user the
      seller's write is the one that stays. */
  function SettleTrade(s: State, buy: Order, sell: Order, volume: real, commission: real): (r: Option<State>)
    requires buy.userId in s.balances && sell.userId in s.balances
    ensures r.None? <==> s.balances[buy.userId] < commission
    ensures r.Some? ==>
      && r.value.orders == s.orders
      && r.value.trades == s.trades
      && r.value.balances.Keys == s.balances.Keys
      && (forall u :: u in s.balances && u != buy.userId && u != sell.userId ==> r.value.balances[u] == s.balances[u])
      && r.value.balances[sell.userId] == s.balances[sell.userId] + volume
      && (buy.userId != sell.userId ==> r.value.balances[buy.userId] == s.balances[buy.userId] - commission)
      && r.value.holdings.Keys == s.holdings.Keys + {(buy.userId, buy.symbol)}
      && (forall k :: k in s.holdings && k != (buy.userId, buy.symbol) && k != (sell.userId, sell.symbol)
            ==> r.value.holdings[k] == s.holdings[k])
    ensures r.Some? && (buy.userId, buy.symbol) != (sell.userId, sell.symbol) ==>
      && r.value.holdings[(buy.userId, buy.symbol)].amount == HoldingOrZero(s.holdings, buy.userId, buy.symbol).amount + sell.amount
      && r.value.holdings[(buy.userId, buy.symbol)].lockedAmount == HoldingOrZero(s.holdings, buy.userId, buy.symbol).lockedAmount
      && ((sell.userId, sell.symbol) in s.holdings ==>
            && r.value.holdings[(sell.userId, sell.symbol)].lockedAmount == s.holdings[(sell.userId, sell.symbol)].lockedAmount - sell.amount
            && r.value.holdings[(sell.userId, sell.symbol)].amount == s.holdings[(sell.userId, sell.symbol)].amount)
    ensures r.Some? && (buy.userId, buy.symbol) == (sell.userId, sell.symbol) ==>
      && r.value.holdings[(buy.userId, buy.symbol)].amount == HoldingOrZero(s.holdings, buy.userId, buy.symbol).amount + sell.amount
      && r.value.holdings[(buy.userId, buy.symbol)].lockedAmount == HoldingOrZero(s.holdings, buy.userId, buy.symbol).lockedAmount - sell.amount
  {
    if s.balances[buy.userId] < commission then None
    else Some(Settled(s, buy, sell, volume, commission))
  }

  /** The state `settleTrade` writes once the commission check has passed:
      the buyer's row (created at zero when missing) gains the quantity, the
      seller's row, when there is one, releases it from the locked part,
      the buyer pays the commission and the seller receives the volume, both
      balances having been read before either is written. */
  function Settled(s: State, buy: Order, sell: Order, volume: real, commission: real): State
    requires buy.userId in s.balances && sell.userId in s.balances
  {
    var buyerBalance := s.balances[buy.userId];
    var sellerBalance := s.balances[sell.userId];
    var buyerKey := (buy.userId, buy.symbol);
    var h0 := if buyerKey in s.holdings then s.holdings else s.holdings[buyerKey := Holding(0.0, 0.0)];
    var h1 := h0[buyerKey := h0[buyerKey].(amount := h0[buyerKey].amount + sell.amount)];
    var sellerKey := (sell.userId, sell.symbol);
    var h2 := if sellerKey in h1 then h1[sellerKey := h1[sellerKey].(lockedAmount := h1[sellerKey].lockedAmount - sell.amount)] else h1;
    var balances := s.balances[buy.userId := buyerBalance - commission][sell.userId := sellerBalance + volume];
    State(balances, h2, s.orders, s.trades)
  }

  /** `matchOrder`. Nothing happens unless `order` is open both as the caller
      sees it and as stored; nothing happens without an eligible counter-order;
      a buyer short of the commission aborts the whole step. On a match the
      trade is at the sell leg's price and quantity, both orders become
      filled, and exactly one trade is appended. */
  function MatchOrder(s: State, order: Order): (r: Step<MatchResult>)
    requires Inv(s)
    ensures !r.result.Matched? ==> r.state == s
    ensures !IsOpen(order) ==> r.result == NoMatch
    ensures order.id >= |s.orders| || !IsOpen(s.orders[order.id]) ==> r.result == NoMatch
    ensures order.id < |s.orders| && FindCounterOrder(s.orders, s.orders[order.id]).None? ==> r.result == NoMatch
    ensures r.result != NoMatch ==>
      && order.id < |s.orders| && IsOpen(s.orders[order.id])
      && FindCounterOrder(s.orders, s.orders[order.id]).Some?
      && r == Execute(s, s.orders[order.id], FindCounterOrder(s.orders, s.orders[order.id]).value)
    ensures (&& IsOpen(order) && order.id < |s.orders| && IsOpen(s.orders[order.id])
             && FindCounterOrder(s.orders, s.orders[order.id]).Some?) ==>
      r == Execute(s, s.orders[order.id], FindCounterOrder(s.orders, s.orders[order.id]).value)
  {
    if !IsOpen(order) then Step(s, NoMatch)
    else if order.id >= |s.orders| || !IsOpen(s.orders[order.id]) then Step(s, NoMatch)
    else
      var current := s.orders[order.id];
      match FindCounterOrder(s.orders, current)
      case None => Step(s, NoMatch)
      case Some(counter) => Execute(s, current, counter)
  }

  function BuyLeg(current: Order, counter: Order): Order {
    if IsBuy(current) then current else counter
  }

  function SellLeg(current: Order, counter: Order): Order {
    if IsSell(current) then current else counter
  }

  /** The match proper, for a stored open order and the counter-order found
      for it: settle at the sell leg's price and amount, then record the trade
      and fill both legs. */
  function Execute(s: State, current: Order, counter: Order): (r: Step<MatchResult>)
    requires Inv(s)
    requires current in s.orders && counter in s.orders
    requires IsOpen(current) && Eligible(current, counter)
    ensures var buy := BuyLeg(current, counter); var sell := SellLeg(current, counter);
      && buy.id < |s.orders| && s.orders[buy.id] == buy && WellFormedOrder(buy, buy.id, s.balances)
      && sell.id < |s.orders| && s.orders[sell.id] == sell && WellFormedOrder(sell, sell.id, s.balances)
      && IsBuy(buy) && IsSell(sell) && IsOpen(buy) && IsOpen(sell) && buy.id != sell.id
      && buy.symbol == sell.symbol && sell.price <= buy.price
      && {buy.id, sell.id} == {current.id, counter.id}
      && var settled := SettleTrade(s, buy, sell, TotalValue(sell), Commission(TotalValue(sell)));
      && (r.result == CommissionShortfall <==> settled.None?)
      && (settled.None? ==> r.state == s)
      && (r.result != NoMatch)
      && (r.result.Matched? ==>
            && r.result.trade == Trade(buy.id, sell.id, buy.symbol, sell.price, sell.amount, buy.userId, sell.userId,
                                       Commission(TotalValue(sell)))
            && r.state.balances == settled.value.balances
            && r.state.holdings == settled.value.holdings
            && r.state.orders == s.orders[buy.id := buy.(status := STATUS_FILLED)][sell.id := sell.(status := STATUS_FILLED)]
            && r.state.trades == s.trades + [r.result.trade])
  {
    InTable(s, current);
    InTable(s, counter);
    var buy := BuyLeg(current, counter);
    var sell := SellLeg(current, counter);
    var volume := TotalValue(sell);
    var commission := Commission(volume);
    match SettleTrade(s, buy, sell, volume, commission)
    case None => Step(s, CommissionShortfall)
    case Some(settled) =>
      var trade := Trade(buy.id, sell.id, buy.symbol, sell.price, sell.amount, buy.userId, sell.userId, commission);
      var orders := settled.orders[buy.id := buy.(status := STATUS_FILLED)][sell.id := sell.(status := STATUS_FILLED)];
      Step(State(settled.balances, settled.holdings, orders, settled.trades + [trade]), Matched(trade))
  }

  /** What a match records: the trade is between the stored order and its
      counter-order, one buy and one sell of the same symbol with crossing
      prices; it is priced and sized by the sell leg with 1.5 percent
      commission the buyer can cover; both legs become filled, no other order
      changes, exactly one trade is appended, no balance row appears and the
      only holding row that can appear is the buyer's. */
  lemma MatchTradeShape(s: State, order: Order, r: Step<MatchResult>)
    requires Inv(s) && r == MatchOrder(s, order) && r.result.Matched?
    ensures var t := r.result.trade;
      && IsOpen(order)
      && t.buyOrderId < |s.orders| && t.sellOrderId < |s.orders| && t.buyOrderId != t.sellOrderId
      && (order.id == t.buyOrderId || order.id == t.sellOrderId)
      && var b := s.orders[t.buyOrderId];
      && var sl := s.orders[t.sellOrderId];
      && IsOpen(b) && IsOpen(sl) && IsBuy(b) && IsSell(sl)
      && b.symbol == sl.symbol == t.symbol
      && sl.price <= b.price
      && t.price == sl.price && t.amount == sl.amount
      && t.buyerId == b.userId && t.sellerId == sl.userId
      && t.commission == Commission(TotalValue(sl))
      && b.userId in s.balances && sl.userId in s.balances
      && s.balances[b.userId] >= t.commission
      && r.state.balances.Keys == s.balances.Keys
      && r.state.holdings.Keys == s.holdings.Keys + {(b.userId, b.symbol)}
      && r.state.trades == s.trades + [t]
      && |r.state.orders| == |s.orders|
      && r.state.orders[t.buyOrderId] == b.(status := STATUS_FILLED)
      && r.state.orders[t.sellOrderId] == sl.(status := STATUS_FILLED)
      && (forall i :: 0 <= i < |s.orders| && i != t.buyOrderId && i != t.sellOrderId ==> r.state.orders[i] == s.orders[i])
  {
    var current := s.orders[order.id];
    var counter := FindCounterOrder(s.orders, current).value;
    InTable(s, current);
    InTable(s, counter);
  }

  /** A match's balances and holdings are those the settlement of its two
      legs at the trade's volume and commission produces. */
  lemma MatchIsSettlement(s: State, order: Order, r: Step<MatchResult>)
    requires Inv(s) && r == MatchOrder(s, order) && r.result.Matched?
    ensures var t := r.result.trade;
      && t.buyOrderId < |s.orders| && t.sellOrderId < |s.orders|
      && var b := s.orders[t.buyOrderId]; var sl := s.orders[t.sellOrderId];
      && b.userId in s.balances && sl.userId in s.balances
      && var settled := SettleTrade(s, b, sl, TotalValue(sl), t.commission);
      && settled.Some?
      && r.state.balances == settled.value.balances
      && r.state.holdings == settled.value.holdings
      && r.state.orders == s.orders[b.id := b.(status := STATUS_FILLED)][sl.id := sl.(status := STATUS_FILLED)]
  {
    var current := s.orders[order.id];
    var counter := FindCounterOrder(s.orders, current).value;
    InTable(s, current);
    InTable(s, counter);
  }

  /** The counter-order of a match is the one price-time priority selects:
      eligible for the stored order, and ahead of every other eligible one. */
  lemma MatchPicksBestCounter(s: State, order: Order)
    requires Inv(s)
    requires MatchOrder(s, order).result.Matched?
    ensures var t := MatchOrder(s, order).result.trade;
      var current := s.orders[order.id];
      var counter := s.orders[if order.id == t.buyOrderId then t.sellOrderId else t.buyOrderId];
      && FindCounterOrder(s.orders, current) == Some(counter)
      && Eligible(current, counter)
      && (forall c :: c in s.orders && Eligible(current, c) ==> Ahead(current, counter, c))
  {
    var current := s.orders[order.id];
    var counter :| FindCounterOrder(s.orders, current) == Some(counter);
    InTable(s, counter);
  }

  /** Settlement between two different users: the buyer pays exactly the
      commission, the seller receives exactly the trade value, the buyer's
      holding (a fresh zero row if there was none) gains the traded amount,
      the seller's locked amount loses it, and no other balance or holding
      changes. */
  lemma MatchSettlesDistinctParties(s: State, order: Order, r: Step<MatchResult>)
    requires Inv(s) && r == MatchOrder(s, order)
    requires r.result.Matched? && r.result.trade.buyerId != r.result.trade.sellerId
    ensures var t := r.result.trade;
      var buyerKey := (t.buyerId, t.symbol); var sellerKey := (t.sellerId, t.symbol);
      && r.state.balances.Keys == s.balances.Keys
      && r.state.balances[t.buyerId] == s.balances[t.buyerId] - t.commission
      && r.state.balances[t.sellerId] == s.balances[t.sellerId] + TradeValue(t)
      && (forall u :: u in s.balances && u != t.buyerId && u != t.sellerId ==> r.state.balances[u] == s.balances[u])
      && sellerKey in s.holdings
      && r.state.holdings.Keys == s.holdings.Keys + {buyerKey}
      && r.state.holdings[buyerKey] == HoldingOrZero(s.holdings, t.buyerId, t.symbol).(amount := HoldingOrZero(s.holdings, t.buyerId, t.symbol).amount + t.amount)
      && r.state.holdings[sellerKey] == s.holdings[sellerKey].(lockedAmount := s.holdings[sellerKey].lockedAmount - t.amount)
      && (forall k :: k in s.holdings && k != buyerKey && k != sellerKey ==> r.state.holdings[k] == s.holdings[k])
  {
    MatchTradeShape(s, order, r);
    MatchIsSettlement(s, order, r);
    var t := r.result.trade;
    var b := s.orders[t.buyOrderId];
    var sl := s.orders[t.sellOrderId];
    assert (t.buyerId, t.symbol) == (b.userId, b.symbol) && (t.sellerId, t.symbol) == (sl.userId, sl.symbol);
    OpenSellIsLocked(s, sl.id);
    var settled := SettleTrade(s, b, sl, TotalValue(sl), t.commission).value;
    assert r.state.balances == settled.balances && r.state.holdings == settled.holdings;
    TradeValueOfSellLeg(t, sl);
    var buyerKey := (b.userId, b.symbol);
    var sellerKey := (sl.userId, sl.symbol);
    assert buyerKey != sellerKey;
    assert settled.holdings[buyerKey].amount == HoldingOrZero(s.holdings, b.userId, b.symbol).amount + sl.amount;
    assert settled.holdings[buyerKey].lockedAmount == HoldingOrZero(s.holdings, b.userId, b.symbol).lockedAmount;
    assert settled.holdings[sellerKey].lockedAmount == s.holdings[sellerKey].lockedAmount - sl.amount;
    assert settled.holdings[sellerKey].amount == s.holdings[sellerKey].amount;
  }

  /** A trade at an order's price and amount is worth that order's total. */
  lemma TradeValueOfSellLeg(t: Trade, sl: Order)
    requires t.price == sl.price && t.amount == sl.amount
    ensures TradeValue(t) == TotalValue(sl)
  {
  }

  /** A self-trade (no user filter stops it): the two balance writes come
      from values read before either, so the buyer's commission debit is
      overwritten and the user ends up credited the whole trade value; the
      holding gains and loses the traded amount. */
  lemma MatchSelfTrade(s: State, order: Order, r: Step<MatchResult>)
    requires Inv(s) && r == MatchOrder(s, order)
    requires r.result.Matched? && r.result.trade.buyerId == r.result.trade.sellerId
    ensures var t := r.result.trade; var key := (t.buyerId, t.symbol);
      && r.state.balances[t.buyerId] == s.balances[t.buyerId] + TradeValue(t)
      && key in s.holdings
      && r.state.holdings[key].amount == s.holdings[key].amount + t.amount
      && r.state.holdings[key].lockedAmount == s.holdings[key].lockedAmount - t.amount
  {
    MatchTradeShape(s, order, r);
    MatchIsSettlement(s, order, r);
    var t := r.result.trade;
    var b := s.orders[t.buyOrderId];
    var sl := s.orders[t.sellOrderId];
    var key := (t.buyerId, t.symbol);
    assert key == (b.userId, b.symbol) == (sl.userId, sl.symbol);
    OpenSellIsLocked(s, sl.id);
    var settled := SettleTrade(s, b, sl, TotalValue(sl), t.commission).value;
    TradeValueOfSellLeg(t, sl);
    assert r.state.balances[t.buyerId] == settled.balances[sl.userId] == s.balances[sl.userId] + TotalValue(sl);
    assert HoldingOrZero(s.holdings, b.userId, b.symbol) == s.holdings[key];
  }

  /** Filling the two orders reduces the seller's open sell total by the
      sold amount and leaves every other total alone. */
  lemma FillTotals(os: seq<Order>, b: Order, sl: Order, u: UserId, sym: Symbol)
    requires b.id < |os| && sl.id < |os| && b.id != sl.id
    requires os[b.id] == b && os[sl.id] == sl && IsBuy(b) && IsOpen(sl) && IsSell(sl)
    ensures OpenSellTotal(os[b.id := b.(status := STATUS_FILLED)][sl.id := sl.(status := STATUS_FILLED)], u, sym)
         == OpenSellTotal(os, u, sym) - (if (u, sym) == (sl.userId, sl.symbol) then sl.amount else 0.0)
  {
    var mid := os[b.id := b.(status := STATUS_FILLED)];
    OpenSellTotalUpdate(os, b.id, b.(status := STATUS_FILLED), u, sym);
    OpenSellTotalUpdate(mid, sl.id, sl.(status := STATUS_FILLED), u, sym);
    assert mid[sl.id] == sl;
  }

  /** Settling a crossing buy and open sell and filling both keeps the
      invariant: the seller's balance only grows, the buyer's stays at least
      zero since it covered the commission, the buyer's holding only grows,
      and the seller's locked amount drops exactly by the amount of the sell
      order that stops being open. */
  lemma FillKeepsInv(s: State, b: Order, sl: Order, settled: State, s': State)
    requires Inv(s)
    requires b.id < |s.orders| && sl.id < |s.orders| && b.id != sl.id
    requires s.orders[b.id] == b && s.orders[sl.id] == sl
    requires IsBuy(b) && IsSell(sl) && IsOpen(sl) && b.symbol == sl.symbol
    requires b.userId in s.balances && sl.userId in s.balances
    requires SettleTrade(s, b, sl, TotalValue(sl), Commission(TotalValue(sl))) == Some(settled)
    requires s'.balances == settled.balances && s'.holdings == settled.holdings
    requires s'.orders == s.orders[b.id := b.(status := STATUS_FILLED)][sl.id := sl.(status := STATUS_FILLED)]
    ensures Inv(s')
  {
    assert WellFormedOrder(sl, sl.id, s.balances);
    assert TotalValue(sl) > 0.0;
    OpenSellIsLocked(s, sl.id);
    forall i | 0 <= i < |s'.orders|
      ensures WellFormedOrder(s'.orders[i], i, s'.balances)
    {
      assert WellFormedOrder(s.orders[i], i, s.balances);
    }
    forall u, sym
      ensures LockedOf(s'.holdings, u, sym) == OpenSellTotal(s'.orders, u, sym)
    {
      FillTotals(s.orders, b, sl, u, sym);
      assert LockedOf(s.holdings, u, sym) == OpenSellTotal(s.orders, u, sym);
    }
  }

  /** Matching keeps the invariant: no balance or unlocked amount goes
      negative, and each locked amount still equals the total of its owner's
      open sell orders, so in particular the seller's locked amount does not
      go negative. */
  lemma MatchKeepsInv(s: State, order: Order)
    requires Inv(s)
    ensures Inv(MatchOrder(s, order).state)
  {
    var r := MatchOrder(s, order);
    if r.result.Matched? {
      MatchTradeShape(s, order, r);
      MatchIsSettlement(s, order, r);
      var t := r.result.trade;
      var b := s.orders[t.buyOrderId];
      var sl := s.orders[t.sellOrderId];
      FillKeepsInv(s, b, sl, SettleTrade(s, b, sl, TotalValue(sl), t.commission).value, r.state);
    }
  }

  /** A second attempt on either order of a completed match is a no-op: the
      stored orders are no longer open. */
  lemma MatchOnlyOnce(s: State, order: Order, again: Order)
    requires Inv(s)
    requires MatchOrder(s, order).result.Matched?
    requires again.id == MatchOrder(s, order).result.trade.buyOrderId
          || again.id == MatchOrder(s, order).result.trade.sellOrderId
    ensures Inv(MatchOrder(s, order).state)
    ensures var s' := MatchOrder(s, order).state; MatchOrder(s', again) == Step(s', NoMatch)
  {
    MatchKeepsInv(s, order);
  }
}
