/** The stored state the services work on: user balances, asset holdings
    keyed by (user, symbol), the order table and the trade table, with the
    invariant every committed operation keeps.

    Orders get auto-increment identifiers, so the table is a sequence whose
    `i`-th row has identifier `i`. */
module Ledger {
  import opened Orders
  import opened Assets

  /** The holding row of (user, symbol), or the zero row the services create
      for a user who has none. */
  function HoldingOrZero(holdings: map<(UserId, Symbol), Holding>, user: UserId, symbol: Symbol): Holding {
    if (user, symbol) in holdings then holdings[(user, symbol)] else Holding(0.0, 0.0)
  }

  /** A settled match, as recorded in the trade table. */
  datatype Trade = Trade(
    buyOrderId: OrderId,
    sellOrderId: OrderId,
    symbol: Symbol,
    price: real,
    amount: real,
    buyerId: UserId,
    sellerId: UserId,
    commission: real)

  /** The trade's value in the settlement currency. */
  function TradeValue(t: Trade): (v: real)
    ensures v == Cost(t.price, t.amount)
  {
    Cost(t.price, t.amount)
  }

  datatype State = State(
    balances: map<UserId, real>,
    holdings: map<(UserId, Symbol), Holding>,
    orders: seq<Order>,
    trades: seq<Trade>)

  /** An operation's new state together with what it returns. */
  datatype Step<R> = Step(state: State, result: R)

  /** A row as the intake service writes it, and as the matching and cancel
      paths leave it: its identifier is its position, its owner exists, its
      symbol and side are valid, price and amount are positive, and its status
      is one of the three constants. */
  ghost predicate WellFormedOrder(o: Order, i: nat, balances: map<UserId, real>) {
    && o.id == i
    && o.userId in balances
    && Supported(o.symbol)
    && (IsBuy(o) || IsSell(o))
    && o.price > 0.0
    && o.amount > 0.0
    && (IsOpen(o) || IsFilled(o) || IsCancelled(o))
  }

  /** What an order holds locked in its owner's holding of `symbol`. */
  function Reserved(o: Order, user: UserId, symbol: Symbol): real {
    if IsOpen(o) && IsSell(o) && o.userId == user && o.symbol == symbol then o.amount else 0.0
  }

  /** The total amount of `user`'s open sell orders in `symbol`. */
  function OpenSellTotal(os: seq<Order>, user: UserId, symbol: Symbol): real {
    if os == [] then 0.0
    else OpenSellTotal(os[..|os| - 1], user, symbol) + Reserved(os[|os| - 1], user, symbol)
  }

  /** The locked amount of a holding, zero when the row does not exist. */
  function LockedOf(holdings: map<(UserId, Symbol), Holding>, user: UserId, symbol: Symbol): real {
    if (user, symbol) in holdings then holdings[(user, symbol)].lockedAmount else 0.0
  }

  ghost predicate Inv(s: State) {
    && (forall i :: 0 <= i < |s.orders| ==> WellFormedOrder(s.orders[i], i, s.balances))
    && (forall u :: u in s.balances ==> s.balances[u] >= 0.0)
    && (forall k :: k in s.holdings ==> s.holdings[k].amount >= 0.0)
    && (forall u, sym :: LockedOf(s.holdings, u, sym) == OpenSellTotal(s.orders, u, sym))
  }

  /** An order present in the table sits at the position of its identifier. */
  lemma InTable(s: State, o: Order)
    requires Inv(s)
    requires o in s.orders
    ensures o.id < |s.orders| && s.orders[o.id] == o
    ensures WellFormedOrder(o, o.id, s.balances)
  {
    var i :| 0 <= i < |s.orders| && s.orders[i] == o;
  }

  /** Appending an order adds what it reserves. */
  lemma OpenSellTotalAppend(os: seq<Order>, o: Order, user: UserId, symbol: Symbol)
    ensures OpenSellTotal(os + [o], user, symbol) == OpenSellTotal(os, user, symbol) + Reserved(o, user, symbol)
  {
    assert (os + [o])[..|os + [o]| - 1] == os;
  }

  /** Replacing one order changes the total by the difference of what the old
      and the new row reserve. */
  lemma {:induction false} OpenSellTotalUpdate(os: seq<Order>, i: nat, o: Order, user: UserId, symbol: Symbol)
    requires i < |os|
    ensures OpenSellTotal(os[i := o], user, symbol)
         == OpenSellTotal(os, user, symbol) - Reserved(os[i], user, symbol) + Reserved(o, user, symbol)
  {
    var n := |os| - 1;
    var os' := os[i := o];
    assert os'[..n] == if i == n then os[..n] else os[..n][i := o];
    if i < n {
      OpenSellTotalUpdate(os[..n], i, o, user, symbol);
    }
  }

  /** With positive amounts, the total is at least what any one order
      reserves, and so never negative. */
  lemma {:induction false} OpenSellTotalCovers(os: seq<Order>, i: nat, user: UserId, symbol: Symbol)
    requires forall j :: 0 <= j < |os| ==> os[j].amount > 0.0
    requires i < |os|
    ensures OpenSellTotal(os, user, symbol) >= Reserved(os[i], user, symbol) >= 0.0
  {
    var n := |os| - 1;
    OpenSellTotalNonNegative(os[..n], user, symbol);
    if i < n {
      OpenSellTotalCovers(os[..n], i, user, symbol);
    }
  }

  lemma {:induction false} OpenSellTotalNonNegative(os: seq<Order>, user: UserId, symbol: Symbol)
    requires forall j :: 0 <= j < |os| ==> os[j].amount > 0.0
    ensures OpenSellTotal(os, user, symbol) >= 0.0
  {
    if os != [] {
      OpenSellTotalNonNegative(os[..|os| - 1], user, symbol);
    }
  }

  /** Under the invariant no stored quantity is negative: every balance, and
      both fields of every holding. */
  lemma InvNonNegative(s: State)
    requires Inv(s)
    ensures forall u :: u in s.balances ==> s.balances[u] >= 0.0
    ensures forall k :: k in s.holdings ==> s.holdings[k].amount >= 0.0 && s.holdings[k].lockedAmount >= 0.0
  {
    forall k | k in s.holdings
      ensures s.holdings[k].lockedAmount >= 0.0
    {
      assert LockedOf(s.holdings, k.0, k.1) == OpenSellTotal(s.orders, k.0, k.1);
      OpenSellTotalNonNegative(s.orders, k.0, k.1);
    }
  }

  /** An open sell order's holding row exists and locks at least its amount. */
  lemma OpenSellIsLocked(s: State, i: nat)
    requires Inv(s)
    requires i < |s.orders| && IsOpen(s.orders[i]) && IsSell(s.orders[i])
    ensures (s.orders[i].userId, s.orders[i].symbol) in s.holdings
    ensures s.holdings[(s.orders[i].userId, s.orders[i].symbol)].lockedAmount >= s.orders[i].amount
  {
    var o := s.orders[i];
    OpenSellTotalCovers(s.orders, i, o.userId, o.symbol);
    assert LockedOf(s.holdings, o.userId, o.symbol) == OpenSellTotal(s.orders, o.userId, o.symbol);
  }
}
