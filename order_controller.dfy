/** The order endpoints that act on stored orders directly: listing a
    user's orders with optional filters, newest first, and cancelling an
    open order, which gives back what the order reserved. */
module OrderController {
  import opened Wrappers
  import opened Strings
  import opened Query
  import opened Orders
  import Decimal
  import opened Assets
  import opened Ledger
  import Matching
  import OrderIntake
  import OrderRequests

  // ---------------------------------------------------------------------
  // Listing
  // ---------------------------------------------------------------------

  /** The optional query parameters of the listing. `status` is the value
      after the integer cast. */
  datatype ListFilters = ListFilters(symbol: Option<string>, status: Option<int>, side: Option<string>)

  /** The characters trimming removes: space, tab, newline, carriage return,
      NUL and vertical tab. */
  predicate IsTrimmed(c: char) {
    c == ' ' || c == '\t' || c == '\n' || c == '\r' || c == 0 as char || c == 11 as char
  }

  /** A parameter counts as filled when it is present and not blank once
      trimmed. */
  predicate Filled(v: Option<string>) {
    v.Some? && exists i :: 0 <= i < |v.value| && !IsTrimmed(v.value[i])
  }

  /** `o` belongs in the listing of `user` under the filters: it is the
      user's, and it agrees with every filled filter, the symbol compared
      upper-cased and the side lower-cased. */
  predicate Listed(o: Order, user: UserId, f: ListFilters) {
    && o.userId == user
    && (Filled(f.symbol) ==> o.symbol == ToUpper(f.symbol.value))
    && (f.status.Some? ==> o.status == f.status.value)
    && (Filled(f.side) ==> o.side == ToLower(f.side.value))
  }

  /** Newest first: creation timestamps descending, the larger identifier
      first on a tie. */
  predicate NewestFirst(q: seq<Order>) {
    forall i, j :: 0 <= i < j < |q| ==> EarlierOrSame(q[j], q[i])
  }

  /** Place `o` in a newest-first sequence. */
  function InsertNewest(o: Order, q: seq<Order>): (r: seq<Order>)
    requires NewestFirst(q)
    ensures NewestFirst(r)
    ensures multiset(r) == multiset(q) + multiset{o}
    ensures forall x :: x in r <==> x in q || x == o
  {
    if q == [] then [o]
    else if EarlierOrSame(q[0], o) then
      assert forall j :: 0 <= j < |q| ==> EarlierOrSame(q[j], q[0]);
      [o] + q
    else
      var rest := InsertNewest(o, q[1..]);
      assert q == [q[0]] + q[1..];
      assert forall x :: x in rest ==> EarlierOrSame(x, q[0]) by {
        forall x | x in rest
          ensures EarlierOrSame(x, q[0])
        {
          if x != o {
            var j :| 0 <= j < |q[1..]| && q[1..][j] == x;
            assert q[j + 1] == x;
          }
        }
      }
      [q[0]] + rest
  }

  /** Order a sequence newest first, keeping every element. */
  function SortNewestFirst(q: seq<Order>): (r: seq<Order>)
    ensures NewestFirst(r)
    ensures multiset(r) == multiset(q)
  {
    if q == [] then []
    else
      assert q == [q[0]] + q[1..];
      InsertNewest(q[0], SortNewestFirst(q[1..]))
  }

  /** `index`: exactly the user's orders that agree with the filled filters,
      each as often as it is stored, newest first. */
  function Index(orders: seq<Order>, user: UserId, f: ListFilters): (r: seq<Order>)
    ensures NewestFirst(r)
    ensures forall o :: o in r <==> o in orders && Listed(o, user, f)
    ensures forall o :: multiset(r)[o] == if Listed(o, user, f) then multiset(orders)[o] else 0
  {
    var selected := Where(orders, o => Listed(o, user, f));
    var r := SortNewestFirst(selected);
    assert forall o :: o in r <==> o in selected by {
      forall o
        ensures o in r <==> o in selected
      {
        assert o in r <==> multiset(r)[o] > 0;
        assert o in selected <==> multiset(selected)[o] > 0;
      }
    }
    r
  }

  /** Two newest-first sequences of the same orders, without repeated
      identifiers, start with the same order. */
  lemma NewestFirstSameHead(a: seq<Order>, b: seq<Order>)
    requires NewestFirst(a) && NewestFirst(b) && multiset(a) == multiset(b) && a != []
    requires forall i, j :: 0 <= i < j < |a| ==> a[i].id != a[j].id
    ensures b != [] && a[0] == b[0]
  {
    assert |b| == |multiset(b)| == |multiset(a)| == |a|;
    assert a[0] in multiset(b) && b[0] in multiset(a);
    var i :| 0 <= i < |b| && b[i] == a[0];
    var j :| 0 <= j < |a| && a[j] == b[0];
    assert EarlierOrSame(b[0], a[0]) by { if i > 0 { assert EarlierOrSame(b[i], b[0]); } }
    if j > 0 {
      assert false;
    }
  }

  /** Equal multisets with equal heads have equal tails. */
  lemma TailsAgree(a: seq<Order>, b: seq<Order>)
    requires a != [] && b != [] && a[0] == b[0] && multiset(a) == multiset(b)
    ensures multiset(a[1..]) == multiset(b[1..])
  {
    assert a == [a[0]] + a[1..] && b == [b[0]] + b[1..];
    assert multiset(a) == multiset{a[0]} + multiset(a[1..]);
    assert multiset(b) == multiset{b[0]} + multiset(b[1..]);
    forall x
      ensures multiset(a[1..])[x] == multiset(b[1..])[x]
    {
      assert multiset(a)[x] == multiset{a[0]}[x] + multiset(a[1..])[x];
      assert multiset(b)[x] == multiset{a[0]}[x] + multiset(b[1..])[x];
    }
  }

  /** A listing is determined by its orders: two newest-first sequences
      holding the same orders, with no identifier repeated, are equal. */
  lemma {:induction false} NewestFirstUnique(a: seq<Order>, b: seq<Order>)
    requires NewestFirst(a) && NewestFirst(b) && multiset(a) == multiset(b)
    requires forall i, j :: 0 <= i < j < |a| ==> a[i].id != a[j].id
    ensures a == b
  {
    if a == [] {
      assert |b| == |multiset(b)| == 0;
    } else {
      NewestFirstSameHead(a, b);
      TailsAgree(a, b);
      assert forall i, j :: 0 <= i < j < |a[1..]| ==> a[1..][i].id != a[1..][j].id by {
        forall i, j | 0 <= i < j < |a[1..]|
          ensures a[1..][i].id != a[1..][j].id
        {
          assert a[1..][i] == a[i + 1] && a[1..][j] == a[j + 1];
        }
      }
      NewestFirstUnique(a[1..], b[1..]);
      assert a == [a[0]] + a[1..] && b == [b[0]] + b[1..];
    }
  }

  /** In a table whose identifiers are the positions, no order occurs twice. */
  lemma {:induction false} PositionalOrdersOnce(os: seq<Order>, x: Order)
    requires forall k :: 0 <= k < |os| ==> os[k].id == k
    ensures multiset(os)[x] <= 1
  {
    if os != [] {
      var n := |os| - 1;
      assert os == os[..n] + [os[n]];
      PositionalOrdersOnce(os[..n], x);
      if x == os[n] {
        assert x !in os[..n] by {
          forall k | 0 <= k < n
            ensures os[..n][k] != x
          {
            assert os[..n][k].id == k < n == x.id;
          }
        }
      }
    }
  }

  /** An element at two positions is counted at least twice. */
  lemma TwoPositions(q: seq<Order>, i: nat, j: nat)
    requires i < j < |q| && q[i] == q[j]
    ensures multiset(q)[q[i]] >= 2
  {
    assert q == q[..j] + [q[j]] + q[j + 1..];
    assert q[..j][i] == q[i];
    assert multiset(q[..j])[q[i]] >= 1;
  }

  /** The listing is the only newest-first arrangement of the orders it
      selects: the tie-break on identifiers leaves no freedom. */
  lemma IndexIsDeterminate(s: State, user: UserId, f: ListFilters, q: seq<Order>)
    requires Inv(s)
    requires NewestFirst(q)
    requires forall o :: multiset(q)[o] == if Listed(o, user, f) then multiset(s.orders)[o] else 0
    ensures q == Index(s.orders, user, f)
  {
    var r := Index(s.orders, user, f);
    assert multiset(q) == multiset(r);
    forall i, j | 0 <= i < j < |q|
      ensures q[i].id != q[j].id
    {
      if q[i].id == q[j].id {
        assert q[i] in multiset(q) && q[j] in multiset(q);
        InTable(s, q[i]);
        InTable(s, q[j]);
        TwoPositions(q, i, j);
        PositionalOrdersOnce(s.orders, q[i]);
        assert false;
      }
    }
    NewestFirstUnique(q, r);
  }

  // ---------------------------------------------------------------------
  // Cancelling
  // ---------------------------------------------------------------------

  datatype CancelError = NotFound | CannotCancel

  /** The order `id` of `user`. Identifiers are positions in the table. */
  predicate Owns(s: State, user: UserId, id: int) {
    0 <= id < |s.orders| && s.orders[id].userId == user
  }

  /** `cancel`. Another user's order or a missing one is not found; an order
      that is not open cannot be cancelled; both leave the state alone.
      Otherwise a buy gets its cost `price * amount` back on the balance, a
      sell moves its amount from the locked back to the unlocked part of the
      holding (if the row exists), and the order becomes cancelled. */
  function CancelOrder(s: State, user: UserId, id: int): (r: Step<Result<Order, CancelError>>)
    requires user in s.balances
    ensures r.result == Failure(NotFound) <==> !Owns(s, user, id)
    ensures r.result == Failure(CannotCancel) <==> Owns(s, user, id) && !IsOpen(s.orders[id])
    ensures r.result.Failure? ==> r.state == s
    ensures r.result.Success? ==>
      var o := s.orders[id];
      var key := (user, o.symbol);
      && Owns(s, user, id) && IsOpen(o)
      && r.result.value == o.(status := STATUS_CANCELLED)
      && r.state.orders == s.orders[id := r.result.value]
      && r.state.trades == s.trades
      && r.state.balances.Keys == s.balances.Keys
      && r.state.holdings.Keys == s.holdings.Keys
      && (forall u :: u in s.balances && u != user ==> r.state.balances[u] == s.balances[u])
      && (forall k :: k in s.holdings && k != key ==> r.state.holdings[k] == s.holdings[k])
      && (IsBuy(o) ==>
            && r.state.balances[user] == s.balances[user] + TotalValue(o)
            && r.state.holdings == s.holdings)
      && (!IsBuy(o) ==>
            && r.state.balances == s.balances
            && (key in s.holdings ==>
                  && r.state.holdings[key].amount == s.holdings[key].amount + o.amount
                  && r.state.holdings[key].lockedAmount == s.holdings[key].lockedAmount - o.amount)
            && (key !in s.holdings ==> r.state.holdings == s.holdings))
  {
    if !Owns(s, user, id) then Step(s, Failure(NotFound))
    else
      var o := s.orders[id];
      if o.status != STATUS_OPEN then Step(s, Failure(CannotCancel))
      else
        var cancelled := o.(status := STATUS_CANCELLED);
        var orders := s.orders[id := cancelled];
        if IsBuy(o) then
          var refund := Cost(o.price, o.amount);
          Step(State(s.balances[user := s.balances[user] + refund], s.holdings, orders, s.trades), Success(cancelled))
        else
          var key := (user, o.symbol);
          if key in s.holdings then
            var h := s.holdings[key];
            var h' := h.(lockedAmount := h.lockedAmount - o.amount).(amount := h.amount + o.amount);
            Step(State(s.balances, s.holdings[key := h'], orders, s.trades), Success(cancelled))
          else
            Step(State(s.balances, s.holdings, orders, s.trades), Success(cancelled))
  }

  /** Cancelling keeps the invariant: the refund only raises a balance, and
      the released amount is exactly what the order held locked, so each
      locked amount still equals its owner's open sell total. */
  lemma CancelKeepsInv(s: State, user: UserId, id: int)
    requires Inv(s) && user in s.balances
    ensures Inv(CancelOrder(s, user, id).state)
  {
    var r := CancelOrder(s, user, id);
    if r.result.Success? {
      var o := s.orders[id];
      var t := r.state;
      assert WellFormedOrder(o, id, s.balances);
      if !IsBuy(o) {
        OpenSellIsLocked(s, id);
      }
      forall i | 0 <= i < |t.orders|
        ensures WellFormedOrder(t.orders[i], i, t.balances)
      {
        assert WellFormedOrder(s.orders[i], i, s.balances);
      }
      forall u, sym
        ensures LockedOf(t.holdings, u, sym) == OpenSellTotal(t.orders, u, sym)
      {
        OpenSellTotalUpdate(s.orders, id, o.(status := STATUS_CANCELLED), u, sym);
        assert LockedOf(s.holdings, u, sym) == OpenSellTotal(s.orders, u, sym);
      }
    }
  }

  /** Placing an order and cancelling it straight away restores every
      balance and holding exactly; what remains is the order, cancelled. */
  lemma CreateThenCancel(s: State, user: UserId, input: OrderRequests.OrderInput, now: nat)
    requires user in s.balances
    requires OrderIntake.CreateOrder(s, user, input, now).result.Success?
    ensures var c := OrderIntake.CreateOrder(s, user, input, now);
      var o := c.result.value;
      CancelOrder(c.state, user, o.id)
        == Step(State(s.balances, s.holdings, s.orders + [o.(status := STATUS_CANCELLED)], s.trades),
                Success(o.(status := STATUS_CANCELLED)))
  {
    var c := OrderIntake.CreateOrder(s, user, input, now);
    var o := c.result.value;
    var key := (user, o.symbol);
    assert c.state.orders[o.id] == o;
    assert (s.orders + [o])[o.id := o.(status := STATUS_CANCELLED)] == s.orders + [o.(status := STATUS_CANCELLED)];
    var r := CancelOrder(c.state, user, o.id);
    if IsBuy(o) {
      assert r.state.balances == s.balances;
    } else {
      assert r.state.holdings == s.holdings by {
        assert forall k :: k in s.holdings ==> r.state.holdings[k] == s.holdings[k];
      }
    }
  }

  /** The refund and the trade volume are read through the `decimal:2` and
      `decimal:8` casts; for an order whose price has at most two decimals
      and whose amount has at most eight, the cast value is the model's. */
  lemma CastValueAtScale(o: Order)
    requires Decimal.HasScale(o.price, PRICE_PLACES) && Decimal.HasScale(o.amount, AMOUNT_PLACES)
    ensures Cost(PriceCast(o), AmountCast(o)) == TotalValue(o)
  {
  }

  /** Off that scale they part: a buy of one unit at 0.015 reserves 0.015,
      but its price reads back as 0.02. */
  lemma CastValueOffScale()
    ensures var o := Order(0, 0, "BTC", SIDE_BUY, 0.015, 1.0, STATUS_OPEN, 0);
      && TotalValue(o) == 0.015
      && Cost(PriceCast(o), AmountCast(o)) == 0.02
  {
    var o := Order(0, 0, "BTC", SIDE_BUY, 0.015, 1.0, STATUS_OPEN, 0);
    assert Decimal.Pow10(2) == 100;
    assert Decimal.Scaled(o.price, PRICE_PLACES) == 1.5;
    assert Decimal.RoundUnits(1.5) == 2;
    assert PriceCast(o) == 0.02;
    assert Decimal.HasScale(o.amount, AMOUNT_PLACES);
  }

  /** An order is cancelled at most once: a second attempt is refused and
      changes nothing. */
  lemma CancelOnlyOnce(s: State, user: UserId, id: int)
    requires user in s.balances
    requires CancelOrder(s, user, id).result.Success?
    ensures var t := CancelOrder(s, user, id).state;
      && user in t.balances
      && CancelOrder(t, user, id) == Step(t, Failure(CannotCancel))
  {
  }

  /** A cancelled order never trades again: matching it does nothing, and
      it is never picked as a counter-order. */
  lemma CancelledNeverMatches(s: State, user: UserId, id: int, other: Order)
    requires Inv(s) && user in s.balances
    requires CancelOrder(s, user, id).result.Success?
    ensures var r := CancelOrder(s, user, id);
      && Inv(r.state)
      && Matching.MatchOrder(r.state, r.result.value) == Step(r.state, Matching.NoMatch)
      && Matching.FindCounterOrder(r.state.orders, other) != Some(r.result.value)
  {
    CancelKeepsInv(s, user, id);
  }
}
