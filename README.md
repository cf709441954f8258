# Order-Exchange-Mini in Dafny

A model of the order book core of Order-Exchange-Mini, a small Laravel
exchange in which users hold a USD balance and BTC/ETH holdings and place
limit orders. The model covers four parts:

- **Order intake** (`OrderService::createOrder`). The request is normalised
  and validated. A buy then reserves `price * amount` from the balance. A sell
  moves `amount` from the holding's unlocked `amount` to its `locked_amount`.
  Then the order is recorded as open.
- **Matching** (`MatchingService`). For one open order it picks a single open
  counter-order by price-time priority. It charges the buyer a 1.5 percent
  commission and pays the seller the full volume. It moves the sold quantity
  from the seller's locked holding to the buyer's holding. It records a trade
  and marks both orders filled.
- **Cancelling and listing** (`OrderController::cancel` and `index`).
- **Model predicates and request rules**: `Order`, `Asset` and
  `StoreOrderRequest`.

The tables are one value, `Ledger.State`: balances by user, holdings by
(user, symbol), orders, and the trade log. Orders are a sequence in which the
order with identifier `i` sits at position `i`, matching auto-increment keys.

Each operation exists in two forms:

- a transition function on `State` (`OrderIntake.CreateOrder`,
  `Matching.MatchOrder`, `OrderController.CancelOrder`), about which the
  properties are proved;
- a method of the class `ExchangeDb.Database`, which updates the fields step by
  step as the services do. Its `ensures` says it leaves exactly the state the
  function describes.

The central invariant is `Ledger.Inv`. It has four parts:

- every stored order is well formed;
- balances are non-negative;
- unlocked amounts are non-negative;
- every holding's `locked_amount` equals the total amount of its owner's open
  sell orders in that symbol.

Intake, matching and cancelling all preserve it.

Amounts are exact rationals (`real`), so the commission is exactly
`volume * 15 / 1000`. Decimal presentation (`decimal:2`, `decimal:8`) is
modelled as rounding half away from zero (half up) to the given number of
places. Time is a parameter `now`. The newest-first listing and the
counter-order choice break a tie of creation timestamps by order identifier.

Three properties of the code are modelled as written:

- A buyer who bid above the ask keeps paying their whole reservation. Matching
  debits only the commission, so the excess `(buy.price - sell.price) * amount`
  is never refunded.
- Buy and sell amounts are not compared. The trade uses the sell leg's amount.
- Self-trades are allowed. Both balances are read before either is written, so
  the seller's write is the one that stays (`Matching.MatchSelfTrade`).

The seller's `locked_amount` cannot go negative in any state the invariant
describes: the open sell order being filled still holds its amount locked.

## Model

| member | source | states |
|---|---|---|
| Strings.ToUpper | app/Services/OrderService.php:16 | same length; every lower-case ASCII letter becomes the upper-case letter 32 code points below it; every other character is kept |
| Strings.ToLower | app/Services/OrderService.php:17 | same length; every upper-case ASCII letter becomes the lower-case letter 32 code points above it; every other character is kept |
| Strings.ToUpperIdempotent | app/Services/OrderService.php:16 | upper-casing twice is upper-casing once |
| Strings.ToLowerIdempotent | app/Services/OrderService.php:17 | lower-casing twice is lower-casing once |
| Decimal.RoundHalfUp | app/Models/Order.php:45-46 | the result has the requested scale; it lies within half a unit of the last place of the input, a tie going away from zero (up for a non-negative input, down for a non-positive one); it keeps the sign; a value already at that scale is unchanged |
| Orders.StatusPredicatesExclusive | app/Models/Order.php:110-129 | isOpen, isFilled and isCancelled hold exactly at 1, 2 and 3; at most one holds |
| Orders.SidePredicatesExclusive | app/Models/Order.php:134-145 | isBuy holds exactly at 'buy' and isSell exactly at 'sell'; they exclude each other |
| Orders.Cost | app/Services/OrderService.php:48 | the worth of an amount at a price: positive when both are, and dividing back to the price |
| Orders.TotalValue | app/Models/Order.php:150-153 | the order's value is the `Cost` of its own price and amount (positivity and dividing back to the price are `Cost`'s ensures); `HandleBuy` debits and `CancelOrder` refunds this quantity |
| Orders.PriceCast | app/Models/Order.php:45 | the presented price has two decimals, is within half a cent of the stored one with a tie rounded away from zero, and equals it when it already has two decimals |
| Orders.AmountCast | app/Models/Order.php:46 | the presented amount has eight decimals, is within half a unit of 10^-8 with a tie rounded away from zero, and equals the stored one when it already has eight decimals |
| Orders.ScopeOpen | app/Models/Order.php:62-65 | keeps exactly the orders with status 1, each as often as it occurs |
| Orders.ScopeFilled | app/Models/Order.php:70-73 | keeps exactly the orders with status 2, each as often as it occurs |
| Orders.ScopeCancelled | app/Models/Order.php:78-81 | keeps exactly the orders with status 3, each as often as it occurs |
| Orders.ScopeBuy | app/Models/Order.php:86-89 | keeps exactly the buy orders, each as often as it occurs |
| Orders.ScopeSell | app/Models/Order.php:94-97 | keeps exactly the sell orders, each as often as it occurs |
| Orders.ScopeForSymbol | app/Models/Order.php:102-105 | keeps exactly the orders of the given symbol, each as often as it occurs |
| Orders.StatusScopesPartition | app/Models/Order.php:62-81 | when every status is valid, the open, filled and cancelled scopes together have as many rows as the table |
| Assets.AvailableAmount | app/Models/Asset.php:62-65 | never negative; at least `amount - locked_amount`; either zero or exactly that difference |
| Assets.AvailableAmountCases | app/Models/Asset.php:64 | equals `amount - locked_amount` when `amount >= locked_amount` and zero otherwise; positive exactly when `amount > locked_amount` |
| Assets.AvailableAmountUndercounts | app/Models/Asset.php:64 | when `amount` is the unlocked part, as intake keeps it, and something is locked, the accessor falls short of it: by the locked quantity when `amount >= locked_amount`; otherwise it reads zero and falls short by all of `amount` |
| Assets.ScopeAvailable | app/Models/Asset.php:46-49 | keeps exactly the holdings with `amount > locked_amount`, which are those with a positive available amount |
| Assets.ScopeLocked | app/Models/Asset.php:54-57 | keeps exactly the holdings with `locked_amount > 0` |
| Assets.HoldingCast | app/Models/Asset.php:30-31 | both presented fields have eight decimals, are within half a unit of the stored values with a tie rounded away from zero, and equal them when already at that scale |
| OrderRequests.PassesRules | app/Http/Requests/StoreOrderRequest.php:16-21 | a request passes exactly when all four fields are present, the symbol is exactly `BTC` or `ETH`, the side exactly `buy` or `sell`, the price at least 0.01 and the amount at least 0.00000001 |
| OrderRequests.AcceptedRequestShape | app/Http/Requests/StoreOrderRequest.php:16-21 | an accepted request has all four fields, symbol BTC or ETH, side buy or sell, and positive price and amount |
| Ledger.TradeValue | app/Models/Trade.php:83-86 | a trade's value is the `Cost` of its price and amount (positivity and dividing back to the price are `Cost`'s ensures) |
| Ledger.InvNonNegative | app/Services/MatchingService.php:144 | under the invariant every balance and both fields of every holding are non-negative |
| Ledger.OpenSellIsLocked | app/Services/OrderService.php:97-98 | under the invariant an open sell order's holding row exists and locks at least its amount |
| OrderIntake.Validate | app/Services/OrderService.php:16-32 | succeeds exactly when the normalised symbol is BTC or ETH, the side is buy or sell, and price and amount are positive; each error is returned exactly when its guard is the first to fail |
| OrderIntake.HandleBuy | app/Services/OrderService.php:46-70 | fails exactly when the balance is below the cost, leaving the state unchanged; otherwise it debits exactly `price * amount`, keeps the balance non-negative, touches no other balance, and appends the open buy order |
| OrderIntake.HandleSell | app/Services/OrderService.php:75-110 | fails exactly when the unlocked amount is below the request, leaving the state unchanged; otherwise it moves the amount to locked, keeps the sum and a non-negative unlocked part, touches no other holding, and appends the open sell order |
| OrderIntake.CreateOrder | app/Services/OrderService.php:14-41 | a validation failure is returned with nothing changed; a valid buy is exactly `HandleBuy` and a valid sell exactly `HandleSell` on the normalised fields; every failure leaves the state unchanged; a success records one open order carrying the normalised request |
| OrderIntake.CreateOrderIgnoresCase | app/Services/OrderService.php:16-17 | pre-normalising the symbol or side makes no difference to the outcome |
| OrderIntake.CreateOrderKeepsInv | app/Services/OrderService.php:34-40 | intake preserves the ledger invariant |
| OrderIntake.HandleKeepsInv | app/Services/OrderService.php:46-110 | for a supported symbol and positive price and amount, the buy step and the sell step each preserve the ledger invariant |
| OrderIntake.RulesImplyServiceChecks | app/Http/Requests/StoreOrderRequest.php:17-20 | every request the rules accept passes the service guards with its fields unchanged |
| OrderIntake.ServiceLaxerThanRules | app/Services/OrderService.php:22-32 | the converse fails: a lower-case symbol, upper-case side and sub-cent prices pass the service but not the rules |
| Matching.Commission | app/Services/MatchingService.php:47 | 1.5 percent of the volume, positive and below it for a positive volume |
| Matching.FindCounterOrder | app/Services/MatchingService.php:80-102 | returns an eligible stored order ahead, by price then time, of every other eligible one; returns none exactly when no order is eligible |
| Matching.SettleTrade | app/Services/MatchingService.php:108-154 | refuses exactly when the buyer's balance is below the commission; otherwise it creates the buyer's row if needed, credits it the sold amount, debits the seller's locked amount, debits the commission and credits the volume, the seller's write staying on a self-trade, and changes nothing else |
| Matching.MatchOrder | app/Services/MatchingService.php:17-75 | anything but a match leaves the state unchanged; an order not open as given or as stored, or with no eligible counter-order, yields no match; an open stored order with an eligible counter-order is always executed against it, and every result other than no match is that execution |
| Matching.Execute | app/Services/MatchingService.php:41-68 | the legs are one open buy and one open sell in the table with crossing prices; a shortfall exactly when settlement refuses, with the state unchanged; a match records the trade at the sell leg's price and amount with the commission, fills both legs and appends the trade |
| Matching.MatchTradeShape | app/Services/MatchingService.php:42-68 | a trade pairs the stored order with another open order of the opposite side and the same symbol; its price and amount are the sell leg's; its commission is covered; both legs become filled, no other order changes, one trade is appended |
| Matching.MatchIsSettlement | app/Services/MatchingService.php:46-50 | a match's balances and holdings are those of settling its two legs at the sell leg's volume |
| Matching.MatchPicksBestCounter | app/Services/MatchingService.php:82-101 | the counter-order of a match is eligible and ahead of every other eligible order: lowest ask for a buy, highest bid for a sell, earliest on a price tie |
| Matching.MatchSettlesDistinctParties | app/Services/MatchingService.php:125-150 | for buyer and seller different: the buyer loses exactly the commission, the seller gains exactly the volume, the buyer's holding gains the amount from a zero row if none existed, the seller's locked amount loses it, and no other balance or holding changes |
| Matching.MatchSelfTrade | app/Services/MatchingService.php:149-153 | on a self-trade the user ends up credited the whole volume, the commission debit being overwritten, and the holding gains and loses the amount |
| Matching.FillKeepsInv | app/Services/MatchingService.php:134-150 | settling and filling a crossing pair preserves the ledger invariant |
| Matching.MatchKeepsInv | app/Services/MatchingService.php:17-75 | matching preserves the ledger invariant, so in particular no locked amount goes negative |
| Matching.MatchOnlyOnce | app/Services/MatchingService.php:25-28 | a second match attempt on either leg of a completed match does nothing |
| OrderController.SortNewestFirst | app/Http/Controllers/API/OrderController.php:33 | the result is newest first and a permutation of the input |
| OrderController.Index | app/Http/Controllers/API/OrderController.php:28-35 | exactly the caller's orders that agree with every filled filter, each as often as stored, newest first |
| OrderController.NewestFirstUnique | app/Http/Controllers/API/OrderController.php:33 | two newest-first arrangements of the same orders with distinct identifiers are equal |
| OrderController.IndexIsDeterminate | app/Http/Controllers/API/OrderController.php:28-33 | under the invariant every newest-first sequence of the selected orders is the listing |
| OrderController.CancelOrder | app/Http/Controllers/API/OrderController.php:60-104 | not found exactly when the id is not the caller's order; cannot cancel exactly when it is not open; both leave the state unchanged; otherwise a buy's cost is refunded, a sell's amount goes from locked back to unlocked, the sum is kept, and the order becomes cancelled |
| OrderController.CancelKeepsInv | app/Http/Controllers/API/OrderController.php:77-101 | cancelling preserves the ledger invariant |
| OrderController.CreateThenCancel | app/Http/Controllers/API/OrderController.php:78-95 | placing an order and cancelling it restores every balance and holding exactly, in the model's uncast values; the order remains, cancelled |
| OrderController.CastValueAtScale | app/Http/Controllers/API/OrderController.php:81 | for a price with at most two decimals and an amount with at most eight, the value read through the casts is the model's value of the order |
| OrderController.CastValueOffScale | app/Http/Controllers/API/OrderController.php:81 | a buy of one unit at 0.015 is worth 0.015 in the model but 0.02 through the casts |
| OrderController.CancelOnlyOnce | app/Http/Controllers/API/OrderController.php:73-75 | a second cancel of the same order is refused and changes nothing |
| OrderController.CancelledNeverMatches | app/Http/Controllers/API/OrderController.php:99-100 | a cancelled order is never matched and never chosen as a counter-order |
| ExchangeDb.Database.CreateOrder | app/Services/OrderService.php:14-41 | updates the tables exactly as `OrderIntake.CreateOrder` describes and keeps the invariant |
| ExchangeDb.Database.HandleBuy | app/Services/OrderService.php:46-70 | updates the tables exactly as `OrderIntake.HandleBuy` describes, and keeps the invariant for a supported symbol and positive price and amount |
| ExchangeDb.Database.HandleSell | app/Services/OrderService.php:75-110 | updates the tables exactly as `OrderIntake.HandleSell` describes, and keeps the invariant for an existing user, a supported symbol and a positive price |
| ExchangeDb.Database.SettleTrade | app/Services/MatchingService.php:108-154 | succeeds exactly when the buyer's balance covers the commission, and then leaves the tables exactly as `Matching.Settled` (the state behind `Matching.SettleTrade`) describes; on refusal no table changes |
| ExchangeDb.Database.MatchOrder | app/Services/MatchingService.php:17-75 | updates the tables exactly as `Matching.MatchOrder` describes and keeps the invariant |
| ExchangeDb.Database.Cancel | app/Http/Controllers/API/OrderController.php:60-104 | updates the tables exactly as `OrderController.CancelOrder` describes and keeps the invariant |

## Left out

- Transactions, row locks and concurrency: each operation is one atomic step. A failure leaves the state as it was, which is what the rollback achieves.
- Matching.MatchOrder: the re-read of the counter-order under lock (app/Services/MatchingService.php:36-39) is not modelled. In a sequential model it always returns the same open order.
- Floating point: amounts are exact rationals. The rounding of PHP floats is not modelled.
- Storage rounding: the ledger works on stored values as given. The decimal casts are modelled only as the presented values (`PriceCast`, `AmountCast`, `HoldingCast`). The `decimal:2` cast of a trade's commission is not modelled.
- OrderController.CancelOrder, Matching.Execute, OrderController.CreateThenCancel: the source computes the cancel refund (app/Http/Controllers/API/OrderController.php:81) and the trade volume (app/Services/MatchingService.php:46) from the price and amount read through the `decimal:2` and `decimal:8` casts, while intake debits the uncast request price. The model uses the uncast values throughout, so for the source the create-then-cancel round trip is exact only for prices with at most two decimals and amounts with at most eight (`CastValueAtScale`); off that scale the two differ (`CastValueOffScale`). The same casts are read in the counter-order price comparison (app/Services/MatchingService.php:87 and 98), the holding updates of a trade (app/Services/MatchingService.php:134 and 144) and of a cancelled sell (app/Http/Controllers/API/OrderController.php:92-93), while intake locks the uncast amount (app/Services/OrderService.php:98). Off the 2- and 8-decimal scale the source's `sell.price <= buy.price` and its locked amount equal to the open-sell total can therefore also differ from the model's.
- Strings.ToUpper: PHP strings are bytes and the model's strings are code points. Since `strtoupper` and `strtolower` map only ASCII letters, the two readings agree on every letter they change.
- OrderIntake.PriceOf: the `(float)` cast of a non-numeric string is not modelled. Price and amount arrive as numbers or are missing.
- OrderController.ListFilters: the `(int)` cast of the status parameter is not modelled. The filter carries the integer.
- OrderRequests: the `string` and `numeric` rules are carried by the field types.
- Event broadcasting of matched orders, authentication and the HTTP responses are not modelled. The response status codes appear as the `Failure` cases.
- The creation timestamp is a parameter `now`, and the database clock is not modelled. A tie of timestamps is broken by order identifier, ascending for the counter-order and descending for the listing.
- `MatchingService::settleTrade` throws when the buyer cannot cover the commission. Here that is the result `CommissionShortfall` with the state unchanged.
- The buyer's excess reservation is never refunded, so cash is not conserved across a match. Accordingly no conservation property is stated.
