/** The asset holding of one user in one symbol: an `amount` and a
    `lockedAmount`, both presented with eight decimals, with the available
    amount accessor and the two query scopes. */
module Assets {
  import Decimal
  import Query

  const HOLDING_PLACES: nat := 8

  datatype Holding = Holding(amount: real, lockedAmount: real)

  /** The accessor: the excess of `amount` over `lockedAmount`, never below
      zero. It reads `amount` as the total held, which the intake and cancel
      paths do not (they keep `amount` as the unlocked part). */
  function AvailableAmount(h: Holding): (r: real)
    ensures r >= 0.0
    ensures r >= h.amount - h.lockedAmount
    ensures r == 0.0 || r == h.amount - h.lockedAmount
  {
    if h.amount - h.lockedAmount > 0.0 then h.amount - h.lockedAmount else 0.0
  }

  /** The accessor agrees with the difference exactly when the holding is not
      over-locked, and is zero otherwise. */
  lemma AvailableAmountCases(h: Holding)
    ensures h.amount >= h.lockedAmount ==> AvailableAmount(h) == h.amount - h.lockedAmount
    ensures h.amount < h.lockedAmount ==> AvailableAmount(h) == 0.0
    ensures AvailableAmount(h) > 0.0 <==> h.amount > h.lockedAmount
  {
  }

  /** Where `amount` is the unlocked part (as the ledger keeps it) and
      something is locked, the accessor falls short of it: by the locked
      quantity when `amount >= lockedAmount`, and otherwise, reading zero,
      by all of `amount`. */
  lemma AvailableAmountUndercounts(h: Holding)
    requires h.amount >= 0.0 && h.lockedAmount > 0.0
    ensures AvailableAmount(h) < h.amount || h.amount == 0.0
    ensures h.amount >= h.lockedAmount ==> h.amount - AvailableAmount(h) == h.lockedAmount
    ensures h.amount < h.lockedAmount ==> h.amount - AvailableAmount(h) == h.amount
  {
  }

  /** `available` scope: the holdings whose amount exceeds the locked amount,
      which are exactly those with a positive available amount. */
  function ScopeAvailable(q: seq<Holding>): (r: seq<Holding>)
    ensures forall h :: h in r <==> h in q && h.amount > h.lockedAmount
    ensures forall h :: h in r <==> h in q && AvailableAmount(h) > 0.0
    ensures forall h: Holding :: h.amount > h.lockedAmount ==> multiset(r)[h] == multiset(q)[h]
  {
    Query.Where(q, (h: Holding) => h.amount > h.lockedAmount)
  }

  /** `locked` scope: the holdings with something locked. */
  function ScopeLocked(q: seq<Holding>): (r: seq<Holding>)
    ensures forall h :: h in r <==> h in q && h.lockedAmount > 0.0
    ensures forall h: Holding :: h.lockedAmount > 0.0 ==> multiset(r)[h] == multiset(q)[h]
  {
    Query.Where(q, (h: Holding) => h.lockedAmount > 0.0)
  }

  /** The presented holding: both fields at eight decimals, each within half a
      unit of 10^-8 of the stored value and equal to it when it already has
      that scale. */
  function HoldingCast(h: Holding): (c: Holding)
    ensures Decimal.HasScale(c.amount, HOLDING_PLACES) && Decimal.HasScale(c.lockedAmount, HOLDING_PLACES)
    ensures h.amount >= 0.0 ==> -0.5 < Decimal.Scaled(c.amount, HOLDING_PLACES) - Decimal.Scaled(h.amount, HOLDING_PLACES) <= 0.5
    ensures h.amount <= 0.0 ==> -0.5 <= Decimal.Scaled(c.amount, HOLDING_PLACES) - Decimal.Scaled(h.amount, HOLDING_PLACES) < 0.5
    ensures h.lockedAmount >= 0.0 ==> -0.5 < Decimal.Scaled(c.lockedAmount, HOLDING_PLACES) - Decimal.Scaled(h.lockedAmount, HOLDING_PLACES) <= 0.5
    ensures h.lockedAmount <= 0.0 ==> -0.5 <= Decimal.Scaled(c.lockedAmount, HOLDING_PLACES) - Decimal.Scaled(h.lockedAmount, HOLDING_PLACES) < 0.5
    ensures Decimal.HasScale(h.amount, HOLDING_PLACES) && Decimal.HasScale(h.lockedAmount, HOLDING_PLACES) ==> c == h
  {
    Holding(Decimal.RoundHalfUp(h.amount, HOLDING_PLACES), Decimal.RoundHalfUp(h.lockedAmount, HOLDING_PLACES))
  }
}
