/**
 * Identifiers, clock values, results and the error taxonomy shared by the
 * whole model of the shift-reconciliation workflow.
 *
 * Quantities and prices are exact decimals with two fractional digits,
 * represented as `int` counts of hundredths. A quantity times a price is
 * then an `int` count of ten-thousandths; revenue, cost and profit use that
 * unit.
 */
module Common {

  type ProductId = nat
  type BarId = nat
  /** Sessions are numbered in creation order; the number is the session's position in the store. */
  type SessionId = nat
  /** An instant. The clock is not modelled: "now" is a parameter of each operation that reads it. */
  type Time = int

  datatype Option<+T> = None | Some(value: T)

  datatype Result<+T, +E> = Success(value: T) | Failure(error: E)

  /** A bar's price entry for one product, read from the price catalog. The cost price is optional. */
  datatype Price = Price(sellingPrice: int, costPrice: Option<int>)

  /** Why one of the three conservation checks refused a commit. */
  datatype ValidationFailure =
    | NoDistribution(product: ProductId)
    | QuantityMismatch(product: ProductId, transferred: int, fromStockroom: int)
    | AllocationMismatch(product: ProductId, totalAllocated: int, wellsReceived: int)
    | UnallocatedStock(product: ProductId, remaining: int)
  {
    function Product(): ProductId
    {
      match this
      case NoDistribution(p) => p
      case QuantityMismatch(p, _, _) => p
      case AllocationMismatch(p, _, _) => p
      case UnallocatedStock(p, _) => p
    }
  }

  datatype Error =
    | InvalidInput
    | NotFound
    | InvalidState
    | ValidationFailed(failure: ValidationFailure)
    | PricingMissing(product: ProductId, bar: BarId)

  /** Decimal digits of a natural number. */
  function NatText(n: nat): (s: string)
    ensures |s| > 0
    ensures forall i :: 0 <= i < |s| ==> '0' <= s[i] <= '9'
  {
    var d := ['0', '1', '2', '3', '4', '5', '6', '7', '8', '9'][n % 10];
    if n < 10 then [d] else NatText(n / 10) + [d]
  }

  /** A quantity in hundredths written as a decimal with two fractional digits, e.g. "-12.05". */
  function QtyText(q: int): (s: string)
    ensures |s| >= 4
  {
    var a: nat := if q < 0 then -q else q;
    var frac := a % 100;
    (if q < 0 then "-" else "") + NatText(a / 100) + "." + NatText(frac / 10) + NatText(frac % 10)
  }
}
