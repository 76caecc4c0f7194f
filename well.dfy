/**
 * The well stage: stock at one named service point for one product in one
 * session, and the derived `consumed` that the persistence hook recomputes
 * (WellInventory.java).
 */
module Well {
  import opened Common

  /** The service points the form-based entry offers. */
  const WellNames: seq<string> := ["BAR_1", "BAR_2", "SERVICE_BAR"]

  /** A persisted well record. Quantities are hundredths. */
  datatype WellRow = WellRow(
    session: SessionId,
    product: ProductId,
    wellName: string,
    openingStock: int,
    receivedFromDistribution: int,
    closingStock: int,
    consumed: int,
    remarks: string)
  {
    /** The derived-field rule, without any clamping at zero. */
    predicate Consistent()
    {
      consumed == openingStock + receivedFromDistribution - closingStock
    }

    /** This record as the pre-persist hook leaves it: whatever `consumed` held before is overwritten. */
    function WithConsumed(): (r: WellRow)
      ensures r.Consistent()
      ensures r.(consumed := consumed) == this
    {
      this.(consumed := openingStock + receivedFromDistribution - closingStock)
    }
  }

  /** Stored consumption can be negative: the hook does not clamp, whatever value the caller set. */
  lemma ConsumedNotClamped(r: WellRow)
    requires r.closingStock > r.openingStock + r.receivedFromDistribution
    ensures r.WithConsumed().consumed < 0
  {
  }

  /** The hook is idempotent, and a consistent record is a fixed point of it. */
  lemma WithConsumedIdempotent(r: WellRow)
    ensures r.Consistent() ==> r.WithConsumed() == r
    ensures r.WithConsumed().WithConsumed() == r.WithConsumed()
  {
  }

  /** The managed entity that the repository saves. */
  class WellInventory {
    var session: SessionId
    var product: ProductId
    var wellName: string
    var openingStock: int
    var receivedFromDistribution: int
    var closingStock: int
    var consumed: int
    var remarks: string

    constructor FromRow(r: WellRow)
      ensures Row() == r
    {
      session, product, wellName := r.session, r.product, r.wellName;
      openingStock, receivedFromDistribution, closingStock := r.openingStock, r.receivedFromDistribution, r.closingStock;
      consumed, remarks := r.consumed, r.remarks;
    }

    /** The row this entity is written as. */
    function Row(): WellRow
      reads this
    {
      WellRow(session, product, wellName, openingStock, receivedFromDistribution, closingStock, consumed, remarks)
    }

    /** The pre-persist and pre-update hook: overwrites `consumed` in place. */
    method CalculateConsumed()
      modifies this
      ensures Row() == old(Row()).WithConsumed()
    {
      consumed := openingStock + receivedFromDistribution - closingStock;
    }
  }
}
