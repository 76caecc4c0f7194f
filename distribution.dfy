/**
 * The distribution stage: stock handed out of the stockroom for one product
 * in one session, how much of it the wells have taken, and the derived
 * `unallocated` figure and status (DistributionRecord.java).
 */
module Distribution {
  import opened Common

  datatype DistributionStatus = PendingAllocation | Allocated

  /** A persisted distribution record. Quantities are hundredths. */
  datatype DistributionRow = DistributionRow(
    session: SessionId,
    product: ProductId,
    quantityFromStockroom: int,
    totalAllocated: int,
    unallocated: int,
    status: DistributionStatus,
    notes: string)
  {
    /**
     * The derived-field rule. A partly allocated or over-allocated record
     * (allocation positive, remainder non-zero) may carry either status.
     */
    predicate Consistent()
    {
      && unallocated == quantityFromStockroom - totalAllocated
      && (unallocated == 0 && totalAllocated > 0 ==> status == Allocated)
      && (totalAllocated == 0 ==> status == PendingAllocation)
    }

    /** This record as the pre-persist hook leaves it. */
    function WithUnallocated(): (r: DistributionRow)
      ensures r.Consistent()
      // only `unallocated` and `status` are written
      ensures r.(unallocated := unallocated, status := status) == this
      // outside the two cases the rule decides, the previous status is kept
      ensures !(r.unallocated == 0 && totalAllocated > 0) && totalAllocated != 0 ==> r.status == status
    {
      var u := quantityFromStockroom - totalAllocated;
      var s := if u == 0 && totalAllocated > 0 then Allocated
               else if totalAllocated == 0 then PendingAllocation
               else status;
      this.(unallocated := u, status := s)
    }
  }

  /** The hook is idempotent, and a consistent record is a fixed point of it. */
  lemma WithUnallocatedIdempotent(r: DistributionRow)
    ensures r.Consistent() ==> r.WithUnallocated() == r
    ensures r.WithUnallocated().WithUnallocated() == r.WithUnallocated()
  {
  }

  /**
   * The final status after a sequence of partial allocations depends on the
   * path: the same totals can end ALLOCATED or PENDING_ALLOCATION.
   */
  lemma StatusDependsOnHistory()
    ensures var start := DistributionRow(0, 0, 10, 0, 10, PendingAllocation, "");
            var direct := start.(totalAllocated := 15).WithUnallocated();
            var viaFull := start.(totalAllocated := 10).WithUnallocated().(totalAllocated := 15).WithUnallocated();
            && direct.totalAllocated == viaFull.totalAllocated
            && direct.unallocated == viaFull.unallocated
            && direct.status == PendingAllocation
            && viaFull.status == Allocated
  {
  }

  /** The managed entity that the repository saves. */
  class DistributionRecord {
    var session: SessionId
    var product: ProductId
    var quantityFromStockroom: int
    var totalAllocated: int
    var unallocated: int
    var status: DistributionStatus
    var notes: string

    constructor FromRow(r: DistributionRow)
      ensures Row() == r
    {
      session, product := r.session, r.product;
      quantityFromStockroom, totalAllocated, unallocated := r.quantityFromStockroom, r.totalAllocated, r.unallocated;
      status, notes := r.status, r.notes;
    }

    /** The row this entity is written as. */
    function Row(): DistributionRow
      reads this
    {
      DistributionRow(session, product, quantityFromStockroom, totalAllocated, unallocated, status, notes)
    }

    /** The pre-persist and pre-update hook: overwrites `unallocated` and, in two cases, `status`. */
    method CalculateUnallocated()
      modifies this
      ensures Row() == old(Row()).WithUnallocated()
    {
      unallocated := quantityFromStockroom - totalAllocated;
      if unallocated == 0 && totalAllocated > 0 {
        status := Allocated;
      } else if totalAllocated == 0 {
        status := PendingAllocation;
      }
    }
  }
}
