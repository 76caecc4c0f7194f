/**
 * The stockroom stage: one physical count per product per session, and the
 * derived `transferredOut` that the persistence hook keeps up to date
 * (StockroomInventory.java).
 */
module Stockroom {
  import opened Common

  /** A persisted stockroom record. Quantities are hundredths. */
  datatype StockroomRow = StockroomRow(
    session: SessionId,
    product: ProductId,
    openingStock: int,
    receivedStock: int,
    closingStock: int,
    transferredOut: int,
    remarks: string)
  {
    /** The derived-field rule: what left the stockroom is opening plus received minus closing. */
    predicate Consistent()
    {
      transferredOut == openingStock + receivedStock - closingStock
    }

    /** This record as the pre-persist hook leaves it. */
    function WithTransferred(): (r: StockroomRow)
      ensures r.Consistent()
      ensures r.(transferredOut := transferredOut) == this
    {
      this.(transferredOut := openingStock + receivedStock - closingStock)
    }
  }

  /** The recompute is not clamped: counting more than was there gives a negative transfer. */
  lemma TransferredNotClamped(r: StockroomRow)
    requires r.closingStock > r.openingStock + r.receivedStock
    ensures r.WithTransferred().transferredOut < 0
  {
  }

  /** Recomputing a record that already satisfies the rule changes nothing; in particular the hook is idempotent. */
  lemma WithTransferredIdempotent(r: StockroomRow)
    ensures r.Consistent() ==> r.WithTransferred() == r
    ensures r.WithTransferred().WithTransferred() == r.WithTransferred()
  {
  }

  /** The managed entity: the object a request deserialises into and the repository saves. */
  class StockroomInventory {
    var session: SessionId
    var product: ProductId
    var openingStock: int
    var receivedStock: int
    var closingStock: int
    var transferredOut: int
    var remarks: string

    constructor FromRow(r: StockroomRow)
      ensures Row() == r
    {
      session, product := r.session, r.product;
      openingStock, receivedStock, closingStock := r.openingStock, r.receivedStock, r.closingStock;
      transferredOut, remarks := r.transferredOut, r.remarks;
    }

    /** The row this entity is written as. */
    function Row(): StockroomRow
      reads this
    {
      StockroomRow(session, product, openingStock, receivedStock, closingStock, transferredOut, remarks)
    }

    /** The pre-persist and pre-update hook: overwrites `transferredOut` in place. */
    method CalculateTransferred()
      modifies this
      ensures Row() == old(Row()).WithTransferred()
    {
      transferredOut := openingStock + receivedStock - closingStock;
    }
  }
}
