/**
 * The sales stage: one generated record per product sold in a session, with
 * revenue, cost and profit derived by the persistence hook (SalesRecord.java).
 */
module Sales {
  import opened Common

  /**
   * A persisted sales record. Quantity and prices are hundredths; revenue,
   * cost and profit are ten-thousandths (a product of two hundredths).
   */
  datatype SalesRow = SalesRow(
    session: SessionId,
    product: ProductId,
    quantitySold: int,
    sellingPricePerUnit: int,
    costPricePerUnit: int,
    totalRevenue: int,
    totalCost: int,
    profit: int)
  {
    /** The derived-field rule for the three totals. */
    predicate Consistent()
    {
      && totalRevenue == quantitySold * sellingPricePerUnit
      && totalCost == quantitySold * costPricePerUnit
      && profit == totalRevenue - totalCost
    }

    /** This record as the pre-persist hook leaves it. */
    function WithTotals(): (r: SalesRow)
      ensures r.Consistent()
      ensures r.(totalRevenue := totalRevenue, totalCost := totalCost, profit := profit) == this
    {
      var revenue := quantitySold * sellingPricePerUnit;
      var cost := quantitySold * costPricePerUnit;
      this.(totalRevenue := revenue, totalCost := cost, profit := revenue - cost)
    }
  }

  /** Profit is the quantity times the unit margin. */
  lemma {:induction false} ProfitIsMargin(r: SalesRow)
    requires r.Consistent()
    ensures r.profit == r.quantitySold * (r.sellingPricePerUnit - r.costPricePerUnit)
  {
    calc {
      r.profit;
      r.quantitySold * r.sellingPricePerUnit - r.quantitySold * r.costPricePerUnit;
      { MulSubDistributes(r.quantitySold, r.sellingPricePerUnit, r.costPricePerUnit); }
      r.quantitySold * (r.sellingPricePerUnit - r.costPricePerUnit);
    }
  }

  lemma MulSubDistributes(q: int, a: int, b: int)
    ensures q * a - q * b == q * (a - b)
  {
  }

  /** With a non-negative quantity and prices, revenue and cost are non-negative. */
  lemma TotalsNonNegative(r: SalesRow)
    requires r.Consistent()
    requires r.quantitySold >= 0 && r.sellingPricePerUnit >= 0 && r.costPricePerUnit >= 0
    ensures r.totalRevenue >= 0 && r.totalCost >= 0
  {
  }

  /** The hook is idempotent, and a consistent record is a fixed point of it. */
  lemma WithTotalsIdempotent(r: SalesRow)
    ensures r.Consistent() ==> r.WithTotals() == r
    ensures r.WithTotals().WithTotals() == r.WithTotals()
  {
  }

  /** The managed entity that the repository saves. */
  class SalesRecord {
    var session: SessionId
    var product: ProductId
    var quantitySold: int
    var sellingPricePerUnit: int
    var costPricePerUnit: int
    var totalRevenue: int
    var totalCost: int
    var profit: int

    /** The builder call: quantity and prices set, the totals still at their default of zero. */
    constructor (session: SessionId, product: ProductId, quantitySold: int, sellingPricePerUnit: int, costPricePerUnit: int)
      ensures Row() == SalesRow(session, product, quantitySold, sellingPricePerUnit, costPricePerUnit, 0, 0, 0)
    {
      this.session, this.product := session, product;
      this.quantitySold, this.sellingPricePerUnit, this.costPricePerUnit := quantitySold, sellingPricePerUnit, costPricePerUnit;
      totalRevenue, totalCost, profit := 0, 0, 0;
    }

    /** The row this entity is written as. */
    function Row(): SalesRow
      reads this
    {
      SalesRow(session, product, quantitySold, sellingPricePerUnit, costPricePerUnit, totalRevenue, totalCost, profit)
    }

    /** The pre-persist and pre-update hook: overwrites the three totals in place. */
    method CalculateTotals()
      modifies this
      ensures Row() == old(Row()).WithTotals()
    {
      totalRevenue := quantitySold * sellingPricePerUnit;
      totalCost := quantitySold * costPricePerUnit;
      profit := totalRevenue - totalCost;
    }
  }
}
