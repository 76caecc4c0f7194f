/**
 * ReportService: the revenue, cost and profit reductions and the per-product
 * groupings over a list of sales records. Which records are listed (a bar
 * and a date window) is decided by a repository query that is not part of
 * this model; every report here is a function of the list it is given.
 *
 * The service groups by product name; product names are unique, so the
 * grouping here is by product id.
 */
module Reports {
  import opened Common
  import opened Grouping
  import opened Sales
  import opened Queries

  function RevenueEntries(sales: seq<SalesRow>): (es: seq<Entry>)
    ensures |es| == |sales|
  {
    seq(|sales|, i requires 0 <= i < |sales| => (sales[i].product, sales[i].totalRevenue))
  }

  function CostEntries(sales: seq<SalesRow>): (es: seq<Entry>)
    ensures |es| == |sales|
  {
    seq(|sales|, i requires 0 <= i < |sales| => (sales[i].product, sales[i].totalCost))
  }

  function ProfitEntries(sales: seq<SalesRow>): (es: seq<Entry>)
    ensures |es| == |sales|
  {
    seq(|sales|, i requires 0 <= i < |sales| => (sales[i].product, sales[i].profit))
  }

  function SoldEntries(sales: seq<SalesRow>): (es: seq<Entry>)
    ensures |es| == |sales|
  {
    seq(|sales|, i requires 0 <= i < |sales| => (sales[i].product, sales[i].quantitySold))
  }

  // ---- getDailySalesReport ----

  datatype DailyReport = DailyReport(totalRevenue: int, totalCost: int, totalProfit: int)

  /** The day's totals: revenue and cost each summed from zero, and their difference. */
  function DailySalesReport(sales: seq<SalesRow>): (r: DailyReport)
    ensures r.totalProfit == r.totalRevenue - r.totalCost
    ensures sales == [] ==> r == DailyReport(0, 0, 0)
  {
    var revenue := Total(RevenueEntries(sales));
    var cost := Total(CostEntries(sales));
    DailyReport(revenue, cost, revenue - cost)
  }

  /** Appending one record adds its revenue, cost and profit to the running sums. */
  lemma EntriesSnoc(sales: seq<SalesRow>)
    requires sales != []
    ensures var init, last := sales[..|sales| - 1], sales[|sales| - 1];
      && Total(RevenueEntries(sales)) == Total(RevenueEntries(init)) + last.totalRevenue
      && Total(CostEntries(sales)) == Total(CostEntries(init)) + last.totalCost
      && Total(ProfitEntries(sales)) == Total(ProfitEntries(init)) + last.profit
      && Total(SoldEntries(sales)) == Total(SoldEntries(init)) + last.quantitySold
  {
    var init := sales[..|sales| - 1];
    assert RevenueEntries(sales)[..|sales| - 1] == RevenueEntries(init);
    assert CostEntries(sales)[..|sales| - 1] == CostEntries(init);
    assert ProfitEntries(sales)[..|sales| - 1] == ProfitEntries(init);
    assert SoldEntries(sales)[..|sales| - 1] == SoldEntries(init);
  }

  /** When every record's totals passed the hook, the day's profit is the sum of the records' profits. */
  lemma {:induction false} DailyProfitIsSumOfProfits(sales: seq<SalesRow>)
    requires forall i :: 0 <= i < |sales| ==> sales[i].Consistent()
    ensures DailySalesReport(sales).totalProfit == Total(ProfitEntries(sales))
  {
    if sales != [] {
      DailyProfitIsSumOfProfits(sales[..|sales| - 1]);
      EntriesSnoc(sales);
    }
  }

  /** With non-negative quantities and prices on records that passed the hook, the day's revenue and cost are non-negative. */
  lemma {:induction false} DailyTotalsNonNegative(sales: seq<SalesRow>)
    requires forall i :: 0 <= i < |sales| ==> sales[i].Consistent()
    requires forall i :: 0 <= i < |sales| ==>
      sales[i].quantitySold >= 0 && sales[i].sellingPricePerUnit >= 0 && sales[i].costPricePerUnit >= 0
    ensures DailySalesReport(sales).totalRevenue >= 0 && DailySalesReport(sales).totalCost >= 0
  {
    if sales != [] {
      DailyTotalsNonNegative(sales[..|sales| - 1]);
      EntriesSnoc(sales);
      TotalsNonNegative(sales[|sales| - 1]);
    }
  }

  // ---- getMonthlySalesReport ----

  datatype MonthlyReport = MonthlyReport(totalRevenue: int, productWiseSales: map<ProductId, int>)

  /** The month's revenue, and its revenue per product sold. */
  function MonthlySalesReport(sales: seq<SalesRow>): (r: MonthlyReport)
    ensures forall p :: p in r.productWiseSales <==> exists i :: 0 <= i < |sales| && sales[i].product == p
    ensures sales == [] ==> r.totalRevenue == 0 && r.productWiseSales == map[]
  {
    var es := RevenueEntries(sales);
    assert forall i :: 0 <= i < |sales| ==> es[i].0 == sales[i].product;
    MonthlyReport(Total(es), GroupSum(es))
  }

  /** The products sold, each once, in order of first sale. */
  function ProductsSold(sales: seq<SalesRow>): (ps: seq<ProductId>)
    ensures forall i, j :: 0 <= i < j < |ps| ==> ps[i] != ps[j]
    ensures forall p :: p in ps <==> p in MonthlySalesReport(sales).productWiseSales
  {
    Keys(RevenueEntries(sales))
  }

  /** The monthly per-product revenues add up to the month's revenue. */
  lemma MonthlyProductTotalsAddUp(sales: seq<SalesRow>)
    ensures SumOver(ProductsSold(sales), MonthlySalesReport(sales).productWiseSales) == MonthlySalesReport(sales).totalRevenue
  {
    GroupsAddUpToTotal(RevenueEntries(sales));
  }

  // ---- getProductWiseSummary ----

  datatype ProductSummary = ProductSummary(totalQuantity: int, totalRevenue: int, count: nat)

  /** The records of one product, in listed order. */
  function SalesOfProduct(sales: seq<SalesRow>, p: ProductId): seq<SalesRow>
  {
    Filter(sales, (s: SalesRow) => s.product == p)
  }

  /** The summary of one product's records: quantity and revenue summed from zero, and how many there are. */
  function Summarize(list: seq<SalesRow>): (s: ProductSummary)
    ensures s.count == |list|
  {
    ProductSummary(Total(SoldEntries(list)), Total(RevenueEntries(list)), |list|)
  }

  /** A summary for every product sold. */
  function ProductWiseSummary(sales: seq<SalesRow>): (m: map<ProductId, ProductSummary>)
    ensures forall p :: p in m <==> exists i :: 0 <= i < |sales| && sales[i].product == p
  {
    map p | p in (set i | 0 <= i < |sales| :: sales[i].product) :: Summarize(SalesOfProduct(sales, p))
  }

  /** How many of the records are of product `p`. */
  function CountOf(sales: seq<SalesRow>, p: ProductId): nat
  {
    if sales == [] then 0 else CountOf(sales[..|sales| - 1], p) + (if sales[|sales| - 1].product == p then 1 else 0)
  }

  /** Filtering a list that ends in `last` keeps `last` exactly when it is of product `p`. */
  lemma SalesOfProductSnoc(sales: seq<SalesRow>, p: ProductId)
    requires sales != []
    ensures var init, last := sales[..|sales| - 1], sales[|sales| - 1];
      SalesOfProduct(sales, p) == SalesOfProduct(init, p) + (if last.product == p then [last] else [])
  {
  }

  /** Summing the quantities of one product's records is summing that product's quantity entries over all records. */
  lemma {:induction false} QuantityOfFilter(sales: seq<SalesRow>, p: ProductId)
    ensures Total(SoldEntries(SalesOfProduct(sales, p))) == SumFor(SoldEntries(sales), p)
  {
    if sales != [] {
      var init, last := sales[..|sales| - 1], sales[|sales| - 1];
      QuantityOfFilter(init, p);
      SalesOfProductSnoc(sales, p);
      assert SoldEntries(sales)[..|sales| - 1] == SoldEntries(init);
      assert SoldEntries(sales)[|sales| - 1] == (last.product, last.quantitySold);
      if last.product == p {
        var f := SalesOfProduct(sales, p);
        EntriesSnoc(f);
        assert f[..|f| - 1] == SalesOfProduct(init, p) && f[|f| - 1] == last;
        assert Total(SoldEntries(f)) == Total(SoldEntries(SalesOfProduct(init, p))) + SoldEntries(sales)[|sales| - 1].1;
      } else {
        assert SalesOfProduct(sales, p) == SalesOfProduct(init, p);
      }
      assert SumFor(SoldEntries(sales), p) == SumFor(SoldEntries(init), p) + (if last.product == p then SoldEntries(sales)[|sales| - 1].1 else 0);
    }
  }

  /** Summing the revenues of one product's records is summing that product's revenue entries over all records. */
  lemma {:induction false} RevenueOfFilter(sales: seq<SalesRow>, p: ProductId)
    ensures Total(RevenueEntries(SalesOfProduct(sales, p))) == SumFor(RevenueEntries(sales), p)
  {
    if sales != [] {
      var init, last := sales[..|sales| - 1], sales[|sales| - 1];
      RevenueOfFilter(init, p);
      SalesOfProductSnoc(sales, p);
      assert RevenueEntries(sales)[..|sales| - 1] == RevenueEntries(init);
      assert RevenueEntries(sales)[|sales| - 1] == (last.product, last.totalRevenue);
      if last.product == p {
        var f := SalesOfProduct(sales, p);
        EntriesSnoc(f);
        assert f[..|f| - 1] == SalesOfProduct(init, p) && f[|f| - 1] == last;
        assert Total(RevenueEntries(f)) == Total(RevenueEntries(SalesOfProduct(init, p))) + RevenueEntries(sales)[|sales| - 1].1;
      } else {
        assert SalesOfProduct(sales, p) == SalesOfProduct(init, p);
      }
      assert SumFor(RevenueEntries(sales), p) == SumFor(RevenueEntries(init), p) + (if last.product == p then RevenueEntries(sales)[|sales| - 1].1 else 0);
    }
  }

  /** One product's records number as many as the records of that product. */
  lemma {:induction false} CountOfFilter(sales: seq<SalesRow>, p: ProductId)
    ensures |SalesOfProduct(sales, p)| == CountOf(sales, p)
  {
    if sales != [] {
      CountOfFilter(sales[..|sales| - 1], p);
      SalesOfProductSnoc(sales, p);
    }
  }

  /**
   * The product summary, all inputs: each sold product's count is the number
   * of its records, its quantity the sum of their quantities and its revenue
   * the sum of their revenues; and the month's per-product revenue agrees.
   */
  lemma ProductSummaryCounts(sales: seq<SalesRow>, p: ProductId)
    requires p in ProductWiseSummary(sales)
    ensures ProductWiseSummary(sales)[p].count == CountOf(sales, p)
    ensures ProductWiseSummary(sales)[p].totalQuantity == SumFor(SoldEntries(sales), p)
    ensures ProductWiseSummary(sales)[p].totalRevenue == MonthlySalesReport(sales).productWiseSales[p]
  {
    CountOfFilter(sales, p);
    QuantityOfFilter(sales, p);
    RevenueOfFilter(sales, p);
  }
}
