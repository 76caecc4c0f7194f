/**
 * The read-only side of committing a session: the three conservation checks,
 * the price check, the consumption grouping behind sales generation and the
 * per-product distribution map, as functions of the stored rows.
 */
module Reconciliation {
  import opened Common
  import opened Grouping
  import opened Stockroom
  import opened Distribution
  import opened Well
  import opened Sales
  import opened Queries

  /** The verdict of a check loop that stops at the first record it rejects. */
  function FirstFailure<T>(xs: seq<T>, check: T -> Option<ValidationFailure>): (f: Option<ValidationFailure>)
    ensures f.None? <==> forall i :: 0 <= i < |xs| ==> check(xs[i]).None?
    ensures f.Some? ==> exists i :: 0 <= i < |xs| && check(xs[i]) == f && forall j :: 0 <= j < i ==> check(xs[j]).None?
  {
    if xs == [] then None
    else if check(xs[0]).Some? then check(xs[0])
    else
      var f := FirstFailure(xs[1..], check);
      assert f.Some? ==> exists i :: 1 <= i < |xs| && check(xs[i]) == f && forall j :: 0 <= j < i ==> check(xs[j]).None? by {
        if f.Some? {
          var i :| 0 <= i < |xs[1..]| && check(xs[1..][i]) == f && forall j :: 0 <= j < i ==> check(xs[1..][j]).None?;
          assert forall j :: 1 <= j < i + 1 ==> check(xs[j]).None? by {
            forall j | 1 <= j < i + 1 ensures check(xs[j]).None? { assert xs[j] == xs[1..][j - 1]; }
          }
        }
      }
      f
  }

  /** A loop that has passed the first `i` records and rejects record `i` has computed `FirstFailure`. */
  lemma FirstFailureAt<T>(xs: seq<T>, check: T -> Option<ValidationFailure>, i: nat)
    requires i < |xs| && check(xs[i]).Some?
    requires forall j :: 0 <= j < i ==> check(xs[j]).None?
    ensures FirstFailure(xs, check) == check(xs[i])
  {
    var f := FirstFailure(xs, check);
    var k :| 0 <= k < |xs| && check(xs[k]) == f && forall j :: 0 <= j < k ==> check(xs[j]).None?;
    if k < i {
    } else if i < k {
    }
  }

  // ---- Validation 1: stockroom transferred = distribution quantity ----

  /** The first distribution of product `p` in the list (the stream's findFirst). */
  function FirstForProduct(ds: seq<DistributionRow>, p: ProductId): (k: Option<nat>)
    ensures k.Some? ==> k.value < |ds| && ds[k.value].product == p
    ensures k.Some? ==> forall j :: 0 <= j < k.value ==> ds[j].product != p
    ensures k.None? <==> forall j :: 0 <= j < |ds| ==> ds[j].product != p
  {
    if ds == [] then None
    else if ds[0].product == p then Some(0)
    else match FirstForProduct(ds[1..], p)
      case None => None
      case Some(k) => Some(k + 1)
  }

  /** Validation 1 on one stockroom record against the session's distributions. */
  function StockroomCheck(s: StockroomRow, ds: seq<DistributionRow>): Option<ValidationFailure>
  {
    match FirstForProduct(ds, s.product)
    case None => if s.transferredOut > 0 then Some(NoDistribution(s.product)) else None
    case Some(k) =>
      if s.transferredOut != ds[k].quantityFromStockroom
      then Some(QuantityMismatch(s.product, s.transferredOut, ds[k].quantityFromStockroom))
      else None
  }

  function Validation1(ss: seq<StockroomRow>, ds: seq<DistributionRow>): Option<ValidationFailure>
  {
    FirstFailure(ss, (s: StockroomRow) => StockroomCheck(s, ds))
  }

  /** No two distributions in the list share a product. */
  predicate ProductsDistinct(ds: seq<DistributionRow>)
  {
    forall i, j :: 0 <= i < j < |ds| ==> ds[i].product != ds[j].product
  }

  /** One session's distributions carry distinct products. */
  lemma {:induction false} SessionProductsDistinct(ds: seq<DistributionRow>, id: SessionId)
    requires UniqueDistributions(ds)
    ensures ProductsDistinct(DistributionsOf(ds, id))
  {
    if ds != [] {
      var init, last := ds[..|ds| - 1], ds[|ds| - 1];
      assert UniqueDistributions(init);
      SessionProductsDistinct(init, id);
      var kept := DistributionsOf(init, id);
      forall x | x in kept && last.session == id
        ensures x.product != last.product
      {
        var j :| 0 <= j < |init| && init[j] == x;
        assert ds[j] == x;
      }
    }
  }

  /**
   * Validation 1, all inputs, when the session's distributions have distinct
   * products: it passes exactly when every stockroom record with a positive
   * transfer has a distribution, and every distribution of a stockroom
   * record's product holds that record's transfer, whatever its sign.
   */
  lemma Validation1Passes(ss: seq<StockroomRow>, ds: seq<DistributionRow>)
    requires ProductsDistinct(ds)
    ensures Validation1(ss, ds).None? <==>
      forall i :: 0 <= i < |ss| ==>
        && (ss[i].transferredOut > 0 ==> exists j :: 0 <= j < |ds| && ds[j].product == ss[i].product)
        && (forall j :: 0 <= j < |ds| && ds[j].product == ss[i].product ==> ds[j].quantityFromStockroom == ss[i].transferredOut)
  {
    forall i | 0 <= i < |ss|
      ensures StockroomCheck(ss[i], ds).None? <==>
        && (ss[i].transferredOut > 0 ==> exists j :: 0 <= j < |ds| && ds[j].product == ss[i].product)
        && (forall j :: 0 <= j < |ds| && ds[j].product == ss[i].product ==> ds[j].quantityFromStockroom == ss[i].transferredOut)
    {
      match FirstForProduct(ds, ss[i].product)
      case None =>
      case Some(k) =>
        assert forall j :: 0 <= j < |ds| && ds[j].product == ss[i].product ==> j == k;
    }
  }

  // ---- Validation 2: distribution allocated = wells received ----

  /** Validation 2 on one distribution: its allocation equals the session's summed well receipts of its product (0 when none). */
  function AllocationCheck(d: DistributionRow, wells: seq<WellRow>, id: SessionId): Option<ValidationFailure>
  {
    var received := SumReceivedBySessionAndProduct(wells, id, d.product);
    if d.totalAllocated != received then Some(AllocationMismatch(d.product, d.totalAllocated, received)) else None
  }

  function Validation2(ds: seq<DistributionRow>, wells: seq<WellRow>, id: SessionId): Option<ValidationFailure>
  {
    FirstFailure(ds, (d: DistributionRow) => AllocationCheck(d, wells, id))
  }

  /** Validation 2 passes exactly when every allocation equals the receipts, exactly. */
  lemma Validation2Passes(ds: seq<DistributionRow>, wells: seq<WellRow>, id: SessionId)
    ensures Validation2(ds, wells, id).None? <==>
      forall i :: 0 <= i < |ds| ==> ds[i].totalAllocated == SumReceivedBySessionAndProduct(wells, id, ds[i].product)
  {
    assert forall i :: 0 <= i < |ds| ==> (AllocationCheck(ds[i], wells, id).None? <==>
      ds[i].totalAllocated == SumReceivedBySessionAndProduct(wells, id, ds[i].product));
  }

  /** With no well records, Validation 2 accepts only distributions with nothing allocated. */
  lemma Validation2WithoutWells(ds: seq<DistributionRow>, wells: seq<WellRow>, id: SessionId)
    requires WellsOf(wells, id) == []
    ensures Validation2(ds, wells, id).None? <==> forall i :: 0 <= i < |ds| ==> ds[i].totalAllocated == 0
  {
    Validation2Passes(ds, wells, id);
  }

  // ---- Validation 3: no stock left unallocated ----

  /** Validation 3 on one distribution: only a positive remainder is rejected. */
  function UnallocatedCheck(d: DistributionRow): Option<ValidationFailure>
  {
    if d.unallocated > 0 then Some(UnallocatedStock(d.product, d.unallocated)) else None
  }

  function Validation3(ds: seq<DistributionRow>): Option<ValidationFailure>
  {
    FirstFailure(ds, UnallocatedCheck)
  }

  /** Validation 3 passes exactly when no distribution has a positive remainder; a negative one passes. */
  lemma Validation3Passes(ds: seq<DistributionRow>)
    ensures Validation3(ds).None? <==> forall i :: 0 <= i < |ds| ==> ds[i].unallocated <= 0
  {
    assert forall i :: 0 <= i < |ds| ==> (UnallocatedCheck(ds[i]).None? <==> ds[i].unallocated <= 0);
  }

  /** The three checks of commitSession in their order; the first failure decides. */
  function CommitValidation(ss: seq<StockroomRow>, ds: seq<DistributionRow>, wells: seq<WellRow>, id: SessionId): (f: Option<ValidationFailure>)
    ensures f.None? <==> Validation1(ss, ds).None? && Validation2(ds, wells, id).None? && Validation3(ds).None?
    ensures Validation1(ss, ds).Some? ==> f == Validation1(ss, ds)
    ensures Validation1(ss, ds).None? && Validation2(ds, wells, id).Some? ==> f == Validation2(ds, wells, id)
    ensures f.Some? && f.value.NoDistribution? ==> Validation1(ss, ds) == f
    ensures f.Some? && f.value.QuantityMismatch? ==> Validation1(ss, ds) == f
    ensures f.Some? && f.value.AllocationMismatch? ==> Validation1(ss, ds).None? && Validation2(ds, wells, id) == f
    ensures f.Some? && f.value.UnallocatedStock? ==> Validation1(ss, ds).None? && Validation2(ds, wells, id).None? && Validation3(ds) == f
  {
    if Validation1(ss, ds).Some? then Validation1(ss, ds)
    else if Validation2(ds, wells, id).Some? then Validation2(ds, wells, id)
    else Validation3(ds)
  }

  /** Each check reports only failures of its own kind. */
  lemma ValidationKinds(ss: seq<StockroomRow>, ds: seq<DistributionRow>, wells: seq<WellRow>, id: SessionId)
    ensures Validation1(ss, ds).Some? ==> Validation1(ss, ds).value.NoDistribution? || Validation1(ss, ds).value.QuantityMismatch?
    ensures Validation2(ds, wells, id).Some? ==> Validation2(ds, wells, id).value.AllocationMismatch?
    ensures Validation3(ds).Some? ==> Validation3(ds).value.UnallocatedStock? && Validation3(ds).value.remaining > 0
  {
  }

  /**
   * Over-allocation passes all three checks: 10 units transferred, 15
   * received by the wells and allocated, leaving a remainder of -5, which
   * Validation 3 lets through because it rejects only a positive remainder.
   */
  lemma OverAllocationPassesAllChecks()
    ensures var s := StockroomRow(0, 7, 10, 0, 0, 10, "");
            var d := DistributionRow(0, 7, 10, 15, -5, PendingAllocation, "");
            var w := WellRow(0, 7, "BAR_1", 0, 15, 0, 15, "");
            && s.Consistent() && d.Consistent() && w.Consistent()
            && CommitValidation([s], [d], [w], 0).None?
  {
    var s := StockroomRow(0, 7, 10, 0, 0, 10, "");
    var d := DistributionRow(0, 7, 10, 15, -5, PendingAllocation, "");
    var w := WellRow(0, 7, "BAR_1", 0, 15, 0, 15, "");
    assert WellsOf([w], 0) == [w] by {
      assert [w][..0] == [];
    }
    assert ReceivedEntries([w]) == [(7, 15)];
    assert SumFor([(7, 15)], 7) == 15 by {
      assert [(7, 15)][..0] == [];
    }
    assert AllocationCheck(d, [w], 0).None?;
  }

  /** The text recorded as a session's validation errors: non-empty, and naming the product. */
  function Describe(f: ValidationFailure): (s: string)
    ensures |s| > 8 + |NatText(f.Product())|
    ensures s[8..8 + |NatText(f.Product())|] == NatText(f.Product())
  {
    var head := "Product " + NatText(f.Product());
    var tail := match f
      case NoDistribution(_) => ": No distribution record found for transferred stock. "
      case QuantityMismatch(_, t, q) => ": Stockroom transferred (" + QtyText(t) + ") != Distribution quantity (" + QtyText(q) + "). "
      case AllocationMismatch(_, a, r) => ": Distribution allocated (" + QtyText(a) + ") != Wells received (" + QtyText(r) + "). "
      case UnallocatedStock(_, u) => ": Unallocated stock remaining (" + QtyText(u) + " units). ";
    assert (head + tail)[8..8 + |NatText(f.Product())|] == NatText(f.Product());
    head + tail
  }

  // ---- the price check and sales generation ----

  /** validatePricesExist: the first well record whose product the bar has no price for, consumed or not. */
  function FirstUnpriced(ws: seq<WellRow>, bar: BarId, prices: map<(BarId, ProductId), Price>): (p: Option<ProductId>)
    ensures p.None? <==> forall i :: 0 <= i < |ws| ==> (bar, ws[i].product) in prices
    ensures p.Some? ==> (bar, p.value) !in prices
    ensures p.Some? ==> exists i :: 0 <= i < |ws| && ws[i].product == p.value && forall j :: 0 <= j < i ==> (bar, ws[j].product) in prices
  {
    if ws == [] then None
    else if (bar, ws[0].product) !in prices then Some(ws[0].product)
    else
      var p := FirstUnpriced(ws[1..], bar, prices);
      assert p.Some? ==> exists i :: 1 <= i < |ws| && ws[i].product == p.value && forall j :: 0 <= j < i ==> (bar, ws[j].product) in prices by {
        if p.Some? {
          var i :| 0 <= i < |ws[1..]| && ws[1..][i].product == p.value && forall j :: 0 <= j < i ==> (bar, ws[1..][j].product) in prices;
          assert forall j :: 1 <= j < i + 1 ==> ws[j] == ws[1..][j - 1];
        }
      }
      p
  }

  /** A loop that finds the first unpriced well at `i` has computed `FirstUnpriced`. */
  lemma FirstUnpricedAt(ws: seq<WellRow>, bar: BarId, prices: map<(BarId, ProductId), Price>, i: nat)
    requires i < |ws| && (bar, ws[i].product) !in prices
    requires forall j :: 0 <= j < i ==> (bar, ws[j].product) in prices
    ensures FirstUnpriced(ws, bar, prices) == Some(ws[i].product)
  {
    var p := FirstUnpriced(ws, bar, prices);
    var k :| 0 <= k < |ws| && ws[k].product == p.value && forall j :: 0 <= j < k ==> (bar, ws[j].product) in prices;
    if k < i {
      assert (bar, ws[k].product) !in prices;
    } else if i < k {
    }
  }

  /** Total consumption per product over the given well records (the groupingBy/reducing collector). */
  function ConsumedByProduct(ws: seq<WellRow>): (m: map<ProductId, int>)
    ensures forall p :: p in m <==> exists i :: 0 <= i < |ws| && ws[i].product == p
  {
    var m := GroupSum(ConsumedEntries(ws));
    assert forall i :: 0 <= i < |ws| ==> ConsumedEntries(ws)[i].0 == ws[i].product;
    m
  }

  /** Once the price check has passed, every product that sales generation visits has a price. */
  lemma PriceCheckCoversSales(ws: seq<WellRow>, bar: BarId, prices: map<(BarId, ProductId), Price>)
    requires FirstUnpriced(ws, bar, prices).None?
    ensures forall p :: p in ConsumedByProduct(ws) ==> (bar, p) in prices
  {
  }

  /** The sales record generated for `qty` sold of product `p` at a bar's price; a missing cost price counts as zero. */
  function SaleFor(id: SessionId, p: ProductId, qty: int, price: Price): (r: SalesRow)
    ensures r.Consistent()
    ensures r.session == id && r.product == p && r.quantitySold == qty
    ensures r.sellingPricePerUnit == price.sellingPrice
    ensures r.costPricePerUnit == (if price.costPrice.Some? then price.costPrice.value else 0)
  {
    var cost := match price.costPrice
      case Some(c) => c
      case None => 0;
    SalesRow(id, p, qty, price.sellingPrice, cost, 0, 0, 0).WithTotals()
  }

  /**
   * `added` is what generateSalesRecords stores for the per-product totals
   * `m`: one record per product whose total is positive, in some order, each
   * priced from the bar's entry; no record for any other product.
   */
  ghost predicate GeneratedSales(added: seq<SalesRow>, id: SessionId, m: map<ProductId, int>, bar: BarId, prices: map<(BarId, ProductId), Price>)
  {
    && (forall i :: 0 <= i < |added| ==>
          && added[i].product in m && m[added[i].product] > 0
          && (bar, added[i].product) in prices
          && added[i] == SaleFor(id, added[i].product, m[added[i].product], prices[(bar, added[i].product)]))
    && (forall p :: p in m && m[p] > 0 ==> exists i :: 0 <= i < |added| && added[i].product == p)
    && (forall i, j :: 0 <= i < j < |added| ==> added[i].product != added[j].product)
  }

  /** `added` is what the generation loop has stored once only the products in `todo` remain to visit. */
  ghost predicate PartlyGenerated(added: seq<SalesRow>, id: SessionId, m: map<ProductId, int>, bar: BarId,
                                  prices: map<(BarId, ProductId), Price>, todo: set<ProductId>)
  {
    && (forall i :: 0 <= i < |added| ==>
          && added[i].product in m && added[i].product !in todo && m[added[i].product] > 0
          && (bar, added[i].product) in prices
          && added[i] == SaleFor(id, added[i].product, m[added[i].product], prices[(bar, added[i].product)]))
    && (forall p :: p in m && p !in todo && m[p] > 0 ==> exists i :: 0 <= i < |added| && added[i].product == p)
    && (forall i, j :: 0 <= i < j < |added| ==> added[i].product != added[j].product)
  }

  /** Visiting one more product keeps the loop's account: a record if its total is positive, none otherwise. */
  lemma GenerationStep(added: seq<SalesRow>, id: SessionId, m: map<ProductId, int>, bar: BarId,
                       prices: map<(BarId, ProductId), Price>, todo: set<ProductId>, p: ProductId)
    requires PartlyGenerated(added, id, m, bar, prices, todo)
    requires p in todo && p in m && (m[p] > 0 ==> (bar, p) in prices)
    ensures m[p] > 0 ==> PartlyGenerated(added + [SaleFor(id, p, m[p], prices[(bar, p)])], id, m, bar, prices, todo - {p})
    ensures m[p] <= 0 ==> PartlyGenerated(added, id, m, bar, prices, todo - {p})
  {
    if m[p] > 0 {
      var more := added + [SaleFor(id, p, m[p], prices[(bar, p)])];
      forall q | q in m && q !in todo - {p} && m[q] > 0
        ensures exists i :: 0 <= i < |more| && more[i].product == q
      {
        if q == p {
          assert more[|added|].product == q;
        } else {
          var i :| 0 <= i < |added| && added[i].product == q;
          assert more[i].product == q;
        }
      }
    }
  }

  /** With every product visited, the loop's account is the whole of sales generation. */
  lemma GenerationDone(added: seq<SalesRow>, id: SessionId, m: map<ProductId, int>, bar: BarId, prices: map<(BarId, ProductId), Price>)
    requires PartlyGenerated(added, id, m, bar, prices, {})
    ensures GeneratedSales(added, id, m, bar, prices)
  {
  }

  /**
   * Sales generation, all inputs: each generated record sells exactly the
   * session's summed consumption of its product (positive), at the bar's
   * prices, with consistent totals; products consumed in total zero or less
   * have no record.
   */
  lemma GeneratedSalesSellConsumption(added: seq<SalesRow>, wells: seq<WellRow>, id: SessionId, bar: BarId, prices: map<(BarId, ProductId), Price>)
    requires GeneratedSales(added, id, ConsumedByProduct(WellsOf(wells, id)), bar, prices)
    ensures forall i :: 0 <= i < |added| ==>
      && added[i].session == id
      && added[i].quantitySold == SumConsumedBySessionAndProduct(wells, id, added[i].product)
      && added[i].quantitySold > 0
      && added[i].Consistent()
    ensures forall p :: SumConsumedBySessionAndProduct(wells, id, p) <= 0 ==> forall i :: 0 <= i < |added| ==> added[i].product != p
  {
  }

  // ---- getDistributionMapForSession ----

  function QuantityEntries(ds: seq<DistributionRow>): (es: seq<Entry>)
    ensures |es| == |ds|
  {
    seq(|ds|, i requires 0 <= i < |ds| => (ds[i].product, ds[i].quantityFromStockroom))
  }

  /** The product to quantity-from-stockroom map of a session, merging duplicate products by addition. */
  function DistributionMap(ds: seq<DistributionRow>, id: SessionId): (m: map<ProductId, int>)
  {
    GroupSum(QuantityEntries(DistributionsOf(ds, id)))
  }

  /** When only position `k` holds product `p`, the keyed sum of `p` is that entry's amount. */
  lemma {:induction false} SumForSingle(es: seq<Entry>, p: ProductId, k: nat)
    requires k < |es| && es[k].0 == p
    requires forall j :: 0 <= j < |es| && j != k ==> es[j].0 != p
    ensures SumFor(es, p) == es[k].1
  {
    var init := es[..|es| - 1];
    if k < |es| - 1 {
      SumForSingle(init, p, k);
    } else {
      assert SumFor(init, p) == 0;
    }
  }

  /** The distribution map has a key for exactly the products the session has distributions of. */
  lemma DistributionMapKeys(ds: seq<DistributionRow>, id: SessionId)
    ensures forall p :: p in DistributionMap(ds, id) <==> FindDistribution(ds, id, p).Some?
  {
    var mine := DistributionsOf(ds, id);
    var es := QuantityEntries(mine);
    forall p
      ensures p in DistributionMap(ds, id) <==> FindDistribution(ds, id, p).Some?
    {
      if FindDistribution(ds, id, p).Some? {
        var k := FindDistribution(ds, id, p).value;
        assert ds[k] in mine;
        var j :| 0 <= j < |mine| && mine[j] == ds[k];
        assert es[j].0 == p;
      }
      if p in DistributionMap(ds, id) {
        var j :| 0 <= j < |es| && es[j].0 == p;
        assert mine[j] in ds;
      }
    }
  }

  /**
   * Since the table keys are unique, each product of the session's
   * distribution map maps to that distribution's quantity from the stockroom.
   */
  lemma DistributionMapHoldsQuantities(ds: seq<DistributionRow>, id: SessionId)
    requires UniqueDistributions(ds)
    ensures forall k :: 0 <= k < |ds| && ds[k].session == id ==>
      ds[k].product in DistributionMap(ds, id) && DistributionMap(ds, id)[ds[k].product] == ds[k].quantityFromStockroom
  {
    var mine := DistributionsOf(ds, id);
    var es := QuantityEntries(mine);
    SessionProductsDistinct(ds, id);
    DistributionMapKeys(ds, id);
    forall k | 0 <= k < |ds| && ds[k].session == id
      ensures DistributionMap(ds, id)[ds[k].product] == ds[k].quantityFromStockroom
    {
      assert ds[k] in mine;
      var j :| 0 <= j < |mine| && mine[j] == ds[k];
      SumForSingle(es, ds[k].product, j);
    }
  }
}
