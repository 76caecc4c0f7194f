/**
 * What each stage write of InventorySessionService does to the stored
 * tables, stated as functions of the tables before the write, with the
 * properties the workflow relies on proved about them.
 */
module StageWrites {
  import opened Common
  import opened Grouping
  import opened Stockroom
  import opened Distribution
  import opened Well
  import opened Queries

  // ---- saveStockroomInventory ----

  /** The submitted stockroom records as inserted: attached to the session, passed through the hook. */
  function PersistedStockroom(inputs: seq<StockroomRow>, id: SessionId): (rows: seq<StockroomRow>)
    ensures |rows| == |inputs|
    ensures forall i :: 0 <= i < |rows| ==> rows[i].session == id && rows[i].Consistent()
  {
    seq(|inputs|, i requires 0 <= i < |inputs| => inputs[i].(session := id).WithTransferred())
  }

  /** One more submitted record inserted: the persisted prefix grows by that record. */
  lemma PersistedStockroomStep(inputs: seq<StockroomRow>, id: SessionId, i: nat)
    requires i < |inputs|
    ensures PersistedStockroom(inputs[..i + 1], id) == PersistedStockroom(inputs[..i], id) + [inputs[i].(session := id).WithTransferred()]
  {
  }

  // ---- createDistributionRecords ----

  /** An existing distribution record refreshed from a new stockroom transfer: allocation reset to zero. */
  function Refreshed(d: DistributionRow, t: int): DistributionRow
  {
    d.(quantityFromStockroom := t, totalAllocated := 0, unallocated := t, status := PendingAllocation).WithUnallocated()
  }

  /** A distribution record created for a new stockroom transfer. */
  function Created(id: SessionId, p: ProductId, t: int): DistributionRow
  {
    DistributionRow(id, p, t, 0, t, PendingAllocation, "").WithUnallocated()
  }

  /** One iteration of createDistributionRecords: upsert the distribution of a stockroom record with a positive transfer. */
  function UpsertOne(ds: seq<DistributionRow>, id: SessionId, s: StockroomRow): seq<DistributionRow>
  {
    if s.transferredOut > 0 then
      match FindDistribution(ds, id, s.product)
      case Some(k) => ds[k := Refreshed(ds[k], s.transferredOut)]
      case None => ds + [Created(id, s.product, s.transferredOut)]
    else ds
  }

  /** createDistributionRecords over the session's stockroom records, in stored order. */
  function Upsert(ds: seq<DistributionRow>, id: SessionId, rows: seq<StockroomRow>): seq<DistributionRow>
  {
    if rows == [] then ds else UpsertOne(Upsert(ds, id, rows[..|rows| - 1]), id, rows[|rows| - 1])
  }

  /** One more stockroom record visited: the upserts so far grow by that record's upsert. */
  lemma UpsertPrefixStep(ds: seq<DistributionRow>, id: SessionId, rows: seq<StockroomRow>, i: nat)
    requires i < |rows|
    ensures Upsert(ds, id, rows[..i + 1]) == UpsertOne(Upsert(ds, id, rows[..i]), id, rows[i])
  {
    assert rows[..i + 1][..i] == rows[..i];
  }

  /** The transfer of the last stockroom record of product `p` whose transfer is positive: the one an upsert leaves in place. */
  function LastTransfer(rows: seq<StockroomRow>, p: ProductId): (t: Option<int>)
    ensures t.Some? ==> t.value > 0
    ensures t.None? <==> forall i :: 0 <= i < |rows| ==> !(rows[i].product == p && rows[i].transferredOut > 0)
  {
    if rows == [] then None
    else
      var s := rows[|rows| - 1];
      if s.product == p && s.transferredOut > 0 then Some(s.transferredOut) else LastTransfer(rows[..|rows| - 1], p)
  }

  /** Every stored distribution record passes the hook rule and belongs to a known session. */
  predicate DistributionTableOk(ds: seq<DistributionRow>, sessionCount: nat)
  {
    && UniqueDistributions(ds)
    && forall d :: d in ds ==> d.session < sessionCount && d.Consistent()
  }

  /** Two tables of the same length whose records have the same (session, product) keys, position by position. */
  predicate SameKeys(a: seq<DistributionRow>, b: seq<DistributionRow>)
  {
    && |a| == |b|
    && forall j :: 0 <= j < |a| ==> a[j].session == b[j].session && a[j].product == b[j].product
  }

  /** Changing records without changing their keys changes no lookup. */
  lemma {:induction false} SameKeysFind(a: seq<DistributionRow>, b: seq<DistributionRow>, id: SessionId, p: ProductId)
    requires SameKeys(a, b)
    ensures FindDistribution(a, id, p) == FindDistribution(b, id, p)
  {
    if a != [] {
      SameKeysFind(a[1..], b[1..], id, p);
    }
  }

  /** One upsert keeps the table's keys unique and its records consistent. */
  lemma UpsertOneKeepsTableOk(ds: seq<DistributionRow>, id: SessionId, s: StockroomRow, sessionCount: nat)
    requires DistributionTableOk(ds, sessionCount) && id < sessionCount
    ensures DistributionTableOk(UpsertOne(ds, id, s), sessionCount)
  {
    var r := UpsertOne(ds, id, s);
    if s.transferredOut > 0 {
      match FindDistribution(ds, id, s.product)
      case Some(k) =>
        assert SameKeys(ds, r);
      case None =>
        assert forall j :: 0 <= j < |ds| ==> r[j] == ds[j];
    }
  }

  /** What an existing record becomes once the stockroom records `rows` are upserted. */
  function AfterUpsert(d: DistributionRow, id: SessionId, rows: seq<StockroomRow>): DistributionRow
  {
    if d.session == id && LastTransfer(rows, d.product).Some? then Refreshed(d, LastTransfer(rows, d.product).value) else d
  }

  /**
   * `r` is the distribution table `ds` after the stockroom records `rows` of
   * session `id` are upserted: keys stay unique, each existing record of a
   * transferred product is refreshed with the product's last transfer and
   * nothing allocated, every other record is kept, each added record is a
   * fresh one for a transferred product, and no transferred product lacks a
   * record.
   */
  ghost predicate Upserted(ds: seq<DistributionRow>, id: SessionId, rows: seq<StockroomRow>, r: seq<DistributionRow>)
  {
    && UniqueDistributions(r)
    && |ds| <= |r|
    && (forall k :: 0 <= k < |ds| ==> r[k] == AfterUpsert(ds[k], id, rows))
    && (forall k :: |ds| <= k < |r| ==>
          && r[k].session == id
          && LastTransfer(rows, r[k].product).Some?
          && r[k] == Created(id, r[k].product, LastTransfer(rows, r[k].product).value))
    && (forall p :: LastTransfer(rows, p).Some? ==> FindDistribution(r, id, p).Some?)
  }

  /** A refresh replaces every earlier refresh. */
  lemma RefreshTwice(d: DistributionRow, a: int, b: int)
    ensures Refreshed(Refreshed(d, a), b) == Refreshed(d, b)
    ensures Refreshed(Created(d.session, d.product, a), b) == Created(d.session, d.product, b)
  {
  }

  /** createDistributionRecords, all inputs: the table it leaves is `Upserted` from the one it found. */
  lemma {:induction false} UpsertRefreshesTransfers(ds: seq<DistributionRow>, id: SessionId, rows: seq<StockroomRow>)
    requires UniqueDistributions(ds)
    ensures Upserted(ds, id, rows, Upsert(ds, id, rows))
  {
    if rows == [] {
      assert forall k :: 0 <= k < |ds| ==> AfterUpsert(ds[k], id, rows) == ds[k];
    } else {
      var init, s := rows[..|rows| - 1], rows[|rows| - 1];
      UpsertRefreshesTransfers(ds, id, init);
      assert init + [s] == rows;
      UpsertStep(ds, id, init, s, Upsert(ds, id, init));
    }
  }

  lemma UpsertStep(ds: seq<DistributionRow>, id: SessionId, init: seq<StockroomRow>, s: StockroomRow, r0: seq<DistributionRow>)
    requires Upserted(ds, id, init, r0)
    ensures Upserted(ds, id, init + [s], UpsertOne(r0, id, s))
  {
    var rows := init + [s];
    assert rows[..|rows| - 1] == init;
    assert forall p :: p != s.product || s.transferredOut <= 0 ==> LastTransfer(rows, p) == LastTransfer(init, p);
    if s.transferredOut <= 0 {
      assert UpsertOne(r0, id, s) == r0;
      assert forall k :: 0 <= k < |ds| ==> AfterUpsert(ds[k], id, rows) == AfterUpsert(ds[k], id, init);
    } else {
      assert LastTransfer(rows, s.product) == Some(s.transferredOut);
      match FindDistribution(r0, id, s.product)
      case Some(k) => UpsertStepRefresh(ds, id, init, s, r0, k);
      case None => UpsertStepCreate(ds, id, init, s, r0);
    }
  }

  lemma UpsertStepRefresh(ds: seq<DistributionRow>, id: SessionId, init: seq<StockroomRow>, s: StockroomRow, r0: seq<DistributionRow>, k: nat)
    requires Upserted(ds, id, init, r0)
    requires s.transferredOut > 0 && FindDistribution(r0, id, s.product) == Some(k)
    ensures Upserted(ds, id, init + [s], UpsertOne(r0, id, s))
  {
    var rows := init + [s];
    var t := s.transferredOut;
    assert rows[..|rows| - 1] == init;
    var r := r0[k := Refreshed(r0[k], t)];
    assert UpsertOne(r0, id, s) == r;
    assert SameKeys(r0, r);
    forall p | LastTransfer(rows, p).Some?
      ensures FindDistribution(r, id, p).Some?
    {
      SameKeysFind(r0, r, id, p);
    }
    forall j | 0 <= j < |ds|
      ensures r[j] == AfterUpsert(ds[j], id, rows)
    {
      if j == k {
        RefreshTwice(ds[j], if LastTransfer(init, s.product).Some? then LastTransfer(init, s.product).value else 0, t);
      } else {
        assert r0[j].session == ds[j].session && r0[j].product == ds[j].product;
      }
    }
    forall j | |ds| <= j < |r|
      ensures r[j].session == id && LastTransfer(rows, r[j].product).Some?
      ensures r[j] == Created(id, r[j].product, LastTransfer(rows, r[j].product).value)
    {
      if j == k {
        RefreshTwice(r0[j], LastTransfer(init, s.product).value, t);
      }
    }
  }

  lemma UpsertStepCreate(ds: seq<DistributionRow>, id: SessionId, init: seq<StockroomRow>, s: StockroomRow, r0: seq<DistributionRow>)
    requires Upserted(ds, id, init, r0)
    requires s.transferredOut > 0 && FindDistribution(r0, id, s.product).None?
    ensures Upserted(ds, id, init + [s], UpsertOne(r0, id, s))
  {
    var rows := init + [s];
    var t := s.transferredOut;
    assert rows[..|rows| - 1] == init;
    var r := r0 + [Created(id, s.product, t)];
    assert UpsertOne(r0, id, s) == r;
    forall j | 0 <= j < |ds|
      ensures r[j] == AfterUpsert(ds[j], id, rows)
    {
      assert r0[j].session == ds[j].session && r0[j].product == ds[j].product;
    }
    forall p | LastTransfer(rows, p).Some?
      ensures FindDistribution(r, id, p).Some?
    {
      if p == s.product {
        assert r[|r0|].session == id && r[|r0|].product == p;
      } else {
        var j := FindDistribution(r0, id, p).value;
        assert r[j] == r0[j];
      }
    }
  }

  // ---- updateDistributionAllocation and saveWellInventory ----

  /** updateDistributionAllocation: add `q` to the allocation of the session's distribution of `p`; no such record is a failure. */
  function AddAllocation(ds: seq<DistributionRow>, id: SessionId, p: ProductId, q: int): Option<seq<DistributionRow>>
  {
    match FindDistribution(ds, id, p)
    case None => None
    case Some(k) => Some(ds[k := ds[k].(totalAllocated := ds[k].totalAllocated + q).WithUnallocated()])
  }

  /** One iteration of saveWellInventory after the well record is stored: only a positive receipt is allocated. */
  function AllocateOne(ds: seq<DistributionRow>, id: SessionId, w: WellRow): Option<seq<DistributionRow>>
  {
    if w.receivedFromDistribution > 0 then AddAllocation(ds, id, w.product, w.receivedFromDistribution) else Some(ds)
  }

  /** The allocations of saveWellInventory over the saved wells, in order; the first missing distribution fails the whole call. */
  function Allocate(ds: seq<DistributionRow>, id: SessionId, ws: seq<WellRow>): Option<seq<DistributionRow>>
  {
    if ws == [] then Some(ds)
    else match Allocate(ds, id, ws[..|ws| - 1])
      case None => None
      case Some(d) => AllocateOne(d, id, ws[|ws| - 1])
  }

  /** What each well adds to its product's allocation: its receipt when positive, otherwise nothing. */
  function AllocatedEntries(ws: seq<WellRow>): (es: seq<Entry>)
    ensures |es| == |ws|
  {
    seq(|ws|, i requires 0 <= i < |ws| =>
      (ws[i].product, if ws[i].receivedFromDistribution > 0 then ws[i].receivedFromDistribution else 0))
  }

  /** When no receipt is negative, the allocated amounts are exactly the received amounts. */
  lemma AllocatedIsReceived(ws: seq<WellRow>)
    requires forall i :: 0 <= i < |ws| ==> ws[i].receivedFromDistribution >= 0
    ensures AllocatedEntries(ws) == ReceivedEntries(ws)
  {
  }

  /** No product's allocated amount is negative: only positive receipts count. */
  lemma {:induction false} AllocatedNonNegative(ws: seq<WellRow>, p: ProductId)
    ensures SumFor(AllocatedEntries(ws), p) >= 0
  {
    if ws != [] {
      AllocatedNonNegative(ws[..|ws| - 1], p);
      assert AllocatedEntries(ws)[..|ws| - 1] == AllocatedEntries(ws[..|ws| - 1]);
    }
  }

  /** A well whose positive receipt has a distribution of its product in the session. */
  predicate Allocatable(ds: seq<DistributionRow>, id: SessionId, w: WellRow)
  {
    w.receivedFromDistribution > 0 ==> FindDistribution(ds, id, w.product).Some?
  }

  /** Allocating changes no record's key. */
  lemma {:induction false} AllocateKeepsKeys(ds: seq<DistributionRow>, id: SessionId, ws: seq<WellRow>)
    ensures Allocate(ds, id, ws).Some? ==> SameKeys(ds, Allocate(ds, id, ws).value)
  {
    if ws != [] {
      AllocateKeepsKeys(ds, id, ws[..|ws| - 1]);
    }
  }

  /** saveWellInventory's allocations succeed exactly when every positively received well has a distribution of its product. */
  lemma {:induction false} AllocateSucceedsIff(ds: seq<DistributionRow>, id: SessionId, ws: seq<WellRow>)
    ensures Allocate(ds, id, ws).Some? <==> forall i :: 0 <= i < |ws| ==> Allocatable(ds, id, ws[i])
  {
    if ws != [] {
      var init, w := ws[..|ws| - 1], ws[|ws| - 1];
      AllocateSucceedsIff(ds, id, init);
      AllocateKeepsKeys(ds, id, init);
      assert forall i :: 0 <= i < |init| ==> init[i] == ws[i];
      match Allocate(ds, id, init)
      case None =>
      case Some(r0) => SameKeysFind(ds, r0, id, w.product);
    }
  }

  /** A failure part-way through the allocations fails the whole call. */
  lemma AllocateFailsFrom(ds: seq<DistributionRow>, id: SessionId, ws: seq<WellRow>, i: nat)
    requires i < |ws| && Allocate(ds, id, ws[..i]).Some?
    requires AllocateOne(Allocate(ds, id, ws[..i]).value, id, ws[i]).None?
    ensures Allocate(ds, id, ws).None?
  {
    assert ws[..i + 1][..i] == ws[..i];
    AllocateSucceedsIff(ds, id, ws[..i + 1]);
    AllocateSucceedsIff(ds, id, ws);
  }

  /** The allocation rule for one record: what `e` holds after `amount` more is allocated to `d` of session `id`. */
  predicate AllocatedBy(d: DistributionRow, e: DistributionRow, id: SessionId, amount: int)
  {
    && e.session == d.session
    && e.product == d.product
    && e.quantityFromStockroom == d.quantityFromStockroom
    && e.notes == d.notes
    && (d.session != id ==> e == d)
    && (d.session == id ==> e.totalAllocated == d.totalAllocated + amount)
    && (amount == 0 ==> e == d)
    && (d.Consistent() ==> e.Consistent())
  }

  /**
   * saveWellInventory, all inputs: after successful allocations each of the
   * session's distributions has gained the sum of the positive receipts of
   * its product, with `unallocated` recomputed; other sessions are untouched.
   */
  lemma {:induction false} AllocateAddsReceipts(ds: seq<DistributionRow>, id: SessionId, ws: seq<WellRow>)
    requires UniqueDistributions(ds)
    ensures Allocate(ds, id, ws).Some? ==>
      var r := Allocate(ds, id, ws).value;
      && |r| == |ds|
      && UniqueDistributions(r)
      && forall k :: 0 <= k < |ds| ==> AllocatedBy(ds[k], r[k], id, SumFor(AllocatedEntries(ws), ds[k].product))
  {
    AllocateKeepsKeys(ds, id, ws);
    if ws != [] {
      var init := ws[..|ws| - 1];
      AllocateAddsReceipts(ds, id, init);
      match Allocate(ds, id, init)
      case None =>
      case Some(r0) =>
        assert init + [ws[|ws| - 1]] == ws;
        AllocateStep(ds, id, init, ws[|ws| - 1], r0);
    }
  }

  lemma AllocateStep(ds: seq<DistributionRow>, id: SessionId, init: seq<WellRow>, w: WellRow, r0: seq<DistributionRow>)
    requires |r0| == |ds| && UniqueDistributions(r0)
    requires forall k :: 0 <= k < |ds| ==> AllocatedBy(ds[k], r0[k], id, SumFor(AllocatedEntries(init), ds[k].product))
    ensures AllocateOne(r0, id, w).Some? ==>
      var r := AllocateOne(r0, id, w).value;
      forall k :: 0 <= k < |ds| ==> AllocatedBy(ds[k], r[k], id, SumFor(AllocatedEntries(init + [w]), ds[k].product))
  {
    var ws := init + [w];
    assert AllocatedEntries(ws) == AllocatedEntries(init) + [AllocatedEntries(ws)[|init|]];
    var add := if w.receivedFromDistribution > 0 then w.receivedFromDistribution else 0;
    forall p
      ensures SumFor(AllocatedEntries(ws), p) == SumFor(AllocatedEntries(init), p) + (if w.product == p then add else 0)
      ensures SumFor(AllocatedEntries(init), p) >= 0
    {
      SumForConcat(AllocatedEntries(init), [AllocatedEntries(ws)[|init|]], p);
      AllocatedNonNegative(init, p);
    }
    if w.receivedFromDistribution > 0 {
      match FindDistribution(r0, id, w.product)
      case None =>
      case Some(k) =>
        assert forall j :: 0 <= j < |r0| && j != k && r0[j].session == id ==> r0[j].product != w.product;
    }
  }

  // ---- saveWellInventoryFromForm ----

  /** The reset before recalculating: every distribution of the session has its allocation zeroed and passes the hook. */
  function ResetAllocations(ds: seq<DistributionRow>, id: SessionId): (r: seq<DistributionRow>)
    ensures |r| == |ds|
  {
    seq(|ds|, k requires 0 <= k < |ds| => if ds[k].session == id then ds[k].(totalAllocated := 0).WithUnallocated() else ds[k])
  }

  /** The reset keeps the table's keys unique and its records consistent. */
  lemma ResetKeepsTableOk(ds: seq<DistributionRow>, id: SessionId, sessionCount: nat)
    requires DistributionTableOk(ds, sessionCount)
    ensures DistributionTableOk(ResetAllocations(ds, id), sessionCount)
  {
    var r := ResetAllocations(ds, id);
    assert SameKeys(ds, r);
    forall d | d in r
      ensures d.session < sessionCount && d.Consistent()
    {
      var k :| 0 <= k < |r| && r[k] == d;
      assert ds[k] in ds;
    }
  }

  /**
   * The form path, all inputs: after the reset, each of the session's
   * distributions holds exactly the receipts of the newly saved wells of its
   * product, whatever it held before, so a resubmission never double counts.
   */
  lemma FormAllocationsReplace(ds: seq<DistributionRow>, id: SessionId, ws: seq<WellRow>)
    requires UniqueDistributions(ds)
    ensures UniqueDistributions(ResetAllocations(ds, id))
    ensures Allocate(ResetAllocations(ds, id), id, ws).Some? ==>
      var r := Allocate(ResetAllocations(ds, id), id, ws).value;
      && |r| == |ds|
      && forall k :: 0 <= k < |ds| && ds[k].session == id ==>
        && r[k].product == ds[k].product
        && r[k].totalAllocated == SumFor(AllocatedEntries(ws), ds[k].product)
        && r[k].unallocated == ds[k].quantityFromStockroom - SumFor(AllocatedEntries(ws), ds[k].product)
  {
    var reset := ResetAllocations(ds, id);
    assert forall k :: 0 <= k < |ds| ==> reset[k].session == ds[k].session && reset[k].product == ds[k].product;
    AllocateAddsReceipts(reset, id, ws);
  }

  /** A value of the well form: an empty field, or a number already read as hundredths. */
  datatype FormValue = Empty | Decimal(amount: int)

  datatype FormField = Opening | Received | Closing

  /** The form's fields, keyed by field, product and well (the `<field>_<productId>_<wellName>` names). */
  type FormData = map<(FormField, ProductId, string), FormValue>

  /** parseDecimal: a missing or empty field reads as zero. */
  function ParseDecimal(v: Option<FormValue>): (q: int)
    ensures v.None? || v == Some(Empty) ==> q == 0
    ensures v.Some? && v.value.Decimal? ==> q == v.value.amount
  {
    match v
    case None => 0
    case Some(Empty) => 0
    case Some(Decimal(a)) => a
  }

  function Field(form: FormData, f: FormField, p: ProductId, well: string): int
  {
    ParseDecimal(if (f, p, well) in form then Some(form[(f, p, well)]) else None)
  }

  /** The well record the form yields for one product at one well, if any of its three fields is positive. */
  function FormWell(form: FormData, id: SessionId, p: ProductId, well: string): seq<WellRow>
  {
    var opening := Field(form, Opening, p, well);
    var received := Field(form, Received, p, well);
    var closing := Field(form, Closing, p, well);
    var consumed := opening + received - closing;
    if opening > 0 || received > 0 || closing > 0 then
      [WellRow(id, p, well, opening, received, closing, if consumed >= 0 then consumed else 0, "")]
    else []
  }

  /** The records the form yields for one product, well by well. */
  function ProductWells(form: FormData, id: SessionId, p: ProductId, wells: seq<string>): seq<WellRow>
  {
    if wells == [] then [] else ProductWells(form, id, p, wells[..|wells| - 1]) + FormWell(form, id, p, wells[|wells| - 1])
  }

  /** The records the form yields, product by product over the active products, each over the three wells. */
  function FormWells(form: FormData, id: SessionId, products: seq<ProductId>): seq<WellRow>
  {
    if products == [] then []
    else FormWells(form, id, products[..|products| - 1]) + ProductWells(form, id, products[|products| - 1], WellNames)
  }

  /** What the form yields for one product at one well. */
  predicate FromForm(form: FormData, id: SessionId, w: WellRow)
  {
    && w.session == id
    && w.wellName in WellNames
    && (w.openingStock > 0 || w.receivedFromDistribution > 0 || w.closingStock > 0)
    && w.openingStock == Field(form, Opening, w.product, w.wellName)
    && w.receivedFromDistribution == Field(form, Received, w.product, w.wellName)
    && w.closingStock == Field(form, Closing, w.product, w.wellName)
    && w.consumed >= 0
  }

  lemma {:induction false} ProductWellsFromForm(form: FormData, id: SessionId, p: ProductId, wells: seq<string>)
    requires forall n :: n in wells ==> n in WellNames
    ensures forall w :: w in ProductWells(form, id, p, wells) ==> w.product == p && FromForm(form, id, w)
  {
    if wells != [] {
      ProductWellsFromForm(form, id, p, wells[..|wells| - 1]);
    }
  }

  /**
   * Only data-bearing cells become records: every queued record belongs to
   * the session and an active product, sits at one of the three wells, has a
   * positive field, copies that cell's three fields, and has its consumption
   * clamped at zero (a value the persistence hook later overwrites).
   */
  lemma {:induction false} FormWellsFromForm(form: FormData, id: SessionId, products: seq<ProductId>)
    ensures forall w :: w in FormWells(form, id, products) ==> w.product in products && FromForm(form, id, w)
  {
    if products != [] {
      var init := products[..|products| - 1];
      FormWellsFromForm(form, id, init);
      ProductWellsFromForm(form, id, products[|products| - 1], WellNames);
    }
  }

  /** The form holds data for product `p` at well `n`: one of its three fields is positive. */
  predicate HasData(form: FormData, p: ProductId, n: string)
  {
    Field(form, Opening, p, n) > 0 || Field(form, Received, p, n) > 0 || Field(form, Closing, p, n) > 0
  }

  /** Every data-bearing cell of a product, at one of the visited wells, yields a queued record. */
  lemma {:induction false} ProductWellsCover(form: FormData, id: SessionId, p: ProductId, wells: seq<string>)
    ensures forall n :: n in wells && HasData(form, p, n) ==>
      exists w :: w in ProductWells(form, id, p, wells) && w.product == p && w.wellName == n
  {
    if wells != [] {
      var init, last := wells[..|wells| - 1], wells[|wells| - 1];
      ProductWellsCover(form, id, p, init);
      assert wells == init + [last];
      forall n | n in wells && HasData(form, p, n)
        ensures exists w :: w in ProductWells(form, id, p, wells) && w.product == p && w.wellName == n
      {
        if n in init {
          var w :| w in ProductWells(form, id, p, init) && w.product == p && w.wellName == n;
          assert w in ProductWells(form, id, p, wells);
        } else {
          assert n == last;
          var w := FormWell(form, id, p, last)[0];
          assert w in ProductWells(form, id, p, wells);
        }
      }
    }
  }

  /** Every data-bearing cell of an active product at BAR_1, BAR_2 or SERVICE_BAR yields a queued record. */
  lemma {:induction false} FormWellsCover(form: FormData, id: SessionId, products: seq<ProductId>)
    ensures forall p, n :: p in products && n in WellNames && HasData(form, p, n) ==>
      exists w :: w in FormWells(form, id, products) && w.product == p && w.wellName == n
  {
    if products != [] {
      var init, last := products[..|products| - 1], products[|products| - 1];
      FormWellsCover(form, id, init);
      ProductWellsCover(form, id, last, WellNames);
      assert products == init + [last];
      forall p, n | p in products && n in WellNames && HasData(form, p, n)
        ensures exists w :: w in FormWells(form, id, products) && w.product == p && w.wellName == n
      {
        if p in init {
          var w :| w in FormWells(form, id, init) && w.product == p && w.wellName == n;
          assert w in FormWells(form, id, products);
        } else {
          var w :| w in ProductWells(form, id, last, WellNames) && w.product == p && w.wellName == n;
          assert w in FormWells(form, id, products);
        }
      }
    }
  }

  // ---- the hook on inserted well records ----

  /** The well records as inserted: attached to the session, passed through the hook. */
  function PersistedWells(ws: seq<WellRow>, id: SessionId): (rows: seq<WellRow>)
    ensures |rows| == |ws|
    ensures forall i :: 0 <= i < |rows| ==> rows[i].session == id && rows[i].Consistent()
  {
    seq(|ws|, i requires 0 <= i < |ws| => ws[i].(session := id).WithConsumed())
  }

  /** One more well record saved: the persisted prefix grows by that record, and the allocations by its step. */
  lemma SaveWellStep(ds: seq<DistributionRow>, id: SessionId, ws: seq<WellRow>, i: nat)
    requires i < |ws|
    ensures PersistedWells(ws[..i + 1], id) == PersistedWells(ws[..i], id) + [ws[i].(session := id).WithConsumed()]
    ensures Allocate(ds, id, ws[..i + 1]) ==
      match Allocate(ds, id, ws[..i])
      case None => None
      case Some(d) => AllocateOne(d, id, ws[i])
  {
    assert ws[..i + 1][..i] == ws[..i];
  }

  /** The hook does not change what a well received, so the allocations see the submitted receipts. */
  lemma PersistKeepsAllocations(ws: seq<WellRow>, id: SessionId)
    ensures AllocatedEntries(PersistedWells(ws, id)) == AllocatedEntries(ws)
  {
  }
}
