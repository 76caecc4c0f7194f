/**
 * InventorySessionService: the staged reconciliation of one bar shift.
 * A session is opened, its stockroom counts are saved, distribution records
 * are derived from them, the wells' counts are saved and allocated against
 * those distributions, and the session is finally committed (three
 * conservation checks, a price check, sales generation) or rolled back.
 *
 * The store is one object holding the sessions and one table per record
 * kind. Every stored record passes through its entity's hook before it is
 * written, exactly as the persistence layer does on insert and update.
 */
module SessionService {
  import opened Common
  import opened Grouping
  import opened Stockroom
  import opened Distribution
  import opened Well
  import opened Sales
  import opened Queries
  import opened StageWrites
  import opened Reconciliation

  datatype SessionStatus = InProgress | Completed | RolledBack

  /** One shift of one bar. `endTime` and `validationErrors` are unset while it is open. */
  datatype Session = Session(
    bar: BarId,
    startTime: Time,
    endTime: Option<Time>,
    status: SessionStatus,
    shiftType: string,
    notes: string,
    validationErrors: Option<string>)
  {
    /** The fields rollbackSession writes. */
    function RolledBackWith(reason: string, now: Time): (s: Session)
      ensures s.status == RolledBack && s.endTime == Some(now) && s.validationErrors == Some(reason)
      ensures s.(status := status, endTime := endTime, validationErrors := validationErrors) == this
    {
      this.(status := RolledBack, endTime := Some(now), validationErrors := Some(reason))
    }

    /** The fields a successful commit writes. */
    function CompletedAt(now: Time): (s: Session)
      ensures s.status == Completed && s.endTime == Some(now)
      ensures s.(status := status, endTime := endTime) == this
    {
      this.(status := Completed, endTime := Some(now))
    }
  }

  predicate IsOpen(s: Session, bar: BarId)
  {
    s.bar == bar && s.status == InProgress
  }

  /** The bar's most recently started session that is still in progress, if any. */
  function FindOpenSession(ss: seq<Session>, bar: BarId): (k: Option<nat>)
    ensures k.Some? ==> k.value < |ss| && IsOpen(ss[k.value], bar)
    ensures k.Some? ==> forall j :: 0 <= j < |ss| && IsOpen(ss[j], bar) ==> ss[j].startTime <= ss[k.value].startTime
    ensures k.None? <==> forall j :: 0 <= j < |ss| ==> !IsOpen(ss[j], bar)
  {
    if ss == [] then None
    else
      var rest := FindOpenSession(ss[..|ss| - 1], bar);
      var last := ss[|ss| - 1];
      if IsOpen(last, bar) && (rest.None? || ss[rest.value].startTime <= last.startTime) then Some(|ss| - 1)
      else rest
  }

  /** No bar has two sessions in progress at once. */
  predicate OneOpenPerBar(ss: seq<Session>)
  {
    forall i, j :: 0 <= i < j < |ss| && ss[i].bar == ss[j].bar ==> ss[i].status != InProgress || ss[j].status != InProgress
  }

  /** With at most one open session per bar, the lookup finds exactly that one. */
  lemma FindOpenSessionUnique(ss: seq<Session>, k: nat)
    requires OneOpenPerBar(ss) && k < |ss| && ss[k].status == InProgress
    ensures FindOpenSession(ss, ss[k].bar) == Some(k)
  {
    var f := FindOpenSession(ss, ss[k].bar);
    assert f.Some?;
    if f.value < k {
    } else if k < f.value {
    }
  }

  /** Every session belongs to a known bar, and no bar has two sessions in progress. */
  predicate SessionsOk(ss: seq<Session>, bars: set<BarId>)
  {
    OneOpenPerBar(ss) && forall i :: 0 <= i < |ss| ==> ss[i].bar in bars
  }

  predicate StockroomTableOk(rows: seq<StockroomRow>, sessionCount: nat)
  {
    forall r :: r in rows ==> r.session < sessionCount && r.Consistent()
  }

  predicate WellTableOk(rows: seq<WellRow>, sessionCount: nat)
  {
    forall r :: r in rows ==> r.session < sessionCount && r.Consistent()
  }

  predicate SalesTableOk(rows: seq<SalesRow>, sessionCount: nat)
  {
    forall r :: r in rows ==> r.session < sessionCount && r.Consistent()
  }

  /** Opening a session for a bar with none in progress keeps one open session per bar. */
  lemma OpenSessionKeepsSessionsOk(ss: seq<Session>, bars: set<BarId>, s: Session)
    requires SessionsOk(ss, bars) && s.bar in bars && FindOpenSession(ss, s.bar).None?
    ensures SessionsOk(ss + [s], bars)
  {
  }

  /** A session numbered past every record has no records, and the tables stay well formed as the session count grows. */
  lemma NewSessionHasNoRecords(st: seq<StockroomRow>, ds: seq<DistributionRow>, ws: seq<WellRow>, sa: seq<SalesRow>, id: SessionId)
    requires StockroomTableOk(st, id) && DistributionTableOk(ds, id) && WellTableOk(ws, id) && SalesTableOk(sa, id)
    ensures StockroomTableOk(st, id + 1) && DistributionTableOk(ds, id + 1) && WellTableOk(ws, id + 1) && SalesTableOk(sa, id + 1)
    ensures StockroomOf(st, id) == [] && DistributionsOf(ds, id) == [] && WellsOf(ws, id) == [] && SalesOf(sa, id) == []
  {
    FilterDropsAll(st, (s: StockroomRow) => s.session == id);
    FilterDropsAll(ds, (d: DistributionRow) => d.session == id);
    FilterDropsAll(ws, (w: WellRow) => w.session == id);
    FilterDropsAll(sa, (s: SalesRow) => s.session == id);
  }

  /** The inner loop of saveWellInventoryFromForm: the records one product's form cells yield, well by well. */
  method QueueProductWells(form: FormData, id: SessionId, p: ProductId) returns (queued: seq<WellRow>)
    ensures queued == ProductWells(form, id, p, WellNames)
  {
    queued := [];
    var j := 0;
    while j < |WellNames|
      invariant 0 <= j <= |WellNames|
      invariant queued == ProductWells(form, id, p, WellNames[..j])
    {
      var well := WellNames[j];
      var opening := Field(form, Opening, p, well);
      var received := Field(form, Received, p, well);
      var closing := Field(form, Closing, p, well);
      var consumed := opening + received - closing;
      if opening > 0 || received > 0 || closing > 0 {
        var consumedFinal := if consumed >= 0 then consumed else 0;
        queued := queued + [WellRow(id, p, well, opening, received, closing, consumedFinal, "")];
      }
      assert WellNames[..j + 1][..j] == WellNames[..j];
      j := j + 1;
    }
    assert WellNames[..j] == WellNames;
  }

  /** The outer loop of saveWellInventoryFromForm: the records the form yields, product by product. */
  method QueueFormWells(form: FormData, id: SessionId, activeProducts: seq<ProductId>) returns (queued: seq<WellRow>)
    ensures queued == FormWells(form, id, activeProducts)
  {
    queued := [];
    var i := 0;
    while i < |activeProducts|
      invariant 0 <= i <= |activeProducts|
      invariant queued == FormWells(form, id, activeProducts[..i])
    {
      var more := QueueProductWells(form, id, activeProducts[i]);
      queued := queued + more;
      assert activeProducts[..i + 1][..i] == activeProducts[..i];
      i := i + 1;
    }
    assert activeProducts[..i] == activeProducts;
  }

  class InventorySessionService {
    /** The sessions; a session's id is its position. */
    var sessions: seq<Session>
    /** The known bars. */
    const bars: set<BarId>
    /** The price catalog, read only: a bar's price entry per product. */
    const prices: map<(BarId, ProductId), Price>
    var stockroom: seq<StockroomRow>
    var distributions: seq<DistributionRow>
    var wells: seq<WellRow>
    var sales: seq<SalesRow>

    /**
     * The store invariant: one open session per bar, every record belongs to
     * an existing session and has passed its hook, and a session has at most
     * one distribution record per product.
     */
    ghost predicate Valid()
      reads this
    {
      && SessionsOk(sessions, bars)
      && StockroomTableOk(stockroom, |sessions|)
      && DistributionTableOk(distributions, |sessions|)
      && WellTableOk(wells, |sessions|)
      && SalesTableOk(sales, |sessions|)
    }

    /** An empty store over a set of bars and a price catalog. */
    constructor (bars: set<BarId>, prices: map<(BarId, ProductId), Price>)
      ensures Valid()
      ensures this.bars == bars && this.prices == prices
      ensures sessions == [] && stockroom == [] && distributions == [] && wells == [] && sales == []
    {
      this.bars, this.prices := bars, prices;
      sessions, stockroom, distributions, wells, sales := [], [], [], [], [];
    }

    /** getSessionInProgress: the session, provided it exists and is still in progress. */
    function GetSessionInProgress(id: SessionId): (r: Result<Session, Error>)
      reads this
      ensures r.Success? <==> id < |sessions| && sessions[id].status == InProgress
      ensures r.Success? ==> r.value == sessions[id]
      ensures r.Failure? ==> r.error == (if id < |sessions| then InvalidState else NotFound)
    {
      if id >= |sessions| then Failure(NotFound)
      else if sessions[id].status != InProgress then Failure(InvalidState)
      else Success(sessions[id])
    }

    /**
     * initializeSession: a missing bar id is invalid and an unknown bar is not
     * found; a bar with a session in progress gets that session back;
     * otherwise a new session in progress is opened, with no stage records.
     */
    method InitializeSession(barId: Option<BarId>, shiftType: string, notes: string, now: Time) returns (r: Result<SessionId, Error>)
      requires Valid()
      modifies this
      ensures Valid()
      ensures stockroom == old(stockroom) && distributions == old(distributions) && wells == old(wells) && sales == old(sales)
      ensures barId.None? ==> r == Failure(InvalidInput) && sessions == old(sessions)
      ensures barId.Some? && barId.value !in bars ==> r == Failure(NotFound) && sessions == old(sessions)
      ensures barId.Some? && barId.value in bars && FindOpenSession(old(sessions), barId.value).Some? ==>
        r == Success(FindOpenSession(old(sessions), barId.value).value) && sessions == old(sessions)
      ensures barId.Some? && barId.value in bars && FindOpenSession(old(sessions), barId.value).None? ==>
        && r == Success(|old(sessions)|)
        && sessions == old(sessions) + [Session(barId.value, now, None, InProgress, shiftType, notes, None)]
        && StockroomOf(stockroom, r.value) == [] && DistributionsOf(distributions, r.value) == []
        && WellsOf(wells, r.value) == [] && SalesOf(sales, r.value) == []
      ensures r.Success? ==> r.value < |sessions| && IsOpen(sessions[r.value], barId.value)
    {
      if barId.None? {
        return Failure(InvalidInput);
      }
      var bar := barId.value;
      if bar !in bars {
        return Failure(NotFound);
      }
      var existing := FindOpenSession(sessions, bar);
      if existing.Some? {
        return Success(existing.value);
      }
      var id := |sessions|;
      var session := Session(bar, now, None, InProgress, shiftType, notes, None);
      OpenSessionKeepsSessionsOk(sessions, bars, session);
      NewSessionHasNoRecords(stockroom, distributions, wells, sales, id);
      sessions := sessions + [session];
      return Success(id);
    }

    /**
     * saveStockroomInventory: the session's stockroom records are deleted and
     * the submitted ones inserted, so the session then holds exactly the
     * submitted records, each with its transfer derived; other sessions keep
     * theirs.
     */
    method SaveStockroomInventory(id: SessionId, inputs: seq<StockroomRow>) returns (r: Result<(), Error>)
      requires Valid()
      modifies this
      ensures Valid()
      ensures sessions == old(sessions) && distributions == old(distributions) && wells == old(wells) && sales == old(sales)
      ensures GetSessionInProgress(id).Failure? ==> r == Failure(GetSessionInProgress(id).error) && stockroom == old(stockroom)
      ensures GetSessionInProgress(id).Success? ==>
        && r.Success?
        && stockroom == StockroomNotOf(old(stockroom), id) + PersistedStockroom(inputs, id)
        && StockroomOf(stockroom, id) == PersistedStockroom(inputs, id)
        && forall other :: other != id ==> StockroomOf(stockroom, other) == StockroomOf(old(stockroom), other)
    {
      var g := GetSessionInProgress(id);
      if g.Failure? {
        return Failure(g.error);
      }
      var kept := StockroomNotOf(stockroom, id);
      stockroom := kept;
      var i := 0;
      while i < |inputs|
        invariant 0 <= i <= |inputs|
        invariant Valid()
        invariant stockroom == kept + PersistedStockroom(inputs[..i], id)
        invariant sessions == old(sessions) && distributions == old(distributions) && wells == old(wells) && sales == old(sales)
      {
        InsertStockroom(id, inputs[i]);
        PersistedStockroomStep(inputs, id, i);
        i := i + 1;
      }
      assert inputs[..i] == inputs;
      ReplaceStockroom(old(stockroom), PersistedStockroom(inputs, id), id);
      return Success(());
    }

    /** The body of saveStockroomInventory's loop: the record joins the session, passes its hook and is inserted. */
    method InsertStockroom(id: SessionId, input: StockroomRow)
      requires Valid() && id < |sessions|
      modifies this
      ensures Valid()
      ensures sessions == old(sessions) && distributions == old(distributions) && wells == old(wells) && sales == old(sales)
      ensures stockroom == old(stockroom) + [input.(session := id).WithTransferred()]
    {
      var e := new StockroomInventory.FromRow(input);
      e.session := id;
      e.CalculateTransferred();
      stockroom := stockroom + [e.Row()];
    }

    /**
     * createDistributionRecords: each of the session's stockroom records with
     * a positive transfer refreshes its product's distribution (or creates
     * one), with the transfer as quantity and nothing allocated.
     */
    method CreateDistributionRecords(id: SessionId) returns (r: Result<(), Error>)
      requires Valid()
      modifies this
      ensures Valid()
      ensures sessions == old(sessions) && stockroom == old(stockroom) && wells == old(wells) && sales == old(sales)
      ensures GetSessionInProgress(id).Failure? ==> r == Failure(GetSessionInProgress(id).error) && distributions == old(distributions)
      ensures GetSessionInProgress(id).Success? ==>
        && r.Success?
        && distributions == Upsert(old(distributions), id, StockroomOf(stockroom, id))
        && Upserted(old(distributions), id, StockroomOf(stockroom, id), distributions)
    {
      var g := GetSessionInProgress(id);
      if g.Failure? {
        return Failure(g.error);
      }
      var rows := StockroomOf(stockroom, id);
      var i := 0;
      while i < |rows|
        invariant 0 <= i <= |rows|
        invariant distributions == Upsert(old(distributions), id, rows[..i])
        invariant DistributionTableOk(distributions, |sessions|)
        invariant sessions == old(sessions) && stockroom == old(stockroom) && wells == old(wells) && sales == old(sales)
      {
        UpsertDistribution(id, rows[i]);
        UpsertPrefixStep(old(distributions), id, rows, i);
        i := i + 1;
      }
      assert rows[..i] == rows;
      UpsertRefreshesTransfers(old(distributions), id, rows);
      return Success(());
    }

    /** The body of createDistributionRecords' loop for one stockroom record of an open session. */
    method UpsertDistribution(id: SessionId, s: StockroomRow)
      requires DistributionTableOk(distributions, |sessions|) && id < |sessions|
      modifies this
      ensures DistributionTableOk(distributions, |sessions|)
      ensures sessions == old(sessions) && stockroom == old(stockroom) && wells == old(wells) && sales == old(sales)
      ensures distributions == UpsertOne(old(distributions), id, s)
    {
      if s.transferredOut > 0 {
        var found := FindDistribution(distributions, id, s.product);
        if found.Some? {
          var d := new DistributionRecord.FromRow(distributions[found.value]);
          d.quantityFromStockroom, d.totalAllocated := s.transferredOut, 0;
          d.unallocated, d.status := s.transferredOut, PendingAllocation;
          d.CalculateUnallocated();
          distributions := distributions[found.value := d.Row()];
        } else {
          var d := new DistributionRecord.FromRow(DistributionRow(id, s.product, s.transferredOut, 0, s.transferredOut, PendingAllocation, ""));
          d.CalculateUnallocated();
          distributions := distributions + [d.Row()];
        }
      }
      UpsertOneKeepsTableOk(old(distributions), id, s, |sessions|);
    }

    /** updateDistributionAllocation: `q` more allocated to the session's distribution of `p`, which must exist. */
    method UpdateDistributionAllocation(id: SessionId, p: ProductId, q: int) returns (r: Result<(), Error>)
      requires Valid()
      modifies this
      ensures Valid()
      ensures sessions == old(sessions) && stockroom == old(stockroom) && wells == old(wells) && sales == old(sales)
      ensures AddAllocation(old(distributions), id, p, q).None? ==> r == Failure(NotFound) && distributions == old(distributions)
      ensures AddAllocation(old(distributions), id, p, q).Some? ==> r.Success? && distributions == AddAllocation(old(distributions), id, p, q).value
    {
      var found := FindDistribution(distributions, id, p);
      if found.None? {
        return Failure(NotFound);
      }
      var k := found.value;
      var d := new DistributionRecord.FromRow(distributions[k]);
      d.totalAllocated := d.totalAllocated + q;
      d.CalculateUnallocated();
      distributions := distributions[k := d.Row()];
      assert SameKeys(old(distributions), distributions);
      assert forall x :: x in distributions ==> x in old(distributions) || x == d.Row();
      return Success(());
    }

    /** The insert at the head of saveWellInventory's loop: the well record joins the session and passes its hook. */
    method InsertWell(id: SessionId, w: WellRow)
      requires Valid() && id < |sessions|
      modifies this
      ensures Valid()
      ensures sessions == old(sessions) && stockroom == old(stockroom) && distributions == old(distributions) && sales == old(sales)
      ensures wells == old(wells) + [w.(session := id).WithConsumed()]
    {
      var e := new WellInventory.FromRow(w);
      e.session := id;
      e.CalculateConsumed();
      wells := wells + [e.Row()];
    }

    /**
     * saveWellInventory: the wells are inserted after any the session already
     * has, and each positive receipt is added to its product's allocation.
     * A receipt without a distribution fails the whole call, which then
     * leaves the store as it was.
     */
    method SaveWellInventory(id: SessionId, ws: seq<WellRow>) returns (r: Result<(), Error>)
      requires Valid()
      modifies this
      ensures Valid()
      ensures sessions == old(sessions) && stockroom == old(stockroom) && sales == old(sales)
      ensures GetSessionInProgress(id).Failure? ==>
        r == Failure(GetSessionInProgress(id).error) && wells == old(wells) && distributions == old(distributions)
      ensures GetSessionInProgress(id).Success? && Allocate(old(distributions), id, ws).None? ==>
        r == Failure(NotFound) && wells == old(wells) && distributions == old(distributions)
      ensures GetSessionInProgress(id).Success? && Allocate(old(distributions), id, ws).Some? ==>
        && r.Success?
        && wells == old(wells) + PersistedWells(ws, id)
        && distributions == Allocate(old(distributions), id, ws).value
    {
      var g := GetSessionInProgress(id);
      if g.Failure? {
        return Failure(g.error);
      }
      var oldWells, oldDists := wells, distributions;
      var i := 0;
      while i < |ws|
        invariant 0 <= i <= |ws|
        invariant Valid()
        invariant wells == oldWells + PersistedWells(ws[..i], id)
        invariant Allocate(oldDists, id, ws[..i]) == Some(distributions)
        invariant sessions == old(sessions) && stockroom == old(stockroom) && sales == old(sales)
      {
        InsertWell(id, ws[i]);
        SaveWellStep(oldDists, id, ws, i);
        if ws[i].receivedFromDistribution > 0 {
          var u := UpdateDistributionAllocation(id, ws[i].product, ws[i].receivedFromDistribution);
          if u.Failure? {
            AllocateFailsFrom(oldDists, id, ws, i);
            wells, distributions := oldWells, oldDists;
            return Failure(NotFound);
          }
        }
        i := i + 1;
      }
      assert ws[..i] == ws;
      return Success(());
    }

    /**
     * saveWellInventoryFromForm: the session's wells are deleted, its
     * allocations reset, and the wells the form yields for the active
     * products are saved through saveWellInventory; on failure the whole
     * call leaves the store as it was. Afterwards each of the session's
     * distributions holds exactly the positive receipts of its product's
     * newly saved wells.
     */
    method SaveWellInventoryFromForm(id: SessionId, form: FormData, activeProducts: seq<ProductId>) returns (r: Result<(), Error>)
      requires Valid()
      modifies this
      ensures Valid()
      ensures sessions == old(sessions) && stockroom == old(stockroom) && sales == old(sales)
      ensures GetSessionInProgress(id).Failure? ==>
        r == Failure(GetSessionInProgress(id).error) && wells == old(wells) && distributions == old(distributions)
      ensures GetSessionInProgress(id).Success? ==>
        var queued := FormWells(form, id, activeProducts);
        var reset := ResetAllocations(old(distributions), id);
        if Allocate(reset, id, queued).None? then
          r == Failure(NotFound) && wells == old(wells) && distributions == old(distributions)
        else
          && r.Success?
          && wells == WellsNotOf(old(wells), id) + PersistedWells(queued, id)
          && distributions == Allocate(reset, id, queued).value
      ensures r.Success? ==>
        && |distributions| == |old(distributions)|
        && forall k :: 0 <= k < |distributions| && distributions[k].session == id ==>
             distributions[k].totalAllocated == SumFor(AllocatedEntries(WellsOf(wells, id)), distributions[k].product)
    {
      var g := GetSessionInProgress(id);
      if g.Failure? {
        return Failure(g.error);
      }
      var oldWells, oldDists := wells, distributions;
      wells := WellsNotOf(wells, id);

      ResetSessionAllocations(id);
      var queued := QueueFormWells(form, id, activeProducts);
      var saved := SaveWellInventory(id, queued);
      if saved.Failure? {
        wells, distributions := oldWells, oldDists;
        return saved;
      }
      ReplaceWells(oldWells, PersistedWells(queued, id), id);
      PersistKeepsAllocations(queued, id);
      FormAllocationsReplace(oldDists, id, queued);
      AllocateKeepsKeys(ResetAllocations(oldDists, id), id, queued);
      assert SameKeys(oldDists, ResetAllocations(oldDists, id));
      return Success(());
    }

    /** The reset loop of saveWellInventoryFromForm: each of the session's distributions gets its allocation zeroed and passes its hook. */
    method ResetSessionAllocations(id: SessionId)
      requires DistributionTableOk(distributions, |sessions|)
      modifies this
      ensures DistributionTableOk(distributions, |sessions|)
      ensures sessions == old(sessions) && stockroom == old(stockroom) && wells == old(wells) && sales == old(sales)
      ensures distributions == ResetAllocations(old(distributions), id)
    {
      var k := 0;
      while k < |distributions|
        invariant 0 <= k <= |distributions| == |old(distributions)|
        invariant forall j :: 0 <= j < k ==> distributions[j] == ResetAllocations(old(distributions), id)[j]
        invariant forall j :: k <= j < |distributions| ==> distributions[j] == old(distributions)[j]
        invariant sessions == old(sessions) && stockroom == old(stockroom) && wells == old(wells) && sales == old(sales)
      {
        if distributions[k].session == id {
          var d := new DistributionRecord.FromRow(distributions[k]);
          d.totalAllocated := 0;
          d.CalculateUnallocated();
          distributions := distributions[k := d.Row()];
        }
        k := k + 1;
      }
      ResetKeepsTableOk(old(distributions), id, |sessions|);
    }

    /** Validation 1 as the loop runs it: the first stockroom record of the session that fails. */
    method ValidateStockroomToDistribution(id: SessionId) returns (f: Option<ValidationFailure>)
      ensures f == Validation1(StockroomOf(stockroom, id), DistributionsOf(distributions, id))
    {
      var ss := StockroomOf(stockroom, id);
      var ds := DistributionsOf(distributions, id);
      var i := 0;
      while i < |ss|
        invariant 0 <= i <= |ss|
        invariant forall j :: 0 <= j < i ==> StockroomCheck(ss[j], ds).None?
      {
        var s := ss[i];
        var k := FirstForProduct(ds, s.product);
        if k.None? && s.transferredOut > 0 {
          FirstFailureAt(ss, (x: StockroomRow) => StockroomCheck(x, ds), i);
          return Some(NoDistribution(s.product));
        }
        if k.Some? && s.transferredOut != ds[k.value].quantityFromStockroom {
          FirstFailureAt(ss, (x: StockroomRow) => StockroomCheck(x, ds), i);
          return Some(QuantityMismatch(s.product, s.transferredOut, ds[k.value].quantityFromStockroom));
        }
        i := i + 1;
      }
      return None;
    }

    /** Validation 2 as the loop runs it: the first distribution of the session whose allocation differs from its wells' receipts. */
    method ValidateDistributionToWells(id: SessionId) returns (f: Option<ValidationFailure>)
      ensures f == Validation2(DistributionsOf(distributions, id), wells, id)
    {
      var ds := DistributionsOf(distributions, id);
      var ws := wells;
      var i := 0;
      while i < |ds|
        invariant 0 <= i <= |ds|
        invariant forall j :: 0 <= j < i ==> AllocationCheck(ds[j], ws, id).None?
      {
        var received := SumReceivedBySessionAndProduct(ws, id, ds[i].product);
        if ds[i].totalAllocated != received {
          FirstFailureAt(ds, (d: DistributionRow) => AllocationCheck(d, ws, id), i);
          return Some(AllocationMismatch(ds[i].product, ds[i].totalAllocated, received));
        }
        i := i + 1;
      }
      return None;
    }

    /** Validation 3 as the loop runs it: the first distribution of the session with stock left over. */
    method ValidateNoUnallocatedStock(id: SessionId) returns (f: Option<ValidationFailure>)
      ensures f == Validation3(DistributionsOf(distributions, id))
    {
      var ds := DistributionsOf(distributions, id);
      var i := 0;
      while i < |ds|
        invariant 0 <= i <= |ds|
        invariant forall j :: 0 <= j < i ==> UnallocatedCheck(ds[j]).None?
      {
        if ds[i].unallocated > 0 {
          FirstFailureAt(ds, UnallocatedCheck, i);
          return Some(UnallocatedStock(ds[i].product, ds[i].unallocated));
        }
        i := i + 1;
      }
      return None;
    }

    /** validatePricesExist: the product of the session's first well record the bar has no price for. */
    method ValidatePricesExist(id: SessionId, bar: BarId) returns (missing: Option<ProductId>)
      ensures missing == FirstUnpriced(WellsOf(wells, id), bar, prices)
    {
      var ws := WellsOf(wells, id);
      var i := 0;
      while i < |ws|
        invariant 0 <= i <= |ws|
        invariant forall j :: 0 <= j < i ==> (bar, ws[j].product) in prices
      {
        if (bar, ws[i].product) !in prices {
          FirstUnpricedAt(ws, bar, prices, i);
          return Some(ws[i].product);
        }
        i := i + 1;
      }
      return None;
    }

    /**
     * generateSalesRecords: one sales record per product whose consumption
     * over the session's wells adds up to more than zero, in no particular
     * order. Its missing-price failure cannot happen after the price check,
     * so a price for every consumed product is required here.
     */
    method GenerateSalesRecords(id: SessionId, bar: BarId)
      requires Valid() && id < |sessions|
      requires forall p :: p in ConsumedByProduct(WellsOf(wells, id)) ==> (bar, p) in prices
      modifies this
      ensures Valid()
      ensures sessions == old(sessions) && stockroom == old(stockroom) && distributions == old(distributions) && wells == old(wells)
      ensures |old(sales)| <= |sales| && sales[..|old(sales)|] == old(sales)
      ensures GeneratedSales(sales[|old(sales)|..], id, ConsumedByProduct(WellsOf(wells, id)), bar, prices)
    {
      var m := ConsumedByProduct(WellsOf(wells, id));
      SaveSales(id, bar, m);
    }

    /** The loop of generateSalesRecords over the per-product totals `m`, in no particular order. */
    method SaveSales(id: SessionId, bar: BarId, m: map<ProductId, int>)
      requires Valid() && id < |sessions|
      requires forall p :: p in m ==> (bar, p) in prices
      modifies this
      ensures Valid()
      ensures sessions == old(sessions) && stockroom == old(stockroom) && distributions == old(distributions) && wells == old(wells)
      ensures |old(sales)| <= |sales| && sales[..|old(sales)|] == old(sales)
      ensures GeneratedSales(sales[|old(sales)|..], id, m, bar, prices)
    {
      var todo := m.Keys;
      ghost var added: seq<SalesRow> := [];
      while todo != {}
        invariant todo <= m.Keys
        invariant Valid()
        invariant sales == old(sales) + added
        invariant sessions == old(sessions) && stockroom == old(stockroom) && distributions == old(distributions) && wells == old(wells)
        invariant PartlyGenerated(added, id, m, bar, prices, todo)
        decreases |todo|
      {
        var p :| p in todo;
        GenerationStep(added, id, m, bar, prices, todo, p);
        todo := todo - {p};
        var total := m[p];
        if total > 0 {
          InsertSale(id, p, total, prices[(bar, p)]);
          added := added + [SaleFor(id, p, total, prices[(bar, p)])];
        }
      }
      GenerationDone(added, id, m, bar, prices);
      assert sales[|old(sales)|..] == added;
    }

    /** The body of generateSalesRecords' loop for a product with a positive total: build the record, run its hook, save it. */
    method InsertSale(id: SessionId, p: ProductId, total: int, price: Price)
      requires Valid() && id < |sessions|
      modifies this
      ensures Valid()
      ensures sessions == old(sessions) && stockroom == old(stockroom) && distributions == old(distributions) && wells == old(wells)
      ensures sales == old(sales) + [SaleFor(id, p, total, price)]
    {
      var cost := if price.costPrice.Some? then price.costPrice.value else 0;
      var e := new SalesRecord(id, p, total, price.sellingPrice, cost);
      e.CalculateTotals();
      sales := sales + [e.Row()];
    }

    /**
     * commitSession: Validation 1, 2 and 3 in that order; the first failure
     * rolls the session back with its description and fails. Then a bar
     * price must exist for every well record's product, or the commit fails
     * with nothing written. Otherwise the sales are generated and the
     * session is completed.
     */
    method CommitSession(id: SessionId, now: Time) returns (r: Result<(), Error>)
      requires Valid()
      modifies this
      ensures Valid()
      ensures stockroom == old(stockroom) && distributions == old(distributions) && wells == old(wells)
      ensures old(GetSessionInProgress(id)).Failure? ==>
        r == Failure(old(GetSessionInProgress(id)).error) && sessions == old(sessions) && sales == old(sales)
      ensures old(GetSessionInProgress(id)).Success? ==>
        var v := CommitValidation(StockroomOf(stockroom, id), DistributionsOf(distributions, id), wells, id);
        var bar := old(sessions)[id].bar;
        var missing := FirstUnpriced(WellsOf(wells, id), bar, prices);
        if v.Some? then
          && r == Failure(ValidationFailed(v.value))
          && sessions == old(sessions)[id := old(sessions)[id].RolledBackWith(Describe(v.value), now)]
          && sales == old(sales)
        else if missing.Some? then
          r == Failure(PricingMissing(missing.value, bar)) && sessions == old(sessions) && sales == old(sales)
        else
          && r.Success?
          && sessions == old(sessions)[id := old(sessions)[id].CompletedAt(now)]
          && |old(sales)| <= |sales| && sales[..|old(sales)|] == old(sales)
          && GeneratedSales(sales[|old(sales)|..], id, ConsumedByProduct(WellsOf(wells, id)), bar, prices)
    {
      var g := GetSessionInProgress(id);
      if g.Failure? {
        return Failure(g.error);
      }
      var session := g.value;

      var v1 := ValidateStockroomToDistribution(id);
      if v1.Some? {
        var _ := RollbackSession(id, Describe(v1.value), now);
        return Failure(ValidationFailed(v1.value));
      }
      var v2 := ValidateDistributionToWells(id);
      if v2.Some? {
        var _ := RollbackSession(id, Describe(v2.value), now);
        return Failure(ValidationFailed(v2.value));
      }
      var v3 := ValidateNoUnallocatedStock(id);
      if v3.Some? {
        var _ := RollbackSession(id, Describe(v3.value), now);
        return Failure(ValidationFailed(v3.value));
      }

      var missing := ValidatePricesExist(id, session.bar);
      if missing.Some? {
        return Failure(PricingMissing(missing.value, session.bar));
      }
      PriceCheckCoversSales(WellsOf(wells, id), session.bar, prices);
      GenerateSalesRecords(id, session.bar);
      sessions := sessions[id := session.CompletedAt(now)];
      return Success(());
    }

    /** rollbackSession: any existing session, whatever its status, is rolled back with an end time and the reason. */
    method RollbackSession(id: SessionId, reason: string, now: Time) returns (r: Result<(), Error>)
      requires Valid()
      modifies this
      ensures Valid()
      ensures stockroom == old(stockroom) && distributions == old(distributions) && wells == old(wells) && sales == old(sales)
      ensures id >= |old(sessions)| ==> r == Failure(NotFound) && sessions == old(sessions)
      ensures id < |old(sessions)| ==> r.Success? && sessions == old(sessions)[id := old(sessions)[id].RolledBackWith(reason, now)]
    {
      if id >= |sessions| {
        return Failure(NotFound);
      }
      sessions := sessions[id := sessions[id].RolledBackWith(reason, now)];
      return Success(());
    }

    /** getDistributionMapForSession: a key for exactly the products the session has distributions of. */
    function GetDistributionMapForSession(id: SessionId): (m: map<ProductId, int>)
      reads this
      ensures forall p :: p in m <==> FindDistribution(distributions, id, p).Some?
    {
      DistributionMapKeys(distributions, id);
      DistributionMap(distributions, id)
    }
  }
}
