/**
 * The repository queries the workflow relies on, as functions over the
 * stored row sequences (StockroomInventoryRepository,
 * DistributionRecordRepository, WellInventoryRepository).
 */
module Queries {
  import opened Common
  import opened Grouping
  import opened Stockroom
  import opened Distribution
  import opened Well
  import opened Sales

  /** The rows `keep` accepts, in stored order. */
  function Filter<T(!new)>(s: seq<T>, keep: T -> bool): (r: seq<T>)
    ensures |r| <= |s|
    ensures forall x :: x in r <==> x in s && keep(x)
  {
    if s == [] then []
    else Filter(s[..|s| - 1], keep) + (if keep(s[|s| - 1]) then [s[|s| - 1]] else [])
  }

  lemma {:induction false} FilterConcat<T(!new)>(a: seq<T>, b: seq<T>, keep: T -> bool)
    ensures Filter(a + b, keep) == Filter(a, keep) + Filter(b, keep)
  {
    if b == [] {
      assert a + b == a;
    } else {
      assert (a + b)[..|a + b| - 1] == a + b[..|b| - 1];
      FilterConcat(a, b[..|b| - 1], keep);
    }
  }

  lemma {:induction false} FilterKeepsAll<T(!new)>(s: seq<T>, keep: T -> bool)
    requires forall x :: x in s ==> keep(x)
    ensures Filter(s, keep) == s
  {
    if s != [] {
      FilterKeepsAll(s[..|s| - 1], keep);
      assert s == s[..|s| - 1] + [s[|s| - 1]];
    }
  }

  lemma FilterDropsAll<T(!new)>(s: seq<T>, keep: T -> bool)
    requires forall x :: x in s ==> !keep(x)
    ensures Filter(s, keep) == []
  {
    if Filter(s, keep) != [] {
      assert Filter(s, keep)[0] in Filter(s, keep);
    }
  }

  // ---- findBySessionSessionId and deleteBySessionSessionId ----

  function StockroomOf(rows: seq<StockroomRow>, id: SessionId): seq<StockroomRow>
  {
    Filter(rows, (r: StockroomRow) => r.session == id)
  }

  function StockroomNotOf(rows: seq<StockroomRow>, id: SessionId): seq<StockroomRow>
  {
    Filter(rows, (r: StockroomRow) => r.session != id)
  }

  function DistributionsOf(rows: seq<DistributionRow>, id: SessionId): seq<DistributionRow>
  {
    Filter(rows, (r: DistributionRow) => r.session == id)
  }

  function WellsOf(rows: seq<WellRow>, id: SessionId): seq<WellRow>
  {
    Filter(rows, (r: WellRow) => r.session == id)
  }

  function WellsNotOf(rows: seq<WellRow>, id: SessionId): seq<WellRow>
  {
    Filter(rows, (r: WellRow) => r.session != id)
  }

  function SalesOf(rows: seq<SalesRow>, id: SessionId): seq<SalesRow>
  {
    Filter(rows, (r: SalesRow) => r.session == id)
  }

  /** Deleting a session's stockroom rows and inserting new ones of that session: the session then holds exactly the new rows, and every other session keeps its own. */
  lemma {:induction false} ReplaceStockroom(old_: seq<StockroomRow>, added: seq<StockroomRow>, id: SessionId)
    requires forall r :: r in added ==> r.session == id
    ensures StockroomOf(StockroomNotOf(old_, id) + added, id) == added
    ensures forall other :: other != id ==> StockroomOf(StockroomNotOf(old_, id) + added, other) == StockroomOf(old_, other)
  {
    var kept := StockroomNotOf(old_, id);
    FilterConcat(kept, added, (r: StockroomRow) => r.session == id);
    FilterDropsAll(kept, (r: StockroomRow) => r.session == id);
    FilterKeepsAll(added, (r: StockroomRow) => r.session == id);
    forall other | other != id
      ensures StockroomOf(kept + added, other) == StockroomOf(old_, other)
    {
      FilterConcat(kept, added, (r: StockroomRow) => r.session == other);
      FilterDropsAll(added, (r: StockroomRow) => r.session == other);
      FilterOfFilter(old_, (r: StockroomRow) => r.session != id, (r: StockroomRow) => r.session == other);
    }
  }

  /** Filtering by a narrower test after a wider one is filtering by the narrower test alone. */
  lemma {:induction false} FilterOfFilter<T(!new)>(s: seq<T>, wide: T -> bool, narrow: T -> bool)
    requires forall x :: narrow(x) ==> wide(x)
    ensures Filter(Filter(s, wide), narrow) == Filter(s, narrow)
  {
    if s != [] {
      var init, last := s[..|s| - 1], s[|s| - 1];
      FilterOfFilter(init, wide, narrow);
      FilterConcat(Filter(init, wide), if wide(last) then [last] else [], narrow);
      assert Filter([last], narrow) == Filter([], narrow) + (if narrow(last) then [last] else []);
    }
  }

  /** Deleting a session's well rows and inserting new ones of that session: the session then holds exactly the new rows. */
  lemma ReplaceWells(old_: seq<WellRow>, added: seq<WellRow>, id: SessionId)
    requires forall r :: r in added ==> r.session == id
    ensures WellsOf(WellsNotOf(old_, id) + added, id) == added
    ensures forall other :: other != id ==> WellsOf(WellsNotOf(old_, id) + added, other) == WellsOf(old_, other)
  {
    var kept := WellsNotOf(old_, id);
    FilterConcat(kept, added, (r: WellRow) => r.session == id);
    FilterDropsAll(kept, (r: WellRow) => r.session == id);
    FilterKeepsAll(added, (r: WellRow) => r.session == id);
    forall other | other != id
      ensures WellsOf(kept + added, other) == WellsOf(old_, other)
    {
      FilterConcat(kept, added, (r: WellRow) => r.session == other);
      FilterDropsAll(added, (r: WellRow) => r.session == other);
      FilterOfFilter(old_, (r: WellRow) => r.session != id, (r: WellRow) => r.session == other);
    }
  }

  /** Inserting well rows without deleting: the session keeps its earlier rows and gains the new ones. */
  lemma AppendWells(old_: seq<WellRow>, added: seq<WellRow>, id: SessionId)
    requires forall r :: r in added ==> r.session == id
    ensures WellsOf(old_ + added, id) == WellsOf(old_, id) + added
  {
    FilterConcat(old_, added, (r: WellRow) => r.session == id);
    FilterKeepsAll(added, (r: WellRow) => r.session == id);
  }

  // ---- findBySessionSessionIdAndProductProductId on distributions ----

  /** The position of the distribution record of session `id` and product `p`, if there is one. */
  function FindDistribution(ds: seq<DistributionRow>, id: SessionId, p: ProductId): (k: Option<nat>)
    ensures k.Some? ==> k.value < |ds| && ds[k.value].session == id && ds[k.value].product == p
    ensures k.None? <==> forall j :: 0 <= j < |ds| ==> !(ds[j].session == id && ds[j].product == p)
  {
    if ds == [] then None
    else if ds[0].session == id && ds[0].product == p then Some(0)
    else match FindDistribution(ds[1..], id, p)
      case None => None
      case Some(k) => Some(k + 1)
  }

  /** The (session, product) pair of a distribution record is unique: the repository's Optional lookup relies on it. */
  predicate UniqueDistributions(ds: seq<DistributionRow>)
  {
    forall i, j :: 0 <= i < j < |ds| ==> ds[i].session != ds[j].session || ds[i].product != ds[j].product
  }

  /** With unique keys, the lookup finds the one record of that key. */
  lemma FindDistributionUnique(ds: seq<DistributionRow>, k: nat)
    requires UniqueDistributions(ds) && k < |ds|
    ensures FindDistribution(ds, ds[k].session, ds[k].product) == Some(k)
  {
  }

  // ---- WellInventoryRepository sums ----

  function ReceivedEntries(ws: seq<WellRow>): (es: seq<Entry>)
    ensures |es| == |ws|
  {
    seq(|ws|, i requires 0 <= i < |ws| => (ws[i].product, ws[i].receivedFromDistribution))
  }

  function ConsumedEntries(ws: seq<WellRow>): (es: seq<Entry>)
    ensures |es| == |ws|
  {
    seq(|ws|, i requires 0 <= i < |ws| => (ws[i].product, ws[i].consumed))
  }

  /** COALESCE(SUM(receivedFromDistribution), 0) over the wells of one session and product. */
  function SumReceivedBySessionAndProduct(wells: seq<WellRow>, id: SessionId, p: ProductId): int
  {
    SumFor(ReceivedEntries(WellsOf(wells, id)), p)
  }

  /** COALESCE(SUM(consumed), 0) over the wells of one session and product. */
  function SumConsumedBySessionAndProduct(wells: seq<WellRow>, id: SessionId, p: ProductId): int
  {
    SumFor(ConsumedEntries(WellsOf(wells, id)), p)
  }
}
