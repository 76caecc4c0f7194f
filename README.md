# Bar inventory shift reconciliation, modelled in Dafny

This project models the core of a bar-inventory application: the staged
shift-reconciliation workflow of one bar session.

1. A shift is opened as an inventory session for a bar. At most one session
   per bar is open at a time; opening one while another is in progress
   returns the open one.
2. The stockroom count is saved. Each stockroom record derives
   `transferredOut = opening + received - closing`.
3. Distribution records are created or refreshed, one per product with a
   positive transfer.
4. The well (service point) counts are saved. Each well's positive
   `receivedFromDistribution` is added to its product's distribution
   allocation, and each well derives `consumed = opening + received - closing`.
5. The session is committed. Three conservation checks run in order:
   - stockroom against distribution;
   - distribution against wells;
   - no unallocated stock.

   A failure marks the session ROLLED_BACK with a message and fails the call.
   Then a price check runs, one sales record is generated per product with
   positive consumption, and the session becomes COMPLETED.
6. A report service reduces lists of sales records to daily totals, monthly
   per-product revenue and a per-product summary.

## Model structure

- The store is `SessionService.InventorySessionService`, a class with one
  field per table:
  - the sessions (a session's id is its index);
  - the stockroom, distribution, well and sales rows, each carrying a
    session id and a product id.
- The store also holds the known bars and the bar price catalog. These are
  read-only inputs.
- Each workflow operation is a method that changes those fields. Its
  `ensures` gives the new tables as functions of the old ones. The functions
  live in `StageWrites` and `Reconciliation`, and the workflow's properties
  are proved there as lemmas.
- Each stage entity (`StockroomInventory`, `DistributionRecord`,
  `WellInventory`, `SalesRecord`) is a class whose hook method recomputes
  its derived fields in place. The hook is run explicitly before every
  store write. The stored value is a datatype row, and `Consistent()` says
  its derived fields agree with its inputs.
- Repository queries are functions over the row sequences in `Queries`. The
  COALESCE sums (0 over no rows) are `SumFor` in `Grouping`.
- Decimal quantities are exact integers in hundredths. Revenue, cost and
  profit, being products of two hundredths values, are in ten-thousandths.

Where the code and its design description disagree, the model follows the
code:

- A well's stored `consumed` is not clamped at zero. The form path clamps
  it when building the record, but the persistence hook recomputes it from
  opening, received and closing (`Well.ConsumedNotClamped`).
- Validation 3 rejects only positive `unallocated`. Over-allocation passes
  all three checks (`Reconciliation.OverAllocationPassesAllChecks`).
- A missing price at commit fails the call without marking the session
  ROLLED_BACK. The price check covers every well product, including
  products with no consumption.
- Saving wells directly neither deletes the session's earlier wells nor
  resets allocations. Only the form path does both.
- A distribution's status after a partial allocation depends on its history
  (`Distribution.StatusDependsOnHistory`).

## Model

| member | source | states |
|---|---|---|
| Stockroom.StockroomRow.WithTransferred | src/main/java/com/barinventory/entity/StockroomInventory.java:68-70 | the recomputed row is consistent (transferredOut = opening + received - closing) and every other field is unchanged |
| Stockroom.TransferredNotClamped | src/main/java/com/barinventory/entity/StockroomInventory.java:69 | transferredOut is negative when closing exceeds opening + received: no clamp |
| Stockroom.WithTransferredIdempotent | src/main/java/com/barinventory/entity/StockroomInventory.java:68-70 | the recompute leaves a consistent row alone and is idempotent |
| Stockroom.StockroomInventory.FromRow | src/main/java/com/barinventory/entity/StockroomInventory.java:33-63 | the entity object holds exactly the given row's fields |
| Stockroom.StockroomInventory.CalculateTransferred | src/main/java/com/barinventory/entity/StockroomInventory.java:66-70 | the hook updates the object in place to the recomputed row |
| Well.WellRow.WithConsumed | src/main/java/com/barinventory/entity/WellInventory.java:71-75 | the recomputed row is consistent (consumed = opening + received - closing) and every other field, the well name included, is unchanged |
| Well.ConsumedNotClamped | src/main/java/com/barinventory/entity/WellInventory.java:72-74 | consumed is negative when closing exceeds opening + received: no clamp |
| Well.WithConsumedIdempotent | src/main/java/com/barinventory/entity/WellInventory.java:71-75 | the recompute leaves a consistent row alone and is idempotent, so it overrides any consumed value set before saving |
| Well.WellInventory.FromRow | src/main/java/com/barinventory/entity/WellInventory.java:33-67 | the entity object holds exactly the given row's fields |
| Well.WellInventory.CalculateConsumed | src/main/java/com/barinventory/entity/WellInventory.java:69-75 | the hook updates the object in place to the recomputed row |
| Distribution.DistributionRow.WithUnallocated | src/main/java/com/barinventory/entity/DistributionRecord.java:72-81 | the recomputed row is consistent (unallocated = quantityFromStockroom - totalAllocated; ALLOCATED when unallocated is 0 and allocation positive; PENDING when allocation is 0); only unallocated and status change; in every other case the previous status is kept |
| Distribution.WithUnallocatedIdempotent | src/main/java/com/barinventory/entity/DistributionRecord.java:72-81 | the recompute leaves a consistent row alone and is idempotent |
| Distribution.StatusDependsOnHistory | src/main/java/com/barinventory/entity/DistributionRecord.java:74-81 | two rows with equal quantities end in different statuses (over-allocated directly stays PENDING, via full allocation stays ALLOCATED) |
| Distribution.DistributionRecord.FromRow | src/main/java/com/barinventory/entity/DistributionRecord.java:36-68 | the entity object holds exactly the given row's fields |
| Distribution.DistributionRecord.CalculateUnallocated | src/main/java/com/barinventory/entity/DistributionRecord.java:70-81 | the hook updates the object in place to the recomputed row |
| Sales.SalesRow.WithTotals | src/main/java/com/barinventory/entity/SalesRecord.java:50-54 | the recomputed row is consistent (revenue = quantity * selling, cost = quantity * cost, profit = revenue - cost) and quantity and prices are unchanged |
| Sales.ProfitIsMargin | src/main/java/com/barinventory/entity/SalesRecord.java:53 | on a consistent row, profit = quantitySold * (selling - cost) |
| Sales.TotalsNonNegative | src/main/java/com/barinventory/entity/SalesRecord.java:51-52 | with non-negative quantity and prices, revenue and cost are non-negative |
| Sales.WithTotalsIdempotent | src/main/java/com/barinventory/entity/SalesRecord.java:50-54 | the recompute leaves a consistent row alone and is idempotent |
| Sales.SalesRecord.constructor | src/main/java/com/barinventory/service/InventorySessionService.java:343-349 | a built sales record holds session, product, quantity and prices, with totals unset until the hook runs |
| Sales.SalesRecord.CalculateTotals | src/main/java/com/barinventory/entity/SalesRecord.java:48-54 | the hook updates the object in place to the recomputed row |
| Grouping.SumFor | src/main/java/com/barinventory/repository/WellInventoryRepository.java:20-24 | the COALESCE sum over one product's entries is 0 when the product has none |
| Grouping.GroupSum | src/main/java/com/barinventory/service/ReportService.java:100-106 | the grouped map has a key exactly for each product that occurs, holding the sum of that product's amounts |
| Grouping.Keys | src/main/java/com/barinventory/service/ReportService.java:100-106 | the group keys, each once, are exactly the products that occur |
| Grouping.GroupsAddUpToTotal | src/main/java/com/barinventory/service/ReportService.java:95-106 | the per-product group sums add up to the overall sum |
| Queries.Filter | src/main/java/com/barinventory/repository/StockroomInventoryRepository.java:13 | the rows a query returns are exactly the stored rows it accepts, no more of them than stored |
| Queries.FilterOfFilter | src/main/java/com/barinventory/service/InventorySessionService.java:113-114 | querying the rows a delete kept by a narrower test is querying the original rows by that test |
| Queries.ReplaceStockroom | src/main/java/com/barinventory/service/InventorySessionService.java:113-119 | after delete-then-insert, the session's stockroom rows are exactly the inserted ones and every other session keeps its own |
| Queries.ReplaceWells | src/main/java/com/barinventory/service/InventorySessionService.java:426 | after delete-then-insert, the session's well rows are exactly the inserted ones and every other session keeps its own |
| Queries.AppendWells | src/main/java/com/barinventory/service/InventorySessionService.java:485-487 | inserting without deleting keeps the session's earlier well rows ahead of the new ones |
| Queries.FindDistribution | src/main/java/com/barinventory/repository/DistributionRecordRepository.java:15-16 | the lookup finds a record of that session and product, and finds none exactly when none exists |
| Queries.FindDistributionUnique | src/main/java/com/barinventory/repository/DistributionRecordRepository.java:15-16 | with unique (session, product) keys, the lookup returns that key's one record |
| StageWrites.PersistedStockroom | src/main/java/com/barinventory/service/InventorySessionService.java:116-119 | every inserted stockroom row belongs to the session and passed the hook, one per submitted record |
| StageWrites.LastTransfer | src/main/java/com/barinventory/service/InventorySessionService.java:136-137 | a product's last positive transfer is positive, and there is none exactly when no record of it transfers out |
| StageWrites.RefreshTwice | src/main/java/com/barinventory/service/InventorySessionService.java:144-151 | refreshing a distribution twice is refreshing it with the second transfer, so the last stockroom record of a product wins |
| StageWrites.UpsertOneKeepsTableOk | src/main/java/com/barinventory/service/InventorySessionService.java:136-165 | one upsert keeps (session, product) keys unique and every row consistent |
| StageWrites.UpsertRefreshesTransfers | src/main/java/com/barinventory/service/InventorySessionService.java:136-165 | createDistributionRecords, all inputs: each transferred product has exactly one distribution with quantity = its transfer, nothing allocated, unallocated = transfer and status PENDING; untransferred products' records are untouched |
| StageWrites.AllocatedIsReceived | src/main/java/com/barinventory/service/InventorySessionService.java:489-494 | with no negative receipt, what the wells allocate is exactly what they received |
| StageWrites.AllocatedNonNegative | src/main/java/com/barinventory/service/InventorySessionService.java:489-494 | no product is allocated a negative amount, since only positive receipts are added |
| StageWrites.AllocateKeepsKeys | src/main/java/com/barinventory/service/InventorySessionService.java:178-186 | allocation changes no distribution's session or product |
| StageWrites.AllocateSucceedsIff | src/main/java/com/barinventory/service/InventorySessionService.java:178-181 | saving wells succeeds exactly when every well with a positive receipt has a distribution of its product |
| StageWrites.AllocateFailsFrom | src/main/java/com/barinventory/service/InventorySessionService.java:179-181 | once one allocation finds no distribution, the whole call fails |
| StageWrites.AllocateAddsReceipts | src/main/java/com/barinventory/service/InventorySessionService.java:485-495 | after saving wells, each of the session's distributions has gained the sum of its product's positive receipts, passed the hook and kept its key; a distribution whose product received nothing is unchanged, status included; other sessions are untouched |
| StageWrites.ResetKeepsTableOk | src/main/java/com/barinventory/service/InventorySessionService.java:426-433 | zeroing the session's allocations keeps keys unique and rows consistent |
| StageWrites.FormAllocationsReplace | src/main/java/com/barinventory/service/InventorySessionService.java:426-477 | on the form path each distribution's allocation equals the receipts of only the newly saved wells, whatever it held before, and unallocated is quantity minus that |
| StageWrites.ParseDecimal | src/main/java/com/barinventory/service/InventorySessionService.java:500-502 | a missing or empty field reads as 0, a number as itself |
| StageWrites.ProductWellsFromForm | src/main/java/com/barinventory/service/InventorySessionService.java:437-470 | every queued well of a product is at BAR_1, BAR_2 or SERVICE_BAR, has a positive opening, received or closing read from the form, and a clamped consumed |
| StageWrites.FormWellsFromForm | src/main/java/com/barinventory/service/InventorySessionService.java:435-470 | every queued well is of an active product and read from the form as above |
| StageWrites.ProductWellsCover | src/main/java/com/barinventory/service/InventorySessionService.java:438-470 | conversely, every well of a product whose opening, received or closing field is positive yields a queued record for that product and well |
| StageWrites.FormWellsCover | src/main/java/com/barinventory/service/InventorySessionService.java:435-470 | every data-bearing cell of an active product at BAR_1, BAR_2 or SERVICE_BAR yields a queued record, so no entered count is dropped |
| StageWrites.PersistedWells | src/main/java/com/barinventory/service/InventorySessionService.java:485-487 | every inserted well row belongs to the session and passed the hook, one per submitted record |
| StageWrites.PersistKeepsAllocations | src/main/java/com/barinventory/service/InventorySessionService.java:486-494 | the hook does not change what a well allocates, so the allocation uses the received amounts of the stored rows |
| Reconciliation.FirstFailure | src/main/java/com/barinventory/service/InventorySessionService.java:247-271 | a check loop passes exactly when every element passes, and otherwise reports the first failing element's failure |
| Reconciliation.FirstForProduct | src/main/java/com/barinventory/service/InventorySessionService.java:250-253 | the find-first picks the first distribution of the product, and none exactly when there is none |
| Reconciliation.SessionProductsDistinct | src/main/java/com/barinventory/repository/DistributionRecordRepository.java:15-16 | one session's distributions have distinct products when the table's keys are unique |
| Reconciliation.Validation1Passes | src/main/java/com/barinventory/service/InventorySessionService.java:243-272 | Validation 1 passes iff each positive transfer has a distribution and every distribution of a stockroom product has quantity = transferredOut, even for a transfer of 0 or less |
| Reconciliation.Validation2Passes | src/main/java/com/barinventory/service/InventorySessionService.java:277-293 | Validation 2 passes iff each distribution's totalAllocated equals the summed well receipts of its product |
| Reconciliation.Validation2WithoutWells | src/main/java/com/barinventory/service/InventorySessionService.java:281-284 | with no wells the sum is 0, so Validation 2 passes iff nothing is allocated |
| Reconciliation.Validation3Passes | src/main/java/com/barinventory/service/InventorySessionService.java:298-311 | Validation 3 passes iff no distribution has positive unallocated |
| Reconciliation.CommitValidation | src/main/java/com/barinventory/service/InventorySessionService.java:199-215 | the checks pass together exactly when each of Validation 1, 2 and 3 passes; a failure of check 1 (missing distribution or quantity mismatch) is reported as is, else a failure of check 2, else that of check 3 |
| Reconciliation.ValidationKinds | src/main/java/com/barinventory/service/InventorySessionService.java:255-305 | each check reports only its own kinds of failure, and Validation 3 reports a positive remainder |
| Reconciliation.OverAllocationPassesAllChecks | src/main/java/com/barinventory/service/InventorySessionService.java:302 | a session allocating 15 of 10 transferred units passes all three checks |
| Reconciliation.Describe | src/main/java/com/barinventory/service/InventorySessionService.java:256-305 | the failure message is non-empty and names the product |
| Reconciliation.FirstUnpriced | src/main/java/com/barinventory/service/InventorySessionService.java:230-238 | the price check fails exactly when some well's product has no price at the bar, and reports the first such product |
| Reconciliation.FirstUnpricedAt | src/main/java/com/barinventory/service/InventorySessionService.java:232-236 | the price check reports the product of the first unpriced well |
| Reconciliation.ConsumedByProduct | src/main/java/com/barinventory/service/InventorySessionService.java:322-326 | the consumption grouping has a key exactly for each product of the session's wells |
| Reconciliation.PriceCheckCoversSales | src/main/java/com/barinventory/service/InventorySessionService.java:217-220 | after the price check passes, every product sales generation visits has a price |
| Reconciliation.SaleFor | src/main/java/com/barinventory/service/InventorySessionService.java:343-351 | a generated sales record is consistent, carries the session, product and quantity, copies the selling price, and takes a missing cost price as 0 |
| Reconciliation.GeneratedSalesSellConsumption | src/main/java/com/barinventory/service/InventorySessionService.java:328-353 | every generated record sells its product's positive summed consumption, and a product whose sum is 0 or less gets no record |
| Reconciliation.DistributionMapKeys | src/main/java/com/barinventory/service/InventorySessionService.java:406-416 | the map has a key exactly for each product with a distribution in the session |
| Reconciliation.DistributionMapHoldsQuantities | src/main/java/com/barinventory/service/InventorySessionService.java:406-416 | with unique keys, each product maps to its distribution's quantityFromStockroom |
| SessionService.Session.RolledBackWith | src/main/java/com/barinventory/service/InventorySessionService.java:363-365 | a rolled-back session has status ROLLED_BACK, the end time and the reason, and keeps its other fields |
| SessionService.Session.CompletedAt | src/main/java/com/barinventory/service/InventorySessionService.java:223-224 | a completed session has status COMPLETED and the end time, and keeps its other fields |
| SessionService.FindOpenSession | src/main/java/com/barinventory/service/InventorySessionService.java:59-60 | the lookup returns an in-progress session of the bar with the latest start time, and none exactly when the bar has none |
| SessionService.FindOpenSessionUnique | src/main/java/com/barinventory/service/InventorySessionService.java:59-62 | with one open session per bar, the lookup returns it |
| SessionService.OpenSessionKeepsSessionsOk | src/main/java/com/barinventory/service/InventorySessionService.java:62-80 | opening a session only for a known bar with none open keeps one open session per bar |
| SessionService.NewSessionHasNoRecords | src/main/java/com/barinventory/service/InventorySessionService.java:74-77 | a fresh session id has no stockroom, distribution, well or sales rows |
| SessionService.QueueProductWells | src/main/java/com/barinventory/service/InventorySessionService.java:438-470 | the well loop for one product queues the records the form yields for it |
| SessionService.QueueFormWells | src/main/java/com/barinventory/service/InventorySessionService.java:435-470 | the product loop queues the records the form yields for every active product |
| SessionService.InventorySessionService.GetSessionInProgress | src/main/java/com/barinventory/service/InventorySessionService.java:374-383 | succeeds with the session exactly when it exists and is IN_PROGRESS; an unknown id is NotFound and another status is InvalidState |
| SessionService.InventorySessionService.InitializeSession | src/main/java/com/barinventory/service/InventorySessionService.java:53-81 | no bar id is rejected and an unknown bar is NotFound; a bar with an open session gets the most recent open one and nothing is created; otherwise a new IN_PROGRESS session with no stage records is appended |
| SessionService.InventorySessionService.SaveStockroomInventory | src/main/java/com/barinventory/service/InventorySessionService.java:110-123 | fails unchanged unless the session is in progress; otherwise the session's stockroom rows become exactly the submitted ones after the hook, and other sessions keep theirs |
| SessionService.InventorySessionService.InsertStockroom | src/main/java/com/barinventory/service/InventorySessionService.java:117-118 | one insert appends the record, attached to the session and passed through the hook |
| SessionService.InventorySessionService.CreateDistributionRecords | src/main/java/com/barinventory/service/InventorySessionService.java:131-168 | fails unchanged unless the session is in progress; otherwise the distribution table is upserted from the session's stockroom rows, with the guarantees of UpsertRefreshesTransfers |
| SessionService.InventorySessionService.UpsertDistribution | src/main/java/com/barinventory/service/InventorySessionService.java:137-163 | one loop step updates the product's existing record or appends a new one, keeping the table's keys unique |
| SessionService.InventorySessionService.UpdateDistributionAllocation | src/main/java/com/barinventory/service/InventorySessionService.java:178-186 | adds the quantity to the product's distribution and reruns the hook; no distribution is NotFound with no change |
| SessionService.InventorySessionService.InsertWell | src/main/java/com/barinventory/service/InventorySessionService.java:486-487 | one insert appends the well, attached to the session and passed through the hook |
| SessionService.InventorySessionService.SaveWellInventory | src/main/java/com/barinventory/service/InventorySessionService.java:482-498 | fails unchanged unless the session is in progress, and fails unchanged when a positive receipt has no distribution; otherwise appends the wells after earlier ones, without deleting, and allocates their receipts |
| SessionService.InventorySessionService.SaveWellInventoryFromForm | src/main/java/com/barinventory/service/InventorySessionService.java:420-479 | fails unchanged unless the session is in progress; otherwise replaces the session's wells with the form's, resets and reallocates, so each of the session's distributions holds exactly the receipts of its stored wells; a missing distribution fails with no change |
| SessionService.InventorySessionService.ResetSessionAllocations | src/main/java/com/barinventory/service/InventorySessionService.java:426-433 | the session's distributions have their allocation zeroed and pass the hook |
| SessionService.InventorySessionService.ValidateStockroomToDistribution | src/main/java/com/barinventory/service/InventorySessionService.java:243-272 | the loop's verdict is Validation 1 on the session's rows |
| SessionService.InventorySessionService.ValidateDistributionToWells | src/main/java/com/barinventory/service/InventorySessionService.java:277-293 | the loop's verdict is Validation 2 on the session's rows |
| SessionService.InventorySessionService.ValidateNoUnallocatedStock | src/main/java/com/barinventory/service/InventorySessionService.java:298-311 | the loop's verdict is Validation 3 on the session's rows |
| SessionService.InventorySessionService.ValidatePricesExist | src/main/java/com/barinventory/service/InventorySessionService.java:230-238 | the loop reports the first well product without a price at the bar, or none |
| SessionService.InventorySessionService.GenerateSalesRecords | src/main/java/com/barinventory/service/InventorySessionService.java:316-354 | keeps earlier sales and appends exactly one consistent record per product with positive summed consumption, priced from the bar's catalog |
| SessionService.InventorySessionService.SaveSales | src/main/java/com/barinventory/service/InventorySessionService.java:328-353 | the save loop over the grouping, in any order, appends exactly the generated records |
| SessionService.InventorySessionService.InsertSale | src/main/java/com/barinventory/service/InventorySessionService.java:343-351 | one insert appends the built sales record after its hook |
| SessionService.InventorySessionService.CommitSession | src/main/java/com/barinventory/service/InventorySessionService.java:192-228 | fails unchanged unless in progress. The first failing check, in order 1, 2, 3, marks the session ROLLED_BACK with its message and fails. A missing price then fails with no change. Otherwise sales are generated and the session is COMPLETED at `now` |
| SessionService.InventorySessionService.RollbackSession | src/main/java/com/barinventory/service/InventorySessionService.java:359-369 | any existing session, whatever its status, becomes ROLLED_BACK with the end time and reason; an unknown id is NotFound |
| SessionService.InventorySessionService.GetDistributionMapForSession | src/main/java/com/barinventory/service/InventorySessionService.java:406-416 | the map has a key exactly for each product with a distribution in the session |
| Reports.DailySalesReport | src/main/java/com/barinventory/service/ReportService.java:48-56 | profit = revenue - cost, and all three are 0 for no records |
| Reports.DailyProfitIsSumOfProfits | src/main/java/com/barinventory/service/ReportService.java:48-56 | over records that passed the hook, the day's profit is the sum of the records' profits |
| Reports.DailyTotalsNonNegative | src/main/java/com/barinventory/service/ReportService.java:48-54 | with non-negative quantities and prices, the day's revenue and cost are non-negative |
| Reports.EntriesSnoc | src/main/java/com/barinventory/service/ReportService.java:48-54 | one more record adds its revenue, cost, profit and quantity to the running sums |
| Reports.MonthlySalesReport | src/main/java/com/barinventory/service/ReportService.java:95-106 | the per-product map has a key exactly for each product sold, and no records give revenue 0 and an empty map |
| Reports.ProductsSold | src/main/java/com/barinventory/service/ReportService.java:100-106 | the products sold, each once, are exactly the per-product map's keys |
| Reports.MonthlyProductTotalsAddUp | src/main/java/com/barinventory/service/ReportService.java:95-106 | the monthly per-product revenues add up to the monthly total revenue |
| Reports.ProductWiseSummary | src/main/java/com/barinventory/service/ReportService.java:134-149 | the summary has a key exactly for each product sold |
| Reports.QuantityOfFilter | src/main/java/com/barinventory/service/ReportService.java:140-142 | summing one product's list of quantities is summing that product's quantities over all records |
| Reports.RevenueOfFilter | src/main/java/com/barinventory/service/ReportService.java:143-145 | summing one product's list of revenues is summing that product's revenues over all records |
| Reports.CountOfFilter | src/main/java/com/barinventory/service/ReportService.java:146 | one product's list has as many records as the records of that product |
| Reports.ProductSummaryCounts | src/main/java/com/barinventory/service/ReportService.java:134-149 | each product's count is its number of records, its quantity their summed quantities, and its revenue agrees with the monthly per-product revenue |

## Left out

- HTTP controllers, page rendering and logging. The controllers only route requests and build the same records the service builds.
- Repository interfaces are not modelled as components. Only the queries the service relies on are modelled, as functions over the row sequences.
- The bar, product and price services are left out. The known bars and the price catalog (a map from bar and product to a selling price and an optional cost price) are fields the service only reads.
- Active products are a parameter of the form path. The product service query that lists them is left out.
- Transaction semantics are not modelled:
  - A failed save of wells is modelled as leaving the tables unchanged, as a rolled-back transaction would.
  - A failed commit keeps its ROLLED_BACK write, the sequence the code performs. Within one transaction, the thrown exception would also undo that write.
- Clock readings are the `now` parameter. Report date windows are left out: each report is a function of the record list the repository returns.
- Persistence details are left out: lazy loading, back-references from sessions to records, builder defaults, and rounding to two decimals on save. Records carry session and product ids instead.
- Error message wording is not modelled. A validation message is required only to be non-empty and to name the product, which it names by id rather than by name.
- StageWrites.ParseDecimal: does not model reading a decimal string. A form value arrives as empty or as a number already in hundredths. A whitespace-only or malformed field, which the code rejects with a parse error, is not modelled.
- Reports group by product id, not by product name. Product names are unique (`unique = true` on the product name column), so the groupings coincide.
- The order of generated sales records follows the unordered grouping map, so the model fixes no order. GeneratedSales states each record's content and that products are distinct, not their order.
- The weekly report, the session total sales query, the audit trail and the date-range lookups of sessions and sales are left out. Each is a repository query or a plain reduction like the daily one.
- SessionService.InventorySessionService.GenerateSalesRecords: requires every product it visits to have a price instead of modelling the "price not set" failure. Its only caller runs the price check first, and PriceCheckCoversSales proves the requirement then holds, so that failure cannot occur.
- Reconciliation.Validation1Passes: the if-and-only-if is stated for distribution lists with distinct products, which SessionProductsDistinct proves of every session in the store. On a list with duplicates, the code compares only against the first match.
- SessionService.InventorySessionService.GetDistributionMapForSession: states the keys. The values are stated by DistributionMapHoldsQuantities under unique keys; with unique keys the code's merge function never applies.
- The session datatype mirrors the session entity's status, bar, times, shift type, notes and validation errors. The session DTO is left out.
