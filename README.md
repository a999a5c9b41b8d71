# Pharmacy inventory ledger and point of sale, in Dafny

This project models the core of a single-shop pharmacy web app: the
medicine catalogue, the inventory ledger (one row per medicine, each with a
stock level and a newest-first movement history), the point-of-sale
checkout, the sales list (newest first), user signup and login, and the
audit log capped at 500 entries. It also models the read-side figures the
dashboard, reorder and report pages compute from these stores.

Layout:

- `domain.dfy` (`Domain`): the records, the clock, and the first-match lookups
  (`findIndex`, `find`) the handlers use. It also defines the pairing
  invariant: unique ids, with exactly one inventory row per medicine.
- `views.dfy` (`Views`): the reorder list, the low-stock count, total stock,
  and the dashboard and report revenue, with lemmas that relate them.
- `ledger.dfy` (`Ledger`): each handler's rule as a function from the stores it
  reads to the stores it would write, or to an error. Lemmas state the
  invariants each rule keeps and what it does to the figures.
- `data.dfy` (`Data`): the audit entry and its cap, `getInventoryMap` as a
  loop, the demo-data inventory, and the class `Store` that holds the six
  stores. `Store` has the methods `addAudit` and `seedDemoData`.
- `app.dfy` (`App`): the form handlers as methods on a `Store`. Each method's
  result and new state are tied to the matching `Ledger` function, and each
  keeps `Store.Valid()`.

Modelling conventions:

- Prices and totals are integer cents.
- Timestamps are integers: milliseconds since the epoch, UTC. `Day(t)` is the
  calendar day that the ISO date prefix `YYYY-MM-DD` names.
- An expiry date is a day number. An empty date, which parses as an invalid
  date, is `None`.
- `uuid()` for a new medicine is an injected `freshId` parameter. The
  random fallback stock in seeding is an injected `draw` function.
- The stores are fields of one `Store` object, standing in for the browser's
  storage.

Where the design description and the code differ, the model follows the code:

- Expiry. `new Date(expiryDate) < new Date()` compares the UTC midnight that
  starts the expiry day with the current instant. So a medicine whose
  expiry day is today cannot be sold once that midnight has passed.
  `Ledger.ExpiredByDay` states this in days. A reading of "expired" that
  counts only days strictly before today would allow that sale.
- Adjustment. The movement form rejects every quantity `<= 0`, so an
  Adjustment to 0 is refused, although a stock level of 0 would be
  meaningful.
- Barcodes. Nothing enforces unique barcodes. Only ids and usernames are
  unique in the model.
- Seed history. Seeded rows get their stock from a table of levels, but each
  row's history is the single entry "Stock In 10 Initial load". The stock
  is therefore not the net effect of the history.
- Dates. Days alone would suffice for the day filter, but the expiry check
  compares against the current instant, so time is kept in milliseconds.

## Model

| member | source | states |
|---|---|---|
| Domain.MedicineIndex | app.js:199-200 | the index of the first medicine with the id; None exactly when no medicine has it |
| Domain.FindMedicine | app.js:107-109 | `medicineById`: the first medicine with the id, present exactly when the index lookup finds one |
| Domain.RowIndex | app.js:249 | the index of the first inventory row of the medicine; None exactly when no row has that medicine id |
| Domain.RowCountUnique | app.js:203-207 | with unique row ids, a medicine has exactly one row when its id occurs and none otherwise |
| Views.ReorderEntryAgrees | app.js:493-497 | a row yields a reorder line exactly when its medicine exists and its stock is at most the reorder level, and the line copies name, stock, level and shelf |
| Views.ReorderListMembers | app.js:492-498 | a line is on the reorder list exactly when some inventory row is low on stock and has that line |
| Views.ReorderListAppend | app.js:492-498 | the reorder list of a concatenation is the concatenation of the lists: inventory order is kept |
| Views.ReorderListSingle | app.js:494-497 | one row contributes its line exactly when it is low on stock, and nothing otherwise |
| Views.LowStockRows | app.js:116-119 | a row is counted on the dashboard exactly when it is in the inventory and its medicine exists with stock at most the reorder level |
| Views.LowStockCountIsReorderLength | app.js:116-119 | the dashboard's low-stock count equals the length of the reorder list |
| Views.TotalStockUpdate | app.js:115 | replacing one row changes total stock by the difference of the two stocks |
| Views.TotalStockAppend | app.js:115 | total stock of a concatenation is the sum of the totals |
| Views.TotalStockNonNegative | app.js:115 | total stock is not negative when no row is |
| Views.SalesOn | app.js:120-121 | a sale is kept exactly when it is in the list and its timestamp falls on the given day |
| Views.RevenueAppend | app.js:507 | revenue of a concatenation is the sum of the revenues |
| Views.RevenuePrepend | app.js:121-122 | a new sale adds its total to the report revenue, and to the dashboard revenue exactly when it is dated today |
| Views.DashboardAtMostReport | app.js:122 | with no negative totals, today's revenue lies between 0 and the revenue of all sales |
| Ledger.Upsert | app.js:194-207 | missing name, barcode or classification is refused; an existing id is replaced at its index with nothing else changed; a new id appends the medicine and one zero-stock row with empty history |
| Ledger.UpsertPreservesPairing | app.js:199-207 | an accepted upsert keeps ids unique and one inventory row per medicine |
| Ledger.UpsertRowCount | app.js:203-207 | after an upsert the medicine has exactly one row; a new medicine's row is the appended zero-stock row |
| Ledger.WithoutMedicine | app.js:171 | a medicine survives the filter exactly when it was there and has another id |
| Ledger.WithoutRows | app.js:172 | a row survives the filter exactly when it was there and belongs to another medicine |
| Ledger.Remove | app.js:171-172 | after a delete, neither the medicine nor any row of it can be found |
| Ledger.WithoutMedicineAppend | app.js:171 | the medicine filter distributes over concatenation, so the remaining medicines keep their order |
| Ledger.WithoutRowsAppend | app.js:172 | the row filter distributes over concatenation, so the remaining rows keep their order |
| Ledger.WithoutMedicineIds | app.js:171 | the medicine ids after the delete are the ids before it minus the deleted one |
| Ledger.WithoutRowsIds | app.js:172 | the row ids after the delete are the ids before it minus the deleted one |
| Ledger.WithoutMedicineUnique | app.js:171 | filtering keeps medicine ids unique |
| Ledger.WithoutRowsUnique | app.js:172 | filtering keeps row ids unique |
| Ledger.RemovePreservesPairing | app.js:171-172 | a delete keeps the pairing and removes exactly that id from the catalogue |
| Ledger.Move | app.js:249-259 | no row or a quantity <= 0 is refused; a negative new stock is refused, in both directions; otherwise only that row changes, with the new stock, the timestamp and the movement prepended to its history |
| Ledger.MovePreservesInvariants | app.js:255-259 | an accepted movement keeps all stock non-negative and keeps the pairing |
| Ledger.MoveTotalStock | app.js:252-254 | Stock In raises total stock by the quantity, Stock Out lowers it by the quantity, and Adjustment replaces that row's stock with the quantity |
| Ledger.AdjustmentTwice | app.js:254 | repeating an adjustment leaves the same stock but records two movements |
| Ledger.ExpiredByDay | app.js:449 | expired means the expiry day is before today, or it is today and now is past midnight |
| Ledger.Sell | app.js:448-462 | the four checks run in order and the first failure is the result; the sale succeeds exactly when all pass; on success only the row changes, losing qty stock and gaining a POS Sale movement, and the sale record copies the name with total qty times price |
| Ledger.SellPreservesInvariants | app.js:453-456 | a sale keeps all stock non-negative and keeps the pairing |
| Ledger.SellTotals | app.js:453-462 | a sale lowers total stock by qty and raises both revenue figures by its total |
| Ledger.AvailableWhenPaired | app.js:448 | under the pairing, the first check fails exactly when the medicine is not in the catalogue |
| Ledger.RemoveThenRejected | app.js:171-172 | after a delete, a movement or a sale of that medicine is refused |
| Ledger.SignUp | app.js:615-617 | a taken username is refused, in both directions; otherwise exactly one user is appended |
| Ledger.SignUpKeepsUnique | app.js:615-617 | signup keeps usernames unique |
| Ledger.UserIndex | app.js:594 | the first user whose username and password both match; None exactly when none does |
| Ledger.LogIn | app.js:594-601 | no matching user is refused as invalid credentials; otherwise the session carries the matching user's name and role |
| Ledger.StockOutScenario | app.js:250-255 | stock 10 and level 5: Stock Out 7 leaves 3 and lists the medicine for reorder; then Stock Out 10 is refused |
| Ledger.SaleScenario | app.js:453-459 | price 12.00 and stock 15: selling 3 leaves 12 with a total of 36.00 |
| Data.AuditEntryFor | data.js:30-37 | the entry carries the action, details and time; user and role fall back to System without a session |
| Data.Logged | data.js:30-38 | the new entry is first, the old entries follow in order, and the length is min(old + 1, 500), so the oldest entries drop out |
| Data.InventoryMap | data.js:41-47 | the keys are exactly the medicine ids of the rows; each value is the last row with its key, which with unique ids is the row the handlers find |
| Data.SeedStock | data.js:117 | a nonzero level is used as given; a missing or zero level falls back to a draw between 5 and 64 |
| Data.SeedInventory | data.js:113-124 | one row per medicine, in medicine order, each with the seeded stock and the single Initial load movement |
| Data.SeedInventoryPaired | data.js:113-124 | seeded rows are paired one to one with the medicines and no stock is negative |
| Data.Store.AddAudit | data.js:27-39 | the log becomes the capped log with the new entry, stamped with the session, first |
| Data.Store.SeedDemoData | data.js:49-134 | with users present and no force, nothing changes; otherwise every store is replaced by the demo data, the session ends, and one Seed Data entry is logged; the invariant holds afterwards |
| App.MovementDetails | app.js:260 | the audit text of a movement starts with the movement's label |
| App.SaveMedicine | app.js:181-215 | a refused upsert changes nothing; an accepted one writes the upsert's stores and logs Update or Create Medicine; the invariant is kept |
| App.DeleteMedicine | app.js:169-177 | writes both filtered stores, logs Delete Medicine with the id, and keeps the invariant |
| App.RecordMovement | app.js:242-264 | a refused movement changes nothing; an accepted one writes the new inventory and logs the movement; the invariant is kept |
| App.Checkout | app.js:440-471 | a refused sale changes nothing; an accepted one writes the new inventory, prepends the sale record, logs it and returns it; the invariant is kept |
| App.SubmitSignup | app.js:609-621 | a taken username changes nothing; otherwise the user is appended and the signup is logged; usernames stay unique |
| App.SubmitLogin | app.js:590-604 | no match changes nothing; a match sets the session and logs the login under it |
| App.ResetDemoData | app.js:130-133 | a forced reseed followed by the reset entry, so the log holds exactly the reset and seed entries |

## Left out

- Page rendering, the DOM, toasts, confirmation modals, the sidebar and routing: presentation only. A confirmed delete or reset is modelled as a direct call.
- Receipt HTML, print windows and CSV export: formatting and browser input/output.
- Browser storage and the JSON round trip of reading and writing a store: the stores are fields of `Data.Store`.
- `uuid()`: a new medicine's id is the `freshId` parameter. The ids of inventory rows, movements, sales, users and audit entries are not modelled, because nothing in the core reads them.
- The clock: `now` is a parameter of every operation that stamps a time.
- `Math.random()` in seeding: the injected `draw` function.
- Floating point: prices and totals are integer cents. `Number()` conversions, `NaN` and fractional quantities are outside the model, and quantities are integers.
- `.trim()` of form fields: inputs are taken as already trimmed.
- Password storage and hashing: passwords are compared as plain strings, as the code does.
- The barcode scan lookup on the POS page: it only fills the form and is not part of this model.
- Logout and the session's user id: the session is modelled as a username and a role.
- Data.Store.SeedDemoData: the demo users, medicines and stock levels are parameters, not the literal tables. The stock level table is kept as `Data.SeedStockLevels`.
- Views.ReorderList: its own contract gives only the length bound. Its content and order are stated by ReorderListMembers and ReorderListAppend.
- An inventory action string other than the three offered kinds can only come from a tampered form, and is not modelled.
- Concurrency: several tabs writing the same storage at once is not modelled. Each handler runs to completion on its own.
