/** The read-side projections of the pharmacy: the reorder list, the
    dashboard's key figures (total stock, low-stock count, today's revenue)
    and the report's total revenue. All of them are pure functions of the
    stores. */
module Views {
  import opened Domain

  /** One line of the reorder page. */
  datatype ReorderItem = ReorderItem(name: string, stock: int, reorderLevel: int, shelf: string)

  function ItemFor(m: Medicine, row: InventoryRow): ReorderItem
  {
    ReorderItem(m.name, row.stock, m.reorderLevel, m.shelf)
  }

  /** The dashboard's low-stock test: the row's medicine exists and its stock
      is at or below the medicine's reorder level. */
  predicate LowStock(meds: seq<Medicine>, row: InventoryRow)
  {
    var m := FindMedicine(meds, row.medicineId);
    m.Some? && row.stock <= m.value.reorderLevel
  }

  /** The reorder page's per-row step: nothing for a row without a medicine
      or with stock above the reorder level, otherwise the row's line. */
  function ReorderEntry(meds: seq<Medicine>, row: InventoryRow): Option<ReorderItem>
  {
    match FindMedicine(meds, row.medicineId)
    case None => None
    case Some(m) => if row.stock > m.reorderLevel then None else Some(ItemFor(m, row))
  }

  /** The reorder list: the rows' entries, in inventory order, with the empty ones dropped. */
  function ReorderList(meds: seq<Medicine>, inv: seq<InventoryRow>): (r: seq<ReorderItem>)
    ensures |r| <= |inv|
  {
    if |inv| == 0 then []
    else
      (match ReorderEntry(meds, inv[0]) case None => [] case Some(item) => [item])
      + ReorderList(meds, inv[1..])
  }

  /** The rows the dashboard counts as low on stock, in inventory order. */
  function LowStockRows(meds: seq<Medicine>, inv: seq<InventoryRow>): (r: seq<InventoryRow>)
    ensures forall row :: row in r <==> row in inv && LowStock(meds, row)
  {
    if |inv| == 0 then []
    else (if LowStock(meds, inv[0]) then [inv[0]] else []) + LowStockRows(meds, inv[1..])
  }

  function LowStockCount(meds: seq<Medicine>, inv: seq<InventoryRow>): nat
  {
    |LowStockRows(meds, inv)|
  }

  /** The dashboard's total stock: the sum of the stock of every row. */
  function TotalStock(inv: seq<InventoryRow>): int
  {
    if |inv| == 0 then 0 else inv[0].stock + TotalStock(inv[1..])
  }

  /** Sum of the totals of a list of sales. */
  function Revenue(sales: seq<Sale>): int
  {
    if |sales| == 0 then 0 else sales[0].totalCents + Revenue(sales[1..])
  }

  /** The sales whose timestamp falls on the given UTC day, in list order. */
  function SalesOn(sales: seq<Sale>, day: int): (r: seq<Sale>)
    ensures forall s :: s in r <==> s in sales && Day(s.ts) == day
  {
    if |sales| == 0 then []
    else (if Day(sales[0].ts) == day then [sales[0]] else []) + SalesOn(sales[1..], day)
  }

  /** The dashboard's revenue figure: today's sales only. */
  function DashboardRevenue(sales: seq<Sale>, now: int): int
  {
    Revenue(SalesOn(sales, Day(now)))
  }

  /** The report's revenue figure: every sale. */
  function ReportRevenue(sales: seq<Sale>): int
  {
    Revenue(sales)
  }

  // ---------------------------------------------------------------------
  // Reorder list and low-stock count

  /** The reorder step and the low-stock test agree row by row. */
  lemma ReorderEntryAgrees(meds: seq<Medicine>, row: InventoryRow)
    ensures ReorderEntry(meds, row).Some? <==> LowStock(meds, row)
    ensures LowStock(meds, row) ==>
      ReorderEntry(meds, row) == Some(ItemFor(FindMedicine(meds, row.medicineId).value, row))
  {
  }

  /** The dashboard's low-stock count is the length of the reorder list. */
  lemma {:induction false} LowStockCountIsReorderLength(meds: seq<Medicine>, inv: seq<InventoryRow>)
    ensures LowStockCount(meds, inv) == |ReorderList(meds, inv)|
  {
    if |inv| > 0 {
      LowStockCountIsReorderLength(meds, inv[1..]);
      ReorderEntryAgrees(meds, inv[0]);
    }
  }

  /** The reorder list of a concatenation is the concatenation of the
      reorder lists: the list keeps inventory order. */
  lemma {:induction false} ReorderListAppend(meds: seq<Medicine>, a: seq<InventoryRow>, b: seq<InventoryRow>)
    ensures ReorderList(meds, a + b) == ReorderList(meds, a) + ReorderList(meds, b)
  {
    if |a| == 0 {
      assert a + b == b;
    } else {
      assert (a + b)[1..] == a[1..] + b;
      ReorderListAppend(meds, a[1..], b);
    }
  }

  /** A single row contributes its line exactly when it is low on stock. */
  lemma ReorderListSingle(meds: seq<Medicine>, row: InventoryRow)
    ensures ReorderList(meds, [row]) ==
      if LowStock(meds, row) then [ItemFor(FindMedicine(meds, row.medicineId).value, row)] else []
  {
    assert [row][1..] == [];
  }

  /** `item` is the reorder line of `row`, and `row` is low on stock. */
  predicate ListedAs(meds: seq<Medicine>, row: InventoryRow, item: ReorderItem)
  {
    LowStock(meds, row) && item == ItemFor(FindMedicine(meds, row.medicineId).value, row)
  }

  /** Exactly the low-stock rows appear on the reorder list. */
  lemma {:induction false} ReorderListMembers(meds: seq<Medicine>, inv: seq<InventoryRow>, item: ReorderItem)
    ensures item in ReorderList(meds, inv) <==> exists i :: 0 <= i < |inv| && ListedAs(meds, inv[i], item)
  {
    if |inv| > 0 {
      ReorderListMembers(meds, inv[1..], item);
      ReorderEntryAgrees(meds, inv[0]);
      if item in ReorderList(meds, inv) && item !in ReorderList(meds, inv[1..]) {
        assert ListedAs(meds, inv[0], item);
      } else if item in ReorderList(meds, inv[1..]) {
        var i :| 0 <= i < |inv[1..]| && ListedAs(meds, inv[1..][i], item);
        assert inv[i + 1] == inv[1..][i];
      }
      if exists i :: 0 <= i < |inv| && ListedAs(meds, inv[i], item) {
        var i :| 0 <= i < |inv| && ListedAs(meds, inv[i], item);
        if i > 0 {
          assert inv[1..][i - 1] == inv[i];
        }
      }
    }
  }

  // ---------------------------------------------------------------------
  // Total stock

  /** Replacing one row changes the total by the difference of their stocks. */
  lemma {:induction false} TotalStockUpdate(inv: seq<InventoryRow>, i: nat, row: InventoryRow)
    requires i < |inv|
    ensures TotalStock(inv[i := row]) == TotalStock(inv) - inv[i].stock + row.stock
  {
    if i > 0 {
      assert inv[i := row][1..] == inv[1..][i - 1 := row];
      TotalStockUpdate(inv[1..], i - 1, row);
    }
  }

  lemma {:induction false} TotalStockAppend(a: seq<InventoryRow>, b: seq<InventoryRow>)
    ensures TotalStock(a + b) == TotalStock(a) + TotalStock(b)
  {
    if |a| == 0 {
      assert a + b == b;
    } else {
      assert (a + b)[1..] == a[1..] + b;
      TotalStockAppend(a[1..], b);
    }
  }

  /** With no negative row, the total stock is not negative either. */
  lemma {:induction false} TotalStockNonNegative(inv: seq<InventoryRow>)
    requires NonNegativeStock(inv)
    ensures TotalStock(inv) >= 0
  {
    if |inv| > 0 {
      assert forall i :: 0 <= i < |inv[1..]| ==> inv[1..][i] == inv[i + 1];
      TotalStockNonNegative(inv[1..]);
    }
  }

  // ---------------------------------------------------------------------
  // Revenue

  lemma {:induction false} RevenueAppend(a: seq<Sale>, b: seq<Sale>)
    ensures Revenue(a + b) == Revenue(a) + Revenue(b)
  {
    if |a| == 0 {
      assert a + b == b;
    } else {
      assert (a + b)[1..] == a[1..] + b;
      RevenueAppend(a[1..], b);
    }
  }

  /** Prepending a sale adds its total to the report, and to the dashboard
      exactly when the sale is dated today. */
  lemma RevenuePrepend(s: Sale, sales: seq<Sale>, now: int)
    ensures ReportRevenue([s] + sales) == s.totalCents + ReportRevenue(sales)
    ensures DashboardRevenue([s] + sales, now) ==
      (if Day(s.ts) == Day(now) then s.totalCents else 0) + DashboardRevenue(sales, now)
  {
    assert ([s] + sales)[1..] == sales;
    var today := SalesOn([s] + sales, Day(now));
    if Day(s.ts) == Day(now) {
      assert today == [s] + SalesOn(sales, Day(now));
      assert today[1..] == SalesOn(sales, Day(now));
    } else {
      assert today == SalesOn(sales, Day(now));
    }
  }

  /** When no sale has a negative total, today's revenue is at most the
      revenue of all sales. */
  lemma {:induction false} DashboardAtMostReport(sales: seq<Sale>, now: int)
    requires forall i :: 0 <= i < |sales| ==> sales[i].totalCents >= 0
    ensures 0 <= DashboardRevenue(sales, now) <= ReportRevenue(sales)
  {
    if |sales| > 0 {
      assert forall i :: 0 <= i < |sales[1..]| ==> sales[1..][i] == sales[i + 1];
      DashboardAtMostReport(sales[1..], now);
      var rest := SalesOn(sales[1..], Day(now));
      if Day(sales[0].ts) == Day(now) {
        assert SalesOn(sales, Day(now))[1..] == rest;
      } else {
        assert SalesOn(sales, Day(now)) == rest;
      }
    }
  }
}
