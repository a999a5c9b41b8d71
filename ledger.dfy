/** The rules the pharmacy's form handlers enforce, as functions from the
    stores they read to the stores they would write: the medicine upsert and
    delete, the inventory movement, the POS sale, signup and login. A
    rejected call returns `Err` and leaves everything to the caller
    unchanged. */
module Ledger {
  import opened Domain
  import opened Views

  /** Why a handler refused; one constructor per error toast. */
  datatype Error =
    | MissingFields         // name, barcode or classification is empty
    | InvalidEntry          // no inventory row, or quantity not positive
    | NegativeStock         // the movement would make stock negative
    | Unavailable           // medicine or its inventory row is missing
    | ExpiredMedicine       // the expiry date has passed
    | PrescriptionRequired  // RX medicine without a prescription
    | InvalidQuantity       // quantity not positive or above stock
    | UsernameTaken         // signup with an existing username
    | InvalidCredentials    // login with no matching user

  datatype Result<T> = Ok(value: T) | Err(error: Error)

  /** The catalogue and the ledger, which upsert and delete change together. */
  datatype Tables = Tables(medicines: seq<Medicine>, inventory: seq<InventoryRow>)

  // ---------------------------------------------------------------------
  // Helpers about the id sets

  lemma RowIdsUpdate(inv: seq<InventoryRow>, i: nat, row: InventoryRow)
    requires i < |inv| && row.medicineId == inv[i].medicineId
    ensures RowIds(inv[i := row]) == RowIds(inv)
    ensures UniqueRowIds(inv) ==> UniqueRowIds(inv[i := row])
  {
    var u := inv[i := row];
    assert forall j :: 0 <= j < |u| ==> u[j].medicineId == inv[j].medicineId;
    forall x | x in RowIds(inv) ensures x in RowIds(u) {
      var j :| 0 <= j < |inv| && inv[j].medicineId == x;
      assert u[j].medicineId == x;
    }
  }

  lemma RowIdsAppend(inv: seq<InventoryRow>, row: InventoryRow)
    ensures RowIds(inv + [row]) == RowIds(inv) + {row.medicineId}
  {
    var u := inv + [row];
    forall x | x in RowIds(inv) ensures x in RowIds(u) {
      var j :| 0 <= j < |inv| && inv[j].medicineId == x;
      assert u[j] == inv[j];
    }
    assert u[|inv|] == row;
  }

  lemma MedicineIdsUpdate(meds: seq<Medicine>, i: nat, m: Medicine)
    requires i < |meds| && m.id == meds[i].id
    ensures MedicineIds(meds[i := m]) == MedicineIds(meds)
    ensures UniqueMedicineIds(meds) ==> UniqueMedicineIds(meds[i := m])
  {
    var u := meds[i := m];
    assert forall j :: 0 <= j < |u| ==> u[j].id == meds[j].id;
    forall x | x in MedicineIds(meds) ensures x in MedicineIds(u) {
      var j :| 0 <= j < |meds| && meds[j].id == x;
      assert u[j].id == x;
    }
  }

  lemma MedicineIdsAppend(meds: seq<Medicine>, m: Medicine)
    ensures MedicineIds(meds + [m]) == MedicineIds(meds) + {m.id}
  {
    var u := meds + [m];
    forall x | x in MedicineIds(meds) ensures x in MedicineIds(u) {
      var j :| 0 <= j < |meds| && meds[j].id == x;
      assert u[j] == meds[j];
    }
    assert u[|meds|] == m;
  }

  // ---------------------------------------------------------------------
  // Medicine upsert

  /** The record the form submits: a blank id takes the injected fresh id. */
  function Payload(form: Medicine, freshId: string): Medicine
  {
    if form.id == "" then form.(id := freshId) else form
  }

  predicate HasRequiredFields(m: Medicine)
  {
    m.name != "" && m.barcode != "" && m.classification != ""
  }

  /** The zero-stock, empty-history row a new medicine gets. */
  function NewRow(id: string, now: int): InventoryRow
  {
    InventoryRow(id, 0, now, [])
  }

  /** Save a medicine: replace the first medicine with the same id in place,
      or append it together with a fresh inventory row. */
  function Upsert(t: Tables, p: Medicine, now: int): (r: Result<Tables>)
    ensures !HasRequiredFields(p) ==> r == Err(MissingFields)
    ensures HasRequiredFields(p) ==> r.Ok?
    ensures r.Ok? && MedicineIndex(t.medicines, p.id).Some? ==>
      var i := MedicineIndex(t.medicines, p.id).value;
      && |r.value.medicines| == |t.medicines|
      && r.value.medicines[i] == p
      && (forall j :: 0 <= j < |t.medicines| && j != i ==> r.value.medicines[j] == t.medicines[j])
      && r.value.inventory == t.inventory
    ensures r.Ok? && MedicineIndex(t.medicines, p.id).None? ==>
      && r.value.medicines == t.medicines + [p]
      && r.value.inventory == t.inventory + [NewRow(p.id, now)]
  {
    if !HasRequiredFields(p) then Err(MissingFields)
    else match MedicineIndex(t.medicines, p.id)
      case Some(i) => Ok(Tables(t.medicines[i := p], t.inventory))
      case None => Ok(Tables(t.medicines + [p], t.inventory + [NewRow(p.id, now)]))
  }

  /** Upsert keeps every medicine paired with exactly one inventory row. */
  lemma UpsertPreservesPairing(t: Tables, p: Medicine, now: int)
    requires Paired(t.medicines, t.inventory)
    ensures Upsert(t, p, now).Ok? ==> Paired(Upsert(t, p, now).value.medicines, Upsert(t, p, now).value.inventory)
  {
    var r := Upsert(t, p, now);
    if r.Ok? {
      MedicineIdsHas(t.medicines, p.id);
      match MedicineIndex(t.medicines, p.id)
      case Some(i) =>
        MedicineIdsUpdate(t.medicines, i, p);
      case None =>
        MedicineIdsAppend(t.medicines, p);
        RowIdsAppend(t.inventory, NewRow(p.id, now));
        assert p.id !in RowIds(t.inventory);
        assert forall j :: 0 <= j < |t.inventory| ==> t.inventory[j].medicineId in RowIds(t.inventory);
    }
  }

  /** A newly created medicine ends up with exactly one inventory row, with
      zero stock and an empty history; an update adds no row. */
  lemma UpsertRowCount(t: Tables, p: Medicine, now: int)
    requires Paired(t.medicines, t.inventory)
    requires Upsert(t, p, now).Ok?
    ensures RowCount(Upsert(t, p, now).value.inventory, p.id) == 1
    ensures MedicineIndex(t.medicines, p.id).None? ==>
      var inv := Upsert(t, p, now).value.inventory;
      && RowIndex(inv, p.id) == Some(|t.inventory|)
      && inv[|t.inventory|] == NewRow(p.id, now)
  {
    var r := Upsert(t, p, now).value;
    UpsertPreservesPairing(t, p, now);
    MedicineIdsHas(r.medicines, p.id);
    RowCountUnique(r.inventory, p.id);
    if MedicineIndex(t.medicines, p.id).None? {
      RowIdsHas(t.inventory, p.id);
      assert r.inventory[|t.inventory|].medicineId == p.id;
    }
  }

  // ---------------------------------------------------------------------
  // Medicine delete

  /** `meds.filter(m => m.id !== id)` */
  function WithoutMedicine(meds: seq<Medicine>, id: string): (r: seq<Medicine>)
    ensures |r| <= |meds|
    ensures forall m :: m in r <==> m in meds && m.id != id
  {
    if |meds| == 0 then []
    else (if meds[0].id != id then [meds[0]] else []) + WithoutMedicine(meds[1..], id)
  }

  /** `inv.filter(i => i.medicineId !== id)` */
  function WithoutRows(inv: seq<InventoryRow>, id: string): (r: seq<InventoryRow>)
    ensures |r| <= |inv|
    ensures forall row :: row in r <==> row in inv && row.medicineId != id
  {
    if |inv| == 0 then []
    else (if inv[0].medicineId != id then [inv[0]] else []) + WithoutRows(inv[1..], id)
  }

  /** Delete a medicine and, with it, every inventory row of it. */
  function Remove(t: Tables, id: string): (r: Tables)
    ensures MedicineIndex(r.medicines, id).None? && RowIndex(r.inventory, id).None?
  {
    Tables(WithoutMedicine(t.medicines, id), WithoutRows(t.inventory, id))
  }

  /** Filtering keeps relative order: it distributes over concatenation. */
  lemma {:induction false} WithoutMedicineAppend(a: seq<Medicine>, b: seq<Medicine>, id: string)
    ensures WithoutMedicine(a + b, id) == WithoutMedicine(a, id) + WithoutMedicine(b, id)
  {
    if |a| == 0 {
      assert a + b == b;
    } else {
      assert (a + b)[1..] == a[1..] + b;
      WithoutMedicineAppend(a[1..], b, id);
    }
  }

  lemma {:induction false} WithoutRowsAppend(a: seq<InventoryRow>, b: seq<InventoryRow>, id: string)
    ensures WithoutRows(a + b, id) == WithoutRows(a, id) + WithoutRows(b, id)
  {
    if |a| == 0 {
      assert a + b == b;
    } else {
      assert (a + b)[1..] == a[1..] + b;
      WithoutRowsAppend(a[1..], b, id);
    }
  }

  lemma WithoutMedicineIds(meds: seq<Medicine>, id: string)
    ensures MedicineIds(WithoutMedicine(meds, id)) == MedicineIds(meds) - {id}
  {
    var r := WithoutMedicine(meds, id);
    forall x | x in MedicineIds(r) ensures x in MedicineIds(meds) - {id} {
      var j :| 0 <= j < |r| && r[j].id == x;
      assert r[j] in r;
      var k :| 0 <= k < |meds| && meds[k] == r[j];
    }
    forall x | x in MedicineIds(meds) - {id} ensures x in MedicineIds(r) {
      var k :| 0 <= k < |meds| && meds[k].id == x;
      assert meds[k] in meds;
      var j :| 0 <= j < |r| && r[j] == meds[k];
    }
  }

  /** Unique ids on a list with a head: the head's id is not in the tail. */
  lemma UniqueMedicinesCons(x: Medicine, rest: seq<Medicine>)
    ensures UniqueMedicineIds([x] + rest) <==> x.id !in MedicineIds(rest) && UniqueMedicineIds(rest)
  {
    var u := [x] + rest;
    assert forall i :: 0 <= i < |rest| ==> u[i + 1] == rest[i];
    if UniqueMedicineIds(u) {
      forall k | 0 <= k < |rest| ensures rest[k].id != x.id {
        assert u[k + 1].id != u[0].id;
      }
      forall i, j | 0 <= i < j < |rest| ensures rest[i].id != rest[j].id {
        assert u[i + 1].id != u[j + 1].id;
      }
    }
    if x.id !in MedicineIds(rest) && UniqueMedicineIds(rest) {
      forall i, j | 0 <= i < j < |u| ensures u[i].id != u[j].id {
        assert u[j] == rest[j - 1];
        if i > 0 {
          assert u[i] == rest[i - 1];
        }
      }
    }
  }

  lemma {:induction false} WithoutMedicineUnique(meds: seq<Medicine>, id: string)
    requires UniqueMedicineIds(meds)
    ensures UniqueMedicineIds(WithoutMedicine(meds, id))
  {
    if |meds| > 0 {
      assert meds == [meds[0]] + meds[1..];
      UniqueMedicinesCons(meds[0], meds[1..]);
      WithoutMedicineUnique(meds[1..], id);
      WithoutMedicineIds(meds[1..], id);
      if meds[0].id != id {
        UniqueMedicinesCons(meds[0], WithoutMedicine(meds[1..], id));
      }
    }
  }

  lemma WithoutRowsIds(inv: seq<InventoryRow>, id: string)
    ensures RowIds(WithoutRows(inv, id)) == RowIds(inv) - {id}
  {
    var r := WithoutRows(inv, id);
    forall x | x in RowIds(r) ensures x in RowIds(inv) - {id} {
      var j :| 0 <= j < |r| && r[j].medicineId == x;
      assert r[j] in r;
      var k :| 0 <= k < |inv| && inv[k] == r[j];
    }
    forall x | x in RowIds(inv) - {id} ensures x in RowIds(r) {
      var k :| 0 <= k < |inv| && inv[k].medicineId == x;
      assert inv[k] in inv;
      var j :| 0 <= j < |r| && r[j] == inv[k];
    }
  }

  /** Unique ids on a list with a head: the head's id is not in the tail. */
  lemma UniqueRowsCons(x: InventoryRow, rest: seq<InventoryRow>)
    ensures UniqueRowIds([x] + rest) <==> x.medicineId !in RowIds(rest) && UniqueRowIds(rest)
  {
    var u := [x] + rest;
    assert forall i :: 0 <= i < |rest| ==> u[i + 1] == rest[i];
    if UniqueRowIds(u) {
      forall k | 0 <= k < |rest| ensures rest[k].medicineId != x.medicineId {
        assert u[k + 1].medicineId != u[0].medicineId;
      }
      forall i, j | 0 <= i < j < |rest| ensures rest[i].medicineId != rest[j].medicineId {
        assert u[i + 1].medicineId != u[j + 1].medicineId;
      }
    }
    if x.medicineId !in RowIds(rest) && UniqueRowIds(rest) {
      forall i, j | 0 <= i < j < |u| ensures u[i].medicineId != u[j].medicineId {
        assert u[j] == rest[j - 1];
        if i > 0 {
          assert u[i] == rest[i - 1];
        }
      }
    }
  }

  lemma {:induction false} WithoutRowsUnique(inv: seq<InventoryRow>, id: string)
    requires UniqueRowIds(inv)
    ensures UniqueRowIds(WithoutRows(inv, id))
  {
    if |inv| > 0 {
      assert inv == [inv[0]] + inv[1..];
      UniqueRowsCons(inv[0], inv[1..]);
      WithoutRowsUnique(inv[1..], id);
      WithoutRowsIds(inv[1..], id);
      if inv[0].medicineId != id {
        UniqueRowsCons(inv[0], WithoutRows(inv[1..], id));
      }
    }
  }

  /** Deleting keeps the pairing: the medicine and its row go together. */
  lemma RemovePreservesPairing(t: Tables, id: string)
    requires Paired(t.medicines, t.inventory)
    ensures Paired(Remove(t, id).medicines, Remove(t, id).inventory)
    ensures MedicineIds(Remove(t, id).medicines) == MedicineIds(t.medicines) - {id}
  {
    WithoutMedicineIds(t.medicines, id);
    WithoutMedicineUnique(t.medicines, id);
    WithoutRowsIds(t.inventory, id);
    WithoutRowsUnique(t.inventory, id);
  }

  // ---------------------------------------------------------------------
  // Inventory movement

  /** The stock a movement asks for: Stock In adds, Stock Out subtracts,
      Adjustment sets the quantity as the new absolute level, and any other
      kind leaves the stock as it is. */
  function NewStock(stock: int, kind: MoveKind, qty: int): int
  {
    match kind
    case StockIn => stock + qty
    case StockOut => stock - qty
    case Adjustment => qty
    case PosSale => stock
  }

  /** The row after an accepted movement: new stock, new timestamp and the
      movement prepended to its history. */
  function Moved(row: InventoryRow, stock: int, kind: MoveKind, qty: int, note: string, now: int): InventoryRow
  {
    row.(stock := stock, lastUpdated := now, history := [Movement(kind, qty, note, now)] + row.history)
  }

  /** Record a movement against the first row of the medicine. */
  function Move(inv: seq<InventoryRow>, medId: string, kind: MoveKind, qty: int, note: string, now: int)
    : (r: Result<seq<InventoryRow>>)
    ensures RowIndex(inv, medId).None? || qty <= 0 ==> r == Err(InvalidEntry)
    ensures RowIndex(inv, medId).Some? && qty > 0 ==>
      var i := RowIndex(inv, medId).value;
      var s := NewStock(inv[i].stock, kind, qty);
      && (s < 0 <==> r == Err(NegativeStock))
      && (s >= 0 ==> r.Ok?)
    ensures r.Ok? ==>
      var i := RowIndex(inv, medId).value;
      && |r.value| == |inv|
      && r.value[i].medicineId == medId
      && r.value[i].stock == NewStock(inv[i].stock, kind, qty) >= 0
      && r.value[i].lastUpdated == now
      && r.value[i].history == [Movement(kind, qty, note, now)] + inv[i].history
      && (forall j :: 0 <= j < |inv| && j != i ==> r.value[j] == inv[j])
  {
    match RowIndex(inv, medId)
    case None => Err(InvalidEntry)
    case Some(i) =>
      if qty <= 0 then Err(InvalidEntry)
      else
        var s := NewStock(inv[i].stock, kind, qty);
        if s < 0 then Err(NegativeStock)
        else Ok(inv[i := Moved(inv[i], s, kind, qty, note, now)])
  }

  /** An accepted movement keeps every stock non-negative and keeps the pairing. */
  lemma MovePreservesInvariants(meds: seq<Medicine>, inv: seq<InventoryRow>, medId: string, kind: MoveKind, qty: int, note: string, now: int)
    requires NonNegativeStock(inv) && Paired(meds, inv)
    ensures Move(inv, medId, kind, qty, note, now).Ok? ==>
      NonNegativeStock(Move(inv, medId, kind, qty, note, now).value) && Paired(meds, Move(inv, medId, kind, qty, note, now).value)
  {
    var r := Move(inv, medId, kind, qty, note, now);
    if r.Ok? {
      var i := RowIndex(inv, medId).value;
      assert r.value == inv[i := r.value[i]];
      RowIdsUpdate(inv, i, r.value[i]);
    }
  }

  /** What an accepted movement does to the dashboard's total stock. */
  lemma MoveTotalStock(inv: seq<InventoryRow>, medId: string, kind: MoveKind, qty: int, note: string, now: int)
    requires Move(inv, medId, kind, qty, note, now).Ok?
    ensures var r := Move(inv, medId, kind, qty, note, now).value;
      var old_stock := inv[RowIndex(inv, medId).value].stock;
      TotalStock(r) == match kind
        case StockIn => TotalStock(inv) + qty
        case StockOut => TotalStock(inv) - qty
        case Adjustment => TotalStock(inv) - old_stock + qty
        case PosSale => TotalStock(inv)
  {
    var r := Move(inv, medId, kind, qty, note, now).value;
    var i := RowIndex(inv, medId).value;
    assert r == inv[i := r[i]];
    TotalStockUpdate(inv, i, r[i]);
  }

  /** Adjustment sets an absolute level: repeating the same adjustment leaves
      the stock at the same value but still records a second movement. */
  lemma AdjustmentTwice(inv: seq<InventoryRow>, medId: string, qty: int, note: string, now1: int, now2: int)
    requires RowIndex(inv, medId).Some? && qty > 0
    ensures Move(inv, medId, Adjustment, qty, note, now1).Ok?
    ensures var once := Move(inv, medId, Adjustment, qty, note, now1).value;
      var twice := Move(once, medId, Adjustment, qty, note, now2);
      var i := RowIndex(inv, medId).value;
      && twice.Ok?
      && RowIndex(once, medId) == Some(i)
      && once[i].stock == twice.value[i].stock == qty
      && |twice.value[i].history| == |inv[i].history| + 2
  {
    var i := RowIndex(inv, medId).value;
    var once := Move(inv, medId, Adjustment, qty, note, now1).value;
    assert forall j :: 0 <= j < i ==> once[j] == inv[j];
  }

  // ---------------------------------------------------------------------
  // POS sale

  /** An expiry date names a UTC midnight; the medicine is expired once that
      instant lies strictly before now. No date never expires. */
  predicate Expired(expiry: Option<int>, now: int)
  {
    expiry.Some? && expiry.value * 86400000 < now
  }

  /** In days: expired means the expiry day is before today, or it is today
      and now is past midnight. A medicine expiring today cannot be sold. */
  lemma ExpiredByDay(d: int, now: int)
    ensures Expired(Some(d), now) <==> d < Day(now) || (d == Day(now) && now % DayMs != 0)
  {
    var q, m := now / 86400000, now % 86400000;
    assert now == q * 86400000 + m && 0 <= m < 86400000;
    if d < q {
      assert d * 86400000 <= q * 86400000 - 86400000;
    } else if d > q {
      assert d * 86400000 >= q * 86400000 + 86400000;
    }
  }

  /** Check 1: the medicine and its inventory row both exist. */
  predicate Available(meds: seq<Medicine>, inv: seq<InventoryRow>, medId: string)
  {
    FindMedicine(meds, medId).Some? && RowIndex(inv, medId).Some?
  }

  /** Check 3 fails: an RX medicine sold without a prescription. */
  predicate MissingPrescription(m: Medicine, hasRx: bool)
  {
    m.dispense == RX && !hasRx
  }

  /** The cashier stamped on a sale: the session's username, or 'unknown'. */
  function Cashier(session: Option<Actor>): string
  {
    if session.Some? && session.value.username != "" then session.value.username else "unknown"
  }

  datatype Checkout = Checkout(inventory: seq<InventoryRow>, sale: Sale)

  /** POS checkout. The four checks run in order and the first failure wins. */
  function Sell(meds: seq<Medicine>, inv: seq<InventoryRow>, medId: string, qty: int, hasRx: bool,
                session: Option<Actor>, now: int): (r: Result<Checkout>)
    ensures !Available(meds, inv, medId) ==> r == Err(Unavailable)
    ensures Available(meds, inv, medId) ==>
      var m := FindMedicine(meds, medId).value;
      var stock := inv[RowIndex(inv, medId).value].stock;
      && (Expired(m.expiry, now) ==> r == Err(ExpiredMedicine))
      && (!Expired(m.expiry, now) && MissingPrescription(m, hasRx) ==> r == Err(PrescriptionRequired))
      && (!Expired(m.expiry, now) && !MissingPrescription(m, hasRx) && (qty <= 0 || qty > stock) ==>
            r == Err(InvalidQuantity))
      && (r.Ok? <==> !Expired(m.expiry, now) && !MissingPrescription(m, hasRx) && 0 < qty <= stock)
    ensures r.Ok? ==>
      var i := RowIndex(inv, medId).value;
      var m := FindMedicine(meds, medId).value;
      var out := r.value.inventory;
      && |out| == |inv|
      && out[i].medicineId == medId
      && out[i].stock == inv[i].stock - qty >= 0
      && out[i].lastUpdated == now
      && out[i].history == [Movement(PosSale, qty, "Sold via POS", now)] + inv[i].history
      && (forall j :: 0 <= j < |inv| && j != i ==> out[j] == inv[j])
      && r.value.sale == Sale(medId, m.name, qty, qty * m.priceCents, now, Cashier(session))
  {
    match (FindMedicine(meds, medId), RowIndex(inv, medId))
    case (Some(m), Some(i)) =>
      if Expired(m.expiry, now) then Err(ExpiredMedicine)
      else if MissingPrescription(m, hasRx) then Err(PrescriptionRequired)
      else if qty <= 0 || qty > inv[i].stock then Err(InvalidQuantity)
      else
        var row := Moved(inv[i], inv[i].stock - qty, PosSale, qty, "Sold via POS", now);
        Ok(Checkout(inv[i := row], Sale(medId, m.name, qty, qty * m.priceCents, now, Cashier(session))))
    case _ => Err(Unavailable)
  }

  /** A sale keeps every stock non-negative and keeps the pairing. */
  lemma SellPreservesInvariants(meds: seq<Medicine>, inv: seq<InventoryRow>, medId: string, qty: int, hasRx: bool,
                                session: Option<Actor>, now: int)
    requires NonNegativeStock(inv) && Paired(meds, inv)
    ensures var r := Sell(meds, inv, medId, qty, hasRx, session, now);
      r.Ok? ==> NonNegativeStock(r.value.inventory) && Paired(meds, r.value.inventory)
  {
    var r := Sell(meds, inv, medId, qty, hasRx, session, now);
    if r.Ok? {
      var i := RowIndex(inv, medId).value;
      assert r.value.inventory == inv[i := r.value.inventory[i]];
      RowIdsUpdate(inv, i, r.value.inventory[i]);
    }
  }

  /** A sale takes exactly its quantity out of the total stock, and adds
      exactly its total to both revenue figures once it is recorded. */
  lemma SellTotals(meds: seq<Medicine>, inv: seq<InventoryRow>, sales: seq<Sale>, medId: string, qty: int,
                   hasRx: bool, session: Option<Actor>, now: int)
    requires Sell(meds, inv, medId, qty, hasRx, session, now).Ok?
    ensures var c := Sell(meds, inv, medId, qty, hasRx, session, now).value;
      && TotalStock(c.inventory) == TotalStock(inv) - qty
      && ReportRevenue([c.sale] + sales) == ReportRevenue(sales) + qty * FindMedicine(meds, medId).value.priceCents
      && DashboardRevenue([c.sale] + sales, now) == DashboardRevenue(sales, now) + c.sale.totalCents
  {
    var c := Sell(meds, inv, medId, qty, hasRx, session, now).value;
    var i := RowIndex(inv, medId).value;
    assert c.inventory == inv[i := c.inventory[i]];
    TotalStockUpdate(inv, i, c.inventory[i]);
    RevenuePrepend(c.sale, sales, now);
  }

  /** When the stores are paired, a sale is unavailable exactly when the
      medicine is not in the catalogue: a medicine never lacks its row. */
  lemma AvailableWhenPaired(meds: seq<Medicine>, inv: seq<InventoryRow>, medId: string)
    requires Paired(meds, inv)
    ensures Available(meds, inv, medId) <==> medId in MedicineIds(meds)
  {
    MedicineIdsHas(meds, medId);
    RowIdsHas(inv, medId);
  }

  /** After a delete, neither a movement nor a sale finds the medicine. */
  lemma RemoveThenRejected(t: Tables, id: string, kind: MoveKind, qty: int, note: string, hasRx: bool,
                           session: Option<Actor>, now: int)
    ensures var u := Remove(t, id);
      && Move(u.inventory, id, kind, qty, note, now) == Err(InvalidEntry)
      && Sell(u.medicines, u.inventory, id, qty, hasRx, session, now) == Err(Unavailable)
  {
  }

  // ---------------------------------------------------------------------
  // Signup and login

  predicate Registered(users: seq<User>, username: string)
  {
    exists i :: 0 <= i < |users| && users[i].username == username
  }

  /** Signup refuses a taken username and otherwise appends the new user. */
  function SignUp(users: seq<User>, username: string, password: string, role: string): (r: Result<seq<User>>)
    ensures Registered(users, username) <==> r == Err(UsernameTaken)
    ensures r.Ok? ==> r.value == users + [User(username, password, role)]
  {
    if Registered(users, username) then Err(UsernameTaken)
    else Ok(users + [User(username, password, role)])
  }

  /** Signup keeps usernames unique. */
  lemma SignUpKeepsUnique(users: seq<User>, username: string, password: string, role: string)
    requires UniqueUsernames(users)
    ensures SignUp(users, username, password, role).Ok? ==> UniqueUsernames(SignUp(users, username, password, role).value)
  {
    var r := SignUp(users, username, password, role);
    if r.Ok? {
      var u := r.value;
      forall i, j | 0 <= i < j < |u| ensures u[i].username != u[j].username {
        if j == |users| {
          assert u[i] == users[i];
        }
      }
    }
  }

  /** The first user whose username and password both match. */
  function UserIndex(users: seq<User>, username: string, password: string): (r: Option<nat>)
    ensures r.Some? ==> r.value < |users| && users[r.value].username == username && users[r.value].password == password
    ensures r.Some? ==> forall j :: 0 <= j < r.value ==> !(users[j].username == username && users[j].password == password)
    ensures r.None? <==> forall j :: 0 <= j < |users| ==> !(users[j].username == username && users[j].password == password)
  {
    if |users| == 0 then None
    else if users[0].username == username && users[0].password == password then Some(0)
    else match UserIndex(users[1..], username, password)
      case None => None
      case Some(k) => Some(k + 1)
  }

  /** Login: the session of the first matching user, or a refusal. */
  function LogIn(users: seq<User>, username: string, password: string): (r: Result<Actor>)
    ensures r.Err? <==> UserIndex(users, username, password).None?
    ensures r.Err? ==> r.error == InvalidCredentials
    ensures r.Ok? ==> r.value.username == username && r.value.role == users[UserIndex(users, username, password).value].role
  {
    match UserIndex(users, username, password)
    case None => Err(InvalidCredentials)
    case Some(i) => Ok(Actor(users[i].username, users[i].role))
  }

  // ---------------------------------------------------------------------
  // Worked scenarios

  /** Stock 10, reorder level 5: Stock Out 7 leaves 3 and puts the medicine
      on the reorder list; a further Stock Out 10 is refused and stock stays 3. */
  lemma StockOutScenario(m: Medicine, now: int)
    requires m.reorderLevel == 5
    ensures var inv := [InventoryRow(m.id, 10, 0, [])];
      var r := Move(inv, m.id, StockOut, 7, "", now);
      && r.Ok? && r.value[0].stock == 3
      && LowStockCount([m], r.value) == 1
      && |ReorderList([m], r.value)| == 1
      && Move(r.value, m.id, StockOut, 10, "", now) == Err(NegativeStock)
  {
    var inv := [InventoryRow(m.id, 10, 0, [])];
    var r := Move(inv, m.id, StockOut, 7, "", now).value;
    assert r[1..] == [];
    assert LowStock([m], r[0]);
    LowStockCountIsReorderLength([m], r);
  }

  /** Price 12.00, stock 15, prescription shown: selling 3 leaves 12 and
      records a sale of 36.00. */
  lemma SaleScenario(m: Medicine, now: int)
    requires m.priceCents == 1200 && !Expired(m.expiry, now)
    ensures var r := Sell([m], [InventoryRow(m.id, 15, 0, [])], m.id, 3, true, None, now);
      r.Ok? && r.value.inventory[0].stock == 12 && r.value.sale.totalCents == 3600
  {
  }
}
