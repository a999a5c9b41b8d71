/** Records of the pharmacy's four stores (medicines, inventory, sales,
    users) and the audit log, the clock, and the first-match lookups the
    handlers use to find a medicine or an inventory row. */
module Domain {

  datatype Option<T> = None | Some(value: T)

  /** Milliseconds in a day. Timestamps are milliseconds since the epoch, UTC. */
  const DayMs: int := 86400000

  /** The UTC calendar day of a timestamp: what the first ten characters of
      its ISO form (`YYYY-MM-DD`) name, counted in days since the epoch. */
  function Day(t: int): int
  {
    t / 86400000
  }

  datatype DispenseType = OTC | RX

  /** A catalogue entry. `expiry` is the day number of the expiry date, or
      None when the date field was left empty (an invalid date). Prices are
      integer cents. */
  datatype Medicine = Medicine(
    id: string,
    name: string,
    barcode: string,
    shelf: string,
    dispense: DispenseType,
    classification: string,
    reorderLevel: int,
    expiry: Option<int>,
    priceCents: int)

  /** The movement kinds a history entry can carry. The inventory form offers
      the first three; POS checkout writes the fourth. */
  datatype MoveKind = StockIn | StockOut | Adjustment | PosSale

  function KindLabel(k: MoveKind): string
  {
    match k
    case StockIn => "Stock In"
    case StockOut => "Stock Out"
    case Adjustment => "Adjustment"
    case PosSale => "POS Sale"
  }

  datatype Movement = Movement(kind: MoveKind, qty: int, note: string, ts: int)

  /** The ledger record of one medicine; `history` is newest first. */
  datatype InventoryRow = InventoryRow(medicineId: string, stock: int, lastUpdated: int, history: seq<Movement>)

  /** A sale record; name and total are copied when the sale is made. */
  datatype Sale = Sale(medicineId: string, medicineName: string, qty: int, totalCents: int, ts: int, cashier: string)

  datatype User = User(username: string, password: string, role: string)

  /** The logged-in session, as far as the core reads it. */
  datatype Actor = Actor(username: string, role: string)

  datatype AuditEntry = AuditEntry(ts: int, user: string, role: string, action: string, details: string)

  /** `meds.findIndex(m => m.id === id)`: the first medicine with that id. */
  function MedicineIndex(meds: seq<Medicine>, id: string): (r: Option<nat>)
    ensures r.Some? ==> r.value < |meds| && meds[r.value].id == id
    ensures r.Some? ==> forall j :: 0 <= j < r.value ==> meds[j].id != id
    ensures r.None? <==> forall j :: 0 <= j < |meds| ==> meds[j].id != id
  {
    if |meds| == 0 then None
    else if meds[0].id == id then Some(0)
    else match MedicineIndex(meds[1..], id)
      case None => None
      case Some(k) => Some(k + 1)
  }

  /** `medicineById(id)`: the first medicine with that id, if any. */
  function FindMedicine(meds: seq<Medicine>, id: string): (r: Option<Medicine>)
    ensures r.Some? <==> MedicineIndex(meds, id).Some?
    ensures r.Some? ==> r.value == meds[MedicineIndex(meds, id).value] && r.value.id == id
  {
    match MedicineIndex(meds, id)
    case None => None
    case Some(i) => Some(meds[i])
  }

  /** `inv.find(r => r.medicineId === id)`, as an index: the first row of that medicine. */
  function RowIndex(inv: seq<InventoryRow>, id: string): (r: Option<nat>)
    ensures r.Some? ==> r.value < |inv| && inv[r.value].medicineId == id
    ensures r.Some? ==> forall j :: 0 <= j < r.value ==> inv[j].medicineId != id
    ensures r.None? <==> forall j :: 0 <= j < |inv| ==> inv[j].medicineId != id
  {
    if |inv| == 0 then None
    else if inv[0].medicineId == id then Some(0)
    else match RowIndex(inv[1..], id)
      case None => None
      case Some(k) => Some(k + 1)
  }

  function MedicineIds(meds: seq<Medicine>): set<string>
  {
    set i | 0 <= i < |meds| :: meds[i].id
  }

  function RowIds(inv: seq<InventoryRow>): set<string>
  {
    set i | 0 <= i < |inv| :: inv[i].medicineId
  }

  lemma RowIdsHas(inv: seq<InventoryRow>, id: string)
    ensures id in RowIds(inv) <==> RowIndex(inv, id).Some?
  {
    if RowIndex(inv, id).Some? {
      assert inv[RowIndex(inv, id).value].medicineId == id;
    }
  }

  lemma MedicineIdsHas(meds: seq<Medicine>, id: string)
    ensures id in MedicineIds(meds) <==> MedicineIndex(meds, id).Some?
  {
    if MedicineIndex(meds, id).Some? {
      assert meds[MedicineIndex(meds, id).value].id == id;
    }
  }

  predicate UniqueMedicineIds(meds: seq<Medicine>)
  {
    forall i, j :: 0 <= i < j < |meds| ==> meds[i].id != meds[j].id
  }

  predicate UniqueRowIds(inv: seq<InventoryRow>)
  {
    forall i, j :: 0 <= i < j < |inv| ==> inv[i].medicineId != inv[j].medicineId
  }

  /** The ledger pairing: ids are unique on both sides and every medicine
      has exactly one inventory row and every row exactly one medicine. */
  predicate Paired(meds: seq<Medicine>, inv: seq<InventoryRow>)
  {
    UniqueMedicineIds(meds) && UniqueRowIds(inv) && MedicineIds(meds) == RowIds(inv)
  }

  predicate NonNegativeStock(inv: seq<InventoryRow>)
  {
    forall i :: 0 <= i < |inv| ==> inv[i].stock >= 0
  }

  predicate UniqueUsernames(users: seq<User>)
  {
    forall i, j :: 0 <= i < j < |users| ==> users[i].username != users[j].username
  }

  /** Number of inventory rows that belong to medicine `id`. */
  function RowCount(inv: seq<InventoryRow>, id: string): nat
  {
    if |inv| == 0 then 0
    else (if inv[0].medicineId == id then 1 else 0) + RowCount(inv[1..], id)
  }

  /** With unique row ids, a medicine has one row if it has any, and none otherwise. */
  lemma {:induction false} RowCountUnique(inv: seq<InventoryRow>, id: string)
    requires UniqueRowIds(inv)
    ensures RowCount(inv, id) == if id in RowIds(inv) then 1 else 0
  {
    if |inv| > 0 {
      RowCountUnique(inv[1..], id);
      assert RowIds(inv) == {inv[0].medicineId} + RowIds(inv[1..]) by {
        forall x | x in RowIds(inv) ensures x in {inv[0].medicineId} + RowIds(inv[1..]) {
          var i :| 0 <= i < |inv| && inv[i].medicineId == x;
          if i > 0 { assert inv[1..][i - 1] == inv[i]; }
        }
        forall x | x in RowIds(inv[1..]) ensures x in RowIds(inv) {
          var i :| 0 <= i < |inv[1..]| && inv[1..][i].medicineId == x;
          assert inv[i + 1] == inv[1..][i];
        }
      }
      if inv[0].medicineId == id {
        forall i | 0 <= i < |inv[1..]| ensures inv[1..][i].medicineId != id {
          assert inv[1..][i] == inv[i + 1];
        }
      }
    }
  }

  /** Decimal digits of a natural number, as `String(n)` writes it. */
  function NatToString(n: nat): (s: string)
    ensures |s| >= 1
    ensures forall k :: 0 <= k < |s| ==> '0' <= s[k] <= '9'
  {
    var d := [('0' as int + n % 10) as char];
    if n < 10 then d else NatToString(n / 10) + d
  }

  /** `String(n)` of an integer. */
  function IntToString(n: int): string
  {
    if n < 0 then "-" + NatToString(-n) else NatToString(n)
  }
}
