/** The stores and the helpers beside them: the audit log with its cap, the
    medicine-id index over the inventory, and the demo-data seeding. The
    browser's storage is modelled as the fields of one `Store` object. */
module Data {
  import opened Domain

  /** The audit log keeps only the most recent entries. */
  const AuditCap: nat := 500

  /** The entry `addAudit` writes: the session's username and role, each
      falling back to 'System' when missing or empty. */
  function AuditEntryFor(session: Option<Actor>, action: string, details: string, now: int): (e: AuditEntry)
    ensures session.None? ==> e.user == "System" && e.role == "System"
    ensures session.Some? && session.value.username != "" ==> e.user == session.value.username
    ensures session.Some? && session.value.role != "" ==> e.role == session.value.role
    ensures e.action == action && e.details == details && e.ts == now
  {
    AuditEntry(
      now,
      if session.Some? && session.value.username != "" then session.value.username else "System",
      if session.Some? && session.value.role != "" then session.value.role else "System",
      action,
      details)
  }

  /** The log after `addAudit`: the new entry first, then the old entries
      newest first, cut to the cap so that the oldest ones drop out. */
  function Logged(logs: seq<AuditEntry>, e: AuditEntry): (r: seq<AuditEntry>)
    ensures |r| == if |logs| < AuditCap then |logs| + 1 else AuditCap
    ensures r[0] == e
    ensures r[1..] == logs[..|r| - 1]
  {
    var all := [e] + logs;
    all[..if |all| < AuditCap then |all| else AuditCap]
  }

  // ---------------------------------------------------------------------
  // Inventory map

  /** `row` is the last row of `inv` that belongs to medicine `id`. */
  predicate LastRowOf(inv: seq<InventoryRow>, id: string, row: InventoryRow)
  {
    exists i :: 0 <= i < |inv| && inv[i] == row && row.medicineId == id
      && forall j :: i < j < |inv| ==> inv[j].medicineId != id
  }

  /** `getInventoryMap`: medicine id to inventory row, later rows
      overwriting earlier ones. With unique row ids it agrees with the
      first-match lookup the handlers use. */
  method InventoryMap(inv: seq<InventoryRow>) returns (m: map<string, InventoryRow>)
    ensures m.Keys == RowIds(inv)
    ensures forall id :: id in m ==> LastRowOf(inv, id, m[id])
    ensures UniqueRowIds(inv) ==> forall id :: id in m ==> RowIndex(inv, id).Some? && m[id] == inv[RowIndex(inv, id).value]
  {
    m := map[];
    var k := 0;
    while k < |inv|
      invariant 0 <= k <= |inv|
      invariant m.Keys == RowIds(inv[..k])
      invariant forall id :: id in m ==> LastRowOf(inv[..k], id, m[id])
    {
      var row := inv[k];
      ghost var before := m;
      m := m[row.medicineId := row];
      assert inv[..k + 1] == inv[..k] + [row];
      forall x | x in RowIds(inv[..k]) ensures x in RowIds(inv[..k + 1]) {
        var i :| 0 <= i < k && inv[..k][i].medicineId == x;
        assert inv[..k + 1][i] == inv[..k][i];
      }
      assert inv[..k + 1][k] == row;
      forall id | id in m ensures LastRowOf(inv[..k + 1], id, m[id]) {
        if id == row.medicineId {
          assert inv[..k + 1][k] == m[id];
        } else {
          var i :| 0 <= i < k && inv[..k][i] == before[id] && before[id].medicineId == id
            && forall j :: i < j < k ==> inv[..k][j].medicineId != id;
          assert inv[..k + 1][i] == m[id];
          ghost var next := inv[..k + 1];
          forall j | i < j < k + 1 ensures next[j].medicineId != id {
            if j < k {
              assert next[j] == inv[..k][j];
            }
          }
        }
      }
      k := k + 1;
    }
    assert inv[..k] == inv;
    if UniqueRowIds(inv) {
      forall id | id in m ensures RowIndex(inv, id).Some? && m[id] == inv[RowIndex(inv, id).value] {
        RowIdsHas(inv, id);
        var i :| 0 <= i < |inv| && inv[i] == m[id] && m[id].medicineId == id
          && forall j :: i < j < |inv| ==> inv[j].medicineId != id;
        assert RowIndex(inv, id) == Some(i);
      }
    }
  }

  // ---------------------------------------------------------------------
  // Demo data

  /** The constant stock levels the demo rows are given, by position. */
  const SeedStockLevels: seq<int> := [
    45, 22, 60, 9, 35, 28, 42, 31, 55, 19, 38, 26, 50, 24, 12, 18, 15, 32, 41, 20, 37, 29, 44, 33, 25, 21,
    14, 27, 16, 39, 36, 23, 48, 30, 17, 40, 13, 28, 52, 34, 43, 20, 38, 25, 19, 11, 26, 33, 15, 47, 22, 29]

  /** `stockLevels[idx] || Math.floor(Math.random() * 60) + 5`: a missing or
      zero level falls back to the injected random draw, between 5 and 64. */
  function SeedStock(idx: nat, levels: seq<int>, draw: nat -> nat): (s: int)
    ensures s != 0
    ensures idx < |levels| && levels[idx] != 0 ==> s == levels[idx]
    ensures !(idx < |levels| && levels[idx] != 0) ==> 5 <= s < 65
  {
    if idx < |levels| && levels[idx] != 0 then levels[idx] else draw(idx) % 60 + 5
  }

  predicate NoNegativeLevel(levels: seq<int>)
  {
    forall i :: 0 <= i < |levels| ==> levels[i] >= 0
  }

  /** The demo inventory: one row per medicine, in medicine order, each with
      the single movement 'Initial load'. */
  function SeedInventory(meds: seq<Medicine>, levels: seq<int>, draw: nat -> nat, now: int): (r: seq<InventoryRow>)
    ensures |r| == |meds|
    ensures forall i :: 0 <= i < |r| ==>
      && r[i].medicineId == meds[i].id
      && r[i].stock == SeedStock(i, levels, draw)
      && r[i].lastUpdated == now
      && r[i].history == [Movement(StockIn, 10, "Initial load", now)]
  {
    seq(|meds|, i requires 0 <= i < |meds| =>
      InventoryRow(meds[i].id, SeedStock(i, levels, draw), now, [Movement(StockIn, 10, "Initial load", now)]))
  }

  /** Seeded rows are paired one to one with medicines whose ids are unique,
      and no seeded stock is negative when no level is. */
  lemma SeedInventoryPaired(meds: seq<Medicine>, levels: seq<int>, draw: nat -> nat, now: int)
    requires UniqueMedicineIds(meds)
    requires NoNegativeLevel(levels)
    ensures Paired(meds, SeedInventory(meds, levels, draw, now))
    ensures NonNegativeStock(SeedInventory(meds, levels, draw, now))
  {
    var inv := SeedInventory(meds, levels, draw, now);
    forall x | x in MedicineIds(meds) ensures x in RowIds(inv) {
      var i :| 0 <= i < |meds| && meds[i].id == x;
      assert inv[i].medicineId == x;
    }
  }

  // ---------------------------------------------------------------------
  // The stores

  /** The users, session, medicines, inventory, sales and audit stores. */
  class Store {
    var users: seq<User>
    var session: Option<Actor>
    var medicines: seq<Medicine>
    var inventory: seq<InventoryRow>
    var sales: seq<Sale>
    var audit: seq<AuditEntry>

    /** What the handlers keep true: no negative stock, one inventory row per
        medicine, unique usernames, a bounded audit log. */
    ghost predicate Valid()
      reads this
    {
      && NonNegativeStock(inventory)
      && Paired(medicines, inventory)
      && UniqueUsernames(users)
      && |audit| <= AuditCap
    }

    /** Empty storage: every store reads as an empty list, with no session. */
    constructor ()
      ensures users == [] && session == None && medicines == [] && inventory == []
      ensures sales == [] && audit == []
      ensures Valid()
    {
      users, session, medicines, inventory, sales, audit := [], None, [], [], [], [];
    }

    /** `addAudit`: prepend an entry stamped with the current session, then
        keep at most `AuditCap` entries. */
    method AddAudit(action: string, details: string, now: int)
      modifies this`audit
      ensures audit == Logged(old(audit), AuditEntryFor(session, action, details, now))
      ensures |audit| <= AuditCap
    {
      var logs := [AuditEntryFor(session, action, details, now)] + audit;
      audit := logs[..if |logs| < AuditCap then |logs| else AuditCap];
    }

    /** `seedDemoData(force)`: without `force`, existing users leave every
        store as it is; otherwise all stores are replaced by the demo data,
        the session is cleared and one 'Seed Data' entry is logged. */
    method SeedDemoData(force: bool, seedUsers: seq<User>, seedMeds: seq<Medicine>, levels: seq<int>,
                        draw: nat -> nat, now: int)
      modifies this
      ensures !force && |old(users)| > 0 ==> unchanged(this)
      ensures force || |old(users)| == 0 ==>
        && users == seedUsers && medicines == seedMeds
        && inventory == SeedInventory(seedMeds, levels, draw, now)
        && sales == [] && session == None
        && audit == [AuditEntryFor(None, "Seed Data", "Demo data initialized", now)]
      ensures old(Valid()) && !force && |old(users)| > 0 ==> Valid()
      ensures (force || |old(users)| == 0) ==>
        UniqueUsernames(seedUsers) && UniqueMedicineIds(seedMeds) && NoNegativeLevel(levels) ==> Valid()
    {
      if !force && |users| > 0 {
        return;
      }
      users := seedUsers;
      medicines := seedMeds;
      inventory := SeedInventory(seedMeds, levels, draw, now);
      sales := [];
      audit := [];
      session := None;
      AddAudit("Seed Data", "Demo data initialized", now);
      if UniqueMedicineIds(seedMeds) && NoNegativeLevel(levels) {
        SeedInventoryPaired(seedMeds, levels, draw, now);
      }
    }
  }
}
