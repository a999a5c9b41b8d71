/** The form handlers of the pharmacy pages, as methods on the stores. Each
    one reads the stores, runs the checks of its rule in `Ledger`, writes
    back only when every check passes, and then logs one audit entry. A
    refused submission changes nothing. */
module App {
  import opened Domain
  import opened Ledger
  import opened Data

  /** The audit details of a movement: `<kind> <qty> for <name>`, where a
      missing medicine reads as `undefined`. */
  function MovementDetails(kind: MoveKind, qty: int, med: Option<Medicine>): (d: string)
    ensures |d| > |KindLabel(kind)| && d[..|KindLabel(kind)|] == KindLabel(kind)
  {
    KindLabel(kind) + " " + IntToString(qty) + " for " + (if med.Some? then med.value.name else "undefined")
  }

  /** The medicine form: create or update, then log which one it was. */
  method SaveMedicine(s: Store, form: Medicine, freshId: string, now: int) returns (err: Option<Error>)
    modifies s`medicines, s`inventory, s`audit
    ensures var p := Payload(form, freshId);
      var r := Upsert(Tables(old(s.medicines), old(s.inventory)), p, now);
      && (r.Err? ==> (err == Some(r.error)
            && s.medicines == old(s.medicines) && s.inventory == old(s.inventory) && s.audit == old(s.audit)))
      && (r.Ok? ==> (err == None
            && s.medicines == r.value.medicines && s.inventory == r.value.inventory
            && s.audit == Logged(old(s.audit), AuditEntryFor(s.session,
                 if MedicineIndex(old(s.medicines), p.id).Some? then "Update Medicine" else "Create Medicine",
                 p.name, now))))
    ensures old(s.Valid()) ==> s.Valid()
  {
    var p := Payload(form, freshId);
    if s.Valid() {
      UpsertPreservesPairing(Tables(s.medicines, s.inventory), p, now);
    }
    if !HasRequiredFields(p) {
      return Some(MissingFields);
    }
    var meds := s.medicines;
    var index := MedicineIndex(meds, p.id);
    if index.Some? {
      meds := meds[index.value := p];
      s.AddAudit("Update Medicine", p.name, now);
    } else {
      meds := meds + [p];
      var inv := s.inventory;
      s.inventory := inv + [NewRow(p.id, now)];
      assert forall i :: 0 <= i < |inv| ==> s.inventory[i] == inv[i];
      s.AddAudit("Create Medicine", p.name, now);
    }
    s.medicines := meds;
    err := None;
  }

  /** Delete a medicine together with its inventory rows; always logged. */
  method DeleteMedicine(s: Store, id: string, now: int)
    modifies s`medicines, s`inventory, s`audit
    ensures var r := Remove(Tables(old(s.medicines), old(s.inventory)), id);
      s.medicines == r.medicines && s.inventory == r.inventory
    ensures s.audit == Logged(old(s.audit), AuditEntryFor(s.session, "Delete Medicine", id, now))
    ensures old(s.Valid()) ==> s.Valid()
  {
    ghost var before := s.inventory;
    if s.Valid() {
      RemovePreservesPairing(Tables(s.medicines, s.inventory), id);
    }
    s.medicines := WithoutMedicine(s.medicines, id);
    s.inventory := WithoutRows(s.inventory, id);
    forall i | 0 <= i < |s.inventory| && NonNegativeStock(before) ensures s.inventory[i].stock >= 0 {
      assert s.inventory[i] in before;
    }
    s.AddAudit("Delete Medicine", id, now);
  }

  /** The inventory form: a Stock In, Stock Out or Adjustment of `qty`
      against the medicine's row. */
  method RecordMovement(s: Store, medId: string, kind: MoveKind, qty: int, note: string, now: int)
    returns (err: Option<Error>)
    modifies s`inventory, s`audit
    ensures var r := Move(old(s.inventory), medId, kind, qty, note, now);
      && (r.Err? ==> (err == Some(r.error) && s.inventory == old(s.inventory) && s.audit == old(s.audit)))
      && (r.Ok? ==> (err == None && s.inventory == r.value
            && s.audit == Logged(old(s.audit), AuditEntryFor(s.session, "Inventory Movement",
                 MovementDetails(kind, qty, FindMedicine(s.medicines, medId)), now))))
    ensures old(s.Valid()) ==> s.Valid()
  {
    if s.Valid() {
      MovePreservesInvariants(s.medicines, s.inventory, medId, kind, qty, note, now);
    }
    var found := RowIndex(s.inventory, medId);
    if found.None? || qty <= 0 {
      return Some(InvalidEntry);
    }
    var i := found.value;
    var row := s.inventory[i];
    if kind == StockIn {
      row := row.(stock := row.stock + qty);
    }
    if kind == StockOut {
      row := row.(stock := row.stock - qty);
    }
    if kind == Adjustment {
      row := row.(stock := qty);
    }
    if row.stock < 0 {
      return Some(NegativeStock);
    }
    row := row.(lastUpdated := now, history := [Movement(kind, qty, note, now)] + row.history);
    s.inventory := s.inventory[i := row];
    s.AddAudit("Inventory Movement", MovementDetails(kind, qty, FindMedicine(s.medicines, medId)), now);
    err := None;
  }

  /** The POS checkout: take the stock, record the sale newest first and log it. */
  method Checkout(s: Store, medId: string, qty: int, hasRx: bool, now: int) returns (r: Result<Sale>)
    modifies s`inventory, s`sales, s`audit
    ensures var c := Sell(old(s.medicines), old(s.inventory), medId, qty, hasRx, s.session, now);
      && (c.Err? ==> (r == Err(c.error)
            && s.inventory == old(s.inventory) && s.sales == old(s.sales) && s.audit == old(s.audit)))
      && (c.Ok? ==> (r == Ok(c.value.sale)
            && s.inventory == c.value.inventory && s.sales == [c.value.sale] + old(s.sales)
            && s.audit == Logged(old(s.audit), AuditEntryFor(s.session, "POS Sale",
                 c.value.sale.medicineName + " x" + IntToString(qty), now))))
    ensures old(s.Valid()) ==> s.Valid()
  {
    if s.Valid() {
      SellPreservesInvariants(s.medicines, s.inventory, medId, qty, hasRx, s.session, now);
    }
    var med := FindMedicine(s.medicines, medId);
    var found := RowIndex(s.inventory, medId);
    if med.None? || found.None? {
      return Err(Unavailable);
    }
    var m := med.value;
    var i := found.value;
    if Expired(m.expiry, now) {
      return Err(ExpiredMedicine);
    }
    if m.dispense == RX && !hasRx {
      return Err(PrescriptionRequired);
    }
    var row := s.inventory[i];
    if qty <= 0 || qty > row.stock {
      return Err(InvalidQuantity);
    }
    row := row.(stock := row.stock - qty, lastUpdated := now,
                history := [Movement(PosSale, qty, "Sold via POS", now)] + row.history);
    s.inventory := s.inventory[i := row];
    var sale := Sale(medId, m.name, qty, qty * m.priceCents, now, Cashier(s.session));
    s.sales := [sale] + s.sales;
    s.AddAudit("POS Sale", m.name + " x" + IntToString(qty), now);
    r := Ok(sale);
  }

  /** The signup form: refuse a taken username, otherwise add the account. */
  method SubmitSignup(s: Store, username: string, password: string, role: string, now: int)
    returns (err: Option<Error>)
    modifies s`users, s`audit
    ensures var r := SignUp(old(s.users), username, password, role);
      && (r.Err? ==> (err == Some(r.error) && s.users == old(s.users) && s.audit == old(s.audit)))
      && (r.Ok? ==> (err == None && s.users == r.value
            && s.audit == Logged(old(s.audit), AuditEntryFor(s.session, "Signup",
                 "New " + role + " account: " + username, now))))
    ensures old(s.Valid()) ==> s.Valid()
  {
    if s.Valid() {
      SignUpKeepsUnique(s.users, username, password, role);
    }
    if Registered(s.users, username) {
      return Some(UsernameTaken);
    }
    s.users := s.users + [User(username, password, role)];
    s.AddAudit("Signup", "New " + role + " account: " + username, now);
    err := None;
  }

  /** The login form: start a session for the first matching account and log
      it under that session. */
  method SubmitLogin(s: Store, username: string, password: string, now: int) returns (err: Option<Error>)
    modifies s`session, s`audit
    ensures var r := LogIn(old(s.users), username, password);
      && (r.Err? ==> (err == Some(r.error) && s.session == old(s.session) && s.audit == old(s.audit)))
      && (r.Ok? ==> (err == None && s.session == Some(r.value)
            && s.audit == Logged(old(s.audit), AuditEntryFor(Some(r.value), "Login",
                 r.value.username + " logged in", now))))
    ensures old(s.Valid()) ==> s.Valid()
  {
    var found := UserIndex(s.users, username, password);
    if found.None? {
      return Some(InvalidCredentials);
    }
    var user := s.users[found.value];
    s.session := Some(Actor(user.username, user.role));
    s.AddAudit("Login", user.username + " logged in", now);
    err := None;
  }

  /** The dashboard's reset button: reseed with `force`, then log the reset
      (with no session, since seeding ends it). */
  method ResetDemoData(s: Store, seedUsers: seq<User>, seedMeds: seq<Medicine>, levels: seq<int>,
                       draw: nat -> nat, now: int)
    modifies s
    ensures s.users == seedUsers && s.medicines == seedMeds && s.session == None && s.sales == []
    ensures s.inventory == SeedInventory(seedMeds, levels, draw, now)
    ensures s.audit == [AuditEntryFor(None, "Reset Demo Data", "Dashboard reset performed", now),
                        AuditEntryFor(None, "Seed Data", "Demo data initialized", now)]
    ensures UniqueUsernames(seedUsers) && UniqueMedicineIds(seedMeds) && NoNegativeLevel(levels) ==> s.Valid()
  {
    s.SeedDemoData(true, seedUsers, seedMeds, levels, draw, now);
    s.AddAudit("Reset Demo Data", "Dashboard reset performed", now);
  }
}
