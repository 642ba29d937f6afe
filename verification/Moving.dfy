/** What a transaction has established survives the commits of other showtimes. */
module Moving {
  import opened Schema
  import opened Statements
  import opened Bodies
  import opened Invariants
  import opened Protocol
  import opened Locality
  import opened Paths

  /** `db` is a later state in which the showtime's rows are as they were in `m`. */
  ghost predicate Later(cat: Catalog, m: Tables, db: Tables, op: Op, st: ShowtimeId) {
    && Inv(cat, m) && Inv(cat, db) && Evolves(m, db) && Show(m, st) == Show(db, st)
    && LocksShowtime(m, op, st) && LocksShowtime(db, op, st)
    && (op.Hold? ==> op.token !in db.holds)
  }

  lemma TokenWithinBoth(cat: Catalog, m: Tables, db: Tables, op: Op, st: ShowtimeId)
    requires Later(cat, m, db, op, st) && !op.Sweep?
    ensures TokenWithin(m, op.token, st) && TokenWithin(db, op.token, st)
  {
    MergeNothing(m);
    MergeNothing(db);
    TokenStaysWithin(cat, m, NOTHING, op.token, st);
    TokenStaysWithin(cat, db, NOTHING, op.token, st);
  }

  /** A statement that reads no keys does the same in both. */
  lemma StatementMoves(cat: Catalog, m: Tables, db: Tables, op: Op, st: ShowtimeId, now: Time, pc: Pc, w: Tables)
    requires Later(cat, m, db, op, st) && Within(w, st) && w.bookings == map[]
    requires AtStatement(op, pc) && !ReadsKeys(pc)
    ensures Execute(cat, Merge(db, w), op, now, pc) == Execute(cat, Merge(m, w), op, now, pc)
  {
    ShowOfMerge(m, w, st);
    ShowOfMerge(db, w, st);
    if !op.Sweep? {
      TokenStaysWithin(cat, m, w, op.token, st);
      TokenStaysWithin(cat, db, w, op.token, st);
    }
    PlusEmpty(m.bookings);
    PlusEmpty(db.bookings);
    StatementWithin(cat, Merge(m, w), op, st, now, pc);
    StatementWithin(cat, Merge(db, w), op, st, now, pc);
  }

  lemma SuppressedMoves(m: Tables, db: Tables, refs: seq<Ref>, b: BookingRow)
    requires BookingsEvolve(m, db) && AttemptsFailed(m.bookings, refs, b)
    ensures AttemptsFailed(db.bookings, refs, b)
  {
    forall ref | ref in refs ensures Suppressed(db.bookings, ref, b) {
      var r :| r in m.bookings && SameUnique(r, m.bookings[r], ref, b);
      assert SameUnique(r, db.bookings[r], ref, b);
    }
  }

  lemma HoldStaysPut(cat: Catalog, m: Tables, db: Tables, op: Op, st: ShowtimeId, now: Time)
    requires Later(cat, m, db, op, st) && !op.Sweep?
    ensures op.token in m.holds <==> op.token in db.holds
    ensures op.token in m.holds ==> m.holds[op.token] == db.holds[op.token]
    ensures ConfirmHold(m.holds, op.token, now) == ConfirmHold(db.holds, op.token, now)
    ensures ReleaseHold(m.holds, op.token, now) == ReleaseHold(db.holds, op.token, now)
    ensures ConfirmHoldSeats(m.occ, op.token, now) == ConfirmHoldSeats(db.occ, op.token, now)
    ensures ReleaseHoldSeats(m.occ, op.token, now) == ReleaseHoldSeats(db.occ, op.token, now)
    ensures GetHoldSeats(cat, m.occ, op.token) == GetHoldSeats(cat, db.occ, op.token)
  {
    TokenWithinBoth(cat, m, db, op, st);
    HoldRowWithin(m, op.token, st, now);
    HoldRowWithin(db, op.token, st, now);
    HoldRowsWithin(cat, m, op.token, st, now);
    HoldRowsWithin(cat, db, op.token, st, now);
  }

  /** At a statement that reads keys, everything established so far still holds. */
  lemma PathMoves(cat: Catalog, m: Tables, db: Tables, op: Op, st: ShowtimeId, now: Time, pc: Pc, w: Tables)
    requires Later(cat, m, db, op, st) && ReadsKeys(pc) && OnPath(cat, m, op, now, pc, w)
    ensures OnPath(cat, db, op, now, pc, w)
  {
    HoldStaysPut(cat, m, db, op, st, now);
    if pc.ConfirmInsert? {
      SuppressedMoves(m, db, op.refs[..pc.attempt], BookingRowFor(cat, op, pc.h, |pc.seats|, now));
    } else if pc.ConfirmRecheck? {
      SuppressedMoves(m, db, op.refs[..pc.attempt + 1], BookingRowFor(cat, op, pc.h, |pc.seats|, now));
    }
  }

  // ---- a finished body commits as if it had just run ----

  lemma HoldMoves(cat: Catalog, m: Tables, db: Tables, op: Op, st: ShowtimeId, now: Time)
    requires Later(cat, m, db, op, st) && op.Hold?
    ensures HoldBody(cat, db, op, now) == HoldBody(cat, m, op, now)
  {
    HoldBodyWithin(cat, m, op, now);
    HoldBodyWithin(cat, db, op, now);
  }

  lemma HoldBodyWithin(cat: Catalog, x: Tables, op: Op, now: Time)
    requires op.Hold? && RowsOk(cat, x) && op.token !in x.holds
    ensures HoldBody(cat, x, op, now) == HoldBody(cat, Show(x, op.st), op, now)
  {
    var st := op.st;
    var reclaimed := ReclaimExpiredSeats(x.occ, st, op.seats, now);
    var h := CreateHold(st, op.customer, op.ttlSeconds, now);
    var rows := ClaimSeats(h, op.token, op.seats);
    ReclaimWithin(x.occ, st, op.seats, now);
    OccOfPlus(x.occ, reclaimed, st);
    ConflictsWithin(x.occ + reclaimed, st, op.seats, now);
    IndexWithin(x.occ + reclaimed, st, rows);
    OccOfPlus(x.occ, reclaimed + rows, st);
    SeatsOfNewHold(cat, x.occ + (reclaimed + rows), op.token, st);
  }

  lemma SeatsOfNewHold(cat: Catalog, occ: map<OccKey, OccRow>, token: Token, st: ShowtimeId)
    requires forall k :: k in occ && k.hold == token ==> occ[k].showtime == st
    ensures GetHoldSeats(cat, Occ(occ, st), token) == GetHoldSeats(cat, occ, token)
  {
    var x := Tables(map[], occ, map[]);
    HoldRowsWithin(cat, x, token, st, 0);
  }

  /** The retry loop ends at the same reference in a later state, as long as that
      reference is still free there. */
  lemma {:induction false} InsertMoves(m: Tables, db: Tables, b: BookingRow, refs: seq<Ref>)
    requires BookingsEvolve(m, db) && InsertBooking(m.bookings, b, refs).Inserted?
    requires !Suppressed(db.bookings, InsertBooking(m.bookings, b, refs).ref, b)
    ensures InsertBooking(db.bookings, b, refs) == InsertBooking(m.bookings, b, refs)
  {
    if Suppressed(m.bookings, refs[0], b) {
      SuppressedMoves(m, db, [refs[0]], b);
      assert Suppressed(db.bookings, refs[0], b);
      if KeyTaken(db.bookings, b.customer, b.key) {
        KeyTakenSuppresses(db.bookings, InsertBooking(m.bookings, b, refs).ref, b);
      }
      InsertMoves(m, db, b, refs[1..]);
    }
  }

  ghost predicate BookingsFree(db: Tables, w: Tables) {
    forall r :: r in w.bookings ==> !Suppressed(db.bookings, r, w.bookings[r])
  }

  lemma SameBooking(cat: Catalog, m: Tables, db: Tables, op: Op, st: ShowtimeId)
    requires Later(cat, m, db, op, st) && op.Confirm?
    ensures Booked(m.bookings, op.token) <==> Booked(db.bookings, op.token)
    ensures Booked(m.bookings, op.token) ==>
              var ref := GetBookingByHold(m.bookings, op.token);
              ref == GetBookingByHold(db.bookings, op.token) && m.bookings[ref] == db.bookings[ref]
  {
    TokenWithinBoth(cat, m, db, op, st);
    BookingWithin(m, op.token, st);
    BookingWithin(db, op.token, st);
  }

  lemma ConfirmMoves(cat: Catalog, m: Tables, db: Tables, op: Op, st: ShowtimeId, now: Time)
    requires Later(cat, m, db, op, st) && op.Confirm? && ConfirmBody(cat, m, op, now).Done?
    requires BookingsFree(db, ConfirmBody(cat, m, op, now).writes)
    ensures ConfirmBody(cat, db, op, now) == ConfirmBody(cat, m, op, now)
  {
    hide Inv, Show, GetHoldSeats, ConfirmHoldSeats, ConfirmHold, InsertBooking;
    HoldStaysPut(cat, m, db, op, st, now);
    var h := m.holds[op.token];
    if h.confirmedAt.Some? {
      SameBooking(cat, m, db, op, st);
    } else {
      var b := BookingRowFor(cat, op, h, |GetHoldSeats(cat, m.occ, op.token)|, now);
      var ref := InsertBooking(m.bookings, b, op.refs).ref;
      assert ConfirmBody(cat, m, op, now).writes.bookings == map[ref := b];
      InsertMoves(m, db, b, op.refs);
      if !KeyOk(db, op, h) {
        KeyTakenSuppresses(db.bookings, ref, b);
      }
    }
  }

  lemma BodyMoves(cat: Catalog, m: Tables, db: Tables, op: Op, st: ShowtimeId, now: Time)
    requires Later(cat, m, db, op, st) && Body(cat, m, op, now).Done?
    requires BookingsFree(db, Body(cat, m, op, now).writes)
    ensures Body(cat, db, op, now) == Body(cat, m, op, now)
  {
    match op
    case Hold(_, _, _, _, _) => HoldMoves(cat, m, db, op, st, now);
    case Confirm(_, _, _) => ConfirmMoves(cat, m, db, op, st, now);
    case Release(_) => HoldStaysPut(cat, m, db, op, st, now);
    case Sweep(_) =>
      ReclaimWithin(m.occ, st, [], now);
      ReclaimWithin(db.occ, st, [], now);
  }

  // ---- a transaction writes only rows of the showtime it locked ----

  ghost predicate OwnWrites(m: Tables, op: Op, st: ShowtimeId, pc: Pc, w: Tables) {
    && Within(w, st)
    && (forall t :: t in w.holds ==> !op.Sweep? && t == op.token)
    && (forall k :: k in w.occ ==> (k in m.occ && m.occ[k].showtime == st) || (op.Hold? && k.hold == op.token))
    && (forall r :: r in w.bookings ==> op.Confirm? && pc.Committing? && w.bookings[r].hold == op.token)
  }

  lemma HoldWrites(cat: Catalog, m: Tables, op: Op, now: Time, pc: Pc, w: Tables)
    requires op.Hold? && HoldPath(cat, m, op, now, pc, w)
    ensures var reclaimed := ReclaimExpiredSeats(m.occ, op.st, op.seats, now);
            var h := CreateHold(op.st, op.customer, op.ttlSeconds, now);
            && w.bookings == map[] && (w.holds == map[] || w.holds == map[op.token := h])
            && (w.occ == map[] || w.occ == reclaimed || w.occ == reclaimed + ClaimSeats(h, op.token, op.seats))
  {}

  lemma HoldWithin(cat: Catalog, m: Tables, op: Op, now: Time, pc: Pc, w: Tables)
    requires op.Hold? && HoldPath(cat, m, op, now, pc, w)
    ensures OwnWrites(m, op, op.st, pc, w)
  {
    hide HoldPath;
    HoldWrites(cat, m, op, now, pc, w);
  }

  lemma ConfirmWithin(cat: Catalog, m: Tables, op: Op, st: ShowtimeId, now: Time, pc: Pc, w: Tables)
    requires op.Confirm? && TokenWithin(m, op.token, st) && ConfirmPath(cat, m, op, now, pc, w)
    ensures OwnWrites(m, op, st, pc, w)
  {}

  lemma PathWithin(cat: Catalog, m: Tables, op: Op, st: ShowtimeId, now: Time, pc: Pc, w: Tables)
    requires Inv(cat, m) && LocksShowtime(m, op, st) && OnPath(cat, m, op, now, pc, w)
    ensures OwnWrites(m, op, st, pc, w)
  {
    match op
    case Hold(_, _, _, _, _) => HoldWithin(cat, m, op, now, pc, w);
    case Confirm(token, _, _) =>
      MergeNothing(m);
      TokenStaysWithin(cat, m, NOTHING, token, st);
      ConfirmWithin(cat, m, op, st, now, pc, w);
    case Release(_) =>
    case Sweep(_) =>
  }
}
