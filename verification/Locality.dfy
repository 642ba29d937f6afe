/** A statement sees only the rows of the showtime whose lock its transaction
    holds, except the two that look for an idempotency key or a reference. */
module Locality {
  import opened Schema
  import opened Statements
  import opened Bodies
  import opened Invariants
  import opened Protocol

  /** Every row that names the hold belongs to the showtime. */
  ghost predicate TokenWithin(x: Tables, token: Token, st: ShowtimeId) {
    && (token in x.holds ==> x.holds[token].showtime == st)
    && (forall k :: k in x.occ && k.hold == token ==> x.occ[k].showtime == st)
    && (forall r :: r in x.bookings && x.bookings[r].hold == token ==> x.bookings[r].showtime == st)
  }

  /** What one transaction may have written: rows of its own showtime. */
  ghost predicate Within(w: Tables, st: ShowtimeId) {
    && (forall t :: t in w.holds ==> w.holds[t].showtime == st)
    && (forall k :: k in w.occ ==> w.occ[k].showtime == st)
    && (forall r :: r in w.bookings ==> w.bookings[r].showtime == st)
  }

  lemma ShowOfMerge(x: Tables, w: Tables, st: ShowtimeId)
    requires Within(w, st)
    ensures Show(Merge(x, w), st) == Merge(Show(x, st), w)
  {
    HoldsOfPlus(x.holds, w.holds, st);
    OccOfPlus(x.occ, w.occ, st);
    BookingsOfPlus(x.bookings, w.bookings, st);
  }

  lemma HoldsOfPlus(holds: map<Token, HoldRow>, rows: map<Token, HoldRow>, st: ShowtimeId)
    requires forall t :: t in rows ==> rows[t].showtime == st
    ensures Holds(holds + rows, st) == Holds(holds, st) + rows
  {}

  lemma OccOfPlus(occ: map<OccKey, OccRow>, rows: map<OccKey, OccRow>, st: ShowtimeId)
    requires forall k :: k in rows ==> rows[k].showtime == st
    ensures Occ(occ + rows, st) == Occ(occ, st) + rows
  {}

  lemma BookingsOfPlus(bookings: map<Ref, BookingRow>, rows: map<Ref, BookingRow>, st: ShowtimeId)
    requires forall r :: r in rows ==> rows[r].showtime == st
    ensures Bookings(bookings + rows, st) == Bookings(bookings, st) + rows
  {}

  /** A transaction of another showtime leaves these rows alone. */
  lemma ShowSurvives(x: Tables, w: Tables, st: ShowtimeId, other: ShowtimeId)
    requires Within(w, other) && other != st
    requires forall t :: t in w.holds && t in x.holds ==> x.holds[t].showtime == other
    requires forall k :: k in w.occ && k in x.occ ==> x.occ[k].showtime == other
    requires forall r :: r in w.bookings && r in x.bookings ==> x.bookings[r].showtime == other
    ensures Show(Merge(x, w), st) == Show(x, st)
  {
    assert Holds(x.holds + w.holds, st) == Holds(x.holds, st);
    assert Occ(x.occ + w.occ, st) == Occ(x.occ, st);
    assert Bookings(x.bookings + w.bookings, st) == Bookings(x.bookings, st);
  }

  lemma TokenStaysWithin(cat: Catalog, x: Tables, w: Tables, token: Token, st: ShowtimeId)
    requires RowsOk(cat, x) && BookingsOk(cat, x)
    requires token in x.holds ==> x.holds[token].showtime == st
    requires Within(w, st)
    ensures TokenWithin(Merge(x, w), token, st)
  {
    var y := Merge(x, w);
    forall r | r in y.bookings && y.bookings[r].hold == token ensures y.bookings[r].showtime == st {
      if r !in w.bookings { assert BookingAgrees(cat, x, x.bookings[r]); }
    }
  }

  // ---- one statement at a time ----

  lemma ReclaimWithin(occ: map<OccKey, OccRow>, st: ShowtimeId, seats: seq<SeatId>, now: Time)
    ensures ReclaimExpiredSeats(Occ(occ, st), st, seats, now) == ReclaimExpiredSeats(occ, st, seats, now)
    ensures ReclaimExpiredSeatsForShowtime(Occ(occ, st), st, now) == ReclaimExpiredSeatsForShowtime(occ, st, now)
  {}

  lemma ConflictsWithin(occ: map<OccKey, OccRow>, st: ShowtimeId, seats: seq<SeatId>, now: Time)
    ensures FindSeatConflicts(Occ(occ, st), st, seats, now) == FindSeatConflicts(occ, st, seats, now)
  {
    var part := Occ(occ, st);
    assert (set k | k in part && part[k].showtime == st && k.seat in seats && Live(part[k], now) :: k.seat)
        == (set k | k in occ && occ[k].showtime == st && k.seat in seats && Live(occ[k], now) :: k.seat);
  }

  lemma IndexWithin(occ: map<OccKey, OccRow>, st: ShowtimeId, rows: map<OccKey, OccRow>)
    requires forall k :: k in rows ==> rows[k].showtime == st
    ensures IndexRefuses(Occ(occ, st), rows) <==> IndexRefuses(occ, rows)
  {
    var part := Occ(occ, st);
    if IndexRefuses(occ, rows) {
      var k, n :| k in occ && n in rows && SameSeat(k, occ[k], n, rows[n]);
      assert SameSeat(k, part[k], n, rows[n]);
    }
    if IndexRefuses(part, rows) {
      var k, n :| k in part && n in rows && SameSeat(k, part[k], n, rows[n]);
      assert SameSeat(k, occ[k], n, rows[n]);
    }
  }

  lemma HoldRowsWithin(cat: Catalog, x: Tables, token: Token, st: ShowtimeId, now: Time)
    requires TokenWithin(x, token, st)
    ensures GetHoldSeats(cat, Occ(x.occ, st), token) == GetHoldSeats(cat, x.occ, token)
    ensures ConfirmHoldSeats(Occ(x.occ, st), token, now) == ConfirmHoldSeats(x.occ, token, now)
    ensures ReleaseHoldSeats(Occ(x.occ, st), token, now) == ReleaseHoldSeats(x.occ, token, now)
  {
    var part := Occ(x.occ, st);
    assert HoldSeats(part, token) == HoldSeats(x.occ, token) by {
      forall s ensures s in HoldSeats(part, token) <==> s in HoldSeats(x.occ, token) {
        var k := OccKey(token, s);
        assert s in HoldSeats(part, token) <==> k in part && part[k].releasedAt.None?;
        assert s in HoldSeats(x.occ, token) <==> k in x.occ && x.occ[k].releasedAt.None?;
      }
    }
    assert ConfirmHoldSeats(part, token, now) == ConfirmHoldSeats(x.occ, token, now);
    assert ReleaseHoldSeats(part, token, now) == ReleaseHoldSeats(x.occ, token, now);
  }

  lemma HoldRowWithin(x: Tables, token: Token, st: ShowtimeId, now: Time)
    requires TokenWithin(x, token, st)
    ensures ConfirmHold(Holds(x.holds, st), token, now) == ConfirmHold(x.holds, token, now)
    ensures ReleaseHold(Holds(x.holds, st), token, now) == ReleaseHold(x.holds, token, now)
    ensures token in Holds(x.holds, st) <==> token in x.holds
    ensures token in x.holds ==> Holds(x.holds, st)[token] == x.holds[token]
  {}

  lemma BookingWithin(x: Tables, token: Token, st: ShowtimeId)
    requires TokenWithin(x, token, st) && BookingsUnique(x.bookings)
    ensures Booked(Bookings(x.bookings, st), token) <==> Booked(x.bookings, token)
    ensures Booked(x.bookings, token) ==>
      && Booked(Bookings(x.bookings, st), token)
      && var ref := GetBookingByHold(x.bookings, token);
         GetBookingByHold(Bookings(x.bookings, st), token) == ref && Bookings(x.bookings, st)[ref] == x.bookings[ref]
  {
    var part := Bookings(x.bookings, st);
    if Booked(part, token) {
      var r := GetBookingByHold(part, token);
      assert x.bookings[r].hold == token;
    }
    if Booked(x.bookings, token) {
      var ref := GetBookingByHold(x.bookings, token);
      assert ref in part && part[ref].hold == token;
      var r := GetBookingByHold(part, token);
      assert SameUnique(r, x.bookings[r], ref, x.bookings[ref]);
    }
  }

  /** A statement that reads no keys gives the same on the showtime's rows alone. */
  lemma StatementWithin(cat: Catalog, x: Tables, op: Op, st: ShowtimeId, now: Time, pc: Pc)
    requires AtStatement(op, pc) && !ReadsKeys(pc)
    requires if op.Sweep? then op.st == st else TokenWithin(x, op.token, st)
    requires op.Hold? ==> op.st == st
    requires BookingsUnique(x.bookings)
    ensures Execute(cat, Show(x, st), op, now, pc) == Execute(cat, x, op, now, pc)
  {
    match op
    case Hold(_, _, seats, _, token) =>
      HoldRowWithin(x, token, st, now);
      ReclaimWithin(x.occ, st, seats, now);
      ConflictsWithin(x.occ, st, seats, now);
      HoldRowsWithin(cat, x, token, st, now);
      if token in x.holds {
        IndexWithin(x.occ, st, ClaimSeats(x.holds[token], token, seats));
      }
    case Confirm(token, _, _) =>
      HoldRowWithin(x, token, st, now);
      HoldRowsWithin(cat, x, token, st, now);
      BookingWithin(x, token, st);
    case Release(token) =>
      HoldRowWithin(x, token, st, now);
      HoldRowsWithin(cat, x, token, st, now);
    case Sweep(_) =>
      ReclaimWithin(x.occ, st, [], now);
  }
}
