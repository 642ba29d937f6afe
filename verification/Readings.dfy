/** What the seat map and a hold read as, said of the fields of the rows alone, and what
    they read as right after each operation. */
module Readings {
  import opened Schema
  import opened Statements
  import opened Bodies
  import opened Invariants
  import opened SeatMaps
  import opened Outcomes

  // ---- the seat map ----

  ghost predicate IsSold(occ: map<OccKey, OccRow>, st: ShowtimeId, s: SeatId) {
    exists k :: k in occ && occ[k].showtime == st && k.seat == s && occ[k].releasedAt.None? && occ[k].confirmedAt.Some?
  }

  ghost predicate IsHeld(occ: map<OccKey, OccRow>, st: ShowtimeId, s: SeatId, now: Time) {
    exists k :: k in occ && occ[k].showtime == st && k.seat == s && occ[k].releasedAt.None? && occ[k].confirmedAt.None?
                && occ[k].expiresAt > now
  }

  ghost predicate ShownAs(occ: map<OccKey, OccRow>, st: ShowtimeId, s: SeatId, now: Time, status: Status) {
    && (status.Sold? <==> IsSold(occ, st, s))
    && (status.Held? <==> IsHeld(occ, st, s, now))
    && (status.Free? <==> !Occupied(occ, st, s, now))
  }

  /** One row for each seat of the auditorium and no other, in seat order, each shown as
      its rows say. */
  ghost predicate MapSpec(cat: Catalog, occ: map<OccKey, OccRow>, st: ShowtimeId, now: Time, rows: seq<MapRow>) {
    && (forall s :: (exists i :: 0 <= i < |rows| && rows[i].id == s) <==> InAuditorium(cat, st, s))
    && (forall i, j :: 0 <= i < j < |rows| ==> rows[i].id != rows[j].id && Before(cat.order, rows[i].id, rows[j].id))
    && (forall i :: 0 <= i < |rows| ==> ShownAs(occ, st, rows[i].id, now, rows[i].status))
  }

  /** The statuses exclude one another, as the unique index leaves one row at most. */
  lemma StatusIs(occ: map<OccKey, OccRow>, st: ShowtimeId, s: SeatId, now: Time)
    requires IndexOk(occ)
    ensures ShownAs(occ, st, s, now, StatusOf(occ, st, s, now))
  {
    var live := LiveRows(occ, st, s, now);
    if live == {} {
      forall k | k in occ && occ[k].showtime == st && k.seat == s ensures !Live(occ[k], now) {
        assert k !in live;
      }
    } else {
      var k := Member(live);
      forall k' | k' in occ && occ[k'].showtime == st && k'.seat == s && occ[k'].releasedAt.None? ensures k' == k {
        assert SameSeat(k', occ[k'], k, occ[k]);
      }
    }
  }

  /** What the seat map query gives in a good state. */
  lemma MapLaw(cat: Catalog, db: Tables, st: ShowtimeId, now: Time)
    requires ValidCatalog(cat) && Inv(cat, db)
    ensures MapSpec(cat, db.occ, st, now, GetSeatMap(cat, db, st, now))
  {
    hide ShownAs, StatusOf, InOrder, Pick, GetSeatMap;
    var seats := Pick(cat.order, Seats(cat, st));
    var rows := GetSeatMap(cat, db, st, now);
    MapIsExpected(cat, db, st, now);
    PickKeepsWanted(cat.order, Seats(cat, st));
    PickIsInOrder(cat.order, Seats(cat, st));
    forall s ensures (exists i :: 0 <= i < |rows| && rows[i].id == s) <==> InAuditorium(cat, st, s) {
      if s in seats {
        var i :| 0 <= i < |seats| && seats[i] == s;
        assert rows[i].id == s;
      }
    }
    forall i, j | 0 <= i < j < |rows| ensures rows[i].id != rows[j].id && Before(cat.order, rows[i].id, rows[j].id) {
      OrderAt(cat.order, seats, i, j);
    }
    forall i | 0 <= i < |rows| ensures ShownAs(db.occ, st, rows[i].id, now, rows[i].status) {
      StatusIs(db.occ, st, seats[i], now);
    }
  }

  lemma MapIsExpected(cat: Catalog, db: Tables, st: ShowtimeId, now: Time)
    requires ValidCatalog(cat) && Inv(cat, db)
    ensures GetSeatMap(cat, db, st, now) == Expected(db.occ, st, now, Pick(cat.order, Seats(cat, st)))
  {
    MapOverSeats(cat, db.occ, st, now, cat.order);
  }

  lemma OrderAt(order: seq<SeatId>, seats: seq<SeatId>, i: nat, j: nat)
    requires InOrder(order, seats) && i < j < |seats|
    ensures Before(order, seats[i], seats[j])
  {}

  /** Every seat of the auditorium has its row, with its status. */
  lemma RowIsThere(cat: Catalog, db: Tables, st: ShowtimeId, s: SeatId, now: Time, status: Status)
    requires ValidCatalog(cat) && Inv(cat, db) && InAuditorium(cat, st, s) && ShownAs(db.occ, st, s, now, status)
    ensures MapRow(s, status) in GetSeatMap(cat, db, st, now)
  {
    hide Inv, GetSeatMap, InAuditorium, Before;
    MapLaw(cat, db, st, now);
    var rows := GetSeatMap(cat, db, st, now);
    assert exists i :: 0 <= i < |rows| && rows[i].id == s;
    var i :| 0 <= i < |rows| && rows[i].id == s;
    assert rows[i] == MapRow(s, status);
  }

  lemma OnlyRowOfSeat(occ: map<OccKey, OccRow>, token: Token, s: SeatId, now: Time, status: Status)
    requires IndexOk(occ) && OccKey(token, s) in occ && occ[OccKey(token, s)].releasedAt.None?
    requires var row := occ[OccKey(token, s)];
             status == if row.confirmedAt.Some? then Sold else if row.expiresAt > now then Status.Held else Free
    ensures ShownAs(occ, occ[OccKey(token, s)].showtime, s, now, status)
  {
    var key := OccKey(token, s);
    var st := occ[key].showtime;
    forall k | k in occ && occ[k].showtime == st && k.seat == s && occ[k].releasedAt.None? ensures k == key {
      assert SameSeat(k, occ[k], key, occ[key]);
    }
    if occ[key].confirmedAt.Some? {
      assert IsSold(occ, st, s);
    }
  }

  // ---- an open hold ----

  /** A hold that is neither confirmed nor released reads live until it expires, and each
      seat that it still has reads held exactly as long. */
  lemma OpenHoldReads(cat: Catalog, db: Tables, token: Token, now: Time)
    requires ValidCatalog(cat) && Inv(cat, db) && token in db.holds
    requires db.holds[token].releasedAt.None? && db.holds[token].confirmedAt.None?
    ensures var h := db.holds[token];
            && StatusOfHold(h, now) == (if now < h.expiresAt then LiveHold else ExpiredHold)
            && (forall s :: Has(db, token, s) ==>
                  MapRow(s, if now < h.expiresAt then Status.Held else Free) in GetSeatMap(cat, db, h.showtime, now))
  {
    hide GetSeatMap, ShownAs, BookingsOk, BookingsUnique, ConfirmedAreBooked;
    var h := db.holds[token];
    forall s | Has(db, token, s)
      ensures MapRow(s, if now < h.expiresAt then Status.Held else Free) in GetSeatMap(cat, db, h.showtime, now)
    {
      var status := if now < h.expiresAt then Status.Held else Free;
      assert RowAgrees(OccKey(token, s), db.occ[OccKey(token, s)], h);
      OnlyRowOfSeat(db.occ, token, s, now, status);
      RowIsThere(cat, db, h.showtime, s, now, status);
    }
  }

  // ---- right after a Release ----

  /** A release frees the hold's seats on the map, at every time, and the hold reads
      released from then on. */
  lemma ReleaseFrees(cat: Catalog, db: Tables, op: Op, now: Time, later: Time)
    requires ValidCatalog(cat) && Inv(cat, db) && op.Release? && Body(cat, db, op, now).Done?
    ensures var after := After(db, Body(cat, db, op, now));
            && op.token in db.holds && op.token in after.holds
            && StatusOfHold(after.holds[op.token], later) == ReleasedHold
            && (forall s :: !Has(after, op.token, s))
            && (forall s :: Has(db, op.token, s) ==>
                  MapRow(s, Free) in GetSeatMap(cat, after, db.holds[op.token].showtime, later))
  {
    hide Inv, Body, After, GetSeatMap, ShownAs;
    var after := After(db, Body(cat, db, op, now));
    BodyKeepsInv(cat, db, op, now);
    ReleaseLaw(cat, db, op, now);
    forall s | Has(db, op.token, s)
      ensures MapRow(s, Free) in GetSeatMap(cat, after, db.holds[op.token].showtime, later)
    {
      SeatIsFreed(cat, db, op.token, now, after, s, later);
      RowIsThere(cat, after, db.holds[op.token].showtime, s, later, Free);
    }
  }

  lemma SeatIsFreed(cat: Catalog, db: Tables, token: Token, now: Time, after: Tables, s: SeatId, later: Time)
    requires Inv(cat, db) && token in db.holds && Has(db, token, s) && HoldIsReleased(db, token, now, after)
    ensures InAuditorium(cat, db.holds[token].showtime, s)
    ensures ShownAs(after.occ, db.holds[token].showtime, s, later, Free)
  {
    hide BookingsOk, BookingsUnique, ConfirmedAreBooked;
    var key := OccKey(token, s);
    assert RowAgrees(key, db.occ[key], db.holds[token]);
    forall k | k in db.occ && db.occ[k].showtime == db.holds[token].showtime && k.seat == s && db.occ[k].releasedAt.None?
      ensures k == key
    {
      assert SameSeat(k, db.occ[k], key, db.occ[key]);
    }
  }

  /** And they can be held again at once, whatever the time: a Hold of seats that the
      released hold had is refused neither by it nor by anyone else. */
  lemma ReleasedSeatsCanBeHeld(cat: Catalog, db: Tables, op: Op, now: Time, next: Op, later: Time)
    requires ValidCatalog(cat) && Inv(cat, db) && op.Release? && Body(cat, db, op, now).Done?
    requires next.Hold? && ValidOp(next) && next.token !in db.holds && op.token in db.holds
    requires next.st == db.holds[op.token].showtime && next.st in cat.showtimes && cat.showtimes[next.st].salesOpen
    requires forall s :: s in next.seats ==> Has(db, op.token, s)
    ensures Body(cat, After(db, Body(cat, db, op, now)), next, later).Done?
  {
    hide Inv, Body, After, InAuditorium, Occupied, SeatsOf, SeatsAreClaimed;
    var after := After(db, Body(cat, db, op, now));
    BodyKeepsInv(cat, db, op, now);
    ReleaseLaw(cat, db, op, now);
    forall s | s in next.seats ensures InAuditorium(cat, next.st, s) && !Occupied(after.occ, next.st, s, later) {
      SeatIsFreed(cat, db, op.token, now, after, s, later);
    }
    HoldLaw(cat, after, next, later);
  }

  // ---- right after a Confirm ----

  /** A Confirm that is answered shows the seats of its booking as sold, at every time, and
      the hold reads confirmed from then on. */
  lemma ConfirmSells(cat: Catalog, db: Tables, op: Op, now: Time, later: Time)
    requires ValidCatalog(cat) && Inv(cat, db) && op.Confirm? && ValidOp(op) && Body(cat, db, op, now).Done?
    ensures var o := Body(cat, db, op, now);
            var after := After(db, o);
            && op.token in after.holds && StatusOfHold(after.holds[op.token], later) == ConfirmedHold
            && o.result.Booking? && o.result.seats != [] && o.result.st == after.holds[op.token].showtime
            && (forall s :: s in o.result.seats ==> MapRow(s, Sold) in GetSeatMap(cat, after, o.result.st, later))
  {
    hide Inv, Body, After, GetSeatMap, RowsAreConfirmed, FirstFree;
    var o := Body(cat, db, op, now);
    var after := After(db, o);
    BodyKeepsInv(cat, db, op, now);
    ConfirmLaw(cat, db, op, now);
    assert ReadsBooking(cat, after, op.token, AnswerOf(o));
    BookedSeatsAreSold(cat, after, op.token, o.result, later);
  }

  lemma BookedSeatsAreSold(cat: Catalog, db: Tables, token: Token, b: Result, later: Time)
    requires ValidCatalog(cat) && Inv(cat, db) && ReadsBooking(cat, db, token, Answered(b))
    ensures token in db.holds && StatusOfHold(db.holds[token], later) == ConfirmedHold
    ensures b.seats != [] && b.st == db.holds[token].showtime
    ensures forall s :: s in b.seats ==> MapRow(s, Sold) in GetSeatMap(cat, db, b.st, later)
  {
    hide GetSeatMap, ShownAs, BookingsUnique, ConfirmedAreBooked, InOrder;
    assert BookingAgrees(cat, db, db.bookings[b.ref]);
    var some := Member(HoldSeats(db.occ, token));
    assert Has(db, token, some);
    forall s | s in b.seats ensures MapRow(s, Sold) in GetSeatMap(cat, db, b.st, later) {
      assert Has(db, token, s);
      assert RowAgrees(OccKey(token, s), db.occ[OccKey(token, s)], db.holds[token]);
      OnlyRowOfSeat(db.occ, token, s, later, Sold);
      RowIsThere(cat, db, b.st, s, later, Sold);
    }
  }
}
