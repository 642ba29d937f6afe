/** The seat map, that it agrees with what a hold would be told, and that the money
    of a showtime's bookings is the price of the seats the map shows as sold. */
module SeatMaps {
  import opened Schema
  import opened Statements
  import opened Bodies
  import opened Invariants
  import opened Protocol
  import opened Guarantees

  datatype Status = Free | Held | Sold

  datatype MapRow = MapRow(id: SeatId, status: Status)

  // ---- the query: seats of the auditorium, left-joined with the live rows ----

  ghost function LiveRows(occ: map<OccKey, OccRow>, st: ShowtimeId, s: SeatId, now: Time): set<OccKey> {
    set k | k in occ && occ[k].showtime == st && k.seat == s && Live(occ[k], now)
  }

  /** One output row for each live row joined to the seat. */
  ghost function Joined(occ: map<OccKey, OccRow>, s: SeatId, live: set<OccKey>): seq<MapRow>
    requires forall k :: k in live ==> k in occ
  {
    if live == {} then []
    else
      var k :| k in live;
      [MapRow(s, if occ[k].confirmedAt.Some? then Sold else Status.Held)] + Joined(occ, s, live - {k})
  }

  ghost function LeftJoined(occ: map<OccKey, OccRow>, st: ShowtimeId, s: SeatId, now: Time): seq<MapRow> {
    var live := LiveRows(occ, st, s, now);
    if live == {} then [MapRow(s, Free)] else Joined(occ, s, live)
  }

  ghost function MapOver(cat: Catalog, occ: map<OccKey, OccRow>, st: ShowtimeId, now: Time, order: seq<SeatId>): seq<MapRow> {
    if order == [] then []
    else
      (if Belongs(cat, st, order[0]) then LeftJoined(occ, st, order[0], now) else [])
      + MapOver(cat, occ, st, now, order[1..])
  }

  ghost function GetSeatMap(cat: Catalog, db: Tables, st: ShowtimeId, now: Time): seq<MapRow> {
    MapOver(cat, db.occ, st, now, cat.order)
  }

  /** What a seat reads as, stated without the join. */
  ghost function StatusOf(occ: map<OccKey, OccRow>, st: ShowtimeId, s: SeatId, now: Time): Status {
    if exists k :: k in LiveRows(occ, st, s, now) && occ[k].confirmedAt.Some? then Sold
    else if LiveRows(occ, st, s, now) != {} then Status.Held
    else Free
  }

  ghost function Seats(cat: Catalog, st: ShowtimeId): set<SeatId> {
    set s | s in cat.seats && Belongs(cat, st, s)
  }

  ghost function Expected(occ: map<OccKey, OccRow>, st: ShowtimeId, now: Time, seats: seq<SeatId>): seq<MapRow> {
    seq(|seats|, i requires 0 <= i < |seats| => MapRow(seats[i], StatusOf(occ, st, seats[i], now)))
  }

  lemma JoinOnIndex(occ: map<OccKey, OccRow>, st: ShowtimeId, s: SeatId, now: Time)
    requires IndexOk(occ)
    ensures LeftJoined(occ, st, s, now) == [MapRow(s, StatusOf(occ, st, s, now))]
  {
    var live := LiveRows(occ, st, s, now);
    if live != {} {
      var k := Member(live);
      forall k' | k' in live ensures k' == k {
        assert SameSeat(k', occ[k'], k, occ[k]);
      }
      assert live == {k};
      assert Joined(occ, s, live - {k}) == [];
    }
  }

  lemma {:induction false} MapOverSeats(cat: Catalog, occ: map<OccKey, OccRow>, st: ShowtimeId, now: Time, order: seq<SeatId>)
    requires IndexOk(occ) && forall s :: s in order ==> s in cat.seats
    ensures MapOver(cat, occ, st, now, order) == Expected(occ, st, now, Pick(order, Seats(cat, st)))
  {
    if order != [] {
      MapOverSeats(cat, occ, st, now, order[1..]);
      JoinOnIndex(occ, st, order[0], now);
      var rest := Pick(order[1..], Seats(cat, st));
      if Belongs(cat, st, order[0]) {
        assert Pick(order, Seats(cat, st)) == [order[0]] + rest;
        assert Expected(occ, st, now, [order[0]] + rest)
            == [MapRow(order[0], StatusOf(occ, st, order[0], now))] + Expected(occ, st, now, rest);
      } else {
        assert order[0] !in Seats(cat, st);
        assert Pick(order, Seats(cat, st)) == rest;
      }
    }
  }

  /** In every committed state and at every time the map has exactly one row for each
      seat of the auditorium, in seat order, with that seat's status. */
  lemma OneRowPerSeat(cat: Catalog, schedule: seq<Label>, i: nat, st: ShowtimeId, now: Time)
    requires ValidCatalog(cat) && i < |Reach(cat, schedule).history|
    ensures var db := Reach(cat, schedule).history[i];
            var seats := Pick(cat.order, Seats(cat, st));
            && GetSeatMap(cat, db, st, now) == Expected(db.occ, st, now, seats)
            && Distinct(seats) && Elements(seats) == Seats(cat, st)
  {
    Evolution(cat, schedule, i, i);
    var db := Reach(cat, schedule).history[i];
    MapOverSeats(cat, db.occ, st, now, cat.order);
    PickKeepsWanted(cat.order, Seats(cat, st));
  }

  // ---- the map agrees with Hold ----

  lemma FreeMeansNotLive(occ: map<OccKey, OccRow>, st: ShowtimeId, s: SeatId, now: Time)
    ensures StatusOf(occ, st, s, now) == Free <==>
            forall k :: k in occ && occ[k].showtime == st && k.seat == s ==> !Live(occ[k], now)
  {
    var live := LiveRows(occ, st, s, now);
    if live == {} {
      forall k | k in occ && occ[k].showtime == st && k.seat == s ensures !Live(occ[k], now) {
        assert k !in live;
      }
    } else {
      var k := Member(live);
      assert Live(occ[k], now);
    }
  }

  ghost function Blocked(occ: map<OccKey, OccRow>, st: ShowtimeId, seats: seq<SeatId>, now: Time): set<SeatId> {
    set s | s in seats && StatusOf(occ, st, s, now) != Free
  }

  /** The seats the conflict check names, after the reclaim, are those the map showed
      as taken before it. */
  lemma ConflictsAreBlocked(occ: map<OccKey, OccRow>, st: ShowtimeId, seats: seq<SeatId>, now: Time)
    ensures FindSeatConflicts(occ + ReclaimExpiredSeats(occ, st, seats, now), st, seats, now)
         == Sorted(Blocked(occ, st, seats, now))
  {
    var after := occ + ReclaimExpiredSeats(occ, st, seats, now);
    var taken := set k | k in after && after[k].showtime == st && k.seat in seats && Live(after[k], now) :: k.seat;
    forall s ensures s in taken <==> s in Blocked(occ, st, seats, now) {
      FreeMeansNotLive(occ, st, s, now);
      if s in taken {
        var k :| k in after && after[k].showtime == st && k.seat in seats && Live(after[k], now) && k.seat == s;
        UnreleasedIsLive(occ, st, seats, now, k);
      }
      if s in Blocked(occ, st, seats, now) {
        var k :| k in occ && occ[k].showtime == st && k.seat == s && Live(occ[k], now);
        UnreleasedIsLive(occ, st, seats, now, k);
        assert k in after && Live(after[k], now);
      }
    }
    assert taken == Blocked(occ, st, seats, now);
  }

  /** A hold that reaches the conflict check succeeds exactly when every requested
      seat reads free at that moment; otherwise it names exactly the seats that do
      not, in ascending order. */
  lemma HoldAgreesWithMap(cat: Catalog, db: Tables, op: Op, now: Time)
    requires ValidCatalog(cat) && Inv(cat, db) && op.Hold? && ValidOp(op) && op.token !in db.holds
    requires op.st in cat.showtimes && cat.showtimes[op.st].salesOpen
    requires CountSeatsInShowtime(cat, op.st, op.seats) == |op.seats|
    ensures var blocked := Blocked(db.occ, op.st, op.seats, now);
            if blocked == {} then Body(cat, db, op, now).Done?
            else && Body(cat, db, op, now) == Failed(SeatsUnavailable(Sorted(blocked)))
                 && Ascending(Sorted(blocked)) && Elements(Sorted(blocked)) == blocked
  {
    var blocked := Blocked(db.occ, op.st, op.seats, now);
    ConflictsAreBlocked(db.occ, op.st, op.seats, now);
    DistinctCount(Sorted(blocked));
    if blocked == {} {
      assert |Sorted(blocked)| == 0;
      IndexNeverRefuses(db.occ, op, now);
      ClaimCount(CreateHold(op.st, op.customer, op.ttlSeconds, now), op.token, op.seats);
    } else {
      var s := Member(blocked);
      assert s in Sorted(blocked);
    }
  }

  /** Right after a hold its seats read held exactly when its lifetime is at least one
      whole second; with none they read free again at once. */
  lemma HoldShowsOnTheMap(cat: Catalog, db: Tables, op: Op, now: Time, s: SeatId)
    requires ValidCatalog(cat) && Inv(cat, db) && op.Hold? && ValidOp(op) && s in op.seats
    requires Body(cat, db, op, now).Done?
    ensures var after := Merge(db, Body(cat, db, op, now).writes);
            StatusOf(after.occ, op.st, s, now) == if op.ttlSeconds >= 1 then Status.Held else Free
  {
    var after := Merge(db, Body(cat, db, op, now).writes);
    var k := OccKey(op.token, s);
    var h := CreateHold(op.st, op.customer, op.ttlSeconds, now);
    HoldKeepsInv(cat, db, op, now);
    HoldWritesItsRows(cat, db, op, now, s);
    forall k' | k' in LiveRows(after.occ, op.st, s, now) ensures k' == k {
      assert SameSeat(k', after.occ[k'], k, after.occ[k]);
    }
    if op.ttlSeconds >= 1 {
      assert k in LiveRows(after.occ, op.st, s, now);
    } else {
      assert LiveRows(after.occ, op.st, s, now) == {};
    }
  }

  lemma HoldWritesItsRows(cat: Catalog, db: Tables, op: Op, now: Time, s: SeatId)
    requires op.Hold? && ValidOp(op) && s in op.seats && HoldBody(cat, db, op, now).Done?
    ensures var after := Merge(db, HoldBody(cat, db, op, now).writes);
            var k := OccKey(op.token, s);
            k in after.occ && after.occ[k] == OccRow(op.st, now + op.ttlSeconds * MICROS_PER_SECOND, None, None)
  {
    hide HoldBody;
    var _, _, rows := HoldInTwoSteps(cat, db, op, now);
    assert OccKey(op.token, s) in rows;
  }

  // ---- the status of a hold ----

  /** What GetHold reports, at the time of its read. */
  datatype HoldStatus = LiveHold | ExpiredHold | ConfirmedHold | ReleasedHold

  function StatusOfHold(h: HoldRow, now: Time): HoldStatus {
    var live := h.releasedAt.None? && (h.confirmedAt.Some? || h.expiresAt > now);
    if h.releasedAt.Some? then ReleasedHold
    else if h.confirmedAt.Some? then ConfirmedHold
    else if !live then ExpiredHold
    else LiveHold
  }

  // ---- conservation of seats ----

  ghost function CountStatus(rows: seq<MapRow>, status: Status): nat {
    if rows == [] then 0
    else (if rows[0].status == status then 1 else 0) + CountStatus(rows[1..], status)
  }

  lemma {:induction false} StatusesAddUp(rows: seq<MapRow>)
    ensures CountStatus(rows, Free) + CountStatus(rows, Status.Held) + CountStatus(rows, Sold) == |rows|
  {
    if rows != [] {
      StatusesAddUp(rows[1..]);
    }
  }

  /** Free, held and sold seats add up to the seats of the auditorium, at every time. */
  lemma SeatsAreConserved(cat: Catalog, schedule: seq<Label>, i: nat, st: ShowtimeId, now: Time)
    requires ValidCatalog(cat) && i < |Reach(cat, schedule).history|
    ensures var rows := GetSeatMap(cat, Reach(cat, schedule).history[i], st, now);
            CountStatus(rows, Free) + CountStatus(rows, Status.Held) + CountStatus(rows, Sold) == |Seats(cat, st)|
  {
    OneRowPerSeat(cat, schedule, i, st, now);
    StatusesAddUp(GetSeatMap(cat, Reach(cat, schedule).history[i], st, now));
    PickCount(cat.order, Seats(cat, st));
  }

  // ---- conservation of money ----

  ghost function SoldSeats(occ: map<OccKey, OccRow>, st: ShowtimeId): set<SeatId> {
    set k | k in occ && occ[k].showtime == st && occ[k].confirmedAt.Some? && occ[k].releasedAt.None? :: k.seat
  }

  ghost function BookingsOf(db: Tables, st: ShowtimeId): set<Ref> {
    set r | r in db.bookings && db.bookings[r].showtime == st
  }

  ghost function SumTotals(bookings: map<Ref, BookingRow>, refs: set<Ref>): int
    requires forall r :: r in refs ==> r in bookings
  {
    if refs == {} then 0
    else
      var r :| r in refs;
      bookings[r].totalMinor + SumTotals(bookings, refs - {r})
  }

  ghost function SeatsBooked(db: Tables, refs: set<Ref>): set<SeatId>
    requires forall r :: r in refs ==> r in db.bookings
  {
    set r, s | r in refs && s in HoldSeats(db.occ, db.bookings[r].hold) :: s
  }

  lemma OneBookingApart(cat: Catalog, db: Tables, st: ShowtimeId, refs: set<Ref>, r: Ref)
    requires Inv(cat, db) && refs <= BookingsOf(db, st) && r in refs
    ensures var own, others := HoldSeats(db.occ, db.bookings[r].hold), SeatsBooked(db, refs - {r});
            SeatsBooked(db, refs) == own + others && |SeatsBooked(db, refs)| == |own| + |others|
  {
    var own, others := HoldSeats(db.occ, db.bookings[r].hold), SeatsBooked(db, refs - {r});
    forall s | s in others ensures s !in own {
      var r' :| r' in refs - {r} && s in HoldSeats(db.occ, db.bookings[r'].hold);
      SeatsOfBookingsApart(cat, db, r, r');
    }
    assert SeatsBooked(db, refs) == own + others;
  }

  lemma {:induction false} TotalsArePriced(cat: Catalog, db: Tables, st: ShowtimeId, refs: set<Ref>)
    requires Inv(cat, db) && st in cat.showtimes && refs <= BookingsOf(db, st)
    ensures SumTotals(db.bookings, refs) == cat.showtimes[st].priceMinor * |SeatsBooked(db, refs)|
  {
    hide Inv, HoldSeats;
    if refs == {} {
      assert SeatsBooked(db, refs) == {};
    } else {
      var r :| r in refs && SumTotals(db.bookings, refs) == db.bookings[r].totalMinor + SumTotals(db.bookings, refs - {r});
      TotalsArePriced(cat, db, st, refs - {r});
      OneBookingApart(cat, db, st, refs, r);
      BookingIsPriced(cat, db, st, r);
      Distribute(cat.showtimes[st].priceMinor, |HoldSeats(db.occ, db.bookings[r].hold)|, |SeatsBooked(db, refs - {r})|);
    }
  }

  lemma BookingIsPriced(cat: Catalog, db: Tables, st: ShowtimeId, r: Ref)
    requires Inv(cat, db) && r in BookingsOf(db, st) && st in cat.showtimes
    ensures db.bookings[r].totalMinor == cat.showtimes[st].priceMinor * |HoldSeats(db.occ, db.bookings[r].hold)|
  {
    assert BookingAgrees(cat, db, db.bookings[r]);
  }

  lemma Distribute(price: int, a: int, b: int)
    ensures price * (a + b) == price * a + price * b
  {}

  /** The sold seats are exactly the seats that bookings of the showtime hold. */
  lemma SoldMeansBooked(cat: Catalog, db: Tables, st: ShowtimeId)
    requires Inv(cat, db)
    ensures SeatsBooked(db, BookingsOf(db, st)) == SoldSeats(db.occ, st)
  {
    forall s | s in SoldSeats(db.occ, st) ensures s in SeatsBooked(db, BookingsOf(db, st)) {
      var k :| k in db.occ && db.occ[k].showtime == st && db.occ[k].confirmedAt.Some? && db.occ[k].releasedAt.None? && k.seat == s;
      assert Booked(db.bookings, k.hold);
      var r := GetBookingByHold(db.bookings, k.hold);
      assert BookingAgrees(cat, db, db.bookings[r]);
      assert r in BookingsOf(db, st) && s in HoldSeats(db.occ, k.hold);
    }
    forall s | s in SeatsBooked(db, BookingsOf(db, st)) ensures s in SoldSeats(db.occ, st) {
      var r :| r in BookingsOf(db, st) && s in HoldSeats(db.occ, db.bookings[r].hold);
      assert BookingAgrees(cat, db, db.bookings[r]);
      assert OccKey(db.bookings[r].hold, s) in db.occ;
    }
  }

  lemma SoldStatus(occ: map<OccKey, OccRow>, st: ShowtimeId, s: SeatId, now: Time)
    ensures StatusOf(occ, st, s, now) == Sold <==> s in SoldSeats(occ, st)
  {
    if s in SoldSeats(occ, st) {
      var k :| k in occ && occ[k].showtime == st && occ[k].confirmedAt.Some? && occ[k].releasedAt.None? && k.seat == s;
      assert k in LiveRows(occ, st, s, now);
    }
  }

  lemma {:induction false} CountSold(occ: map<OccKey, OccRow>, st: ShowtimeId, now: Time, seats: seq<SeatId>)
    ensures CountStatus(Expected(occ, st, now, seats), Sold) == |Pick(seats, SoldSeats(occ, st))|
  {
    if seats != [] {
      CountSold(occ, st, now, seats[1..]);
      SoldStatus(occ, st, seats[0], now);
      assert Expected(occ, st, now, seats)[1..] == Expected(occ, st, now, seats[1..]);
    }
  }

  /** The totals of a showtime's bookings add up to its price for every seat its map
      shows as sold. */
  lemma MoneyIsConserved(cat: Catalog, schedule: seq<Label>, i: nat, st: ShowtimeId, now: Time)
    requires ValidCatalog(cat) && i < |Reach(cat, schedule).history| && st in cat.showtimes
    ensures var db := Reach(cat, schedule).history[i];
            SumTotals(db.bookings, BookingsOf(db, st))
            == cat.showtimes[st].priceMinor * CountStatus(GetSeatMap(cat, db, st, now), Sold)
  {
    var db := Reach(cat, schedule).history[i];
    var seats := Pick(cat.order, Seats(cat, st));
    Evolution(cat, schedule, i, i);
    TotalsArePriced(cat, db, st, BookingsOf(db, st));
    SoldMeansBooked(cat, db, st);
    OneRowPerSeat(cat, schedule, i, st, now);
    CountSold(db.occ, st, now, seats);
    assert forall s :: s in seats <==> s in Elements(seats);
    PickCount(seats, SoldSeats(db.occ, st));
  }
}
