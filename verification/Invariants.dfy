/** What every committed state satisfies, and how one state may follow another.

    None of it depends on the timestamps: the four bodies keep the invariant for
    any `now`, increasing or not. */
module Invariants {
  import opened Schema
  import opened Statements
  import opened Bodies

  ghost predicate HoldRowOk(cat: Catalog, h: HoldRow) {
    h.showtime in cat.showtimes && (h.confirmedAt.None? || h.releasedAt.None?)
  }

  /** A row agrees with its hold: same showtime, same expiry, a released hold has
      only released rows, a confirmed hold only confirmed or released ones. */
  ghost predicate RowAgrees(k: OccKey, row: OccRow, h: HoldRow) {
    && row.showtime == h.showtime && row.expiresAt == h.expiresAt
    && (row.confirmedAt.None? || row.releasedAt.None?)
    && (row.confirmedAt.Some? ==> row.confirmedAt == h.confirmedAt)
    && (h.confirmedAt.Some? ==> row.confirmedAt.Some? || row.releasedAt.Some?)
    && (h.releasedAt.Some? ==> row.releasedAt.Some?)
  }

  ghost predicate HoldsOk(cat: Catalog, db: Tables) {
    forall t :: t in db.holds ==> HoldRowOk(cat, db.holds[t])
  }

  ghost predicate RowsOk(cat: Catalog, db: Tables) {
    forall k :: k in db.occ ==>
      k.hold in db.holds && RowAgrees(k, db.occ[k], db.holds[k.hold]) && Belongs(cat, db.occ[k].showtime, k.seat)
  }

  /** The partial unique index: one unreleased row per seat and showtime. */
  ghost predicate IndexOk(occ: map<OccKey, OccRow>) {
    forall k, k' {:trigger SameSeat(k, occ[k], k', occ[k'])} :: k in occ && k' in occ && SameSeat(k, occ[k], k', occ[k']) ==> k == k'
  }

  /** A booking is the record of a confirmed hold, priced by the seats it kept. */
  ghost predicate BookingAgrees(cat: Catalog, db: Tables, b: BookingRow) {
    && b.hold in db.holds && db.holds[b.hold].confirmedAt.Some?
    && b.showtime == db.holds[b.hold].showtime && b.showtime in cat.showtimes
    && b.customer == db.holds[b.hold].customer
    && HoldSeats(db.occ, b.hold) != {}
    && b.totalMinor == cat.showtimes[b.showtime].priceMinor * |HoldSeats(db.occ, b.hold)|
    && b.currency == cat.showtimes[b.showtime].currency
  }

  ghost predicate BookingsOk(cat: Catalog, db: Tables) {
    forall r {:trigger BookingAgrees(cat, db, db.bookings[r])} ::
      r in db.bookings ==> BookingAgrees(cat, db, db.bookings[r])
  }

  ghost predicate BookingsUnique(bookings: map<Ref, BookingRow>) {
    forall r, r' {:trigger SameUnique(r, bookings[r], r', bookings[r'])} ::
      r in bookings && r' in bookings && SameUnique(r, bookings[r], r', bookings[r']) ==> r == r'
  }

  ghost predicate ConfirmedAreBooked(db: Tables) {
    forall t {:trigger Booked(db.bookings, t)} ::
      t in db.holds && db.holds[t].confirmedAt.Some? ==> Booked(db.bookings, t)
  }

  ghost predicate Inv(cat: Catalog, db: Tables) {
    && HoldsOk(cat, db) && RowsOk(cat, db) && IndexOk(db.occ)
    && BookingsOk(cat, db) && BookingsUnique(db.bookings) && ConfirmedAreBooked(db)
  }

  lemma EmptyIsInv(cat: Catalog)
    ensures Inv(cat, NOTHING)
  {}

  // ---- how states follow one another ----

  ghost predicate HoldEvolves(a: HoldRow, b: HoldRow) {
    && b.showtime == a.showtime && b.customer == a.customer && b.expiresAt == a.expiresAt
    && (a.confirmedAt.Some? ==> b.confirmedAt == a.confirmedAt)
    && (a.releasedAt.Some? ==> b.releasedAt == a.releasedAt)
  }

  ghost predicate RowEvolves(a: OccRow, b: OccRow) {
    && b.showtime == a.showtime && b.expiresAt == a.expiresAt
    && (a.confirmedAt.Some? ==> b == a)
    && (a.releasedAt.Some? ==> b == a)
  }

  ghost predicate HoldsEvolve(a: Tables, b: Tables) {
    forall t :: t in a.holds ==> t in b.holds && HoldEvolves(a.holds[t], b.holds[t])
  }

  ghost predicate RowsEvolve(a: Tables, b: Tables) {
    && (forall k :: k in a.occ ==> k in b.occ && RowEvolves(a.occ[k], b.occ[k]))
    && (forall k :: k in b.occ && k !in a.occ ==> k.hold !in a.holds)
  }

  ghost predicate BookingsEvolve(a: Tables, b: Tables) {
    forall r :: r in a.bookings ==> r in b.bookings && b.bookings[r] == a.bookings[r]
  }

  /** Nothing is deleted, identities never change, terminal states are final, and
      no row is ever added to a hold that already existed. */
  ghost predicate Evolves(a: Tables, b: Tables) {
    HoldsEvolve(a, b) && RowsEvolve(a, b) && BookingsEvolve(a, b)
  }

  lemma EvolvesToItself(a: Tables)
    ensures Evolves(a, a)
  {}

  lemma EvolvesTransitively(a: Tables, b: Tables, c: Tables)
    requires Evolves(a, b) && Evolves(b, c)
    ensures Evolves(a, c)
  {
    forall k | k in c.occ && k !in a.occ ensures k.hold !in a.holds {
      if k in b.occ {} else { assert k.hold !in b.holds; }
    }
  }

  /** A confirmed hold keeps exactly the seats it had. */
  lemma ConfirmedKeepsSeats(cat: Catalog, a: Tables, b: Tables, token: Token)
    requires Inv(cat, a) && Evolves(a, b)
    requires token in a.holds && a.holds[token].confirmedAt.Some?
    ensures HoldSeats(b.occ, token) == HoldSeats(a.occ, token)
  {
    forall s ensures s in HoldSeats(b.occ, token) <==> s in HoldSeats(a.occ, token) {
      var k := OccKey(token, s);
      assert k in b.occ ==> k in a.occ;
      assert s in HoldSeats(a.occ, token) <==> k in a.occ && a.occ[k].releasedAt.None?;
      assert s in HoldSeats(b.occ, token) <==> k in b.occ && b.occ[k].releasedAt.None?;
    }
  }

  // ---- counting the rows of a hold ----

  ghost function HoldKeys(occ: map<OccKey, OccRow>, token: Token): set<OccKey> {
    set k | k in occ && k.hold == token && occ[k].releasedAt.None?
  }

  lemma {:induction false} SeatsOfKeys(token: Token, keys: set<OccKey>)
    requires forall k :: k in keys ==> k.hold == token
    ensures |set k | k in keys :: k.seat| == |keys|
  {
    if keys == {} {
      assert (set k | k in keys :: k.seat) == {};
    } else {
      var k0 := Member(keys);
      SeatsOfKeys(token, keys - {k0});
      assert (set k | k in keys :: k.seat) == (set k | k in keys - {k0} :: k.seat) + {k0.seat};
      assert forall k :: k in keys && k.seat == k0.seat ==> k == k0;
    }
  }

  lemma HeldCount(cat: Catalog, db: Tables, token: Token)
    requires ValidCatalog(cat) && RowsOk(cat, db)
    ensures |GetHoldSeats(cat, db.occ, token)| == |HoldSeats(db.occ, token)| == |HoldKeys(db.occ, token)|
  {
    PickCount(cat.order, HoldSeats(db.occ, token));
    SeatsOfKeys(token, HoldKeys(db.occ, token));
    assert HoldSeats(db.occ, token) == set k | k in HoldKeys(db.occ, token) :: k.seat;
  }

  lemma SubsetOfSameSize<T>(a: set<T>, b: set<T>)
    requires a <= b && |a| == |b|
    ensures a == b
  {
    assert |b - a| == |b| - |a|;
    assert b - a == {};
    assert b == a + (b - a);
  }

  /** Under the row invariant the confirm either matches every counted seat or none
      of them, and it matches all of them exactly when the hold itself can still be
      confirmed. */
  lemma ConfirmAllOrNone(cat: Catalog, db: Tables, token: Token, now: Time)
    requires ValidCatalog(cat) && Inv(cat, db)
    requires token in db.holds && db.holds[token].confirmedAt.None? && db.holds[token].releasedAt.None?
    ensures var rows := ConfirmHoldSeats(db.occ, token, now);
            if HoldConfirmable(db.holds[token], now)
            then rows.Keys == HoldKeys(db.occ, token) && |rows| == |GetHoldSeats(cat, db.occ, token)|
            else |rows| == 0
  {
    HeldCount(cat, db, token);
    var rows := ConfirmHoldSeats(db.occ, token, now);
    if HoldConfirmable(db.holds[token], now) {
      assert rows.Keys == HoldKeys(db.occ, token);
      assert |rows| == |rows.Keys|;
    } else {
      assert rows.Keys == {} && |rows| == |rows.Keys|;
    }
  }

  lemma SeatsBelong(cat: Catalog, st: ShowtimeId, seats: seq<SeatId>)
    requires Distinct(seats) && CountSeatsInShowtime(cat, st, seats) == |seats|
    ensures forall s :: s in seats ==> Belongs(cat, st, s)
  {
    DistinctCount(seats);
    var owned := set s | s in seats && Belongs(cat, st, s);
    SubsetOfSameSize(owned, Elements(seats));
    forall s | s in seats ensures Belongs(cat, st, s) {
      assert s in Elements(seats);
      assert s in owned;
    }
  }

  // ---- each body keeps the invariant ----

  /** Releasing rows frees seats and takes none. */
  lemma IndexSurvives(a: map<OccKey, OccRow>, b: map<OccKey, OccRow>)
    requires IndexOk(a)
    requires forall k :: k in b ==> k in a && b[k].showtime == a[k].showtime
    requires forall k :: k in b && b[k].releasedAt.None? ==> a[k].releasedAt.None?
    ensures IndexOk(b)
  {
    forall k, k' | k in b && k' in b && SameSeat(k, b[k], k', b[k']) ensures k == k' {
      assert SameSeat(k, a[k], k', a[k']);
    }
  }

  ghost predicate ConfirmsNothing(a: Tables, b: Tables) {
    forall t :: t in b.holds && b.holds[t].confirmedAt.Some? ==> t in a.holds && a.holds[t].confirmedAt.Some?
  }

  /** A change that confirms nothing leaves every booking in order. */
  lemma BookingsSurvive(cat: Catalog, a: Tables, b: Tables)
    requires Inv(cat, a) && Evolves(a, b) && b.bookings == a.bookings && ConfirmsNothing(a, b)
    ensures BookingsOk(cat, b) && BookingsUnique(b.bookings) && ConfirmedAreBooked(b)
  {
    forall r | r in b.bookings ensures BookingAgrees(cat, b, b.bookings[r]) {
      assert BookingAgrees(cat, a, a.bookings[r]);
      ConfirmedKeepsSeats(cat, a, b, a.bookings[r].hold);
    }
  }

  ghost predicate OnlyReleases(a: map<OccKey, OccRow>, b: map<OccKey, OccRow>) {
    && b.Keys == a.Keys
    && forall k :: k in a ==>
         b[k] == a[k] || (a[k].releasedAt.None? && a[k].confirmedAt.None?
                          && b[k].releasedAt.Some? && b[k] == a[k].(releasedAt := b[k].releasedAt))
  }

  lemma ReclaimOnlyReleases(occ: map<OccKey, OccRow>, st: ShowtimeId, seats: seq<SeatId>, now: Time)
    ensures OnlyReleases(occ, occ + ReclaimExpiredSeats(occ, st, seats, now))
    ensures OnlyReleases(occ, occ + ReclaimExpiredSeatsForShowtime(occ, st, now))
  {
    assert (occ + ReclaimExpiredSeats(occ, st, seats, now)).Keys == occ.Keys;
    assert (occ + ReclaimExpiredSeatsForShowtime(occ, st, now)).Keys == occ.Keys;
  }

  lemma ReclaimKeepsInv(cat: Catalog, db: Tables, after: Tables)
    requires Inv(cat, db)
    requires after.holds == db.holds && after.bookings == db.bookings && OnlyReleases(db.occ, after.occ)
    ensures Inv(cat, after) && Evolves(db, after)
  {
    assert RowsOk(cat, after) by {
      forall k | k in after.occ ensures RowAgrees(k, after.occ[k], after.holds[k.hold]) {
        assert RowAgrees(k, db.occ[k], db.holds[k.hold]);
      }
    }
    IndexSurvives(db.occ, after.occ);
    BookingsSurvive(cat, db, after);
  }

  /** After the reclaim, every unreleased row for a wanted seat is live. */
  lemma UnreleasedIsLive(occ: map<OccKey, OccRow>, st: ShowtimeId, seats: seq<SeatId>, now: Time, k: OccKey)
    requires k in occ && occ[k].showtime == st && k.seat in seats
    ensures var after := occ + ReclaimExpiredSeats(occ, st, seats, now);
            after[k].releasedAt.None? <==> Live(occ[k], now)
    ensures var after := occ + ReclaimExpiredSeats(occ, st, seats, now);
            Live(after[k], now) <==> Live(occ[k], now)
  {}

  lemma NoConflicts(occ: map<OccKey, OccRow>, st: ShowtimeId, seats: seq<SeatId>, now: Time)
    ensures |FindSeatConflicts(occ, st, seats, now)| == 0 <==>
            forall k :: k in occ && occ[k].showtime == st && k.seat in seats ==> !Live(occ[k], now)
  {
    var taken := set k | k in occ && occ[k].showtime == st && k.seat in seats && Live(occ[k], now) :: k.seat;
    DistinctCount(Sorted(taken));
    assert Elements(Sorted(taken)) == taken;
    if taken == {} {
      forall k | k in occ && occ[k].showtime == st && k.seat in seats ensures !Live(occ[k], now) {
        assert k.seat !in taken;
      }
    } else {
      var s := Member(taken);
      assert s in Sorted(taken);
    }
  }

  /** The unique index never fires, whatever the timestamps: the reclaim and the
      conflict check split the unreleased rows at one `now`. */
  lemma IndexNeverRefuses(occ: map<OccKey, OccRow>, op: Op, now: Time)
    requires op.Hold?
    requires var after := occ + ReclaimExpiredSeats(occ, op.st, op.seats, now);
             |FindSeatConflicts(after, op.st, op.seats, now)| == 0
    ensures var after := occ + ReclaimExpiredSeats(occ, op.st, op.seats, now);
            var h := CreateHold(op.st, op.customer, op.ttlSeconds, now);
            !IndexRefuses(after, ClaimSeats(h, op.token, op.seats))
  {
    var after := occ + ReclaimExpiredSeats(occ, op.st, op.seats, now);
    NoConflicts(after, op.st, op.seats, now);
    forall k | k in after && after[k].showtime == op.st && k.seat in op.seats
      ensures after[k].releasedAt.Some?
    {
      UnreleasedIsLive(occ, op.st, op.seats, now, k);
    }
  }

  lemma HoldKeepsInv(cat: Catalog, db: Tables, op: Op, now: Time)
    requires ValidCatalog(cat) && Inv(cat, db) && op.Hold? && ValidOp(op)
    requires HoldBody(cat, db, op, now).Done?
    ensures var after := Merge(db, HoldBody(cat, db, op, now).writes);
            Inv(cat, after) && Evolves(db, after)
  {
    var mid, h, rows := HoldInTwoSteps(cat, db, op, now);
    ReclaimKeepsInv(cat, db, mid);
    ClaimKeepsInv(cat, mid, op, h, rows);
    EvolvesTransitively(db, mid, Merge(mid, Tables(map[op.token := h], rows, map[])));
  }

  /** A successful hold is a reclaim followed by a claim of free seats. */
  lemma HoldInTwoSteps(cat: Catalog, db: Tables, op: Op, now: Time)
    returns (mid: Tables, h: HoldRow, rows: map<OccKey, OccRow>)
    requires op.Hold? && ValidOp(op) && HoldBody(cat, db, op, now).Done?
    ensures mid.holds == db.holds && mid.bookings == db.bookings && OnlyReleases(db.occ, mid.occ)
    ensures op.st in cat.showtimes && op.token !in db.holds
    ensures h == CreateHold(op.st, op.customer, op.ttlSeconds, now) && rows == ClaimSeats(h, op.token, op.seats)
    ensures forall s :: s in op.seats ==> Belongs(cat, op.st, s)
    ensures !IndexRefuses(mid.occ, rows)
    ensures Merge(db, HoldBody(cat, db, op, now).writes) == Merge(mid, Tables(map[op.token := h], rows, map[]))
  {
    var reclaimed := ReclaimExpiredSeats(db.occ, op.st, op.seats, now);
    mid := Tables(db.holds, db.occ + reclaimed, db.bookings);
    h := CreateHold(op.st, op.customer, op.ttlSeconds, now);
    rows := ClaimSeats(h, op.token, op.seats);
    ReclaimOnlyReleases(db.occ, op.st, op.seats, now);
    SeatsBelong(cat, op.st, op.seats);
    PlusAssociates(db.occ, reclaimed, rows);
  }

  lemma ClaimKeepsInv(cat: Catalog, mid: Tables, op: Op, h: HoldRow, rows: map<OccKey, OccRow>)
    requires Inv(cat, mid) && op.Hold? && op.st in cat.showtimes && op.token !in mid.holds
    requires h.showtime == op.st && h.confirmedAt.None? && h.releasedAt.None?
    requires rows == ClaimSeats(h, op.token, op.seats)
    requires forall s :: s in op.seats ==> Belongs(cat, op.st, s)
    requires !IndexRefuses(mid.occ, rows)
    ensures var after := Merge(mid, Tables(map[op.token := h], rows, map[]));
            Inv(cat, after) && Evolves(mid, after)
  {
    hide BookingsOk, BookingsUnique, ConfirmedAreBooked, IndexRefuses, HoldsEvolve, RowsEvolve;
    var after := Merge(mid, Tables(map[op.token := h], rows, map[]));
    assert forall k :: k in rows ==> k.hold == op.token && k !in mid.occ;
    PlusEmpty(mid.bookings);
    ClaimRows(cat, mid, op, h, rows);
    ClaimKeepsIndex(mid.occ, rows, op.token);
    BookingsSurvive(cat, mid, after);
  }

  lemma ClaimRows(cat: Catalog, mid: Tables, op: Op, h: HoldRow, rows: map<OccKey, OccRow>)
    requires HoldsOk(cat, mid) && RowsOk(cat, mid) && op.Hold? && op.st in cat.showtimes && op.token !in mid.holds
    requires h.showtime == op.st && h.confirmedAt.None? && h.releasedAt.None?
    requires rows == ClaimSeats(h, op.token, op.seats)
    requires forall s :: s in op.seats ==> Belongs(cat, op.st, s)
    ensures var after := Merge(mid, Tables(map[op.token := h], rows, map[]));
            HoldsOk(cat, after) && RowsOk(cat, after) && Evolves(mid, after) && ConfirmsNothing(mid, after)
  {
    var after := Merge(mid, Tables(map[op.token := h], rows, map[]));
    forall k | k in after.occ
      ensures k.hold in after.holds && RowAgrees(k, after.occ[k], after.holds[k.hold])
      ensures Belongs(cat, after.occ[k].showtime, k.seat)
    {
      if k !in rows { assert RowAgrees(k, mid.occ[k], mid.holds[k.hold]); }
    }
  }

  lemma ClaimKeepsIndex(occ: map<OccKey, OccRow>, rows: map<OccKey, OccRow>, token: Token)
    requires IndexOk(occ) && !IndexRefuses(occ, rows)
    requires forall k :: k in rows ==> k.hold == token && k !in occ
    ensures IndexOk(occ + rows)
  {
    var after := occ + rows;
    forall k, k' | k in after && k' in after && SameSeat(k, after[k], k', after[k'])
      ensures k == k'
    {
      if k in rows && k' !in rows {
        assert SameSeat(k', occ[k'], k, rows[k]);
      } else if k !in rows && k' !in rows {
        assert SameSeat(k, occ[k], k', occ[k']);
      }
    }
  }

  lemma ReleaseKeepsInv(cat: Catalog, db: Tables, op: Op, now: Time)
    requires Inv(cat, db) && op.Release?
    requires ReleaseBody(db, op, now).Done?
    ensures var after := Merge(db, ReleaseBody(db, op, now).writes);
            Inv(cat, after) && Evolves(db, after)
  {
    var after := Merge(db, ReleaseBody(db, op, now).writes);
    ReleaseRows(cat, db, op, now);
    IndexSurvives(db.occ, after.occ);
    BookingsSurvive(cat, db, after);
  }

  lemma ReleaseRows(cat: Catalog, db: Tables, op: Op, now: Time)
    requires HoldsOk(cat, db) && RowsOk(cat, db) && op.Release?
    requires ReleaseBody(db, op, now).Done?
    ensures var after := Merge(db, ReleaseBody(db, op, now).writes);
            && HoldsOk(cat, after) && RowsOk(cat, after) && Evolves(db, after) && ConfirmsNothing(db, after)
            && after.occ.Keys == db.occ.Keys
  {
    hide HoldsOk, RowsOk, HoldsEvolve, RowsEvolve, ConfirmsNothing, ReleaseHold, ReleaseHoldSeats;
    var after := Merge(db, ReleaseBody(db, op, now).writes);
    PlusEmpty(db.bookings);
    ReleasingHold(cat, db, after, op.token, now);
    ReleasingRows(cat, db, after, op.token, now);
  }

  lemma ReleasingHold(cat: Catalog, db: Tables, after: Tables, token: Token, now: Time)
    requires HoldsOk(cat, db) && after.holds == db.holds + ReleaseHold(db.holds, token, now)
    ensures HoldsOk(cat, after) && HoldsEvolve(db, after) && ConfirmsNothing(db, after)
  {}

  lemma ReleasingRows(cat: Catalog, db: Tables, after: Tables, token: Token, now: Time)
    requires RowsOk(cat, db) && after.holds == db.holds + ReleaseHold(db.holds, token, now)
    requires after.occ == db.occ + ReleaseHoldSeats(db.occ, token, now)
    ensures RowsOk(cat, after) && RowsEvolve(db, after) && after.occ.Keys == db.occ.Keys
  {
    assert after.occ.Keys == db.occ.Keys;
    forall k | k in after.occ ensures RowAgrees(k, after.occ[k], after.holds[k.hold]) {
      assert RowAgrees(k, db.occ[k], db.holds[k.hold]);
    }
  }

  lemma SweepKeepsInv(cat: Catalog, db: Tables, op: Op, now: Time)
    requires Inv(cat, db) && op.Sweep?
    ensures var after := Merge(db, SweepBody(db, op, now).writes);
            Inv(cat, after) && Evolves(db, after)
  {
    var after := Merge(db, SweepBody(db, op, now).writes);
    PlusEmpty(db.holds);
    PlusEmpty(db.bookings);
    ReclaimOnlyReleases(db.occ, op.st, [], now);
    ReclaimKeepsInv(cat, db, after);
  }

  lemma {:induction false} InsertionIsFree(bookings: map<Ref, BookingRow>, row: BookingRow, refs: seq<Ref>)
    requires InsertBooking(bookings, row, refs).Inserted?
    ensures var ref := InsertBooking(bookings, row, refs).ref;
            ref in refs && !Suppressed(bookings, ref, row)
  {
    if Suppressed(bookings, refs[0], row) {
      InsertionIsFree(bookings, row, refs[1..]);
    }
  }

  lemma ConfirmKeepsInv(cat: Catalog, db: Tables, op: Op, now: Time)
    requires ValidCatalog(cat) && Inv(cat, db) && op.Confirm?
    requires ConfirmBody(cat, db, op, now).Done?
    ensures var after := Merge(db, ConfirmBody(cat, db, op, now).writes);
            Inv(cat, after) && Evolves(db, after)
  {
    var h := db.holds[op.token];
    if h.confirmedAt.Some? {
      MergeNothing(db);
      return;
    }
    var seats := GetHoldSeats(cat, db.occ, op.token);
    var b := BookingRowFor(cat, op, h, |seats|, now);
    var ref := InsertBooking(db.bookings, b, op.refs).ref;
    InsertionIsFree(db.bookings, b, op.refs);
    HeldCount(cat, db, op.token);
    ConfirmAllOrNone(cat, db, op.token, now);
    ConfirmingKeepsInv(cat, db, op, now, ref, b);
  }

  lemma ConfirmingKeepsInv(cat: Catalog, db: Tables, op: Op, now: Time, ref: Ref, b: BookingRow)
    requires Inv(cat, db) && op.Confirm? && op.token in db.holds && HoldConfirmable(db.holds[op.token], now)
    requires HoldSeats(db.occ, op.token) != {}
    requires b == BookingRowFor(cat, op, db.holds[op.token], |HoldSeats(db.occ, op.token)|, now)
    requires !Suppressed(db.bookings, ref, b)
    ensures var after := Merge(db, ConfirmWrites(db, op, now, ref, b));
            Inv(cat, after) && Evolves(db, after)
  {
    hide BookingsOk, ConfirmedAreBooked, BookingsUnique, HoldSeats, ConfirmHold, ConfirmHoldSeats, Suppressed;
    var after := Merge(db, ConfirmWrites(db, op, now, ref, b));
    UnrefusedIsNew(db.bookings, ref, b);
    ConfirmingRows(cat, db, after, op, now);
    BookingJoins(db.bookings, ref, b);
    assert Evolves(db, after);
    BookingsStillAgree(cat, db, after, op, now, ref, b);
    ConfirmedIsBooked(db, after, op, now, ref, b);
  }

  lemma UnrefusedIsNew(bookings: map<Ref, BookingRow>, ref: Ref, b: BookingRow)
    requires !Suppressed(bookings, ref, b)
    ensures ref !in bookings
  {
    if ref in bookings { assert SameUnique(ref, bookings[ref], ref, b); }
  }

  lemma BookingsStillAgree(cat: Catalog, db: Tables, after: Tables, op: Op, now: Time, ref: Ref, b: BookingRow)
    requires Inv(cat, db) && op.Confirm? && op.token in db.holds && HoldConfirmable(db.holds[op.token], now)
    requires after.holds == db.holds + ConfirmHold(db.holds, op.token, now) && after.bookings == db.bookings + map[ref := b]
    requires Evolves(db, after) && HoldSeats(db.occ, op.token) != {}
    requires HoldSeats(after.occ, op.token) == HoldSeats(db.occ, op.token)
    requires b == BookingRowFor(cat, op, db.holds[op.token], |HoldSeats(db.occ, op.token)|, now)
    ensures BookingsOk(cat, after)
  {
    hide HoldSeats, IndexOk, RowsOk;
    forall r | r in after.bookings ensures BookingAgrees(cat, after, after.bookings[r]) {
      if r != ref {
        assert BookingAgrees(cat, db, db.bookings[r]);
        ConfirmedKeepsSeats(cat, db, after, db.bookings[r].hold);
      }
    }
  }

  lemma ConfirmedIsBooked(db: Tables, after: Tables, op: Op, now: Time, ref: Ref, b: BookingRow)
    requires ConfirmedAreBooked(db) && op.Confirm? && b.hold == op.token && ref !in db.bookings
    requires after.holds == db.holds + ConfirmHold(db.holds, op.token, now) && after.bookings == db.bookings + map[ref := b]
    ensures ConfirmedAreBooked(after)
  {
    forall t | t in after.holds && after.holds[t].confirmedAt.Some? ensures Booked(after.bookings, t) {
      if t == op.token {
        assert after.bookings[ref].hold == t;
      } else {
        var r := GetBookingByHold(db.bookings, t);
        assert after.bookings[r].hold == t;
      }
    }
  }

  lemma ConfirmingRows(cat: Catalog, db: Tables, after: Tables, op: Op, now: Time)
    requires Inv(cat, db) && op.Confirm? && op.token in db.holds && HoldConfirmable(db.holds[op.token], now)
    requires after.holds == db.holds + ConfirmHold(db.holds, op.token, now)
    requires after.occ == db.occ + ConfirmHoldSeats(db.occ, op.token, now)
    ensures HoldsOk(cat, after) && RowsOk(cat, after) && IndexOk(after.occ)
    ensures HoldsEvolve(db, after) && RowsEvolve(db, after)
    ensures HoldSeats(after.occ, op.token) == HoldSeats(db.occ, op.token)
  {
    hide BookingsOk, BookingsUnique, ConfirmedAreBooked, HoldSeats;
    assert after.occ.Keys == db.occ.Keys;
    forall k | k in after.occ ensures RowAgrees(k, after.occ[k], after.holds[k.hold]) {
      assert RowAgrees(k, db.occ[k], db.holds[k.hold]);
    }
    IndexSurvives(db.occ, after.occ);
    SeatsKept(db.occ, after.occ, op.token);
  }

  /** Seats are kept as long as no row is added or released. */
  lemma SeatsKept(a: map<OccKey, OccRow>, b: map<OccKey, OccRow>, token: Token)
    requires b.Keys == a.Keys && forall k :: k in a ==> (b[k].releasedAt.None? <==> a[k].releasedAt.None?)
    ensures HoldSeats(b, token) == HoldSeats(a, token)
  {
    forall s ensures s in HoldSeats(b, token) <==> s in HoldSeats(a, token) {
      var k := OccKey(token, s);
      assert s in HoldSeats(b, token) <==> k in b && b[k].releasedAt.None?;
      assert s in HoldSeats(a, token) <==> k in a && a[k].releasedAt.None?;
    }
  }

  lemma BookingJoins(bookings: map<Ref, BookingRow>, ref: Ref, b: BookingRow)
    requires BookingsUnique(bookings) && !Suppressed(bookings, ref, b)
    ensures BookingsUnique(bookings + map[ref := b])
  {
    var after := bookings + map[ref := b];
    forall r, r' | r in after && r' in after && SameUnique(r, after[r], r', after[r'])
      ensures r == r'
    {
      if r == ref && r' != ref {
        assert SameUnique(r', bookings[r'], ref, b);
      } else if r != ref && r' != ref {
        assert SameUnique(r, bookings[r], r', bookings[r']);
      }
    }
  }

  /** Every body, run alone, leads from a good state to a good state that follows it. */
  lemma BodyKeepsInv(cat: Catalog, db: Tables, op: Op, now: Time)
    requires ValidCatalog(cat) && Inv(cat, db) && ValidOp(op)
    ensures var after := After(db, Body(cat, db, op, now));
            Inv(cat, after) && Evolves(db, after)
  {
    if Body(cat, db, op, now).Done? {
      match op
      case Hold(_, _, _, _, _) => HoldKeepsInv(cat, db, op, now);
      case Confirm(_, _, _) => ConfirmKeepsInv(cat, db, op, now);
      case Release(_) => ReleaseKeepsInv(cat, db, op, now);
      case Sweep(_) => SweepKeepsInv(cat, db, op, now);
    }
  }
}
