/** What each operation answers and what it leaves behind, said of the fields of the
    rows alone. */
module Outcomes {
  import opened Schema
  import opened Statements
  import opened Bodies
  import opened Invariants
  import opened Protocol
  import opened Refinement
  import Guarantees

  // ---- reading seats in order ----

  ghost predicate Before(order: seq<SeatId>, x: SeatId, y: SeatId) {
    exists p, q :: 0 <= p < q < |order| && order[p] == x && order[q] == y
  }

  ghost predicate InOrder(order: seq<SeatId>, seats: seq<SeatId>) {
    forall i, j :: 0 <= i < j < |seats| ==> Before(order, seats[i], seats[j])
  }

  lemma BeforeInTail(order: seq<SeatId>, x: SeatId, y: SeatId)
    requires order != [] && (Before(order[1..], x, y) || (order[0] == x && y in order[1..]))
    ensures Before(order, x, y)
  {
    if Before(order[1..], x, y) {
      var p, q :| 0 <= p < q < |order[1..]| && order[1..][p] == x && order[1..][q] == y;
      assert order[p + 1] == x && order[q + 1] == y;
    } else {
      var q :| 0 <= q < |order[1..]| && order[1..][q] == y;
      assert order[0] == x && order[q + 1] == y;
    }
  }

  /** Seats are picked in the order of the catalog. */
  lemma {:induction false} PickIsInOrder(order: seq<SeatId>, wanted: set<SeatId>)
    ensures InOrder(order, Pick(order, wanted))
  {
    if order != [] {
      var rest, all := Pick(order[1..], wanted), Pick(order, wanted);
      PickIsInOrder(order[1..], wanted);
      PickKeepsWanted(order[1..], wanted);
      if order[0] in wanted {
        assert all == [order[0]] + rest;
        forall i, j | 0 <= i < j < |all| ensures Before(order, all[i], all[j]) {
          assert all[j] == rest[j - 1] && rest[j - 1] in rest;
          if i > 0 { assert Before(order[1..], rest[i - 1], rest[j - 1]); }
          BeforeInTail(order, all[i], all[j]);
        }
      } else {
        assert all == rest;
        forall i, j | 0 <= i < j < |all| ensures Before(order, all[i], all[j]) {
          assert Before(order[1..], rest[i], rest[j]);
          BeforeInTail(order, all[i], all[j]);
        }
      }
    }
  }

  /** The hold has a row for the seat, and nothing has released it. */
  ghost predicate Has(db: Tables, token: Token, s: SeatId) {
    OccKey(token, s) in db.occ && db.occ[OccKey(token, s)].releasedAt.None?
  }

  /** The seats of the hold's unreleased rows, each once, in seat order. */
  ghost predicate SeatsOf(cat: Catalog, db: Tables, token: Token, seats: seq<SeatId>) {
    && (forall s :: s in seats <==> Has(db, token, s))
    && (forall i, j :: 0 <= i < j < |seats| ==> seats[i] != seats[j])
    && InOrder(cat.order, seats)
  }

  lemma HeldSeatsAre(cat: Catalog, db: Tables, token: Token)
    requires ValidCatalog(cat) && RowsOk(cat, db)
    ensures SeatsOf(cat, db, token, GetHoldSeats(cat, db.occ, token))
  {
    PickKeepsWanted(cat.order, HoldSeats(db.occ, token));
    PickIsInOrder(cat.order, HoldSeats(db.occ, token));
    forall s ensures s in GetHoldSeats(cat, db.occ, token) <==> Has(db, token, s) {
      var k := OccKey(token, s);
      assert s in HoldSeats(db.occ, token) <==> k in db.occ && db.occ[k].releasedAt.None?;
      if k in db.occ { assert Belongs(cat, db.occ[k].showtime, k.seat); }
    }
  }

  // ---- Confirm ----

  /** With the key and the hold free, the first reference that is free is taken. */
  lemma {:induction false} FirstFreeReference(bookings: map<Ref, BookingRow>, b: BookingRow, refs: seq<Ref>)
    requires forall r :: r in bookings ==> bookings[r].hold != b.hold && !(bookings[r].customer == b.customer && bookings[r].key == b.key)
    ensures match InsertBooking(bookings, b, refs)
            case KeyReused => false
            case Exhausted => forall ref :: ref in refs ==> ref in bookings
            case Inserted(ref) => FirstFree(bookings, refs, ref)
  {
    if refs != [] {
      if refs[0] in bookings {
        assert SameUnique(refs[0], bookings[refs[0]], refs[0], b);
        FirstFreeReference(bookings, b, refs[1..]);
        if InsertBooking(bookings, b, refs[1..]).Inserted? {
          var ref := InsertBooking(bookings, b, refs[1..]).ref;
          var i :| 0 <= i < |refs[1..]| && refs[1..][i] == ref && ref !in bookings && forall j :: 0 <= j < i ==> refs[1..][j] in bookings;
          assert refs[i + 1] == ref;
          forall j | 0 <= j < i + 1 ensures refs[j] in bookings {
            if j > 0 { assert refs[j] == refs[1..][j - 1]; }
          }
        }
      } else {
        assert refs[0] !in bookings;
      }
    }
  }

  /** An open hold has no booking. */
  lemma OpenIsUnbooked(cat: Catalog, db: Tables, token: Token)
    requires Inv(cat, db) && token in db.holds && db.holds[token].confirmedAt.None?
    ensures forall r :: r in db.bookings ==> db.bookings[r].hold != token
  {
    forall r | r in db.bookings ensures db.bookings[r].hold != token {
      assert BookingAgrees(cat, db, db.bookings[r]);
    }
  }

  // what is said of a row and what becomes of it

  ghost predicate KeyIsBooked(db: Tables, customer: string, key: string) {
    exists r :: r in db.bookings && db.bookings[r].customer == customer && db.bookings[r].key == key
  }

  ghost predicate HasSeat(db: Tables, token: Token) {
    exists s :: Has(db, token, s)
  }

  /** The answer reads the stored booking of the hold. */
  ghost predicate ReadsBooking(cat: Catalog, db: Tables, token: Token, answer: Answer) {
    && answer.Answered? && answer.result.Booking?
    && var b := answer.result;
       && b.ref in db.bookings && SeatsOf(cat, db, token, b.seats)
       && var row := db.bookings[b.ref];
          && row.hold == token && b.st == row.showtime && b.totalMinor == row.totalMinor
          && b.currency == row.currency && b.createdAt == row.createdAt
  }

  /** One new booking, under the first free reference, for the seats that the hold has; the
      hold and its unreleased rows are confirmed, and nothing else changes. */
  ghost predicate BookingIsMade(cat: Catalog, db: Tables, token: Token, key: string, refs: seq<Ref>, now: Time,
                                answer: Answer, after: Tables)
    requires token in db.holds
  {
    var h := db.holds[token];
    && ReadsBooking(cat, after, token, answer)
    && h.showtime in cat.showtimes
    && FirstFree(db.bookings, refs, answer.result.ref)
    && after.bookings == db.bookings[answer.result.ref :=
         BookingRow(token, h.showtime, h.customer, cat.showtimes[h.showtime].priceMinor * |answer.result.seats|,
                    cat.showtimes[h.showtime].currency, key, now)]
    && after.holds == db.holds[token := h.(confirmedAt := Some(now))]
    && RowsAreConfirmed(db.occ, after.occ, token, now)
  }

  ghost predicate RowsAreConfirmed(a: map<OccKey, OccRow>, b: map<OccKey, OccRow>, token: Token, now: Time) {
    && b.Keys == a.Keys
    && forall k :: k in a ==>
         b[k] == if k.hold == token && a[k].releasedAt.None? then a[k].(confirmedAt := Some(now)) else a[k]
  }

  ghost predicate FirstFree(bookings: map<Ref, BookingRow>, refs: seq<Ref>, ref: Ref) {
    && ref !in bookings
    && exists i :: 0 <= i < |refs| && refs[i] == ref && forall j :: 0 <= j < i ==> refs[j] in bookings
  }

  ghost predicate ConfirmSpec(cat: Catalog, db: Tables, token: Token, key: string, refs: seq<Ref>, now: Time,
                              answer: Answer, after: Tables)
  {
    if token !in db.holds then answer == Refused(NotFound) && after == db
    else if db.holds[token].releasedAt.Some? then answer == Refused(HoldExpired) && after == db
    else if db.holds[token].confirmedAt.Some? then ReadsBooking(cat, db, token, answer) && after == db
    else if KeyIsBooked(db, db.holds[token].customer, key) then answer == Refused(IdempotencyKeyReused) && after == db
    else if now >= db.holds[token].expiresAt || !HasSeat(db, token) then answer == Refused(HoldExpired) && after == db
    else if forall ref :: ref in refs ==> ref in db.bookings then answer == Refused(NoFreeReference) && after == db
    else BookingIsMade(cat, db, token, key, refs, now, answer, after)
  }

  /** What a Confirm answers and stores, for every good state. */
  lemma ConfirmLaw(cat: Catalog, db: Tables, op: Op, now: Time)
    requires ValidCatalog(cat) && Inv(cat, db) && op.Confirm?
    ensures var o := Body(cat, db, op, now);
            ConfirmSpec(cat, db, op.token, op.key, op.refs, now, AnswerOf(o), After(db, o))
  {
    hide BookingIsMade, SeatsOf, GetHoldSeats, InsertBooking, ConfirmHoldSeats, BookingRowFor, ConfirmWrites, Inv, BookingFrom;
    if op.token in db.holds && db.holds[op.token].releasedAt.None? {
      var h := db.holds[op.token];
      if h.confirmedAt.Some? {
        ReplayReads(cat, db, op, now);
      } else {
        OpenIsUnbooked(cat, db, op.token);
        if !KeyIsBooked(db, h.customer, op.key) {
          if now >= h.expiresAt || !HasSeat(db, op.token) {
            LateOrEmpty(cat, db, op, now);
          } else {
            BookingLaw(cat, db, op, now);
          }
        }
      }
    }
  }

  lemma ReplayReads(cat: Catalog, db: Tables, op: Op, now: Time)
    requires ValidCatalog(cat) && Inv(cat, db) && op.Confirm? && op.token in db.holds
    requires db.holds[op.token].releasedAt.None? && db.holds[op.token].confirmedAt.Some?
    ensures var o := ConfirmBody(cat, db, op, now);
            ReadsBooking(cat, db, op.token, AnswerOf(o)) && After(db, o) == db
  {
    HeldSeatsAre(cat, db, op.token);
    MergeNothing(db);
    assert Booked(db.bookings, op.token);
  }

  lemma SeatIsCounted(cat: Catalog, db: Tables, token: Token)
    requires ValidCatalog(cat) && RowsOk(cat, db)
    ensures |GetHoldSeats(cat, db.occ, token)| > 0 <==> HasSeat(db, token)
  {
    HeldSeatsAre(cat, db, token);
    var seats := GetHoldSeats(cat, db.occ, token);
    if |seats| > 0 {
      assert Has(db, token, seats[0]);
    }
  }

  lemma LateOrEmpty(cat: Catalog, db: Tables, op: Op, now: Time)
    requires ValidCatalog(cat) && Inv(cat, db) && op.Confirm? && op.token in db.holds
    requires db.holds[op.token].releasedAt.None? && db.holds[op.token].confirmedAt.None?
    requires !KeyIsBooked(db, db.holds[op.token].customer, op.key)
    requires now >= db.holds[op.token].expiresAt || !HasSeat(db, op.token)
    ensures ConfirmBody(cat, db, op, now) == Failed(HoldExpired)
  {
    SeatIsCounted(cat, db, op.token);
    ConfirmAllOrNone(cat, db, op.token, now);
  }

  /** With the checks behind it a Confirm only needs a free reference. */
  lemma BookingLaw(cat: Catalog, db: Tables, op: Op, now: Time)
    requires ValidCatalog(cat) && Inv(cat, db) && op.Confirm? && op.token in db.holds
    requires db.holds[op.token].releasedAt.None? && db.holds[op.token].confirmedAt.None?
    requires !KeyIsBooked(db, db.holds[op.token].customer, op.key)
    requires now < db.holds[op.token].expiresAt && HasSeat(db, op.token)
    ensures var o := ConfirmBody(cat, db, op, now);
            if forall ref :: ref in op.refs ==> ref in db.bookings then o == Failed(NoFreeReference)
            else BookingIsMade(cat, db, op.token, op.key, op.refs, now, AnswerOf(o), After(db, o))
  {
    hide BookingIsMade, SeatsOf, GetHoldSeats, InsertBooking, ConfirmHoldSeats, ConfirmWrites, BookingFrom;
    var h := db.holds[op.token];
    var seats := GetHoldSeats(cat, db.occ, op.token);
    var b := BookingRowFor(cat, op, h, |seats|, now);
    OpenIsUnbooked(cat, db, op.token);
    SeatIsCounted(cat, db, op.token);
    ConfirmAllOrNone(cat, db, op.token, now);
    FirstFreeReference(db.bookings, b, op.refs);
    if InsertBooking(db.bookings, b, op.refs).Inserted? {
      BookingFits(cat, db, op, now, InsertBooking(db.bookings, b, op.refs).ref);
    }
  }

  lemma BookingFits(cat: Catalog, db: Tables, op: Op, now: Time, ref: Ref)
    requires ValidCatalog(cat) && Inv(cat, db) && op.Confirm? && op.token in db.holds
    requires HoldConfirmable(db.holds[op.token], now) && FirstFree(db.bookings, op.refs, ref)
    ensures var seats := GetHoldSeats(cat, db.occ, op.token);
            var b := BookingRowFor(cat, op, db.holds[op.token], |seats|, now);
            BookingIsMade(cat, db, op.token, op.key, op.refs, now, Answered(BookingFrom(ref, b, seats)),
                          Merge(db, ConfirmWrites(db, op, now, ref, b)))
  {
    hide GetHoldSeats, SeatsOf, ConfirmHold, ConfirmHoldSeats, IndexOk, BookingsOk, BookingsUnique, ConfirmedAreBooked;
    var seats := GetHoldSeats(cat, db.occ, op.token);
    var b := BookingRowFor(cat, op, db.holds[op.token], |seats|, now);
    RowsConfirmed(cat, db, op.token, now);
    HoldConfirmed(db.holds, op.token, now);
    BookingFitsIn(cat, db, op, now, ref, b, seats, Merge(db, ConfirmWrites(db, op, now, ref, b)));
  }

  lemma BookingFitsIn(cat: Catalog, db: Tables, op: Op, now: Time, ref: Ref, b: BookingRow, seats: seq<SeatId>, after: Tables)
    requires ValidCatalog(cat) && RowsOk(cat, db) && op.Confirm? && op.token in db.holds
    requires db.holds[op.token].showtime in cat.showtimes && FirstFree(db.bookings, op.refs, ref)
    requires seats == GetHoldSeats(cat, db.occ, op.token) && b == BookingRowFor(cat, op, db.holds[op.token], |seats|, now)
    requires after.bookings == db.bookings + map[ref := b]
    requires after.holds == db.holds[op.token := db.holds[op.token].(confirmedAt := Some(now))]
    requires RowsAreConfirmed(db.occ, after.occ, op.token, now)
    ensures BookingIsMade(cat, db, op.token, op.key, op.refs, now, Answered(BookingFrom(ref, b, seats)), after)
  {
    hide GetHoldSeats, SeatsOf, FirstFree, RowsOk;
    HeldSeatsAre(cat, db, op.token);
    SeatsStay(cat, db, after, op.token, seats);
  }

  lemma RowsConfirmed(cat: Catalog, db: Tables, token: Token, now: Time)
    requires RowsOk(cat, db) && token in db.holds && HoldConfirmable(db.holds[token], now)
    ensures RowsAreConfirmed(db.occ, db.occ + ConfirmHoldSeats(db.occ, token, now), token, now)
  {
    var after := db.occ + ConfirmHoldSeats(db.occ, token, now);
    assert after.Keys == db.occ.Keys;
  }

  lemma HoldConfirmed(holds: map<Token, HoldRow>, token: Token, now: Time)
    requires token in holds && HoldConfirmable(holds[token], now)
    ensures holds + ConfirmHold(holds, token, now) == holds[token := holds[token].(confirmedAt := Some(now))]
  {}

  lemma SeatsStay(cat: Catalog, a: Tables, b: Tables, token: Token, seats: seq<SeatId>)
    requires SeatsOf(cat, a, token, seats)
    requires a.occ.Keys == b.occ.Keys && forall k :: k in a.occ ==> a.occ[k].releasedAt == b.occ[k].releasedAt
    ensures SeatsOf(cat, b, token, seats)
  {
    hide InOrder;
    assert forall s :: Has(a, token, s) <==> Has(b, token, s);
  }

  /** When a Confirm of a hold that is neither confirmed nor released books it. */
  lemma ConfirmIsDoneIff(cat: Catalog, db: Tables, op: Op, now: Time)
    requires ValidCatalog(cat) && Inv(cat, db) && op.Confirm? && op.token in db.holds
    requires db.holds[op.token].releasedAt.None? && db.holds[op.token].confirmedAt.None?
    ensures var h := db.holds[op.token];
            Body(cat, db, op, now).Done?
            <==> && (exists k :: k in db.occ && k.hold == op.token && db.occ[k].releasedAt.None?)
                 && now < h.expiresAt
                 && (forall r :: r in db.bookings ==> !(db.bookings[r].customer == h.customer && db.bookings[r].key == op.key))
                 && (exists ref :: ref in op.refs && ref !in db.bookings)
  {
    hide Body;
    ConfirmLaw(cat, db, op, now);
    if HasSeat(db, op.token) {
      var s :| Has(db, op.token, s);
      assert OccKey(op.token, s).hold == op.token;
    }
    forall k | k in db.occ && k.hold == op.token && db.occ[k].releasedAt.None? ensures HasSeat(db, op.token) {
      assert Has(db, op.token, k.seat);
    }
  }

  // ---- Release ----

  /** The hold and all that it still has is released; what was released keeps its time. */
  ghost predicate HoldIsReleased(db: Tables, token: Token, now: Time, after: Tables)
    requires token in db.holds
  {
    && after.bookings == db.bookings
    && after.holds.Keys == db.holds.Keys && after.occ.Keys == db.occ.Keys
    && (forall t :: t in db.holds ==>
          after.holds[t] == if t == token && db.holds[t].releasedAt.None? then db.holds[t].(releasedAt := Some(now)) else db.holds[t])
    && (forall k :: k in db.occ ==>
          after.occ[k] == if k.hold == token && db.occ[k].releasedAt.None? then db.occ[k].(releasedAt := Some(now)) else db.occ[k])
  }

  ghost predicate ReleaseSpec(db: Tables, token: Token, now: Time, answer: Answer, after: Tables) {
    if token !in db.holds then answer == Refused(NotFound) && after == db
    else if db.holds[token].confirmedAt.Some? then answer == Refused(AlreadyConfirmed) && after == db
    else answer == Answered(Released) && HoldIsReleased(db, token, now, after)
  }

  /** What a Release answers and frees, for every good state. */
  lemma ReleaseLaw(cat: Catalog, db: Tables, op: Op, now: Time)
    requires Inv(cat, db) && op.Release?
    ensures var o := Body(cat, db, op, now);
            ReleaseSpec(db, op.token, now, AnswerOf(o), After(db, o))
  {
    hide IndexOk, BookingsOk, BookingsUnique, ConfirmedAreBooked;
    if op.token in db.holds && db.holds[op.token].confirmedAt.None? {
      var after := After(db, ReleaseBody(db, op, now));
      PlusEmpty(db.bookings);
      assert after.occ.Keys == db.occ.Keys;
      assert after.holds.Keys == db.holds.Keys;
    }
  }

  // ---- Sweep ----

  /** An unsettled row of the showtime that has expired. */
  ghost predicate IsStale(occ: map<OccKey, OccRow>, st: ShowtimeId, now: Time, k: OccKey) {
    k in occ && occ[k].showtime == st && occ[k].releasedAt.None? && occ[k].confirmedAt.None? && occ[k].expiresAt <= now
  }

  ghost predicate SweepSpec(db: Tables, st: ShowtimeId, now: Time, answer: Answer, after: Tables) {
    && answer == Answered(Swept(|set k | k in db.occ && IsStale(db.occ, st, now, k)|))
    && after.holds == db.holds && after.bookings == db.bookings && after.occ.Keys == db.occ.Keys
    && (forall k :: k in db.occ ==>
          after.occ[k] == if IsStale(db.occ, st, now, k) then db.occ[k].(releasedAt := Some(now)) else db.occ[k])
  }

  lemma StaleRows(occ: map<OccKey, OccRow>, st: ShowtimeId, now: Time)
    ensures var rows := ReclaimExpiredSeatsForShowtime(occ, st, now);
            && rows.Keys == (set k | k in occ && IsStale(occ, st, now, k))
            && |rows| == |set k | k in occ && IsStale(occ, st, now, k)|
            && (forall k :: k in rows ==> rows[k] == occ[k].(releasedAt := Some(now)))
  {
    var rows := ReclaimExpiredSeatsForShowtime(occ, st, now);
    assert |rows| == |rows.Keys|;
  }

  /** What the sweep of one showtime counts and releases. */
  lemma SweepLaw(cat: Catalog, db: Tables, op: Op, now: Time)
    requires op.Sweep?
    ensures var o := Body(cat, db, op, now);
            SweepSpec(db, op.st, now, AnswerOf(o), After(db, o))
  {
    hide ReclaimExpiredSeatsForShowtime, IsStale;
    StaleRows(db.occ, op.st, now);
    PlusEmpty(db.holds);
    PlusEmpty(db.bookings);
  }

  // ---- Hold ----

  /** Sold, or held and not expired. */
  ghost predicate Occupied(occ: map<OccKey, OccRow>, st: ShowtimeId, s: SeatId, now: Time) {
    exists k :: k in occ && occ[k].showtime == st && k.seat == s && occ[k].releasedAt.None?
                && (occ[k].confirmedAt.Some? || occ[k].expiresAt > now)
  }

  ghost predicate InAuditorium(cat: Catalog, st: ShowtimeId, s: SeatId) {
    st in cat.showtimes && s in cat.seats && cat.seats[s].auditorium == cat.showtimes[st].auditorium
  }

  /** A new hold and a new row for each seat, all expiring at one time; stale rows of the
      seats are released, and nothing else changes. */
  ghost predicate HoldIsMade(cat: Catalog, db: Tables, st: ShowtimeId, customer: string, seats: seq<SeatId>, token: Token,
                             now: Time, answer: Answer, after: Tables)
    requires st in cat.showtimes
  {
    && answer.Answered? && answer.result.Held?
    && var held := answer.result;
       && held.token == token && held.st == st
       && held.totalMinor == cat.showtimes[st].priceMinor * |seats| && held.currency == cat.showtimes[st].currency
       && SeatsOf(cat, after, token, held.seats) && (forall s :: s in held.seats <==> s in seats)
       && after.bookings == db.bookings
       && token !in db.holds && after.holds == db.holds[token := HoldRow(st, customer, held.expiresAt, None, None)]
       && SeatsAreClaimed(db.occ, st, seats, token, held.expiresAt, now, after.occ)
  }

  ghost predicate SeatsAreClaimed(a: map<OccKey, OccRow>, st: ShowtimeId, seats: seq<SeatId>, token: Token, expiresAt: Time,
                                  now: Time, b: map<OccKey, OccRow>)
  {
    && (forall k :: k in b <==> k in a || (k.hold == token && k.seat in seats))
    && (forall k :: k in b && k.hold == token ==> k !in a && b[k] == OccRow(st, expiresAt, None, None))
    && (forall k :: k in a ==>
          b[k] == if k.seat in seats && IsStale(a, st, now, k) then a[k].(releasedAt := Some(now)) else a[k])
  }

  ghost predicate HoldSpec(cat: Catalog, db: Tables, st: ShowtimeId, customer: string, seats: seq<SeatId>, token: Token,
                           now: Time, answer: Answer, after: Tables)
  {
    if st !in cat.showtimes then answer == Refused(NotFound) && after == db
    else if !cat.showtimes[st].salesOpen then answer == Refused(SalesClosed) && after == db
    else if exists s :: s in seats && !InAuditorium(cat, st, s) then answer == Refused(InvalidSelection) && after == db
    else if exists s :: s in seats && Occupied(db.occ, st, s, now) then
      && answer.Refused? && answer.error.SeatsUnavailable? && after == db
      && Ascending(answer.error.seats)
      && (forall s :: s in answer.error.seats <==> s in seats && Occupied(db.occ, st, s, now))
    else if token in db.holds then answer == Refused(Unexpected) && after == db
    else HoldIsMade(cat, db, st, customer, seats, token, now, answer, after)
  }

  /** Only which seats are requested matters, and how many. */
  lemma SameSelection(cat: Catalog, db: Tables, st: ShowtimeId, customer: string, a: seq<SeatId>, b: seq<SeatId>, token: Token,
                      now: Time, answer: Answer, after: Tables)
    requires HoldSpec(cat, db, st, customer, a, token, now, answer, after)
    requires |a| == |b| && forall s :: s in a <==> s in b
    ensures HoldSpec(cat, db, st, customer, b, token, now, answer, after)
  {
    hide Occupied, InAuditorium, SeatsOf, IsStale;
  }

  lemma AllBelongIff(cat: Catalog, st: ShowtimeId, seats: seq<SeatId>)
    requires Distinct(seats)
    ensures CountSeatsInShowtime(cat, st, seats) == |seats| <==> forall s :: s in seats ==> InAuditorium(cat, st, s)
  {
    if CountSeatsInShowtime(cat, st, seats) == |seats| {
      SeatsBelong(cat, st, seats);
    }
    if forall s :: s in seats ==> InAuditorium(cat, st, s) {
      DistinctCount(seats);
      assert (set s | s in seats && Belongs(cat, st, s)) == Elements(seats);
    }
  }

  /** The seats that the conflict check names. */
  lemma TakenAre(occ: map<OccKey, OccRow>, st: ShowtimeId, seats: seq<SeatId>, now: Time)
    ensures var taken := FindSeatConflicts(occ + ReclaimExpiredSeats(occ, st, seats, now), st, seats, now);
            && Ascending(taken) && (forall s :: s in taken <==> s in seats && Occupied(occ, st, s, now))
            && (|taken| > 0 <==> exists s :: s in seats && Occupied(occ, st, s, now))
  {
    hide ReclaimExpiredSeats;
    var after := occ + ReclaimExpiredSeats(occ, st, seats, now);
    var taken := FindSeatConflicts(after, st, seats, now);
    forall s ensures s in taken <==> s in seats && Occupied(occ, st, s, now) {
      assert s in taken <==> s in Elements(taken);
      if s in taken {
        var k :| k in after && after[k].showtime == st && k.seat in seats && Live(after[k], now) && k.seat == s;
        ReclaimedRow(occ, st, seats, now, k);
      }
      if s in seats && Occupied(occ, st, s, now) {
        var k :| k in occ && occ[k].showtime == st && k.seat == s && Live(occ[k], now);
        ReclaimedRow(occ, st, seats, now, k);
      }
    }
    if |taken| > 0 { assert taken[0] in taken; }
  }

  lemma ReclaimedRow(occ: map<OccKey, OccRow>, st: ShowtimeId, seats: seq<SeatId>, now: Time, k: OccKey)
    ensures var after := occ + ReclaimExpiredSeats(occ, st, seats, now);
            && (k in after <==> k in occ)
            && (k in occ ==>
                  && (Live(after[k], now) <==> Live(occ[k], now)) && after[k].showtime == occ[k].showtime
                  && after[k] == if k.seat in seats && IsStale(occ, st, now, k) then occ[k].(releasedAt := Some(now)) else occ[k])
  {}

  /** What a Hold answers and stores, for every good state. */
  lemma HoldLaw(cat: Catalog, db: Tables, op: Op, now: Time)
    requires ValidCatalog(cat) && Inv(cat, db) && op.Hold? && ValidOp(op)
    ensures var o := Body(cat, db, op, now);
            && HoldSpec(cat, db, op.st, op.customer, op.seats, op.token, now, AnswerOf(o), After(db, o))
            && (o.Done? ==> o.result.Held? && o.result.expiresAt == now + op.ttlSeconds * 1_000_000)
  {
    hide HoldIsMade, CountSeatsInShowtime, FindSeatConflicts, ReclaimExpiredSeats, ClaimSeats, IndexRefuses, Inv, GetHoldSeats,
      CreateHold, Occupied, InAuditorium;
    AllBelongIff(cat, op.st, op.seats);
    TakenAre(db.occ, op.st, op.seats, now);
    Guarantees.BodyNeverLosesTheRace(cat, db, op, now);
    Guarantees.ClaimCount(CreateHold(op.st, op.customer, op.ttlSeconds, now), op.token, op.seats);
    if Body(cat, db, op, now).Done? {
      HoldFits(cat, db, op, now);
    }
  }

  lemma HoldFits(cat: Catalog, db: Tables, op: Op, now: Time)
    requires ValidCatalog(cat) && Inv(cat, db) && op.Hold? && ValidOp(op) && HoldBody(cat, db, op, now).Done?
    ensures var o := HoldBody(cat, db, op, now);
            && op.st in cat.showtimes
            && HoldIsMade(cat, db, op.st, op.customer, op.seats, op.token, now, AnswerOf(o), After(db, o))
            && o.result.Held? && o.result.expiresAt == now + op.ttlSeconds * 1_000_000
  {
    hide CountSeatsInShowtime, FindSeatConflicts, IndexRefuses, GetHoldSeats, Inv, SeatsOf, Evolves, ReclaimExpiredSeats, ClaimSeats,
      SeatsAreClaimed, ValidCatalog;
    var reclaimed := ReclaimExpiredSeats(db.occ, op.st, op.seats, now);
    var h := CreateHold(op.st, op.customer, op.ttlSeconds, now);
    var rows := ClaimSeats(h, op.token, op.seats);
    var after := After(db, HoldBody(cat, db, op, now));
    HoldKeepsInv(cat, db, op, now);
    PlusAssociates(db.occ, reclaimed, rows);
    PlusEmpty(db.bookings);
    ClaimedRows(cat, db, op.st, op.seats, op.token, h, now);
    ClaimedSeats(cat, db, after, op.st, op.seats, op.token, h.expiresAt, now);
    PutHold(db.holds, op.token, h);
  }

  lemma PutHold(holds: map<Token, HoldRow>, token: Token, h: HoldRow)
    ensures holds + map[token := h] == holds[token := h]
  {}

  lemma ClaimedRows(cat: Catalog, db: Tables, st: ShowtimeId, seats: seq<SeatId>, token: Token, h: HoldRow, now: Time)
    requires Inv(cat, db) && token !in db.holds && h.showtime == st
    ensures SeatsAreClaimed(db.occ, st, seats, token, h.expiresAt, now,
                            db.occ + ReclaimExpiredSeats(db.occ, st, seats, now) + ClaimSeats(h, token, seats))
  {
    hide IndexOk, BookingsOk, BookingsUnique, ConfirmedAreBooked, ReclaimExpiredSeats;
    forall k ensures k in db.occ ==> k.hold != token {}
    forall k
      ensures var after := db.occ + ReclaimExpiredSeats(db.occ, st, seats, now);
              && (k in after <==> k in db.occ)
              && (k in db.occ ==>
                    after[k] == if k.seat in seats && IsStale(db.occ, st, now, k) then db.occ[k].(releasedAt := Some(now)) else db.occ[k])
    {
      ReclaimedRow(db.occ, st, seats, now, k);
    }
  }

  lemma ClaimedSeats(cat: Catalog, db: Tables, after: Tables, st: ShowtimeId, seats: seq<SeatId>, token: Token, expiresAt: Time,
                     now: Time)
    requires ValidCatalog(cat) && Inv(cat, after)
    requires SeatsAreClaimed(db.occ, st, seats, token, expiresAt, now, after.occ)
    ensures var held := GetHoldSeats(cat, after.occ, token);
            SeatsOf(cat, after, token, held) && forall s :: s in held <==> s in seats
  {
    hide GetHoldSeats, IsStale;
    HeldSeatsAre(cat, after, token);
    var held := GetHoldSeats(cat, after.occ, token);
    forall s ensures s in held <==> s in seats {
      assert OccKey(token, s) in after.occ ==> after.occ[OccKey(token, s)].releasedAt.None?;
    }
  }

  // ---- every call of every run ----

  ghost predicate Spec(cat: Catalog, db: Tables, op: Op, now: Time, answer: Answer, after: Tables) {
    match op
    case Hold(st, customer, seats, ttlSeconds, token) =>
      && HoldSpec(cat, db, st, customer, seats, token, now, answer, after)
      && (answer.Answered? ==> answer.result.Held? && answer.result.expiresAt == now + ttlSeconds * 1_000_000)
    case Confirm(token, key, refs) => ConfirmSpec(cat, db, token, key, refs, now, answer, after)
    case Release(token) => ReleaseSpec(db, token, now, answer, after)
    case Sweep(st) => SweepSpec(db, st, now, answer, after)
  }

  lemma BodyLaw(cat: Catalog, db: Tables, op: Op, now: Time)
    requires ValidCatalog(cat) && Inv(cat, db) && ValidOp(op)
    ensures var o := Body(cat, db, op, now);
            Spec(cat, db, op, now, AnswerOf(o), After(db, o))
  {
    hide Inv, Body, After, HoldSpec, ConfirmSpec, ReleaseSpec, SweepSpec;
    match op
    case Hold(_, _, _, _, _) => HoldLaw(cat, db, op, now);
    case Confirm(_, _, _) => ConfirmLaw(cat, db, op, now);
    case Release(_) => ReleaseLaw(cat, db, op, now);
    case Sweep(_) => SweepLaw(cat, db, op, now);
  }

  /** Whatever the interleaving, timestamps and aborts: every commit answers and writes as
      said, on the state committed before it, and every failure answers as said in a state
      committed during its lifetime. */
  lemma EveryCallOfEveryRun(cat: Catalog, schedule: seq<Label>)
    requires ValidCatalog(cat)
    ensures var s := Reach(cat, schedule);
            && |s.history| == |s.commits| + 1
            && (forall i :: 0 <= i < |s.commits| ==>
                  Spec(cat, s.history[i], s.commits[i].op, s.commits[i].now, Answered(s.commits[i].result), s.history[i + 1]))
            && (forall i :: 0 <= i < |s.failures| ==>
                  var f := s.failures[i];
                  && f.arrived <= f.at <= f.failed < |s.history|
                  && Spec(cat, s.history[f.at], f.op, f.now, Refused(f.error), s.history[f.at]))
  {
    hide Inv, Body, Spec;
    EveryRunIsSerial(cat, schedule);
    var s := Reach(cat, schedule);
    forall i | 0 <= i < |s.commits|
      ensures Spec(cat, s.history[i], s.commits[i].op, s.commits[i].now, Answered(s.commits[i].result), s.history[i + 1])
    {
      assert Committed(cat, s.history[i], s.history[i + 1], s.commits[i]);
      Guarantees.Evolution(cat, schedule, i, i);
      BodyLaw(cat, s.history[i], s.commits[i].op, s.commits[i].now);
    }
    forall i | 0 <= i < |s.failures|
      ensures var f := s.failures[i];
              && f.arrived <= f.at <= f.failed < |s.history|
              && Spec(cat, s.history[f.at], f.op, f.now, Refused(f.error), s.history[f.at])
    {
      var f := s.failures[i];
      assert Explained(cat, s.history, f);
      Guarantees.Evolution(cat, schedule, f.at, f.at);
      BodyLaw(cat, s.history[f.at], f.op, f.now);
    }
  }
}
