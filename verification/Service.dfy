/** The service methods over the database, statement by statement, each proved to do
    exactly what the body of its operation says. */
module Service {
  import opened Schema
  import opened Bodies
  import opened Invariants
  import opened SeatMaps
  import opened Selections
  import opened Store
  import S = Statements
  import Guarantees
  import O = Outcomes
  import Readings
  import Sweeps

  const NANOS_PER_SECOND := 1_000_000_000
  const DEFAULT_HOLD_TTL := 7 * 60 * NANOS_PER_SECOND
  const DEFAULT_MAX_SEATS_PER_HOLD := 10

  /** `seatStatus` is what every seat of the hold is listed as. */
  datatype HoldView = HoldView(token: Token, st: ShowtimeId, status: HoldStatus, seats: seq<SeatId>, seatStatus: Status,
                               expiresAt: Time, totalMinor: int, currency: string)

  datatype MapView = MapView(st: ShowtimeId, priceMinor: int, currency: string, rows: seq<SeatRow>)

  // ---- transaction bodies ----

  method HoldTx(db: Db, op: Op, now: Time) returns (answer: Answer)
    requires op.Hold? && ValidOp(op)
    modifies db
    ensures var o := HoldBody(db.cat, old(db.Now()), op, now);
            answer == AnswerOf(o) && (answer.Answered? ==> db.Now() == After(old(db.Now()), o))
  {
    hide S.IndexRefuses, S.ClaimSeats, S.FindSeatConflicts, S.ReclaimExpiredSeats, S.GetHoldSeats, S.CountSeatsInShowtime;
    if op.st !in db.cat.showtimes {
      return Refused(NotFound);
    }
    if !db.cat.showtimes[op.st].salesOpen {
      return Refused(SalesClosed);
    }
    var owned := db.CountSeatsInShowtime(op.st, op.seats);
    if owned != |op.seats| {
      return Refused(InvalidSelection);
    }
    var _ := db.ReclaimExpiredSeats(op.st, op.seats, now);
    var taken := db.FindSeatConflicts(op.st, op.seats, now);
    if |taken| > 0 {
      return Refused(SeatsUnavailable(taken));
    }
    answer := ClaimTx(db, op, now, old(db.Now()));
  }

  /** The rest of it, once the reclaim is done and no conflict was found. */
  method ClaimTx(db: Db, op: Op, now: Time, ghost before: Tables) returns (answer: Answer)
    requires op.Hold? && ValidOp(op) && op.st in db.cat.showtimes && db.cat.showtimes[op.st].salesOpen
    requires S.CountSeatsInShowtime(db.cat, op.st, op.seats) == |op.seats|
    requires db.holds == before.holds && db.bookings == before.bookings
    requires db.occ == before.occ + S.ReclaimExpiredSeats(before.occ, op.st, op.seats, now)
    requires |S.FindSeatConflicts(db.occ, op.st, op.seats, now)| == 0
    modifies db
    ensures var o := HoldBody(db.cat, before, op, now);
            answer == AnswerOf(o) && (answer.Answered? ==> db.Now() == After(before, o))
  {
    hide S.IndexRefuses, S.ClaimSeats, S.FindSeatConflicts, S.ReclaimExpiredSeats, S.GetHoldSeats, S.CountSeatsInShowtime,
      HoldBody, Merge;
    ClaimingIs(db.cat, before, op, now);
    var duplicate := db.CreateHold(op.token, op.st, op.customer, op.ttlSeconds, now);
    if duplicate {
      return Refused(Unexpected);
    }
    var lost, claimed := db.ClaimSeats(op.token, op.seats);
    if lost {
      return Refused(SeatRaceLost);
    }
    if claimed != |op.seats| {
      return Refused(Unexpected);
    }
    var seats := db.GetHoldSeats(op.token);
    var showtime := db.cat.showtimes[op.st];
    answer := Answered(Result.Held(op.token, op.st, seats, db.holds[op.token].expiresAt,
                                   showtime.priceMinor * |op.seats|, showtime.currency));
  }

  /** What is left of the body, with its writes laid over the tables in two steps. */
  lemma ClaimingIs(cat: Catalog, before: Tables, op: Op, now: Time)
    requires op.Hold? && ValidOp(op) && op.st in cat.showtimes && cat.showtimes[op.st].salesOpen
    requires S.CountSeatsInShowtime(cat, op.st, op.seats) == |op.seats|
    requires var occ := before.occ + S.ReclaimExpiredSeats(before.occ, op.st, op.seats, now);
             |S.FindSeatConflicts(occ, op.st, op.seats, now)| == 0
    ensures var o := HoldBody(cat, before, op, now);
            var occ := before.occ + S.ReclaimExpiredSeats(before.occ, op.st, op.seats, now);
            var h := S.CreateHold(op.st, op.customer, op.ttlSeconds, now);
            var rows := S.ClaimSeats(h, op.token, op.seats);
            if op.token in before.holds then o == Failed(Unexpected)
            else if S.IndexRefuses(occ, rows) then o == Failed(SeatRaceLost)
            else && o.Done? && o.result == HoldResult(cat, occ + rows, op, h)
                 && Merge(before, o.writes) == Tables(before.holds[op.token := h], occ + rows, before.bookings)
  {
    hide S.IndexRefuses, S.ClaimSeats, S.FindSeatConflicts, S.ReclaimExpiredSeats, S.GetHoldSeats, S.CountSeatsInShowtime;
    var h := S.CreateHold(op.st, op.customer, op.ttlSeconds, now);
    Guarantees.ClaimCount(h, op.token, op.seats);
    PlusAssociates(before.occ, S.ReclaimExpiredSeats(before.occ, op.st, op.seats, now), S.ClaimSeats(h, op.token, op.seats));
    PlusEmpty(before.bookings);
    PutIsPlus(before.holds, op.token, h);
  }

  lemma PutIsPlus<K, V>(m: map<K, V>, k: K, v: V)
    ensures m[k := v] == m + map[k := v]
  {}

  /** Goes on to the next reference as long as the key is free: then the reference itself,
      drawn at random, was the one taken. */
  method InsertBookingRow(db: Db, b: BookingRow, refs: seq<Ref>) returns (r: Insertion)
    modifies db`bookings
    ensures r == InsertBooking(old(db.bookings), b, refs)
    ensures db.bookings == if r.Inserted? then old(db.bookings) + map[r.ref := b] else old(db.bookings)
  {
    for attempt := 0 to |refs|
      invariant db.bookings == old(db.bookings)
      invariant InsertBooking(db.bookings, b, refs) == InsertBooking(db.bookings, b, refs[attempt..])
    {
      var inserted := db.CreateBooking(refs[attempt], b);
      if inserted {
        PutIsPlus(old(db.bookings), refs[attempt], b);
        return Inserted(refs[attempt]);
      }
      assert refs[attempt..][1..] == refs[attempt + 1..];
      var prior := db.GetBookingByIdempotencyKey(b.customer, b.key);
      if prior.Some? {
        return KeyReused;
      }
    }
    r := Exhausted;
  }

  lemma TheBooking(bookings: map<Ref, BookingRow>, r: Ref, token: Token)
    requires BookingsUnique(bookings) && r in bookings && bookings[r].hold == token
    ensures r == S.GetBookingByHold(bookings, token)
  {
    var r' := S.GetBookingByHold(bookings, token);
    assert S.SameUnique(r, bookings[r], r', bookings[r']);
  }

  lemma TheKeyHolder(bookings: map<Ref, BookingRow>, r: Ref, customer: string, key: string, token: Token)
    requires BookingsUnique(bookings) && r in bookings && bookings[r].customer == customer && bookings[r].key == key
    ensures S.KeyOfAnotherHold(bookings, customer, key, token) <==> bookings[r].hold != token
  {
    if S.KeyOfAnotherHold(bookings, customer, key, token) {
      var r' :| r' in bookings && bookings[r'].customer == customer && bookings[r'].key == key && bookings[r'].hold != token;
      assert S.SameUnique(r, bookings[r], r', bookings[r']);
    }
  }

  method ConfirmTx(db: Db, op: Op, now: Time) returns (answer: Answer)
    requires op.Confirm? && BookingsUnique(db.bookings)
    modifies db
    ensures var o := ConfirmBody(db.cat, old(db.Now()), op, now);
            answer == AnswerOf(o) && (answer.Answered? ==> db.Now() == After(old(db.Now()), o))
  {
    hide S.ConfirmHoldSeats, S.GetHoldSeats, S.KeyOfAnotherHold, S.Booked, S.KeyTaken, InsertBooking, BookingsUnique, Merge;
    if op.token !in db.holds {
      return Refused(NotFound);
    }
    var h := db.holds[op.token];
    if h.releasedAt.Some? {
      return Refused(HoldExpired);
    }
    if h.confirmedAt.Some? {
      answer := Replay(db, op, now);
      return;
    }
    var prior := db.GetBookingByIdempotencyKey(h.customer, op.key);
    if prior.Some? {
      TheKeyHolder(db.bookings, prior.value, h.customer, op.key, op.token);
      if db.bookings[prior.value].hold != op.token {
        return Refused(IdempotencyKeyReused);
      }
    } else {
      NoKeyHolder(db.bookings, h.customer, op.key, op.token);
    }
    answer := BookTx(db, op, now);
  }

  /** The rest of it, for an open hold whose key is free for it. */
  method BookTx(db: Db, op: Op, now: Time) returns (answer: Answer)
    requires op.Confirm? && op.token in db.holds
    requires db.holds[op.token].confirmedAt.None? && db.holds[op.token].releasedAt.None?
    requires !S.KeyOfAnotherHold(db.bookings, db.holds[op.token].customer, op.key, op.token)
    modifies db
    ensures var o := ConfirmBody(db.cat, old(db.Now()), op, now);
            answer == AnswerOf(o) && (answer.Answered? ==> db.Now() == After(old(db.Now()), o))
  {
    hide S.ConfirmHoldSeats, S.ConfirmHold, S.GetHoldSeats, S.KeyOfAnotherHold, InsertBooking, ConfirmBody;
    BookingIs(db.cat, db.Now(), op, now);
    var h := db.holds[op.token];
    var seats := db.GetHoldSeats(op.token);
    if |seats| == 0 {
      return Refused(HoldExpired);
    }
    var confirmed := db.ConfirmHoldSeats(op.token, now);
    if confirmed != |seats| {
      return Refused(HoldExpired);
    }
    OneHoldRow(db.holds, op.token, now);
    var rows := db.ConfirmHold(op.token, now);
    if rows != 1 {
      return Refused(HoldExpired);
    }
    if h.showtime !in db.cat.showtimes {
      return Refused(NotFound);
    }
    var showtime := db.cat.showtimes[h.showtime];
    var b := BookingRow(op.token, h.showtime, h.customer, showtime.priceMinor * |seats|, showtime.currency, op.key, now);
    var insertion := InsertBookingRow(db, b, op.refs);
    answer := match insertion
      case KeyReused => Refused(IdempotencyKeyReused)
      case Exhausted => Refused(NoFreeReference)
      case Inserted(ref) => Answered(Booking(ref, b.showtime, seats, b.totalMinor, b.currency, b.createdAt));
  }

  /** What is left of the body. */
  lemma BookingIs(cat: Catalog, db: Tables, op: Op, now: Time)
    requires op.Confirm? && op.token in db.holds
    requires db.holds[op.token].confirmedAt.None? && db.holds[op.token].releasedAt.None?
    requires !S.KeyOfAnotherHold(db.bookings, db.holds[op.token].customer, op.key, op.token)
    ensures var h := db.holds[op.token];
            var seats, rows := S.GetHoldSeats(cat, db.occ, op.token), S.ConfirmHoldSeats(db.occ, op.token, now);
            ConfirmBody(cat, db, op, now)
            == if |seats| == 0 || |rows| != |seats| || !S.HoldConfirmable(h, now) then Failed(HoldExpired)
               else if h.showtime !in cat.showtimes then Failed(NotFound)
               else
                 var b := BookingRowFor(cat, op, h, |seats|, now);
                 match InsertBooking(db.bookings, b, op.refs)
                 case KeyReused => Failed(IdempotencyKeyReused)
                 case Exhausted => Failed(NoFreeReference)
                 case Inserted(ref) => Done(BookingFrom(ref, b, seats), ConfirmWrites(db, op, now, ref, b))
  {
    hide S.ConfirmHoldSeats, S.ConfirmHold, S.GetHoldSeats, S.KeyOfAnotherHold, InsertBooking;
  }

  lemma NoKeyHolder(bookings: map<Ref, BookingRow>, customer: string, key: string, token: Token)
    requires !S.KeyTaken(bookings, customer, key)
    ensures !S.KeyOfAnotherHold(bookings, customer, key, token)
  {}

  lemma OneHoldRow(holds: map<Token, HoldRow>, token: Token, now: Time)
    requires token in holds
    ensures |S.ConfirmHold(holds, token, now)| == if S.HoldConfirmable(holds[token], now) then 1 else 0
  {
    var rows := S.ConfirmHold(holds, token, now);
    assert rows.Keys == if S.HoldConfirmable(holds[token], now) then {token} else {};
    assert |rows| == |rows.Keys|;
  }

  /** A replay reads the booking that is already there. */
  method Replay(db: Db, op: Op, now: Time) returns (answer: Answer)
    requires op.Confirm? && BookingsUnique(db.bookings) && op.token in db.holds
    requires db.holds[op.token].confirmedAt.Some? && db.holds[op.token].releasedAt.None?
    ensures var o := ConfirmBody(db.cat, db.Now(), op, now);
            answer == AnswerOf(o) && (answer.Answered? ==> db.Now() == After(db.Now(), o))
  {
    MergeNothing(db.Now());
    var booked := db.GetBookingByHold(op.token);
    if booked.None? {
      return Refused(NotFound);
    }
    TheBooking(db.bookings, booked.value, op.token);
    var b := db.bookings[booked.value];
    var seats := db.GetHoldSeats(op.token);
    answer := Answered(Booking(booked.value, b.showtime, seats, b.totalMinor, b.currency, b.createdAt));
  }

  method ReleaseTx(db: Db, op: Op, now: Time) returns (answer: Answer)
    requires op.Release?
    modifies db
    ensures var o := ReleaseBody(old(db.Now()), op, now);
            answer == AnswerOf(o) && (answer.Answered? ==> db.Now() == After(old(db.Now()), o))
  {
    if op.token !in db.holds {
      return Refused(NotFound);
    }
    if db.holds[op.token].confirmedAt.Some? {
      return Refused(AlreadyConfirmed);
    }
    var _ := db.ReleaseHoldSeats(op.token, now);
    var _ := db.ReleaseHold(op.token, now);
    PlusEmpty(db.bookings);
    answer := Answered(Result.Released);
  }

  // ---- the service ----

  /** Whole seconds: the lifetime is truncated on its way to the database. */
  function TtlSeconds(holdTtl: int): int {
    if holdTtl >= 0 then holdTtl / NANOS_PER_SECOND else -(-holdTtl / NANOS_PER_SECOND)
  }

  /** The client is told of a conflict over everything it asked for, should the index
      ever refuse a claim. */
  function HoldError(error: Error, requested: seq<SeatId>): Error {
    if error.SeatRaceLost? then SeatsUnavailable(requested) else error
  }

  /** The operation that a hold request comes to, once its selection is sorted. */
  ghost function HoldOp(st: ShowtimeId, customer: string, ids: seq<SeatId>, holdTtl: int, token: Token): (op: Op)
    ensures op.Hold? && Elements(op.seats) == Elements(ids) && (ids != [] && Distinct(ids) ==> ValidOp(op))
  {
    var seats := Sorted(Elements(ids));
    assert ids != [] ==> ids[0] in Elements(seats);
    Op.Hold(st, customer, seats, TtlSeconds(holdTtl), token)
  }

  /** What is promised of a Hold, for the selection as it was requested. */
  lemma HoldAsPromised(cat: Catalog, db: Tables, st: ShowtimeId, customer: string, ids: seq<SeatId>, holdTtl: int, token: Token,
                       now: Time)
    requires ValidCatalog(cat) && Inv(cat, db) && ids != [] && Distinct(ids) && holdTtl > 0
    ensures var o := Body(cat, db, HoldOp(st, customer, ids, holdTtl, token), now);
            && O.HoldSpec(cat, db, st, customer, ids, token, now, AnswerOf(o), After(db, o))
            && (o.Done? ==>
                  && o.result.Held? && o.result.token == token && o.result.st == st
                  && token in After(db, o).holds
                  && After(db, o).holds[token] == HoldRow(st, customer, o.result.expiresAt, None, None)
                  && var lifetime := o.result.expiresAt - now;
                     lifetime % 1_000_000 == 0 && 0 <= holdTtl - lifetime * 1000 < 1_000_000_000)
  {
    hide Inv, Body, After, O.SeatsOf, O.SeatsAreClaimed;
    var op := HoldOp(st, customer, ids, holdTtl, token);
    var o := Body(cat, db, op, now);
    O.HoldLaw(cat, db, op, now);
    DistinctCount(ids);
    DistinctCount(op.seats);
    assert forall s :: s in op.seats <==> s in Elements(op.seats);
    O.SameSelection(cat, db, st, customer, op.seats, ids, token, now, AnswerOf(o), After(db, o));
  }

  class Service {
    const db: Db
    const holdTtl: int           // nanoseconds
    const maxSeatsPerHold: int

    ghost predicate Valid()
      reads db
    {
      && holdTtl > 0 && maxSeatsPerHold > 0
      && ValidCatalog(db.cat) && Inv(db.cat, db.Now())
    }

    constructor (db: Db, holdTtl: int, maxSeatsPerHold: int)
      requires ValidCatalog(db.cat) && Inv(db.cat, db.Now())
      ensures Valid() && this.db == db
      ensures this.holdTtl == if holdTtl > 0 then holdTtl else 420_000_000_000
      ensures this.maxSeatsPerHold == if maxSeatsPerHold > 0 then maxSeatsPerHold else 10
    {
      this.db := db;
      this.holdTtl := if holdTtl <= 0 then DEFAULT_HOLD_TTL else holdTtl;
      this.maxSeatsPerHold := if maxSeatsPerHold <= 0 then DEFAULT_MAX_SEATS_PER_HOLD else maxSeatsPerHold;
    }

    /** Answers as the body of the operation, and leaves the tables as it does: a refusal
        leaves them exactly as they were. */
    method Hold(st: ShowtimeId, customer: string, ids: seq<SeatId>, token: Token, now: Time) returns (answer: Answer)
      requires Valid()
      modifies db
      ensures Valid() && Evolves(old(db.Now()), db.Now())
      ensures if customer != "" && 0 < |ids| <= maxSeatsPerHold && (forall i :: 0 <= i < |ids| ==> ids[i] > 0)
                 && (forall i, j :: 0 <= i < j < |ids| ==> ids[i] != ids[j])
              then O.HoldSpec(db.cat, old(db.Now()), st, customer, ids, token, now, answer, db.Now())
              else answer == Refused(InvalidSelection) && db.Now() == old(db.Now())
      ensures answer.Answered? ==>
                && answer.result.Held? && answer.result.token == token && answer.result.st == st
                && token in db.holds && db.holds[token].customer == customer
                && db.holds[token].expiresAt == answer.result.expiresAt
                && var lifetime := answer.result.expiresAt - now;
                   lifetime % 1_000_000 == 0 && 0 <= holdTtl - lifetime * 1000 < 1_000_000_000
      ensures customer != "" && 0 < |ids| <= maxSeatsPerHold && Clean(ids) ==>
                var o := Body(db.cat, old(db.Now()), HoldOp(st, customer, ids, holdTtl, token), now);
                answer == AnswerOf(o) && db.Now() == After(old(db.Now()), o)
    {
      hide Inv, Evolves, HoldBody, O.HoldSpec;
      EvolvesToItself(db.Now());
      if customer == "" {
        return Refused(InvalidSelection);
      }
      var selection := NormalizeSeats(ids, maxSeatsPerHold);
      if !selection.Chosen? {
        return Refused(InvalidSelection);
      }
      var op := Op.Hold(st, customer, selection.seats, TtlSeconds(holdTtl), token);
      ghost var same := HoldOp(st, customer, ids, holdTtl, token);
      Guarantees.BodyNeverLosesTheRace(db.cat, db.Now(), op, now);
      BodyKeepsInv(db.cat, db.Now(), op, now);
      HoldAsPromised(db.cat, db.Now(), st, customer, ids, holdTtl, token, now);
      var saved := db.Begin();
      answer := HoldTx(db, op, now);
      if answer.Refused? {
        db.Rollback(saved);
        answer := Refused(HoldError(answer.error, selection.seats));
      }
    }

    method Confirm(token: Token, key: string, refs: seq<Ref>, now: Time) returns (answer: Answer)
      requires Valid() && |refs| == 5
      modifies db
      ensures Valid() && Evolves(old(db.Now()), db.Now())
      ensures if key == "" then answer == Refused(InvalidSelection) && db.Now() == old(db.Now())
              else O.ConfirmSpec(db.cat, old(db.Now()), token, key, refs, now, answer, db.Now())
      ensures if key == "" then answer == Refused(InvalidSelection) && db.Now() == old(db.Now())
              else var o := Body(db.cat, old(db.Now()), Op.Confirm(token, key, refs), now);
                   answer == AnswerOf(o) && db.Now() == After(old(db.Now()), o)
    {
      hide Evolves, ConfirmBody, O.ConfirmSpec;
      EvolvesToItself(db.Now());
      if key == "" {
        return Refused(InvalidSelection);
      }
      var op := Op.Confirm(token, key, refs);
      BodyKeepsInv(db.cat, db.Now(), op, now);
      O.ConfirmLaw(db.cat, db.Now(), op, now);
      // Read before the lock, to learn which showtime to lock.
      if token !in db.holds {
        UnknownConfirm(db.cat, db.Now(), op, now);
        return Refused(NotFound);
      }
      var saved := db.Begin();
      answer := ConfirmTx(db, op, now);
      if answer.Refused? {
        db.Rollback(saved);
      }
    }

    method Release(token: Token, now: Time) returns (answer: Answer)
      requires Valid()
      modifies db
      ensures Valid() && Evolves(old(db.Now()), db.Now())
      ensures O.ReleaseSpec(old(db.Now()), token, now, answer, db.Now())
      ensures var o := Body(db.cat, old(db.Now()), Op.Release(token), now);
              answer == AnswerOf(o) && db.Now() == After(old(db.Now()), o)
    {
      hide Inv, Evolves, O.ReleaseSpec;
      EvolvesToItself(db.Now());
      var op := Op.Release(token);
      O.ReleaseLaw(db.cat, db.Now(), op, now);
      BodyKeepsInv(db.cat, db.Now(), op, now);
      if token !in db.holds {
        return Refused(NotFound);
      }
      var saved := db.Begin();
      answer := ReleaseTx(db, op, now);
      if answer.Refused? {
        db.Rollback(saved);
      }
    }

    method GetHold(token: Token, now: Time) returns (view: Option<HoldView>)
      requires Valid()
      ensures view.Some? <==> token in db.holds
      ensures view.Some? ==>
                var h := db.holds[token];
                && h.showtime in db.cat.showtimes
                && view.value.token == token && view.value.st == h.showtime && view.value.expiresAt == h.expiresAt
                && view.value.status == StatusOfHold(h, now)
                && (view.value.status.ReleasedHold? <==> h.releasedAt.Some?)
                && (view.value.status.ConfirmedHold? <==> h.releasedAt.None? && h.confirmedAt.Some?)
                && (view.value.status.LiveHold? <==> h.releasedAt.None? && h.confirmedAt.None? && now < h.expiresAt)
                && (view.value.status.ExpiredHold? <==> h.releasedAt.None? && h.confirmedAt.None? && now >= h.expiresAt)
                && O.SeatsOf(db.cat, db.Now(), token, view.value.seats)
                && view.value.seatStatus == (if h.releasedAt.None? && h.confirmedAt.Some? then Sold else Status.Held)
                && view.value.seats == S.GetHoldSeats(db.cat, db.occ, token)
                && view.value.totalMinor == db.cat.showtimes[h.showtime].priceMinor * |view.value.seats|
                && view.value.currency == db.cat.showtimes[h.showtime].currency
    {
      hide O.SeatsOf;
      if token !in db.holds {
        return None;
      }
      O.HeldSeatsAre(db.cat, db.Now(), token);
      var h := db.holds[token];
      if h.showtime !in db.cat.showtimes {
        return None;
      }
      var showtime := db.cat.showtimes[h.showtime];
      var seats := db.GetHoldSeats(token);
      var status := StatusOfHold(h, now);
      var seatStatus := if status.ConfirmedHold? then Sold else Status.Held;
      view := Some(HoldView(token, h.showtime, status, seats, seatStatus, h.expiresAt,
                            showtime.priceMinor * |seats|, showtime.currency));
    }

    method GetBooking(ref: Ref) returns (booking: Option<Result>)
      requires Valid()
      ensures booking.Some? <==> ref in db.bookings
      ensures booking.Some? ==> booking.value == Guarantees.GetBooking(db.cat, db.Now(), db.Now(), ref)
      ensures booking.Some? ==>
                && O.ReadsBooking(db.cat, db.Now(), db.bookings[ref].hold, Answered(booking.value))
                && booking.value.ref == ref
    {
      hide O.SeatsOf;
      if ref !in db.bookings {
        return None;
      }
      var b := db.bookings[ref];
      O.HeldSeatsAre(db.cat, db.Now(), b.hold);
      var seats := db.GetHoldSeats(b.hold);
      booking := Some(Result.Booking(ref, b.showtime, seats, b.totalMinor, b.currency, b.createdAt));
    }

    method SeatMap(st: ShowtimeId, now: Time) returns (view: Option<MapView>)
      requires Valid()
      ensures view.Some? <==> st in db.cat.showtimes
      ensures view.Some? ==>
                && view.value.st == st && view.value.priceMinor == db.cat.showtimes[st].priceMinor
                && view.value.currency == db.cat.showtimes[st].currency
                && InCatalog(db.cat, GetSeatMap(db.cat, db.Now(), st, now))
                && Groups(db.cat, GetSeatMap(db.cat, db.Now(), st, now), view.value.rows)
                && Readings.MapSpec(db.cat, db.occ, st, now, Flatten(view.value.rows))
    {
      hide Readings.MapSpec;
      if st !in db.cat.showtimes {
        return None;
      }
      var showtime := db.cat.showtimes[st];
      var rows := db.GetSeatMap(st, now);
      Readings.MapLaw(db.cat, db.Now(), st, now);
      MapRowsInCatalog(db.cat, db.Now(), st, now);
      var grouped := ProjectSeatRows(db.cat, rows);
      view := Some(MapView(st, showtime.priceMinor, showtime.currency, grouped));
    }

    /** One run of the sweeper, listing at `now`. `attempt` says how each showtime's
        transaction goes and `clock` when it began. */
    method Sweep(limit: int, now: Time, attempt: ShowtimeId -> Sweeps.Attempt, clock: Sweeps.Clock)
      returns (reclaimed: nat, failed: bool)
      requires Valid()
      modifies db
      ensures Valid() && Evolves(old(db.Now()), db.Now())
      ensures db.holds == old(db.holds) && db.bookings == old(db.bookings)
      ensures if limit < 0 then reclaimed == 0 && failed && db.occ == old(db.occ)
              else var ids := Sweeps.ListShowtimesWithExpiredSeats(old(db.occ), limit, now);
                   && Sweeps.SweepRun(db.occ, reclaimed, failed) == Sweeps.SweepOver(old(db.occ), ids, attempt, clock)
                   && Sweeps.ListSpec(old(db.occ), limit, now, ids)
                   && Sweeps.RunSpec(old(db.occ), ids, attempt, clock, Sweeps.SweepRun(db.occ, reclaimed, failed))
    {
      hide Inv, Evolves, Sweeps.ListShowtimesWithExpiredSeats, Sweeps.ListSpec, Sweeps.RunSpec;
      if limit < 0 {
        // The database refuses a negative LIMIT.
        EvolvesToItself(db.Now());
        return 0, true;
      }
      var showtimes := db.ListShowtimesWithExpiredSeats(limit, now);
      Sweeps.ListedHaveExpired(db.occ, limit, now);
      Sweeps.RunLaw(db.occ, showtimes, attempt, clock);
      reclaimed, failed := 0, false;
      EvolvesToItself(db.Now());
      ghost var whole := Sweeps.SweepOver(db.occ, showtimes, attempt, clock);
      for i := 0 to |showtimes|
        invariant Valid() && Evolves(old(db.Now()), db.Now())
        invariant db.holds == old(db.holds) && db.bookings == old(db.bookings)
        invariant !failed
        invariant var rest := Sweeps.SweepOver(db.occ, showtimes[i..], attempt, clock);
                  whole == rest.(reclaimed := reclaimed + rest.reclaimed)
      {
        var st := showtimes[i];
        assert showtimes[i..][1..] == showtimes[i + 1..];
        ghost var before := db.Now();
        SweepIsBody(db.cat, before, st, clock(st));
        EvolvesTransitively(old(db.Now()), before, After(before, Body(db.cat, before, Op.Sweep(st), clock(st))));
        match attempt(st)
        case LockTimesOut =>
          // Nothing is lost: whoever has the lock reclaims what it needs.
        case LockFails =>
          failed := true;
          return;
        case Commits =>
          var n := db.ReclaimExpiredSeatsForShowtime(st, clock(st));
          reclaimed := reclaimed + n;
        case CommitLost =>
          var n := db.ReclaimExpiredSeatsForShowtime(st, clock(st));
          reclaimed := reclaimed + n;
          failed := true;
          return;
        case CommitTimesOut =>
          var n := Undone(db, st, clock(st));
          reclaimed := reclaimed + n;
        case CommitFails =>
          var n := Undone(db, st, clock(st));
          reclaimed := reclaimed + n;
          failed := true;
          return;
      }
    }
  }

  /** A confirmed hold reads as its booking does: the same seats at the same total. */
  lemma HoldReadsAsItsBooking(cat: Catalog, db: Tables, ref: Ref, now: Time)
    requires ValidCatalog(cat) && Inv(cat, db) && ref in db.bookings
    ensures var b := db.bookings[ref];
            && b.hold in db.holds && b.showtime == db.holds[b.hold].showtime && b.showtime in cat.showtimes
            && StatusOfHold(db.holds[b.hold], now) == ConfirmedHold
            && b.totalMinor == cat.showtimes[b.showtime].priceMinor * |S.GetHoldSeats(cat, db.occ, b.hold)|
  {
    assert BookingAgrees(cat, db, db.bookings[ref]);
    HeldCount(cat, db, db.bookings[ref].hold);
  }

  /** The statement ran and was counted; the transaction did not commit. */
  method Undone(db: Db, st: ShowtimeId, now: Time) returns (n: nat)
    modifies db
    ensures db.Now() == old(db.Now())
    ensures n == |S.ReclaimExpiredSeatsForShowtime(old(db.occ), st, now)|
  {
    var saved := db.Begin();
    n := db.ReclaimExpiredSeatsForShowtime(st, now);
    db.Rollback(saved);
  }

  lemma SweepIsBody(cat: Catalog, db: Tables, st: ShowtimeId, now: Time)
    requires ValidCatalog(cat) && Inv(cat, db)
    ensures var after := db.(occ := db.occ + S.ReclaimExpiredSeatsForShowtime(db.occ, st, now));
            After(db, Body(cat, db, Op.Sweep(st), now)) == after && Inv(cat, after) && Evolves(db, after)
  {
    PlusEmpty(db.holds);
    PlusEmpty(db.bookings);
    BodyKeepsInv(cat, db, Op.Sweep(st), now);
  }

  lemma UnknownConfirm(cat: Catalog, db: Tables, op: Op, now: Time)
    requires op.Confirm? && op.token !in db.holds
    ensures ConfirmBody(cat, db, op, now) == Failed(NotFound)
  {}

  lemma MapRowsInCatalog(cat: Catalog, db: Tables, st: ShowtimeId, now: Time)
    requires ValidCatalog(cat) && Inv(cat, db)
    ensures InCatalog(cat, GetSeatMap(cat, db, st, now))
  {
    MapOverSeats(cat, db.occ, st, now, cat.order);
    PickKeepsWanted(cat.order, Seats(cat, st));
  }
}
