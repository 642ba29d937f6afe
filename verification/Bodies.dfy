/** The four transaction bodies, each run alone against one state of the tables.

    A body either fails, leaving nothing behind, or is done with a result and the
    rows it wrote. Everything a body draws at random (the hold token, the booking
    references) is part of the operation. */
module Bodies {
  import opened Schema
  import opened Statements

  datatype Op =
    | Hold(st: ShowtimeId, customer: string, seats: seq<SeatId>, ttlSeconds: int, token: Token)
    | Confirm(token: Token, key: string, refs: seq<Ref>)
    | Release(token: Token)
    | Sweep(st: ShowtimeId)

  datatype Result =
    | Held(token: Token, st: ShowtimeId, seats: seq<SeatId>, expiresAt: Time, totalMinor: int, currency: string)
    | Booking(ref: Ref, st: ShowtimeId, seats: seq<SeatId>, totalMinor: int, currency: string, createdAt: Time)
    | Released
    | Swept(reclaimed: nat)

  datatype Error =
    | NotFound | SalesClosed | InvalidSelection | HoldExpired | AlreadyConfirmed | IdempotencyKeyReused
    | SeatsUnavailable(seats: seq<SeatId>)
    | SeatRaceLost          // the partial unique index fired
    | NoFreeReference       // every drawn reference was taken
    | Unexpected            // a duplicate token, or a claim that inserted too few rows

  datatype Outcome = Done(result: Result, writes: Tables) | Failed(error: Error)

  /** What the caller is told. */
  datatype Answer = Answered(result: Result) | Refused(error: Error)

  function AnswerOf(o: Outcome): Answer {
    match o
    case Done(result, _) => Answered(result)
    case Failed(error) => Refused(error)
  }

  /** What the checks before a transaction let through. */
  ghost predicate ValidOp(op: Op) {
    match op
    case Hold(_, _, seats, _, _) => seats != [] && Distinct(seats)
    case Confirm(_, _, refs) => |refs| == REF_ATTEMPTS
    case Release(_) => true
    case Sweep(_) => true
  }

  ghost function Body(cat: Catalog, db: Tables, op: Op, now: Time): Outcome {
    match op
    case Hold(_, _, _, _, _) => HoldBody(cat, db, op, now)
    case Confirm(_, _, _) => ConfirmBody(cat, db, op, now)
    case Release(_) => ReleaseBody(db, op, now)
    case Sweep(_) => SweepBody(db, op, now)
  }

  // ---- Hold ----

  ghost function HoldResult(cat: Catalog, occ: map<OccKey, OccRow>, op: Op, h: HoldRow): Result
    requires op.Hold? && op.st in cat.showtimes
  {
    Held(op.token, op.st, GetHoldSeats(cat, occ, op.token), h.expiresAt,
         cat.showtimes[op.st].priceMinor * |op.seats|, cat.showtimes[op.st].currency)
  }

  ghost function HoldBody(cat: Catalog, db: Tables, op: Op, now: Time): Outcome
    requires op.Hold?
  {
    if op.st !in cat.showtimes then Failed(NotFound)
    else if !cat.showtimes[op.st].salesOpen then Failed(SalesClosed)
    else if CountSeatsInShowtime(cat, op.st, op.seats) != |op.seats| then Failed(InvalidSelection)
    else
      var reclaimed := ReclaimExpiredSeats(db.occ, op.st, op.seats, now);
      var taken := FindSeatConflicts(db.occ + reclaimed, op.st, op.seats, now);
      if |taken| > 0 then Failed(SeatsUnavailable(taken))
      else if op.token in db.holds then Failed(Unexpected)
      else
        var h := CreateHold(op.st, op.customer, op.ttlSeconds, now);
        var rows := ClaimSeats(h, op.token, op.seats);
        if IndexRefuses(db.occ + reclaimed, rows) then Failed(SeatRaceLost)
        else if |rows| != |op.seats| then Failed(Unexpected)
        else
          Done(HoldResult(cat, db.occ + (reclaimed + rows), op, h),
               Tables(map[op.token := h], reclaimed + rows, map[]))
  }

  // ---- Confirm ----

  ghost function BookingFrom(ref: Ref, b: BookingRow, seats: seq<SeatId>): Result {
    Booking(ref, b.showtime, seats, b.totalMinor, b.currency, b.createdAt)
  }

  ghost function BookingRowFor(cat: Catalog, op: Op, h: HoldRow, seats: nat, now: Time): BookingRow
    requires op.Confirm? && h.showtime in cat.showtimes
  {
    BookingRow(op.token, h.showtime, h.customer, cat.showtimes[h.showtime].priceMinor * seats,
               cat.showtimes[h.showtime].currency, op.key, now)
  }

  datatype Insertion = Inserted(ref: Ref) | KeyReused | Exhausted

  /** The bounded retry: a suppressed insert is retried under the next reference
      unless the key has been taken. */
  ghost function InsertBooking(bookings: map<Ref, BookingRow>, row: BookingRow, refs: seq<Ref>): Insertion {
    if refs == [] then Exhausted
    else if !Suppressed(bookings, refs[0], row) then Inserted(refs[0])
    else if KeyTaken(bookings, row.customer, row.key) then KeyReused
    else InsertBooking(bookings, row, refs[1..])
  }

  ghost function ConfirmBody(cat: Catalog, db: Tables, op: Op, now: Time): Outcome
    requires op.Confirm?
  {
    if op.token !in db.holds then Failed(NotFound)
    else
      var h := db.holds[op.token];
      if h.releasedAt.Some? then Failed(HoldExpired)
      else if h.confirmedAt.Some? then
        if !Booked(db.bookings, op.token) then Failed(NotFound)
        else
          var ref := GetBookingByHold(db.bookings, op.token);
          Done(BookingFrom(ref, db.bookings[ref], GetHoldSeats(cat, db.occ, op.token)), NOTHING)
      else if KeyOfAnotherHold(db.bookings, h.customer, op.key, op.token) then Failed(IdempotencyKeyReused)
      else
        var seats := GetHoldSeats(cat, db.occ, op.token);
        var rows := ConfirmHoldSeats(db.occ, op.token, now);
        if |seats| == 0 || |rows| != |seats| || !HoldConfirmable(h, now) then Failed(HoldExpired)
        else if h.showtime !in cat.showtimes then Failed(NotFound)
        else
          var b := BookingRowFor(cat, op, h, |seats|, now);
          match InsertBooking(db.bookings, b, op.refs)
          case KeyReused => Failed(IdempotencyKeyReused)
          case Exhausted => Failed(NoFreeReference)
          case Inserted(ref) =>
            Done(BookingFrom(ref, b, seats), ConfirmWrites(db, op, now, ref, b))
  }

  ghost function ConfirmWrites(db: Tables, op: Op, now: Time, ref: Ref, b: BookingRow): Tables
    requires op.Confirm?
  {
    Tables(ConfirmHold(db.holds, op.token, now), ConfirmHoldSeats(db.occ, op.token, now), map[ref := b])
  }

  // ---- Release and Sweep ----

  ghost function ReleaseBody(db: Tables, op: Op, now: Time): Outcome
    requires op.Release?
  {
    if op.token !in db.holds then Failed(NotFound)
    else if db.holds[op.token].confirmedAt.Some? then Failed(AlreadyConfirmed)
    else
      Done(Released, Tables(ReleaseHold(db.holds, op.token, now), ReleaseHoldSeats(db.occ, op.token, now), map[]))
  }

  /** What Sweep runs for one showtime. */
  ghost function SweepBody(db: Tables, op: Op, now: Time): Outcome
    requires op.Sweep?
  {
    var rows := ReclaimExpiredSeatsForShowtime(db.occ, op.st, now);
    Done(Swept(|rows|), Tables(map[], rows, map[]))
  }

  /** The tables after an operation has run alone. */
  ghost function After(db: Tables, o: Outcome): Tables {
    match o
    case Done(_, writes) => Merge(db, writes)
    case Failed(_) => db
  }

  /** The showtime whose lock an operation takes, read from the tables for an
      operation that names only a hold. */
  ghost predicate LocksShowtime(db: Tables, op: Op, st: ShowtimeId) {
    match op
    case Hold(s, _, _, _, _) => s == st
    case Sweep(s) => s == st
    case Confirm(token, _, _) => token in db.holds && db.holds[token].showtime == st
    case Release(token) => token in db.holds && db.holds[token].showtime == st
  }
}
