/** The SQL statements of the booking path, each as what it reads or writes.

    A statement that updates or inserts is a function giving the rows it leaves
    behind under their keys, so its row count is the size of that map. `now` is
    the start of the enclosing transaction, as the database's now() is. */
module Statements {
  import opened Schema

  const MICROS_PER_SECOND := 1_000_000
  const REF_ATTEMPTS := 5

  // ---- predicates the statements share ----

  /** The rows that the liveness view shows at `now`. */
  predicate Live(row: OccRow, now: Time) {
    row.releasedAt.None? && (row.confirmedAt.Some? || row.expiresAt > now)
  }

  /** A row that a reclaim at `now` may release. */
  predicate Lapsed(row: OccRow, now: Time) {
    row.releasedAt.None? && row.confirmedAt.None? && row.expiresAt <= now
  }

  /** A row that a confirm at `now` may confirm. */
  predicate Confirmable(row: OccRow, now: Time) {
    row.releasedAt.None? && row.confirmedAt.None? && row.expiresAt > now
  }

  predicate HoldConfirmable(h: HoldRow, now: Time) {
    h.releasedAt.None? && h.confirmedAt.None? && h.expiresAt > now
  }

  // ---- seat_occupancy ----

  ghost function ReclaimExpiredSeats(occ: map<OccKey, OccRow>, st: ShowtimeId, seats: seq<SeatId>, now: Time)
    : map<OccKey, OccRow>
  {
    map k | k in occ && occ[k].showtime == st && k.seat in seats && Lapsed(occ[k], now)
      :: occ[k].(releasedAt := Some(now))
  }

  ghost function ReclaimExpiredSeatsForShowtime(occ: map<OccKey, OccRow>, st: ShowtimeId, now: Time)
    : map<OccKey, OccRow>
  {
    map k | k in occ && occ[k].showtime == st && Lapsed(occ[k], now) :: occ[k].(releasedAt := Some(now))
  }

  ghost function FindSeatConflicts(occ: map<OccKey, OccRow>, st: ShowtimeId, seats: seq<SeatId>, now: Time)
    : seq<SeatId>
  {
    Sorted(set k | k in occ && occ[k].showtime == st && k.seat in seats && Live(occ[k], now) :: k.seat)
  }

  ghost function ClaimSeats(h: HoldRow, token: Token, seats: seq<SeatId>): map<OccKey, OccRow> {
    map s | s in seats :: OccKey(token, s) := OccRow(h.showtime, h.expiresAt, None, None)
  }

  /** The partial unique index refuses `rows`: one of them would be a second
      unreleased row for its seat in its showtime. */
  ghost predicate IndexRefuses(occ: map<OccKey, OccRow>, rows: map<OccKey, OccRow>) {
    exists k, n {:trigger SameSeat(k, occ[k], n, rows[n])} :: k in occ && n in rows && SameSeat(k, occ[k], n, rows[n])
  }

  predicate SameSeat(k: OccKey, row: OccRow, k': OccKey, row': OccRow) {
    && row.releasedAt.None? && row'.releasedAt.None?
    && row.showtime == row'.showtime && k.seat == k'.seat
  }

  ghost function ConfirmHoldSeats(occ: map<OccKey, OccRow>, token: Token, now: Time): map<OccKey, OccRow> {
    map k | k in occ && k.hold == token && Confirmable(occ[k], now) :: occ[k].(confirmedAt := Some(now))
  }

  ghost function ReleaseHoldSeats(occ: map<OccKey, OccRow>, token: Token, now: Time): map<OccKey, OccRow> {
    map k | k in occ && k.hold == token && occ[k].releasedAt.None? && occ[k].confirmedAt.None?
      :: occ[k].(releasedAt := Some(now))
  }

  ghost function HoldSeats(occ: map<OccKey, OccRow>, token: Token): set<SeatId> {
    set k | k in occ && k.hold == token && occ[k].releasedAt.None? :: k.seat
  }

  ghost function GetHoldSeats(cat: Catalog, occ: map<OccKey, OccRow>, token: Token): seq<SeatId> {
    Pick(cat.order, HoldSeats(occ, token))
  }

  // ---- holds ----

  ghost function CreateHold(st: ShowtimeId, customer: string, ttlSeconds: int, now: Time): HoldRow {
    HoldRow(st, customer, now + ttlSeconds * MICROS_PER_SECOND, None, None)
  }

  ghost function ConfirmHold(holds: map<Token, HoldRow>, token: Token, now: Time): map<Token, HoldRow> {
    map t | t in holds && t == token && HoldConfirmable(holds[t], now) :: holds[t].(confirmedAt := Some(now))
  }

  ghost function ReleaseHold(holds: map<Token, HoldRow>, token: Token, now: Time): map<Token, HoldRow> {
    map t | t in holds && t == token && holds[t].releasedAt.None? && holds[t].confirmedAt.None?
      :: holds[t].(releasedAt := Some(now))
  }

  // ---- bookings ----

  ghost predicate Booked(bookings: map<Ref, BookingRow>, token: Token) {
    exists r :: r in bookings && bookings[r].hold == token
  }

  ghost function GetBookingByHold(bookings: map<Ref, BookingRow>, token: Token): (r: Ref)
    requires Booked(bookings, token)
    ensures r in bookings && bookings[r].hold == token
  {
    var r :| r in bookings && bookings[r].hold == token;
    r
  }

  /** GetBookingByIdempotencyKey finds a row. */
  ghost predicate KeyTaken(bookings: map<Ref, BookingRow>, customer: string, key: string) {
    exists r :: r in bookings && bookings[r].customer == customer && bookings[r].key == key
  }

  /** GetBookingByIdempotencyKey finds a row, and it names another hold. */
  ghost predicate KeyOfAnotherHold(bookings: map<Ref, BookingRow>, customer: string, key: string, token: Token) {
    exists r :: r in bookings && bookings[r].customer == customer && bookings[r].key == key && bookings[r].hold != token
  }

  /** Two bookings that no unique constraint lets stand side by side. */
  predicate SameUnique(r: Ref, b: BookingRow, r': Ref, b': BookingRow) {
    r == r' || b.hold == b'.hold || (b.customer == b'.customer && b.key == b'.key)
  }

  /** ON CONFLICT DO NOTHING: the insert of `row` under `ref` returns no row. */
  ghost predicate Suppressed(bookings: map<Ref, BookingRow>, ref: Ref, row: BookingRow) {
    exists r :: r in bookings && SameUnique(r, bookings[r], ref, row)
  }

  // ---- catalog ----

  ghost function CountSeatsInShowtime(cat: Catalog, st: ShowtimeId, seats: seq<SeatId>): nat {
    |set s | s in seats && Belongs(cat, st, s)|
  }

  predicate Belongs(cat: Catalog, st: ShowtimeId, s: SeatId) {
    st in cat.showtimes && s in cat.seats && cat.seats[s].auditorium == cat.showtimes[st].auditorium
  }
}
