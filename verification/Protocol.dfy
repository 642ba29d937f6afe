/** Transactions in flight.

    A transaction begins (which fixes its timestamp), waits for the lock of one
    showtime, runs its body one statement at a time and commits. Each statement
    sees what is committed at that moment plus the transaction's own writes, as
    READ COMMITTED gives it. A transaction may be lost at any point. */
module Protocol {
  import opened Schema
  import opened Statements
  import opened Bodies

  type TxId = nat

  /** The next statement of a transaction, with what its body has captured so far. */
  datatype Pc =
    | Arrived   // the showtime is known, the transaction has not begun
    | Begun     // waiting for the showtime's lock
    // Hold
    | HoldShowtime | HoldCount | HoldReclaim | HoldConflicts | HoldCreate | HoldClaim | HoldRead
    // Confirm
    | ConfirmReread
    | ReplayBooking
    | ReplaySeats(ref: Ref, booked: BookingRow)
    | ConfirmKey(h: HoldRow)
    | ConfirmSeats(h: HoldRow)
    | ConfirmRows(h: HoldRow, seats: seq<SeatId>)
    | ConfirmRow(h: HoldRow, seats: seq<SeatId>)
    | ConfirmShowtime(h: HoldRow, seats: seq<SeatId>)
    | ConfirmInsert(h: HoldRow, seats: seq<SeatId>, attempt: nat)
    | ConfirmRecheck(h: HoldRow, seats: seq<SeatId>, attempt: nat)
    // Release
    | ReleaseReread | ReleaseRows | ReleaseRow
    // Sweep
    | SweepRows
    | Committing(result: Result)

  datatype Step = Next(pc: Pc, writes: Tables) | Fail(error: Error)

  function FirstStatement(op: Op): Pc {
    match op
    case Hold(_, _, _, _, _) => HoldShowtime
    case Confirm(_, _, _) => ConfirmReread
    case Release(_) => ReleaseReread
    case Sweep(_) => SweepRows
  }

  function Reads(pc: Pc): Step {
    Next(pc, NOTHING)
  }

  function WritesRows(pc: Pc, rows: map<OccKey, OccRow>): Step {
    Next(pc, Tables(map[], rows, map[]))
  }

  function WritesHold(pc: Pc, rows: map<Token, HoldRow>): Step {
    Next(pc, Tables(rows, map[], map[]))
  }

  ghost predicate AtStatement(op: Op, pc: Pc) {
    match op
    case Hold(_, _, _, _, _) =>
      pc.HoldShowtime? || pc.HoldCount? || pc.HoldReclaim? || pc.HoldConflicts? || pc.HoldCreate? || pc.HoldClaim? || pc.HoldRead?
    case Confirm(_, _, _) =>
      || pc.ConfirmReread? || pc.ReplayBooking? || pc.ReplaySeats? || pc.ConfirmKey? || pc.ConfirmSeats?
      || pc.ConfirmRows? || pc.ConfirmRow? || pc.ConfirmShowtime? || pc.ConfirmInsert? || pc.ConfirmRecheck?
    case Release(_) => pc.ReleaseReread? || pc.ReleaseRows? || pc.ReleaseRow?
    case Sweep(_) => pc.SweepRows?
  }

  /** One statement, run against what the transaction sees. */
  ghost function Execute(cat: Catalog, view: Tables, op: Op, now: Time, pc: Pc): Step
    requires AtStatement(op, pc)
  {
    match op
    case Hold(_, _, _, _, _) => ExecuteHold(cat, view, op, now, pc)
    case Confirm(_, _, _) => ExecuteConfirm(cat, view, op, now, pc)
    case Release(_) => ExecuteRelease(view, op, now, pc)
    case Sweep(_) =>
      var rows := ReclaimExpiredSeatsForShowtime(view.occ, op.st, now);
      WritesRows(Committing(Swept(|rows|)), rows)
  }

  ghost function ExecuteHold(cat: Catalog, view: Tables, op: Op, now: Time, pc: Pc): Step
    requires op.Hold? && AtStatement(op, pc)
  {
    match pc
    case HoldShowtime =>
      if op.st !in cat.showtimes then Fail(NotFound)
      else if !cat.showtimes[op.st].salesOpen then Fail(SalesClosed)
      else Reads(HoldCount)
    case HoldCount =>
      if CountSeatsInShowtime(cat, op.st, op.seats) != |op.seats| then Fail(InvalidSelection) else Reads(HoldReclaim)
    case HoldReclaim =>
      WritesRows(HoldConflicts, ReclaimExpiredSeats(view.occ, op.st, op.seats, now))
    case HoldConflicts =>
      var taken := FindSeatConflicts(view.occ, op.st, op.seats, now);
      if |taken| > 0 then Fail(SeatsUnavailable(taken)) else Reads(HoldCreate)
    case HoldCreate =>
      if op.token in view.holds then Fail(Unexpected)
      else WritesHold(HoldClaim, map[op.token := CreateHold(op.st, op.customer, op.ttlSeconds, now)])
    case HoldClaim =>
      if op.token !in view.holds then Fail(Unexpected)
      else
        var rows := ClaimSeats(view.holds[op.token], op.token, op.seats);
        if IndexRefuses(view.occ, rows) then Fail(SeatRaceLost)
        else if |rows| != |op.seats| then Fail(Unexpected)
        else WritesRows(HoldRead, rows)
    case HoldRead =>
      if op.token !in view.holds || op.st !in cat.showtimes then Fail(Unexpected)
      else Reads(Committing(HoldResult(cat, view.occ, op, view.holds[op.token])))
  }

  ghost function ExecuteConfirm(cat: Catalog, view: Tables, op: Op, now: Time, pc: Pc): Step
    requires op.Confirm? && AtStatement(op, pc)
  {
    match pc
    case ConfirmReread =>
      if op.token !in view.holds then Fail(NotFound)
      else
        var h := view.holds[op.token];
        if h.releasedAt.Some? then Fail(HoldExpired)
        else if h.confirmedAt.Some? then Reads(ReplayBooking)
        else Reads(ConfirmKey(h))
    case ReplayBooking =>
      if !Booked(view.bookings, op.token) then Fail(NotFound)
      else
        var ref := GetBookingByHold(view.bookings, op.token);
        Reads(ReplaySeats(ref, view.bookings[ref]))
    case ReplaySeats(ref, booked) =>
      Reads(Committing(BookingFrom(ref, booked, GetHoldSeats(cat, view.occ, op.token))))
    case ConfirmKey(h) =>
      if KeyOfAnotherHold(view.bookings, h.customer, op.key, op.token) then Fail(IdempotencyKeyReused)
      else Reads(ConfirmSeats(h))
    case ConfirmSeats(h) =>
      var seats := GetHoldSeats(cat, view.occ, op.token);
      if |seats| == 0 then Fail(HoldExpired) else Reads(ConfirmRows(h, seats))
    case ConfirmRows(h, seats) =>
      var rows := ConfirmHoldSeats(view.occ, op.token, now);
      if |rows| != |seats| then Fail(HoldExpired) else WritesRows(ConfirmRow(h, seats), rows)
    case ConfirmRow(h, seats) =>
      var rows := ConfirmHold(view.holds, op.token, now);
      if |rows| != 1 then Fail(HoldExpired) else WritesHold(ConfirmShowtime(h, seats), rows)
    case ConfirmShowtime(h, seats) =>
      if h.showtime !in cat.showtimes then Fail(NotFound) else Reads(ConfirmInsert(h, seats, 0))
    case ConfirmInsert(h, seats, i) =>
      if i >= |op.refs| then Fail(NoFreeReference)
      else if h.showtime !in cat.showtimes then Fail(NotFound)
      else
        var b := BookingRowFor(cat, op, h, |seats|, now);
        if Suppressed(view.bookings, op.refs[i], b) then Reads(ConfirmRecheck(h, seats, i))
        else Next(Committing(BookingFrom(op.refs[i], b, seats)), Tables(map[], map[], map[op.refs[i] := b]))
    case ConfirmRecheck(h, seats, i) =>
      if KeyTaken(view.bookings, h.customer, op.key) then Fail(IdempotencyKeyReused)
      else if i + 1 >= |op.refs| then Fail(NoFreeReference)
      else Reads(ConfirmInsert(h, seats, i + 1))
  }

  ghost function ExecuteRelease(view: Tables, op: Op, now: Time, pc: Pc): Step
    requires op.Release? && AtStatement(op, pc)
  {
    match pc
    case ReleaseReread =>
      if op.token !in view.holds then Fail(NotFound)
      else if view.holds[op.token].confirmedAt.Some? then Fail(AlreadyConfirmed)
      else Reads(ReleaseRows)
    case ReleaseRows => WritesRows(ReleaseRow, ReleaseHoldSeats(view.occ, op.token, now))
    case ReleaseRow => WritesHold(Committing(Released), ReleaseHold(view.holds, op.token, now))
  }

  // ---- the system ----

  /** `mark` is the index in the history of the committed state that explains the
      transaction so far: the one it saw when it took its lock, or when it last
      read the idempotency keys, the only rows its lock does not protect. */
  datatype Tx = Tx(op: Op, st: ShowtimeId, arrived: nat, now: Time, pc: Pc, writes: Tables, mark: nat)

  datatype Commit = Commit(op: Op, now: Time, result: Result)

  /** A failed operation, the committed state that explains it, and the states
      committed when it arrived and when it failed. */
  datatype Failure = Failure(op: Op, now: Time, error: Error, arrived: nat, at: nat, failed: nat)

  datatype State = State(history: seq<Tables>, txs: map<TxId, Tx>, locks: map<ShowtimeId, TxId>,
                         commits: seq<Commit>, failures: seq<Failure>)

  function Db(s: State): Tables
    requires s.history != []
  {
    s.history[|s.history| - 1]
  }

  function Latest(s: State): nat
    requires s.history != []
  {
    |s.history| - 1
  }

  datatype Label =
    | Arrive(id: TxId, op: Op)
    | Begin(id: TxId, now: Time)
    | Lock(id: TxId)
    | Run(id: TxId)
    | CommitTx(id: TxId)
    | Abort(id: TxId)

  /** Two sets of uncommitted writes that the database does not let stand side by
      side: the second writer of a row or of a unique key waits for the first. */
  ghost predicate Collide(a: Tables, b: Tables) {
    || (exists t :: t in a.holds && t in b.holds)
    || (exists k :: k in a.occ && k in b.occ)
    || IndexRefuses(a.occ, b.occ)
    || (exists r, r' {:trigger SameUnique(r, a.bookings[r], r', b.bookings[r'])} ::
          r in a.bookings && r' in b.bookings && SameUnique(r, a.bookings[r], r', b.bookings[r']))
  }

  ghost function View(s: State, tx: Tx): Tables
    requires s.history != []
  {
    Merge(Db(s), tx.writes)
  }

  ghost predicate Waits(cat: Catalog, s: State, id: TxId, on: TxId)
    requires s.history != [] && id in s.txs && on in s.txs
  {
    var tx := s.txs[id];
    if tx.pc.Begun? then
      tx.st in s.locks && s.locks[tx.st] == on
    else
      && id != on && AtStatement(tx.op, tx.pc)
      && var step := Execute(cat, View(s, tx), tx.op, tx.now, tx.pc);
      step.Next? && Collide(s.txs[on].writes, step.writes)
  }

  /** A hold's token is drawn fresh: no stored hold and no request in flight has it. */
  ghost predicate FreshToken(s: State, op: Op)
    requires s.history != []
  {
    op.Hold? ==> op.token !in Db(s).holds
                 && forall id :: id in s.txs && s.txs[id].op.Hold? ==> s.txs[id].op.token != op.token
  }

  ghost predicate Enabled(cat: Catalog, s: State, l: Label)
    requires s.history != []
  {
    match l
    case Arrive(id, op) => id !in s.txs && ValidOp(op) && FreshToken(s, op)
    case Begin(id, _) => id in s.txs && s.txs[id].pc.Arrived?
    case Lock(id) => id in s.txs && s.txs[id].pc.Begun? && s.txs[id].st !in s.locks
    case Run(id) => id in s.txs && AtStatement(s.txs[id].op, s.txs[id].pc) && !exists on :: on in s.txs && Waits(cat, s, id, on)
    case CommitTx(id) => id in s.txs && s.txs[id].pc.Committing?
    case Abort(id) => id in s.txs
  }

  ghost function Forget(s: State, id: TxId): State {
    s.(txs := s.txs - {id}, locks := map st | st in s.locks && s.locks[st] != id :: s.locks[st])
  }

  /** Statements that read rows the showtime's lock does not protect. */
  predicate ReadsKeys(pc: Pc) {
    pc.ConfirmKey? || pc.ConfirmInsert? || pc.ConfirmRecheck?
  }

  ghost function Apply(cat: Catalog, s: State, l: Label): State
    requires s.history != [] && Enabled(cat, s, l)
  {
    match l
    case Arrive(id, op) =>
      // Confirm and Release read the hold first, to learn which lock to take.
      if (op.Confirm? || op.Release?) && op.token !in Db(s).holds then
        s.(failures := s.failures + [Failure(op, 0, NotFound, Latest(s), Latest(s), Latest(s))])
      else
        var st := match op
                  case Hold(st, _, _, _, _) => st
                  case Sweep(st) => st
                  case Confirm(token, _, _) => Db(s).holds[token].showtime
                  case Release(token) => Db(s).holds[token].showtime;
        s.(txs := s.txs[id := Tx(op, st, Latest(s), 0, Arrived, NOTHING, Latest(s))])
    case Begin(id, now) =>
      s.(txs := s.txs[id := s.txs[id].(now := now, pc := Begun)])
    case Lock(id) =>
      var tx := s.txs[id];
      s.(txs := s.txs[id := tx.(pc := FirstStatement(tx.op), mark := Latest(s))], locks := s.locks[tx.st := id])
    case Run(id) =>
      var tx := s.txs[id];
      var mark := if ReadsKeys(tx.pc) then Latest(s) else tx.mark;
      (match Execute(cat, View(s, tx), tx.op, tx.now, tx.pc)
      case Next(pc, writes) =>
        s.(txs := s.txs[id := tx.(pc := pc, writes := Merge(tx.writes, writes), mark := mark)])
      case Fail(error) =>
        Forget(s, id).(failures := s.failures + [Failure(tx.op, tx.now, error, tx.arrived, mark, Latest(s))]))
    case CommitTx(id) =>
      var tx := s.txs[id];
      Forget(s, id).(history := s.history + [Merge(Db(s), tx.writes)],
                     commits := s.commits + [Commit(tx.op, tx.now, tx.pc.result)])
    case Abort(id) => Forget(s, id)
  }

  /** The state after a schedule. A label that is not enabled is passed over, so
      every sequence of labels is a run. */
  ghost function Reach(cat: Catalog, schedule: seq<Label>): (s: State)
    ensures s.history != []
  {
    if schedule == [] then State([NOTHING], map[], map[], [], [])
    else
      var s := Reach(cat, schedule[..|schedule| - 1]);
      var l := schedule[|schedule| - 1];
      if Enabled(cat, s, l) then Apply(cat, s, l) else s
  }
}
