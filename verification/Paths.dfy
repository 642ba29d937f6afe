/** What a transaction in flight has established about the state that explains it,
    and that its statements, taken one after the other, are its body. */
module Paths {
  import opened Schema
  import opened Statements
  import opened Bodies
  import opened Invariants
  import opened Protocol

  ghost predicate HoldOpen(cat: Catalog, op: Op)
    requires op.Hold?
  {
    && op.st in cat.showtimes && cat.showtimes[op.st].salesOpen
    && CountSeatsInShowtime(cat, op.st, op.seats) == |op.seats|
  }

  ghost predicate HoldPath(cat: Catalog, m: Tables, op: Op, now: Time, pc: Pc, w: Tables)
    requires op.Hold?
  {
    var reclaimed := ReclaimExpiredSeats(m.occ, op.st, op.seats, now);
    var h := CreateHold(op.st, op.customer, op.ttlSeconds, now);
    var rows := ClaimSeats(h, op.token, op.seats);
    match pc
    case HoldShowtime => w == NOTHING
    case HoldCount => w == NOTHING && op.st in cat.showtimes && cat.showtimes[op.st].salesOpen
    case HoldReclaim => w == NOTHING && HoldOpen(cat, op)
    case HoldConflicts => w == Tables(map[], reclaimed, map[]) && HoldOpen(cat, op)
    case HoldCreate =>
      && w == Tables(map[], reclaimed, map[]) && HoldOpen(cat, op)
      && |FindSeatConflicts(m.occ + reclaimed, op.st, op.seats, now)| == 0
    case HoldClaim =>
      && w == Tables(map[op.token := h], reclaimed, map[]) && HoldOpen(cat, op)
      && |FindSeatConflicts(m.occ + reclaimed, op.st, op.seats, now)| == 0
    case HoldRead =>
      && w == Tables(map[op.token := h], reclaimed + rows, map[]) && HoldOpen(cat, op)
      && |FindSeatConflicts(m.occ + reclaimed, op.st, op.seats, now)| == 0
      && !IndexRefuses(m.occ + reclaimed, rows) && |rows| == |op.seats|
    case Committing(r) => HoldBody(cat, m, op, now) == Done(r, w)
    case _ => false
  }

  ghost predicate Unsettled(m: Tables, token: Token, h: HoldRow) {
    token in m.holds && m.holds[token] == h && h.releasedAt.None? && h.confirmedAt.None?
  }

  ghost predicate KeyOk(m: Tables, op: Op, h: HoldRow)
    requires op.Confirm?
  {
    !KeyOfAnotherHold(m.bookings, h.customer, op.key, op.token)
  }

  /** The hold passed every check that its showtime's rows decide. */
  ghost predicate SeatsConfirmed(cat: Catalog, m: Tables, op: Op, now: Time, h: HoldRow, seats: seq<SeatId>, w: Tables)
    requires op.Confirm?
  {
    && Unsettled(m, op.token, h) && HoldConfirmable(h, now)
    && seats == GetHoldSeats(cat, m.occ, op.token) && |seats| > 0
    && |ConfirmHoldSeats(m.occ, op.token, now)| == |seats|
    && w == Tables(ConfirmHold(m.holds, op.token, now), ConfirmHoldSeats(m.occ, op.token, now), map[])
  }

  ghost predicate AttemptsFailed(bookings: map<Ref, BookingRow>, refs: seq<Ref>, b: BookingRow) {
    forall ref :: ref in refs ==> Suppressed(bookings, ref, b)
  }

  ghost predicate ConfirmPath(cat: Catalog, m: Tables, op: Op, now: Time, pc: Pc, w: Tables)
    requires op.Confirm?
  {
    match pc
    case ConfirmReread => w == NOTHING
    case ReplayBooking =>
      w == NOTHING && op.token in m.holds && m.holds[op.token].releasedAt.None? && m.holds[op.token].confirmedAt.Some?
    case ReplaySeats(ref, booked) =>
      && w == NOTHING && op.token in m.holds && m.holds[op.token].releasedAt.None? && m.holds[op.token].confirmedAt.Some?
      && Booked(m.bookings, op.token) && ref == GetBookingByHold(m.bookings, op.token) && booked == m.bookings[ref]
    case ConfirmKey(h) => w == NOTHING && Unsettled(m, op.token, h)
    case ConfirmSeats(h) => w == NOTHING && Unsettled(m, op.token, h) && KeyOk(m, op, h)
    case ConfirmRows(h, seats) =>
      && w == NOTHING && Unsettled(m, op.token, h) && KeyOk(m, op, h)
      && seats == GetHoldSeats(cat, m.occ, op.token) && |seats| > 0
    case ConfirmRow(h, seats) =>
      && w == Tables(map[], ConfirmHoldSeats(m.occ, op.token, now), map[])
      && Unsettled(m, op.token, h) && KeyOk(m, op, h)
      && seats == GetHoldSeats(cat, m.occ, op.token) && |seats| > 0
      && |ConfirmHoldSeats(m.occ, op.token, now)| == |seats|
    case ConfirmShowtime(h, seats) => SeatsConfirmed(cat, m, op, now, h, seats, w) && KeyOk(m, op, h)
    case ConfirmInsert(h, seats, i) =>
      && SeatsConfirmed(cat, m, op, now, h, seats, w) && h.showtime in cat.showtimes && i < |op.refs|
      && AttemptsFailed(m.bookings, op.refs[..i], BookingRowFor(cat, op, h, |seats|, now))
    case ConfirmRecheck(h, seats, i) =>
      && SeatsConfirmed(cat, m, op, now, h, seats, w) && h.showtime in cat.showtimes && i < |op.refs|
      && AttemptsFailed(m.bookings, op.refs[..i + 1], BookingRowFor(cat, op, h, |seats|, now))
    case Committing(r) => ConfirmBody(cat, m, op, now) == Done(r, w)
    case _ => false
  }

  ghost predicate ReleasePath(m: Tables, op: Op, now: Time, pc: Pc, w: Tables)
    requires op.Release?
  {
    match pc
    case ReleaseReread => w == NOTHING
    case ReleaseRows => w == NOTHING && op.token in m.holds && m.holds[op.token].confirmedAt.None?
    case ReleaseRow =>
      && w == Tables(map[], ReleaseHoldSeats(m.occ, op.token, now), map[])
      && op.token in m.holds && m.holds[op.token].confirmedAt.None?
    case Committing(r) => ReleaseBody(m, op, now) == Done(r, w)
    case _ => false
  }

  ghost predicate SweepPath(m: Tables, op: Op, now: Time, pc: Pc, w: Tables)
    requires op.Sweep?
  {
    match pc
    case SweepRows => w == NOTHING
    case Committing(r) => SweepBody(m, op, now) == Done(r, w)
    case _ => false
  }

  /** Run alone from `m`, the body passes through this statement with these writes. */
  ghost predicate OnPath(cat: Catalog, m: Tables, op: Op, now: Time, pc: Pc, w: Tables) {
    match op
    case Hold(_, _, _, _, _) => HoldPath(cat, m, op, now, pc, w)
    case Confirm(_, _, _) => ConfirmPath(cat, m, op, now, pc, w)
    case Release(_) => ReleasePath(m, op, now, pc, w)
    case Sweep(_) => SweepPath(m, op, now, pc, w)
  }

  lemma PathStarts(cat: Catalog, m: Tables, op: Op, now: Time)
    ensures OnPath(cat, m, op, now, FirstStatement(op), NOTHING)
  {}

  lemma PathIsUnderLock(cat: Catalog, m: Tables, op: Op, now: Time, pc: Pc, w: Tables)
    requires OnPath(cat, m, op, now, pc, w)
    ensures pc.Committing? || AtStatement(op, pc)
    ensures !pc.Arrived? && !pc.Begun?
  {}

  /** The next statement stays on the path, or is where the body itself fails. */
  ghost predicate StaysOnPath(cat: Catalog, m: Tables, op: Op, now: Time, w: Tables, step: Step) {
    match step
    case Next(pc, writes) => OnPath(cat, m, op, now, pc, Merge(w, writes))
    case Fail(error) => Body(cat, m, op, now) == Failed(error)
  }

  lemma HoldStays(cat: Catalog, m: Tables, op: Op, now: Time, pc: Pc, w: Tables)
    requires op.Hold? && AtStatement(op, pc) && HoldPath(cat, m, op, now, pc, w) && op.token !in m.holds
    ensures StaysOnPath(cat, m, op, now, w, ExecuteHold(cat, Merge(m, w), op, now, pc))
  {
    MergeNothing(w);
    MergeNothing(m);
    if pc.HoldReclaim? {
      MergeNothing(Tables(map[], ReclaimExpiredSeats(m.occ, op.st, op.seats, now), map[]));
    } else if pc.HoldCreate? {
      PlusEmpty(w.occ);
      PlusEmpty(map[op.token := CreateHold(op.st, op.customer, op.ttlSeconds, now)]);
    } else if pc.HoldClaim? {
      PlusEmpty(w.holds);
    } else if pc.HoldRead? {
      var rows := ClaimSeats(CreateHold(op.st, op.customer, op.ttlSeconds, now), op.token, op.seats);
      PlusAssociates(m.occ, ReclaimExpiredSeats(m.occ, op.st, op.seats, now), rows);
    }
  }

  lemma ReleaseStays(cat: Catalog, m: Tables, op: Op, now: Time, pc: Pc, w: Tables)
    requires op.Release? && AtStatement(op, pc) && ReleasePath(m, op, now, pc, w)
    ensures StaysOnPath(cat, m, op, now, w, ExecuteRelease(Merge(m, w), op, now, pc))
  {
    MergeNothing(w);
    MergeNothing(m);
    PlusEmpty(m.holds);
    PlusEmpty(w.occ);
    PlusEmpty(ReleaseHold(m.holds, op.token, now));
    MergeNothing(Tables(map[], ReleaseHoldSeats(m.occ, op.token, now), map[]));
  }

  lemma SweepStays(cat: Catalog, m: Tables, op: Op, now: Time, pc: Pc, w: Tables)
    requires op.Sweep? && AtStatement(op, pc) && SweepPath(m, op, now, pc, w)
    ensures StaysOnPath(cat, m, op, now, w, Execute(cat, Merge(m, w), op, now, pc))
  {
    MergeNothing(m);
    MergeNothing(Tables(map[], ReclaimExpiredSeatsForShowtime(m.occ, op.st, now), map[]));
  }

  /** Confirm, up to the booking insert. */
  lemma ConfirmStays(cat: Catalog, m: Tables, op: Op, now: Time, pc: Pc, w: Tables)
    requires op.Confirm? && ValidOp(op) && AtStatement(op, pc) && ConfirmPath(cat, m, op, now, pc, w)
    requires !pc.ConfirmRow? && !pc.ConfirmShowtime? && !pc.ConfirmInsert? && !pc.ConfirmRecheck?
    ensures StaysOnPath(cat, m, op, now, w, ExecuteConfirm(cat, Merge(m, w), op, now, pc))
  {
    MergeNothing(m);
    MergeNothing(NOTHING);
    MergeNothing(Tables(map[], ConfirmHoldSeats(m.occ, op.token, now), map[]));
  }

  lemma ConfirmRowStays(cat: Catalog, m: Tables, op: Op, now: Time, pc: Pc, w: Tables)
    requires ValidCatalog(cat) && Inv(cat, m) && ValidOp(op)
    requires op.Confirm? && (pc.ConfirmRow? || pc.ConfirmShowtime?) && ConfirmPath(cat, m, op, now, pc, w)
    ensures StaysOnPath(cat, m, op, now, w, ExecuteConfirm(cat, Merge(m, w), op, now, pc))
  {
    hide ConfirmPath, StaysOnPath, ExecuteConfirm;
    if pc.ConfirmRow? {
      HoldRowStays(cat, m, op, now, pc, w);
    } else {
      ShowtimeStays(cat, m, op, now, pc, w);
    }
  }

  /** Confirming the hold's own row, by whether it is in time. */
  lemma HoldRowStep(cat: Catalog, m: Tables, op: Op, now: Time, pc: Pc, w: Tables)
    requires op.Confirm? && pc.ConfirmRow? && w.holds == map[] && Unsettled(m, op.token, pc.h)
    ensures ExecuteConfirm(cat, Merge(m, w), op, now, pc)
         == if HoldConfirmable(pc.h, now) then WritesHold(ConfirmShowtime(pc.h, pc.seats), ConfirmHold(m.holds, op.token, now))
            else Fail(HoldExpired)
  {
    hide ConfirmHold;
    PlusEmpty(m.holds);
    assert Merge(m, w).holds == m.holds;
    ConfirmHoldCount(m.holds, op.token, now);
  }

  lemma HoldRowStays(cat: Catalog, m: Tables, op: Op, now: Time, pc: Pc, w: Tables)
    requires op.Confirm? && pc.ConfirmRow? && ConfirmPath(cat, m, op, now, pc, w)
    ensures StaysOnPath(cat, m, op, now, w, ExecuteConfirm(cat, Merge(m, w), op, now, pc))
  {
    hide ExecuteConfirm, ConfirmBody, GetHoldSeats, ConfirmHoldSeats, ConfirmHold, KeyOk, Merge;
    HoldRowStep(cat, m, op, now, pc, w);
    if HoldConfirmable(pc.h, now) {
      JoinHoldRow(w.occ, ConfirmHold(m.holds, op.token, now));
    } else {
      LateHoldFails(cat, m, op, now, pc.h);
    }
  }

  lemma JoinHoldRow(occ: map<OccKey, OccRow>, holds: map<Token, HoldRow>)
    ensures Merge(Tables(map[], occ, map[]), Tables(holds, map[], map[])) == Tables(holds, occ, map[])
  {
    PlusEmpty(occ);
    PlusEmpty(holds);
  }

  lemma LateHoldFails(cat: Catalog, m: Tables, op: Op, now: Time, h: HoldRow)
    requires op.Confirm? && Unsettled(m, op.token, h) && KeyOk(m, op, h) && !HoldConfirmable(h, now)
    ensures ConfirmBody(cat, m, op, now) == Failed(HoldExpired)
  {
    hide GetHoldSeats, ConfirmHoldSeats, KeyOfAnotherHold;
  }

  lemma ShowtimeStays(cat: Catalog, m: Tables, op: Op, now: Time, pc: Pc, w: Tables)
    requires HoldsOk(cat, m) && ValidOp(op) && op.Confirm? && pc.ConfirmShowtime? && ConfirmPath(cat, m, op, now, pc, w)
    ensures StaysOnPath(cat, m, op, now, w, ExecuteConfirm(cat, Merge(m, w), op, now, pc))
  {
    hide ConfirmBody, SeatsConfirmed, KeyOk;
    MergeNothing(w);
    SeatsConfirmedWrites(cat, m, op, now, pc.h, pc.seats, w);
    assert op.refs[..0] == [];
  }

  lemma ConfirmHoldCount(holds: map<Token, HoldRow>, token: Token, now: Time)
    ensures |ConfirmHold(holds, token, now)| ==
            if token in holds && HoldConfirmable(holds[token], now) then 1 else 0
  {
    var rows := ConfirmHold(holds, token, now);
    if token in holds && HoldConfirmable(holds[token], now) {
      assert rows.Keys == {token};
    } else {
      assert rows.Keys == {};
    }
    assert |rows| == |rows.Keys|;
  }

  /** The retry loop, replayed from its start, reaches attempt `i` when the ones
      before it were suppressed and the key is free. */
  lemma {:induction false} InsertReaches(bookings: map<Ref, BookingRow>, b: BookingRow, refs: seq<Ref>, i: nat)
    requires i <= |refs| && AttemptsFailed(bookings, refs[..i], b) && !KeyTaken(bookings, b.customer, b.key)
    ensures InsertBooking(bookings, b, refs) == InsertBooking(bookings, b, refs[i..])
  {
    if i == 0 {
      assert refs[0..] == refs;
    } else {
      assert refs[0] in refs[..i];
      assert refs[1..][..i - 1] == refs[..i][1..];
      InsertReaches(bookings, b, refs[1..], i - 1);
      assert refs[1..][i - 1..] == refs[i..];
    }
  }

  lemma KeyTakenSuppresses(bookings: map<Ref, BookingRow>, ref: Ref, b: BookingRow)
    requires KeyTaken(bookings, b.customer, b.key)
    ensures Suppressed(bookings, ref, b)
  {
    var r :| r in bookings && bookings[r].customer == b.customer && bookings[r].key == b.key;
    assert SameUnique(r, bookings[r], ref, b);
  }

  /** A key that is taken is taken by another hold, as this one has no booking. */
  lemma KeyTakenByAnother(cat: Catalog, m: Tables, op: Op, h: HoldRow)
    requires op.Confirm? && BookingsOk(cat, m) && Unsettled(m, op.token, h)
    requires KeyTaken(m.bookings, h.customer, op.key)
    ensures !KeyOk(m, op, h)
  {
    var r :| r in m.bookings && m.bookings[r].customer == h.customer && m.bookings[r].key == op.key;
    assert BookingAgrees(cat, m, m.bookings[r]);
  }

  /** The insert, by whether any committed booking refuses it. */
  lemma InsertStep(cat: Catalog, m: Tables, op: Op, now: Time, pc: Pc, w: Tables)
    requires op.Confirm? && pc.ConfirmInsert? && w.bookings == map[]
    requires pc.h.showtime in cat.showtimes && pc.attempt < |op.refs|
    ensures var b, ref := BookingRowFor(cat, op, pc.h, |pc.seats|, now), op.refs[pc.attempt];
            ExecuteConfirm(cat, Merge(m, w), op, now, pc)
            == if Suppressed(m.bookings, ref, b) then Reads(ConfirmRecheck(pc.h, pc.seats, pc.attempt))
               else Next(Committing(BookingFrom(ref, b, pc.seats)), Tables(map[], map[], map[ref := b]))
  {
    PlusEmpty(m.bookings);
    assert Merge(m, w).bookings == m.bookings;
  }

  lemma InsertStays(cat: Catalog, m: Tables, op: Op, now: Time, pc: Pc, w: Tables)
    requires op.Confirm? && pc.ConfirmInsert? && ConfirmPath(cat, m, op, now, pc, w)
    ensures StaysOnPath(cat, m, op, now, w, ExecuteConfirm(cat, Merge(m, w), op, now, pc))
  {
    hide ExecuteConfirm, SeatsConfirmed, Suppressed, ConfirmBody, AttemptsFailed;
    SeatsConfirmedWrites(cat, m, op, now, pc.h, pc.seats, w);
    InsertStep(cat, m, op, now, pc, w);
    if Suppressed(m.bookings, op.refs[pc.attempt], BookingRowFor(cat, op, pc.h, |pc.seats|, now)) {
      MergeNothing(w);
      OneMoreFailed(m.bookings, op.refs, pc.attempt, BookingRowFor(cat, op, pc.h, |pc.seats|, now));
    } else {
      InsertSucceeds(cat, m, op, now, pc, w);
    }
  }

  lemma SeatsConfirmedWrites(cat: Catalog, m: Tables, op: Op, now: Time, h: HoldRow, seats: seq<SeatId>, w: Tables)
    requires op.Confirm? && SeatsConfirmed(cat, m, op, now, h, seats, w)
    ensures w.bookings == map[] && Unsettled(m, op.token, h)
  {}

  lemma OneMoreFailed(bookings: map<Ref, BookingRow>, refs: seq<Ref>, i: nat, b: BookingRow)
    requires i < |refs| && AttemptsFailed(bookings, refs[..i], b) && Suppressed(bookings, refs[i], b)
    ensures AttemptsFailed(bookings, refs[..i + 1], b)
  {
    assert refs[..i + 1] == refs[..i] + [refs[i]];
  }

  lemma InsertSucceeds(cat: Catalog, m: Tables, op: Op, now: Time, pc: Pc, w: Tables)
    requires op.Confirm? && pc.ConfirmInsert? && ConfirmPath(cat, m, op, now, pc, w)
    requires !Suppressed(m.bookings, op.refs[pc.attempt], BookingRowFor(cat, op, pc.h, |pc.seats|, now))
    ensures var b := BookingRowFor(cat, op, pc.h, |pc.seats|, now);
            var ref := op.refs[pc.attempt];
            ConfirmBody(cat, m, op, now) == Done(BookingFrom(ref, b, pc.seats), Merge(w, Tables(map[], map[], map[ref := b])))
  {
    hide GetHoldSeats, ConfirmHoldSeats, ConfirmHold, Suppressed, KeyTaken, KeyOfAnotherHold, AttemptsFailed, InsertBooking;
    var b := BookingRowFor(cat, op, pc.h, |pc.seats|, now);
    var ref := op.refs[pc.attempt];
    if KeyTaken(m.bookings, b.customer, b.key) {
      KeyTakenSuppresses(m.bookings, ref, b);
    }
    FreeKeyIsNobodys(m.bookings, b.customer, b.key, op.token);
    InsertReaches(m.bookings, b, op.refs, pc.attempt);
    FreeIsInserted(m.bookings, b, op.refs[pc.attempt..]);
    PlusEmpty(w.holds);
    PlusEmpty(w.occ);
    PlusEmpty(map[ref := b]);
    assert Merge(w, Tables(map[], map[], map[ref := b])) == ConfirmWrites(m, op, now, ref, b);
  }

  lemma FreeKeyIsNobodys(bookings: map<Ref, BookingRow>, customer: string, key: string, token: Token)
    requires !KeyTaken(bookings, customer, key)
    ensures !KeyOfAnotherHold(bookings, customer, key, token)
  {}

  lemma ExhaustedIs(bookings: map<Ref, BookingRow>, b: BookingRow)
    ensures InsertBooking(bookings, b, []) == Exhausted
  {}

  lemma FreeIsInserted(bookings: map<Ref, BookingRow>, b: BookingRow, refs: seq<Ref>)
    requires refs != [] && !Suppressed(bookings, refs[0], b)
    ensures InsertBooking(bookings, b, refs) == Inserted(refs[0])
  {}

  /** The recheck, by whether the key has been taken. */
  lemma RecheckStep(cat: Catalog, m: Tables, op: Op, now: Time, pc: Pc, w: Tables)
    requires op.Confirm? && pc.ConfirmRecheck? && w.bookings == map[]
    ensures ExecuteConfirm(cat, Merge(m, w), op, now, pc)
         == if KeyTaken(m.bookings, pc.h.customer, op.key) then Fail(IdempotencyKeyReused)
            else if pc.attempt + 1 >= |op.refs| then Fail(NoFreeReference)
            else Reads(ConfirmInsert(pc.h, pc.seats, pc.attempt + 1))
  {
    hide KeyTaken;
    PlusEmpty(m.bookings);
    assert Merge(m, w).bookings == m.bookings;
  }

  lemma RecheckStays(cat: Catalog, m: Tables, op: Op, now: Time, pc: Pc, w: Tables)
    requires Inv(cat, m) && ValidOp(op)
    requires op.Confirm? && pc.ConfirmRecheck? && ConfirmPath(cat, m, op, now, pc, w)
    ensures StaysOnPath(cat, m, op, now, w, ExecuteConfirm(cat, Merge(m, w), op, now, pc))
  {
    hide ExecuteConfirm, ConfirmBody, SeatsConfirmed, AttemptsFailed, KeyTaken;
    SeatsConfirmedWrites(cat, m, op, now, pc.h, pc.seats, w);
    RecheckStep(cat, m, op, now, pc, w);
    if KeyTaken(m.bookings, pc.h.customer, op.key) {
      TakenKeyFails(cat, m, op, now, pc.h);
    } else if pc.attempt + 1 == |op.refs| {
      assert op.refs[..pc.attempt + 1] == op.refs;
      ExhaustedFails(cat, m, op, now, pc.h, pc.seats, w);
    } else {
      MergeNothing(w);
    }
  }

  lemma TakenKeyFails(cat: Catalog, m: Tables, op: Op, now: Time, h: HoldRow)
    requires Inv(cat, m) && op.Confirm? && Unsettled(m, op.token, h) && KeyTaken(m.bookings, h.customer, op.key)
    ensures ConfirmBody(cat, m, op, now) == Failed(IdempotencyKeyReused)
  {
    hide KeyOfAnotherHold;
    KeyTakenByAnother(cat, m, op, h);
  }

  lemma ExhaustedFails(cat: Catalog, m: Tables, op: Op, now: Time, h: HoldRow, seats: seq<SeatId>, w: Tables)
    requires op.Confirm? && SeatsConfirmed(cat, m, op, now, h, seats, w) && h.showtime in cat.showtimes
    requires AttemptsFailed(m.bookings, op.refs, BookingRowFor(cat, op, h, |seats|, now))
    requires !KeyTaken(m.bookings, h.customer, op.key)
    ensures ConfirmBody(cat, m, op, now) == Failed(NoFreeReference)
  {
    hide GetHoldSeats, ConfirmHoldSeats, ConfirmHold, KeyTaken, KeyOfAnotherHold, AttemptsFailed, InsertBooking;
    var b := BookingRowFor(cat, op, h, |seats|, now);
    FreeKeyIsNobodys(m.bookings, h.customer, op.key, op.token);
    assert op.refs[..|op.refs|] == op.refs && op.refs[|op.refs|..] == [];
    InsertReaches(m.bookings, b, op.refs, |op.refs|);
    ExhaustedIs(m.bookings, b);
  }

  lemma StatementStaysOnPath(cat: Catalog, m: Tables, op: Op, now: Time, pc: Pc, w: Tables)
    requires ValidCatalog(cat) && Inv(cat, m) && ValidOp(op) && AtStatement(op, pc) && OnPath(cat, m, op, now, pc, w)
    requires op.Hold? ==> op.token !in m.holds
    ensures StaysOnPath(cat, m, op, now, w, Execute(cat, Merge(m, w), op, now, pc))
  {
    match op
    case Hold(_, _, _, _, _) => HoldStays(cat, m, op, now, pc, w);
    case Confirm(_, _, _) =>
      if pc.ConfirmInsert? {
        InsertStays(cat, m, op, now, pc, w);
      } else if pc.ConfirmRecheck? {
        RecheckStays(cat, m, op, now, pc, w);
      } else if pc.ConfirmRow? || pc.ConfirmShowtime? {
        ConfirmRowStays(cat, m, op, now, pc, w);
      } else {
        ConfirmStays(cat, m, op, now, pc, w);
      }
    case Release(_) => ReleaseStays(cat, m, op, now, pc, w);
    case Sweep(_) => SweepStays(cat, m, op, now, pc, w);
  }
}
