/** Sweeping is housekeeping: while each showtime's clock follows its lock,
    dropping the sweeps from a run changes no other answer, no seat map and no hold
    status. */
module Sweeper {
  import opened Schema
  import opened Statements
  import opened Bodies
  import opened Invariants
  import opened SeatMaps

  // ---- runs, one body at a time ----

  datatype Call = Call(op: Op, now: Time)

  ghost function Step(cat: Catalog, db: Tables, c: Call): Tables {
    After(db, Body(cat, db, c.op, c.now))
  }

  ghost function RunAll(cat: Catalog, db: Tables, calls: seq<Call>): Tables
    decreases |calls|
  {
    if calls == [] then db else RunAll(cat, Step(cat, db, calls[0]), calls[1..])
  }

  /** What the callers are told. Nobody waits for a sweep's answer. */
  ghost function Answers(cat: Catalog, db: Tables, calls: seq<Call>): seq<Answer>
    decreases |calls|
  {
    if calls == [] then []
    else
      (if calls[0].op.Sweep? then [] else [AnswerOf(Body(cat, db, calls[0].op, calls[0].now))])
      + Answers(cat, Step(cat, db, calls[0]), calls[1..])
  }

  function WithoutSweeps(calls: seq<Call>): seq<Call> {
    if calls == [] then []
    else (if calls[0].op.Sweep? then [] else [calls[0]]) + WithoutSweeps(calls[1..])
  }

  ghost predicate ValidCalls(calls: seq<Call>) {
    forall i :: 0 <= i < |calls| ==> ValidOp(calls[i].op)
  }

  // ---- clocks ----

  /** The latest timestamp used so far under each showtime's lock. */
  type Clocks = map<ShowtimeId, Time>

  /** The showtime whose lock the call takes, if it gets as far as taking one. */
  function Locked(db: Tables, op: Op): Option<ShowtimeId> {
    match op
    case Hold(st, _, _, _, _) => Some(st)
    case Sweep(st) => Some(st)
    case Confirm(token, _, _) => if token in db.holds then Some(db.holds[token].showtime) else None
    case Release(token) => if token in db.holds then Some(db.holds[token].showtime) else None
  }

  predicate NotBefore(clocks: Clocks, st: ShowtimeId, now: Time) {
    st in clocks ==> clocks[st] <= now
  }

  function Advance(clocks: Clocks, db: Tables, c: Call): Clocks {
    match Locked(db, c.op)
    case Some(st) => clocks[st := c.now]
    case None => clocks
  }

  predicate OnTime(clocks: Clocks, db: Tables, c: Call) {
    match Locked(db, c.op)
    case Some(st) => NotBefore(clocks, st, c.now)
    case None => true
  }

  /** Timestamps do not decrease in the order in which a showtime's lock is taken. */
  ghost predicate InOrder(cat: Catalog, db: Tables, calls: seq<Call>, clocks: Clocks)
    decreases |calls|
  {
    calls == [] ||
    (OnTime(clocks, db, calls[0]) && InOrder(cat, Step(cat, db, calls[0]), calls[1..], Advance(clocks, db, calls[0])))
  }

  ghost function ClocksAfter(cat: Catalog, db: Tables, calls: seq<Call>, clocks: Clocks): Clocks
    decreases |calls|
  {
    if calls == [] then clocks
    else ClocksAfter(cat, Step(cat, db, calls[0]), calls[1..], Advance(clocks, db, calls[0]))
  }

  // ---- the simulation ----

  /** Equal, or both unconfirmed and past their expiry by the showtime's clock. */
  ghost predicate RowAlike(a: OccRow, b: OccRow, clocks: Clocks) {
    || a == b
    || (&& a.showtime == b.showtime && a.expiresAt == b.expiresAt && a.confirmedAt.None? && b.confirmedAt.None?
        && a.showtime in clocks && a.expiresAt <= clocks[a.showtime])
  }

  ghost predicate OccAlike(a: map<OccKey, OccRow>, b: map<OccKey, OccRow>, clocks: Clocks) {
    a.Keys == b.Keys && forall k :: k in a ==> RowAlike(a[k], b[k], clocks)
  }

  /** The tables agree but for when, and whether, lapsed rows were reclaimed. */
  ghost predicate Alike(a: Tables, b: Tables, clocks: Clocks) {
    a.holds == b.holds && a.bookings == b.bookings && OccAlike(a.occ, b.occ, clocks)
  }

  lemma SameLive(a: map<OccKey, OccRow>, b: map<OccKey, OccRow>, clocks: Clocks, k: OccKey, now: Time)
    requires OccAlike(a, b, clocks) && k in a && NotBefore(clocks, a[k].showtime, now)
    ensures k in b && b[k].showtime == a[k].showtime && b[k].confirmedAt == a[k].confirmedAt
    ensures Live(a[k], now) <==> Live(b[k], now)
  {
    assert RowAlike(a[k], b[k], clocks);
  }

  /** The seat map cannot tell them apart. */
  lemma SameStatus(a: map<OccKey, OccRow>, b: map<OccKey, OccRow>, clocks: Clocks, st: ShowtimeId, s: SeatId, now: Time)
    requires OccAlike(a, b, clocks) && NotBefore(clocks, st, now)
    ensures StatusOf(a, st, s, now) == StatusOf(b, st, s, now)
  {
    assert LiveRows(a, st, s, now) == LiveRows(b, st, s, now) by {
      forall k ensures k in LiveRows(a, st, s, now) <==> k in LiveRows(b, st, s, now) {
        if k in a && NotBefore(clocks, a[k].showtime, now) {
          SameLive(a, b, clocks, k, now);
        } else if k in a {
          assert RowAlike(a[k], b[k], clocks);
        }
      }
    }
    forall k | k in LiveRows(a, st, s, now) ensures a[k].confirmedAt == b[k].confirmedAt {
      SameLive(a, b, clocks, k, now);
    }
  }

  lemma SameConflicts(a: map<OccKey, OccRow>, b: map<OccKey, OccRow>, clocks: Clocks, st: ShowtimeId, seats: seq<SeatId>, now: Time)
    requires OccAlike(a, b, clocks) && NotBefore(clocks, st, now)
    ensures FindSeatConflicts(a + ReclaimExpiredSeats(a, st, seats, now), st, seats, now)
         == FindSeatConflicts(b + ReclaimExpiredSeats(b, st, seats, now), st, seats, now)
  {
    ConflictsAreBlocked(a, st, seats, now);
    ConflictsAreBlocked(b, st, seats, now);
    assert Blocked(a, st, seats, now) == Blocked(b, st, seats, now) by {
      forall s ensures s in Blocked(a, st, seats, now) <==> s in Blocked(b, st, seats, now) {
        SameStatus(a, b, clocks, st, s, now);
      }
    }
  }

  // ---- one call on both sides ----

  lemma ClocksForward(a: map<OccKey, OccRow>, b: map<OccKey, OccRow>, clocks: Clocks, st: ShowtimeId, now: Time)
    requires OccAlike(a, b, clocks) && NotBefore(clocks, st, now)
    ensures OccAlike(a, b, clocks[st := now])
  {
    forall k | k in a ensures RowAlike(a[k], b[k], clocks[st := now]) {
      assert RowAlike(a[k], b[k], clocks);
    }
  }

  lemma NewHoldSeats(cat: Catalog, db: Tables, op: Op, now: Time)
    requires Inv(cat, db) && op.Hold? && op.token !in db.holds
    ensures var rows := ClaimSeats(CreateHold(op.st, op.customer, op.ttlSeconds, now), op.token, op.seats);
            HoldSeats(db.occ + (ReclaimExpiredSeats(db.occ, op.st, op.seats, now) + rows), op.token) == Elements(op.seats)
  {
    var rows := ClaimSeats(CreateHold(op.st, op.customer, op.ttlSeconds, now), op.token, op.seats);
    var after := db.occ + (ReclaimExpiredSeats(db.occ, op.st, op.seats, now) + rows);
    forall s ensures s in HoldSeats(after, op.token) <==> s in op.seats {
      var k := OccKey(op.token, s);
      assert k !in db.occ;
      assert k in rows <==> s in op.seats;
      assert s in HoldSeats(after, op.token) <==> k in after && after[k].releasedAt.None?;
    }
  }

  lemma RowsAfterHold(a: map<OccKey, OccRow>, b: map<OccKey, OccRow>, clocks: Clocks, st: ShowtimeId, seats: seq<SeatId>,
                      now: Time, rows: map<OccKey, OccRow>)
    requires OccAlike(a, b, clocks) && NotBefore(clocks, st, now)
    ensures OccAlike(a + (ReclaimExpiredSeats(a, st, seats, now) + rows),
                     b + (ReclaimExpiredSeats(b, st, seats, now) + rows), clocks[st := now])
  {
    var ra, rb := ReclaimExpiredSeats(a, st, seats, now), ReclaimExpiredSeats(b, st, seats, now);
    var a', b' := a + (ra + rows), b + (rb + rows);
    assert a'.Keys == a.Keys + rows.Keys && b'.Keys == b.Keys + rows.Keys;
    forall k | k in a' ensures RowAlike(a'[k], b'[k], clocks[st := now]) {
      if k !in rows {
        assert RowAlike(a[k], b[k], clocks);
      }
    }
  }

  lemma HoldAlike(cat: Catalog, a: Tables, b: Tables, op: Op, now: Time, clocks: Clocks)
    requires Inv(cat, a) && Inv(cat, b) && Alike(a, b, clocks)
    requires op.Hold? && ValidOp(op) && NotBefore(clocks, op.st, now)
    ensures AnswerOf(HoldBody(cat, a, op, now)) == AnswerOf(HoldBody(cat, b, op, now))
    ensures Alike(After(a, HoldBody(cat, a, op, now)), After(b, HoldBody(cat, b, op, now)), clocks[op.st := now])
  {
    hide Inv, OccAlike, HoldBody, ReclaimExpiredSeats, FindSeatConflicts;
    ClocksForward(a.occ, b.occ, clocks, op.st, now);
    SameConflicts(a.occ, b.occ, clocks, op.st, op.seats, now);
    if |ConflictsOf(a, op, now)| == 0 && op.token !in a.holds {
      FreeHoldAlike(cat, a, b, op, now, clocks);
    } else {
      TurnedAway(cat, a, b, op, now);
    }
  }

  ghost function ConflictsOf(db: Tables, op: Op, now: Time): seq<SeatId>
    requires op.Hold?
  {
    FindSeatConflicts(db.occ + ReclaimExpiredSeats(db.occ, op.st, op.seats, now), op.st, op.seats, now)
  }

  lemma TurnedAway(cat: Catalog, a: Tables, b: Tables, op: Op, now: Time)
    requires op.Hold? && a.holds == b.holds && ConflictsOf(a, op, now) == ConflictsOf(b, op, now)
    requires |ConflictsOf(a, op, now)| > 0 || op.token in a.holds
    ensures HoldBody(cat, a, op, now).Failed? && HoldBody(cat, b, op, now) == HoldBody(cat, a, op, now)
  {
    hide ReclaimExpiredSeats, FindSeatConflicts, CountSeatsInShowtime, IndexRefuses, ClaimSeats;
  }

  /** What a hold does that finds no conflicts: nothing in it but the rows it reclaims
      depends on the seat rows. */
  ghost function FreeHold(cat: Catalog, op: Op, now: Time, reclaimed: map<OccKey, OccRow>): Outcome
    requires op.Hold?
  {
    var h := CreateHold(op.st, op.customer, op.ttlSeconds, now);
    var rows := ClaimSeats(h, op.token, op.seats);
    if op.st !in cat.showtimes then Failed(NotFound)
    else if !cat.showtimes[op.st].salesOpen then Failed(SalesClosed)
    else if CountSeatsInShowtime(cat, op.st, op.seats) != |op.seats| then Failed(InvalidSelection)
    else if |rows| != |op.seats| then Failed(Unexpected)
    else
      Done(Result.Held(op.token, op.st, Pick(cat.order, Elements(op.seats)), h.expiresAt,
                       cat.showtimes[op.st].priceMinor * |op.seats|, cat.showtimes[op.st].currency),
           Tables(map[op.token := h], reclaimed + rows, map[]))
  }

  lemma FreeHoldIs(cat: Catalog, db: Tables, op: Op, now: Time)
    requires Inv(cat, db) && op.Hold? && |ConflictsOf(db, op, now)| == 0 && op.token !in db.holds
    ensures HoldBody(cat, db, op, now) == FreeHold(cat, op, now, ReclaimExpiredSeats(db.occ, op.st, op.seats, now))
  {
    hide Inv, ReclaimExpiredSeats, FindSeatConflicts, IndexRefuses, ClaimSeats, HoldSeats, CountSeatsInShowtime;
    IndexNeverRefuses(db.occ, op, now);
    NewHoldSeats(cat, db, op, now);
  }

  lemma FreeHoldSame(cat: Catalog, op: Op, now: Time, r: map<OccKey, OccRow>, r': map<OccKey, OccRow>)
    requires op.Hold?
    ensures AnswerOf(FreeHold(cat, op, now, r)) == AnswerOf(FreeHold(cat, op, now, r'))
  {
    hide ClaimSeats, CountSeatsInShowtime;
  }

  lemma AfterFreeHold(cat: Catalog, db: Tables, op: Op, now: Time, r: map<OccKey, OccRow>)
    requires op.Hold?
    ensures var h := CreateHold(op.st, op.customer, op.ttlSeconds, now);
            After(db, FreeHold(cat, op, now, r))
            == if FreeHold(cat, op, now, r).Done?
               then Tables(db.holds + map[op.token := h], db.occ + (r + ClaimSeats(h, op.token, op.seats)), db.bookings)
               else db
  {
    hide ClaimSeats, CountSeatsInShowtime;
    PlusEmpty(db.bookings);
  }

  lemma FreeHoldAlike(cat: Catalog, a: Tables, b: Tables, op: Op, now: Time, clocks: Clocks)
    requires Inv(cat, a) && Inv(cat, b) && Alike(a, b, clocks)
    requires op.Hold? && ValidOp(op) && NotBefore(clocks, op.st, now)
    requires |ConflictsOf(a, op, now)| == 0 && |ConflictsOf(b, op, now)| == 0 && op.token !in a.holds
    ensures AnswerOf(HoldBody(cat, a, op, now)) == AnswerOf(HoldBody(cat, b, op, now))
    ensures Alike(After(a, HoldBody(cat, a, op, now)), After(b, HoldBody(cat, b, op, now)), clocks[op.st := now])
  {
    hide Inv, HoldBody, FreeHold, After, OccAlike, ReclaimExpiredSeats, ClaimSeats, ConflictsOf;
    FreeHoldIs(cat, a, op, now);
    FreeHoldIs(cat, b, op, now);
    var ra, rb := ReclaimExpiredSeats(a.occ, op.st, op.seats, now), ReclaimExpiredSeats(b.occ, op.st, op.seats, now);
    FreeHoldSame(cat, op, now, ra, rb);
    AfterFreeHold(cat, a, op, now, ra);
    AfterFreeHold(cat, b, op, now, rb);
    ClocksForward(a.occ, b.occ, clocks, op.st, now);
    RowsAfterHold(a.occ, b.occ, clocks, op.st, op.seats, now,
                  ClaimSeats(CreateHold(op.st, op.customer, op.ttlSeconds, now), op.token, op.seats));
  }

  /** A hold that is settled, or still in time, has the same unreleased rows in both. */
  lemma SameHeldRows(cat: Catalog, a: Tables, b: Tables, clocks: Clocks, token: Token, now: Time)
    requires Inv(cat, a) && Inv(cat, b) && Alike(a, b, clocks) && token in a.holds
    requires NotBefore(clocks, a.holds[token].showtime, now)
    requires a.holds[token].confirmedAt.Some? || a.holds[token].expiresAt > now
    ensures HoldSeats(a.occ, token) == HoldSeats(b.occ, token)
    ensures a.holds[token].confirmedAt.None? ==> ConfirmHoldSeats(a.occ, token, now) == ConfirmHoldSeats(b.occ, token, now)
  {
    forall k | k in a.occ && k.hold == token
      ensures a.occ[k].releasedAt.None? <==> b.occ[k].releasedAt.None?
      ensures a.holds[token].confirmedAt.None? ==> a.occ[k] == b.occ[k]
    {
      assert RowAgrees(k, a.occ[k], a.holds[token]) && RowAgrees(k, b.occ[k], b.holds[token]);
      assert RowAlike(a.occ[k], b.occ[k], clocks);
    }
    assert forall s :: s in HoldSeats(a.occ, token) <==> OccKey(token, s) in a.occ && a.occ[OccKey(token, s)].releasedAt.None?;
    assert forall s :: s in HoldSeats(b.occ, token) <==> OccKey(token, s) in b.occ && b.occ[OccKey(token, s)].releasedAt.None?;
  }

  /** Too late is too late, whatever has been reclaimed. */
  lemma LateConfirmFails(cat: Catalog, db: Tables, op: Op, now: Time)
    requires ValidCatalog(cat) && Inv(cat, db) && op.Confirm? && op.token in db.holds
    requires db.holds[op.token].confirmedAt.None? && db.holds[op.token].releasedAt.None?
    requires db.holds[op.token].expiresAt <= now
    ensures ConfirmBody(cat, db, op, now) ==
            if KeyOfAnotherHold(db.bookings, db.holds[op.token].customer, op.key, op.token)
            then Failed(IdempotencyKeyReused) else Failed(HoldExpired)
  {}

  lemma ConfirmAlike(cat: Catalog, a: Tables, b: Tables, op: Op, now: Time, clocks: Clocks)
    requires ValidCatalog(cat) && Inv(cat, a) && Inv(cat, b) && Alike(a, b, clocks)
    requires op.Confirm? && op.token in a.holds && NotBefore(clocks, a.holds[op.token].showtime, now)
    ensures AnswerOf(ConfirmBody(cat, a, op, now)) == AnswerOf(ConfirmBody(cat, b, op, now))
    ensures Alike(After(a, ConfirmBody(cat, a, op, now)), After(b, ConfirmBody(cat, b, op, now)),
                  clocks[a.holds[op.token].showtime := now])
  {
    hide Inv, OccAlike, ConfirmBody;
    var h := a.holds[op.token];
    ClocksForward(a.occ, b.occ, clocks, h.showtime, now);
    if h.releasedAt.Some? {
      assert ConfirmBody(cat, a, op, now) == Failed(HoldExpired) == ConfirmBody(cat, b, op, now) by {
        ReleasedConfirmFails(cat, a, op, now);
        ReleasedConfirmFails(cat, b, op, now);
      }
    } else if h.confirmedAt.Some? {
      SameHeldRows(cat, a, b, clocks, op.token, now);
      ReplayAlike(cat, a, b, op, now);
    } else if h.expiresAt <= now {
      LateConfirmFails(cat, a, op, now);
      LateConfirmFails(cat, b, op, now);
    } else {
      SameHeldRows(cat, a, b, clocks, op.token, now);
      TimelyConfirmAlike(cat, a, b, op, now);
      SameRowsOver(a.occ, b.occ, clocks[h.showtime := now], ConfirmHoldSeats(a.occ, op.token, now));
    }
  }

  lemma ReleasedConfirmFails(cat: Catalog, db: Tables, op: Op, now: Time)
    requires op.Confirm? && op.token in db.holds && db.holds[op.token].releasedAt.Some?
    ensures ConfirmBody(cat, db, op, now) == Failed(HoldExpired)
  {}

  lemma ReplayAlike(cat: Catalog, a: Tables, b: Tables, op: Op, now: Time)
    requires op.Confirm? && op.token in a.holds && a.holds[op.token].confirmedAt.Some? && a.holds[op.token].releasedAt.None?
    requires a.holds == b.holds && a.bookings == b.bookings && HoldSeats(a.occ, op.token) == HoldSeats(b.occ, op.token)
    ensures AnswerOf(ConfirmBody(cat, a, op, now)) == AnswerOf(ConfirmBody(cat, b, op, now))
    ensures After(a, ConfirmBody(cat, a, op, now)) == a && After(b, ConfirmBody(cat, b, op, now)) == b
  {
    hide HoldSeats;
    MergeNothing(a);
    MergeNothing(b);
  }

  /** A first Confirm depends on the bookings, its hold and its hold's rows. */
  lemma TimelyConfirmAlike(cat: Catalog, a: Tables, b: Tables, op: Op, now: Time)
    requires op.Confirm? && op.token in a.holds && a.holds[op.token].confirmedAt.None? && a.holds[op.token].releasedAt.None?
    requires a.holds == b.holds && a.bookings == b.bookings && HoldSeats(a.occ, op.token) == HoldSeats(b.occ, op.token)
    requires ConfirmHoldSeats(a.occ, op.token, now) == ConfirmHoldSeats(b.occ, op.token, now)
    ensures var oa, ob := ConfirmBody(cat, a, op, now), ConfirmBody(cat, b, op, now);
            && AnswerOf(oa) == AnswerOf(ob)
            && if oa.Done?
               then && ob.Done? && oa.writes == ob.writes && oa.writes.occ == ConfirmHoldSeats(a.occ, op.token, now)
               else ob.Failed?
  {
    hide HoldSeats, ConfirmHoldSeats, ConfirmHold, InsertBooking, KeyOfAnotherHold;
  }

  lemma SameRowsOver(a: map<OccKey, OccRow>, b: map<OccKey, OccRow>, clocks: Clocks, rows: map<OccKey, OccRow>)
    requires OccAlike(a, b, clocks)
    ensures OccAlike(a + rows, b + rows, clocks)
  {
    assert (a + rows).Keys == a.Keys + rows.Keys && (b + rows).Keys == b.Keys + rows.Keys;
    forall k | k in a + rows ensures RowAlike((a + rows)[k], (b + rows)[k], clocks) {
      if k !in rows {
        assert RowAlike(a[k], b[k], clocks);
      }
    }
  }

  lemma ReleaseAlike(cat: Catalog, a: Tables, b: Tables, op: Op, now: Time, clocks: Clocks)
    requires Inv(cat, a) && Inv(cat, b) && Alike(a, b, clocks)
    requires op.Release? && op.token in a.holds && NotBefore(clocks, a.holds[op.token].showtime, now)
    ensures AnswerOf(ReleaseBody(a, op, now)) == AnswerOf(ReleaseBody(b, op, now))
    ensures Alike(After(a, ReleaseBody(a, op, now)), After(b, ReleaseBody(b, op, now)),
                  clocks[a.holds[op.token].showtime := now])
  {
    hide Inv, OccAlike, ReleaseHoldSeats;
    var st := a.holds[op.token].showtime;
    ClocksForward(a.occ, b.occ, clocks, st, now);
    RowsAfterRelease(a.occ, b.occ, clocks[st := now], op.token, now);
  }

  lemma RowsAfterRelease(a: map<OccKey, OccRow>, b: map<OccKey, OccRow>, clocks: Clocks, token: Token, now: Time)
    requires OccAlike(a, b, clocks)
    ensures OccAlike(a + ReleaseHoldSeats(a, token, now), b + ReleaseHoldSeats(b, token, now), clocks)
  {
    var a', b' := a + ReleaseHoldSeats(a, token, now), b + ReleaseHoldSeats(b, token, now);
    assert a'.Keys == a.Keys && b'.Keys == b.Keys;
    forall k | k in a' ensures RowAlike(a'[k], b'[k], clocks) {
      assert RowAlike(a[k], b[k], clocks);
    }
  }

  /** A sweep on one side only. */
  lemma SweepAlike(cat: Catalog, a: Tables, b: Tables, op: Op, now: Time, clocks: Clocks)
    requires Alike(a, b, clocks) && op.Sweep? && NotBefore(clocks, op.st, now)
    ensures Alike(After(a, SweepBody(a, op, now)), b, clocks[op.st := now])
  {
    var a' := After(a, SweepBody(a, op, now));
    PlusEmpty(a.holds);
    PlusEmpty(a.bookings);
    assert a'.occ.Keys == a.occ.Keys;
    forall k | k in a'.occ ensures RowAlike(a'.occ[k], b.occ[k], clocks[op.st := now]) {
      assert RowAlike(a.occ[k], b.occ[k], clocks);
    }
  }

  /** Every call, with the same tables but for lapsed rows on either side, is answered
      alike and leaves the tables alike. */
  lemma CallAlike(cat: Catalog, a: Tables, b: Tables, c: Call, clocks: Clocks)
    requires ValidCatalog(cat) && Inv(cat, a) && Inv(cat, b) && Alike(a, b, clocks)
    requires ValidOp(c.op) && !c.op.Sweep? && OnTime(clocks, a, c)
    ensures AnswerOf(Body(cat, a, c.op, c.now)) == AnswerOf(Body(cat, b, c.op, c.now))
    ensures Alike(Step(cat, a, c), Step(cat, b, c), Advance(clocks, a, c))
  {
    hide Inv, OccAlike, HoldBody, ConfirmBody, ReleaseBody;
    match c.op
    case Hold(_, _, _, _, _) => HoldAlike(cat, a, b, c.op, c.now, clocks);
    case Confirm(token, _, _) =>
      if token in a.holds { ConfirmAlike(cat, a, b, c.op, c.now, clocks); } else { UnknownHold(cat, a, b, c); }
    case Release(token) =>
      if token in a.holds { ReleaseAlike(cat, a, b, c.op, c.now, clocks); } else { UnknownHold(cat, a, b, c); }
  }

  lemma UnknownHold(cat: Catalog, a: Tables, b: Tables, c: Call)
    requires c.op.Confirm? || c.op.Release?
    requires c.op.token !in a.holds && c.op.token !in b.holds
    ensures Body(cat, a, c.op, c.now) == Failed(NotFound) == Body(cat, b, c.op, c.now)
  {}

  lemma {:induction false} SweepsChangeNothing(cat: Catalog, a: Tables, b: Tables, calls: seq<Call>, clocks: Clocks)
    requires ValidCatalog(cat) && Inv(cat, a) && Inv(cat, b) && Alike(a, b, clocks)
    requires ValidCalls(calls) && InOrder(cat, a, calls, clocks)
    ensures Answers(cat, a, calls) == Answers(cat, b, WithoutSweeps(calls))
    ensures Alike(RunAll(cat, a, calls), RunAll(cat, b, WithoutSweeps(calls)), ClocksAfter(cat, a, calls, clocks))
    ensures Inv(cat, RunAll(cat, a, calls)) && Inv(cat, RunAll(cat, b, WithoutSweeps(calls)))
    decreases |calls|
  {
    hide Inv, Alike, Body;
    if calls != [] {
      var c, rest := calls[0], calls[1..];
      BodyKeepsInv(cat, a, c.op, c.now);
      BodyKeepsInv(cat, b, c.op, c.now);
      if c.op.Sweep? {
        SweepStep(cat, a, b, c, clocks);
        SweepsChangeNothing(cat, Step(cat, a, c), b, rest, Advance(clocks, a, c));
        assert WithoutSweeps(calls) == WithoutSweeps(rest);
      } else {
        CallAlike(cat, a, b, c, clocks);
        SweepsChangeNothing(cat, Step(cat, a, c), Step(cat, b, c), rest, Advance(clocks, a, c));
        assert WithoutSweeps(calls)[0] == c && WithoutSweeps(calls)[1..] == WithoutSweeps(rest);
      }
    }
  }

  lemma SweepStep(cat: Catalog, a: Tables, b: Tables, c: Call, clocks: Clocks)
    requires Alike(a, b, clocks) && c.op.Sweep? && OnTime(clocks, a, c)
    ensures Alike(Step(cat, a, c), b, Advance(clocks, a, c))
  {
    SweepAlike(cat, a, b, c.op, c.now, clocks);
  }

  // ---- the theorem ----

  lemma SameMap(cat: Catalog, a: Tables, b: Tables, clocks: Clocks, st: ShowtimeId, now: Time)
    requires ValidCatalog(cat) && Inv(cat, a) && Inv(cat, b) && Alike(a, b, clocks) && NotBefore(clocks, st, now)
    ensures GetSeatMap(cat, a, st, now) == GetSeatMap(cat, b, st, now)
  {
    hide StatusOf, OccAlike;
    MapOverSeats(cat, a.occ, st, now, cat.order);
    MapOverSeats(cat, b.occ, st, now, cat.order);
    forall s ensures StatusOf(a.occ, st, s, now) == StatusOf(b.occ, st, s, now) {
      SameStatus(a.occ, b.occ, clocks, st, s, now);
    }
  }

  /** Any two runs that differ only in their sweeps answer every hold, confirm and
      release alike. Afterwards every seat map read at a time not before the showtime's
      clock, every hold status at any time and every booking are the same. */
  lemma SweeperIsNotLoadBearing(cat: Catalog, calls: seq<Call>, calls': seq<Call>)
    requires ValidCatalog(cat) && ValidCalls(calls) && ValidCalls(calls') && WithoutSweeps(calls) == WithoutSweeps(calls')
    requires InOrder(cat, NOTHING, calls, map[]) && InOrder(cat, NOTHING, calls', map[])
    ensures Answers(cat, NOTHING, calls) == Answers(cat, NOTHING, calls')
    ensures var a, b := RunAll(cat, NOTHING, calls), RunAll(cat, NOTHING, calls');
            && (forall st, now ::
                  && NotBefore(ClocksAfter(cat, NOTHING, calls, map[]), st, now)
                  && NotBefore(ClocksAfter(cat, NOTHING, calls', map[]), st, now)
                  ==> GetSeatMap(cat, a, st, now) == GetSeatMap(cat, b, st, now))
            && a.holds.Keys == b.holds.Keys && a.bookings == b.bookings
            && (forall token, now :: token in a.holds ==>
                  StatusOfHold(a.holds[token], now) == StatusOfHold(b.holds[token], now))
  {
    hide Inv, OccAlike, GetSeatMap, NotBefore;
    EmptyIsInv(cat);
    AlikeToItself(NOTHING);
    SweepsChangeNothing(cat, NOTHING, NOTHING, calls, map[]);
    SweepsChangeNothing(cat, NOTHING, NOTHING, calls', map[]);
    var a, b := RunAll(cat, NOTHING, calls), RunAll(cat, NOTHING, calls');
    var bare := RunAll(cat, NOTHING, WithoutSweeps(calls));
    var ca, cb := ClocksAfter(cat, NOTHING, calls, map[]), ClocksAfter(cat, NOTHING, calls', map[]);
    forall st, now | NotBefore(ca, st, now) && NotBefore(cb, st, now)
      ensures GetSeatMap(cat, a, st, now) == GetSeatMap(cat, b, st, now)
    {
      SameMap(cat, a, bare, ca, st, now);
      SameMap(cat, b, bare, cb, st, now);
    }
  }

  lemma AlikeToItself(a: Tables)
    ensures Alike(a, a, map[])
  {}
}
