/** Exactly when a sweep makes a difference, with no assumption about the clock.

    `a` has had the sweeps and `b` has not. A hold, confirm or release notices exactly
    if a row it depends on was swept away in `a`, still stands in `b`, and has by the
    call's own timestamp not expired yet. */
module SweepEffects {
  import opened Schema
  import opened Statements
  import opened Bodies
  import opened Invariants
  import opened SeatMaps
  import opened Sweeper

  ghost predicate SweptAway(a: OccRow, b: OccRow) {
    a.releasedAt.Some? && b.releasedAt.None?
  }

  /** A row differs only in having been released, or released earlier, in `a`. */
  ghost predicate RowBehind(a: OccRow, b: OccRow) {
    || a == b
    || (&& a.showtime == b.showtime && a.expiresAt == b.expiresAt
        && a.confirmedAt.None? && b.confirmedAt.None? && a.releasedAt.Some?)
  }

  ghost predicate RowsBehind(a: map<OccKey, OccRow>, b: map<OccKey, OccRow>) {
    a.Keys == b.Keys && forall k :: k in a ==> RowBehind(a[k], b[k])
  }

  /** A sweep takes all the rows that a hold still has. */
  ghost predicate WholeHolds(a: map<OccKey, OccRow>, b: map<OccKey, OccRow>) {
    forall k, k' :: k in a && k in b && k' in a && k.hold == k'.hold && SweptAway(a[k], b[k]) ==> a[k'].releasedAt.Some?
  }

  ghost predicate Behind(a: Tables, b: Tables) {
    a.holds == b.holds && a.bookings == b.bookings && RowsBehind(a.occ, b.occ) && WholeHolds(a.occ, b.occ)
  }

  // ---- what a call notices ----

  /** A requested seat is still held in `b`, by a row that was swept away in `a`. */
  ghost predicate HoldNotices(cat: Catalog, a: Tables, b: Tables, op: Op, now: Time)
    requires op.Hold?
  {
    && op.st in cat.showtimes && cat.showtimes[op.st].salesOpen
    && CountSeatsInShowtime(cat, op.st, op.seats) == |op.seats|
    && exists k :: k in b.occ && k in a.occ && b.occ[k].showtime == op.st && k.seat in op.seats
         && Confirmable(b.occ[k], now) && SweptAway(a.occ[k], b.occ[k])
  }

  /** The hold could still be confirmed in `b`, and lost its rows in `a`. */
  ghost predicate ConfirmNotices(a: Tables, b: Tables, op: Op, now: Time)
    requires op.Confirm?
  {
    && op.token in b.holds && HoldConfirmable(b.holds[op.token], now)
    && !KeyOfAnotherHold(b.bookings, b.holds[op.token].customer, op.key, op.token)
    && HoldSeats(b.occ, op.token) != {} && HoldSeats(a.occ, op.token) == {}
  }

  ghost predicate Notices(cat: Catalog, a: Tables, b: Tables, c: Call) {
    match c.op
    case Hold(_, _, _, _, _) => HoldNotices(cat, a, b, c.op, c.now)
    case Confirm(_, _, _) => ConfirmNotices(a, b, c.op, c.now)
    case Release(_) => false
    case Sweep(_) => false
  }

  // ---- Hold ----

  /** The seats that block a hold in `b` and not in `a` are those of rows swept away
      before their time. */
  lemma BlockedIff(a: map<OccKey, OccRow>, b: map<OccKey, OccRow>, st: ShowtimeId, seats: seq<SeatId>, now: Time, s: SeatId)
    requires RowsBehind(a, b) && IndexOk(b) && s in seats
    ensures s in Blocked(a, st, seats, now) ==> s in Blocked(b, st, seats, now)
    ensures s in Blocked(b, st, seats, now) && s !in Blocked(a, st, seats, now) <==>
            exists k :: k in b && k in a && b[k].showtime == st && k.seat == s && Confirmable(b[k], now) && SweptAway(a[k], b[k])
  {
    FreeMeansNotLive(a, st, s, now);
    FreeMeansNotLive(b, st, s, now);
    assert forall k :: k in a ==> RowBehind(a[k], b[k]);
    if k :| k in b && k in a && b[k].showtime == st && k.seat == s && Confirmable(b[k], now) && SweptAway(a[k], b[k]) {
      assert Live(b[k], now);
      forall k' | k' in a && a[k'].showtime == st && k'.seat == s ensures !Live(a[k'], now) {
        if Live(a[k'], now) {
          assert SameSeat(k', b[k'], k, b[k]);
        }
      }
    }
  }

  lemma ConflictsAgreeIff(cat: Catalog, a: Tables, b: Tables, op: Op, now: Time)
    requires op.Hold? && RowsBehind(a.occ, b.occ) && IndexOk(b.occ)
    requires op.st in cat.showtimes && cat.showtimes[op.st].salesOpen
    requires CountSeatsInShowtime(cat, op.st, op.seats) == |op.seats|
    ensures ConflictsOf(a, op, now) == ConflictsOf(b, op, now) <==> !HoldNotices(cat, a, b, op, now)
    ensures HoldNotices(cat, a, b, op, now) ==> |ConflictsOf(b, op, now)| > 0
  {
    hide StatusOf, IndexOk, RowsBehind, Sorted, Live, Blocked, SweptAway, Confirmable;
    ConflictsAreBlocked(a.occ, op.st, op.seats, now);
    ConflictsAreBlocked(b.occ, op.st, op.seats, now);
    var x, y := Blocked(a.occ, op.st, op.seats, now), Blocked(b.occ, op.st, op.seats, now);
    forall s | s in op.seats
      ensures s in x ==> s in y
      ensures s in y && s !in x <==>
              exists k :: k in b.occ && k in a.occ && b.occ[k].showtime == op.st && k.seat == s
                && Confirmable(b.occ[k], now) && SweptAway(a.occ[k], b.occ[k])
    {
      BlockedIff(a.occ, b.occ, op.st, op.seats, now, s);
    }
    SortedApart(x, y);
    if HoldNotices(cat, a, b, op, now) {
      var k :| k in b.occ && k in a.occ && b.occ[k].showtime == op.st && k.seat in op.seats
        && Confirmable(b.occ[k], now) && SweptAway(a.occ[k], b.occ[k]);
      assert k.seat in y && k.seat !in x;
    } else {
      assert forall s :: s in y ==> s in x;
      assert x == y;
    }
  }

  lemma SortedApart(x: set<SeatId>, y: set<SeatId>)
    ensures Sorted(x) == Sorted(y) <==> x == y
    ensures |Sorted(y)| == 0 <==> y == {}
  {
    assert Elements(Sorted(x)) == x && Elements(Sorted(y)) == y;
    if y != {} {
      var s := Member(y);
      assert s in Elements(Sorted(y));
    }
  }

  lemma RowsBehindAfterHold(a: map<OccKey, OccRow>, b: map<OccKey, OccRow>, st: ShowtimeId, seats: seq<SeatId>, now: Time,
                            rows: map<OccKey, OccRow>, token: Token)
    requires RowsBehind(a, b) && WholeHolds(a, b)
    requires forall k :: k in rows ==> k.hold == token && k !in b
    requires forall k :: k in b ==> k.hold != token
    ensures var a' := a + (ReclaimExpiredSeats(a, st, seats, now) + rows);
            var b' := b + (ReclaimExpiredSeats(b, st, seats, now) + rows);
            RowsBehind(a', b') && WholeHolds(a', b')
  {
    var ra, rb := ReclaimExpiredSeats(a, st, seats, now), ReclaimExpiredSeats(b, st, seats, now);
    var a', b' := a + (ra + rows), b + (rb + rows);
    assert a'.Keys == a.Keys + rows.Keys && b'.Keys == b.Keys + rows.Keys;
    forall k | k in a' ensures RowBehind(a'[k], b'[k]) {
      if k !in rows {
        assert RowBehind(a[k], b[k]);
      }
    }
    forall k, k' | k in a' && k in b' && k' in a' && k.hold == k'.hold && SweptAway(a'[k], b'[k])
      ensures a'[k'].releasedAt.Some?
    {
      assert k !in rows && k' !in rows;
      assert RowBehind(a[k], b[k]);
      assert SweptAway(a[k], b[k]);
    }
  }

  lemma HoldAnswersIff(cat: Catalog, a: Tables, b: Tables, op: Op, now: Time)
    requires Inv(cat, a) && Inv(cat, b) && Behind(a, b) && op.Hold? && ValidOp(op)
    ensures AnswerOf(HoldBody(cat, a, op, now)) == AnswerOf(HoldBody(cat, b, op, now)) <==> !HoldNotices(cat, a, b, op, now)
    ensures !HoldNotices(cat, a, b, op, now) ==> Behind(After(a, HoldBody(cat, a, op, now)), After(b, HoldBody(cat, b, op, now)))
  {
    hide Inv, HoldBody, RowsBehind, WholeHolds, HoldNotices, ConflictsOf;
    OnlyTheIndex(cat, b);
    if op.st in cat.showtimes && cat.showtimes[op.st].salesOpen && CountSeatsInShowtime(cat, op.st, op.seats) == |op.seats| {
      ConflictsAgreeIff(cat, a, b, op, now);
      if HoldNotices(cat, a, b, op, now) {
        ConflictsAnswer(cat, a, b, op, now);
      } else if |ConflictsOf(b, op, now)| == 0 && op.token !in b.holds {
        FreeHoldBehind(cat, a, b, op, now);
      } else {
        TurnedAway(cat, a, b, op, now);
      }
    } else {
      RefusedAtOnce(cat, a, b, op, now);
    }
  }

  lemma OnlyTheIndex(cat: Catalog, db: Tables)
    requires Inv(cat, db)
    ensures IndexOk(db.occ)
  {}

  /** Different conflicts are different answers. */
  lemma ConflictsAnswer(cat: Catalog, a: Tables, b: Tables, op: Op, now: Time)
    requires op.Hold? && op.st in cat.showtimes && cat.showtimes[op.st].salesOpen
    requires CountSeatsInShowtime(cat, op.st, op.seats) == |op.seats|
    requires ConflictsOf(a, op, now) != ConflictsOf(b, op, now) && |ConflictsOf(b, op, now)| > 0
    ensures AnswerOf(HoldBody(cat, a, op, now)) != AnswerOf(HoldBody(cat, b, op, now))
  {
    hide ReclaimExpiredSeats, FindSeatConflicts, CountSeatsInShowtime, IndexRefuses, ClaimSeats;
  }

  lemma RefusedAtOnce(cat: Catalog, a: Tables, b: Tables, op: Op, now: Time)
    requires op.Hold?
    requires !(op.st in cat.showtimes && cat.showtimes[op.st].salesOpen && CountSeatsInShowtime(cat, op.st, op.seats) == |op.seats|)
    ensures HoldBody(cat, a, op, now).Failed? && HoldBody(cat, b, op, now) == HoldBody(cat, a, op, now)
    ensures !HoldNotices(cat, a, b, op, now)
  {
    hide CountSeatsInShowtime;
  }

  lemma NewRows(cat: Catalog, db: Tables, op: Op, now: Time)
    requires Inv(cat, db) && op.Hold? && op.token !in db.holds
    ensures forall k :: k in db.occ ==> k.hold != op.token
    ensures forall k :: k in ClaimSeats(CreateHold(op.st, op.customer, op.ttlSeconds, now), op.token, op.seats) ==>
              k.hold == op.token && k !in db.occ
  {}

  lemma FreeHoldBehind(cat: Catalog, a: Tables, b: Tables, op: Op, now: Time)
    requires Inv(cat, a) && Inv(cat, b) && Behind(a, b) && op.Hold? && ValidOp(op)
    requires |ConflictsOf(a, op, now)| == 0 && |ConflictsOf(b, op, now)| == 0 && op.token !in a.holds
    ensures AnswerOf(HoldBody(cat, a, op, now)) == AnswerOf(HoldBody(cat, b, op, now))
    ensures Behind(After(a, HoldBody(cat, a, op, now)), After(b, HoldBody(cat, b, op, now)))
  {
    hide Inv, HoldBody, FreeHold, After, RowsBehind, WholeHolds, ReclaimExpiredSeats, ClaimSeats, ConflictsOf;
    var ra, rb := ReclaimExpiredSeats(a.occ, op.st, op.seats, now), ReclaimExpiredSeats(b.occ, op.st, op.seats, now);
    FreeHoldIs(cat, a, op, now);
    FreeHoldIs(cat, b, op, now);
    FreeHoldSame(cat, op, now, ra, rb);
    AfterFreeHold(cat, a, op, now, ra);
    AfterFreeHold(cat, b, op, now, rb);
    NewRows(cat, b, op, now);
    RowsBehindAfterHold(a.occ, b.occ, op.st, op.seats, now,
                        ClaimSeats(CreateHold(op.st, op.customer, op.ttlSeconds, now), op.token, op.seats), op.token);
  }

  // ---- Confirm ----

  lemma HeldSeat(occ: map<OccKey, OccRow>, token: Token, s: SeatId)
    ensures s in HoldSeats(occ, token) <==> OccKey(token, s) in occ && occ[OccKey(token, s)].releasedAt.None?
  {}

  /** A hold has lost all its rows to sweeps, or none. */
  lemma SeatsAllOrNone(a: map<OccKey, OccRow>, b: map<OccKey, OccRow>, token: Token)
    requires RowsBehind(a, b) && WholeHolds(a, b)
    ensures HoldSeats(a, token) == HoldSeats(b, token) || HoldSeats(a, token) == {}
    ensures HoldSeats(a, token) <= HoldSeats(b, token)
  {
    forall s ensures s in HoldSeats(a, token) ==> s in HoldSeats(b, token) {
      HeldSeat(a, token, s);
      HeldSeat(b, token, s);
      if OccKey(token, s) in a { assert RowBehind(a[OccKey(token, s)], b[OccKey(token, s)]); }
    }
    if lost :| lost in HoldSeats(b, token) && lost !in HoldSeats(a, token) {
      HeldSeat(a, token, lost);
      HeldSeat(b, token, lost);
      assert SweptAway(a[OccKey(token, lost)], b[OccKey(token, lost)]);
      forall s ensures s !in HoldSeats(a, token) {
        HeldSeat(a, token, s);
        if OccKey(token, s) in a { assert a[OccKey(token, s)].releasedAt.Some?; }
      }
    }
  }

  lemma SameSeatsSameRows(a: map<OccKey, OccRow>, b: map<OccKey, OccRow>, token: Token, now: Time)
    requires RowsBehind(a, b) && HoldSeats(a, token) == HoldSeats(b, token)
    ensures ConfirmHoldSeats(a, token, now) == ConfirmHoldSeats(b, token, now)
  {
    forall k | k in a && k.hold == token
      ensures a[k].releasedAt.None? <==> b[k].releasedAt.None?
      ensures a[k].releasedAt.None? ==> a[k] == b[k]
    {
      assert RowBehind(a[k], b[k]);
      HeldSeat(a, token, k.seat);
      HeldSeat(b, token, k.seat);
    }
  }

  /** A confirmed hold has the same rows in both. */
  lemma ConfirmedSame(cat: Catalog, a: Tables, b: Tables, token: Token)
    requires Inv(cat, b) && Behind(a, b) && token in b.holds && b.holds[token].confirmedAt.Some?
    ensures HoldSeats(a.occ, token) == HoldSeats(b.occ, token)
  {
    forall s ensures s in HoldSeats(a.occ, token) <==> s in HoldSeats(b.occ, token) {
      HeldSeat(a.occ, token, s);
      HeldSeat(b.occ, token, s);
      var k := OccKey(token, s);
      if k in b.occ {
        assert RowBehind(a.occ[k], b.occ[k]) && RowAgrees(k, b.occ[k], b.holds[token]);
      }
    }
  }

  lemma BehindPlus(a: map<OccKey, OccRow>, b: map<OccKey, OccRow>, rows: map<OccKey, OccRow>)
    requires RowsBehind(a, b) && WholeHolds(a, b) && rows.Keys <= b.Keys
    requires forall k :: k in rows ==> rows[k].releasedAt.None? && a[k] == b[k] && a[k].releasedAt.None?
    ensures RowsBehind(a + rows, b + rows) && WholeHolds(a + rows, b + rows)
  {
    assert (a + rows).Keys == a.Keys && (b + rows).Keys == b.Keys;
    forall k | k in a + rows ensures RowBehind((a + rows)[k], (b + rows)[k]) {
      assert RowBehind(a[k], b[k]);
    }
    forall k, k' | k in a + rows && k in b + rows && k' in a + rows && k.hold == k'.hold && SweptAway((a + rows)[k], (b + rows)[k])
      ensures (a + rows)[k'].releasedAt.Some?
    {
      assert k !in rows && SweptAway(a[k], b[k]);
      assert a[k'].releasedAt.Some?;
    }
  }

  lemma ConfirmingIsBehind(a: Tables, b: Tables, token: Token, now: Time)
    requires Behind(a, b) && HoldSeats(a.occ, token) == HoldSeats(b.occ, token)
    ensures var rows := ConfirmHoldSeats(b.occ, token, now);
            rows == ConfirmHoldSeats(a.occ, token, now) && RowsBehind(a.occ + rows, b.occ + rows) && WholeHolds(a.occ + rows, b.occ + rows)
  {
    var rows := ConfirmHoldSeats(b.occ, token, now);
    SameSeatsSameRows(a.occ, b.occ, token, now);
    forall k | k in rows ensures a.occ[k] == b.occ[k] {
      assert k in ConfirmHoldSeats(a.occ, token, now);
      assert RowBehind(a.occ[k], b.occ[k]);
    }
    BehindPlus(a.occ, b.occ, rows);
  }

  lemma ConfirmAnswersIff(cat: Catalog, a: Tables, b: Tables, op: Op, now: Time)
    requires ValidCatalog(cat) && Inv(cat, a) && Inv(cat, b) && Behind(a, b) && op.Confirm? && op.token in b.holds
    ensures AnswerOf(ConfirmBody(cat, a, op, now)) == AnswerOf(ConfirmBody(cat, b, op, now)) <==> !ConfirmNotices(a, b, op, now)
    ensures !ConfirmNotices(a, b, op, now) ==>
              Behind(After(a, ConfirmBody(cat, a, op, now)), After(b, ConfirmBody(cat, b, op, now)))
  {
    hide Inv, RowsBehind, WholeHolds, ConfirmBody, HoldSeats, KeyOfAnotherHold, ConfirmHoldSeats;
    var h := b.holds[op.token];
    if h.releasedAt.Some? {
      ReleasedConfirmFails(cat, a, op, now);
      ReleasedConfirmFails(cat, b, op, now);
    } else if h.confirmedAt.Some? {
      ConfirmedSame(cat, a, b, op.token);
      ReplayAlike(cat, a, b, op, now);
    } else if h.expiresAt <= now {
      LateConfirmFails(cat, a, op, now);
      LateConfirmFails(cat, b, op, now);
    } else if KeyOfAnotherHold(b.bookings, h.customer, op.key, op.token) {
      KeyConfirmFails(cat, a, op, now);
      KeyConfirmFails(cat, b, op, now);
    } else {
      SeatsAllOrNone(a.occ, b.occ, op.token);
      if HoldSeats(a.occ, op.token) == HoldSeats(b.occ, op.token) {
        ConfirmingIsBehind(a, b, op.token, now);
        TimelyConfirmAlike(cat, a, b, op, now);
      } else {
        EmptyConfirmFails(cat, a, op, now);
        TimelyConfirmIsNotExpired(cat, b, op, now);
      }
    }
  }

  lemma KeyConfirmFails(cat: Catalog, db: Tables, op: Op, now: Time)
    requires op.Confirm? && op.token in db.holds && db.holds[op.token].confirmedAt.None? && db.holds[op.token].releasedAt.None?
    requires KeyOfAnotherHold(db.bookings, db.holds[op.token].customer, op.key, op.token)
    ensures ConfirmBody(cat, db, op, now) == Failed(IdempotencyKeyReused)
  {}

  lemma EmptyConfirmFails(cat: Catalog, db: Tables, op: Op, now: Time)
    requires ValidCatalog(cat) && Inv(cat, db) && op.Confirm? && op.token in db.holds
    requires db.holds[op.token].confirmedAt.None? && db.holds[op.token].releasedAt.None?
    requires !KeyOfAnotherHold(db.bookings, db.holds[op.token].customer, op.key, op.token)
    requires HoldSeats(db.occ, op.token) == {}
    ensures ConfirmBody(cat, db, op, now) == Failed(HoldExpired)
  {
    HeldCount(cat, db, op.token);
  }

  /** In time, with seats, under a free key: whatever happens, it is not an expired hold. */
  lemma TimelyConfirmIsNotExpired(cat: Catalog, db: Tables, op: Op, now: Time)
    requires ValidCatalog(cat) && Inv(cat, db) && op.Confirm? && op.token in db.holds && HoldConfirmable(db.holds[op.token], now)
    requires !KeyOfAnotherHold(db.bookings, db.holds[op.token].customer, op.key, op.token)
    requires HoldSeats(db.occ, op.token) != {}
    ensures ConfirmBody(cat, db, op, now) != Failed(HoldExpired)
  {
    hide HoldSeats, ConfirmHoldSeats, KeyOfAnotherHold, InsertBooking;
    HeldCount(cat, db, op.token);
    ConfirmAllOrNone(cat, db, op.token, now);
  }

  // ---- Release and Sweep ----

  lemma ReleaseIsBehind(a: map<OccKey, OccRow>, b: map<OccKey, OccRow>, token: Token, now: Time)
    requires RowsBehind(a, b) && WholeHolds(a, b)
    ensures var a', b' := a + ReleaseHoldSeats(a, token, now), b + ReleaseHoldSeats(b, token, now);
            RowsBehind(a', b') && WholeHolds(a', b')
  {
    var a', b' := a + ReleaseHoldSeats(a, token, now), b + ReleaseHoldSeats(b, token, now);
    assert a'.Keys == a.Keys && b'.Keys == b.Keys;
    forall k | k in a' ensures RowBehind(a'[k], b'[k]) {
      assert RowBehind(a[k], b[k]);
    }
    forall k, k' | k in a' && k in b' && k' in a' && k.hold == k'.hold && SweptAway(a'[k], b'[k])
      ensures a'[k'].releasedAt.Some?
    {
      assert RowBehind(a[k], b[k]);
      assert SweptAway(a[k], b[k]);
      assert a[k'].releasedAt.Some?;
    }
  }

  lemma ReleaseAnswersAlike(cat: Catalog, a: Tables, b: Tables, op: Op, now: Time)
    requires Behind(a, b) && op.Release? && op.token in b.holds
    ensures AnswerOf(ReleaseBody(a, op, now)) == AnswerOf(ReleaseBody(b, op, now))
    ensures Behind(After(a, ReleaseBody(a, op, now)), After(b, ReleaseBody(b, op, now)))
  {
    hide RowsBehind, WholeHolds, ReleaseHoldSeats;
    ReleaseIsBehind(a.occ, b.occ, op.token, now);
  }

  /** A sweep in `a` alone. */
  lemma SweepIsBehind(cat: Catalog, a: Tables, b: Tables, op: Op, now: Time)
    requires Inv(cat, a) && Behind(a, b) && op.Sweep?
    ensures Behind(After(a, SweepBody(a, op, now)), b)
  {
    hide Inv, RowsBehind, WholeHolds, ReclaimExpiredSeatsForShowtime;
    PlusEmpty(a.holds);
    PlusEmpty(a.bookings);
    SweptRowsBehind(cat, a, b.occ, op.st, now);
  }

  lemma SweptRowsBehind(cat: Catalog, a: Tables, b: map<OccKey, OccRow>, st: ShowtimeId, now: Time)
    requires Inv(cat, a) && RowsBehind(a.occ, b) && WholeHolds(a.occ, b)
    ensures var occ := a.occ + ReclaimExpiredSeatsForShowtime(a.occ, st, now);
            RowsBehind(occ, b) && WholeHolds(occ, b)
  {
    hide Inv;
    var occ := a.occ + ReclaimExpiredSeatsForShowtime(a.occ, st, now);
    assert occ.Keys == a.occ.Keys;
    forall k | k in occ ensures RowBehind(occ[k], b[k]) {
      assert RowBehind(a.occ[k], b[k]);
    }
    forall k, k' | k in occ && k in b && k' in occ && k.hold == k'.hold && SweptAway(occ[k], b[k])
      ensures occ[k'].releasedAt.Some?
    {
      if a.occ[k].releasedAt.Some? {
        assert SweptAway(a.occ[k], b[k]);
        assert a.occ[k'].releasedAt.Some?;
      } else {
        SweptTogether(cat, a, st, now, k, k');
      }
    }
  }

  /** Rows of one hold lapse together. */
  lemma SweptTogether(cat: Catalog, db: Tables, st: ShowtimeId, now: Time, k: OccKey, k': OccKey)
    requires Inv(cat, db) && k in db.occ && k' in db.occ && k.hold == k'.hold
    requires db.occ[k].showtime == st && Lapsed(db.occ[k], now)
    ensures db.occ[k'].showtime == st && (db.occ[k'].releasedAt.Some? || Lapsed(db.occ[k'], now))
  {
    var h := db.holds[k.hold];
    assert RowAgrees(k, db.occ[k], h) && RowAgrees(k', db.occ[k'], h);
  }

  // ---- whole runs ----

  /** One call, on tables with the sweeps and without: answered alike exactly if it does
      not notice them, and then the tables go on as they were. */
  lemma AnswersAgreeIff(cat: Catalog, a: Tables, b: Tables, c: Call)
    requires ValidCatalog(cat) && Inv(cat, a) && Inv(cat, b) && Behind(a, b) && ValidOp(c.op) && !c.op.Sweep?
    ensures AnswerOf(Body(cat, a, c.op, c.now)) == AnswerOf(Body(cat, b, c.op, c.now)) <==> !Notices(cat, a, b, c)
    ensures !Notices(cat, a, b, c) ==> Behind(Step(cat, a, c), Step(cat, b, c))
  {
    hide Inv, RowsBehind, WholeHolds, HoldBody, ConfirmBody, ReleaseBody, HoldNotices;
    match c.op
    case Hold(_, _, _, _, _) => HoldAnswersIff(cat, a, b, c.op, c.now);
    case Confirm(token, _, _) =>
      if token in b.holds { ConfirmAnswersIff(cat, a, b, c.op, c.now); } else { UnknownHold(cat, a, b, c); }
    case Release(token) =>
      if token in b.holds { ReleaseAnswersAlike(cat, a, b, c.op, c.now); } else { UnknownHold(cat, a, b, c); }
  }

  /** Going through a run with its sweeps and without them, no call notices. */
  ghost predicate NoneNotice(cat: Catalog, a: Tables, b: Tables, calls: seq<Call>)
    decreases |calls|
  {
    calls == [] ||
    var c, rest := calls[0], calls[1..];
    if c.op.Sweep? then NoneNotice(cat, Step(cat, a, c), b, rest)
    else !Notices(cat, a, b, c) && NoneNotice(cat, Step(cat, a, c), Step(cat, b, c), rest)
  }

  lemma {:induction false} RunsAgreeIff(cat: Catalog, a: Tables, b: Tables, calls: seq<Call>)
    requires ValidCatalog(cat) && Inv(cat, a) && Inv(cat, b) && Behind(a, b) && ValidCalls(calls)
    ensures Answers(cat, a, calls) == Answers(cat, b, WithoutSweeps(calls)) <==> NoneNotice(cat, a, b, calls)
    decreases |calls|
  {
    hide Inv, Behind, Body, Notices;
    if calls != [] {
      var c, rest := calls[0], calls[1..];
      BodyKeepsInv(cat, a, c.op, c.now);
      BodyKeepsInv(cat, b, c.op, c.now);
      if c.op.Sweep? {
        SweepStepBehind(cat, a, b, c);
        RunsAgreeIff(cat, Step(cat, a, c), b, rest);
        assert WithoutSweeps(calls) == WithoutSweeps(rest);
      } else {
        AnswersAgreeIff(cat, a, b, c);
        assert WithoutSweeps(calls)[0] == c && WithoutSweeps(calls)[1..] == WithoutSweeps(rest);
        var x, y := Answers(cat, a, calls), Answers(cat, b, WithoutSweeps(calls));
        assert x[1..] == Answers(cat, Step(cat, a, c), rest);
        assert y[1..] == Answers(cat, Step(cat, b, c), WithoutSweeps(rest));
        if !Notices(cat, a, b, c) {
          RunsAgreeIff(cat, Step(cat, a, c), Step(cat, b, c), rest);
          assert x == [x[0]] + x[1..] && y == [y[0]] + y[1..];
        } else {
          assert x[0] != y[0];
        }
      }
    }
  }

  lemma SweepStepBehind(cat: Catalog, a: Tables, b: Tables, c: Call)
    requires Inv(cat, a) && Behind(a, b) && c.op.Sweep?
    ensures Behind(Step(cat, a, c), b)
  {
    SweepIsBehind(cat, a, b, c.op, c.now);
  }

  lemma BehindItself(a: Tables)
    ensures Behind(a, a)
  {}

  /** Exactly when sweeps matter, over every list of calls at any timestamps: dropping
      them leaves all answers as they were if and only if no hold asks for a seat, and no
      confirm comes for a hold, whose unexpired rows only a sweep has released. */
  lemma SweepsMatterIff(cat: Catalog, calls: seq<Call>)
    requires ValidCatalog(cat) && ValidCalls(calls)
    ensures Answers(cat, NOTHING, calls) == Answers(cat, NOTHING, WithoutSweeps(calls))
            <==> NoneNotice(cat, NOTHING, NOTHING, calls)
  {
    hide Inv, Behind;
    EmptyIsInv(cat);
    BehindItself(NOTHING);
    RunsAgreeIff(cat, NOTHING, NOTHING, calls);
  }

  // ---- one sweep, just before one call ----

  lemma OneSweep(cat: Catalog, db: Tables, st: ShowtimeId, t: Time)
    requires Inv(cat, db)
    ensures var swept := After(db, Body(cat, db, Sweep(st), t));
            && Behind(swept, db)
            && swept.occ.Keys == db.occ.Keys
            && forall k :: k in db.occ ==>
                 (SweptAway(swept.occ[k], db.occ[k]) <==> db.occ[k].showtime == st && Lapsed(db.occ[k], t))
  {
    hide Inv, Behind, Merge, ReclaimExpiredSeatsForShowtime, SweptAway;
    JustRows(db, ReclaimExpiredSeatsForShowtime(db.occ, st, t));
    BehindItself(db);
    SweepIsBehind(cat, db, db, Sweep(st), t);
    SweptRows(db.occ, st, t);
  }

  lemma JustRows(db: Tables, rows: map<OccKey, OccRow>)
    ensures Merge(db, Tables(map[], rows, map[])) == Tables(db.holds, db.occ + rows, db.bookings)
  {
    PlusEmpty(db.holds);
    PlusEmpty(db.bookings);
  }

  lemma SweptRows(occ: map<OccKey, OccRow>, st: ShowtimeId, t: Time)
    ensures var after := occ + ReclaimExpiredSeatsForShowtime(occ, st, t);
            && after.Keys == occ.Keys
            && forall k :: k in occ ==> (SweptAway(after[k], occ[k]) <==> occ[k].showtime == st && Lapsed(occ[k], t))
  {
    assert (occ + ReclaimExpiredSeatsForShowtime(occ, st, t)).Keys == occ.Keys;
  }

  /** A sweep at `t` changes what a Confirm at `now` is told exactly if the hold is of the
      swept showtime, has seats, would be in time, and had lapsed by `t`, its key being
      free for it. */
  lemma SweepBeforeConfirmIff(cat: Catalog, db: Tables, st: ShowtimeId, t: Time, op: Op, now: Time)
    requires ValidCatalog(cat) && Inv(cat, db) && op.Confirm? && ValidOp(op)
    ensures var swept := After(db, Body(cat, db, Sweep(st), t));
            AnswerOf(Body(cat, swept, op, now)) != AnswerOf(Body(cat, db, op, now))
            <==> && op.token in db.holds && HoldSeats(db.occ, op.token) != {}
                 && var h := db.holds[op.token];
                 && h.showtime == st && h.confirmedAt.None? && h.releasedAt.None? && now < h.expiresAt <= t
                 && !KeyOfAnotherHold(db.bookings, h.customer, op.key, op.token)
  {
    hide Inv, Behind, Body, HoldSeats, KeyOfAnotherHold;
    var swept := After(db, Body(cat, db, Sweep(st), t));
    OneSweep(cat, db, st, t);
    BodyKeepsInv(cat, db, Sweep(st), t);
    AnswersAgreeIff(cat, swept, db, Call(op, now));
    SweptTables(swept, db);
    if op.token in db.holds && HoldConfirmable(db.holds[op.token], now) && HoldSeats(db.occ, op.token) != {} {
      SeatsSweptIff(cat, db, swept, st, t, op.token);
    }
  }

  lemma SweptTables(a: Tables, b: Tables)
    requires Behind(a, b)
    ensures a.holds == b.holds && a.bookings == b.bookings
    ensures forall k :: k in b.occ ==> k in a.occ && RowBehind(a.occ[k], b.occ[k])
  {}

  /** An open hold with seats loses them to the sweep exactly if it had lapsed. */
  lemma SeatsSweptIff(cat: Catalog, db: Tables, swept: Tables, st: ShowtimeId, t: Time, token: Token)
    requires Inv(cat, db) && token in db.holds && db.holds[token].confirmedAt.None? && HoldSeats(db.occ, token) != {}
    requires swept.occ.Keys == db.occ.Keys
    requires forall k :: k in db.occ ==> RowBehind(swept.occ[k], db.occ[k])
    requires forall k :: k in db.occ ==>
               (SweptAway(swept.occ[k], db.occ[k]) <==> db.occ[k].showtime == st && Lapsed(db.occ[k], t))
    ensures HoldSeats(swept.occ, token) == {} <==> db.holds[token].showtime == st && db.holds[token].expiresAt <= t
  {
    var s := Member(HoldSeats(db.occ, token));
    HeldSeat(db.occ, token, s);
    HeldSeat(swept.occ, token, s);
    assert RowAgrees(OccKey(token, s), db.occ[OccKey(token, s)], db.holds[token]);
    forall s' | s' in HoldSeats(swept.occ, token)
      ensures !(db.holds[token].showtime == st && db.holds[token].expiresAt <= t)
    {
      var k := OccKey(token, s');
      HeldSeat(swept.occ, token, s');
      assert RowBehind(swept.occ[k], db.occ[k]) && RowAgrees(k, db.occ[k], db.holds[token]);
    }
    if !(db.holds[token].showtime == st && db.holds[token].expiresAt <= t) {
      assert s in HoldSeats(swept.occ, token);
    }
  }

  /** It changes what a Hold that reaches the conflict check is told exactly if a
      requested seat is held by a row that has not expired by `now` and has by `t`. */
  lemma SweepBeforeHoldIff(cat: Catalog, db: Tables, st: ShowtimeId, t: Time, op: Op, now: Time)
    requires ValidCatalog(cat) && Inv(cat, db) && op.Hold? && ValidOp(op)
    ensures var swept := After(db, Body(cat, db, Sweep(st), t));
            AnswerOf(Body(cat, swept, op, now)) != AnswerOf(Body(cat, db, op, now))
            <==> && op.st == st && st in cat.showtimes && cat.showtimes[st].salesOpen
                 && CountSeatsInShowtime(cat, st, op.seats) == |op.seats|
                 && exists k :: k in db.occ && db.occ[k].showtime == st && k.seat in op.seats
                      && db.occ[k].releasedAt.None? && db.occ[k].confirmedAt.None? && now < db.occ[k].expiresAt <= t
  {
    hide Inv, Behind, Body, CountSeatsInShowtime;
    var swept := After(db, Body(cat, db, Sweep(st), t));
    OneSweep(cat, db, st, t);
    BodyKeepsInv(cat, db, Sweep(st), t);
    AnswersAgreeIff(cat, swept, db, Call(op, now));
    if HoldNotices(cat, swept, db, op, now) {
      var k :| k in db.occ && k in swept.occ && db.occ[k].showtime == op.st && k.seat in op.seats
        && Confirmable(db.occ[k], now) && SweptAway(swept.occ[k], db.occ[k]);
      assert Lapsed(db.occ[k], t);
    }
    if k :| (k in db.occ && db.occ[k].showtime == st && k.seat in op.seats
             && db.occ[k].releasedAt.None? && db.occ[k].confirmedAt.None? && now < db.occ[k].expiresAt <= t)
    {
      assert Confirmable(db.occ[k], now) && SweptAway(swept.occ[k], db.occ[k]);
    }
  }

  /** It never changes what a Release is told. */
  lemma SweepBeforeReleaseNever(cat: Catalog, db: Tables, st: ShowtimeId, t: Time, op: Op, now: Time)
    requires ValidCatalog(cat) && Inv(cat, db) && op.Release?
    ensures var swept := After(db, Body(cat, db, Sweep(st), t));
            AnswerOf(Body(cat, swept, op, now)) == AnswerOf(Body(cat, db, op, now))
  {
    hide Inv, Behind, Body;
    OneSweep(cat, db, st, t);
    BodyKeepsInv(cat, db, Sweep(st), t);
    AnswersAgreeIff(cat, After(db, Body(cat, db, Sweep(st), t)), db, Call(op, now));
  }
}
