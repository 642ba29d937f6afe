/** What may happen when a transaction's timestamp trails its lock: a booking of a part
    of a hold, and a sweep that makes a difference. */
module LateClocks {
  import opened Schema
  import opened Statements
  import opened Bodies
  import opened Invariants
  import opened Protocol
  import opened Guarantees
  import opened Solo
  import opened Sweeper
  import opened Wholeness

  const ONE_SCREEN := Catalog(map[1 := Showtime(1, 100, "THB", true)],
                             map[1 := Seat(1, "A", 1, "standard"), 2 := Seat(1, "A", 2, "standard")], [1, 2])

  const FIRST_HOLD := Hold(1, "ann", [1, 2], 10, "first")
  const SECOND_HOLD := Hold(1, "bob", [1], 10, "second")
  const LATE_CONFIRM := Confirm("first", "key", ["r1", "r2", "r3", "r4", "r5"])

  const ROW_LIVE := OccRow(1, 10_000_000, None, None)
  const ROW_RECLAIMED := OccRow(1, 10_000_000, None, Some(20_000_000))
  const ROW_SECOND := OccRow(1, 30_000_000, None, None)

  /** After the first hold at second 0 and the second, which reclaims a seat of the
      first, at second 20. */
  const RECLAIMED := Tables(
    map["first" := HoldRow(1, "ann", 10_000_000, None, None), "second" := HoldRow(1, "bob", 30_000_000, None, None)],
    map[OccKey("first", 1) := ROW_RECLAIMED, OccKey("first", 2) := ROW_LIVE, OccKey("second", 1) := ROW_SECOND],
    map[])

  /** The confirm began at second 5 and locked last: it books one of two seats. */
  lemma LateConfirmBooksAPart()
    ensures ValidCatalog(ONE_SCREEN) && ValidOp(LATE_CONFIRM)
    ensures var o := Body(ONE_SCREEN, RECLAIMED, LATE_CONFIRM, 5_000_000);
            o.Done? && o.result == Booking("r1", 1, [2], 100, "THB", 5_000_000)
    ensures HoldSeats(RECLAIMED.occ, "first") == {2}
  {
    var order := ONE_SCREEN.order;
    assert order[1..] == [2] && order[1..][1..] == [];
    var held := HoldSeats(RECLAIMED.occ, "first");
    assert held == {2} by {
      assert OccKey("first", 2) in RECLAIMED.occ;
    }
    assert Pick([2], held) == [2] + Pick([2][1..], held);
    assert Pick(order, held) == [2];
    var rows := ConfirmHoldSeats(RECLAIMED.occ, "first", 5_000_000);
    assert rows.Keys == {OccKey("first", 2)};
    assert |rows| == |rows.Keys|;
    assert LATE_CONFIRM.refs[0] == "r1";
  }

  const ONE := Tables(map["first" := HoldRow(1, "ann", 10_000_000, None, None)],
                      map[OccKey("first", 1) := ROW_LIVE, OccKey("first", 2) := ROW_LIVE], map[])

  /** A hold that finds its seats free, given what its statements yield. */
  lemma HoldYields(cat: Catalog, db: Tables, op: Op, now: Time, reclaimed: map<OccKey, OccRow>, rows: map<OccKey, OccRow>)
    requires Inv(cat, db) && op.Hold? && ValidOp(op) && op.token !in db.holds
    requires op.st in cat.showtimes && cat.showtimes[op.st].salesOpen
    requires forall s :: s in op.seats ==> Belongs(cat, op.st, s)
    requires reclaimed == ReclaimExpiredSeats(db.occ, op.st, op.seats, now)
    requires rows == ClaimSeats(CreateHold(op.st, op.customer, op.ttlSeconds, now), op.token, op.seats)
    requires forall k :: k in db.occ && k.seat in op.seats ==> !Live(db.occ[k], now)
    ensures Body(cat, db, op, now).Done?
    ensures Merge(db, Body(cat, db, op, now).writes)
         == Tables(db.holds[op.token := CreateHold(op.st, op.customer, op.ttlSeconds, now)],
                   db.occ + (reclaimed + rows), db.bookings)
  {
    hide Inv, HoldBody, FreeHold, After, ReclaimExpiredSeats, ClaimSeats, ConflictsOf;
    SeatsAreFree(db, op, now);
    FreeHoldIs(cat, db, op, now);
    FreeHoldGetsDone(cat, op, now, reclaimed);
    DoneIsMerged(db, FreeHold(cat, op, now, reclaimed));
    AfterFreeHold(cat, db, op, now, reclaimed);
    PutOne(db.holds, op.token, CreateHold(op.st, op.customer, op.ttlSeconds, now));
  }

  lemma DoneIsMerged(db: Tables, o: Outcome)
    requires o.Done?
    ensures After(db, o) == Merge(db, o.writes)
  {}

  lemma PutOne<K, V>(m: map<K, V>, k: K, v: V)
    ensures m + map[k := v] == m[k := v]
  {}

  lemma FreeHoldGetsDone(cat: Catalog, op: Op, now: Time, reclaimed: map<OccKey, OccRow>)
    requires op.Hold? && ValidOp(op) && op.st in cat.showtimes && cat.showtimes[op.st].salesOpen
    requires forall s :: s in op.seats ==> Belongs(cat, op.st, s)
    ensures FreeHold(cat, op, now, reclaimed).Done?
  {
    hide ClaimSeats;
    DistinctCount(op.seats);
    assert (set s | s in op.seats && Belongs(cat, op.st, s)) == Elements(op.seats);
    ClaimCount(CreateHold(op.st, op.customer, op.ttlSeconds, now), op.token, op.seats);
  }

  lemma SeatsAreFree(db: Tables, op: Op, now: Time)
    requires op.Hold? && forall k :: k in db.occ && k.seat in op.seats ==> !Live(db.occ[k], now)
    ensures |ConflictsOf(db, op, now)| == 0
  {
    hide FindSeatConflicts;
    NoConflicts(db.occ + ReclaimExpiredSeats(db.occ, op.st, op.seats, now), op.st, op.seats, now);
  }

  lemma FirstHoldDone()
    ensures var o := Body(ONE_SCREEN, NOTHING, FIRST_HOLD, 0); o.Done? && Merge(NOTHING, o.writes) == ONE
  {
    hide Body;
    var reclaimed := ReclaimExpiredSeats(map[], 1, FIRST_HOLD.seats, 0);
    var rows := ClaimSeats(CreateHold(1, "ann", 10, 0), "first", FIRST_HOLD.seats);
    EmptyIsInv(ONE_SCREEN);
    assert reclaimed.Keys == {};
    assert rows.Keys == {OccKey("first", 1), OccKey("first", 2)};
    HoldYields(ONE_SCREEN, NOTHING, FIRST_HOLD, 0, reclaimed, rows);
    assert map[] + (reclaimed + rows) == ONE.occ;
  }

  lemma SecondHoldReclaims(reclaimed: map<OccKey, OccRow>)
    requires reclaimed == ReclaimExpiredSeats(ONE.occ, 1, SECOND_HOLD.seats, 20_000_000)
    ensures reclaimed.Keys == {OccKey("first", 1)} && reclaimed[OccKey("first", 1)] == ROW_RECLAIMED
  {}

  lemma SecondHoldClaims(rows: map<OccKey, OccRow>)
    requires rows == ClaimSeats(CreateHold(1, "bob", 10, 20_000_000), "second", SECOND_HOLD.seats)
    ensures rows.Keys == {OccKey("second", 1)} && rows[OccKey("second", 1)] == ROW_SECOND
  {}

  lemma OneIsInv()
    ensures Inv(ONE_SCREEN, ONE)
  {
    hide Inv, Body;
    EmptyIsInv(ONE_SCREEN);
    FirstHoldDone();
    BodyKeepsInv(ONE_SCREEN, NOTHING, FIRST_HOLD, 0);
  }

  lemma SecondHoldDone()
    ensures var o := Body(ONE_SCREEN, ONE, SECOND_HOLD, 20_000_000); o.Done? && Merge(ONE, o.writes) == RECLAIMED
  {
    hide Body, ReclaimExpiredSeats, ClaimSeats, Inv;
    var reclaimed := ReclaimExpiredSeats(ONE.occ, 1, SECOND_HOLD.seats, 20_000_000);
    var rows := ClaimSeats(CreateHold(1, "bob", 10, 20_000_000), "second", SECOND_HOLD.seats);
    OneIsInv();
    SecondHoldReclaims(reclaimed);
    SecondHoldClaims(rows);
    HoldYields(ONE_SCREEN, ONE, SECOND_HOLD, 20_000_000, reclaimed, rows);
    assert ONE.occ + (reclaimed + rows) == RECLAIMED.occ;
  }

  // ---- the run itself ----

  /** The first hold runs alone and commits. */
  lemma FirstHoldCommits() returns (schedule: seq<Label>)
    ensures var s := Reach(ONE_SCREEN, schedule);
            && s.txs == map[] && s.history == [NOTHING, ONE]
            && |s.commits| == 1 && s.commits[0].op == FIRST_HOLD && s.commits[0].now == 0 && s.failures == []
  {
    hide Body;
    FirstHoldDone();
    assert Reach(ONE_SCREEN, []).history == [NOTHING];
    Starts(ONE_SCREEN, [], 0, FIRST_HOLD, 0);
    var begun := [] + [Arrive(0, FIRST_HOLD), Begin(0, 0)];
    var more := RunsToItsEnd(ONE_SCREEN, begun, 0);
    schedule := begun + more;
  }

  /** The confirm begins at second 5 and stalls before its lock; the other operation
      begins at second 20. */
  lemma BothBegin(op: Op) returns (schedule: seq<Label>)
    requires op == SECOND_HOLD || op == Sweep(1)
    ensures var s := Reach(ONE_SCREEN, schedule);
            && s.txs.Keys == {1, 2} && s.txs[1].pc.Begun? && s.txs[2].pc.Begun?
            && s.txs[1].op == LATE_CONFIRM && s.txs[1].now == 5_000_000
            && s.txs[2].op == op && s.txs[2].now == 20_000_000
            && s.history == [NOTHING, ONE] && s.failures == []
            && |s.commits| == 1 && s.commits[0].op == FIRST_HOLD && s.commits[0].now == 0
  {
    hide Body;
    var first := FirstHoldCommits();
    Starts(ONE_SCREEN, first, 1, LATE_CONFIRM, 5_000_000);
    var second := first + [Arrive(1, LATE_CONFIRM), Begin(1, 5_000_000)];
    Starts(ONE_SCREEN, second, 2, op, 20_000_000);
    schedule := second + [Arrive(2, op), Begin(2, 20_000_000)];
  }

  /** The second hold locks first and commits. */
  lemma SecondHoldOvertakes() returns (schedule: seq<Label>)
    ensures var s := Reach(ONE_SCREEN, schedule);
            && s.txs.Keys == {1} && s.txs[1].pc.Begun? && s.txs[1].op == LATE_CONFIRM && s.txs[1].now == 5_000_000
            && s.history == [NOTHING, ONE, RECLAIMED]
            && |s.commits| == 2 && s.commits[0].op == FIRST_HOLD && s.commits[0].now == 0
  {
    hide Body;
    SecondHoldDone();
    var begun := BothBegin(SECOND_HOLD);
    var more := RunsToItsEnd(ONE_SCREEN, begun, 2);
    schedule := begun + more;
  }

  /** Without the clock assumption a booking need not be whole: in this run the first
      hold claims two seats, and the first Confirm of it books one. */
  lemma SomeRunBooksAPart() returns (schedule: seq<Label>)
    ensures ValidCatalog(ONE_SCREEN)
    ensures var s := Reach(ONE_SCREEN, schedule);
            && HeldThenConfirmed(s, 0, 2) && s.commits[0].op.seats == [1, 2]
            && s.commits[2].result == Booking("r1", 1, [2], 100, "THB", 5_000_000)
            && HoldSeats(s.history[3].occ, s.commits[0].op.token) == {2}
  {
    hide Body, HoldSeats;
    LateConfirmBooksAPart();
    var second := SecondHoldOvertakes();
    var more := RunsToItsEnd(ONE_SCREEN, second, 1);
    schedule := second + more;
    var s := Reach(ONE_SCREEN, schedule);
    assert s.history[2] == RECLAIMED && s.commits[2].op == LATE_CONFIRM;
    SeatsAtConfirm(ONE_SCREEN, RECLAIMED, s.history[3], s.commits[2]);
  }

  // ---- a sweep that makes a difference ----

  /** The first hold and a sweep have committed, and the confirm of second 5 has failed. */
  ghost predicate SweptAndRefused(s: State) {
    && |s.commits| == 2 && s.commits[0].op == FIRST_HOLD && s.commits[1].op == Sweep(1)
    && |s.failures| == 1 && s.failures[0].op == LATE_CONFIRM && s.failures[0].now == 5_000_000
    && s.failures[0].error == HoldExpired
  }

  /** The first hold has committed, and the confirm of second 5 has booked both seats. */
  ghost predicate BookedWhole(s: State) {
    && |s.commits| == 2 && s.commits[0].op == FIRST_HOLD && s.failures == []
    && s.commits[1] == Commit(LATE_CONFIRM, 5_000_000, Booking("r1", 1, [1, 2], 200, "THB", 5_000_000))
  }

  /** The clock assumption is needed for the sweeper too. In one run the confirm begins
      at second 5, a sweep begins at second 20 and locks first, and the confirm is
      refused. In the other there is no sweep, and it books both seats. */
  lemma SweepCanRefuseALateConfirm() returns (swept: seq<Label>, bare: seq<Label>)
    ensures ValidCatalog(ONE_SCREEN)
    ensures SweptAndRefused(Reach(ONE_SCREEN, swept)) && BookedWhole(Reach(ONE_SCREEN, bare))
  {
    hide Body, HoldSeats;
    LateConfirmBooksAPart();
    UnsweptConfirm();
    swept := SweptRun();
    var first := FirstHoldCommits();
    Starts(ONE_SCREEN, first, 1, LATE_CONFIRM, 5_000_000);
    var begun := first + [Arrive(1, LATE_CONFIRM), Begin(1, 5_000_000)];
    var more := RunsToItsEnd(ONE_SCREEN, begun, 1);
    bare := begun + more;
  }

  lemma SweptRun() returns (swept: seq<Label>)
    ensures SweptAndRefused(Reach(ONE_SCREEN, swept))
  {
    hide Body;
    SweptConfirm();
    SweepIsDone();
    var begun := BothBegin(Sweep(1));
    var more := RunsToItsEnd(ONE_SCREEN, begun, 2);
    var rest := RunsToItsEnd(ONE_SCREEN, begun + more, 1);
    swept := begun + more + rest;
  }

  lemma SweepIsDone()
    ensures Body(ONE_SCREEN, ONE, Sweep(1), 20_000_000).Done?
  {}

  lemma SweptConfirm()
    ensures var swept := After(ONE, Body(ONE_SCREEN, ONE, Sweep(1), 20_000_000));
            Body(ONE_SCREEN, swept, LATE_CONFIRM, 5_000_000) == Failed(HoldExpired)
  {
    hide ConfirmBody, HoldSeats, KeyOfAnotherHold;
    var occ := ONE.occ + ReclaimExpiredSeatsForShowtime(ONE.occ, 1, 20_000_000);
    PlusEmpty(ONE.holds);
    PlusEmpty(ONE.bookings);
    SeatsAreSwept(occ);
    NoSeatsNoBooking(Tables(ONE.holds, occ, ONE.bookings));
  }

  lemma SeatsAreSwept(occ: map<OccKey, OccRow>)
    requires occ == ONE.occ + ReclaimExpiredSeatsForShowtime(ONE.occ, 1, 20_000_000)
    ensures HoldSeats(occ, "first") == {}
  {}

  lemma NoSeatsNoBooking(db: Tables)
    requires db.holds == ONE.holds && db.bookings == ONE.bookings && HoldSeats(db.occ, "first") == {}
    ensures ConfirmBody(ONE_SCREEN, db, LATE_CONFIRM, 5_000_000) == Failed(HoldExpired)
  {
    hide HoldSeats, ConfirmHoldSeats;
    PickCount(ONE_SCREEN.order, HoldSeats(db.occ, "first"));
  }

  lemma UnsweptConfirm()
    ensures var o := Body(ONE_SCREEN, ONE, LATE_CONFIRM, 5_000_000);
            o.Done? && o.result == Booking("r1", 1, [1, 2], 200, "THB", 5_000_000)
  {
    var order := ONE_SCREEN.order;
    var held := HoldSeats(ONE.occ, "first");
    assert held == {1, 2} by {
      assert OccKey("first", 1) in ONE.occ && OccKey("first", 2) in ONE.occ;
    }
    assert order[1..] == [2] && order[1..][1..] == [];
    assert Pick(order[1..], held) == [2] + Pick(order[1..][1..], held);
    assert Pick(order, held) == [1, 2];
    var rows := ConfirmHoldSeats(ONE.occ, "first", 5_000_000);
    assert rows.Keys == {OccKey("first", 1), OccKey("first", 2)};
    assert |rows| == |rows.Keys|;
    assert LATE_CONFIRM.refs[0] == "r1";
  }
}
