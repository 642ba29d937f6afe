/** No deadlock: whatever is in flight can be finished, and waiting is shallow. */
module Progress {
  import opened Schema
  import opened Statements
  import opened Bodies
  import opened Invariants
  import opened Protocol
  import opened Locality
  import opened Paths
  import opened Moving
  import opened Refinement

  // ---- writes of different transactions never meet, bookings apart ----

  /** What a transaction may have written, seen from the latest state. */
  ghost predicate Confined(db: Tables, op: Op, st: ShowtimeId, w: Tables) {
    && Within(w, st)
    && (forall t :: t in w.holds ==> !op.Sweep? && t == op.token)
    && (forall k :: k in w.occ ==> (k in db.occ && db.occ[k].showtime == st) || (op.Hold? && k.hold == op.token))
  }

  lemma IsConfined(cat: Catalog, m: Tables, db: Tables, tx: Tx, pc: Pc, w: Tables)
    requires Inv(cat, m) && RowsEvolve(m, db) && LocksShowtime(m, tx.op, tx.st)
    requires OnPath(cat, m, tx.op, tx.now, pc, w)
    ensures Confined(db, tx.op, tx.st, w)
  {
    hide Inv, OnPath, LocksShowtime;
    PathWithin(cat, m, tx.op, tx.st, tx.now, pc, w);
  }

  lemma WritesAreConfined(cat: Catalog, s: State, id: TxId)
    requires Good(cat, s) && id in s.txs
    ensures Confined(Db(s), s.txs[id].op, s.txs[id].st, s.txs[id].writes)
  {
    var tx := s.txs[id];
    if Holding(tx) {
      IsLater(cat, s.history, tx);
      IsConfined(cat, s.history[tx.mark], Db(s), tx, tx.pc, tx.writes);
    }
  }

  lemma StepIsConfined(cat: Catalog, s: State, id: TxId)
    requires ValidCatalog(cat) && Good(cat, s) && id in s.txs && AtStatement(s.txs[id].op, s.txs[id].pc)
    ensures var tx := s.txs[id];
            var step := Execute(cat, View(s, tx), tx.op, tx.now, tx.pc);
            step.Next? ==> Confined(Db(s), tx.op, tx.st, step.writes)
  {
    var tx := s.txs[id];
    var step := Execute(cat, View(s, tx), tx.op, tx.now, tx.pc);
    RunStays(cat, s, tx);
    IsLater(cat, s.history, tx);
    if step.Next? {
      ConfinedPart(cat, s, tx, step);
    }
  }

  lemma PlusKeepsRight<K, V>(a: map<K, V>, b: map<K, V>)
    ensures forall k :: k in b ==> k in a + b && (a + b)[k] == b[k]
  {}

  lemma ConfinedPart(cat: Catalog, s: State, tx: Tx, step: Step)
    requires HistoryOk(cat, s.history) && TxOk(cat, s.history, tx) && Holding(tx) && step.Next?
    requires Later(cat, s.history[tx.mark], Db(s), tx.op, tx.st)
    requires OnPath(cat, s.history[NewMark(s, tx)], tx.op, tx.now, step.pc, Merge(tx.writes, step.writes))
    ensures Confined(Db(s), tx.op, tx.st, step.writes)
  {
    hide Inv, OnPath, LocksShowtime;
    EvolvesToItself(Db(s));
    var w := Merge(tx.writes, step.writes);
    IsConfined(cat, s.history[NewMark(s, tx)], Db(s), tx, step.pc, w);
    PlusKeepsRight(tx.writes.holds, step.writes.holds);
    PlusKeepsRight(tx.writes.occ, step.writes.occ);
    PlusKeepsRight(tx.writes.bookings, step.writes.bookings);
  }

  /** Under different locks, only bookings can collide. */
  lemma OnlyBookingsCollide(cat: Catalog, db: Tables, a: Tx, b: Tx, w: Tables)
    requires RowsOk(cat, db) && a.st != b.st && Apart(a, b)
    requires LocksShowtime(db, a.op, a.st) && LocksShowtime(db, b.op, b.st)
    requires a.op.Hold? ==> a.op.token !in db.holds
    requires b.op.Hold? ==> b.op.token !in db.holds
    requires Confined(db, a.op, a.st, a.writes) && Confined(db, b.op, b.st, w)
    ensures Collide(a.writes, w) ==> w.bookings != map[] && a.writes.bookings != map[]
  {
    forall t | t in a.writes.holds ensures t !in w.holds {}
    forall k | k in a.writes.occ ensures k !in w.occ {}
    assert !IndexRefuses(a.writes.occ, w.occ);
  }

  /** A statement of a lock holder waits only when it inserts a booking, and only for
      a transaction that has nothing left to do but commit. */
  lemma StatementWaitsOnlyForCommits(cat: Catalog, s: State, id: TxId, on: TxId)
    requires ValidCatalog(cat) && Good(cat, s) && id in s.txs && on in s.txs
    requires !s.txs[id].pc.Begun? && Waits(cat, s, id, on)
    ensures s.txs[id].pc.ConfirmInsert? && s.txs[on].pc.Committing?
  {
    var tx, u := s.txs[id], s.txs[on];
    var step := Execute(cat, View(s, tx), tx.op, tx.now, tx.pc);
    StepIsConfined(cat, s, id);
    WritesAreConfined(cat, s, on);
    InsertOnly(cat, View(s, tx), tx.op, tx.now, tx.pc);
    NothingCollides(step.writes);
    if u.writes != NOTHING {
      WaitsUnderLocks(cat, s, id, on, step);
    }
  }

  lemma NothingCollides(w: Tables)
    ensures !Collide(NOTHING, w)
  {}

  lemma InsertOnly(cat: Catalog, view: Tables, op: Op, now: Time, pc: Pc)
    requires AtStatement(op, pc) && Execute(cat, view, op, now, pc).Next?
    ensures Execute(cat, view, op, now, pc).writes.bookings != map[] ==> pc.ConfirmInsert?
  {}

  lemma WaitsUnderLocks(cat: Catalog, s: State, id: TxId, on: TxId, step: Step)
    requires Good(cat, s) && id in s.txs && on in s.txs && id != on && step.Next?
    requires Holding(s.txs[id]) && Holding(s.txs[on]) && Collide(s.txs[on].writes, step.writes)
    requires Confined(Db(s), s.txs[id].op, s.txs[id].st, step.writes)
    requires Confined(Db(s), s.txs[on].op, s.txs[on].st, s.txs[on].writes)
    ensures step.writes.bookings != map[] && s.txs[on].pc.Committing?
  {
    var u := s.txs[on];
    assert Apart(u, s.txs[id]);
    OnlyBookingsCollide(cat, Db(s), u, s.txs[id], step.writes);
    if !u.pc.Committing? {
      PathIsUnderLock(cat, s.history[u.mark], u.op, u.now, u.pc, u.writes);
      NoBookingsYet(cat, s, u);
    }
  }

  // ---- the next step of one transaction ----

  ghost function Own(s: State, id: TxId): Label
    requires id in s.txs
  {
    var pc := s.txs[id].pc;
    if pc.Arrived? then Begin(id, 0)
    else if pc.Begun? then Lock(id)
    else if pc.Committing? then CommitTx(id)
    else Run(id)
  }

  ghost predicate CanStep(cat: Catalog, s: State, id: TxId)
    requires s.history != []
  {
    id in s.txs && Enabled(cat, s, Own(s, id))
  }

  /** A transaction in flight can take its next step, or it waits: for a lock holder,
      or for a transaction about to commit. */
  lemma StepsOrWaits(cat: Catalog, s: State, id: TxId) returns (on: TxId)
    requires ValidCatalog(cat) && Good(cat, s) && id in s.txs && !CanStep(cat, s, id)
    ensures on in s.txs && on != id && Waits(cat, s, id, on)
    ensures if s.txs[id].pc.Begun? then Holding(s.txs[on])
            else s.txs[id].pc.ConfirmInsert? && s.txs[on].pc.Committing?
  {
    var tx := s.txs[id];
    if tx.pc.Begun? {
      on := s.locks[tx.st];
    } else {
      assert Holding(tx);
      PathIsUnderLock(cat, s.history[tx.mark], tx.op, tx.now, tx.pc, tx.writes);
      on :| on in s.txs && Waits(cat, s, id, on);
      StatementWaitsOnlyForCommits(cat, s, id, on);
    }
  }

  ghost predicate WaitsOnStepper(cat: Catalog, s: State, id: TxId)
    requires s.history != [] && id in s.txs
  {
    exists on :: on in s.txs && Waits(cat, s, id, on) && CanStep(cat, s, on)
  }

  /** Chains of waiting have at most two links: a transaction in flight can step, or
      waits for one that can, or waits for one that waits for one that can. */
  lemma WaitingIsShallow(cat: Catalog, schedule: seq<Label>, id: TxId)
    requires ValidCatalog(cat) && id in Reach(cat, schedule).txs
    ensures var s := Reach(cat, schedule);
            || CanStep(cat, s, id) || WaitsOnStepper(cat, s, id)
            || exists on :: on in s.txs && Waits(cat, s, id, on) && WaitsOnStepper(cat, s, on)
  {
    hide Good, Waits;
    var s := Reach(cat, schedule);
    ReachIsGood(cat, schedule);
    if !CanStep(cat, s, id) {
      var on := StepsOrWaits(cat, s, id);
      if !CanStep(cat, s, on) {
        var last := StepsOrWaits(cat, s, on);
        assert CanStep(cat, s, last);
        assert WaitsOnStepper(cat, s, on);
      }
    }
  }

  /** Deadlock freedom: with anything in flight, some transaction can take its next
      step without aborting. */
  lemma NeverDeadlocked(cat: Catalog, schedule: seq<Label>)
    requires ValidCatalog(cat) && Reach(cat, schedule).txs != map[]
    ensures var s := Reach(cat, schedule);
            exists id :: id in s.txs && CanStep(cat, s, id)
  {
    var s := Reach(cat, schedule);
    assert s.txs.Keys != {};
    var id := Member(s.txs.Keys);
    WaitingIsShallow(cat, schedule, id);
    if !CanStep(cat, s, id) {
      if WaitsOnStepper(cat, s, id) {
        var on :| on in s.txs && Waits(cat, s, id, on) && CanStep(cat, s, on);
      } else {
        var on :| on in s.txs && Waits(cat, s, id, on) && WaitsOnStepper(cat, s, on);
        var last :| last in s.txs && Waits(cat, s, on, last) && CanStep(cat, s, last);
      }
    }
  }

  // ---- everything in flight can be finished ----

  /** How many steps a transaction has left at most. */
  ghost function StepsLeft(op: Op, pc: Pc): nat {
    match pc
    case Arrived => 21
    case Begun => 20
    case HoldShowtime => 8
    case HoldCount => 7
    case HoldReclaim => 6
    case HoldConflicts => 5
    case HoldCreate => 4
    case HoldClaim => 3
    case HoldRead => 2
    case ConfirmReread => 17
    case ReplayBooking => 3
    case ReplaySeats(_, _) => 2
    case ConfirmKey(_) => 16
    case ConfirmSeats(_) => 15
    case ConfirmRows(_, _) => 14
    case ConfirmRow(_, _) => 13
    case ConfirmShowtime(_, _) => 12
    case ConfirmInsert(_, _, i) => if i < REF_ATTEMPTS then 2 * (REF_ATTEMPTS - i) + 1 else 2
    case ConfirmRecheck(_, _, i) => if i < REF_ATTEMPTS then 2 * (REF_ATTEMPTS - i) else 2
    case ReleaseReread => 4
    case ReleaseRows => 3
    case ReleaseRow => 2
    case SweepRows => 2
    case Committing(_) => 1
  }

  lemma StatementMakesProgress(cat: Catalog, view: Tables, op: Op, now: Time, pc: Pc)
    requires ValidOp(op) && AtStatement(op, pc) && Execute(cat, view, op, now, pc).Next?
    ensures StepsLeft(op, Execute(cat, view, op, now, pc).pc) < StepsLeft(op, pc)
  {
    hide ReclaimExpiredSeats, ReclaimExpiredSeatsForShowtime, FindSeatConflicts, ClaimSeats, IndexRefuses, ConfirmHoldSeats,
      ConfirmHold, ReleaseHoldSeats, ReleaseHold, GetHoldSeats, Suppressed, KeyTaken, KeyOfAnotherHold, Booked,
      CountSeatsInShowtime;
  }

  ghost predicate OnlyOwnSteps(labels: seq<Label>) {
    forall i :: 0 <= i < |labels| ==> !labels[i].Arrive? && !labels[i].Abort?
  }

  ghost function Then(cat: Catalog, s: State, id: TxId): State
    requires s.history != [] && CanStep(cat, s, id)
  {
    Apply(cat, s, Own(s, id))
  }

  lemma ReachThenStep(cat: Catalog, schedule: seq<Label>, id: TxId)
    requires CanStep(cat, Reach(cat, schedule), id)
    ensures var s := Reach(cat, schedule);
            Reach(cat, schedule + [Own(s, id)]) == Then(cat, s, id)
  {
    var l := Own(Reach(cat, schedule), id);
    assert (schedule + [l])[..|schedule + [l]| - 1] == schedule;
  }

  /** Waiting for the lock costs more than any step taken under it. */
  ghost function Cost(tx: Tx): nat {
    StepsLeft(tx.op, tx.pc)
  }

  /** A step of one's own removes the transaction or brings it closer to its end, and
      adds nothing. */
  lemma OwnStepMakesProgress(cat: Catalog, s: State, id: TxId)
    requires Good(cat, s) && CanStep(cat, s, id)
    ensures var s' := Then(cat, s, id);
            if id in s'.txs then s'.txs.Keys == s.txs.Keys && Cost(s'.txs[id]) < Cost(s.txs[id])
            else s'.txs.Keys == s.txs.Keys - {id}
  {
    hide Execute, Inv, Evolves, OnPath, Serial, AllExplained, PairsOk, StepsLeft, Show, LocksShowtime;
    CostsSomething(s.txs[id]);
    var tx := s.txs[id];
    if Own(s, id).Run? { RunsAStatement(cat, s, id); }
    if Own(s, id).Run? && Execute(cat, View(s, tx), tx.op, tx.now, tx.pc).Next? {
      StatementMakesProgress(cat, View(s, tx), tx.op, tx.now, tx.pc);
    }
  }

  lemma RunsAStatement(cat: Catalog, s: State, id: TxId)
    requires s.history != [] && CanStep(cat, s, id) && Own(s, id).Run?
    ensures AtStatement(s.txs[id].op, s.txs[id].pc)
  {}

  lemma CostsSomething(tx: Tx)
    ensures tx.pc.Arrived? ==> Cost(tx.(pc := Begun)) < Cost(tx)
    ensures tx.pc.Begun? ==> StepsLeft(tx.op, FirstStatement(tx.op)) < Cost(tx)
  {}

  lemma HoldersCostLess(s: State, id: TxId, on: TxId)
    requires id in s.txs && on in s.txs
    requires if s.txs[id].pc.Begun? then Holding(s.txs[on])
             else s.txs[id].pc.ConfirmInsert? && s.txs[on].pc.Committing?
    ensures Cost(s.txs[on]) < Cost(s.txs[id])
  {}

  /** From every reachable state, without a single abort, the transactions in flight
      can all be brought to their end. */
  lemma {:induction false} EverythingCanFinish(cat: Catalog, schedule: seq<Label>, focus: TxId) returns (more: seq<Label>)
    requires ValidCatalog(cat) && focus in Reach(cat, schedule).txs
    ensures OnlyOwnSteps(more) && Reach(cat, schedule + more).txs == map[]
    decreases |Reach(cat, schedule).txs.Keys|, Cost(Reach(cat, schedule).txs[focus])
  {
    hide Good, Waits, CanStep, Cost, Apply, Enabled, OnlyOwnSteps, Reach;
    var s := Reach(cat, schedule);
    ReachIsGood(cat, schedule);
    if CanStep(cat, s, focus) {
      more := FinishAfter(cat, schedule, focus);
    } else {
      var on := StepsOrWaits(cat, s, focus);
      HoldersCostLess(s, focus, on);
      more := EverythingCanFinish(cat, schedule, on);
    }
  }

  /** Take one step of `id`, then go on with it, or with whatever is left. */
  lemma {:induction false} FinishAfter(cat: Catalog, schedule: seq<Label>, id: TxId) returns (more: seq<Label>)
    requires ValidCatalog(cat) && CanStep(cat, Reach(cat, schedule), id) && id in Reach(cat, schedule).txs
    ensures OnlyOwnSteps(more) && Reach(cat, schedule + more).txs == map[]
    decreases |Reach(cat, schedule).txs.Keys|, Cost(Reach(cat, schedule).txs[id]), 0
  {
    hide Good, Waits, CanStep, Cost, Apply, Enabled, Reach;
    var s := Reach(cat, schedule);
    var l := Own(s, id);
    ReachIsGood(cat, schedule);
    ReachThenStep(cat, schedule, id);
    OwnStepMakesProgress(cat, s, id);
    var s' := Reach(cat, schedule + [l]);
    var rest: seq<Label> := [];
    if id in s'.txs {
      rest := EverythingCanFinish(cat, schedule + [l], id);
    } else if s'.txs.Keys != {} {
      var other := Member(s'.txs.Keys);
      rest := EverythingCanFinish(cat, schedule + [l], other);
    } else {
      assert schedule + [l] + [] == schedule + [l];
    }
    more := [l] + rest;
    assert schedule + more == schedule + [l] + rest;
  }
}
