/** Every interleaving is explained by running the bodies one at a time. */
module Refinement {
  import opened Schema
  import opened Statements
  import opened Bodies
  import opened Invariants
  import opened Protocol
  import opened Locality
  import opened Paths
  import opened Moving

  /** State `b` is state `a` after the operation ran alone and answered as it did. */
  ghost predicate Committed(cat: Catalog, a: Tables, b: Tables, c: Commit) {
    && ValidOp(c.op)
    && var o := Body(cat, a, c.op, c.now);
    o.Done? && o.result == c.result && b == Merge(a, o.writes)
  }

  /** The committed states are those of a one-at-a-time run in commit order. */
  ghost predicate Serial(cat: Catalog, history: seq<Tables>, commits: seq<Commit>) {
    && |history| == |commits| + 1 && history[0] == NOTHING
    && forall i :: 0 <= i < |commits| ==> Committed(cat, history[i], history[i + 1], commits[i])
  }

  /** A failed operation answers as it would have, run alone in a state that was
      current between its arrival and its failure. */
  ghost predicate Explained(cat: Catalog, history: seq<Tables>, f: Failure) {
    && f.arrived <= f.at <= f.failed < |history| && ValidOp(f.op)
    && Body(cat, history[f.at], f.op, f.now) == Failed(f.error)
  }

  ghost predicate AllExplained(cat: Catalog, history: seq<Tables>, failures: seq<Failure>) {
    forall i :: 0 <= i < |failures| ==> Explained(cat, history, failures[i])
  }

  ghost predicate HistoryOk(cat: Catalog, history: seq<Tables>) {
    && history != []
    && (forall i :: 0 <= i < |history| ==> Inv(cat, history[i]))
    && (forall i :: 0 <= i < |history| ==> Evolves(history[i], history[|history| - 1]))
  }

  ghost predicate Holding(tx: Tx) {
    !tx.pc.Arrived? && !tx.pc.Begun?
  }

  ghost predicate TxOk(cat: Catalog, history: seq<Tables>, tx: Tx)
    requires history != []
  {
    var db := history[|history| - 1];
    && tx.arrived <= tx.mark < |history| && ValidOp(tx.op) && LocksShowtime(db, tx.op, tx.st)
    && (tx.op.Hold? ==> tx.op.token !in db.holds)
    && BookingsFree(db, tx.writes)
    && if Holding(tx)
       then && LocksShowtime(history[tx.mark], tx.op, tx.st)
            && Show(history[tx.mark], tx.st) == Show(db, tx.st)
            && OnPath(cat, history[tx.mark], tx.op, tx.now, tx.pc, tx.writes)
       else tx.writes == NOTHING
  }

  ghost predicate TxsOk(cat: Catalog, s: State)
    requires s.history != []
  {
    forall id :: id in s.txs ==> TxOk(cat, s.history, s.txs[id])
  }

  /** A lock is held by one transaction, and a transaction past its lock holds it. */
  ghost predicate LocksOk(s: State) {
    && (forall id :: id in s.txs && Holding(s.txs[id]) ==> s.txs[id].st in s.locks && s.locks[s.txs[id].st] == id)
    && (forall st :: st in s.locks ==>
          s.locks[st] in s.txs && Holding(s.txs[s.locks[st]]) && s.txs[s.locks[st]].st == st)
  }

  /** Two transactions in flight never have uncommitted bookings that clash, nor the
      same new token. */
  ghost predicate Apart(a: Tx, b: Tx) {
    && (a.op.Hold? && b.op.Hold? ==> a.op.token != b.op.token)
    && (forall r :: r in b.writes.bookings ==> !Suppressed(a.writes.bookings, r, b.writes.bookings[r]))
  }

  ghost predicate PairsOk(s: State) {
    forall i, j {:trigger Apart(s.txs[i], s.txs[j])} :: i in s.txs && j in s.txs && i != j ==> Apart(s.txs[i], s.txs[j])
  }

  ghost predicate Good(cat: Catalog, s: State) {
    && HistoryOk(cat, s.history) && Serial(cat, s.history, s.commits) && AllExplained(cat, s.history, s.failures)
    && TxsOk(cat, s) && LocksOk(s) && PairsOk(s)
  }

  lemma InitialIsGood(cat: Catalog)
    ensures Good(cat, State([NOTHING], map[], map[], [], []))
  {}

  // ---- arrival, begin, lock, abort ----

  lemma FailureJoins(cat: Catalog, s: State, f: Failure)
    requires AllExplained(cat, s.history, s.failures) && Explained(cat, s.history, f)
    ensures AllExplained(cat, s.history, s.failures + [f])
  {}

  lemma ArriveKeepsGood(cat: Catalog, s: State, l: Label)
    requires Good(cat, s) && l.Arrive? && Enabled(cat, s, l)
    ensures Good(cat, Apply(cat, s, l))
  {
    hide Inv, OnPath, Serial, Evolves, Show, Suppressed, HoldBody, SweepBody;
    var s' := Apply(cat, s, l);
    if s'.txs == s.txs {
      if s'.failures != s.failures {
        FailureJoins(cat, s, Failure(l.op, 0, NotFound, Latest(s), Latest(s), Latest(s)));
      }
    } else {
      NewTxApart(s, s', l.id);
    }
  }

  lemma NewTxApart(s: State, s': State, id: TxId)
    requires PairsOk(s) && id !in s.txs && s'.txs.Keys == s.txs.Keys + {id} && s'.txs[id].writes == NOTHING
    requires forall i :: i in s.txs ==> s'.txs[i] == s.txs[i]
    requires s'.txs[id].op.Hold? ==> forall i :: i in s.txs && s.txs[i].op.Hold? ==> s.txs[i].op.token != s'.txs[id].op.token
    ensures PairsOk(s')
  {
    forall i, j | i in s'.txs && j in s'.txs && i != j ensures Apart(s'.txs[i], s'.txs[j]) {
      if i != id && j != id {
        assert Apart(s.txs[i], s.txs[j]);
      }
    }
  }

  /** Replacing a transaction by one with the same operation and bookings. */
  lemma StillApart(s: State, s': State, id: TxId)
    requires PairsOk(s) && id in s.txs && id in s'.txs && s'.txs == s.txs[id := s'.txs[id]]
    requires s'.txs[id].op == s.txs[id].op && s'.txs[id].writes.bookings == s.txs[id].writes.bookings
    ensures PairsOk(s')
  {
    forall i, j | i in s'.txs && j in s'.txs && i != j ensures Apart(s'.txs[i], s'.txs[j]) {
      assert Apart(s.txs[i], s.txs[j]);
    }
  }

  lemma BeginKeepsGood(cat: Catalog, s: State, l: Label)
    requires Good(cat, s) && l.Begin? && Enabled(cat, s, l)
    ensures Good(cat, Apply(cat, s, l))
  {
    StillApart(s, Apply(cat, s, l), l.id);
  }

  lemma LockKeepsGood(cat: Catalog, s: State, l: Label)
    requires Good(cat, s) && l.Lock? && Enabled(cat, s, l)
    ensures Good(cat, Apply(cat, s, l))
  {
    StillApart(s, Apply(cat, s, l), l.id);
    var tx := s.txs[l.id];
    PathStarts(cat, Db(s), tx.op, tx.now);
  }

  lemma ForgetKeeps(cat: Catalog, s: State, id: TxId)
    requires s.history != [] && TxsOk(cat, s) && LocksOk(s) && PairsOk(s) && id in s.txs
    ensures TxsOk(cat, Forget(s, id)) && LocksOk(Forget(s, id)) && PairsOk(Forget(s, id))
  {
    var s' := Forget(s, id);
    forall i, j | i in s'.txs && j in s'.txs && i != j ensures Apart(s'.txs[i], s'.txs[j]) {
      assert Apart(s.txs[i], s.txs[j]);
    }
  }

  lemma AbortKeepsGood(cat: Catalog, s: State, l: Label)
    requires Good(cat, s) && l.Abort? && Enabled(cat, s, l)
    ensures Good(cat, Apply(cat, s, l))
  {
    ForgetKeeps(cat, s, l.id);
  }

  // ---- one statement ----

  lemma IsLater(cat: Catalog, history: seq<Tables>, tx: Tx)
    requires HistoryOk(cat, history) && TxOk(cat, history, tx) && Holding(tx)
    ensures Later(cat, history[tx.mark], history[|history| - 1], tx.op, tx.st)
    ensures tx.op.Hold? ==> tx.op.token !in history[tx.mark].holds
  {}

  /** The mark a statement leaves: the state that explains the transaction after it. */
  ghost function NewMark(s: State, tx: Tx): nat
    requires s.history != []
  {
    if ReadsKeys(tx.pc) then Latest(s) else tx.mark
  }

  lemma RunStays(cat: Catalog, s: State, tx: Tx)
    requires ValidCatalog(cat) && HistoryOk(cat, s.history) && TxOk(cat, s.history, tx)
    requires AtStatement(tx.op, tx.pc) && Holding(tx)
    ensures StaysOnPath(cat, s.history[NewMark(s, tx)], tx.op, tx.now, tx.writes,
                        Execute(cat, View(s, tx), tx.op, tx.now, tx.pc))
  {
    hide Inv, Evolves, Execute, OnPath, StaysOnPath, Show, LocksShowtime, HistoryOk;
    var m, db := s.history[tx.mark], Db(s);
    IsLater(cat, s.history, tx);
    NoBookingsYet(cat, s, tx);
    PathWithin(cat, m, tx.op, tx.st, tx.now, tx.pc, tx.writes);
    if ReadsKeys(tx.pc) {
      PathMoves(cat, m, db, tx.op, tx.st, tx.now, tx.pc, tx.writes);
      StatementStaysOnPath(cat, db, tx.op, tx.now, tx.pc, tx.writes);
    } else {
      StatementMoves(cat, m, db, tx.op, tx.st, tx.now, tx.pc, tx.writes);
      StatementStaysOnPath(cat, m, tx.op, tx.now, tx.pc, tx.writes);
    }
  }

  /** Only the booking insert writes a booking, and only one that no committed row refuses. */
  lemma BookingsWritten(cat: Catalog, view: Tables, op: Op, now: Time, pc: Pc)
    requires AtStatement(op, pc)
    ensures var step := Execute(cat, view, op, now, pc);
            step.Next? ==> forall r :: r in step.writes.bookings ==> !Suppressed(view.bookings, r, step.writes.bookings[r])
  {}

  lemma SameRowsAreFree(s: State, tx: Tx, step: Step)
    requires s.history != [] && tx.writes.bookings == map[] && step.Next?
    requires forall r :: r in step.writes.bookings ==> !Suppressed(View(s, tx).bookings, r, step.writes.bookings[r])
    ensures BookingsFree(Db(s), Merge(tx.writes, step.writes))
  {
    PlusEmpty(Db(s).bookings);
    PlusEmpty(step.writes.bookings);
  }

  lemma RunNextKeepsGood(cat: Catalog, s: State, l: Label)
    requires ValidCatalog(cat) && Good(cat, s) && l.Run? && Enabled(cat, s, l)
    requires Execute(cat, View(s, s.txs[l.id]), s.txs[l.id].op, s.txs[l.id].now, s.txs[l.id].pc).Next?
    ensures Good(cat, Apply(cat, s, l))
  {
    var tx := s.txs[l.id];
    var s' := Apply(cat, s, l);
    var step := Execute(cat, View(s, tx), tx.op, tx.now, tx.pc);
    RunTxOk(cat, s, tx, step);
    RunApart(cat, s, s', l.id, step);
    ReplaceKeepsGood(cat, s, s', l.id);
  }

  lemma ReplaceKeepsGood(cat: Catalog, s: State, s': State, id: TxId)
    requires Good(cat, s) && id in s.txs && id in s'.txs && s' == s.(txs := s.txs[id := s'.txs[id]])
    requires Holding(s.txs[id]) && Holding(s'.txs[id]) && s'.txs[id].st == s.txs[id].st
    requires TxOk(cat, s.history, s'.txs[id]) && PairsOk(s')
    ensures Good(cat, s')
  {
    hide HistoryOk, TxOk, PairsOk, Serial, AllExplained;
  }

  lemma RunTxOk(cat: Catalog, s: State, tx: Tx, step: Step)
    requires ValidCatalog(cat) && HistoryOk(cat, s.history) && TxOk(cat, s.history, tx)
    requires AtStatement(tx.op, tx.pc) && step == Execute(cat, View(s, tx), tx.op, tx.now, tx.pc) && step.Next?
    ensures TxOk(cat, s.history, tx.(pc := step.pc, writes := Merge(tx.writes, step.writes), mark := NewMark(s, tx)))
    ensures Holding(tx.(pc := step.pc))
  {
    hide Inv, OnPath, Execute, Show, LocksShowtime;
    RunStays(cat, s, tx);
    NoBookingsYet(cat, s, tx);
    BookingsWritten(cat, View(s, tx), tx.op, tx.now, tx.pc);
    SameRowsAreFree(s, tx, step);
    PathIsUnderLock(cat, s.history[NewMark(s, tx)], tx.op, tx.now, step.pc, Merge(tx.writes, step.writes));
  }

  lemma NoBookingsYet(cat: Catalog, s: State, tx: Tx)
    requires HistoryOk(cat, s.history) && TxOk(cat, s.history, tx) && AtStatement(tx.op, tx.pc)
    ensures tx.writes.bookings == map[]
  {
    PathWithin(cat, s.history[tx.mark], tx.op, tx.st, tx.now, tx.pc, tx.writes);
    assert tx.writes.bookings.Keys == {};
  }

  /** An insert that would clash with another transaction's booking waited for it. */
  lemma RunApart(cat: Catalog, s: State, s': State, id: TxId, step: Step)
    requires Good(cat, s) && Enabled(cat, s, Run(id))
    requires step == Execute(cat, View(s, s.txs[id]), s.txs[id].op, s.txs[id].now, s.txs[id].pc) && step.Next?
    requires id in s'.txs && s'.txs == s.txs[id := s'.txs[id]] && s'.txs[id].op == s.txs[id].op
    requires s'.txs[id].writes == Merge(s.txs[id].writes, step.writes)
    ensures PairsOk(s')
  {
    hide HistoryOk, TxOk, LocksOk, Serial, AllExplained, Apart;
    BookingsAreTheStep(cat, s, id, step);
    forall i, j | i in s'.txs && j in s'.txs && i != j ensures Apart(s'.txs[i], s'.txs[j]) {
      assert Apart(s.txs[i], s.txs[j]);
      if j == id {
        ApartFromStep(cat, s, s'.txs[id], id, i, step);
      } else if i == id {
        assert Apart(s.txs[j], s.txs[i]);
        ApartFromStep(cat, s, s'.txs[id], id, j, step);
      }
    }
  }

  lemma BookingsAreTheStep(cat: Catalog, s: State, id: TxId, step: Step)
    requires Good(cat, s) && Enabled(cat, s, Run(id)) && step.Next?
    ensures s.history != [] && id in s.txs && AtStatement(s.txs[id].op, s.txs[id].pc)
    ensures Merge(s.txs[id].writes, step.writes).bookings == step.writes.bookings
  {
    hide Inv, Evolves, OnPath, Show;
    NoBookingsYet(cat, s, s.txs[id]);
    PlusEmpty(step.writes.bookings);
  }

  /** The transaction after its step is apart from another one, both ways round. */
  lemma ApartFromStep(cat: Catalog, s: State, tx': Tx, id: TxId, other: TxId, step: Step)
    requires s.history != [] && Enabled(cat, s, Run(id)) && other in s.txs && other != id
    requires step == Execute(cat, View(s, s.txs[id]), s.txs[id].op, s.txs[id].now, s.txs[id].pc) && step.Next?
    requires Apart(s.txs[id], s.txs[other]) && tx'.op == s.txs[id].op && tx'.writes.bookings == step.writes.bookings
    ensures Apart(s.txs[other], tx') && Apart(tx', s.txs[other])
  {
    assert !Waits(cat, s, id, other);
    ClashCollides(s.txs[other].writes, step.writes);
  }

  lemma ClashCollides(a: Tables, b: Tables)
    requires !Collide(a, b)
    ensures forall r :: r in b.bookings ==> !Suppressed(a.bookings, r, b.bookings[r])
    ensures forall r :: r in a.bookings ==> !Suppressed(b.bookings, r, a.bookings[r])
  {
    forall r, q | r in b.bookings && q in a.bookings
      ensures !SameUnique(q, a.bookings[q], r, b.bookings[r]) && !SameUnique(r, b.bookings[r], q, a.bookings[q])
    {
      assert !SameUnique(q, a.bookings[q], r, b.bookings[r]);
    }
  }

  lemma RunFailKeepsGood(cat: Catalog, s: State, l: Label)
    requires ValidCatalog(cat) && Good(cat, s) && l.Run? && Enabled(cat, s, l)
    requires Execute(cat, View(s, s.txs[l.id]), s.txs[l.id].op, s.txs[l.id].now, s.txs[l.id].pc).Fail?
    ensures Good(cat, Apply(cat, s, l))
  {
    hide Inv, Evolves, OnPath, Show, Body, BookingsFree;
    var tx := s.txs[l.id];
    RunStays(cat, s, tx);
    ForgetKeeps(cat, s, l.id);
    var error := Execute(cat, View(s, tx), tx.op, tx.now, tx.pc).error;
    FailureJoins(cat, s, Failure(tx.op, tx.now, error, tx.arrived, NewMark(s, tx), Latest(s)));
  }

  // ---- commit ----

  lemma CommitBody(cat: Catalog, s: State, tx: Tx)
    requires ValidCatalog(cat) && HistoryOk(cat, s.history) && TxOk(cat, s.history, tx) && tx.pc.Committing?
    ensures Body(cat, Db(s), tx.op, tx.now) == Done(tx.pc.result, tx.writes)
    ensures var after := Merge(Db(s), tx.writes); Inv(cat, after) && Evolves(Db(s), after)
    ensures OwnWrites(Db(s), tx.op, tx.st, tx.pc, tx.writes)
  {
    hide Inv, Evolves, Body, OnPath, OwnWrites, Later;
    IsLater(cat, s.history, tx);
    CommittingBody(cat, s.history[tx.mark], tx);
    BodyMoves(cat, s.history[tx.mark], Db(s), tx.op, tx.st, tx.now);
    BodyKeepsInv(cat, Db(s), tx.op, tx.now);
    CommittingBody(cat, Db(s), tx);
    PathWithin(cat, Db(s), tx.op, tx.st, tx.now, tx.pc, tx.writes);
  }

  lemma CommittingBody(cat: Catalog, m: Tables, tx: Tx)
    requires tx.pc.Committing?
    ensures OnPath(cat, m, tx.op, tx.now, tx.pc, tx.writes) <==> Body(cat, m, tx.op, tx.now) == Done(tx.pc.result, tx.writes)
  {
    hide HoldBody, ConfirmBody, ReleaseBody, SweepBody;
  }

  lemma CommitHistory(cat: Catalog, s: State, tx: Tx)
    requires ValidCatalog(cat) && HistoryOk(cat, s.history) && Serial(cat, s.history, s.commits)
    requires AllExplained(cat, s.history, s.failures)
    requires TxOk(cat, s.history, tx) && tx.pc.Committing?
    ensures var history := s.history + [Merge(Db(s), tx.writes)];
            && HistoryOk(cat, history) && AllExplained(cat, history, s.failures)
            && Serial(cat, history, s.commits + [Commit(tx.op, tx.now, tx.pc.result)])
  {
    hide Inv, OnPath, Body, Evolves;
    var after := Merge(Db(s), tx.writes);
    var history := s.history + [after];
    CommitBody(cat, s, tx);
    EvolvesToItself(after);
    forall i | 0 <= i < |history| ensures Inv(cat, history[i]) && Evolves(history[i], after) {
      if i < |s.history| {
        EvolvesTransitively(history[i], Db(s), after);
      }
    }
    forall i | 0 <= i < |s.failures| ensures Explained(cat, history, s.failures[i]) {
      assert Explained(cat, s.history, s.failures[i]);
    }
    var commits := s.commits + [Commit(tx.op, tx.now, tx.pc.result)];
    forall i | 0 <= i < |commits| ensures Committed(cat, history[i], history[i + 1], commits[i]) {
      if i < |s.commits| {
        assert Committed(cat, s.history[i], s.history[i + 1], s.commits[i]);
      }
    }
  }

  lemma EvolutionKeepsShow(db: Tables, w: Tables, st: ShowtimeId, other: ShowtimeId)
    requires Evolves(db, Merge(db, w)) && Within(w, other) && other != st
    ensures Show(Merge(db, w), st) == Show(db, st)
  {
    var after := Merge(db, w);
    assert forall t :: t in w.holds ==> after.holds[t] == w.holds[t];
    assert forall k :: k in w.occ ==> after.occ[k] == w.occ[k];
    assert forall r :: r in w.bookings ==> after.bookings[r] == w.bookings[r];
    ShowSurvives(db, w, st, other);
  }

  /** Bookings that neither the tables nor another transaction's bookings refuse are not
      refused once those are committed. */
  lemma StillFree(db: Tables, w: Tables, mine: Tables)
    requires BookingsFree(db, mine)
    requires forall r :: r in mine.bookings ==> !Suppressed(w.bookings, r, mine.bookings[r])
    ensures BookingsFree(Merge(db, w), mine)
  {
    var after := Merge(db, w);
    forall r | r in mine.bookings ensures !Suppressed(after.bookings, r, mine.bookings[r]) {
      forall q | q in after.bookings ensures !SameUnique(q, after.bookings[q], r, mine.bookings[r]) {
        if q in w.bookings {
          assert !Suppressed(w.bookings, r, mine.bookings[r]);
        } else {
          assert !Suppressed(db.bookings, r, mine.bookings[r]);
        }
      }
    }
  }

  /** A commit leaves every other transaction in flight where it was. */
  lemma CommitKeepsOther(cat: Catalog, s: State, tx: Tx, u: Tx)
    requires ValidCatalog(cat) && HistoryOk(cat, s.history)
    requires TxOk(cat, s.history, tx) && tx.pc.Committing? && TxOk(cat, s.history, u)
    requires Apart(tx, u) && (Holding(u) ==> u.st != tx.st)
    ensures TxOk(cat, s.history + [Merge(Db(s), tx.writes)], u)
  {
    hide Inv, OnPath, Show, BookingsFree, Body;
    var after := Merge(Db(s), tx.writes);
    CommitBody(cat, s, tx);
    assert u.op.Hold? ==> u.op.token !in after.holds;
    StillFree(Db(s), tx.writes, u.writes);
    if Holding(u) {
      EvolutionKeepsShow(Db(s), tx.writes, u.st, tx.st);
    }
  }

  lemma CommitKeepsGood(cat: Catalog, s: State, l: Label)
    requires ValidCatalog(cat) && Good(cat, s) && l.CommitTx? && Enabled(cat, s, l)
    ensures Good(cat, Apply(cat, s, l))
  {
    var tx := s.txs[l.id];
    var s' := Apply(cat, s, l);
    CommitHistory(cat, s, tx);
    ForgetKeeps(cat, s, l.id);
    forall id | id in s'.txs ensures TxOk(cat, s'.history, s'.txs[id]) {
      assert Apart(tx, s.txs[id]);
      CommitKeepsOther(cat, s, tx, s.txs[id]);
    }
  }

  lemma StepKeepsGood(cat: Catalog, s: State, l: Label)
    requires ValidCatalog(cat) && Good(cat, s) && Enabled(cat, s, l)
    ensures Good(cat, Apply(cat, s, l))
  {
    match l
    case Arrive(_, _) => ArriveKeepsGood(cat, s, l);
    case Begin(_, _) => BeginKeepsGood(cat, s, l);
    case Lock(_) => LockKeepsGood(cat, s, l);
    case Run(id) =>
      if Execute(cat, View(s, s.txs[id]), s.txs[id].op, s.txs[id].now, s.txs[id].pc).Next? {
        RunNextKeepsGood(cat, s, l);
      } else {
        RunFailKeepsGood(cat, s, l);
      }
    case CommitTx(_) => CommitKeepsGood(cat, s, l);
    case Abort(_) => AbortKeepsGood(cat, s, l);
  }

  lemma {:induction false} ReachIsGood(cat: Catalog, schedule: seq<Label>)
    requires ValidCatalog(cat)
    ensures Good(cat, Reach(cat, schedule))
  {
    if schedule == [] {
      InitialIsGood(cat);
    } else {
      var before, l := schedule[..|schedule| - 1], schedule[|schedule| - 1];
      ReachIsGood(cat, before);
      if Enabled(cat, Reach(cat, before), l) {
        StepKeepsGood(cat, Reach(cat, before), l);
      }
    }
  }

  /** Main theorem. Whatever the interleaving, timestamps and aborts: the committed
      states are those of the bodies run one at a time in commit order, each
      answering as it answered, and every failure answers as its body would have in
      one of the states committed during its lifetime. */
  lemma EveryRunIsSerial(cat: Catalog, schedule: seq<Label>)
    requires ValidCatalog(cat)
    ensures var s := Reach(cat, schedule);
            Serial(cat, s.history, s.commits) && AllExplained(cat, s.history, s.failures)
  {
    ReachIsGood(cat, schedule);
  }
}
