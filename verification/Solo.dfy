/** A transaction that alone has its lock, run to its end. */
module Solo {
  import opened Schema
  import opened Bodies
  import opened Invariants
  import opened Protocol
  import opened Paths
  import opened Refinement
  import opened Progress

  /** No other transaction in flight has got past its lock, so none has written. */
  ghost predicate Alone(s: State, id: TxId)
    requires s.history != []
  {
    && id in s.txs && !s.txs[id].pc.Arrived?
    && (Holding(s.txs[id]) ==> s.txs[id].mark == Latest(s))
    && forall i :: i in s.txs && i != id ==> !Holding(s.txs[i])
  }

  lemma AloneCanStep(cat: Catalog, s: State, id: TxId)
    requires ValidCatalog(cat) && Good(cat, s) && Alone(s, id)
    ensures CanStep(cat, s, id)
  {
    hide CanStep, Waits;
    if !CanStep(cat, s, id) {
      var on := StepsOrWaits(cat, s, id);
      assert false;
    }
  }

  /** A statement fails only with the error of the whole body. */
  lemma AloneFails(cat: Catalog, s: State, id: TxId)
    requires ValidCatalog(cat) && Good(cat, s) && Alone(s, id) && Own(s, id).Run? && Enabled(cat, s, Own(s, id))
    ensures var tx := s.txs[id];
            var step := Execute(cat, View(s, tx), tx.op, tx.now, tx.pc);
            step.Fail? ==> Body(cat, Db(s), tx.op, tx.now) == Failed(step.error)
  {
    hide Inv, Evolves, OnPath, Body, Execute;
    RunStays(cat, s, s.txs[id]);
  }

  /** One step of it: it is still alone, or it has ended as its body says. */
  lemma AloneStep(cat: Catalog, s: State, id: TxId)
    requires ValidCatalog(cat) && Good(cat, s) && Alone(s, id) && CanStep(cat, s, id)
    ensures var s' := Then(cat, s, id);
            && s'.history != []
            && if id in s'.txs
               then Alone(s', id) && Cost(s'.txs[id]) < Cost(s.txs[id]) && OneStepOn(s, s', id)
               else HasEnded(cat, s, s', id)
  {
    hide Body, TxsOk, Serial, AllExplained, PairsOk, LocksOk, Alone, CanStep, HasEnded, Cost;
    AloneIsPastArrival(s, id);
    OwnStepMakesProgress(cat, s, id);
    if s.txs[id].pc.Committing? {
      AloneCommits(cat, s, id);
    } else if s.txs[id].pc.Begun? {
      AloneLocks(cat, s, id);
    } else {
      AloneRuns(cat, s, id);
    }
  }

  lemma AloneIsPastArrival(s: State, id: TxId)
    requires s.history != [] && Alone(s, id)
    ensures id in s.txs && !s.txs[id].pc.Arrived?
  {}

  lemma AloneCommits(cat: Catalog, s: State, id: TxId)
    requires ValidCatalog(cat) && Good(cat, s) && Alone(s, id) && CanStep(cat, s, id) && s.txs[id].pc.Committing?
    ensures id !in Then(cat, s, id).txs && HasEnded(cat, s, Then(cat, s, id), id)
  {
    hide Body;
    CommitBody(cat, s, s.txs[id]);
  }

  ghost predicate OneStepOn(s: State, s': State, id: TxId)
    requires s.history != [] && id in s.txs
  {
    && s'.history == s.history && id in s'.txs && Alone(s', id)
    && s' == s.(txs := s'.txs, locks := s'.locks) && s'.txs - {id} == s.txs - {id}
    && s'.txs[id].op == s.txs[id].op && s'.txs[id].now == s.txs[id].now && s'.txs[id].arrived == s.txs[id].arrived
  }

  lemma AloneLocks(cat: Catalog, s: State, id: TxId)
    requires s.history != [] && Alone(s, id) && CanStep(cat, s, id) && s.txs[id].pc.Begun?
    ensures OneStepOn(s, Then(cat, s, id), id)
  {}

  lemma AloneRuns(cat: Catalog, s: State, id: TxId)
    requires ValidCatalog(cat) && Good(cat, s) && Alone(s, id) && CanStep(cat, s, id) && Own(s, id).Run?
    ensures var s' := Then(cat, s, id);
            if id in s'.txs then OneStepOn(s, s', id) else HasEnded(cat, s, s', id)
  {
    hide Body, Serial, AllExplained, PairsOk, LocksOk, Inv, Evolves, OnPath, Show, LocksShowtime;
    AloneFails(cat, s, id);
    StillHolding(cat, s, id);
  }

  /** A statement leads to a statement, or to the commit. */
  lemma StillHolding(cat: Catalog, s: State, id: TxId)
    requires ValidCatalog(cat) && Good(cat, s) && CanStep(cat, s, id) && Own(s, id).Run? && Holding(s.txs[id])
    ensures var tx := s.txs[id];
            AtStatement(tx.op, tx.pc) && var step := Execute(cat, View(s, tx), tx.op, tx.now, tx.pc);
            step.Next? ==> Holding(tx.(pc := step.pc))
  {
    hide Inv, OnPath, Execute, Show;
    RunsAStatement(cat, s, id);
    var tx := s.txs[id];
    if Execute(cat, View(s, tx), tx.op, tx.now, tx.pc).Next? {
      RunTxOk(cat, s, tx, Execute(cat, View(s, tx), tx.op, tx.now, tx.pc));
    }
  }

  /** `s'` is `s` with the transaction gone, and with it what its body, run alone, comes to:
      its writes and result committed, or its error recorded. */
  ghost predicate HasEnded(cat: Catalog, s: State, s': State, id: TxId)
    requires s.history != [] && id in s.txs
  {
    var tx := s.txs[id];
    match Body(cat, Db(s), tx.op, tx.now)
    case Done(result, writes) =>
      s' == s.(txs := s.txs - {id}, locks := s'.locks, history := s.history + [Merge(Db(s), writes)],
               commits := s.commits + [Commit(tx.op, tx.now, result)])
    case Failed(error) =>
      s' == s.(txs := s.txs - {id}, locks := s'.locks,
               failures := s.failures + [Failure(tx.op, tx.now, error, tx.arrived, Latest(s), Latest(s))])
  }

  /** Left to itself, it comes to exactly what its body, run alone, comes to. */
  lemma {:induction false} RunsToItsEnd(cat: Catalog, schedule: seq<Label>, id: TxId) returns (more: seq<Label>)
    requires ValidCatalog(cat) && Alone(Reach(cat, schedule), id)
    ensures HasEnded(cat, Reach(cat, schedule), Reach(cat, schedule + more), id)
    decreases Cost(Reach(cat, schedule).txs[id])
  {
    hide Good, CanStep, Cost, Apply, Enabled, Body, Waits, Reach;
    var s := Reach(cat, schedule);
    ReachIsGood(cat, schedule);
    AloneCanStep(cat, s, id);
    ReachThenStep(cat, schedule, id);
    AloneStep(cat, s, id);
    var next := schedule + [Own(s, id)];
    var s' := Reach(cat, next);
    if id in s'.txs {
      var rest := RunsToItsEnd(cat, next, id);
      more := [Own(s, id)] + rest;
      assert schedule + more == next + rest;
      assert s'.txs - {id} == s.txs - {id};
    } else {
      more := [Own(s, id)];
    }
  }

  /** A request arrives and begins. */
  lemma Starts(cat: Catalog, schedule: seq<Label>, id: TxId, op: Op, now: Time)
    requires Enabled(cat, Reach(cat, schedule), Arrive(id, op))
    requires op.Confirm? || op.Release? ==> op.token in Db(Reach(cat, schedule)).holds
    ensures var s, s' := Reach(cat, schedule), Reach(cat, schedule + [Arrive(id, op), Begin(id, now)]);
            && s' == s.(txs := s'.txs) && s'.txs.Keys == s.txs.Keys + {id}
            && (forall i :: i in s.txs ==> s'.txs[i] == s.txs[i])
            && s'.txs[id].op == op && s'.txs[id].now == now && s'.txs[id].pc.Begun?
  {
    hide Enabled, Apply;
    var s := Reach(cat, schedule);
    var first, both := schedule + [Arrive(id, op)], schedule + [Arrive(id, op), Begin(id, now)];
    Arrives(cat, s, id, op);
    assert first[..|first| - 1] == schedule;
    assert both[..|both| - 1] == first && both[|both| - 1] == Begin(id, now);
    Begins(cat, Reach(cat, first), id, now);
  }

  lemma Arrives(cat: Catalog, s: State, id: TxId, op: Op)
    requires s.history != [] && Enabled(cat, s, Arrive(id, op))
    requires op.Confirm? || op.Release? ==> op.token in Db(s).holds
    ensures var s' := Apply(cat, s, Arrive(id, op));
            && s' == s.(txs := s'.txs) && s'.txs.Keys == s.txs.Keys + {id}
            && (forall i :: i in s.txs ==> i != id && s'.txs[i] == s.txs[i])
            && s'.txs[id].op == op && s'.txs[id].pc.Arrived?
  {}

  lemma Begins(cat: Catalog, s: State, id: TxId, now: Time)
    requires s.history != [] && id in s.txs && s.txs[id].pc.Arrived?
    ensures Enabled(cat, s, Begin(id, now))
    ensures Apply(cat, s, Begin(id, now)) == s.(txs := s.txs[id := s.txs[id].(now := now, pc := Begun)])
  {}
}
