/** Runs of the protocol and runs of the bodies, one at a time, are the same thing; so
    the sweeper can be dropped from the protocol as well. */
module SweepFree {
  import opened Schema
  import opened Bodies
  import opened Invariants
  import opened Protocol
  import opened Refinement
  import opened Solo
  import opened SeatMaps
  import opened Sweeper
  import opened SweepEffects

  /** Every call gets done, each in the tables the ones before it left. */
  ghost predicate AllDone(cat: Catalog, db: Tables, calls: seq<Call>)
    decreases |calls|
  {
    calls == [] || (Body(cat, db, calls[0].op, calls[0].now).Done? && AllDone(cat, Sweeper.Step(cat, db, calls[0]), calls[1..]))
  }

  ghost function CommitsOf(cat: Catalog, db: Tables, calls: seq<Call>): seq<Commit>
    requires AllDone(cat, db, calls)
    decreases |calls|
  {
    if calls == [] then []
    else [Commit(calls[0].op, calls[0].now, Body(cat, db, calls[0].op, calls[0].now).result)]
         + CommitsOf(cat, Sweeper.Step(cat, db, calls[0]), calls[1..])
  }

  function CallsOf(commits: seq<Commit>): seq<Call> {
    if commits == [] then [] else [Call(commits[0].op, commits[0].now)] + CallsOf(commits[1..])
  }

  /** From a quiet state, one call more is committed by some schedule. */
  lemma OneMore(cat: Catalog, schedule: seq<Label>, c: Call) returns (more: seq<Label>)
    requires ValidCatalog(cat) && Reach(cat, schedule).txs == map[] && ValidOp(c.op)
    requires Body(cat, Db(Reach(cat, schedule)), c.op, c.now).Done?
    ensures var s, s' := Reach(cat, schedule), Reach(cat, schedule + more);
            var o := Body(cat, Db(s), c.op, c.now);
            && s'.txs == map[] && Db(s') == Merge(Db(s), o.writes)
            && s'.commits == s.commits + [Commit(c.op, c.now, o.result)]
  {
    hide Body, Enabled, ValidOp, Apply, Reach, HasEnded, Merge;
    var s := Reach(cat, schedule);
    NeedsItsHold(cat, Db(s), c.op, c.now);
    Opens(cat, s, c.op);
    var begun := schedule + [Arrive(0, c.op), Begin(0, c.now)];
    Starts(cat, schedule, 0, c.op, c.now);
    var rest := RunsToItsEnd(cat, begun, 0);
    more := [Arrive(0, c.op), Begin(0, c.now)] + rest;
    assert schedule + more == begun + rest;
    QuietAgain(cat, s, Reach(cat, begun), Reach(cat, schedule + more), c);
  }

  lemma QuietAgain(cat: Catalog, s: State, begun: State, s': State, c: Call)
    requires s.history != [] && s.txs == map[] && begun == s.(txs := begun.txs) && begun.txs.Keys == {0}
    requires begun.txs[0].op == c.op && begun.txs[0].now == c.now && HasEnded(cat, begun, s', 0) && Body(cat, Db(s), c.op, c.now).Done?
    ensures var o := Body(cat, Db(s), c.op, c.now);
            && s'.history != [] && s'.txs == map[] && Db(s') == Merge(Db(s), o.writes)
            && s'.commits == s.commits + [Commit(c.op, c.now, o.result)]
  {
    hide Body;
  }

  lemma NeedsItsHold(cat: Catalog, db: Tables, op: Op, now: Time)
    requires Body(cat, db, op, now).Done?
    ensures op.Confirm? || op.Release? ==> op.token in db.holds
    ensures op.Hold? ==> op.token !in db.holds
  {}

  lemma Opens(cat: Catalog, s: State, op: Op)
    requires s.history != [] && s.txs == map[] && ValidOp(op) && (op.Hold? ==> op.token !in Db(s).holds)
    ensures Enabled(cat, s, Arrive(0, op))
  {}

  /** The converse of the main theorem: every sequence of operations that get done, run
      one at a time, at any timestamps, is what some schedule commits. */
  lemma {:induction false} SerialRunsAreReachable(cat: Catalog, schedule: seq<Label>, calls: seq<Call>)
    returns (more: seq<Label>)
    requires ValidCatalog(cat) && Reach(cat, schedule).txs == map[]
    requires ValidCalls(calls) && AllDone(cat, Db(Reach(cat, schedule)), calls)
    ensures var s, s' := Reach(cat, schedule), Reach(cat, schedule + more);
            && s'.txs == map[] && Db(s') == RunAll(cat, Db(s), calls)
            && s'.commits == s.commits + CommitsOf(cat, Db(s), calls)
    decreases |calls|
  {
    hide Body, Reach, Apply, Enabled, Merge, ValidOp;
    if calls == [] {
      more := [];
      assert schedule + more == schedule;
    } else {
      var first := OneMore(cat, schedule, calls[0]);
      var rest := SerialRunsAreReachable(cat, schedule + first, calls[1..]);
      more := first + rest;
      assert schedule + more == schedule + first + rest;
    }
  }

  /** A run's commits, replayed one at a time, all get done and give back its tables. */
  lemma {:induction false} CommitsReplay(cat: Catalog, history: seq<Tables>, commits: seq<Commit>, i: nat)
    requires Serial(cat, history, commits) && i <= |commits|
    ensures var calls := CallsOf(commits[i..]);
            && ValidCalls(calls) && AllDone(cat, history[i], calls)
            && RunAll(cat, history[i], calls) == history[|commits|]
            && CommitsOf(cat, history[i], calls) == commits[i..]
    decreases |commits| - i
  {
    hide Body;
    if i < |commits| {
      CommitsReplay(cat, history, commits, i + 1);
      assert Committed(cat, history[i], history[i + 1], commits[i]);
      assert commits[i..][1..] == commits[i + 1..];
      assert commits[i..] == [commits[i]] + commits[i + 1..];
    }
  }

  function Kept(commits: seq<Commit>): seq<Commit> {
    if commits == [] then []
    else (if commits[0].op.Sweep? then [] else [commits[0]]) + Kept(commits[1..])
  }

  lemma {:induction false} KeptCalls(commits: seq<Commit>)
    ensures CallsOf(Kept(commits)) == WithoutSweeps(CallsOf(commits))
  {
    if commits != [] {
      KeptCalls(commits[1..]);
      if commits[0].op.Sweep? {
        assert Kept(commits) == Kept(commits[1..]);
      } else {
        assert Kept(commits) == [commits[0]] + Kept(commits[1..]);
      }
      assert CallsOf(commits)[1..] == CallsOf(commits[1..]);
    }
  }

  lemma {:induction false} KeptCallsAreValid(calls: seq<Call>)
    requires ValidCalls(calls)
    ensures ValidCalls(WithoutSweeps(calls))
  {
    if calls != [] {
      KeptCallsAreValid(calls[1..]);
    }
  }

  /** When every call gets done, the answers are the commits' results. */
  lemma {:induction false} AnswersAreCommits(cat: Catalog, a: Tables, b: Tables, calls: seq<Call>)
    requires AllDone(cat, a, calls)
    ensures Answers(cat, a, calls) == Answers(cat, b, WithoutSweeps(calls)) <==>
            && AllDone(cat, b, WithoutSweeps(calls))
            && CommitsOf(cat, b, WithoutSweeps(calls)) == Kept(CommitsOf(cat, a, calls))
    decreases |calls|
  {
    hide Body;
    if calls != [] {
      var c, rest := calls[0], calls[1..];
      var a' := Sweeper.Step(cat, a, c);
      assert CommitsOf(cat, a, calls)[1..] == CommitsOf(cat, a', rest);
      if c.op.Sweep? {
        AnswersAreCommits(cat, a', b, rest);
        assert WithoutSweeps(calls) == WithoutSweeps(rest);
      } else {
        var b' := Sweeper.Step(cat, b, c);
        AnswersAreCommits(cat, a', b', rest);
        FirstAnswers(cat, a, b, calls);
      }
    }
  }

  /** The first call's part of it. */
  lemma FirstAnswers(cat: Catalog, a: Tables, b: Tables, calls: seq<Call>)
    requires calls != [] && !calls[0].op.Sweep? && AllDone(cat, a, calls)
    ensures var c, rest := calls[0], calls[1..];
            var oa, ob := Body(cat, a, c.op, c.now), Body(cat, b, c.op, c.now);
            var a', b' := Sweeper.Step(cat, a, c), Sweeper.Step(cat, b, c);
            var bare := WithoutSweeps(calls);
            && bare == [c] + WithoutSweeps(rest)
            && (Answers(cat, a, calls) == Answers(cat, b, bare) <==>
                AnswerOf(oa) == AnswerOf(ob) && Answers(cat, a', rest) == Answers(cat, b', WithoutSweeps(rest)))
            && (AllDone(cat, b, bare) <==> ob.Done? && AllDone(cat, b', WithoutSweeps(rest)))
            && (AllDone(cat, b, bare) ==>
                  (CommitsOf(cat, b, bare) == Kept(CommitsOf(cat, a, calls)) <==>
                   oa.result == ob.result && CommitsOf(cat, b', WithoutSweeps(rest)) == Kept(CommitsOf(cat, a', rest))))
  {
    hide Body;
    var c, rest := calls[0], calls[1..];
    var bare := WithoutSweeps(calls);
    var a', b' := Sweeper.Step(cat, a, c), Sweeper.Step(cat, b, c);
    assert bare[0] == c && bare[1..] == WithoutSweeps(rest);
    var x, y := Answers(cat, a, calls), Answers(cat, b, bare);
    assert x[1..] == Answers(cat, a', rest) && y[1..] == Answers(cat, b', WithoutSweeps(rest));
    assert x == [x[0]] + x[1..] && y == [y[0]] + y[1..];
    if AllDone(cat, b, bare) {
      var u, v := CommitsOf(cat, a, calls), CommitsOf(cat, b, bare);
      assert u[1..] == CommitsOf(cat, a', rest) && v[1..] == CommitsOf(cat, b', WithoutSweeps(rest));
      assert Kept(u) == [u[0]] + Kept(u[1..]) && v == [v[0]] + v[1..];
      assert Kept(u)[0] == u[0] && Kept(u)[1..] == Kept(u[1..]);
    }
  }

  /** A run's commits as calls: they replay it, from nothing to its tables. */
  lemma RunOfCommits(cat: Catalog, schedule: seq<Label>, n: nat) returns (calls: seq<Call>)
    requires ValidCatalog(cat) && n <= |Reach(cat, schedule).commits|
    ensures var s := Reach(cat, schedule);
            && |s.history| == |s.commits| + 1
            && calls == CallsOf(s.commits[..n]) && ValidCalls(calls) && AllDone(cat, NOTHING, calls)
            && RunAll(cat, NOTHING, calls) == s.history[n] && CommitsOf(cat, NOTHING, calls) == s.commits[..n]
  {
    hide Reach, Committed;
    var s := Reach(cat, schedule);
    EveryRunIsSerial(cat, schedule);
    assert Serial(cat, s.history[..n + 1], s.commits[..n]) by {
      forall i | 0 <= i < n
        ensures Committed(cat, s.history[..n + 1][i], s.history[..n + 1][i + 1], s.commits[..n][i])
      {
        assert Committed(cat, s.history[i], s.history[i + 1], s.commits[i]);
      }
    }
    CommitsReplay(cat, s.history[..n + 1], s.commits[..n], 0);
    assert s.commits[..n][0..] == s.commits[..n];
    calls := CallsOf(s.commits[..n]);
  }

  ghost predicate DropsSweeps(cat: Catalog, schedule: seq<Label>, bare: seq<Label>) {
    Reach(cat, bare).commits == Kept(Reach(cat, schedule).commits)
  }

  /** Exactly when a schedule can do without its sweeps, at any timestamps: some schedule
      commits all its other operations with the same results, and none of its sweeps, if
      and only if none of them noticed a sweep. */
  lemma SweepsCanBeDroppedIff(cat: Catalog, schedule: seq<Label>)
    requires ValidCatalog(cat)
    ensures (exists bare :: DropsSweeps(cat, schedule, bare))
            <==> NoneNotice(cat, NOTHING, NOTHING, CallsOf(Reach(cat, schedule).commits))
  {
    hide Reach, NoneNotice;
    var s := Reach(cat, schedule);
    var calls := RunOfCommits(cat, schedule, |s.commits|);
    assert s.commits[..|s.commits|] == s.commits;
    SweepsMatterIff(cat, calls);
    AnswersAreCommits(cat, NOTHING, NOTHING, calls);
    KeptCalls(s.commits);
    if NoneNotice(cat, NOTHING, NOTHING, calls) {
      var bare := BareSchedule(cat, calls);
      assert DropsSweeps(cat, schedule, bare);
    }
    if bare :| DropsSweeps(cat, schedule, bare) {
      var s' := Reach(cat, bare);
      var kept := RunOfCommits(cat, bare, |s'.commits|);
      assert s'.commits[..|s'.commits|] == s'.commits;
    }
  }

  lemma BareSchedule(cat: Catalog, calls: seq<Call>) returns (bare: seq<Label>)
    requires ValidCatalog(cat) && ValidCalls(calls) && AllDone(cat, NOTHING, WithoutSweeps(calls))
    ensures Reach(cat, bare).commits == CommitsOf(cat, NOTHING, WithoutSweeps(calls))
    ensures Db(Reach(cat, bare)) == RunAll(cat, NOTHING, WithoutSweeps(calls))
  {
    KeptCallsAreValid(calls);
    bare := SerialRunsAreReachable(cat, [], WithoutSweeps(calls));
    assert [] + bare == bare;
  }

  // ---- failures ----

  lemma {:induction false} RunAllSnoc(cat: Catalog, db: Tables, calls: seq<Call>, c: Call)
    ensures RunAll(cat, db, calls + [c]) == Sweeper.Step(cat, RunAll(cat, db, calls), c)
    decreases |calls|
  {
    hide Body;
    if calls != [] {
      RunAllSnoc(cat, Sweeper.Step(cat, db, calls[0]), calls[1..], c);
      assert (calls + [c])[1..] == calls[1..] + [c];
    }
  }

  lemma {:induction false} NoneNoticeSnoc(cat: Catalog, a: Tables, b: Tables, calls: seq<Call>, c: Call)
    ensures NoneNotice(cat, a, b, calls + [c]) <==>
            && NoneNotice(cat, a, b, calls)
            && (c.op.Sweep? || !Notices(cat, RunAll(cat, a, calls), RunAll(cat, b, WithoutSweeps(calls)), c))
    decreases |calls|
  {
    hide Body, Notices;
    if calls != [] {
      var rest := calls[1..];
      assert (calls + [c])[1..] == rest + [c];
      if calls[0].op.Sweep? {
        NoneNoticeSnoc(cat, Sweeper.Step(cat, a, calls[0]), b, rest, c);
        assert WithoutSweeps(calls) == WithoutSweeps(rest);
      } else {
        NoneNoticeSnoc(cat, Sweeper.Step(cat, a, calls[0]), Sweeper.Step(cat, b, calls[0]), rest, c);
        assert WithoutSweeps(calls)[0] == calls[0] && WithoutSweeps(calls)[1..] == WithoutSweeps(rest);
      }
    }
  }

  lemma {:induction false} StaysBehind(cat: Catalog, a: Tables, b: Tables, calls: seq<Call>)
    requires ValidCatalog(cat) && Inv(cat, a) && Inv(cat, b) && Behind(a, b) && ValidCalls(calls)
    requires NoneNotice(cat, a, b, calls)
    ensures Behind(RunAll(cat, a, calls), RunAll(cat, b, WithoutSweeps(calls)))
    ensures Inv(cat, RunAll(cat, a, calls)) && Inv(cat, RunAll(cat, b, WithoutSweeps(calls)))
    decreases |calls|
  {
    hide Inv, Behind, Body, Notices;
    if calls != [] {
      var c, rest := calls[0], calls[1..];
      BodyKeepsInv(cat, a, c.op, c.now);
      BodyKeepsInv(cat, b, c.op, c.now);
      if c.op.Sweep? {
        SweepStepBehind(cat, a, b, c);
        StaysBehind(cat, Sweeper.Step(cat, a, c), b, rest);
        assert WithoutSweeps(calls) == WithoutSweeps(rest);
      } else {
        AnswersAgreeIff(cat, a, b, c);
        StaysBehind(cat, Sweeper.Step(cat, a, c), Sweeper.Step(cat, b, c), rest);
        assert WithoutSweeps(calls)[0] == c && WithoutSweeps(calls)[1..] == WithoutSweeps(rest);
      }
    }
  }

  lemma {:induction false} NoneNoticePrefix(cat: Catalog, a: Tables, b: Tables, calls: seq<Call>, n: nat)
    requires n <= |calls| && NoneNotice(cat, a, b, calls)
    ensures NoneNotice(cat, a, b, calls[..n])
    decreases |calls|
  {
    hide NoneNotice;
    if n < |calls| {
      var front, last := calls[..|calls| - 1], calls[|calls| - 1];
      assert calls == front + [last];
      NoneNoticeSnoc(cat, a, b, front, last);
      NoneNoticePrefix(cat, a, b, front, n);
      assert front[..n] == calls[..n];
    } else {
      assert calls[..n] == calls;
    }
  }

  lemma {:induction false} CallsOfPrefix(commits: seq<Commit>, n: nat)
    requires n <= |commits|
    ensures |CallsOf(commits)| == |commits| && CallsOf(commits[..n]) == CallsOf(commits)[..n]
  {
    if n == 0 || commits == [] {
      assert commits[..n] == [];
      if commits != [] { CallsOfPrefix(commits[1..], 0); }
    } else {
      CallsOfPrefix(commits[1..], n - 1);
      assert commits[..n][1..] == commits[1..][..n - 1];
      assert CallsOf(commits)[..n] == [CallsOf(commits)[0]] + CallsOf(commits[1..])[..n - 1];
    }
  }

  lemma {:induction false} KeptPrefix(commits: seq<Commit>, n: nat)
    requires n <= |commits|
    ensures var m := |Kept(commits[..n])|;
            m <= |Kept(commits)| && Kept(commits)[..m] == Kept(commits[..n])
  {
    if n == 0 {
      assert commits[..n] == [];
    } else {
      KeptPrefix(commits[1..], n - 1);
      assert commits[..n][1..] == commits[1..][..n - 1];
      var first := if commits[0].op.Sweep? then [] else [commits[0]];
      assert Kept(commits) == first + Kept(commits[1..]);
      assert Kept(commits[..n]) == first + Kept(commits[1..][..n - 1]);
    }
  }

  /** The state of the sweep-free schedule that goes with state `n` of the other. */
  function Match(commits: seq<Commit>, n: nat): nat
    requires n <= |commits|
  {
    |Kept(commits[..n])|
  }

  lemma MatchingStates(cat: Catalog, schedule: seq<Label>, bare: seq<Label>, n: nat)
    requires ValidCatalog(cat) && DropsSweeps(cat, schedule, bare) && n <= |Reach(cat, schedule).commits|
    ensures var s, s' := Reach(cat, schedule), Reach(cat, bare);
            var m := Match(s.commits, n);
            && n < |s.history| && m < |s'.history|
            && NoneNotice(cat, NOTHING, NOTHING, CallsOf(s.commits[..n]))
            && s.history[n] == RunAll(cat, NOTHING, CallsOf(s.commits[..n]))
            && s'.history[m] == RunAll(cat, NOTHING, WithoutSweeps(CallsOf(s.commits[..n])))
            && Behind(s.history[n], s'.history[m]) && Inv(cat, s.history[n]) && Inv(cat, s'.history[m])
  {
    hide Reach, Inv, Behind, NoneNotice;
    var s, s' := Reach(cat, schedule), Reach(cat, bare);
    var calls := RunOfCommits(cat, schedule, n);
    SweepsCanBeDroppedIff(cat, schedule);
    CallsOfPrefix(s.commits, n);
    NoneNoticePrefix(cat, NOTHING, NOTHING, CallsOf(s.commits), n);
    KeptPrefix(s.commits, n);
    KeptCalls(s.commits[..n]);
    var kept := RunOfCommits(cat, bare, Match(s.commits, n));
    EmptyIsInv(cat);
    BehindItself(NOTHING);
    StaysBehind(cat, NOTHING, NOTHING, calls);
  }

  /** A failure of the schedule is answered alike in the sweep-free one, in the state that
      goes with the one that explains it, exactly if it did not notice the sweeps. */
  lemma FailureCarriesOverIff(cat: Catalog, schedule: seq<Label>, bare: seq<Label>, i: nat)
    requires ValidCatalog(cat) && DropsSweeps(cat, schedule, bare) && i < |Reach(cat, schedule).failures|
    ensures var s, s' := Reach(cat, schedule), Reach(cat, bare);
            var f := s.failures[i];
            && f.at <= |s.commits| && f.at < |s.history| && Match(s.commits, f.at) < |s'.history|
            && var db, db' := s.history[f.at], s'.history[Match(s.commits, f.at)];
            (Body(cat, db', f.op, f.now) == Failed(f.error) <==> !Notices(cat, db, db', Call(f.op, f.now)))
  {
    hide Reach, Inv, Behind, Body, Notices, NoneNotice;
    var s := Reach(cat, schedule);
    var f := s.failures[i];
    EveryRunIsSerial(cat, schedule);
    assert Explained(cat, s.history, f);
    MatchingStates(cat, schedule, bare, f.at);
    var db, db' := s.history[f.at], Reach(cat, bare).history[Match(s.commits, f.at)];
    SweepsSucceed(cat, db, f.op, f.now);
    AnswersAgreeIff(cat, db, db', Call(f.op, f.now));
  }

  lemma SweepsSucceed(cat: Catalog, db: Tables, op: Op, now: Time)
    ensures op.Sweep? ==> Body(cat, db, op, now).Done?
  {}

  // ---- with clocks that follow the locks ----

  lemma {:induction false} InOrderSnoc(cat: Catalog, db: Tables, calls: seq<Call>, clocks: Clocks, c: Call)
    ensures InOrder(cat, db, calls + [c], clocks) <==>
            && InOrder(cat, db, calls, clocks)
            && OnTime(ClocksAfter(cat, db, calls, clocks), RunAll(cat, db, calls), c)
    decreases |calls|
  {
    hide Body, OnTime, Advance;
    if calls != [] {
      var rest := calls[1..];
      assert (calls + [c])[1..] == rest + [c];
      InOrderSnoc(cat, Sweeper.Step(cat, db, calls[0]), rest, Advance(clocks, db, calls[0]), c);
    } else {
      assert (calls + [c])[1..] == [];
    }
  }

  lemma {:induction false} InOrderPrefix(cat: Catalog, db: Tables, calls: seq<Call>, clocks: Clocks, n: nat)
    requires n <= |calls| && InOrder(cat, db, calls, clocks)
    ensures InOrder(cat, db, calls[..n], clocks)
    decreases |calls|
  {
    hide InOrder;
    if n < |calls| {
      var front, last := calls[..|calls| - 1], calls[|calls| - 1];
      assert calls == front + [last];
      InOrderSnoc(cat, db, front, clocks, last);
      InOrderPrefix(cat, db, front, clocks, n);
      assert front[..n] == calls[..n];
    } else {
      assert calls[..n] == calls;
    }
  }

  /** In clock order nobody notices a sweep. */
  lemma InOrderNoneNotice(cat: Catalog, calls: seq<Call>)
    requires ValidCatalog(cat) && ValidCalls(calls) && InOrder(cat, NOTHING, calls, map[])
    ensures NoneNotice(cat, NOTHING, NOTHING, calls)
  {
    hide Inv, Alike, NoneNotice;
    EmptyIsInv(cat);
    AlikeToItself(NOTHING);
    SweepsChangeNothing(cat, NOTHING, NOTHING, calls, map[]);
    SweepsMatterIff(cat, calls);
  }

  /** For every schedule whose commits' timestamps follow its locks there is one without a
      single sweep that commits the same other operations with the same results, answers
      alike every failure whose timestamp is not before its showtime's clock, and leaves
      the same holds, the same bookings and, from then on, the same seat maps. */
  lemma SweepsCanBeDropped(cat: Catalog, schedule: seq<Label>) returns (bare: seq<Label>)
    requires ValidCatalog(cat) && InOrder(cat, NOTHING, CallsOf(Reach(cat, schedule).commits), map[])
    ensures DropsSweeps(cat, schedule, bare)
    ensures var s, s' := Reach(cat, schedule), Reach(cat, bare);
            && Db(s').holds == Db(s).holds && Db(s').bookings == Db(s).bookings
            && forall st, now :: NotBefore(ClocksAfter(cat, NOTHING, CallsOf(s.commits), map[]), st, now)
                 ==> GetSeatMap(cat, Db(s'), st, now) == GetSeatMap(cat, Db(s), st, now)
    ensures var s, s' := Reach(cat, schedule), Reach(cat, bare);
            forall i :: 0 <= i < |s.failures| ==>
              var f := s.failures[i];
              && f.at <= |s.commits| && f.at < |s.history| && Match(s.commits, f.at) < |s'.history|
              && (OnTime(ClocksAfter(cat, NOTHING, CallsOf(s.commits[..f.at]), map[]), s.history[f.at], Call(f.op, f.now)) ==>
                    Body(cat, s'.history[Match(s.commits, f.at)], f.op, f.now) == Failed(f.error))
  {
    hide Reach, Inv, Body, OccAlike, GetSeatMap, NotBefore, NoneNotice, InOrder, OnTime;
    var s := Reach(cat, schedule);
    var calls := RunOfCommits(cat, schedule, |s.commits|);
    assert s.commits[..|s.commits|] == s.commits;
    EmptyIsInv(cat);
    AlikeToItself(NOTHING);
    SweepsChangeNothing(cat, NOTHING, NOTHING, calls, map[]);
    AnswersAreCommits(cat, NOTHING, NOTHING, calls);
    bare := BareSchedule(cat, calls);
    forall st, now | NotBefore(ClocksAfter(cat, NOTHING, calls, map[]), st, now)
      ensures GetSeatMap(cat, Db(Reach(cat, bare)), st, now) == GetSeatMap(cat, Db(s), st, now)
    {
      SameMap(cat, Db(s), Db(Reach(cat, bare)), ClocksAfter(cat, NOTHING, calls, map[]), st, now);
    }
    forall i | 0 <= i < |s.failures|
      ensures var f := s.failures[i];
              && f.at <= |s.commits| && f.at < |s.history| && Match(s.commits, f.at) < |Reach(cat, bare).history|
              && (OnTime(ClocksAfter(cat, NOTHING, CallsOf(s.commits[..f.at]), map[]), s.history[f.at], Call(f.op, f.now)) ==>
                    Body(cat, Reach(cat, bare).history[Match(s.commits, f.at)], f.op, f.now) == Failed(f.error))
    {
      FailureOnTime(cat, schedule, bare, i);
    }
  }

  lemma FailureOnTime(cat: Catalog, schedule: seq<Label>, bare: seq<Label>, i: nat)
    requires ValidCatalog(cat) && InOrder(cat, NOTHING, CallsOf(Reach(cat, schedule).commits), map[])
    requires DropsSweeps(cat, schedule, bare) && i < |Reach(cat, schedule).failures|
    ensures var s, s' := Reach(cat, schedule), Reach(cat, bare);
            var f := s.failures[i];
            && f.at <= |s.commits| && f.at < |s.history| && Match(s.commits, f.at) < |s'.history|
            && (OnTime(ClocksAfter(cat, NOTHING, CallsOf(s.commits[..f.at]), map[]), s.history[f.at], Call(f.op, f.now)) ==>
                  Body(cat, s'.history[Match(s.commits, f.at)], f.op, f.now) == Failed(f.error))
  {
    hide Reach, Inv, Body, Notices, NoneNotice, InOrder, OnTime, Behind;
    var s := Reach(cat, schedule);
    var f := s.failures[i];
    FailureCarriesOverIff(cat, schedule, bare, i);
    MatchingStates(cat, schedule, bare, f.at);
    var calls, c := CallsOf(s.commits[..f.at]), Call(f.op, f.now);
    if OnTime(ClocksAfter(cat, NOTHING, calls, map[]), s.history[f.at], c) {
      EveryRunIsSerial(cat, schedule);
      assert Explained(cat, s.history, f);
      var _ := RunOfCommits(cat, schedule, f.at);
      CallsOfPrefix(s.commits, f.at);
      InOrderPrefix(cat, NOTHING, CallsOf(s.commits), map[], f.at);
      InOrderSnoc(cat, NOTHING, calls, map[], c);
      InOrderNoneNotice(cat, calls + [c]);
      NoneNoticeSnoc(cat, NOTHING, NOTHING, calls, c);
      SweepsSucceed(cat, s.history[f.at], f.op, f.now);
    }
  }
}
