/** What one run of the sweeper does, showtime by showtime, and that enough runs drain
    everything that has lapsed. */
module Sweeps {
  import opened Schema
  import opened Statements

  /** How the transaction of one showtime goes. A commit that is `CommitLost` took effect
      and reported an error. */
  datatype Attempt = Commits | LockTimesOut | LockFails | CommitTimesOut | CommitFails | CommitLost

  /** The timestamp of each showtime's transaction. */
  type Clock = ShowtimeId -> Time

  datatype SweepRun = SweepRun(occ: map<OccKey, OccRow>, reclaimed: nat, failed: bool)

  ghost function ExpiredShowtimes(occ: map<OccKey, OccRow>, now: Time): set<ShowtimeId> {
    set k | k in occ && Lapsed(occ[k], now) :: occ[k].showtime
  }

  ghost function First(ids: seq<ShowtimeId>, limit: nat): seq<ShowtimeId> {
    if limit < |ids| then ids[..limit] else ids
  }

  ghost function ListShowtimesWithExpiredSeats(occ: map<OccKey, OccRow>, limit: nat, now: Time): seq<ShowtimeId> {
    First(Sorted(ExpiredShowtimes(occ, now)), limit)
  }

  /** A busy showtime is passed over; any other error ends the run. The count is taken
      inside the transaction, before it is known to commit. */
  ghost function SweepOver(occ: map<OccKey, OccRow>, ids: seq<ShowtimeId>, attempt: ShowtimeId -> Attempt, clock: Clock)
    : SweepRun
    decreases |ids|
  {
    if ids == [] then SweepRun(occ, 0, false)
    else
      var rows := ReclaimExpiredSeatsForShowtime(occ, ids[0], clock(ids[0]));
      match attempt(ids[0])
      case LockTimesOut => SweepOver(occ, ids[1..], attempt, clock)
      case LockFails => SweepRun(occ, 0, true)
      case CommitFails => SweepRun(occ, |rows|, true)
      case CommitLost => SweepRun(occ + rows, |rows|, true)
      case CommitTimesOut =>
        var rest := SweepOver(occ, ids[1..], attempt, clock);
        rest.(reclaimed := |rows| + rest.reclaimed)
      case Commits =>
        var rest := SweepOver(occ + rows, ids[1..], attempt, clock);
        rest.(reclaimed := |rows| + rest.reclaimed)
  }

  // ---- what a run releases ----

  ghost function LapsedIn(occ: map<OccKey, OccRow>, ids: set<ShowtimeId>, clock: Clock): set<OccKey> {
    set k | k in occ && occ[k].showtime in ids && Lapsed(occ[k], clock(occ[k].showtime))
  }

  /** The showtimes a run gets to and whose transaction goes as `how`. */
  ghost function Reached(ids: seq<ShowtimeId>, attempt: ShowtimeId -> Attempt, how: set<Attempt>): set<ShowtimeId>
    decreases |ids|
  {
    if ids == [] then {}
    else
      (if attempt(ids[0]) in how then {ids[0]} else {})
      + (if attempt(ids[0]) in ENDING then {} else Reached(ids[1..], attempt, how))
  }

  const ENDING := {LockFails, CommitFails, CommitLost}
  const EFFECTIVE := {Commits, CommitLost}
  const UNDONE := {CommitTimesOut, CommitFails}
  const COUNTED := {Commits, CommitTimesOut, CommitFails, CommitLost}

  ghost predicate Released(a: map<OccKey, OccRow>, b: map<OccKey, OccRow>, keys: set<OccKey>, clock: Clock) {
    && b.Keys == a.Keys
    && forall k :: k in a ==> b[k] == if k in keys then a[k].(releasedAt := Some(clock(a[k].showtime))) else a[k]
  }

  lemma {:induction false} ReachedIsListed(ids: seq<ShowtimeId>, attempt: ShowtimeId -> Attempt, how: set<Attempt>)
    ensures forall st :: st in Reached(ids, attempt, how) ==> st in ids && attempt(st) in how
    decreases |ids|
  {
    if ids != [] {
      ReachedIsListed(ids[1..], attempt, how);
    }
  }

  /** Reclaiming one showtime leaves the lapsed rows of the others. */
  lemma OneReclaimed(occ: map<OccKey, OccRow>, st: ShowtimeId, others: set<ShowtimeId>, clock: Clock)
    requires st !in others
    ensures var after := occ + ReclaimExpiredSeatsForShowtime(occ, st, clock(st));
            && LapsedIn(after, others, clock) == LapsedIn(occ, others, clock)
            && Released(occ, after, LapsedIn(occ, {st}, clock), clock)
    ensures |ReclaimExpiredSeatsForShowtime(occ, st, clock(st))| == |LapsedIn(occ, {st}, clock)|
  {
    var rows := ReclaimExpiredSeatsForShowtime(occ, st, clock(st));
    assert rows.Keys == LapsedIn(occ, {st}, clock) && |rows| == |rows.Keys|;
    assert (occ + rows).Keys == occ.Keys;
  }

  lemma LapsedSplits(occ: map<OccKey, OccRow>, st: ShowtimeId, others: set<ShowtimeId>, clock: Clock)
    requires st !in others
    ensures LapsedIn(occ, {st} + others, clock) == LapsedIn(occ, {st}, clock) + LapsedIn(occ, others, clock)
    ensures LapsedIn(occ, {st}, clock) !! LapsedIn(occ, others, clock)
    ensures |LapsedIn(occ, {st} + others, clock)| == |LapsedIn(occ, {st}, clock)| + |LapsedIn(occ, others, clock)|
  {
    assert LapsedIn(occ, {st} + others, clock) == LapsedIn(occ, {st}, clock) + LapsedIn(occ, others, clock);
    assert LapsedIn(occ, {st}, clock) !! LapsedIn(occ, others, clock);
  }

  lemma ReleasedThen(a: map<OccKey, OccRow>, mid: map<OccKey, OccRow>, b: map<OccKey, OccRow>,
                     first: set<OccKey>, second: set<OccKey>, clock: Clock)
    requires Released(a, mid, first, clock) && Released(mid, b, second, clock) && first !! second
    ensures Released(a, b, first + second, clock)
  {}

  lemma EffectiveStep(ids: seq<ShowtimeId>, attempt: ShowtimeId -> Attempt)
    requires ids != []
    ensures Reached(ids, attempt, EFFECTIVE) ==
      match attempt(ids[0])
      case Commits => {ids[0]} + Reached(ids[1..], attempt, EFFECTIVE)
      case CommitLost => {ids[0]}
      case LockFails => {}
      case CommitFails => {}
      case _ => Reached(ids[1..], attempt, EFFECTIVE)
  {}

  lemma CountedStep(ids: seq<ShowtimeId>, attempt: ShowtimeId -> Attempt)
    requires ids != []
    ensures Reached(ids, attempt, COUNTED) ==
      match attempt(ids[0])
      case LockTimesOut => Reached(ids[1..], attempt, COUNTED)
      case LockFails => {}
      case CommitFails => {ids[0]}
      case CommitLost => {ids[0]}
      case _ => {ids[0]} + Reached(ids[1..], attempt, COUNTED)
  {}

  /** A run releases exactly the lapsed rows of the showtimes that it reaches and whose
      commits take effect. */
  lemma {:induction false} SweepReleases(occ: map<OccKey, OccRow>, ids: seq<ShowtimeId>, attempt: ShowtimeId -> Attempt,
                                         clock: Clock)
    requires Distinct(ids)
    ensures Released(occ, SweepOver(occ, ids, attempt, clock).occ, LapsedIn(occ, Reached(ids, attempt, EFFECTIVE), clock), clock)
    decreases |ids|
  {
    hide Released, LapsedIn, ReclaimExpiredSeatsForShowtime, Reached, EFFECTIVE;
    NothingReleased(occ, clock);
    if ids == [] {
      NoneReached(attempt, EFFECTIVE);
    } else {
      var st, rest := ids[0], ids[1..];
      var done := Reached(rest, attempt, EFFECTIVE);
      EffectiveStep(ids, attempt);
      ReachedIsListed(rest, attempt, EFFECTIVE);
      OneReclaimed(occ, st, done, clock);
      LapsedSplits(occ, st, done, clock);
      if attempt(st).Commits? {
        var after := occ + ReclaimExpiredSeatsForShowtime(occ, st, clock(st));
        SweepReleases(after, rest, attempt, clock);
        ReleasedThen(occ, after, SweepOver(after, rest, attempt, clock).occ,
                     LapsedIn(occ, {st}, clock), LapsedIn(occ, done, clock), clock);
      } else {
        SweepReleases(occ, rest, attempt, clock);
      }
    }
  }

  lemma NothingReleased(occ: map<OccKey, OccRow>, clock: Clock)
    ensures LapsedIn(occ, {}, clock) == {} && Released(occ, occ, LapsedIn(occ, {}, clock), clock)
  {}

  lemma NoneReached(attempt: ShowtimeId -> Attempt, how: set<Attempt>)
    ensures Reached([], attempt, how) == {}
  {}

  /** It counts the lapsed rows of every showtime whose statement it ran, committed or
      not. */
  lemma {:induction false} SweepCounts(occ: map<OccKey, OccRow>, ids: seq<ShowtimeId>, attempt: ShowtimeId -> Attempt,
                                       clock: Clock)
    requires Distinct(ids)
    ensures SweepOver(occ, ids, attempt, clock).reclaimed == |LapsedIn(occ, Reached(ids, attempt, COUNTED), clock)|
    decreases |ids|
  {
    hide LapsedIn, ReclaimExpiredSeatsForShowtime, Released, Reached, COUNTED;
    NothingReleased(occ, clock);
    if ids == [] {
      NoneReached(attempt, COUNTED);
    } else {
      var st, rest := ids[0], ids[1..];
      var counted := Reached(rest, attempt, COUNTED);
      ReachedIsListed(rest, attempt, COUNTED);
      OneReclaimed(occ, st, counted, clock);
      LapsedSplits(occ, st, counted, clock);
      CountedStep(ids, attempt);
      if attempt(st).Commits? {
        SweepCounts(occ + ReclaimExpiredSeatsForShowtime(occ, st, clock(st)), rest, attempt, clock);
      } else {
        SweepCounts(occ, rest, attempt, clock);
      }
    }
  }

  /** The rows a run released, and those it counted for commits that were undone. */
  ghost function RowsReleased(occ: map<OccKey, OccRow>, ids: seq<ShowtimeId>, attempt: ShowtimeId -> Attempt, clock: Clock)
    : set<OccKey>
  {
    LapsedIn(occ, Reached(ids, attempt, EFFECTIVE), clock)
  }

  ghost function RowsUndone(occ: map<OccKey, OccRow>, ids: seq<ShowtimeId>, attempt: ShowtimeId -> Attempt, clock: Clock)
    : set<OccKey>
  {
    LapsedIn(occ, Reached(ids, attempt, UNDONE), clock)
  }

  /** The count is over by the rows of the commits that were undone. */
  lemma CountIsOverBy(occ: map<OccKey, OccRow>, ids: seq<ShowtimeId>, attempt: ShowtimeId -> Attempt, clock: Clock)
    requires Distinct(ids)
    ensures var run := SweepOver(occ, ids, attempt, clock);
            && Released(occ, run.occ, RowsReleased(occ, ids, attempt, clock), clock)
            && run.reclaimed == |RowsReleased(occ, ids, attempt, clock)| + |RowsUndone(occ, ids, attempt, clock)|
  {
    hide Released, SweepOver, Reached;
    SweepReleases(occ, ids, attempt, clock);
    SweepCounts(occ, ids, attempt, clock);
    ReachedSplits(ids, attempt);
    var done, lost := Reached(ids, attempt, EFFECTIVE), Reached(ids, attempt, UNDONE);
    ReachedIsListed(ids, attempt, EFFECTIVE);
    ReachedIsListed(ids, attempt, UNDONE);
    forall st | st in done ensures st !in lost {
      assert attempt(st) in EFFECTIVE;
    }
    ApartSplits(occ, done, lost, clock);
  }

  lemma ApartSplits(occ: map<OccKey, OccRow>, a: set<ShowtimeId>, b: set<ShowtimeId>, clock: Clock)
    requires a !! b
    ensures |LapsedIn(occ, a + b, clock)| == |LapsedIn(occ, a, clock)| + |LapsedIn(occ, b, clock)|
  {
    assert LapsedIn(occ, a + b, clock) == LapsedIn(occ, a, clock) + LapsedIn(occ, b, clock);
    assert LapsedIn(occ, a, clock) !! LapsedIn(occ, b, clock);
  }

  /** So a run's count is exact if and only if no commit it ran into was undone, provided
      no showtime's transaction began before the listing: then every listed showtime has
      rows to count. */
  lemma CountIsExactIff(occ: map<OccKey, OccRow>, limit: nat, now: Time, attempt: ShowtimeId -> Attempt, clock: Clock)
    requires forall st :: st in ListShowtimesWithExpiredSeats(occ, limit, now) ==> now <= clock(st)
    ensures var ids := ListShowtimesWithExpiredSeats(occ, limit, now);
            var run := SweepOver(occ, ids, attempt, clock);
            && Released(occ, run.occ, RowsReleased(occ, ids, attempt, clock), clock)
            && (run.reclaimed == |RowsReleased(occ, ids, attempt, clock)| <==> Reached(ids, attempt, UNDONE) == {})
  {
    hide Released, SweepOver, Reached;
    var ids := ListShowtimesWithExpiredSeats(occ, limit, now);
    ListedHaveExpired(occ, limit, now);
    CountIsOverBy(occ, ids, attempt, clock);
    ReachedIsListed(ids, attempt, UNDONE);
    var lost := Reached(ids, attempt, UNDONE);
    NothingReleased(occ, clock);
    if lost != {} {
      var st := Member(lost);
      var k :| k in occ && Lapsed(occ[k], now) && occ[k].showtime == st;
      assert k in LapsedIn(occ, lost, clock);
    }
  }

  lemma {:induction false} ReachedSplits(ids: seq<ShowtimeId>, attempt: ShowtimeId -> Attempt)
    ensures Reached(ids, attempt, COUNTED) == Reached(ids, attempt, EFFECTIVE) + Reached(ids, attempt, UNDONE)
    decreases |ids|
  {
    if ids != [] {
      ReachedSplits(ids[1..], attempt);
    }
  }

  lemma ListedHaveExpired(occ: map<OccKey, OccRow>, limit: nat, now: Time)
    ensures var ids := ListShowtimesWithExpiredSeats(occ, limit, now);
            && Distinct(ids) && Ascending(ids)
            && (forall st :: st in ids ==> st in ExpiredShowtimes(occ, now))
            && |ids| == (if limit < |ExpiredShowtimes(occ, now)| then limit else |ExpiredShowtimes(occ, now)|)
  {
    var all := Sorted(ExpiredShowtimes(occ, now));
    DistinctCount(all);
    assert forall st :: st in all <==> st in Elements(all);
  }

  ghost predicate HasExpired(occ: map<OccKey, OccRow>, now: Time, st: ShowtimeId) {
    exists k :: k in occ && occ[k].showtime == st && occ[k].releasedAt.None? && occ[k].confirmedAt.None? && occ[k].expiresAt <= now
  }

  /** The lowest ids, in order, of showtimes with an unsettled row that has expired; fewer
      than the limit only if those are all. */
  ghost predicate ListSpec(occ: map<OccKey, OccRow>, limit: nat, now: Time, ids: seq<ShowtimeId>) {
    && |ids| <= limit
    && (forall i, j :: 0 <= i < j < |ids| ==> ids[i] < ids[j])
    && (forall st :: st in ids ==> HasExpired(occ, now, st))
    && (forall st :: HasExpired(occ, now, st) && st !in ids ==> |ids| == limit && forall id :: id in ids ==> id < st)
  }

  lemma ListLaw(occ: map<OccKey, OccRow>, limit: nat, now: Time)
    ensures ListSpec(occ, limit, now, ListShowtimesWithExpiredSeats(occ, limit, now))
  {
    var all := Sorted(ExpiredShowtimes(occ, now));
    var ids := First(all, limit);
    forall st ensures st in all <==> HasExpired(occ, now, st) {
      assert st in all <==> st in Elements(all);
    }
    forall st | HasExpired(occ, now, st) && st !in ids ensures |ids| == limit && forall id :: id in ids ==> id < st {
      var i :| 0 <= i < |all| && all[i] == st;
      assert forall id :: id in ids ==> id < st;
    }
  }

  // ---- a run, said of the attempts and the rows alone ----

  /** The run comes to the showtime at `i`: none before it failed for good. */
  ghost predicate GetsTo(ids: seq<ShowtimeId>, attempt: ShowtimeId -> Attempt, i: nat)
    requires i <= |ids|
  {
    forall j :: 0 <= j < i ==> !Fails(attempt(ids[j]))
  }

  /** The transaction reports an error other than that the showtime is busy. */
  ghost predicate Fails(how: Attempt) {
    how.LockFails? || how.CommitFails? || how.CommitLost?
  }

  /** The row was lapsed when the run updated its showtime. */
  ghost predicate IsUpdated(occ: map<OccKey, OccRow>, ids: seq<ShowtimeId>, attempt: ShowtimeId -> Attempt, clock: Clock, k: OccKey) {
    && k in occ && occ[k].releasedAt.None? && occ[k].confirmedAt.None? && occ[k].expiresAt <= clock(occ[k].showtime)
    && !attempt(occ[k].showtime).LockTimesOut? && !attempt(occ[k].showtime).LockFails?
    && exists i :: 0 <= i < |ids| && ids[i] == occ[k].showtime && GetsTo(ids, attempt, i)
  }

  ghost predicate TakesEffect(how: Attempt) {
    how.Commits? || how.CommitLost?
  }

  /** Every updated row is counted; those of commits that took effect are released, at the
      time of their showtime's transaction, and nothing else changes. */
  ghost predicate RunSpec(occ: map<OccKey, OccRow>, ids: seq<ShowtimeId>, attempt: ShowtimeId -> Attempt, clock: Clock, run: SweepRun) {
    && (run.failed <==> exists i :: 0 <= i < |ids| && Fails(attempt(ids[i])))
    && run.reclaimed == |set k | k in occ && IsUpdated(occ, ids, attempt, clock, k)|
    && run.occ.Keys == occ.Keys
    && (forall k :: k in occ ==>
          run.occ[k] == if IsUpdated(occ, ids, attempt, clock, k) && TakesEffect(attempt(occ[k].showtime))
                        then occ[k].(releasedAt := Some(clock(occ[k].showtime))) else occ[k])
  }

  lemma {:induction false} ReachedIff(ids: seq<ShowtimeId>, attempt: ShowtimeId -> Attempt, how: set<Attempt>, st: ShowtimeId)
    ensures st in Reached(ids, attempt, how)
            <==> attempt(st) in how && exists i :: 0 <= i < |ids| && ids[i] == st && GetsTo(ids, attempt, i)
    decreases |ids|
  {
    if ids != [] {
      var rest := ids[1..];
      ReachedIff(rest, attempt, how, st);
      if st in Reached(ids, attempt, how) && st != ids[0] {
        var i :| 0 <= i < |rest| && rest[i] == st && GetsTo(rest, attempt, i);
        GetsOn(ids, attempt, i + 1);
        assert ids[i + 1] == st;
      } else if st in Reached(ids, attempt, how) {
        assert ids[0] == st && GetsTo(ids, attempt, 0);
      }
      if attempt(st) in how && exists i :: 0 <= i < |ids| && ids[i] == st && GetsTo(ids, attempt, i) {
        var i :| 0 <= i < |ids| && ids[i] == st && GetsTo(ids, attempt, i);
        if i > 0 {
          GetsOn(ids, attempt, i);
          assert rest[i - 1] == st;
        }
      }
    }
  }

  lemma GetsOn(ids: seq<ShowtimeId>, attempt: ShowtimeId -> Attempt, i: nat)
    requires 0 < i <= |ids|
    ensures GetsTo(ids, attempt, i) <==> attempt(ids[0]) !in ENDING && GetsTo(ids[1..], attempt, i - 1)
  {
    if attempt(ids[0]) !in ENDING && GetsTo(ids[1..], attempt, i - 1) {
      forall j | 0 <= j < i ensures !Fails(attempt(ids[j])) {
        if j > 0 { assert ids[j] == ids[1..][j - 1]; }
      }
    }
    if GetsTo(ids, attempt, i) {
      assert !Fails(attempt(ids[0]));
      forall j | 0 <= j < i - 1 ensures !Fails(attempt(ids[1..][j])) {
        assert ids[1..][j] == ids[j + 1];
      }
    }
  }

  lemma {:induction false} FailedIff(occ: map<OccKey, OccRow>, ids: seq<ShowtimeId>, attempt: ShowtimeId -> Attempt, clock: Clock)
    ensures SweepOver(occ, ids, attempt, clock).failed <==> exists i :: 0 <= i < |ids| && Fails(attempt(ids[i]))
    decreases |ids|
  {
    hide ReclaimExpiredSeatsForShowtime;
    if ids != [] {
      var st, rest := ids[0], ids[1..];
      assert (exists i :: 0 <= i < |rest| && Fails(attempt(rest[i]))) ==> exists i :: 0 <= i < |ids| && Fails(attempt(ids[i])) by {
        if exists i :: 0 <= i < |rest| && Fails(attempt(rest[i])) {
          var i :| 0 <= i < |rest| && Fails(attempt(rest[i]));
          assert Fails(attempt(ids[i + 1]));
        }
      }
      assert (exists i :: 0 <= i < |ids| && Fails(attempt(ids[i]))) ==>
        Fails(attempt(st)) || exists i :: 0 <= i < |rest| && Fails(attempt(rest[i])) by {
        if exists i :: 0 <= i < |ids| && Fails(attempt(ids[i])) {
          var i :| 0 <= i < |ids| && Fails(attempt(ids[i]));
          if i > 0 { assert Fails(attempt(rest[i - 1])); }
        }
      }
      FailedIff(occ + ReclaimExpiredSeatsForShowtime(occ, st, clock(st)), rest, attempt, clock);
      FailedIff(occ, rest, attempt, clock);
    }
  }

  /** What a run counts, releases and reports. */
  lemma RunLaw(occ: map<OccKey, OccRow>, ids: seq<ShowtimeId>, attempt: ShowtimeId -> Attempt, clock: Clock)
    requires Distinct(ids)
    ensures RunSpec(occ, ids, attempt, clock, SweepOver(occ, ids, attempt, clock))
  {
    hide SweepOver, Reached, GetsTo;
    FailedIff(occ, ids, attempt, clock);
    SweepReleases(occ, ids, attempt, clock);
    SweepCounts(occ, ids, attempt, clock);
    forall st
      ensures st in Reached(ids, attempt, EFFECTIVE)
              <==> attempt(st) in EFFECTIVE && exists i :: 0 <= i < |ids| && ids[i] == st && GetsTo(ids, attempt, i)
      ensures st in Reached(ids, attempt, COUNTED)
              <==> attempt(st) in COUNTED && exists i :: 0 <= i < |ids| && ids[i] == st && GetsTo(ids, attempt, i)
    {
      ReachedIff(ids, attempt, EFFECTIVE, st);
      ReachedIff(ids, attempt, COUNTED, st);
    }
    assert LapsedIn(occ, Reached(ids, attempt, COUNTED), clock) == set k | k in occ && IsUpdated(occ, ids, attempt, clock, k);
  }

  // ---- draining ----

  ghost function AllCommit(): ShowtimeId -> Attempt {
    (st: ShowtimeId) => Commits
  }

  ghost function Always(now: Time): Clock {
    (st: ShowtimeId) => now
  }

  ghost function SweepOnce(occ: map<OccKey, OccRow>, limit: nat, now: Time): SweepRun {
    SweepOver(occ, ListShowtimesWithExpiredSeats(occ, limit, now), AllCommit(), Always(now))
  }

  ghost function SweepTimes(occ: map<OccKey, OccRow>, limit: nat, now: Time, runs: nat): map<OccKey, OccRow>
    decreases runs
  {
    if runs == 0 then occ else SweepTimes(SweepOnce(occ, limit, now).occ, limit, now, runs - 1)
  }

  lemma {:induction false} AllReached(ids: seq<ShowtimeId>)
    ensures Reached(ids, AllCommit(), EFFECTIVE) == Elements(ids)
    ensures Reached(ids, AllCommit(), UNDONE) == {}
    decreases |ids|
  {
    if ids != [] {
      AllReached(ids[1..]);
      assert Elements(ids) == {ids[0]} + Elements(ids[1..]) by {
        assert ids == [ids[0]] + ids[1..];
      }
    }
  }

  /** With no contention and no failed commit a run clears the lowest `limit` showtime
      ids that have lapsed rows, leaves the others, and returns the rows it released. */
  lemma SweepClearsTheLowest(occ: map<OccKey, OccRow>, limit: nat, now: Time)
    ensures var ids := ListShowtimesWithExpiredSeats(occ, limit, now);
            var run := SweepOnce(occ, limit, now);
            && ExpiredShowtimes(run.occ, now) == ExpiredShowtimes(occ, now) - Elements(ids)
            && (forall st, other :: st in ids && other in ExpiredShowtimes(run.occ, now) ==> st < other)
            && !run.failed && run.reclaimed == |LapsedIn(occ, Elements(ids), Always(now))|
            && Released(occ, run.occ, LapsedIn(occ, Elements(ids), Always(now)), Always(now))
  {
    var ids := ListShowtimesWithExpiredSeats(occ, limit, now);
    var run := SweepOnce(occ, limit, now);
    CountIsExactIff(occ, limit, now, AllCommit(), Always(now));
    AllReached(ids);
    NeverFails(occ, ids, now);
    ListedAreLowest(occ, limit, now);
    WhatIsLeft(occ, run.occ, Elements(ids), now);
  }

  lemma {:induction false} NeverFails(occ: map<OccKey, OccRow>, ids: seq<ShowtimeId>, now: Time)
    ensures !SweepOver(occ, ids, AllCommit(), Always(now)).failed
    decreases |ids|
  {
    if ids != [] {
      NeverFails(occ + ReclaimExpiredSeatsForShowtime(occ, ids[0], now), ids[1..], now);
    }
  }

  lemma ListedAreLowest(occ: map<OccKey, OccRow>, limit: nat, now: Time)
    ensures var ids := ListShowtimesWithExpiredSeats(occ, limit, now);
            forall st, other :: st in ids && other in ExpiredShowtimes(occ, now) && other !in ids ==> st < other
  {
    var all := Sorted(ExpiredShowtimes(occ, now));
    assert forall st :: st in all <==> st in Elements(all);
    assert all[..|First(all, limit)|] == First(all, limit);
    assert all == First(all, limit) + all[|First(all, limit)|..];
  }

  lemma WhatIsLeft(occ: map<OccKey, OccRow>, after: map<OccKey, OccRow>, cleared: set<ShowtimeId>, now: Time)
    requires Released(occ, after, LapsedIn(occ, cleared, Always(now)), Always(now))
    ensures ExpiredShowtimes(after, now) == ExpiredShowtimes(occ, now) - cleared
  {
    forall st ensures st in ExpiredShowtimes(after, now) <==> st in ExpiredShowtimes(occ, now) && st !in cleared {
      if st in ExpiredShowtimes(occ, now) && st !in cleared {
        var k :| k in occ && Lapsed(occ[k], now) && occ[k].showtime == st;
        assert k in after && Lapsed(after[k], now);
      }
    }
  }

  lemma OneRunDrains(occ: map<OccKey, OccRow>, limit: nat, now: Time)
    ensures |ExpiredShowtimes(SweepOnce(occ, limit, now).occ, now)| == Monus(|ExpiredShowtimes(occ, now)|, limit)
  {
    hide SweepOnce, ListShowtimesWithExpiredSeats;
    var ids := ListShowtimesWithExpiredSeats(occ, limit, now);
    SweepClearsTheLowest(occ, limit, now);
    ListedHaveExpired(occ, limit, now);
    DistinctCount(ids);
    assert Elements(ids) <= ExpiredShowtimes(occ, now);
  }

  function Monus(a: nat, b: nat): nat {
    if a > b then a - b else 0
  }

  /** After any number of runs, what is left is what the limit has not covered yet. */
  lemma {:induction false} SweepDrains(occ: map<OccKey, OccRow>, limit: nat, now: Time, runs: nat)
    ensures |ExpiredShowtimes(SweepTimes(occ, limit, now, runs), now)| == Monus(|ExpiredShowtimes(occ, now)|, runs * limit)
    decreases runs
  {
    hide ExpiredShowtimes, SweepOnce;
    if runs > 0 {
      OneRunDrains(occ, limit, now);
      SweepDrains(SweepOnce(occ, limit, now).occ, limit, now, runs - 1);
      assert (runs - 1) * limit + limit == runs * limit;
    }
  }

  /** ceil(m / limit) runs leave nothing lapsed, and the run after them returns 0. */
  lemma DrainedInCeiling(occ: map<OccKey, OccRow>, limit: nat, now: Time)
    requires limit > 0
    ensures var runs := (|ExpiredShowtimes(occ, now)| + limit - 1) / limit;
            var drained := SweepTimes(occ, limit, now, runs);
            && (forall k :: k in drained ==> !Lapsed(drained[k], now))
            && SweepOnce(drained, limit, now) == SweepRun(drained, 0, false)
  {
    var m := |ExpiredShowtimes(occ, now)|;
    var runs := (m + limit - 1) / limit;
    assert runs * limit >= m by {
      assert m + limit - 1 == runs * limit + (m + limit - 1) % limit;
    }
    SweepDrains(occ, limit, now, runs);
    var drained := SweepTimes(occ, limit, now, runs);
    assert ExpiredShowtimes(drained, now) == {};
    forall k | k in drained ensures !Lapsed(drained[k], now) {
      assert drained[k].showtime !in ExpiredShowtimes(drained, now);
    }
    ListedHaveExpired(drained, limit, now);
  }
}
