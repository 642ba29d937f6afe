/** When a booking covers every seat its hold claimed.

    A confirm that began before another holder of the lock, but locks after it, may
    find some of its rows already reclaimed and still be in time by its own, older,
    clock. The booking then covers what is left. */
module Wholeness {
  import opened Schema
  import opened Statements
  import opened Bodies
  import opened Invariants
  import opened Protocol
  import opened Refinement
  import opened Guarantees

  /** The commit reclaims a lapsed, unconfirmed row for this seat. */
  predicate Reclaims(c: Commit, st: ShowtimeId, s: SeatId, expiresAt: Time) {
    && expiresAt <= c.now
    && match c.op
       case Hold(st', _, seats, _, _) => st' == st && s in seats
       case Sweep(st') => st' == st
       case Confirm(_, _, _) => false
       case Release(_) => false
  }

  ghost predicate Open(db: Tables, token: Token) {
    token in db.holds && db.holds[token].confirmedAt.None? && db.holds[token].releasedAt.None?
  }

  /** While a hold stays open, its rows are released by reclaims and nothing else. */
  lemma RowAfterCommit(cat: Catalog, a: Tables, b: Tables, c: Commit, k: OccKey)
    requires Inv(cat, a) && Committed(cat, a, b, c) && k in a.occ
    requires Open(a, k.hold) && Open(b, k.hold)
    ensures k in b.occ && b.occ[k].confirmedAt.None?
    ensures b.occ[k].releasedAt.Some? <==>
            a.occ[k].releasedAt.Some? || Reclaims(c, a.occ[k].showtime, k.seat, a.occ[k].expiresAt)
  {
    match c.op
    case Hold(_, _, _, _, _) => RowAfterHold(cat, a, c.op, c.now, k);
    case Confirm(_, _, _) => RowAfterConfirm(cat, a, b, c, k);
    case Release(token) => RowAfterRelease(cat, a, b, c, k);
    case Sweep(_) =>
  }

  lemma RowAfterHold(cat: Catalog, a: Tables, op: Op, now: Time, k: OccKey)
    requires Inv(cat, a) && op.Hold? && k in a.occ && HoldBody(cat, a, op, now).Done?
    ensures var rows := HoldBody(cat, a, op, now).writes.occ;
            if a.occ[k].showtime == op.st && k.seat in op.seats && Lapsed(a.occ[k], now)
            then k in rows && rows[k] == a.occ[k].(releasedAt := Some(now)) else k !in rows
  {
    assert k.hold != op.token;
  }

  lemma RowAfterConfirm(cat: Catalog, a: Tables, b: Tables, c: Commit, k: OccKey)
    requires Inv(cat, a) && Committed(cat, a, b, c) && k in a.occ && c.op.Confirm?
    requires Open(a, k.hold) && Open(b, k.hold)
    ensures k in b.occ && b.occ[k] == a.occ[k]
  {
    var op := c.op;
    if a.holds[op.token].confirmedAt.Some? {
      MergeNothing(a);
    } else {
      assert op.token in ConfirmHold(a.holds, op.token, c.now);
      assert k.hold != op.token;
    }
  }

  lemma RowAfterRelease(cat: Catalog, a: Tables, b: Tables, c: Commit, k: OccKey)
    requires Inv(cat, a) && Committed(cat, a, b, c) && k in a.occ && c.op.Release?
    requires Open(a, k.hold) && Open(b, k.hold)
    ensures k in b.occ && b.occ[k] == a.occ[k]
  {
    assert b.holds == a.holds + ReleaseHold(a.holds, c.op.token, c.now);
    assert k.hold !in ReleaseHold(a.holds, c.op.token, c.now);
  }

  ghost predicate ReclaimedBetween(commits: seq<Commit>, from: nat, to: nat, st: ShowtimeId, s: SeatId, expiresAt: Time)
    requires to <= |commits|
  {
    exists j :: from <= j < to && Reclaims(commits[j], st, s, expiresAt)
  }

  lemma OpenBefore(a: Tables, b: Tables, token: Token)
    requires Evolves(a, b) && token in a.holds && Open(b, token)
    ensures Open(a, token)
  {}

  /** Between the commit that created it and a state in which its hold is still open,
      a row is released exactly when some commit in between reclaimed it. */
  lemma {:induction false} ReleasedIffReclaimed(cat: Catalog, schedule: seq<Label>, from: nat, to: nat, k: OccKey)
    requires ValidCatalog(cat) && from <= to < |Reach(cat, schedule).history| && to <= |Reach(cat, schedule).commits|
    requires var s := Reach(cat, schedule);
             && k in s.history[from].occ && s.history[from].occ[k].releasedAt.None?
             && Open(s.history[to], k.hold)
    ensures var s := Reach(cat, schedule);
            var row := s.history[from].occ[k];
            && k in s.history[to].occ && s.history[to].occ[k].confirmedAt.None?
            && (s.history[to].occ[k].releasedAt.Some? <==>
                ReclaimedBetween(s.commits, from, to, row.showtime, k.seat, row.expiresAt))
  {
    hide Inv, Evolves, Committed, Reach, ReclaimedBetween, Reclaims, Open;
    var s := Reach(cat, schedule);
    Evolution(cat, schedule, from, to);
    ReclaimedStep(s.commits, from, to, s.history[from].occ[k].showtime, k.seat, s.history[from].occ[k].expiresAt);
    if from == to {
      RowOfOpenHold(cat, s.history[from], k);
    } else {
      var a, b := s.history[to - 1], s.history[to];
      EveryRunIsSerial(cat, schedule);
      Evolution(cat, schedule, from, to - 1);
      Evolution(cat, schedule, to - 1, to);
      RowPersists(cat, s.history[from], a, k);
      OpenBefore(a, b, k.hold);
      ReleasedIffReclaimed(cat, schedule, from, to - 1, k);
      assert Committed(cat, a, b, s.commits[to - 1]);
      RowAfterCommit(cat, a, b, s.commits[to - 1], k);
    }
  }

  lemma ReclaimedStep(commits: seq<Commit>, from: nat, to: nat, st: ShowtimeId, s: SeatId, expiresAt: Time)
    requires from <= to <= |commits|
    ensures ReclaimedBetween(commits, from, to, st, s, expiresAt) <==>
            from < to && (ReclaimedBetween(commits, from, to - 1, st, s, expiresAt) || Reclaims(commits[to - 1], st, s, expiresAt))
  {}

  lemma RowPersists(cat: Catalog, a: Tables, b: Tables, k: OccKey)
    requires Inv(cat, a) && Evolves(a, b) && k in a.occ
    ensures k in b.occ && b.occ[k].showtime == a.occ[k].showtime && b.occ[k].expiresAt == a.occ[k].expiresAt
    ensures k.hold in a.holds && k.hold in b.holds
  {}

  lemma RowOfOpenHold(cat: Catalog, db: Tables, k: OccKey)
    requires Inv(cat, db) && k in db.occ && Open(db, k.hold)
    ensures db.occ[k].confirmedAt.None?
  {
    assert RowAgrees(k, db.occ[k], db.holds[k.hold]);
  }

  /** Right after a hold commits, its rows are those of the requested seats. */
  lemma HoldCreatesRows(cat: Catalog, a: Tables, b: Tables, c: Commit)
    requires Inv(cat, a) && Committed(cat, a, b, c) && c.op.Hold?
    ensures c.op.token in b.holds && b.holds[c.op.token] == CreateHold(c.op.st, c.op.customer, c.op.ttlSeconds, c.now)
    ensures forall k: OccKey :: k in b.occ && k.hold == c.op.token <==> k.hold == c.op.token && k.seat in c.op.seats
    ensures forall k :: k in b.occ && k.hold == c.op.token ==>
              b.occ[k] == OccRow(c.op.st, b.holds[c.op.token].expiresAt, None, None)
  {
    hide HoldBody;
    var mid, h, rows := HoldInTwoSteps(cat, a, c.op, c.now);
    forall k: OccKey | k.hold == c.op.token
      ensures k in b.occ <==> k.seat in c.op.seats
      ensures k in b.occ ==> b.occ[k] == OccRow(c.op.st, h.expiresAt, None, None)
    {
      assert k !in mid.occ;
      assert k in rows <==> k.seat in c.op.seats;
    }
  }

  lemma RowsNeverAdded(a: Tables, b: Tables, k: OccKey)
    requires Evolves(a, b) && k.hold in a.holds
    ensures k in b.occ <==> k in a.occ
  {}

  /** The commit at `n` is the first Confirm of the hold that the commit at `c` made. */
  ghost predicate HeldThenConfirmed(s: State, c: nat, n: nat) {
    && c < n < |s.commits| && n + 1 < |s.history|
    && s.commits[c].op.Hold? && s.commits[n].op.Confirm? && s.commits[n].op.token == s.commits[c].op.token
    && Open(s.history[n], s.commits[n].op.token)
  }

  function ExpiryOf(c: Commit): Time
    requires c.op.Hold?
  {
    c.now + c.op.ttlSeconds * MICROS_PER_SECOND
  }

  /** One seat of the hold is in the booking unless it was reclaimed in between. */
  lemma SeatIsBookedIff(cat: Catalog, schedule: seq<Label>, c: nat, n: nat, seat: SeatId)
    requires ValidCatalog(cat) && HeldThenConfirmed(Reach(cat, schedule), c, n)
    ensures var s := Reach(cat, schedule);
            var op := s.commits[c].op;
            seat in HoldSeats(s.history[n + 1].occ, op.token) <==>
            seat in op.seats && !ReclaimedBetween(s.commits, c + 1, n, op.st, seat, ExpiryOf(s.commits[c]))
  {
    hide Inv, Evolves, Committed, HoldSeats;
    var s := Reach(cat, schedule);
    var op := s.commits[c].op;
    var k := OccKey(op.token, seat);
    EveryRunIsSerial(cat, schedule);
    Evolution(cat, schedule, c, n);
    Evolution(cat, schedule, c + 1, n);
    HoldCreatesRows(cat, s.history[c], s.history[c + 1], s.commits[c]);
    SeatsAtConfirm(cat, s.history[n], s.history[n + 1], s.commits[n]);
    RowsNeverAdded(s.history[c + 1], s.history[n], k);
    SeatIsHeld(s.history[n].occ, k);
    if seat in op.seats {
      ReleasedIffReclaimed(cat, schedule, c + 1, n, k);
    }
  }

  lemma SeatIsHeld(occ: map<OccKey, OccRow>, k: OccKey)
    ensures k.seat in HoldSeats(occ, k.hold) <==> k in occ && occ[k].releasedAt.None?
  {}

  /** Exactly when a booking is whole: the first Confirm of a hold, committed at `n`,
      books every seat that the hold claimed when it committed at `c`, if and only if
      no hold or sweep of the showtime that committed in between reclaimed one of
      those seats with a timestamp at or past the hold's expiry. */
  lemma BookingIsWholeIff(cat: Catalog, schedule: seq<Label>, c: nat, n: nat)
    requires ValidCatalog(cat) && HeldThenConfirmed(Reach(cat, schedule), c, n)
    ensures var s := Reach(cat, schedule);
            var op := s.commits[c].op;
            HoldSeats(s.history[n + 1].occ, op.token) == Elements(op.seats)
            <==> forall seat :: seat in op.seats ==>
                   !ReclaimedBetween(s.commits, c + 1, n, op.st, seat, ExpiryOf(s.commits[c]))
  {
    hide HoldSeats, ReclaimedBetween;
    var s := Reach(cat, schedule);
    var booked, claimed := HoldSeats(s.history[n + 1].occ, s.commits[c].op.token), s.commits[c].op.seats;
    forall seat
      ensures seat in booked <==>
              && seat in claimed
              && !ReclaimedBetween(s.commits, c + 1, n, s.commits[c].op.st, seat, ExpiryOf(s.commits[c]))
    {
      SeatIsBookedIff(cat, schedule, c, n, seat);
    }
    assert forall seat :: seat in Elements(claimed) <==> seat in claimed;
  }

  /** A first Confirm keeps the seats its hold had, and was in time by its own clock. */
  lemma SeatsAtConfirm(cat: Catalog, a: Tables, b: Tables, c: Commit)
    requires Committed(cat, a, b, c) && c.op.Confirm? && Open(a, c.op.token)
    ensures HoldSeats(b.occ, c.op.token) == HoldSeats(a.occ, c.op.token)
    ensures c.now < a.holds[c.op.token].expiresAt
  {
    var token := c.op.token;
    assert b.occ == a.occ + ConfirmHoldSeats(a.occ, token, c.now);
    forall s ensures s in HoldSeats(b.occ, token) <==> s in HoldSeats(a.occ, token) {
      var k := OccKey(token, s);
      assert s in HoldSeats(b.occ, token) <==> k in b.occ && b.occ[k].releasedAt.None?;
      assert s in HoldSeats(a.occ, token) <==> k in a.occ && a.occ[k].releasedAt.None?;
    }
  }

  /** The clock assumption: no hold or sweep of the showtime that committed before `n`
      carries a later timestamp than the commit at `n`. */
  ghost predicate ClockFollowsLock(commits: seq<Commit>, n: nat, st: ShowtimeId)
    requires n < |commits|
  {
    forall j :: 0 <= j < n && ((commits[j].op.Hold? && commits[j].op.st == st) || (commits[j].op.Sweep? && commits[j].op.st == st))
      ==> commits[j].now <= commits[n].now
  }

  /** All or nothing: if timestamps do not decrease in lock order, a booking covers
      every seat that its hold claimed. */
  lemma ConfirmIsAllOrNothing(cat: Catalog, schedule: seq<Label>, c: nat, n: nat)
    requires ValidCatalog(cat) && HeldThenConfirmed(Reach(cat, schedule), c, n)
    requires ClockFollowsLock(Reach(cat, schedule).commits, n, Reach(cat, schedule).commits[c].op.st)
    ensures var s := Reach(cat, schedule);
            HoldSeats(s.history[n + 1].occ, s.commits[c].op.token) == Elements(s.commits[c].op.seats)
  {
    hide HoldSeats;
    BookingIsWholeIff(cat, schedule, c, n);
    ConfirmedInTime(cat, schedule, c, n);
  }

  lemma ConfirmedInTime(cat: Catalog, schedule: seq<Label>, c: nat, n: nat)
    requires ValidCatalog(cat) && HeldThenConfirmed(Reach(cat, schedule), c, n)
    ensures var s := Reach(cat, schedule);
            s.commits[n].now < ExpiryOf(s.commits[c])
  {
    hide Inv, Evolves, Committed;
    var s := Reach(cat, schedule);
    EveryRunIsSerial(cat, schedule);
    Evolution(cat, schedule, c, n);
    Evolution(cat, schedule, c + 1, n);
    HoldCreatesRows(cat, s.history[c], s.history[c + 1], s.commits[c]);
    SeatsAtConfirm(cat, s.history[n], s.history[n + 1], s.commits[n]);
    ExpiryIsFixed(s.history[c + 1], s.history[n], s.commits[c].op.token);
  }

  lemma ExpiryIsFixed(a: Tables, b: Tables, token: Token)
    requires Evolves(a, b) && token in a.holds
    ensures token in b.holds && b.holds[token].expiresAt == a.holds[token].expiresAt
  {}
}
