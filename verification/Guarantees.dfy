/** What every run guarantees, with no assumption about the clock. */
module Guarantees {
  import opened Schema
  import opened Statements
  import opened Bodies
  import opened Invariants
  import opened Protocol
  import opened Paths
  import opened Moving
  import opened Refinement

  lemma {:induction false} HistoryEvolves(cat: Catalog, history: seq<Tables>, commits: seq<Commit>, i: nat, j: nat)
    requires ValidCatalog(cat) && Serial(cat, history, commits) && HistoryOk(cat, history) && i <= j < |history|
    ensures Evolves(history[i], history[j])
  {
    hide Inv, Evolves, Body;
    if i == j {
      EvolvesToItself(history[i]);
    } else {
      HistoryEvolves(cat, history, commits, i, j - 1);
      assert Committed(cat, history[j - 1], history[j], commits[j - 1]);
      BodyKeepsInv(cat, history[j - 1], commits[j - 1].op, commits[j - 1].now);
      EvolvesTransitively(history[i], history[j - 1], history[j]);
    }
  }

  lemma Evolution(cat: Catalog, schedule: seq<Label>, i: nat, j: nat)
    requires ValidCatalog(cat) && i <= j < |Reach(cat, schedule).history|
    ensures var history := Reach(cat, schedule).history;
            Inv(cat, history[i]) && Inv(cat, history[j]) && Evolves(history[i], history[j])
  {
    hide Inv, Evolves;
    var s := Reach(cat, schedule);
    ReachIsGood(cat, schedule);
    HistoryEvolves(cat, s.history, s.commits, i, j);
  }

  // ---- the lock protects the rows ----

  /** The committed rows of a showtime change only when the transaction that holds
      the showtime's lock commits. */
  lemma RowsChangeOnlyUnderTheirLock(cat: Catalog, schedule: seq<Label>, l: Label, st: ShowtimeId)
    requires ValidCatalog(cat) && Enabled(cat, Reach(cat, schedule), l)
    requires var s := Reach(cat, schedule);
             Show(Db(Apply(cat, s, l)), st) != Show(Db(s), st)
    ensures var s := Reach(cat, schedule);
            l.CommitTx? && st in s.locks && s.locks[st] == l.id
  {
    hide Good, Show, Reach, Apply, Enabled;
    var s := Reach(cat, schedule);
    ReachIsGood(cat, schedule);
    OnlyCommitsChangeTables(cat, s, l);
    if l.CommitTx? {
      CommitsUnderItsLock(cat, s, l.id, st);
    }
  }

  lemma OnlyCommitsChangeTables(cat: Catalog, s: State, l: Label)
    requires s.history != [] && Enabled(cat, s, l)
    ensures Apply(cat, s, l).history != [] && (!l.CommitTx? ==> Apply(cat, s, l).history == s.history)
  {}

  lemma CommitsUnderItsLock(cat: Catalog, s: State, id: TxId, st: ShowtimeId)
    requires ValidCatalog(cat) && Good(cat, s) && Enabled(cat, s, CommitTx(id))
    requires Show(Db(Apply(cat, s, CommitTx(id))), st) != Show(Db(s), st)
    ensures st in s.locks && s.locks[st] == id
  {
    hide Inv, Evolves, OnPath, Show;
    var tx := s.txs[id];
    CommitBody(cat, s, tx);
    if tx.st != st {
      EvolutionKeepsShow(Db(s), tx.writes, st, tx.st);
    }
  }

  // ---- the index never fires ----

  lemma ClaimCount(h: HoldRow, token: Token, seats: seq<SeatId>)
    requires Distinct(seats)
    ensures |ClaimSeats(h, token, seats)| == |seats|
  {
    DistinctCount(seats);
    var rows := ClaimSeats(h, token, seats);
    SeatsOfKeys(token, rows.Keys);
    assert (set k | k in rows.Keys :: k.seat) == Elements(seats) by {
      forall s ensures s in (set k | k in rows.Keys :: k.seat) <==> s in seats {
        if s in seats { assert OccKey(token, s) in rows.Keys; }
      }
    }
    assert |rows| == |rows.Keys|;
  }

  /** Run alone, a hold is never refused by the index, for any timestamp at all. */
  lemma BodyNeverLosesTheRace(cat: Catalog, db: Tables, op: Op, now: Time)
    ensures Body(cat, db, op, now) != Failed(SeatRaceLost)
  {
    if op.Hold? {
      var after := db.occ + ReclaimExpiredSeats(db.occ, op.st, op.seats, now);
      if |FindSeatConflicts(after, op.st, op.seats, now)| == 0 {
        IndexNeverRefuses(db.occ, op, now);
      }
    }
  }

  /** In every reachable state a claim that is about to run inserts every row: it
      meets no unreleased row, committed or its own. */
  lemma ClaimNeverFails(cat: Catalog, schedule: seq<Label>, id: TxId)
    requires ValidCatalog(cat)
    requires var s := Reach(cat, schedule);
             id in s.txs && s.txs[id].op.Hold? && s.txs[id].pc.HoldClaim?
    ensures var s := Reach(cat, schedule);
            var tx := s.txs[id];
            Execute(cat, View(s, tx), tx.op, tx.now, tx.pc).Next?
  {
    var s := Reach(cat, schedule);
    var tx := s.txs[id];
    ReachIsGood(cat, schedule);
    RunStays(cat, s, tx);
    IsLater(cat, s.history, tx);
    PathClaims(cat, s.history[tx.mark], tx.op, tx.now, tx.writes);
  }

  lemma PathClaims(cat: Catalog, m: Tables, op: Op, now: Time, w: Tables)
    requires op.Hold? && ValidOp(op) && HoldPath(cat, m, op, now, HoldClaim, w) && op.token !in m.holds
    ensures HoldBody(cat, m, op, now).Done?
  {
    IndexNeverRefuses(m.occ, op, now);
    ClaimCount(CreateHold(op.st, op.customer, op.ttlSeconds, now), op.token, op.seats);
  }

  /** No run ever records a lost seat race. */
  lemma IndexNeverFires(cat: Catalog, schedule: seq<Label>)
    requires ValidCatalog(cat)
    ensures forall i :: 0 <= i < |Reach(cat, schedule).failures| ==>
              Reach(cat, schedule).failures[i].error != SeatRaceLost
  {
    var s := Reach(cat, schedule);
    EveryRunIsSerial(cat, schedule);
    forall i | 0 <= i < |s.failures| ensures s.failures[i].error != SeatRaceLost {
      var f := s.failures[i];
      assert Explained(cat, s.history, f);
      BodyNeverLosesTheRace(cat, s.history[f.at], f.op, f.now);
    }
  }

  // ---- confirm meets its hold ----

  lemma ConfirmPathCounts(cat: Catalog, m: Tables, op: Op, now: Time, pc: Pc, w: Tables)
    requires ValidCatalog(cat) && Inv(cat, m) && op.Confirm? && ConfirmPath(cat, m, op, now, pc, w)
    ensures pc.ConfirmRows? ==>
              |ConfirmHoldSeats(m.occ, op.token, now)| == 0 || |ConfirmHoldSeats(m.occ, op.token, now)| == |pc.seats|
    ensures pc.ConfirmRow? ==> HoldConfirmable(m.holds[op.token], now)
  {
    if pc.ConfirmRows? || pc.ConfirmRow? {
      ConfirmAllOrNone(cat, m, op.token, now);
    }
  }

  /** Under the lock, confirming the seat rows matches none or all of the counted
      seats. */
  lemma ConfirmMatchesNoneOrAll(cat: Catalog, schedule: seq<Label>, id: TxId)
    requires ValidCatalog(cat)
    requires var s := Reach(cat, schedule);
             id in s.txs && s.txs[id].op.Confirm? && s.txs[id].pc.ConfirmRows?
    ensures var s := Reach(cat, schedule);
            var tx := s.txs[id];
            var rows := ConfirmHoldSeats(View(s, tx).occ, tx.op.token, tx.now);
            |rows| == 0 || |rows| == |tx.pc.seats|
  {
    var s := Reach(cat, schedule);
    var tx := s.txs[id];
    ReachIsGood(cat, schedule);
    IsLater(cat, s.history, tx);
    ConfirmPathCounts(cat, s.history[tx.mark], tx.op, tx.now, tx.pc, tx.writes);
    HoldStaysPut(cat, s.history[tx.mark], Db(s), tx.op, tx.st, tx.now);
    PlusEmpty(Db(s).occ);
  }

  /** Once the seat rows have all matched, confirming the hold updates its one row. */
  lemma ConfirmedSeatsConfirmTheHold(cat: Catalog, schedule: seq<Label>, id: TxId)
    requires ValidCatalog(cat)
    requires var s := Reach(cat, schedule);
             id in s.txs && s.txs[id].op.Confirm? && s.txs[id].pc.ConfirmRow?
    ensures var s := Reach(cat, schedule);
            var tx := s.txs[id];
            |ConfirmHold(View(s, tx).holds, tx.op.token, tx.now)| == 1
  {
    var s := Reach(cat, schedule);
    var tx := s.txs[id];
    ReachIsGood(cat, schedule);
    IsLater(cat, s.history, tx);
    ConfirmPathCounts(cat, s.history[tx.mark], tx.op, tx.now, tx.pc, tx.writes);
    HoldStaysPut(cat, s.history[tx.mark], Db(s), tx.op, tx.st, tx.now);
    PlusEmpty(Db(s).holds);
    ConfirmHoldCount(Db(s).holds, tx.op.token, tx.now);
  }

  // ---- no double sale ----

  /** A seat row once confirmed stays confirmed and unreleased, under the same hold,
      for the rest of the run, and stays the only unreleased row for its seat. */
  lemma SoldStaysSold(cat: Catalog, schedule: seq<Label>, i: nat, j: nat, k: OccKey)
    requires ValidCatalog(cat) && i <= j < |Reach(cat, schedule).history|
    requires var a := Reach(cat, schedule).history[i];
             k in a.occ && a.occ[k].confirmedAt.Some?
    ensures var a, b := Reach(cat, schedule).history[i], Reach(cat, schedule).history[j];
            && k in b.occ && b.occ[k] == a.occ[k] && b.occ[k].releasedAt.None?
            && forall k' :: k' in b.occ && SameSeat(k', b.occ[k'], k, b.occ[k]) ==> k' == k
  {
    Evolution(cat, schedule, i, j);
  }

  /** Different bookings of one showtime share no seat, and none of them is empty. */
  lemma BookingsAreDisjoint(cat: Catalog, schedule: seq<Label>, i: nat, r: Ref, r': Ref)
    requires ValidCatalog(cat) && i < |Reach(cat, schedule).history|
    requires var db := Reach(cat, schedule).history[i];
             r in db.bookings && r' in db.bookings && r != r' && db.bookings[r].showtime == db.bookings[r'].showtime
    ensures var db := Reach(cat, schedule).history[i];
            && HoldSeats(db.occ, db.bookings[r].hold) != {}
            && HoldSeats(db.occ, db.bookings[r].hold) !! HoldSeats(db.occ, db.bookings[r'].hold)
  {
    Evolution(cat, schedule, i, i);
    SeatsOfBookingsApart(cat, Reach(cat, schedule).history[i], r, r');
  }

  lemma SeatsOfBookingsApart(cat: Catalog, db: Tables, r: Ref, r': Ref)
    requires Inv(cat, db)
    requires r in db.bookings && r' in db.bookings && r != r' && db.bookings[r].showtime == db.bookings[r'].showtime
    ensures HoldSeats(db.occ, db.bookings[r].hold) != {}
    ensures HoldSeats(db.occ, db.bookings[r].hold) !! HoldSeats(db.occ, db.bookings[r'].hold)
  {
    var h, h' := db.bookings[r].hold, db.bookings[r'].hold;
    assert BookingAgrees(cat, db, db.bookings[r]) && BookingAgrees(cat, db, db.bookings[r']);
    assert !SameUnique(r, db.bookings[r], r', db.bookings[r']);
    forall s | s in HoldSeats(db.occ, h) ensures s !in HoldSeats(db.occ, h') {
      var k, k' := OccKey(h, s), OccKey(h', s);
      if s in HoldSeats(db.occ, h') {
        assert SameSeat(k, db.occ[k], k', db.occ[k']);
        assert false;
      }
    }
  }

  // ---- confirmed means booked ----

  /** In every committed state, a hold is confirmed exactly when a booking names it,
      the booking is the only one, and every seat the hold still has is confirmed. */
  lemma ConfirmedMeansBooked(cat: Catalog, schedule: seq<Label>, i: nat, token: Token)
    requires ValidCatalog(cat) && i < |Reach(cat, schedule).history|
    requires token in Reach(cat, schedule).history[i].holds
    ensures var db := Reach(cat, schedule).history[i];
            && (db.holds[token].confirmedAt.Some? <==> Booked(db.bookings, token))
            && (forall r, r' | r in db.bookings && r' in db.bookings
                               && db.bookings[r].hold == token && db.bookings[r'].hold == token :: r == r')
            && (db.holds[token].confirmedAt.Some? ==>
                  forall k :: k in HoldKeys(db.occ, token) ==> db.occ[k].confirmedAt == db.holds[token].confirmedAt)
  {
    Evolution(cat, schedule, i, i);
    var db := Reach(cat, schedule).history[i];
    if Booked(db.bookings, token) {
      assert BookingAgrees(cat, db, db.bookings[GetBookingByHold(db.bookings, token)]);
    }
    forall r, r' | r in db.bookings && r' in db.bookings && db.bookings[r].hold == token && db.bookings[r'].hold == token
      ensures r == r'
    {
      assert SameUnique(r, db.bookings[r], r', db.bookings[r']);
    }
  }

  /** What the booking read returns when it finds the booking in one committed state
      and the seats in another. */
  ghost function GetBooking(cat: Catalog, a: Tables, b: Tables, ref: Ref): Result
    requires ref in a.bookings
  {
    BookingFrom(ref, a.bookings[ref], GetHoldSeats(cat, b.occ, a.bookings[ref].hold))
  }

  lemma BookingIsFixed(cat: Catalog, a: Tables, b: Tables, c: Tables, ref: Ref)
    requires Inv(cat, a) && Inv(cat, b) && Evolves(a, b) && Evolves(a, c) && ref in a.bookings
    ensures ref in b.bookings && GetBooking(cat, b, c, ref) == GetBooking(cat, a, a, ref)
  {
    assert BookingAgrees(cat, a, a.bookings[ref]);
    ConfirmedKeepsSeats(cat, a, c, a.bookings[ref].hold);
  }

  /** A booking that a Confirm returned is what the booking read gives in the state
      it left behind. */
  lemma ConfirmReturnsTheBooking(cat: Catalog, db: Tables, op: Op, now: Time)
    requires ValidCatalog(cat) && Inv(cat, db) && ValidOp(op) && op.Confirm? && Body(cat, db, op, now).Done?
    ensures var o := Body(cat, db, op, now);
            var after := Merge(db, o.writes);
            && o.result.Booking? && o.result.ref in after.bookings
            && after.bookings[o.result.ref].hold == op.token
            && GetBooking(cat, after, after, o.result.ref) == o.result
  {
    hide Inv;
    if op.token in db.holds && db.holds[op.token].confirmedAt.Some? {
      MergeNothing(db);
    } else {
      FirstConfirmReturns(cat, db, op, now);
    }
  }

  lemma FirstConfirmReturns(cat: Catalog, db: Tables, op: Op, now: Time)
    requires op.Confirm? && Body(cat, db, op, now).Done? && db.holds[op.token].confirmedAt.None?
    ensures var o := Body(cat, db, op, now);
            var after := Merge(db, o.writes);
            && o.result.Booking? && o.result.ref in after.bookings
            && after.bookings[o.result.ref].hold == op.token
            && GetBooking(cat, after, after, o.result.ref) == o.result
  {
    hide GetHoldSeats, ConfirmHoldSeats, InsertBooking, KeyOfAnotherHold;
    ConfirmRowsKeepSeats(cat, db, op, now);
  }

  lemma ConfirmRowsKeepSeats(cat: Catalog, db: Tables, op: Op, now: Time)
    requires op.Confirm?
    ensures GetHoldSeats(cat, db.occ + ConfirmHoldSeats(db.occ, op.token, now), op.token)
         == GetHoldSeats(cat, db.occ, op.token)
  {
    var after := db.occ + ConfirmHoldSeats(db.occ, op.token, now);
    assert HoldSeats(after, op.token) == HoldSeats(db.occ, op.token) by {
      forall s ensures s in HoldSeats(after, op.token) <==> s in HoldSeats(db.occ, op.token) {
        var k := OccKey(op.token, s);
        assert s in HoldSeats(after, op.token) <==> k in after && after[k].releasedAt.None?;
        assert s in HoldSeats(db.occ, op.token) <==> k in db.occ && db.occ[k].releasedAt.None?;
      }
    }
  }

  /** A hold read in one committed state and its seats in a later one, as a reader without
      a lock may see them: never a seat the hold did not have when it was read, all of
      them if it was confirmed, none if it was released. */
  lemma HoldSeenAcrossStates(cat: Catalog, schedule: seq<Label>, i: nat, j: nat, token: Token)
    requires ValidCatalog(cat) && i <= j < |Reach(cat, schedule).history|
    requires token in Reach(cat, schedule).history[i].holds
    ensures var a, b := Reach(cat, schedule).history[i], Reach(cat, schedule).history[j];
            && HoldSeats(b.occ, token) <= HoldSeats(a.occ, token)
            && (a.holds[token].confirmedAt.Some? ==> GetHoldSeats(cat, b.occ, token) == GetHoldSeats(cat, a.occ, token))
            && (a.holds[token].releasedAt.Some? ==> HoldSeats(b.occ, token) == {})
  {
    hide Reach;
    Evolution(cat, schedule, i, j);
    SeatsOnlyGo(cat, Reach(cat, schedule).history[i], Reach(cat, schedule).history[j], token);
  }

  lemma SeatsOnlyGo(cat: Catalog, a: Tables, b: Tables, token: Token)
    requires Inv(cat, a) && Evolves(a, b) && token in a.holds
    ensures HoldSeats(b.occ, token) <= HoldSeats(a.occ, token)
    ensures a.holds[token].confirmedAt.Some? ==> HoldSeats(b.occ, token) == HoldSeats(a.occ, token)
    ensures a.holds[token].releasedAt.Some? ==> HoldSeats(b.occ, token) == {}
  {
    if a.holds[token].confirmedAt.Some? {
      ConfirmedKeepsSeats(cat, a, b, token);
    }
    forall s | s in HoldSeats(b.occ, token)
      ensures s in HoldSeats(a.occ, token) && a.holds[token].releasedAt.None?
    {
      var k := OccKey(token, s);
      assert k in b.occ && b.occ[k].releasedAt.None?;
      assert k in a.occ && RowEvolves(a.occ[k], b.occ[k]);
      assert RowAgrees(k, a.occ[k], a.holds[token]);
    }
  }

  /** The state a commit left behind returns its booking, whichever committed states
      the two reads then see. */
  lemma CommitIsReadBack(cat: Catalog, schedule: seq<Label>, i: nat, a: nat, b: nat)
    requires ValidCatalog(cat) && i < |Reach(cat, schedule).commits| && Reach(cat, schedule).commits[i].op.Confirm?
    requires i < a < |Reach(cat, schedule).history| && i < b < |Reach(cat, schedule).history|
    ensures var s := Reach(cat, schedule);
            var result := s.commits[i].result;
            && result.Booking? && result.ref in s.history[a].bookings
            && s.history[a].bookings[result.ref].hold == s.commits[i].op.token
            && GetBooking(cat, s.history[a], s.history[b], result.ref) == result
  {
    var s := Reach(cat, schedule);
    var c := s.commits[i];
    EveryRunIsSerial(cat, schedule);
    assert Committed(cat, s.history[i], s.history[i + 1], c);
    Evolution(cat, schedule, i, i + 1);
    Evolution(cat, schedule, i + 1, a);
    Evolution(cat, schedule, i + 1, b);
    ConfirmReturnsTheBooking(cat, s.history[i], c.op, c.now);
    BookingIsFixed(cat, s.history[i + 1], s.history[a], s.history[b], c.result.ref);
  }

  /** Every Confirm of one hold that succeeds, under any keys and at any time, returns
      the same reference, seats, total and creation time. */
  lemma ReplaysAgree(cat: Catalog, schedule: seq<Label>, i: nat, j: nat)
    requires ValidCatalog(cat) && i < j < |Reach(cat, schedule).commits|
    requires var commits := Reach(cat, schedule).commits;
             commits[i].op.Confirm? && commits[j].op.Confirm? && commits[i].op.token == commits[j].op.token
    ensures Reach(cat, schedule).commits[j].result == Reach(cat, schedule).commits[i].result
  {
    var s := Reach(cat, schedule);
    EveryRunIsSerial(cat, schedule);
    CommitIsReadBack(cat, schedule, i, j + 1, j + 1);
    CommitIsReadBack(cat, schedule, j, j + 1, j + 1);
    ConfirmedMeansBookedOnce(cat, schedule, j + 1, s.commits[i].result.ref, s.commits[j].result.ref);
  }

  lemma ConfirmedMeansBookedOnce(cat: Catalog, schedule: seq<Label>, i: nat, r: Ref, r': Ref)
    requires ValidCatalog(cat) && i < |Reach(cat, schedule).history|
    requires var db := Reach(cat, schedule).history[i];
             r in db.bookings && r' in db.bookings && db.bookings[r].hold == db.bookings[r'].hold
    ensures r == r'
  {
    Evolution(cat, schedule, i, i);
    var db := Reach(cat, schedule).history[i];
    assert SameUnique(r, db.bookings[r], r', db.bookings[r']);
  }

  // ---- one key, one booking ----

  /** A Confirm that commits while its customer's key belongs to another hold is a
      replay of a hold that was already confirmed, and changes nothing. An unconfirmed
      hold cannot get past that key. */
  lemma KeyServesOneHold(cat: Catalog, schedule: seq<Label>, i: nat)
    requires ValidCatalog(cat) && i < |Reach(cat, schedule).commits| && i + 1 < |Reach(cat, schedule).history|
    requires var s := Reach(cat, schedule);
             var op := s.commits[i].op;
             && op.Confirm? && op.token in s.history[i].holds
             && KeyOfAnotherHold(s.history[i].bookings, s.history[i].holds[op.token].customer, op.key, op.token)
    ensures var s := Reach(cat, schedule);
            && s.history[i].holds[s.commits[i].op.token].confirmedAt.Some?
            && s.history[i + 1] == s.history[i]
  {
    var s := Reach(cat, schedule);
    EveryRunIsSerial(cat, schedule);
    assert Committed(cat, s.history[i], s.history[i + 1], s.commits[i]);
    MergeNothing(s.history[i]);
  }

  /** Two successful confirms of different holds by one customer under one key cannot
      both have booked under it, even on different showtimes under different locks. */
  lemma OneKeyOneBooking(cat: Catalog, schedule: seq<Label>, i: nat, j: nat)
    requires ValidCatalog(cat) && i < |Reach(cat, schedule).commits| && j < |Reach(cat, schedule).commits|
    requires var commits := Reach(cat, schedule).commits;
             commits[i].op.Confirm? && commits[j].op.Confirm? && commits[i].op.token != commits[j].op.token
    ensures var s := Reach(cat, schedule);
            && s.commits[i].result.Booking? && s.commits[j].result.Booking?
            && var r, r' := s.commits[i].result.ref, s.commits[j].result.ref;
            && r in Db(s).bookings && r' in Db(s).bookings && r != r'
            && !(Db(s).bookings[r].customer == Db(s).bookings[r'].customer
                 && Db(s).bookings[r].key == Db(s).bookings[r'].key)
  {
    hide Evolves, GetBooking, Committed;
    var s := Reach(cat, schedule);
    EveryRunIsSerial(cat, schedule);
    CommitIsReadBack(cat, schedule, i, Latest(s), Latest(s));
    CommitIsReadBack(cat, schedule, j, Latest(s), Latest(s));
    Evolution(cat, schedule, Latest(s), Latest(s));
    var r, r' := s.commits[i].result.ref, s.commits[j].result.ref;
    assert !SameUnique(r, Db(s).bookings[r], r', Db(s).bookings[r']);
  }

  /** The failed confirm of an open hold is told that its key is used exactly when the key
      belonged to another hold in the state that explains the failure, which is so
      whenever it did when the request arrived. */
  lemma KeyLoserIsTold(cat: Catalog, schedule: seq<Label>, i: nat)
    requires ValidCatalog(cat) && i < |Reach(cat, schedule).failures|
    requires var s := Reach(cat, schedule);
             var f := s.failures[i];
             && f.op.Confirm? && f.arrived < |s.history| && f.at < |s.history|
             && f.op.token in s.history[f.at].holds
             && s.history[f.at].holds[f.op.token].confirmedAt.None? && s.history[f.at].holds[f.op.token].releasedAt.None?
    ensures var s := Reach(cat, schedule);
            var f := s.failures[i];
            var customer := s.history[f.at].holds[f.op.token].customer;
            && (f.error == IdempotencyKeyReused
                <==> KeyOfAnotherHold(s.history[f.at].bookings, customer, f.op.key, f.op.token))
            && (KeyOfAnotherHold(s.history[f.arrived].bookings, customer, f.op.key, f.op.token)
                ==> f.error == IdempotencyKeyReused)
  {
    hide Reach, Inv, Evolves;
    var s := Reach(cat, schedule);
    var f := s.failures[i];
    EveryRunIsSerial(cat, schedule);
    assert Explained(cat, s.history, f);
    Evolution(cat, schedule, f.arrived, f.at);
    var customer := s.history[f.at].holds[f.op.token].customer;
    if KeyOfAnotherHold(s.history[f.arrived].bookings, customer, f.op.key, f.op.token) {
      KeyStaysTaken(s.history[f.arrived], s.history[f.at], customer, f.op.key, f.op.token);
    }
    KeyReusedIff(cat, s.history[f.at], f.op, f.now, f.error);
  }

  lemma KeyStaysTaken(a: Tables, b: Tables, customer: string, key: string, token: Token)
    requires Evolves(a, b) && KeyOfAnotherHold(a.bookings, customer, key, token)
    ensures KeyOfAnotherHold(b.bookings, customer, key, token)
  {
    var r :| r in a.bookings && a.bookings[r].customer == customer && a.bookings[r].key == key && a.bookings[r].hold != token;
    assert r in b.bookings && b.bookings[r] == a.bookings[r];
  }

  lemma {:induction false} ReusedMeansTaken(bookings: map<Ref, BookingRow>, b: BookingRow, refs: seq<Ref>)
    requires InsertBooking(bookings, b, refs).KeyReused?
    ensures KeyTaken(bookings, b.customer, b.key)
  {
    if !KeyTaken(bookings, b.customer, b.key) {
      ReusedMeansTaken(bookings, b, refs[1..]);
    }
  }

  lemma KeyReusedIff(cat: Catalog, db: Tables, op: Op, now: Time, error: Error)
    requires Inv(cat, db) && op.Confirm? && op.token in db.holds && Body(cat, db, op, now) == Failed(error)
    requires db.holds[op.token].confirmedAt.None? && db.holds[op.token].releasedAt.None?
    ensures error == IdempotencyKeyReused <==> KeyOfAnotherHold(db.bookings, db.holds[op.token].customer, op.key, op.token)
  {
    hide GetHoldSeats, ConfirmHoldSeats;
    var h := db.holds[op.token];
    if error == IdempotencyKeyReused && !KeyOfAnotherHold(db.bookings, h.customer, op.key, op.token) {
      var b := BookingRowFor(cat, op, h, |GetHoldSeats(cat, db.occ, op.token)|, now);
      ReusedMeansTaken(db.bookings, b, op.refs);
      KeyTakenByAnother(cat, db, op, h);
    }
  }
}
