/** The database as one process sees it between other transactions: tables that the
    statements update row by row, each returning its row count.

    Every method is tied to the function of the same name in Statements. */
module Store {
  import opened Schema
  import S = Statements
  import Collections
  import opened Invariants
  import opened SeatMaps
  import Sweeps

  // ---- ORDER BY and slices.Sort ----

  /** Put one more id in its place. */
  method Insert(s: seq<SeatId>, x: SeatId) returns (r: seq<SeatId>)
    requires Ascending(s) && x !in s
    ensures Ascending(r) && Elements(r) == Elements(s) + {x}
  {
    var i := 0;
    while i < |s| && s[i] < x
      invariant i <= |s| && forall j :: 0 <= j < i ==> s[j] < x
    {
      i := i + 1;
    }
    r := s[..i] + [x] + s[i..];
    InsertedElements(s, i, x);
  }

  lemma InsertedElements(s: seq<SeatId>, i: nat, x: SeatId)
    requires i <= |s|
    ensures Elements(s[..i] + [x] + s[i..]) == Elements(s) + {x}
  {
    var r := s[..i] + [x] + s[i..];
    assert s == s[..i] + s[i..];
    forall y ensures y in r <==> y in s || y == x {
      assert y in r <==> y in s[..i] || y == x || y in s[i..];
    }
  }

  method Sort(ids: seq<SeatId>) returns (s: seq<SeatId>)
    requires Distinct(ids)
    ensures s == Sorted(Elements(ids))
  {
    s := [];
    var i := 0;
    while i < |ids|
      invariant i <= |ids|
      invariant Ascending(s) && Elements(s) == Elements(ids[..i])
    {
      assert ids[..i + 1] == ids[..i] + [ids[i]];
      assert forall y :: y in s ==> y in Elements(s);
      s := Insert(s, ids[i]);
      i := i + 1;
    }
    assert ids[..i] == ids;
    AscendingUnique(s, Sorted(Elements(ids)));
  }

  method InOrder(ids: set<SeatId>) returns (s: seq<SeatId>)
    ensures s == Sorted(ids)
  {
    s := [];
    var todo := ids;
    while todo != {}
      invariant todo <= ids
      invariant Ascending(s) && Elements(s) == ids - todo
      decreases |todo|
    {
      var x := Collections.Any(todo);
      assert forall y :: y in s ==> y in Elements(s);
      s := Insert(s, x);
      todo := todo - {x};
    }
    AscendingUnique(s, Sorted(ids));
  }

  // ---- the index, one row at a time ----

  ghost predicate Taken(occ: map<OccKey, OccRow>, st: ShowtimeId, seat: SeatId) {
    exists k :: k in occ && k.seat == seat && occ[k].showtime == st && occ[k].releasedAt.None?
  }

  /** The row for the next seat fits exactly if the index would take the whole prefix. */
  lemma NextRowFits(occ: map<OccKey, OccRow>, h: HoldRow, token: Token, seats: seq<SeatId>, n: nat)
    requires Distinct(seats) && n < |seats|
    requires !S.IndexRefuses(occ, S.ClaimSeats(h, token, seats[..n]))
    ensures var inserted := occ + S.ClaimSeats(h, token, seats[..n]);
            && inserted[OccKey(token, seats[n]) := OccRow(h.showtime, h.expiresAt, None, None)]
               == occ + S.ClaimSeats(h, token, seats[..n + 1])
            && if Taken(inserted, h.showtime, seats[n]) then S.IndexRefuses(occ, S.ClaimSeats(h, token, seats))
               else !S.IndexRefuses(occ, S.ClaimSeats(h, token, seats[..n + 1]))
  {
    hide S.IndexRefuses, S.ClaimSeats;
    var inserted := occ + S.ClaimSeats(h, token, seats[..n]);
    NextRow(h, token, seats, n);
    SeatIsUntouched(occ, h, token, seats, n);
    if Taken(inserted, h.showtime, seats[n]) {
      TakenIsRefused(occ, h, token, seats, n);
    } else {
      FreeIsAccepted(occ, h, token, seats, n);
    }
  }

  lemma NextRow(h: HoldRow, token: Token, seats: seq<SeatId>, n: nat)
    requires n < |seats|
    ensures S.ClaimSeats(h, token, seats[..n + 1])
         == S.ClaimSeats(h, token, seats[..n])[OccKey(token, seats[n]) := OccRow(h.showtime, h.expiresAt, None, None)]
  {
    assert seats[..n + 1] == seats[..n] + [seats[n]];
  }

  lemma SeatIsUntouched(occ: map<OccKey, OccRow>, h: HoldRow, token: Token, seats: seq<SeatId>, n: nat)
    requires Distinct(seats) && n < |seats|
    ensures Taken(occ + S.ClaimSeats(h, token, seats[..n]), h.showtime, seats[n]) <==> Taken(occ, h.showtime, seats[n])
  {
    var inserted := occ + S.ClaimSeats(h, token, seats[..n]);
    assert forall k :: k in inserted && k.seat == seats[n] ==> k in occ && inserted[k] == occ[k];
    assert forall k :: k in occ && k.seat == seats[n] ==> k in inserted && inserted[k] == occ[k];
  }

  lemma TakenIsRefused(occ: map<OccKey, OccRow>, h: HoldRow, token: Token, seats: seq<SeatId>, n: nat)
    requires n < |seats| && Taken(occ, h.showtime, seats[n])
    ensures S.IndexRefuses(occ, S.ClaimSeats(h, token, seats))
  {
    var rows, next := S.ClaimSeats(h, token, seats), OccKey(token, seats[n]);
    var k :| k in occ && k.seat == seats[n] && occ[k].showtime == h.showtime && occ[k].releasedAt.None?;
    assert next in rows && S.SameSeat(k, occ[k], next, rows[next]);
  }

  lemma FreeIsAccepted(occ: map<OccKey, OccRow>, h: HoldRow, token: Token, seats: seq<SeatId>, n: nat)
    requires n < |seats| && !Taken(occ, h.showtime, seats[n])
    requires !S.IndexRefuses(occ, S.ClaimSeats(h, token, seats[..n]))
    ensures !S.IndexRefuses(occ, S.ClaimSeats(h, token, seats[..n + 1]))
  {
    var rows, more := S.ClaimSeats(h, token, seats[..n]), S.ClaimSeats(h, token, seats[..n + 1]);
    NextRow(h, token, seats, n);
    forall k, m | k in occ && m in more ensures !S.SameSeat(k, occ[k], m, more[m]) {
      if m in rows && m.seat != seats[n] {
        assert !S.SameSeat(k, occ[k], m, rows[m]);
      }
    }
  }

  lemma OnlyLiveRow(occ: map<OccKey, OccRow>, st: ShowtimeId, seat: SeatId, now: Time, k: OccKey)
    requires IndexOk(occ) && k in LiveRows(occ, st, seat, now)
    ensures StatusOf(occ, st, seat, now) == if occ[k].confirmedAt.Some? then Sold else Status.Held
  {
    forall k' | k' in LiveRows(occ, st, seat, now) ensures k' == k {
      assert S.SameSeat(k', occ[k'], k, occ[k]);
    }
  }

  /** A row of the hold that is neither confirmed nor released. */
  ghost predicate IsOpen(occ: map<OccKey, OccRow>, token: Token, k: OccKey) {
    k in occ && k.hold == token && occ[k].releasedAt.None? && occ[k].confirmedAt.None?
  }

  class Db {
    const cat: Catalog
    var holds: map<Token, HoldRow>
    var occ: map<OccKey, OccRow>
    var bookings: map<Ref, BookingRow>

    ghost function Now(): Tables
      reads this
    {
      Tables(holds, occ, bookings)
    }

    constructor (cat: Catalog)
      ensures this.cat == cat && Now() == NOTHING
    {
      this.cat := cat;
      holds, occ, bookings := map[], map[], map[];
    }

    // ---- transactions ----

    method Begin() returns (saved: Tables)
      ensures saved == Now()
    {
      saved := Tables(holds, occ, bookings);
    }

    method Rollback(saved: Tables)
      modifies this
      ensures Now() == saved
    {
      holds, occ, bookings := saved.holds, saved.occ, saved.bookings;
    }

    // ---- seat_occupancy ----

    /** UPDATE seat_occupancy SET ... WHERE ... */
    method UpdateRows(matches: (OccKey, OccRow) -> bool, change: OccRow -> OccRow)
      returns (n: nat, ghost changed: set<OccKey>)
      modifies `occ
      ensures occ.Keys == old(occ).Keys
      ensures forall k :: k in occ ==> occ[k] == if matches(k, old(occ)[k]) then change(old(occ)[k]) else old(occ)[k]
      ensures n == |changed| && changed == set k | k in old(occ) && matches(k, old(occ)[k])
    {
      n := 0;
      var todo := occ.Keys;
      changed := {};
      while todo != {}
        invariant todo <= occ.Keys == old(occ).Keys
        invariant changed == set k | k in old(occ) && k !in todo && matches(k, old(occ)[k])
        invariant n == |changed|
        invariant forall k :: k in occ ==> occ[k] == if k in changed then change(old(occ)[k]) else old(occ)[k]
        decreases |todo|
      {
        var k := Collections.Any(todo);
        todo := todo - {k};
        if matches(k, occ[k]) {
          occ := occ[k := change(occ[k])];
          changed := changed + {k};
          n := n + 1;
        }
      }
    }

    method ReclaimExpiredSeats(st: ShowtimeId, seats: seq<SeatId>, now: Time) returns (n: nat)
      modifies `occ
      ensures occ == old(occ) + S.ReclaimExpiredSeats(old(occ), st, seats, now)
      ensures n == |S.ReclaimExpiredSeats(old(occ), st, seats, now)|
    {
      ghost var rows := S.ReclaimExpiredSeats(occ, st, seats, now);
      ghost var changed;
      n, changed := UpdateRows((k: OccKey, row: OccRow) => row.showtime == st && k.seat in seats && S.Lapsed(row, now),
                      (row: OccRow) => row.(releasedAt := Some(now)));
      assert rows.Keys == changed && |rows| == |rows.Keys|;
    }

    method ReclaimExpiredSeatsForShowtime(st: ShowtimeId, now: Time) returns (n: nat)
      modifies `occ
      ensures occ == old(occ) + S.ReclaimExpiredSeatsForShowtime(old(occ), st, now)
      ensures n == |S.ReclaimExpiredSeatsForShowtime(old(occ), st, now)|
    {
      ghost var rows := S.ReclaimExpiredSeatsForShowtime(occ, st, now);
      ghost var changed;
      n, changed := UpdateRows((k: OccKey, row: OccRow) => row.showtime == st && S.Lapsed(row, now),
                      (row: OccRow) => row.(releasedAt := Some(now)));
      assert rows.Keys == changed && |rows| == |rows.Keys|;
    }

    method ConfirmHoldSeats(token: Token, now: Time) returns (n: nat)
      modifies `occ
      ensures occ == old(occ) + S.ConfirmHoldSeats(old(occ), token, now)
      ensures n == |S.ConfirmHoldSeats(old(occ), token, now)|
    {
      ghost var rows := S.ConfirmHoldSeats(occ, token, now);
      ghost var changed;
      n, changed := UpdateRows((k: OccKey, row: OccRow) => k.hold == token && S.Confirmable(row, now),
                      (row: OccRow) => row.(confirmedAt := Some(now)));
      assert rows.Keys == changed && |rows| == |rows.Keys|;
    }

    method ReleaseHoldSeats(token: Token, now: Time) returns (n: nat)
      modifies `occ
      ensures occ == old(occ) + S.ReleaseHoldSeats(old(occ), token, now)
      ensures n == |S.ReleaseHoldSeats(old(occ), token, now)|
      ensures occ.Keys == old(occ).Keys && n == |set k | k in old(occ) && IsOpen(old(occ), token, k)|
      ensures forall k :: k in occ ==>
                occ[k] == if IsOpen(old(occ), token, k) then old(occ)[k].(releasedAt := Some(now)) else old(occ)[k]
    {
      ghost var rows := S.ReleaseHoldSeats(occ, token, now);
      ghost var changed;
      n, changed := UpdateRows((k: OccKey, row: OccRow) => k.hold == token && row.releasedAt.None? && row.confirmedAt.None?,
                      (row: OccRow) => row.(releasedAt := Some(now)));
      assert changed == set k | k in old(occ) && IsOpen(old(occ), token, k);
      assert rows.Keys == changed && |rows| == |rows.Keys|;
    }

    method FindSeatConflicts(st: ShowtimeId, seats: seq<SeatId>, now: Time) returns (taken: seq<SeatId>)
      ensures taken == S.FindSeatConflicts(occ, st, seats, now)
    {
      var ids := set k | k in occ && occ[k].showtime == st && k.seat in seats && S.Live(occ[k], now) :: k.seat;
      taken := InOrder(ids);
    }

    /** Does an unreleased row stand for this seat in the partial unique index? */
    method SeatTaken(st: ShowtimeId, seat: SeatId) returns (taken: bool)
      ensures taken <==> Taken(occ, st, seat)
    {
      var todo := occ.Keys;
      while todo != {}
        invariant todo <= occ.Keys
        invariant forall k :: k in occ && k !in todo ==> !(k.seat == seat && occ[k].showtime == st && occ[k].releasedAt.None?)
        decreases |todo|
      {
        var k := Collections.Any(todo);
        if k.seat == seat && occ[k].showtime == st && occ[k].releasedAt.None? {
          return true;
        }
        todo := todo - {k};
      }
      taken := false;
    }

    /** INSERT ... SELECT: one row for each seat, refused as a whole by the index. */
    method ClaimSeats(token: Token, seats: seq<SeatId>) returns (refused: bool, n: nat)
      requires token in holds && Distinct(seats)
      modifies `occ
      ensures var rows := S.ClaimSeats(holds[token], token, seats);
              && (refused <==> S.IndexRefuses(old(occ), rows))
              && (!refused ==> occ == old(occ) + rows && n == |seats|)
    {
      var h := holds[token];
      n := 0;
      while n < |seats|
        invariant n <= |seats|
        invariant occ == old(occ) + S.ClaimSeats(h, token, seats[..n])
        invariant !S.IndexRefuses(old(occ), S.ClaimSeats(h, token, seats[..n]))
      {
        NextRowFits(old(occ), h, token, seats, n);
        refused := SeatTaken(h.showtime, seats[n]);
        if refused {
          return;
        }
        occ := occ[OccKey(token, seats[n]) := OccRow(h.showtime, h.expiresAt, None, None)];
        n := n + 1;
      }
      refused := false;
      assert seats[..n] == seats;
    }

    /** JOIN seats ... ORDER BY row_label, seat_num: the catalog lists seats in that order. */
    method GetHoldSeats(token: Token) returns (seats: seq<SeatId>)
      ensures seats == S.GetHoldSeats(cat, occ, token)
    {
      seats := [];
      var i := |cat.order|;
      while i > 0
        invariant 0 <= i <= |cat.order|
        invariant seats == Pick(cat.order[i..], S.HoldSeats(occ, token))
      {
        i := i - 1;
        var k := OccKey(token, cat.order[i]);
        assert cat.order[i..][1..] == cat.order[i + 1..];
        assert cat.order[i] in S.HoldSeats(occ, token) <==> k in occ && occ[k].releasedAt.None?;
        if k in occ && occ[k].releasedAt.None? {
          seats := [cat.order[i]] + seats;
        }
      }
      assert cat.order[0..] == cat.order;
    }

    // ---- holds ----

    method CreateHold(token: Token, st: ShowtimeId, customer: string, ttlSeconds: int, now: Time) returns (refused: bool)
      modifies `holds
      ensures refused <==> token in old(holds)
      ensures holds == if refused then old(holds) else old(holds)[token := S.CreateHold(st, customer, ttlSeconds, now)]
    {
      refused := token in holds;
      if !refused {
        holds := holds[token := HoldRow(st, customer, now + ttlSeconds * S.MICROS_PER_SECOND, None, None)];
      }
    }

    method ConfirmHold(token: Token, now: Time) returns (n: nat)
      modifies `holds
      ensures holds == old(holds) + S.ConfirmHold(old(holds), token, now)
      ensures n == |S.ConfirmHold(old(holds), token, now)|
    {
      ghost var rows := S.ConfirmHold(holds, token, now);
      if token in holds && S.HoldConfirmable(holds[token], now) {
        holds := holds[token := holds[token].(confirmedAt := Some(now))];
        n := 1;
        assert rows.Keys == {token};
      } else {
        n := 0;
        assert rows.Keys == {};
      }
    }

    method ReleaseHold(token: Token, now: Time) returns (n: nat)
      modifies `holds
      ensures holds == old(holds) + S.ReleaseHold(old(holds), token, now)
      ensures n == |S.ReleaseHold(old(holds), token, now)|
      ensures if token in old(holds) && old(holds)[token].releasedAt.None? && old(holds)[token].confirmedAt.None?
              then n == 1 && holds == old(holds)[token := old(holds)[token].(releasedAt := Some(now))]
              else n == 0 && holds == old(holds)
    {
      ghost var rows := S.ReleaseHold(holds, token, now);
      if token in holds && holds[token].releasedAt.None? && holds[token].confirmedAt.None? {
        holds := holds[token := holds[token].(releasedAt := Some(now))];
        n := 1;
        assert rows.Keys == {token};
      } else {
        n := 0;
        assert rows.Keys == {};
      }
    }

    // ---- bookings ----

    method GetBookingByHold(token: Token) returns (ref: Option<Ref>)
      ensures ref.Some? <==> S.Booked(bookings, token)
      ensures ref.Some? ==> ref.value in bookings && bookings[ref.value].hold == token
    {
      var todo := bookings.Keys;
      while todo != {}
        invariant todo <= bookings.Keys
        invariant forall r :: r in bookings && r !in todo ==> bookings[r].hold != token
        decreases |todo|
      {
        var r := Collections.Any(todo);
        if bookings[r].hold == token {
          return Some(r);
        }
        todo := todo - {r};
      }
      ref := None;
    }

    method GetBookingByIdempotencyKey(customer: string, key: string) returns (ref: Option<Ref>)
      ensures ref.Some? <==> S.KeyTaken(bookings, customer, key)
      ensures ref.Some? ==> ref.value in bookings && bookings[ref.value].customer == customer && bookings[ref.value].key == key
    {
      var todo := bookings.Keys;
      while todo != {}
        invariant todo <= bookings.Keys
        invariant forall r :: r in bookings && r !in todo ==> !(bookings[r].customer == customer && bookings[r].key == key)
        decreases |todo|
      {
        var r := Collections.Any(todo);
        if bookings[r].customer == customer && bookings[r].key == key {
          return Some(r);
        }
        todo := todo - {r};
      }
      ref := None;
    }

    /** INSERT ... ON CONFLICT DO NOTHING: any unique constraint suppresses the row. */
    method CreateBooking(ref: Ref, b: BookingRow) returns (inserted: bool)
      modifies `bookings
      ensures inserted <==> !S.Suppressed(old(bookings), ref, b)
      ensures inserted <==>
                && ref !in old(bookings)
                && forall r :: r in old(bookings) ==>
                     && old(bookings)[r].hold != b.hold
                     && !(old(bookings)[r].customer == b.customer && old(bookings)[r].key == b.key)
      ensures bookings == if inserted then old(bookings)[ref := b] else old(bookings)
    {
      var todo := bookings.Keys;
      while todo != {}
        invariant todo <= bookings.Keys && bookings == old(bookings)
        invariant forall r :: r in bookings && r !in todo ==> !S.SameUnique(r, bookings[r], ref, b)
        decreases |todo|
      {
        var r := Collections.Any(todo);
        if S.SameUnique(r, bookings[r], ref, b) {
          return false;
        }
        todo := todo - {r};
      }
      bookings := bookings[ref := b];
      inserted := true;
    }

    // ---- what the sweeper and the seat map read ----

    method ListShowtimesWithExpiredSeats(limit: nat, now: Time) returns (ids: seq<ShowtimeId>)
      ensures ids == Sweeps.ListShowtimesWithExpiredSeats(occ, limit, now)
      ensures Sweeps.ListSpec(occ, limit, now, ids)
    {
      Sweeps.ListLaw(occ, limit, now);
      var lapsed := set k | k in occ && S.Lapsed(occ[k], now) :: occ[k].showtime;
      ids := InOrder(lapsed);
      if limit < |ids| {
        ids := ids[..limit];
      }
    }

    /** The CASE over the live row joined to one seat. */
    method SeatStatus(st: ShowtimeId, seat: SeatId, now: Time) returns (status: Status)
      requires IndexOk(occ)
      ensures status == StatusOf(occ, st, seat, now)
    {
      var todo := occ.Keys;
      while todo != {}
        invariant todo <= occ.Keys
        invariant LiveRows(occ, st, seat, now) <= todo
        decreases |todo|
      {
        var k := Collections.Any(todo);
        if occ[k].showtime == st && k.seat == seat && S.Live(occ[k], now) {
          OnlyLiveRow(occ, st, seat, now, k);
          return if occ[k].confirmedAt.Some? then Sold else Status.Held;
        }
        todo := todo - {k};
      }
      assert LiveRows(occ, st, seat, now) == {};
      status := Free;
    }

    method GetSeatMap(st: ShowtimeId, now: Time) returns (rows: seq<MapRow>)
      requires ValidCatalog(cat) && IndexOk(occ)
      ensures rows == SeatMaps.GetSeatMap(cat, Now(), st, now)
    {
      rows := [];
      var i := |cat.order|;
      while i > 0
        invariant 0 <= i <= |cat.order|
        invariant rows == MapOver(cat, occ, st, now, cat.order[i..])
      {
        i := i - 1;
        var seat := cat.order[i];
        assert cat.order[i..][1..] == cat.order[i + 1..];
        if S.Belongs(cat, st, seat) {
          var status := SeatStatus(st, seat, now);
          JoinOnIndex(occ, st, seat, now);
          rows := [MapRow(seat, status)] + rows;
        }
      }
      assert cat.order[0..] == cat.order;
    }

    // ---- catalog ----

    method CountSeatsInShowtime(st: ShowtimeId, seats: seq<SeatId>) returns (owned: nat)
      requires Distinct(seats)
      ensures owned == S.CountSeatsInShowtime(cat, st, seats)
    {
      owned := 0;
      var i := 0;
      while i < |seats|
        invariant i <= |seats|
        invariant owned == |set s | s in seats[..i] && S.Belongs(cat, st, s)|
      {
        ghost var before := set s | s in seats[..i] && S.Belongs(cat, st, s);
        assert seats[..i + 1] == seats[..i] + [seats[i]];
        if S.Belongs(cat, st, seats[i]) {
          assert (set s | s in seats[..i + 1] && S.Belongs(cat, st, s)) == before + {seats[i]};
          owned := owned + 1;
        } else {
          assert (set s | s in seats[..i + 1] && S.Belongs(cat, st, s)) == before;
        }
        i := i + 1;
      }
      assert seats[..i] == seats;
    }
  }
}
