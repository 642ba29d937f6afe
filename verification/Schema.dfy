/** The tables of the booking schema, as values.

    A row is never deleted, so a table is a finite map that only gains keys, and
    what one statement or one transaction wrote is again a set of tables: the rows
    it inserted or replaced. `Merge` lays such writes over the tables they were
    made against. */
module Schema {
  type ShowtimeId = int
  type SeatId = int
  type Token = string
  type Ref = string
  type Time = int  // microseconds on the database clock

  datatype Option<+T> = None | Some(value: T)

  datatype Showtime = Showtime(auditorium: int, priceMinor: nat, currency: string, salesOpen: bool)

  datatype Seat = Seat(auditorium: int, rowLabel: string, num: int, kind: string)

  /** The catalog does not change while seats are being sold. `order` lists every
      seat once, by row label and then number. */
  datatype Catalog = Catalog(showtimes: map<ShowtimeId, Showtime>, seats: map<SeatId, Seat>, order: seq<SeatId>)

  ghost predicate ValidCatalog(cat: Catalog) {
    && Distinct(cat.order)
    && (forall s :: s in cat.order <==> s in cat.seats)
  }

  /** A hold's token is unique, so it serves as the key of its row. */
  datatype HoldRow = HoldRow(showtime: ShowtimeId, customer: string, expiresAt: Time,
                             confirmedAt: Option<Time>, releasedAt: Option<Time>)

  /** A hold claims a seat at most once, so (hold, seat) is the key of an occupancy row. */
  datatype OccKey = OccKey(hold: Token, seat: SeatId)

  datatype OccRow = OccRow(showtime: ShowtimeId, expiresAt: Time,
                           confirmedAt: Option<Time>, releasedAt: Option<Time>)

  datatype BookingRow = BookingRow(hold: Token, showtime: ShowtimeId, customer: string, totalMinor: int,
                                   currency: string, key: string, createdAt: Time)

  datatype Tables = Tables(holds: map<Token, HoldRow>, occ: map<OccKey, OccRow>, bookings: map<Ref, BookingRow>)

  const NOTHING := Tables(map[], map[], map[])

  function Merge(db: Tables, writes: Tables): Tables {
    Tables(db.holds + writes.holds, db.occ + writes.occ, db.bookings + writes.bookings)
  }

  lemma PlusAssociates<K, V>(a: map<K, V>, b: map<K, V>, c: map<K, V>)
    ensures a + (b + c) == (a + b) + c
  {}

  lemma PlusEmpty<K, V>(a: map<K, V>)
    ensures a + map[] == a && map[] + a == a
  {}

  lemma MergeNothing(db: Tables)
    ensures Merge(db, NOTHING) == db && Merge(NOTHING, db) == db
  {
    PlusEmpty(db.holds);
    PlusEmpty(db.occ);
    PlusEmpty(db.bookings);
  }

  /** The rows of one showtime. */
  ghost function Holds(holds: map<Token, HoldRow>, st: ShowtimeId): map<Token, HoldRow> {
    map t | t in holds && holds[t].showtime == st :: holds[t]
  }

  ghost function Occ(occ: map<OccKey, OccRow>, st: ShowtimeId): map<OccKey, OccRow> {
    map k | k in occ && occ[k].showtime == st :: occ[k]
  }

  ghost function Bookings(bookings: map<Ref, BookingRow>, st: ShowtimeId): map<Ref, BookingRow> {
    map r | r in bookings && bookings[r].showtime == st :: bookings[r]
  }

  ghost function Show(db: Tables, st: ShowtimeId): Tables {
    Tables(Holds(db.holds, st), Occ(db.occ, st), Bookings(db.bookings, st))
  }

  lemma Member<T>(s: set<T>) returns (x: T)
    requires s != {}
    ensures x in s
  {
    x :| x in s;
  }

  // ---- sequences of seats ----

  ghost predicate Distinct(s: seq<SeatId>) {
    forall i, j :: 0 <= i < j < |s| ==> s[i] != s[j]
  }

  ghost predicate Ascending(s: seq<SeatId>) {
    forall i, j :: 0 <= i < j < |s| ==> s[i] < s[j]
  }

  ghost function Elements(s: seq<SeatId>): set<SeatId> {
    set x | x in s
  }

  /** The wanted seats, in the order in which `order` lists them. */
  ghost function Pick(order: seq<SeatId>, wanted: set<SeatId>): seq<SeatId> {
    if order == [] then []
    else (if order[0] in wanted then [order[0]] else []) + Pick(order[1..], wanted)
  }

  lemma {:induction false} PickKeepsWanted(order: seq<SeatId>, wanted: set<SeatId>)
    ensures forall s :: s in Pick(order, wanted) <==> s in order && s in wanted
    ensures Distinct(order) ==> Distinct(Pick(order, wanted))
  {
    if order != [] {
      PickKeepsWanted(order[1..], wanted);
      assert order == [order[0]] + order[1..];
      if Distinct(order) {
        assert order[0] !in order[1..];
      }
    }
  }

  lemma {:induction false} DistinctCount(s: seq<SeatId>)
    ensures |Elements(s)| <= |s|
    ensures Distinct(s) <==> |Elements(s)| == |s|
  {
    if s != [] {
      DistinctCount(s[1..]);
      assert s == [s[0]] + s[1..];
      assert Elements(s) == {s[0]} + Elements(s[1..]);
      if s[0] in s[1..] {
        assert Elements(s) == Elements(s[1..]);
      }
    }
  }

  lemma PickCount(order: seq<SeatId>, wanted: set<SeatId>)
    requires Distinct(order) && forall s :: s in wanted ==> s in order
    ensures |Pick(order, wanted)| == |wanted|
  {
    PickKeepsWanted(order, wanted);
    DistinctCount(Pick(order, wanted));
    assert Elements(Pick(order, wanted)) == wanted;
  }

  /** The members of a set of ids, in ascending order. */
  ghost function Sorted(ids: set<SeatId>): (s: seq<SeatId>)
    ensures Ascending(s) && Elements(s) == ids
  {
    if ids == {} then []
    else
      MinExists(ids);
      var least :| least in ids && forall x :: x in ids ==> least <= x;
      var rest := Sorted(ids - {least});
      LeastFirst(least, rest, ids);
      [least] + rest
  }

  lemma LeastFirst(least: SeatId, rest: seq<SeatId>, ids: set<SeatId>)
    requires least in ids && forall x :: x in ids ==> least <= x
    requires Ascending(rest) && Elements(rest) == ids - {least}
    ensures Ascending([least] + rest) && Elements([least] + rest) == ids
  {
    assert forall x :: x in rest <==> x in Elements(rest);
    assert forall i :: 0 <= i < |rest| ==> rest[i] in rest;
    assert Elements([least] + rest) == {least} + Elements(rest);
  }

  lemma {:induction false} MinExists(ids: set<SeatId>)
    requires ids != {}
    ensures exists least :: least in ids && forall x :: x in ids ==> least <= x
  {
    var x := Member(ids);
    var others := ids - {x};
    if others == {} {
      assert ids == {x};
    } else {
      MinExists(others);
      var m :| m in others && forall y :: y in others ==> m <= y;
      assert forall y :: y in ids ==> y == x || y in others;
      assert if x < m then x in ids && (forall y :: y in ids ==> x <= y)
             else m in ids && (forall y :: y in ids ==> m <= y);
    }
  }

  lemma {:induction false} AscendingUnique(a: seq<SeatId>, b: seq<SeatId>)
    requires Ascending(a) && Ascending(b) && Elements(a) == Elements(b)
    ensures a == b
  {
    assert forall x :: x in a <==> x in Elements(a);
    assert forall x :: x in b <==> x in Elements(b);
    if a == [] {
      assert Elements(b) == {};
      DistinctCount(b);
    } else {
      assert a[0] in Elements(b);
      assert b[0] in Elements(a);
      assert a[0] == b[0];
      assert Elements(a[1..]) == Elements(a) - {a[0]} by {
        assert a == [a[0]] + a[1..];
      }
      assert Elements(b[1..]) == Elements(b) - {b[0]} by {
        assert b == [b[0]] + b[1..];
      }
      AscendingUnique(a[1..], b[1..]);
      assert a == [a[0]] + a[1..] && b == [b[0]] + b[1..];
    }
  }
}
