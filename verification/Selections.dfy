/** The loops around the transactions: checking a seat selection and grouping the seat
    map into rows. */
module Selections {
  import opened Schema
  import opened SeatMaps
  import Store

  // ---- normalizeSeats ----

  datatype Selection = Chosen(seats: seq<SeatId>) | NoSeats | TooMany | NotPositive(id: SeatId) | Repeated(id: SeatId)

  ghost predicate Clean(ids: seq<SeatId>) {
    Distinct(ids) && forall i :: 0 <= i < |ids| ==> ids[i] > 0
  }

  /** Chosen seats are the requested ones in ascending order. Anything else names the
      first thing that is wrong. */
  method NormalizeSeats(ids: seq<SeatId>, max: int) returns (r: Selection)
    ensures r.NoSeats? <==> ids == []
    ensures r.TooMany? <==> ids != [] && |ids| > max
    ensures r.NotPositive? ==> exists i :: 0 <= i < |ids| && Clean(ids[..i]) && ids[i] == r.id && r.id <= 0
    ensures r.Repeated? ==> exists i :: 0 <= i < |ids| && Clean(ids[..i]) && ids[i] == r.id && r.id in ids[..i]
    ensures r.Chosen? <==> 0 < |ids| <= max && Clean(ids)
    ensures r.Chosen? <==> && 0 < |ids| <= max && (forall i :: 0 <= i < |ids| ==> ids[i] > 0)
                           && (forall i, j :: 0 <= i < j < |ids| ==> ids[i] != ids[j])
    ensures r.Chosen? ==> r.seats == Sorted(Elements(ids)) && |r.seats| == |ids| && multiset(r.seats) == multiset(ids)
    ensures r.Chosen? ==> forall i, j :: 0 <= i < j < |r.seats| ==> r.seats[i] < r.seats[j]
  {
    if |ids| == 0 {
      return NoSeats;
    }
    if |ids| > max {
      return TooMany;
    }
    var seen: set<SeatId> := {};
    var out: seq<SeatId> := [];
    for i := 0 to |ids|
      invariant out == ids[..i] && Clean(ids[..i])
      invariant seen == Elements(ids[..i])
    {
      var id := ids[i];
      if id <= 0 {
        return NotPositive(id);
      }
      if id in seen {
        return Repeated(id);
      }
      assert ids[..i + 1] == ids[..i] + [id];
      seen := seen + {id};
      out := out + [id];
    }
    assert out == ids;
    out := Store.Sort(out);
    SameMembers(out, ids);
    r := Chosen(out);
  }

  lemma {:induction false} CountInDistinct(s: seq<SeatId>, x: SeatId)
    requires Distinct(s)
    ensures multiset(s)[x] == if x in s then 1 else 0
  {
    if s != [] {
      CountInDistinct(s[1..], x);
      assert s == [s[0]] + s[1..];
    }
  }

  lemma SameMembers(a: seq<SeatId>, b: seq<SeatId>)
    requires Ascending(a) && Distinct(b) && Elements(a) == Elements(b)
    ensures multiset(a) == multiset(b) && |a| == |b|
  {
    DistinctCount(a);
    DistinctCount(b);
    forall x ensures multiset(a)[x] == multiset(b)[x] {
      CountInDistinct(a, x);
      CountInDistinct(b, x);
      assert x in a <==> x in Elements(a);
      assert x in b <==> x in Elements(b);
    }
  }

  // ---- projectSeatRows ----

  datatype SeatRow = SeatRow(row: string, seats: seq<MapRow>)

  ghost predicate InCatalog(cat: Catalog, rows: seq<MapRow>) {
    forall i :: 0 <= i < |rows| ==> rows[i].id in cat.seats
  }

  ghost function Flatten(out: seq<SeatRow>): seq<MapRow> {
    if out == [] then [] else Flatten(out[..|out| - 1]) + out[|out| - 1].seats
  }

  /** `out` is `rows` cut into nonempty runs of one label each, as long as they can be. */
  ghost predicate Groups(cat: Catalog, rows: seq<MapRow>, out: seq<SeatRow>)
    requires InCatalog(cat, rows)
  {
    && Flatten(out) == rows
    && (forall g :: 0 <= g < |out| ==> out[g].seats != [])
    && (forall g, i :: 0 <= g < |out| && 0 <= i < |out[g].seats| ==>
          out[g].seats[i].id in cat.seats && cat.seats[out[g].seats[i].id].rowLabel == out[g].row)
    && (forall g :: 0 < g < |out| ==> out[g - 1].row != out[g].row)
  }

  method ProjectSeatRows(cat: Catalog, rows: seq<MapRow>) returns (out: seq<SeatRow>)
    requires InCatalog(cat, rows)
    ensures Groups(cat, rows, out)
  {
    out := [];
    for i := 0 to |rows|
      invariant Groups(cat, rows[..i], out)
    {
      var r := rows[i];
      var row := cat.seats[r.id].rowLabel;
      assert rows[..i + 1] == rows[..i] + [r];
      if |out| == 0 || out[|out| - 1].row != row {
        out := out + [SeatRow(row, [])];
        assert out[..|out| - 1] + [out[|out| - 1]] == out;
      }
      var last := |out| - 1;
      var current := out[last];
      out := out[last := current.(seats := current.seats + [r])];
    }
    assert rows[..|rows|] == rows;
  }

  /** Only one cut fits the description, so the pass finds the one there is. */
  lemma {:induction false} GroupingIsUnique(cat: Catalog, rows: seq<MapRow>, a: seq<SeatRow>, b: seq<SeatRow>)
    requires InCatalog(cat, rows) && Groups(cat, rows, a) && Groups(cat, rows, b)
    ensures a == b
    decreases |a|
  {
    if a == [] || b == [] {
      assert a == b;
    } else {
      var m, n := |a[|a| - 1].seats|, |b[|b| - 1].seats|;
      NoLonger(cat, rows, a, b);
      NoLonger(cat, rows, b, a);
      assert rows[..|rows| - m] == Flatten(a[..|a| - 1]) && rows[|rows| - m..] == a[|a| - 1].seats;
      assert rows[..|rows| - n] == Flatten(b[..|b| - 1]) && rows[|rows| - n..] == b[|b| - 1].seats;
      GroupingIsUnique(cat, rows[..|rows| - m], a[..|a| - 1], b[..|b| - 1]);
      assert a == a[..|a| - 1] + [a[|a| - 1]] && b == b[..|b| - 1] + [b[|b| - 1]];
      assert a[|a| - 1].seats[0] == b[|b| - 1].seats[0];
    }
  }

  /** The last run is the end of the rows: its label all through, another before it. */
  lemma LastRun(cat: Catalog, rows: seq<MapRow>, out: seq<SeatRow>)
    requires InCatalog(cat, rows) && Groups(cat, rows, out) && out != []
    ensures var last := out[|out| - 1];
            && 0 < |last.seats| <= |rows|
            && (forall i :: |rows| - |last.seats| <= i < |rows| ==> cat.seats[rows[i].id].rowLabel == last.row)
            && (|last.seats| < |rows| ==> cat.seats[rows[|rows| - |last.seats| - 1].id].rowLabel != last.row)
  {
    var last, before := out[|out| - 1], out[..|out| - 1];
    var n := |rows| - |last.seats|;
    assert Flatten(before) == rows[..n] && rows[n..] == last.seats;
    forall i | n <= i < |rows| ensures cat.seats[rows[i].id].rowLabel == last.row {
      assert rows[i] == last.seats[i - n];
    }
    if n > 0 {
      assert before != [];
      assert rows[n - 1] == before[|before| - 1].seats[|before[|before| - 1].seats| - 1];
    }
  }

  /** The last run of one cut is not longer than that of another. */
  lemma NoLonger(cat: Catalog, rows: seq<MapRow>, a: seq<SeatRow>, b: seq<SeatRow>)
    requires InCatalog(cat, rows) && Groups(cat, rows, a) && Groups(cat, rows, b) && a != [] && b != []
    ensures |a[|a| - 1].seats| <= |b[|b| - 1].seats|
  {
    LastRun(cat, rows, a);
    LastRun(cat, rows, b);
    assert rows[|rows| - 1].id in cat.seats;
  }

  // ---- one row of the map for each label ----

  /** Rows of equal label stand together, as ordering by label leaves them. */
  ghost predicate LabelsTogether(cat: Catalog, rows: seq<MapRow>)
    requires InCatalog(cat, rows)
  {
    forall i, j, k :: 0 <= i < j < k < |rows| && cat.seats[rows[i].id].rowLabel == cat.seats[rows[k].id].rowLabel
      ==> cat.seats[rows[j].id].rowLabel == cat.seats[rows[i].id].rowLabel
  }

  lemma {:induction false} LabelIsThere(cat: Catalog, rows: seq<MapRow>, out: seq<SeatRow>, g: nat)
    requires InCatalog(cat, rows) && Groups(cat, rows, out) && g < |out|
    ensures exists i :: 0 <= i < |rows| && cat.seats[rows[i].id].rowLabel == out[g].row
    decreases |out|
  {
    var last, rest := out[|out| - 1], out[..|out| - 1];
    if g == |out| - 1 {
      assert rows[|rows| - 1] == last.seats[|last.seats| - 1];
    } else {
      assert Flatten(rest) == rows[..|rows| - |last.seats|];
      LabelIsThere(cat, rows[..|rows| - |last.seats|], rest, g);
      var i :| 0 <= i < |rows| - |last.seats| && cat.seats[rows[..|rows| - |last.seats|][i].id].rowLabel == rest[g].row;
      assert cat.seats[rows[i].id].rowLabel == out[g].row;
    }
  }

  /** On rows ordered by label one pass gives each label exactly one row. */
  lemma {:induction false} EachLabelOnce(cat: Catalog, rows: seq<MapRow>, out: seq<SeatRow>)
    requires InCatalog(cat, rows) && LabelsTogether(cat, rows) && Groups(cat, rows, out)
    ensures forall g, h :: 0 <= g < h < |out| ==> out[g].row != out[h].row
    decreases |out|
  {
    if out != [] {
      var last, rest := out[|out| - 1], out[..|out| - 1];
      var n := |rows| - |last.seats|;
      assert Flatten(rest) == rows[..n];
      EachLabelOnce(cat, rows[..n], rest);
      forall g | 0 <= g < |rest| ensures rest[g].row != last.row {
        if g < |rest| - 1 {
          LastLabelIsNew(cat, rows, out, g);
        }
      }
    }
  }

  lemma LastLabelIsNew(cat: Catalog, rows: seq<MapRow>, out: seq<SeatRow>, g: nat)
    requires InCatalog(cat, rows) && LabelsTogether(cat, rows) && Groups(cat, rows, out) && g + 2 < |out|
    ensures out[g].row != out[|out| - 1].row
  {
    var last, rest := out[|out| - 1], out[..|out| - 1];
    var n := |rows| - |last.seats|;
    var before, first := rest[|rest| - 1], rest[..|rest| - 1];
    var m := n - |before.seats|;
    assert Flatten(rest) == rows[..n];
    assert Flatten(first) == rows[..m];
    LabelIsThere(cat, rows[..m], first, g);
    var i :| 0 <= i < m && cat.seats[rows[..m][i].id].rowLabel == first[g].row;
    assert rows[n - 1] == before.seats[|before.seats| - 1];
    assert rows[|rows| - 1] == last.seats[|last.seats| - 1];
    assert cat.seats[rows[i].id].rowLabel == out[g].row;
  }
}
