/**
 * The filter loop of the map page: every spreadsheet row with both jittered
 * coordinates, whose point lies inside the state boundary and whose fields
 * pass the four sidebar selections, becomes a marker, in row order.
 */
module Filter {
  import opened Wrappers
  import opened Text
  import opened Geo

  /**
   * One spreadsheet row, as far as the filter reads it.  A cell pandas
   * reports as missing (`pd.isna`) is `None`.
   */
  datatype Row = Row(
    lat: Option<real>,             // lat_jittered
    long: Option<real>,            // long_jittered
    activity: Option<string>,      // activity_name
    faculty: Option<string>,       // faculty_partners, comma-delimited
    focus: Option<string>,         // focus_cleaned, comma-delimited
    campus: Option<string>)        // campus_partners, comma-delimited

  /** The sidebar state: three single choices (or "All") and a multiselect of focus areas. */
  datatype Selection = Selection(faculty: string, focus: seq<string>, activity: string, campus: string)

  /** The choice every single-value selectbox offers first. */
  const All: string := "All"

  /** An entry of `filtered_points`: the point built from the row, and the row. */
  datatype Marker = Marker(point: Point, row: Row)

  /** The comprehension on lines 62-64: a missing cell parses to the empty list. */
  function FieldValues(cell: Option<string>): seq<string>
  {
    if cell.Some? then SplitTrim(cell.value) else []
  }

  /** `Point(row['long_jittered'], row['lat_jittered'])`, when both coordinates are present. */
  function Location(row: Row): Option<Point>
  {
    if row.lat.None? || row.long.None? then None else Some(Point(row.long.value, row.lat.value))
  }

  /** Faculty and campus test: "All", or the choice is one of the parsed names. */
  predicate ChoicePasses(selected: string, names: seq<string>) {
    selected == All || selected in names
  }

  /** Focus test: no focus area chosen, or every chosen one is among the parsed values. */
  predicate FocusPasses(selected: seq<string>, values: seq<string>) {
    |selected| == 0 || forall f :: f in selected ==> f in values
  }

  /** Activity test: "All", or the row's activity name is exactly the choice. */
  predicate ActivityPasses(selected: string, activity: Option<string>) {
    selected == All || activity == Some(selected)
  }

  /** The condition on lines 66-69, over the parsed field lists. */
  predicate SelectionMatches(sel: Selection, facultyNames: seq<string>, focusValues: seq<string>,
                             activity: Option<string>, campusNames: seq<string>)
  {
    && ChoicePasses(sel.faculty, facultyNames)
    && FocusPasses(sel.focus, focusValues)
    && ActivityPasses(sel.activity, activity)
    && ChoicePasses(sel.campus, campusNames)
  }

  /** The row's fields pass the selection. */
  predicate RowMatches(sel: Selection, row: Row) {
    SelectionMatches(sel, FieldValues(row.faculty), FieldValues(row.focus), row.activity, FieldValues(row.campus))
  }

  /** The loop body keeps `row`: it has a location, the boundary contains it, and the fields match. */
  predicate Keeps(row: Row, boundary: Geometry, contains: Containment, sel: Selection) {
    && Location(row).Some?
    && contains(boundary, Location(row).value)
    && RowMatches(sel, row)
  }

  /** What the loop has appended after reading `rows`. */
  function Filtered(rows: seq<Row>, boundary: Geometry, contains: Containment, sel: Selection): seq<Marker>
  {
    if rows == [] then []
    else
      var row := rows[|rows| - 1];
      Filtered(rows[..|rows| - 1], boundary, contains, sel)
        + if Keeps(row, boundary, contains, sel) then [Marker(Location(row).value, row)] else []
  }

  /**
   * The loop on lines 53-70: rows without both coordinates and rows outside
   * the boundary are skipped, the three fields are parsed, and a row whose
   * fields pass the selection is appended with its point.
   */
  method FilterPoints(rows: seq<Row>, boundary: Geometry, contains: Containment, sel: Selection)
    returns (filtered: seq<Marker>)
    ensures filtered == Filtered(rows, boundary, contains, sel)
  {
    filtered := [];
    for i := 0 to |rows|
      invariant filtered == Filtered(rows[..i], boundary, contains, sel)
    {
      var row := rows[i];
      assert rows[..i + 1][..i] == rows[..i];
      if row.lat.None? || row.long.None? {
        continue;
      }
      var point := Point(row.long.value, row.lat.value);
      if !contains(boundary, point) {
        continue;
      }
      var facultyNames := FieldValues(row.faculty);
      var focusValues := FieldValues(row.focus);
      var campusNames := FieldValues(row.campus);
      if SelectionMatches(sel, facultyNames, focusValues, row.activity, campusNames) {
        filtered := filtered + [Marker(point, row)];
      }
    }
    assert rows[..|rows|] == rows;
  }

  /**
   * `markers` consists of the markers of the rows at the strictly increasing
   * positions `idx`, and those are exactly the positions of the rows kept.
   */
  ghost predicate PicksKeptRows(markers: seq<Marker>, rows: seq<Row>, idx: seq<int>,
                                boundary: Geometry, contains: Containment, sel: Selection)
  {
    && |idx| == |markers|
    && (forall k :: 0 <= k < |idx| ==> 0 <= idx[k] < |rows| && markers[k].row == rows[idx[k]])
    && (forall k :: 0 <= k < |idx| ==> Location(rows[idx[k]]) == Some(markers[k].point))
    && (forall k, l :: 0 <= k < l < |idx| ==> idx[k] < idx[l])
    && (forall i :: 0 <= i < |rows| ==> (i in idx <==> Keeps(rows[i], boundary, contains, sel)))
  }

  /** Reading one more row extends the selection by that row's marker when it is kept. */
  lemma PicksKeptRowsExtend(markers: seq<Marker>, init: seq<Row>, idx: seq<int>, last: Row,
                            boundary: Geometry, contains: Containment, sel: Selection)
    requires PicksKeptRows(markers, init, idx, boundary, contains, sel)
    ensures Keeps(last, boundary, contains, sel) ==>
      PicksKeptRows(markers + [Marker(Location(last).value, last)], init + [last], idx + [|init|], boundary, contains, sel)
    ensures !Keeps(last, boundary, contains, sel) ==>
      PicksKeptRows(markers, init + [last], idx, boundary, contains, sel)
  {
    var rows := init + [last];
    var n := |init|;
    var keep := Keeps(last, boundary, contains, sel);
    var markers' := if keep then markers + [Marker(Location(last).value, last)] else markers;
    var idx' := if keep then idx + [n] else idx;
    forall k | 0 <= k < |idx'|
      ensures 0 <= idx'[k] < |rows| && markers'[k].row == rows[idx'[k]]
      ensures Location(rows[idx'[k]]) == Some(markers'[k].point)
    {
      if k < |idx| {
        assert idx'[k] == idx[k] && markers'[k] == markers[k] && init[idx[k]] == rows[idx[k]];
      }
    }
    forall i | 0 <= i < |rows|
      ensures i in idx' <==> Keeps(rows[i], boundary, contains, sel)
    {
      assert i in idx' <==> i in idx || (keep && i == n);
      if i < n {
        assert init[i] == rows[i];
        assert i in idx <==> Keeps(init[i], boundary, contains, sel);
      } else {
        assert forall k :: 0 <= k < |idx| ==> idx[k] < n;
        assert i !in idx;
      }
    }
    assert PicksKeptRows(markers', rows, idx', boundary, contains, sel);
  }

  /**
   * The filtered list is an order-preserving selection of the rows: it holds
   * the marker of every kept row, of no other row, each once, in row order,
   * each with the point built from that row's own coordinates.
   */
  lemma {:induction false} FilteredPicksKeptRows(rows: seq<Row>, boundary: Geometry, contains: Containment, sel: Selection)
    ensures exists idx :: PicksKeptRows(Filtered(rows, boundary, contains, sel), rows, idx, boundary, contains, sel)
  {
    if rows == [] {
      assert Filtered(rows, boundary, contains, sel) == [];
      assert PicksKeptRows(Filtered(rows, boundary, contains, sel), rows, [], boundary, contains, sel);
    } else {
      var n := |rows| - 1;
      var init := rows[..n];
      assert rows == init + [rows[n]];
      FilteredPicksKeptRows(init, boundary, contains, sel);
      var m0 := Filtered(init, boundary, contains, sel);
      var idx :| PicksKeptRows(m0, init, idx, boundary, contains, sel);
      PicksKeptRowsExtend(m0, init, idx, rows[n], boundary, contains, sel);
      if Keeps(rows[n], boundary, contains, sel) {
        assert PicksKeptRows(Filtered(rows, boundary, contains, sel), rows, idx + [n], boundary, contains, sel);
      } else {
        assert PicksKeptRows(Filtered(rows, boundary, contains, sel), rows, idx, boundary, contains, sel);
      }
    }
  }

  /**
   * Every marker comes from a row with both coordinates, its point is
   * (longitude, latitude) of that row, the boundary contains it, and the
   * row's fields pass the selection.
   */
  lemma {:induction false} FilteredMarkersAreKept(rows: seq<Row>, boundary: Geometry, contains: Containment, sel: Selection)
    ensures forall m :: m in Filtered(rows, boundary, contains, sel) ==>
      && m.row in rows
      && m.row.lat.Some? && m.row.long.Some?
      && m.point == Point(m.row.long.value, m.row.lat.value)
      && contains(boundary, m.point)
      && RowMatches(sel, m.row)
  {
    FilteredPicksKeptRows(rows, boundary, contains, sel);
    var markers := Filtered(rows, boundary, contains, sel);
    var idx :| PicksKeptRows(markers, rows, idx, boundary, contains, sel);
    forall m | m in markers
      ensures m.row in rows && Location(m.row) == Some(m.point) && Keeps(m.row, boundary, contains, sel)
    {
      var k :| 0 <= k < |markers| && markers[k] == m;
      assert idx[k] in idx;
    }
  }

  /** A row missing either coordinate never yields a marker. */
  lemma MissingCoordinateNeverKept(rows: seq<Row>, boundary: Geometry, contains: Containment, sel: Selection, row: Row)
    requires row.lat.None? || row.long.None?
    ensures forall m :: m in Filtered(rows, boundary, contains, sel) ==> m.row != row
  {
    FilteredMarkersAreKept(rows, boundary, contains, sel);
  }

  /**
   * The focus test is conjunctive: with a non-empty choice a row passes
   * only if every chosen focus area occurs in its parsed focus list.
   */
  lemma FocusIsConjunctive(sel: Selection, row: Row, f: string)
    requires RowMatches(sel, row)
    requires f in sel.focus
    ensures row.focus.Some? && f in SplitTrim(row.focus.value)
  {
  }

  /** A missing faculty or campus cell parses to no names, so only "All" lets it through. */
  lemma MissingCellPassesOnlyAll(sel: Selection, row: Row)
    requires RowMatches(sel, row)
    ensures row.faculty.None? ==> sel.faculty == All
    ensures row.campus.None? ==> sel.campus == All
    ensures row.activity.None? ==> sel.activity == All
  {
  }

  /**
   * Choosing more focus areas never lets more rows through: with `wider`
   * choosing a superset of what `narrower` chooses and the same single
   * choices, every marker kept under `wider` is kept under `narrower`.
   */
  lemma {:induction false} MoreFocusKeepsFewer(rows: seq<Row>, boundary: Geometry, contains: Containment,
                                               narrower: Selection, wider: Selection)
    requires narrower.faculty == wider.faculty && narrower.activity == wider.activity && narrower.campus == wider.campus
    requires forall f :: f in narrower.focus ==> f in wider.focus
    ensures |Filtered(rows, boundary, contains, wider)| <= |Filtered(rows, boundary, contains, narrower)|
    ensures forall m :: m in Filtered(rows, boundary, contains, wider) ==> m in Filtered(rows, boundary, contains, narrower)
  {
    if rows != [] {
      var n := |rows| - 1;
      MoreFocusKeepsFewer(rows[..n], boundary, contains, narrower, wider);
      var row := rows[n];
      if Keeps(row, boundary, contains, wider) {
        var values := FieldValues(row.focus);
        assert FocusPasses(wider.focus, values);
        assert FocusPasses(narrower.focus, values);
        assert Keeps(row, boundary, contains, narrower);
      }
    }
  }

  /** With every selectbox on "All" and no focus area chosen, exactly the located rows inside the boundary are kept. */
  lemma NoSelectionKeepsEveryRowInside(row: Row, boundary: Geometry, contains: Containment)
    ensures Keeps(row, boundary, contains, Selection(All, [], All, All))
      <==> row.lat.Some? && row.long.Some? && contains(boundary, Point(row.long.value, row.lat.value))
  {
  }
}
