/**
 * The `useTimetable` hook of src/hooks/useTimeTable.ts: the timetable rows
 * held as React state, their initial value, and the four handlers that
 * replace them.
 *
 * Rows are objects, as in the source: `handleTimeChange` assigns into the
 * row object it finds, while the other handlers build new rows. When the
 * initial state is `DEFAULT_ROWS` the state holds the very objects of that
 * constant, so an in-place time edit reaches the constant too.
 */
module UseTimetable {
  import opened Wrappers
  import opened Interfaces
  import opened JsCollections
  import opened TimetableConstants
  import opened Storage

  /** A row object: `time` and `cells` of one TimeTableRow. */
  class Row {
    var time: string
    var cells: seq<string>

    constructor (time: string, cells: seq<string>)
      ensures this.time == time && this.cells == cells
    {
      this.time := time;
      this.cells := cells;
    }

    function Value(): TimeTableRow
      reads this
    {
      TimeTableRow(time, cells)
    }
  }

  /** The values the row objects currently hold, position by position. */
  function Values(rs: seq<Row>): (v: seq<TimeTableRow>)
    reads rs
    ensures |v| == |rs|
    ensures forall i :: 0 <= i < |rs| ==> v[i] == rs[i].Value()
  {
    if rs == [] then [] else Values(rs[..|rs| - 1]) + [rs[|rs| - 1].Value()]
  }

  /** Fresh, distinct row objects holding `values`: what JSON.parse, or a literal array, produces. */
  method NewRows(values: seq<TimeTableRow>) returns (rs: seq<Row>)
    ensures NoDuplicates(rs) && Values(rs) == values
    ensures forall i :: 0 <= i < |rs| ==> fresh(rs[i])
  {
    rs := [];
    var i := 0;
    while i < |values|
      invariant 0 <= i <= |values|
      invariant NoDuplicates(rs) && Values(rs) == values[..i]
      invariant forall k :: 0 <= k < |rs| ==> fresh(rs[k])
    {
      var row := new Row(values[i].time, values[i].cells);
      rs := rs + [row];
      i := i + 1;
    }
  }

  // --------------------------------------------------- updates, as values

  /** The cells `[...cells.slice(0, c), value, ...cells.slice(c + 1)]`. */
  function SpliceCell(cells: seq<string>, c: nat, value: string): (r: seq<string>)
    ensures c < |cells| ==> r == cells[c := value]
    ensures c >= |cells| ==> r == cells + [value]
  {
    Slice(cells, 0, c) + [value] + SliceFrom(cells, c + 1)
  }

  /**
   * The rows after `handleCellChange(r, c, value)`: cell `c` of row `r`
   * becomes `value` when it exists; past the end, `value` is appended.
   * Nothing else changes.
   */
  function SetCell(rows: seq<TimeTableRow>, r: nat, c: nat, value: string): (u: seq<TimeTableRow>)
    requires r < |rows|
    ensures |u| == |rows| && u[r].time == rows[r].time
    ensures forall i :: 0 <= i < |rows| && i != r ==> u[i] == rows[i]
    ensures c < |rows[r].cells| ==> u[r].cells == rows[r].cells[c := value]
    ensures c >= |rows[r].cells| ==> u[r].cells == rows[r].cells + [value]
  {
    rows[r := rows[r].(cells := SpliceCell(rows[r].cells, c, value))]
  }

  /**
   * The rows after `handleTimeChange(r, value)`: row `r` has time `value`,
   * its cells and every other row are as before; writing the time a row
   * already has changes nothing.
   */
  function SetTime(rows: seq<TimeTableRow>, r: nat, value: string): (u: seq<TimeTableRow>)
    requires r < |rows|
    ensures |u| == |rows| && u[r].time == value && u[r].cells == rows[r].cells
    ensures forall i :: 0 <= i < |rows| && i != r ==> u[i] == rows[i]
    ensures rows[r].time == value ==> u == rows
  {
    rows[r := rows[r].(time := value)]
  }

  /** The row `addRow` appends. */
  const NEW_ROW: TimeTableRow := TimeTableRow("New Time", EmptyCells(7))

  /** Writing back the old content of an existing cell undoes a cell edit. */
  lemma SetCellUndo(rows: seq<TimeTableRow>, r: nat, c: nat, value: string)
    requires r < |rows| && c < |rows[r].cells|
    ensures SetCell(SetCell(rows, r, c, value), r, c, rows[r].cells[c]) == rows
  {
    var u := SetCell(SetCell(rows, r, c, value), r, c, rows[r].cells[c]);
    assert u[r] == rows[r];
  }

  /** Removing the row just added gives back the rows as they were. */
  lemma RemoveUndoesAdd(rows: seq<TimeTableRow>)
    ensures FilterOutIndex(rows + [NEW_ROW], |rows|) == rows
  {
    FilterOutIndexFacts(rows + [NEW_ROW], |rows|);
  }

  /** Dropping one object drops its value. */
  lemma ValuesSnoc(rs: seq<Row>, last: Row)
    ensures Values(rs + [last]) == Values(rs) + [last.Value()]
  {
    assert (rs + [last])[..|rs|] == rs;
  }

  lemma {:induction false} RemovalKeepsValues(rs: seq<Row>, i: int)
    decreases |rs|
    ensures Values(FilterOutIndex(rs, i)) == FilterOutIndex(Values(rs), i)
  {
    if rs != [] {
      var n := |rs| - 1;
      var vs := Values(rs);
      RemovalKeepsValues(rs[..n], i);
      assert vs[..n] == Values(rs[..n]);
      assert FilterOutIndex(vs, i) == FilterOutIndex(vs[..n], i) + (if n == i then [] else [vs[n]]);
      if n != i {
        ValuesSnoc(FilterOutIndex(rs[..n], i), rs[n]);
      }
    }
  }

  // -------------------------------------------------------- the hook state

  class Timetable {
    /** The state `rows`, as the list of row objects it holds. */
    var rows: seq<Row>

    /** No row object appears twice, so editing one row in place affects no other. */
    ghost predicate Valid()
      reads this
    {
      NoDuplicates(rows)
    }

    function Snapshot(): seq<TimeTableRow>
      reads this, rows
    {
      Values(rows)
    }

    /**
     * The lazy initial state: the stored "timetable" when the key is present
     * (fresh objects), otherwise `DEFAULT_ROWS` itself, given here as the
     * objects of that constant, whatever they hold by now (a time edit
     * writes into them).
     */
    constructor (storage: LocalStorage, defaultRows: seq<Row>)
      requires NoDuplicates(defaultRows)
      ensures Valid()
      ensures storage.timetable.Some? ==> Snapshot() == storage.timetable.value
      ensures storage.timetable.Some? ==> forall i :: 0 <= i < |rows| ==> fresh(rows[i])
      ensures storage.timetable.None? ==> rows == defaultRows && Snapshot() == Values(defaultRows)
    {
      if storage.timetable.Some? {
        var parsed := NewRows(storage.timetable.value);
        rows := parsed;
      } else {
        rows := defaultRows;
      }
    }

    /** `handleCellChange`: row `rowIndex` is replaced by a new object with the spliced cells. */
    method HandleCellChange(rowIndex: nat, cellIndex: nat, value: string)
      requires Valid() && rowIndex < |rows|
      modifies this
      ensures Valid()
      ensures Snapshot() == SetCell(old(Snapshot()), rowIndex, cellIndex, value)
      ensures |rows| == |old(rows)| && fresh(rows[rowIndex])
      ensures forall i :: 0 <= i < |rows| && i != rowIndex ==> rows[i] == old(rows[i])
    {
      var old_ := rows[rowIndex];
      var updated := new Row(old_.time, SpliceCell(old_.cells, cellIndex, value));
      rows := rows[rowIndex := updated];
    }

    /**
     * `handleTimeChange`: the time is assigned into the existing row object,
     * which the previous state (and `DEFAULT_ROWS`, if it came from there)
     * shares; the list keeps the same objects.
     */
    method HandleTimeChange(rowIndex: nat, value: string)
      requires Valid() && rowIndex < |rows|
      modifies rows[rowIndex]
      ensures Valid() && rows == old(rows)
      ensures rows[rowIndex].time == value
      ensures Snapshot() == SetTime(old(Snapshot()), rowIndex, value)
    {
      var row := rows[rowIndex];
      if row.time != value {
        row.time := value;
      }
    }

    /** `addRow`: the old rows, then one new row "New Time" with seven empty cells. */
    method AddRow()
      requires Valid()
      modifies this
      ensures Valid()
      ensures Snapshot() == old(Snapshot()) + [NEW_ROW]
      ensures |rows| == |old(rows)| + 1 && rows[..|old(rows)|] == old(rows) && fresh(rows[|old(rows)|])
    {
      var row := new Row(NEW_ROW.time, NEW_ROW.cells);
      rows := rows + [row];
    }

    /** `removeRow`: every row but the one at `rowIndex`, which may be out of range. */
    method RemoveRow(rowIndex: int)
      requires Valid()
      modifies this
      ensures Valid()
      ensures rows == FilterOutIndex(old(rows), rowIndex)
      ensures Snapshot() == FilterOutIndex(old(Snapshot()), rowIndex)
    {
      var kept := FilterOutIndex(rows, rowIndex);
      RemovalKeepsValues(rows, rowIndex);
      FilterOutIndexDistinct(rows, rowIndex);
      rows := kept;
    }
  }

  /**
   * A time edit on a fresh timetable reaches `DEFAULT_ROWS`: afterwards the
   * object of the first default row no longer holds the constant's first
   * row, but the edited one.
   */
  method TimeEditReachesDefaultRows() returns (firstDefault: TimeTableRow)
    ensures firstDefault.time == "9:00 - 10:00" && firstDefault != DEFAULT_ROWS[0]
  {
    var defaultRows := NewRows(DEFAULT_ROWS);
    var storage := new LocalStorage(None, None);
    var timetable := new Timetable(storage, defaultRows);
    timetable.HandleTimeChange(0, "9:00 - 10:00");
    firstDefault := defaultRows[0].Value();
  }
}
