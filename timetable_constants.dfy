/** The constant data of src/constants/timetable.ts. */
module TimetableConstants {
  import opened Interfaces

  /** Column headings; the position of a name is the day index used for `cells`. */
  const DAYS_OF_WEEK: seq<string> :=
    ["Monday", "Tuesday", "Wednesday", "Thursday", "Friday", "Saturday", "Sunday"]

  /** `Array(n).fill("")`. */
  function EmptyCells(n: nat): (r: seq<string>)
    ensures |r| == n && forall i :: 0 <= i < n ==> r[i] == ""
  {
    seq(n, _ => "")
  }

  /** The four rows a timetable starts with when nothing is stored. */
  const DEFAULT_ROWS: seq<TimeTableRow> := [
    TimeTableRow("8:00 - 10:00", EmptyCells(7)),
    TimeTableRow("10:00 - 12:00", EmptyCells(7)),
    TimeTableRow("13:00 - 15:00", EmptyCells(7)),
    TimeTableRow("15:00 - 17:00", EmptyCells(7))
  ]

  /** Seven day names, Monday first and Sunday last; four default rows of seven empty cells each. */
  lemma ConstantShapes()
    ensures |DAYS_OF_WEEK| == 7 && DAYS_OF_WEEK[0] == "Monday" && DAYS_OF_WEEK[6] == "Sunday"
    ensures |DEFAULT_ROWS| == 4
    ensures forall i, d :: 0 <= i < |DEFAULT_ROWS| && 0 <= d < 7 ==>
      |DEFAULT_ROWS[i].cells| == 7 && DEFAULT_ROWS[i].cells[d] == ""
  {
  }
}
