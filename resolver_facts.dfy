/**
 * What the slot resolver of MaterialContents makes of the constant data in
 * src/constants/timetable.ts, and of a few concrete timetables.
 */
module ResolverFacts {
  import opened Wrappers
  import opened Interfaces
  import opened JsString
  import opened TimetableConstants
  import opened MaterialContents

  /** "H:MM" for the default rows' clock times. */
  lemma DefaultClockTexts()
    ensures ClockText(8, 0) == "8:00" && ClockText(10, 0) == "10:00" && ClockText(12, 0) == "12:00"
    ensures ClockText(13, 0) == "13:00" && ClockText(15, 0) == "15:00" && ClockText(17, 0) == "17:00"
  {
    assert Decimal(1) == "1" && Decimal(8) == "8" && Decimal(0) == "0";
    assert Decimal(10) == "10" && Decimal(12) == "12" && Decimal(13) == "13";
    assert Decimal(15) == "15" && Decimal(17) == "17";
    assert TwoDigits(0) == "00";
  }

  /** The default rows' texts are interval texts. */
  lemma DefaultIntervalTexts()
    ensures IntervalText(8, 0, 10, 0) == "8:00 - 10:00"
    ensures IntervalText(10, 0, 12, 0) == "10:00 - 12:00"
    ensures IntervalText(13, 0, 15, 0) == "13:00 - 15:00"
    ensures IntervalText(15, 0, 17, 0) == "15:00 - 17:00"
  {
    DefaultClockTexts();
  }

  /** The hours at which the default rows start and end, in order. */
  const DEFAULT_START_HOURS: seq<nat> := [8, 10, 13, 15]
  const DEFAULT_END_HOURS: seq<nat> := [10, 12, 15, 17]

  /** Start and end minutes of the default rows, in order. */
  const DEFAULT_STARTS: seq<nat> := [480, 600, 780, 900]
  const DEFAULT_ENDS: seq<nat> := [600, 720, 900, 1020]

  // The literal texts, the constant and the parser are kept in separate
  // lemmas: DefaultTextAt relates the constant to an interval text,
  // WholeHours parses an interval text given as a parameter, and
  // DefaultIntervalAt chains the two. Each proof stays small that way.

  /** Default row `k`'s time is the interval text of its start and end hours. */
  lemma DefaultTextAt(k: nat)
    requires k < 4
    ensures DEFAULT_ROWS[k].time == IntervalText(DEFAULT_START_HOURS[k], 0, DEFAULT_END_HOURS[k], 0)
  {
    DefaultIntervalTexts();
  }

  /** An interval text on whole hours parses to those hours in minutes. */
  lemma WholeHours(t: string, h1: nat, h2: nat)
    requires t == IntervalText(h1, 0, h2, 0)
    ensures Bounds(t) == Some(Interval(h1 * 60, h2 * 60))
  {
    IntervalTextBounds(t, h1, 0, h2, 0);
  }

  /** The interval of default row `k`, by position. */
  lemma DefaultIntervalAt(k: nat)
    requires k < 4
    ensures Bounds(DEFAULT_ROWS[k].time) == Some(Interval(DEFAULT_STARTS[k], DEFAULT_ENDS[k]))
  {
    DefaultTextAt(k);
    WholeHours(DEFAULT_ROWS[k].time, DEFAULT_START_HOURS[k], DEFAULT_END_HOURS[k]);
  }

  /** The default rows cover 8:00-10:00, 10:00-12:00, 13:00-15:00 and 15:00-17:00, in minutes. */
  lemma DefaultIntervals()
    ensures Bounds(DEFAULT_ROWS[0].time) == Some(Interval(480, 600))
    ensures Bounds(DEFAULT_ROWS[1].time) == Some(Interval(600, 720))
    ensures Bounds(DEFAULT_ROWS[2].time) == Some(Interval(780, 900))
    ensures Bounds(DEFAULT_ROWS[3].time) == Some(Interval(900, 1020))
  {
    DefaultIntervalAt(0);
    DefaultIntervalAt(1);
    DefaultIntervalAt(2);
    DefaultIntervalAt(3);
  }

  /** Each default interval ends no later than the next one starts, and none is empty. */
  lemma DefaultAscending(i: nat, j: nat)
    requires i < j < 4
    ensures DEFAULT_STARTS[i] < DEFAULT_ENDS[i] <= DEFAULT_STARTS[j] < DEFAULT_ENDS[j]
  {
  }

  /** The default intervals are non-empty and strictly ascending, so no minute lies in two of them. */
  lemma DefaultIntervalsDisjoint(nowMinutes: nat, i: nat, j: nat)
    requires i < |DEFAULT_ROWS| && j < |DEFAULT_ROWS|
    requires RowMatches(DEFAULT_ROWS[i], nowMinutes) && RowMatches(DEFAULT_ROWS[j], nowMinutes)
    ensures i == j
  {
    DefaultIntervalAt(i);
    DefaultIntervalAt(j);
    if i < j {
      DefaultAscending(i, j);
    } else if j < i {
      DefaultAscending(j, i);
    }
  }

  /** With the default rows, the resolver never reaches a folder: the row it finds, if any, is blank today. */
  lemma DefaultRowsNeverTarget(now: Clock, mainFolder: Option<Folder>)
    requires now.weekday < 7
    ensures ResolveTarget(Some(DEFAULT_ROWS), now, mainFolder) == Unscheduled(NoMatchingRow)
         || ResolveTarget(Some(DEFAULT_ROWS), now, mainFolder) == Unscheduled(BlankCell)
  {
    ConstantShapes();
    assert Trim("") == "";
  }

  /** A row whose time reads "8:00 - 10:00" spans minutes [480, 600). */
  lemma MorningRow(row: TimeTableRow)
    requires row.time == "8:00 - 10:00"
    ensures Bounds(row.time) == Some(Interval(480, 600))
  {
    DefaultIntervalTexts();
    WholeHours(row.time, 8, 10);
  }

  /** A name with no whitespace at either end is its own trim. */
  lemma TrimKeeps(name: string)
    requires name != [] && !IsWhitespace(name[0]) && !IsWhitespace(name[|name| - 1])
    ensures Trim(name) == name
  {
  }

  lemma MathTrimmed()
    ensures Trim("Math") == "Math"
  {
    TrimKeeps("Math");
  }

  /** A "Math" row spanning 8:00 to 10:00 (as "8:00 - 10:00" does, by MorningRow): Monday 9:00 falls in it. */
  lemma MathAtNine(row: TimeTableRow)
    requires Bounds(row.time) == Some(Interval(480, 600))
    requires row.cells == ["Math", "", "", "", "", "", ""]
    ensures ActiveSubject([row], Clock(9, 0, 1)) == Subject("Math")
  {
    MathTrimmed();
    FirstMatchDecides([row], Clock(9, 0, 1), 0);
  }

  /** Monday 11:00 falls outside a row spanning 8:00 to 10:00. */
  lemma NothingAtEleven(row: TimeTableRow)
    requires Bounds(row.time) == Some(Interval(480, 600))
    ensures ActiveSubject([row], Clock(11, 0, 1)) == NoMatchingRow
  {
    NoMatchingRowIff([row], Clock(11, 0, 1));
  }
}
