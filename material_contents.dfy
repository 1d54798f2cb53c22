/**
 * The slot resolver and document form of src/components/materialContents.tsx:
 * from the stored timetable, the clock and the current folder listing, find
 * the subfolder of the subject being taught now, and open the document
 * form on it; then create the document and reset the form.
 */
module MaterialContents {
  import opened Wrappers
  import opened Interfaces
  import opened JsString
  import opened JsCollections
  import opened Storage
  import opened Remote

  /** What `new Date()` contributes: getHours(), getMinutes() and getDay() (0 = Sunday). */
  datatype Clock = Clock(hours: nat, minutes: nat, weekday: nat)

  /** `getHours() * 60 + getMinutes()`: the minute of the day, below 1440 for a real clock. */
  function NowMinutes(now: Clock): (m: nat)
    ensures now.hours < 24 && now.minutes < 60 ==> m < 1440
  {
    now.hours * 60 + now.minutes
  }

  /** The timetable's day index (Monday = 0, …, Sunday = 6) of a JavaScript weekday (Sunday = 0). */
  function DayIndex(weekday: nat): (d: nat)
    ensures weekday < 7 ==> d < 7 && d == (weekday + 6) % 7
  {
    if weekday == 0 then 6 else weekday - 1
  }

  // ------------------------------------------------------ interval texts

  /**
   * `piece.split(":").map(Number)` followed by `h * 60 + m`. None stands for
   * NaN: a piece with no ":" has no minutes part, and a part that is not a
   * number is NaN. Parts after the second are ignored.
   */
  function ClockMinutes(piece: string): Option<nat> {
    var parts := Split(piece, ":");
    if |parts| < 2 then None
    else match (JsNumber(parts[0]), JsNumber(parts[1]))
      case (Some(h), Some(m)) => Some(h * 60 + m)
      case _ => None
  }

  /** A half-open interval of minutes of the day, [start, end). */
  datatype Interval = Interval(start: nat, end: nat)

  /**
   * The interval a row's time text denotes: `time.split(" - ")`, whose first
   * two pieces must be non-empty and both parse. None means the row can
   * never match, since a comparison with NaN is false.
   */
  function Bounds(time: string): Option<Interval> {
    var pieces := Split(time, " - ");
    if |pieces| < 2 || pieces[0] == "" || pieces[1] == "" then None
    else match (ClockMinutes(pieces[0]), ClockMinutes(pieces[1]))
      case (Some(s), Some(e)) => Some(Interval(s, e))
      case _ => None
  }

  /** The predicate given to `find`: `start <= now < end`. */
  predicate RowMatches(row: TimeTableRow, nowMinutes: nat) {
    && Bounds(row.time).Some?
    && Bounds(row.time).value.start <= nowMinutes < Bounds(row.time).value.end
  }

  /** The text "H:MM" of a time of day, as a timetable writes it. */
  function ClockText(h: nat, m: nat): string
    requires m < 60
  {
    Decimal(h) + ":" + TwoDigits(m)
  }

  /** The text "H:MM - H:MM" of an interval. */
  function IntervalText(h1: nat, m1: nat, h2: nat, m2: nat): string
    requires m1 < 60 && m2 < 60
  {
    ClockText(h1, m1) + " - " + ClockText(h2, m2)
  }

  /** A well-formed "H:MM" reads back as its minute of the day. */
  lemma ClockTextMinutes(h: nat, m: nat)
    requires m < 60
    ensures ClockMinutes(ClockText(h, m)) == Some(h * 60 + m)
  {
    assert ':' !in Decimal(h);
    assert ':' !in TwoDigits(m);
    SplitAtFirst(Decimal(h), ":", TwoDigits(m));
    SplitWhole(TwoDigits(m), ":");
    NumberOfDecimal(h);
    NumberOfTwoDigits(m);
  }

  /** A time of day's text holds digits and one colon, never a space. */
  lemma ClockTextHasNoSpace(h: nat, m: nat)
    requires m < 60
    ensures ' ' !in ClockText(h, m)
  {
    assert ' ' !in Decimal(h) && ' ' !in TwoDigits(m);
  }

  /** A well-formed "H:MM - H:MM" denotes the interval between its two times. */
  lemma IntervalTextBounds(time: string, h1: nat, m1: nat, h2: nat, m2: nat)
    requires m1 < 60 && m2 < 60 && time == IntervalText(h1, m1, h2, m2)
    ensures Bounds(time) == Some(Interval(h1 * 60 + m1, h2 * 60 + m2))
  {
    ClockTextHasNoSpace(h1, m1);
    ClockTextHasNoSpace(h2, m2);
    SplitAtFirst(ClockText(h1, m1), " - ", ClockText(h2, m2));
    SplitWhole(ClockText(h2, m2), " - ");
    ClockTextMinutes(h1, m1);
    ClockTextMinutes(h2, m2);
  }

  /** Only the first two pieces of the time text count: a third one changes nothing. */
  lemma ExtraPiecesIgnored(a: string, b: string, c: string)
    requires ' ' !in a && ' ' !in b
    ensures Bounds(a + " - " + b + " - " + c) == Bounds(a + " - " + b)
  {
    var long := a + " - " + b + " - " + c;
    assert long == a + " - " + (b + " - " + c);
    SplitAtFirst(a, " - ", b + " - " + c);
    SplitAtFirst(b, " - ", c);
    var pieces := Split(long, " - ");
    assert pieces[0] == a && pieces[1] == b;
    SplitAtFirst(a, " - ", b);
    SplitWhole(b, " - ");
    assert Split(a + " - " + b, " - ") == [a, b];
  }

  /** A text without " - " has no second piece, so its row never matches. */
  lemma NoSeparatorNeverMatches(time: string, nowMinutes: nat)
    requires forall k :: !OccursAt(time, " - ", k)
    ensures Bounds(time) == None && !RowMatches(TimeTableRow(time, []), nowMinutes)
  {
    IndexOfLeftmost(time, " - ", 0);
    IndexOfFound(time, " - ", 0);
  }

  /** A start with no ":" lacks its minutes part: NaN, so the row never matches. */
  lemma NoColonNeverMatches(time: string, nowMinutes: nat)
    requires ':' !in Split(time, " - ")[0]
    ensures Bounds(time) == None && !RowMatches(TimeTableRow(time, []), nowMinutes)
  {
    SplitWhole(Split(time, " - ")[0], ":");
  }

  /** An end with no ":" lacks its minutes part too: NaN, so the row never matches. */
  lemma NoColonInEndNeverMatches(time: string, nowMinutes: nat)
    requires |Split(time, " - ")| >= 2 && ':' !in Split(time, " - ")[1]
    ensures Bounds(time) == None && !RowMatches(TimeTableRow(time, []), nowMinutes)
  {
    SplitWhole(Split(time, " - ")[1], ":");
  }

  // ------------------------------------------------------- the resolver

  /** What the first matching row says about the current day. */
  datatype Slot =
    | NoMatchingRow      // no row's interval contains now
    | CellMissing        // the row has no cell for today: `undefined.trim()` throws
    | BlankCell          // today's cell is blank after trim
    | Subject(name: string)

  /** Lines 69-97: today's trimmed cell in the first row, in stored order, whose interval contains now. */
  function ActiveSubject(rows: seq<TimeTableRow>, now: Clock): Slot {
    var nowMinutes := NowMinutes(now);
    match FindFirst(rows, row => RowMatches(row, nowMinutes))
    case None => NoMatchingRow
    case Some(i) =>
      var d := DayIndex(now.weekday);
      if d >= |rows[i].cells| then CellMissing
      else if Trim(rows[i].cells[d]) == "" then BlankCell
      else Subject(Trim(rows[i].cells[d]))
  }

  /** How `handleAddDocumentForCurrentTime` ends. */
  datatype Resolution =
    | NoTimetable               // no "timetable" key in storage
    | Unscheduled(slot: Slot)   // no matching row, no cell, or a blank cell
    | NoMainFolder              // the query has no folder yet
    | NoMatchingSubfolder       // no subfolder carries the subject's name
    | Target(folderId: string)

  /** Lines 61-113: the id of the first subfolder, in listing order, named exactly like the active subject. */
  function ResolveTarget(stored: Option<seq<TimeTableRow>>, now: Clock, mainFolder: Option<Folder>): Resolution {
    if stored.None? then NoTimetable
    else match ActiveSubject(stored.value, now)
      case Subject(name) =>
        if mainFolder.None? then NoMainFolder
        else (match FindFirst(mainFolder.value.subfolders, (f: Subfolder) => f.name == name)
          case None => NoMatchingSubfolder
          case Some(k) => Target(mainFolder.value.subfolders[k].id))
      case slot => Unscheduled(slot)
  }

  /** Row `i` is the first, in stored order, whose interval contains now. */
  ghost predicate FirstMatch(rows: seq<TimeTableRow>, nowMinutes: nat, i: nat) {
    i < |rows| && RowMatches(rows[i], nowMinutes) && forall j :: 0 <= j < i ==> !RowMatches(rows[j], nowMinutes)
  }

  /**
   * Row `i` is the first match, its cell for today is the non-blank subject,
   * and subfolder `k` is the first whose name is that subject.
   */
  ghost predicate Chosen(rows: seq<TimeTableRow>, now: Clock, folder: Folder, i: nat, k: nat) {
    && FirstMatch(rows, NowMinutes(now), i)
    && DayIndex(now.weekday) < |rows[i].cells|
    && Trim(rows[i].cells[DayIndex(now.weekday)]) != ""
    && k < |folder.subfolders|
    && folder.subfolders[k].name == Trim(rows[i].cells[DayIndex(now.weekday)])
    && forall l :: 0 <= l < k ==> folder.subfolders[l].name != Trim(rows[i].cells[DayIndex(now.weekday)])
  }

  /** No row matching now, and only that, yields NoMatchingRow. */
  lemma NoMatchingRowIff(rows: seq<TimeTableRow>, now: Clock)
    ensures ActiveSubject(rows, now) == NoMatchingRow
        <==> forall j :: 0 <= j < |rows| ==> !RowMatches(rows[j], NowMinutes(now))
  {
  }

  /**
   * The first matching row decides: a blank cell there gives BlankCell even
   * when a later row also matches with a subject.
   */
  lemma FirstMatchDecides(rows: seq<TimeTableRow>, now: Clock, i: nat)
    requires FirstMatch(rows, NowMinutes(now), i)
    requires DayIndex(now.weekday) < |rows[i].cells|
    ensures Trim(rows[i].cells[DayIndex(now.weekday)]) == "" ==> ActiveSubject(rows, now) == BlankCell
    ensures Trim(rows[i].cells[DayIndex(now.weekday)]) != "" ==>
      ActiveSubject(rows, now) == Subject(Trim(rows[i].cells[DayIndex(now.weekday)]))
  {
    var nowMinutes := NowMinutes(now);
    var found := FindFirst(rows, row => RowMatches(row, nowMinutes));
    assert found == Some(i);
  }

  /** A target is only ever the first subfolder named after the first matching row's subject. */
  lemma TargetIsChosen(rows: seq<TimeTableRow>, now: Clock, folder: Folder)
    ensures ResolveTarget(Some(rows), now, Some(folder)).Target? ==>
      exists i: nat, k: nat :: Chosen(rows, now, folder, i, k)
        && ResolveTarget(Some(rows), now, Some(folder)).folderId == folder.subfolders[k].id
  {
    var nowMinutes := NowMinutes(now);
    var r := ResolveTarget(Some(rows), now, Some(folder));
    if r.Target? {
      var i := FindFirst(rows, row => RowMatches(row, nowMinutes)).value;
      var name := Trim(rows[i].cells[DayIndex(now.weekday)]);
      var k := FindFirst(folder.subfolders, (f: Subfolder) => f.name == name).value;
      assert Chosen(rows, now, folder, i, k);
    }
  }

  /** And that subfolder is always the target. */
  lemma ChosenIsTarget(rows: seq<TimeTableRow>, now: Clock, folder: Folder, i: nat, k: nat)
    requires Chosen(rows, now, folder, i, k)
    ensures ResolveTarget(Some(rows), now, Some(folder)) == Target(folder.subfolders[k].id)
  {
    FirstMatchDecides(rows, now, i);
    var name := Trim(rows[i].cells[DayIndex(now.weekday)]);
    FindFirstIs(folder.subfolders, (f: Subfolder) => f.name == name, k);
  }

  // ---------------------------------------------------- the form state

  /** The component state the two handlers set. */
  class DocumentForm {
    var showDocumentForm: bool
    var docContent: string
    var docDescription: string
    var targetFolderId: string

    constructor ()
      ensures !showDocumentForm && docContent == "" && docDescription == "" && targetFolderId == ""
    {
      showDocumentForm := false;
      docContent := "";
      docDescription := "";
      targetFolderId := "";
    }

    /**
     * `handleAddDocumentForCurrentTime`, with storage, clock and the folder
     * query result as inputs; `outcome` tells which way it ended. Only a
     * target changes the state: it becomes the form's folder and the form
     * is shown.
     */
    method AddDocumentForCurrentTime(storage: LocalStorage, now: Clock, mainFolder: Option<Folder>)
      returns (outcome: Resolution)
      modifies this
      ensures outcome == ResolveTarget(storage.timetable, now, mainFolder)
      ensures outcome.Target? ==> targetFolderId == outcome.folderId && showDocumentForm
      ensures outcome.Target? ==> docContent == old(docContent) && docDescription == old(docDescription)
      ensures !outcome.Target? ==> unchanged(this)
    {
      outcome := ResolveTarget(storage.timetable, now, mainFolder);
      if outcome.Target? {
        targetFolderId := outcome.folderId;
        showDocumentForm := true;
      }
    }

    /**
     * `handleSubmitDocument`: one createDocument request with the form's
     * folder, content and description. Success clears the form and hides
     * it; failure leaves all four fields for a retry.
     */
    method SubmitDocument(documents: Service<CreateDocumentInput>) returns (ok: bool)
      modifies this, documents
      ensures documents.requests
        == old(documents.requests) + [CreateDocumentInput(old(targetFolderId), old(docContent), old(docDescription))]
      ensures ok == Succeeds(documents.outcomes, |old(documents.requests)|)
      ensures ok ==> docContent == "" && docDescription == "" && targetFolderId == "" && !showDocumentForm
      ensures !ok ==> unchanged(this)
    {
      ok := documents.Call(CreateDocumentInput(targetFolderId, docContent, docDescription));
      if ok {
        docContent := "";
        docDescription := "";
        targetFolderId := "";
        showDocumentForm := false;
      }
    }
  }
}
