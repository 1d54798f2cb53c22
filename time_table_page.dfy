/**
 * The timetable page of src/pages/timeTable.tsx: the rows editor, the
 * effect that writes the rows to storage after every change, and
 * `saveTimetable`, which creates one folder per new subject under the root
 * folder and then records the subjects that have a folder.
 */
module TimeTablePage {
  import opened Wrappers
  import opened Interfaces
  import opened JsString
  import opened JsCollections
  import opened Storage
  import opened Remote
  import opened UseTimetable

  // ------------------------------------------------------ the subject set

  /** The trimmed, non-blank cells of one row, left to right, repeats included. */
  function CellSubjects(cells: seq<string>): (r: seq<string>)
    ensures |r| <= |cells|
  {
    if cells == [] then []
    else
      var n := |cells| - 1;
      CellSubjects(cells[..n]) + (if Trim(cells[n]) != "" then [Trim(cells[n])] else [])
  }

  /** The trimmed, non-blank cells of all rows, rows in order and cells left to right. */
  function Candidates(rows: seq<TimeTableRow>): seq<string> {
    if rows == [] then []
    else
      var n := |rows| - 1;
      Candidates(rows[..n]) + CellSubjects(rows[n].cells)
  }

  /** `uniqueCells`: the Set built from the candidates, in insertion (first-appearance) order. */
  function Subjects(rows: seq<TimeTableRow>): seq<string> {
    SetAddAll([], Candidates(rows))
  }

  /** Some cell of `cells` trims to `x`. */
  ghost predicate InCells(cells: seq<string>, x: string) {
    exists c :: 0 <= c < |cells| && Trim(cells[c]) == x
  }

  /** `x` is the trimmed text of some non-blank cell of some row. */
  ghost predicate IsSubjectOf(rows: seq<TimeTableRow>, x: string) {
    x != "" && exists r :: 0 <= r < |rows| && InCells(rows[r].cells, x)
  }

  lemma {:induction false} CellSubjectsMembers(cells: seq<string>, x: string)
    ensures x in CellSubjects(cells) <==> x != "" && InCells(cells, x)
  {
    if cells != [] {
      var n := |cells| - 1;
      var rest := cells[..n];
      var t := Trim(cells[n]);
      CellSubjectsMembers(rest, x);
      assert CellSubjects(cells) == CellSubjects(rest) + (if t != "" then [t] else []);
      assert InCells(cells, x) <==> InCells(rest, x) || t == x by {
        if InCells(cells, x) {
          var c :| 0 <= c < |cells| && Trim(cells[c]) == x;
          if c < n {
            assert rest[c] == cells[c];
          }
        }
        if InCells(rest, x) {
          var c :| 0 <= c < |rest| && Trim(rest[c]) == x;
          assert rest[c] == cells[c];
        }
      }
    }
  }

  lemma {:induction false} CandidatesMembers(rows: seq<TimeTableRow>, x: string)
    ensures x in Candidates(rows) <==> IsSubjectOf(rows, x)
  {
    if rows != [] {
      var n := |rows| - 1;
      var rest := rows[..n];
      CandidatesMembers(rest, x);
      CellSubjectsMembers(rows[n].cells, x);
      assert Candidates(rows) == Candidates(rest) + CellSubjects(rows[n].cells);
      assert IsSubjectOf(rows, x) <==> IsSubjectOf(rest, x) || (x != "" && InCells(rows[n].cells, x)) by {
        if IsSubjectOf(rows, x) {
          var r :| 0 <= r < |rows| && InCells(rows[r].cells, x);
          if r < n {
            assert rest[r] == rows[r];
          }
        }
        if IsSubjectOf(rest, x) {
          var r :| 0 <= r < |rest| && InCells(rest[r].cells, x);
          assert rest[r] == rows[r];
        }
      }
    }
  }

  /**
   * The subject universe: exactly the trimmed non-blank cell texts, each once;
   * every subject is non-blank and already trimmed.
   */
  lemma SubjectsAreTrimmedCells(rows: seq<TimeTableRow>, x: string)
    ensures x in Subjects(rows) <==> IsSubjectOf(rows, x)
    ensures NoDuplicates(Subjects(rows))
    ensures x in Subjects(rows) ==> x != "" && Trim(x) == x
  {
    var s := Subjects(rows);
    var cands := Candidates(rows);
    CandidatesMembers(rows, x);
    SetAddAllFacts([], cands);
    assert x in s <==> x in cands by {
      if x in s {
        var i :| 0 <= i < |s| && s[i] == x;
      }
      if x in cands {
        var i :| 0 <= i < |cands| && cands[i] == x;
      }
    }
    if x in s {
      var r :| 0 <= r < |rows| && InCells(rows[r].cells, x);
      var c :| 0 <= c < |rows[r].cells| && Trim(rows[r].cells[c]) == x;
      TrimIdempotent(rows[r].cells[c]);
    }
  }

  /**
   * Subjects come in first-appearance order, rows top to bottom and cells
   * left to right: wherever a later subject occurs, an earlier one has
   * already occurred.
   */
  lemma SubjectsInFirstAppearanceOrder(rows: seq<TimeTableRow>, i: nat, j: nat, q: nat)
    requires i < j < |Subjects(rows)| && q < |Candidates(rows)| && Candidates(rows)[q] == Subjects(rows)[j]
    ensures exists p :: 0 <= p < q && Candidates(rows)[p] == Subjects(rows)[i]
  {
    SetAddAllOrder(Candidates(rows), i, j, q);
  }

  /** One more cell: its trimmed text joins the candidates when it is not blank. */
  lemma CellSubjectsSnoc(cells: seq<string>, c: nat)
    requires c < |cells|
    ensures CellSubjects(cells[..c + 1])
         == CellSubjects(cells[..c]) + (if Trim(cells[c]) != "" then [Trim(cells[c])] else [])
  {
    assert cells[..c + 1][..c] == cells[..c];
  }

  /** One more row: its cells' candidates follow those of the earlier rows. */
  lemma CandidatesSnoc(rows: seq<TimeTableRow>, r: nat)
    requires r < |rows|
    ensures Candidates(rows[..r + 1]) == Candidates(rows[..r]) + CellSubjects(rows[r].cells)
  {
    assert rows[..r + 1][..r] == rows[..r];
  }

  /** `rows.forEach(row => row.cells.forEach(...))` filling `uniqueCells`. */
  method UniqueSubjects(rows: seq<TimeTableRow>) returns (unique: seq<string>)
    ensures unique == Subjects(rows)
  {
    unique := [];
    ghost var seen: seq<string> := [];
    var r := 0;
    while r < |rows|
      invariant 0 <= r <= |rows|
      invariant seen == Candidates(rows[..r])
      invariant unique == SetAddAll([], seen)
    {
      var cells := rows[r].cells;
      ghost var before := seen;
      CandidatesSnoc(rows, r);
      assert before + CellSubjects(cells[..0]) == before;
      var c := 0;
      while c < |cells|
        invariant 0 <= c <= |cells|
        invariant seen == before + CellSubjects(cells[..c])
        invariant unique == SetAddAll([], seen)
      {
        var trimmed := Trim(cells[c]);
        ghost var tail: seq<string> := if trimmed != "" then [trimmed] else [];
        CellSubjectsSnoc(cells, c);
        AppendAssoc(before, CellSubjects(cells[..c]), tail);
        if trimmed != "" {
          SetAddAllSnoc([], seen, trimmed);
          unique := SetAdd(unique, trimmed);
        } else {
          assert seen + tail == seen;
        }
        seen := seen + tail;
        c := c + 1;
      }
      assert cells[..c] == cells;
      r := r + 1;
    }
    assert rows[..r] == rows;
  }

  /** The stored "createdMaterials" as the Set `new Set(JSON.parse(...))`, empty when the key is absent. */
  function Restored(stored: Option<seq<string>>): (r: seq<string>)
    ensures NoDuplicates(r)
    ensures stored.Some? ==> forall i :: 0 <= i < |stored.value| ==> stored.value[i] in r
    ensures forall i :: 0 <= i < |r| ==> stored.Some? && r[i] in stored.value
  {
    if stored.Some? then SetAddAllFacts([], stored.value); SetAddAll([], stored.value) else []
  }

  /** The subjects `saveTimetable` has to create, in visiting order: those not restored. */
  function Pending(rows: seq<TimeTableRow>, stored: Option<seq<string>>): seq<string> {
    Unknown(Subjects(rows), Restored(stored))
  }

  // --------------------------------------------------- the create loop

  /** Requests `from` .. `from + count - 1` to the service all succeed. */
  predicate AllSucceed(outcomes: seq<bool>, from: nat, count: nat) {
    forall n :: from <= n < from + count ==> Succeeds(outcomes, n)
  }

  /** One more successful request extends a run of successes. */
  lemma AllSucceedSnoc(outcomes: seq<bool>, from: nat, count: nat)
    requires AllSucceed(outcomes, from, count) && Succeeds(outcomes, from + count)
    ensures AllSucceed(outcomes, from, count + 1)
  {
  }

  /**
   * The subjects for which `createFolder` is awaited, when request numbers
   * start at `base`: all of `pending` if every call succeeds, otherwise up to
   * and including the first whose promise rejects, after which the loop is
   * left for the `catch`.
   */
  function Attempted(pending: seq<string>, outcomes: seq<bool>, base: nat): (r: seq<string>)
    decreases |pending|
    ensures |r| <= |pending| && r == pending[..|r|]
    ensures AllSucceed(outcomes, base, |pending|) ==> r == pending
    ensures !AllSucceed(outcomes, base, |pending|) ==>
      |r| >= 1 && AllSucceed(outcomes, base, |r| - 1) && !Succeeds(outcomes, base + |r| - 1)
  {
    if pending == [] then []
    else if !Succeeds(outcomes, base) then [pending[0]]
    else [pending[0]] + Attempted(pending[1..], outcomes, base + 1)
  }

  /** The `createFolder` inputs for `names`, each under `parentId`. */
  function FolderRequests(names: seq<string>, parentId: string): (r: seq<CreateFolderInput>)
    ensures |r| == |names|
    ensures forall i :: 0 <= i < |r| ==> r[i] == CreateFolderInput(names[i], parentId)
  {
    seq(|names|, i requires 0 <= i < |names| => CreateFolderInput(names[i], parentId))
  }

  /**
   * The subjects that get a folder are the ones not yet recorded, each at
   * most once, and what is persisted on success is the stored set followed
   * by them: the union of the stored set and the subject universe, stored
   * entries first.
   */
  lemma PendingIsNewSubjects(rows: seq<TimeTableRow>, stored: Option<seq<string>>)
    ensures NoDuplicates(Pending(rows, stored))
    ensures forall i :: 0 <= i < |Pending(rows, stored)| ==>
      Pending(rows, stored)[i] in Subjects(rows) && Pending(rows, stored)[i] !in Restored(stored)
    ensures forall i :: 0 <= i < |Subjects(rows)| && Subjects(rows)[i] !in Restored(stored) ==>
      Subjects(rows)[i] in Pending(rows, stored)
    ensures Restored(stored) + Pending(rows, stored) == SetAddAll(Restored(stored), Subjects(rows))
  {
    SubjectsAreTrimmedCells(rows, "");
    UnknownMembers(Subjects(rows), Restored(stored));
    SetAddAllAppendsUnknown(Restored(stored), Subjects(rows));
  }

  /**
   * What one save asks of `createFolder`: only subjects not yet recorded,
   * each at most once, each a non-blank trimmed cell text, each under the
   * root folder.
   */
  lemma SaveRequests(rows: seq<TimeTableRow>, stored: Option<seq<string>>, outcomes: seq<bool>, base: nat, parentId: string)
    ensures NoDuplicates(FolderRequests(Attempted(Pending(rows, stored), outcomes, base), parentId))
    ensures forall i :: 0 <= i < |FolderRequests(Attempted(Pending(rows, stored), outcomes, base), parentId)| ==>
      var request := FolderRequests(Attempted(Pending(rows, stored), outcomes, base), parentId)[i];
      && request.parentId == parentId
      && request.name !in Restored(stored)
      && IsSubjectOf(rows, request.name)
      && Trim(request.name) == request.name
  {
    var pending := Pending(rows, stored);
    var names := Attempted(pending, outcomes, base);
    var requests := FolderRequests(names, parentId);
    PendingIsNewSubjects(rows, stored);
    forall i | 0 <= i < |requests|
      ensures requests[i].name == pending[i]
    {
      assert names[i] == pending[i];
    }
    forall i | 0 <= i < |requests|
      ensures requests[i].name !in Restored(stored) && IsSubjectOf(rows, requests[i].name)
      ensures Trim(requests[i].name) == requests[i].name
    {
      SubjectsAreTrimmedCells(rows, pending[i]);
    }
  }

  /** One visit of the create loop: the pending list grows by the visited subject exactly when it is unknown. */
  lemma VisitStep(subjects: seq<string>, known: seq<string>, i: nat)
    requires i < |subjects|
    ensures Unknown(subjects[..i + 1], known)
         == Unknown(subjects[..i], known) + (if subjects[i] in known then [] else [subjects[i]])
    ensures Unknown(subjects, known) == Unknown(subjects[..i + 1], known) + Unknown(subjects[i + 1..], known)
  {
    assert subjects[..i + 1][..i] == subjects[..i];
    assert subjects == subjects[..i + 1] + subjects[i + 1..];
    UnknownAppend(subjects[..i + 1], subjects[i + 1..], known);
  }

  /** In a list without repeats, no element occurs before its own position. */
  lemma NotBefore(s: seq<string>, i: nat)
    requires NoDuplicates(s) && i < |s|
    ensures s[i] !in s[..i]
  {
  }

  /** One more `createFolder` input at the end. */
  lemma FolderRequestsSnoc(names: seq<string>, x: string, parentId: string)
    ensures FolderRequests(names + [x], parentId) == FolderRequests(names, parentId) + [CreateFolderInput(x, parentId)]
  {
  }

  /** When request `base + k` is the first to fail, the calls made are those for the first `k + 1` pending subjects. */
  lemma AttemptedStops(pending: seq<string>, outcomes: seq<bool>, base: nat, k: nat)
    requires k < |pending|
    requires AllSucceed(outcomes, base, k) && !Succeeds(outcomes, base + k)
    ensures !AllSucceed(outcomes, base, |pending|)
    ensures Attempted(pending, outcomes, base) == pending[..k + 1]
  {
    var r := Attempted(pending, outcomes, base);
    assert !AllSucceed(outcomes, base, |pending|);
  }

  /** A rejected call for the `i`-th subject, after the earlier ones succeeded, ends the calls with it. */
  lemma FirstFailure(subjects: seq<string>, known: seq<string>, i: nat, outcomes: seq<bool>, base: nat)
    requires i < |subjects| && subjects[i] !in known
    requires AllSucceed(outcomes, base, |Unknown(subjects[..i], known)|)
    requires !Succeeds(outcomes, base + |Unknown(subjects[..i], known)|)
    ensures !AllSucceed(outcomes, base, |Unknown(subjects, known)|)
    ensures Attempted(Unknown(subjects, known), outcomes, base) == Unknown(subjects[..i], known) + [subjects[i]]
  {
    var done := Unknown(subjects[..i], known);
    var pending := Unknown(subjects, known);
    VisitStep(subjects, known, i);
    AppendAssoc(done, [subjects[i]], Unknown(subjects[i + 1..], known));
    assert pending[..|done| + 1] == done + [subjects[i]];
    AttemptedStops(pending, outcomes, base, |done|);
  }

  /**
   * The loop of `saveTimetable` over the unique subjects, `created` starting
   * as the restored set: a subject already in `created` is skipped, any other
   * gets an awaited `createFolder` under `parentId` and joins `created`. The
   * first rejected call ends the loop with `ok` false.
   */
  method CreateFolders(folders: Service<CreateFolderInput>, subjects: seq<string>, known: seq<string>, parentId: string)
    returns (ok: bool, created: seq<string>)
    requires NoDuplicates(subjects)
    modifies folders
    ensures folders.requests == old(folders.requests)
      + FolderRequests(Attempted(Unknown(subjects, known), folders.outcomes, |old(folders.requests)|), parentId)
    ensures ok <==> AllSucceed(folders.outcomes, |old(folders.requests)|, |Unknown(subjects, known)|)
    ensures ok ==> created == known + Unknown(subjects, known)
  {
    ghost var pending := Unknown(subjects, known);
    ghost var base := |folders.requests|;
    ghost var done: seq<string> := [];
    created := known;
    var i := 0;
    while i < |subjects|
      invariant 0 <= i <= |subjects|
      invariant done == Unknown(subjects[..i], known)
      invariant created == known + done
      invariant folders.requests == old(folders.requests) + FolderRequests(done, parentId)
      invariant AllSucceed(folders.outcomes, base, |done|)
    {
      var subject := subjects[i];
      VisitStep(subjects, known, i);
      NotBefore(subjects, i);
      UnknownOmits(subjects[..i], known, subject);
      if subject in created {
        i := i + 1;
        continue;
      }
      FolderRequestsSnoc(done, subject, parentId);
      AppendAssoc(old(folders.requests), FolderRequests(done, parentId), [CreateFolderInput(subject, parentId)]);
      assert |folders.requests| == base + |done|;
      var ok' := folders.Call(CreateFolderInput(subject, parentId));
      if !ok' {
        FirstFailure(subjects, known, i, folders.outcomes, base);
        return false, created;
      }
      AllSucceedSnoc(folders.outcomes, base, |done|);
      AppendAssoc(known, done, [subject]);
      created := created + [subject];
      done := done + [subject];
      i := i + 1;
    }
    assert subjects[..i] == subjects;
    assert Attempted(pending, folders.outcomes, base) == pending;
    ok := true;
  }

  // ------------------------------------------------------------ the page

  class TimetablePage {
    /** The `useTimetable` state. */
    const editor: Timetable
    const storage: LocalStorage
    /** The `createFolder` mutation. */
    const folders: Service<CreateFolderInput>
    /** `import.meta.env.VITE_ROOT_FOLDER_ID`. */
    const rootFolderId: string

    /** The persistence effect has run: the stored "timetable" is the current rows. */
    ghost predicate Valid()
      reads this, editor, editor.rows, storage
    {
      editor.Valid() && storage.timetable == Some(editor.Snapshot())
    }

    /** Mounting: the hook's initial state, then the effect's first write. */
    constructor (storage: LocalStorage, folders: Service<CreateFolderInput>, rootFolderId: string, defaultRows: seq<Row>)
      requires NoDuplicates(defaultRows)
      modifies storage
      ensures Valid()
      ensures this.storage == storage && this.folders == folders && this.rootFolderId == rootFolderId
      ensures old(storage.timetable).Some? ==> editor.Snapshot() == old(storage.timetable).value
      ensures old(storage.timetable).None? ==> editor.rows == defaultRows && editor.Snapshot() == Values(defaultRows)
      ensures storage.createdMaterials == old(storage.createdMaterials)
    {
      var e := new Timetable(storage, defaultRows);
      editor := e;
      this.storage := storage;
      this.folders := folders;
      this.rootFolderId := rootFolderId;
      new;
      storage.timetable := Some(editor.Snapshot());
    }

    /** A cell edit, then the effect. */
    method CellChanged(rowIndex: nat, cellIndex: nat, value: string)
      requires Valid() && rowIndex < |editor.rows|
      modifies editor, storage
      ensures Valid()
      ensures editor.Snapshot() == SetCell(old(editor.Snapshot()), rowIndex, cellIndex, value)
      ensures storage.createdMaterials == old(storage.createdMaterials)
    {
      editor.HandleCellChange(rowIndex, cellIndex, value);
      storage.timetable := Some(editor.Snapshot());
    }

    /** A time edit, then the effect. */
    method TimeChanged(rowIndex: nat, value: string)
      requires Valid() && rowIndex < |editor.rows|
      modifies editor.rows[rowIndex], storage
      ensures Valid()
      ensures editor.Snapshot() == SetTime(old(editor.Snapshot()), rowIndex, value)
      ensures storage.createdMaterials == old(storage.createdMaterials)
    {
      editor.HandleTimeChange(rowIndex, value);
      storage.timetable := Some(editor.Snapshot());
    }

    /** "Add Row", then the effect. */
    method RowAdded()
      requires Valid()
      modifies editor, storage
      ensures Valid()
      ensures editor.Snapshot() == old(editor.Snapshot()) + [NEW_ROW]
      ensures storage.createdMaterials == old(storage.createdMaterials)
    {
      editor.AddRow();
      storage.timetable := Some(editor.Snapshot());
    }

    /** A row's remove button, then the effect. */
    method RowRemoved(rowIndex: int)
      requires Valid()
      modifies editor, storage
      ensures Valid()
      ensures editor.Snapshot() == FilterOutIndex(old(editor.Snapshot()), rowIndex)
      ensures storage.createdMaterials == old(storage.createdMaterials)
    {
      editor.RemoveRow(rowIndex);
      storage.timetable := Some(editor.Snapshot());
    }

    /**
     * `saveTimetable`: visits the subjects in order, skips the recorded ones,
     * awaits `createFolder` for each other one, and records the set once at
     * the end. A rejected call ends the run in the `catch`: later subjects are
     * not attempted and nothing is recorded, not even the folders created
     * earlier in the run. The rows are not touched.
     */
    method SaveTimetable() returns (saved: bool)
      requires Valid()
      modifies storage, folders
      ensures Valid()
      ensures folders.requests == old(folders.requests) + FolderRequests(
        Attempted(Pending(editor.Snapshot(), old(storage.createdMaterials)), folders.outcomes, |old(folders.requests)|),
        rootFolderId)
      ensures saved <==> AllSucceed(folders.outcomes, |old(folders.requests)|,
                                    |Pending(editor.Snapshot(), old(storage.createdMaterials))|)
      ensures saved ==> storage.createdMaterials == Some(Restored(old(storage.createdMaterials))
                                                         + Pending(editor.Snapshot(), old(storage.createdMaterials)))
      ensures !saved ==> storage.createdMaterials == old(storage.createdMaterials)
    {
      ghost var rows := editor.Snapshot();
      saved := Save(editor.Snapshot(), storage, folders, rootFolderId);
      assert editor.Snapshot() == rows;
    }
  }

  /** The body of `saveTimetable`, on the rows it reads. */
  method Save(rows: seq<TimeTableRow>, storage: LocalStorage, folders: Service<CreateFolderInput>, rootFolderId: string)
    returns (saved: bool)
    modifies storage, folders
    ensures storage.timetable == old(storage.timetable)
    ensures folders.requests == old(folders.requests) + FolderRequests(
      Attempted(Pending(rows, old(storage.createdMaterials)), folders.outcomes, |old(folders.requests)|),
      rootFolderId)
    ensures saved <==> AllSucceed(folders.outcomes, |old(folders.requests)|,
                                  |Pending(rows, old(storage.createdMaterials))|)
    ensures saved ==> storage.createdMaterials == Some(Restored(old(storage.createdMaterials))
                                                       + Pending(rows, old(storage.createdMaterials)))
    ensures !saved ==> storage.createdMaterials == old(storage.createdMaterials)
  {
    var subjects := UniqueSubjects(rows);
    SubjectsAreTrimmedCells(rows, "");
    var ok, created := CreateFolders(folders, subjects, Restored(storage.createdMaterials), rootFolderId);
    if ok {
      storage.createdMaterials := Some(created);
    }
    saved := ok;
  }

  // ------------------------------------------------------- the round trip

  /**
   * Mounting the page again on the same storage, as a reload does, gives
   * back the rows the page showed: the hook reads what the effect wrote.
   */
  method Remount(page: TimetablePage, defaultRows: seq<Row>) returns (restored: Timetable)
    requires page.Valid() && NoDuplicates(defaultRows)
    ensures restored.Snapshot() == page.editor.Snapshot()
  {
    restored := new Timetable(page.storage, defaultRows);
  }

  /** A cell edit survives a reload: the remounted rows are the edited rows. */
  method CellEditSurvivesReload(page: TimetablePage, rowIndex: nat, cellIndex: nat, value: string,
                                defaultRows: seq<Row>)
    returns (restored: seq<TimeTableRow>)
    requires page.Valid() && rowIndex < |page.editor.rows| && NoDuplicates(defaultRows)
    modifies page.editor, page.storage
    ensures restored == SetCell(old(page.editor.Snapshot()), rowIndex, cellIndex, value)
  {
    page.CellChanged(rowIndex, cellIndex, value);
    var remounted := Remount(page, defaultRows);
    restored := remounted.Snapshot();
  }
}
