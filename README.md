# Timetable and subject folders: a Dafny model

This project models the part of the student-materials web client that has behaviour worth stating. That part is a timetable editor whose cells name subjects, and two consumers of it:

- **Row editor** (`useTimetable`). The state is a list of row objects. Each row holds an interval text such as `"8:00 - 10:00"` and one cell per day, Monday first. There are four handlers:
  - `handleCellChange` splices a cell with slice semantics, so a cell index past the end appends.
  - `handleTimeChange` assigns the time into the existing row object, in place.
  - `addRow` appends `"New Time"` with seven empty cells.
  - `removeRow` filters out one index. An index out of range changes nothing.

  When storage is empty, the state starts out as the very objects of `DEFAULT_ROWS`. An in-place time edit therefore reaches that constant (`UseTimetable.TimeEditReachesDefaultRows`).
- **Constants**: `DAYS_OF_WEEK` and `DEFAULT_ROWS`, together with what the resolver makes of them.
- **Slot resolver** (`handleAddDocumentForCurrentTime`). It does the following, in order:
  - computes the minute of the day from the clock;
  - maps the JavaScript weekday to a Monday-first index;
  - parses each row's `"H:MM - H:MM"` text with `split` and `Number`;
  - takes the first row, in stored order, whose half-open interval contains now;
  - trims that row's cell for today;
  - picks the first subfolder whose name equals the trimmed text exactly.

  Only a target changes the document form. Submitting the form clears it on success and leaves it as it was on failure.
- **Timetable page** (`saveTimetable` and the persistence effect).
  - After every change to the rows, the stored "timetable" is the current rows (`TimetablePage.Valid`).
  - Saving collects the distinct trimmed, non-blank cells in first-appearance order. It skips the subjects already recorded in "createdMaterials". It awaits one `createFolder` under the root folder for each other subject. It writes the recorded set once, at the end.
  - A rejected call jumps to the `catch`. Later subjects are not attempted and nothing is recorded, not even the folders this run created. As a result, the next save asks for those subjects again.

A few inputs are outside the model and appear only as parameters:
- Storage is a `LocalStorage` object with the two keys as parsed values.
- The clock is a `Clock` value.
- The folder listing is an `Option<Folder>`.
- The root folder id is a string.

Each remote mutation is a `Remote.Service`. It logs every request, and a fixed oracle sequence decides whether the request succeeds.

Files: `wrappers.dfy`, `interfaces.dfy`, `storage.dfy`, `remote.dfy`, `js_string.dfy` (trim, split, Number), `js_collections.dfy` (find, filter by index, slice, insertion-ordered Set), `timetable_constants.dfy`, `use_timetable.dfy`, `material_contents.dfy`, `resolver_facts.dfy`, `time_table_page.dfy`.

## Model

| member | source | states |
|---|---|---|
| TimetableConstants.EmptyCells | src/constants/timetable.ts:12-15 | `Array(n).fill("")` has n cells, every one "" |
| TimetableConstants.ConstantShapes | src/constants/timetable.ts:1-16 | seven day names with Monday at 0 and Sunday at 6; four default rows, each with seven empty cells |
| ResolverFacts.DefaultIntervals | src/constants/timetable.ts:12-15 | under the resolver's parsing the default texts denote [480,600), [600,720), [780,900), [900,1020) |
| ResolverFacts.DefaultAscending | src/constants/timetable.ts:12-15 | each default interval is non-empty and ends no later than any later one starts |
| ResolverFacts.DefaultIntervalsDisjoint | src/constants/timetable.ts:12-15 | two default rows that both contain the same minute are the same row |
| ResolverFacts.DefaultRowsNeverTarget | src/constants/timetable.ts:12-15 | with `DEFAULT_ROWS` stored, the resolver ends in "no matching row" or "blank cell" for any clock and any folder, never in a target |
| ResolverFacts.MorningRow | src/components/materialContents.tsx:78-84 | a row whose time reads "8:00 - 10:00" spans minutes [480, 600) |
| ResolverFacts.TrimKeeps | src/components/materialContents.tsx:93 | a text that starts and ends with non-whitespace is its own trim |
| ResolverFacts.MathAtNine | src/components/materialContents.tsx:69-97 | a row [8:00,10:00) with "Math" on Monday gives subject "Math" on Monday at 9:00 |
| ResolverFacts.NothingAtEleven | src/components/materialContents.tsx:77-91 | Monday 11:00 lies outside a row spanning [8:00,10:00), so no row matches |
| JsString.TrimStart | src/pages/timeTable.tsx:30 | the leading half of `trim`; specified by `TrimStartFacts` |
| JsString.TrimEnd | src/pages/timeTable.tsx:30 | the trailing half of `trim`; specified by `TrimEndFacts` |
| JsString.Trim | src/pages/timeTable.tsx:30 | `String.prototype.trim`; specified by `TrimEnds`, `TrimInfix` and `TrimIdempotent` |
| JsString.TrimStartFacts | src/pages/timeTable.tsx:30 | leading trim keeps a suffix, drops only whitespace, and stops at a non-whitespace character |
| JsString.TrimEndFacts | src/pages/timeTable.tsx:30 | trailing trim keeps a prefix, drops only whitespace, and stops at a non-whitespace character |
| JsString.TrimEnds | src/pages/timeTable.tsx:30 | a trimmed text is empty or starts and ends with non-whitespace |
| JsString.TrimInfix | src/components/materialContents.tsx:93-94 | the input is whitespace, then the trimmed text, then whitespace; the trim is blank exactly when the input is all whitespace |
| JsString.TrimIdempotent | src/pages/timeTable.tsx:30 | trimming twice is trimming once |
| JsString.IndexOf | src/components/materialContents.tsx:78 | `indexOf(sep, from)`: a found index lies at or after `from` with room for the separator; specified further by `IndexOfLeftmost` and `IndexOfFound` |
| JsString.IndexOfLeftmost | src/components/materialContents.tsx:78 | no occurrence of the separator lies before the one `indexOf` finds; None means there is none |
| JsString.IndexOfFound | src/components/materialContents.tsx:78 | what `indexOf` finds is an occurrence of the separator |
| JsString.Split | src/components/materialContents.tsx:78 | `split` always gives at least one piece |
| JsString.SplitJoin | src/components/materialContents.tsx:78 | joining the pieces with the separator gives back the text |
| JsString.SplitPiecesFree | src/components/materialContents.tsx:78 | no piece contains the separator |
| JsString.SplitAtFirst | src/components/materialContents.tsx:81-82 | splitting `a + sep + b`, where `a` lacks the separator's first character, yields `a` and then the pieces of `b` |
| JsString.SplitWhole | src/components/materialContents.tsx:81-82 | a text lacking the separator's first character is a single piece |
| JsString.JsNumber | src/components/materialContents.tsx:81-82 | `Number` on a piece, None for NaN; specified by `NumberOfDecimal`, `NumberOfTwoDigits` and `NumberNaN` |
| JsString.NumberOfDecimal | src/components/materialContents.tsx:81-82 | `Number` reads back the decimal text of any natural number |
| JsString.NumberOfTwoDigits | src/components/materialContents.tsx:81-82 | `Number` reads back a two-digit minute text, leading zero included |
| JsString.NumberNaN | src/components/materialContents.tsx:81-83 | a text with any non-digit is NaN |
| JsCollections.FindFirst | src/components/materialContents.tsx:77-86 | `find` returns the first element satisfying the predicate, and none when no element does |
| JsCollections.FindFirstIs | src/components/materialContents.tsx:105-107 | an element that satisfies the predicate, with none before it, is what `find` returns |
| JsCollections.FilterOutIndex | src/hooks/useTimeTable.ts:51 | `filter((_, index) => index !== i)`; specified by `FilterOutIndexFacts` and `FilterOutIndexDistinct` |
| JsCollections.FilterOutIndexFacts | src/hooks/useTimeTable.ts:51 | filtering out index i removes exactly position i when it is in range, and nothing otherwise |
| JsCollections.FilterOutIndexDistinct | src/hooks/useTimeTable.ts:51 | the filter keeps distinct elements distinct |
| JsCollections.SetAdd | src/pages/timeTable.tsx:31 | `Set.add` on an insertion-ordered Set; specified through `SetAddAllFacts` |
| JsCollections.SetAddAll | src/pages/timeTable.tsx:27-33 | successive `Set.add` calls; specified by `SetAddAllFacts` and `SetAddAllOrder` |
| JsCollections.SetAddAllFacts | src/pages/timeTable.tsx:27-33 | adding values to a Set loses none, adds nothing else, creates no duplicate, and keeps existing members in front in their order |
| JsCollections.SetAddAllOrder | src/pages/timeTable.tsx:27-33 | a Set built from a list keeps first-appearance order |
| JsCollections.Unknown | src/pages/timeTable.tsx:42-43 | the `createdMaterials.has` skip; specified by `UnknownMembers`, `UnknownOmits` and `UnknownAppend` |
| JsCollections.UnknownMembers | src/pages/timeTable.tsx:42-43 | the skip test leaves exactly the elements not already known, without repeats for a repeat-free input |
| JsCollections.UnknownOmits | src/pages/timeTable.tsx:42-43 | the skip test keeps only elements of its input |
| JsCollections.UnknownAppend | src/pages/timeTable.tsx:42-43 | skipping known elements distributes over concatenation |
| JsCollections.SetAddAllAppendsUnknown | src/pages/timeTable.tsx:37-54 | adding distinct values to a Set appends exactly the new ones, in order, after the existing members |
| UseTimetable.NewRows | src/hooks/useTimeTable.ts:9 | parsing yields fresh, distinct row objects holding exactly the stored rows |
| UseTimetable.SpliceCell | src/hooks/useTimeTable.ts:18-22 | `[...slice(0,c), v, ...slice(c+1)]` replaces cell c when it exists and appends v otherwise |
| UseTimetable.SetCell | src/hooks/useTimeTable.ts:12-25 | only row r changes; its time is kept; cell c becomes v when in range, v is appended when not; the row count is kept |
| UseTimetable.SetTime | src/hooks/useTimeTable.ts:30-41 | row r's time becomes v, its cells and the other rows are kept; writing the time it already has changes nothing |
| UseTimetable.SetCellUndo | src/hooks/useTimeTable.ts:12-25 | writing back a cell's old content restores the rows |
| UseTimetable.RemoveUndoesAdd | src/hooks/useTimeTable.ts:43-52 | removing the row just added gives back the rows |
| UseTimetable.RemovalKeepsValues | src/hooks/useTimeTable.ts:50-52 | removing a row object removes its value and keeps the others in order |
| UseTimetable.Timetable.constructor | src/hooks/useTimeTable.ts:7-10 | the stored rows as fresh objects when the key is present; otherwise the very objects of `DEFAULT_ROWS`, with whatever they hold at that moment |
| UseTimetable.Timetable.HandleCellChange | src/hooks/useTimeTable.ts:12-28 | new rows are `SetCell` of the old; only row r is a new object |
| UseTimetable.Timetable.HandleTimeChange | src/hooks/useTimeTable.ts:30-41 | new rows are `SetTime` of the old; the list keeps the same objects; the edit happens inside row r's object |
| UseTimetable.Timetable.AddRow | src/hooks/useTimeTable.ts:43-48 | old rows are kept as a prefix, then one fresh "New Time" row with seven empty cells |
| UseTimetable.Timetable.RemoveRow | src/hooks/useTimeTable.ts:50-52 | rows without index i, in order; unchanged when i is out of range; objects stay distinct |
| UseTimetable.TimeEditReachesDefaultRows | src/hooks/useTimeTable.ts:9 | after a time edit on a fresh timetable, the first default row object holds the edited row, no longer the constant's |
| MaterialContents.NowMinutes | src/components/materialContents.tsx:70 | hours*60+minutes is below 1440 for a real clock |
| MaterialContents.DayIndex | src/components/materialContents.tsx:73-74 | Sunday maps to 6 and every other day to weekday-1; the index is in 0..6 |
| MaterialContents.ClockMinutes | src/components/materialContents.tsx:81-84 | `split(":").map(Number)` then `h * 60 + m`, None for NaN; specified by `ClockTextMinutes` |
| MaterialContents.Bounds | src/components/materialContents.tsx:78-84 | the interval of a row's time text, None when the row can never match; specified by `IntervalTextBounds`, `ExtraPiecesIgnored` and the three `NeverMatches` lemmas |
| MaterialContents.RowMatches | src/components/materialContents.tsx:85 | the `find` predicate `start <= now < end`; specified through `NoMatchingRowIff` and `FirstMatchDecides` |
| MaterialContents.ClockTextMinutes | src/components/materialContents.tsx:81-84 | "H:MM" parses to H*60+MM |
| MaterialContents.IntervalTextBounds | src/components/materialContents.tsx:78-85 | "H:MM - H:MM" denotes the half-open interval between its two times |
| MaterialContents.ExtraPiecesIgnored | src/components/materialContents.tsx:78 | for first two pieces without spaces, appending " - " and any text leaves the interval unchanged |
| MaterialContents.NoSeparatorNeverMatches | src/components/materialContents.tsx:78-79 | a time text with no occurrence of " - " anywhere lacks a second piece, so its row never matches |
| MaterialContents.NoColonNeverMatches | src/components/materialContents.tsx:78-85 | a time text whose first " - " piece has no ":" gives NaN start minutes, so its row never matches |
| MaterialContents.NoColonInEndNeverMatches | src/components/materialContents.tsx:78-85 | a time text whose second " - " piece has no ":" gives NaN end minutes, so its row never matches |
| MaterialContents.ActiveSubject | src/components/materialContents.tsx:69-97 | today's trimmed cell in the first matching row; specified by `NoMatchingRowIff` and `FirstMatchDecides` |
| MaterialContents.ResolveTarget | src/components/materialContents.tsx:61-113 | the model of `handleAddDocumentForCurrentTime`'s outcome; specified by `TargetIsChosen` and `ChosenIsTarget` |
| MaterialContents.NoMatchingRowIff | src/components/materialContents.tsx:77-91 | the outcome is "no matching row" exactly when no row's interval contains now |
| MaterialContents.FirstMatchDecides | src/components/materialContents.tsx:77-97 | the first matching row decides: its blank cell gives "blank cell" even when a later row matches with a subject |
| MaterialContents.TargetIsChosen | src/components/materialContents.tsx:61-113 | any target is the id of the first subfolder named after the trimmed non-blank cell of the first matching row |
| MaterialContents.ChosenIsTarget | src/components/materialContents.tsx:99-113 | that subfolder's id is always the target |
| MaterialContents.DocumentForm.constructor | src/components/materialContents.tsx:50-53 | the form starts hidden and empty |
| MaterialContents.DocumentForm.AddDocumentForCurrentTime | src/components/materialContents.tsx:61-118 | the outcome is `ResolveTarget`; a target sets the form's folder and shows the form; every other outcome changes nothing |
| MaterialContents.DocumentForm.SubmitDocument | src/components/materialContents.tsx:121-140 | one request with the form's folder, content and description; success clears and hides the form, failure changes nothing |
| Remote.Service.Call | src/pages/timeTable.tsx:45-53 | a request is logged in order and succeeds as the oracle says |
| TimeTablePage.CellSubjects | src/pages/timeTable.tsx:29-32 | the non-blank trims of one row's cells, in order: no more entries than cells; specified by `CellSubjectsMembers` |
| TimeTablePage.Candidates | src/pages/timeTable.tsx:28-33 | the non-blank trims of all cells, row by row; specified by `CandidatesMembers` |
| TimeTablePage.Subjects | src/pages/timeTable.tsx:27-33 | `uniqueCells`; specified by `SubjectsAreTrimmedCells`, `SubjectsInFirstAppearanceOrder` and computed by `UniqueSubjects` |
| TimeTablePage.CellSubjectsMembers | src/pages/timeTable.tsx:29-32 | one row contributes exactly the non-blank trims of its cells |
| TimeTablePage.CandidatesMembers | src/pages/timeTable.tsx:27-33 | all rows together contribute exactly the non-blank trims of all cells |
| TimeTablePage.SubjectsAreTrimmedCells | src/pages/timeTable.tsx:27-33 | the subject set is exactly the non-blank trimmed cell texts, each once, each already trimmed |
| TimeTablePage.SubjectsInFirstAppearanceOrder | src/pages/timeTable.tsx:27-33 | subjects are in first-appearance order: rows top to bottom, cells left to right |
| TimeTablePage.UniqueSubjects | src/pages/timeTable.tsx:27-33 | the nested loops build exactly `new Set` of the candidates in visiting order |
| TimeTablePage.Restored | src/pages/timeTable.tsx:36-39 | the recorded set has no repeats and holds exactly the stored entries; it is empty when the key is absent |
| TimeTablePage.Pending | src/pages/timeTable.tsx:42-43 | the subjects the loop does not skip; specified by `PendingIsNewSubjects` |
| TimeTablePage.Attempted | src/pages/timeTable.tsx:42-55 | the subjects called are a prefix of the pending ones: all of them when every call succeeds, otherwise up to and including the first rejected one |
| TimeTablePage.FolderRequests | src/pages/timeTable.tsx:45-51 | one `createFolder` input per name, with that name and the root folder as parent |
| TimeTablePage.PendingIsNewSubjects | src/pages/timeTable.tsx:36-61 | the pending subjects are the unrecorded subjects, each once; on success the stored set becomes the old set followed by them, which equals the union |
| TimeTablePage.SaveRequests | src/pages/timeTable.tsx:42-53 | a save never asks for a recorded subject, asks for each subject at most once, always with a trimmed non-blank cell text and the root folder |
| TimeTablePage.FirstFailure | src/pages/timeTable.tsx:42-62 | a rejected call for a subject, after the earlier ones succeeded, is the last call of the run |
| TimeTablePage.CreateFolders | src/pages/timeTable.tsx:41-55 | the requests are those of `Attempted`; `ok` holds exactly when all pending calls succeed, and then the set is the restored set followed by the pending subjects |
| TimeTablePage.Save | src/pages/timeTable.tsx:24-65 | the stored rows are untouched; on success "createdMaterials" becomes the restored set followed by the pending subjects; on failure it is unchanged |
| TimeTablePage.TimetablePage.constructor | src/pages/timeTable.tsx:12-21 | mounting gives the hook's initial rows, and the effect stores them |
| TimeTablePage.TimetablePage.CellChanged | src/pages/timeTable.tsx:19-21 | a cell edit, after which the stored timetable equals the rows |
| TimeTablePage.TimetablePage.TimeChanged | src/pages/timeTable.tsx:19-21 | a time edit, after which the stored timetable equals the rows |
| TimeTablePage.TimetablePage.RowAdded | src/pages/timeTable.tsx:19-21 | an added row, after which the stored timetable equals the rows |
| TimeTablePage.TimetablePage.RowRemoved | src/pages/timeTable.tsx:19-21 | a removed row, after which the stored timetable equals the rows |
| TimeTablePage.TimetablePage.SaveTimetable | src/pages/timeTable.tsx:24-65 | `Save` on the current rows: the create requests, success exactly when every pending call succeeds, the single write on success, and no write on failure; the rows and their stored copy are untouched |
| TimeTablePage.Remount | src/pages/timeTable.tsx:19-21 | the persistence round trip: mounting again on the same storage restores exactly the rows the page showed |
| TimeTablePage.CellEditSurvivesReload | src/pages/timeTable.tsx:19-21 | a cell edit followed by a reload gives the edited rows, as `SetCell` describes them |

## Left out

- JSON: storage holds parsed values. `JSON.parse` of malformed stored text throws at src/hooks/useTimeTable.ts:9, src/components/materialContents.tsx:68 and src/pages/timeTable.tsx:38. These throws are not modelled: a stored key is always well formed here.
- Two behaviours follow the code, even where a more forgiving design might be expected:
  - The initial rows do not fall back to the defaults on a parse failure; the parse throws.
  - A failed `createFolder` aborts the whole save. It does not continue with the other subjects, and it does not record the subjects created before it.
- Clock: `new Date()` is the `Clock` parameter. Hours, minutes and weekday are unconstrained naturals.
- `Number` is restricted:
  - the empty text gives 0;
  - a text of ASCII digits gives its value;
  - anything else is NaN.

  Whitespace, signs, decimals and hexadecimal are not modelled.
- `split` is modelled for non-empty separators only. The resolver uses only non-empty ones.
- Indices:
  - A negative or fractional `cellIndex` is not modelled: `slice` counts negative bounds from the end. Cell and row indices of the edit handlers are naturals.
  - A `rowIndex` out of range makes `handleCellChange` and `handleTimeChange` throw; it is a precondition here.
  - `removeRow` takes any integer.
- A matched row with no cell for today makes `undefined.trim()` throw. The resolver returns the `CellMissing` outcome for it instead.
- The remote service is an oracle of outcomes. Server-side effects are not modelled: created ids, `documentCount`, and Apollo's `refetchQueries` and cache.
- `import.meta.env.VITE_ROOT_FOLDER_ID` is the `rootFolderId` string. The case where it is undefined is not modelled.
- Not modelled at all:
  - `console.*` logging;
  - React scheduling (`useState` batching, `useCallback`, effects running after render);
  - asynchronous interleaving of two saves or two submits.
- src/hooks/useFolders.ts, the GraphQL documents in src/api/, and the rendering components are not part of this model.
- MaterialContents.ExtraPiecesIgnored: stated only for first two pieces that contain no space. Without that condition a piece ending in " -" can join with the appended " - " into a new separator, so appending a third piece can change the interval (`"8:00 - 10:00 -"` never matches, but with `" - x"` appended it spans [480, 600)).
- There is no concrete two-row example of "the first matching row wins". That property is stated for all inputs by `MaterialContents.FirstMatchDecides`.
