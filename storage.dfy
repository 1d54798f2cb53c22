/**
 * Browser localStorage, reduced to the two keys the core reads and writes.
 * Each key holds the value that JSON.parse would give back for it, or None
 * when the key is absent.
 */
module Storage {
  import opened Wrappers
  import opened Interfaces

  class LocalStorage {
    /** Key "timetable": the rows as last persisted. */
    var timetable: Option<seq<TimeTableRow>>
    /** Key "createdMaterials": the subjects believed to have a folder already. */
    var createdMaterials: Option<seq<string>>

    constructor (timetable: Option<seq<TimeTableRow>>, createdMaterials: Option<seq<string>>)
      ensures this.timetable == timetable && this.createdMaterials == createdMaterials
    {
      this.timetable := timetable;
      this.createdMaterials := createdMaterials;
    }
  }
}
