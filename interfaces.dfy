/**
 * The record shapes of src/interfaces.ts, as values. GraphQL `edges`/`node`
 * wrappers are flattened into plain sequences, in listing order.
 */
module Interfaces {

  /** One timetable row: an interval text such as "8:00 - 10:00" and one cell per day (0 = Monday). */
  datatype TimeTableRow = TimeTableRow(time: string, cells: seq<string>)

  datatype Subfolder = Subfolder(id: string, name: string, documentCount: int)

  datatype Document = Document(id: string, textContent: string, createdAt: string, description: string)

  datatype Folder = Folder(id: string, name: string, documents: seq<Document>, subfolders: seq<Subfolder>)

  /** Variables of the createFolder mutation. */
  datatype CreateFolderInput = CreateFolderInput(name: string, parentId: string)

  /** Variables of the createDocument mutation. */
  datatype CreateDocumentInput = CreateDocumentInput(folderId: string, textContent: string, description: string)
}
