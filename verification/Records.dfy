/** Index records of a bundled notebook: what a folder's vx.json holds
    (src/core/folder.h) and the rows the metadata store keeps for it
    (src/core/metadata_store.h). JSON text is replaced by typed records. */
module Records {

  datatype Option<+T> = None | Some(value: T) {
    function GetOr(default: T): T {
      if None? then default else value
    }
  }

  /** A node id. The empty string is the "no id" value of the program. */
  type Id = string

  /** A notebook-relative path as its components; the notebook root is []. */
  type Path = seq<string>

  datatype FileRecord = FileRecord(
    id: Id, name: string, created: int, modified: int, metadata: string,
    tags: seq<string>, attachments: seq<string>)

  datatype FolderConfig = FolderConfig(
    id: Id, name: string, created: int, modified: int, metadata: string,
    files: seq<FileRecord>, folders: seq<string>)

  datatype FolderRow = FolderRow(
    id: Id, parentId: Id, name: string, created: int, modified: int, metadata: string)

  /** Tags lie in a table with one row per file and tag: a set. */
  datatype FileRow = FileRow(
    id: Id, folderId: Id, name: string, created: int, modified: int, metadata: string,
    tags: set<string>, attachments: seq<string>)

  function ToFolderRow(config: FolderConfig, parentId: Id): FolderRow {
    FolderRow(config.id, parentId, config.name, config.created, config.modified, config.metadata)
  }

  // Tags and attachments are written by separate statements.
  function ToFileRow(file: FileRecord, folderId: Id): FileRow {
    FileRow(file.id, folderId, file.name, file.created, file.modified, file.metadata, {}, [])
  }

  /** What a durable file holds: the whole value last written, or the unreadable
      remains of a write that was cut short (no proper prefix of a dumped JSON
      object parses). */
  datatype FileImage<+T> = Whole(value: T) | Torn

  datatype Error =
    | ReadOnly | InvalidParam | NotFound | JsonParse | InvalidState | AlreadyExists
    | IoError | DatabaseError | PermutationMismatch | NodeNotExists | Unsupported

  datatype Result<+T> = Ok(value: T) | Err(error: Error)

  /** A name that may be appended to a directory without leaving it. */
  predicate SafeName(name: string) {
    name != "" && name != "." && name != ".." && '/' !in name && '\\' !in name
  }

  /** The index with one more child, last; all else but the time is as it was. */
  ghost predicate OneMoreChild(before: FolderConfig, after: FolderConfig, name: string, now: int) {
    && after.id == before.id && after.name == before.name && after.created == before.created
    && after.metadata == before.metadata && after.files == before.files
    && |after.folders| == |before.folders| + 1 && before.folders <= after.folders
    && after.folders[|before.folders|] == name && after.modified == now
  }

  /** Folder and file ids share one namespace. */
  function NodeIds(config: FolderConfig): seq<Id> {
    [config.id] + FileIds(config.files)
  }

  function FileIds(files: seq<FileRecord>): (ids: seq<Id>)
    ensures |ids| == |files|
    ensures forall k :: 0 <= k < |files| ==> ids[k] == files[k].id
  {
    seq(|files|, k requires 0 <= k < |files| => files[k].id)
  }

  function IdSet(ids: seq<Id>): set<Id> { set id | id in ids }

  predicate Distinct<T(==)>(s: seq<T>) {
    forall i, j :: 0 <= i < j < |s| ==> s[i] != s[j]
  }

  /** FindFileRecord: index of the first record of that name, or -1. */
  function FindRecord(files: seq<FileRecord>, name: string): (k: int)
    ensures k == -1 || (0 <= k < |files| && files[k].name == name)
    ensures forall j :: 0 <= j < |files| && (k == -1 || j < k) ==> files[j].name != name
  {
    FindRecordFrom(files, name, 0)
  }

  function FindRecordFrom(files: seq<FileRecord>, name: string, from: nat): (k: int)
    requires from <= |files|
    ensures k == -1 || (from <= k < |files| && files[k].name == name)
    ensures forall j :: from <= j < |files| && (k == -1 || j < k) ==> files[j].name != name
    decreases |files| - from
  {
    if from == |files| then -1
    else if files[from].name == name then from
    else FindRecordFrom(files, name, from + 1)
  }
}
