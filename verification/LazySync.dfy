/** The lazy config cache of a bundled notebook and its store mirror
    (src/core/bundled_folder_manager.cpp: GetFolderConfig, GetParentFolderId,
    SyncFolderToStore, SyncFilesToStore). */
module LazySync {
  import opened Records
  import opened Collections
  import opened MetadataStore
  import opened StagedTree

  // ---- Store calls of the lazy path ----

  /** INSERT OR REPLACE: an unknown parent is stored as no parent, and a
      replaced row takes its subtree along. */
  function CreateFolder(s: Store, row: FolderRow): Store {
    var parent := if row.parentId in s.folders then row.parentId else "";
    var t := DeleteFolder(s, row.id);
    t.(folders := t.folders[row.id := row.(parentId := parent)])
  }

  function UpdateFolder(s: Store, id: Id, name: string, modified: int, metadata: string): Store
    requires id in s.folders
  {
    s.(folders := s.folders[id := s.folders[id].(name := name, modified := modified, metadata := metadata)])
  }

  /** INSERT OR REPLACE, refused when the folder row is missing; a tag list that
      repeats a tag is written as far as the repetition. */
  function CreateFile(s: Store, row: FileRow, tags: seq<string>): Store {
    if row.folderId != "" && row.folderId !in s.folders then s
    else s.(files := s.files[row.id := row.(tags := StoredTags(tags), attachments := [])])
  }

  /** A changed row is rewritten whole, which empties its tags and attachments. */
  function UpdateFile(s: Store, id: Id, name: string, modified: int, metadata: string): Store
    requires id in s.files
  {
    var row := s.files[id];
    if row.name == name && row.modified == modified && row.metadata == metadata then s
    else s.(files := s.files[id := row.(name := name, modified := modified, metadata := metadata,
                                        tags := {}, attachments := [])])
  }

  function SetFileTags(s: Store, id: Id, tags: seq<string>): Store
    requires id in s.files
  {
    s.(files := s.files[id := s.files[id].(tags := StoredTags(tags))])
  }

  // ---- The tree on disk ----

  /** The readable vx.json files, by folder path. */
  type Configs = map<Path, FolderConfig>

  function Readable(tree: ConfigTree): Configs {
    map p | p in tree && tree[p].Whole? :: tree[p].value
  }

  function ParentPath(p: Path): Path
    requires p != []
  {
    p[..|p| - 1]
  }

  lemma ChildPath(p: Path, name: string)
    ensures p + [name] != [] && ParentPath(p + [name]) == p
  {
  }

  /** Every readable config below the root has a readable parent; folder ids are
      distinct, and so are file ids. */
  ghost predicate WellFormed(configs: Configs) {
    && (forall p :: p in configs ==> configs[p].id != "" && Distinct(FileIds(configs[p].files)))
    && (forall p {:trigger ParentPath(p)} :: p in configs && p != [] ==> ParentPath(p) in configs)
    && (forall p, q :: p in configs && q in configs && p != q ==> Separate(configs[p], configs[q]))
  }

  type WellFormedTree = tree: ConfigTree | WellFormed(Readable(tree)) witness map[]

  ghost predicate Separate(c: FolderConfig, d: FolderConfig) {
    c.id != d.id && forall id :: id in FileIds(c.files) ==> id !in FileIds(d.files)
  }

  function ParentIdOf(configs: Configs, p: Path): Id {
    if p != [] && ParentPath(p) in configs then configs[ParentPath(p)].id else ""
  }

  // ---- What a synced store looks like ----

  /** The staleness test of SyncFolderToStore. */
  predicate Stale(s: Store, c: FolderConfig) {
    c.id !in s.folders || c.modified > s.folders[c.id].modified
  }

  predicate FileMirrors(row: FileRow, file: FileRecord, folderId: Id) {
    && row.folderId == folderId && row.name == file.name && row.modified == file.modified
    && row.metadata == file.metadata && row.tags == StoredTags(file.tags)
  }

  /** The store's rows of this folder are exactly what its config lists, each
      tag list as far as it goes without repetition. */
  ghost predicate Mirrors(s: Store, c: FolderConfig) {
    && c.id in s.folders
    && s.folders[c.id].name == c.name && s.folders[c.id].modified == c.modified
    && s.folders[c.id].metadata == c.metadata
    && FilesMirror(s, c.id, c.files)
  }

  ghost predicate FilesMirror(s: Store, folderId: Id, files: seq<FileRecord>) {
    && (forall k :: 0 <= k < |files| ==>
         files[k].id in s.files && FileMirrors(s.files[files[k].id], files[k], folderId))
    && (forall id :: id in s.files && s.files[id].folderId == folderId ==> id in FileIds(files))
  }

  /** A mirrored file has the tags of its config, one for one, if and only if
      the config lists none of them twice. */
  lemma MirroredTagsExactlyWhen(s: Store, c: FolderConfig, k: nat)
    requires Mirrors(s, c) && k < |c.files|
    ensures multiset(s.files[c.files[k].id].tags) == multiset(c.files[k].tags) <==> Distinct(c.files[k].tags)
    ensures Distinct(c.files[k].tags) ==> s.files[c.files[k].id].tags == IdSet(c.files[k].tags)
  {
    StoredTagsAreTheListExactlyWhen(c.files[k].tags);
  }

  /** The attachments of a file's row after its folder was synced: the same if the
      row was this folder's and said what the config says, none otherwise. */
  function KeptAttachments(before: Store, folderId: Id, file: FileRecord): seq<string> {
    if RowStays(before, folderId, file) then before.files[file.id].attachments else []
  }

  predicate RowStays(s: Store, folderId: Id, file: FileRecord) {
    && file.id in s.files && s.files[file.id].folderId == folderId
    && s.files[file.id].name == file.name && s.files[file.id].modified == file.modified
    && s.files[file.id].metadata == file.metadata
  }

  /** The time of creation in a file's row: a row of this folder keeps its own. */
  function KeptCreated(before: Store, folderId: Id, file: FileRecord): int {
    if file.id in before.files && before.files[file.id].folderId == folderId then before.files[file.id].created
    else file.created
  }

  ghost predicate ColumnsKept(before: Store, after: Store, folderId: Id, files: seq<FileRecord>) {
    forall k :: 0 <= k < |files| ==>
      files[k].id in after.files
      && after.files[files[k].id].attachments == KeptAttachments(before, folderId, files[k])
      && after.files[files[k].id].created == KeptCreated(before, folderId, files[k])
  }

  /** A file's row keeps its attachments, through a whole run, if and only if its
      folder was not stale, the row was this folder's and said what the config
      says, or there were none. */
  lemma AttachmentsStayExactlyWhen(configs: Configs, done: set<Path>, s0: Store, s: Store, p: Path, k: nat)
    requires WellFormed(configs) && Fetched(configs, done, s0, s)
    requires p in done && p in configs && k < |configs[p].files| && configs[p].files[k].id in s0.files
    requires configs[p].files[k].id in s.files
    ensures var file := configs[p].files[k];
            s.files[file.id].attachments == s0.files[file.id].attachments
            <==> !Stale(s0, configs[p]) || RowStays(s0, configs[p].id, file) || s0.files[file.id].attachments == []
  {
    var id := configs[p].files[k].id;
    assert FileIds(configs[p].files)[k] == id;
    if !Stale(s0, configs[p]) {
      forall q | q in done && q in configs && q != p ensures id !in FileIds(configs[q].files) {
        assert Separate(configs[p], configs[q]);
      }
      assert !StaleFile(configs, done, s0, id);
    }
  }

  ghost predicate StaleFolder(configs: Configs, done: set<Path>, s0: Store, id: Id) {
    exists p :: p in done && p in configs && configs[p].id == id && Stale(s0, configs[p])
  }

  ghost predicate StaleFile(configs: Configs, done: set<Path>, s0: Store, id: Id) {
    exists p :: p in done && p in configs && id in FileIds(configs[p].files) && Stale(s0, configs[p])
  }

  /** How `s` came from `s0` by syncing the folders at `done`: stale ones mirror
      their configs, new rows hang on the row of their parent's config, and
      nothing else changed. */
  ghost predicate Fetched(configs: Configs, done: set<Path>, s0: Store, s: Store) {
    && Synced(configs, done, s0, s)
    && FoldersFramed(configs, done, s0, s)
    && FilesFramed(configs, done, s0, s)
    && Attached(configs, done, s0, s)
  }

  ghost predicate Attached(configs: Configs, done: set<Path>, s0: Store, s: Store) {
    forall p :: p in done && p in configs && Stale(s0, configs[p]) ==>
      ColumnsKept(s0, s, configs[p].id, configs[p].files)
  }

  ghost predicate Synced(configs: Configs, done: set<Path>, s0: Store, s: Store) {
    forall p :: p in done && p in configs ==>
      && configs[p].id in s.folders
      && (Stale(s0, configs[p]) ==> Mirrors(s, configs[p]))
      && (configs[p].id !in s0.folders ==>
            s.folders[configs[p].id] == ToFolderRow(configs[p], ParentIdOf(configs, p)))
  }

  ghost predicate FoldersFramed(configs: Configs, done: set<Path>, s0: Store, s: Store) {
    && (forall id :: id in s0.folders ==>
          id in s.folders && s.folders[id].parentId == s0.folders[id].parentId
          && s.folders[id].created == s0.folders[id].created && s.folders[id].id == s0.folders[id].id)
    && (forall id :: id in s.folders && !StaleFolder(configs, done, s0, id) ==>
          id in s0.folders && s.folders[id] == s0.folders[id])
  }

  ghost predicate FilesFramed(configs: Configs, done: set<Path>, s0: Store, s: Store) {
    && (forall id :: id in s.files && !StaleFile(configs, done, s0, id) ==>
          id in s0.files && s.files[id] == s0.files[id])
    && (forall id :: id in s0.files && id !in s.files ==>
          StaleFolder(configs, done, s0, s0.files[id].folderId))
  }

  /** One SyncFilesToStore call, seen from outside. */
  ghost predicate FilesSynced(before: Store, after: Store, folderId: Id, files: seq<FileRecord>) {
    && after.folders == before.folders
    && FilesMirror(after, folderId, files)
    && ColumnsKept(before, after, folderId, files)
    && (forall id :: id in after.files && id !in FileIds(files) ==>
         id in before.files && after.files[id] == before.files[id])
    && (forall id :: id in before.files && id !in after.files ==> before.files[id].folderId == folderId)
  }

  lemma FilesSyncedKeepsForeignKeys(before: Store, after: Store, folderId: Id, files: seq<FileRecord>)
    requires ForeignKeys(before) && FilesSynced(before, after, folderId, files) && folderId in before.folders
    ensures ForeignKeys(after)
  {
    forall id | id in after.files ensures after.files[id].folderId in after.folders {
      if id in FileIds(files) {
        var k :| 0 <= k < |files| && files[k].id == id;
      }
    }
  }

  /** The folder row as SyncFolderToStore writes it. */
  ghost predicate FolderRowSynced(s: Store, t: Store, c: FolderConfig, parentId: Id) {
    && t.files == s.files
    && if c.id in s.folders then t == UpdateFolder(s, c.id, c.name, c.modified, c.metadata)
       else t.folders == s.folders[c.id := ToFolderRow(c, parentId)]
  }

  lemma FolderRowKeepsForeignKeys(s: Store, t: Store, c: FolderConfig, parentId: Id)
    requires ForeignKeys(s) && (parentId == "" || parentId in s.folders)
    requires FolderRowSynced(s, t, c, parentId)
    ensures ForeignKeys(t)
  {
  }

  lemma UnsyncedRowIsOld(configs: Configs, done: set<Path>, s0: Store, s: Store, p: Path)
    requires WellFormed(configs) && p in configs && p !in done && Fetched(configs, done, s0, s)
    ensures configs[p].id in s0.folders <==> configs[p].id in s.folders
    ensures configs[p].id in s.folders ==> s.folders[configs[p].id] == s0.folders[configs[p].id]
    ensures Stale(s, configs[p]) <==> Stale(s0, configs[p])
  {
    forall q | q in done && q in configs ensures configs[q].id != configs[p].id {
      assert Separate(configs[p], configs[q]);
    }
  }

  /** Syncing one more folder extends the relation by it. */
  lemma FetchedOneMore(configs: Configs, done: set<Path>, s0: Store, s: Store, t: Store, u: Store, p: Path)
    requires WellFormed(configs) && p in configs && p !in done
    requires Fetched(configs, done, s0, s) && Stale(s, configs[p])
    requires FolderRowSynced(s, t, configs[p], ParentIdOf(configs, p))
    requires FilesSynced(t, u, configs[p].id, configs[p].files)
    ensures Fetched(configs, done + {p}, s0, u)
  {
    UnsyncedRowIsOld(configs, done, s0, s, p);
    SyncedOneMore(configs, done, s0, s, t, u, p);
    FoldersOneMore(configs, done, s0, s, t, u, p);
    FilesOneMore(configs, done, s0, s, t, u, p);
    AttachedOneMore(configs, done, s0, s, t, u, p);
  }

  lemma AttachedOneMore(configs: Configs, done: set<Path>, s0: Store, s: Store, t: Store, u: Store, p: Path)
    requires WellFormed(configs) && p in configs && p !in done && t.files == s.files
    requires Synced(configs, done, s0, s) && FilesFramed(configs, done, s0, s) && Attached(configs, done, s0, s)
    requires FilesSynced(t, u, configs[p].id, configs[p].files)
    ensures Attached(configs, done + {p}, s0, u)
  {
    forall q | q in done && q in configs && Stale(s0, configs[q])
      ensures ColumnsKept(s0, u, configs[q].id, configs[q].files) {
      assert Separate(configs[q], configs[p]);
      AttachmentsElsewhere(s0, s, t, u, configs[p], configs[q]);
    }
    AttachmentsFromStart(configs, done, s0, t, p);
  }

  /** Another folder's sync leaves a folder's attachments alone. */
  lemma AttachmentsElsewhere(s0: Store, s: Store, t: Store, u: Store, c: FolderConfig, d: FolderConfig)
    requires Separate(d, c) && t.files == s.files && FilesSynced(t, u, c.id, c.files)
    requires c.id != d.id && FilesMirror(s, d.id, d.files) && ColumnsKept(s0, s, d.id, d.files)
    ensures ColumnsKept(s0, u, d.id, d.files)
  {
    forall k | 0 <= k < |d.files| ensures d.files[k].id in u.files && u.files[d.files[k].id] == s.files[d.files[k].id] {
      assert FileIds(d.files)[k] == d.files[k].id;
    }
  }

  /** A row of a folder that has not been synced yet is the row of the start. */
  lemma AttachmentsFromStart(configs: Configs, done: set<Path>, s0: Store, t: Store, p: Path)
    requires WellFormed(configs) && p in configs && p !in done && FilesFramed(configs, done, s0, t)
    ensures forall k :: 0 <= k < |configs[p].files| ==>
              && KeptAttachments(t, configs[p].id, configs[p].files[k])
                 == KeptAttachments(s0, configs[p].id, configs[p].files[k])
              && KeptCreated(t, configs[p].id, configs[p].files[k])
                 == KeptCreated(s0, configs[p].id, configs[p].files[k])
  {
    forall k | 0 <= k < |configs[p].files|
      ensures KeptAttachments(t, configs[p].id, configs[p].files[k])
              == KeptAttachments(s0, configs[p].id, configs[p].files[k])
      ensures KeptCreated(t, configs[p].id, configs[p].files[k])
              == KeptCreated(s0, configs[p].id, configs[p].files[k]) {
      var id := configs[p].files[k].id;
      assert FileIds(configs[p].files)[k] == id;
      forall q | q in done && q in configs ensures id !in FileIds(configs[q].files) && configs[q].id != configs[p].id {
        assert Separate(configs[p], configs[q]);
      }
      assert !StaleFile(configs, done, s0, id) && !StaleFolder(configs, done, s0, configs[p].id);
    }
  }

  lemma SyncedOneMore(configs: Configs, done: set<Path>, s0: Store, s: Store, t: Store, u: Store, p: Path)
    requires WellFormed(configs) && p in configs && p !in done
    requires Synced(configs, done, s0, s) && (configs[p].id in s0.folders <==> configs[p].id in s.folders)
    requires FolderRowSynced(s, t, configs[p], ParentIdOf(configs, p))
    requires FilesSynced(t, u, configs[p].id, configs[p].files)
    ensures Synced(configs, done + {p}, s0, u)
  {
    forall q | q in done && q in configs && Stale(s0, configs[q]) ensures Mirrors(u, configs[q]) {
      assert Separate(configs[p], configs[q]) && Separate(configs[q], configs[p]);
      OtherFolderUntouched(s, t, u, configs[p], configs[q], ParentIdOf(configs, p));
    }
    forall q | q in done && q in configs ensures configs[q].id != configs[p].id {
      assert Separate(configs[p], configs[q]);
    }
  }

  lemma FoldersOneMore(configs: Configs, done: set<Path>, s0: Store, s: Store, t: Store, u: Store, p: Path)
    requires p in configs && FoldersFramed(configs, done, s0, s) && Stale(s0, configs[p])
    requires FolderRowSynced(s, t, configs[p], ParentIdOf(configs, p)) && u.folders == t.folders
    ensures FoldersFramed(configs, done + {p}, s0, u)
  {
    StaleSetsGrow(configs, done, s0, p);
  }

  lemma StaleSetsGrow(configs: Configs, done: set<Path>, s0: Store, p: Path)
    requires p in configs && Stale(s0, configs[p])
    ensures StaleFolder(configs, done + {p}, s0, configs[p].id)
    ensures forall id :: id in FileIds(configs[p].files) ==> StaleFile(configs, done + {p}, s0, id)
    ensures forall id :: StaleFolder(configs, done, s0, id) ==> StaleFolder(configs, done + {p}, s0, id)
    ensures forall id :: StaleFile(configs, done, s0, id) ==> StaleFile(configs, done + {p}, s0, id)
  {
    assert p in done + {p};
    StaleSetsOnlyGrow(configs, done, s0, p);
  }

  lemma StaleSetsOnlyGrow(configs: Configs, done: set<Path>, s0: Store, p: Path)
    ensures forall id :: StaleFolder(configs, done, s0, id) ==> StaleFolder(configs, done + {p}, s0, id)
    ensures forall id :: StaleFile(configs, done, s0, id) ==> StaleFile(configs, done + {p}, s0, id)
  {
    forall id | StaleFolder(configs, done, s0, id) ensures StaleFolder(configs, done + {p}, s0, id) {
      var q :| q in done && q in configs && configs[q].id == id && Stale(s0, configs[q]);
      assert q in done + {p};
    }
    forall id | StaleFile(configs, done, s0, id) ensures StaleFile(configs, done + {p}, s0, id) {
      var q :| q in done && q in configs && id in FileIds(configs[q].files) && Stale(s0, configs[q]);
      assert q in done + {p};
    }
  }

  lemma FilesOneMore(configs: Configs, done: set<Path>, s0: Store, s: Store, t: Store, u: Store, p: Path)
    requires WellFormed(configs) && p in configs && p !in done && Stale(s0, configs[p])
    requires Synced(configs, done, s0, s) && FilesFramed(configs, done, s0, s) && t.files == s.files
    requires FilesSynced(t, u, configs[p].id, configs[p].files)
    ensures FilesFramed(configs, done + {p}, s0, u)
  {
    StaleSetsGrow(configs, done, s0, p);
    forall id | id in s0.files && id !in u.files
      ensures StaleFolder(configs, done + {p}, s0, s0.files[id].folderId)
    {
      if id in s.files {
        forall q | q in done && q in configs && Stale(s0, configs[q]) ensures id !in FileIds(configs[q].files) {
          assert Separate(configs[p], configs[q]);
          MirroredFileBelongs(s, configs[q].id, configs[q].files, id);
        }
      }
    }
  }

  lemma MirroredFileBelongs(s: Store, folderId: Id, files: seq<FileRecord>, id: Id)
    requires FilesMirror(s, folderId, files) && id in s.files && s.files[id].folderId != folderId
    ensures id !in FileIds(files)
  {
    forall k | 0 <= k < |files| ensures FileIds(files)[k] != id {
      assert FileMirrors(s.files[files[k].id], files[k], folderId);
    }
  }

  lemma OtherFolderUntouched(s: Store, t: Store, u: Store, c: FolderConfig, d: FolderConfig, parentId: Id)
    requires Separate(c, d) && Separate(d, c)
    requires FolderRowSynced(s, t, c, parentId) && FilesSynced(t, u, c.id, c.files)
    requires Mirrors(s, d)
    ensures Mirrors(u, d)
  {
    forall k | 0 <= k < |d.files|
      ensures d.files[k].id in u.files && FileMirrors(u.files[d.files[k].id], d.files[k], d.id)
    {
      assert FileIds(d.files)[k] == d.files[k].id;
      assert d.files[k].id !in FileIds(c.files);
    }
    forall id | id in u.files && u.files[id].folderId == d.id ensures id in FileIds(d.files) {
      MirroredFileBelongs(u, c.id, c.files, id);
    }
  }

  lemma NotStaleExtends(configs: Configs, done: set<Path>, s0: Store, s: Store, p: Path)
    requires WellFormed(configs) && p in configs && p !in done
    requires Fetched(configs, done, s0, s) && !Stale(s, configs[p])
    ensures Fetched(configs, done + {p}, s0, s)
  {
    UnsyncedRowIsOld(configs, done, s0, s, p);
    FramesOnlyGrow(configs, done, s0, s, p);
  }

  lemma FramesOnlyGrow(configs: Configs, done: set<Path>, s0: Store, s: Store, p: Path)
    requires FoldersFramed(configs, done, s0, s) && FilesFramed(configs, done, s0, s)
    ensures FoldersFramed(configs, done + {p}, s0, s) && FilesFramed(configs, done + {p}, s0, s)
  {
    StaleSetsOnlyGrow(configs, done, s0, p);
  }

  /** One listed file: rewritten with its tags when the store had it in this
      folder, created (or taken over from another folder) otherwise. */
  function WriteFile(s: Store, folderId: Id, file: FileRecord, known: bool): (t: Store)
    requires folderId in s.folders
    requires known <==> file.id in s.files && s.files[file.id].folderId == folderId
    ensures t.folders == s.folders && t.files.Keys == s.files.Keys + {file.id}
    ensures forall id :: id in s.files && id != file.id ==> t.files[id] == s.files[id]
    ensures FileMirrors(t.files[file.id], file, folderId)
    ensures t.files[file.id].attachments == KeptAttachments(s, folderId, file)
    ensures t.files[file.id].created == KeptCreated(s, folderId, file)
  {
    if known then
      SetFileTags(UpdateFile(s, file.id, file.name, file.modified, file.metadata), file.id, file.tags)
    else
      CreateFile(s, ToFileRow(file, folderId), file.tags)
  }

  // ---- How far a fetch goes ----

  /** If a folder was stale, all its listed children with readable configs are
      among `paths`. */
  ghost predicate ChildrenIn(configs: Configs, s0: Store, p: Path, paths: set<Path>) {
    p in configs && Stale(s0, configs[p]) ==>
      forall f :: f in configs[p].folders && p + [f] in configs ==> p + [f] in paths
  }

  /** So it is with every folder that has been synced since `before`. */
  ghost predicate FollowedDown(configs: Configs, s0: Store, before: set<Path>, done: set<Path>, paths: set<Path>) {
    before <= done && forall p :: p in done && p !in before ==> ChildrenIn(configs, s0, p, paths)
  }

  /** Nothing is cached without a reason: what came to `before` is the folder `p`
      itself, one above it, or a child that a stale synced folder lists. */
  ghost predicate Reasoned(configs: Configs, s0: Store, p: Path, done: set<Path>, before: set<Path>, paths: set<Path>) {
    forall q :: q in paths && q !in before ==> q <= p || ListedByStale(configs, s0, done, q)
  }

  ghost predicate ListedByStale(configs: Configs, s0: Store, done: set<Path>, q: Path) {
    q != [] && ParentPath(q) in done && ParentPath(q) in configs && Stale(s0, configs[ParentPath(q)])
    && q[|q| - 1] in configs[ParentPath(q)].folders
  }

  lemma ReasonedTwice(configs: Configs, s0: Store, p: Path, done: set<Path>, more: set<Path>, a: set<Path>,
                      b: set<Path>, c: set<Path>)
    requires Reasoned(configs, s0, p, done, a, b) && Reasoned(configs, s0, p, more, b, c) && done <= more
    ensures Reasoned(configs, s0, p, more, a, c)
  {
    forall q | q in b && q !in a && ListedByStale(configs, s0, done, q) ensures ListedByStale(configs, s0, more, q) { }
  }

  lemma ReasonedChild(configs: Configs, s0: Store, p: Path, f: string, done: set<Path>, before: set<Path>,
                      paths: set<Path>)
    requires p in configs && p in done && Stale(s0, configs[p]) && f in configs[p].folders
    requires Reasoned(configs, s0, p + [f], done, before, paths)
    ensures Reasoned(configs, s0, p, done, before, paths)
  {
    forall q | q in paths && q !in before ensures q <= p || ListedByStale(configs, s0, done, q) {
      if q <= p + [f] && !(q <= p) {
        assert q == p + [f];
        ChildPath(p, f);
      }
    }
  }

  lemma ReasonedSelf(configs: Configs, s0: Store, p: Path, done: set<Path>, before: set<Path>, paths: set<Path>)
    requires Reasoned(configs, s0, p, done, before + {p}, paths)
    ensures Reasoned(configs, s0, p, done, before, paths)
  {
  }

  lemma ReasonedParent(configs: Configs, s0: Store, p: Path, done: set<Path>, before: set<Path>, paths: set<Path>)
    requires p != [] && Reasoned(configs, s0, ParentPath(p), done, before, paths)
    ensures Reasoned(configs, s0, p, done, before, paths)
  {
    assert ParentPath(p) <= p;
  }

  /** The first n of the names lead to configs among `paths`, or to none. */
  ghost predicate FirstIn(configs: Configs, p: Path, names: seq<string>, n: nat, paths: set<Path>)
    requires n <= |names|
  {
    forall j :: 0 <= j < n && p + [names[j]] in configs ==> p + [names[j]] in paths
  }

  lemma OneMoreIn(configs: Configs, p: Path, names: seq<string>, n: nat, paths: set<Path>, more: set<Path>)
    requires n < |names| && FirstIn(configs, p, names, n, paths) && paths <= more
    requires p + [names[n]] in configs ==> p + [names[n]] in more
    ensures FirstIn(configs, p, names, n + 1, more)
  {
  }

  lemma FollowedTwice(configs: Configs, s0: Store, a: set<Path>, b: set<Path>, c: set<Path>, paths: set<Path>,
                      more: set<Path>)
    requires FollowedDown(configs, s0, a, b, paths) && FollowedDown(configs, s0, b, c, more) && paths <= more
    ensures FollowedDown(configs, s0, a, c, more)
  {
  }

  lemma FollowedOne(configs: Configs, s0: Store, a: set<Path>, c: set<Path>, paths: set<Path>, p: Path)
    requires FollowedDown(configs, s0, a + {p}, c, paths) && ChildrenIn(configs, s0, p, paths)
    ensures FollowedDown(configs, s0, a, c, paths)
  {
  }

  // ---- The cache ----

  ghost predicate Fits(tree: ConfigTree, cache: map<Path, FolderConfig>) {
    forall p :: p in cache ==> p in tree && tree[p] == Whole(cache[p])
  }

  lemma OneMoreFits(tree: ConfigTree, cache: map<Path, FolderConfig>, p: Path, config: FolderConfig)
    requires Fits(tree, cache) && p in tree && tree[p] == Whole(config)
    ensures Fits(tree, cache[p := config])
  {
  }

  /** A run of syncs: the store it began with, the folders whose rows have been
      synced, and the store now. */
  datatype Run = Run(configs: Configs, base: Store, done: set<Path>, store: Store)

  type GoodRun = r: Run | ForeignKeys(r.store) && Fetched(r.configs, r.done, r.base, r.store)
    witness Run(map[], Store(map[], map[]), {}, Store(map[], map[]))

  ghost function NewRun(configs: Configs, store: Store): (r: GoodRun)
    requires ForeignKeys(store)
    ensures r == Run(configs, store, {}, store)
  {
    Run(configs, store, {}, store)
  }

  ghost function StillFresh(run: GoodRun, p: Path): (r: GoodRun)
    requires WellFormed(run.configs) && p in run.configs && p !in run.done && !Stale(run.store, run.configs[p])
    ensures r == run.(done := run.done + {p})
  {
    NotStaleExtends(run.configs, run.done, run.base, run.store, p);
    run.(done := run.done + {p})
  }

  ghost function OneMoreSynced(run: GoodRun, t: Store, u: Store, p: Path): (r: GoodRun)
    requires WellFormed(run.configs) && p in run.configs && p !in run.done && Stale(run.store, run.configs[p])
    requires FolderRowSynced(run.store, t, run.configs[p], ParentIdOf(run.configs, p))
    requires FilesSynced(t, u, run.configs[p].id, run.configs[p].files) && ForeignKeys(u)
    ensures r == run.(done := run.done + {p}, store := u)
  {
    FetchedOneMore(run.configs, run.done, run.base, run.store, t, u, p);
    run.(done := run.done + {p}, store := u)
  }

  class ConfigCache {
    const tree: WellFormedTree
    var cache: map<Path, FolderConfig>
    var store: Store
    /** What has been synced since the cache was last empty. A folder is cached
        before the parents it needs are fetched, so some cached folders are still
        in flight. */
    ghost var run: GoodRun

    ghost predicate Valid()
      reads this
    {
      && run.configs == Configs() && run.store == store && run.done <= cache.Keys
      && Fits(tree, cache)
    }

    ghost function Configs(): Configs { Readable(tree) }

    ghost function InFlight(): set<Path>
      reads this
    {
      cache.Keys - run.done
    }

    ghost function Uncached(): nat
      reads this
    {
      |tree.Keys - cache.Keys|
    }

    constructor (tree: WellFormedTree, store: Store)
      requires ForeignKeys(store)
      ensures Valid() && this.tree == tree && this.store == store && cache == map[] && run.base == store
      ensures Settled()
    {
      this.tree, this.store, this.cache := tree, store, map[];
      run := NewRun(Readable(tree), store);
    }

    method ClearCache()
      requires Valid()
      modifies this
      ensures Valid() && cache == map[] && store == old(store) && run.base == store && Settled()
    {
      cache, run := map[], NewRun(Configs(), store);
    }

    /** What every call keeps: the run so far, the folders in flight, the cache
        and the folder rows only grow. */
    twostate predicate Grows()
      reads this
    {
      && run.base == old(run.base) && InFlight() == old(InFlight())
      && old(cache.Keys) <= cache.Keys && old(store).folders.Keys <= store.folders.Keys
      && Uncached() <= old(Uncached())
      && FollowedDown(Configs(), run.base, old(run.done), run.done, cache.Keys)
    }

    /** No call is under way, and every stale folder was followed down. */
    ghost predicate Settled()
      reads this
    {
      InFlight() == {} && FollowedDown(Configs(), run.base, {}, run.done, cache.Keys)
    }

    /** With a parent id the caller vouches for the parent's row; without one the
        parents are fetched first. */
    method GetFolderConfig(p: Path, parentId: Option<Id>) returns (r: Result<FolderConfig>)
      requires Valid()
      requires parentId.Some? ==>
                 p != [] && parentId.value == ParentIdOf(Configs(), p) && parentId.value in store.folders
      requires parentId.None? ==> forall q :: q in InFlight() ==> p < q
      modifies this
      ensures Valid() && Grows()
      ensures r == if p !in tree then Err(NotFound) else if tree[p].Torn? then Err(JsonParse) else Ok(tree[p].value)
      ensures r.Ok? ==> p in cache
      ensures old(Settled()) ==> Settled()
      ensures Reasoned(Configs(), run.base, p, run.done, old(cache.Keys), cache.Keys)
      decreases Uncached(), 1
    {
      if p in cache { return Ok(cache[p]); }
      if p !in tree { return Err(NotFound); }
      if tree[p].Torn? { return Err(JsonParse); }
      LoadAndSync(p, tree[p].value, parentId);
      if old(Settled()) {
        FollowedTwice(Configs(), run.base, {}, old(run.done), run.done, old(cache.Keys), cache.Keys);
      }
      return Ok(tree[p].value);
    }

    method LoadAndSync(p: Path, config: FolderConfig, parentId: Option<Id>)
      requires Valid() && p in tree && tree[p] == Whole(config) && p !in cache
      requires parentId.Some? ==>
                 p != [] && parentId.value == ParentIdOf(Configs(), p) && parentId.value in store.folders
      requires parentId.None? ==> forall q :: q in InFlight() ==> p < q
      modifies this
      ensures Valid() && Grows() && p in cache
      ensures Reasoned(Configs(), run.base, p, run.done, old(cache.Keys), cache.Keys)
      decreases Uncached(), 0
    {
      CacheConfig(p, config);
      SyncCached(p, config, parentId);
      PutAndTaken(old(InFlight()), p);
      ReasonedSelf(Configs(), run.base, p, run.done, old(cache.Keys), cache.Keys);
    }

    /** With the parent's id at hand, or fetched now. */
    method SyncCached(p: Path, config: FolderConfig, parentId: Option<Id>)
      requires Valid() && p in InFlight() && config == cache[p]
      requires parentId.Some? ==>
                 p != [] && parentId.value == ParentIdOf(Configs(), p) && parentId.value in store.folders
      requires parentId.None? ==> forall q :: q in InFlight() ==> p <= q
      modifies this
      ensures Valid() && run.base == old(run.base) && InFlight() == old(InFlight()) - {p}
      ensures old(cache.Keys) <= cache.Keys && old(store).folders.Keys <= store.folders.Keys
      ensures Uncached() <= old(Uncached())
      ensures FollowedDown(Configs(), run.base, old(run.done), run.done, cache.Keys)
      ensures Reasoned(Configs(), run.base, p, run.done, old(cache.Keys), cache.Keys)
      decreases Uncached(), 4
    {
      var parent: Id;
      if parentId.Some? {
        parent := parentId.value;
      } else {
        parent := GetParentFolderId(p);
      }
      ghost var before, paths := run.done, cache.Keys;
      SyncFolderToStore(p, config, parent);
      FollowedTwice(Configs(), run.base, old(run.done), before, run.done, paths, cache.Keys);
      ReasonedTwice(Configs(), run.base, p, before, run.done, old(cache.Keys), paths, cache.Keys);
    }

    method CacheConfig(p: Path, config: FolderConfig)
      requires Valid() && p in tree && tree[p] == Whole(config) && p !in cache
      modifies this`cache
      ensures Valid() && p in cache && cache[p] == config
      ensures cache.Keys == old(cache.Keys) + {p} && Uncached() < old(Uncached())
      ensures InFlight() == old(InFlight()) + {p} && p !in old(InFlight())
    {
      OneLessUncached(p);
      OneMoreKey(cache, p, config, run.done);
      OneMoreFits(tree, cache, p, config);
      cache := cache[p := config];
    }

    static lemma OneMoreKey(before: map<Path, FolderConfig>, p: Path, config: FolderConfig, done: set<Path>)
      requires p !in before && p !in done
      ensures before[p := config].Keys == before.Keys + {p}
      ensures before[p := config].Keys - done == (before.Keys - done) + {p}
    {
    }

    static lemma PutAndTaken(paths: set<Path>, p: Path)
      requires p !in paths
      ensures paths + {p} - {p} == paths
    {
    }

    lemma OneLessUncached(p: Path)
      requires Valid() && p in tree && p !in cache
      ensures p !in run.done
      ensures |tree.Keys - (cache.Keys + {p})| < |tree.Keys - cache.Keys|
    {
      assert p in tree.Keys - cache.Keys;
      ProperSubsetIsSmaller(tree.Keys - (cache.Keys + {p}), tree.Keys - cache.Keys);
    }

    lemma ParentIsAbove(p: Path)
      requires p != [] && forall q :: q in InFlight() ==> p <= q
      ensures forall q :: q in InFlight() ==> ParentPath(p) < q
    {
      forall q | q in InFlight() ensures ParentPath(p) < q {
        assert p <= q;
        assert ParentPath(p) == q[..|p| - 1];
      }
    }

    lemma LandedHasRow(p: Path)
      requires Valid() && p in cache && p !in InFlight()
      ensures cache[p].id in store.folders
    {
    }

    method GetParentFolderId(p: Path) returns (id: Id)
      requires Valid() && p in InFlight() && forall q :: q in InFlight() ==> p <= q
      modifies this
      ensures Valid() && Grows()
      ensures id == ParentIdOf(Configs(), p)
      ensures p != [] ==> id in store.folders
      ensures Reasoned(Configs(), run.base, p, run.done, old(cache.Keys), cache.Keys)
      decreases Uncached(), 3
    {
      if p == [] { return ""; }
      ParentIsAbove(p);
      var r := GetFolderConfig(ParentPath(p), None);
      LandedHasRow(ParentPath(p));
      ReasonedParent(Configs(), run.base, p, run.done, old(cache.Keys), cache.Keys);
      return r.value.id;
    }

    method SyncFolderToStore(p: Path, config: FolderConfig, parentId: Id)
      requires Valid() && p in InFlight() && config == cache[p]
      requires parentId == ParentIdOf(Configs(), p) && (p != [] ==> parentId in store.folders)
      modifies this
      ensures Valid() && run.base == old(run.base) && InFlight() == old(InFlight()) - {p}
      ensures old(cache.Keys) <= cache.Keys && old(store).folders.Keys <= store.folders.Keys
      ensures Uncached() <= old(Uncached())
      ensures FollowedDown(Configs(), run.base, old(run.done), run.done, cache.Keys)
      ensures Reasoned(Configs(), run.base, p, run.done, old(cache.Keys), cache.Keys)
      decreases Uncached(), 3
    {
      var stale := SyncOwnRows(p, config, parentId);
      if !stale { return; }
      SyncChildren(p, config);
      FollowedOne(Configs(), run.base, old(run.done), run.done, cache.Keys, p);
    }

    method SyncChildren(p: Path, config: FolderConfig)
      requires Valid() && p in Configs() && config == Configs()[p] && config.id in store.folders
      requires p in run.done && Stale(run.base, config)
      modifies this
      ensures Valid() && Grows()
      ensures forall f :: f in config.folders && p + [f] in Configs() ==> p + [f] in cache
      ensures Reasoned(Configs(), run.base, p, run.done, old(cache.Keys), cache.Keys)
      decreases Uncached(), 2
    {
      var i := 0;
      while i < |config.folders|
        invariant 0 <= i <= |config.folders|
        invariant Valid() && Grows()
        invariant Reasoned(Configs(), run.base, p, run.done, old(cache.Keys), cache.Keys)
        invariant FirstIn(Configs(), p, config.folders, i, cache.Keys)
      {
        ghost var before, paths := run.done, cache.Keys;
        var child := p + [config.folders[i]];
        ChildPath(p, config.folders[i]);
        var r := GetFolderConfig(child, Some(config.id));
        FollowedTwice(Configs(), run.base, old(run.done), before, run.done, paths, cache.Keys);
        ReasonedChild(Configs(), run.base, p, config.folders[i], run.done, paths, cache.Keys);
        ReasonedTwice(Configs(), run.base, p, before, run.done, old(cache.Keys), paths, cache.Keys);
        OneMoreIn(Configs(), p, config.folders, i, paths, cache.Keys);
        i := i + 1;
      }
    }

    /** The folder's row and its file rows; tells whether the folder was stale. */
    method SyncOwnRows(p: Path, config: FolderConfig, parentId: Id) returns (stale: bool)
      requires Valid() && p in InFlight() && config == cache[p]
      requires parentId == ParentIdOf(Configs(), p) && (p != [] ==> parentId in store.folders)
      modifies this`store, this`run
      ensures Valid() && run.base == old(run.base) && run.done == old(run.done) + {p} && config.id in store.folders
      ensures old(store).folders.Keys <= store.folders.Keys
      ensures stale == Stale(old(store), config) == Stale(run.base, config)
    {
      stale := Stale(store, config);
      UnsyncedRowIsOld(Configs(), run.done, run.base, store, p);
      if !stale {
        run := StillFresh(run, p);
        return;
      }
      assert p in Configs() && Configs()[p] == config;
      ghost var t := RewriteRows(config, parentId);
      run := OneMoreSynced(run, t, store, p);
    }

    method RewriteRows(config: FolderConfig, parentId: Id) returns (ghost t: Store)
      requires ForeignKeys(store) && config.id != "" && Distinct(FileIds(config.files))
      requires parentId == "" || parentId in store.folders
      modifies this`store
      ensures FolderRowSynced(old(store), t, config, parentId)
      ensures FilesSynced(t, store, config.id, config.files)
      ensures ForeignKeys(store)
    {
      ghost var s := store;
      if config.id in store.folders {
        store := UpdateFolder(store, config.id, config.name, config.modified, config.metadata);
      } else {
        store := CreateFolder(store, ToFolderRow(config, parentId));
      }
      t := store;
      FolderRowKeepsForeignKeys(s, t, config, parentId);
      SyncFilesToStore(config.id, config.files);
      FilesSyncedKeepsForeignKeys(t, store, config.id, config.files);
    }

    /** Orphans out, known files updated, the rest created. */
    method SyncFilesToStore(folderId: Id, files: seq<FileRecord>)
      requires Distinct(FileIds(files)) && folderId in store.folders
      modifies this`store
      ensures FilesSynced(old(store), store, folderId, files)
    {
      var ids := FileIds(files);
      var listed := set id | id in store.files && store.files[id].folderId == folderId;
      DeleteOrphans(folderId, ids, listed);
      ghost var kept := store;
      for i := 0 to |files|
        invariant store.folders == old(store).folders
        invariant forall id :: id in store.files <==> id in kept.files || id in ids[..i]
        invariant forall id :: id in store.files && id !in ids[..i] ==> store.files[id] == kept.files[id]
        invariant forall k :: 0 <= k < i ==>
                    ids[k] in store.files && FileMirrors(store.files[ids[k]], files[k], folderId)
                    && store.files[ids[k]].attachments == KeptAttachments(old(store), folderId, files[k])
                    && store.files[ids[k]].created == KeptCreated(old(store), folderId, files[k])
      {
        assert ids[..i + 1] == ids[..i] + [ids[i]];
        assert forall k :: 0 <= k < i ==> ids[k] != ids[i];
        store := WriteFile(store, folderId, files[i], ids[i] in listed);
      }
      assert ids[..|files|] == ids;
    }

    method DeleteOrphans(folderId: Id, ids: seq<Id>, listed: set<Id>)
      requires listed <= store.files.Keys
      modifies this`store
      ensures store.folders == old(store).folders
      ensures store.files.Keys == old(store).files.Keys - (set id | id in listed && id !in ids)
      ensures forall id :: id in store.files ==> store.files[id] == old(store).files[id]
    {
      var pending := listed;
      while pending != {}
        invariant pending <= listed
        invariant store.folders == old(store).folders
        invariant store.files.Keys == old(store).files.Keys - (set id | id in listed - pending && id !in ids)
        invariant forall id :: id in store.files ==> store.files[id] == old(store).files[id]
        decreases pending
      {
        var id :| id in pending;
        if id !in ids { store := DeleteFile(store, id); }
        pending := pending - {id};
      }
      assert listed - pending == listed;
    }
  }
}
