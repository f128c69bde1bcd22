/** The insert-only store transaction of an import
    (src/core/bundled_folder_manager.cpp, AttachImportedFolder, step 4). */
module ImportRows {
  import opened Records
  import opened Collections
  import opened MetadataStore
  import opened StagedTree

  datatype RowOp =
    | AddFolder(folder: FolderRow)
    | AddFile(file: FileRow, tags: seq<string>)
    | AddAttachments(id: Id, attachments: seq<string>)

  function Key(op: RowOp): Id {
    match op
    case AddFolder(row) => row.id
    case AddFile(row, _) => row.id
    case AddAttachments(id, _) => id
  }

  function Apply(s: Store, op: RowOp): Option<Store> {
    match op
    case AddFolder(row) => InsertFolder(s, row)
    case AddFile(row, tags) => InsertFile(s, row, tags)
    case AddAttachments(id, attachments) => SetFileAttachments(s, id, attachments)
  }

  /** The statements run one after the other; the first rejection ends the run. */
  function ApplyAll(s: Store, ops: seq<RowOp>): Option<Store> {
    if ops == [] then Some(s)
    else
      match ApplyAll(s, ops[..|ops| - 1])
      case None => None
      case Some(t) => Apply(t, ops[|ops| - 1])
  }

  function FolderOps(rows: seq<FolderRow>): (r: seq<RowOp>)
    ensures |r| == |rows| && forall k :: 0 <= k < |rows| ==> r[k] == AddFolder(rows[k])
  {
    seq(|rows|, k requires 0 <= k < |rows| => AddFolder(rows[k]))
  }

  function EntryOps(entry: FileEntry): seq<RowOp> {
    [AddFile(entry.row, entry.tags)]
    + if entry.attachments == [] then [] else [AddAttachments(entry.row.id, entry.attachments)]
  }

  function FileOps(files: seq<FileEntry>): seq<RowOp> {
    if files == [] then [] else FileOps(files[..|files| - 1]) + EntryOps(files[|files| - 1])
  }

  /** All folders first, then each file followed by its attachments. */
  function RowOps(g: Gathered): seq<RowOp> {
    FolderOps(g.folders) + FileOps(g.files)
  }

  lemma {:induction false} ApplyAllSplits(s: Store, a: seq<RowOp>, b: seq<RowOp>)
    ensures ApplyAll(s, a + b) ==
            (match ApplyAll(s, a) case None => None case Some(t) => ApplyAll(t, b))
    decreases |b|
  {
    if b == [] {
      assert a + b == a;
    } else {
      var c := b[..|b| - 1];
      assert (a + b)[..|a + b| - 1] == a + c;
      ApplyAllSplits(s, a, c);
    }
  }

  /** `after` is `before` plus rows[k] under keys[k], and nothing else. */
  ghost predicate KeyedAdd<R>(before: map<Id, R>, after: map<Id, R>, keys: seq<Id>, rows: seq<R>)
    requires |keys| == |rows|
  {
    && (forall id :: id in after <==> id in before || id in keys)
    && (forall id :: id in before && id in after ==> after[id] == before[id])
    && (forall k :: 0 <= k < |keys| ==> keys[k] in after && after[keys[k]] == rows[k])
  }

  lemma KeyedAddOne<R>(before: map<Id, R>, after: map<Id, R>, keys: seq<Id>, rows: seq<R>, key: Id, row: R)
    requires |keys| == |rows| && KeyedAdd(before, after, keys, rows)
    requires key !in after
    ensures KeyedAdd(before, after[key := row], keys + [key], rows + [row])
  {
  }

  function FinalRow(entry: FileEntry): FileRow {
    entry.row.(tags := IdSet(entry.tags), attachments := entry.attachments)
  }

  function FinalRows(files: seq<FileEntry>): (r: seq<FileRow>)
    ensures |r| == |files| && forall k :: 0 <= k < |files| ==> r[k] == FinalRow(files[k])
  {
    seq(|files|, k requires 0 <= k < |files| => FinalRow(files[k]))
  }

  /** `t` is `s` with exactly the rows of the bundle added. */
  ghost predicate Added(s: Store, t: Store, g: Gathered) {
    && KeyedAdd(s.folders, t.folders, FolderIdSeq(g.folders), g.folders)
    && KeyedAdd(s.files, t.files, EntryIdSeq(g.files), FinalRows(g.files))
  }

  /** What the insert-only contract asks of the store before the import. */
  ghost predicate Insertable(s: Store, g: Gathered, parentId: Id) {
    && (parentId == "" || parentId in s.folders)
    && (forall k :: 0 <= k < |g.folders| ==> g.folders[k].id !in s.folders)
    && (forall k :: 0 <= k < |g.files| ==> g.files[k].row.id !in s.files)
  }

  /** What the key of the tag table asks of the bundle. */
  ghost predicate TagsDistinct(g: Gathered) {
    forall k :: 0 <= k < |g.files| ==> Distinct(g.files[k].tags)
  }

  lemma {:induction false} AddFolders(s: Store, rows: seq<FolderRow>, parentId: Id)
    requires Distinct(FolderIdSeq(rows)) && ParentsFirst(rows, parentId)
    requires parentId == "" || parentId in s.folders
    requires forall k :: 0 <= k < |rows| ==> rows[k].id !in s.folders
    ensures ApplyAll(s, FolderOps(rows)).Some?
    ensures KeyedAdd(s.folders, ApplyAll(s, FolderOps(rows)).value.folders, FolderIdSeq(rows), rows)
    ensures ApplyAll(s, FolderOps(rows)).value.files == s.files
  {
    if rows != [] {
      var n := |rows| - 1;
      var before, last := rows[..n], rows[n];
      assert rows == before + [last];
      FolderPrefix(before, last, parentId);
      AddFolders(s, before, parentId);
      var t := ApplyAll(s, FolderOps(before)).value;
      assert rows[n].id !in s.folders;
      OneMoreFolder(s, t, before, last);
      AddLastFolder(s, t, before, last, parentId);
    }
  }

  lemma OneMoreFolder(s: Store, t: Store, before: seq<FolderRow>, last: FolderRow)
    requires ApplyAll(s, FolderOps(before)) == Some(t)
    ensures ApplyAll(s, FolderOps(before + [last])) == InsertFolder(t, last)
  {
    assert FolderOps(before + [last])[..|before|] == FolderOps(before);
  }

  lemma FolderPrefix(before: seq<FolderRow>, last: FolderRow, parentId: Id)
    requires Distinct(FolderIdSeq(before + [last])) && ParentsFirst(before + [last], parentId)
    ensures Distinct(FolderIdSeq(before)) && ParentsFirst(before, parentId)
  {
    var rows := before + [last];
    assert FolderIdSeq(rows) == FolderIdSeq(before) + [last.id];
    PrefixDistinct(FolderIdSeq(before), last.id);
    forall k | 0 <= k < |before|
      ensures before[k].parentId == parentId || exists j :: 0 <= j < k && before[j].id == before[k].parentId
    {
      assert rows[k] == before[k];
      if before[k].parentId != parentId {
        var j :| 0 <= j < k && rows[j].id == rows[k].parentId;
        assert before[j] == rows[j];
      }
    }
  }

  lemma AddLastFolder(s: Store, t: Store, before: seq<FolderRow>, last: FolderRow, parentId: Id)
    requires Distinct(FolderIdSeq(before + [last])) && ParentsFirst(before + [last], parentId)
    requires parentId == "" || parentId in s.folders
    requires last.id !in s.folders && t.files == s.files
    requires KeyedAdd(s.folders, t.folders, FolderIdSeq(before), before)
    ensures InsertFolder(t, last).Some? && InsertFolder(t, last).value.files == s.files
    ensures KeyedAdd(s.folders, InsertFolder(t, last).value.folders,
                     FolderIdSeq(before + [last]), before + [last])
  {
    assert FolderIdSeq(before + [last]) == FolderIdSeq(before) + [last.id];
    PrefixDistinct(FolderIdSeq(before), last.id);
    LastParentKnown(s, t, before, last, parentId);
    KeyedAddOne(s.folders, t.folders, FolderIdSeq(before), before, last.id, last);
  }

  lemma LastParentKnown(s: Store, t: Store, before: seq<FolderRow>, last: FolderRow, parentId: Id)
    requires ParentsFirst(before + [last], parentId)
    requires parentId == "" || parentId in s.folders
    requires KeyedAdd(s.folders, t.folders, FolderIdSeq(before), before)
    ensures last.parentId == "" || last.parentId in t.folders
  {
    var rows := before + [last];
    assert rows[|before|] == last;
    if last.parentId != parentId {
      var j :| 0 <= j < |before| && rows[j].id == last.parentId;
      assert FolderIdSeq(before)[j] == last.parentId;
    }
  }

  lemma {:induction false} AddFiles(t: Store, files: seq<FileEntry>)
    requires Distinct(EntryIdSeq(files))
    requires forall k :: 0 <= k < |files| ==>
               files[k].row.id !in t.files && files[k].row.attachments == [] &&
               files[k].row.folderId in t.folders && Distinct(files[k].tags)
    ensures ApplyAll(t, FileOps(files)).Some?
    ensures ApplyAll(t, FileOps(files)).value.folders == t.folders
    ensures KeyedAdd(t.files, ApplyAll(t, FileOps(files)).value.files, EntryIdSeq(files), FinalRows(files))
  {
    if files != [] {
      var n := |files| - 1;
      var before, last := files[..n], files[n];
      assert EntryIdSeq(files) == EntryIdSeq(before) + [last.row.id];
      assert FinalRows(files) == FinalRows(before) + [FinalRow(last)];
      PrefixDistinct(EntryIdSeq(before), last.row.id);
      AddFiles(t, before);
      var u := ApplyAll(t, FileOps(before)).value;
      ApplyAllSplits(t, FileOps(before), EntryOps(last));
      AddEntry(u, last);
      KeyedAddOne(t.files, u.files, EntryIdSeq(before), FinalRows(before),
                  last.row.id, FinalRow(last));
    }
  }

  lemma AddEntry(u: Store, entry: FileEntry)
    requires entry.row.id !in u.files && entry.row.folderId in u.folders
    requires entry.row.attachments == [] && Distinct(entry.tags)
    ensures ApplyAll(u, EntryOps(entry)) == Some(u.(files := u.files[entry.row.id := FinalRow(entry)]))
  {
    var first := [AddFile(entry.row, entry.tags)];
    assert first[..0] == [];
    assert ApplyAll(u, first) == InsertFile(u, entry.row, entry.tags);
    if entry.attachments != [] {
      var ops := EntryOps(entry);
      assert ops[..1] == first;
      var inserted := u.files[entry.row.id := entry.row.(tags := IdSet(entry.tags))];
      assert inserted[entry.row.id := FinalRow(entry)] == u.files[entry.row.id := FinalRow(entry)];
    } else {
      assert EntryOps(entry) == first;
      assert FinalRow(entry) == entry.row.(tags := IdSet(entry.tags));
    }
  }

  lemma DistinctParts(g: Gathered)
    requires Distinct(g.ids) && IdsMatchRows(g)
    ensures Distinct(FolderIdSeq(g.folders)) && Distinct(EntryIdSeq(g.files))
  {
    var m := multiset(FolderIdSeq(g.folders)) + multiset(EntryIdSeq(g.files));
    forall id ensures m[id] <= 1 { DistinctCounts(g.ids, id); }
    forall id ensures multiset(FolderIdSeq(g.folders))[id] <= 1 && multiset(EntryIdSeq(g.files))[id] <= 1 {
      assert m[id] <= 1;
    }
    CountsDistinct(FolderIdSeq(g.folders));
    CountsDistinct(EntryIdSeq(g.files));
  }

  /** An accepted bundle's rows all go in, and the store gains exactly them,
      whenever the store knows the destination and none of the ids and no file
      lists a tag twice. */
  lemma InsertsExactlyTheBundle(s: Store, g: Gathered, parentId: Id)
    requires WellGathered(g, parentId) && Distinct(g.ids)
    requires Insertable(s, g, parentId) && TagsDistinct(g)
    ensures ApplyAll(s, RowOps(g)).Some?
    ensures Added(s, ApplyAll(s, RowOps(g)).value, g)
  {
    DistinctParts(g);
    AddFolders(s, g.folders, parentId);
    ApplyAllSplits(s, FolderOps(g.folders), FileOps(g.files));
    forall k | 0 <= k < |g.files| ensures g.files[k].row.folderId in FolderIdSeq(g.folders) {
      var r :| r in g.folders && r.id == g.files[k].row.folderId;
      var j :| 0 <= j < |g.folders| && g.folders[j] == r;
      assert FolderIdSeq(g.folders)[j] == r.id;
    }
    AddFiles(ApplyAll(s, FolderOps(g.folders)).value, g.files);
  }

  /** What statements that all went through say about the store before them. */
  lemma {:induction false} AcceptedStatements(s: Store, ops: seq<RowOp>)
    requires ApplyAll(s, ops).Some?
    ensures var t := ApplyAll(s, ops).value; s.folders.Keys <= t.folders.Keys && s.files.Keys <= t.files.Keys
    ensures forall op :: op in ops ==>
              && (op.AddFolder? ==> op.folder.id !in s.folders)
              && (op.AddFile? ==> op.file.id !in s.files && Distinct(op.tags))
  {
    if ops != [] {
      var front, last := ops[..|ops| - 1], ops[|ops| - 1];
      AcceptedStatements(s, front);
      assert ops == front + [last];
    }
  }

  lemma {:induction false} EntryIsAdded(files: seq<FileEntry>, k: nat)
    requires k < |files|
    ensures AddFile(files[k].row, files[k].tags) in FileOps(files)
  {
    var n := |files| - 1;
    if k < n {
      EntryIsAdded(files[..n], k);
    } else {
      assert EntryOps(files[n])[0] == AddFile(files[n].row, files[n].tags);
    }
  }

  lemma FirstFolderNeedsParent(s: Store, g: Gathered)
    requires g.folders != [] && ApplyAll(s, RowOps(g)).Some?
    ensures g.folders[0].parentId == "" || g.folders[0].parentId in s.folders
  {
    var ops := RowOps(g);
    assert ops == ops[..1] + ops[1..];
    ApplyAllSplits(s, ops[..1], ops[1..]);
    assert ops[..1][..0] == [];
    assert ops[0] == AddFolder(g.folders[0]);
    assert ApplyAll(s, ops[..1]) == InsertFolder(s, g.folders[0]);
  }

  lemma FirstFolderGoesIn(s: Store, g: Gathered)
    requires g.folders != [] && ApplyAll(s, RowOps(g)).Some?
    ensures g.folders[0].id !in s.folders && g.folders[0].id in ApplyAll(s, RowOps(g)).value.folders
  {
    var ops := RowOps(g);
    assert ops == ops[..1] + ops[1..];
    ApplyAllSplits(s, ops[..1], ops[1..]);
    assert ops[..1][..0] == [];
    assert ops[0] == AddFolder(g.folders[0]);
    assert ApplyAll(s, ops[..1]) == InsertFolder(s, g.folders[0]);
    AcceptedStatements(ApplyAll(s, ops[..1]).value, ops[1..]);
  }

  /** The transaction goes through exactly when the store knows the destination
      and none of the ids, and no file of the bundle lists a tag twice. */
  lemma AllRowsGoInExactlyWhen(s: Store, g: Gathered, parentId: Id)
    requires WellGathered(g, parentId) && Distinct(g.ids) && g.folders != []
    ensures ApplyAll(s, RowOps(g)).Some? <==> Insertable(s, g, parentId) && TagsDistinct(g)
  {
    if ApplyAll(s, RowOps(g)).Some? {
      AcceptedStatements(s, RowOps(g));
      FirstFolderNeedsParent(s, g);
      assert g.folders[0].parentId == parentId;
      forall k | 0 <= k < |g.folders| ensures g.folders[k].id !in s.folders {
        assert FolderOps(g.folders)[k] in RowOps(g);
      }
      forall k | 0 <= k < |g.files| ensures g.files[k].row.id !in s.files && Distinct(g.files[k].tags) {
        EntryIsAdded(g.files, k);
      }
    }
    if Insertable(s, g, parentId) && TagsDistinct(g) { InsertsExactlyTheBundle(s, g, parentId); }
  }

  /** Every key the transaction writes is one the journal records. */
  lemma {:induction false} KeysAreRecorded(g: Gathered, parentId: Id)
    requires WellGathered(g, parentId)
    ensures forall op :: op in RowOps(g) ==> Key(op) in g.ids
  {
    var m := multiset(FolderIdSeq(g.folders)) + multiset(EntryIdSeq(g.files));
    assert m == multiset(g.ids);
    forall op | op in RowOps(g) ensures Key(op) in g.ids {
      if op in FolderOps(g.folders) {
        var k :| 0 <= k < |g.folders| && FolderOps(g.folders)[k] == op;
        assert FolderIdSeq(g.folders)[k] in m;
      } else {
        FileOpKeys(g.files, op);
        var k :| 0 <= k < |g.files| && g.files[k].row.id == Key(op);
        assert EntryIdSeq(g.files)[k] in m;
      }
      assert Key(op) in multiset(g.ids);
    }
  }

  lemma {:induction false} FileOpKeys(files: seq<FileEntry>, op: RowOp)
    requires op in FileOps(files)
    ensures exists k :: 0 <= k < |files| && files[k].row.id == Key(op)
  {
    var n := |files| - 1;
    if op in EntryOps(files[n]) {
      assert files[n].row.id == Key(op);
    } else {
      FileOpKeys(files[..n], op);
      var k :| 0 <= k < n && files[..n][k].row.id == Key(op);
      assert files[k].row.id == Key(op);
    }
  }

  /** However far the transaction got, its working copy is the old store plus
      rows of recorded ids. */
  lemma {:induction false} TransactionExtendsBase(base: Store, ops: seq<RowOp>, ids: set<Id>)
    requires NoRowOf(base, ids) && ApplyAll(base, ops).Some?
    requires forall op :: op in ops ==> Key(op) in ids
    ensures BasePlus(base, ApplyAll(base, ops).value, ids)
  {
    if ops == [] {
      assert base.folders.Keys - ids == base.folders.Keys;
      assert base.files.Keys - ids == base.files.Keys;
    } else {
      var n := |ops| - 1;
      TransactionExtendsBase(base, ops[..n], ids);
      StatementExtendsBase(base, ApplyAll(base, ops[..n]).value, ops[n], ids);
    }
  }

  lemma StatementExtendsBase(base: Store, t: Store, op: RowOp, ids: set<Id>)
    requires NoRowOf(base, ids) && BasePlus(base, t, ids)
    requires Key(op) in ids && Apply(t, op).Some?
    ensures BasePlus(base, Apply(t, op).value, ids)
  {
    var u := Apply(t, op).value;
    assert forall id :: id !in ids ==> (id in u.folders <==> id in t.folders) && (id in u.files <==> id in t.files);
    forall id | id in base.files ensures id in u.files && u.files[id] == base.files[id] {
      assert id in t.files.Keys - ids;
    }
    forall id | id in base.folders ensures id in u.folders && u.folders[id] == base.folders[id] {
      assert id in t.folders.Keys - ids;
    }
  }
}
