/** The staged metadata tree of an imported bundle, and its flattening into
    store rows (src/core/bundled_folder_manager.cpp, AttachImportedFolder). */
module StagedTree {
  import opened Records
  import opened Collections

  /** The vx.json files of a directory tree, by relative path. */
  type ConfigTree = map<Path, FileImage<FolderConfig>>

  datatype FileEntry = FileEntry(row: FileRow, tags: seq<string>, attachments: seq<string>)

  datatype Gathered = Gathered(folders: seq<FolderRow>, files: seq<FileEntry>, ids: seq<Id>)

  const Nothing := Gathered([], [], [])

  function Plus(a: Gathered, b: Gathered): Gathered {
    Gathered(a.folders + b.folders, a.files + b.files, a.ids + b.ids)
  }

  lemma PlusNothing(a: Gathered)
    ensures Plus(a, Nothing) == a && Plus(Nothing, a) == a
  {
    assert a.folders + [] == a.folders && a.files + [] == a.files && a.ids + [] == a.ids;
    assert [] + a.folders == a.folders && [] + a.files == a.files && [] + a.ids == a.ids;
  }

  lemma PlusAssociates(a: Gathered, b: Gathered, c: Gathered)
    ensures Plus(Plus(a, b), c) == Plus(a, Plus(b, c))
  {
    assert (a.folders + b.folders) + c.folders == a.folders + (b.folders + c.folders);
    assert (a.files + b.files) + c.files == a.files + (b.files + c.files);
    assert (a.ids + b.ids) + c.ids == a.ids + (b.ids + c.ids);
  }

  function FileEntries(files: seq<FileRecord>, folderId: Id): (r: seq<FileEntry>)
    ensures |r| == |files|
    ensures forall k :: 0 <= k < |files| ==>
              r[k] == FileEntry(ToFileRow(files[k], folderId), files[k].tags, files[k].attachments)
  {
    seq(|files|, k requires 0 <= k < |files| =>
      FileEntry(ToFileRow(files[k], folderId), files[k].tags, files[k].attachments))
  }

  function OwnRecords(config: FolderConfig, parentId: Id): Gathered {
    Gathered([ToFolderRow(config, parentId)], FileEntries(config.files, config.id), NodeIds(config))
  }

  /** How many config files sit at or below `dir`: bounds the depth of the walk. */
  function Below<T>(tree: map<Path, T>, dir: Path): nat {
    |set p | p in tree && dir <= p|
  }

  lemma BelowShrinks<T>(tree: map<Path, T>, dir: Path, child: string)
    requires dir in tree
    ensures Below(tree, dir + [child]) < Below(tree, dir)
  {
    var inner := set p | p in tree && dir + [child] <= p;
    var outer := set p | p in tree && dir <= p;
    assert dir in outer && dir !in inner;
    forall p | p in inner ensures p in outer {
      assert p[..|dir|] == (dir + [child])[..|dir|] == dir;
    }
    ProperSubsetIsSmaller(inner, outer);
  }

  /** The flattening, parents before children, as the walk meets the records. */
  function Collect(tree: ConfigTree, dir: Path, parentId: Id): Result<Gathered>
    decreases Below(tree, dir), 1, 0
  {
    if dir !in tree then Err(NotFound)
    else if tree[dir].Torn? then Err(JsonParse)
    else
      var config := tree[dir].value;
      if config.id == "" || "" in FileIds(config.files) then Err(InvalidState)
      else
        match CollectChildren(tree, dir, config.id, config.folders)
        case Err(e) => Err(e)
        case Ok(rest) => Ok(Plus(OwnRecords(config, parentId), rest))
  }

  function CollectChildren(tree: ConfigTree, dir: Path, parentId: Id, names: seq<string>): Result<Gathered>
    requires dir in tree
    decreases Below(tree, dir), 0, |names|
  {
    if names == [] then Ok(Nothing)
    else if !SafeName(names[0]) then Err(InvalidState)
    else
      BelowShrinks(tree, dir, names[0]);
      match Collect(tree, dir + [names[0]], parentId)
      case Err(e) => Err(e)
      case Ok(first) =>
        match CollectChildren(tree, dir, parentId, names[1..])
        case Err(e) => Err(e)
        case Ok(rest) => Ok(Plus(first, rest))
  }

  /** The walk as the program runs it: one accumulator, appended to in place. */
  class Collector {
    var gathered: Gathered

    constructor ()
      ensures gathered == Nothing
    {
      gathered := Nothing;
    }

    /** The folder's own record and its files; an empty id is an error. */
    method Own(config: FolderConfig, parentId: Id) returns (bad: bool)
      modifies this
      ensures bad <==> config.id == "" || "" in FileIds(config.files)
      ensures !bad ==> gathered == Plus(old(gathered), OwnRecords(config, parentId))
    {
      if config.id == "" { return true; }
      gathered := gathered.(folders := gathered.folders + [ToFolderRow(config, parentId)],
                            ids := gathered.ids + [config.id]);
      for i := 0 to |config.files|
        invariant gathered.folders == old(gathered).folders + [ToFolderRow(config, parentId)]
        invariant gathered.files == old(gathered).files + FileEntries(config.files[..i], config.id)
        invariant gathered.ids == old(gathered).ids + [config.id] + FileIds(config.files[..i])
        invariant "" !in FileIds(config.files[..i])
      {
        var file := config.files[i];
        assert config.files[..i + 1] == config.files[..i] + [file];
        if file.id == "" {
          assert FileIds(config.files)[i] == "";
          return true;
        }
        var entry := FileEntry(ToFileRow(file, config.id), file.tags, file.attachments);
        gathered := gathered.(files := gathered.files + [entry],
                              ids := gathered.ids + [file.id]);
      }
      assert config.files[..|config.files|] == config.files;
      return false;
    }

    method Walk(tree: ConfigTree, dir: Path, parentId: Id) returns (failure: Option<Error>)
      modifies this
      ensures Collect(tree, dir, parentId).Err? ==> failure == Some(Collect(tree, dir, parentId).error)
      ensures Collect(tree, dir, parentId).Ok? ==>
                failure == None && gathered == Plus(old(gathered), Collect(tree, dir, parentId).value)
      decreases Below(tree, dir)
    {
      if dir !in tree { return Some(NotFound); }
      if tree[dir].Torn? { return Some(JsonParse); }
      var config := tree[dir].value;
      var bad := Own(config, parentId);
      if bad { return Some(InvalidState); }
      ghost var head := gathered;
      ghost var all := CollectChildren(tree, dir, config.id, config.folders);
      ghost var done := Nothing;
      assert config.folders[0..] == config.folders;
      PlusNothing(head);
      if all.Ok? { PlusNothing(all.value); }
      var i := 0;
      while i < |config.folders|
        invariant 0 <= i <= |config.folders|
        invariant gathered == Plus(head, done)
        invariant var rest := CollectChildren(tree, dir, config.id, config.folders[i..]);
                  if rest.Err? then all == rest else all == Ok(Plus(done, rest.value))
      {
        var child := config.folders[i];
        if !SafeName(child) { return Some(InvalidState); }
        BelowShrinks(tree, dir, child);
        var err := Walk(tree, dir + [child], config.id);
        if err.Some? { return err; }
        assert config.folders[i..][1..] == config.folders[i + 1..];
        ghost var first := Collect(tree, dir + [child], config.id).value;
        ghost var rest := CollectChildren(tree, dir, config.id, config.folders[i + 1..]);
        PlusAssociates(head, done, first);
        if rest.Ok? { PlusAssociates(done, first, rest.value); }
        done := Plus(done, Collect(tree, dir + [child], config.id).value);
        i := i + 1;
      }
      assert config.folders[i..] == [];
      PlusNothing(done);
      PlusAssociates(old(gathered), OwnRecords(config, parentId), done);
      return None;
    }
  }

  // ---- What the flattening guarantees ----

  ghost predicate ParentsFirst(folders: seq<FolderRow>, parentId: Id) {
    forall k :: 0 <= k < |folders| ==>
      folders[k].parentId == parentId || exists j :: 0 <= j < k && folders[j].id == folders[k].parentId
  }

  /** The id list names every row once per row, folders and files together. */
  ghost predicate IdsMatchRows(g: Gathered) {
    multiset(g.ids) == multiset(FolderIdSeq(g.folders)) + multiset(EntryIdSeq(g.files))
  }

  function FolderIdSeq(rows: seq<FolderRow>): (r: seq<Id>)
    ensures |r| == |rows| && forall k :: 0 <= k < |rows| ==> r[k] == rows[k].id
  {
    seq(|rows|, k requires 0 <= k < |rows| => rows[k].id)
  }

  function EntryIdSeq(entries: seq<FileEntry>): (r: seq<Id>)
    ensures |r| == |entries| && forall k :: 0 <= k < |entries| ==> r[k] == entries[k].row.id
  {
    seq(|entries|, k requires 0 <= k < |entries| => entries[k].row.id)
  }

  ghost predicate WellGathered(g: Gathered, parentId: Id) {
    && ParentsFirst(g.folders, parentId)
    && (forall e :: e in g.files ==> exists r :: r in g.folders && r.id == e.row.folderId)
    && IdsMatchRows(g)
    && "" !in g.ids
    && (forall e :: e in g.files ==> e.row.attachments == [])
  }

  lemma PlusParentsFirst(a: seq<FolderRow>, b: seq<FolderRow>, parentId: Id, bParent: Id)
    requires ParentsFirst(a, parentId) && ParentsFirst(b, bParent)
    requires bParent == parentId || exists r :: r in a && r.id == bParent
    ensures ParentsFirst(a + b, parentId)
  {
    var c := a + b;
    forall k | 0 <= k < |c|
      ensures c[k].parentId == parentId || exists j :: 0 <= j < k && c[j].id == c[k].parentId
    {
      if k < |a| {
        assert c[k] == a[k];
        if a[k].parentId != parentId {
          var j :| 0 <= j < k && a[j].id == a[k].parentId;
          assert c[j] == a[j];
        }
      } else {
        assert c[k] == b[k - |a|];
        if b[k - |a|].parentId != bParent {
          var j :| 0 <= j < k - |a| && b[j].id == b[k - |a|].parentId;
          assert c[j + |a|] == b[j];
        } else if bParent != parentId {
          var r :| r in a && r.id == bParent;
          var j :| 0 <= j < |a| && a[j] == r;
          assert c[j] == r;
        }
      }
    }
  }

  lemma PlusWellGathered(a: Gathered, b: Gathered, parentId: Id, bParent: Id)
    requires WellGathered(a, parentId) && WellGathered(b, bParent)
    requires bParent == parentId || exists r :: r in a.folders && r.id == bParent
    ensures WellGathered(Plus(a, b), parentId)
  {
    var c := Plus(a, b);
    PlusParentsFirst(a.folders, b.folders, parentId, bParent);
    assert forall r :: r in a.folders || r in b.folders ==> r in c.folders;
    assert FolderIdSeq(c.folders) == FolderIdSeq(a.folders) + FolderIdSeq(b.folders);
    assert EntryIdSeq(c.files) == EntryIdSeq(a.files) + EntryIdSeq(b.files);
  }

  lemma OwnWellGathered(config: FolderConfig, parentId: Id)
    requires config.id != "" && "" !in FileIds(config.files)
    ensures WellGathered(OwnRecords(config, parentId), parentId)
  {
    var g := OwnRecords(config, parentId);
    assert g.folders[0].id == config.id;
    assert g.folders[0] in g.folders;
    assert FolderIdSeq(g.folders) == [config.id];
    assert EntryIdSeq(g.files) == FileIds(config.files);
  }

  /** Whatever the staged tree looks like, an accepted flattening lists every
      parent before its children, hangs each file on a listed folder, and its id
      list is exactly the ids of its rows. */
  lemma {:induction false} CollectIsWellGathered(tree: ConfigTree, dir: Path, parentId: Id)
    requires Collect(tree, dir, parentId).Ok?
    ensures WellGathered(Collect(tree, dir, parentId).value, parentId)
    ensures dir in tree && tree[dir].Whole?
    ensures Collect(tree, dir, parentId).value.folders[0] == ToFolderRow(tree[dir].value, parentId)
    decreases Below(tree, dir), 1, 0
  {
    var config := tree[dir].value;
    var own := OwnRecords(config, parentId);
    OwnWellGathered(config, parentId);
    ChildrenAreWellGathered(tree, dir, config.id, config.folders);
    assert own.folders[0] in own.folders && own.folders[0].id == config.id;
    PlusWellGathered(own, CollectChildren(tree, dir, config.id, config.folders).value, parentId, config.id);
  }

  lemma {:induction false} ChildrenAreWellGathered(tree: ConfigTree, dir: Path, parentId: Id, names: seq<string>)
    requires dir in tree && CollectChildren(tree, dir, parentId, names).Ok?
    ensures WellGathered(CollectChildren(tree, dir, parentId, names).value, parentId)
    decreases Below(tree, dir), 0, |names|
  {
    if names != [] {
      BelowShrinks(tree, dir, names[0]);
      CollectIsWellGathered(tree, dir + [names[0]], parentId);
      ChildrenAreWellGathered(tree, dir, parentId, names[1..]);
      PlusWellGathered(Collect(tree, dir + [names[0]], parentId).value,
                       CollectChildren(tree, dir, parentId, names[1..]).value, parentId, parentId);
    }
  }
}
