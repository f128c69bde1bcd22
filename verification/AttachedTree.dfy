/** What an attached import has made of the notebook: its config tree is the old
    one with the bundle grafted in, and the store has the bundle's rows
    (src/core/bundled_folder_manager.cpp, AttachImportedFolder). */
module AttachedTree {
  import opened Records
  import opened MetadataStore
  import opened StagedTree
  import opened ImportRows
  import opened LazySync
  import opened FolderTree
  import opened NodeWalk
  import opened ImportMachine

  // ---- The tree ----

  /** The new index keeps all that the parent had. */
  lemma IndexKeepsTheParent(p: Plan)
    ensures OneMoreChild(p.index, NewIndex(p), p.name, p.now)
  {
  }

  /** `u` is `t` with the config `c` at `parent` and the tree `b` below it. */
  ghost predicate Replaced(t: Configs, u: Configs, parent: Path, c: FolderConfig, name: string, b: Configs) {
    && parent in u && u[parent] == c
    && (forall q :: parent + [name] + q in u <==> q in b)
    && (forall q :: q in b ==> u[parent + [name] + q] == b[q])
    && (forall r :: r != parent && !(parent + [name] <= r) ==> (r in u <==> r in t) && (r in t ==> u[r] == t[r]))
  }

  /** `u` is `t` with what the disk has for the import's parent and target. */
  ghost predicate Shows(d: Disk, t: Configs, u: Configs, parent: Path, name: string) {
    && d.index.Whole? && d.metadata.Some?
    && Replaced(t, u, parent, d.index.value, name, Readable(d.metadata.value))
  }

  lemma ReplacedIsGraft(t: Configs, u: Configs, parent: Path, name: string, b: Configs, now: int)
    requires parent in t && (forall r :: r in t ==> !(parent + [name] <= r))
    requires Replaced(t, u, parent, t[parent].(folders := t[parent].folders + [name], modified := now), name, b)
    ensures u == Graft(t, b, parent, name, now)
  {
    var g, dst := Graft(t, b, parent, name, now), parent + [name];
    forall r ensures (r in u <==> r in g) && (r in g ==> u[r] == g[r]) {
      if dst <= r {
        assert dst + r[|dst|..] == r;
        GraftInside(t, b, parent, name, now, r[|dst|..]);
      } else {
        GraftOutside(t, b, parent, name, now, r);
      }
    }
  }

  /** The config tree of the notebook is the old one with the bundle grafted in. */
  lemma AttachedIsGraft(p: Plan, d: Disk, t: Configs, u: Configs, parent: Path)
    requires AfterImport(p, d) && parent in t && t[parent] == p.index && Shows(d, t, u, parent, p.name)
    requires forall r :: r in t ==> !(parent + [p.name] <= r)
    ensures u == Graft(t, Readable(p.metadata), parent, p.name, p.now)
  {
    ReplacedIsGraft(t, u, parent, p.name, Readable(p.metadata), p.now);
  }

  /** So the ids of an admitted and attached bundle, and no others, join those of
      the notebook. */
  lemma AttachedIds(p: Plan, d: Disk, t: Configs, u: Configs, parent: Path, existing: set<Id>)
    requires AfterImport(p, d) && parent in t && t[parent] == p.index && Shows(d, t, u, parent, p.name)
    requires forall r :: r in t ==> !(parent + [p.name] <= r)
    requires UniqueIds(t, []) && Reach(t, [], parent) && p.name !in p.index.folders
    requires forall id :: id in existing <==> id != "" && HasId(t, [], id)
    requires Collect(p.metadata, [], p.index.id) == Ok(p.gathered)
    requires Distinct(p.gathered.ids) && IdSet(p.gathered.ids) !! existing
    ensures UniqueIds(u, []) && forall id :: HasId(u, [], id) <==> HasId(t, [], id) || id in p.gathered.ids
  {
    AttachedIsGraft(p, d, t, u, parent);
    AttachAddsExactlyTheBundle(t, p.metadata, parent, p.name, p.now, existing, p.gathered.ids);
  }

  // ---- The rows ----

  /** The gathered rows say what the config says. */
  ghost predicate GathersFolder(g: Gathered, c: FolderConfig, parentId: Id) {
    && FolderRow(c.id, parentId, c.name, c.created, c.modified, c.metadata) in g.folders
    && forall k :: 0 <= k < |c.files| ==> GathersFile(g, c.files[k], c.id)
  }

  ghost predicate GathersFile(g: Gathered, f: FileRecord, folderId: Id) {
    FileEntry(FileRow(f.id, folderId, f.name, f.created, f.modified, f.metadata, {}, []), f.tags, f.attachments)
      in g.files
  }

  function ParentIdFrom(t: Configs, dir: Path, r: Path, parentId: Id): Id {
    if r != dir && r != [] && ParentPath(r) in t then t[ParentPath(r)].id else parentId
  }

  /** Every folder and every file in reach is gathered under its parent. */
  lemma {:induction false} CollectGathersAll(tree: ConfigTree, dir: Path, parentId: Id, r: Path)
    requires Collect(tree, dir, parentId).Ok? && Reach(Readable(tree), dir, r)
    ensures GathersFolder(Collect(tree, dir, parentId).value, tree[r].value,
                          ParentIdFrom(Readable(tree), dir, r, parentId))
    decreases Below(tree, dir), 1, 0
  {
    var config, t := tree[dir].value, Readable(tree);
    var own, rest := OwnRecords(config, parentId), CollectChildren(tree, dir, config.id, config.folders).value;
    if r == dir {
      OwnGathers(config, parentId);
      GathersMore(own, rest, config, parentId);
    } else {
      ReachNeedsChild(t, dir, r);
      ChildrenGatherAll(tree, dir, config.id, config.folders, r[|dir|], r);
      ParentFromChild(t, dir, r, parentId);
      GathersMore(own, rest, tree[r].value, ParentIdFrom(t, dir, r, parentId));
    }
  }

  lemma ParentFromChild(t: Configs, dir: Path, r: Path, parentId: Id)
    requires dir in t && dir <= r && |r| > |dir|
    ensures ParentIdFrom(t, dir + [r[|dir|]], r, t[dir].id) == ParentIdFrom(t, dir, r, parentId)
            || ParentPath(r) !in t
  {
    if |r| == |dir| + 1 {
      assert r == dir + [r[|dir|]] && ParentPath(r) == dir;
    }
  }

  lemma {:induction false} ChildrenGatherAll(tree: ConfigTree, dir: Path, parentId: Id, names: seq<string>, f: string,
                                             r: Path)
    requires dir in tree && CollectChildren(tree, dir, parentId, names).Ok?
    requires f in names && Reach(Readable(tree), dir + [f], r)
    ensures GathersFolder(CollectChildren(tree, dir, parentId, names).value, tree[r].value,
                          ParentIdFrom(Readable(tree), dir + [f], r, parentId))
    decreases Below(tree, dir), 0, |names|
  {
    var first, id := Collect(tree, dir + [names[0]], parentId).value,
                     ParentIdFrom(Readable(tree), dir + [f], r, parentId);
    var rest := CollectChildren(tree, dir, parentId, names[1..]).value;
    BelowShrinks(tree, dir, names[0]);
    if f == names[0] {
      CollectGathersAll(tree, dir + [f], parentId, r);
    } else {
      ChildrenGatherAll(tree, dir, parentId, names[1..], f, r);
    }
    GathersMore(first, rest, tree[r].value, id);
  }

  lemma OwnGathers(c: FolderConfig, parentId: Id)
    ensures GathersFolder(OwnRecords(c, parentId), c, parentId)
  {
    var g := OwnRecords(c, parentId);
    assert g.folders[0] in g.folders;
    forall k | 0 <= k < |c.files| ensures GathersFile(g, c.files[k], c.id) { assert g.files[k] in g.files; }
  }

  lemma GathersMore(a: Gathered, b: Gathered, c: FolderConfig, parentId: Id)
    requires GathersFolder(a, c, parentId) || GathersFolder(b, c, parentId)
    ensures GathersFolder(Plus(a, b), c, parentId)
  {
  }

  /** The store's rows of a folder and its files, with tags and attachments. */
  ghost predicate RowsInStore(s: Store, c: FolderConfig, parentId: Id) {
    && c.id in s.folders && s.folders[c.id] == FolderRow(c.id, parentId, c.name, c.created, c.modified, c.metadata)
    && forall k :: 0 <= k < |c.files| ==> FileInStore(s, c.files[k], c.id)
  }

  ghost predicate FileInStore(s: Store, f: FileRecord, folderId: Id) {
    && f.id in s.files
    && s.files[f.id] == FileRow(f.id, folderId, f.name, f.created, f.modified, f.metadata, IdSet(f.tags), f.attachments)
  }

  /** The store of an attached import says of every folder and file of the bundle
      what its config says. */
  lemma AttachedRowsMirror(p: Plan, d: Disk, r: Path)
    requires ValidPlan(p) && AfterImport(p, d) && Distinct(p.gathered.ids)
    requires Collect(p.metadata, [], p.index.id) == Ok(p.gathered) && Reach(Readable(p.metadata), [], r)
    ensures RowsInStore(d.store, p.metadata[r].value, ParentIdFrom(Readable(p.metadata), [], r, p.index.id))
  {
    var g, c := p.gathered, p.metadata[r].value;
    AllRowsGoInExactlyWhen(p.store, g, p.index.id);
    InsertsExactlyTheBundle(p.store, g, p.index.id);
    CollectGathersAll(p.metadata, [], p.index.id, r);
    forall k | 0 <= k < |c.files| ensures FileInStore(d.store, c.files[k], c.id) {
      AddedFile(p.store, d.store, g, c.files[k], c.id);
    }
    var parentId := ParentIdFrom(Readable(p.metadata), [], r, p.index.id);
    var row := FolderRow(c.id, parentId, c.name, c.created, c.modified, c.metadata);
    var i :| 0 <= i < |g.folders| && g.folders[i] == row;
    assert FolderIdSeq(g.folders)[i] == c.id;
  }

  lemma AddedFile(s: Store, t: Store, g: Gathered, f: FileRecord, folderId: Id)
    requires Added(s, t, g) && GathersFile(g, f, folderId)
    ensures FileInStore(t, f, folderId)
  {
    var row := FileRow(f.id, folderId, f.name, f.created, f.modified, f.metadata, {}, []);
    var i :| 0 <= i < |g.files| && g.files[i] == FileEntry(row, f.tags, f.attachments);
    assert EntryIdSeq(g.files)[i] == f.id && FinalRows(g.files)[i] == FinalRow(g.files[i]);
  }

  // ---- All of it ----

  /** What a reported import of the staged trees into `dest` has done. */
  ghost predicate AttachedFrom(before: Disk, dest: FolderConfig, name: string, now: int, id: Id, after: Disk) {
    && before.staging.Some? && before.staging.value.metadata.Some?
    && after.content == before.staging.value.content && after.metadata == before.staging.value.metadata
    && after.index.Whole? && OneMoreChild(dest, after.index.value, name, now)
    && var t := Readable(before.staging.value.metadata.value);
       && [] in t && t[[]].id == id && t[[]].name == name
       && forall r :: Reach(t, [], r) ==> RowsInStore(after.store, t[r], ParentIdFrom(t, [], r, dest.id))
  }

  lemma AttachedFromPlan(p: Plan, before: Disk, after: Disk)
    requires ValidPlan(p) && AfterImport(p, after) && Distinct(p.gathered.ids)
    requires before.staging == Some(Staging(None, Some(p.content), Some(p.metadata)))
    requires Collect(p.metadata, [], p.index.id) == Ok(p.gathered) && p.metadata[[]].value.name == p.name
    ensures AttachedFrom(before, p.index, p.name, p.now, p.gathered.folders[0].id, after)
  {
    IndexKeepsTheParent(p);
    CollectIsWellGathered(p.metadata, [], p.index.id);
    forall r | Reach(Readable(p.metadata), [], r)
      ensures RowsInStore(after.store, p.metadata[r].value, ParentIdFrom(Readable(p.metadata), [], r, p.index.id)) {
      AttachedRowsMirror(p, after, r);
    }
  }
}
