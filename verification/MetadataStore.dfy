/** The metadata store as maps from ids to rows, with the contracts of
    src/core/metadata_store.h: insert-only rows for imports, and a folder
    delete that takes its whole subtree along. */
module MetadataStore {
  import opened Records
  import opened Collections

  datatype Store = Store(folders: map<Id, FolderRow>, files: map<Id, FileRow>)

  /** Every row's parent row exists: the foreign keys of the schema. */
  ghost predicate ForeignKeys(s: Store) {
    && (forall id {:trigger s.folders[id].parentId} :: id in s.folders ==>
          s.folders[id].parentId == "" || s.folders[id].parentId in s.folders)
    && (forall id {:trigger s.files[id].folderId} :: id in s.files ==> s.files[id].folderId in s.folders)
  }

  /** Insert-only: an occupied id or an unknown parent is rejected (None). */
  function InsertFolder(s: Store, row: FolderRow): Option<Store> {
    if (row.parentId != "" && row.parentId !in s.folders) || row.id in s.folders then None
    else Some(s.(folders := s.folders[row.id := row]))
  }

  /** A tag list that repeats a tag violates the key of the tag table. */
  function InsertFile(s: Store, row: FileRow, tags: seq<string>): Option<Store> {
    if (row.folderId != "" && row.folderId !in s.folders) || row.id in s.files || !Distinct(tags) then None
    else Some(s.(files := s.files[row.id := row.(tags := IdSet(tags))]))
  }

  // ---- Writing a tag list outside a transaction ----

  /** The insertions stop at the first tag that is there already, and what has
      been inserted stays. */
  function StoredFrom(tags: seq<string>, there: set<string>): set<string> {
    if tags == [] || tags[0] in there then there else StoredFrom(tags[1..], there + {tags[0]})
  }

  function StoredTags(tags: seq<string>): set<string> { StoredFrom(tags, {}) }

  lemma {:induction false} StoredFromIs(tags: seq<string>, there: set<string>)
    ensures there <= StoredFrom(tags, there) <= there + IdSet(tags)
    ensures Distinct(tags) && IdSet(tags) !! there ==>
              multiset(StoredFrom(tags, there)) == multiset(there) + multiset(tags)
  {
    if tags != [] && tags[0] !in there {
      var more := there + {tags[0]};
      StoredFromIs(tags[1..], more);
      assert tags == [tags[0]] + tags[1..];
      if Distinct(tags) && IdSet(tags) !! there {
        assert tags[0] !in tags[1..];
        assert multiset(more) == multiset(there) + multiset{tags[0]};
      }
    }
  }

  /** The stored tags are the list's, one for one, if and only if the list has
      no repetition. */
  lemma StoredTagsAreTheListExactlyWhen(tags: seq<string>)
    ensures multiset(StoredTags(tags)) == multiset(tags) <==> Distinct(tags)
    ensures Distinct(tags) ==> StoredTags(tags) == IdSet(tags)
  {
    StoredFromIs(tags, {});
    if multiset(StoredTags(tags)) == multiset(tags) { CountsDistinct(tags); }
    if Distinct(tags) {
      forall x | x in tags ensures x in StoredTags(tags) { assert x in multiset(tags); }
    }
  }

  /** What is stored is the list up to its first repetition; the tags behind it
      are lost. */
  lemma StoredTagsStopAtRepetition(tags: seq<string>, k: nat)
    requires k <= |tags| && Distinct(tags[..k]) && (k < |tags| ==> tags[k] in tags[..k])
    ensures StoredTags(tags) == IdSet(tags[..k])
  {
    StoredUpTo(tags, 0, k);
    assert tags[0..] == tags;
    assert IdSet(tags[..0]) == {};
  }

  lemma {:induction false} StoredUpTo(tags: seq<string>, i: nat, k: nat)
    requires i <= k <= |tags| && Distinct(tags[..k]) && (k < |tags| ==> tags[k] in tags[..k])
    ensures StoredFrom(tags[i..], IdSet(tags[..i])) == IdSet(tags[..k])
    decreases k - i
  {
    if i < k {
      assert tags[i..][0] == tags[i] && tags[i..][1..] == tags[i + 1..];
      assert forall j :: 0 <= j < i ==> tags[..k][j] != tags[..k][i];
      assert tags[i] !in tags[..i];
      assert IdSet(tags[..i + 1]) == IdSet(tags[..i]) + {tags[i]};
      StoredUpTo(tags, i + 1, k);
    }
  }

  /** The row of a file as the store keeps it. */
  function StoredRow(file: FileRecord, folderId: Id): FileRow {
    ToFileRow(file, folderId).(tags := StoredTags(file.tags))
  }

  function SetFileAttachments(s: Store, id: Id, attachments: seq<string>): Option<Store> {
    if id !in s.files then None
    else Some(s.(files := s.files[id := s.files[id].(attachments := attachments)]))
  }

  function DeleteFile(s: Store, id: Id): Store {
    s.(files := s.files - {id})
  }

  /** Closes a set of folder ids under "has its parent in the set". */
  function FolderSubtree(s: Store, seen: set<Id>): (r: set<Id>)
    ensures seen <= r
    decreases |s.folders.Keys - seen|
  {
    var children := set id | id in s.folders && id !in seen && s.folders[id].parentId in seen;
    if children == {} then seen
    else
      assert s.folders.Keys - (seen + children) < s.folders.Keys - seen by {
        var c :| c in children;
        assert c in s.folders.Keys - seen && c !in s.folders.Keys - (seen + children);
      }
      ProperSubsetIsSmaller(s.folders.Keys - (seen + children), s.folders.Keys - seen);
      FolderSubtree(s, seen + children)
  }

  /** Deletes a folder row with every folder and file below it. */
  function DeleteFolder(s: Store, id: Id): Store {
    if id !in s.folders then s
    else
      var gone := FolderSubtree(s, {id});
      Store(s.folders - gone, map f | f in s.files && s.files[f].folderId !in gone :: s.files[f])
  }

  /** The folder is `root` or has it among its next k parents. */
  ghost predicate BelowWithin(s: Store, x: Id, root: Id, k: nat)
    decreases k
  {
    x in s.folders && (x == root || (k > 0 && BelowWithin(s, s.folders[x].parentId, root, k - 1)))
  }

  ghost predicate BelowFolder(s: Store, x: Id, root: Id) { exists k: nat :: BelowWithin(s, x, root, k) }

  lemma {:induction false} SubtreeIsBelow(s: Store, seen: set<Id>, root: Id)
    requires forall x :: x in seen ==> BelowFolder(s, x, root)
    ensures forall x :: x in FolderSubtree(s, seen) ==> BelowFolder(s, x, root)
    decreases |s.folders.Keys - seen|
  {
    var children := set id | id in s.folders && id !in seen && s.folders[id].parentId in seen;
    if children != {} {
      forall x | x in children ensures BelowFolder(s, x, root) {
        var k: nat :| BelowWithin(s, s.folders[x].parentId, root, k);
        assert BelowWithin(s, x, root, k + 1);
      }
      var c :| c in children;
      assert c in s.folders.Keys - seen && c !in s.folders.Keys - (seen + children);
      ProperSubsetIsSmaller(s.folders.Keys - (seen + children), s.folders.Keys - seen);
      SubtreeIsBelow(s, seen + children, root);
    }
  }

  lemma {:induction false} SubtreeIsClosed(s: Store, seen: set<Id>)
    ensures forall x :: x in s.folders && s.folders[x].parentId in FolderSubtree(s, seen) ==>
              x in FolderSubtree(s, seen)
    decreases |s.folders.Keys - seen|
  {
    var children := set id | id in s.folders && id !in seen && s.folders[id].parentId in seen;
    if children == {} {
      forall x | x in s.folders && s.folders[x].parentId in seen ensures x in seen { assert x !in children; }
    } else {
      var c :| c in children;
      assert c in s.folders.Keys - seen && c !in s.folders.Keys - (seen + children);
      ProperSubsetIsSmaller(s.folders.Keys - (seen + children), s.folders.Keys - seen);
      SubtreeIsClosed(s, seen + children);
    }
  }

  lemma {:induction false} BelowIsInSubtree(s: Store, x: Id, root: Id, k: nat)
    requires BelowWithin(s, x, root, k)
    ensures x in FolderSubtree(s, {root})
    decreases k
  {
    SubtreeIsClosed(s, {root});
    if x != root { BelowIsInSubtree(s, s.folders[x].parentId, root, k - 1); }
  }

  /** A folder delete takes along exactly the folders below it and their files,
      and keeps the foreign keys. */
  lemma DeleteFolderIs(s: Store, root: Id)
    ensures var t := DeleteFolder(s, root);
            && (forall x :: x in t.folders <==> x in s.folders && !BelowFolder(s, x, root))
            && (forall x :: x in t.folders ==> t.folders[x] == s.folders[x])
            && (forall f :: f in t.files <==> f in s.files && !BelowFolder(s, s.files[f].folderId, root))
            && (forall f :: f in t.files ==> t.files[f] == s.files[f])
            && (ForeignKeys(s) && root != "" ==> ForeignKeys(t))
  {
    if root in s.folders {
      assert BelowWithin(s, root, root, 0);
      SubtreeIsBelow(s, {root}, root);
      SubtreeIsClosed(s, {root});
      forall x | BelowFolder(s, x, root) ensures x in FolderSubtree(s, {root}) {
        var k: nat :| BelowWithin(s, x, root, k);
        BelowIsInSubtree(s, x, root, k);
      }
    } else {
      forall x ensures !BelowFolder(s, x, root) { NothingBelow(s, x, root); }
    }
  }

  lemma NothingBelow(s: Store, x: Id, root: Id)
    requires root !in s.folders
    ensures !BelowFolder(s, x, root)
  {
    forall k: nat ensures !BelowWithin(s, x, root, k) { NeverReached(s, x, root, k); }
  }

  lemma {:induction false} NeverReached(s: Store, x: Id, root: Id, k: nat)
    requires root !in s.folders
    ensures !BelowWithin(s, x, root, k)
    decreases k
  {
    if x in s.folders && k > 0 { NeverReached(s, s.folders[x].parentId, root, k - 1); }
  }

  function DeleteNode(s: Store, id: Id): Store {
    DeleteFolder(DeleteFile(s, id), id)
  }

  /** What recovery does with the ids recorded in a journal, from the k-th on. */
  function DeleteNodes(s: Store, ids: seq<Id>): Store
    decreases |ids|
  {
    if ids == [] then s else DeleteNodes(DeleteNode(s, ids[0]), ids[1..])
  }

  ghost predicate NoRowOf(s: Store, ids: set<Id>) {
    s.folders.Keys !! ids && s.files.Keys !! ids
  }

  /** `s` is `base` plus rows keyed by `ids`, none of them shadowing a base row. */
  ghost predicate BasePlus(base: Store, s: Store, ids: set<Id>) {
    && s.folders.Keys - ids == base.folders.Keys
    && (forall id :: id in base.folders ==> s.folders[id] == base.folders[id])
    && s.files.Keys - ids == base.files.Keys
    && (forall id :: id in base.files ==> s.files[id] == base.files[id])
  }

  lemma {:induction false} SubtreeStaysInside(s: Store, seen: set<Id>, ids: set<Id>)
    requires seen <= ids
    requires forall id :: id in s.folders && id !in ids ==> s.folders[id].parentId !in ids
    ensures FolderSubtree(s, seen) <= ids
    decreases |s.folders.Keys - seen|
  {
    var children := set id | id in s.folders && id !in seen && s.folders[id].parentId in seen;
    if children != {} {
      var c :| c in children;
      assert c in s.folders.Keys - seen && c !in s.folders.Keys - (seen + children);
      ProperSubsetIsSmaller(s.folders.Keys - (seen + children), s.folders.Keys - seen);
      SubtreeStaysInside(s, seen + children, ids);
    }
  }

  lemma DeleteFolderKeepsBase(base: Store, s: Store, ids: set<Id>, id: Id)
    requires ForeignKeys(base) && NoRowOf(base, ids) && "" !in ids
    requires BasePlus(base, s, ids) && id in ids
    ensures BasePlus(base, DeleteFolder(s, id), ids)
  {
    forall x | x in s.folders && x !in ids
      ensures s.folders[x].parentId !in ids
    {
      assert x in base.folders;
    }
    if id in s.folders {
      SubtreeStaysInside(s, {id}, ids);
      var gone := FolderSubtree(s, {id});
      var u := DeleteFolder(s, id);
      forall f | f in base.files ensures f in u.files {
        assert s.files[f] == base.files[f];
      }
      assert u.files.Keys - ids == base.files.Keys;
      assert u.folders.Keys - ids == base.folders.Keys;
    }
  }

  /** Deleting recorded ids takes nothing else along: the cascade cannot leave
      the recorded set, because no base row hangs below a recorded folder. */
  lemma DeleteNodeKeepsBase(base: Store, s: Store, ids: set<Id>, id: Id)
    requires ForeignKeys(base) && NoRowOf(base, ids) && "" !in ids
    requires BasePlus(base, s, ids) && id in ids
    ensures BasePlus(base, DeleteFile(s, id), ids) && BasePlus(base, DeleteFolder(s, id), ids)
    ensures BasePlus(base, DeleteNode(s, id), ids)
  {
    assert DeleteFile(s, id).files.Keys - ids == base.files.Keys;
    DeleteFolderKeepsBase(base, s, ids, id);
    DeleteFolderKeepsBase(base, DeleteFile(s, id), ids, id);
  }

  /** Ids without rows leave nothing to delete. */
  lemma NothingToDelete(s: Store, id: Id)
    requires id !in s.folders && id !in s.files
    ensures DeleteFile(s, id) == s && DeleteFolder(s, id) == s && DeleteNode(s, id) == s
  {
    assert s.files - {id} == s.files;
  }

  lemma DeleteNodeRemoves(s: Store, id: Id)
    ensures id !in DeleteNode(s, id).folders && id !in DeleteNode(s, id).files
    ensures DeleteNode(s, id).folders.Keys <= s.folders.Keys
    ensures DeleteNode(s, id).files.Keys <= s.files.Keys
  {
  }

  lemma {:induction false} DeleteNodesRemoves(s: Store, ids: seq<Id>)
    ensures NoRowOf(DeleteNodes(s, ids), IdSet(ids))
    ensures DeleteNodes(s, ids).folders.Keys <= s.folders.Keys
    ensures DeleteNodes(s, ids).files.Keys <= s.files.Keys
    decreases |ids|
  {
    if ids != [] {
      DeleteNodeRemoves(s, ids[0]);
      DeleteNodesRemoves(DeleteNode(s, ids[0]), ids[1..]);
      assert forall id :: id in ids <==> id == ids[0] || id in ids[1..];
    }
  }

  lemma {:induction false} DeleteNodesKeepsBase(base: Store, s: Store, all: set<Id>, ids: seq<Id>)
    requires ForeignKeys(base) && NoRowOf(base, all) && "" !in all
    requires BasePlus(base, s, all) && forall id :: id in ids ==> id in all
    ensures BasePlus(base, DeleteNodes(s, ids), all)
    decreases |ids|
  {
    if ids != [] {
      DeleteNodeKeepsBase(base, s, all, ids[0]);
      DeleteNodesKeepsBase(base, DeleteNode(s, ids[0]), all, ids[1..]);
    }
  }

  lemma BaseWithoutExtras(base: Store, s: Store, ids: set<Id>)
    requires BasePlus(base, s, ids) && NoRowOf(s, ids)
    ensures s == base
  {
    assert s.folders.Keys == s.folders.Keys - ids;
    assert s.files.Keys == s.files.Keys - ids;
    assert s.folders == base.folders;
    assert s.files == base.files;
  }

  /** Recovery's row cleanup is invisible exactly when the store had no row of
      the imported ids before the import; stale rows of those ids are lost. */
  lemma CleanupRestoresExactlyWhenIdsAbsent(base: Store, ids: seq<Id>)
    requires ForeignKeys(base) && "" !in ids
    ensures DeleteNodes(base, ids) == base <==> NoRowOf(base, IdSet(ids))
  {
    var all := IdSet(ids);
    DeleteNodesRemoves(base, ids);
    if NoRowOf(base, all) {
      assert base.folders.Keys - all == base.folders.Keys;
      assert base.files.Keys - all == base.files.Keys;
      DeleteNodesKeepsBase(base, base, all, ids);
      BaseWithoutExtras(base, DeleteNodes(base, ids), all);
    }
  }
}
