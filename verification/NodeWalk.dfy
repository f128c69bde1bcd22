/** The walk that gathers every id of the notebook before an import
    (src/core/bundled_folder_manager.cpp, CollectAllNodeIds), and what it is
    for: an admitted bundle brings in new ids only. */
module NodeWalk {
  import opened Records
  import opened StagedTree
  import opened LazySync
  import opened FolderTree

  /** The readable configs, listing only children the walk follows. */
  function Followed(tree: ConfigTree): Configs {
    map p | p in tree && tree[p].Whole? :: tree[p].value.(folders := SafeNames(tree[p].value.folders))
  }

  function SafeNames(names: seq<string>): (r: seq<string>)
    ensures forall f :: f in r <==> f in names && SafeName(f)
  {
    if names == [] then []
    else
      assert names == [names[0]] + names[1..];
      (if SafeName(names[0]) then [names[0]] else []) + SafeNames(names[1..])
  }

  /** Some config the walk comes to is unreadable. */
  ghost predicate TornInReach(tree: ConfigTree, dir: Path) {
    || (dir in tree && tree[dir].Torn?)
    || exists r, f :: ListsTorn(tree, dir, r, f)
  }

  ghost predicate ListsTorn(tree: ConfigTree, dir: Path, r: Path, f: string) {
    Reach(Followed(tree), dir, r) && f in Followed(tree)[r].folders && r + [f] in tree && tree[r + [f]].Torn?
  }

  ghost predicate OwnId(c: FolderConfig, id: Id) { id == c.id || id in FileIds(c.files) }

  lemma HasIdSplits(t: Configs, root: Path, id: Id)
    requires root in t
    ensures HasId(t, root, id) <==> OwnId(t[root], id) || exists f :: f in t[root].folders && HasId(t, root + [f], id)
  {
    if HasId(t, root, id) {
      var r, k :| Holds(t, root, r, k, id);
      if r != root {
        ReachNeedsChild(t, root, r);
        assert Holds(t, root + [r[|root|]], r, k, id);
      }
    }
    if OwnId(t[root], id) {
      var k := if id == t[root].id then -1 else var k :| 0 <= k < |t[root].files| && t[root].files[k].id == id; k;
      assert Holds(t, root, root, k, id);
    }
    forall f | f in t[root].folders && HasId(t, root + [f], id) ensures HasId(t, root, id) {
      var r, k :| Holds(t, root + [f], r, k, id);
      ReachThroughChild(t, root, f, r);
      assert Holds(t, root, r, k, id);
    }
  }

  lemma TornSplits(tree: ConfigTree, dir: Path)
    requires dir in tree && tree[dir].Whole?
    ensures TornInReach(tree, dir) <==>
              exists f :: f in Followed(tree)[dir].folders && TornInReach(tree, dir + [f])
  {
    var t := Followed(tree);
    if TornInReach(tree, dir) {
      var r, f :| ListsTorn(tree, dir, r, f);
      if r == dir {
        assert TornInReach(tree, dir + [f]);
      } else {
        ReachNeedsChild(t, dir, r);
        assert ListsTorn(tree, dir + [r[|dir|]], r, f);
      }
    }
    forall f | f in t[dir].folders && TornInReach(tree, dir + [f]) ensures TornInReach(tree, dir) {
      if dir + [f] in tree && tree[dir + [f]].Torn? {
        assert ListsTorn(tree, dir, dir, f);
      } else {
        var r, g :| ListsTorn(tree, dir + [f], r, g);
        ReachThroughChild(t, dir, f, r);
        assert ListsTorn(tree, dir, r, g);
      }
    }
  }

  class IdCollector {
    var ids: seq<Id>

    constructor ()
      ensures ids == []
    {
      ids := [];
    }

    /** Adds exactly the ids in reach; fails exactly on a missing start or an
        unreadable config in reach. Missing children are passed over. */
    method Walk(tree: ConfigTree, dir: Path) returns (failure: Option<Error>)
      modifies this
      ensures dir !in tree ==> failure == Some(NotFound) && ids == old(ids)
      ensures dir in tree ==> failure == if TornInReach(tree, dir) then Some(JsonParse) else None
      ensures failure == None ==>
                forall id :: id in ids <==> id in old(ids) || (id != "" && HasId(Followed(tree), dir, id))
      decreases Below(tree, dir), 1
    {
      if dir !in tree { return Some(NotFound); }
      if tree[dir].Torn? { return Some(JsonParse); }
      AddOwn(tree[dir].value);
      TornSplits(tree, dir);
      forall id { HasIdSplits(Followed(tree), dir, id); }
      failure := WalkChildren(tree, dir, tree[dir].value.folders);
    }

    method WalkChildren(tree: ConfigTree, dir: Path, names: seq<string>) returns (failure: Option<Error>)
      requires dir in tree
      modifies this
      ensures failure ==
                if exists f :: f in names && SafeName(f) && TornInReach(tree, dir + [f]) then Some(JsonParse) else None
      ensures failure == None ==>
                forall id :: id in ids <==>
                  id in old(ids) || (id != "" && AmongFirst(Followed(tree), dir, names, |names|, id))
      decreases Below(tree, dir), 0
    {
      for i := 0 to |names|
        invariant forall j :: 0 <= j < i && SafeName(names[j]) ==> !TornInReach(tree, dir + [names[j]])
        invariant forall id :: id in ids <==>
                    id in old(ids) || (id != "" && AmongFirst(Followed(tree), dir, names, i, id))
      {
        if SafeName(names[i]) {
          BelowShrinks(tree, dir, names[i]);
          MissingHasNothing(tree, dir + [names[i]]);
          failure := Walk(tree, dir + [names[i]]);
          if failure != None && failure != Some(NotFound) { return; }
        }
        AmongOneMore(Followed(tree), dir, names, i);
      }
      failure := None;
    }

    method AddOwn(config: FolderConfig)
      modifies this
      ensures forall id :: id in ids <==> id in old(ids) || (id != "" && OwnId(config, id))
    {
      if config.id != "" { ids := ids + [config.id]; }
      for k := 0 to |config.files|
        invariant forall id :: id in ids <==>
                    id in old(ids) || (id != "" && (id == config.id || id in FileIds(config.files)[..k]))
      {
        if config.files[k].id != "" { ids := ids + [config.files[k].id]; }
        assert FileIds(config.files)[..k + 1] == FileIds(config.files)[..k] + [config.files[k].id];
      }
      assert FileIds(config.files)[..|config.files|] == FileIds(config.files);
    }
  }

  ghost predicate AmongFirst(t: Configs, dir: Path, names: seq<string>, n: nat, id: Id)
    requires n <= |names|
  {
    exists j :: 0 <= j < n && SafeName(names[j]) && HasId(t, dir + [names[j]], id)
  }

  lemma AmongOneMore(t: Configs, dir: Path, names: seq<string>, n: nat)
    requires n < |names|
    ensures forall id :: AmongFirst(t, dir, names, n + 1, id) <==>
              AmongFirst(t, dir, names, n, id) || (SafeName(names[n]) && HasId(t, dir + [names[n]], id))
  {
  }

  lemma MissingHasNothing(tree: ConfigTree, dir: Path)
    ensures dir !in tree ==> !TornInReach(tree, dir) && forall id :: !HasId(Followed(tree), dir, id)
  {
    if dir !in tree {
      var t := Followed(tree);
      forall r ensures !Reach(t, dir, r) {
        if Reach(t, dir, r) { ReachIsBelow(t, dir, r); }
      }
    }
  }

  // ---- The ids of a staged bundle ----

  lemma DistinctHalves<T>(a: seq<T>, b: seq<T>)
    requires Distinct(a + b)
    ensures Distinct(a) && Distinct(b) && forall x :: x in a ==> x !in b
  {
    var s := a + b;
    forall i, j | 0 <= i < j < |a| ensures a[i] != a[j] { assert s[i] != s[j]; }
    forall i, j | 0 <= i < j < |b| ensures b[i] != b[j] { assert s[|a| + i] != s[|a| + j]; }
    forall i, j | 0 <= i < |a| && 0 <= j < |b| ensures a[i] != b[j] { assert s[i] != s[|a| + j]; }
  }

  /** The flattening lists exactly the ids in reach. */
  lemma {:induction false} CollectHasId(tree: ConfigTree, dir: Path, parentId: Id, id: Id)
    requires Collect(tree, dir, parentId).Ok?
    ensures id in Collect(tree, dir, parentId).value.ids <==> HasId(Readable(tree), dir, id)
    decreases Below(tree, dir), 1, 0
  {
    var config := tree[dir].value;
    ChildrenHaveId(tree, dir, config.id, config.folders, id);
    HasIdSplits(Readable(tree), dir, id);
    assert id in NodeIds(config) <==> OwnId(config, id);
  }

  lemma {:induction false} ChildrenHaveId(tree: ConfigTree, dir: Path, parentId: Id, names: seq<string>, id: Id)
    requires dir in tree && CollectChildren(tree, dir, parentId, names).Ok?
    ensures id in CollectChildren(tree, dir, parentId, names).value.ids <==>
              exists f :: f in names && HasId(Readable(tree), dir + [f], id)
    decreases Below(tree, dir), 0, |names|
  {
    if names != [] {
      BelowShrinks(tree, dir, names[0]);
      CollectHasId(tree, dir + [names[0]], parentId, id);
      ChildrenHaveId(tree, dir, parentId, names[1..], id);
      assert forall f :: f in names <==> f == names[0] || f in names[1..];
    }
  }

  /** A folder that the flattening accepts: its ids are not empty, and it lists
      safe names of readable configs only. */
  ghost predicate Sound(tree: ConfigTree, r: Path)
    requires r in tree && tree[r].Whole?
  {
    var c := tree[r].value;
    && c.id != "" && (forall f :: f in c.files ==> f.id != "")
    && forall f :: f in c.folders ==> SafeName(f) && r + [f] in tree && tree[r + [f]].Whole?
  }

  ghost predicate AllSound(tree: ConfigTree, dir: Path) {
    && dir in tree && tree[dir].Whole?
    && forall r :: Reach(Readable(tree), dir, r) ==> Sound(tree, r)
  }

  lemma NoEmptyFileId(files: seq<FileRecord>)
    ensures "" in FileIds(files) <==> exists f :: f in files && f.id == ""
  {
    if "" in FileIds(files) {
      var k :| 0 <= k < |files| && FileIds(files)[k] == "";
      assert files[k] in files;
    }
    if f :| f in files && f.id == "" {
      var k :| 0 <= k < |files| && files[k] == f;
      assert FileIds(files)[k] == "";
    }
  }

  /** The flattening accepts a tree if and only if every folder in reach is sound. */
  lemma {:induction false} CollectOkExactlyWhen(tree: ConfigTree, dir: Path, parentId: Id)
    ensures Collect(tree, dir, parentId).Ok? <==> AllSound(tree, dir)
    decreases Below(tree, dir), 1, 0
  {
    if dir in tree && tree[dir].Whole? {
      var config := tree[dir].value;
      NoEmptyFileId(config.files);
      ChildrenOkExactlyWhen(tree, dir, config.id, config.folders);
      SoundFromParts(tree, dir);
      assert Reach(Readable(tree), dir, dir);
    }
  }

  lemma {:induction false} ChildrenOkExactlyWhen(tree: ConfigTree, dir: Path, parentId: Id, names: seq<string>)
    requires dir in tree
    ensures CollectChildren(tree, dir, parentId, names).Ok? <==>
            forall f :: f in names ==> SafeName(f) && AllSound(tree, dir + [f])
    decreases Below(tree, dir), 0, |names|
  {
    if names != [] {
      assert forall f :: f in names <==> f == names[0] || f in names[1..];
      if SafeName(names[0]) {
        BelowShrinks(tree, dir, names[0]);
        CollectOkExactlyWhen(tree, dir + [names[0]], parentId);
        ChildrenOkExactlyWhen(tree, dir, parentId, names[1..]);
      }
    }
  }

  lemma SoundFromParts(tree: ConfigTree, dir: Path)
    requires dir in tree && tree[dir].Whole?
    ensures AllSound(tree, dir) <==>
            Sound(tree, dir) && forall f :: f in tree[dir].value.folders ==> AllSound(tree, dir + [f])
  {
    var t, c := Readable(tree), tree[dir].value;
    assert Reach(t, dir, dir);
    if AllSound(tree, dir) {
      forall f | f in c.folders ensures AllSound(tree, dir + [f]) {
        forall r | Reach(t, dir + [f], r) ensures Sound(tree, r) { ReachThroughChild(t, dir, f, r); }
      }
    }
    if Sound(tree, dir) && forall f :: f in c.folders ==> AllSound(tree, dir + [f]) {
      forall r | Reach(t, dir, r) ensures Sound(tree, r) {
        if r != dir { ReachNeedsChild(t, dir, r); }
      }
    }
  }

  /** Each child's ids are distinct, and different children have different ids. */
  ghost predicate ChildrenApart(t: Configs, dir: Path, names: seq<string>) {
    && (forall f :: f in names ==> UniqueIds(t, dir + [f]))
    && (forall f, g, id :: f in names && g in names && HasId(t, dir + [f], id) && HasId(t, dir + [g], id) ==> f == g)
  }

  lemma {:induction false} DistinctBundleIsUnique(tree: ConfigTree, dir: Path, parentId: Id)
    requires Collect(tree, dir, parentId).Ok? && Distinct(Collect(tree, dir, parentId).value.ids)
    ensures UniqueIds(Readable(tree), dir)
    decreases Below(tree, dir), 1, 0
  {
    var config, t := tree[dir].value, Readable(tree);
    var rest := CollectChildren(tree, dir, config.id, config.folders).value.ids;
    DistinctHalves(NodeIds(config), rest);
    DistinctChildrenApart(tree, dir, config.id, config.folders);
    forall id ensures id in rest <==> exists f :: f in config.folders && HasId(t, dir + [f], id) {
      ChildrenHaveId(tree, dir, config.id, config.folders, id);
    }
    UniqueFromParts(t, dir);
  }

  lemma {:induction false} DistinctChildrenApart(tree: ConfigTree, dir: Path, parentId: Id, names: seq<string>)
    requires dir in tree && CollectChildren(tree, dir, parentId, names).Ok?
    requires Distinct(CollectChildren(tree, dir, parentId, names).value.ids)
    ensures ChildrenApart(Readable(tree), dir, names)
    decreases Below(tree, dir), 0, |names|
  {
    if names != [] {
      var t := Readable(tree);
      BelowShrinks(tree, dir, names[0]);
      var first := Collect(tree, dir + [names[0]], parentId).value.ids;
      var rest := CollectChildren(tree, dir, parentId, names[1..]).value.ids;
      DistinctHalves(first, rest);
      DistinctBundleIsUnique(tree, dir + [names[0]], parentId);
      DistinctChildrenApart(tree, dir, parentId, names[1..]);
      assert forall f :: f in names <==> f == names[0] || f in names[1..];
      forall f, id | f in names[1..] && HasId(t, dir + [names[0]], id) ensures !HasId(t, dir + [f], id) {
        CollectHasId(tree, dir + [names[0]], parentId, id);
        ChildrenHaveId(tree, dir, parentId, names[1..], id);
      }
    }
  }

  lemma UniqueFromParts(t: Configs, dir: Path)
    requires dir in t && ChildrenApart(t, dir, t[dir].folders) && Distinct(NodeIds(t[dir]))
    requires forall f, id :: f in t[dir].folders && HasId(t, dir + [f], id) ==> id !in NodeIds(t[dir])
    ensures UniqueIds(t, dir)
  {
    forall r, k, s, l, id | Holds(t, dir, r, k, id) && Holds(t, dir, s, l, id) ensures r == s && k == l {
      if r == dir || s == dir {
        OwnOrBelow(t, dir, r, k, id);
        OwnOrBelow(t, dir, s, l, id);
        if r == s { assert NodeIds(t[dir])[k + 1] == NodeIds(t[dir])[l + 1]; }
      } else {
        ReachNeedsChild(t, dir, r);
        ReachNeedsChild(t, dir, s);
        var f, g := r[|dir|], s[|dir|];
        assert Holds(t, dir + [f], r, k, id) && Holds(t, dir + [g], s, l, id);
        assert HasId(t, dir + [f], id) && HasId(t, dir + [g], id);
      }
    }
  }

  lemma OwnOrBelow(t: Configs, dir: Path, r: Path, k: int, id: Id)
    requires Holds(t, dir, r, k, id)
    ensures dir in t
    ensures if r == dir then id in NodeIds(t[dir]) else exists f :: f in t[dir].folders && HasId(t, dir + [f], id)
  {
    ReachIsBelow(t, dir, r);
    if r == dir {
      assert NodeIds(t[dir])[k + 1] == id;
    } else {
      ReachNeedsChild(t, dir, r);
      assert Holds(t, dir + [r[|dir|]], r, k, id);
    }
  }

  /** Attaching an admitted bundle keeps ids distinct and adds exactly the
      bundle's. The admission check needs only the gathered ids. */
  lemma AttachAddsExactlyTheBundle(t: Configs, staged: ConfigTree, p: Path, name: string, now: int, existing: set<Id>,
                                   ids: seq<Id>)
    requires UniqueIds(t, []) && Reach(t, [], p) && name !in t[p].folders
    requires forall r :: r in t ==> !(p + [name] <= r)
    requires forall id :: id in existing <==> id != "" && HasId(t, [], id)
    requires Collect(staged, [], t[p].id).Ok? && Collect(staged, [], t[p].id).value.ids == ids
    requires Distinct(ids) && IdSet(ids) !! existing
    ensures var g := Graft(t, Readable(staged), p, name, now);
            && UniqueIds(g, [])
            && forall id :: HasId(g, [], id) <==> HasId(t, [], id) || id in ids
  {
    var sub := Readable(staged);
    CollectIsWellGathered(staged, [], t[p].id);
    BundleGrafts(t, staged, p, name, ids);
    GraftIds(t, sub, p, name, now);
  }

  lemma BundleGrafts(t: Configs, staged: ConfigTree, p: Path, name: string, ids: seq<Id>)
    requires p in t && Collect(staged, [], t[p].id).Ok? && Collect(staged, [], t[p].id).value.ids == ids
    requires Distinct(ids) && forall r :: r in t ==> !(p + [name] <= r)
    ensures UniqueIds(Readable(staged), []) && [] in Readable(staged) && Sealed(t, Readable(staged), p + [name])
    ensures forall id :: HasId(Readable(staged), [], id) <==> id in ids
  {
    DistinctBundleIsUnique(staged, [], t[p].id);
    forall id ensures HasId(Readable(staged), [], id) <==> id in ids { CollectHasId(staged, [], t[p].id, id); }
    NothingLeftIsSealed(t, Readable(staged), p + [name]);
  }
}
