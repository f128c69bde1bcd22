/** The walk that proves a folder reachable through the index before it is shared
    or imported into (src/api/vxcore_folder_api.cpp: LoadFolderConfigJson,
    CountFolderChild, vxcore_folder_get_share_paths, vxcore_folder_get_import_paths). */
module SharePaths {
  import opened Records
  import opened StagedTree
  import opened LazySync
  import opened FolderTree

  /** What stands at a content path; links are not followed. */
  datatype Entry = RealDirectory | Link | OtherFile

  type Entries = map<Path, Entry>

  function LoadConfig(tree: ConfigTree, dir: Path): Result<FolderConfig> {
    if dir !in tree then Err(NotFound)
    else if tree[dir].Torn? then Err(JsonParse)
    else Ok(tree[dir].value)
  }

  method CountFolderChild(config: FolderConfig, name: string) returns (count: nat)
    ensures count == multiset(config.folders)[name]
  {
    count := 0;
    for i := 0 to |config.folders|
      invariant count == multiset(config.folders[..i])[name]
    {
      assert config.folders[..i + 1] == config.folders[..i] + [config.folders[i]];
      if config.folders[i] == name { count := count + 1; }
    }
    assert config.folders[..|config.folders|] == config.folders;
  }

  /** What is wrong with the k-th component of the path; nothing, if None. */
  function Fault(tree: ConfigTree, content: Entries, path: Path, k: nat): Option<Error>
    requires k < |path|
  {
    var parent, dir := LoadConfig(tree, path[..k]), path[..k + 1];
    if parent.Err? then Some(parent.error)
    else if multiset(parent.value.folders)[path[k]] != 1 then Some(NotFound)
    else
      var child := LoadConfig(tree, dir);
      if child.Err? then Some(child.error)
      else if child.value.name != path[k] then Some(InvalidState)
      else if dir !in content then Some(NodeNotExists)
      else if content[dir].Link? then Some(Unsupported)
      else if !content[dir].RealDirectory? then Some(NodeNotExists)
      else None
  }

  /** The config above the k-th component lists it exactly once. */
  ghost predicate ListedOnce(tree: ConfigTree, path: Path, k: nat)
    requires k < |path|
  {
    path[..k] in tree && tree[path[..k]].Whole? && multiset(tree[path[..k]].value.folders)[path[k]] == 1
  }

  /** Succeeds when no component is at fault, and else reports the first fault. */
  method ProveReachable(tree: ConfigTree, content: Entries, path: Path) returns (r: Result<()>)
    ensures r.Ok? <==> LoadConfig(tree, []).Ok? && forall k :: 0 <= k < |path| ==> Fault(tree, content, path, k).None?
    ensures r.Err? ==>
              || (LoadConfig(tree, []) == Err(r.error))
              || exists k :: 0 <= k < |path| && Fault(tree, content, path, k) == Some(r.error)
                             && forall j :: 0 <= j < k ==> Fault(tree, content, path, j).None?
    ensures r.Err? ==> r.error in {NotFound, JsonParse, InvalidState, NodeNotExists, Unsupported}
    ensures r == Err(NotFound) ==>
              exists k :: 0 <= k <= |path| && (path[..k] !in tree || (k < |path| && !ListedOnce(tree, path, k)))
    ensures r == Err(JsonParse) ==> exists k :: 0 <= k <= |path| && path[..k] in tree && tree[path[..k]].Torn?
    ensures r == Err(InvalidState) ==>
              exists k :: 0 < k <= |path| && ListedOnce(tree, path, k - 1) && path[..k] in tree
                          && tree[path[..k]].Whole? && tree[path[..k]].value.name != path[k - 1]
    ensures r == Err(NodeNotExists) ==>
              exists k :: 0 < k <= |path| && ListedOnce(tree, path, k - 1)
                          && (path[..k] in content ==> content[path[..k]].OtherFile?)
    ensures r == Err(Unsupported) ==>
              exists k :: 0 < k <= |path| && ListedOnce(tree, path, k - 1)
                          && path[..k] in content && content[path[..k]].Link?
  {
    var parent := LoadConfig(tree, []);
    if parent.Err? { return Err(parent.error); }
    assert path[..0] == [];
    for k := 0 to |path|
      invariant parent.Ok? && parent == LoadConfig(tree, path[..k])
      invariant forall j :: 0 <= j < k ==> Fault(tree, content, path, j).None?
    {
      ghost var fault := Fault(tree, content, path, k);
      var occurrences := CountFolderChild(parent.value, path[k]);
      if occurrences != 1 { return Err(NotFound); }
      var dir := path[..k + 1];
      var child := LoadConfig(tree, dir);
      if child.Err? { return Err(child.error); }
      if child.value.name != path[k] { return Err(InvalidState); }
      if dir !in content { return Err(NodeNotExists); }
      if content[dir].Link? { return Err(Unsupported); }
      if !content[dir].RealDirectory? { return Err(NodeNotExists); }
      parent := child;
    }
    r := Ok(());
  }

  /** Every folder on the way is listed once, carries its own name and is a real directory. */
  ghost predicate Sound(t: Configs, content: Entries, path: Path, k: nat)
    requires k < |path|
  {
    && path[..k] in t && path[..k + 1] in t
    && multiset(t[path[..k]].folders)[path[k]] == 1 && t[path[..k + 1]].name == path[k]
    && path[..k + 1] in content && content[path[..k + 1]].RealDirectory?
  }

  /** A path is accepted exactly when it is reachable through the index and every
      step of it is sound: orphan subtrees are refused. */
  lemma {:induction false} AcceptedExactlyWhenReachable(tree: ConfigTree, content: Entries, path: Path)
    ensures (LoadConfig(tree, []).Ok? && forall k :: 0 <= k < |path| ==> Fault(tree, content, path, k).None?) <==>
            (Reach(Readable(tree), [], path) && forall k :: 0 <= k < |path| ==> Sound(Readable(tree), content, path, k))
    decreases |path|
  {
    var t := Readable(tree);
    if path != [] {
      var n := |path| - 1;
      var front := path[..n];
      AcceptedExactlyWhenReachable(tree, content, front);
      forall k | 0 <= k < n
        ensures Fault(tree, content, path, k) == Fault(tree, content, front, k)
        ensures Sound(t, content, path, k) <==> Sound(t, content, front, k) {
        assert path[..k] == front[..k] && path[..k + 1] == front[..k + 1];
      }
      assert path[..n + 1] == path && ParentPath(path) == front;
      if front in t { assert path[n] in multiset(t[front].folders) <==> path[n] in t[front].folders; }
      assert Fault(tree, content, path, n).None? <==> Sound(t, content, path, n);
    }
  }
}
