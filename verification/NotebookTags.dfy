/** The tag operations of a notebook, over whole runs and as the methods that
    update the tag vector and the tag lists of the files (src/core/notebook.cpp;
    src/core/bundled_folder_manager.cpp, UpdateFileTags, TagFile, UntagFile,
    IterateAllFiles). */
module NotebookTags {
  import opened Records
  import opened Collections
  import opened Text
  import opened TagForest
  import opened FileTags
  import Sublists

  /** A file reachable from the root, in the order IterateAllFiles meets it. */
  datatype TaggedFile = TaggedFile(path: string, tags: seq<string>)

  datatype State = State(readOnly: bool, tags: Tags, files: seq<TaggedFile>)

  datatype Op =
    | CreateTag(name: string, parent: string)
    | CreateTagPath(path: string)
    | MoveTag(name: string, parent: string)
    | DeleteTag(name: string)
    | TagFile(file: string, name: string)
    | UntagFile(file: string, name: string)
    | UpdateFileTags(file: string, names: seq<string>)

  function NonEmpty(pieces: seq<string>): (r: seq<string>)
    ensures "" !in r
  {
    if pieces == [] then []
    else (if pieces[0] == "" then [] else [pieces[0]]) + NonEmpty(pieces[1..])
  }

  /** The components of a path are its non-empty pieces, in order. */
  lemma {:induction false} NonEmptyIsTheRest(pieces: seq<string>)
    ensures Sublists.IsRest(pieces, NonEmpty(pieces), (x: string) => x != "")
  {
    var keep := (x: string) => x != "";
    if pieces == [] {
      Sublists.RestOfNothing(keep);
    } else {
      NonEmptyIsTheRest(pieces[1..]);
      Sublists.RestBehindFirst(pieces[0], pieces[1..], NonEmpty(pieces[1..]), keep);
      assert [pieces[0]] + pieces[1..] == pieces;
    }
  }

  function Components(path: string): seq<string> { NonEmpty(Pieces(path, "/")) }

  function FindFile(files: seq<TaggedFile>, path: string): (k: int)
    ensures k == -1 || (0 <= k < |files| && files[k].path == path)
    ensures forall j :: 0 <= j < |files| && (k == -1 || j < k) ==> files[j].path != path
  {
    if files == [] then -1
    else if files[0].path == path then 0
    else
      var k := FindFile(files[1..], path);
      if k == -1 then -1 else k + 1
  }

  function WithTags(files: seq<TaggedFile>, path: string, tags: seq<string>): seq<TaggedFile>
    requires FindFile(files, path) != -1
  {
    var k := FindFile(files, path);
    files[k := files[k].(tags := tags)]
  }

  function TagsOf(files: seq<TaggedFile>, path: string): seq<string> {
    var k := FindFile(files, path);
    if k == -1 then [] else files[k].tags
  }

  function ErrorOf<T>(r: Result<T>): Option<Error> { if r.Err? then Some(r.error) else None }

  ghost function Refusal(s: State, op: Op): Option<Error> {
    if s.readOnly then Some(ReadOnly)
    else match op
      case CreateTag(name, parent) => ErrorOf(Created(s.tags, name, parent))
      case CreateTagPath(path) => if Components(path) == [] then Some(InvalidParam) else None
      case MoveTag(name, parent) => ErrorOf(Moved(s.tags, name, parent))
      case DeleteTag(name) => ErrorOf(Deleted(s.tags, name))
      case TagFile(file, name) =>
        if FindFile(s.files, file) == -1 then Some(NotFound)
        else if !Has(s.tags, name) then Some(InvalidParam)
        else if name in TagsOf(s.files, file) then Some(AlreadyExists)
        else None
      case UntagFile(file, name) =>
        if FindFile(s.files, file) == -1 || name !in TagsOf(s.files, file) then Some(NotFound) else None
      case UpdateFileTags(file, names) =>
        if FindFile(s.files, file) == -1 then Some(NotFound)
        else if exists x :: x in names && !Has(s.tags, x) then Some(InvalidParam)
        else None
  }

  function Cleaned(tags: Tags, files: seq<TaggedFile>, gone: set<string>): (r: seq<TaggedFile>) {
    seq(|files|, k requires 0 <= k < |files| => files[k].(tags := AfterDelete(tags, files[k].tags, gone)))
  }

  ghost function Apply(s: State, op: Op): State {
    if Refusal(s, op).Some? then s
    else match op
      case CreateTag(name, parent) => s.(tags := Created(s.tags, name, parent).value)
      case CreateTagPath(path) => s.(tags := PathCreated(s.tags, Components(path)))
      case MoveTag(name, parent) => s.(tags := Moved(s.tags, name, parent).value)
      case DeleteTag(name) =>
        s.(tags := Deleted(s.tags, name).value, files := Cleaned(s.tags, s.files, Subtree(s.tags, name)))
      case TagFile(file, name) => s.(files := WithTags(s.files, file, TagsOf(s.files, file) + [name]))
      case UntagFile(file, name) => s.(files := WithTags(s.files, file, EraseFirst(TagsOf(s.files, file), name)))
      case UpdateFileTags(file, names) => s.(files := WithTags(s.files, file, names))
  }

  ghost function Run(s: State, ops: seq<Op>): State
    decreases |ops|
  {
    if ops == [] then s else Run(Apply(s, ops[0]), ops[1..])
  }

  // ---- Whole runs ----

  lemma ApplyKeepsForest(s: State, op: Op)
    requires Forest(s.tags)
    ensures Forest(Apply(s, op).tags)
  {
    if Refusal(s, op).None? {
      match op
      case CreateTag(name, parent) => CreateKeepsForest(s.tags, name, parent);
      case CreateTagPath(path) => PathCreatedIsThere(s.tags, Components(path));
      case MoveTag(name, parent) => MoveKeepsForest(s.tags, name, parent);
      case DeleteTag(name) => DeleteKeepsForest(s.tags, name);
      case _ =>
    }
  }

  /** Unique names, defined parents and acyclic chains, over every run of
      successful and refused operations. */
  lemma {:induction false} ForestOverRuns(s: State, ops: seq<Op>)
    requires Forest(s.tags)
    ensures Forest(Run(s, ops).tags)
    decreases |ops|
  {
    if ops != [] {
      ApplyKeepsForest(s, ops[0]);
      ForestOverRuns(Apply(s, ops[0]), ops[1..]);
    }
  }

  ghost predicate FileTagged(tags: Tags, f: TaggedFile) {
    Distinct(f.tags) && forall x :: x in f.tags ==> Has(tags, x)
  }

  /** Every file's tags are defined and duplicate-free. */
  ghost predicate FilesTagged(s: State) { forall f :: f in s.files ==> FileTagged(s.tags, f) }

  /** The one operation that may break it is UpdateFileTags with duplicates. */
  predicate Careful(op: Op) {
    op.UpdateFileTags? ==> forall i, j :: 0 <= i < j < |op.names| ==> op.names[i] != op.names[j]
  }

  /** DeleteTag removes exactly the tag and its descendants, from the vector and
      from every file, and everything else stays in order. */
  lemma DeleteTagCleansEverything(s: State, name: string)
    requires Forest(s.tags) && FilesTagged(s) && Refusal(s, DeleteTag(name)).None?
    ensures var t, gone := Apply(s, DeleteTag(name)), Subtree(s.tags, name);
            && t.tags == Without(s.tags, gone)
            && (forall x :: Has(t.tags, x) <==> Has(s.tags, x) && !Below(s.tags, x, name))
            && |t.files| == |s.files|
            && (forall k :: 0 <= k < |s.files| ==> t.files[k] == s.files[k].(tags := Kept(s.files[k].tags, gone)))
            && FilesTagged(t)
  {
    var t, gone := Apply(s, DeleteTag(name)), Subtree(s.tags, name);
    DeleteKeepsForest(s.tags, name);
    NamesAreHeld(s.tags);
    forall k | 0 <= k < |s.files|
      ensures t.files[k] == s.files[k].(tags := Kept(s.files[k].tags, gone)) && FileTagged(t.tags, t.files[k]) {
      var f := s.files[k];
      assert FileTagged(s.tags, f);
      forall x ensures multiset(f.tags)[x] <= 1 { DistinctCounts(f.tags, x); }
      DeleteCleansFileExactlyWhen(s.tags, f.tags, gone);
      KeptMembers(f.tags, gone);
      forall x | x in Kept(f.tags, gone) ensures Has(t.tags, x) { FoundInWithout(s.tags, gone, x); }
    }
  }

  lemma {:induction false} WithoutIsTheRest(tags: Tags, gone: set<string>)
    ensures Sublists.IsRest(tags, Without(tags, gone), (t: TagNode) => t.name !in gone)
  {
    var keep := (t: TagNode) => t.name !in gone;
    if tags == [] {
      Sublists.RestOfNothing(keep);
    } else {
      WithoutIsTheRest(tags[1..], gone);
      Sublists.RestBehindFirst(tags[0], tags[1..], Without(tags[1..], gone), keep);
      assert [tags[0]] + tags[1..] == tags;
    }
  }

  lemma {:induction false} KeptIsTheRest(s: seq<string>, gone: set<string>)
    ensures Sublists.IsRest(s, Kept(s, gone), (x: string) => x !in gone)
  {
    var keep := (x: string) => x !in gone;
    if s == [] {
      Sublists.RestOfNothing(keep);
    } else {
      KeptIsTheRest(s[1..], gone);
      Sublists.RestBehindFirst(s[0], s[1..], Kept(s[1..], gone), keep);
      assert [s[0]] + s[1..] == s;
    }
  }

  /** The subtree is gone from the vector, and from every file whose tags were
      defined and not repeated; all else is there in its order. */
  ghost predicate SubtreeGone(s: State, gone: set<string>, tags: Tags, files: seq<TaggedFile>) {
    && Sublists.IsRest(s.tags, tags, (t: TagNode) => t.name !in gone)
    && |files| == |s.files|
    && forall k :: 0 <= k < |files| ==>
         && files[k].path == s.files[k].path
         && (FileTagged(s.tags, s.files[k]) ==>
               Sublists.IsRest(s.files[k].tags, files[k].tags, (x: string) => x !in gone))
  }

  lemma DeletedIsGone(s: State, name: string)
    requires Forest(s.tags) && Refusal(s, Op.DeleteTag(name)).None?
    ensures var t := Apply(s, Op.DeleteTag(name)); SubtreeGone(s, Subtree(s.tags, name), t.tags, t.files)
    ensures forall x :: x in Subtree(s.tags, name) <==> IsTag(s.tags, x) && Below(s.tags, x, name)
  {
    var t, gone := Apply(s, Op.DeleteTag(name)), Subtree(s.tags, name);
    WithoutIsTheRest(s.tags, gone);
    NamesAreHeld(s.tags);
    forall k | 0 <= k < |s.files| && FileTagged(s.tags, s.files[k])
      ensures Sublists.IsRest(s.files[k].tags, t.files[k].tags, (x: string) => x !in gone) {
      var f := s.files[k];
      forall x ensures multiset(f.tags)[x] <= 1 { DistinctCounts(f.tags, x); }
      DeleteCleansFileExactlyWhen(s.tags, f.tags, gone);
      KeptIsTheRest(f.tags, gone);
    }
  }

  lemma ApplyKeepsFilesTagged(s: State, op: Op)
    requires Forest(s.tags) && FilesTagged(s) && Careful(op)
    ensures FilesTagged(Apply(s, op))
  {
    if Refusal(s, op).None? {
      match op
      case CreateTag(name, parent) => CreateKeepsForest(s.tags, name, parent);
      case CreateTagPath(path) => PathCreatedIsThere(s.tags, Components(path));
      case MoveTag(name, parent) => MoveKeepsForest(s.tags, name, parent);
      case DeleteTag(name) => DeleteTagCleansEverything(s, name);
      case TagFile(file, name) => assert FileTagged(s.tags, s.files[FindFile(s.files, file)]);
      case UntagFile(file, name) =>
        assert FileTagged(s.tags, s.files[FindFile(s.files, file)]);
        EraseFirstMembers(TagsOf(s.files, file), name);
      case UpdateFileTags(file, names) =>
    }
  }

  /** Over every run whose UpdateFileTags calls list no tag twice, every file's
      tags stay defined and duplicate-free, so every DeleteTag cleans up fully. */
  lemma {:induction false} FilesTaggedOverRuns(s: State, ops: seq<Op>)
    requires Forest(s.tags) && FilesTagged(s) && forall op :: op in ops ==> Careful(op)
    ensures FilesTagged(Run(s, ops))
    decreases |ops|
  {
    if ops != [] {
      ApplyKeepsForest(s, ops[0]);
      ApplyKeepsFilesTagged(s, ops[0]);
      FilesTaggedOverRuns(Apply(s, ops[0]), ops[1..]);
    }
  }

  // ---- The worklist ----

  /** How far DeleteTag's worklist has got: `found` are the tags to delete,
      `todo` those whose children have not been looked up. */
  ghost predicate Worklist(tags: Tags, name: string, found: seq<string>, todo: seq<string>) {
    && Distinct(found) && Distinct(todo) && name in found
    && (forall x :: x in todo ==> x in found)
    && (forall x :: x in found ==> Has(tags, x) && Below(tags, x, name))
    && (forall x :: x in found && x != name ==> Parent(tags, x) in found && Parent(tags, x) !in todo)
    && (forall t :: t in tags && t.parent in found && t.parent !in todo ==> t.name in found)
  }

  /** The same while the children of `current` are being looked up, up to index i. */
  ghost predicate Scanning(tags: Tags, name: string, found: seq<string>, todo: seq<string>, current: string, i: nat) {
    && i <= |tags|
    && Distinct(found) && Distinct(todo) && name in found
    && current in found && current !in todo
    && (forall x :: x in todo ==> x in found)
    && (forall x :: x in found ==> Has(tags, x) && Below(tags, x, name))
    && (forall x :: x in found && x != name ==> Parent(tags, x) in found && Parent(tags, x) !in todo)
    && (forall t :: t in tags && t.parent in found && t.parent !in todo && t.parent != current ==> t.name in found)
    && (forall j :: 0 <= j < |tags| && tags[j].parent == current ==> (j < i <==> tags[j].name in found))
  }

  lemma StartScan(tags: Tags, name: string, found: seq<string>, todo: seq<string>, current: string)
    requires Forest(tags) && Worklist(tags, name, found, todo + [current])
    ensures Scanning(tags, name, found, todo, current, 0)
  {
    PrefixDistinct(todo, current);
    var all := todo + [current];
    assert current in all && forall x :: x in all <==> x in todo || x == current;
    forall j | 0 <= j < |tags| && tags[j].parent == current ensures tags[j].name !in found {
      assert tags[j] in tags;
      assert FindTag(tags, tags[j].name) == j;
      ForestHasNoCycle(tags, tags[j].name);
      assert tags[j].name != name;
    }
  }

  lemma ScanOne(tags: Tags, name: string, found: seq<string>, todo: seq<string>, current: string, i: nat)
    requires Forest(tags) && Scanning(tags, name, found, todo, current, i) && i < |tags|
    ensures if tags[i].parent == current
            then Scanning(tags, name, found + [tags[i].name], todo + [tags[i].name], current, i + 1)
            else Scanning(tags, name, found, todo, current, i + 1)
  {
    if tags[i].parent == current {
      ScanFinds(tags, name, found, todo, current, i);
    }
  }

  lemma ScanFinds(tags: Tags, name: string, found: seq<string>, todo: seq<string>, current: string, i: nat)
    requires Forest(tags) && Scanning(tags, name, found, todo, current, i) && i < |tags| && tags[i].parent == current
    ensures Scanning(tags, name, found + [tags[i].name], todo + [tags[i].name], current, i + 1)
  {
    var child := tags[i].name;
    assert tags[i] in tags && FindTag(tags, child) == i;
    BelowByParent(tags, child, name);
    ChildIsNew(tags, found, current, child);
    ParentsFound(tags, name, found, todo, current, child);
    ChildrenFound(tags, found, todo, current, i);
  }

  lemma ParentsFound(tags: Tags, name: string, found: seq<string>, todo: seq<string>, current: string, child: string)
    requires Forest(tags) && Has(tags, child) && Parent(tags, child) == current && child !in found
    requires current in found && current !in todo
    requires forall x :: x in found && x != name ==> Parent(tags, x) in found && Parent(tags, x) !in todo
    ensures var found', todo' := found + [child], todo + [child];
            forall x :: x in found' && x != name ==> Parent(tags, x) in found' && Parent(tags, x) !in todo'
  {
    var found', todo' := found + [child], todo + [child];
    forall x | x in found' && x != name ensures Parent(tags, x) in found' && Parent(tags, x) !in todo' {
      NotParentOf(tags, name, found, current, child, x);
    }
  }

  lemma ChildrenFound(tags: Tags, found: seq<string>, todo: seq<string>, current: string, i: nat)
    requires UniqueNames(tags) && i < |tags| && tags[i].parent == current
    requires forall t :: t in tags && t.parent in found && t.parent !in todo && t.parent != current ==> t.name in found
    requires forall j :: 0 <= j < |tags| && tags[j].parent == current ==> (j < i <==> tags[j].name in found)
    ensures var found', todo' := found + [tags[i].name], todo + [tags[i].name];
            && (forall t :: t in tags && t.parent in found' && t.parent !in todo' && t.parent != current ==>
                  t.name in found')
            && (forall j :: 0 <= j < |tags| && tags[j].parent == current ==> (j < i + 1 <==> tags[j].name in found'))
  {
  }

  lemma ChildIsNew(tags: Tags, found: seq<string>, current: string, child: string)
    requires Forest(tags) && Has(tags, child) && Parent(tags, child) == current && current in found && child !in found
    ensures child != current
  {
  }

  /** A tag just found is the parent of none found before. */
  lemma NotParentOf(tags: Tags, name: string, found: seq<string>, current: string, child: string, x: string)
    requires Forest(tags) && Has(tags, child) && Parent(tags, child) == current && child !in found
    requires forall y :: y in found && y != name ==> Parent(tags, y) in found
    requires x in found + [child] && x != name
    ensures Parent(tags, x) != child
  {
    if x == child {
      ForestHasNoCycle(tags, child);
      ChildIsBelow(tags, current);
    }
  }

  lemma WorklistFitsTags(tags: Tags, found: seq<string>)
    requires Distinct(found) && forall x :: x in found ==> Has(tags, x)
    ensures |found| <= |tags|
  {
    SetSizeTellsDuplicates(found);
    NamesAreHeld(tags);
    var names := seq(|tags|, k requires 0 <= k < |tags| => tags[k].name);
    SetSizeTellsDuplicates(names);
    forall x | x in found ensures x in names { assert names[FindTag(tags, x)] == x; }
    SubsetIsNotLarger(IdSet(found), IdSet(names));
  }

  /** An exhausted worklist holds the whole subtree and nothing else. */
  lemma WorklistDone(tags: Tags, name: string, found: seq<string>)
    requires Forest(tags) && Worklist(tags, name, found, [])
    ensures IdSet(found) == Subtree(tags, name)
  {
    NamesAreHeld(tags);
    ForestHasNoEmptyName(tags);
    forall y | Has(tags, y) && Parent(tags, y) in found ensures y in found { assert tags[FindTag(tags, y)] in tags; }
    forall y ensures Parent(tags, y) == "" || Has(tags, Parent(tags, y)) { ParentIsDefined(tags, y); }
    forall x | x in Subtree(tags, name) ensures x in found {
      assert x in Names(tags);
      var k: nat :| Up(tags, x, k) == name;
      DescendantIsFound(tags, name, found, x, k);
    }
    forall x | x in found ensures x in Subtree(tags, name) { assert tags[FindTag(tags, x)] in tags; }
  }

  lemma {:induction false} DescendantIsFound(tags: Tags, name: string, found: seq<string>, x: string, k: nat)
    requires name in found && name != "" && Parent(tags, "") == ""
    requires forall y :: Has(tags, y) && Parent(tags, y) in found ==> y in found
    requires forall y :: Parent(tags, y) == "" || Has(tags, Parent(tags, y))
    requires Up(tags, x, k) == name && (x == "" || Has(tags, x))
    ensures x in found
    decreases k
  {
    if k > 0 { DescendantIsFound(tags, name, found, Parent(tags, x), k - 1); }
    if x == "" { NothingAboveRoot(tags, k); }
  }

  method CollectSubtree(tags: Tags, name: string) returns (found: seq<string>)
    requires Forest(tags) && Has(tags, name)
    ensures Distinct(found) && IdSet(found) == Subtree(tags, name)
  {
    found := [name];
    var todo := [name];
    ChildIsBelow(tags, name);
    while todo != []
      invariant Worklist(tags, name, found, todo)
      invariant |found| <= |tags|
      decreases |tags| - |found|, |todo|
    {
      ghost var before := |found|;
      var current := todo[|todo| - 1];
      assert todo == todo[..|todo| - 1] + [current];
      todo := todo[..|todo| - 1];
      StartScan(tags, name, found, todo, current);
      ghost var waiting := |todo|;
      for i := 0 to |tags|
        invariant Scanning(tags, name, found, todo, current, i)
        invariant |found| - before == |todo| - waiting >= 0
      {
        ScanOne(tags, name, found, todo, current, i);
        if tags[i].parent == current {
          found := found + [tags[i].name];
          todo := todo + [tags[i].name];
        }
      }
      WorklistFitsTags(tags, found);
    }
    WorklistDone(tags, name, found);
  }

  // ---- The methods ----

  lemma {:induction false} WithoutNothing(tags: Tags)
    ensures Without(tags, {}) == tags
  {
    if tags != [] { WithoutNothing(tags[1..]); }
  }

  /** Erasing the first tag of a name, where names are unique. */
  lemma {:induction false} ErasedTag(tags: Tags, x: string)
    requires UniqueNames(tags)
    ensures var k := FindTag(tags, x);
            Without(tags, {x}) == if k == -1 then tags else tags[..k] + tags[k + 1..]
  {
    if tags != [] {
      var rest := tags[1..];
      ErasedTag(rest, x);
      if tags[0].name == x {
        assert !Has(rest, x);
        assert tags[..0] + tags[1..] == rest;
      } else {
        var k := FindTag(rest, x);
        if k != -1 { assert tags[..k + 1] + tags[k + 2..] == [tags[0]] + (rest[..k] + rest[k + 1..]); }
      }
    }
  }

  lemma {:induction false} WithoutBoth(tags: Tags, a: set<string>, b: set<string>)
    ensures Without(Without(tags, a), b) == Without(tags, a + b)
  {
    if tags != [] {
      WithoutBoth(tags[1..], a, b);
      var rest := Without(tags[1..], a);
      assert ([tags[0]] + rest)[1..] == rest;
      assert [] + rest == rest;
    }
  }

  lemma OneMore(ids: seq<string>, j: nat)
    requires j < |ids|
    ensures IdSet(ids[..0]) == {} && ids[..|ids|] == ids
    ensures IdSet(ids[..j + 1]) == IdSet(ids[..j]) + {ids[j]}
    ensures Distinct(ids) ==> ids[j] !in IdSet(ids[..j])
  {
    assert ids[..j + 1] == ids[..j] + [ids[j]];
  }

  lemma PathStep(tags: Tags, path: seq<string>, i: nat)
    requires Forest(tags) && "" !in path && i < |path|
    ensures var before := PathCreated(tags, path[..i]);
            var after := Created(before, path[i], Before(path, i));
            && Forest(before) && (i > 0 ==> Has(before, path[i - 1]))
            && PathCreated(tags, path[..i + 1]) == if after.Ok? then after.value else before
  {
    assert path[..i + 1][..i] == path[..i];
    PathCreatedIsThere(tags, path[..i]);
    assert i > 0 ==> path[i - 1] in path[..i];
  }

  predicate UniquePaths(files: seq<TaggedFile>) {
    forall i, j :: 0 <= i < j < |files| ==> files[i].path != files[j].path
  }

  /** An operation is refused without a trace, or it does all its work in memory,
      whether or not the result reaches the disk. */
  ghost predicate Did(s: State, op: Op, t: State, r: Result<()>) {
    match Refusal(s, op)
    case Some(e) => t == s && r == Err(e)
    case None => t == Apply(s, op) && (r.Ok? || r == Err(IoError))
  }

  /** The first n components of the path are there; all of them without an error. */
  ghost predicate PartOfPath(before: Tags, path: seq<string>, n: nat, after: Tags, r: Result<()>)
    requires n <= |path|
  {
    after == PathCreated(before, path[..n]) && (r == Err(IoError) || (r == Ok(()) && n == |path|))
  }

  // ---- What the operations come to ----

  /** The operation was not refused. */
  predicate Accepted(r: Result<()>) { r.Ok? || r == Err(IoError) }

  ghost predicate IsTag(tags: Tags, name: string) { exists t :: t in tags && t.name == name }

  lemma HasIsTag(tags: Tags, name: string)
    ensures Has(tags, name) <==> IsTag(tags, name)
  {
    if Has(tags, name) { assert tags[FindTag(tags, name)] in tags; }
  }

  /** The first file of the path has these tags now; nothing else has changed. */
  ghost predicate Retagged(before: seq<TaggedFile>, at: nat, tags: seq<string>, after: seq<TaggedFile>) {
    && at < |before| == |after| && after[at] == TaggedFile(before[at].path, tags)
    && forall k :: 0 <= k < |before| && k != at ==> after[k] == before[k]
  }

  ghost predicate FileAt(files: seq<TaggedFile>, at: nat, file: string) {
    at < |files| && files[at].path == file
  }

  ghost predicate HasFile(files: seq<TaggedFile>, file: string) { exists at: nat :: FileAt(files, at, file) }

  lemma FileIsFound(files: seq<TaggedFile>, file: string)
    requires UniquePaths(files)
    ensures forall at: nat :: FileAt(files, at, file) <==> at == FindFile(files, file)
    ensures HasFile(files, file) <==> FindFile(files, file) != -1
  {
    if FindFile(files, file) != -1 { assert FileAt(files, FindFile(files, file), file); }
  }

  /** The file has lost the first occurrence of the tag, and that alone. */
  ghost predicate Untagged(before: seq<TaggedFile>, file: string, name: string, after: seq<TaggedFile>) {
    exists at: nat, left :: FileAt(before, at, file) && Retagged(before, at, left, after)
                            && FirstErased(before[at].tags, name, left)
                            && multiset(left) == multiset(before[at].tags) - multiset{name}
  }

  lemma FirstGoes(before: seq<TaggedFile>, at: nat, name: string, after: seq<TaggedFile>)
    requires at < |before| && name in before[at].tags
    requires after == before[at := before[at].(tags := EraseFirst(before[at].tags, name))]
    ensures Untagged(before, before[at].path, name, after)
  {
    var left := EraseFirst(before[at].tags, name);
    EraseFirstErases(before[at].tags, name);
    assert FileAt(before, at, before[at].path) && Retagged(before, at, left, after);
  }

  /** One tag has another parent now; nothing else has changed. */
  ghost predicate HungUnder(before: Tags, at: nat, name: string, parent: string, after: Tags) {
    && at < |before| == |after| && before[at].name == name
    && after[at] == TagNode(name, parent, before[at].metadata)
    && forall k :: 0 <= k < |before| && k != at ==> after[k] == before[k]
  }

  class Notebook {
    const readOnly: bool
    var tags: Tags
    var files: seq<TaggedFile>

    function Current(): State reads this { State(readOnly, tags, files) }

    ghost predicate Valid() reads this { Forest(tags) && UniquePaths(files) }

    // Whether a config file can be written is up to the outside world.
    method Save() returns (r: Result<()>)
      ensures r.Ok? || r == Err(IoError)
    {
      var saved: bool := *;
      r := if saved then Ok(()) else Err(IoError);
    }

    method CreateTag(name: string, parent: string) returns (r: Result<()>)
      requires Valid()
      modifies this`tags
      ensures Valid() && Did(old(Current()), Op.CreateTag(name, parent), Current(), r)
      ensures Accepted(r) <==> !readOnly && name != "" && !IsTag(old(tags), name)
                               && (parent == "" || IsTag(old(tags), parent))
      ensures tags == if Accepted(r) then old(tags) + [TagNode(name, parent, "{}")] else old(tags)
      ensures !Accepted(r) ==> r == Err(if readOnly then ReadOnly else if name == "" then InvalidParam
                                        else if IsTag(old(tags), name) then AlreadyExists else NotFound)
    {
      ApplyKeepsForest(Current(), Op.CreateTag(name, parent));
      HasIsTag(tags, name);
      HasIsTag(tags, parent);
      if readOnly { return Err(ReadOnly); }
      if name == "" { return Err(InvalidParam); }
      if FindTag(tags, name) != -1 { return Err(AlreadyExists); }
      if parent != "" && FindTag(tags, parent) == -1 { return Err(NotFound); }
      tags := tags + [TagNode(name, parent, "{}")];
      r := Save();
    }

    /** A write that fails on the way leaves a prefix of the path's tags. */
    method CreateTagPath(path: string) returns (r: Result<()>)
      requires Valid()
      modifies this`tags
      ensures Valid()
      ensures Refusal(old(Current()), Op.CreateTagPath(path)).Some? ==>
                tags == old(tags) && r == Err(Refusal(old(Current()), Op.CreateTagPath(path)).value)
      ensures Refusal(old(Current()), Op.CreateTagPath(path)).None? ==>
                exists n :: 0 < n <= |Components(path)| && PartOfPath(old(tags), Components(path), n, tags, r)
    {
      if readOnly { return Err(ReadOnly); }
      var components := Components(path);
      if components == [] { return Err(InvalidParam); }
      ghost var n;
      r, n := CreateAlong(components);
    }

    method CreateAlong(components: seq<string>) returns (r: Result<()>, ghost n: nat)
      requires Valid() && !readOnly && components != [] && "" !in components
      modifies this`tags
      ensures Valid() && 0 < n <= |components| && PartOfPath(old(tags), components, n, tags, r)
    {
      n := 0;
      for i := 0 to |components|
        invariant Forest(tags) && tags == PathCreated(old(tags), components[..i]) && n == i
      {
        r := CreateNext(components, i, old(tags));
        n := i + 1;
        if r.Err? && r != Err(AlreadyExists) { return; }
      }
      r := Ok(());
    }

    method CreateNext(components: seq<string>, i: nat, ghost start: Tags) returns (r: Result<()>)
      requires Forest(start) && !readOnly && "" !in components && i < |components|
      requires Valid() && tags == PathCreated(start, components[..i])
      modifies this`tags
      ensures Forest(tags) && tags == PathCreated(start, components[..i + 1]) && (r.Ok? || r == Err(IoError))
    {
      PathStep(start, components, i);
      ghost var s := Current();
      r := Ok(());
      if FindTag(tags, components[i]) == -1 {
        var parent := if i > 0 then components[i - 1] else "";
        r := CreateTag(components[i], parent);
        assert Refusal(s, Op.CreateTag(components[i], parent)).None?;
      }
    }

    method MoveTag(name: string, parent: string) returns (r: Result<()>)
      requires Valid()
      modifies this`tags
      ensures Valid() && Did(old(Current()), Op.MoveTag(name, parent), Current(), r)
      ensures Accepted(r) <==> !readOnly && name != "" && IsTag(old(tags), name)
                               && (parent == "" || IsTag(old(tags), parent)) && !Below(old(tags), parent, name)
      ensures Accepted(r) ==> exists at: nat :: HungUnder(old(tags), at, name, parent, tags)
      ensures !Accepted(r) ==> tags == old(tags)
      ensures !Accepted(r) ==> r == Err(if readOnly then ReadOnly
                                        else if name == "" || parent == name then InvalidParam
                                        else if !IsTag(old(tags), name) then NotFound
                                        else if parent != "" && !IsTag(old(tags), parent) then NotFound
                                        else InvalidParam)
    {
      ApplyKeepsForest(Current(), Op.MoveTag(name, parent));
      HasIsTag(tags, name);
      HasIsTag(tags, parent);
      if readOnly { return Err(ReadOnly); }
      if name == "" { return Err(InvalidParam); }
      assert Up(tags, parent, 0) == parent;
      if parent == name { return Err(InvalidParam); }
      var at := FindTag(tags, name);
      if at == -1 { return Err(NotFound); }
      if parent != "" && FindTag(tags, parent) == -1 { return Err(NotFound); }
      var underItself := HasAncestor(parent, name);
      if underItself { return Err(InvalidParam); }
      tags := tags[at := tags[at].(parent := parent)];
      assert HungUnder(old(tags), at, name, parent, tags);
      r := Save();
    }

    /** The walk up from `from`; it ends because chains do. */
    method HasAncestor(from: string, name: string) returns (found: bool)
      requires Valid() && name != "" && (from == "" || Has(tags, from))
      ensures found <==> Below(tags, from, name)
    {
      ForestHasNoEmptyName(tags);
      HasEndsAtRoot(tags, from);
      ghost var left: nat :| Up(tags, from, left) == "";
      var current := from;
      while current != ""
        invariant Below(tags, from, name) <==> Below(tags, current, name)
        invariant Up(tags, current, left) == "" && (current == "" || Has(tags, current))
        decreases left
      {
        BelowByParent(tags, current, name);
        if current == name { return true; }
        ParentIsDefined(tags, current);
        var k := FindTag(tags, current);
        if k == -1 { break; }
        current, left := tags[k].parent, left - 1;
      }
      forall k: nat ensures Up(tags, "", k) == "" { NothingAboveRoot(tags, k); }
      found := false;
    }

    method UpdateFileTags(file: string, names: seq<string>) returns (r: Result<()>)
      requires Valid()
      modifies this`files
      ensures Valid() && Did(old(Current()), Op.UpdateFileTags(file, names), Current(), r)
      ensures Accepted(r) <==> !readOnly && HasFile(old(files), file)
                               && forall x :: x in names ==> IsTag(tags, x)
      ensures Accepted(r) ==> exists at: nat :: FileAt(old(files), at, file) && Retagged(old(files), at, names, files)
      ensures !Accepted(r) ==> files == old(files)
      ensures !Accepted(r) ==> r == Err(if readOnly then ReadOnly
                                        else if !HasFile(old(files), file) then NotFound
                                        else InvalidParam)
    {
      if readOnly { return Err(ReadOnly); }
      FileIsFound(files, file);
      var at := FindFile(files, file);
      if at == -1 { return Err(NotFound); }
      forall x { HasIsTag(tags, x); }
      for i := 0 to |names|
        invariant forall j :: 0 <= j < i ==> Has(tags, names[j])
      {
        assert names[i] in names;
        if FindTag(tags, names[i]) == -1 { return Err(InvalidParam); }
      }
      files := files[at := files[at].(tags := names)];
      assert Retagged(old(files), at, names, files);
      r := Save();
    }

    method TagFile(file: string, name: string) returns (r: Result<()>)
      requires Valid()
      modifies this`files
      ensures Valid() && Did(old(Current()), Op.TagFile(file, name), Current(), r)
      ensures Accepted(r) <==> !readOnly && IsTag(tags, name)
                               && exists at: nat :: FileAt(old(files), at, file) && name !in old(files)[at].tags
      ensures Accepted(r) ==> exists at: nat :: FileAt(old(files), at, file)
                                           && Retagged(old(files), at, old(files)[at].tags + [name], files)
      ensures !Accepted(r) ==> files == old(files)
      ensures !Accepted(r) ==> r == Err(if readOnly then ReadOnly
                                        else if !HasFile(old(files), file) then NotFound
                                        else if !IsTag(tags, name) then InvalidParam else AlreadyExists)
    {
      if readOnly { return Err(ReadOnly); }
      FileIsFound(files, file);
      var at := FindFile(files, file);
      if at == -1 { return Err(NotFound); }
      HasIsTag(tags, name);
      if FindTag(tags, name) == -1 { return Err(InvalidParam); }
      if name in files[at].tags { return Err(AlreadyExists); }
      files := files[at := files[at].(tags := files[at].tags + [name])];
      assert Retagged(old(files), at, old(files)[at].tags + [name], files);
      r := Save();
    }

    method UntagFile(file: string, name: string) returns (r: Result<()>)
      requires Valid()
      modifies this`files
      ensures Valid() && Did(old(Current()), Op.UntagFile(file, name), Current(), r)
      ensures Accepted(r) <==> !readOnly
                               && exists at: nat :: FileAt(old(files), at, file) && name in old(files)[at].tags
      ensures Accepted(r) ==> Untagged(old(files), file, name, files)
      ensures !Accepted(r) ==> files == old(files) && r == Err(if readOnly then ReadOnly else NotFound)
    {
      if readOnly { return Err(ReadOnly); }
      FileIsFound(files, file);
      var at := FindFile(files, file);
      if at == -1 || name !in files[at].tags { return Err(NotFound); }
      var left := EraseFirst(files[at].tags, name);
      files := files[at := files[at].(tags := left)];
      FirstGoes(old(files), at, name, files);
      r := Save();
    }

    method DeleteTag(name: string) returns (r: Result<()>)
      requires Valid()
      modifies this
      ensures Valid() && Did(old(Current()), Op.DeleteTag(name), Current(), r)
      ensures Accepted(r) <==> !readOnly && name != "" && IsTag(old(tags), name)
      ensures Accepted(r) ==> exists gone :: SubtreeGone(old(Current()), gone, tags, files)
                                && forall x :: x in gone <==> IsTag(old(tags), x) && Below(old(tags), x, name)
      ensures !Accepted(r) ==> Current() == old(Current())
      ensures !Accepted(r) ==> r == Err(if readOnly then ReadOnly else if name == "" then InvalidParam else NotFound)
    {
      ApplyKeepsForest(Current(), Op.DeleteTag(name));
      HasIsTag(tags, name);
      if Refusal(Current(), Op.DeleteTag(name)).None? { DeletedIsGone(Current(), name); }
      if readOnly { return Err(ReadOnly); }
      if name == "" { return Err(InvalidParam); }
      if FindTag(tags, name) == -1 { return Err(NotFound); }
      var found := CollectSubtree(tags, name);
      ghost var gone := Subtree(tags, name);
      CleanFiles(found, gone);
      EraseTags(found, gone);
      r := Save();
    }

    /** The tags are still defined while the files are cleaned. */
    method CleanFiles(found: seq<string>, ghost gone: set<string>)
      requires Valid() && !readOnly && Distinct(found) && IdSet(found) == gone
      modifies this`files
      ensures Valid() && files == Cleaned(tags, old(files), gone)
    {
      for i := 0 to |files|
        invariant Valid() && |files| == |old(files)|
        invariant forall k :: 0 <= k < i ==>
                    files[k] == old(files)[k].(tags := AfterDelete(tags, old(files)[k].tags, gone))
        invariant forall k :: i <= k < |files| ==> files[k] == old(files)[k]
      {
        CleanFile(i, found, gone);
      }
    }

    method CleanFile(i: nat, found: seq<string>, ghost gone: set<string>)
      requires Valid() && !readOnly && Distinct(found) && IdSet(found) == gone && i < |files|
      modifies this`files
      ensures Valid() && files == old(files)[i := old(files)[i].(tags := AfterDelete(tags, old(files)[i].tags, gone))]
    {
      var shorter, modified := Shorten(files[i].tags, found, gone);
      assert FindFile(files, files[i].path) == i;
      if modified { var _ := UpdateFileTags(files[i].path, shorter); }
    }

    method EraseTags(found: seq<string>, ghost gone: set<string>)
      requires Forest(tags) && IdSet(found) == gone
      modifies this`tags
      ensures tags == Without(old(tags), gone)
    {
      WithoutNothing(tags);
      assert IdSet(found[..0]) == {};
      for j := 0 to |found|
        invariant UniqueNames(tags) && tags == Without(old(tags), IdSet(found[..j]))
      {
        OneMore(found, j);
        WithoutBoth(old(tags), IdSet(found[..j]), {found[j]});
        WithoutIsUnique(old(tags), IdSet(found[..j + 1]));
        EraseTag(found[j]);
      }
      assert found[..|found|] == found;
    }

    method EraseTag(name: string)
      requires UniqueNames(tags)
      modifies this`tags
      ensures tags == Without(old(tags), {name})
    {
      ErasedTag(tags, name);
      var at := FindTag(tags, name);
      if at != -1 { tags := tags[..at] + tags[at + 1..]; }
    }
  }

  method Shorten(s: seq<string>, found: seq<string>, ghost gone: set<string>)
    returns (shorter: seq<string>, modified: bool)
    requires Distinct(found) && IdSet(found) == gone
    ensures shorter == ErasedOnce(s, gone) && (modified <==> shorter != s)
  {
    shorter, modified := s, false;
    ErasedNothing(s);
    assert IdSet(found[..0]) == {};
    for j := 0 to |found|
      invariant shorter == ErasedOnce(s, IdSet(found[..j]))
      invariant (modified ==> |shorter| < |s|) && (!modified ==> shorter == s)
    {
      OneMore(found, j);
      EraseOneMore(s, IdSet(found[..j]), found[j]);
      EraseFirstMembers(shorter, found[j]);
      if found[j] in shorter { shorter, modified := EraseFirst(shorter, found[j]), true; }
    }
    assert found[..|found|] == found;
  }
}
