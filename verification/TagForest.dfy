/** Tags as a flat vector with parent names (src/core/notebook.cpp): what a
    well-formed vector is, and what the tag operations make of it. */
module TagForest {
  import opened Records

  datatype TagNode = TagNode(name: string, parent: string, metadata: string)

  type Tags = seq<TagNode>

  /** Index of the first tag of that name, or -1. */
  function FindTag(tags: Tags, name: string): (k: int)
    ensures k == -1 || (0 <= k < |tags| && tags[k].name == name)
    ensures forall j :: 0 <= j < |tags| && (k == -1 || j < k) ==> tags[j].name != name
  {
    FindFrom(tags, name, 0)
  }

  function FindFrom(tags: Tags, name: string, from: nat): (k: int)
    requires from <= |tags|
    ensures k == -1 || (from <= k < |tags| && tags[k].name == name)
    ensures forall j :: from <= j < |tags| && (k == -1 || j < k) ==> tags[j].name != name
    decreases |tags| - from
  {
    if from == |tags| then -1
    else if tags[from].name == name then from
    else FindFrom(tags, name, from + 1)
  }

  predicate Has(tags: Tags, name: string) { FindTag(tags, name) != -1 }

  function Names(tags: Tags): set<string> { set t | t in tags :: t.name }

  function Parent(tags: Tags, name: string): string {
    var k := FindTag(tags, name);
    if k == -1 then "" else tags[k].parent
  }

  /** The k-th ancestor; "" is above every root. */
  function Up(tags: Tags, name: string, k: nat): string
    decreases k
  {
    if k == 0 then name else Up(tags, Parent(tags, name), k - 1)
  }

  ghost predicate EndsAtRoot(tags: Tags, name: string) { exists k: nat :: Up(tags, name, k) == "" }

  /** `x` is `a` or has `a` among its ancestors. */
  ghost predicate Below(tags: Tags, x: string, a: string) { exists k: nat :: Up(tags, x, k) == a }

  predicate UniqueNames(tags: Tags) {
    forall i, j :: 0 <= i < j < |tags| ==> tags[i].name != tags[j].name
  }

  ghost predicate Forest(tags: Tags) {
    && UniqueNames(tags)
    && (forall t :: t in tags ==> t.name != "")
    && (forall t :: t in tags ==> t.parent == "" || Has(tags, t.parent))
    && (forall t :: t in tags ==> EndsAtRoot(tags, t.name))
  }

  // ---- The operations on the vector ----

  function Created(tags: Tags, name: string, parent: string): Result<Tags> {
    if name == "" then Err(InvalidParam)
    else if Has(tags, name) then Err(AlreadyExists)
    else if parent != "" && !Has(tags, parent) then Err(NotFound)
    else Ok(tags + [TagNode(name, parent, "{}")])
  }

  /** Every component that is no tag yet is created under the component before it. */
  function PathCreated(tags: Tags, path: seq<string>): Tags {
    if path == [] then tags
    else
      var before, n := PathCreated(tags, path[..|path| - 1]), |path| - 1;
      var after := Created(before, path[n], Before(path, n));
      if after.Ok? then after.value else before
  }

  ghost function Moved(tags: Tags, name: string, parent: string): Result<Tags> {
    var k := FindTag(tags, name);
    if name == "" || parent == name then Err(InvalidParam)
    else if k == -1 then Err(NotFound)
    else if parent != "" && !Has(tags, parent) then Err(NotFound)
    else if Below(tags, parent, name) then Err(InvalidParam)
    else Ok(tags[k := tags[k].(parent := parent)])
  }

  ghost function Subtree(tags: Tags, name: string): set<string> {
    set t | t in tags && Below(tags, t.name, name) :: t.name
  }

  function Without(tags: Tags, gone: set<string>): Tags {
    if tags == [] then []
    else (if tags[0].name in gone then [] else [tags[0]]) + Without(tags[1..], gone)
  }

  ghost function Deleted(tags: Tags, name: string): Result<Tags> {
    if name == "" then Err(InvalidParam)
    else if !Has(tags, name) then Err(NotFound)
    else Ok(Without(tags, Subtree(tags, name)))
  }

  // ---- Chains ----

  lemma {:induction false} UpAdds(tags: Tags, x: string, i: nat, j: nat)
    ensures Up(tags, x, i + j) == Up(tags, Up(tags, x, i), j)
    decreases i
  {
    if i > 0 { UpAdds(tags, Parent(tags, x), i - 1, j); }
  }

  lemma {:induction false} NothingAboveRoot(tags: Tags, k: nat)
    requires Parent(tags, "") == ""
    ensures Up(tags, "", k) == ""
  {
    if k > 0 { NothingAboveRoot(tags, k - 1); }
  }

  lemma ForestHasNoEmptyName(tags: Tags)
    requires Forest(tags)
    ensures !Has(tags, "") && Parent(tags, "") == ""
  {
  }

  lemma ParentIsDefined(tags: Tags, x: string)
    requires Forest(tags)
    ensures Parent(tags, x) == "" || Has(tags, Parent(tags, x))
  {
    var k := FindTag(tags, x);
    if k != -1 { assert tags[k] in tags; }
  }

  lemma HasEndsAtRoot(tags: Tags, x: string)
    requires Forest(tags) && (x == "" || Has(tags, x))
    ensures EndsAtRoot(tags, x)
  {
    if x == "" { assert Up(tags, x, 0) == ""; } else { assert tags[FindTag(tags, x)] in tags; }
  }

  lemma {:induction false} BelowIsTransitive(tags: Tags, x: string, a: string, b: string)
    requires Below(tags, x, a) && Below(tags, a, b)
    ensures Below(tags, x, b)
  {
    var i: nat :| Up(tags, x, i) == a;
    var j: nat :| Up(tags, a, j) == b;
    UpAdds(tags, x, i, j);
    assert Up(tags, x, i + j) == b;
  }

  lemma ChildIsBelow(tags: Tags, x: string)
    ensures Below(tags, x, x) && Below(tags, x, Parent(tags, x))
  {
    assert Up(tags, x, 0) == x;
    assert Up(tags, x, 1) == Parent(tags, x) by { assert Up(tags, Parent(tags, x), 0) == Parent(tags, x); }
  }

  lemma BelowByParent(tags: Tags, x: string, a: string)
    ensures Below(tags, x, a) <==> x == a || Below(tags, Parent(tags, x), a)
  {
    ChildIsBelow(tags, x);
    if Below(tags, Parent(tags, x), a) { BelowIsTransitive(tags, x, Parent(tags, x), a); }
    if Below(tags, x, a) {
      var k: nat :| Up(tags, x, k) == a;
      if k > 0 { assert Up(tags, Parent(tags, x), k - 1) == a; }
    }
  }

  lemma {:induction false} NoWayBack(tags: Tags, x: string, n: nat, k: nat)
    requires Parent(tags, "") == "" && x != "" && Up(tags, x, n) == "" && k > 0
    ensures Up(tags, x, k) != x
    decreases n
  {
    if n <= k {
      UpAdds(tags, x, n, k - n);
      NothingAboveRoot(tags, k - n);
    } else if Up(tags, x, k) == x {
      UpAdds(tags, x, k, n - k);
      NoWayBack(tags, x, n - k, k);
    }
  }

  /** In a forest no tag is below one of its children. */
  lemma ForestHasNoCycle(tags: Tags, x: string)
    requires Forest(tags) && Has(tags, x)
    ensures !Below(tags, Parent(tags, x), x)
  {
    HasEndsAtRoot(tags, x);
    var n: nat :| Up(tags, x, n) == "";
    forall k: nat ensures Up(tags, Parent(tags, x), k) != x {
      assert tags[FindTag(tags, x)] in tags;
      NoWayBack(tags, x, n, k + 1);
    }
  }

  /** Chains that stay where two vectors agree are the same in both. */
  lemma {:induction false} SameChain(t: Tags, u: Tags, keep: set<string>, x: string, k: nat)
    requires Parent(t, "") == "" && Parent(u, "") == ""
    requires forall y :: y in keep ==> Parent(u, y) == Parent(t, y) && (Parent(t, y) == "" || Parent(t, y) in keep)
    requires x == "" || x in keep
    ensures Up(u, x, k) == Up(t, x, k)
    decreases k
  {
    if k > 0 { SameChain(t, u, keep, Parent(t, x), k - 1); }
  }

  lemma SameEnd(t: Tags, u: Tags, keep: set<string>, x: string)
    requires Parent(t, "") == "" && Parent(u, "") == ""
    requires forall y :: y in keep ==> Parent(u, y) == Parent(t, y) && (Parent(t, y) == "" || Parent(t, y) in keep)
    requires (x == "" || x in keep) && EndsAtRoot(t, x)
    ensures EndsAtRoot(u, x)
  {
    var k: nat :| Up(t, x, k) == "";
    SameChain(t, u, keep, x, k);
  }

  lemma NamesAreHeld(tags: Tags)
    ensures forall x :: x in Names(tags) <==> Has(tags, x)
  {
    forall x ensures x in Names(tags) <==> Has(tags, x) {
      if Has(tags, x) { assert tags[FindTag(tags, x)] in tags; }
    }
  }

  // ---- Each operation keeps the forest ----

  lemma CreateKeepsForest(tags: Tags, name: string, parent: string)
    requires Forest(tags) && Created(tags, name, parent).Ok?
    ensures Forest(Created(tags, name, parent).value)
    ensures forall x :: Has(Created(tags, name, parent).value, x) <==> x == name || Has(tags, x)
  {
    var u := Created(tags, name, parent).value;
    forall x ensures FindTag(u, x) == if x == name then |tags| else FindTag(tags, x) {
      FoundInAppended(tags, TagNode(name, parent, "{}"), x);
    }
    CreatedEnds(tags, u, name, parent);
    forall t | t in u ensures t.name != "" && (t.parent == "" || Has(u, t.parent)) && EndsAtRoot(u, t.name) {
      assert t in tags || t == u[|tags|];
      if t in tags { assert Has(tags, t.name); }
    }
  }

  lemma CreatedEnds(tags: Tags, u: Tags, name: string, parent: string)
    requires Forest(tags) && Created(tags, name, parent) == Ok(u)
    requires forall x :: FindTag(u, x) == if x == name then |tags| else FindTag(tags, x)
    ensures forall x :: Has(u, x) ==> EndsAtRoot(u, x)
  {
    NamesAreHeld(tags);
    forall y | y in Names(tags)
      ensures Parent(u, y) == Parent(tags, y) && (Parent(tags, y) == "" || Parent(tags, y) in Names(tags))
    {
      ParentIsDefined(tags, y);
    }
    forall x | x == "" || Has(tags, x) ensures EndsAtRoot(u, x) {
      HasEndsAtRoot(tags, x);
      SameEnd(tags, u, Names(tags), x);
    }
    var k: nat :| Up(u, parent, k) == "";
    assert Up(u, name, k + 1) == "";
  }

  lemma {:induction false} FoundInAppended(tags: Tags, node: TagNode, x: string)
    ensures FindTag(tags + [node], x) ==
              if Has(tags, x) then FindTag(tags, x) else if x == node.name then |tags| else -1
  {
    if tags != [] {
      assert (tags + [node])[1..] == tags[1..] + [node];
      FoundInAppended(tags[1..], node, x);
    }
  }

  function Before(path: seq<string>, j: nat): string
    requires j < |path|
  {
    if j > 0 then path[j - 1] else ""
  }

  ghost predicate HangsAlong(t: TagNode, path: seq<string>) { exists j: nat :: HangsAt(t, path, j) }

  /** The j-th component, under the component before it. */
  ghost predicate HangsAt(t: TagNode, path: seq<string>, j: nat) {
    j < |path| && t.name == path[j] && if j == 0 then t.parent == "" else t.parent == path[j - 1]
  }

  lemma HangsAlongLonger(t: TagNode, path: seq<string>, c: string)
    requires HangsAlong(t, path)
    ensures HangsAlong(t, path + [c])
  {
    var j: nat :| HangsAt(t, path, j);
    assert HangsAt(t, path + [c], j);
  }

  /** A path's components are tags afterwards; tags that were there keep their
      place and parent, and a new one hangs under the component before it. */
  lemma {:induction false} PathCreatedIsThere(tags: Tags, path: seq<string>)
    requires Forest(tags) && "" !in path
    ensures var u := PathCreated(tags, path);
            && Forest(u) && tags <= u
            && (forall c :: c in path || Has(tags, c) ==> Has(u, c))
            && (forall i :: |tags| <= i < |u| ==> HangsAlong(u[i], path))
    decreases |path|
  {
    if path != [] {
      var n := |path| - 1;
      var front, c := path[..n], path[n];
      assert path == front + [c];
      var before := PathCreated(tags, front);
      PathCreatedIsThere(tags, front);
      var parent := Before(path, n);
      assert n > 0 ==> parent in front;
      if Created(before, c, parent).Ok? { CreateKeepsForest(before, c, parent); }
    }
    NewTagsHangAlong(tags, path);
  }

  lemma {:induction false} NewTagsHangAlong(tags: Tags, path: seq<string>)
    ensures var u := PathCreated(tags, path);
            tags <= u && forall i :: |tags| <= i < |u| ==> HangsAlong(u[i], path)
    decreases |path|
  {
    if path != [] {
      var n := |path| - 1;
      var front, c := path[..n], path[n];
      assert path == front + [c];
      var before := PathCreated(tags, front);
      NewTagsHangAlong(tags, front);
      forall i | |tags| <= i < |before| ensures HangsAlong(before[i], path) { HangsAlongLonger(before[i], front, c); }
      var after := Created(before, c, Before(path, n));
      if after.Ok? { assert HangsAt(after.value[|before|], path, n); }
    }
  }

  lemma MoveKeepsForest(tags: Tags, name: string, parent: string)
    requires Forest(tags) && Moved(tags, name, parent).Ok?
    ensures Forest(Moved(tags, name, parent).value)
    ensures forall x :: Has(Moved(tags, name, parent).value, x) <==> Has(tags, x)
  {
    var u := Moved(tags, name, parent).value;
    forall x ensures FindTag(u, x) == FindTag(tags, x) { SameNamesFindSame(tags, u, x); }
    MovedParents(tags, u, name, parent);
    forall t | t in u ensures t.name != "" && (t.parent == "" || Has(u, t.parent)) && EndsAtRoot(u, t.name) {
      var i :| 0 <= i < |u| && u[i] == t;
      assert tags[i] in tags && tags[i].name == t.name;
      MovedEnds(tags, u, name, parent, t.name);
    }
  }

  /** Only the moved tag has a new parent. */
  ghost predicate Reparented(t: Tags, u: Tags, name: string, parent: string) {
    && Forest(t) && Has(t, name) && Parent(u, name) == parent
    && (forall x :: x != name ==> Parent(u, x) == Parent(t, x))
  }

  lemma MovedParents(tags: Tags, u: Tags, name: string, parent: string)
    requires Forest(tags) && Moved(tags, name, parent) == Ok(u)
    requires forall x :: FindTag(u, x) == FindTag(tags, x)
    ensures Reparented(tags, u, name, parent)
  {
  }

  lemma MovedEnds(tags: Tags, u: Tags, name: string, parent: string, x: string)
    requires Reparented(tags, u, name, parent) && Has(tags, x)
    requires (parent == "" || Has(tags, parent)) && !Below(tags, parent, name)
    ensures EndsAtRoot(u, x)
  {
    var aside := set y | y in Names(tags) && !Below(tags, y, name);
    NamesAreHeld(tags);
    ForestHasNoEmptyName(tags);
    ChildIsBelow(tags, name);
    forall y | y in aside
      ensures Parent(u, y) == Parent(tags, y) && (Parent(tags, y) == "" || Parent(tags, y) in aside)
    {
      ParentIsDefined(tags, y);
      BelowByParent(tags, y, name);
    }
    HasEndsAtRoot(tags, parent);
    SameEnd(tags, u, aside, parent);
    var k: nat :| Up(u, parent, k) == "";
    assert Up(u, name, k + 1) == "";
    HasEndsAtRoot(tags, x);
    if Below(tags, x, name) {
      var j: nat :| Up(tags, x, j) == name;
      ReachesMoved(tags, u, name, x, j);
    } else {
      SameEnd(tags, u, aside, x);
    }
  }

  lemma {:induction false} SameNamesFindSame(t: Tags, u: Tags, x: string)
    requires |t| == |u| && forall i :: 0 <= i < |t| ==> t[i].name == u[i].name
    ensures FindTag(u, x) == FindTag(t, x)
  {
  }

  lemma {:induction false} ReachesMoved(t: Tags, u: Tags, name: string, x: string, j: nat)
    requires (forall y :: y != name ==> Parent(u, y) == Parent(t, y)) && EndsAtRoot(u, name)
    requires Up(t, x, j) == name
    ensures EndsAtRoot(u, x)
    decreases j
  {
    if x != name {
      ReachesMoved(t, u, name, Parent(t, x), j - 1);
      var k: nat :| Up(u, Parent(t, x), k) == "";
      assert Up(u, x, k + 1) == "";
    }
  }

  lemma {:induction false} WithoutMembers(tags: Tags, gone: set<string>)
    ensures forall t :: t in Without(tags, gone) <==> t in tags && t.name !in gone
  {
    if tags != [] {
      WithoutMembers(tags[1..], gone);
      assert tags == [tags[0]] + tags[1..];
    }
  }

  lemma FoundInWithout(tags: Tags, gone: set<string>, x: string)
    ensures Has(Without(tags, gone), x) <==> Has(tags, x) && x !in gone
    ensures UniqueNames(tags) && x !in gone ==> Parent(Without(tags, gone), x) == Parent(tags, x)
    ensures forall t :: t in Without(tags, gone) <==> t in tags && t.name !in gone
  {
    WithoutMembers(tags, gone);
    var u := Without(tags, gone);
    var i, j := FindTag(tags, x), FindTag(u, x);
    if i != -1 && x !in gone {
      assert tags[i] in u;
      FindsMember(u, tags[i]);
    }
    if j != -1 {
      assert u[j] in tags;
      FindsMember(tags, u[j]);
    }
  }

  lemma FindsMember(tags: Tags, t: TagNode)
    requires t in tags
    ensures FindTag(tags, t.name) != -1
  {
    var k :| 0 <= k < |tags| && tags[k] == t;
  }

  lemma {:induction false} WithoutIsUnique(tags: Tags, gone: set<string>)
    requires UniqueNames(tags)
    ensures UniqueNames(Without(tags, gone))
  {
    if tags != [] {
      WithoutIsUnique(tags[1..], gone);
      var rest := Without(tags[1..], gone);
      FoundInWithout(tags[1..], gone, "");
      forall i | 0 <= i < |rest| ensures rest[i].name != tags[0].name { assert rest[i] in tags[1..]; }
    }
  }

  /** The subtree is closed under children. */
  lemma SubtreeIsClosed(tags: Tags, name: string, x: string)
    requires Has(tags, x)
    ensures x in Subtree(tags, name) <==> x == name || Below(tags, Parent(tags, x), name)
  {
    BelowByParent(tags, x, name);
    assert tags[FindTag(tags, x)] in tags;
  }

  lemma DeleteKeepsForest(tags: Tags, name: string)
    requires Forest(tags) && Deleted(tags, name).Ok?
    ensures Forest(Deleted(tags, name).value)
    ensures forall x :: Has(Deleted(tags, name).value, x) <==> Has(tags, x) && !Below(tags, x, name)
  {
    var gone := Subtree(tags, name);
    var u := Without(tags, gone);
    WithoutIsUnique(tags, gone);
    NamesAreHeld(tags);
    forall x ensures (Has(u, x) <==> Has(tags, x) && !Below(tags, x, name)) {
      FoundInWithout(tags, gone, x);
      if Has(tags, x) { SubtreeIsClosed(tags, name, x); BelowByParent(tags, x, name); }
    }
    FoundInWithout(tags, gone, "");
    var keep := set x | x in Names(tags) && x !in gone;
    forall y | y in keep ensures Parent(u, y) == Parent(tags, y) && (Parent(tags, y) == "" || Parent(tags, y) in keep) {
      FoundInWithout(tags, gone, y);
      ParentIsDefined(tags, y);
      SubtreeIsClosed(tags, name, y);
      if Has(tags, Parent(tags, y)) {
        SubtreeIsClosed(tags, name, Parent(tags, y));
        BelowByParent(tags, Parent(tags, y), name);
      }
    }
    forall t | t in u ensures t.name != "" && (t.parent == "" || Has(u, t.parent)) && EndsAtRoot(u, t.name) {
      SameEnd(tags, u, keep, t.name);
      assert Parent(tags, t.name) == t.parent;
      FoundInWithout(tags, gone, t.parent);
    }
  }
}
