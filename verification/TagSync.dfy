/** Mirroring the tag vector in the store (src/core/notebook.cpp,
    SyncTagsToMetadataStore; tag rows as in src/db/tag_db.cpp). */
module TagSync {
  import opened Records
  import opened Collections
  import opened TagForest

  /** A row names its parent row; "" is the NULL parent. */
  datatype TagRow = TagRow(parent: string, metadata: string)

  type Rows = map<string, TagRow>

  /** CreateOrUpdateTag: a parent that has no row is written as NULL. */
  function Written(rows: Rows, t: TagNode): Rows {
    rows[t.name := TagRow(if t.parent in rows then t.parent else "", t.metadata)]
  }

  function WrittenAll(rows: Rows, order: Tags): Rows {
    if order == [] then rows else Written(WrittenAll(rows, order[..|order| - 1]), order[|order| - 1])
  }

  /** Closes a set of row names under "has its parent in the set". */
  function Hanging(rows: Rows, seen: set<string>): (r: set<string>)
    ensures seen <= r
    decreases |rows.Keys - seen|
  {
    var children := set n | n in rows && n !in seen && rows[n].parent in seen;
    if children == {} then seen
    else
      assert rows.Keys - (seen + children) < rows.Keys - seen by {
        var c :| c in children;
        assert c in rows.Keys - seen && c !in rows.Keys - (seen + children);
      }
      ProperSubsetIsSmaller(rows.Keys - (seen + children), rows.Keys - seen);
      Hanging(rows, seen + children)
  }

  /** ON DELETE CASCADE: a row takes the rows below it along. */
  function DeleteRow(rows: Rows, name: string): Rows {
    if name in rows then rows - Hanging(rows, {name}) else rows
  }

  /** The rows that say exactly what the vector says. */
  function Mirror(tags: Tags): Rows {
    map n | n in Names(tags) :: TagRow(Parent(tags, n), MetadataOf(tags, n))
  }

  function MetadataOf(tags: Tags, name: string): string {
    var k := FindTag(tags, name);
    if k == -1 then "" else tags[k].metadata
  }

  /** Every tag has its row; other rows may be left over. */
  ghost predicate Mirrored(tags: Tags, rows: Rows) {
    Names(tags) <= rows.Keys && forall n :: n in Names(tags) ==> rows[n] == Mirror(tags)[n]
  }

  /** Every tag has a row with its own parent and metadata. */
  ghost predicate EachHasItsRow(tags: Tags, rows: Rows) {
    forall t :: t in tags ==> t.name in rows && rows[t.name] == TagRow(t.parent, t.metadata)
  }

  lemma MirroredIsEachRow(tags: Tags, rows: Rows)
    requires Forest(tags) && Mirrored(tags, rows)
    ensures EachHasItsRow(tags, rows)
    ensures forall n :: n in Mirror(tags) <==> exists t :: t in tags && t.name == n
  {
    forall t | t in tags ensures t.name in rows && rows[t.name] == TagRow(t.parent, t.metadata) {
      var k :| 0 <= k < |tags| && tags[k] == t;
      assert FindTag(tags, t.name) == k;
    }
  }

  // ---- Depths ----

  /** The root is d steps up. */
  ghost predicate TrueDepth(tags: Tags, name: string, d: nat) {
    Up(tags, name, d) != "" && Up(tags, name, d + 1) == ""
  }

  type Depths = map<string, nat>

  ghost predicate TrueDepths(tags: Tags, depth: Depths) {
    forall n :: n in depth ==> Has(tags, n) && TrueDepth(tags, n, depth[n])
  }

  lemma DepthIsUnique(tags: Tags, name: string, d: nat, e: nat)
    requires Forest(tags) && TrueDepth(tags, name, d) && TrueDepth(tags, name, e)
    ensures d == e
  {
    ForestHasNoEmptyName(tags);
    if d < e {
      UpAdds(tags, name, d + 1, e - d - 1);
      NothingAboveRoot(tags, e - d - 1);
    } else if e < d {
      UpAdds(tags, name, e + 1, d - e - 1);
      NothingAboveRoot(tags, d - e - 1);
    }
  }

  lemma DepthOfChild(tags: Tags, name: string, d: nat)
    requires Forest(tags) && Has(tags, name) && Parent(tags, name) != ""
    ensures TrueDepth(tags, Parent(tags, name), d) <==> TrueDepth(tags, name, d + 1)
  {
  }

  lemma DepthOfRoot(tags: Tags, name: string)
    requires Forest(tags) && Has(tags, name) && Parent(tags, name) == ""
    ensures TrueDepth(tags, name, 0)
  {
    assert tags[FindTag(tags, name)] in tags;
    assert Up(tags, Parent(tags, name), 0) == "";
  }

  /** A depth is known wherever the parent's is, the roots' to begin with. */
  ghost predicate Fixpoint(tags: Tags, depth: Depths) {
    forall x :: Has(tags, x) && (Parent(tags, x) == "" || Parent(tags, x) in depth) ==> x in depth
  }

  lemma {:induction false} FixpointReaches(tags: Tags, names: set<string>, depth: Depths, x: string, k: nat)
    requires forall y {:trigger Parent(tags, y)} :: y in names ==>
      && (Parent(tags, y) == "" || Parent(tags, y) in names)
      && (Parent(tags, y) == "" || Parent(tags, y) in depth ==> y in depth)
    requires x in names && "" !in names && Up(tags, x, k) == ""
    ensures x in depth
    decreases k
  {
    if Parent(tags, x) != "" { FixpointReaches(tags, names, depth, Parent(tags, x), k - 1); }
  }

  /** Nothing more to learn means everything is known. */
  lemma FixpointIsComplete(tags: Tags, depth: Depths)
    requires Forest(tags) && Fixpoint(tags, depth) && TrueDepths(tags, depth)
    ensures depth.Keys == Names(tags)
  {
    NamesAreHeld(tags);
    ForestHasNoEmptyName(tags);
    forall x | x in Names(tags) ensures x in depth {
      HasEndsAtRoot(tags, x);
      var k: nat :| Up(tags, x, k) == "";
      forall y ensures Parent(tags, y) == "" || Has(tags, Parent(tags, y)) { ParentIsDefined(tags, y); }
      FixpointReaches(tags, Names(tags), depth, x, k);
    }
  }

  method ComputeDepths(tags: Tags) returns (depth: Depths)
    requires Forest(tags)
    ensures TrueDepths(tags, depth) && depth.Keys == Names(tags)
  {
    NamesAreHeld(tags);
    depth := RootDepths(tags);
    var changed := true;
    while changed
      invariant TrueDepths(tags, depth) && RootsKnown(tags, depth, |tags|)
      invariant !changed ==> Fixpoint(tags, depth)
      decreases |Names(tags) - depth.Keys|, changed
    {
      ghost var start := depth;
      depth, changed := DepthPass(tags, depth);
      if changed {
        MoreKnown(tags, start, depth);
        ProperSubsetIsSmaller(Names(tags) - depth.Keys, Names(tags) - start.Keys);
      } else {
        QuietRoundIsFixpoint(tags, depth);
      }
    }
    FixpointIsComplete(tags, depth);
  }

  ghost predicate RootsKnown(tags: Tags, depth: Depths, n: nat)
    requires n <= |tags|
  {
    forall k :: 0 <= k < n && tags[k].parent == "" ==> tags[k].name in depth
  }

  ghost predicate ChildrenKnown(tags: Tags, depth: Depths, n: nat)
    requires n <= |tags|
  {
    forall k :: 0 <= k < n && tags[k].parent != "" && tags[k].parent in depth ==> tags[k].name in depth
  }

  method RootDepths(tags: Tags) returns (depth: Depths)
    requires Forest(tags)
    ensures TrueDepths(tags, depth) && RootsKnown(tags, depth, |tags|)
  {
    depth := map[];
    for i := 0 to |tags|
      invariant TrueDepths(tags, depth) && RootsKnown(tags, depth, i)
    {
      if tags[i].parent == "" {
        AtItsIndex(tags, i);
        DepthOfRoot(tags, tags[i].name);
        depth := depth[tags[i].name := 0];
      }
    }
  }

  lemma AtItsIndex(tags: Tags, i: nat)
    requires UniqueNames(tags) && i < |tags|
    ensures FindTag(tags, tags[i].name) == i
  {
  }

  lemma LearnDepth(tags: Tags, depth: Depths, i: nat)
    requires Forest(tags) && TrueDepths(tags, depth) && i < |tags|
    requires tags[i].parent != "" && tags[i].parent in depth
    ensures TrueDepths(tags, depth[tags[i].name := depth[tags[i].parent] + 1])
  {
    AtItsIndex(tags, i);
    DepthOfChild(tags, tags[i].name, depth[tags[i].parent]);
  }

  lemma QuietRoundIsFixpoint(tags: Tags, depth: Depths)
    requires RootsKnown(tags, depth, |tags|) && ChildrenKnown(tags, depth, |tags|)
    ensures Fixpoint(tags, depth)
  {
    forall x | Has(tags, x) && (Parent(tags, x) == "" || Parent(tags, x) in depth) ensures x in depth {
      assert tags[FindTag(tags, x)].name == x;
    }
  }

  /** One round: it learns something, or there is nothing to learn. */
  method DepthPass(tags: Tags, known: Depths) returns (depth: Depths, changed: bool)
    requires Forest(tags) && TrueDepths(tags, known)
    ensures TrueDepths(tags, depth)
    ensures if changed then known.Keys < depth.Keys else depth == known && ChildrenKnown(tags, depth, |tags|)
  {
    depth, changed := known, false;
    for i := 0 to |tags|
      invariant TrueDepths(tags, depth)
      invariant if changed then known.Keys < depth.Keys else depth == known && ChildrenKnown(tags, depth, i)
    {
      var t := tags[i];
      if t.name !in depth && t.parent != "" && t.parent in depth {
        LearnDepth(tags, depth, i);
        Grows(known, depth, t.name, depth[t.parent] + 1);
        depth, changed := depth[t.name := depth[t.parent] + 1], true;
      } else if !changed {
        OneMoreKnown(tags, depth, i);
      }
    }
  }

  lemma Grows(known: Depths, depth: Depths, name: string, d: nat)
    requires known.Keys <= depth.Keys && name !in depth
    ensures known.Keys < depth[name := d].Keys
  {
    assert name in depth[name := d].Keys - known.Keys;
  }

  lemma OneMoreKnown(tags: Tags, depth: Depths, i: nat)
    requires i < |tags| && ChildrenKnown(tags, depth, i)
    requires tags[i].parent != "" && tags[i].parent in depth ==> tags[i].name in depth
    ensures ChildrenKnown(tags, depth, i + 1)
  {
  }

  lemma MoreKnown(tags: Tags, known: Depths, depth: Depths)
    requires TrueDepths(tags, depth) && known.Keys < depth.Keys
    ensures Names(tags) - depth.Keys < Names(tags) - known.Keys
    ensures RootsKnown(tags, known, |tags|) ==> RootsKnown(tags, depth, |tags|)
  {
    NamesAreHeld(tags);
    var n :| n in depth && n !in known;
    assert n in Names(tags) - known.Keys && n !in Names(tags) - depth.Keys;
  }

  // ---- Any depth-sorted order will do ----

  function DepthOf(depth: Depths, t: TagNode): int { if t.name in depth then depth[t.name] else 999 }

  ghost predicate SortedByDepth(order: Tags, depth: Depths) {
    forall i, j :: 0 <= i < j < |order| ==> DepthOf(depth, order[i]) <= DepthOf(depth, order[j])
  }

  /** Every parent stands before its children. */
  ghost predicate ParentsFirst(order: Tags) {
    forall k :: 0 <= k < |order| && order[k].parent != "" ==>
      exists j :: 0 <= j < k && order[j].name == order[k].parent
  }

  lemma ParentIsShallower(tags: Tags, depth: Depths, t: TagNode)
    requires Forest(tags) && TrueDepths(tags, depth) && depth.Keys == Names(tags)
    requires t in tags && t.parent != ""
    ensures t.name in depth && t.parent in depth && depth[t.parent] + 1 == depth[t.name]
  {
    NamesAreHeld(tags);
    var i :| 0 <= i < |tags| && tags[i] == t;
    AtItsIndex(tags, i);
    LearnDepth(tags, depth, i);
    DepthIsUnique(tags, t.name, depth[t.parent] + 1, depth[t.name]);
  }

  lemma SortedIsParentsFirst(tags: Tags, order: Tags, depth: Depths)
    requires Forest(tags) && TrueDepths(tags, depth) && depth.Keys == Names(tags)
    requires multiset(order) == multiset(tags) && SortedByDepth(order, depth)
    ensures ParentsFirst(order)
  {
    PermutedNamesAreUnique(tags, order);
    forall k | 0 <= k < |order| && order[k].parent != ""
      ensures exists j :: 0 <= j < k && order[j].name == order[k].parent {
      ParentIsShallower(tags, depth, order[k]);
      ShallowerIsBefore(order, depth, k, order[k].parent);
    }
  }

  lemma ShallowerIsBefore(order: Tags, depth: Depths, k: nat, name: string)
    requires SortedByDepth(order, depth) && k < |order|
    requires name in Names(order) && name in depth && order[k].name in depth && depth[name] < depth[order[k].name]
    ensures exists j :: 0 <= j < k && order[j].name == name
  {
    var t :| t in order && t.name == name;
    var j :| 0 <= j < |order| && order[j] == t;
    assert j < k;
  }

  lemma PermutedNamesAreUnique(tags: Tags, order: Tags)
    requires UniqueNames(tags) && multiset(order) == multiset(tags)
    ensures UniqueNames(order) && Names(order) == Names(tags) && forall t :: t in order <==> t in tags
  {
    assert forall t :: t in order <==> t in multiset(order);
    assert forall t :: t in tags <==> t in multiset(tags);
    assert Distinct(tags);
    forall t ensures multiset(order)[t] <= 1 { DistinctCounts(tags, t); }
    CountsDistinct(order);
    forall i, j | 0 <= i < j < |order| ensures order[i].name != order[j].name {
      assert order[i] in tags && order[j] in tags && order[i] != order[j];
    }
  }

  lemma {:induction false} WrittenNames(rows: Rows, order: Tags)
    ensures WrittenAll(rows, order).Keys == rows.Keys + Names(order)
    decreases |order|
  {
    if order != [] {
      var front, last := order[..|order| - 1], order[|order| - 1];
      WrittenNames(rows, front);
      assert order == front + [last];
    }
  }

  /** Writing parents first leaves every tag with its own parent. */
  lemma {:induction false} WritesInOrder(rows: Rows, order: Tags, n: nat)
    requires ParentsFirst(order) && UniqueNames(order) && n <= |order|
    ensures var after := WrittenAll(rows, order[..n]);
            forall k :: 0 <= k < n ==>
              order[k].name in after && (order[k].parent != "" || "" !in rows ==>
                after[order[k].name] == TagRow(order[k].parent, order[k].metadata))
    decreases n
  {
    if n > 0 {
      WritesInOrder(rows, order, n - 1);
      assert order[..n][..n - 1] == order[..n - 1];
      var before, t := WrittenAll(rows, order[..n - 1]), order[n - 1];
      assert WrittenAll(rows, order[..n]) == Written(before, t);
      assert t.parent != "" ==> t.parent in before;
    }
  }

  /** After the writes the store has every tag of the vector with its parent,
      in whatever order tags of one depth were written. */
  lemma SortedWritesMirror(tags: Tags, order: Tags, depth: Depths, rows: Rows)
    requires Forest(tags) && TrueDepths(tags, depth) && depth.Keys == Names(tags) && "" !in rows
    requires multiset(order) == multiset(tags) && SortedByDepth(order, depth)
    ensures var after := WrittenAll(rows, order);
            Mirrored(tags, after) && after.Keys == rows.Keys + Names(tags)
  {
    SortedIsParentsFirst(tags, order, depth);
    PermutedNamesAreUnique(tags, order);
    WritesInOrder(rows, order, |order|);
    WrittenNames(rows, order);
    assert order[..|order|] == order;
    var after := WrittenAll(rows, order);
    forall i | 0 <= i < |tags| ensures after[tags[i].name] == TagRow(tags[i].parent, tags[i].metadata) {
      assert tags[i] in order;
      var k :| 0 <= k < |order| && order[k] == tags[i];
    }
    NamesAreHeld(tags);
  }

  // ---- Orphans ----

  lemma {:induction false} HangingStaysInside(rows: Rows, seen: set<string>, inside: set<string>)
    requires seen <= inside
    requires forall n :: n in rows && n !in inside ==> rows[n].parent !in inside
    ensures Hanging(rows, seen) <= inside
    decreases |rows.Keys - seen|
  {
    var children := set n | n in rows && n !in seen && rows[n].parent in seen;
    if children != {} {
      var c :| c in children;
      assert c in rows.Keys - seen && c !in rows.Keys - (seen + children);
      ProperSubsetIsSmaller(rows.Keys - (seen + children), rows.Keys - seen);
      HangingStaysInside(rows, seen + children, inside);
    }
  }

  /** Deleting an orphan never takes a tag of the vector along. */
  lemma DeleteOrphanKeepsMirror(tags: Tags, rows: Rows, name: string)
    requires Forest(tags) && Mirrored(tags, rows) && name !in Names(tags) && "" !in rows
    ensures Mirrored(tags, DeleteRow(rows, name))
    ensures DeleteRow(rows, name).Keys <= rows.Keys - {name}
  {
    if name in rows {
      var orphans := rows.Keys - Names(tags);
      NamesAreHeld(tags);
      forall n | n in rows && n !in orphans ensures rows[n].parent !in orphans { ParentIsDefined(tags, n); }
      HangingStaysInside(rows, {name}, orphans);
    }
  }

  // ---- The sync ----

  /** std::sort by depth; which of several tags of one depth comes first is not
      fixed by the program, and nothing below depends on it. */
  function Sorted(tags: Tags, depth: Depths): (r: Tags)
    ensures multiset(r) == multiset(tags)
  {
    if tags == [] then []
    else
      assert tags == [tags[0]] + tags[1..];
      Inserted(tags[0], Sorted(tags[1..], depth), depth)
  }

  function Inserted(t: TagNode, order: Tags, depth: Depths): (r: Tags)
    ensures multiset(r) == multiset([t]) + multiset(order)
    ensures forall x :: x in r <==> x == t || x in order
  {
    if order == [] || DepthOf(depth, t) <= DepthOf(depth, order[0]) then [t] + order
    else
      assert order == [order[0]] + order[1..];
      [order[0]] + Inserted(t, order[1..], depth)
  }

  lemma {:induction false} InsertedIsSorted(t: TagNode, order: Tags, depth: Depths)
    requires SortedByDepth(order, depth)
    ensures SortedByDepth(Inserted(t, order, depth), depth)
  {
    if order != [] && DepthOf(depth, t) > DepthOf(depth, order[0]) {
      InsertedIsSorted(t, order[1..], depth);
      var rest := Inserted(t, order[1..], depth);
      forall j | 0 <= j < |rest| ensures DepthOf(depth, order[0]) <= DepthOf(depth, rest[j]) {
        assert rest[j] in rest;
      }
    }
  }

  lemma {:induction false} SortedIsSorted(tags: Tags, depth: Depths)
    ensures SortedByDepth(Sorted(tags, depth), depth)
  {
    if tags != [] {
      SortedIsSorted(tags[1..], depth);
      InsertedIsSorted(tags[0], Sorted(tags[1..], depth), depth);
    }
  }

  lemma MirroredWithoutOrphans(tags: Tags, rows: Rows)
    requires Mirrored(tags, rows) && rows.Keys <= Names(tags)
    ensures rows == Mirror(tags)
  {
  }

  /** The tag part of a notebook's config and of its store. */
  class TagMirror {
    var tags: Tags
    var modifiedUtc: nat
    var rows: Rows
    var syncedUtc: nat

    /** When the next sync would be skipped, it has nothing to write. */
    ghost predicate Valid() reads this {
      && Forest(tags) && "" !in rows
      && (0 < modifiedUtc <= syncedUtc ==> Mirrored(tags, rows))
    }

    /** Any change of the vector is stamped; the clock has moved since the last sync. */
    method Edit(edited: Tags, now: nat)
      requires Valid() && Forest(edited) && now > syncedUtc
      modifies this`tags, this`modifiedUtc
      ensures Valid() && tags == edited && modifiedUtc == now
    {
      tags, modifiedUtc := edited, now;
    }

    /** A sync that succeeds leaves every tag in the store under its parent, and
        with every orphan deletion succeeding (`swept`) the store's tags are the
        vector's; a sync that fails leaves the store alone. */
    method SyncTagsToMetadataStore(now: nat) returns (r: Result<()>, swept: bool)
      requires Valid() && now > 0
      modifies this`rows, this`modifiedUtc, this`syncedUtc
      ensures Valid()
      ensures r.Ok? ==> Mirrored(tags, rows)
      ensures r.Ok? && swept ==> rows == Mirror(tags)
      ensures r.Ok? && !(0 < old(modifiedUtc) <= old(syncedUtc)) ==> EachHasItsRow(tags, rows)
      ensures r.Ok? && swept ==> forall n :: n in rows <==> exists t :: t in tags && t.name == n
      ensures r.Ok? && !(0 < old(modifiedUtc) <= old(syncedUtc)) ==>
                var time := if old(modifiedUtc) > 0 then old(modifiedUtc) else now;
                syncedUtc in {old(syncedUtc), time}
                && modifiedUtc == if old(modifiedUtc) == 0 && tags != [] then time else old(modifiedUtc)
      ensures r.Ok? && !(0 < old(modifiedUtc) <= old(syncedUtc)) ==> rows.Keys <= old(rows).Keys + Names(tags)
      ensures r.Err? || 0 < old(modifiedUtc) <= old(syncedUtc) ==>
                rows == old(rows) && syncedUtc == old(syncedUtc) && modifiedUtc == old(modifiedUtc)
    {
      swept := false;
      if 0 < modifiedUtc <= syncedUtc { return Ok(()), false; }
      var began, committed, noted: bool := *, *, *;
      if !began { return Err(DatabaseError), false; }
      var next: Rows;
      var written;
      next, written, swept := WriteAndSweep();
      if !written || !committed { return Err(DatabaseError), false; }
      rows := next;
      MirroredIsEachRow(tags, rows);
      var syncTime := if modifiedUtc > 0 then modifiedUtc else now;
      if noted { syncedUtc := syncTime; }
      if modifiedUtc == 0 && tags != [] { modifiedUtc := syncTime; }
      r := Ok(());
    }

    method WriteAndSweep() returns (next: Rows, written: bool, swept: bool)
      requires Valid()
      ensures written ==> Mirrored(tags, next) && next.Keys <= rows.Keys + Names(tags)
      ensures swept ==> written && next == Mirror(tags)
    {
      var depth := ComputeDepths(tags);
      var order := Sorted(tags, depth);
      SortedIsSorted(tags, depth);
      SortedWritesMirror(tags, order, depth, rows);
      swept := false;
      next, written := WriteAll(order, rows);
      if written {
        next, swept := DeleteOrphans(next, depth);
      }
    }

    method WriteAll(order: Tags, start: Rows) returns (next: Rows, written: bool)
      ensures written ==> next == WrittenAll(start, order)
    {
      next := start;
      for i := 0 to |order|
        invariant next == WrittenAll(start, order[..i])
      {
        var ok: bool := *;
        if !ok { return next, false; }
        assert order[..i + 1][..i] == order[..i];
        next := Written(next, order[i]);
      }
      assert order[..|order|] == order;
      written := true;
    }

    /** Best effort: a deletion that fails is skipped. */
    method DeleteOrphans(start: Rows, depth: Depths) returns (next: Rows, swept: bool)
      requires Forest(tags) && Mirrored(tags, start) && depth.Keys == Names(tags) && "" !in start
      ensures Mirrored(tags, next) && next.Keys <= start.Keys
      ensures swept ==> next == Mirror(tags)
    {
      next, swept := start, true;
      var listed := start.Keys;
      while listed != {}
        invariant Mirrored(tags, next) && next.Keys <= start.Keys
        invariant swept ==> next.Keys <= Names(tags) + listed
        decreases |listed|
      {
        var name :| name in listed;
        listed := listed - {name};
        if name !in depth {
          var ok: bool := *;
          DeleteOrphanKeepsMirror(tags, next, name);
          if ok || name !in next { next := DeleteRow(next, name); } else { swept := false; }
        }
      }
      if swept { MirroredWithoutOrphans(tags, next); }
    }
  }
}
