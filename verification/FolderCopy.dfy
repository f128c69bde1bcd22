/** Giving a copied folder tree ids of its own
    (src/core/bundled_folder_manager.cpp, ProcessCopiedFolderTree). */
module FolderCopy {
  import opened Records
  import opened Sublists
  import opened MetadataStore
  import opened StagedTree
  import opened LazySync
  import opened FolderTree
  import opened NodeWalk

  datatype Kind = Directory | RegularFile

  /** What exists on disk in the content tree. */
  type Content = map<Path, Kind>

  predicate IsDirectory(content: Content, p: Path) { p in content && content[p].Directory? }

  function FileThere(content: Content, dir: Path): FileRecord -> bool {
    (f: FileRecord) => dir + [f.name] in content
  }

  function FolderThere(content: Content, dir: Path): string -> bool {
    (f: string) => IsDirectory(content, dir + [f])
  }

  /** The config without the entries whose content did not arrive. */
  function Trimmed(c: FolderConfig, content: Content, dir: Path): FolderConfig {
    c.(files := Kept(c.files, |c.files|, FileThere(content, dir)),
       folders := Kept(c.folders, |c.folders|, FolderThere(content, dir)))
  }

  /** All content that the config speaks of is there. */
  ghost predicate Present(c: FolderConfig, content: Content, dir: Path) {
    && (forall f :: f in c.files ==> FileThere(content, dir)(f))
    && (forall f :: f in c.folders ==> FolderThere(content, dir)(f))
  }

  /** Trimming drops exactly the entries without content: the others stay, in
      their order and as often as they were there. */
  lemma TrimmedDropsTheMissing(c: FolderConfig, content: Content, dir: Path)
    ensures var t := Trimmed(c, content, dir);
            && IsRest(c.files, t.files, FileThere(content, dir))
            && IsRest(c.folders, t.folders, FolderThere(content, dir))
            && t == c.(files := t.files, folders := t.folders)
            && Present(t, content, dir) && (Present(c, content, dir) <==> t == c)
  {
    KeptIsTheRest(c.files, FileThere(content, dir));
    KeptIsTheRest(c.folders, FolderThere(content, dir));
    var t := Trimmed(c, content, dir);
    RestMembers(c.files, t.files, FileThere(content, dir));
    RestMembers(c.folders, t.folders, FolderThere(content, dir));
    if Present(c, content, dir) {
      AllKept(c.files, FileThere(content, dir));
      AllKept(c.folders, FolderThere(content, dir));
    }
  }

  function Trim(t: Configs, content: Content): Configs {
    map r | r in t :: Trimmed(t[r], content, r)
  }

  ghost predicate AllPresent(t: Configs, content: Content) {
    forall r :: r in t ==> Present(t[r], content, r)
  }

  lemma TrimIsPresent(t: Configs, content: Content)
    ensures AllPresent(Trim(t, content), content)
  {
    forall r | r in t { TrimmedDropsTheMissing(t[r], content, r); }
  }

  /** `new` has the names, order, tags, attachments and metadata of `old`. */
  ghost predicate CopyOf(old_: FolderConfig, new_: FolderConfig, name: string, now: int) {
    && new_ == old_.(id := new_.id, files := new_.files, created := now, modified := now,
                     name := if name == "" then old_.name else name)
    && |new_.files| == |old_.files|
    && forall k :: 0 <= k < |old_.files| ==>
         new_.files[k] == old_.files[k].(id := new_.files[k].id, created := now, modified := now)
  }

  /** Below `root`, `u` is a copy of `src`. */
  ghost predicate Renewed(src: Configs, u: Configs, root: Path, name: string, now: int) {
    forall r :: Reach(src, root, r) ==> r in u && CopyOf(src[r], u[r], if r == root then name else "", now)
  }

  /** Every folder listed below the root has its config. */
  ghost predicate Complete(src: Configs, root: Path) {
    && root in src
    && forall r, f {:trigger Reach(src, root, r), f in src[r].folders} ::
         Reach(src, root, r) && f in src[r].folders ==> r + [f] in src
  }

  // ---- Fresh ids ----

  ghost predicate Drawn(uuid: nat -> Id, lo: nat, hi: nat, id: Id) {
    exists j :: lo <= j < hi && uuid(j) == id
  }

  ghost predicate NeverRepeats(uuid: nat -> Id) {
    forall i, j :: uuid(i) == uuid(j) ==> i == j
  }

  ghost predicate IdsDrawn(uuid: nat -> Id, u: Configs, root: Path, lo: nat, hi: nat) {
    forall id :: HasId(u, root, id) ==> Drawn(uuid, lo, hi, id)
  }

  // ---- Store rows ----

  /** The folder's row and its files' rows say what the config says (and a
      file's tags as far as its list goes without repetition). */
  ghost predicate RowsOf(c: FolderConfig, s: Store, parentId: Id) {
    && c.id in s.folders && s.folders[c.id] == ToFolderRow(c, parentId)
    && forall f :: f in c.files ==> f.id in s.files && s.files[f.id] == StoredRow(f, c.id)
  }

  function ParentIdBelow(u: Configs, root: Path, r: Path, parentId: Id): Id {
    if r != root && r != [] && ParentPath(r) in u then u[ParentPath(r)].id else parentId
  }

  ghost predicate RowsMirror(u: Configs, s: Store, root: Path, parentId: Id) {
    forall r :: Reach(u, root, r) ==> RowsOf(u[r], s, ParentIdBelow(u, root, r, parentId))
  }

  /** Old rows stay; new ones only under new ids. */
  ghost predicate Extends(s: Store, t: Store) {
    && (forall id :: id in s.folders ==> id in t.folders && t.folders[id] == s.folders[id])
    && (forall id :: id in s.files ==> id in t.files && t.files[id] == s.files[id])
  }

  ghost predicate GrewByDrawn(uuid: nat -> Id, s: Store, t: Store, lo: nat, hi: nat) {
    && Extends(s, t)
    && (forall id :: id in t.folders && id !in s.folders ==> Drawn(uuid, lo, hi, id))
    && (forall id :: id in t.files && id !in s.files ==> Drawn(uuid, lo, hi, id))
  }

  // ---- A finished folder ----

  /** What the processing of one folder tree achieves. */
  ghost predicate Finished(uuid: nat -> Id, src: Configs, u: Configs, s: Store, root: Path, name: string,
                           parentId: Id, now: int, lo: nat, hi: nat) {
    && Complete(src, root) && Renewed(src, u, root, name, now)
    && UniqueIds(u, root) && IdsDrawn(uuid, u, root, lo, hi)
    && RowsMirror(u, s, root, parentId)
  }

  lemma {:induction false} ReachRenewed(src: Configs, u: Configs, root: Path, name: string, now: int, r: Path)
    requires root in src && Renewed(src, u, root, name, now) && Complete(src, root)
    ensures Reach(u, root, r) <==> Reach(src, root, r)
    decreases |r|
  {
    assert Reach(src, root, root);
    if r != root && |r| > |root| {
      var parent := ParentPath(r);
      assert r == parent + [r[|r| - 1]];
      ReachRenewed(src, u, root, name, now, parent);
    }
  }

  ghost predicate SameBelow(t: Configs, u: Configs, root: Path) {
    forall r :: root <= r ==> (r in t <==> r in u) && (r in t ==> u[r] == t[r])
  }

  lemma SameBelowSameIds(t: Configs, u: Configs, root: Path)
    requires SameBelow(t, u, root)
    ensures forall r :: Reach(t, root, r) <==> Reach(u, root, r)
    ensures forall id :: HasId(t, root, id) <==> HasId(u, root, id)
    ensures UniqueIds(t, root) ==> UniqueIds(u, root)
  {
    forall r ensures Reach(t, root, r) <==> Reach(u, root, r) {
      if Reach(t, root, r) { ReachAgrees(t, u, root, r); }
      if Reach(u, root, r) { ReachAgrees(u, t, root, r); }
    }
    forall r, k, id ensures Holds(t, root, r, k, id) <==> Holds(u, root, r, k, id) {
      if Reach(t, root, r) { ReachIsBelow(t, root, r); }
    }
  }

  /** Work elsewhere does not undo a finished folder. */
  lemma StaysFinished(uuid: nat -> Id, src: Configs, t: Configs, u: Configs, s: Store, s': Store, root: Path,
                      name: string, parentId: Id, now: int, lo: nat, hi: nat)
    requires Finished(uuid, src, t, s, root, name, parentId, now, lo, hi)
    requires SameBelow(t, u, root) && Extends(s, s')
    ensures Finished(uuid, src, u, s', root, name, parentId, now, lo, hi)
  {
    SameBelowSameIds(t, u, root);
    forall r | Reach(src, root, r)
      ensures r in u && CopyOf(src[r], u[r], if r == root then name else "", now)
    {
      ReachIsBelow(src, root, r);
    }
    forall r | Reach(u, root, r) ensures RowsOf(u[r], s', ParentIdBelow(u, root, r, parentId)) {
      ReachIsBelow(u, root, r);
      if r != root { ReachIsBelow(u, root, ParentPath(r)); }
      assert RowsOf(t[r], s, ParentIdBelow(t, root, r, parentId));
    }
  }

  // ---- A folder and its finished children ----

  ghost predicate OwnDone(uuid: nat -> Id, src: Configs, u: Configs, s: Store, path: Path, name: string,
                          parentId: Id, now: int, lo: nat, mid: nat) {
    && path in src && path in u && CopyOf(src[path], u[path], name, now)
    && Distinct(NodeIds(u[path])) && (forall id :: id in NodeIds(u[path]) ==> Drawn(uuid, lo, mid, id))
    && RowsOf(u[path], s, parentId)
  }

  /** The ids drawn from lo up to hi. */
  datatype Range = Range(lo: nat, hi: nat)

  ghost predicate Apart(a: Range, b: Range) { a.hi <= b.lo || b.hi <= a.lo }

  /** Every child has drawn its ids from a range of its own. A child that its
      parent lists twice is processed twice: what counts is the last time. */
  ghost predicate ChildrenDone(uuid: nat -> Id, src: Configs, u: Configs, s: Store, path: Path, ownId: Id, now: int,
                               ranges: map<string, Range>, lo: nat, hi: nat) {
    && (forall f {:trigger ChildDone(uuid, src, u, s, path, ownId, now, f, ranges[f], lo, hi)} :: f in ranges ==>
          ChildDone(uuid, src, u, s, path, ownId, now, f, ranges[f], lo, hi))
    && (forall f, g {:trigger Apart(ranges[f], ranges[g])} :: f in ranges && g in ranges && f != g ==>
          Apart(ranges[f], ranges[g]))
  }

  ghost predicate ChildDone(uuid: nat -> Id, src: Configs, u: Configs, s: Store, path: Path, ownId: Id, now: int,
                            f: string, range: Range, lo: nat, hi: nat) {
    && lo <= range.lo && range.hi <= hi
    && Finished(uuid, src, u, s, path + [f], "", ownId, now, range.lo, range.hi)
  }

  lemma ChildrenAreApart(uuid: nat -> Id, src: Configs, u: Configs, s: Store, path: Path, ownId: Id, now: int,
                         names: seq<string>, ranges: map<string, Range>, lo: nat, hi: nat)
    requires NeverRepeats(uuid) && ChildrenDone(uuid, src, u, s, path, ownId, now, ranges, lo, hi)
    requires forall f :: f in names ==> f in ranges
    ensures ChildrenApart(u, path, names)
    ensures forall f, id :: f in names && HasId(u, path + [f], id) ==> Drawn(uuid, lo, hi, id)
  {
    forall f, id | f in names && HasId(u, path + [f], id) ensures Drawn(uuid, lo, hi, id) {
      assert ChildDone(uuid, src, u, s, path, ownId, now, f, ranges[f], lo, hi);
      assert Drawn(uuid, ranges[f].lo, ranges[f].hi, id);
    }
    forall f, g, id | f in names && g in names && HasId(u, path + [f], id) && HasId(u, path + [g], id) ensures f == g {
      assert ChildDone(uuid, src, u, s, path, ownId, now, f, ranges[f], lo, hi);
      assert ChildDone(uuid, src, u, s, path, ownId, now, g, ranges[g], lo, hi);
      if f != g {
        RangesApart(uuid, ranges[f], ranges[g], id);
      }
    }
    forall f | f in names ensures UniqueIds(u, path + [f]) {
      assert ChildDone(uuid, src, u, s, path, ownId, now, f, ranges[f], lo, hi);
    }
  }

  lemma RangesApart(uuid: nat -> Id, a: Range, b: Range, id: Id)
    requires NeverRepeats(uuid) && Apart(a, b)
    ensures !(Drawn(uuid, a.lo, a.hi, id) && Drawn(uuid, b.lo, b.hi, id))
  {
  }

  /** The own records and the children make the whole. */
  lemma AllPartsFinished(uuid: nat -> Id, src: Configs, u: Configs, s: Store, path: Path, name: string,
                         parentId: Id, now: int, lo: nat, mid: nat, hi: nat, ranges: map<string, Range>)
    requires NeverRepeats(uuid) && lo <= mid <= hi
    requires OwnDone(uuid, src, u, s, path, name, parentId, now, lo, mid)
    requires ChildrenDone(uuid, src, u, s, path, u[path].id, now, ranges, mid, hi)
    requires forall f :: f in src[path].folders ==> f in ranges
    ensures Finished(uuid, src, u, s, path, name, parentId, now, lo, hi)
  {
    forall f | f in src[path].folders
      ensures Complete(src, path + [f]) && Renewed(src, u, path + [f], "", now)
      ensures RowsMirror(u, s, path + [f], u[path].id) {
      assert ChildDone(uuid, src, u, s, path, u[path].id, now, f, ranges[f], mid, hi);
    }
    PartsAreComplete(src, path);
    PartsAreRenewed(src, u, path, name, now);
    PartsMirror(u, s, path, parentId);
    PartsHaveDistinctIds(uuid, src, u, s, path, now, lo, mid, hi, ranges);
  }

  lemma PartsHaveDistinctIds(uuid: nat -> Id, src: Configs, u: Configs, s: Store, path: Path, now: int, lo: nat,
                             mid: nat, hi: nat, ranges: map<string, Range>)
    requires NeverRepeats(uuid) && lo <= mid <= hi
    requires path in u && Distinct(NodeIds(u[path])) && forall id :: id in NodeIds(u[path]) ==> Drawn(uuid, lo, mid, id)
    requires ChildrenDone(uuid, src, u, s, path, u[path].id, now, ranges, mid, hi)
    requires forall f :: f in u[path].folders ==> f in ranges
    ensures UniqueIds(u, path) && IdsDrawn(uuid, u, path, lo, hi)
  {
    var names := u[path].folders;
    ChildrenAreApart(uuid, src, u, s, path, u[path].id, now, names, ranges, mid, hi);
    forall f, id | f in names && HasId(u, path + [f], id) ensures id !in NodeIds(u[path]) {
      RangesApart(uuid, Range(lo, mid), Range(mid, hi), id);
    }
    UniqueFromParts(u, path);
    forall id | HasId(u, path, id) ensures Drawn(uuid, lo, hi, id) {
      HasIdSplits(u, path, id);
      assert id in NodeIds(u[path]) <==> OwnId(u[path], id);
      assert Drawn(uuid, lo, mid, id) || Drawn(uuid, mid, hi, id);
    }
  }

  lemma PartsAreComplete(src: Configs, path: Path)
    requires path in src && forall f :: f in src[path].folders ==> Complete(src, path + [f])
    ensures Complete(src, path)
  {
    forall r, f | Reach(src, path, r) && f in src[r].folders ensures r + [f] in src {
      if r != path { ReachNeedsChild(src, path, r); }
    }
  }

  lemma PartsAreRenewed(src: Configs, u: Configs, path: Path, name: string, now: int)
    requires path in src && path in u && CopyOf(src[path], u[path], name, now)
    requires forall f :: f in src[path].folders ==> Renewed(src, u, path + [f], "", now)
    ensures Renewed(src, u, path, name, now)
  {
    forall r | Reach(src, path, r) && r != path ensures r in u && CopyOf(src[r], u[r], "", now) {
      ReachNeedsChild(src, path, r);
    }
  }

  lemma PartsMirror(u: Configs, s: Store, path: Path, parentId: Id)
    requires path in u && RowsOf(u[path], s, parentId)
    requires forall f :: f in u[path].folders ==> RowsMirror(u, s, path + [f], u[path].id)
    ensures RowsMirror(u, s, path, parentId)
  {
    forall r | Reach(u, path, r) ensures RowsOf(u[r], s, ParentIdBelow(u, path, r, parentId)) {
      if r != path {
        ReachNeedsChild(u, path, r);
        var child := path + [r[|path|]];
        assert RowsOf(u[r], s, ParentIdBelow(u, child, r, u[path].id));
        if r == child { assert ParentPath(r) == path; }
      }
    }
  }

  // ---- Steps of the recursion ----

  ghost predicate OnlyBelowChanged(t: Configs, u: Configs, path: Path) {
    u.Keys == t.Keys && forall q :: q in t && !(path <= q) ==> u[q] == t[q]
  }

  lemma OnlyBelowTwice(t: Configs, u: Configs, v: Configs, path: Path)
    requires OnlyBelowChanged(t, u, path) && OnlyBelowChanged(u, v, path)
    ensures OnlyBelowChanged(t, v, path)
  {
  }

  lemma OwnConfigOnly(t: Configs, c: FolderConfig, content: Content, path: Path)
    requires path in t
    ensures var u := t[path := c];
            && OnlyBelowChanged(t, u, path)
            && forall f :: SameBelow(Trim(u, content), Trim(t, content), path + [f])
  {
  }

  lemma SameKeysSameDepth(t: Configs, u: Configs, path: Path)
    requires t.Keys == u.Keys
    ensures Below(t, path) == Below(u, path)
  {
    assert (set p | p in t && path <= p) == (set p | p in u && path <= p);
  }

  lemma ChildKeepsRest(t: Configs, u: Configs, path: Path, f: string)
    requires OnlyBelowChanged(t, u, path + [f]) && path in t
    ensures OnlyBelowChanged(t, u, path) && u[path] == t[path]
    ensures forall g :: g != f ==> SameBelow(t, u, path + [g])
  {
    var child := path + [f];
    forall q | q in t && !(path <= q) ensures u[q] == t[q] { assert !(child <= q); }
    forall g | g != f ensures SameBelow(t, u, path + [g]) {
      forall q | q in t && path + [g] <= q ensures !(child <= q) { assert q[|path|] == g; }
    }
  }

  lemma CompleteAgrees(src: Configs, src': Configs, root: Path)
    requires SameBelow(src, src', root)
    ensures Complete(src, root) ==> Complete(src', root)
    ensures Complete(src', root) ==> Complete(src, root)
  {
    SameBelowSameIds(src, src', root);
    forall r, f | Reach(src, root, r) ensures root <= r && root <= r + [f] { ReachIsBelow(src, root, r); }
  }

  lemma FinishedAgrees(uuid: nat -> Id, src: Configs, src': Configs, u: Configs, s: Store, root: Path, name: string,
                       parentId: Id, now: int, lo: nat, hi: nat)
    requires Finished(uuid, src, u, s, root, name, parentId, now, lo, hi) && SameBelow(src, src', root)
    ensures Finished(uuid, src', u, s, root, name, parentId, now, lo, hi)
  {
    CompleteAgrees(src, src', root);
    SameBelowSameIds(src, src', root);
    forall r | Reach(src', root, r) ensures r in u && CopyOf(src'[r], u[r], if r == root then name else "", now) {
      ReachIsBelow(src', root, r);
    }
  }

  // ---- A folder that may have been processed before ----

  /** At and below the root `t` is still the source, or a copy of it already. */
  ghost predicate Prepared(src: Configs, t: Configs, root: Path, now: int) {
    SameBelow(t, src, root) || (Complete(src, root) && Renewed(src, t, root, "", now))
  }

  ghost predicate AllPrepared(src: Configs, t: Configs, path: Path, names: seq<string>, now: int) {
    forall f {:trigger Prepared(src, t, path + [f], now)} :: f in names ==> Prepared(src, t, path + [f], now)
  }

  lemma PreparedAgrees(src: Configs, t: Configs, u: Configs, root: Path, now: int)
    requires Prepared(src, t, root, now) && SameBelow(t, u, root)
    ensures Prepared(src, u, root, now)
  {
    if !SameBelow(t, src, root) {
      forall r | Reach(src, root, r) ensures root <= r { ReachIsBelow(src, root, r); }
    }
  }

  lemma PreparedIsComplete(src: Configs, t: Configs, root: Path, now: int)
    requires Prepared(src, t, root, now) && Complete(src, root)
    ensures Complete(t, root)
  {
    if SameBelow(t, src, root) {
      CompleteAgrees(t, src, root);
    } else {
      forall r ensures Reach(t, root, r) <==> Reach(src, root, r) { ReachRenewed(src, t, root, "", now, r); }
      assert Reach(src, root, root);
      forall r, f | Reach(src, root, r) && f in src[r].folders ensures r + [f] in t {
        assert Reach(src, root, r + [f]);
      }
    }
  }

  /** A copy of a copy is a copy. */
  lemma FinishedFromPrepared(uuid: nat -> Id, src: Configs, t: Configs, u: Configs, s: Store, root: Path,
                             parentId: Id, now: int, lo: nat, hi: nat)
    requires Prepared(src, t, root, now) && Finished(uuid, t, u, s, root, "", parentId, now, lo, hi)
    ensures Finished(uuid, src, u, s, root, "", parentId, now, lo, hi)
  {
    if SameBelow(t, src, root) {
      FinishedAgrees(uuid, t, src, u, s, root, "", parentId, now, lo, hi);
    } else {
      forall r | Reach(src, root, r) ensures r in u && CopyOf(src[r], u[r], "", now) {
        ReachRenewed(src, t, root, "", now, r);
      }
    }
  }

  /** What was processed is trimmed already. */
  lemma FinishedIsPrepared(src: Configs, u: Configs, content: Content, root: Path, now: int)
    requires AllPresent(src, content) && Complete(src, root) && Renewed(src, u, root, "", now)
    ensures Prepared(src, Trim(u, content), root, now)
  {
    forall r | Reach(src, root, r) ensures r in u && CopyOf(src[r], Trim(u, content)[r], "", now) {
      CopyIsPresent(src[r], u[r], content, r, now);
      TrimmedDropsTheMissing(u[r], content, r);
    }
  }

  lemma CopyIsPresent(c: FolderConfig, d: FolderConfig, content: Content, dir: Path, now: int)
    requires Present(c, content, dir) && CopyOf(c, d, "", now)
    ensures Present(d, content, dir)
  {
    forall f | f in d.files ensures FileThere(content, dir)(f) {
      var k :| 0 <= k < |d.files| && d.files[k] == f;
      assert c.files[k] in c.files;
    }
  }

  /** Processing one child changes nothing that the others rely on. */
  lemma ChildFrames(t0: Configs, t: Configs, u: Configs, content: Content, src: Configs, path: Path, f: string,
                    now: int)
    requires path in t && OnlyBelowChanged(t0, t, path) && OnlyBelowChanged(t, u, path + [f])
    ensures OnlyBelowChanged(t0, u, path) && u[path] == t[path]
    ensures forall g :: g != f && Prepared(src, Trim(t, content), path + [g], now) ==>
              Prepared(src, Trim(u, content), path + [g], now)
  {
    ChildKeepsRest(t, u, path, f);
    OnlyBelowTwice(t0, t, u, path);
    forall g | g != f && Prepared(src, Trim(t, content), path + [g], now)
      ensures Prepared(src, Trim(u, content), path + [g], now) {
      PreparedAgrees(src, Trim(t, content), Trim(u, content), path + [g], now);
    }
  }

  lemma OneMoreChildDone(uuid: nat -> Id, src: Configs, t: Configs, u: Configs, s: Store, s': Store, path: Path,
                         ownId: Id, now: int, f: string, ranges: map<string, Range>, lo: nat, mid: nat, hi: nat,
                         src': Configs)
    requires path in t && lo <= mid <= hi && ChildrenDone(uuid, src, t, s, path, ownId, now, ranges, lo, mid)
    requires OnlyBelowChanged(t, u, path + [f]) && Extends(s, s')
    requires Finished(uuid, src', u, s', path + [f], "", ownId, now, mid, hi)
    requires Prepared(src, src', path + [f], now)
    ensures ChildrenDone(uuid, src, u, s', path, ownId, now, ranges[f := Range(mid, hi)], lo, hi)
  {
    var more := ranges[f := Range(mid, hi)];
    ChildKeepsRest(t, u, path, f);
    FinishedFromPrepared(uuid, src, src', u, s', path + [f], ownId, now, mid, hi);
    forall g | g in more ensures ChildDone(uuid, src, u, s', path, ownId, now, g, more[g], lo, hi) {
      if g != f { ChildStays(uuid, src, t, u, s, s', path, ownId, now, g, ranges[g], lo, mid, hi); }
    }
    forall g | g in ranges && g != f ensures Apart(ranges[g], Range(mid, hi)) {
      assert ChildDone(uuid, src, t, s, path, ownId, now, g, ranges[g], lo, mid);
    }
  }

  lemma ChildStays(uuid: nat -> Id, src: Configs, t: Configs, u: Configs, s: Store, s': Store, path: Path, ownId: Id,
                   now: int, f: string, range: Range, lo: nat, mid: nat, hi: nat)
    requires ChildDone(uuid, src, t, s, path, ownId, now, f, range, lo, mid) && mid <= hi
    requires SameBelow(t, u, path + [f]) && Extends(s, s')
    ensures ChildDone(uuid, src, u, s', path, ownId, now, f, range, lo, hi)
  {
    StaysFinished(uuid, src, t, u, s, s', path + [f], "", ownId, now, range.lo, range.hi);
  }

  // ---- The loop over the children ----

  /** Some of the children of a folder have been processed, from mark lo on. */
  ghost predicate Underway(uuid: nat -> Id, src: Configs, t0: Configs, u: Configs, s0: Store, s: Store,
                           content: Content, path: Path, names: seq<string>, ownId: Id, now: int,
                           ranges: map<string, Range>, lo: nat, hi: nat) {
    && lo <= hi && GrewByDrawn(uuid, s0, s, lo, hi)
    && path in t0 && OnlyBelowChanged(t0, u, path) && u[path] == t0[path]
    && AllPrepared(src, Trim(u, content), path, names, now)
    && ChildrenDone(uuid, src, u, s, path, ownId, now, ranges, lo, hi)
  }

  lemma ChildProcessed(uuid: nat -> Id, src: Configs, t0: Configs, t: Configs, u: Configs, s0: Store, s: Store,
                       s': Store, content: Content, path: Path, names: seq<string>, ownId: Id, now: int, f: string,
                       ranges: map<string, Range>, lo: nat, mid: nat, hi: nat)
    requires Underway(uuid, src, t0, t, s0, s, content, path, names, ownId, now, ranges, lo, mid)
    requires AllPresent(src, content) && f in names && mid <= hi
    requires OnlyBelowChanged(t, u, path + [f]) && GrewByDrawn(uuid, s, s', mid, hi)
    requires Finished(uuid, Trim(t, content), u, s', path + [f], "", ownId, now, mid, hi)
    ensures Underway(uuid, src, t0, u, s0, s', content, path, names, ownId, now, ranges[f := Range(mid, hi)], lo, hi)
  {
    ChildFrames(t0, t, u, content, src, path, f, now);
    GrowthAddsUp(uuid, s0, s, s', lo, mid, hi);
    OneMoreChildDone(uuid, src, t, u, s, s', path, ownId, now, f, ranges, lo, mid, hi, Trim(t, content));
    ChildAgain(uuid, src, u, content, s', path, ownId, now, f, ranges[f := Range(mid, hi)], lo, hi);
  }

  lemma ChildAgain(uuid: nat -> Id, src: Configs, u: Configs, content: Content, s: Store, path: Path, ownId: Id,
                   now: int, f: string, ranges: map<string, Range>, lo: nat, hi: nat)
    requires AllPresent(src, content) && f in ranges
    requires ChildrenDone(uuid, src, u, s, path, ownId, now, ranges, lo, hi)
    ensures Prepared(src, Trim(u, content), path + [f], now)
  {
    assert ChildDone(uuid, src, u, s, path, ownId, now, f, ranges[f], lo, hi);
    FinishedIsPrepared(src, u, content, path + [f], now);
  }

  lemma AllInOneMore(names: seq<string>, i: nat, ranges: map<string, Range>, range: Range)
    requires i < |names| && forall j :: 0 <= j < i ==> names[j] in ranges
    ensures forall j :: 0 <= j < i + 1 ==> names[j] in ranges[names[i] := range]
  {
  }

  lemma ChildFailed(uuid: nat -> Id, src: Configs, t0: Configs, t: Configs, u: Configs, s0: Store, s: Store, s': Store,
                    content: Content, path: Path, names: seq<string>, ownId: Id, now: int, f: string,
                    ranges: map<string, Range>, lo: nat, mid: nat, hi: nat)
    requires Underway(uuid, src, t0, t, s0, s, content, path, names, ownId, now, ranges, lo, mid)
    requires f in names && mid <= hi && OnlyBelowChanged(t, u, path + [f]) && GrewByDrawn(uuid, s, s', mid, hi)
    ensures GrewByDrawn(uuid, s0, s', lo, hi) && OnlyBelowChanged(t0, u, path) && u[path] == t0[path]
    ensures !Complete(Trim(t, content), path + [f]) ==> !Complete(src, path + [f])
  {
    ChildFrames(t0, t, u, content, src, path, f, now);
    GrowthAddsUp(uuid, s0, s, s', lo, mid, hi);
    if Complete(src, path + [f]) { PreparedIsComplete(src, Trim(t, content), path + [f], now); }
  }

  lemma GrowthAddsUp(uuid: nat -> Id, a: Store, b: Store, c: Store, lo: nat, mid: nat, hi: nat)
    requires GrewByDrawn(uuid, a, b, lo, mid) && GrewByDrawn(uuid, b, c, mid, hi) && lo <= mid <= hi
    ensures GrewByDrawn(uuid, a, c, lo, hi)
  {
  }

  lemma RenewedIdsAreNew(uuid: nat -> Id, c: FolderConfig, lo: nat, hi: nat)
    requires NeverRepeats(uuid) && hi == lo + 1 + |c.files|
    requires forall k :: 0 <= k <= |c.files| ==> NodeIds(c)[k] == uuid(lo + k)
    ensures Distinct(NodeIds(c)) && forall id :: id in NodeIds(c) ==> Drawn(uuid, lo, hi, id)
  {
  }

  lemma WholeFinished(uuid: nat -> Id, src: Configs, t: Configs, u: Configs, s: Store, s': Store, path: Path,
                      name: string, parentId: Id, now: int, lo: nat, mid: nat, hi: nat, ranges: map<string, Range>)
    requires NeverRepeats(uuid) && lo <= mid <= hi
    requires OwnDone(uuid, src, t, s, path, name, parentId, now, lo, mid)
    requires path in u && u[path] == t[path] && Extends(s, s')
    requires ChildrenDone(uuid, src, u, s', path, u[path].id, now, ranges, mid, hi)
    requires forall f :: f in src[path].folders ==> f in ranges
    ensures Finished(uuid, src, u, s', path, name, parentId, now, lo, hi)
  {
    AllPartsFinished(uuid, src, u, s', path, name, parentId, now, lo, mid, hi, ranges);
  }

  lemma IncompleteChild(src: Configs, path: Path)
    requires path in src && exists f :: f in src[path].folders && !Complete(src, path + [f])
    ensures !Complete(src, path)
  {
    var f :| f in src[path].folders && !Complete(src, path + [f]);
    assert Reach(src, path, path);
    if path + [f] in src {
      var r, g :| Reach(src, path + [f], r) && g in src[r].folders && r + [g] !in src;
      ReachThroughChild(src, path, f, r);
    }
  }

  lemma NodeIdsAreDistinct(c: FolderConfig)
    requires Distinct(NodeIds(c))
    ensures Distinct(FileIds(c.files))
    ensures forall id :: id in FileIds(c.files) ==> id in NodeIds(c) && id != c.id
  {
    DistinctHalves([c.id], FileIds(c.files));
  }
}
