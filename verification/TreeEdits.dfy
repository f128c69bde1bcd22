/** Creating, moving and copying folders and files, and what that does to the ids
    of the tree (src/core/bundled_folder_manager.cpp: CreateFolder, CreateFile,
    MoveFile, MoveFolder, CopyFolder, ProcessCopiedFolderTree). */
module TreeEdits {
  import opened Records
  import opened Collections
  import opened MetadataStore
  import opened StagedTree
  import opened LazySync
  import opened FolderTree
  import opened FolderCopy

  // ---- Adding and removing a file record ----

  function AddFile(t: Configs, p: Path, f: FileRecord, now: int): Configs
    requires p in t
  {
    t[p := t[p].(files := t[p].files + [f], modified := now)]
  }

  function RemoveFile(t: Configs, p: Path, k: nat, now: int): Configs
    requires p in t && k < |t[p].files|
  {
    t[p := t[p].(files := t[p].files[..k] + t[p].files[k + 1..], modified := now)]
  }

  lemma FilesDoNotMatterForReach(t: Configs, u: Configs)
    requires u.Keys == t.Keys && forall q :: q in t ==> u[q].folders == t[q].folders
    ensures forall r :: Reach(t, [], r) <==> Reach(u, [], r)
  {
    forall r ensures Reach(t, [], r) <==> Reach(u, [], r) {
      if Reach(t, [], r) { ReachAgrees(t, u, [], r); }
      if Reach(u, [], r) { ReachAgrees(u, t, [], r); }
    }
  }

  lemma AddFileIds(t: Configs, p: Path, f: FileRecord, now: int)
    requires Reach(t, [], p) && UniqueIds(t, []) && !HasId(t, [], f.id)
    ensures var u := AddFile(t, p, f, now);
            && UniqueIds(u, [])
            && (forall r :: Reach(t, [], r) <==> Reach(u, [], r))
            && forall id :: HasId(u, [], id) <==> HasId(t, [], id) || id == f.id
  {
    var u, n := AddFile(t, p, f, now), |t[p].files|;
    FilesDoNotMatterForReach(t, u);
    forall r, k, id ensures Holds(u, [], r, k, id) <==> Holds(t, [], r, k, id) || (r == p && k == n && id == f.id) {
    }
    forall id ensures HasId(u, [], id) <==> HasId(t, [], id) || id == f.id {
      assert Holds(u, [], p, n, f.id);
      if HasId(t, [], id) {
        var r, k :| Holds(t, [], r, k, id);
        assert Holds(u, [], r, k, id);
      }
    }
  }

  /** Where a slot was before the k-th file of p was removed. */
  function SlotBefore(p: Path, k: int, r: Path, l: int): int { if r == p && l >= k then l + 1 else l }

  lemma RemoveFileHolds(t: Configs, p: Path, k: nat, now: int, r: Path, l: int, id: Id)
    requires Reach(t, [], p) && k < |t[p].files|
    ensures Holds(RemoveFile(t, p, k, now), [], r, l, id) <==> Holds(t, [], r, SlotBefore(p, k, r, l), id)
  {
    FilesDoNotMatterForReach(t, RemoveFile(t, p, k, now));
    RemoveFileOwns(t, p, k, now, r, l, id);
  }

  lemma RemoveFileOwns(t: Configs, p: Path, k: nat, now: int, r: Path, l: int, id: Id)
    requires p in t && k < |t[p].files|
    ensures Owns(RemoveFile(t, p, k, now), r, l, id) <==> Owns(t, r, SlotBefore(p, k, r, l), id)
  {
    if r == p { SlotOfRest(t[p].files, k, l); }
  }

  lemma SlotOfRest(files: seq<FileRecord>, k: nat, l: int)
    requires k < |files|
    ensures |files[..k] + files[k + 1..]| == |files| - 1
    ensures 0 <= l < |files| - 1 ==> (files[..k] + files[k + 1..])[l] == files[if l >= k then l + 1 else l]
  {
  }

  lemma RemoveFileIsUnique(t: Configs, p: Path, k: nat, now: int)
    requires Reach(t, [], p) && UniqueIds(t, []) && k < |t[p].files|
    ensures UniqueIds(RemoveFile(t, p, k, now), [])
  {
    var u := RemoveFile(t, p, k, now);
    forall r, l, s, m, id | Holds(u, [], r, l, id) && Holds(u, [], s, m, id) ensures r == s && l == m {
      RemoveFileHolds(t, p, k, now, r, l, id);
      RemoveFileHolds(t, p, k, now, s, m, id);
      assert r == s && SlotBefore(p, k, r, l) == SlotBefore(p, k, s, m);
    }
  }

  lemma RemoveFileHasId(t: Configs, p: Path, k: nat, now: int, x: Id)
    requires Reach(t, [], p) && UniqueIds(t, []) && k < |t[p].files|
    ensures HasId(RemoveFile(t, p, k, now), [], x) <==> HasId(t, [], x) && x != t[p].files[k].id
  {
    var u := RemoveFile(t, p, k, now);
    assert Holds(t, [], p, k, t[p].files[k].id);
    if HasId(u, [], x) {
      var r, l :| Holds(u, [], r, l, x);
      RemoveFileHolds(t, p, k, now, r, l, x);
      assert r != p || SlotBefore(p, k, r, l) != k;
    }
    if HasId(t, [], x) && x != t[p].files[k].id {
      var r, l :| Holds(t, [], r, l, x);
      RemoveFileHolds(t, p, k, now, r, if r == p && l > k then l - 1 else l, x);
    }
  }

  lemma RemoveFileIds(t: Configs, p: Path, k: nat, now: int)
    requires Reach(t, [], p) && UniqueIds(t, []) && k < |t[p].files|
    ensures var u, id := RemoveFile(t, p, k, now), t[p].files[k].id;
            && UniqueIds(u, [])
            && (forall r :: Reach(t, [], r) <==> Reach(u, [], r))
            && forall x :: HasId(u, [], x) <==> HasId(t, [], x) && x != id
  {
    FilesDoNotMatterForReach(t, RemoveFile(t, p, k, now));
    RemoveFileIsUnique(t, p, k, now);
    forall x { RemoveFileHasId(t, p, k, now, x); }
  }

  /** Moving a file record conserves the ids. */
  lemma MoveFileIds(t: Configs, p: Path, k: nat, q: Path, f: FileRecord, now: int)
    requires Reach(t, [], p) && Reach(t, [], q) && UniqueIds(t, []) && k < |t[p].files|
    requires f.id == t[p].files[k].id
    ensures var u := AddFile(RemoveFile(t, p, k, now), q, f, now);
            UniqueIds(u, []) && forall id :: HasId(u, [], id) <==> HasId(t, [], id)
  {
    RemoveFileIds(t, p, k, now);
    AddFileIds(RemoveFile(t, p, k, now), q, f, now);
    assert Holds(t, [], p, k, f.id);
  }

  // ---- Moving a folder ----

  /** A directory rename. */
  function Relocate<T>(m: map<Path, T>, src: Path, dst: Path): map<Path, T> {
    var below := set r | r in m && src <= r :: dst + r[|src|..];
    var rest := set r | r in m && !(src <= r) && !(dst <= r);
    assert forall r :: src <= r ==> src + r[|src|..] == r;
    assert forall q: Path :: (dst + q)[|dst|..] == q;
    map r | r in below + rest :: if dst <= r then m[src + r[|dst|..]] else m[r]
  }

  lemma RelocateAt<T>(m: map<Path, T>, src: Path, dst: Path, r: Path)
    ensures var u := Relocate(m, src, dst);
            if dst <= r then
              (r in u <==> src + r[|dst|..] in m) && (r in u ==> u[r] == m[src + r[|dst|..]])
            else
              (r in u <==> r in m && !(src <= r)) && (r in u ==> u[r] == m[r])
  {
    if dst <= r {
      var o := src + r[|dst|..];
      assert dst + r[|dst|..] == r && src <= o && o[|src|..] == r[|dst|..];
      forall s: Path | src <= s ensures src + s[|src|..] == s && (dst + s[|src|..])[|dst|..] == s[|src|..] { }
    } else {
      forall q: Path ensures dst + q != r { assert dst <= dst + q; }
    }
  }

  /** The two lists, after a move from p to q. */
  function Relisted(m: Configs, p: Path, q: Path, name: string, now: int): Configs
    requires p in m && q in m
  {
    var erased := m[p := m[p].(folders := EraseFirst(m[p].folders, name), modified := now)];
    erased[q := erased[q].(folders := erased[q].folders + [name], modified := now)]
  }

  lemma PruneAndGraftAt(t: Configs, src: Path, q: Path, now: int, r: Path)
    requires src != [] && ParentPath(src) in t && q in t && !(src <= q)
    requires forall s :: s in t ==> !(q + [src[|src| - 1]] <= s)
    ensures q in Prune(t, src, now)
    ensures var dst, p := q + [src[|src| - 1]], ParentPath(src);
            var g := Graft(Prune(t, src, now), Sub(t, src), q, src[|src| - 1], now);
            if dst <= r then
              (r in g <==> src + r[|dst|..] in t) && (r in g ==> g[r] == t[src + r[|dst|..]])
            else
              (r in g <==> r in t && !(src <= r)) && (r in g && r != p && r != q ==> g[r] == t[r])
  {
    var dst := q + [src[|src| - 1]];
    if dst <= r { SubAt(t, src, r[|dst|..]); }
  }

  /** Renaming the config directory and editing the two lists cuts the subtree
      off and grafts it elsewhere. */
  lemma MoveIsPruneAndGraft(t: Configs, src: Path, q: Path, now: int)
    requires src != [] && ParentPath(src) in t && q in t && q != ParentPath(src) && !(src <= q)
    requires forall r :: r in t ==> !(q + [src[|src| - 1]] <= r)
    ensures var name, p := src[|src| - 1], ParentPath(src);
            var moved := Relocate(t, src, q + [name]);
            && p in moved && q in moved && q in Prune(t, src, now)
            && Relisted(moved, p, q, name, now) == Graft(Prune(t, src, now), Sub(t, src), q, name, now)
  {
    var name, p := src[|src| - 1], ParentPath(src);
    var moved := Relocate(t, src, q + [name]);
    assert src == p + [name] && !(src <= p) && !(q + [name] <= p) && !(q + [name] <= q);
    RelocateAt(t, src, q + [name], p);
    RelocateAt(t, src, q + [name], q);
    PruneAndGraftAt(t, src, q, now, q);
    var g := Graft(Prune(t, src, now), Sub(t, src), q, name, now);
    var l := Relisted(moved, p, q, name, now);
    forall r ensures (r in l <==> r in g) && (r in g ==> l[r] == g[r]) { MovedAt(t, src, q, now, r); }
  }

  lemma MovedAt(t: Configs, src: Path, q: Path, now: int, r: Path)
    requires src != [] && ParentPath(src) in t && q in t && q != ParentPath(src) && !(src <= q)
    requires forall s :: s in t ==> !(q + [src[|src| - 1]] <= s)
    ensures q in Prune(t, src, now)
    ensures var name, p := src[|src| - 1], ParentPath(src);
            var moved := Relocate(t, src, q + [name]);
            && p in moved && q in moved
            && var l, g := Relisted(moved, p, q, name, now), Graft(Prune(t, src, now), Sub(t, src), q, name, now);
               (r in l <==> r in g) && (r in g ==> l[r] == g[r])
  {
    var name, p := src[|src| - 1], ParentPath(src);
    assert src == p + [name] && !(src <= p) && !(q + [name] <= p) && !(q + [name] <= q);
    RelocateAt(t, src, q + [name], p);
    RelocateAt(t, src, q + [name], q);
    RelocateAt(t, src, q + [name], r);
    PruneAndGraftAt(t, src, q, now, r);
  }

  /** A move conserves the ids. */
  lemma MoveFolderIds(t: Configs, src: Path, q: Path, now: int)
    requires src != [] && Reach(t, [], src) && Reach(t, [], q) && q != ParentPath(src) && !(src <= q)
    requires UniqueIds(t, []) && src[|src| - 1] !in t[q].folders
    requires forall r :: r in t ==> !(q + [src[|src| - 1]] <= r)
    ensures ParentPath(src) in t && q in Prune(t, src, now)
    ensures var u := Graft(Prune(t, src, now), Sub(t, src), q, src[|src| - 1], now);
            UniqueIds(u, []) && forall id :: HasId(u, [], id) <==> HasId(t, [], id)
  {
    PruneIds(t, src, now);
    ReachInPrune(t, src, now, q);
    NothingLeftIsSealed(Prune(t, src, now), Sub(t, src), q + [src[|src| - 1]]);
    GraftIds(Prune(t, src, now), Sub(t, src), q, src[|src| - 1], now);
  }

  // ---- Creating a folder ----

  function NewFile(id: Id, name: string, now: int): FileRecord {
    FileRecord(id, name, now, now, "{}", [], [])
  }

  function NewFolder(id: Id, name: string, now: int): FolderConfig {
    FolderConfig(id, name, now, now, "{}", [], [])
  }

  lemma NewFolderIds(t: Configs, p: Path, id: Id, name: string, now: int)
    requires Reach(t, [], p) && name !in t[p].folders && UniqueIds(t, []) && !HasId(t, [], id)
    ensures var u := Graft(t, map[[] := NewFolder(id, name, now)], p, name, now);
            UniqueIds(u, []) && forall x :: HasId(u, [], x) <==> HasId(t, [], x) || x == id
  {
    var sub: Configs := map[[] := NewFolder(id, name, now)];
    forall r, k, x ensures Holds(sub, [], r, k, x) <==> r == [] && k == -1 && x == id { }
    assert Holds(sub, [], [], -1, id);
    GraftIds(t, sub, p, name, now);
  }

  // ---- Copying a folder ----

  /** The config tree with a copy of the source's configs laid over dst. */
  function Overlay(t: Configs, src: Path, dst: Path): Configs {
    map r | r in t.Keys + Shifted(Sub(t, src), dst) ::
      if dst <= r && r[|dst|..] in Sub(t, src) then Sub(t, src)[r[|dst|..]] else t[r]
  }

  /** `mid` is `t` with something new at and below dst. */
  ghost predicate NewBelow(t: Configs, mid: Configs, dst: Path) {
    && (forall r {:trigger r in mid} {:trigger mid[r]} ::
          !(dst <= r) ==> (r in mid <==> r in t) && (r in t ==> mid[r] == t[r]))
    && (forall r {:trigger r in mid} :: r in t ==> r in mid)
    && dst in mid
  }

  function Listed(t: Configs, p: Path, name: string, now: int): Configs
    requires p in t
  {
    t[p := t[p].(folders := t[p].folders + [name], modified := now)]
  }

  lemma PrefixAndRest(dst: Path, r: Path)
    requires dst <= r
    ensures dst + r[|dst|..] == r
  {
  }

  lemma ListedIsGraft(t: Configs, mid: Configs, p: Path, name: string, now: int)
    requires p in t && NewBelow(t, mid, p + [name]) && p in mid
    ensures Listed(mid, p, name, now) == Graft(t, Sub(mid, p + [name]), p, name, now)
  {
    var dst := p + [name];
    var g, l := Graft(t, Sub(mid, dst), p, name, now), Listed(mid, p, name, now);
    forall r ensures (r in g <==> r in l) && (r in l ==> g[r] == l[r]) {
      if dst <= r {
        PrefixAndRest(dst, r);
        SubAt(mid, dst, r[|dst|..]);
        GraftInside(t, Sub(mid, dst), p, name, now, r[|dst|..]);
      } else {
        GraftOutside(t, Sub(mid, dst), p, name, now, r);
      }
    }
  }

  lemma WholeSubIsSealed(t: Configs, mid: Configs, p: Path, name: string)
    requires p in t && NewBelow(t, mid, p + [name])
    ensures [] in Sub(mid, p + [name]) && Sealed(t, Sub(mid, p + [name]), p + [name])
  {
    var dst := p + [name];
    SubAt(mid, dst, []);
    assert dst + [] == dst;
    forall q: Path, f: string
      ensures dst + q + [f] == dst + (q + [f]) && (dst + (q + [f]) in mid ==> q + [f] in Sub(mid, dst))
    {
      SubAt(mid, dst, q + [f]);
    }
  }

  /** Listing a finished copy is a graft of it. */
  lemma CopyIsGraft(t: Configs, mid: Configs, p: Path, name: string, now: int)
    requires Reach(t, [], p) && name !in t[p].folders && UniqueIds(t, [])
    requires NewBelow(t, mid, p + [name]) && UniqueIds(mid, p + [name])
    requires forall id :: HasId(t, [], id) ==> !HasId(mid, p + [name], id)
    ensures p in mid && UniqueIds(Listed(mid, p, name, now), [])
    ensures forall id :: HasId(Listed(mid, p, name, now), [], id) <==> HasId(t, [], id) || HasId(mid, p + [name], id)
  {
    assert !(p + [name] <= p);
    ListedIsGraft(t, mid, p, name, now);
    WholeSubIsSealed(t, mid, p, name);
    SubIdsAreThere(mid, p + [name]);
    GraftIds(t, Sub(mid, p + [name]), p, name, now);
  }

  lemma SubIdsAreThere(t: Configs, src: Path)
    requires UniqueIds(t, src)
    ensures UniqueIds(Sub(t, src), []) && forall id :: HasId(Sub(t, src), [], id) <==> HasId(t, src, id)
  {
    var sub := Sub(t, src);
    forall q, k, id ensures Holds(sub, [], q, k, id) <==> Holds(t, src, src + q, k, id) {
      ReachInSub(t, src, q);
      SubAt(t, src, q);
    }
    forall q, s: Path | src + q == src + s ensures q == s { assert (src + q)[|src|..] == q && (src + s)[|src|..] == s; }
    forall id ensures HasId(sub, [], id) <==> HasId(t, src, id) {
      if HasId(t, src, id) {
        var r, k :| Holds(t, src, r, k, id);
        ReachIsBelow(t, src, r);
        assert src + r[|src|..] == r;
        assert Holds(sub, [], r[|src|..], k, id);
      }
    }
  }

  lemma NewFolderIsGraft(t: Configs, p: Path, id: Id, name: string, now: int)
    requires p in t
    ensures Listed(t, p, name, now)[p + [name] := NewFolder(id, name, now)]
            == Graft(t, map[[] := NewFolder(id, name, now)], p, name, now)
  {
    var sub: Configs := map[[] := NewFolder(id, name, now)];
    var l, g := Listed(t, p, name, now)[p + [name] := NewFolder(id, name, now)], Graft(t, sub, p, name, now);
    forall r ensures (r in l <==> r in g) && (r in g ==> l[r] == g[r]) {
      if p + [name] <= r {
        assert p + [name] + r[|p| + 1..] == r;
        GraftInside(t, sub, p, name, now, r[|p| + 1..]);
        assert r == p + [name] <==> r[|p| + 1..] == [];
        assert r != p;
      } else {
        GraftOutside(t, sub, p, name, now, r);
      }
    }
  }

  /** Folder by folder, the copy is the source's config without the entries whose
      content is missing, under new ids and times. */
  lemma CopyMirrorsSource(uuid: nat -> Id, t: Configs, u: Configs, s: Store, content: Content, src: Path, dst: Path,
                          name: string, parentId: Id, now: int, lo: nat, hi: nat, q: Path)
    requires Finished(uuid, Trim(Overlay(t, src, dst), content), u, s, dst, name, parentId, now, lo, hi)
    requires src + q in t && Reach(u, dst, dst + q)
    ensures CopyOf(Trimmed(t[src + q], content, dst + q), u[dst + q], if q == [] then name else "", now)
  {
    var trimmed := Trim(Overlay(t, src, dst), content);
    SubAt(t, src, q);
    assert dst <= dst + q && (dst + q)[|dst|..] == q;
    ReachRenewed(trimmed, u, dst, name, now, dst + q);
    assert trimmed[dst + q] == Trimmed(t[src + q], content, dst + q);
    assert dst + q == dst <==> q == [];
  }

  /** What a successful copy leaves: the finished copy, and nothing else is new
      but its entry in the parent's list. */
  ghost predicate CopyOutcome(uuid: nat -> Id, t: Configs, over: Configs, u: Configs, s: Store, content: Content,
                              dest: Path, name: string, now: int, lo: nat, hi: nat)
    requires dest in t
  {
    && dest + [name] in u
    && Finished(uuid, Trim(over, content), u, s, dest + [name], name, t[dest].id, now, lo, hi)
    && OnlyListed(t, u, dest, name, now)
    && forall id :: HasId(u, [], id) <==> HasId(t, [], id) || HasId(u, dest + [name], id)
  }

  /** Away from the new folder `u` is `t` with that folder listed. */
  ghost predicate OnlyListed(t: Configs, u: Configs, dest: Path, name: string, now: int)
    requires dest in t
  {
    && (forall r {:trigger r in u} :: r in t ==> r in u)
    && dest in u && OneMoreChild(t[dest], u[dest], name, now)
    && (forall r {:trigger r in u} {:trigger u[r]} :: r != dest && !(dest + [name] <= r) ==>
          (r in u <==> r in t) && (r in t ==> u[r] == t[r]))
  }

  /** That is a graft of whatever the tree then holds there. */
  lemma OnlyListedIsGraft(t: Configs, u: Configs, dest: Path, name: string, now: int)
    requires dest in t && dest + [name] in u && OnlyListed(t, u, dest, name, now)
    ensures u == Graft(t, Sub(u, dest + [name]), dest, name, now)
  {
    var dst := dest + [name];
    var g := Graft(t, Sub(u, dst), dest, name, now);
    forall r ensures (r in g <==> r in u) && (r in u ==> g[r] == u[r]) {
      if dst <= r {
        PrefixAndRest(dst, r);
        SubAt(u, dst, r[|dst|..]);
        GraftInside(t, Sub(u, dst), dest, name, now, r[|dst|..]);
      } else {
        GraftOutside(t, Sub(u, dst), dest, name, now, r);
      }
    }
  }

  /** Listing a finished copy in its parent: what that means for the ids. */
  lemma ListedCopyIds(uuid: nat -> Id, t: Configs, over: Configs, mid: Configs, dest: Path, name: string, now: int,
                      lo: nat, hi: nat)
    requires Reach(t, [], dest) && name !in t[dest].folders && UniqueIds(t, [])
    requires NeverRepeats(uuid) && lo <= hi && NotInTreeYet(uuid, lo, t)
    requires NewBelow(t, over, dest + [name]) && OnlyBelowChanged(over, mid, dest + [name])
    requires UniqueIds(mid, dest + [name]) && IdsDrawn(uuid, mid, dest + [name], lo, hi)
    ensures dest in mid && dest + [name] in mid
    ensures var u, dst := Listed(mid, dest, name, now), dest + [name];
            && dst in u && u[dst] == mid[dst] && OnlyListed(t, u, dest, name, now)
            && UniqueIds(u, [])
            && (forall id :: HasId(u, [], id) <==> HasId(t, [], id) || HasId(u, dst, id))
            && NotInTreeYet(uuid, hi, u)
  {
    var dst, u := dest + [name], Listed(mid, dest, name, now);
    ProcessedIsNewBelow(t, over, mid, dest, name);
    NewIdsAreApart(uuid, t, mid, dst, lo, hi);
    CopyIsGraft(t, mid, dest, name, now);
    ListedKeepsBelow(mid, dest, name, now);
    SameBelowSameIds(mid, u, dst);
    NoneDrawnYet(uuid, t, u, dst, lo, hi);
  }

  lemma NoneDrawnYet(uuid: nat -> Id, t: Configs, u: Configs, dst: Path, lo: nat, hi: nat)
    requires NeverRepeats(uuid) && lo <= hi && NotInTreeYet(uuid, lo, t) && IdsDrawn(uuid, u, dst, lo, hi)
    requires forall id :: HasId(u, [], id) <==> HasId(t, [], id) || HasId(u, dst, id)
    ensures NotInTreeYet(uuid, hi, u)
  {
    forall j | j >= hi ensures !HasId(u, [], uuid(j)) {
      assert !Drawn(uuid, lo, hi, uuid(j));
    }
  }

  /** And for the copy itself. */
  lemma ListedCopyIsFinished(uuid: nat -> Id, src: Configs, mid: Configs, s: Store, dest: Path, name: string,
                             parentId: Id, now: int, lo: nat, hi: nat)
    requires dest in mid && Finished(uuid, src, mid, s, dest + [name], name, parentId, now, lo, hi)
    ensures Finished(uuid, src, Listed(mid, dest, name, now), s, dest + [name], name, parentId, now, lo, hi)
  {
    ListedKeepsBelow(mid, dest, name, now);
    StaysFinished(uuid, src, mid, Listed(mid, dest, name, now), s, s, dest + [name], name, parentId, now, lo, hi);
  }

  lemma ListedCopy(uuid: nat -> Id, t: Configs, over: Configs, mid: Configs, s: Store, content: Content, dest: Path,
                   name: string, now: int, lo: nat, hi: nat)
    requires Reach(t, [], dest) && name !in t[dest].folders && UniqueIds(t, [])
    requires NeverRepeats(uuid) && lo <= hi && NotInTreeYet(uuid, lo, t)
    requires NewBelow(t, over, dest + [name]) && OnlyBelowChanged(over, mid, dest + [name])
    requires Finished(uuid, Trim(over, content), mid, s, dest + [name], name, t[dest].id, now, lo, hi)
    ensures dest in mid && dest + [name] in mid
    ensures var u := Listed(mid, dest, name, now);
            && CopyOutcome(uuid, t, over, u, s, content, dest, name, now, lo, hi)
            && UniqueIds(u, []) && NotInTreeYet(uuid, hi, u) && u[dest + [name]] == mid[dest + [name]]
  {
    ListedCopyIds(uuid, t, over, mid, dest, name, now, lo, hi);
    ListedCopyIsFinished(uuid, Trim(over, content), mid, s, dest, name, t[dest].id, now, lo, hi);
  }

  lemma ProcessedIsNewBelow(t: Configs, over: Configs, mid: Configs, dest: Path, name: string)
    requires dest in t && NewBelow(t, over, dest + [name]) && OnlyBelowChanged(over, mid, dest + [name])
    ensures NewBelow(t, mid, dest + [name]) && dest in mid
  {
    assert !(dest + [name] <= dest);
  }

  lemma NewIdsAreApart(uuid: nat -> Id, t: Configs, mid: Configs, dst: Path, lo: nat, hi: nat)
    requires IdsDrawn(uuid, mid, dst, lo, hi) && NotInTreeYet(uuid, lo, t)
    ensures forall id :: HasId(t, [], id) ==> !HasId(mid, dst, id)
  {
    forall id | HasId(mid, dst, id) ensures !HasId(t, [], id) {
      var j :| lo <= j < hi && uuid(j) == id;
    }
  }

  lemma ListedKeepsBelow(mid: Configs, dest: Path, name: string, now: int)
    requires dest in mid
    ensures SameBelow(mid, Listed(mid, dest, name, now), dest + [name])
    ensures Sub(mid, dest + [name]) == Sub(Listed(mid, dest, name, now), dest + [name])
  {
    var u, dst := Listed(mid, dest, name, now), dest + [name];
    assert !(dst <= dest);
    forall q: Path ensures q in Sub(mid, dst) <==> q in Sub(u, dst) {
      SubAt(mid, dst, q);
      SubAt(u, dst, q);
    }
    forall q | q in Sub(mid, dst) ensures Sub(mid, dst)[q] == Sub(u, dst)[q] {
      SubAt(mid, dst, q);
      SubAt(u, dst, q);
      assert dst <= dst + q;
    }
  }

  lemma OverlayIsNewBelow(t: Configs, src: Path, dst: Path)
    requires src in t
    ensures NewBelow(t, Overlay(t, src, dst), dst)
  {
    assert src + [] == src && dst[|dst|..] == [];
    forall x { SubAt(t, src, x); }
  }

  // ---- What the edits come to, path by path ----

  predicate Names(files: seq<FileRecord>, name: string) { exists f :: f in files && f.name == name }

  /** Nothing but these two folders has changed. */
  ghost predicate SameBut(t: Configs, u: Configs, p: Path, q: Path) {
    forall r :: r != p && r != q ==> (r in u <==> r in t) && (r in t ==> u[r] == t[r])
  }

  ghost predicate FolderAdded(t: Configs, u: Configs, p: Path, name: string, id: Id, now: int) {
    && p in t && p in u && OneMoreChild(t[p], u[p], name, now)
    && p + [name] in u && u[p + [name]] == FolderConfig(id, name, now, now, "{}", [], [])
    && SameBut(t, u, p, p + [name])
  }

  /** The folder has these files now and is otherwise as it was. */
  ghost predicate FilesAre(c: FolderConfig, d: FolderConfig, files: seq<FileRecord>, now: int) {
    && d.files == files && d.modified == now
    && d.id == c.id && d.name == c.name && d.created == c.created && d.metadata == c.metadata && d.folders == c.folders
  }

  ghost predicate FileAdded(t: Configs, u: Configs, p: Path, name: string, id: Id, now: int) {
    && p in t && p in u && FilesAre(t[p], u[p], t[p].files + [FileRecord(id, name, now, now, "{}", [], [])], now)
    && SameBut(t, u, p, p)
  }

  /** The first record of the name has left one folder and is the last of the
      other; it and everything else are as they were but for the times. */
  ghost predicate FileMoved(t: Configs, u: Configs, src: Path, name: string, dest: Path, now: int) {
    && src != dest && src in t && dest in t && src in u && dest in u
    && exists k: nat :: k < |t[src].files| && t[src].files[k].name == name
                        && (forall j :: 0 <= j < k ==> t[src].files[j].name != name)
                        && FilesAre(t[src], u[src], t[src].files[..k] + t[src].files[k + 1..], now)
                        && FilesAre(t[dest], u[dest], t[dest].files + [t[src].files[k].(modified := now)], now)
                        && SameBut(t, u, src, dest)
  }

  /** The folder's first entry in its parent's list is gone, the destination lists
      it last, and all configs below it have moved along. */
  ghost predicate FolderMoved(t: Configs, u: Configs, src: Path, dest: Path, now: int)
    requires src != []
  {
    var p, name := ParentPath(src), src[|src| - 1];
    && p in t && p in u && dest in t && dest in u
    && FirstErased(t[p].folders, name, u[p].folders) && u[p] == t[p].(folders := u[p].folders, modified := now)
    && OneMoreChild(t[dest], u[dest], name, now)
    && (forall q :: dest + [name] + q in u <==> src + q in t)
    && (forall q :: src + q in t && dest + [name] + q in u ==> u[dest + [name] + q] == t[src + q])
    && (forall r :: !(dest + [name] <= r) && r != p && r != dest ==>
          (r in u <==> r in t && !(src <= r)) && (r in u && r in t ==> u[r] == t[r]))
  }

  /** One folder row has come in; a parent without a row is no parent. */
  ghost predicate FolderRowAdded(s: Store, u: Store, id: Id, parentId: Id, name: string, now: int) {
    var parent := if parentId in s.folders then parentId else "";
    u == Store(s.folders[id := FolderRow(id, parent, name, now, now, "{}")], s.files)
  }

  /** One file row has come in, if the folder has one. */
  ghost predicate FileRowAdded(s: Store, u: Store, id: Id, folderId: Id, name: string, now: int) {
    if folderId == "" || folderId in s.folders then
      u == Store(s.folders, s.files[id := FileRow(id, folderId, name, now, now, "{}", {}, [])])
    else u == s
  }

  lemma NewFolderIsAdded(t: Configs, p: Path, id: Id, name: string, now: int)
    requires p in t
    ensures FolderAdded(t, Listed(t, p, name, now)[p + [name] := NewFolder(id, name, now)], p, name, id, now)
  {
    assert p != p + [name];
  }

  lemma NewFileIsAdded(t: Configs, p: Path, id: Id, name: string, now: int)
    requires p in t
    ensures FileAdded(t, AddFile(t, p, NewFile(id, name, now), now), p, name, id, now)
  {
  }

  lemma FileIsMoved(t: Configs, src: Path, k: nat, dest: Path, now: int)
    requires src in t && dest in t && src != dest && k < |t[src].files|
    requires forall j :: 0 <= j < k ==> t[src].files[j].name != t[src].files[k].name
    ensures var f := t[src].files[k];
            FileMoved(t, AddFile(RemoveFile(t, src, k, now), dest, f.(modified := now), now), src, f.name, dest, now)
  {
  }

  lemma PruneAt(t: Configs, src: Path, now: int, r: Path)
    requires src != [] && ParentPath(src) in t && r in t && !(src <= r)
    ensures r in Prune(t, src, now)
    ensures Prune(t, src, now)[r] ==
            if r == ParentPath(src) then
              t[r].(folders := EraseFirst(t[r].folders, src[|src| - 1]), modified := now)
            else t[r]
  {
  }

  lemma PathsApart(src: Path, q: Path, name: string)
    requires src != []
    ensures !(src <= ParentPath(src)) && !(q + [name] <= q)
  {
  }

  lemma PruneAndGraftLists(t: Configs, src: Path, q: Path, now: int)
    requires src != [] && ParentPath(src) in t && q in t && q != ParentPath(src) && !(src <= q)
    requires src[|src| - 1] in t[ParentPath(src)].folders
    requires !(q + [src[|src| - 1]] <= ParentPath(src))
    ensures q in Prune(t, src, now)
    ensures var p, name := ParentPath(src), src[|src| - 1];
            var g := Graft(Prune(t, src, now), Sub(t, src), q, name, now);
            && p in g && FirstErased(t[p].folders, name, g[p].folders)
            && g[p] == t[p].(folders := g[p].folders, modified := now)
            && q in g && OneMoreChild(t[q], g[q], name, now)
  {
    var p, name := ParentPath(src), src[|src| - 1];
    PathsApart(src, q, name);
    PruneAt(t, src, now, p);
    PruneAt(t, src, now, q);
    var u := Prune(t, src, now);
    EraseFirstErases(t[p].folders, name);
    GraftOutside(u, Sub(t, src), q, name, now, p);
    GraftAddsOneChild(u, Sub(t, src), q, name, now);
  }

  lemma PruneAndGraftMoves(t: Configs, src: Path, q: Path, now: int)
    requires src != [] && ParentPath(src) in t && q in t && q != ParentPath(src) && !(src <= q)
    requires src[|src| - 1] in t[ParentPath(src)].folders
    requires forall r :: r in t ==> !(q + [src[|src| - 1]] <= r)
    ensures q in Prune(t, src, now)
    ensures FolderMoved(t, Graft(Prune(t, src, now), Sub(t, src), q, src[|src| - 1], now), src, q, now)
  {
    var p, name := ParentPath(src), src[|src| - 1];
    PruneAndGraftLists(t, src, q, now);
    var g := Graft(Prune(t, src, now), Sub(t, src), q, name, now);
    forall r: Path
      ensures (q + [name] + r in g <==> src + r in t) && (src + r in t ==> g[q + [name] + r] == t[src + r]) {
      PruneAndGraftAt(t, src, q, now, q + [name] + r);
      assert q + [name] <= q + [name] + r && (q + [name] + r)[|q| + 1..] == r;
    }
    forall r | !(q + [name] <= r) && r != p && r != q
      ensures (r in g <==> r in t && !(src <= r)) && (r in g ==> g[r] == t[r]) {
      PruneAndGraftAt(t, src, q, now, r);
    }
  }

  ghost predicate NoRowYet(uuid: nat -> Id, drawn: nat, s: Store) {
    forall j :: j >= drawn ==> uuid(j) !in s.folders && uuid(j) !in s.files
  }

  ghost predicate NotInTreeYet(uuid: nat -> Id, drawn: nat, t: Configs) {
    forall j :: j >= drawn ==> !HasId(t, [], uuid(j))
  }

  /** The folder manager's state as the edits see it. The cached configs and the
      vx.json files agree, so one map stands for both. */
  class FolderEditor {
    const readOnly: bool
    const uuid: nat -> Id
    var drawn: nat
    var configs: Configs
    var content: Content
    var store: Store

    /** GenerateUUID never repeats itself, and no row has an id yet to be drawn. */
    ghost predicate Valid() reads this {
      NeverRepeats(uuid) && NoRowYet(uuid, drawn, store)
    }

    method Draw() returns (id: Id)
      requires Valid()
      modifies this`drawn
      ensures Valid() && drawn == old(drawn) + 1 && id == uuid(old(drawn))
    {
      id, drawn := uuid(drawn), drawn + 1;
    }

    /** The folder's records under new ids, one draw each, in order. */
    method RenewRecords(old_: FolderConfig, name: string, now: int) returns (new_: FolderConfig)
      requires Valid()
      modifies this`drawn
      ensures Valid() && CopyOf(old_, new_, name, now)
      ensures drawn == old(drawn) + 1 + |old_.files|
      ensures forall k :: 0 <= k <= |old_.files| ==> NodeIds(new_)[k] == uuid(old(drawn) + k)
    {
      var id := Draw();
      var files: seq<FileRecord> := [];
      for k := 0 to |old_.files|
        invariant Valid() && drawn == old(drawn) + 1 + k && |files| == k
        invariant forall i :: 0 <= i < k ==>
                    files[i] == old_.files[i].(id := uuid(old(drawn) + 1 + i), created := now, modified := now)
      {
        var fileId := Draw();
        files := files + [old_.files[k].(id := fileId, created := now, modified := now)];
      }
      new_ := old_.(id := id, files := files, created := now, modified := now,
                    name := if name == "" then old_.name else name);
    }

    /** Write-through of one folder: the rows say what the config says, and
        nothing else in the store changes. */
    method WriteRows(c: FolderConfig, parentId: Id, ghost lo: nat)
      requires Valid() && parentId in store.folders && Distinct(NodeIds(c))
      requires forall id :: id in NodeIds(c) ==>
                Drawn(uuid, lo, drawn, id) && id !in store.folders && id !in store.files
      modifies this`store
      ensures Valid() && RowsOf(c, store, parentId) && GrewByDrawn(uuid, old(store), store, lo, drawn)
    {
      assert NodeIds(c)[0] == c.id;
      store := LazySync.CreateFolder(store, ToFolderRow(c, parentId));
      NodeIdsAreDistinct(c);
      WriteFileRows(c.files, c.id);
      forall id | id in FileIds(c.files) ensures Drawn(uuid, lo, drawn, id) { assert id in NodeIds(c); }
    }

    method WriteFileRows(files: seq<FileRecord>, folderId: Id)
      requires folderId in store.folders && Distinct(FileIds(files))
      requires forall id :: id in FileIds(files) ==> id !in store.files
      modifies this`store
      ensures store.folders == old(store).folders
      ensures forall f :: f in files ==> f.id in store.files && store.files[f.id] == StoredRow(f, folderId)
      ensures forall id :: id in old(store).files ==> id in store.files && store.files[id] == old(store).files[id]
      ensures forall id :: id in store.files ==> id in old(store).files || id in FileIds(files)
    {
      for k := 0 to |files|
        invariant store.folders == old(store).folders
        invariant forall i :: 0 <= i < k ==>
                    files[i].id in store.files && store.files[files[i].id] == StoredRow(files[i], folderId)
        invariant forall id :: id in old(store).files ==> id in store.files && store.files[id] == old(store).files[id]
        invariant forall id :: id in store.files ==> id in old(store).files || id in FileIds(files)
      {
        assert FileIds(files)[k] == files[k].id && files[k].id in FileIds(files);
        forall i | 0 <= i < k ensures files[i].id != files[k].id { assert FileIds(files)[i] != FileIds(files)[k]; }
        store := LazySync.CreateFile(store, ToFileRow(files[k], folderId), files[k].tags);
      }
    }

    /** Gives the folder tree at `path` ids of its own. On success it is a fresh
        copy of what was there, without the entries whose content is missing,
        and the store mirrors it; a missing config below is an error. */
    method ProcessCopiedFolderTree(path: Path, parentId: Id, newName: string, now: int) returns (r: Result<()>)
      requires Valid() && parentId in store.folders
      modifies this`drawn, this`configs, this`store
      ensures Valid() && drawn >= old(drawn) && GrewByDrawn(uuid, old(store), store, old(drawn), drawn)
      ensures OnlyBelowChanged(old(configs), configs, path)
      ensures r.Ok? ==> Finished(uuid, Trim(old(configs), content), configs, store, path, newName, parentId, now,
                                 old(drawn), drawn)
      ensures r == Err(NotFound) ==> !Complete(Trim(old(configs), content), path)
      ensures r.Err? ==> r.error in {IoError, NotFound}
      decreases Below(configs, path), 1
    {
      if path !in configs { return Err(NotFound); }
      ghost var src := Trim(configs, content);
      var own := RenewFolder(path, parentId, newName, now);
      if own.Err? { return Err(own.error); }
      ghost var t, mid, s := configs, drawn, store;
      OwnConfigOnly(old(configs), own.value, content, path);
      SameKeysSameDepth(old(configs), configs, path);
      TrimIsPresent(old(configs), content);
      ghost var ranges;
      r, ranges := ProcessChildren(path, own.value.folders, own.value.id, now, src);
      GrowthAddsUp(uuid, old(store), s, store, old(drawn), mid, drawn);
      if r.Ok? {
        WholeFinished(uuid, src, t, configs, s, store, path, newName, parentId, now, old(drawn), mid, drawn, ranges);
      } else if r == Err(NotFound) {
        IncompleteChild(src, path);
      }
    }

    /** The folder's own config and rows. */
    method RenewFolder(path: Path, parentId: Id, newName: string, now: int) returns (r: Result<FolderConfig>)
      requires Valid() && parentId in store.folders && path in configs
      modifies this`drawn, this`configs, this`store
      ensures Valid() && drawn >= old(drawn) && GrewByDrawn(uuid, old(store), store, old(drawn), drawn)
      ensures r.Err? ==> r == Err(IoError) && configs == old(configs)
      ensures r.Ok? ==> configs == old(configs)[path := r.value]
                        && OwnDone(uuid, Trim(old(configs), content), configs, store, path, newName, parentId, now,
                                   old(drawn), drawn)
    {
      var config := RenewRecords(Trimmed(configs[path], content, path), newName, now);
      RenewedIdsAreNew(uuid, config, old(drawn), drawn);
      var saved: bool := *;
      if !saved { return Err(IoError); }
      configs := configs[path := config];
      WriteRows(config, parentId, old(drawn));
      r := Ok(config);
    }

    /** A folder that is listed twice is processed twice, the second time as the
        copy that the first time made of it. */
    method ProcessChildren(path: Path, names: seq<string>, ownId: Id, now: int, ghost src: Configs)
      returns (r: Result<()>, ghost ranges: map<string, Range>)
      requires Valid() && ownId in store.folders && path in configs && AllPresent(src, content)
      requires AllPrepared(src, Trim(configs, content), path, names, now)
      modifies this`drawn, this`configs, this`store
      ensures Valid() && drawn >= old(drawn) && GrewByDrawn(uuid, old(store), store, old(drawn), drawn)
      ensures OnlyBelowChanged(old(configs), configs, path) && configs[path] == old(configs)[path]
      ensures r.Ok? ==> ChildrenDone(uuid, src, configs, store, path, ownId, now, ranges, old(drawn), drawn)
                        && forall f :: f in names ==> f in ranges
      ensures r == Err(NotFound) ==> exists f :: f in names && !Complete(src, path + [f])
      ensures r.Err? ==> r.error in {IoError, NotFound}
      decreases Below(configs, path), 0
    {
      ranges := map[];
      for i := 0 to |names|
        invariant Valid() && forall j :: 0 <= j < i ==> names[j] in ranges
        invariant Underway(uuid, src, old(configs), configs, old(store), store, content, path, names, ownId, now,
                           ranges, old(drawn), drawn)
      {
        ghost var f, t, s, lo := names[i], configs, store, drawn;
        SameKeysSameDepth(old(configs), configs, path);
        BelowShrinks(configs, path, names[i]);
        r := ProcessCopiedFolderTree(path + [names[i]], ownId, "", now);
        if r.Err? {
          ChildFailed(uuid, src, old(configs), t, configs, old(store), s, store, content, path, names, ownId, now, f,
                      ranges, old(drawn), lo, drawn);
          return;
        }
        ChildProcessed(uuid, src, old(configs), t, configs, old(store), s, store, content, path, names, ownId, now, f,
                       ranges, old(drawn), lo, drawn);
        AllInOneMore(names, i, ranges, Range(lo, drawn));
        ranges := ranges[f := Range(lo, drawn)];
      }
      r := Ok(());
    }

    // ---- The edits ----

    /** Ids in reach are distinct, and none of them is yet to be drawn. */
    ghost predicate Intact() reads this {
      Valid() && UniqueIds(configs, []) && NotInTreeYet(uuid, drawn, configs)
    }

    /** The paths of an edit are folders of the tree, or of nothing. */
    ghost predicate InTree(p: Path) reads this { p in configs ==> Reach(configs, [], p) }

    method Saved() returns (ok: bool) { ok := *; }

    method CreateFolder(parent: Path, name: string, now: int) returns (r: Result<Id>)
      requires Intact() && InTree(parent)
      modifies this`configs, this`content, this`drawn, this`store
      ensures r.Ok? ==> parent in old(configs) && r.value == uuid(old(drawn))
                        && configs == Graft(old(configs), map[[] := NewFolder(r.value, name, now)], parent, name, now)
      ensures r.Ok? ==>
                Intact() && forall id :: HasId(configs, [], id) <==> HasId(old(configs), [], id) || id == r.value
      ensures r.Ok? ==> content == old(content)[parent + [name] := Directory]
                        && store == LazySync.CreateFolder(
                                    old(store), ToFolderRow(NewFolder(r.value, name, now), old(configs)[parent].id))
      ensures r.Err? && r.error != IoError ==>
                configs == old(configs) && content == old(content) && store == old(store)
      ensures r.Err? && r.error != IoError ==>
                r.error == if readOnly then ReadOnly
                           else if parent + [name] in content then AlreadyExists
                           else if parent !in configs then NotFound
                           else AlreadyExists
      ensures r.Err? && r.error != IoError <==>
                readOnly || parent + [name] in old(content) || parent !in old(configs)
                || name in old(configs)[parent].folders
      ensures r.Ok? ==> FolderAdded(old(configs), configs, parent, name, r.value, now)
      ensures r.Ok? ==> FolderRowAdded(old(store), store, r.value, old(configs)[parent].id, name, now)
    {
      if readOnly { return Err(ReadOnly); }
      if parent + [name] in content { return Err(AlreadyExists); }
      if parent !in configs { return Err(NotFound); }
      if name in configs[parent].folders { return Err(AlreadyExists); }
      var made := Saved();
      if !made { return Err(IoError); }
      content := content[parent + [name] := Directory];
      ghost var t := configs;
      var ownId := configs[parent].id;
      configs := Listed(configs, parent, name, now);
      var saved := Saved();
      if !saved { return Err(IoError); }
      var id := Draw();
      saved := Saved();
      if !saved { return Err(IoError); }
      configs := configs[parent + [name] := NewFolder(id, name, now)];
      store := LazySync.CreateFolder(store, ToFolderRow(NewFolder(id, name, now), ownId));
      NewFolderIsGraft(t, parent, id, name, now);
      NewFolderIds(t, parent, id, name, now);
      NewFolderIsAdded(t, parent, id, name, now);
      r := Ok(id);
    }

    method CreateFile(folder: Path, name: string, now: int) returns (r: Result<Id>)
      requires Intact() && InTree(folder)
      modifies this`configs, this`content, this`drawn, this`store
      ensures r.Ok? ==> folder in old(configs) && r.value == uuid(old(drawn))
                        && (forall f :: f in old(configs)[folder].files ==> f.name != name)
                        && configs == AddFile(old(configs), folder, NewFile(r.value, name, now), now)
      ensures r.Ok? ==>
                Intact() && forall id :: HasId(configs, [], id) <==> HasId(old(configs), [], id) || id == r.value
      ensures r.Ok? ==> content == old(content)[folder + [name] := RegularFile]
                        && store == LazySync.CreateFile(
                                      old(store), ToFileRow(NewFile(r.value, name, now), configs[folder].id), [])
      ensures r.Err? && r.error != IoError ==> configs == old(configs) && content == old(content) && store == old(store)
      ensures r.Err? && r.error != IoError <==>
                readOnly || folder + [name] in old(content) || folder !in old(configs)
                || Names(old(configs)[folder].files, name)
      ensures r.Err? && r.error != IoError ==>
                r.error == if readOnly then ReadOnly
                           else if folder + [name] in content then AlreadyExists
                           else if folder !in configs then NotFound
                           else AlreadyExists
      ensures r.Ok? ==> FileAdded(old(configs), configs, folder, name, r.value, now)
      ensures r.Ok? ==> FileRowAdded(old(store), store, r.value, old(configs)[folder].id, name, now)
    {
      if readOnly { return Err(ReadOnly); }
      if folder + [name] in content { return Err(AlreadyExists); }
      if folder !in configs { return Err(NotFound); }
      if FindRecord(configs[folder].files, name) != -1 { return Err(AlreadyExists); }
      var made := Saved();
      if !made { return Err(IoError); }
      content := content[folder + [name] := RegularFile];
      var id := Draw();
      var file := NewFile(id, name, now);
      AddFileIds(configs, folder, file, now);
      NewFileIsAdded(configs, folder, id, name, now);
      configs := AddFile(configs, folder, file, now);
      var saved := Saved();
      if !saved { return Err(IoError); }
      store := LazySync.CreateFile(store, ToFileRow(file, configs[folder].id), []);
      r := Ok(id);
    }

    /** The record moves as it is, but for its modification time. */
    method MoveFile(src: Path, name: string, dest: Path, now: int) returns (r: Result<()>)
      requires Intact() && InTree(src) && InTree(dest)
      modifies this`configs, this`content
      ensures r.Ok? ==> src in old(configs) && dest in old(configs) && FindRecord(old(configs)[src].files, name) != -1
      ensures r.Ok? ==> var k := FindRecord(old(configs)[src].files, name);
                        var removed := RemoveFile(old(configs), src, k, now);
                        configs == AddFile(removed, dest, old(configs)[src].files[k].(modified := now), now)
      ensures r.Ok? ==> Intact() && forall id :: HasId(configs, [], id) <==> HasId(old(configs), [], id)
      ensures r.Ok? ==> content == Relocate(old(content), src + [name], dest + [name])
      ensures r.Err? && r.error != IoError ==> configs == old(configs) && content == old(content)
      ensures r.Err? && r.error != IoError <==>
                readOnly || src !in old(configs) || !Names(old(configs)[src].files, name) || dest !in old(configs)
                || Names(old(configs)[dest].files, name) || src + [name] !in old(content)
                || dest + [name] in old(content)
      ensures r.Err? && r.error != IoError ==>
                r.error == if readOnly then ReadOnly
                           else if src !in configs || !Names(configs[src].files, name) || dest !in configs then NotFound
                           else if Names(configs[dest].files, name) then AlreadyExists
                           else if src + [name] !in content then NodeNotExists
                           else AlreadyExists
      ensures r.Ok? ==> FileMoved(old(configs), configs, src, name, dest, now)
    {
      if readOnly { return Err(ReadOnly); }
      if src !in configs { return Err(NotFound); }
      var k := FindRecord(configs[src].files, name);
      if k == -1 { return Err(NotFound); }
      if dest !in configs { return Err(NotFound); }
      if FindRecord(configs[dest].files, name) != -1 { return Err(AlreadyExists); }
      if src + [name] !in content { return Err(NodeNotExists); }
      if dest + [name] in content { return Err(AlreadyExists); }
      var renamed := Saved();
      if !renamed { return Err(IoError); }
      content := Relocate(content, src + [name], dest + [name]);
      var file := configs[src].files[k].(modified := now);
      MoveFileIds(configs, src, k, dest, file, now);
      FileIsMoved(configs, src, k, dest, now);
      configs := RemoveFile(configs, src, k, now);
      var saved := Saved();
      if !saved { return Err(IoError); }
      configs := AddFile(configs, dest, file, now);
      saved := Saved();
      if !saved { return Err(IoError); }
      r := Ok(());
    }

    /** Why a move is refused before anything is touched. */
    ghost function MoveRefusal(t: Configs, content: Content, src: Path, dest: Path): Option<Error>
      requires src != []
    {
      var parent, name := ParentPath(src), src[|src| - 1];
      if readOnly then Some(ReadOnly)
      else if src !in content then Some(if src in t then NodeNotExists else NotFound)
      else if dest + [name] in content then Some(AlreadyExists)
      else if parent !in t || dest !in t || src !in t || name !in t[parent].folders then Some(NotFound)
      else if name in t[dest].folders then Some(AlreadyExists)
      else None
    }

    /** A renamed directory cannot go inside itself or onto one that holds anything. */
    method MoveFolder(src: Path, dest: Path, now: int) returns (r: Result<()>)
      requires Intact() && InTree(src) && InTree(dest) && src != [] && InTree(ParentPath(src))
      modifies this`configs, this`content
      ensures r.Ok? ==> ParentPath(src) in old(configs) && dest in Prune(old(configs), src, now)
                        && configs == Graft(Prune(old(configs), src, now), Sub(old(configs), src), dest,
                                            src[|src| - 1], now)
      ensures r.Ok? ==> Intact() && forall id :: HasId(configs, [], id) <==> HasId(old(configs), [], id)
      ensures r.Ok? ==> content == Relocate(old(content), src, dest + [src[|src| - 1]])
      ensures r.Err? && r.error != IoError ==> configs == old(configs) && content == old(content)
      ensures r.Err? && r.error != IoError <==> MoveRefusal(old(configs), old(content), src, dest).Some?
      ensures r.Err? && r.error != IoError ==> Some(r.error) == MoveRefusal(old(configs), old(content), src, dest)
      ensures r.Ok? ==> FolderMoved(old(configs), configs, src, dest, now)
    {
      if readOnly { return Err(ReadOnly); }
      var parent, name := ParentPath(src), src[|src| - 1];
      if src !in content { return Err(if src in configs then NodeNotExists else NotFound); }
      if dest + [name] in content { return Err(AlreadyExists); }
      if parent !in configs || dest !in configs || src !in configs { return Err(NotFound); }
      if name !in configs[parent].folders { return Err(NotFound); }
      if name in configs[dest].folders { return Err(AlreadyExists); }
      var moved := MoveDirectories(src, dest, now);
      r := if moved then Ok(()) else Err(IoError);
    }

    method MoveDirectories(src: Path, dest: Path, now: int) returns (moved: bool)
      requires Intact() && src != [] && Reach(configs, [], src) && Reach(configs, [], dest)
      requires dest != ParentPath(src) && src[|src| - 1] !in configs[dest].folders
      modifies this`configs, this`content
      ensures moved ==> ParentPath(src) in old(configs) && dest in Prune(old(configs), src, now)
                        && configs == Graft(Prune(old(configs), src, now), Sub(old(configs), src), dest,
                                            src[|src| - 1], now)
      ensures moved ==> Intact() && forall id :: HasId(configs, [], id) <==> HasId(old(configs), [], id)
      ensures moved ==> content == Relocate(old(content), src, dest + [src[|src| - 1]])
      ensures moved ==> FolderMoved(old(configs), configs, src, dest, now)
    {
      var renamed := Saved();
      if !renamed || src <= dest || AnyBelow(configs, dest + [src[|src| - 1]]) { return false; }
      content := Relocate(content, src, dest + [src[|src| - 1]]);
      moved := MoveConfigs(src, dest, now);
    }

    /** The config directory and the two lists. */
    method MoveConfigs(src: Path, dest: Path, now: int) returns (saved: bool)
      requires Intact() && src != [] && Reach(configs, [], src) && Reach(configs, [], dest) && !(src <= dest)
      requires dest != ParentPath(src) && src[|src| - 1] !in configs[dest].folders
              && !AnyBelow(configs, dest + [src[|src| - 1]])
      modifies this`configs
      ensures saved ==> ParentPath(src) in old(configs) && dest in Prune(old(configs), src, now)
                        && configs == Graft(Prune(old(configs), src, now), Sub(old(configs), src), dest,
                                            src[|src| - 1], now)
      ensures saved ==> Intact() && forall id :: HasId(configs, [], id) <==> HasId(old(configs), [], id)
      ensures saved ==> FolderMoved(old(configs), configs, src, dest, now)
    {
      ghost var t := configs;
      var parent, name := ParentPath(src), src[|src| - 1];
      MoveFolderIds(t, src, dest, now);
      MoveIsPruneAndGraft(t, src, dest, now);
      PruneAndGraftMoves(t, src, dest, now);
      configs := Relocate(configs, src, dest + [name]);
      var left := EraseFirst(configs[parent].folders, name);
      configs := configs[parent := configs[parent].(folders := left, modified := now)];
      saved := Saved();
      if !saved { return; }
      configs := Listed(configs, dest, name, now);
      saved := Saved();
    }

    /** Why a copy is refused before anything is touched. */
    ghost function CopyRefusal(t: Configs, content: Content, src: Path, dest: Path, name: string): Option<Error> {
      if readOnly then Some(ReadOnly)
      else if src !in content then Some(if src in t then NodeNotExists else NotFound)
      else if dest + [name] in content then Some(AlreadyExists)
      else if dest !in t then Some(NotFound)
      else if name in t[dest].folders then Some(AlreadyExists)
      else if src !in t then Some(NotFound)
      else None
    }

    /** `arrived` is what the copy of the content tree brought over. The result is
        the tree with a fresh copy grafted in. */
    method CopyFolder(src: Path, dest: Path, newName: string, now: int, arrived: Content) returns (r: Result<Id>)
      requires Intact() && InTree(dest) && src != []
      requires dest in configs ==> configs[dest].id in store.folders
      modifies this`configs, this`content, this`drawn, this`store
      ensures r.Ok? ==> dest in old(configs) && src in old(configs) && Intact()
      ensures var name := if newName == "" then src[|src| - 1] else newName;
              r.Ok? ==> Copied(old(configs), Overlay(old(configs), src, dest + [name]), dest, name, now, old(drawn),
                               r.value)
      ensures r.Ok? ==> content == old(content) + arrived
      ensures r.Err? && r.error !in {IoError, NotFound} ==>
                configs == old(configs) && content == old(content) && store == old(store)
      ensures var name := if newName == "" then src[|src| - 1] else newName;
              var refusal := CopyRefusal(old(configs), old(content), src, dest, name);
              if refusal.Some? then
                r == Err(refusal.value) && configs == old(configs) && content == old(content) && store == old(store)
              else r.Err? ==> r.error in {IoError, NotFound}
    {
      if readOnly { return Err(ReadOnly); }
      var name := if newName == "" then src[|src| - 1] else newName;
      if src !in content { return Err(if src in configs then NodeNotExists else NotFound); }
      if dest + [name] in content { return Err(AlreadyExists); }
      if dest !in configs { return Err(NotFound); }
      if name in configs[dest].folders { return Err(AlreadyExists); }
      if src !in configs { return Err(NotFound); }
      var copied := Saved();
      if !copied || src <= dest + [name] { return Err(IoError); }
      content := content + arrived;
      copied := Saved();
      if !copied { return Err(IoError); }
      r := AdoptCopy(src, dest, name, now);
    }

    /** What a successful copy into `dest` means; `over` is the tree with the
        source's configs laid over the new path. */
    ghost predicate Copied(t: Configs, over: Configs, dest: Path, name: string, now: int, lo: nat, id: Id)
      requires dest in t
      reads this
    {
      && dest + [name] in configs && id == configs[dest + [name]].id
      && CopyOutcome(uuid, t, over, configs, store, content, dest, name, now, lo, drawn)
    }

    method AdoptCopy(src: Path, dest: Path, name: string, now: int) returns (r: Result<Id>)
      requires Intact() && src in configs && Reach(configs, [], dest) && name !in configs[dest].folders
      requires configs[dest].id in store.folders
      modifies this`configs, this`drawn, this`store
      ensures r.Ok? ==> Intact() && Copied(old(configs), Overlay(old(configs), src, dest + [name]), dest, name, now,
                                           old(drawn), r.value)
      ensures r.Err? ==> r.error in {IoError, NotFound}
    {
      ghost var t, lo := configs, drawn;
      var parentId := configs[dest].id;
      var done := CopyConfigs(src, dest, name, parentId, now);
      if done.Err? { return Err(done.error); }
      r := ListCopy(dest, name, now, t, Overlay(t, src, dest + [name]), lo);
    }

    /** The finished copy gets its entry in the parent's list. */
    method ListCopy(dest: Path, name: string, now: int, ghost t: Configs, ghost over: Configs, ghost lo: nat)
      returns (r: Result<Id>)
      requires Valid() && lo <= drawn && NotInTreeYet(uuid, lo, t) && UniqueIds(t, [])
      requires Reach(t, [], dest) && name !in t[dest].folders
      requires NewBelow(t, over, dest + [name]) && OnlyBelowChanged(over, configs, dest + [name])
      requires Finished(uuid, Trim(over, content), configs, store, dest + [name], name, t[dest].id, now, lo, drawn)
      modifies this`configs
      ensures r.Ok? ==> Intact() && Copied(t, over, dest, name, now, lo, r.value)
      ensures r.Err? ==> r.error == IoError
    {
      ListedCopy(uuid, t, over, configs, store, content, dest, name, now, lo, drawn);
      var id := configs[dest + [name]].id;
      configs := Listed(configs, dest, name, now);
      var saved := Saved();
      if !saved { return Err(IoError); }
      r := Ok(id);
    }

    method CopyConfigs(src: Path, dest: Path, name: string, parentId: Id, now: int) returns (r: Result<()>)
      requires Valid() && src in configs && dest in configs && parentId in store.folders
      modifies this`configs, this`drawn, this`store
      ensures Valid() && drawn >= old(drawn)
      ensures var t, dst := old(configs), dest + [name];
              var over := Overlay(t, src, dst);
              && NewBelow(t, over, dst) && OnlyBelowChanged(over, configs, dst)
              && (r.Ok? ==> Finished(uuid, Trim(over, content), configs, store, dst, name, parentId, now,
                                     old(drawn), drawn))
      ensures r.Err? ==> r.error in {IoError, NotFound}
    {
      OverlayIsNewBelow(configs, src, dest + [name]);
      configs := Overlay(configs, src, dest + [name]);
      r := ProcessCopiedFolderTree(dest + [name], parentId, name, now);
    }
  }

  predicate AnyBelow(t: Configs, p: Path) { exists r :: r in t && p <= r }
}
