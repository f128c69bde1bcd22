/** The folder tree that is reachable from a root through the `folders` lists of
    the vx.json files, and the ids it holds (src/core/bundled_folder_manager.cpp,
    CollectAllNodeIds). */
module FolderTree {
  import opened Records
  import opened Collections
  import opened LazySync

  ghost predicate Reach(t: Configs, root: Path, r: Path)
    decreases |r|
  {
    && r in t
    && (r == root ||
        (|r| > |root| && Reach(t, root, ParentPath(r)) && r[|r| - 1] in t[ParentPath(r)].folders))
  }

  /** Slot -1 of a folder is its own id, slot k the id of its k-th file. */
  ghost predicate Owns(t: Configs, r: Path, k: int, id: Id) {
    && r in t && -1 <= k < |t[r].files|
    && id == if k == -1 then t[r].id else t[r].files[k].id
  }

  ghost predicate Holds(t: Configs, root: Path, r: Path, k: int, id: Id) {
    Reach(t, root, r) && Owns(t, r, k, id)
  }

  ghost predicate HasId(t: Configs, root: Path, id: Id) {
    exists r, k :: Holds(t, root, r, k, id)
  }

  /** Folder and file ids below the root are pairwise distinct, in one namespace. */
  ghost predicate UniqueIds(t: Configs, root: Path) {
    forall r, k, s, l, id :: Holds(t, root, r, k, id) && Holds(t, root, s, l, id) ==> r == s && k == l
  }

  // ---- Reachability from a folder and from its children ----

  lemma {:induction false} ReachIsBelow(t: Configs, root: Path, r: Path)
    requires Reach(t, root, r)
    ensures root <= r && root in t
    decreases |r|
  {
    if r != root { ReachIsBelow(t, root, ParentPath(r)); }
  }

  lemma {:induction false} ReachThroughChild(t: Configs, root: Path, f: string, r: Path)
    requires root in t && f in t[root].folders && Reach(t, root + [f], r)
    ensures Reach(t, root, r)
    decreases |r|
  {
    if r == root + [f] {
      assert ParentPath(r) == root;
    } else {
      ReachThroughChild(t, root, f, ParentPath(r));
    }
  }

  lemma {:induction false} ReachNeedsChild(t: Configs, root: Path, r: Path)
    requires Reach(t, root, r) && r != root
    ensures root <= r && |r| > |root| && root in t
    ensures r[|root|] in t[root].folders && Reach(t, root + [r[|root|]], r)
    decreases |r|
  {
    ReachIsBelow(t, root, r);
    var child := root + [r[|root|]];
    if ParentPath(r) == root {
      assert r == child;
    } else {
      ReachNeedsChild(t, root, ParentPath(r));
      assert ParentPath(r)[|root|] == r[|root|];
    }
  }

  /** Only the lists at and below the root matter. */
  lemma {:induction false} ReachAgrees(t: Configs, u: Configs, root: Path, r: Path)
    requires forall q :: root <= q && q in t ==> q in u && u[q].folders == t[q].folders
    requires Reach(t, root, r)
    ensures Reach(u, root, r)
    decreases |r|
  {
    ReachIsBelow(t, root, r);
    if r != root {
      ReachIsBelow(t, root, ParentPath(r));
      ReachAgrees(t, u, root, ParentPath(r));
    }
  }

  // ---- Grafting and pruning ----

  /** The tree with `sub` hung under p as `name`; configs that were lying below
      that path stay where `sub` has none. */
  function Graft(t: Configs, sub: Configs, p: Path, name: string, now: int): Configs
    requires p in t
  {
    var dst := p + [name];
    var u := t[p := t[p].(folders := t[p].folders + [name], modified := now)];
    map r | r in u.Keys + Shifted(sub, dst) ::
      if dst <= r && r[|dst|..] in sub then sub[r[|dst|..]] else u[r]
  }

  function Shifted(sub: Configs, dst: Path): (r: set<Path>)
    ensures forall q :: q in r <==> dst <= q && q[|dst|..] in sub
  {
    var r := set q | q in sub :: dst + q;
    assert forall q :: q in r ==> q == dst + q[|dst|..];
    assert forall q :: dst <= q && q[|dst|..] in sub ==> dst + q[|dst|..] == q;
    r
  }

  /** No list of `sub` names a config that is only left lying below `dst`. */
  ghost predicate Sealed(t: Configs, sub: Configs, dst: Path) {
    forall q, f :: q in sub && f in sub[q].folders && dst + q + [f] in t ==> q + [f] in sub
  }

  lemma GraftInside(t: Configs, sub: Configs, p: Path, name: string, now: int, q: Path)
    requires p in t
    ensures var g, dst := Graft(t, sub, p, name, now), p + [name];
            && (q in sub ==> dst + q in g && g[dst + q] == sub[q])
            && (q !in sub ==> (dst + q in g <==> dst + q in t) && (dst + q in t ==> g[dst + q] == t[dst + q]))
  {
    assert p + [name] <= p + [name] + q && (p + [name] + q)[|p| + 1..] == q && p + [name] + q != p;
  }

  lemma GraftOutside(t: Configs, sub: Configs, p: Path, name: string, now: int, r: Path)
    requires p in t && !(p + [name] <= r)
    ensures var g := Graft(t, sub, p, name, now);
            && (r in g <==> r in t)
            && (r in t ==> g[r] == if r == p then t[p].(folders := t[p].folders + [name], modified := now) else t[r])
  {
  }

  /** The parent gets one more child and keeps everything else. */
  lemma GraftAddsOneChild(t: Configs, sub: Configs, p: Path, name: string, now: int)
    requires p in t
    ensures p in Graft(t, sub, p, name, now) && OneMoreChild(t[p], Graft(t, sub, p, name, now)[p], name, now)
  {
  }

  lemma StepDown(dst: Path, q: Path)
    requires q != []
    ensures ParentPath(dst + q) == dst + ParentPath(q) && dst + q == dst + ParentPath(q) + [q[|q| - 1]]
    ensures (dst + q)[|dst + q| - 1] == q[|q| - 1] && q == ParentPath(q) + [q[|q| - 1]]
  {
  }

  lemma NothingLeftIsSealed(t: Configs, sub: Configs, dst: Path)
    requires forall r :: r in t ==> !(dst <= r)
    ensures Sealed(t, sub, dst)
  {
    forall q: Path, f: string ensures dst + q + [f] !in t { assert dst <= dst + q + [f]; }
  }

  lemma {:induction false} ReachInGraft(t: Configs, sub: Configs, p: Path, name: string, now: int, q: Path)
    requires Reach(t, [], p) && [] in sub && Sealed(t, sub, p + [name])
    ensures Reach(Graft(t, sub, p, name, now), [], p + [name] + q) <==> Reach(sub, [], q)
    decreases |q|
  {
    var dst := p + [name];
    GraftInside(t, sub, p, name, now, q);
    if q == [] {
      assert dst + q == dst;
      ReachGraftPoint(t, sub, p, name, now);
    } else {
      var parent := ParentPath(q);
      StepDown(dst, q);
      GraftInside(t, sub, p, name, now, parent);
      ReachInGraft(t, sub, p, name, now, parent);
    }
  }

  lemma ReachGraftPoint(t: Configs, sub: Configs, p: Path, name: string, now: int)
    requires Reach(t, [], p) && [] in sub
    ensures Reach(Graft(t, sub, p, name, now), [], p + [name])
  {
    var g, dst := Graft(t, sub, p, name, now), p + [name];
    ReachOutsideGraft(t, sub, p, name, now, p);
    GraftInside(t, sub, p, name, now, []);
    assert dst + [] == dst && ParentPath(dst) == p;
    assert g[p].folders == t[p].folders + [name];
    assert name in g[p].folders;
  }

  lemma {:induction false} ReachOutsideGraft(t: Configs, sub: Configs, p: Path, name: string, now: int, r: Path)
    requires p in t && !(p + [name] <= r)
    ensures Reach(Graft(t, sub, p, name, now), [], r) <==> Reach(t, [], r)
    decreases |r|
  {
    var g, dst := Graft(t, sub, p, name, now), p + [name];
    if r != [] {
      var parent := ParentPath(r);
      assert r == parent + [r[|r| - 1]];
      assert !(dst <= parent);
      ReachOutsideGraft(t, sub, p, name, now, parent);
      assert parent != p || r[|r| - 1] != name;
    }
  }

  // ---- The ids after a graft ----

  lemma {:induction false} PrefixIsReached(t: Configs, r: Path, s: Path)
    requires Reach(t, [], r) && s <= r
    ensures Reach(t, [], s)
    decreases |r|
  {
    if r != s { PrefixIsReached(t, ParentPath(r), s); }
  }

  /** What a parent does not list is out of reach. */
  lemma UnlistedIsOutOfReach(t: Configs, p: Path, name: string, r: Path)
    requires p in t && name !in t[p].folders && Reach(t, [], r)
    ensures !(p + [name] <= r)
  {
    var dst := p + [name];
    assert ParentPath(dst) == p && dst[|dst| - 1] == name;
    assert !Reach(t, [], dst);
    if dst <= r { PrefixIsReached(t, r, dst); }
  }

  lemma GraftHolds(t: Configs, sub: Configs, p: Path, name: string, now: int, r: Path, k: int, id: Id)
    requires Reach(t, [], p) && [] in sub && Sealed(t, sub, p + [name])
    ensures var g, dst := Graft(t, sub, p, name, now), p + [name];
            Holds(g, [], r, k, id) <==>
              if dst <= r then Holds(sub, [], r[|dst|..], k, id) else Holds(t, [], r, k, id)
  {
    var g, dst := Graft(t, sub, p, name, now), p + [name];
    if dst <= r {
      var q := r[|dst|..];
      assert dst + q == r;
      ReachInGraft(t, sub, p, name, now, q);
      GraftInside(t, sub, p, name, now, q);
      if Reach(sub, [], q) { assert g[r] == sub[q]; }
    } else {
      ReachOutsideGraft(t, sub, p, name, now, r);
      assert Owns(g, r, k, id) <==> Owns(t, r, k, id);
    }
  }

  lemma GraftIsUnique(t: Configs, sub: Configs, p: Path, name: string, now: int)
    requires Reach(t, [], p) && [] in sub && Sealed(t, sub, p + [name])
    requires UniqueIds(t, []) && UniqueIds(sub, [])
    requires forall id :: HasId(t, [], id) ==> !HasId(sub, [], id)
    ensures UniqueIds(Graft(t, sub, p, name, now), [])
  {
    var g, dst := Graft(t, sub, p, name, now), p + [name];
    forall r, k, s, l, id | Holds(g, [], r, k, id) && Holds(g, [], s, l, id) ensures r == s && k == l {
      GraftHolds(t, sub, p, name, now, r, k, id);
      GraftHolds(t, sub, p, name, now, s, l, id);
      if dst <= r && dst <= s {
        assert dst + r[|dst|..] == r && dst + s[|dst|..] == s;
      } else if dst <= r {
        assert HasId(sub, [], id) && HasId(t, [], id);
      } else if dst <= s {
        assert HasId(sub, [], id) && HasId(t, [], id);
      }
    }
  }

  lemma GraftHasId(t: Configs, sub: Configs, p: Path, name: string, now: int, id: Id)
    requires Reach(t, [], p) && name !in t[p].folders && [] in sub && Sealed(t, sub, p + [name])
    ensures HasId(Graft(t, sub, p, name, now), [], id) <==> HasId(t, [], id) || HasId(sub, [], id)
  {
    var g, dst := Graft(t, sub, p, name, now), p + [name];
    if HasId(g, [], id) {
      var r, k :| Holds(g, [], r, k, id);
      GraftHolds(t, sub, p, name, now, r, k, id);
    }
    if HasId(t, [], id) {
      var r, k :| Holds(t, [], r, k, id);
      UnlistedIsOutOfReach(t, p, name, r);
      GraftHolds(t, sub, p, name, now, r, k, id);
    }
    if HasId(sub, [], id) {
      var q, k :| Holds(sub, [], q, k, id);
      assert dst <= dst + q && (dst + q)[|dst|..] == q;
      GraftHolds(t, sub, p, name, now, dst + q, k, id);
    }
  }

  /** A grafted tree with new ids: distinct ids stay distinct, and exactly the
      ids of the graft come in. */
  lemma GraftIds(t: Configs, sub: Configs, p: Path, name: string, now: int)
    requires Reach(t, [], p) && name !in t[p].folders && [] in sub && Sealed(t, sub, p + [name])
    requires UniqueIds(t, []) && UniqueIds(sub, [])
    requires forall id :: HasId(t, [], id) ==> !HasId(sub, [], id)
    ensures var g := Graft(t, sub, p, name, now);
            && UniqueIds(g, [])
            && forall id :: HasId(g, [], id) <==> HasId(t, [], id) || HasId(sub, [], id)
  {
    GraftIsUnique(t, sub, p, name, now);
    forall id { GraftHasId(t, sub, p, name, now, id); }
  }

  // ---- Cutting a subtree off ----

  function Prune(t: Configs, src: Path, now: int): Configs
    requires src != [] && ParentPath(src) in t
  {
    var p := ParentPath(src);
    var u := t[p := t[p].(folders := EraseFirst(t[p].folders, src[|src| - 1]), modified := now)];
    map r | r in u && !(src <= r) :: u[r]
  }

  /** The configs at and below src, with paths relative to it. */
  function Sub(t: Configs, src: Path): Configs {
    var paths := set r | r in t && src <= r :: r[|src|..];
    assert forall r :: r in t && src <= r ==> src + r[|src|..] == r;
    map q | q in paths :: t[src + q]
  }

  lemma SubAt(t: Configs, src: Path, q: Path)
    ensures q in Sub(t, src) <==> src + q in t
    ensures q in Sub(t, src) ==> Sub(t, src)[q] == t[src + q]
  {
    assert src <= src + q && (src + q)[|src|..] == q;
    assert forall r :: src <= r ==> src + r[|src|..] == r;
  }

  lemma {:induction false} ReachInSub(t: Configs, src: Path, q: Path)
    ensures Reach(Sub(t, src), [], q) <==> Reach(t, src, src + q)
    decreases |q|
  {
    SubAt(t, src, q);
    if q == [] {
      assert src + q == src;
    } else {
      StepDown(src, q);
      SubAt(t, src, ParentPath(q));
      ReachInSub(t, src, ParentPath(q));
    }
  }

  lemma {:induction false} ReachThrough(t: Configs, src: Path, r: Path)
    requires Reach(t, [], src) && src <= r
    ensures Reach(t, [], r) <==> Reach(t, src, r)
    decreases |r|
  {
    if r != src { ReachThrough(t, src, ParentPath(r)); }
  }

  lemma {:induction false} ReachInPrune(t: Configs, src: Path, now: int, r: Path)
    requires src != [] && ParentPath(src) in t
    ensures Reach(Prune(t, src, now), [], r) <==> Reach(t, [], r) && !(src <= r)
    decreases |r|
  {
    var p := ParentPath(src);
    EraseFirstMembers(t[p].folders, src[|src| - 1]);
    if r != [] && !(src <= r) {
      var parent := ParentPath(r);
      ReachInPrune(t, src, now, parent);
      assert r == parent + [r[|r| - 1]] && src == p + [src[|src| - 1]];
      assert !(src <= parent);
    }
  }

  lemma PruneHolds(t: Configs, src: Path, now: int, r: Path, k: int, id: Id)
    requires src != [] && ParentPath(src) in t
    ensures Holds(Prune(t, src, now), [], r, k, id) <==> Holds(t, [], r, k, id) && !(src <= r)
  {
    ReachInPrune(t, src, now, r);
  }

  lemma SubHolds(t: Configs, src: Path, q: Path, k: int, id: Id)
    requires Reach(t, [], src)
    ensures Holds(Sub(t, src), [], q, k, id) <==> Holds(t, [], src + q, k, id)
  {
    ReachInSub(t, src, q);
    ReachThrough(t, src, src + q);
    SubAt(t, src, q);
  }

  /** Cutting off a reachable subtree splits the ids in two. */
  lemma PruneIds(t: Configs, src: Path, now: int)
    requires src != [] && Reach(t, [], src) && UniqueIds(t, [])
    ensures ParentPath(src) in t
    ensures var u, sub := Prune(t, src, now), Sub(t, src);
            && UniqueIds(u, []) && UniqueIds(sub, []) && [] in sub
            && (forall id :: HasId(u, [], id) ==> !HasId(sub, [], id))
            && forall id :: HasId(t, [], id) <==> HasId(u, [], id) || HasId(sub, [], id)
  {
    var u, sub := Prune(t, src, now), Sub(t, src);
    SubAt(t, src, []);
    assert src + [] == src;
    forall r, k, id { PruneHolds(t, src, now, r, k, id); }
    forall q, k, id { SubHolds(t, src, q, k, id); }
    forall q: Path ensures (src + q)[|src|..] == q && src <= src + q { }
    forall id ensures HasId(t, [], id) <==> HasId(u, [], id) || HasId(sub, [], id) {
      if HasId(t, [], id) {
        var r, k :| Holds(t, [], r, k, id);
        if src <= r {
          assert src + r[|src|..] == r;
          assert Holds(sub, [], r[|src|..], k, id);
        }
      }
    }
  }
}
