/** How far the fetch of a notebook's root goes: which folders it caches and
    syncs (src/core/bundled_folder_manager.cpp, GetFolderConfig and
    SyncFolderToStore). */
module FetchedTree {
  import opened Records
  import opened MetadataStore
  import opened LazySync
  import opened FolderTree

  /** In reach of the root through the lists of folders that were stale. */
  ghost predicate StaleReach(configs: Configs, s0: Store, r: Path)
    decreases |r|
  {
    && r in configs
    && (r == [] ||
        (StaleReach(configs, s0, ParentPath(r)) && Stale(s0, configs[ParentPath(r)])
         && r[|r| - 1] in configs[ParentPath(r)].folders))
  }

  lemma {:induction false} FollowedReaches(configs: Configs, s0: Store, done: set<Path>, r: Path)
    requires FollowedDown(configs, s0, {}, done, done) && [] in done && StaleReach(configs, s0, r)
    ensures r in done
    decreases |r|
  {
    if r != [] {
      var p := ParentPath(r);
      FollowedReaches(configs, s0, done, p);
      assert r == p + [r[|r| - 1]];
      assert ChildrenIn(configs, s0, p, done);
    }
  }

  lemma {:induction false} ReasonedIsReached(configs: Configs, s0: Store, done: set<Path>, r: Path)
    requires Reasoned(configs, s0, [], done, {}, done) && r in done && done <= configs.Keys
    ensures StaleReach(configs, s0, r)
    decreases |r|
  {
    if r != [] {
      assert ListedByStale(configs, s0, done, r);
      ReasonedIsReached(configs, s0, done, ParentPath(r));
    }
  }

  lemma {:induction false} AllStaleReach(configs: Configs, s0: Store, r: Path)
    requires forall p :: p in configs ==> Stale(s0, configs[p])
    ensures StaleReach(configs, s0, r) <==> Reach(configs, [], r)
    decreases |r|
  {
    if r != [] { AllStaleReach(configs, s0, ParentPath(r)); }
  }

  /** The folder's row and its files' rows say what the config says. */
  ghost predicate RowsAre(s: Store, c: FolderConfig, parentId: Id) {
    && c.id in s.folders && s.folders[c.id] == FolderRow(c.id, parentId, c.name, c.created, c.modified, c.metadata)
    && FilesMirror(s, c.id, c.files)
  }

  /** A synced folder's row is left alone if it is as new as the config, and says
      what the config says otherwise. */
  lemma SyncedByTime(configs: Configs, done: set<Path>, s0: Store, s: Store, p: Path)
    requires WellFormed(configs) && Fetched(configs, done, s0, s) && p in done && p in configs
    ensures var c := configs[p];
            && c.id in s.folders
            && if c.id in s0.folders && c.modified <= s0.folders[c.id].modified then
                 s.folders[c.id] == s0.folders[c.id]
               else
                 && s.folders[c.id].name == c.name && s.folders[c.id].modified == c.modified
                 && s.folders[c.id].metadata == c.metadata && FilesMirror(s, c.id, c.files)
                 && if c.id in s0.folders then
                      s.folders[c.id] ==
                        s0.folders[c.id].(name := c.name, modified := c.modified, metadata := c.metadata)
                    else RowsAre(s, c, ParentIdOf(configs, p))
  {
    if !Stale(s0, configs[p]) {
      forall q | q in done && q in configs && q != p ensures configs[q].id != configs[p].id {
        assert Separate(configs[q], configs[p]);
      }
      assert !StaleFolder(configs, done, s0, configs[p].id);
    }
  }

  /** What the first fetch of the root brings in: exactly the folders in reach of
      the root through the lists of stale folders, all of them synced. */
  method FetchRoot(c: ConfigCache) returns (r: Result<FolderConfig>)
    requires c.Valid() && c.Settled()
    modifies c
    ensures c.Valid() && c.Settled() && c.run.base == old(c.store)
    ensures r.Ok? ==> c.run.done == c.cache.Keys
                      && forall q :: q in c.cache <==> StaleReach(c.Configs(), old(c.store), q)
    ensures r.Ok? && old(c.store).folders == map[] ==> forall q :: q in c.cache <==> Reach(c.Configs(), [], q)
    ensures r.Ok? && old(c.store).folders == map[] ==>
              forall q :: Reach(c.Configs(), [], q) ==> RowsAre(c.store, c.Configs()[q], ParentIdOf(c.Configs(), q))
  {
    c.ClearCache();
    r := c.GetFolderConfig([], None);
    if r.Ok? { RootIsFetched(c.Configs(), c.run, c.cache.Keys); }
  }

  lemma RootIsFetched(configs: Configs, run: GoodRun, paths: set<Path>)
    requires WellFormed(configs) && run.configs == configs && paths <= configs.Keys && run.done <= paths
    requires paths - run.done == {} && [] in paths
    requires FollowedDown(configs, run.base, {}, run.done, paths)
    requires Reasoned(configs, run.base, [], run.done, {}, paths)
    ensures run.done == paths && forall q :: q in paths <==> StaleReach(configs, run.base, q)
    ensures run.base.folders == map[] ==> forall q :: q in paths <==> Reach(configs, [], q)
    ensures run.base.folders == map[] ==>
              forall q :: Reach(configs, [], q) ==> RowsAre(run.store, configs[q], ParentIdOf(configs, q))
  {
    assert paths == run.done + (paths - run.done);
    assert run.done == paths;
    forall q ensures q in paths <==> StaleReach(configs, run.base, q) {
      if q in paths { ReasonedIsReached(configs, run.base, paths, q); }
      if StaleReach(configs, run.base, q) { FollowedReaches(configs, run.base, paths, q); }
    }
    if run.base.folders == map[] {
      forall q { AllStaleReach(configs, run.base, q); }
      forall q | q in paths ensures RowsAre(run.store, configs[q], ParentIdOf(configs, q)) {
        SyncedByTime(configs, run.done, run.base, run.store, q);
      }
    }
  }
}
