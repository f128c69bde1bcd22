/** Recovery over all the journals that a notebook has left
    (src/core/bundled_folder_manager.cpp, RecoverImports): which of the imports
    that were reported as attached it keeps. */
module LeftOverJournals {
  import opened Records
  import opened MetadataStore
  import opened StagedTree
  import opened ImportRows
  import opened LazySync
  import opened FolderTree
  import opened ImportMachine
  import opened ImportGuarantees

  /** What a journal says of its import. */
  datatype Entry = Entry(phase: Phase, parent: Path, name: string, saved: Option<FolderConfig>, ids: seq<Id>) {
    function Target(): Path { parent + [name] }
  }

  datatype Notebook = Notebook(configs: Configs, content: ContentTree, store: Store)

  // ---- Replay ----

  function CutBelow<T>(m: map<Path, T>, dst: Path): map<Path, T> {
    map r | r in m && !(dst <= r) :: m[r]
  }

  /** Undoes an import that has not committed. The parent's index is restored if
      its folder is still there. */
  function Replay(n: Notebook, e: Entry): Notebook {
    if e.phase == Committed then n
    else
      var configs := CutBelow(n.configs, e.Target());
      Notebook(if e.saved.Some? && e.parent in configs then configs[e.parent := e.saved.value] else configs,
               CutBelow(n.content, e.Target()), DeleteNodes(n.store, e.ids))
  }

  /** All journals, one by one; an unreadable one undoes nothing. */
  function ReplayAll(n: Notebook, journals: seq<FileImage<Entry>>): Notebook {
    if journals == [] then n
    else
      var before, last := ReplayAll(n, journals[..|journals| - 1]), journals[|journals| - 1];
      if last.Torn? then before else Replay(before, last.value)
  }

  function Readables(journals: seq<FileImage<Entry>>): nat {
    if journals == [] then 0
    else Readables(journals[..|journals| - 1]) + if journals[|journals| - 1].Torn? then 0 else 1
  }

  lemma {:induction false} ReadablesAreCounted(journals: seq<FileImage<Entry>>)
    ensures Readables(journals) == |set k | 0 <= k < |journals| && journals[k].Whole?|
  {
    if journals != [] {
      var n := |journals| - 1;
      ReadablesAreCounted(journals[..n]);
      var before := set k | 0 <= k < n && journals[..n][k].Whole?;
      var all := set k | 0 <= k < |journals| && journals[k].Whole?;
      assert all == before + if journals[n].Whole? then {n} else {};
    }
  }

  class Recovery {
    var configs: Configs
    var content: ContentTree
    var store: Store

    ghost function Now(): Notebook
      reads this
    {
      Notebook(configs, content, store)
    }

    /** The journals come in the order in which the directory lists them. */
    method RecoverImports(journals: seq<FileImage<Entry>>) returns (recovered: nat)
      modifies this
      ensures Now() == ReplayAll(old(Now()), journals)
      ensures recovered == Readables(journals) == |set k | 0 <= k < |journals| && journals[k].Whole?|
    {
      recovered := 0;
      for i := 0 to |journals|
        invariant Now() == ReplayAll(old(Now()), journals[..i]) && recovered == Readables(journals[..i])
      {
        assert journals[..i + 1][..i] == journals[..i];
        if journals[i].Whole? {
          if journals[i].value.phase != Committed { RollBack(journals[i].value); }
          recovered := recovered + 1;
        }
      }
      assert journals[..|journals|] == journals;
      ReadablesAreCounted(journals);
    }

    method RollBack(e: Entry)
      requires e.phase != Committed
      modifies this
      ensures Now() == Replay(old(Now()), e)
    {
      configs := CutBelow(configs, e.Target());
      content := CutBelow(content, e.Target());
      DropRows(e.ids);
      if e.saved.Some? && e.parent in configs { configs := configs[e.parent := e.saved.value]; }
    }

    method DropRows(ids: seq<Id>)
      modifies this`store
      ensures store == DeleteNodes(old(store), ids)
    {
      for k := 0 to |ids|
        invariant DeleteNodes(store, ids[k..]) == DeleteNodes(old(store), ids)
      {
        assert ids[k..][1..] == ids[k + 1..];
        store := DeleteFile(store, ids[k]);
        store := DeleteFolder(store, ids[k]);
      }
    }
  }

  // ---- One replay is the import machine's ----

  /** What the import machine sees of a notebook that has the import's parent. */
  ghost predicate Sees(d: Disk, n: Notebook, e: Entry) {
    && e.parent in n.configs && d.index == Whole(n.configs[e.parent]) && d.store == n.store
    && (d.content == None <==> forall r :: r in n.content ==> !(e.Target() <= r))
    && (d.metadata == None <==> forall r :: r in n.configs ==> !(e.Target() <= r))
  }

  /** The replay of one journal is a recovery of the import machine. */
  lemma ReplayIsReached(p: Plan, f: Faults, m: Machine, n: Notebook, e: Entry)
    requires m.pc == Down && m.txn == None && Sees(m.disk, n, e) && e.phase != Committed
    requires JournalOf(m.disk) == Some(Whole(Journal(e.phase, e.saved, e.ids)))
    ensures exists m' :: Leads(p, f, m, m') && m'.pc == Recovered && m'.disk.staging == None
                         && Sees(m'.disk, Replay(n, e), e)
  {
    var j := Journal(e.phase, e.saved, e.ids);
    var d := Replayed(m.disk, j);
    LeadsNowhere(p, f, m);
    LeadsToReplayed(p, f, m, m, j, d.index);
    assert d.(index := d.index) == d;
    assert !(e.Target() <= e.parent);
    assert Sees(d, Replay(n, e), e);
  }

  // ---- Histories of imports ----

  /** An import into a notebook. `reported` tells whether it was attached or
      failed, `left` whether a journal saying `entry` is still there. */
  datatype Import = Import(entry: Entry, sub: Configs, now: int, reported: bool, left: bool) {
    function Target(): Path { entry.Target() }
  }

  /** What is checked before an import touches anything: the parent is there, and
      name, paths and ids are new. */
  ghost predicate Admissible(n: Notebook, x: Import) {
    var e := x.entry;
    && e.parent in n.configs && e.name !in n.configs[e.parent].folders
    && (forall r :: r in n.configs ==> !(e.Target() <= r)) && (forall r :: r in n.content ==> !(e.Target() <= r))
    && (e.saved.Some? ==> e.saved.value == n.configs[e.parent])
    && NoRowOf(n.store, IdSet(e.ids)) && [] in x.sub
  }

  ghost predicate Attaches(n: Notebook, x: Import, n': Notebook)
    requires x.entry.parent in n.configs
  {
    && n'.configs == Graft(n.configs, x.sub, x.entry.parent, x.entry.name, x.now)
    && (forall r :: !(x.Target() <= r) ==> (r in n'.content <==> r in n.content))
    && (forall r :: !(x.Target() <= r) && r in n.content ==> n'.content[r] == n.content[r])
    && BasePlus(n.store, n'.store, IdSet(x.entry.ids))
    && (forall id :: id in x.entry.ids ==> HasRow(n'.store, id))
  }

  predicate HasRow(s: Store, id: Id) { id in s.folders || id in s.files }

  /** A failed import leaves all as it was. */
  ghost predicate Happens(n: Notebook, x: Import, n': Notebook) {
    Admissible(n, x) && if x.reported then Attaches(n, x, n') else n' == n
  }

  /** So it is with the rows of an import that the machine has attached. */
  lemma AttachedRows(p: Plan, d: Disk)
    requires ValidPlan(p) && Distinct(p.gathered.ids) && IdsAbsent(p) && AfterImport(p, d)
    ensures BasePlus(p.store, d.store, RecordedIds(p)) && forall id :: id in p.gathered.ids ==> HasRow(d.store, id)
  {
    var g := p.gathered;
    FinalStoreUndoable(p, d.store);
    AllRowsGoInExactlyWhen(p.store, g, p.index.id);
    InsertsExactlyTheBundle(p.store, g, p.index.id);
    forall id | id in g.ids ensures HasRow(d.store, id) {
      assert id in multiset(g.ids);
      assert id in FolderIdSeq(g.folders) || id in EntryIdSeq(g.files);
    }
  }

  datatype History = History(states: seq<Notebook>, imports: seq<Import>)

  ghost predicate IsHistory(h: History) {
    && |h.states| == |h.imports| + 1
    && forall k :: 0 <= k < |h.imports| ==> Happens(h.states[k], h.imports[k], h.states[k + 1])
  }
  function Final(h: History): Notebook
    requires IsHistory(h)
  {
    h.states[|h.imports|]
  }

  /** Recovery keeps an import: it is listed, its files and configs are what they
      were, and so are its rows. */
  ghost predicate Keeps(x: Import, n: Notebook, n': Notebook) {
    && Listed(n', x.entry)
    && (forall r :: x.Target() <= r ==> (r in n'.configs <==> r in n.configs) && (r in n'.content <==> r in n.content))
    && (forall r :: x.Target() <= r && r in n.configs && r in n'.configs ==> n'.configs[r] == n.configs[r])
    && (forall r :: x.Target() <= r && r in n.content && r in n'.content ==> n'.content[r] == n.content[r])
    && (forall id :: id in x.entry.ids ==> SameRows(n.store, n'.store, id))
  }

  predicate Listed(n: Notebook, e: Entry) { e.parent in n.configs && e.name in n.configs[e.parent].folders }

  ghost predicate SameRows(s: Store, t: Store, id: Id) {
    && (id in t.folders <==> id in s.folders) && (id in s.folders && id in t.folders ==> t.folders[id] == s.folders[id])
    && (id in t.files <==> id in s.files) && (id in s.files && id in t.files ==> t.files[id] == s.files[id])
  }

  /** The i-th import left a journal that undoes something of the j-th, which was
      reported at the same time or later: they share the parent (and the index of
      it was saved, or else the name), or an id. */
  ghost predicate Conflict(h: History, i: nat, j: nat) {
    && i <= j < |h.imports| && h.imports[j].reported
    && h.imports[i].left && h.imports[i].entry.phase != Committed
    && var e, x := h.imports[i].entry, h.imports[j].entry;
       || (e.parent == x.parent && (e.saved.Some? || e.name == x.name))
       || exists id :: id in e.ids && id in x.ids
  }

  // ---- Without a conflict a journal is harmless ----

  /** Nothing of the entry's import is there, and its parent is as it was. */
  ghost predicate Harmless(n: Notebook, e: Entry) {
    && e.parent in n.configs && (e.saved.Some? ==> e.saved.value == n.configs[e.parent])
    && (forall r :: r in n.configs ==> !(e.Target() <= r)) && (forall r :: r in n.content ==> !(e.Target() <= r))
    && NoRowOf(n.store, IdSet(e.ids))
  }

  lemma {:induction false} NothingToDrop(s: Store, ids: seq<Id>)
    requires NoRowOf(s, IdSet(ids))
    ensures DeleteNodes(s, ids) == s
  {
    if ids != [] {
      assert ids[0] in IdSet(ids) && forall id :: id in ids[1..] ==> id in IdSet(ids);
      NothingToDelete(s, ids[0]);
      NothingToDrop(s, ids[1..]);
    }
  }

  lemma HarmlessReplay(n: Notebook, e: Entry)
    requires Harmless(n, e)
    ensures Replay(n, e) == n
  {
    NothingToDrop(n.store, e.ids);
    assert CutBelow(n.configs, e.Target()) == n.configs;
    assert CutBelow(n.content, e.Target()) == n.content;
  }

  /** Where two new folders can meet. */
  lemma TargetsMeet(e: Entry, x: Entry, q: Path)
    requires e.Target() <= x.Target() + q
    ensures e.Target() <= x.parent || x.Target() <= e.parent || (e.parent == x.parent && e.name == x.name)
  {
    var s, t := e.Target(), x.Target();
    if |s| < |t| {
      assert s == (t + q)[..|s|] == x.parent[..|s|];
    } else if |t| < |s| {
      assert e.parent == s[..|s| - 1] && s[..|t|] == t;
    } else {
      assert s == (t + q)[..|s|] == t;
      assert e.parent == s[..|s| - 1] && x.parent == t[..|t| - 1];
    }
  }

  lemma HarmlessStays(n: Notebook, x: Import, n': Notebook, e: Entry)
    requires Happens(n, x, n') && Harmless(n, e)
    requires x.reported ==> !(e.parent == x.entry.parent && (e.saved.Some? || e.name == x.entry.name))
    requires x.reported ==> forall id :: id in e.ids ==> id !in x.entry.ids
    ensures Harmless(n', e)
  {
    if x.reported {
      NothingNewBelow(n, x, n', e);
      ParentStays(n, x, e.parent);
    }
  }

  lemma NothingNewBelow(n: Notebook, x: Import, n': Notebook, e: Entry)
    requires Admissible(n, x) && Attaches(n, x, n') && Harmless(n, e)
    requires !(e.parent == x.entry.parent && e.name == x.entry.name)
    ensures forall r :: e.Target() <= r ==> r !in n'.configs && r !in n'.content
  {
    forall r | e.Target() <= r ensures r !in n'.configs && r !in n'.content {
      if x.Target() <= r {
        assert r == x.Target() + r[|x.Target()|..];
        TargetsMeet(e, x.entry, r[|x.Target()|..]);
        assert false;
      }
    }
  }

  /** Outside the new folder only the parent's list grows. */
  lemma ParentStays(n: Notebook, x: Import, p: Path)
    requires Admissible(n, x) && p in n.configs
    ensures var g := Graft(n.configs, x.sub, x.entry.parent, x.entry.name, x.now);
            && p in g && (p != x.entry.parent ==> g[p] == n.configs[p])
            && forall f :: f in n.configs[p].folders || (p == x.entry.parent && f == x.entry.name) ==> f in g[p].folders
  {
    GraftOutside(n.configs, x.sub, x.entry.parent, x.entry.name, x.now, p);
  }

  lemma {:induction false} LeftIsHarmless(h: History, i: nat, k: nat)
    requires IsHistory(h) && i <= k <= |h.imports| && i < |h.imports|
    requires h.imports[i].left && h.imports[i].entry.phase != Committed
    requires forall j :: !Conflict(h, i, j)
    ensures Harmless(h.states[k], h.imports[i].entry)
    decreases k
  {
    if i < k {
      LeftIsHarmless(h, i, k - 1);
      assert Happens(h.states[k - 1], h.imports[k - 1], h.states[k - 1 + 1]);
      assert !Conflict(h, i, k - 1);
      HarmlessStays(h.states[k - 1], h.imports[k - 1], h.states[k], h.imports[i].entry);
    } else {
      assert Happens(h.states[i], h.imports[i], h.states[i + 1]);
    }
  }

  // ---- What was reported is there, and only more is listed ----

  ghost predicate There(n: Notebook, e: Entry) {
    Listed(n, e) && e.Target() in n.configs && forall id :: id in e.ids ==> HasRow(n.store, id)
  }

  lemma ReportedIsThere(n: Notebook, x: Import, n': Notebook)
    requires Happens(n, x, n') && x.reported
    ensures There(n', x.entry)
  {
    ParentStays(n, x, x.entry.parent);
    GraftInside(n.configs, x.sub, x.entry.parent, x.entry.name, x.now, []);
    assert x.Target() + [] == x.Target();
  }

  lemma ThereStays(n: Notebook, x: Import, n': Notebook, e: Entry)
    requires Happens(n, x, n') && There(n, e)
    ensures There(n', e)
  {
    if x.reported {
      ParentStays(n, x, e.parent);
      ParentStays(n, x, e.Target());
      RowsStay(n.store, n'.store, IdSet(x.entry.ids), e.ids);
    }
  }

  lemma RowsStay(s: Store, t: Store, new_: set<Id>, ids: seq<Id>)
    requires BasePlus(s, t, new_) && forall id :: id in ids ==> HasRow(s, id)
    ensures forall id :: id in ids ==> HasRow(t, id)
  {
  }

  lemma {:induction false} ReportedStaysThere(h: History, j: nat, k: nat)
    requires IsHistory(h) && j < k <= |h.imports| && h.imports[j].reported
    ensures There(h.states[k], h.imports[j].entry)
    decreases k
  {
    assert Happens(h.states[k - 1], h.imports[k - 1], h.states[k - 1 + 1]);
    if j < k - 1 {
      ReportedStaysThere(h, j, k - 1);
      ThereStays(h.states[k - 1], h.imports[k - 1], h.states[k], h.imports[j].entry);
    } else {
      ReportedIsThere(h.states[j], h.imports[j], h.states[k]);
    }
  }

  lemma {:induction false} ListsGrow(h: History, i: nat, j: nat, p: Path)
    requires IsHistory(h) && i <= j <= |h.imports| && p in h.states[i].configs
    ensures p in h.states[j].configs
    ensures forall f :: f in h.states[i].configs[p].folders ==> f in h.states[j].configs[p].folders
    decreases j
  {
    if i < j {
      ListsGrow(h, i, j - 1, p);
      assert Happens(h.states[j - 1], h.imports[j - 1], h.states[j - 1 + 1]);
      if h.imports[j - 1].reported { ParentStays(h.states[j - 1], h.imports[j - 1], p); }
    }
  }

  // ---- With a conflict a replay undoes a reported import ----

  lemma ConflictUndoes(h: History, i: nat, j: nat, m: Notebook)
    requires IsHistory(h) && Conflict(h, i, j)
    ensures !Keeps(h.imports[j], Final(h), Replay(m, h.imports[i].entry))
  {
    var e, x, n := h.imports[i].entry, h.imports[j].entry, Replay(m, h.imports[i].entry);
    ReportedStaysThere(h, j, |h.imports|);
    assert Happens(h.states[i], h.imports[i], h.states[i + 1]);
    assert Happens(h.states[j], h.imports[j], h.states[j + 1]);
    if e.parent == x.parent && e.saved.Some? {
      ListsGrow(h, i, j, e.parent);
      assert !Listed(n, x);
    } else if e.parent == x.parent && e.name == x.name {
      assert x.Target() !in n.configs;
    } else {
      var id :| id in e.ids && id in x.ids;
      DeleteNodesRemoves(m.store, e.ids);
      assert id in IdSet(e.ids) && !HasRow(n.store, id);
      assert !SameRows(Final(h).store, n.store, id);
    }
  }

  // ---- Every order of the journals ----

  /** The left journals, in some order. */
  ghost predicate IsOrder(h: History, order: seq<nat>) {
    Distinct(order) && forall k: nat :: k in order <==> k < |h.imports| && h.imports[k].left
  }

  function Journals(h: History, order: seq<nat>): (journals: seq<FileImage<Entry>>)
    requires forall k: nat :: k in order ==> k < |h.imports|
    ensures |journals| == |order|
  {
    seq(|order|, k requires 0 <= k < |order| => assert order[k] in order; Whole(h.imports[order[k]].entry))
  }

  lemma {:induction false} HarmlessOrder(h: History, order: seq<nat>)
    requires IsHistory(h) && forall i, j :: !Conflict(h, i, j)
    requires forall k: nat :: k in order ==> k < |h.imports| && h.imports[k].left
    ensures ReplayAll(Final(h), Journals(h, order)) == Final(h)
    decreases |order|
  {
    if order != [] {
      var front, i := order[..|order| - 1], order[|order| - 1];
      assert i in order;
      forall k: nat | k in front ensures k in order { assert order == front + [i]; }
      HarmlessOrder(h, front);
      assert Journals(h, order)[..|order| - 1] == Journals(h, front);
      if h.imports[i].entry.phase != Committed {
        LeftIsHarmless(h, i, |h.imports|);
        HarmlessReplay(Final(h), h.imports[i].entry);
      }
    }
  }

  /** The left journals among the first n imports, but for the i-th. */
  function Others(h: History, n: nat, i: nat): (order: seq<nat>)
    requires n <= |h.imports|
    ensures Distinct(order) && forall k: nat :: k in order <==> k < n && k != i && h.imports[k].left
  {
    if n == 0 then []
    else Others(h, n - 1, i) + if n - 1 != i && h.imports[n - 1].left then [n - 1] else []
  }

  lemma OrderEndingIn(h: History, i: nat) returns (order: seq<nat>)
    requires i < |h.imports| && h.imports[i].left
    ensures IsOrder(h, order) && order != [] && order[|order| - 1] == i
  {
    order := Others(h, |h.imports|, i) + [i];
  }

  ghost predicate KeepsReported(h: History, order: seq<nat>)
    requires IsHistory(h) && IsOrder(h, order)
  {
    forall j :: 0 <= j < |h.imports| && h.imports[j].reported ==>
      Keeps(h.imports[j], Final(h), ReplayAll(Final(h), Journals(h, order)))
  }

  /** Recovery keeps every reported import, in whatever order it finds the left
      journals, if and only if none of them conflicts with an import reported at
      the same time or later. */
  lemma RecoveryKeepsExactlyWhen(h: History)
    requires IsHistory(h)
    ensures (forall order :: IsOrder(h, order) ==> KeepsReported(h, order)) <==> forall i, j :: !Conflict(h, i, j)
  {
    if i, j :| Conflict(h, i, j) {
      var order := OrderEndingIn(h, i);
      var journals := Journals(h, order);
      ConflictUndoes(h, i, j, ReplayAll(Final(h), journals[..|journals| - 1]));
      assert !KeepsReported(h, order);
    } else {
      forall order | IsOrder(h, order) ensures KeepsReported(h, order) {
        WithoutConflictNothingChanges(h, order);
        forall j | 0 <= j < |h.imports| && h.imports[j].reported ensures Keeps(h.imports[j], Final(h), Final(h)) {
          ReportedStaysThere(h, j, |h.imports|);
        }
      }
    }
  }

  /** The nearest failure: an import fails and leaves its first journal, it is
      tried again and reported, and the next open takes it back. */
  lemma RetriedImportIsTakenBack(n: Notebook, x: Import, n': Notebook)
    requires Happens(n, x, n') && x.reported && !x.left && x.entry.phase != Committed
    ensures var h := History([n, n, n'], [x.(reported := false, left := true), x]);
            IsHistory(h) && IsOrder(h, [0]) && !KeepsReported(h, [0])
  {
    var h := History([n, n, n'], [x.(reported := false, left := true), x]);
    assert Happens(n, h.imports[0], n);
    assert Conflict(h, 0, 1);
    ConflictUndoes(h, 0, 1, ReplayAll(Final(h), Journals(h, [0])[..0]));
    assert Journals(h, [0])[0] == Whole(h.imports[0].entry);
    assert !Keeps(h.imports[1], Final(h), ReplayAll(Final(h), Journals(h, [0])));
  }

  /** Without a conflict recovery changes nothing at all. */
  lemma WithoutConflictNothingChanges(h: History, order: seq<nat>)
    requires IsHistory(h) && IsOrder(h, order) && forall i, j :: !Conflict(h, i, j)
    ensures ReplayAll(Final(h), Journals(h, order)) == Final(h)
  {
    HarmlessOrder(h, order);
  }
}
