/** The session's list of open notebooks (src/core/notebook_manager.cpp:
    LoadOpenNotebooks, UpdateNotebookRecord, CloseNotebook). */
module Session {
  import opened Records
  import opened Sublists

  datatype NotebookKind = Bundled | Raw | Unknown

  datatype NotebookRecord = NotebookRecord(id: Id, root: string, kind: NotebookKind, readOnly: bool)

  /** The outside world of one start: how paths are cleaned and which notebooks
      load. A bundled notebook brings its id from its config.json; a raw one is
      loaded under the id of its record. */
  datatype World = World(clean: string -> string, bundled: string -> Option<Id>, raw: (string, Id) -> bool)

  function Root(w: World, r: NotebookRecord): string { w.clean(r.root) }

  /** The id of the notebook a record opens, if it opens. */
  function Load(w: World, r: NotebookRecord): Option<Id> {
    match r.kind
    case Bundled => w.bundled(Root(w, r))
    case Raw => if w.raw(Root(w, r), r.id) then Some(r.id) else None
    case Unknown => None
  }

  function Healed(w: World, r: NotebookRecord): NotebookRecord { r.(id := Load(w, r).GetOr(r.id)) }

  // ---- What the list should become ----

  /** No earlier record has this record's cleaned root; empty roots are never merged. */
  predicate Leads(w: World, s: seq<NotebookRecord>, i: nat)
    requires i < |s|
  {
    Root(w, s[i]) == "" || forall j :: 0 <= j < i ==> Root(w, s[j]) != Root(w, s[i])
  }

  /** The leading positions, in order. */
  function Leaders(w: World, s: seq<NotebookRecord>, n: nat): (r: seq<nat>)
    requires n <= |s|
    ensures forall a :: 0 <= a < |r| ==> r[a] < n
    ensures |r| <= n
  {
    if n == 0 then []
    else if Leads(w, s, n - 1) then Leaders(w, s, n - 1) + [n - 1]
    else Leaders(w, s, n - 1)
  }

  lemma {:induction false} LeadersAre(w: World, s: seq<NotebookRecord>, n: nat)
    requires n <= |s|
    ensures forall i :: i in Leaders(w, s, n) <==> 0 <= i < n && Leads(w, s, i)
    ensures forall a, b :: 0 <= a < b < |Leaders(w, s, n)| ==> Leaders(w, s, n)[a] < Leaders(w, s, n)[b]
  {
    if n > 0 { LeadersAre(w, s, n - 1); }
  }

  /** The first record of this root that loads, among the first n; -1 for none. */
  function FirstLoadable(w: World, s: seq<NotebookRecord>, n: nat, root: string): (j: int)
    requires n <= |s|
    ensures j == -1 || (0 <= j < n && Root(w, s[j]) == root && Load(w, s[j]).Some?)
  {
    if n == 0 then -1
    else
      var j := FirstLoadable(w, s, n - 1, root);
      if j != -1 then j
      else if Root(w, s[n - 1]) == root && Load(w, s[n - 1]).Some? then n - 1
      else -1
  }

  lemma {:induction false} NoneLoadsBefore(w: World, s: seq<NotebookRecord>, n: nat, root: string)
    requires n <= |s|
    ensures var j := FirstLoadable(w, s, n, root);
            forall k :: 0 <= k < n && (j == -1 || k < j) && Root(w, s[k]) == root ==> Load(w, s[k]).None?
  {
    if n > 0 { NoneLoadsBefore(w, s, n - 1, root); }
  }

  /** The record that stands for a leading position: the first of its root that
      loads, healed; the leading phantom itself if none does. */
  function Chosen(w: World, s: seq<NotebookRecord>, n: nat, i: nat): NotebookRecord
    requires i < n <= |s|
  {
    var root := Root(w, s[i]);
    if root == "" then Healed(w, s[i])
    else
      var j := FirstLoadable(w, s, n, root);
      if j == -1 then s[i] else Healed(w, s[j])
  }

  function Reconciled(w: World, s: seq<NotebookRecord>): seq<NotebookRecord> {
    var leaders := Leaders(w, s, |s|);
    seq(|leaders|, k requires 0 <= k < |leaders| => Chosen(w, s, |s|, leaders[k]))
  }

  // ---- What that is worth ----

  ghost predicate OneRecordPerRoot(w: World, s: seq<NotebookRecord>) {
    forall i, j :: 0 <= i < j < |s| && Root(w, s[i]) != "" ==> Root(w, s[i]) != Root(w, s[j])
  }

  ghost predicate HasRoot(w: World, s: seq<NotebookRecord>, root: string) {
    exists r :: r in s && Root(w, r) == root
  }

  lemma ChosenKeepsRoot(w: World, s: seq<NotebookRecord>, n: nat, i: nat)
    requires i < n <= |s|
    ensures Root(w, Chosen(w, s, n, i)) == Root(w, s[i])
  {
  }

  lemma {:induction false} LeaderOf(w: World, s: seq<NotebookRecord>, i: nat) returns (l: nat)
    requires i < |s|
    ensures l <= i && Leads(w, s, l) && Root(w, s[l]) == Root(w, s[i])
    decreases i
  {
    l := i;
    if !Leads(w, s, i) {
      var j :| 0 <= j < i && Root(w, s[j]) == Root(w, s[i]);
      l := LeaderOf(w, s, j);
    }
  }

  /** At most one record per root, and no root lost. */
  lemma ReconciledRoots(w: World, s: seq<NotebookRecord>)
    ensures OneRecordPerRoot(w, Reconciled(w, s))
    ensures forall root :: HasRoot(w, Reconciled(w, s), root) <==> HasRoot(w, s, root)
  {
    var leaders, t := Leaders(w, s, |s|), Reconciled(w, s);
    LeadersAre(w, s, |s|);
    forall k | 0 <= k < |t| ensures leaders[k] in leaders && Root(w, t[k]) == Root(w, s[leaders[k]]) {
      ChosenKeepsRoot(w, s, |s|, leaders[k]);
    }
    forall i, j | 0 <= i < j < |t| && Root(w, t[i]) != "" ensures Root(w, t[i]) != Root(w, t[j]) {
      assert leaders[i] < leaders[j] && Leads(w, s, leaders[j]);
    }
    forall root ensures HasRoot(w, t, root) <==> HasRoot(w, s, root) {
      if HasRoot(w, s, root) {
        var i :| 0 <= i < |s| && Root(w, s[i]) == root;
        var l := LeaderOf(w, s, i);
        assert l in leaders;
        var k :| 0 <= k < |leaders| && leaders[k] == l;
        assert t[k] in t;
      }
      if HasRoot(w, t, root) {
        var k :| 0 <= k < |t| && Root(w, t[k]) == root;
        assert s[leaders[k]] in s;
      }
    }
  }

  // ---- The same without the functions ----

  /** `h` is `r` under the id of the notebook that it opens, if it opens one. */
  ghost predicate IsHealed(w: World, r: NotebookRecord, h: NotebookRecord) {
    && h.root == r.root && h.kind == r.kind && h.readOnly == r.readOnly
    && h.id == if Load(w, r).Some? then Load(w, r).value else r.id
  }

  ghost predicate FirstToLoad(w: World, s: seq<NotebookRecord>, root: string, j: nat) {
    && j < |s| && Root(w, s[j]) == root && Load(w, s[j]).Some?
    && forall k :: 0 <= k < j && Root(w, s[k]) == root ==> Load(w, s[k]).None?
  }

  /** What is to stand for all records of the root of s[i]. */
  ghost predicate StandsFor(w: World, s: seq<NotebookRecord>, i: nat, r: NotebookRecord)
    requires i < |s|
  {
    if Root(w, s[i]) == "" then IsHealed(w, s[i], r)
    else
      || (exists j: nat :: FirstToLoad(w, s, Root(w, s[i]), j) && IsHealed(w, s[j], r))
      || (r == s[i] && forall k :: 0 <= k < |s| && Root(w, s[k]) == Root(w, s[i]) ==> Load(w, s[k]).None?)
  }

  /** One record for every root, and one for every record without a root, where
      the first of them was. */
  ghost predicate ReconciledFrom(w: World, s: seq<NotebookRecord>, at: seq<nat>, t: seq<NotebookRecord>) {
    && |at| == |t| && Increasing(at) && (forall k :: 0 <= k < |at| ==> at[k] < |s| && StandsFor(w, s, at[k], t[k]))
    && forall i: nat :: i in at <==>
         i < |s| && (Root(w, s[i]) == "" || forall j :: 0 <= j < i ==> Root(w, s[j]) != Root(w, s[i]))
  }

  lemma ReconciledIs(w: World, s: seq<NotebookRecord>)
    ensures ReconciledFrom(w, s, Leaders(w, s, |s|), Reconciled(w, s))
  {
    LeadersAre(w, s, |s|);
    forall k | 0 <= k < |Leaders(w, s, |s|)|
      ensures StandsFor(w, s, Leaders(w, s, |s|)[k], Chosen(w, s, |s|, Leaders(w, s, |s|)[k])) {
      ChosenStands(w, s, Leaders(w, s, |s|)[k]);
    }
  }

  lemma ChosenStands(w: World, s: seq<NotebookRecord>, i: nat)
    requires i < |s|
    ensures StandsFor(w, s, i, Chosen(w, s, |s|, i))
  {
    var root := Root(w, s[i]);
    if root != "" {
      var j := FirstLoadable(w, s, |s|, root);
      NoneLoadsBefore(w, s, |s|, root);
      if j != -1 { assert FirstToLoad(w, s, root, j) && IsHealed(w, s[j], Chosen(w, s, |s|, i)); }
    }
  }

  lemma {:induction false} AllLead(w: World, s: seq<NotebookRecord>, n: nat)
    requires OneRecordPerRoot(w, s) && n <= |s|
    ensures |Leaders(w, s, n)| == n && forall k :: 0 <= k < n ==> Leaders(w, s, n)[k] == k
  {
    if n > 0 { AllLead(w, s, n - 1); }
  }

  lemma TidyStays(w: World, s: seq<NotebookRecord>)
    requires OneRecordPerRoot(w, s) && forall r :: r in s ==> Healed(w, r) == r
    ensures Reconciled(w, s) == s
  {
    AllLead(w, s, |s|);
    forall k | 0 <= k < |s| ensures Chosen(w, s, |s|, k) == s[k] {
      NoneLoadsBefore(w, s, |s|, Root(w, s[k]));
      assert s[k] in s;
    }
  }

  lemma ChosenIsHealed(w: World, s: seq<NotebookRecord>, i: nat)
    requires i < |s|
    ensures Healed(w, Chosen(w, s, |s|, i)) == Chosen(w, s, |s|, i)
  {
    var j := FirstLoadable(w, s, |s|, Root(w, s[i]));
    HealedTwice(w, s[i]);
    NoneLoadsBefore(w, s, |s|, Root(w, s[i]));
    if j != -1 { HealedTwice(w, s[j]); }
  }

  lemma ReconciledIsHealed(w: World, s: seq<NotebookRecord>)
    ensures forall r :: r in Reconciled(w, s) ==> Healed(w, r) == r
  {
    var t, leaders := Reconciled(w, s), Leaders(w, s, |s|);
    forall r | r in t ensures Healed(w, r) == r {
      var k :| 0 <= k < |t| && t[k] == r;
      ChosenIsHealed(w, s, leaders[k]);
    }
  }

  /** The list stays as it is exactly when each root has one record and no
      record that loads has a stale id. */
  lemma UnchangedExactlyWhen(w: World, s: seq<NotebookRecord>)
    ensures Reconciled(w, s) == s <==> OneRecordPerRoot(w, s) && forall r :: r in s ==> Healed(w, r) == r
  {
    if OneRecordPerRoot(w, s) && forall r :: r in s ==> Healed(w, r) == r { TidyStays(w, s); }
    if Reconciled(w, s) == s {
      ReconciledRoots(w, s);
      ReconciledIsHealed(w, s);
    }
  }

  lemma HealedTwice(w: World, r: NotebookRecord)
    ensures Healed(w, Healed(w, r)) == Healed(w, r)
  {
  }

  /** A second run changes nothing. */
  lemma ReconcileIsIdempotent(w: World, s: seq<NotebookRecord>)
    ensures Reconciled(w, Reconciled(w, s)) == Reconciled(w, s)
  {
    ReconciledRoots(w, s);
    ReconciledIsHealed(w, s);
    TidyStays(w, Reconciled(w, s));
  }

  // ---- Updating and closing ----

  /** A record belongs to a notebook by its id or by its cleaned root. */
  predicate Matches(w: World, r: NotebookRecord, id: Id, root: string) {
    r.id == id || Root(w, r) == root
  }

  /** The records that an update or a close leaves. */
  function Others(w: World, id: Id, root: string): NotebookRecord -> bool {
    (r: NotebookRecord) => !Matches(w, r, id, root)
  }

  /** What forgetting a notebook leaves: exactly the records that have neither its
      id nor its cleaned root, each at its place. */
  ghost predicate Forgotten(w: World, s: seq<NotebookRecord>, t: seq<NotebookRecord>, id: Id, root: string) {
    && IsRest(s, t, Others(w, id, root))
    && forall x :: x in t <==> x in s && x.id != id && Root(w, x) != root
  }

  lemma KeptAreForgotten(w: World, s: seq<NotebookRecord>, id: Id, root: string)
    ensures Forgotten(w, s, Kept(s, |s|, Others(w, id, root)), id, root)
  {
    KeptIsTheRest(s, Others(w, id, root));
    RestMembers(s, Kept(s, |s|, Others(w, id, root)), Others(w, id, root));
  }

  /** Without a match nothing is removed. */
  lemma NoMatchNoChange(w: World, s: seq<NotebookRecord>, id: Id, root: string)
    requires forall r :: r in s ==> r.id != id && Root(w, r) != root
    ensures Kept(s, |s|, Others(w, id, root)) == s
  {
    AllKept(s, Others(w, id, root));
  }

  lemma RestHasNoMatch(w: World, s: seq<NotebookRecord>, t: seq<NotebookRecord>, id: Id, root: string)
    requires IsRest(s, t, Others(w, id, root))
    ensures forall i :: 0 <= i < |t| ==> t[i].id != id && Root(w, t[i]) != root
    ensures OneRecordPerRoot(w, s) ==> OneRecordPerRoot(w, t)
  {
    var at :| RestAt(s, t, Others(w, id, root), at);
    forall i | 0 <= i < |t| ensures t[i].id != id && Root(w, t[i]) != root { assert at[i] in at; }
  }

  /** Appended to the rest, a notebook's record is its one match; one record per
      root stays one record per root. */
  lemma UpdateLeavesOneMatch(w: World, s: seq<NotebookRecord>, rest: seq<NotebookRecord>, r: NotebookRecord)
    requires IsRest(s, rest, Others(w, r.id, Root(w, r)))
    ensures var t := rest + [r];
            && (forall i :: 0 <= i < |t| && (t[i].id == r.id || Root(w, t[i]) == Root(w, r)) ==> i == |t| - 1)
            && (OneRecordPerRoot(w, s) ==> OneRecordPerRoot(w, t))
  {
    RestHasNoMatch(w, s, rest, r.id, Root(w, r));
    if OneRecordPerRoot(w, s) { OneMoreRoot(w, rest, r); }
  }

  lemma OneMoreRoot(w: World, rest: seq<NotebookRecord>, r: NotebookRecord)
    requires OneRecordPerRoot(w, rest) && forall i :: 0 <= i < |rest| ==> Root(w, rest[i]) != Root(w, r)
    ensures OneRecordPerRoot(w, rest + [r])
  {
  }

  class NotebookManager {
    const world: World
    var records: seq<NotebookRecord>
    var open: map<Id, NotebookRecord>

    method LoadOpenNotebooks() returns (changed: bool)
      modifies this
      ensures records == Reconciled(world, old(records))
      ensures changed <==> records != old(records)
      ensures open == Opened(world, old(records), |old(records)|)
      ensures forall id :: id in open <==> Opens(world, old(records), id)
      ensures exists at :: ReconciledFrom(world, old(records), at, records)
    {
      ReconciledIs(world, records);
      var slots;
      slots, changed := ReadRecords(records);
      OpenedAre(world, records, |records|);
      assert records[..|records|] == records;
      if changed { records := slots; }
    }

    /** Opens what loads, and collects the records to keep. */
    method ReadRecords(s: seq<NotebookRecord>) returns (slots: seq<NotebookRecord>, changed: bool)
      modifies this`open
      ensures slots == Reconciled(world, s) && (changed <==> slots != s)
      ensures open == Opened(world, s, |s|)
    {
      slots, changed, open := [], false, map[];
      var index: map<string, nat> := map[];
      var loaded: map<string, bool> := map[];
      ghost var c: GoodScan := Start(world, s);
      for n := 0 to |s|
        invariant c.w == world && c.s == s && c.n == n && Told(slots, s, n, changed)
        invariant c.slots == slots && c.index == index && c.loaded == loaded
        invariant open == Opened(world, s, n)
      {
        var id := Load(world, s[n]);
        slots, index, loaded, changed, c := Place(c, s[n], id, slots, index, loaded, changed);
        Open(s[n], id);
      }
      ScanIsReconciled(c);
      assert s[..|s|] == s;
    }

    /** A later notebook of the same id takes the place of an earlier one. */
    method Open(record: NotebookRecord, id: Option<Id>)
      modifies this`open
      ensures open == if id.Some? then old(open)[id.value := record] else old(open)
    {
      if id.Some? { open := open[id.value := record]; }
    }

    /** Gives one record its slot, or drops it. */
    method Place(ghost c: GoodScan, record: NotebookRecord, id: Option<Id>, slots: seq<NotebookRecord>,
                 index: map<string, nat>, loaded: map<string, bool>, changed: bool)
      returns (slots': seq<NotebookRecord>, index': map<string, nat>, loaded': map<string, bool>, changed': bool,
               ghost c': GoodScan)
      requires c.n < |c.s| && record == c.s[c.n] && id == Load(world, record)
      requires c.w == world && c.slots == slots && c.index == index && c.loaded == loaded
      requires Told(slots, c.s, c.n, changed)
      ensures c'.w == world && c'.s == c.s && c'.n == c.n + 1
      ensures c'.slots == slots' && c'.index == index' && c'.loaded == loaded'
      ensures Told(slots', c.s, c.n + 1, changed')
    {
      IndexIsInRange(c);
      c' := Absorb(c);
      ToldAfter(c, changed);
      slots', index', loaded', changed' := slots, index, loaded, changed;
      var root := Root(world, record);
      if id.Some? {
        var kept := record;
        if record.id != id.value { kept, changed' := kept.(id := id.value), true; }
        if root == "" {
          slots' := slots + [kept];
        } else if root !in index {
          index', loaded' := index[root := |slots|], loaded[root := true];
          slots' := slots + [kept];
        } else if !loaded[root] {
          slots', loaded', changed' := slots[index[root] := kept], loaded[root := true], true;
        } else {
          changed' := true;
        }
      } else if root == "" {
        slots' := slots + [record];
      } else if root !in index {
        index', loaded' := index[root := |slots|], loaded[root := false];
        slots' := slots + [record];
      } else {
        changed' := true;
      }
    }

    method RemoveRecords(id: Id, root: string)
      modifies this`records
      ensures records == Kept(old(records), |old(records)|, Others(world, id, root))
    {
      var kept := [];
      for i := 0 to |records|
        invariant records == old(records) && kept == Kept(records, i, Others(world, id, root))
      {
        if !Matches(world, records[i], id, root) { kept := kept + [records[i]]; }
      }
      records := kept;
    }

    method UpdateNotebookRecord(r: NotebookRecord)
      modifies this`records
      ensures exists rest :: Forgotten(world, old(records), rest, r.id, Root(world, r)) && records == rest + [r]
      ensures forall k :: 0 <= k < |records| && (records[k].id == r.id || Root(world, records[k]) == Root(world, r)) ==>
                k == |records| - 1
    {
      RemoveRecords(r.id, Root(world, r));
      KeptAreForgotten(world, old(records), r.id, Root(world, r));
      UpdateLeavesOneMatch(world, old(records), records, r);
      records := records + [r];
    }

    /** Closing forgets every record of the notebook's id or root. */
    method CloseNotebook(id: Id) returns (r: Result<()>)
      modifies this
      ensures id !in old(open) ==> r == Err(NotFound) && records == old(records) && open == old(open)
      ensures id in old(open) ==>
                && r == Ok(()) && open == old(open) - {id}
                && Forgotten(world, old(records), records, id, Root(world, old(open)[id]))
    {
      if id !in open { return Err(NotFound); }
      var root := Root(world, open[id]);
      open := open - {id};
      RemoveRecords(id, root);
      KeptAreForgotten(world, old(records), id, root);
      r := Ok(());
    }
  }

  // ---- The loop's bookkeeping ----

  ghost predicate Slots(w: World, s: seq<NotebookRecord>, n: nat, slots: seq<NotebookRecord>) {
    && n <= |s| && |slots| == |Leaders(w, s, n)|
    && forall k {:trigger Leaders(w, s, n)[k]} :: 0 <= k < |slots| ==> slots[k] == Chosen(w, s, n, Leaders(w, s, n)[k])
  }

  /** `index` finds the slot of every root that has one. */
  ghost predicate Places(w: World, slots: seq<NotebookRecord>, index: map<string, nat>) {
    && "" !in index
    && (forall k {:trigger Root(w, slots[k])} :: 0 <= k < |slots| ==>
         Root(w, slots[k]) == "" || Root(w, slots[k]) in index)
    && (forall k, root {:trigger Root(w, slots[k]), index[root]} ::
          0 <= k < |slots| && root in index && Root(w, slots[k]) == root ==> index[root] == k)
    && (forall root {:trigger index[root]} :: root in index ==>
         index[root] < |slots| && Root(w, slots[index[root]]) == root)
  }

  /** All roots seen are known, and whether one of their records loads. */
  ghost predicate Knows(w: World, s: seq<NotebookRecord>, n: nat, loaded: map<string, bool>) {
    && n <= |s|
    && (forall root {:trigger loaded[root]} :: root in loaded ==>
         (loaded[root] <==> FirstLoadable(w, s, n, root) != -1))
    && (forall i {:trigger Root(w, s[i])} :: 0 <= i < n ==> Root(w, s[i]) == "" || Root(w, s[i]) in loaded)
  }

  ghost predicate Index(w: World, s: seq<NotebookRecord>, n: nat, slots: seq<NotebookRecord>,
                        index: map<string, nat>, loaded: map<string, bool>) {
    n <= |s| && index.Keys == loaded.Keys && Places(w, slots, index) && Knows(w, s, n, loaded)
  }

  ghost predicate Opens(w: World, s: seq<NotebookRecord>, id: Id) { exists r :: r in s && Load(w, r) == Some(id) }

  /** The open notebooks after n records; a later record of an id replaces an earlier one. */
  function Opened(w: World, s: seq<NotebookRecord>, n: nat): map<Id, NotebookRecord>
    requires n <= |s|
  {
    if n == 0 then map[]
    else
      var before := Opened(w, s, n - 1);
      if Load(w, s[n - 1]).Some? then before[Load(w, s[n - 1]).value := s[n - 1]] else before
  }

  lemma {:induction false} OpenedAre(w: World, s: seq<NotebookRecord>, n: nat)
    requires n <= |s|
    ensures forall id :: id in Opened(w, s, n) <==> Opens(w, s[..n], id)
  {
    if n > 0 {
      OpenedAre(w, s, n - 1);
      assert s[..n] == s[..n - 1] + [s[n - 1]];
      forall id ensures Opens(w, s[..n], id) <==> Opens(w, s[..n - 1], id) || Load(w, s[n - 1]) == Some(id) {
        assert s[n - 1] in s[..n];
      }
    }
  }

  /** The last record that opens this id, among the first n; -1 for none. */
  function LastOf(w: World, s: seq<NotebookRecord>, n: nat, id: Id): (k: int)
    requires n <= |s|
    ensures k == -1 || (0 <= k < n && Load(w, s[k]) == Some(id))
  {
    if n == 0 then -1 else if Load(w, s[n - 1]) == Some(id) then n - 1 else LastOf(w, s, n - 1, id)
  }

  lemma {:induction false} OpenedIsLast(w: World, s: seq<NotebookRecord>, n: nat, id: Id)
    requires n <= |s|
    ensures id in Opened(w, s, n) <==> LastOf(w, s, n, id) != -1
    ensures id in Opened(w, s, n) ==> Opened(w, s, n)[id] == s[LastOf(w, s, n, id)]
  {
    if n > 0 { OpenedIsLast(w, s, n - 1, id); }
  }

  /** The loadable records that the list keeps. */
  predicate Represents(w: World, s: seq<NotebookRecord>, k: nat)
    requires k < |s|
  {
    Load(w, s[k]).Some? && (Root(w, s[k]) == "" || FirstLoadable(w, s, |s|, Root(w, s[k])) == k)
  }

  /** What the list says of a notebook's read-only flag holds of the open one. */
  ghost predicate FlagIsLive(w: World, s: seq<NotebookRecord>, r: NotebookRecord) {
    var id := Load(w, r);
    id.Some? ==> id.value in Opened(w, s, |s|) && Opened(w, s, |s|)[id.value].readOnly == r.readOnly
  }

  ghost predicate AgreesWithLast(w: World, s: seq<NotebookRecord>, k: nat)
    requires k < |s| && Load(w, s[k]).Some?
  {
    var j := LastOf(w, s, |s|, Load(w, s[k]).value);
    j != -1 && s[j].readOnly == s[k].readOnly
  }

  lemma {:induction false} RepresentativeIsListed(w: World, s: seq<NotebookRecord>, k: nat)
    requires k < |s| && Represents(w, s, k)
    ensures Healed(w, s[k]) in Reconciled(w, s)
  {
    var leaders := Leaders(w, s, |s|);
    LeadersAre(w, s, |s|);
    var l := k;
    if Root(w, s[k]) != "" { l := LeaderOf(w, s, k); }
    assert l in leaders;
    var a :| 0 <= a < |leaders| && leaders[a] == l;
    assert Reconciled(w, s)[a] == Chosen(w, s, |s|, l) == Healed(w, s[k]);
  }

  lemma {:induction false} ListedIsRepresentative(w: World, s: seq<NotebookRecord>, r: NotebookRecord) returns (k: nat)
    requires r in Reconciled(w, s) && Load(w, r).Some?
    ensures k < |s| && Represents(w, s, k) && r == Healed(w, s[k])
  {
    var leaders := Leaders(w, s, |s|);
    var a :| 0 <= a < |leaders| && r == Chosen(w, s, |s|, leaders[a]);
    k := leaders[a];
    var root := Root(w, s[k]);
    NoneLoadsBefore(w, s, |s|, root);
    if root != "" { k := FirstLoadable(w, s, |s|, root); }
  }

  /** Every kept record tells the truth about the open notebook's read-only
      flag exactly when each loadable record that is the first of its root
      agrees with the last record that opens the same notebook. */
  lemma LiveFlagsExactlyWhen(w: World, s: seq<NotebookRecord>)
    ensures (forall r :: r in Reconciled(w, s) ==> FlagIsLive(w, s, r))
            <==> forall k :: 0 <= k < |s| && Represents(w, s, k) ==> AgreesWithLast(w, s, k)
  {
    if forall r :: r in Reconciled(w, s) ==> FlagIsLive(w, s, r) {
      forall k | 0 <= k < |s| && Represents(w, s, k) ensures AgreesWithLast(w, s, k) {
        RepresentativeIsListed(w, s, k);
        assert FlagIsLive(w, s, Healed(w, s[k]));
        OpenedIsLast(w, s, |s|, Load(w, s[k]).value);
      }
    }
    if forall k :: 0 <= k < |s| && Represents(w, s, k) ==> AgreesWithLast(w, s, k) {
      forall r | r in Reconciled(w, s) ensures FlagIsLive(w, s, r) {
        if Load(w, r).Some? {
          var k := ListedIsRepresentative(w, s, r);
          assert AgreesWithLast(w, s, k);
          OpenedIsLast(w, s, |s|, Load(w, s[k]).value);
        }
      }
    }
  }

  /** The smallest failure: of two loadable records of one root the first stays
      in the list, and the open notebook carries the second one's flag. */
  lemma FlagOfTheDuplicateIsLive(w: World, a: NotebookRecord, b: NotebookRecord)
    requires Root(w, a) == Root(w, b) != "" && a.kind == b.kind == Bundled && w.bundled(Root(w, a)) == Some(a.id)
    ensures Reconciled(w, [a, b]) == [a] && Opened(w, [a, b], 2)[a.id] == b
    ensures a.readOnly != b.readOnly ==> !FlagIsLive(w, [a, b], a)
  {
    var s := [a, b];
    assert Leads(w, s, 0) && !Leads(w, s, 1);
    assert Leaders(w, s, 1) == [0];
    assert Leaders(w, s, 2) == [0];
    assert FirstLoadable(w, s, 1, Root(w, a)) == 0;
    assert Chosen(w, s, 2, 0) == a;
  }

  /** The loop's state after reading the first n records of s. */
  datatype Scan = Scan(w: World, s: seq<NotebookRecord>, n: nat, slots: seq<NotebookRecord>,
                       index: map<string, nat>, loaded: map<string, bool>)

  type GoodScan = c: Scan | Slots(c.w, c.s, c.n, c.slots) && Index(c.w, c.s, c.n, c.slots, c.index, c.loaded)
    witness Scan(World(x => x, x => None, (x, y) => false), [], 0, [], map[], map[])

  /** The flag tells whether the slots differ from the records read. */
  ghost predicate Told(slots: seq<NotebookRecord>, s: seq<NotebookRecord>, n: nat, changed: bool) {
    |slots| <= n <= |s| && (changed <==> slots != s[..n])
  }

  /** One more record: it gets a slot, takes over the slot of a phantom or is dropped. */
  ghost function Absorbed(c: Scan): Scan
    requires c.n < |c.s|
  {
    var record := c.s[c.n];
    var root, loads, kept := Root(c.w, record), Load(c.w, record).Some?, Healed(c.w, record);
    if root == "" then c.(n := c.n + 1, slots := c.slots + [kept])
    else if root !in c.index then
      c.(n := c.n + 1, slots := c.slots + [kept], index := c.index[root := |c.slots|],
         loaded := c.loaded[root := loads])
    else if loads && root in c.loaded && !c.loaded[root] && c.index[root] < |c.slots| then
      c.(n := c.n + 1, slots := c.slots[c.index[root] := kept], loaded := c.loaded[root := true])
    else c.(n := c.n + 1)
  }

  /** Whether anything has changed then. */
  ghost predicate ChangedAfter(c: Scan, changed: bool)
    requires c.n < |c.s|
  {
    var root := Root(c.w, c.s[c.n]);
    changed || Healed(c.w, c.s[c.n]) != c.s[c.n] || (root != "" && root in c.index)
  }

  lemma AsScan(w: World, s: seq<NotebookRecord>, n: nat, slots: seq<NotebookRecord>, index: map<string, nat>,
               loaded: map<string, bool>) returns (r: GoodScan)
    requires Slots(w, s, n, slots) && Index(w, s, n, slots, index, loaded)
    ensures r == Scan(w, s, n, slots, index, loaded)
  {
    r := Scan(w, s, n, slots, index, loaded);
  }

  lemma Absorb(c: GoodScan) returns (r: GoodScan)
    requires c.n < |c.s|
    ensures r == Absorbed(c)
  {
    IndexIsInRange(c);
    var root := Root(c.w, c.s[c.n]);
    if root == "" {
      r := WithRootless(c.w, c.s, c.n, c.slots, c.index, c.loaded);
    } else if root !in c.index {
      r := WithNewRoot(c.w, c.s, c.n, c.slots, c.index, c.loaded);
    } else if Load(c.w, c.s[c.n]).Some? && !c.loaded[root] {
      r := WithReplacement(c.w, c.s, c.n, c.slots, c.index, c.loaded);
    } else {
      r := WithDropped(c.w, c.s, c.n, c.slots, c.index, c.loaded);
    }
  }

  lemma IndexIsInRange(c: GoodScan)
    ensures c.index.Keys == c.loaded.Keys && "" !in c.index
    ensures forall root :: root in c.index ==> c.index[root] < |c.slots|
  {
  }

  lemma ToldAfter(c: Scan, changed: bool)
    requires c.n < |c.s| && Told(c.slots, c.s, c.n, changed)
    ensures Told(Absorbed(c).slots, c.s, c.n + 1, ChangedAfter(c, changed))
  {
    AppendedDiffers(c.slots, c.s, c.n, changed, Healed(c.w, c.s[c.n]));
  }

  lemma AppendedDiffers(slots: seq<NotebookRecord>, s: seq<NotebookRecord>, n: nat, changed: bool, kept: NotebookRecord)
    requires n < |s| && Told(slots, s, n, changed)
    ensures Told(slots + [kept], s, n + 1, changed || kept != s[n])
  {
    var more := slots + [kept];
    assert s[..n + 1] == s[..n] + [s[n]];
    assert more[..|slots|] == slots && more[|slots|] == kept;
    assert s[..n + 1][..n] == s[..n];
  }

  lemma WithNewRoot(w: World, s: seq<NotebookRecord>, n: nat, slots: seq<NotebookRecord>, index: map<string, nat>,
                    loaded: map<string, bool>) returns (r: GoodScan)
    requires n < |s| && Slots(w, s, n, slots) && Index(w, s, n, slots, index, loaded)
    requires Root(w, s[n]) !in index && Root(w, s[n]) != ""
    ensures var root, loads := Root(w, s[n]), Load(w, s[n]).Some?;
            r == Scan(w, s, n + 1, slots + [Healed(w, s[n])], index[root := |slots|], loaded[root := loads])
  {
    var root, loads := Root(w, s[n]), Load(w, s[n]).Some?;
    NewSlot(w, s, n, slots, index, loaded);
    LeadersOneMore(w, s, n, slots, index, loaded);
    NewSlotIndex(w, s, n, slots, index, loaded);
    r := AsScan(w, s, n + 1, slots + [Healed(w, s[n])], index[root := |slots|], loaded[root := loads]);
  }

  lemma WithRootless(w: World, s: seq<NotebookRecord>, n: nat, slots: seq<NotebookRecord>, index: map<string, nat>,
                     loaded: map<string, bool>) returns (r: GoodScan)
    requires n < |s| && Slots(w, s, n, slots) && Index(w, s, n, slots, index, loaded) && Root(w, s[n]) == ""
    ensures r == Scan(w, s, n + 1, slots + [Healed(w, s[n])], index, loaded)
  {
    NewSlot(w, s, n, slots, index, loaded);
    RootlessSlotIndex(w, s, n, slots, index, loaded);
    r := AsScan(w, s, n + 1, slots + [Healed(w, s[n])], index, loaded);
  }

  lemma WithReplacement(w: World, s: seq<NotebookRecord>, n: nat, slots: seq<NotebookRecord>, index: map<string, nat>,
                        loaded: map<string, bool>) returns (r: GoodScan)
    requires n < |s| && Slots(w, s, n, slots) && Index(w, s, n, slots, index, loaded)
    requires var root := Root(w, s[n]); root in index && !loaded[root] && Load(w, s[n]).Some?
    ensures var root := Root(w, s[n]);
            r == Scan(w, s, n + 1, slots[index[root] := Healed(w, s[n])], index, loaded[root := true])
  {
    var root := Root(w, s[n]);
    var replaced := slots[index[root] := Healed(w, s[n])];
    OldSlotIndex(w, s, n, slots, index, loaded);
    ReplacedSlot(w, s, n, slots, index, loaded);
    SameRootSameIndex(w, s, n + 1, slots, replaced, index, loaded[root := true]);
    r := AsScan(w, s, n + 1, replaced, index, loaded[root := true]);
  }

  lemma WithDropped(w: World, s: seq<NotebookRecord>, n: nat, slots: seq<NotebookRecord>, index: map<string, nat>,
                    loaded: map<string, bool>) returns (r: GoodScan)
    requires n < |s| && Slots(w, s, n, slots) && Index(w, s, n, slots, index, loaded)
    requires var root := Root(w, s[n]); root in index && (loaded[root] || Load(w, s[n]).None?)
    ensures r == Scan(w, s, n + 1, slots, index, loaded)
  {
    DroppedIndex(w, s, n, slots, index, loaded);
    DroppedRecord(w, s, n, slots, index, loaded);
    r := AsScan(w, s, n + 1, slots, index, loaded);
  }

  ghost function Start(w: World, s: seq<NotebookRecord>): GoodScan {
    Scan(w, s, 0, [], map[], map[])
  }

  lemma DroppedIndex(w: World, s: seq<NotebookRecord>, n: nat, slots: seq<NotebookRecord>, index: map<string, nat>,
                     loaded: map<string, bool>)
    requires n < |s| && Index(w, s, n, slots, index, loaded) && Root(w, s[n]) in index
    requires loaded[Root(w, s[n])] || Load(w, s[n]).None?
    ensures Index(w, s, n + 1, slots, index, loaded)
  {
    var root := Root(w, s[n]);
    OldSlotIndex(w, s, n, slots, index, loaded);
    assert loaded[root := loaded[root] || Load(w, s[n]).Some?] == loaded;
  }

  /** After the last record the slots are the reconciled list. */
  lemma ScanIsReconciled(c: GoodScan)
    requires c.n == |c.s|
    ensures c.slots == Reconciled(c.w, c.s)
  {
    assert c.slots == Reconciled(c.w, c.s);
  }

  lemma LeadersOneMore(w: World, s: seq<NotebookRecord>, n: nat, slots: seq<NotebookRecord>, index: map<string, nat>,
                       loaded: map<string, bool>)
    requires n < |s| && Slots(w, s, n, slots) && Index(w, s, n, slots, index, loaded)
    ensures Leaders(w, s, n + 1) == if Root(w, s[n]) in index then Leaders(w, s, n) else Leaders(w, s, n) + [n]
    ensures Root(w, s[n]) !in index ==> FirstLoadable(w, s, n, Root(w, s[n])) == -1 || Root(w, s[n]) == ""
  {
    var root := Root(w, s[n]);
    if root in index {
      var i := Leaders(w, s, n)[index[root]];
      ChosenKeepsRoot(w, s, n, i);
      assert Root(w, s[i]) == root;
      assert !Leads(w, s, n);
    } else {
      assert Leads(w, s, n);
    }
  }

  lemma LoadableOneMore(w: World, s: seq<NotebookRecord>, n: nat, root: string)
    requires n < |s|
    ensures FirstLoadable(w, s, n + 1, root) ==
              if FirstLoadable(w, s, n, root) == -1 && root == Root(w, s[n]) && Load(w, s[n]).Some? then n
              else FirstLoadable(w, s, n, root)
  {
  }

  lemma ChosenOneMore(w: World, s: seq<NotebookRecord>, n: nat, i: nat)
    requires i < n < |s|
    ensures var root := Root(w, s[n]);
            Chosen(w, s, n + 1, i) ==
              if root != "" && Root(w, s[i]) == root && FirstLoadable(w, s, n, root) == -1 && Load(w, s[n]).Some?
              then Healed(w, s[n]) else Chosen(w, s, n, i)
  {
    LoadableOneMore(w, s, n, Root(w, s[i]));
  }

  lemma NewSlot(w: World, s: seq<NotebookRecord>, n: nat, slots: seq<NotebookRecord>, index: map<string, nat>,
                loaded: map<string, bool>)
    requires n < |s| && Slots(w, s, n, slots) && Index(w, s, n, slots, index, loaded) && Root(w, s[n]) !in index
    ensures Slots(w, s, n + 1, slots + [Healed(w, s[n])])
  {
    LeadersOneMore(w, s, n, slots, index, loaded);
    LoadableOneMore(w, s, n, Root(w, s[n]));
    forall k | 0 <= k < |slots| ensures Chosen(w, s, n + 1, Leaders(w, s, n)[k]) == slots[k] {
      var i := Leaders(w, s, n)[k];
      ChosenOneMore(w, s, n, i);
      assert Root(w, s[i]) == "" || Root(w, s[i]) in index;
    }
  }

  lemma NewSlotIndex(w: World, s: seq<NotebookRecord>, n: nat, slots: seq<NotebookRecord>, index: map<string, nat>,
                     loaded: map<string, bool>)
    requires n < |s| && Index(w, s, n, slots, index, loaded) && Root(w, s[n]) !in index && Root(w, s[n]) != ""
    requires FirstLoadable(w, s, n, Root(w, s[n])) == -1
    ensures Index(w, s, n + 1, slots + [Healed(w, s[n])], index[Root(w, s[n]) := |slots|],
            loaded[Root(w, s[n]) := Load(w, s[n]).Some?])
  {
    NewSlotPlaces(w, slots, index, Healed(w, s[n]), Root(w, s[n]));
    NewRootKnown(w, s, n, loaded);
  }

  lemma NewSlotPlaces(w: World, slots: seq<NotebookRecord>, index: map<string, nat>, kept: NotebookRecord, r: string)
    requires Places(w, slots, index) && r !in index && r != "" && Root(w, kept) == r
    ensures Places(w, slots + [kept], index[r := |slots|])
  {
    var more, index' := slots + [kept], index[r := |slots|];
    forall k, root | 0 <= k < |more| && root in index' && Root(w, more[k]) == root ensures index'[root] == k {
      if k < |slots| { assert more[k] == slots[k] && Root(w, slots[k]) in index; }
    }
  }

  lemma NewRootKnown(w: World, s: seq<NotebookRecord>, n: nat, loaded: map<string, bool>)
    requires n < |s| && Knows(w, s, n, loaded) && Root(w, s[n]) !in loaded
    requires FirstLoadable(w, s, n, Root(w, s[n])) == -1
    ensures Knows(w, s, n + 1, loaded[Root(w, s[n]) := Load(w, s[n]).Some?])
  {
    var r := Root(w, s[n]);
    var more := loaded[r := Load(w, s[n]).Some?];
    forall root {:trigger more[root]} | root in more ensures more[root] <==> FirstLoadable(w, s, n + 1, root) != -1 {
      LoadableOneMore(w, s, n, root);
      assert root != r ==> more[root] == loaded[root];
    }
    forall i | 0 <= i < n + 1 ensures Root(w, s[i]) == "" || Root(w, s[i]) in more {
      if i < n { assert Root(w, s[i]) == "" || Root(w, s[i]) in loaded; }
    }
  }

  lemma RootlessSlotIndex(w: World, s: seq<NotebookRecord>, n: nat, slots: seq<NotebookRecord>, index: map<string, nat>,
                          loaded: map<string, bool>)
    requires n < |s| && Index(w, s, n, slots, index, loaded) && Root(w, s[n]) == ""
    ensures Index(w, s, n + 1, slots + [Healed(w, s[n])], index, loaded)
  {
    forall root { LoadableOneMore(w, s, n, root); }
    RootlessSlotPlaces(w, slots, index, Healed(w, s[n]));
  }

  lemma RootlessSlotPlaces(w: World, slots: seq<NotebookRecord>, index: map<string, nat>, kept: NotebookRecord)
    requires Places(w, slots, index) && Root(w, kept) == ""
    ensures Places(w, slots + [kept], index)
  {
  }

  lemma OldSlotIndex(w: World, s: seq<NotebookRecord>, n: nat, slots: seq<NotebookRecord>, index: map<string, nat>,
                     loaded: map<string, bool>)
    requires n < |s| && Index(w, s, n, slots, index, loaded) && Root(w, s[n]) in index
    ensures Index(w, s, n + 1, slots, index, loaded[Root(w, s[n]) := loaded[Root(w, s[n])] || Load(w, s[n]).Some?])
  {
    forall root { LoadableOneMore(w, s, n, root); }
  }

  lemma ReplacedSlot(w: World, s: seq<NotebookRecord>, n: nat, slots: seq<NotebookRecord>, index: map<string, nat>,
                     loaded: map<string, bool>)
    requires n < |s| && Slots(w, s, n, slots) && Index(w, s, n, slots, index, loaded)
    requires Root(w, s[n]) in index && !loaded[Root(w, s[n])] && Load(w, s[n]).Some?
    ensures Slots(w, s, n + 1, slots[index[Root(w, s[n])] := Healed(w, s[n])])
  {
    LeadersOneMore(w, s, n, slots, index, loaded);
    forall k | 0 <= k < |slots|
      ensures Chosen(w, s, n + 1, Leaders(w, s, n)[k]) ==
                if k == index[Root(w, s[n])] then Healed(w, s[n]) else slots[k]
    {
      ChosenOneMore(w, s, n, Leaders(w, s, n)[k]);
      ChosenKeepsRoot(w, s, n, Leaders(w, s, n)[k]);
    }
  }

  lemma DroppedRecord(w: World, s: seq<NotebookRecord>, n: nat, slots: seq<NotebookRecord>, index: map<string, nat>,
                      loaded: map<string, bool>)
    requires n < |s| && Slots(w, s, n, slots) && Index(w, s, n, slots, index, loaded)
    requires Root(w, s[n]) in index && (loaded[Root(w, s[n])] || Load(w, s[n]).None?)
    ensures Slots(w, s, n + 1, slots)
  {
    LeadersOneMore(w, s, n, slots, index, loaded);
    forall k | 0 <= k < |slots| { ChosenOneMore(w, s, n, Leaders(w, s, n)[k]); }
  }

  lemma SameRootSameIndex(w: World, s: seq<NotebookRecord>, n: nat, slots: seq<NotebookRecord>,
                          slots': seq<NotebookRecord>, index: map<string, nat>, loaded: map<string, bool>)
    requires Index(w, s, n, slots, index, loaded)
    requires |slots'| == |slots| && forall k :: 0 <= k < |slots| ==> Root(w, slots'[k]) == Root(w, slots[k])
    ensures Index(w, s, n, slots', index, loaded)
  {
  }
}
