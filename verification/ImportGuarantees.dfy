/** What every run of the import machine guarantees, and where the promise of
    the public contract (include/vxcore/vxcore.h) stops holding. */
module ImportGuarantees {
  import opened Records
  import opened MetadataStore
  import opened StagedTree
  import opened ImportRows
  import opened ImportMachine

  /** The outcome a crashed import may have: nothing happened, all of it did, or
      (after a late failure) only its rows stayed. */
  ghost predicate OldOrNew(p: Plan, late: bool, d: Disk) {
    || (BeforeImport(p, d) && d.store == p.store)
    || AfterImport(p, d)
    || (late && BeforeImport(p, d) && Some(d.store) == FinalStore(p))
  }

  /** Crash atomicity: with all-or-nothing journal writes and deletes of files
      and rows that do what they are asked to, a completed recovery leaves the
      notebook exactly as before the import or fully imported, however often the
      import and its recoveries crashed. Only a run that failed after its store
      commit may come back with the committed rows. */
  lemma CrashAtomicity(p: Plan, f: Faults, run: seq<Machine>)
    requires ValidPlan(p) && IdsAbsent(p) && Safe(p, f)
    requires !f.tornJournals && !f.removalErrors && !RowsMayStay(p, f)
    requires Run(p, f, run) && Last(run).pc == Recovered
    ensures OldOrNew(p, Last(run).late, Last(run).disk)
  {
    InvRun(p, f, run);
  }

  /** Deletes that give up quietly cost no more than files and rows of the
      bundle left lying about: the index is still the old one with the old rows
      untouched, or the whole bundle is in. */
  lemma FailedRemovalsLeaveOnlyOrphans(p: Plan, f: Faults, run: seq<Machine>)
    requires ValidPlan(p) && IdsAbsent(p) && Safe(p, f) && !f.tornJournals
    requires Run(p, f, run) && Last(run).pc == Recovered
    ensures var m := Last(run);
            || (m.disk.index == Whole(p.index) &&
                if RowsMayStay(p, f) then BasePlus(p.store, m.disk.store, RecordedIds(p)) else m.disk.store == p.store)
            || AfterImport(p, m.disk)
            || (m.late && m.disk.index == Whole(p.index) && Some(m.disk.store) == FinalStore(p))
  {
    InvRun(p, f, run);
  }

  /** What the parent's index makes reachable under the imported name. */
  function ReachedTree(p: Plan, d: Disk): Option<(Option<ContentTree>, Option<ConfigTree>)> {
    if d.index.Whole? && p.name in d.index.value.folders then Some((d.content, d.metadata)) else None
  }

  /** Even when journal writes may be cut short and deletes may give up, the
      index is whole after recovery and what it reaches is nothing new or the
      complete bundle. */
  lemma TornJournalsKeepTheReachableTree(p: Plan, f: Faults, run: seq<Machine>)
    requires ValidPlan(p) && Safe(p, f) && p.name !in p.index.folders
    requires Run(p, f, run) && Last(run).pc == Recovered
    ensures var d := Last(run).disk;
            || (d.index == Whole(p.index) && ReachedTree(p, d) == None)
            || (d.index == Whole(NewIndex(p)) &&
                ReachedTree(p, d) == Some((Some(p.content), Some(p.metadata))))
  {
    InvRun(p, f, run);
    assert p.name in NewIndex(p).folders by {
      assert NewIndex(p).folders[|p.index.folders|] == p.name;
    }
  }

  /** In-process rollback restores index, cached parent and both targets on
      every failing branch. The store is the old one exactly when nothing failed
      after its commit, and otherwise gains exactly the bundle's rows. The
      staging directory is gone except when the very first journal write failed:
      that branch returns without rollback, and may leave a readable journal. */
  lemma RollbackIsExact(p: Plan, f: Faults, run: seq<Machine>)
    requires ValidPlan(p) && Run(p, f, run) && Last(run).pc == Failed
    ensures var m := Last(run);
            && m.disk.index == Whole(p.index) && m.parent == p.index && m.txn == None
            && (if m.late then Some(m.disk.store) == FinalStore(p) else m.disk.store == p.store)
            && (!f.removalErrors ==>
                  && BeforeImport(p, m.disk)
                  && (m.disk.staging != None <==> |run| == 2)
                  && (|run| == 2 ==> FirstWriteFailed(p, f, m.disk)))
  {
    RunRollsBack(p, f, run);
    var n := |run| - 1;
    assert Step(p, f, run[n - 1], run[n - 1 + 1]);
    if n == 1 {
      FirstStepFails(p, f, run[1]);
    } else {
      assert Step(p, f, run[n - 2], run[n - 2 + 1]);
      NeverBackAtFirstWrite(p, f, run[n - 2], run[n - 1]);
      if !f.removalErrors { RollbackClearsStaging(p, f, run[n - 1], run[n]); }
    }
  }

  /** What a reported failure means for disk and memory. */
  ghost predicate RolledBackTo(p: Plan, f: Faults, m: Machine) {
    && m.disk.index == Whole(p.index) && m.parent == p.index && m.txn == None
    && (if m.late then Some(m.disk.store) == FinalStore(p) else m.disk.store == p.store)
    && (!f.removalErrors ==>
          && BeforeImport(p, m.disk)
          && (m.disk.staging == None || (!m.late && FirstWriteFailed(p, f, m.disk))))
  }

  lemma RunRollsBack(p: Plan, f: Faults, run: seq<Machine>)
    requires ValidPlan(p) && Run(p, f, run) && Last(run).pc == Failed
    ensures RolledBackTo(p, f, Last(run))
  {
    InvRun(p, f, run);
  }

  lemma FirstStepFails(p: Plan, f: Faults, m: Machine)
    requires Step(p, f, Start(p), m) && m.pc == Failed
    ensures FirstWriteFailed(p, f, m.disk)
  {
    assert JournalStep(p, f, Init, Start(p), m);
    var j :| JournalLeft(f, None, JournalAt(p, Init), j) && m.disk == SetJournal(Start(p).disk, j);
    assert m.disk.staging == Some(Staging(j, Some(p.content), Some(p.metadata)));
  }

  lemma NeverBackAtFirstWrite(p: Plan, f: Faults, m: Machine, m': Machine)
    requires Step(p, f, m, m')
    ensures m'.pc != WriteJournal(Init)
  {
  }

  lemma RollbackClearsStaging(p: Plan, f: Faults, m: Machine, m': Machine)
    requires Step(p, f, m, m') && m.pc != WriteJournal(Init) && m'.pc == Failed && !f.removalErrors
    ensures m'.disk.staging == None
  {
  }

  /** A successful import published everything and left no journal. */
  lemma SuccessIsComplete(p: Plan, f: Faults, run: seq<Machine>)
    requires ValidPlan(p) && Run(p, f, run) && Last(run).pc == Done
    ensures AfterImport(p, Last(run).disk) && Last(run).parent == NewIndex(p) && Last(run).txn == None
    ensures !f.removalErrors ==> Last(run).disk.staging == None
  {
    InvRun(p, f, run);
  }

  /** Once recovered, opening, crashing and recovering again change nothing,
      provided the deletes did what they were asked to. */
  lemma {:induction false} RecoveryIsIdempotent(p: Plan, f: Faults, run: seq<Machine>, i: nat, j: nat)
    requires ValidPlan(p) && !f.removalErrors && Run(p, f, run)
    requires i <= j < |run| && run[i].pc == Recovered
    ensures run[j].disk == run[i].disk && JournalOf(run[j].disk) == None
    ensures run[j].pc in {Recovered, Down, ReadJournal}
    decreases j
  {
    if i == j {
      var prefix := run[..i + 1];
      InvRun(p, f, prefix);
      assert Last(prefix) == run[i];
    } else {
      RecoveryIsIdempotent(p, f, run, i, j - 1);
      assert Step(p, f, run[j - 1], run[j - 1 + 1]);
    }
  }

  // ---- Runs built step by step ----

  /** Steps lead from `a` to `m`. */
  ghost predicate Leads(p: Plan, f: Faults, a: Machine, m: Machine) {
    exists run :: |run| > 0 && run[0] == a && Steps(p, f, run) && Last(run) == m
  }

  ghost predicate Reaches(p: Plan, f: Faults, m: Machine) {
    Leads(p, f, Start(p), m)
  }

  lemma LeadsNowhere(p: Plan, f: Faults, a: Machine)
    ensures Leads(p, f, a, a)
  {
    var run := [a];
    assert Steps(p, f, run) && Last(run) == a;
  }

  lemma LeadsStep(p: Plan, f: Faults, a: Machine, m: Machine, m': Machine)
    requires Leads(p, f, a, m) && Step(p, f, m, m')
    ensures Leads(p, f, a, m')
  {
    var run :| |run| > 0 && run[0] == a && Steps(p, f, run) && Last(run) == m;
    var longer := run + [m'];
    forall i | 0 <= i < |longer| - 1 ensures Step(p, f, longer[i], longer[i + 1]) {
      if i < |run| - 1 {
        assert longer[i] == run[i] && longer[i + 1] == run[i + 1];
      } else {
        assert longer[i] == m && longer[i + 1] == m';
      }
    }
    assert Steps(p, f, longer) && longer[0] == a && Last(longer) == m';
  }

  lemma ReachesStart(p: Plan, f: Faults)
    ensures Reaches(p, f, Start(p))
  {
    LeadsNowhere(p, f, Start(p));
  }

  lemma ReachesStep(p: Plan, f: Faults, m: Machine, m': Machine)
    requires Reaches(p, f, m) && Step(p, f, m, m')
    ensures Reaches(p, f, m')
  {
    LeadsStep(p, f, Start(p), m, m');
  }

  lemma ReachedByRun(p: Plan, f: Faults, m: Machine) returns (run: seq<Machine>)
    requires Reaches(p, f, m)
    ensures Run(p, f, run) && Last(run) == m
  {
    run :| |run| > 0 && run[0] == Start(p) && Steps(p, f, run) && Last(run) == m;
  }

  predicate BeforeCommit(pc: Pc) {
    || pc.WriteJournal? || pc in {PublishContent, PublishMetadata, BeginTxn, CommitTxn} || pc.Insert?
    || pc in {UpdateParent, WriteTmp, PublishIndex}
  }

  /** What the program may count on before the commit point. */
  ghost predicate Equipped(p: Plan, m: Machine) {
    && (BeforeCommit(m.pc) ==> m.disk.staging.Some?)
    && (BeforeCommit(m.pc) && m.pc !in {WriteJournal(Committed), WriteTmp, PublishIndex} ==> m.parent == p.index)
  }

  lemma EquippedStep(p: Plan, f: Faults, m: Machine, m': Machine)
    requires Equipped(p, m) && Step(p, f, m, m')
    ensures Equipped(p, m')
  {
    if !BeforeCommit(m.pc) {
      NoWayBack(p, f, m, m');
    } else if m.pc.WriteJournal? {
      EquippedJournal(p, f, m, m');
    }
  }

  lemma NoWayBack(p: Plan, f: Faults, m: Machine, m': Machine)
    requires !BeforeCommit(m.pc) && Step(p, f, m, m')
    ensures !BeforeCommit(m'.pc)
  {
  }

  lemma EquippedJournal(p: Plan, f: Faults, m: Machine, m': Machine)
    requires Equipped(p, m) && m.pc.WriteJournal? && Step(p, f, m, m')
    ensures Equipped(p, m')
  {
  }

  lemma {:induction false} EquippedRun(p: Plan, f: Faults, run: seq<Machine>)
    requires Run(p, f, run)
    ensures Equipped(p, Last(run))
    decreases |run|
  {
    if |run| > 1 {
      var before := run[..|run| - 1];
      EquippedRun(p, f, before);
      assert Step(p, f, run[|run| - 2], run[|run| - 1]);
      EquippedStep(p, f, Last(before), Last(run));
    }
  }

  lemma ReachesEquipped(p: Plan, f: Faults, m: Machine)
    requires Reaches(p, f, m)
    ensures Equipped(p, m)
  {
    var run := ReachedByRun(p, f, m);
    EquippedRun(p, f, run);
  }

  lemma ReachesOutcome(p: Plan, f: Faults, m: Machine)
    requires ValidPlan(p) && Reaches(p, f, m)
    ensures m.pc == Done ==>
              && AfterImport(p, m.disk) && m.parent == NewIndex(p) && m.txn == None
              && (!f.removalErrors ==> m.disk.staging == None)
    ensures m.pc == Failed ==> RolledBackTo(p, f, m)
  {
    var run := ReachedByRun(p, f, m);
    if m.pc == Done { SuccessIsComplete(p, f, run); }
    if m.pc == Failed { RunRollsBack(p, f, run); }
  }

  /** What a completed recovery means for the disk. */
  ghost predicate RecoveredTo(p: Plan, f: Faults, late: bool, d: Disk) {
    && (!f.removalErrors ==> JournalOf(d) == None)
    && (Safe(p, f) ==> IndexDecides(p, d))
    && (Safe(p, f) && IdsAbsent(p) && !f.tornJournals ==> SettledButOrphans(p, f, late, d))
    && (Safe(p, f) && IdsAbsent(p) && !f.tornJournals && !f.removalErrors && !RowsMayStay(p, f) ==>
          OldOrNew(p, late, d))
  }

  lemma RunRecovers(p: Plan, f: Faults, run: seq<Machine>)
    requires ValidPlan(p) && Run(p, f, run) && Last(run).pc == Recovered
    ensures RecoveredTo(p, f, Last(run).late, Last(run).disk)
    ensures Safe(p, f) && !f.tornJournals && !f.removalErrors ==> AtomicTree(p, Last(run).disk)
  {
    InvRun(p, f, run);
  }

  lemma ReachesRecovered(p: Plan, f: Faults, m: Machine)
    requires ValidPlan(p) && Reaches(p, f, m) && m.pc == Recovered
    ensures RecoveredTo(p, f, m.late, m.disk)
    ensures Safe(p, f) && !f.tornJournals && !f.removalErrors ==> AtomicTree(p, m.disk)
  {
    var run := ReachedByRun(p, f, m);
    RunRecovers(p, f, run);
  }

  /** The notebook's tree (index and targets) is the old or the new one. */
  ghost predicate AtomicTree(p: Plan, d: Disk) {
    BeforeImport(p, d) || AfterImport(p, d)
  }

  function StagedDisk(p: Plan, contentOut: bool, metadataOut: bool, phase: Phase): Disk {
    Disk(Some(Staging(Some(Whole(JournalAt(p, phase))), if contentOut then None else Some(p.content),
                      if metadataOut then None else Some(p.metadata))),
         if contentOut then Some(p.content) else None, if metadataOut then Some(p.metadata) else None,
         Whole(p.index), p.tmp, p.store)
  }

  lemma ReachesTransaction(p: Plan, f: Faults)
    ensures Reaches(p, f, Machine(StagedDisk(p, false, false, Init), PublishContent, p.index, None, false))
    ensures Reaches(p, f, Machine(StagedDisk(p, true, true, Metadata), BeginTxn, p.index, None, false))
  {
    ReachesStart(p, f);
    var m1 := Machine(StagedDisk(p, false, false, Init), PublishContent, p.index, None, false);
    ReachesStep(p, f, Start(p), m1);
    var m2 := Machine(StagedDisk(p, true, false, Init), WriteJournal(Content), p.index, None, false);
    ReachesStep(p, f, m1, m2);
    var m3 := Machine(StagedDisk(p, true, false, Content), PublishMetadata, p.index, None, false);
    ReachesStep(p, f, m2, m3);
    var m4 := Machine(StagedDisk(p, true, true, Content), WriteJournal(Metadata), p.index, None, false);
    ReachesStep(p, f, m3, m4);
    var m5 := Machine(StagedDisk(p, true, true, Metadata), BeginTxn, p.index, None, false);
    ReachesStep(p, f, m4, m5);
  }

  /** The transaction before its k-th statement. */
  function Inserting(p: Plan, k: nat): Machine
    requires k <= |Statements(p)|
  {
    Machine(StagedDisk(p, true, true, Metadata), Insert(k), p.index, ApplyAll(p.store, Statements(p)[..k]), false)
  }

  lemma {:induction false} ReachesStatement(p: Plan, f: Faults, k: nat)
    requires k <= |Statements(p)| && FinalStore(p).Some?
    ensures Reaches(p, f, Inserting(p, k))
  {
    if k == 0 {
      ReachesTransaction(p, f);
      assert Statements(p)[..0] == [];
      ReachesStep(p, f, Machine(StagedDisk(p, true, true, Metadata), BeginTxn, p.index, None, false), Inserting(p, 0));
    } else {
      ReachesStatement(p, f, k - 1);
      NextStatement(p, f, k - 1);
      ReachesStep(p, f, Inserting(p, k - 1), Inserting(p, k));
    }
  }

  lemma NextStatement(p: Plan, f: Faults, k: nat)
    requires k < |Statements(p)| && FinalStore(p).Some?
    ensures Step(p, f, Inserting(p, k), Inserting(p, k + 1))
  {
    var ops := Statements(p);
    PrefixApplies(p.store, ops, k);
    PrefixApplies(p.store, ops, k + 1);
    assert ops[..k + 1][..k] == ops[..k] && ops[..k + 1][k] == ops[k];
    assert StoreStep(p, Inserting(p, k), Inserting(p, k + 1));
  }

  lemma PrefixApplies(s: Store, ops: seq<RowOp>, k: nat)
    requires k <= |ops| && ApplyAll(s, ops).Some?
    ensures ApplyAll(s, ops[..k]).Some?
  {
    assert ops == ops[..k] + ops[k..];
    ApplyAllSplits(s, ops[..k], ops[k..]);
  }

  function CommittedDisk(p: Plan, phase: Phase): Disk
    requires FinalStore(p).Some?
  {
    StagedDisk(p, true, true, phase).(store := FinalStore(p).value)
  }

  lemma ReachesCommittedStore(p: Plan, f: Faults)
    requires FinalStore(p).Some?
    ensures Reaches(p, f, Machine(CommittedDisk(p, Metadata), WriteJournal(Db), p.index, None, false))
  {
    var ops := Statements(p);
    ReachesStatement(p, f, |ops|);
    assert ops[..|ops|] == ops;
    var m := Inserting(p, |ops|);
    ReachesStep(p, f, m, m.(pc := CommitTxn));
    ReachesStep(p, f, m.(pc := CommitTxn),
                Machine(CommittedDisk(p, Metadata), WriteJournal(Db), p.index, None, false));
  }

  lemma ReachesCommitPoint(p: Plan, f: Faults)
    requires FinalStore(p).Some?
    ensures Reaches(p, f, Machine(CommittedDisk(p, Db).(index := Whole(NewIndex(p)), tmp := None),
                                  WriteJournal(Committed), NewIndex(p), None, false))
  {
    ReachesCommittedStore(p, f);
    var d := CommittedDisk(p, Db);
    var m1 := Machine(CommittedDisk(p, Metadata), WriteJournal(Db), p.index, None, false);
    var m2 := Machine(d, UpdateParent, p.index, None, false);
    ReachesStep(p, f, m1, m2);
    var m3 := Machine(d, WriteTmp, NewIndex(p), None, false);
    ReachesStep(p, f, m2, m3);
    var m4 := m3.(disk := d.(tmp := Some(Whole(NewIndex(p)))), pc := PublishIndex);
    ReachesStep(p, f, m3, m4);
    var m5 := m4.(disk := d.(index := Whole(NewIndex(p)), tmp := None), pc := WriteJournal(Committed));
    ReachesStep(p, f, m4, m5);
  }

  lemma ReachesDone(p: Plan, f: Faults) returns (m: Machine)
    requires FinalStore(p).Some?
    ensures Reaches(p, f, m) && m.pc == Done && m.disk.store == FinalStore(p).value
  {
    ReachesCommitPoint(p, f);
    var d := CommittedDisk(p, Db).(index := Whole(NewIndex(p)), tmp := None);
    var m1 := Machine(d, WriteJournal(Committed), NewIndex(p), None, false);
    var m2 := m1.(disk := SetJournal(d, Some(Whole(JournalAt(p, Committed)))), pc := CleanStaging);
    ReachesStep(p, f, m1, m2);
    m := m2.(disk := m2.disk.(staging := None), pc := Done);
    ReachesStep(p, f, m2, m);
  }

  /** An import can succeed exactly when the store knows the destination and
      none of the ids, and no file of the bundle lists a tag twice; and a
      successful one adds exactly the bundle's rows. */
  lemma ImportSucceedsExactlyWhen(p: Plan, f: Faults)
    requires ValidPlan(p) && Distinct(p.gathered.ids)
    ensures (exists m :: Reaches(p, f, m) && m.pc == Done)
            <==> Insertable(p.store, p.gathered, p.index.id) && TagsDistinct(p.gathered)
    ensures forall m :: Reaches(p, f, m) && m.pc == Done ==> Added(p.store, m.disk.store, p.gathered)
  {
    AllRowsGoInExactlyWhen(p.store, p.gathered, p.index.id);
    if FinalStore(p).Some? {
      InsertsExactlyTheBundle(p.store, p.gathered, p.index.id);
      var m := ReachesDone(p, f);
    }
    forall m | Reaches(p, f, m) && m.pc == Done ensures FinalStore(p) == Some(m.disk.store) {
      ReachesOutcome(p, f, m);
    }
  }

  // ---- Where the guarantees stop ----

  lemma LeadsToCleanTargets(p: Plan, f: Faults, a: Machine, m: Machine, j: Journal)
    requires Leads(p, f, a, m) && m.pc == Down && m.txn == None
    requires JournalOf(m.disk) == Some(Whole(j)) && j.phase != Committed
    ensures Leads(p, f, a, m.(disk := m.disk.(metadata := None, content := None), pc := DropRows(j, 0)))
  {
    var m1 := m.(pc := ReadJournal);
    LeadsStep(p, f, a, m, m1);
    var m2 := m.(pc := DropMetadata(j));
    LeadsStep(p, f, a, m1, m2);
    var m3 := m.(disk := m.disk.(metadata := None), pc := DropContent(j));
    LeadsStep(p, f, a, m2, m3);
    LeadsStep(p, f, a, m3, m3.(disk := m3.disk.(content := None), pc := DropRows(j, 0)));
  }

  lemma {:induction false} LeadsToRowsDropped(p: Plan, f: Faults, a: Machine, m: Machine, j: Journal, k: nat)
    requires Leads(p, f, a, m) && m.pc == DropRows(j, k) && k <= |j.ids|
    ensures Leads(p, f, a, m.(disk := m.disk.(store := DeleteNodes(m.disk.store, j.ids[k..])), pc := RestoreIndex(j)))
    decreases |j.ids| - k
  {
    if k == |j.ids| {
      assert m.disk.(store := DeleteNodes(m.disk.store, j.ids[k..])) == m.disk;
      LeadsStep(p, f, a, m, m.(pc := RestoreIndex(j)));
    } else {
      var next := m.(disk := m.disk.(store := DeleteNode(m.disk.store, j.ids[k])), pc := DropRows(j, k + 1));
      LeadsStep(p, f, a, m, next);
      LeadsToRowsDropped(p, f, a, next, j, k + 1);
      assert j.ids[k..][1..] == j.ids[k + 1..];
    }
  }

  /** The same with deletes that all fail. */
  lemma {:induction false} LeadsToRowsSkipped(p: Plan, f: Faults, a: Machine, m: Machine, j: Journal, k: nat)
    requires f.rowErrors && Leads(p, f, a, m) && m.pc == DropRows(j, k) && k <= |j.ids|
    ensures Leads(p, f, a, m.(pc := RestoreIndex(j)))
    decreases |j.ids| - k
  {
    if k == |j.ids| {
      LeadsStep(p, f, a, m, m.(pc := RestoreIndex(j)));
    } else {
      var next := m.(pc := DropRows(j, k + 1));
      LeadsStep(p, f, a, m, next);
      LeadsToRowsSkipped(p, f, a, next, j, k + 1);
    }
  }

  /** What the restore of the parent's index may leave. */
  ghost predicate IndexLeft(f: Faults, before: FileImage<FolderConfig>, j: Journal, after: FileImage<FolderConfig>) {
    if j.saved.None? then after == before
    else after == Whole(j.saved.value) || (f.restoreErrors && after in {Torn, before})
  }

  lemma LeadsToEndOfReplay(p: Plan, f: Faults, a: Machine, m: Machine, j: Journal, index: FileImage<FolderConfig>)
    requires Leads(p, f, a, m) && m.pc == RestoreIndex(j) && IndexLeft(f, m.disk.index, j, index)
    ensures Leads(p, f, a, m.(disk := m.disk.(index := index, staging := None), pc := Recovered))
  {
    var m1 := m.(disk := m.disk.(index := index), pc := DropStaging);
    assert m.disk.(index := m.disk.index) == m.disk;
    assert RecoverStep(f, m, m1);
    LeadsStep(p, f, a, m, m1);
    LeadsStep(p, f, a, m1, m1.(disk := m1.disk.(staging := None), pc := Recovered));
  }

  /** The disk after a replay in which every step does what it is asked to. */
  function Replayed(d: Disk, j: Journal): Disk {
    d.(staging := None, content := None, metadata := None, store := DeleteNodes(d.store, j.ids),
       index := if j.saved.Some? then Whole(j.saved.value) else d.index)
  }

  lemma LeadsToReplayed(p: Plan, f: Faults, a: Machine, m: Machine, j: Journal, index: FileImage<FolderConfig>)
    requires Leads(p, f, a, m) && m.pc == Down && m.txn == None
    requires JournalOf(m.disk) == Some(Whole(j)) && j.phase != Committed && IndexLeft(f, m.disk.index, j, index)
    ensures Leads(p, f, a, m.(disk := Replayed(m.disk, j).(index := index), pc := Recovered))
  {
    LeadsToCleanTargets(p, f, a, m, j);
    var m1 := m.(disk := m.disk.(metadata := None, content := None), pc := DropRows(j, 0));
    LeadsToRowsDropped(p, f, a, m1, j, 0);
    assert j.ids[0..] == j.ids;
    var m2 := m1.(disk := m1.disk.(store := DeleteNodes(m.disk.store, j.ids)), pc := RestoreIndex(j));
    LeadsToEndOfReplay(p, f, a, m2, j, index);
    assert m2.disk.(index := index, staging := None) == Replayed(m.disk, j).(index := index);
  }

  /** Replay removes targets and recorded rows, and overwrites the parent's index
      with the bytes saved in the journal, whatever that index has come to hold
      by then. */
  lemma ReplayOverwritesIndex(p: Plan, f: Faults, m: Machine, j: Journal)
    requires m.pc == Down && m.txn == None
    requires JournalOf(m.disk) == Some(Whole(j)) && j.phase != Committed && j.saved.Some?
    ensures Leads(p, f, m, m.(disk := Replayed(m.disk, j), pc := Recovered))
    ensures Replayed(m.disk, j).index == Whole(j.saved.value)
  {
    LeadsNowhere(p, f, m);
    LeadsToReplayed(p, f, m, m, j, Whole(j.saved.value));
    assert Replayed(m.disk, j).(index := Whole(j.saved.value)) == Replayed(m.disk, j);
  }

  /** A failed import may leave such a journal: its first journal write failed
      after the bytes were on disk. */
  lemma FailedFirstWriteLeavesJournal(p: Plan, f: Faults)
    ensures exists m :: Reaches(p, f, m) && m.pc == Failed && !m.late && m.disk.store == p.store
                        && JournalOf(m.disk) == Some(Whole(JournalAt(p, Init)))
  {
    ReachesStart(p, f);
    var m := Start(p).(disk := SetJournal(Start(p).disk, Some(Whole(JournalAt(p, Init)))), pc := Failed);
    assert JournalLeft(f, None, JournalAt(p, Init), Some(Whole(JournalAt(p, Init))));
    assert JournalStep(p, f, Init, Start(p), m);
    ReachesStep(p, f, Start(p), m);
  }

  ghost predicate AlwaysAtomic(p: Plan, f: Faults) {
    forall m :: Reaches(p, f, m) && m.pc == Recovered ==> AtomicTree(p, m.disk)
  }

  /** Recovery always ends in the old or the new tree exactly when the parent's
      index could be read before it was journaled (if the import can get so far
      as to change it), recovery's restore of it cannot fail, no journal write
      is cut short and no delete gives up. */
  lemma AtomicExactlyWhen(p: Plan, f: Faults)
    requires ValidPlan(p)
    ensures AlwaysAtomic(p, f) <==> Safe(p, f) && !f.tornJournals && !f.removalErrors
  {
    if !Safe(p, f) {
      if p.saved.Some? { FailedRestoreBreaks(p, f); } else { UnsavedIndexBreaks(p, f); }
    } else if f.tornJournals {
      TornJournalLeavesOrphans(p, f);
    } else if f.removalErrors {
      FailedRemovalLeavesOrphans(p, f);
    } else {
      forall m | Reaches(p, f, m) && m.pc == Recovered ensures AtomicTree(p, m.disk) {
        ReachesRecovered(p, f, m);
      }
    }
  }

  /** A crash between the index replacement and the last journal write leaves
      the index naming a folder that recovery deletes. */
  lemma UnsavedIndexBreaks(p: Plan, f: Faults)
    requires p.saved.None? && FinalStore(p).Some?
    ensures exists m :: Reaches(p, f, m) && m.pc == Recovered && !AtomicTree(p, m.disk)
  {
    ReachesCommitPoint(p, f);
    var d := CommittedDisk(p, Db).(index := Whole(NewIndex(p)), tmp := None);
    var m := Machine(d, Down, NewIndex(p), None, false);
    ReachesStep(p, f, m.(pc := WriteJournal(Committed)), m);
    var j := JournalAt(p, Db);
    LeadsToReplayed(p, f, Start(p), m, j, d.index);
    var m' := m.(disk := Replayed(d, j).(index := d.index), pc := Recovered);
    IndexGrows(p);
    assert Reaches(p, f, m') && !AtomicTree(p, m'.disk);
  }

  /** A failing restore leaves no readable index. */
  lemma FailedRestoreBreaks(p: Plan, f: Faults)
    requires p.saved.Some? && f.restoreErrors
    ensures exists m :: Reaches(p, f, m) && m.pc == Recovered && !AtomicTree(p, m.disk)
  {
    ReachesTransaction(p, f);
    var m := Machine(StagedDisk(p, false, false, Init), Down, p.index, None, false);
    ReachesStep(p, f, m.(pc := PublishContent), m);
    var j := JournalAt(p, Init);
    LeadsToReplayed(p, f, Start(p), m, j, Torn);
    var m' := m.(disk := Replayed(m.disk, j).(index := Torn), pc := Recovered);
    assert Reaches(p, f, m') && !AtomicTree(p, m'.disk);
  }

  /** Or it leaves the new index over the targets and rows that recovery has
      just deleted: a restore that cannot even open the file. */
  lemma FailedRestoreKeepsNewIndex(p: Plan, f: Faults)
    requires p.saved.Some? && f.restoreErrors && FinalStore(p).Some?
    ensures exists m :: Reaches(p, f, m) && m.pc == Recovered && m.disk.index == Whole(NewIndex(p))
                        && TargetsGone(m.disk) && NoRowOf(m.disk.store, RecordedIds(p))
  {
    ReachesCommitPoint(p, f);
    var d, j := CommittedDisk(p, Db).(index := Whole(NewIndex(p)), tmp := None), JournalAt(p, Db);
    var m := Machine(d, Down, NewIndex(p), None, false);
    ReachesStep(p, f, m.(pc := WriteJournal(Committed)), m);
    LeadsToReplayed(p, f, Start(p), m, j, d.index);
    DeleteNodesRemoves(d.store, j.ids);
    var m' := m.(disk := Replayed(d, j).(index := d.index), pc := Recovered);
    assert Reaches(p, f, m');
  }

  lemma IndexGrows(p: Plan)
    ensures NewIndex(p) != p.index
  {
    assert |NewIndex(p).folders| == |p.index.folders| + 1;
  }

  /** A cut-off journal is discarded without undo: there is a run that recovers
      with the old index but the published content left behind. */
  lemma TornJournalLeavesOrphans(p: Plan, f: Faults)
    requires f.tornJournals
    ensures exists m :: Reaches(p, f, m) && m.pc == Recovered
                        && m.disk.index == Whole(p.index) && m.disk.content == Some(p.content)
                        && !AtomicTree(p, m.disk)
  {
    ReachesTransaction(p, f);
    var m1 := Machine(StagedDisk(p, false, false, Init), PublishContent, p.index, None, false);
    var m2 := Machine(StagedDisk(p, true, false, Init), WriteJournal(Content), p.index, None, false);
    ReachesStep(p, f, m1, m2);
    var d := SetJournal(m2.disk, Some(Torn));
    assert JournalLeft(f, JournalOf(m2.disk), JournalAt(p, Content), Some(Torn));
    var m3 := Machine(d, Down, p.index, None, false);
    ReachesStep(p, f, m2, m3);
    var m4 := m3.(pc := ReadJournal);
    ReachesStep(p, f, m3, m4);
    var m5 := m3.(pc := DropStaging);
    ReachesStep(p, f, m4, m5);
    var m6 := m5.(disk := d.(staging := None), pc := Recovered);
    ReachesStep(p, f, m5, m6);
  }

  /** Replay goes on past a delete that gave up, and then drops the journal. */
  lemma FailedRemovalLeavesOrphans(p: Plan, f: Faults)
    requires f.removalErrors && (p.saved == None || (p.saved == Some(p.index) && !f.restoreErrors))
    ensures exists m :: Reaches(p, f, m) && m.pc == Recovered
                        && m.disk.index == Whole(p.index) && m.disk.content == Some(p.content)
                        && !AtomicTree(p, m.disk)
  {
    ReachesKeptContent(p, f);
    var m, j := KeptContent(p), JournalAt(p, Init);
    LeadsToRowsDropped(p, f, Start(p), m, j, 0);
    var m1 := m.(disk := m.disk.(store := DeleteNodes(m.disk.store, j.ids[0..])), pc := RestoreIndex(j));
    LeadsToEndOfReplay(p, f, Start(p), m1, j, Whole(p.index));
    var m' := m1.(disk := m1.disk.(index := Whole(p.index), staging := None), pc := Recovered);
    assert Reaches(p, f, m') && !AtomicTree(p, m'.disk);
  }

  /** Replay of the first journal, past the removal of the content. */
  function KeptContent(p: Plan): Machine {
    Machine(StagedDisk(p, true, false, Init), DropRows(JournalAt(p, Init), 0), p.index, None, false)
  }

  lemma ReachesKeptContent(p: Plan, f: Faults)
    requires f.removalErrors
    ensures Reaches(p, f, KeptContent(p))
  {
    ReachesTransaction(p, f);
    var j, m := JournalAt(p, Init), KeptContent(p);
    var m1 := Machine(StagedDisk(p, false, false, Init), PublishContent, p.index, None, false);
    ReachesStep(p, f, m1, m.(pc := WriteJournal(Content)));
    ReachesStep(p, f, m.(pc := WriteJournal(Content)), m.(pc := Down));
    ReachesStep(p, f, m.(pc := Down), m.(pc := ReadJournal));
    ReachesStep(p, f, m.(pc := ReadJournal), m.(pc := DropMetadata(j)));
    ReachesStep(p, f, m.(pc := DropMetadata(j)), m.(pc := DropContent(j)));
    ReachesStep(p, f, m.(pc := DropContent(j)), m);
  }

  ghost predicate AlwaysOldOrNew(p: Plan, f: Faults) {
    forall m :: Reaches(p, f, m) && m.pc == Recovered ==> OldOrNew(p, m.late, m.disk)
  }

  /** Tree and rows together are always the old or the new ones exactly when the
      tree is and, in addition, the deletes of rows do not fail (unless there is
      no commit that they would have to take back). */
  lemma OldOrNewExactlyWhen(p: Plan, f: Faults)
    requires ValidPlan(p) && IdsAbsent(p)
    ensures AlwaysOldOrNew(p, f) <==> Safe(p, f) && !f.tornJournals && !f.removalErrors && !RowsMayStay(p, f)
  {
    if AlwaysOldOrNew(p, f) {
      assert AlwaysAtomic(p, f);
      AtomicExactlyWhen(p, f);
      if RowsMayStay(p, f) { FailedRowDeletesKeepRows(p, f); }
    } else if Safe(p, f) && !f.tornJournals && !f.removalErrors && !RowsMayStay(p, f) {
      forall m | Reaches(p, f, m) && m.pc == Recovered ensures OldOrNew(p, m.late, m.disk) {
        ReachesRecovered(p, f, m);
      }
    }
  }

  /** A crash right after the store commit, and a recovery whose row deletes all
      fail: the old tree with the bundle's rows, though no failure was late. */
  lemma FailedRowDeletesKeepRows(p: Plan, f: Faults)
    requires p.gathered.folders != [] && RowsMayStay(p, f)
    requires p.saved == None || p.saved == Some(p.index)
    ensures exists m :: Reaches(p, f, m) && m.pc == Recovered && BeforeImport(p, m.disk)
                        && Some(m.disk.store) == FinalStore(p) && !OldOrNew(p, m.late, m.disk)
  {
    ReachesKeptRows(p, f);
    var m, j := KeptRows(p), JournalAt(p, Metadata);
    LeadsToEndOfReplay(p, f, Start(p), m, j, Whole(p.index));
    var m' := m.(disk := m.disk.(index := Whole(p.index), staging := None), pc := Recovered);
    FirstFolderGoesIn(p.store, p.gathered);
    IndexGrows(p);
    assert Reaches(p, f, m') && !OldOrNew(p, m'.late, m'.disk);
  }

  /** Replay of the journal before the store commit, past the deletes of rows. */
  function KeptRows(p: Plan): Machine
    requires FinalStore(p).Some?
  {
    Machine(CommittedDisk(p, Metadata).(metadata := None, content := None), RestoreIndex(JournalAt(p, Metadata)),
            p.index, None, false)
  }

  lemma ReachesKeptRows(p: Plan, f: Faults)
    requires RowsMayStay(p, f)
    ensures Reaches(p, f, KeptRows(p))
  {
    ReachesCommittedStore(p, f);
    var j, m := JournalAt(p, Metadata), Machine(CommittedDisk(p, Metadata), Down, p.index, None, false);
    ReachesStep(p, f, m.(pc := WriteJournal(Db)), m);
    LeadsToCleanTargets(p, f, Start(p), m, j);
    LeadsToRowsSkipped(p, f, Start(p), KeptRows(p).(pc := DropRows(j, 0)), j, 0);
  }

  /** Once reported, an import survives every later crash and recovery. */
  ghost predicate AlwaysDurable(p: Plan, f: Faults) {
    forall done, m :: Reaches(p, f, done) && done.pc == Done && Leads(p, f, done, m) ==> AfterImport(p, m.disk)
  }

  /** A reported import lasts exactly when deletes do not give up: if both the
      last journal write and the removal of the staging directory fail, the
      next open takes the finished import back. */
  lemma DurableExactlyWhen(p: Plan, f: Faults)
    requires ValidPlan(p)
    ensures AlwaysDurable(p, f) <==> !f.removalErrors || FinalStore(p).None?
  {
    if f.removalErrors && FinalStore(p).Some? {
      FinishedImportIsTakenBack(p, f);
    } else {
      forall done, m | Reaches(p, f, done) && done.pc == Done && Leads(p, f, done, m)
        ensures AfterImport(p, m.disk)
      {
        ReachesOutcome(p, f, done);
        var run :| |run| > 0 && run[0] == done && Steps(p, f, run) && Last(run) == m;
        NothingToReplay(p, f, run, |run| - 1);
      }
    }
  }

  lemma {:induction false} NothingToReplay(p: Plan, f: Faults, run: seq<Machine>, i: nat)
    requires Steps(p, f, run) && i < |run| && run[0].pc == Done && run[0].disk.staging == None
    ensures run[i].disk == run[0].disk && run[i].pc in {Done, Down, ReadJournal, Recovered}
  {
    if i > 0 {
      NothingToReplay(p, f, run, i - 1);
      assert Step(p, f, run[i - 1], run[i - 1 + 1]);
    }
  }

  lemma FinishedImportIsTakenBack(p: Plan, f: Faults)
    requires FinalStore(p).Some? && f.removalErrors
    ensures exists done, m :: Reaches(p, f, done) && done.pc == Done
                              && Leads(p, f, done, m) && m.pc == Recovered && m.disk.content == None
                              && !AfterImport(p, m.disk)
  {
    ReachesCommitPoint(p, f);
    var d, j := CommittedDisk(p, Db).(index := Whole(NewIndex(p)), tmp := None), JournalAt(p, Db);
    var m1 := Machine(d, WriteJournal(Committed), NewIndex(p), None, false);
    var m2 := m1.(pc := CleanStaging);
    assert JournalLeft(f, JournalOf(d), JournalAt(p, Committed), JournalOf(d)) && SetJournal(d, JournalOf(d)) == d;
    assert JournalStep(p, f, Committed, m1, m2);
    ReachesStep(p, f, m1, m2);
    var done := m1.(pc := Done);
    ReachesStep(p, f, m2, done);
    LeadsNowhere(p, f, done);
    LeadsStep(p, f, done, done, done.(pc := Down));
    var index := if j.saved.None? then d.index else Whole(j.saved.value);
    LeadsToReplayed(p, f, done, done.(pc := Down), j, index);
    var m' := done.(disk := Replayed(d, j).(index := index), pc := Recovered);
    assert Leads(p, f, done, m') && !AfterImport(p, m'.disk);
  }

  /** The documented "a failure before step 5 writes nothing" fails once the
      store has committed: there is a failing run that keeps the new rows. */
  lemma LateFailureKeepsRows(p: Plan, f: Faults)
    requires FinalStore(p).Some?
    ensures exists m :: Reaches(p, f, m) && m.pc == Failed && BeforeImport(p, m.disk)
                        && m.disk.store == FinalStore(p).value
  {
    ReachesCommittedStore(p, f);
    var d := CommittedDisk(p, Metadata);
    var m1 := Machine(d, WriteJournal(Db), p.index, None, false);
    var m2 := Machine(d, UndoMetadata(true, true), p.index, None, true);
    assert JournalLeft(f, JournalOf(d), JournalAt(p, Db), JournalOf(d));
    assert SetJournal(d, JournalOf(d)) == d;
    assert JournalStep(p, f, Db, m1, m2);
    ReachesStep(p, f, m1, m2);
    var m3 := m2.(disk := d.(metadata := None), pc := UndoContent(true));
    ReachesStep(p, f, m2, m3);
    var m4 := m3.(disk := m3.disk.(content := None), pc := UndoStaging);
    ReachesStep(p, f, m3, m4);
    var m5 := m4.(disk := m4.disk.(staging := None), pc := Failed);
    ReachesStep(p, f, m4, m5);
  }
}
