/** The journaled folder import as a step machine that may fail or crash at
    every step, and its replay on the next open
    (src/core/bundled_folder_manager.cpp, AttachImportedFolder and RecoverImports).

    The state holds what the protocol touches: the staging directory, the two
    target directories, the destination parent's vx.json with its temporary
    file, the committed store rows, and the memory of the running process. */
module ImportMachine {
  import opened Records
  import opened MetadataStore
  import opened StagedTree
  import opened ImportRows

  /** File bytes of the content tree, by relative path. */
  type ContentTree = map<Path, string>

  datatype Phase = Init | Content | Metadata | Db | Committed

  /** `saved` holds the parent's index; None stands for the empty string left by
      a failed (and unchecked) read of it. */
  datatype Journal = Journal(phase: Phase, saved: Option<FolderConfig>, ids: seq<Id>)

  datatype Staging = Staging(
    journal: Option<FileImage<Journal>>, content: Option<ContentTree>, metadata: Option<ConfigTree>)

  datatype Disk = Disk(
    staging: Option<Staging>, content: Option<ContentTree>, metadata: Option<ConfigTree>,
    index: FileImage<FolderConfig>, tmp: Option<FileImage<FolderConfig>>, store: Store)

  /** One import: the bundle, the destination as found, and the row statements. */
  datatype Plan = Plan(
    content: ContentTree, metadata: ConfigTree, gathered: Gathered,
    name: string, index: FolderConfig, saved: Option<FolderConfig>, now: int,
    tmp: Option<FileImage<FolderConfig>>, store: Store)

  /** Which faults beyond failing steps and crashes are admitted: journal writes
      that leave a cut-off file, a failing (not crashing) index restore,
      recursive deletes that give up quietly with part of the tree still there,
      and deletes of rows that fail unnoticed. */
  datatype Faults = Faults(tornJournals: bool, restoreErrors: bool, removalErrors: bool, rowErrors: bool)

  datatype Pc =
    | WriteJournal(phase: Phase)
    | PublishContent | PublishMetadata
    | BeginTxn | Insert(k: nat) | CommitTxn
    | UpdateParent | WriteTmp | PublishIndex
    | CleanStaging | Done
    | UndoTxn | UndoMetadata(c: bool, m: bool) | UndoContent(c: bool) | UndoStaging | Failed
    | Down
    | ReadJournal
    | DropMetadata(j: Journal) | DropContent(j: Journal) | DropRows(j: Journal, k: nat)
    | RestoreIndex(j: Journal) | DropStaging | Recovered

  /** `late` remembers that a step failed after the store transaction committed. */
  datatype Machine = Machine(disk: Disk, pc: Pc, parent: FolderConfig, txn: Option<Store>, late: bool)

  function JournalAt(p: Plan, phase: Phase): Journal {
    Journal(phase, p.saved, p.gathered.ids)
  }

  function NewIndex(p: Plan): FolderConfig {
    p.index.(folders := p.index.folders + [p.name], modified := p.now)
  }

  function Statements(p: Plan): seq<RowOp> { RowOps(p.gathered) }

  function FinalStore(p: Plan): Option<Store> { ApplyAll(p.store, Statements(p)) }

  function Start(p: Plan): Machine {
    Machine(
      Disk(Some(Staging(None, Some(p.content), Some(p.metadata))), None, None, Whole(p.index), p.tmp, p.store),
      WriteJournal(Init), p.index, None, false)
  }

  function JournalOf(d: Disk): Option<FileImage<Journal>> {
    if d.staging.Some? then d.staging.value.journal else None
  }

  function SetJournal(d: Disk, j: Option<FileImage<Journal>>): Disk {
    if d.staging.Some? then d.(staging := Some(d.staging.value.(journal := j))) else d
  }

  // ---- Effects of an interrupted step ----

  /** What a journal write that did not complete may leave behind. */
  ghost predicate JournalLeft(f: Faults, before: Option<FileImage<Journal>>, j: Journal,
                              after: Option<FileImage<Journal>>) {
    after == before || after == Some(Whole(j)) || (f.tornJournals && after == Some(Torn))
  }

  /** What an interrupted recursive delete may leave: any part of the tree. */
  ghost predicate PartOf<V>(part: Option<map<Path, V>>, whole: Option<map<Path, V>>) {
    part.None? ||
    (whole.Some? && forall q :: q in part.value ==> q in whole.value && part.value[q] == whole.value[q])
  }

  ghost predicate StagingPart(part: Option<Staging>, whole: Option<Staging>) {
    part.None? ||
    (whole.Some? && part.value.journal in {whole.value.journal, None}
     && PartOf(part.value.content, whole.value.content)
     && PartOf(part.value.metadata, whole.value.metadata))
  }

  /** What a recursive delete that returned has left. */
  ghost predicate Removed<V>(f: Faults, before: Option<map<Path, V>>, after: Option<map<Path, V>>) {
    after.None? || (f.removalErrors && PartOf(after, before))
  }

  ghost predicate StagingRemoved(f: Faults, before: Option<Staging>, after: Option<Staging>) {
    after.None? || (f.removalErrors && StagingPart(after, before))
  }

  /** What the two row deletes of one recorded id have left. */
  ghost predicate NodeDeleted(f: Faults, before: Store, id: Id, after: Store) {
    || after == DeleteNode(before, id)
    || (f.rowErrors && (after == before || after == DeleteFile(before, id) || after == DeleteFolder(before, id)))
  }

  /** The disk after a crash in the middle of the step at `m.pc`. */
  ghost predicate Interrupted(p: Plan, f: Faults, m: Machine, d: Disk) {
    match m.pc
    case WriteJournal(phase) =>
      exists j :: JournalLeft(f, JournalOf(m.disk), JournalAt(p, phase), j) && d == SetJournal(m.disk, j)
    case WriteTmp => d == m.disk.(tmp := d.tmp)
    case UndoMetadata(_, true) => d == m.disk.(metadata := d.metadata) && PartOf(d.metadata, m.disk.metadata)
    case UndoContent(true) => d == m.disk.(content := d.content) && PartOf(d.content, m.disk.content)
    case DropMetadata(_) => d == m.disk.(metadata := d.metadata) && PartOf(d.metadata, m.disk.metadata)
    case DropContent(_) => d == m.disk.(content := d.content) && PartOf(d.content, m.disk.content)
    case DropRows(j, k) => k < |j.ids| && d == m.disk.(store := DeleteFile(m.disk.store, j.ids[k]))
    case RestoreIndex(j) => j.saved.Some? && d == m.disk.(index := d.index) && d.index in {Torn, Whole(j.saved.value)}
    case UndoStaging => d == m.disk.(staging := d.staging) && StagingPart(d.staging, m.disk.staging)
    case CleanStaging => d == m.disk.(staging := d.staging) && StagingPart(d.staging, m.disk.staging)
    case DropStaging => d == m.disk.(staging := d.staging) && StagingPart(d.staging, m.disk.staging)
    case _ => d == m.disk
  }

  /** The process dies before, during or after a step; memory is lost. */
  ghost predicate Crash(p: Plan, f: Faults, m: Machine, m': Machine) {
    && m.pc != Down
    && m' == Machine(m'.disk, Down, m'.parent, None, m.late)
    && (m'.disk == m.disk || Interrupted(p, f, m, m'.disk))
  }

  // ---- Steps of the running process ----

  function AfterJournal(phase: Phase): Pc {
    match phase
    case Init => PublishContent
    case Content => PublishMetadata
    case Metadata => BeginTxn
    case Db => UpdateParent
    case Committed => CleanStaging
  }

  /** Where a failed journal write continues; the last one is ignored. */
  function AfterJournalError(phase: Phase): Pc {
    match phase
    case Init => Failed
    case Content => UndoMetadata(true, false)
    case Metadata => UndoMetadata(true, true)
    case Db => UndoMetadata(true, true)
    case Committed => CleanStaging
  }

  ghost predicate JournalStep(p: Plan, f: Faults, phase: Phase, m: Machine, m': Machine) {
    || m' == m.(disk := SetJournal(m.disk, Some(Whole(JournalAt(p, phase)))), pc := AfterJournal(phase))
    || exists j :: JournalLeft(f, JournalOf(m.disk), JournalAt(p, phase), j) &&
         m' == m.(disk := SetJournal(m.disk, j), pc := AfterJournalError(phase), late := m.late || phase == Db)
  }

  ghost predicate PublishStep(m: Machine, m': Machine) {
    match m.pc
    case PublishContent =>
      || (m.disk.staging.Some? &&
          m' == m.(disk := m.disk.(content := m.disk.staging.value.content,
                                   staging := Some(m.disk.staging.value.(content := None))),
                   pc := WriteJournal(Content)))
      || m' == m.(pc := UndoMetadata(false, false))
    case PublishMetadata =>
      || (m.disk.staging.Some? &&
          m' == m.(disk := m.disk.(metadata := m.disk.staging.value.metadata,
                                   staging := Some(m.disk.staging.value.(metadata := None))),
                   pc := WriteJournal(Metadata)))
      || m' == m.(pc := UndoMetadata(true, false))
    case _ => false
  }

  ghost predicate StoreStep(p: Plan, m: Machine, m': Machine) {
    match m.pc
    case BeginTxn =>
      || m' == m.(txn := Some(m.disk.store), pc := Insert(0))
      || m' == m.(pc := UndoMetadata(true, true))
    case Insert(k) =>
      m.txn.Some? &&
      if k < |Statements(p)| then
        var next := Apply(m.txn.value, Statements(p)[k]);
        || (next.Some? && m' == m.(txn := next, pc := Insert(k + 1)))
        || (m'.txn.Some? && m' == m.(txn := m'.txn, pc := UndoTxn))
      else m' == m.(pc := CommitTxn)
    case CommitTxn =>
      m.txn.Some? &&
      (|| m' == m.(disk := m.disk.(store := m.txn.value), txn := None, pc := WriteJournal(Db))
       || m' == m.(pc := UndoTxn))
    case _ => false
  }

  ghost predicate IndexStep(p: Plan, f: Faults, m: Machine, m': Machine) {
    match m.pc
    case UpdateParent => m' == m.(parent := NewIndex(p), pc := WriteTmp)
    case WriteTmp =>
      || m' == m.(disk := m.disk.(tmp := Some(Whole(m.parent))), pc := PublishIndex)
      || m' == m.(disk := m.disk.(tmp := None), parent := p.index, pc := UndoMetadata(true, true), late := true)
    case PublishIndex =>
      || (m.disk.tmp.Some? &&
          m' == m.(disk := m.disk.(index := m.disk.tmp.value, tmp := None), pc := WriteJournal(Committed)))
      || m' == m.(disk := m.disk.(tmp := None), parent := p.index, pc := UndoMetadata(true, true), late := true)
    case CleanStaging =>
      StagingRemoved(f, m.disk.staging, m'.disk.staging) &&
      m' == m.(disk := m.disk.(staging := m'.disk.staging), pc := Done)
    case _ => false
  }

  ghost predicate UndoStep(f: Faults, m: Machine, m': Machine) {
    match m.pc
    case UndoTxn => m' == m.(txn := None, pc := UndoMetadata(true, true))
    case UndoMetadata(c, true) =>
      Removed(f, m.disk.metadata, m'.disk.metadata) &&
      m' == m.(disk := m.disk.(metadata := m'.disk.metadata), pc := UndoContent(c))
    case UndoMetadata(c, false) => m' == m.(pc := UndoContent(c))
    case UndoContent(true) =>
      Removed(f, m.disk.content, m'.disk.content) &&
      m' == m.(disk := m.disk.(content := m'.disk.content), pc := UndoStaging)
    case UndoContent(false) => m' == m.(pc := UndoStaging)
    case UndoStaging =>
      StagingRemoved(f, m.disk.staging, m'.disk.staging) &&
      m' == m.(disk := m.disk.(staging := m'.disk.staging), pc := Failed)
    case _ => false
  }

  ghost predicate RecoverStep(f: Faults, m: Machine, m': Machine) {
    match m.pc
    case Down => m' == m.(pc := ReadJournal)
    case ReadJournal =>
      (match JournalOf(m.disk)
       case None => m' == m.(pc := Recovered)
       case Some(Torn) => m' == m.(pc := DropStaging)
       case Some(Whole(j)) => m' == m.(pc := if j.phase == Committed then DropStaging else DropMetadata(j)))
    case DropMetadata(j) =>
      Removed(f, m.disk.metadata, m'.disk.metadata) &&
      m' == m.(disk := m.disk.(metadata := m'.disk.metadata), pc := DropContent(j))
    case DropContent(j) =>
      Removed(f, m.disk.content, m'.disk.content) &&
      m' == m.(disk := m.disk.(content := m'.disk.content), pc := DropRows(j, 0))
    case DropRows(j, k) =>
      if k < |j.ids| then
        NodeDeleted(f, m.disk.store, j.ids[k], m'.disk.store) &&
        m' == m.(disk := m.disk.(store := m'.disk.store), pc := DropRows(j, k + 1))
      else m' == m.(pc := RestoreIndex(j))
    case RestoreIndex(j) =>
      if j.saved.None? then m' == m.(pc := DropStaging)
      else
        || m' == m.(disk := m.disk.(index := Whole(j.saved.value)), pc := DropStaging)
        || (f.restoreErrors && m' == m.(disk := m.disk.(index := Torn), pc := DropStaging))
        || (f.restoreErrors && m' == m.(pc := DropStaging))
    case DropStaging =>
      StagingRemoved(f, m.disk.staging, m'.disk.staging) &&
      m' == m.(disk := m.disk.(staging := m'.disk.staging), pc := Recovered)
    case _ => false
  }

  ghost predicate Proceed(p: Plan, f: Faults, m: Machine, m': Machine) {
    || (m.pc.WriteJournal? && JournalStep(p, f, m.pc.phase, m, m'))
    || PublishStep(m, m')
    || StoreStep(p, m, m')
    || IndexStep(p, f, m, m')
    || UndoStep(f, m, m')
    || RecoverStep(f, m, m')
  }

  ghost predicate Step(p: Plan, f: Faults, m: Machine, m': Machine) {
    Proceed(p, f, m, m') || Crash(p, f, m, m')
  }

  ghost predicate Steps(p: Plan, f: Faults, run: seq<Machine>) {
    forall i :: 0 <= i < |run| - 1 ==> Step(p, f, run[i], run[i + 1])
  }

  ghost predicate Run(p: Plan, f: Faults, run: seq<Machine>) {
    |run| > 0 && run[0] == Start(p) && Steps(p, f, run)
  }

  function Last(run: seq<Machine>): Machine
    requires |run| > 0
  {
    run[|run| - 1]
  }

  // ---- What the states look like ----

  function RecordedIds(p: Plan): set<Id> { IdSet(p.gathered.ids) }

  /** The store held no row of the bundle's ids when the import began. */
  ghost predicate IdsAbsent(p: Plan) { NoRowOf(p.store, RecordedIds(p)) }

  ghost predicate ValidPlan(p: Plan) {
    && ForeignKeys(p.store)
    && WellGathered(p.gathered, p.index.id) && p.gathered.folders != []
    && (p.saved == None || p.saved == Some(p.index))
  }

  ghost predicate BeforeImport(p: Plan, d: Disk) {
    d.content == None && d.metadata == None && d.index == Whole(p.index)
  }

  ghost predicate AfterImport(p: Plan, d: Disk) {
    && d.content == Some(p.content) && d.metadata == Some(p.metadata)
    && d.index == Whole(NewIndex(p)) && Some(d.store) == FinalStore(p)
  }

  /** Rows of the bundle that recovery could not delete may stay. */
  ghost predicate RowsMayStay(p: Plan, f: Faults) { f.rowErrors && FinalStore(p).Some? }

  /** The rows after an undone import. */
  ghost predicate RowsUndone(p: Plan, f: Faults, s: Store) {
    IdsAbsent(p) ==> if RowsMayStay(p, f) then BasePlus(p.store, s, RecordedIds(p)) else s == p.store
  }

  /** Nothing left to undo: the notebook is as before, or fully imported, or
      (after a late failure) as before but with the committed rows kept. */
  ghost predicate Settled(p: Plan, f: Faults, late: bool, d: Disk) {
    || (BeforeImport(p, d) && RowsUndone(p, f, d.store))
    || AfterImport(p, d)
    || (late && BeforeImport(p, d) && Some(d.store) == FinalStore(p))
  }

  /** The same for index and rows; files of the bundle may lie about unlisted. */
  ghost predicate SettledButOrphans(p: Plan, f: Faults, late: bool, d: Disk) {
    || (d.index == Whole(p.index) && RowsUndone(p, f, d.store))
    || AfterImport(p, d)
    || (late && d.index == Whole(p.index) && Some(d.store) == FinalStore(p))
  }

  /** The weaker guarantee that survives an unreadable journal. */
  ghost predicate IndexDecides(p: Plan, d: Disk) {
    d.index == Whole(p.index) || AfterImport(p, d)
  }

  /** What recovery ends with, by the faults admitted. */
  ghost predicate Kept(p: Plan, f: Faults, late: bool, d: Disk) {
    if f.tornJournals then IndexDecides(p, d)
    else if f.removalErrors then SettledButOrphans(p, f, late, d)
    else Settled(p, f, late, d)
  }

  ghost predicate Undoable(p: Plan, s: Store) {
    IdsAbsent(p) ==> BasePlus(p.store, s, RecordedIds(p))
  }

  /** The parent's index was read before it was journaled, and recovery's own
      restore of it does not fail outright; or it was not read, and the import
      cannot get so far as to change it. */
  ghost predicate Safe(p: Plan, f: Faults) {
    if p.saved.Some? then !f.restoreErrors else FinalStore(p).None?
  }

  /** Without a commit the store, and an index that nothing could restore, stay. */
  ghost predicate Untouched(p: Plan, d: Disk) {
    FinalStore(p).None? ==>
      (p.saved.None? ==> d.index == Whole(p.index)) && (IdsAbsent(p) ==> d.store == p.store)
  }

  /** A disk from which recovery reaches a settled one. */
  ghost predicate Recoverable(p: Plan, f: Faults, late: bool, d: Disk) {
    match JournalOf(d)
    case None => Safe(p, f) ==> Kept(p, f, late, d)
    case Some(Torn) => f.tornJournals && IndexDecides(p, d)
    case Some(Whole(j)) =>
      j == JournalAt(p, j.phase) &&
      if j.phase == Committed then AfterImport(p, d) else Undoable(p, d.store) && Untouched(p, d)
  }

  ghost predicate Placed(p: Plan, d: Disk, contentOut: bool, metadataOut: bool, journal: Option<FileImage<Journal>>) {
    && d.staging == Some(Staging(journal, if contentOut then None else Some(p.content),
                                 if metadataOut then None else Some(p.metadata)))
    && d.content == (if contentOut then Some(p.content) else None)
    && d.metadata == (if metadataOut then Some(p.metadata) else None)
  }

  ghost predicate Forward(p: Plan, m: Machine) {
    && !m.late
    && m.disk.staging.Some?
    && match m.pc
       case WriteJournal(phase) =>
         && m.txn == None
         && (match phase
             case Init => Placed(p, m.disk, false, false, None)
             case Content => Placed(p, m.disk, true, false, Some(Whole(JournalAt(p, Init))))
             case Metadata => Placed(p, m.disk, true, true, Some(Whole(JournalAt(p, Content))))
             case Db => Placed(p, m.disk, true, true, Some(Whole(JournalAt(p, Metadata))))
             case Committed => Placed(p, m.disk, true, true, Some(Whole(JournalAt(p, Db)))))
         && (if phase in {Db, Committed} then Some(m.disk.store) == FinalStore(p) else m.disk.store == p.store)
         && (if phase == Committed then m.disk.index == Whole(NewIndex(p)) && m.parent == NewIndex(p)
             else m.disk.index == Whole(p.index) && m.parent == p.index)
       case PublishContent =>
         AtStore(p, m) && Placed(p, m.disk, false, false, Some(Whole(JournalAt(p, Init)))) && m.txn == None
       case PublishMetadata =>
         AtStore(p, m) && Placed(p, m.disk, true, false, Some(Whole(JournalAt(p, Content)))) && m.txn == None
       case BeginTxn =>
         AtStore(p, m) && Placed(p, m.disk, true, true, Some(Whole(JournalAt(p, Metadata)))) && m.txn == None
       case Insert(k) =>
         && AtStore(p, m) && Placed(p, m.disk, true, true, Some(Whole(JournalAt(p, Metadata))))
         && k <= |Statements(p)| && m.txn.Some? && m.txn == ApplyAll(p.store, Statements(p)[..k])
       case CommitTxn =>
         && AtStore(p, m) && Placed(p, m.disk, true, true, Some(Whole(JournalAt(p, Metadata))))
         && m.txn.Some? && m.txn == FinalStore(p)
       case UpdateParent => AtIndex(p, m) && m.parent == p.index
       case WriteTmp => AtIndex(p, m) && m.parent == NewIndex(p)
       case PublishIndex => AtIndex(p, m) && m.parent == NewIndex(p) && m.disk.tmp == Some(Whole(NewIndex(p)))
       case _ => false
  }

  ghost predicate AtStore(p: Plan, m: Machine) {
    m.disk.store == p.store && m.disk.index == Whole(p.index) && m.parent == p.index
  }

  ghost predicate AtIndex(p: Plan, m: Machine) {
    && Some(m.disk.store) == FinalStore(p) && m.disk.index == Whole(p.index) && m.txn == None
    && Placed(p, m.disk, true, true, Some(Whole(JournalAt(p, Db))))
  }

  ghost predicate Finishing(p: Plan, f: Faults, m: Machine) {
    && AfterImport(p, m.disk) && m.parent == NewIndex(p) && m.txn == None && !m.late
    && Recoverable(p, f, m.late, m.disk)
    && (m.pc == Done && !f.removalErrors ==> m.disk.staging == None)
  }

  /** The first journal write failed: nothing has been published, and the
      program returns without touching the staging directory. */
  ghost predicate FirstWriteFailed(p: Plan, f: Faults, d: Disk) {
    exists j :: JournalLeft(f, None, JournalAt(p, Init), j) &&
      d.staging == Some(Staging(j, Some(p.content), Some(p.metadata)))
  }

  ghost predicate TargetsGone(d: Disk) { d.content == None && d.metadata == None }

  /** In-process rollback: the index and the cached parent are already the old
      ones, and the store is changed exactly by a late failure. */
  ghost predicate Undoing(p: Plan, f: Faults, m: Machine) {
    && m.disk.index == Whole(p.index) && m.parent == p.index
    && (if m.late then Some(m.disk.store) == FinalStore(p) else m.disk.store == p.store)
    && (match JournalOf(m.disk)
        case None => m.pc == Failed
        case Some(Torn) => f.tornJournals
        case Some(Whole(j)) => j == JournalAt(p, j.phase) && j.phase != Committed)
    && (if m.pc == UndoTxn then m.txn.Some? && !m.late else m.txn == None)
    && (m.pc.UndoMetadata? && m.pc.m ==> m.pc.c)
    && (!f.removalErrors ==> Cleared(p, f, m))
  }

  /** How far the rollback has got with its removals. */
  ghost predicate Cleared(p: Plan, f: Faults, m: Machine) {
    match m.pc
    case UndoMetadata(c, false) => m.disk.metadata == None && (!c ==> m.disk.content == None)
    case UndoContent(c) => m.disk.metadata == None && (!c ==> m.disk.content == None)
    case UndoStaging => TargetsGone(m.disk)
    case Failed =>
      TargetsGone(m.disk) && (m.disk.staging == None || (!m.late && FirstWriteFailed(p, f, m.disk)))
    case _ => true
  }

  ghost predicate Recovering(p: Plan, f: Faults, m: Machine) {
    && Recoverable(p, f, m.late, m.disk)
    && match m.pc
       case Down => true
       case ReadJournal => true
       case DropMetadata(j) => Replays(p, m, j)
       case DropContent(j) => Replays(p, m, j) && (f.removalErrors || m.disk.metadata == None)
       case DropRows(j, k) =>
         && Replays(p, m, j) && (f.removalErrors || TargetsGone(m.disk))
         && k <= |j.ids| && (f.rowErrors || NoRowOf(m.disk.store, IdSet(j.ids[..k])))
       case RestoreIndex(j) =>
         && Replays(p, m, j) && (f.removalErrors || TargetsGone(m.disk))
         && (f.rowErrors || NoRowOf(m.disk.store, RecordedIds(p)))
       case DropStaging => Safe(p, f) ==> Kept(p, f, m.late, m.disk)
       case Recovered =>
         && (Safe(p, f) ==> Kept(p, f, m.late, m.disk))
         && (f.removalErrors || JournalOf(m.disk) == None)
       case _ => false
  }

  ghost predicate Replays(p: Plan, m: Machine, j: Journal) {
    JournalOf(m.disk) == Some(Whole(j)) && j.phase != Committed && j == JournalAt(p, j.phase)
  }

  /** The steps of the rollback. */
  ghost predicate Undoes(pc: Pc) { pc in {UndoTxn, UndoStaging, Failed} || pc.UndoMetadata? || pc.UndoContent? }

  ghost predicate Inv(p: Plan, f: Faults, m: Machine) {
    || Forward(p, m)
    || (m.pc in {CleanStaging, Done} && Finishing(p, f, m))
    || (Undoes(m.pc) && Undoing(p, f, m))
    || Recovering(p, f, m)
  }

  // ---- The invariant is inductive ----

  lemma FinalStoreUndoable(p: Plan, s: Store)
    requires ValidPlan(p)
    requires s == p.store || Some(s) == FinalStore(p)
    ensures Undoable(p, s)
  {
    if IdsAbsent(p) {
      if s == p.store {
        assert s.folders.Keys - RecordedIds(p) == s.folders.Keys;
        assert s.files.Keys - RecordedIds(p) == s.files.Keys;
      } else {
        KeysAreRecorded(p.gathered, p.index.id);
        TransactionExtendsBase(p.store, Statements(p), RecordedIds(p));
      }
    }
  }

  lemma JournalWritten(p: Plan, f: Faults, m: Machine, m': Machine)
    requires ValidPlan(p) && Forward(p, m) && m.pc.WriteJournal?
    requires m' == m.(disk := SetJournal(m.disk, Some(Whole(JournalAt(p, m.pc.phase)))), pc := AfterJournal(m.pc.phase))
    ensures Inv(p, f, m')
  {
    match m.pc.phase {
      case Init => case Content => case Metadata => case Db => case Committed =>
    }
  }

  lemma JournalFailed(p: Plan, f: Faults, m: Machine, m': Machine, j: Option<FileImage<Journal>>)
    requires ValidPlan(p) && Forward(p, m) && m.pc.WriteJournal?
    requires JournalLeft(f, JournalOf(m.disk), JournalAt(p, m.pc.phase), j)
    requires m' == m.(disk := SetJournal(m.disk, j), pc := AfterJournalError(m.pc.phase),
                         late := m.late || m.pc.phase == Db)
    ensures Inv(p, f, m')
  {
    match m.pc.phase {
      case Init => assert FirstWriteFailed(p, f, m'.disk);
      case Content => case Metadata => case Db =>
      case Committed => FinalStoreUndoable(p, m'.disk.store);
    }
  }

  lemma ForwardJournal(p: Plan, f: Faults, m: Machine, m': Machine)
    requires ValidPlan(p) && Forward(p, m) && m.pc.WriteJournal? && JournalStep(p, f, m.pc.phase, m, m')
    ensures Inv(p, f, m')
  {
    var phase := m.pc.phase;
    if m' == m.(disk := SetJournal(m.disk, Some(Whole(JournalAt(p, phase)))), pc := AfterJournal(phase)) {
      JournalWritten(p, f, m, m');
    } else {
      var j :| JournalLeft(f, JournalOf(m.disk), JournalAt(p, phase), j) &&
        m' == m.(disk := SetJournal(m.disk, j), pc := AfterJournalError(phase), late := m.late || phase == Db);
      JournalFailed(p, f, m, m', j);
    }
  }

  lemma ForwardStore(p: Plan, f: Faults, m: Machine, m': Machine)
    requires ValidPlan(p) && Forward(p, m) && StoreStep(p, m, m')
    ensures Inv(p, f, m')
  {
    if m.pc.Insert? {
      ForwardInsert(p, f, m, m');
    } else {
      assert Statements(p)[..0] == [];
    }
  }

  lemma ForwardInsert(p: Plan, f: Faults, m: Machine, m': Machine)
    requires ValidPlan(p) && Forward(p, m) && m.pc.Insert? && StoreStep(p, m, m')
    ensures Inv(p, f, m')
  {
    var k, ops := m.pc.k, Statements(p);
    if k == |ops| {
      assert ops[..k] == ops;
    } else if m'.pc == UndoTxn {
      assert Undoing(p, f, m');
    } else {
      var done := ops[..k + 1];
      assert done[..k] == ops[..k] && done[k] == ops[k];
      assert ApplyAll(p.store, done) == Apply(m.txn.value, ops[k]);
      assert Forward(p, m');
    }
  }

  lemma ForwardPublish(p: Plan, f: Faults, m: Machine, m': Machine)
    requires ValidPlan(p) && Forward(p, m) && PublishStep(m, m')
    ensures Inv(p, f, m')
  {
  }

  lemma ForwardIndex(p: Plan, f: Faults, m: Machine, m': Machine)
    requires ValidPlan(p) && Forward(p, m) && IndexStep(p, f, m, m')
    ensures Inv(p, f, m')
  {
  }

  lemma ForwardStep(p: Plan, f: Faults, m: Machine, m': Machine)
    requires ValidPlan(p) && Forward(p, m) && Proceed(p, f, m, m')
    ensures Inv(p, f, m')
  {
    if m.pc.WriteJournal? {
      ForwardJournal(p, f, m, m');
    } else if PublishStep(m, m') {
      ForwardPublish(p, f, m, m');
    } else if StoreStep(p, m, m') {
      ForwardStore(p, f, m, m');
    } else {
      ForwardIndex(p, f, m, m');
    }
  }

  lemma UndoKeepsInv(p: Plan, f: Faults, m: Machine, m': Machine)
    requires ValidPlan(p) && Undoing(p, f, m) && Undoes(m.pc)
    requires Proceed(p, f, m, m')
    ensures Inv(p, f, m')
  {
    assert UndoStep(f, m, m') && Undoes(m'.pc);
    if m.pc == UndoStaging {
      StagingGoes(p, f, m, m');
    } else {
      UndoGoesOn(p, f, m, m');
    }
  }

  lemma UndoGoesOn(p: Plan, f: Faults, m: Machine, m': Machine)
    requires Undoing(p, f, m) && UndoStep(f, m, m') && m.pc != UndoStaging
    ensures Undoing(p, f, m')
  {
  }

  lemma StagingGoes(p: Plan, f: Faults, m: Machine, m': Machine)
    requires Undoing(p, f, m) && UndoStep(f, m, m') && m.pc == UndoStaging
    ensures Undoing(p, f, m')
  {
  }

  lemma RecoverKeepsInv(p: Plan, f: Faults, m: Machine, m': Machine)
    requires ValidPlan(p) && Recovering(p, f, m) && RecoverStep(f, m, m')
    ensures Recovering(p, f, m')
  {
    if m.pc.DropRows? {
      RowsKeepInv(p, f, m, m');
    } else if m.pc.RestoreIndex? {
      RestoreKeepsInv(p, f, m, m');
    } else if m.pc.DropMetadata? || m.pc.DropContent? {
      DropsKeepInv(p, f, m, m');
    }
  }

  lemma DropsKeepInv(p: Plan, f: Faults, m: Machine, m': Machine)
    requires ValidPlan(p) && Recovering(p, f, m) && RecoverStep(f, m, m')
    requires m.pc.DropMetadata? || m.pc.DropContent?
    ensures Recovering(p, f, m')
  {
  }

  lemma RowsKeepInv(p: Plan, f: Faults, m: Machine, m': Machine)
    requires ValidPlan(p) && Recovering(p, f, m) && m.pc.DropRows? && RecoverStep(f, m, m')
    ensures Recovering(p, f, m')
  {
    var j, k := m.pc.j, m.pc.k;
    if k < |j.ids| {
      RowsStayWithin(p, m.disk.store, j.ids[k], m'.disk.store);
      if !f.rowErrors { RowsAreDropped(m.disk.store, j.ids, k); }
    } else {
      assert j.ids[..k] == j.ids;
    }
  }

  lemma RestoreKeepsInv(p: Plan, f: Faults, m: Machine, m': Machine)
    requires ValidPlan(p) && Recovering(p, f, m) && m.pc.RestoreIndex? && RecoverStep(f, m, m')
    ensures Recovering(p, f, m')
  {
    DroppedRowsAreUndone(p, f, m.disk);
  }

  lemma DroppedRowsAreUndone(p: Plan, f: Faults, d: Disk)
    requires Undoable(p, d.store) && Untouched(p, d) && (f.rowErrors || NoRowOf(d.store, RecordedIds(p)))
    ensures RowsUndone(p, f, d.store)
  {
    if IdsAbsent(p) && !f.rowErrors { BaseWithoutExtras(p.store, d.store, RecordedIds(p)); }
  }

  /** Whatever the deletes of a recorded id achieve, they take no other row along. */
  lemma RowsStayWithin(p: Plan, s: Store, id: Id, s': Store)
    requires ValidPlan(p) && Undoable(p, s) && id in p.gathered.ids
    requires s' == s || s' == DeleteNode(s, id) || s' == DeleteFile(s, id) || s' == DeleteFolder(s, id)
    ensures Undoable(p, s')
    ensures IdsAbsent(p) && s == p.store ==> s' == p.store
  {
    if IdsAbsent(p) {
      DeleteNodeKeepsBase(p.store, s, RecordedIds(p), id);
      if s == p.store { NothingToDelete(s, id); }
    }
  }

  lemma RowsAreDropped(s: Store, ids: seq<Id>, k: nat)
    requires k < |ids| && NoRowOf(s, IdSet(ids[..k]))
    ensures NoRowOf(DeleteNode(s, ids[k]), IdSet(ids[..k + 1]))
  {
    DeleteNodeRemoves(s, ids[k]);
    assert ids[..k + 1] == ids[..k] + [ids[k]];
  }

  lemma CrashFromForward(p: Plan, f: Faults, m: Machine, m': Machine)
    requires ValidPlan(p) && Forward(p, m) && Crash(p, f, m, m')
    ensures Recovering(p, f, m')
  {
    FinalStoreUndoable(p, m'.disk.store);
    match m.pc
    case WriteJournal(phase) =>
      match phase { case Init => case Content => case Metadata => case Db => case Committed => }
    case _ =>
  }

  lemma CrashFromRecovery(p: Plan, f: Faults, m: Machine, m': Machine)
    requires ValidPlan(p) && Recovering(p, f, m) && Crash(p, f, m, m')
    ensures Recovering(p, f, m')
  {
    if m.pc.DropRows? {
      RowsCrash(p, f, m, m');
    } else if m.pc.RestoreIndex? {
      RestoreCrash(p, f, m, m');
    } else if m.pc == DropStaging {
      StagingCrash(p, f, m, m');
    } else {
      DropsCrash(p, f, m, m');
    }
  }

  lemma RowsCrash(p: Plan, f: Faults, m: Machine, m': Machine)
    requires ValidPlan(p) && Recovering(p, f, m) && Crash(p, f, m, m') && m.pc.DropRows?
    ensures Recovering(p, f, m')
  {
    var j, k := m.pc.j, m.pc.k;
    if k < |j.ids| { RowsStayWithin(p, m.disk.store, j.ids[k], m'.disk.store); }
  }

  lemma RestoreCrash(p: Plan, f: Faults, m: Machine, m': Machine)
    requires Recovering(p, f, m) && Crash(p, f, m, m') && m.pc.RestoreIndex?
    ensures Recovering(p, f, m')
  {
  }

  lemma StagingCrash(p: Plan, f: Faults, m: Machine, m': Machine)
    requires Recovering(p, f, m) && Crash(p, f, m, m') && m.pc == DropStaging
    ensures Recovering(p, f, m')
  {
  }

  lemma DropsCrash(p: Plan, f: Faults, m: Machine, m': Machine)
    requires Recovering(p, f, m) && Crash(p, f, m, m')
    requires !m.pc.DropRows? && !m.pc.RestoreIndex? && m.pc != DropStaging
    ensures Recovering(p, f, m')
  {
  }

  lemma CrashFromUndo(p: Plan, f: Faults, m: Machine, m': Machine)
    requires ValidPlan(p) && Undoing(p, f, m) && Crash(p, f, m, m')
    requires Undoes(m.pc)
    ensures Recovering(p, f, m')
  {
    FinalStoreUndoable(p, m.disk.store);
  }

  lemma CrashFromFinish(p: Plan, f: Faults, m: Machine, m': Machine)
    requires ValidPlan(p) && Finishing(p, f, m) && m.pc in {CleanStaging, Done} && Crash(p, f, m, m')
    ensures Recovering(p, f, m')
  {
  }

  lemma InvStep(p: Plan, f: Faults, m: Machine, m': Machine)
    requires ValidPlan(p) && Inv(p, f, m) && Step(p, f, m, m')
    ensures Inv(p, f, m')
  {
    if Proceed(p, f, m, m') { ProceedKeepsInv(p, f, m, m'); } else { CrashKeepsInv(p, f, m, m'); }
  }

  lemma ProceedKeepsInv(p: Plan, f: Faults, m: Machine, m': Machine)
    requires ValidPlan(p) && Inv(p, f, m) && Proceed(p, f, m, m')
    ensures Inv(p, f, m')
  {
    if Forward(p, m) {
      ForwardStep(p, f, m, m');
    } else if m.pc == CleanStaging || m.pc == Done {
      FinishGoesOn(p, f, m, m');
    } else if Recovering(p, f, m) {
      RecoverKeepsInv(p, f, m, m');
    } else {
      UndoKeepsInv(p, f, m, m');
    }
  }

  lemma FinishGoesOn(p: Plan, f: Faults, m: Machine, m': Machine)
    requires ValidPlan(p) && Finishing(p, f, m) && m.pc in {CleanStaging, Done} && Proceed(p, f, m, m')
    ensures m'.pc == Done && Finishing(p, f, m')
  {
  }

  lemma CrashKeepsInv(p: Plan, f: Faults, m: Machine, m': Machine)
    requires ValidPlan(p) && Inv(p, f, m) && Crash(p, f, m, m')
    ensures Recovering(p, f, m')
  {
    if Forward(p, m) {
      CrashFromForward(p, f, m, m');
    } else if Recovering(p, f, m) {
      CrashFromRecovery(p, f, m, m');
    } else if m.pc == CleanStaging || m.pc == Done {
      CrashFromFinish(p, f, m, m');
    } else {
      CrashFromUndo(p, f, m, m');
    }
  }

  lemma {:induction false} InvRun(p: Plan, f: Faults, run: seq<Machine>)
    requires ValidPlan(p) && Run(p, f, run)
    ensures Inv(p, f, Last(run))
    decreases |run|
  {
    if |run| > 1 {
      var before := run[..|run| - 1];
      InvRun(p, f, before);
      assert Step(p, f, run[|run| - 2], run[|run| - 1]);
      InvStep(p, f, Last(before), Last(run));
    }
  }
}
