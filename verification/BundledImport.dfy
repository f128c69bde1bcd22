/** AttachImportedFolder and RecoverImports as the program runs them. The
    environment decides the outcome of every file and store operation (success,
    failure, or death of the process in the middle of it); whatever it decides,
    the state is one the import machine reaches. */
module BundledImport {
  import opened Records
  import opened Collections
  import opened MetadataStore
  import opened StagedTree
  import opened ImportRows
  import opened ImportMachine
  import opened ImportGuarantees
  import opened AttachedTree

  datatype Outcome = Attached(id: Id) | Refused(error: Error) | RolledBack(error: Error) | Crashed

  datatype Status = Success | Failure | Death

  // ---- Admission ----

  /** The checks made before anything is touched, in their order. `dest` and
      `existing` are the answers of GetFolderConfig and CollectAllNodeIds. */
  function Admit(readOnly: bool, name: string, d: Disk, dest: Result<FolderConfig>, existing: Result<set<Id>>)
    : Result<Gathered>
  {
    if readOnly then Err(ReadOnly)
    else if !SafeName(name) then Err(InvalidParam)
    else if d.staging.None? || d.staging.value.content.None? || d.staging.value.metadata.None? then Err(NotFound)
    else
      var tree := d.staging.value.metadata.value;
      if [] !in tree then Err(NotFound)
      else if tree[[]].Torn? then Err(JsonParse)
      else if tree[[]].value.id == "" || tree[[]].value.name != name then Err(InvalidState)
      else if dest.Err? then Err(dest.error)
      else if name in dest.value.folders then Err(AlreadyExists)
      else if d.content.Some? || d.metadata.Some? then Err(AlreadyExists)
      else if Collect(tree, [], dest.value.id).Err? then Collect(tree, [], dest.value.id)
      else if existing.Err? then Err(existing.error)
      else
        var g := Collect(tree, [], dest.value.id).value;
        if exists id :: id in g.ids && id in existing.value then Err(AlreadyExists)
        else if |IdSet(g.ids)| != |g.ids| then Err(InvalidState)
        else Ok(g)
  }

  /** An admitted bundle is well formed, its ids are pairwise distinct across
      folders and files, and none of them exists in the notebook. */
  lemma AdmittedBundle(readOnly: bool, name: string, d: Disk, dest: Result<FolderConfig>, existing: Result<set<Id>>)
    requires Admit(readOnly, name, d, dest, existing).Ok?
    ensures var g := Admit(readOnly, name, d, dest, existing).value;
            && dest.Ok? && existing.Ok? && name !in dest.value.folders
            && WellGathered(g, dest.value.id) && Distinct(g.ids) && IdSet(g.ids) !! existing.value
            && g.folders[0].name == name
            && var tree := d.staging.value.metadata.value;
               Collect(tree, [], dest.value.id) == Ok(g) && tree[[]].value.name == name
  {
    var tree := d.staging.value.metadata.value;
    CollectIsWellGathered(tree, [], dest.value.id);
    SetSizeTellsDuplicates(Admit(readOnly, name, d, dest, existing).value.ids);
  }

  /** A complete staging directory whose root config has an id and the name. */
  ghost predicate StagedAs(d: Disk, name: string) {
    && d.staging.Some? && d.staging.value.content.Some? && d.staging.value.metadata.Some?
    && var tree := d.staging.value.metadata.value;
       [] in tree && tree[[]].Whole? && tree[[]].value.id != "" && tree[[]].value.name == name
  }

  /** Which bundles are admitted. */
  lemma AdmittedExactlyWhen(readOnly: bool, name: string, d: Disk, dest: Result<FolderConfig>,
                            existing: Result<set<Id>>)
    ensures Admit(readOnly, name, d, dest, existing).Ok? <==>
              && !readOnly && SafeName(name) && StagedAs(d, name)
              && dest.Ok? && name !in dest.value.folders && d.content.None? && d.metadata.None?
              && existing.Ok?
              && var g := Collect(d.staging.value.metadata.value, [], dest.value.id);
                 g.Ok? && Distinct(g.value.ids) && forall id :: id in g.value.ids ==> id !in existing.value
  {
    if StagedAs(d, name) && dest.Ok? && Collect(d.staging.value.metadata.value, [], dest.value.id).Ok? {
      SetSizeTellsDuplicates(Collect(d.staging.value.metadata.value, [], dest.value.id).value.ids);
    }
  }

  /** With which code the others are refused. */
  lemma RefusedWith(readOnly: bool, name: string, d: Disk, dest: Result<FolderConfig>, existing: Result<set<Id>>)
    ensures var r := Admit(readOnly, name, d, dest, existing);
            && (readOnly ==> r == Err(ReadOnly))
            && (!readOnly && !SafeName(name) ==> r == Err(InvalidParam))
            && (!readOnly && SafeName(name) && StagedAs(d, name) ==>
                  && (dest.Err? ==> r == Err(dest.error))
                  && (dest.Ok? && (name in dest.value.folders || d.content.Some? || d.metadata.Some?) ==>
                        r == Err(AlreadyExists)))
            && (!readOnly && SafeName(name) && !StagedAs(d, name) ==>
                  r.Err? && r.error in {NotFound, JsonParse, InvalidState})
    ensures var r := Admit(readOnly, name, d, dest, existing);
            !readOnly && SafeName(name) && StagedAs(d, name) && dest.Ok? && name !in dest.value.folders
            && d.content.None? && d.metadata.None? ==>
              var g := Collect(d.staging.value.metadata.value, [], dest.value.id);
              if g.Err? then r == Err(g.error)
              else if existing.Err? then r == Err(existing.error)
              else
                && ((exists id :: id in g.value.ids && id in existing.value) ==> r == Err(AlreadyExists))
                && (!Distinct(g.value.ids) && (forall id :: id in g.value.ids ==> id !in existing.value) ==>
                      r == Err(InvalidState))
  {
    if StagedAs(d, name) && dest.Ok? && Collect(d.staging.value.metadata.value, [], dest.value.id).Ok? {
      SetSizeTellsDuplicates(Collect(d.staging.value.metadata.value, [], dest.value.id).value.ids);
    }
  }

  /** The plan an admitted import follows, given what the read of the parent's
      index returned. */
  function PlanFor(d: Disk, g: Gathered, name: string, dest: FolderConfig, saved: Option<FolderConfig>, now: int): Plan
    requires d.staging.Some? && d.staging.value.content.Some? && d.staging.value.metadata.Some?
  {
    Plan(d.staging.value.content.value, d.staging.value.metadata.value, g, name, dest, saved, now, d.tmp, d.store)
  }

  /** The code of a rejected statement. */
  function Rejection(s: Store, op: RowOp): Error {
    match op
    case AddFolder(row) => if row.parentId != "" && row.parentId !in s.folders then NotFound else AlreadyExists
    case AddFile(row, _) =>
      if row.folderId != "" && row.folderId !in s.folders then NotFound
      else if row.id in s.files then AlreadyExists
      else DatabaseError
    case AddAttachments(_, _) => DatabaseError
  }

  /** Two codes tell why; anything else is an error of the database. */
  ghost predicate Explains(s: Store, op: RowOp, e: Error) {
    match e
    case NotFound =>
      || (op.AddFolder? && op.folder.parentId != "" && op.folder.parentId !in s.folders)
      || (op.AddFile? && op.file.folderId != "" && op.file.folderId !in s.folders)
    case AlreadyExists =>
      || (op.AddFolder? && op.folder.id in s.folders)
      || (op.AddFile? && op.file.id in s.files)
    case _ => e == DatabaseError
  }

  lemma RejectionExplains(s: Store, op: RowOp)
    requires Apply(s, op).None?
    ensures Explains(s, op, Rejection(s, op))
  {
  }

  // ---- A bundle that is admitted and cannot be imported ----

  /** Folder "A" with one file "B" that lists the tag "t" twice. */
  const Repeating := FolderConfig("a", "A", 0, 0, "", [FileRecord("b", "B", 0, 0, "", ["t", "t"], [])], [])

  const Destination := FolderConfig("r", "", 0, 0, "", [], [])

  const RepeatingDisk := Disk(
    Some(Staging(None, Some(map[]), Some(map[[] := Whole(Repeating)]))), None, None, Whole(Destination), None,
    Store(map["r" := FolderRow("r", "", "", 0, 0, "")], map[]))

  const RepeatingRows := Gathered(
    [ToFolderRow(Repeating, "r")],
    [FileEntry(FileRow("b", "a", "B", 0, 0, "", {}, []), ["t", "t"], [])], ["a", "b"])

  lemma CollectRepeating()
    ensures Collect(map[[] := Whole(Repeating)], [], "r") == Ok(RepeatingRows)
  {
    var tree: ConfigTree := map[[] := Whole(Repeating)];
    assert FileIds(Repeating.files) == ["b"];
    assert CollectChildren(tree, [], "a", []) == Ok(Nothing);
    PlusNothing(OwnRecords(Repeating, "r"));
    assert NodeIds(Repeating) == ["a", "b"];
    assert FileEntries(Repeating.files, "a") == RepeatingRows.files;
  }

  lemma AdmitRepeating()
    ensures Admit(false, "A", RepeatingDisk, Ok(Destination), Ok({"r"})) == Ok(RepeatingRows)
  {
    CollectRepeating();
    assert IdSet(RepeatingRows.ids) == {"a", "b"};
  }

  /** Every check lets it through, and no run of its import completes. */
  lemma RepeatedTagDefeatsImport(f: Faults, saved: Option<FolderConfig>)
    requires saved == None || saved == Some(Destination)
    ensures var admitted := Admit(false, "A", RepeatingDisk, Ok(Destination), Ok({"r"}));
            && admitted.Ok?
            && forall m :: Reaches(PlanFor(RepeatingDisk, admitted.value, "A", Destination, saved, 0), f, m)
                           ==> m.pc != Done
  {
    AdmitRepeating();
    AdmittedBundle(false, "A", RepeatingDisk, Ok(Destination), Ok({"r"}));
    var p := PlanFor(RepeatingDisk, RepeatingRows, "A", Destination, saved, 0);
    assert p.gathered.files[0].tags == ["t", "t"] && !Distinct(["t", "t"]) by {
      assert ["t", "t"][0] == ["t", "t"][1];
    }
    NoRunSucceeds(p, f);
  }

  lemma NoRunSucceeds(p: Plan, f: Faults)
    requires ValidPlan(p) && Distinct(p.gathered.ids) && !TagsDistinct(p.gathered)
    ensures forall m :: Reaches(p, f, m) ==> m.pc != Done
  {
    ImportSucceedsExactlyWhen(p, f);
  }

  method Flip() returns (b: bool) {
    b := *;
  }

  method Environment() returns (s: Status) {
    s := *;
  }

  method LossyCopy<V>(whole: Option<map<Path, V>>) returns (part: Option<map<Path, V>>)
    ensures PartOf(part, whole)
  {
    var gone := Flip();
    if gone || whole.None? { return None; }
    var kept: set<Path> := *;
    part := Some(map q | q in whole.value && q in kept :: whole.value[q]);
  }

  method LossyStaging(whole: Option<Staging>) returns (part: Option<Staging>)
    ensures StagingPart(part, whole)
  {
    var gone := Flip();
    if gone || whole.None? { return None; }
    var keepJournal := Flip();
    var c := LossyCopy(whole.value.content);
    var m := LossyCopy(whole.value.metadata);
    part := Some(Staging(if keepJournal then whole.value.journal else None, c, m));
  }

  class BundledFolderManager {
    const faults: Faults
    var disk: Disk
    var parentConfig: FolderConfig
    var txn: Option<Store>
    ghost var pc: Pc
    ghost var late: bool

    constructor (faults: Faults, disk: Disk, parentConfig: FolderConfig)
      ensures this.faults == faults && this.disk == disk && this.parentConfig == parentConfig
      ensures txn == None
    {
      this.faults := faults;
      this.disk, this.parentConfig, this.txn := disk, parentConfig, None;
      pc, late := Recovered, false;
    }

    ghost function Now(): Machine
      reads this
    {
      Machine(disk, pc, parentConfig, txn, late)
    }

    ghost predicate On(p: Plan)
      reads this
    {
      Reaches(p, faults, Now())
    }

    method WriteJournalFile(p: Plan, phase: Phase) returns (s: Status)
      requires On(p) && pc == WriteJournal(phase)
      modifies this
      ensures On(p)
      ensures pc == (match s
                     case Success => AfterJournal(phase)
                     case Failure => AfterJournalError(phase)
                     case Death => Down)
      ensures late == (old(late) || (s == Failure && phase == Db))
    {
      ghost var before := Now();
      s := Environment();
      var left := Some(Whole(JournalAt(p, phase)));
      if s != Success {
        var untouched := Flip();
        var cut := Flip();
        left := if untouched then JournalOf(disk) else if cut && faults.tornJournals then Some(Torn) else left;
      }
      disk := SetJournal(disk, left);
      match s {
        case Success => pc := AfterJournal(phase);
        case Failure => pc, late := AfterJournalError(phase), late || phase == Db;
        case Death => pc, txn := Down, None;
      }
      ReachesStep(p, faults, before, Now());
    }

    method Publish(p: Plan, contentDir: bool) returns (s: Status)
      requires On(p) && disk.staging.Some?
      requires pc == if contentDir then PublishContent else PublishMetadata
      modifies this
      ensures On(p) && late == old(late)
      ensures pc == (match s
                     case Success => WriteJournal(if contentDir then Content else Metadata)
                     case Failure => UndoMetadata(!contentDir, false)
                     case Death => Down)
    {
      ghost var before := Now();
      s := Environment();
      var staging := disk.staging.value;
      match s {
        case Success =>
          if contentDir {
            disk := disk.(content := staging.content, staging := Some(staging.(content := None)));
            pc := WriteJournal(Content);
          } else {
            disk := disk.(metadata := staging.metadata, staging := Some(staging.(metadata := None)));
            pc := WriteJournal(Metadata);
          }
        case Failure => pc := UndoMetadata(!contentDir, false);
        case Death => pc, txn := Down, None;
      }
      ReachesStep(p, faults, before, Now());
    }

    /** The insert-only transaction; on failure tells whether it had begun and
        which code the store call returned. */
    method RunTransaction(p: Plan) returns (s: Status, begun: bool, error: Error)
      requires On(p) && pc == BeginTxn
      modifies this
      ensures On(p) && late == old(late)
      ensures pc == (match s
                     case Success => WriteJournal(Db)
                     case Failure => if begun then UndoTxn else UndoMetadata(true, true)
                     case Death => Down)
    {
      begun, error := false, DatabaseError;
      s := BeginTransaction(p);
      if s != Success { return; }
      begun := true;
      s, error := InsertRows(p);
      if s != Success { return; }
      s := CommitTransaction(p);
      error := DatabaseError;
    }

    method BeginTransaction(p: Plan) returns (s: Status)
      requires On(p) && pc == BeginTxn
      modifies this
      ensures On(p) && late == old(late)
      ensures pc == (match s case Success => Insert(0) case Failure => UndoMetadata(true, true) case Death => Down)
      ensures s == Success ==> txn.Some?
    {
      ghost var before := Now();
      s := Environment();
      match s {
        case Success => txn, pc := Some(disk.store), Insert(0);
        case Failure => pc := UndoMetadata(true, true);
        case Death => pc, txn := Down, None;
      }
      ReachesStep(p, faults, before, Now());
    }

    method InsertRows(p: Plan) returns (s: Status, error: Error)
      requires On(p) && pc == Insert(0) && txn.Some?
      modifies this
      ensures On(p) && late == old(late)
      ensures pc == (match s case Success => CommitTxn case Failure => UndoTxn case Death => Down)
      ensures s == Success ==> txn.Some?
    {
      s, error := Success, DatabaseError;
      var ops := Statements(p);
      for k := 0 to |ops|
        invariant On(p) && late == old(late) && pc == Insert(k) && txn.Some?
        invariant s == Success
      {
        s, error := InsertRow(p, k, ops[k]);
        if s != Success { return; }
      }
      ghost var before := Now();
      pc := CommitTxn;
      ReachesStep(p, faults, before, Now());
    }

    method InsertRow(p: Plan, k: nat, op: RowOp) returns (s: Status, error: Error)
      requires On(p) && pc == Insert(k) && txn.Some? && k < |Statements(p)| && op == Statements(p)[k]
      modifies this
      ensures On(p) && late == old(late)
      ensures pc == (match s case Success => Insert(k + 1) case Failure => UndoTxn case Death => Down)
      ensures s == Success ==> txn == Apply(old(txn.value), op) && txn.Some?
      ensures s == Failure && Apply(old(txn.value), op).None? ==>
                error in {DatabaseError, Rejection(old(txn.value), op)}
      ensures s == Failure ==> Explains(old(txn.value), op, error)
    {
      ghost var before := Now();
      error := DatabaseError;
      s := Environment();
      var next := Apply(txn.value, op);
      if s == Success && next.None? {
        RejectionExplains(txn.value, op);
        s, error := Failure, Rejection(txn.value, op);
      }
      match s {
        case Success => txn, pc := next, Insert(k + 1);
        case Failure => pc := UndoTxn;
        case Death => pc, txn := Down, None;
      }
      ReachesStep(p, faults, before, Now());
    }

    method CommitTransaction(p: Plan) returns (s: Status)
      requires On(p) && pc == CommitTxn && txn.Some?
      modifies this
      ensures On(p) && late == old(late)
      ensures pc == (match s case Success => WriteJournal(Db) case Failure => UndoTxn case Death => Down)
      ensures s == Success ==> Some(disk.store) == old(txn) && txn == None
    {
      ghost var before := Now();
      s := Environment();
      match s {
        case Success => disk, txn, pc := disk.(store := txn.value), None, WriteJournal(Db);
        case Failure => pc := UndoTxn;
        case Death => pc, txn := Down, None;
      }
      ReachesStep(p, faults, before, Now());
    }

    /** Updates the cached parent and replaces its vx.json through a temporary
        file and one rename: the commit point. */
    method SaveParentAtomic(p: Plan) returns (s: Status)
      requires On(p) && pc == UpdateParent && parentConfig == p.index
      modifies this
      ensures On(p)
      ensures pc == (match s
                     case Success => WriteJournal(Committed)
                     case Failure => UndoMetadata(true, true)
                     case Death => Down)
      ensures s == Failure ==> late
      ensures s == Success ==> parentConfig == NewIndex(p) && disk.index == Whole(parentConfig)
      ensures s == Success ==> OneMoreChild(old(parentConfig), parentConfig, p.name, p.now)
    {
      s := WriteTemporary(p);
      if s == Success {
        IndexKeepsTheParent(p);
        s := RenameTemporary(p);
      }
    }

    method WriteTemporary(p: Plan) returns (s: Status)
      requires On(p) && pc == UpdateParent && parentConfig == p.index
      modifies this
      ensures On(p)
      ensures pc == (match s case Success => PublishIndex case Failure => UndoMetadata(true, true) case Death => Down)
      ensures s == Failure ==> late
      ensures s == Success ==> parentConfig == NewIndex(p) && disk.tmp == Some(Whole(NewIndex(p)))
    {
      ghost var before := Now();
      parentConfig := parentConfig.(folders := parentConfig.folders + [p.name], modified := p.now);
      pc := WriteTmp;
      ReachesStep(p, faults, before, Now());
      before := Now();
      s := Environment();
      match s {
        case Success => disk, pc := disk.(tmp := Some(Whole(parentConfig))), PublishIndex;
        case Failure => Withdraw(p);
        case Death =>
          var left: Option<FileImage<FolderConfig>> := *;
          disk, pc, txn := disk.(tmp := left), Down, None;
      }
      if s != Failure { ReachesStep(p, faults, before, Now()); }
    }

    method RenameTemporary(p: Plan) returns (s: Status)
      requires On(p) && pc == PublishIndex && disk.tmp.Some?
      modifies this
      ensures On(p)
      ensures pc == (match s
                     case Success => WriteJournal(Committed)
                     case Failure => UndoMetadata(true, true)
                     case Death => Down)
      ensures s == Failure ==> late
      ensures s == Success ==> parentConfig == old(parentConfig) && disk.index == old(disk).tmp.value
    {
      ghost var before := Now();
      s := Environment();
      match s {
        case Success => disk, pc := disk.(index := disk.tmp.value, tmp := None), WriteJournal(Committed);
        case Failure => Withdraw(p);
        case Death => pc, txn := Down, None;
      }
      if s != Failure { ReachesStep(p, faults, before, Now()); }
    }

    method Withdraw(p: Plan)
      requires On(p) && pc in {WriteTmp, PublishIndex}
      modifies this
      ensures On(p) && late && pc == UndoMetadata(true, true)
    {
      ghost var before := Now();
      disk, parentConfig := disk.(tmp := None), p.index;
      pc, late := UndoMetadata(true, true), true;
      ReachesStep(p, faults, before, Now());
    }

    /** RemoveTreeQuietly on the staging directory: it reports no failure. */
    method RemoveStaging(ghost p: Plan, ghost next: Pc) returns (s: Status)
      requires On(p)
      requires (pc, next) in {(UndoStaging, Failed), (CleanStaging, Done), (DropStaging, Recovered)}
      modifies this
      ensures On(p) && late == old(late) && parentConfig == old(parentConfig)
      ensures s != Failure && pc == if s == Success then next else Down
      ensures disk == old(disk).(staging := disk.staging)
      ensures if s == Success then StagingRemoved(faults, old(disk).staging, disk.staging)
              else StagingPart(disk.staging, old(disk).staging)
    {
      ghost var before := Now();
      var dies := Flip();
      var partly := Flip();
      if partly && (dies || faults.removalErrors) {
        var left := LossyStaging(disk.staging);
        disk := disk.(staging := left);
      } else {
        disk := disk.(staging := None);
      }
      if dies { s, pc, txn := Death, Down, None; } else { s, pc := Success, next; }
      ReachesStep(p, faults, before, Now());
    }

    /** RemoveTreeQuietly on a published target. */
    method RemoveTarget(ghost p: Plan, contentDir: bool, ghost next: Pc) returns (s: Status)
      requires On(p)
      requires if contentDir then
                 (pc == UndoContent(true) && next == UndoStaging) || (pc.DropContent? && next == DropRows(pc.j, 0))
               else
                 || (pc.UndoMetadata? && pc.m && next == UndoContent(pc.c))
                 || (pc.DropMetadata? && next == DropContent(pc.j))
      modifies this
      ensures On(p) && late == old(late)
      ensures s != Failure && pc == if s == Success then next else Down
      ensures s == Success ==> JournalOf(disk) == old(JournalOf(disk))
    {
      ghost var before := Now();
      var dies := Flip();
      s := if dies then Death else Success;
      if contentDir {
        var left := LossyCopy(disk.content);
        disk := disk.(content := if dies || faults.removalErrors then left else None);
      } else {
        var left := LossyCopy(disk.metadata);
        disk := disk.(metadata := if dies || faults.removalErrors then left else None);
      }
      if dies { pc, txn := Down, None; } else { pc := next; }
      ReachesStep(p, faults, before, Now());
    }

    method Rollback(p: Plan, contentPublished: bool, metadataPublished: bool, dbWritten: bool) returns (s: Status)
      requires On(p)
      requires pc == if dbWritten then UndoTxn else UndoMetadata(contentPublished, metadataPublished)
      requires dbWritten ==> contentPublished && metadataPublished
      modifies this
      ensures On(p) && late == old(late)
      ensures s != Failure && pc == if s == Success then Failed else Down
    {
      if dbWritten { RollbackTransaction(p); }
      if metadataPublished {
        s := RemoveTarget(p, false, UndoContent(contentPublished));
        if s == Death { return; }
      } else {
        NothingToRemove(p, UndoContent(contentPublished));
      }
      if contentPublished {
        s := RemoveTarget(p, true, UndoStaging);
        if s == Death { return; }
      } else {
        NothingToRemove(p, UndoStaging);
      }
      s := RemoveStaging(p, Failed);
    }

    method RollbackTransaction(ghost p: Plan)
      requires On(p) && pc == UndoTxn
      modifies this
      ensures On(p) && late == old(late) && pc == UndoMetadata(true, true)
    {
      ghost var before := Now();
      txn, pc := None, UndoMetadata(true, true);
      ReachesStep(p, faults, before, Now());
    }

    ghost method NothingToRemove(p: Plan, next: Pc)
      requires On(p) && UndoStep(faults, Now(), Now().(pc := next))
      modifies this`pc
      ensures On(p) && pc == next
    {
      var before := Now();
      pc := next;
      ReachesStep(p, faults, before, Now());
    }

    method Abort(p: Plan, s: Status, contentPublished: bool, metadataPublished: bool, dbWritten: bool, error: Error)
      returns (r: Outcome)
      requires On(p) && s != Success
      requires pc == if s == Death then Down
                     else if dbWritten then UndoTxn
                     else UndoMetadata(contentPublished, metadataPublished)
      requires dbWritten ==> contentPublished && metadataPublished
      modifies this
      ensures On(p)
      ensures r == Crashed || r == RolledBack(error)
      ensures Ended(r)
    {
      if s == Death { return Crashed; }
      var u := Rollback(p, contentPublished, metadataPublished, dbWritten);
      r := if u == Death then Crashed else RolledBack(error);
    }

    method AnyKnown(ids: seq<Id>, known: set<Id>) returns (any: bool)
      ensures any <==> exists id :: id in ids && id in known
    {
      for i := 0 to |ids|
        invariant forall k :: 0 <= k < i ==> ids[k] !in known
      {
        if ids[i] in known { return true; }
      }
      any := false;
    }

    method CheckAdmission(readOnly: bool, name: string, dest: Result<FolderConfig>, existing: Result<set<Id>>)
      returns (r: Result<Gathered>)
      ensures r == Admit(readOnly, name, disk, dest, existing)
    {
      if readOnly { return Err(ReadOnly); }
      if !SafeName(name) { return Err(InvalidParam); }
      if disk.staging.None? || disk.staging.value.content.None? || disk.staging.value.metadata.None? {
        return Err(NotFound);
      }
      var tree := disk.staging.value.metadata.value;
      if [] !in tree { return Err(NotFound); }
      if tree[[]].Torn? { return Err(JsonParse); }
      var root := tree[[]].value;
      if root.id == "" || root.name != name { return Err(InvalidState); }
      if dest.Err? { return Err(dest.error); }
      if name in dest.value.folders { return Err(AlreadyExists); }
      if disk.content.Some? || disk.metadata.Some? { return Err(AlreadyExists); }
      var collector := new Collector();
      var failure := collector.Walk(tree, [], dest.value.id);
      if failure.Some? { return Err(failure.value); }
      var g := collector.gathered;
      PlusNothing(Collect(tree, [], dest.value.id).value);
      if existing.Err? { return Err(existing.error); }
      var collides := AnyKnown(g.ids, existing.value);
      if collides { return Err(AlreadyExists); }
      if |IdSet(g.ids)| != |g.ids| { return Err(InvalidState); }
      return Ok(g);
    }

    /** What the caller learns from each outcome of an admitted import. */
    ghost predicate Reports(p: Plan, r: Outcome)
      reads this
    {
      match r
      case Attached(id) =>
        && AfterImport(p, disk) && parentConfig == NewIndex(p) && txn == None
        && (!faults.removalErrors ==> disk.staging == None)
        && p.gathered.folders != [] && id == p.gathered.folders[0].id
      case RolledBack(_) => RolledBackTo(p, faults, Now())
      case Crashed => pc == Down
      case Refused(_) => false
    }

    method AttachImportedFolder(readOnly: bool, name: string, dest: Result<FolderConfig>, existing: Result<set<Id>>,
                                now: int)
      returns (r: Outcome, ghost plan: Option<Plan>)
      requires txn == None && ForeignKeys(disk.store)
      requires disk.staging.Some? ==> JournalOf(disk) == None
      requires dest.Ok? ==> disk.index == Whole(dest.value) && parentConfig == dest.value
      modifies this
      ensures var admitted := Admit(readOnly, name, old(disk), dest, existing);
              if admitted.Err? then
                && r == Refused(admitted.error) && plan == None
                && disk == old(disk) && parentConfig == old(parentConfig) && txn == None
              else
                && dest.Ok? && plan.Some? && ValidPlan(plan.value) && On(plan.value) && Reports(plan.value, r)
                && old(disk).staging.Some? && old(disk).staging.value.content.Some?
                && old(disk).staging.value.metadata.Some?
                && plan.value == PlanFor(old(disk), admitted.value, name, dest.value, plan.value.saved, now)
      ensures r.Attached? ==> dest.Ok? && disk.index == Whole(parentConfig)
                              && AttachedFrom(old(disk), dest.value, name, now, r.id, disk)
    {
      plan := None;
      var admitted := CheckAdmission(readOnly, name, dest, existing);
      if admitted.Err? { return Refused(admitted.error), None; }
      AdmittedBundle(readOnly, name, disk, dest, existing);

      var readable := Flip();
      var p := PlanFor(disk, admitted.value, name, dest.value, if readable then Some(dest.value) else None, now);
      plan := Some(p);
      pc, late := WriteJournal(Init), false;
      assert Now() == Start(p) by {
        assert disk.staging.value == Staging(None, Some(p.content), Some(p.metadata));
      }
      ReachesStart(p, faults);
      r := Protocol(p);
      ReachesOutcome(p, faults, Now());
      if r.Attached? { AttachedFromPlan(p, old(disk), disk); }
    }

    method Protocol(p: Plan) returns (r: Outcome)
      requires p.gathered.folders != [] && On(p) && pc == WriteJournal(Init)
      modifies this
      ensures On(p)
      ensures pc in {Done, Failed, Down}
      ensures pc == Done ==> r == Attached(p.gathered.folders[0].id)
      ensures pc == Failed ==> r.RolledBack?
      ensures pc == Down ==> r == Crashed
    {
      var ended := PublishBundle(p);
      if ended.Some? { return ended.value; }
      ended := CommitBundle(p);
      if ended.Some? { return ended.value; }
      var s := WriteJournalFile(p, Committed);
      if s == Death { return Crashed; }
      s := RemoveStaging(p, Done);
      if s == Death { return Crashed; }
      return Attached(p.gathered.folders[0].id);
    }

    ghost predicate Ended(r: Outcome)
      reads this
    {
      (r == Crashed && pc == Down) || (r.RolledBack? && pc == Failed)
    }

    /** Steps 1 to 3: journal, content, metadata. */
    method PublishBundle(p: Plan) returns (ended: Option<Outcome>)
      requires On(p) && pc == WriteJournal(Init)
      modifies this
      ensures On(p)
      ensures if ended.Some? then Ended(ended.value) else pc == BeginTxn
    {
      var s := WriteJournalFile(p, Init);
      if s == Failure { return Some(RolledBack(IoError)); }
      if s == Death { return Some(Crashed); }
      ended := PublishTarget(p, true);
      if ended.None? { ended := PublishTarget(p, false); }
    }

    /** One rename, and the journal that says so. */
    method PublishTarget(p: Plan, contentDir: bool) returns (ended: Option<Outcome>)
      requires On(p) && pc == if contentDir then PublishContent else PublishMetadata
      modifies this
      ensures On(p)
      ensures if ended.Some? then Ended(ended.value) else pc == if contentDir then PublishMetadata else BeginTxn
    {
      var r;
      ReachesEquipped(p, faults, Now());
      var s := Publish(p, contentDir);
      if s != Success { r := Abort(p, s, !contentDir, false, false, IoError); return Some(r); }
      s := WriteJournalFile(p, if contentDir then Content else Metadata);
      if s != Success { r := Abort(p, s, true, !contentDir, false, IoError); return Some(r); }
      return None;
    }

    /** Steps 4 and 5: store transaction and commit point. */
    method CommitBundle(p: Plan) returns (ended: Option<Outcome>)
      requires On(p) && pc == BeginTxn
      modifies this
      ensures On(p)
      ensures if ended.Some? then Ended(ended.value) else pc == WriteJournal(Committed)
    {
      var r;
      var s, begun, error := RunTransaction(p);
      if s != Success { r := Abort(p, s, true, true, begun, error); return Some(r); }
      s := WriteJournalFile(p, Db);
      if s != Success { r := Abort(p, s, true, true, false, IoError); return Some(r); }
      ReachesEquipped(p, faults, Now());
      s := SaveParentAtomic(p);
      if s != Success { r := Abort(p, s, true, true, false, IoError); return Some(r); }
      return None;
    }

    /** Replay on the next open. The plan is only spoken about: all the method
        knows is the journal it finds. */
    method RecoverImports(ghost p: Plan) returns (crashed: bool, recovered: nat)
      requires ValidPlan(p) && On(p) && pc == Down
      modifies this
      ensures On(p) && pc == if crashed then Down else Recovered
      ensures late == old(late)
      ensures !crashed ==> RecoveredTo(p, faults, late, disk)
      ensures !crashed ==> (recovered == 1 <==> exists j :: old(JournalOf(disk)) == Some(Whole(j)))
    {
      crashed, recovered := Replay(p);
      if !crashed { ReachesRecovered(p, faults, Now()); }
    }

    method Replay(ghost p: Plan) returns (crashed: bool, recovered: nat)
      requires On(p) && pc == Down
      modifies this
      ensures On(p) && late == old(late) && pc == if crashed then Down else Recovered
      ensures !crashed ==> (recovered == 1 <==> exists j :: old(JournalOf(disk)) == Some(Whole(j)))
    {
      crashed, recovered := false, 0;
      var journal := JournalOf(disk);
      Advance(p, ReadJournal);
      if journal.None? {
        Advance(p, Recovered);
        return;
      }
      if journal.value.Torn? {
        Advance(p, DropStaging);
      } else {
        recovered := 1;
        crashed := UndoUnlessCommitted(p, journal.value.value);
        if crashed { return; }
      }
      var s := RemoveStaging(p, Recovered);
      crashed := s == Death;
    }

    /** A committed import is kept: nothing of it is undone. */
    method UndoUnlessCommitted(ghost p: Plan, j: Journal) returns (crashed: bool)
      requires On(p) && pc == ReadJournal && JournalOf(disk) == Some(Whole(j))
      modifies this
      ensures On(p) && late == old(late) && pc == if crashed then Down else DropStaging
    {
      crashed := false;
      if j.phase == Committed {
        Advance(p, DropStaging);
      } else {
        Advance(p, DropMetadata(j));
        crashed := Undo(p, j);
      }
    }

    ghost method Advance(p: Plan, next: Pc)
      requires On(p) && RecoverStep(faults, Now(), Now().(pc := next))
      modifies this`pc
      ensures On(p) && pc == next
    {
      var before := Now();
      pc := next;
      ReachesStep(p, faults, before, Now());
    }

    method Undo(ghost p: Plan, j: Journal) returns (crashed: bool)
      requires On(p) && pc == DropMetadata(j)
      modifies this
      ensures On(p) && late == old(late)
      ensures pc == if crashed then Down else DropStaging
    {
      var s := RemoveTarget(p, false, DropContent(j));
      if s == Death { return true; }
      s := RemoveTarget(p, true, DropRows(j, 0));
      if s == Death { return true; }
      crashed := DropAllRows(p, j);
      if crashed { return; }
      crashed := RestoreParent(p, j);
    }

    method DropAllRows(ghost p: Plan, j: Journal) returns (crashed: bool)
      requires On(p) && pc == DropRows(j, 0)
      modifies this
      ensures On(p) && late == old(late)
      ensures pc == if crashed then Down else RestoreIndex(j)
    {
      for k := 0 to |j.ids|
        invariant On(p) && late == old(late) && pc == DropRows(j, k)
      {
        crashed := DropNode(p, j, k);
        if crashed { return; }
      }
      crashed := false;
      Advance(p, RestoreIndex(j));
    }

    /** The results of the two deletes are ignored. */
    method DropNode(ghost p: Plan, j: Journal, k: nat) returns (crashed: bool)
      requires On(p) && k < |j.ids| && pc == DropRows(j, k)
      modifies this
      ensures On(p) && late == old(late)
      ensures pc == if crashed then Down else DropRows(j, k + 1)
    {
      ghost var before := Now();
      crashed := Flip();
      var fileStays := Flip();
      if !(faults.rowErrors && fileStays) { disk := disk.(store := DeleteFile(disk.store, j.ids[k])); }
      if crashed {
        pc, txn := Down, None;
      } else {
        var folderStays := Flip();
        if !(faults.rowErrors && folderStays) { disk := disk.(store := DeleteFolder(disk.store, j.ids[k])); }
        pc := DropRows(j, k + 1);
      }
      ReachesStep(p, faults, before, Now());
    }

    method RestoreParent(ghost p: Plan, j: Journal) returns (crashed: bool)
      requires On(p) && pc == RestoreIndex(j)
      modifies this
      ensures On(p) && late == old(late)
      ensures pc == if crashed then Down else DropStaging
    {
      ghost var before := Now();
      crashed := Flip();
      var opens := Flip();
      var cut := Flip();
      var fails := crashed || faults.restoreErrors;
      if j.saved.Some? && (opens || !fails) {
        disk := disk.(index := if cut && fails then Torn else Whole(j.saved.value));
      }
      if crashed { pc, txn := Down, None; } else { pc := DropStaging; }
      ReachesStep(p, faults, before, Now());
    }
  }
}
