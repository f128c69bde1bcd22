/** Batched activity counters (src/core/activity_manager.cpp; rows as added up by
    src/db/activity_db.cpp). Each call runs under the manager's lock. */
module Activity {
  import opened Records

  /** A local calendar day. */
  type Date = int

  datatype Metric = ActiveMs | NotesCreated | NotesRead | NotesEdited

  datatype Touch = Reading | Editing

  /** One counter of the per-day row, and one of the per-file entries. */
  datatype DayKey = DayKey(date: Date, metric: Metric)
  datatype FileKey = FileKey(date: Date, notebook: Id, path: string, touch: Touch)
  datatype RowKey = RowKey(date: Date, notebook: Id, fileId: Id, touch: Touch)

  /** Which file a path names, if any, at the time of a flush. */
  datatype World = World(resolve: (Id, string) -> Option<Id>)

  predicate Credits(w: World, k: FileKey, row: RowKey) {
    k.date == row.date && k.notebook == row.notebook && k.touch == row.touch
    && w.resolve(k.notebook, k.path) == Some(row.fileId)
  }

  function DayAt(m: map<DayKey, int>, k: DayKey): int { if k in m then m[k] else 0 }

  function FileAt(m: map<FileKey, int>, k: FileKey): int { if k in m then m[k] else 0 }

  function RowAt(m: map<RowKey, int>, k: RowKey): int { if k in m then m[k] else 0 }

  // ---- What was recorded ----

  datatype Op =
    | Created(date: Date, notebook: Id, path: string)
    | Saved(date: Date, notebook: Id, path: string)
    | Focused(date: Date, delta: int)
    | ReadNote(date: Date, notebook: Id, path: string)
    | EditedNote(date: Date, notebook: Id, path: string)
    | Flushed(world: World)

  /** What a call adds to one counter of its day. */
  function DayDelta(op: Op): Option<(DayKey, int)> {
    match op
    case Created(d, _, _) => Some((DayKey(d, NotesCreated), 1))
    case Saved(d, _, _) => Some((DayKey(d, NotesEdited), 1))
    case Focused(d, delta) => if delta > 0 then Some((DayKey(d, ActiveMs), delta)) else None
    case ReadNote(d, _, _) => Some((DayKey(d, NotesRead), 1))
    case EditedNote(d, _, _) => Some((DayKey(d, NotesEdited), 1))
    case Flushed(_) => None
  }

  /** The file entry a call counts up; none without a notebook or a path. */
  function FileTouched(op: Op): Option<FileKey> {
    match op
    case Saved(d, nb, p) => if nb != "" && p != "" then Some(FileKey(d, nb, p, Editing)) else None
    case ReadNote(d, nb, p) => if nb != "" && p != "" then Some(FileKey(d, nb, p, Reading)) else None
    case EditedNote(d, nb, p) => if nb != "" && p != "" then Some(FileKey(d, nb, p, Editing)) else None
    case _ => None
  }

  function DayPart(op: Op, k: DayKey): int {
    match DayDelta(op)
    case Some((key, n)) => if key == k then n else 0
    case None => 0
  }

  /** All that was recorded for a counter of a day. */
  function Total(log: seq<Op>, k: DayKey): int {
    if log == [] then 0 else Total(log[..|log| - 1], k) + DayPart(log[|log| - 1], k)
  }

  function Count(log: seq<Op>, counts: Op -> bool): nat {
    if log == [] then 0 else Count(log[..|log| - 1], counts) + if counts(log[|log| - 1]) then 1 else 0
  }

  /** The focus time of a day; deltas that are not positive do not count. */
  function FocusTime(log: seq<Op>, date: Date): int {
    if log == [] then 0
    else
      var op := log[|log| - 1];
      FocusTime(log[..|log| - 1], date) + if op.Focused? && op.date == date && op.delta > 0 then op.delta else 0
  }

  /** What each counter of a day counts. */
  lemma {:induction false} TotalsCount(log: seq<Op>, date: Date)
    ensures Total(log, DayKey(date, NotesCreated)) == Count(log, (op: Op) => op.Created? && op.date == date)
    ensures Total(log, DayKey(date, NotesRead)) == Count(log, (op: Op) => op.ReadNote? && op.date == date)
    ensures Total(log, DayKey(date, NotesEdited)) ==
            Count(log, (op: Op) => (op.Saved? || op.EditedNote?) && op.date == date)
    ensures Total(log, DayKey(date, ActiveMs)) == FocusTime(log, date)
  {
    if log != [] { TotalsCount(log[..|log| - 1], date); }
  }

  function Share(op: Op, w: World, row: RowKey): int {
    if FileTouched(op).Some? && Credits(w, FileTouched(op).value, row) then 1 else 0
  }

  /** What was recorded since the last flush for paths that `w` resolves to the row's file. */
  function Since(log: seq<Op>, w: World, row: RowKey): int {
    if log == [] || log[|log| - 1].Flushed? then 0
    else Since(log[..|log| - 1], w, row) + Share(log[|log| - 1], w, row)
  }

  /** Every record counts for the file its path names at the next flush. */
  function Credited(log: seq<Op>, row: RowKey): int {
    if log == [] then 0
    else
      var front, last := log[..|log| - 1], log[|log| - 1];
      Credited(front, row) + if last.Flushed? then Since(front, last.world, row) else 0
  }

  ghost function Mine(op: Op, row: RowKey, paths: iset<string>): int {
    var f := FileTouched(op);
    if f.Some? && f.value.date == row.date && f.value.notebook == row.notebook && f.value.touch == row.touch
        && f.value.path in paths
    then 1 else 0
  }

  /** All that was recorded for some paths of the row's notebook on its day. */
  ghost function RecordedFor(log: seq<Op>, row: RowKey, paths: iset<string>): int {
    if log == [] then 0 else RecordedFor(log[..|log| - 1], row, paths) + Mine(log[|log| - 1], row, paths)
  }

  lemma OneMore(log: seq<Op>, op: Op)
    ensures forall k :: Total(log + [op], k) == Total(log, k) + DayPart(op, k)
    ensures forall w, row :: Since(log + [op], w, row) ==
              if op.Flushed? then 0 else Since(log, w, row) + Share(op, w, row)
    ensures forall row :: Credited(log + [op], row) ==
              Credited(log, row) + if op.Flushed? then Since(log, op.world, row) else 0
    ensures forall row, paths :: RecordedFor(log + [op], row, paths) ==
              RecordedFor(log, row, paths) + Mine(op, row, paths)
  {
    assert (log + [op])[..|log|] == log;
  }

  // ---- A file's counts against what was recorded ----

  /** The only paths that `w` takes for the row's file. */
  ghost predicate Within(w: World, row: RowKey, paths: iset<string>) {
    forall p :: w.resolve(row.notebook, p) == Some(row.fileId) ==> p in paths
  }

  ghost predicate AllWithin(log: seq<Op>, w: World, row: RowKey, paths: iset<string>) {
    Within(w, row, paths) && forall op :: op in log && op.Flushed? ==> Within(op.world, row, paths)
  }

  /** The world of the first flush from position i on; `w` if there is none. */
  function NextFlush(log: seq<Op>, i: nat, w: World): World
    requires i <= |log|
    decreases |log| - i
  {
    if i == |log| then w else if log[i].Flushed? then log[i].world else NextFlush(log, i + 1, w)
  }

  /** Position i records one of the paths, and its path names another file, or
      none, when it is flushed. */
  ghost predicate Strays(log: seq<Op>, i: nat, w: World, row: RowKey, paths: iset<string>)
    requires i < |log|
  {
    Mine(log[i], row, paths) == 1 && !Credits(NextFlush(log, i, w), FileTouched(log[i]).value, row)
  }

  /** How many do, with `w` for the records that are still pending. */
  ghost function Lost(log: seq<Op>, n: nat, w: World, row: RowKey, paths: iset<string>): nat
    requires n <= |log|
  {
    if n == 0 then 0 else Lost(log, n - 1, w, row, paths) + if Strays(log, n - 1, w, row, paths) then 1 else 0
  }

  lemma {:induction false} NextFlushOfFront(log: seq<Op>, i: nat, w: World)
    requires i < |log|
    ensures var n := |log| - 1;
            NextFlush(log, i, w) == NextFlush(log[..n], i, if log[n].Flushed? then log[n].world else w)
    decreases |log| - i
  {
    if i < |log| - 1 {
      if !log[i].Flushed? { NextFlushOfFront(log, i + 1, w); }
    }
  }

  lemma {:induction false} LostInFront(log: seq<Op>, n: nat, w: World, row: RowKey, paths: iset<string>)
    requires n < |log|
    ensures var last := log[|log| - 1];
            Lost(log, n, w, row, paths) ==
            Lost(log[..|log| - 1], n, if last.Flushed? then last.world else w, row, paths)
  {
    if n > 0 {
      LostInFront(log, n - 1, w, row, paths);
      NextFlushOfFront(log, n - 1, w);
    }
  }

  /** Everything recorded for the paths is credited to the file, would be by a
      flush under `w`, or is lost to it. */
  lemma {:induction false} NothingElseHappens(log: seq<Op>, w: World, row: RowKey, paths: iset<string>)
    requires AllWithin(log, w, row, paths)
    ensures Credited(log, row) + Since(log, w, row) + Lost(log, |log|, w, row, paths) == RecordedFor(log, row, paths)
    decreases |log|
  {
    if log != [] {
      var front, last := log[..|log| - 1], log[|log| - 1];
      assert log == front + [last];
      OneMore(front, last);
      LostInFront(log, |log| - 1, w, row, paths);
      NothingElseHappens(front, if last.Flushed? then last.world else w, row, paths);
      if !last.Flushed? { assert NextFlush(log, |log| - 1, w) == w; }
    }
  }

  lemma {:induction false} NoneLostExactlyWhen(log: seq<Op>, n: nat, w: World, row: RowKey, paths: iset<string>)
    requires n <= |log|
    ensures Lost(log, n, w, row, paths) == 0 <==> forall i :: 0 <= i < n ==> !Strays(log, i, w, row, paths)
  {
    if n > 0 { NoneLostExactlyWhen(log, n - 1, w, row, paths); }
  }

  /** Once flushed, a file's counts are what was recorded for its paths, less
      what strayed; so they are all of it exactly when every recorded touch of
      the paths names the file at the flush that follows it. */
  lemma CountsAreCompleteExactlyWhen(log: seq<Op>, w: World, row: RowKey, paths: iset<string>)
    requires AllWithin(log, w, row, paths)
    ensures var flushed := log + [Flushed(w)];
            && Credited(flushed, row) == RecordedFor(flushed, row, paths) - Lost(log, |log|, w, row, paths)
            && (Credited(flushed, row) == RecordedFor(flushed, row, paths) <==>
                forall i :: 0 <= i < |log| ==> !Strays(log, i, w, row, paths))
  {
    OneMore(log, Flushed(w));
    NothingElseHappens(log, w, row, paths);
    NoneLostExactlyWhen(log, |log|, w, row, paths);
  }

  /** The smallest loss: a path that does not resolve when it is flushed is not
      made up for later. */
  lemma UnresolvedIsLost(gone: World, back: World, date: Date, nb: Id, path: string, file: Id)
    requires nb != "" && path != "" && gone.resolve(nb, path) == None && back.resolve(nb, path) == Some(file)
    ensures var log, row := [] + [ReadNote(date, nb, path)] + [Flushed(gone)] + [Flushed(back)],
            RowKey(date, nb, file, Reading);
            Credited(log, row) == 0 && RecordedFor(log, row, iset{path}) == 1
  {
    OneMore([], ReadNote(date, nb, path));
    OneMore([] + [ReadNote(date, nb, path)], Flushed(gone));
    OneMore([] + [ReadNote(date, nb, path)] + [Flushed(gone)], Flushed(back));
  }

  // ---- Sums over the pending entries, in any order ----

  ghost function Part(m: map<FileKey, int>, k: FileKey, w: World, row: RowKey): int {
    if Credits(w, k, row) then FileAt(m, k) else 0
  }

  ghost function Sum(m: map<FileKey, int>, w: World, row: RowKey): int
    decreases |m|
  {
    if m == map[] then 0
    else
      var k :| k in m;
      Part(m, k, w, row) + Sum(m - {k}, w, row)
  }

  lemma {:induction false} SumTakesOut(m: map<FileKey, int>, w: World, row: RowKey, k: FileKey)
    requires k in m
    ensures Sum(m, w, row) == Part(m, k, w, row) + Sum(m - {k}, w, row)
    decreases |m|
  {
    var j :| j in m && Sum(m, w, row) == Part(m, j, w, row) + Sum(m - {j}, w, row);
    if j != k {
      SumTakesOut(m - {j}, w, row, k);
      SumTakesOut(m - {k}, w, row, j);
      assert m - {j} - {k} == m - {k} - {j};
      assert Part(m - {j}, k, w, row) == Part(m, k, w, row);
      assert Part(m - {k}, j, w, row) == Part(m, j, w, row);
    }
  }

  lemma SumAfterAdding(m: map<FileKey, int>, k: FileKey, w: World, row: RowKey)
    ensures Sum(m[k := FileAt(m, k) + 1], w, row) == Sum(m, w, row) + if Credits(w, k, row) then 1 else 0
  {
    var u := m[k := FileAt(m, k) + 1];
    SumTakesOut(u, w, row, k);
    assert u - {k} == m - {k};
    if k in m {
      SumTakesOut(m, w, row, k);
    } else {
      assert m - {k} == m;
    }
  }

  // ---- What ties the counters to the record ----

  /** Persisted plus pending is what was recorded. */
  ghost predicate DailyMatches(rows: map<DayKey, int>, pending: map<DayKey, int>, log: seq<Op>) {
    forall k :: DayAt(rows, k) + DayAt(pending, k) == Total(log, k)
  }

  ghost predicate RowsMatch(rows: map<RowKey, int>, log: seq<Op>) {
    forall row :: RowAt(rows, row) == Credited(log, row)
  }

  /** What the next flush will credit, whatever the paths then resolve to. */
  ghost predicate PendingMatches(pending: map<FileKey, int>, log: seq<Op>) {
    forall w, row :: Sum(pending, w, row) == Since(log, w, row)
  }

  function NotedDay(pending: map<DayKey, int>, op: Op): map<DayKey, int> {
    match DayDelta(op)
    case None => pending
    case Some((k, n)) => pending[k := DayAt(pending, k) + n]
  }

  function NotedFile(pending: map<FileKey, int>, op: Op): map<FileKey, int> {
    match FileTouched(op)
    case None => pending
    case Some(k) => pending[k := FileAt(pending, k) + 1]
  }

  lemma RecordIsKept(rows: map<DayKey, int>, daily: map<DayKey, int>, fileRows: map<RowKey, int>,
                     files: map<FileKey, int>, log: seq<Op>, op: Op)
    requires DailyMatches(rows, daily, log) && RowsMatch(fileRows, log) && PendingMatches(files, log) && !op.Flushed?
    ensures DailyMatches(rows, NotedDay(daily, op), log + [op])
    ensures RowsMatch(fileRows, log + [op]) && PendingMatches(NotedFile(files, op), log + [op])
  {
    OneMore(log, op);
    forall w, row ensures Sum(NotedFile(files, op), w, row) == Since(log + [op], w, row) {
      if FileTouched(op).Some? { SumAfterAdding(files, FileTouched(op).value, w, row); }
    }
  }

  lemma FlushIsKept(rows: map<DayKey, int>, rows': map<DayKey, int>, daily: map<DayKey, int>,
                    fileRows: map<RowKey, int>, fileRows': map<RowKey, int>, files: map<FileKey, int>,
                    log: seq<Op>, w: World)
    requires DailyMatches(rows, daily, log) && RowsMatch(fileRows, log) && PendingMatches(files, log)
    requires forall k :: DayAt(rows', k) == DayAt(rows, k) + DayAt(daily, k)
    requires forall row :: RowAt(fileRows', row) == RowAt(fileRows, row) + Sum(files, w, row)
    ensures DailyMatches(rows', map[], log + [Flushed(w)])
    ensures RowsMatch(fileRows', log + [Flushed(w)]) && PendingMatches(map[], log + [Flushed(w)])
  {
    OneMore(log, Flushed(w));
  }

  lemma FlushedOne(rows: map<RowKey, int>, rows': map<RowKey, int>, pending: map<FileKey, int>, k: FileKey, w: World)
    requires k in pending
    requires var file := w.resolve(k.notebook, k.path);
             rows' == if file.None? then rows
                      else
                        var row := RowKey(k.date, k.notebook, file.value, k.touch);
                        rows[row := RowAt(rows, row) + pending[k]]
    ensures forall row :: RowAt(rows', row) + Sum(pending - {k}, w, row) == RowAt(rows, row) + Sum(pending, w, row)
  {
    forall row ensures RowAt(rows', row) + Sum(pending - {k}, w, row) == RowAt(rows, row) + Sum(pending, w, row) {
      SumTakesOut(pending, w, row, k);
    }
  }

  // ---- The manager ----

  class ActivityManager {
    var pendingDaily: map<DayKey, int>
    var pendingFile: map<FileKey, int>
    var dailyRows: map<DayKey, int>
    var fileRows: map<RowKey, int>
    ghost var log: seq<Op>

    ghost predicate Valid() reads this {
      DailyMatches(dailyRows, pendingDaily, log) && RowsMatch(fileRows, log) && PendingMatches(pendingFile, log)
    }

    /** A day's counter as the next query will see it. */
    function DayCount(k: DayKey): int
      reads this
    {
      DayAt(dailyRows, k) + DayAt(pendingDaily, k)
    }

    /** One counter of the day has gone up, and no other. */
    twostate predicate DayCounted(date: Date, metric: Metric, n: int)
      reads this
    {
      && dailyRows == old(dailyRows) && fileRows == old(fileRows)
      && forall k :: DayCount(k) == old(DayCount(k)) + if k == DayKey(date, metric) then n else 0
    }

    /** One more touch of the file waits for the next flush, if a file was named. */
    twostate predicate FileCounted(date: Date, notebook: Id, path: string, touch: Touch)
      reads this
    {
      forall k :: FileAt(pendingFile, k) == FileAt(old(pendingFile), k)
        + if k == FileKey(date, notebook, path, touch) && notebook != "" && path != "" then 1 else 0
    }

    constructor ()
      ensures Valid() && log == []
    {
      pendingDaily, pendingFile, dailyRows, fileRows, log := map[], map[], map[], map[], [];
    }

    method CountDay(date: Date, metric: Metric, n: int)
      modifies this`pendingDaily
      ensures var k := DayKey(date, metric);
              pendingDaily == old(pendingDaily)[k := DayAt(old(pendingDaily), k) + n]
    {
      pendingDaily := pendingDaily[DayKey(date, metric) := DayAt(pendingDaily, DayKey(date, metric)) + n];
    }

    /** Without a notebook or a path no file is counted. */
    method CountFile(date: Date, notebook: Id, path: string, touch: Touch)
      modifies this`pendingFile
      ensures var k := FileKey(date, notebook, path, touch);
              pendingFile == if notebook == "" || path == "" then old(pendingFile)
                             else old(pendingFile)[k := FileAt(old(pendingFile), k) + 1]
    {
      if notebook != "" && path != "" {
        var k := FileKey(date, notebook, path, touch);
        pendingFile := pendingFile[k := FileAt(pendingFile, k) + 1];
      }
    }

    method OnFileCreated(date: Date, notebook: Id, path: string)
      requires Valid()
      modifies this
      ensures Valid() && log == old(log) + [Created(date, notebook, path)]
      ensures DayCounted(date, NotesCreated, 1)
      ensures pendingFile == old(pendingFile)
    {
      RecordIsKept(dailyRows, pendingDaily, fileRows, pendingFile, log, Created(date, notebook, path));
      log := log + [Created(date, notebook, path)];
      CountDay(date, NotesCreated, 1);
    }

    method OnFileSaved(date: Date, notebook: Id, path: string)
      requires Valid()
      modifies this
      ensures Valid() && log == old(log) + [Saved(date, notebook, path)]
      ensures DayCounted(date, NotesEdited, 1)
      ensures FileCounted(date, notebook, path, Editing)
    {
      RecordIsKept(dailyRows, pendingDaily, fileRows, pendingFile, log, Saved(date, notebook, path));
      log := log + [Saved(date, notebook, path)];
      CountDay(date, NotesEdited, 1);
      CountFile(date, notebook, path, Editing);
    }

    method AddFocusTime(date: Date, delta: int)
      requires Valid()
      modifies this
      ensures Valid() && log == old(log) + [Focused(date, delta)]
      ensures DayCounted(date, ActiveMs, if delta > 0 then delta else 0)
      ensures pendingFile == old(pendingFile)
    {
      RecordIsKept(dailyRows, pendingDaily, fileRows, pendingFile, log, Focused(date, delta));
      log := log + [Focused(date, delta)];
      if delta > 0 { CountDay(date, ActiveMs, delta); }
    }

    method RecordRead(date: Date, notebook: Id, path: string)
      requires Valid()
      modifies this
      ensures Valid() && log == old(log) + [ReadNote(date, notebook, path)]
      ensures DayCounted(date, NotesRead, 1)
      ensures FileCounted(date, notebook, path, Reading)
    {
      RecordIsKept(dailyRows, pendingDaily, fileRows, pendingFile, log, ReadNote(date, notebook, path));
      log := log + [ReadNote(date, notebook, path)];
      CountDay(date, NotesRead, 1);
      CountFile(date, notebook, path, Reading);
    }

    method RecordEdit(date: Date, notebook: Id, path: string)
      requires Valid()
      modifies this
      ensures Valid() && log == old(log) + [EditedNote(date, notebook, path)]
      ensures DayCounted(date, NotesEdited, 1)
      ensures FileCounted(date, notebook, path, Editing)
    {
      RecordIsKept(dailyRows, pendingDaily, fileRows, pendingFile, log, EditedNote(date, notebook, path));
      log := log + [EditedNote(date, notebook, path)];
      CountDay(date, NotesEdited, 1);
      CountFile(date, notebook, path, Editing);
    }

    /** Writes everything that is pending; the store's writes succeed. */
    method FlushLocked(w: World)
      requires Valid()
      modifies this
      ensures Valid() && log == old(log) + [Flushed(w)]
      ensures pendingDaily == map[] && pendingFile == map[]
      ensures forall k :: DayAt(dailyRows, k) == Total(old(log), k)
    {
      ghost var rows, daily, fRows, files := dailyRows, pendingDaily, fileRows, pendingFile;
      FlushDaily();
      FlushFiles(w);
      FlushIsKept(rows, dailyRows, daily, fRows, fileRows, files, log, w);
      log := log + [Flushed(w)];
    }

    method FlushDaily()
      modifies this`pendingDaily, this`dailyRows
      ensures pendingDaily == map[]
      ensures forall k :: DayAt(dailyRows, k) == DayAt(old(dailyRows), k) + DayAt(old(pendingDaily), k)
    {
      while pendingDaily.Keys != {}
        invariant forall k :: DayAt(dailyRows, k) + DayAt(pendingDaily, k) ==
                    DayAt(old(dailyRows), k) + DayAt(old(pendingDaily), k)
        decreases |pendingDaily|
      {
        var k :| k in pendingDaily.Keys;
        dailyRows := dailyRows[k := DayAt(dailyRows, k) + pendingDaily[k]];
        pendingDaily := pendingDaily - {k};
      }
    }

    /** A path that resolves to no file is dropped. */
    method FlushFiles(w: World)
      modifies this`pendingFile, this`fileRows
      ensures pendingFile == map[]
      ensures forall row :: RowAt(fileRows, row) == RowAt(old(fileRows), row) + Sum(old(pendingFile), w, row)
    {
      while pendingFile.Keys != {}
        invariant forall row :: RowAt(fileRows, row) + Sum(pendingFile, w, row) ==
                    RowAt(old(fileRows), row) + Sum(old(pendingFile), w, row)
        decreases |pendingFile|
      {
        var k :| k in pendingFile.Keys;
        ghost var rows, pending := fileRows, pendingFile;
        var file := w.resolve(k.notebook, k.path);
        if file.Some? {
          var row := RowKey(k.date, k.notebook, file.value, k.touch);
          fileRows := fileRows[row := RowAt(fileRows, row) + pendingFile[k]];
        }
        pendingFile := pendingFile - {k};
        FlushedOne(rows, fileRows, pending, k, w);
      }
    }

    /** A query sees everything recorded up to now. */
    method GetDay(k: DayKey, w: World) returns (n: int)
      requires Valid()
      modifies this
      ensures Valid() && n == Total(old(log), k) == old(DayCount(k))
    {
      FlushLocked(w);
      n := DayAt(dailyRows, k);
    }

    method GetFileCount(row: RowKey, w: World) returns (n: int)
      requires Valid()
      modifies this
      ensures Valid() && log == old(log) + [Flushed(w)] && n == Credited(log, row)
    {
      FlushLocked(w);
      n := RowAt(fileRows, row);
    }
  }
}
