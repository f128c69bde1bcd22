/** The bounded list of recently opened files (src/core/history_manager.cpp). */
module History {
  import opened Records

  const MaxHistoryItems := 50

  datatype HistoryEntry = HistoryEntry(fileId: Id, openedUtc: int)

  type Entries = seq<HistoryEntry>

  datatype Open = Open(fileId: Id, now: int)

  function Without(entries: Entries, id: Id): Entries {
    if entries == [] then []
    else (if entries[0].fileId == id then [] else [entries[0]]) + Without(entries[1..], id)
  }

  lemma {:induction false} WithoutMembers(entries: Entries, id: Id)
    ensures forall e :: e in Without(entries, id) <==> e in entries && e.fileId != id
    ensures |Without(entries, id)| <= |entries|
  {
    if entries != [] {
      WithoutMembers(entries[1..], id);
      assert entries == [entries[0]] + entries[1..];
    }
  }

  function Take(entries: Entries, n: nat): Entries {
    if |entries| <= n then entries else entries[..n]
  }

  /** One recorded open of the bounded list; an empty id is not recorded. */
  function Recorded(entries: Entries, open: Open): Entries {
    if open.fileId == "" then entries
    else Take([HistoryEntry(open.fileId, open.now)] + Without(entries, open.fileId), MaxHistoryItems)
  }

  /** The same without a bound. */
  function FullRecorded(entries: Entries, open: Open): Entries {
    if open.fileId == "" then entries
    else [HistoryEntry(open.fileId, open.now)] + Without(entries, open.fileId)
  }

  function Bounded(opens: seq<Open>): Entries {
    if opens == [] then [] else Recorded(Bounded(opens[..|opens| - 1]), opens[|opens| - 1])
  }

  function Full(opens: seq<Open>): Entries {
    if opens == [] then [] else FullRecorded(Full(opens[..|opens| - 1]), opens[|opens| - 1])
  }

  // ---- The unbounded list is the most-recent-first list ----

  ghost predicate DistinctFiles(entries: Entries) {
    forall i, j :: 0 <= i < j < |entries| ==> entries[i].fileId != entries[j].fileId
  }

  /** Position of the last open of a file among the first n; -1 if there is none. */
  function LastAmong(opens: seq<Open>, id: Id, n: nat): (k: int)
    requires n <= |opens|
    ensures k == -1 || (0 <= k < n && opens[k].fileId == id)
  {
    if n == 0 then -1
    else if opens[n - 1].fileId == id then n - 1
    else LastAmong(opens, id, n - 1)
  }

  lemma {:induction false} LastAmongIsLast(opens: seq<Open>, id: Id, n: nat)
    requires n <= |opens|
    ensures forall j :: 0 <= j < n && j > LastAmong(opens, id, n) ==> opens[j].fileId != id
  {
    if n > 0 { LastAmongIsLast(opens, id, n - 1); }
  }

  function LastOpen(opens: seq<Open>, id: Id): int { LastAmong(opens, id, |opens|) }

  /** The later opened comes first; so no file is listed twice. */
  ghost predicate InOrder(entries: Entries, opens: seq<Open>) {
    forall i, j :: 0 <= i < j < |entries| ==> Precedes(entries[i], entries[j], opens)
  }

  ghost predicate Precedes(a: HistoryEntry, b: HistoryEntry, opens: seq<Open>) {
    LastOpen(opens, a.fileId) > LastOpen(opens, b.fileId)
  }

  lemma InOrderIsDistinct(entries: Entries, opens: seq<Open>)
    requires InOrder(entries, opens)
    ensures DistinctFiles(entries)
  {
    forall i, j | 0 <= i < j < |entries| ensures entries[i].fileId != entries[j].fileId {
      assert Precedes(entries[i], entries[j], opens);
    }
  }

  /** Every file opened is listed once, with the time of its last open, and the
      entries stand in the order of the last opens, latest first. */
  ghost predicate MostRecentFirst(entries: Entries, opens: seq<Open>) {
    && (forall e :: e in entries ==> e.fileId != "" && LastOpen(opens, e.fileId) != -1
                                     && e.openedUtc == opens[LastOpen(opens, e.fileId)].now)
    && (forall id :: id != "" && LastOpen(opens, id) != -1 ==> Lists(entries, id))
    && InOrder(entries, opens)
  }

  ghost predicate Lists(entries: Entries, id: Id) { exists e :: e in entries && e.fileId == id }

  lemma {:induction false} WithoutKeepsOrder(entries: Entries, id: Id, opens: seq<Open>)
    requires InOrder(entries, opens)
    ensures InOrder(Without(entries, id), opens)
  {
    if entries != [] {
      var first, rest := entries[0], Without(entries[1..], id);
      forall i, j | 0 <= i < j < |entries[1..]| ensures Precedes(entries[1..][i], entries[1..][j], opens) {
        assert Precedes(entries[i + 1], entries[j + 1], opens);
      }
      WithoutKeepsOrder(entries[1..], id, opens);
      WithoutMembers(entries[1..], id);
      forall b | b in rest ensures Precedes(first, b, opens) {
        var j :| 0 <= j < |entries[1..]| && entries[1..][j] == b;
        assert Precedes(entries[0], entries[j + 1], opens);
      }
      FirstIsLatest(first, rest, opens);
      assert [] + rest == rest;
    }
  }

  lemma FirstIsLatest(first: HistoryEntry, rest: Entries, opens: seq<Open>)
    requires InOrder(rest, opens) && forall b :: b in rest ==> Precedes(first, b, opens)
    ensures InOrder([first] + rest, opens)
  {
    var r := [first] + rest;
    forall i, j | 0 <= i < j < |r| ensures Precedes(r[i], r[j], opens) {
      assert r[j] == rest[j - 1];
      if i > 0 { assert r[i] == rest[i - 1]; }
    }
  }

  lemma {:induction false} LastAmongPrefix(opens: seq<Open>, open: Open, id: Id, n: nat)
    requires n <= |opens|
    ensures LastAmong(opens + [open], id, n) == LastAmong(opens, id, n)
  {
    if n > 0 { LastAmongPrefix(opens, open, id, n - 1); }
  }

  lemma LastOpenOneMore(opens: seq<Open>, open: Open, id: Id)
    ensures LastOpen(opens + [open], id) == if open.fileId == id then |opens| else LastOpen(opens, id)
  {
    LastAmongPrefix(opens, open, id, |opens|);
  }

  /** The entry of an open that no later open of the same file follows. */
  ghost predicate IsLastOpen(opens: seq<Open>, e: HistoryEntry) {
    exists k :: 0 <= k < |opens| && opens[k] == Open(e.fileId, e.openedUtc)
                && forall j :: k < j < |opens| ==> opens[j].fileId != e.fileId
  }

  lemma FullIsMostRecentFirst(opens: seq<Open>)
    ensures MostRecentFirst(Full(opens), opens) && DistinctFiles(Full(opens))
    ensures forall e :: e in Full(opens) ==> IsLastOpen(opens, e)
    ensures forall open :: open in opens && open.fileId != "" ==> Lists(Full(opens), open.fileId)
  {
    FullFollowsLastOpens(opens);
    InOrderIsDistinct(Full(opens), opens);
    forall e | e in Full(opens) ensures IsLastOpen(opens, e) {
      LastAmongIsLast(opens, e.fileId, |opens|);
      assert opens[LastOpen(opens, e.fileId)] == Open(e.fileId, e.openedUtc);
    }
    forall open | open in opens && open.fileId != "" ensures Lists(Full(opens), open.fileId) {
      LastAmongIsLast(opens, open.fileId, |opens|);
    }
  }

  lemma {:induction false} FullFollowsLastOpens(opens: seq<Open>)
    ensures MostRecentFirst(Full(opens), opens)
    decreases |opens|
  {
    if opens != [] {
      var before, open := opens[..|opens| - 1], opens[|opens| - 1];
      FullFollowsLastOpens(before);
      assert opens == before + [open];
      FullOneMore(Full(before), before, open);
    }
  }

  lemma FullOneMore(entries: Entries, opens: seq<Open>, open: Open)
    requires MostRecentFirst(entries, opens)
    ensures MostRecentFirst(FullRecorded(entries, open), opens + [open])
  {
    if open.fileId == "" {
      forall id { LastOpenOneMore(opens, open, id); }
    } else {
      FullIsDated(entries, opens, open);
      FullListsAll(entries, opens, open);
      FullInOrder(entries, opens, open);
    }
  }

  lemma FullIsDated(entries: Entries, opens: seq<Open>, open: Open)
    requires MostRecentFirst(entries, opens) && open.fileId != ""
    ensures forall e :: e in FullRecorded(entries, open) ==>
              e.fileId != "" && LastOpen(opens + [open], e.fileId) != -1
              && e.openedUtc == (opens + [open])[LastOpen(opens + [open], e.fileId)].now
  {
    WithoutMembers(entries, open.fileId);
    forall e | e in FullRecorded(entries, open)
      ensures e.fileId != "" && LastOpen(opens + [open], e.fileId) != -1
      ensures e.openedUtc == (opens + [open])[LastOpen(opens + [open], e.fileId)].now {
      LastOpenOneMore(opens, open, e.fileId);
    }
  }

  lemma FullListsAll(entries: Entries, opens: seq<Open>, open: Open)
    requires MostRecentFirst(entries, opens) && open.fileId != ""
    ensures forall id :: id != "" && LastOpen(opens + [open], id) != -1 ==> Lists(FullRecorded(entries, open), id)
  {
    var r := FullRecorded(entries, open);
    WithoutMembers(entries, open.fileId);
    forall id | id != "" && LastOpen(opens + [open], id) != -1 ensures Lists(r, id) {
      LastOpenOneMore(opens, open, id);
      if id == open.fileId {
        assert HistoryEntry(open.fileId, open.now) in r;
      } else {
        var e :| e in entries && e.fileId == id;
        assert e in r;
      }
    }
  }

  lemma FullInOrder(entries: Entries, opens: seq<Open>, open: Open)
    requires MostRecentFirst(entries, opens) && open.fileId != ""
    ensures InOrder(FullRecorded(entries, open), opens + [open])
  {
    var first, rest, after := HistoryEntry(open.fileId, open.now), Without(entries, open.fileId), opens + [open];
    WithoutKeepsOrder(entries, open.fileId, opens);
    WithoutMembers(entries, open.fileId);
    forall i, j | 0 <= i < j < |rest| ensures Precedes(rest[i], rest[j], after) {
      OrderStays(rest[i], rest[j], opens, open);
    }
    forall b | b in rest ensures Precedes(first, b, after) {
      LastOpenOneMore(opens, open, first.fileId);
      LastOpenOneMore(opens, open, b.fileId);
    }
    FirstIsLatest(first, rest, after);
  }

  lemma OrderStays(a: HistoryEntry, b: HistoryEntry, opens: seq<Open>, open: Open)
    requires Precedes(a, b, opens) && a.fileId != open.fileId && b.fileId != open.fileId
    ensures Precedes(a, b, opens + [open])
  {
    LastOpenOneMore(opens, open, a.fileId);
    LastOpenOneMore(opens, open, b.fileId);
  }

  // ---- The bound loses nothing it would show ----

  lemma WithoutFirst(first: HistoryEntry, rest: Entries, id: Id)
    ensures Without([first] + rest, id) == (if first.fileId == id then [] else [first]) + Without(rest, id)
  {
    assert ([first] + rest)[1..] == rest;
  }

  lemma {:induction false} WithoutTake(entries: Entries, id: Id, n: nat)
    requires DistinctFiles(entries)
    ensures Take(Without(Take(entries, n + 1), id), n) == Take(Without(entries, id), n)
    decreases |entries|
  {
    if entries != [] {
      var first, rest := entries[0], entries[1..];
      assert entries == [first] + rest;
      TakeBehindFirst(first, rest, n + 1);
      WithoutFirst(first, rest, id);
      WithoutFirst(first, Take(rest, n), id);
      var a, b := Without(Take(rest, n), id), Without(rest, id);
      if first.fileId == id {
        NoneBehindFirst(entries, id);
        NothingToRemove(rest, id);
        NothingToRemove(Take(rest, n), id);
        assert [] + a == a && [] + b == b;
        TakeTwice(rest, n);
      } else if n > 0 {
        WithoutTake(rest, id, n - 1);
        TakeBehindFirst(first, b, n);
        TakeBehindFirst(first, a, n);
      }
    }
  }

  lemma TakeTwice(entries: Entries, n: nat)
    ensures Take(Take(entries, n), n) == Take(entries, n)
  {
  }

  lemma NoneBehindFirst(entries: Entries, id: Id)
    requires DistinctFiles(entries) && entries != [] && entries[0].fileId == id
    ensures forall e :: e in entries[1..] ==> e.fileId != id
  {
  }

  lemma {:induction false} NothingToRemove(entries: Entries, id: Id)
    requires forall e :: e in entries ==> e.fileId != id
    ensures Without(entries, id) == entries
  {
    if entries != [] {
      assert entries[0] in entries;
      NothingToRemove(entries[1..], id);
    }
  }

  lemma RecordedTake(entries: Entries, open: Open)
    requires DistinctFiles(entries)
    ensures Recorded(Take(entries, MaxHistoryItems), open) == Take(FullRecorded(entries, open), MaxHistoryItems)
  {
    if open.fileId != "" {
      var first, n := HistoryEntry(open.fileId, open.now), MaxHistoryItems;
      WithoutTake(entries, open.fileId, n - 1);
      TakeBehindFirst(first, Without(Take(entries, n), open.fileId), n);
      TakeBehindFirst(first, Without(entries, open.fileId), n);
    }
  }

  lemma TakeBehindFirst(first: HistoryEntry, rest: Entries, n: nat)
    requires n > 0
    ensures Take([first] + rest, n) == [first] + Take(rest, n - 1)
  {
  }

  /** After any sequence of opens the bounded list is the first fifty of the
      distinct files, most recent first: cutting at every step loses nothing. */
  lemma {:induction false} BoundedIsFirstFifty(opens: seq<Open>)
    ensures Bounded(opens) == Take(Full(opens), 50)
    ensures |Bounded(opens)| <= 50
    decreases |opens|
  {
    if opens != [] {
      var before, open := opens[..|opens| - 1], opens[|opens| - 1];
      BoundedIsFirstFifty(before);
      FullIsMostRecentFirst(before);
      RecordedTake(Full(before), open);
    }
  }

  /** The stored list; None before the first write. */
  class HistoryStore {
    var stored: Option<Entries>

    function GetHistory(): Entries reads this { stored.GetOr([]) }

    /** A refused write leaves the old list. */
    method RecordFileOpen(fileId: Id, now: int) returns (recorded: bool)
      modifies this
      ensures recorded ==> fileId != "" && GetHistory() == Recorded(old(GetHistory()), Open(fileId, now))
      ensures !recorded ==> stored == old(stored)
    {
      if fileId == "" { return false; }
      var history := GetHistory();
      history := Without(history, fileId);
      history := [HistoryEntry(fileId, now)] + history;
      if |history| > MaxHistoryItems { history := history[..MaxHistoryItems]; }
      var wrote: bool := *;
      if wrote { stored := Some(history); }
      recorded := wrote;
    }

    method ClearHistory() returns (cleared: bool)
      modifies this
      ensures cleared ==> GetHistory() == []
      ensures !cleared ==> stored == old(stored)
    {
      cleared := *;
      if cleared { stored := Some([]); }
    }
  }
}
