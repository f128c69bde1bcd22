/** Reordering the children of a folder
    (src/core/bundled_folder_manager.cpp, SetChildrenOrder). */
module Reorder {
  import opened Records

  // ---- Sorting strings ----

  /** operator< of std::string, or equal. */
  predicate Leq(a: string, b: string) {
    a == "" || (b != "" && (a[0] < b[0] || (a[0] == b[0] && Leq(a[1..], b[1..]))))
  }

  lemma {:induction false} LeqIsTotal(a: string, b: string)
    ensures Leq(a, b) || Leq(b, a)
    ensures Leq(a, b) && Leq(b, a) ==> a == b
  {
    if a != "" && b != "" {
      LeqIsTotal(a[1..], b[1..]);
      if a[0] == b[0] && a[1..] == b[1..] { assert a == [a[0]] + a[1..] == b; }
    }
  }

  lemma {:induction false} LeqIsTransitive(a: string, b: string, c: string)
    requires Leq(a, b) && Leq(b, c)
    ensures Leq(a, c)
  {
    if a != "" && a[0] == b[0] == c[0] { LeqIsTransitive(a[1..], b[1..], c[1..]); }
  }

  ghost predicate Sorted(s: seq<string>) {
    forall i, j :: 0 <= i < j < |s| ==> Leq(s[i], s[j])
  }

  function Inserted(x: string, s: seq<string>): (r: seq<string>)
    ensures multiset(r) == multiset{x} + multiset(s)
  {
    if s == [] || Leq(x, s[0]) then [x] + s
    else
      assert s == [s[0]] + s[1..];
      [s[0]] + Inserted(x, s[1..])
  }

  function Sort(s: seq<string>): (r: seq<string>)
    ensures multiset(r) == multiset(s)
  {
    if s == [] then []
    else
      assert s == [s[0]] + s[1..];
      Inserted(s[0], Sort(s[1..]))
  }

  lemma {:induction false} InsertedIsSorted(x: string, s: seq<string>)
    requires Sorted(s)
    ensures Sorted(Inserted(x, s))
  {
    if s != [] {
      LeqIsTotal(x, s[0]);
      if Leq(x, s[0]) {
        forall j | 0 <= j < |s| ensures Leq(x, s[j]) {
          if j > 0 { LeqIsTransitive(x, s[0], s[j]); }
        }
      } else {
        InsertedIsSorted(x, s[1..]);
        var rest := Inserted(x, s[1..]);
        forall j | 0 <= j < |rest| ensures Leq(s[0], rest[j]) {
          assert rest[j] in multiset(rest);
          assert rest[j] == x || rest[j] in s[1..];
        }
      }
    }
  }

  lemma {:induction false} SortIsSorted(s: seq<string>)
    ensures Sorted(Sort(s))
  {
    if s != [] {
      SortIsSorted(s[1..]);
      InsertedIsSorted(s[0], Sort(s[1..]));
    }
  }

  lemma FirstIsLeast(a: seq<string>, b: seq<string>)
    requires Sorted(a) && a != [] && multiset(a) == multiset(b)
    ensures forall x :: x in b ==> Leq(a[0], x)
  {
    LeqIsTotal(a[0], a[0]);
    forall x | x in b ensures Leq(a[0], x) {
      assert x in multiset(a);
      var i :| 0 <= i < |a| && a[i] == x;
    }
  }

  lemma RestAgrees(x: string, a: seq<string>, b: seq<string>)
    requires multiset([x] + a) == multiset([x] + b)
    ensures multiset(a) == multiset(b)
  {
    assert multiset([x] + a) == multiset{x} + multiset(a) && multiset([x] + b) == multiset{x} + multiset(b);
    assert multiset(a) == multiset([x] + a) - multiset{x};
    assert multiset(b) == multiset([x] + b) - multiset{x};
  }

  lemma {:induction false} SortedIsUnique(a: seq<string>, b: seq<string>)
    requires Sorted(a) && Sorted(b) && multiset(a) == multiset(b)
    ensures a == b
    decreases |a|
  {
    assert |multiset(a)| == |a| && |multiset(b)| == |b|;
    if a != [] {
      FirstIsLeast(a, b);
      FirstIsLeast(b, a);
      LeqIsTotal(a[0], b[0]);
      assert a == [a[0]] + a[1..] && b == [a[0]] + b[1..];
      RestAgrees(a[0], a[1..], b[1..]);
      SortedIsUnique(a[1..], b[1..]);
    }
  }

  /** Sorting both and comparing accepts exactly the permutations. */
  lemma SortsAgreeExactlyOnPermutations(a: seq<string>, b: seq<string>)
    ensures Sort(a) == Sort(b) <==> multiset(a) == multiset(b)
  {
    SortIsSorted(a);
    SortIsSorted(b);
    if multiset(a) == multiset(b) { SortedIsUnique(Sort(a), Sort(b)); }
  }

  // ---- Picking the records ----

  function Names(files: seq<FileRecord>): (r: seq<string>)
    ensures |r| == |files| && forall k :: 0 <= k < |files| ==> r[k] == files[k].name
  {
    seq(|files|, k requires 0 <= k < |files| => files[k].name)
  }

  function RecordNamed(files: seq<FileRecord>, name: string): (r: Option<FileRecord>)
    ensures r.Some? ==> r.value in files && r.value.name == name
    ensures r.Some? <==> name in Names(files)
  {
    var k := FindRecord(files, name);
    assert k != -1 ==> Names(files)[k] == name;
    if k == -1 then None else Some(files[k])
  }

  /** The first record of each name. */
  function Picked(files: seq<FileRecord>, names: seq<string>): (r: seq<FileRecord>)
    requires forall n :: n in names ==> n in Names(files)
    ensures |r| == |names| && forall k :: 0 <= k < |r| ==> Some(r[k]) == RecordNamed(files, names[k])
  {
    seq(|names|, k requires 0 <= k < |names| => RecordNamed(files, names[k]).value)
  }

  lemma {:induction false} PickedCounts(files: seq<FileRecord>, names: seq<string>, r: FileRecord)
    requires forall n :: n in names ==> n in Names(files)
    ensures multiset(Picked(files, names))[r] ==
              if RecordNamed(files, r.name) == Some(r) then multiset(names)[r.name] else 0
    decreases |names|
  {
    if names != [] {
      var front, last := names[..|names| - 1], names[|names| - 1];
      assert names == front + [last];
      PickedCounts(files, front, r);
      assert Picked(files, names) == Picked(files, front) + [RecordNamed(files, last).value];
    }
  }

  /** No two records of one name differ. */
  ghost predicate OneRecordPerName(files: seq<FileRecord>) {
    forall a, b :: a in files && b in files && a.name == b.name ==> a == b
  }

  lemma {:induction false} NameCounts(files: seq<FileRecord>, r: FileRecord)
    requires forall b :: b in files && b.name == r.name ==> b == r
    ensures multiset(files)[r] == multiset(Names(files))[r.name]
  {
    if files != [] {
      var first, rest := files[0], files[1..];
      NameCounts(rest, r);
      assert files == [first] + rest;
      NamesOneMore(first, rest);
      CountOneMore(first, rest, r);
      CountOneMore(first.name, Names(rest), r.name);
      assert first in files;
    }
  }

  lemma NamesOneMore(first: FileRecord, rest: seq<FileRecord>)
    ensures Names([first] + rest) == [first.name] + Names(rest)
  {
  }

  lemma CountOneMore<T>(x: T, s: seq<T>, y: T)
    ensures multiset([x] + s)[y] == multiset(s)[y] + if x == y then 1 else 0
  {
  }

  lemma OneRecordPerNameSurvives(files: seq<FileRecord>, names: seq<string>)
    requires multiset(names) == multiset(Names(files)) && OneRecordPerName(files)
    requires forall n :: n in names ==> n in Names(files)
    ensures multiset(Picked(files, names)) == multiset(files)
  {
    var picked := Picked(files, names);
    forall r ensures multiset(picked)[r] == multiset(files)[r] {
      PickedCounts(files, names, r);
      if r in files {
        NameIsListed(files, r);
        NameCounts(files, r);
      } else {
        assert r !in multiset(files);
      }
    }
  }

  lemma SurvivalNeedsOneRecordPerName(files: seq<FileRecord>, names: seq<string>)
    requires forall n :: n in names ==> n in Names(files)
    requires multiset(Picked(files, names)) == multiset(files)
    ensures OneRecordPerName(files)
  {
    forall r | r in files ensures RecordNamed(files, r.name) == Some(r) {
      assert r in multiset(Picked(files, names));
      PickedCounts(files, names, r);
    }
  }

  lemma PermutedNamesAreThere(files: seq<FileRecord>, names: seq<string>)
    requires multiset(names) == multiset(Names(files))
    ensures forall n :: n in names ==> n in Names(files)
  {
    forall n | n in names ensures n in Names(files) { assert n in multiset(names); }
  }

  /** Picking the first record of each name keeps every file record exactly when
      no two records of one name differ. */
  lemma RecordsSurviveExactlyWhen(files: seq<FileRecord>, names: seq<string>)
    requires multiset(names) == multiset(Names(files))
    ensures forall n :: n in names ==> n in Names(files)
    ensures multiset(Picked(files, names)) == multiset(files) <==> OneRecordPerName(files)
  {
    PermutedNamesAreThere(files, names);
    if OneRecordPerName(files) {
      OneRecordPerNameSurvives(files, names);
    } else if multiset(Picked(files, names)) == multiset(files) {
      SurvivalNeedsOneRecordPerName(files, names);
    }
  }

  lemma NameIsListed(files: seq<FileRecord>, r: FileRecord)
    requires r in files
    ensures r.name in Names(files) && RecordNamed(files, r.name).Some?
  {
    var k :| 0 <= k < |files| && files[k] == r;
    assert Names(files)[k] == r.name;
  }

  /** Two different records of one name: putting a third in front loses one of them. */
  lemma DuplicateNameLosesARecord(a: FileRecord, b: FileRecord, c: FileRecord)
    requires a != b && a.name == b.name && c.name != a.name
    ensures var files, names := [a, b, c], [c.name, a.name, a.name];
            && multiset(names) == multiset(Names(files)) && names != Names(files)
            && (forall n :: n in names ==> n in Names(files))
            && multiset(Picked(files, names)) != multiset(files)
  {
    var files, names := [a, b, c], [c.name, a.name, a.name];
    NamesOfThree(a, b, c);
    HalvesSwapped([a.name, a.name], [c.name]);
    assert names == [c.name] + [a.name, a.name];
    assert names[0] != Names(files)[0];
    assert files[0] == a && files[1] == b;
    assert !OneRecordPerName(files);
    RecordsSurviveExactlyWhen(files, names);
  }

  lemma NamesOfThree(a: FileRecord, b: FileRecord, c: FileRecord)
    ensures Names([a, b, c]) == [a.name, b.name] + [c.name]
  {
  }

  lemma HalvesSwapped(a: seq<string>, b: seq<string>)
    ensures multiset(a + b) == multiset(b + a)
  {
  }

  // ---- The operation ----

  /** What the event names: only the sub-arrays that changed. */
  datatype Reordered = Reordered(folders: Option<seq<string>>, files: Option<seq<string>>)

  predicate Permutes(config: FolderConfig, folders: Option<seq<string>>, files: Option<seq<string>>) {
    && (folders.Some? ==> multiset(folders.value) == multiset(config.folders))
    && (files.Some? ==> multiset(files.value) == multiset(Names(config.files)))
  }

  /** The config after an accepted reordering. */
  function Outcome(config: FolderConfig, folders: Option<seq<string>>, files: Option<seq<string>>, now: int)
    : FolderConfig
    requires Permutes(config, folders, files)
  {
    var sameFolders := folders.GetOr(config.folders) == config.folders;
    var sameFiles := files.GetOr(Names(config.files)) == Names(config.files);
    if sameFolders && sameFiles then config
    else config.(folders := folders.GetOr(config.folders),
                 files := if sameFiles then config.files else PickedSafely(config.files, files.value),
                 modified := now)
  }

  function PickedSafely(files: seq<FileRecord>, names: seq<string>): (r: seq<FileRecord>)
    requires multiset(names) == multiset(Names(files))
    ensures |r| == |names| && forall k :: 0 <= k < |r| ==> Some(r[k]) == RecordNamed(files, names[k])
  {
    assert forall n :: n in names ==> n in multiset(names);
    Picked(files, names)
  }

  /** An accepted reordering keeps every file record exactly when it leaves the
      order of the files as it is, or no two records of one name differ. */
  lemma OutcomeKeepsFilesExactlyWhen(config: FolderConfig, folders: Option<seq<string>>, files: Option<seq<string>>,
                                     now: int)
    requires Permutes(config, folders, files)
    ensures multiset(Outcome(config, folders, files, now).files) == multiset(config.files)
            <==> files.GetOr(Names(config.files)) == Names(config.files) || OneRecordPerName(config.files)
  {
    if files.Some? {
      RecordsSurviveExactlyWhen(config.files, files.value);
      assert PickedSafely(config.files, files.value) == Picked(config.files, files.value);
    }
  }

  /** An accepted reordering has the submitted order and changes nothing else. */
  lemma OutcomeHasSubmittedOrder(config: FolderConfig, folders: Option<seq<string>>, files: Option<seq<string>>,
                                 now: int)
    requires Permutes(config, folders, files)
    ensures var c := Outcome(config, folders, files, now);
            && (folders.Some? ==> c.folders == folders.value) && multiset(c.folders) == multiset(config.folders)
            && (files.Some? ==> Names(c.files) == files.value)
            && (OneRecordPerName(config.files) ==> multiset(c.files) == multiset(config.files))
            && (var same := folders.GetOr(config.folders) == config.folders
                            && files.GetOr(Names(config.files)) == Names(config.files);
                if same then c == config else c.modified == now)
            && (folders.None? ==> c.folders == config.folders) && (files.None? ==> c.files == config.files)
            && c.id == config.id && c.name == config.name && c.created == config.created
            && c.metadata == config.metadata
    ensures var c := Outcome(config, folders, files, now);
            Names(c.files) != Names(config.files) ==>
              forall r :: r in c.files ==> FirstOfItsName(config.files, r)
  {
    OutcomeKeepsFilesExactlyWhen(config, folders, files, now);
    var c := Outcome(config, folders, files, now);
    if Names(c.files) != Names(config.files) {
      forall r | r in c.files ensures FirstOfItsName(config.files, r) {
        var k :| 0 <= k < |c.files| && c.files[k] == r;
        RecordIsFirst(config.files, files.value[k]);
      }
    }
  }

  /** Of the records of one name the first is taken. */
  ghost predicate FirstOfItsName(files: seq<FileRecord>, r: FileRecord) {
    exists j: nat :: j < |files| && files[j] == r && forall i :: 0 <= i < j ==> files[i].name != r.name
  }

  lemma RecordIsFirst(files: seq<FileRecord>, name: string)
    requires RecordNamed(files, name).Some?
    ensures FirstOfItsName(files, RecordNamed(files, name).value)
  {
    var j := FindRecord(files, name);
    assert j < |files|;
  }

  class FolderOrder {
    const readOnly: bool
    var config: Option<FolderConfig>
    var events: seq<Reordered>

    method SetChildrenOrder(folders: Option<seq<string>>, files: Option<seq<string>>, now: int) returns (r: Result<()>)
      modifies this
      ensures readOnly ==> r == Err(ReadOnly) && config == old(config) && events == old(events)
      ensures !readOnly && (folders.Some? || files.Some?) && config.None? ==>
                r == Err(NotFound) && config == old(config) && events == old(events)
      ensures !readOnly && old(config).Some? && !Permutes(old(config).value, folders, files) ==>
                r == Err(PermutationMismatch) && config == old(config) && events == old(events)
      ensures !readOnly && old(config).Some? && Permutes(old(config).value, folders, files) ==>
                var before := old(config).value;
                var c := Outcome(before, folders, files, now);
                var sameFolders := folders.GetOr(before.folders) == before.folders;
                var sameFiles := files.GetOr(Names(before.files)) == Names(before.files);
                && config == Some(c)
                && (sameFolders && sameFiles ==> r == Ok(()))
                && (r.Ok? || r == Err(IoError))
                && events == if (sameFolders && sameFiles) || r.Err? then old(events)
                             else
                               old(events)
                               + [Reordered(if sameFolders then None else folders, if sameFiles then None else files)]
    {
      if readOnly { return Err(ReadOnly); }
      if folders.None? && files.None? { return Ok(()); }
      if config.None? { return Err(NotFound); }
      var c := config.value;
      var permutes := true;
      if folders.Some? { permutes := IsPermutation(c.folders, folders.value); }
      if !permutes { return Err(PermutationMismatch); }
      if files.Some? { permutes := IsPermutation(Names(c.files), files.value); }
      if !permutes { return Err(PermutationMismatch); }
      var sameFolders := folders.Some? ==> folders.value == c.folders;
      var sameFiles := files.Some? ==> files.value == Names(c.files);
      if sameFolders && sameFiles { return Ok(()); }
      if !sameFolders { c := c.(folders := folders.value); }
      if !sameFiles {
        var picked := PickRecords(c.files, files.value);
        c := c.(files := picked);
      }
      c := c.(modified := now);
      config := Some(c);
      var saved: bool := *;
      if !saved { return Err(IoError); }
      events := events + [Reordered(if sameFolders then None else folders, if sameFiles then None else files)];
      r := Ok(());
    }
  }

  method IsPermutation(current: seq<string>, submitted: seq<string>) returns (ok: bool)
    ensures ok <==> multiset(submitted) == multiset(current)
  {
    SortsAgreeExactlyOnPermutations(current, submitted);
    assert |multiset(current)| == |current| && |multiset(submitted)| == |submitted|;
    if |current| != |submitted| { return false; }
    ok := Sort(current) == Sort(submitted);
  }

  method PickRecords(files: seq<FileRecord>, names: seq<string>) returns (picked: seq<FileRecord>)
    requires multiset(names) == multiset(Names(files))
    ensures picked == PickedSafely(files, names)
  {
    picked := [];
    for i := 0 to |names|
      invariant picked == PickedSafely(files, names)[..i]
    {
      assert names[i] in multiset(names);
      picked := picked + [RecordNamed(files, names[i]).value];
    }
  }
}
