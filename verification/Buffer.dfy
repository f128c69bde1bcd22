/** An editor buffer over a file: detecting external changes, and the backup file
    (src/core/buffer.cpp). A byte is a char, a byte string a string. */
module Buffer {
  import opened Records
  import opened Text

  type Bytes = string

  // ---- Line endings ----

  /** CRLF and lone CR become LF. */
  function Normalized(s: Bytes): Bytes {
    if s == "" then ""
    else if s[0] != '\r' then [s[0]] + Normalized(s[1..])
    else if |s| > 1 && s[1] == '\n' then "\n" + Normalized(s[2..])
    else "\n" + Normalized(s[1..])
  }

  method NormalizeEol(data: Bytes) returns (out: Bytes)
    ensures out == Normalized(data)
  {
    out := "";
    var i := 0;
    while i < |data|
      invariant 0 <= i <= |data| && out + Normalized(data[i..]) == Normalized(data)
    {
      assert data[i..][1..] == data[i + 1..];
      var c := data[i];
      if c == '\r' {
        assert i + 1 < |data| ==> data[i..][2..] == data[i + 2..];
        Assoc(out, "\n", Normalized(data[if i + 1 < |data| && data[i + 1] == '\n' then i + 2 else i + 1..]));
        out := out + "\n";
        if i + 1 < |data| && data[i + 1] == '\n' { i := i + 1; }
      } else {
        Assoc(out, [c], Normalized(data[i + 1..]));
        out := out + [c];
      }
      i := i + 1;
    }
  }

  /** The lines of a text, whatever ends them. */
  function Lines(s: Bytes): (r: seq<Bytes>)
    ensures |r| > 0
  {
    if s == "" then [""]
    else if s[0] == '\n' then [""] + Lines(s[1..])
    else if s[0] == '\r' then [""] + Lines(if |s| > 1 && s[1] == '\n' then s[2..] else s[1..])
    else
      var rest := Lines(s[1..]);
      [[s[0]] + rest[0]] + rest[1..]
  }

  lemma {:induction false} LinesOfNormalized(s: Bytes)
    ensures Lines(Normalized(s)) == Lines(s)
  {
    if s != "" {
      var tail := if s[0] == '\r' && |s| > 1 && s[1] == '\n' then s[2..] else s[1..];
      LinesOfNormalized(tail);
      assert Normalized(s)[1..] == Normalized(tail);
    }
  }

  lemma {:induction false} NormalizedIsJoined(s: Bytes)
    ensures Normalized(s) == Join(Lines(s), "\n")
  {
    if s != "" {
      var tail := if s[0] == '\r' && |s| > 1 && s[1] == '\n' then s[2..] else s[1..];
      NormalizedIsJoined(tail);
      if s[0] == '\n' || s[0] == '\r' {
        JoinFirst("", Lines(tail), "\n");
      } else {
        JoinLonger(s[0], Lines(tail));
      }
    }
  }

  lemma JoinLonger(c: char, lines: seq<Bytes>)
    requires |lines| > 0
    ensures Join([[c] + lines[0]] + lines[1..], "\n") == [c] + Join(lines, "\n")
  {
    if |lines| > 1 {
      JoinFirst([c] + lines[0], lines[1..], "\n");
      Assoc([c], lines[0], "\n" + Join(lines[1..], "\n"));
    }
  }

  /** Equal up to line endings means equal line by line. */
  lemma SameLinesExactlyWhenNormalizedEqual(a: Bytes, b: Bytes)
    ensures Normalized(a) == Normalized(b) <==> Lines(a) == Lines(b)
  {
    LinesOfNormalized(a);
    LinesOfNormalized(b);
    NormalizedIsJoined(a);
    NormalizedIsJoined(b);
  }

  // ---- Detecting external changes ----

  datatype Status = Normal | FileMissing | FileChanged | SaveFailed

  datatype OnDisk = OnDisk(bytes: Bytes, mtime: int)

  datatype Buf = Buf(content: Bytes, status: Status, stamp: int, loaded: bool, modified: bool, revision: int)

  function Unflagged(s: Status): Status { if s == FileChanged || s == FileMissing then Normal else s }

  /** One check against the file as it is on disk. */
  function Checked(b: Buf, file: Option<OnDisk>): Buf {
    if !b.loaded && b.stamp == 0 then b
    else
      match file
      case None => b.(status := FileMissing)
      case Some(f) =>
        if f.mtime == b.stamp then b.(status := Unflagged(b.status))
        else if Normalized(f.bytes) == Normalized(b.content) then b.(stamp := f.mtime, status := Unflagged(b.status))
        else b.(status := FileChanged)
  }

  /** What the disk holds is told by the modification time. */
  ghost predicate Dated(bytesAt: int -> Bytes, file: Option<OnDisk>) {
    file.Some? ==> file.value.bytes == bytesAt(file.value.mtime)
  }

  /** The buffer holds, up to line endings, what the file held at its stamp. */
  ghost predicate InStep(b: Buf, bytesAt: int -> Bytes) {
    b.loaded && Lines(b.content) == Lines(bytesAt(b.stamp))
  }

  /** After the check the flags are right. */
  ghost predicate FlagsAreRight(b: Buf, file: Option<OnDisk>) {
    && (b.status == FileMissing <==> file.None?)
    && (b.status == FileChanged <==> file.Some? && Lines(file.value.bytes) != Lines(b.content))
  }

  lemma CheckIsRight(b: Buf, bytesAt: int -> Bytes, file: Option<OnDisk>)
    requires InStep(b, bytesAt) && Dated(bytesAt, file)
    ensures FlagsAreRight(Checked(b, file), file) && InStep(Checked(b, file), bytesAt)
    ensures Checked(b, file).content == b.content
  {
    if file.Some? { SameLinesExactlyWhenNormalizedEqual(file.value.bytes, b.content); }
  }

  /** What one check does, case by case: a buffer that was never loaded is left
      alone, only status and stamp can change, a failed save stays flagged unless
      the file is missing or changed, and the stamp follows a file of the same
      lines. */
  ghost predicate CheckDoes(b: Buf, file: Option<OnDisk>, c: Buf) {
    if !b.loaded && b.stamp == 0 then c == b
    else
      && c.content == b.content && c.loaded == b.loaded && c.modified == b.modified && c.revision == b.revision
      && match file
         case None => c.status == FileMissing && c.stamp == b.stamp
         case Some(f) =>
           if f.mtime != b.stamp && Lines(f.bytes) != Lines(b.content) then
             c.status == FileChanged && c.stamp == b.stamp
           else
             && c.stamp == f.mtime
             && (b.status in {Normal, SaveFailed} ==> c.status == b.status)
             && (b.status in {FileMissing, FileChanged} ==> c.status == Normal)
  }

  lemma CheckedDoes(b: Buf, file: Option<OnDisk>)
    ensures CheckDoes(b, file, Checked(b, file))
  {
    if file.Some? { SameLinesExactlyWhenNormalizedEqual(file.value.bytes, b.content); }
  }

  function CheckedAll(b: Buf, files: seq<Option<OnDisk>>): Buf {
    if files == [] then b else Checked(CheckedAll(b, files[..|files| - 1]), files[|files| - 1])
  }

  /** Over any run of disk changes and checks, where the bytes change only with
      the modification time, every check flags exactly what is so. */
  lemma {:induction false} FlagsAreRightAfterEveryCheck(b: Buf, bytesAt: int -> Bytes, files: seq<Option<OnDisk>>)
    requires InStep(b, bytesAt) && forall f :: f in files ==> Dated(bytesAt, f)
    ensures InStep(CheckedAll(b, files), bytesAt) && CheckedAll(b, files).content == b.content
    ensures files != [] ==> FlagsAreRight(CheckedAll(b, files), files[|files| - 1])
    decreases |files|
  {
    if files != [] {
      FlagsAreRightAfterEveryCheck(b, bytesAt, files[..|files| - 1]);
      CheckIsRight(CheckedAll(b, files[..|files| - 1]), bytesAt, files[|files| - 1]);
    }
  }

  /** For any buffer that checks at all: a check flags what is so exactly when
      the file is gone, or its time stamp is another, or it holds the buffer's
      lines. A change that keeps the time stamp goes unnoticed. */
  lemma CheckIsRightExactlyWhen(b: Buf, file: Option<OnDisk>)
    requires b.loaded || b.stamp != 0
    ensures FlagsAreRight(Checked(b, file), file) <==>
            file.None? || file.value.mtime != b.stamp || Lines(file.value.bytes) == Lines(b.content)
  {
    if file.Some? { SameLinesExactlyWhenNormalizedEqual(file.value.bytes, b.content); }
  }

  // ---- The backup file ----

  function BackupHeader(path: string): Bytes { "vnotex_backup_file " + path + "|" }

  /** What recovery reads out of a backup file: everything behind the first '|'. */
  function Recovered(backup: Bytes): Option<Bytes> {
    var i := FindChar(backup, '|', 0);
    if i == -1 then None else Some(backup[i + 1..])
  }

  /** A backup gives the content back exactly when the path has no '|'. */
  lemma BackupRoundTripExactlyWhen(path: string, content: Bytes)
    ensures Recovered(BackupHeader(path) + content) == Some(content) <==> '|' !in path
  {
    var head, backup := "vnotex_backup_file " + path, BackupHeader(path) + content;
    var i := FindChar(backup, '|', 0);
    FindCharIsFirst(backup, '|', 0);
    assert backup[|head|] == '|';
    forall k | 0 <= k < |head| ensures backup[k] == head[k] { }
    if '|' !in path {
      assert '|' !in "vnotex_backup_file ";
      assert forall k :: 0 <= k < |head| ==> head[k] != '|';
      assert i == |head|;
      assert backup[i + 1..] == content;
    } else {
      var k :| 0 <= k < |path| && path[k] == '|';
      assert head[|"vnotex_backup_file "| + k] == '|';
      assert i < |head|;
      assert |backup[i + 1..]| > |content|;
    }
  }

  class Buffer {
    const isVirtual: bool
    const path: string
    const backupPath: string
    var buf: Buf
    var files: map<string, OnDisk>

    /** The file at `path` as it is now. */
    function File(): Option<OnDisk> reads this {
      if path in files then Some(files[path]) else None
    }

    method LoadContent() returns (read: bool)
      modifies this`buf
      ensures isVirtual ==> buf == old(buf)
      ensures !isVirtual && path in files && read ==>
                buf == Buf(files[path].bytes, Normal, files[path].mtime, true, false, old(buf).revision + 1)
      ensures !isVirtual && path !in files ==> buf == old(buf).(status := FileMissing)
      ensures !isVirtual && path in files && !read ==>
                buf.status == FileMissing && buf.stamp == old(buf).stamp && buf.loaded == old(buf).loaded
      ensures forall bytesAt :: !isVirtual && read && Dated(bytesAt, File()) ==> InStep(buf, bytesAt)
    {
      read := false;
      if isVirtual { return; }
      if path !in files {
        buf := buf.(status := FileMissing);
        return;
      }
      var canOpen, readWhole: bool := *, *;
      if !canOpen {
        buf := buf.(status := FileMissing);
        return;
      }
      if !readWhole {
        buf := buf.(status := FileMissing, content := "");
        return;
      }
      read := true;
      buf := Buf(files[path].bytes, Normal, files[path].mtime, true, false, buf.revision + 1);
    }

    /** A save that fails on the way may leave anything in the file. */
    method SaveContent(now: int)
      modifies this`buf, this`files
      ensures isVirtual ==> buf == old(buf) && files == old(files)
      ensures !isVirtual ==> buf == old(buf).(status := buf.status, stamp := buf.stamp, modified := buf.modified,
              revision := buf.revision)
      ensures !isVirtual && buf.status != SaveFailed ==>
                files == old(files)[path := OnDisk(buf.content, now)] && buf.status == Normal && !buf.modified
                && buf.stamp == now && buf.revision == old(buf).revision + 1
      ensures !isVirtual && buf.status == SaveFailed ==>
                && buf == old(buf).(status := SaveFailed)
                && forall p :: p != path ==>
                     (p in files <==> p in old(files)) && (p in files ==> files[p] == old(files)[p])
    {
      if isVirtual { return; }
      var canOpen, wrote: bool := *, *;
      var remains: OnDisk := *;
      if !canOpen {
        buf := buf.(status := SaveFailed);
        return;
      }
      if !wrote {
        files := files[path := remains];
        buf := buf.(status := SaveFailed);
        return;
      }
      files := files[path := OnDisk(buf.content, now)];
      buf := buf.(status := Normal, modified := false, stamp := now, revision := buf.revision + 1);
    }

    method SetContent(data: Bytes)
      modifies this`buf
      ensures buf == old(buf).(content := data, modified := true, loaded := true, revision := old(buf).revision + 1)
    {
      buf := buf.(content := data, modified := true, loaded := true, revision := buf.revision + 1);
    }

    method CheckExternalChanges()
      modifies this`buf
      ensures buf == if isVirtual then old(buf) else Checked(old(buf), File())
      ensures if isVirtual then buf == old(buf) else CheckDoes(old(buf), File(), buf)
    {
      CheckedDoes(buf, File());
      if isVirtual { return; }
      if !buf.loaded && buf.stamp == 0 { return; }
      if path !in files {
        if buf.status != FileMissing { buf := buf.(status := FileMissing); }
        return;
      }
      var mtime := files[path].mtime;
      if mtime == buf.stamp {
        if buf.status == FileChanged || buf.status == FileMissing { buf := buf.(status := Normal); }
        return;
      }
      var matches := FileContentMatchesBuffer();
      if matches {
        buf := buf.(stamp := mtime);
        if buf.status == FileChanged || buf.status == FileMissing { buf := buf.(status := Normal); }
        return;
      }
      buf := buf.(status := FileChanged);
    }

    /** The bytes can be read. */
    method FileContentMatchesBuffer() returns (same: bool)
      requires path in files
      ensures same <==> Normalized(files[path].bytes) == Normalized(buf.content)
    {
      var disk := files[path].bytes;
      if |disk| == |buf.content| && disk == buf.content { return true; }
      var a := NormalizeEol(disk);
      var b := NormalizeEol(buf.content);
      same := a == b;
    }

    method WriteBackup(now: int) returns (r: Result<()>)
      modifies this`files
      ensures isVirtual ==> r == Ok(()) && files == old(files)
      ensures !isVirtual && !buf.loaded ==> r == Err(InvalidState) && files == old(files)
      ensures !isVirtual && r.Ok? ==>
                files == old(files)[backupPath := OnDisk("vnotex_backup_file " + path + "|" + buf.content, now)]
    {
      if isVirtual { return Ok(()); }
      if !buf.loaded { return Err(InvalidState); }
      var wrote: bool := *;
      var remains: OnDisk := *;
      if !wrote {
        files := files[backupPath := remains];
        return Err(IoError);
      }
      files := files[backupPath := OnDisk(BackupHeader(path) + buf.content, now)];
      r := Ok(());
    }

    /** On success the backed-up content is in the buffer and in the file, and the
        backup is gone; without a separator nothing is touched. */
    method RecoverBackup(now: int) returns (r: Result<()>)
      requires backupPath != path
      modifies this`buf, this`files
      ensures isVirtual ==> r == Ok(()) && buf == old(buf) && files == old(files)
      ensures !isVirtual && backupPath !in old(files) ==> r == Err(NotFound) && buf == old(buf) && files == old(files)
      ensures !isVirtual && r.Ok? ==>
                && backupPath in old(files) && Recovered(old(files)[backupPath].bytes) == Some(buf.content)
                && files == old(files)[path := OnDisk(buf.content, now)] - {backupPath}
                && buf == Buf(buf.content, Normal, now, true, false, old(buf).revision + 2)
      ensures !isVirtual && backupPath in old(files) && Recovered(old(files)[backupPath].bytes).None? ==>
                r == Err(IoError) && buf == old(buf) && files == old(files)
      ensures r.Err? && backupPath in old(files) ==> backupPath in files && files[backupPath] == old(files)[backupPath]
    {
      if isVirtual { return Ok(()); }
      if backupPath !in files { return Err(NotFound); }
      var backup := files[backupPath].bytes;
      var readable, removed: bool := *, *;
      if !readable { return Err(IoError); }
      var separator := FindChar(backup, '|', 0);
      if separator == -1 { return Err(IoError); }
      buf := buf.(content := backup[separator + 1..], loaded := true, modified := true, revision := buf.revision + 1);
      SaveContent(now);
      if buf.status == SaveFailed { return Err(IoError); }
      if !removed { return Err(IoError); }
      files := files - {backupPath};
      r := Ok(());
    }
  }
}
