/** The SIM core seen from the file system: an arbitrary client that works on one file at a time. */
module SimCore {
  import opened Bytes
  import opened PlainFs
  import opened Steps
  import opened FileSystems

  datatype Op =
    | OpenFile(path: bytes)
    | ReadData(size: nat, count: nat)
    | ReadLine(n: nat)
    | WriteData(data: bytes, size: nat, count: nat)
    | PutData(c: int)
    | Seek(offset: int, whence: int)
    | CloseFile
    | AskSize(path: bytes)
    | RemoveFile(path: bytes)

  /** Since n events some write or seek has been out of range. */
  ghost predicate Strayed(base: Plain, h: seq<Event>, n: nat) {
    LegalRun(base, h) && exists j :: n <= j < |h| && !InRangeAt(base, h, j)
  }

  /** After n events no file was open. */
  ghost predicate WasClosed(base: Plain, h: seq<Event>, n: nat) {
    LegalRun(base, h) && n <= |h| && At(base, h, n).open.None?
  }

  lemma {:induction false} SamePast(base: Plain, h: seq<Event>, more: seq<Event>, n: nat)
    requires h <= more && LegalRun(base, more) && n <= |h|
    ensures LegalRun(base, h) && At(base, more, n) == At(base, h, n)
  {
    PrefixLegal(base, more, |h|);
    assert more[..|h|] == h && more[..n] == h[..n];
  }

  lemma StrayedStays(base: Plain, h: seq<Event>, more: seq<Event>, n: nat)
    requires h <= more && LegalRun(base, more)
    ensures Strayed(base, h, n) ==> Strayed(base, more, n)
    ensures WasClosed(base, h, n) ==> WasClosed(base, more, n)
  {
    hide Run, InRange, Legal;
    if WasClosed(base, h, n) {
      SamePast(base, h, more, n);
    }
    if Strayed(base, h, n) {
      var j :| n <= j < |h| && !InRangeAt(base, h, j);
      SamePast(base, h, more, j);
      assert !InRangeAt(base, more, j);
    }
  }

  lemma ClosedNow(base: Plain, h: seq<Event>, s: State)
    requires Tracks(base, h, s) && s.current < 0
    ensures WasClosed(base, h, |h|)
  {
    NoOpenFile(base, h, s);
    assert h[..|h|] == h;
  }

  /** A client whose writes and seeks have been in range since it had no file open may always read. */
  lemma ReadAllowed(base: Plain, h: seq<Event>, s: State, n: nat)
    requires Tracks(base, h, s) && s.current >= 0 && WasClosed(base, h, n) && !Strayed(base, h, n)
    ensures Good(s) && s.slots[s.current].pos <= s.slots[s.current].len
  {
    hide Run, InRange, Legal;
    TracksGood(base, h, s);
    CurrentFacts(base.boot, s);
    CursorRun(base, h, n, |h|);
    assert h[..|h|] == h;
    assert CursorInside(At(base, h, |h|));
  }

  /** Any sequence of file operations. A call the core must not make, because it has no file open,
      has one open already, removes the one open or would leave the 16-bit range, is not made; a file
      left open is closed. `skipped` counts the reads not made because the cursor was past the end:
      none, if the script's writes and seeks stay in range. */
  method RunCore(fs: FileSystem, script: seq<Op>) returns (skipped: nat)
    requires fs.Valid() && fs.current < 0
    modifies fs, fs.slots, fs.nvs, fs.heap
    ensures fs.Valid() && fs.current < 0
    ensures script == [] ==> fs.history == old(fs.history)
    ensures old(fs.history) <= fs.history && fs.initialized == old(fs.initialized)
    ensures fs.nvs.refused >= old(fs.nvs.refused)
    ensures fs.nvs.faults >= old(fs.nvs.faults) && fs.heap.failures >= old(fs.heap.failures)
    ensures skipped > 0 ==> Strayed(fs.base, fs.history, |old(fs.history)|)
  {
    hide Good, Tracks, Blocks, Legal, Apply, Strayed, WasClosed;
    var fp := NO_FILE;
    skipped := 0;
    NoFile(fs);
    ghost var n := |fs.history|;
    ClosedNow(fs.base, fs.history, fs.St());
    for i := 0 to |script|
      invariant fs.Valid() && fp == fs.current
      invariant i == 0 ==> fp < 0 && fs.history == old(fs.history)
      invariant old(fs.history) <= fs.history && fs.initialized == old(fs.initialized)
      invariant fs.nvs.refused >= old(fs.nvs.refused)
      invariant fs.nvs.faults >= old(fs.nvs.faults) && fs.heap.failures >= old(fs.heap.failures)
      invariant WasClosed(fs.base, fs.history, n) && (skipped > 0 ==> Strayed(fs.base, fs.history, n))
    {
      ghost var before := fs.history;
      var skip;
      fp, skip := Do(fs, fp, script[i], n);
      skipped := skipped + if skip then 1 else 0;
      TracksGood(fs.base, fs.history, fs.St());
      StrayedStays(fs.base, before, fs.history, n);
    }
    if fp >= 0 {
      HasFile(fs);
      ghost var before := fs.history;
      var rc := fs.Fclose(fp);
      TracksGood(fs.base, fs.history, fs.St());
      StrayedStays(fs.base, before, fs.history, n);
    }
  }

  lemma HasFile(fs: FileSystem)
    requires fs.Valid() && fs.current >= 0
    ensures fs.current < fs.slots.Length && fs.slots[fs.current].Loaded?
  {
  }

  lemma OpenHash(fs: FileSystem)
    requires fs.Valid() && fs.current >= 0
    ensures fs.current < fs.slots.Length && fs.slots[fs.current].Loaded? && fs.slots[fs.current].dirIdx < |fs.dir|
    ensures fs.Abs().open.Some? && fs.Abs().open.value.hash == fs.dir[fs.slots[fs.current].dirIdx].hash
  {
  }

  lemma NoFile(fs: FileSystem)
    requires fs.Valid()
    ensures NO_FILE <= fs.current < |fs.slots[..]|
  {
  }

  /** One operation; the handle that is open afterwards. */
  method Do(fs: FileSystem, fp: int, op: Op, ghost n: nat) returns (open: int, skipped: bool)
    requires fs.Valid() && fp == fs.current && WasClosed(fs.base, fs.history, n)
    modifies fs, fs.slots, fs.nvs, fs.heap
    ensures fs.Valid() && open == fs.current
    ensures skipped ==> Strayed(fs.base, fs.history, n)
    ensures old(fs.history) <= fs.history && fs.initialized == old(fs.initialized)
    ensures fs.nvs.refused >= old(fs.nvs.refused)
    ensures fs.nvs.faults >= old(fs.nvs.faults) && fs.heap.failures >= old(fs.heap.failures)
  {
    hide Good, Tracks, Blocks, Legal, Apply, Strayed, WasClosed;
    open, skipped := fp, false;
    if op.OpenFile? {
      if fp < 0 {
        open := fs.Fopen(op.path);
      }
    } else if op.CloseFile? {
      if fp >= 0 {
        HasFile(fs);
        var rc := fs.Fclose(fp);
        open := NO_FILE;
      }
    } else if op.AskSize? {
      var n := fs.FileSize(op.path);
    } else if op.RemoveFile? {
      if fp >= 0 {
        OpenHash(fs);
      }
      if fp < 0 || fs.dir[fs.slots[fp].dirIdx].hash != Hashed(op.path) {
        var rc := fs.Remove(op.path);
      }
    } else if fp >= 0 {
      skipped := Work(fs, fp, op, n);
    }
  }

  /** An operation on the open file. */
  method Work(fs: FileSystem, fp: nat, op: Op, ghost n: nat) returns (skipped: bool)
    requires fs.Valid() && fp == fs.current && WasClosed(fs.base, fs.history, n)
    requires op.ReadData? || op.ReadLine? || op.WriteData? || op.PutData? || op.Seek?
    modifies fs, fs.slots, fs.heap
    ensures fs.Valid() && fp == fs.current
    ensures old(fs.history) <= fs.history
    ensures fs.initialized == old(fs.initialized) && fs.heap.failures >= old(fs.heap.failures)
    ensures skipped ==> Strayed(fs.base, fs.history, n)
  {
    hide Good, Tracks, Blocks, Legal, Apply, Strayed, WasClosed;
    skipped := false;
    TracksGood(fs.base, fs.history, fs.St());
    CurrentLoaded(fs.St());
    var s := fs.slots[fp];
    match op
    case ReadData(size, count) =>
      if s.pos <= s.len {
        var m, data := fs.Fread(size, count, fp);
      } else {
        if !Strayed(fs.base, fs.history, n) {
          ReadAllowed(fs.base, fs.history, fs.St(), n);
        }
        skipped := true;
      }
    case ReadLine(n) =>
      if n > 0 {
        var line := fs.Fgets(n, fp);
      }
    case WriteData(data, size, count) =>
      if |data| == size * count && s.pos + |data| <= U16_MAX && (size > 0 || s.pos < s.size) {
        var m := fs.Fwrite(data, size, count, fp);
      }
    case PutData(c) =>
      if s.pos < s.size || s.pos < s.size + 20 <= U16_MAX {
        var rc := fs.Fputc(c, fp);
      }
    case Seek(offset, whence) =>
      var rc := fs.Fseek(fp, offset, whence);
  }
}
