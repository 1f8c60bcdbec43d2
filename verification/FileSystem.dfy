/** lib/ss_fs.c: a write-back cache of ten buffered files over NVS. */
module FileSystems {
  import opened Bytes
  import opened DirTable
  import opened SlotTable
  import opened PlainFs
  import opened Cache
  import opened Steps
  import opened Platform
  import Fnv

  /** The hash a C string path is looked up by. */
  function Hashed(path: bytes): u32 {
    Fnv.Hash(CString(path))
  }

  /** memcmp() as the byte difference at the first mismatch. */
  method Memcmp(a: bytes, b: bytes) returns (v: int)
    requires |a| == |b|
    ensures -255 <= v <= 255
    ensures v == 0 <==> a == b
  {
    for i := 0 to |a|
      invariant a[..i] == b[..i]
    {
      if a[i] != b[i] {
        return (a[i] as int) - b[i];
      }
    }
    return 0;
  }

  lemma AllElementsFit(left: nat, size: nat, count: nat)
    requires left >= size * count && (size > 0 || left > 0)
    ensures left <= size * count ==> size > 0 && left / size == count
  {
    if left == size * count && size > 0 {
      assert left == count * size + 0;
    }
  }

  /** The buffer holds something else at the cursor: only then is a write worth a flash write. */
  predicate Differs(s: Slot, data: bytes) {
    s.Loaded? && s.pos + |data| <= |s.buf| && s.buf[s.pos..s.pos + |data|] != data
  }

  lemma DiffersSomewhere(s: Slot, data: bytes)
    requires s.Loaded? && s.pos + |data| <= |s.buf|
    ensures Differs(s, data) <==> exists i :: 0 <= i < |data| && s.buf[s.pos + i] != data[i]
  {
    if forall i :: 0 <= i < |data| ==> s.buf[s.pos + i] == data[i] {
      assert s.buf[s.pos..s.pos + |data|] == data;
    } else {
      var i :| 0 <= i < |data| && s.buf[s.pos + i] != data[i];
      assert s.buf[s.pos..s.pos + |data|][i] != data[i];
    }
  }

  function Larger(a: int, b: int): (m: int)
    ensures m >= a && m >= b && (m == a || m == b)
  {
    if a < b then b else a
  }

  /** NUL or newline. */
  predicate EndsLine(b: byte) {
    b == 0 || b == 0x0A
  }

  lemma OneByOne(len: nat, pos: nat, count: nat)
    requires pos + count <= len
    ensures Elements(len, pos, 1, count) == count
  {
  }

  /** What is kept of a victim's buffer: all of it, zeroed, if it is large enough. */
  function Reusable(victim: Slot, len: nat): Option<bytes> {
    if victim.Free? || victim.size < len then None else Some(Zeros(victim.size))
  }

  /** A slot a record has just been loaded into, in the victim's buffer if that is large enough. */
  function Fresh(record: bytes, dirIdx: nat, victim: Slot): Slot
    requires |record| <= U16_MAX
  {
    var size := if victim.Free? || victim.size < |record| then |record| else victim.size;
    Loaded(record + Zeros(size - |record|), dirIdx, 0, |record|, size, false)
  }

  lemma FreshIs(record: bytes, dirIdx: nat, victim: Slot, kept: Option<bytes>)
    requires |record| <= U16_MAX && kept == Reusable(victim, |record|)
    ensures var size := if kept.Some? then |kept.value| else |record|;
            && size >= |record| && (kept.Some? ==> kept.value == Zeros(|kept.value|))
            && Fresh(record, dirIdx, victim)
               == Loaded(record + Zeros(size - |record|), dirIdx, 0, |record|, size, false)
  {
  }

  /** Freeing a slot, with or without a commit of what it held, leaves the record of a file that is
      not buffered. */
  lemma RecordKept(s: State, t: State, idx: nat, dirIdx: nat)
    requires Good(s) && Good(t) && t.dir == s.dir && t.view == s.view
    requires idx < |s.slots| && (t.slots == s.slots || t.slots == s.slots[idx := Free])
    requires dirIdx < |s.dir| && Unbuffered(s.slots, dirIdx)
    ensures Unbuffered(t.slots, dirIdx) && SameRecord(s.records, t.records, s.dir[dirIdx].key)
    ensures s.dir[dirIdx].key in s.records ==> |s.records[s.dir[dirIdx].key]| <= U16_MAX
  {
    hide Good;
    assert Unbuffered(t.slots, dirIdx);
    EntryFacts(s, dirIdx);
    EntryFacts(t, dirIdx);
  }

  /** A cache miss on entry idx takes the slot the victim preference names and changes no other. */
  ghost predicate LoadedBy(dir: seq<Entry>, before: seq<Slot>, records: map<u16, bytes>, idx: nat, fp: nat,
                           after: seq<Slot>)
  {
    && idx < |dir| && dir[idx].key in records && |records[dir[idx].key]| <= U16_MAX && fp < |before|
    && Indexed(dir, before) && IsChoice(dir, before, |records[dir[idx].key]|, fp)
    && after == before[fp := Fresh(records[dir[idx].key], idx, before[fp])]
  }

  /** The loaded slot: the record and behind it only zeros, the cursor at its start, nothing unsaved, in
      the old buffer if the record fits it, else in one of its own length. No other slot changes. */
  lemma LoadedSpelledOut(dir: seq<Entry>, before: seq<Slot>, records: map<u16, bytes>, idx: nat, fp: nat,
                         after: seq<Slot>)
    requires LoadedBy(dir, before, records, idx, fp, after)
    ensures |after| == |before| && forall j :: 0 <= j < |before| && j != fp ==> after[j] == before[j]
    ensures var (record, t) := (records[dir[idx].key], after[fp]);
            && t.Loaded? && t.dirIdx == idx && t.pos == 0 && !t.dirty && t.len == |record| && |t.buf| == t.size
            && t.size == (if before[fp].Loaded? && before[fp].size >= |record| then before[fp].size else |record|)
            && (forall i :: 0 <= i < t.size ==> t.buf[i] == if i < |record| then record[i] else 0)
  {
    hide IsChoice;
  }

  ghost predicate OpenedBy(dir: seq<Entry>, before: seq<Slot>, records: map<u16, bytes>, idx: nat, fp: nat,
                           after: seq<Slot>)
  {
    if Unbuffered(before, idx) then LoadedBy(dir, before, records, idx, fp, after)
    else fp < |before| && before[fp].Loaded? && before[fp].dirIdx == idx && after == before[fp := before[fp].(pos := 0)]
  }

  /** Entry idx and its buffer are gone, the last entry is in its place, nothing else has changed. */
  ghost predicate RemovedFrom(dir: seq<Entry>, slots: seq<Slot>, idx: nat, newDir: seq<Entry>, newSlots: seq<Slot>)
    requires idx < |dir|
  {
    newDir == Compact(dir, idx) && Renumbered(slots, newSlots, idx, |dir| - 1)
  }

  lemma RemovedSpelledOut(dir: seq<Entry>, slots: seq<Slot>, idx: nat, newDir: seq<Entry>, newSlots: seq<Slot>)
    requires idx < |dir| && RemovedFrom(dir, slots, idx, newDir, newSlots)
    ensures |newDir| == |dir| - 1 && |newSlots| == |slots|
    ensures forall i :: 0 <= i < |newDir| ==> newDir[i] == if i == idx then dir[|dir| - 1] else dir[i]
    ensures forall i :: 0 <= i < |slots| ==>
              newSlots[i] == if slots[i].Free? || slots[i].dirIdx == idx then Free
                             else if slots[i].dirIdx == |dir| - 1 then slots[i].(dirIdx := idx)
                             else slots[i]
  {
  }

  /** One more open: the hit count of the path goes up by one, to 255 at most, and nothing else. */
  lemma CountedSpelledOut(dir: seq<Entry>, idx: nat)
    requires DistinctHashes(dir) && idx < |dir|
    ensures |Counted(dir, idx)| == |dir|
    ensures forall i :: 0 <= i < |dir| ==>
              var (e, d) := (dir[i], Counted(dir, idx)[i]);
              && d.hash == e.hash && d.key == e.key && d.flags == e.flags
              && d.hits == (if e.hash == dir[idx].hash && e.hits < 255 then e.hits + 1 else e.hits)
  {
  }

  /** A directory after one more open of entry idx; the count saturates. */
  function Counted(dir: seq<Entry>, idx: nat): seq<Entry>
    requires idx < |dir|
  {
    dir[idx := dir[idx].(hits := if dir[idx].hits < 0xFF then dir[idx].hits + 1 else 0xFF)]
  }

  /** FS_COMMIT_ON_CLOSE without FS_READ_ONLY. The flag byte has no room for the latter. */
  predicate CommitsOnClose(flags: byte): (r: bool)
    ensures r <==> flags >= 0x80
  {
    flags / 0x100 % 2 == 0 && flags / 0x80 % 2 == 1
  }

  class FileSystem {
    const nvs: Nvs
    const heap: Heap
    /** fs_slots */
    const slots: array<Slot>
    /** fs_dir and fs_dir_count */
    var dir: seq<Entry>
    /** fs_is_initialized */
    var initialized: bool

    /** The contents every file shows, by NVS key. */
    ghost var view: map<u16, bytes>
    /** The slot handed out by the last successful open and not closed since, or NO_FILE: there is
        never more than one such. */
    ghost var current: int
    /** Everything observable that has happened to this flash since it was in state `base`. */
    ghost const base: Plain
    ghost var history: seq<Event>

    ghost function St(): State
      reads this, slots, nvs
    {
      State(nvs.records, nvs.journal, dir, slots[..], initialized, view, current)
    }

    ghost predicate Valid()
      reads this, slots, nvs, heap
    {
      && slots.Length == MAX_ENTRIES
      && Tracks(base, history, St())
      && heap.live == Blocks(St())
    }

    /** The plain file system this one stands for. */
    ghost function Abs(): Plain
      requires Valid()
      reads this, slots, nvs, heap
    {
      AbsOf(base.boot, St())
    }

    /** Power-on over a flash whose past is known: RAM starts empty. */
    constructor (nvs: Nvs, ghost base: Plain, ghost past: seq<Event>)
      requires BaseOk(base) && LegalRun(base, past) && Run(base, past).value.durable == nvs.records
      requires FlashStates(base, past) == nvs.journal
      ensures Valid() && fresh(slots) && fresh(heap) && this.nvs == nvs && this.base == base
      ensures history == past + [Crashed] && !initialized && current == NO_FILE
      ensures slots.Length == 10 && heap.live == 0
    {
      hide Good, Tracks, Blocks, BaseOk, Run, FlashStates;
      this.nvs, this.base := nvs, base;
      heap := new Heap();
      slots := new Slot[MAX_ENTRIES](_ => Free);
      dir, initialized := [], false;
      view, current, history := nvs.records, NO_FILE, past + [Crashed];
      new;
      PowerOn(base, past, St());
    }

    // --- Writing back --------------------------------------------------------------------------

    method CommitSlot(i: nat) returns (rc: int)
      requires Valid() && i < MAX_ENTRIES && slots[i].Loaded?
      modifies slots, nvs`records, nvs`journal, nvs`refused, this`history
      ensures Valid()
      ensures rc == 0 || rc == -1
      ensures rc == 0 ==>
                && nvs.refused == old(nvs.refused)
                && Good(old(St())) && St() == Commit(old(St()), i)
                && history == old(history) + [Committed(KeyAt(dir, old(slots[i])))]
      // The first len bytes of the buffer are stored under the file's key; the slot is clean.
      ensures rc == 0 ==>
                var t := old(slots[i]);
                && t.dirIdx < |dir| && t.len <= |t.buf|
                && nvs.records == old(nvs.records)[dir[t.dirIdx].key := t.buf[..t.len]]
                && slots[..] == old(slots[..])[i := t.(dirty := false)]
      ensures rc == -1 ==> nvs.refused == old(nvs.refused) + 1 && St() == old(St()) && history == old(history)
    {
      hide Good, Tracks, Blocks;
      ghost var s := St();
      TracksGood(base, history, s);
      SlotFacts(s, i);
      var t := slots[i];
      var key := dir[t.dirIdx].key;
      rc := nvs.Write(key, t.buf[..t.len]);
      if rc < 0 {
        return -1;
      }
      slots[i] := t.(dirty := false);
      CommitStep(base.boot, s, i);
      assert St() == Commit(s, i);
      TrackStep(base, history, s, Committed(key), St());
      history := history + [Committed(key)];
      SameBlocks(s, St(), i);
      return 0;
    }

    /** One turn of the commit loop. */
    method FlushSlot(i: nat) returns (rc: int)
      requires Valid() && i < MAX_ENTRIES
      modifies slots, nvs`records, nvs`journal, nvs`refused, this`history
      ensures Valid() && (rc == 0 || rc == -1)
      ensures nvs.refused == old(nvs.refused) + if rc == 0 then 0 else 1
      ensures rc == 0 ==> slots[i] == if old(slots[i]).Loaded? then old(slots[i]).(dirty := false) else Free
      ensures rc != 0 ==> slots[i] == old(slots[i]) && slots[i].Loaded? && slots[i].dirty
      ensures slots[..] == old(slots[..])[i := slots[i]]
      ensures if slots[i] == old(slots[i]) then history == old(history)
              else old(slots[i]).dirIdx < |dir| && history == old(history) + [Committed(KeyAt(dir, old(slots[i])))]
    {
      hide Good, Tracks, Blocks;
      rc := 0;
      if slots[i].Loaded? && slots[i].dirty {
        TracksGood(base, history, St());
        SlotFacts(St(), i);
        rc := CommitSlot(i);
      }
    }

    method PortCommitFs() returns (rc: int)
      requires Valid()
      modifies slots, nvs`records, nvs`journal, nvs`refused, this`history
      ensures Valid()
      ensures rc == 0 || rc == -1
      // Nothing visible changes.
      ensures dir == old(dir) && Good(St())
      ensures OnlyCommits(old(history), history) && Cleaned(old(slots[..]), slots[..])
      // Only files with unsaved changes are written.
      ensures forall j :: |old(history)| <= j < |history| ==> Unsaved(dir, old(slots[..]), history[j].key)
      // Success means flash holds everything there is to see; failure means NVS refused a write.
      ensures rc == 0 <==> nvs.refused == old(nvs.refused)
      ensures nvs.refused >= old(nvs.refused)
      ensures rc == 0 ==> view == nvs.records
      ensures rc == 0 <==> AllClean(slots[..])
      // A refused write does not stop the others: just the refused slots stay dirty.
      ensures DirtySlots(slots[..]) == nvs.refused - old(nvs.refused)
    {
      hide Good, Tracks, Blocks;
      rc := 0;
      for i := 0 to MAX_ENTRIES
        invariant Valid()
        invariant OnlyCommits(old(history), history) && Cleaned(old(slots[..]), slots[..])
        invariant forall j :: |old(history)| <= j < |history| ==> Unsaved(dir, old(slots[..]), history[j].key)
        invariant rc == 0 || rc == -1
        invariant nvs.refused >= old(nvs.refused)
        invariant rc == 0 <==> nvs.refused == old(nvs.refused)
        invariant rc == 0 ==> AllClean(slots[..i])
        invariant DirtySlots(slots[..i]) == nvs.refused - old(nvs.refused)
      {
        ghost var before := slots[..];
        var r := FlushSlot(i);
        DirtyPrefix(slots[..], i);
        assert slots[..][..i] == slots[..i] && slots[..][..i + 1] == slots[..i + 1];
        if r < 0 {
          rc := -1;
        }
        assert slots[..i + 1] == slots[..i] + [slots[i]];
        assert before[..i] == slots[..i];
      }
      assert slots[..MAX_ENTRIES] == slots[..];
      TracksGood(base, history, St());
      CleanHasNoDirty(slots[..]);
      if rc == 0 {
        CleanIsSynced(St());
      }
    }

    // --- Opening -------------------------------------------------------------------------------

    /** Eviction: the victim's change reaches NVS before its buffer goes; a buffer that is large
        enough is kept for the next file. */
    method Evict(idx: nat, len: nat) returns (ok: bool, kept: Option<bytes>)
      requires Valid() && current < 0 && idx < MAX_ENTRIES
      modifies slots, nvs`records, nvs`journal, nvs`refused, heap`live, this`history
      ensures slots.Length == MAX_ENTRIES && Tracks(base, history, St())
      ensures heap.live == Blocks(St()) + if kept.Some? then 1 else 0
      ensures OnlyCommits(old(history), history)
      ensures ok <==> nvs.refused == old(nvs.refused)
      ensures nvs.refused >= old(nvs.refused)
      ensures nvs.faults == old(nvs.faults) && heap.failures == old(heap.failures)
      ensures ok ==> kept == Reusable(old(slots[idx]), len)
      ensures kept.Some? ==> ok && len <= |kept.value| <= U16_MAX
      ensures slots[..] == if ok then old(slots[..])[idx := Free] else old(slots[..])
    {
      hide Good, Tracks, Blocks;
      ok, kept := true, None;
      assert slots[idx].Free? ==> slots[..] == slots[..][idx := Free];
      if slots[idx].Loaded? {
        if slots[idx].dirty {
          var rc := CommitSlot(idx);
          if rc < 0 {
            return false, None;
          }
        }
        kept := Detach(idx, len);
      }
    }

    /** The victim's buffer leaves its slot, to be reused if it is large enough. */
    method Detach(idx: nat, len: nat) returns (kept: Option<bytes>)
      requires Valid() && current < 0 && idx < MAX_ENTRIES && slots[idx].Loaded? && !slots[idx].dirty
      modifies slots, heap`live
      ensures slots.Length == MAX_ENTRIES && Tracks(base, history, St())
      ensures slots[..] == old(slots[..])[idx := Free]
      ensures heap.live == Blocks(St()) + if kept.Some? then 1 else 0
      ensures kept == Reusable(old(slots[idx]), len)
    {
      hide Good, Tracks, Blocks;
      ghost var s := St();
      TracksGood(base, history, s);
      BlocksPositive(s, idx);
      BlocksChanged(s, idx, Free);
      DropStep(s, idx);
      kept := None;
      if len > slots[idx].size {
        heap.Free();
      } else {
        kept := Some(Zeros(slots[idx].size));
      }
      slots[idx] := Free;
      assert St() == Drop(s, idx);
      TrackInvisible(base, history, s, St());
    }

    /** ss_load_to_slot(): take a slot, evicting if need be, and read the record into it. */
    method LoadToSlot(dirIdx: nat, len: nat) returns (fp: int)
      requires Valid() && current < 0 && dirIdx < |dir| && Unbuffered(slots[..], dirIdx)
      requires dir[dirIdx].key in nvs.records && len == |nvs.records[dir[dirIdx].key]|
      modifies slots, nvs, heap, this`history
      ensures Valid() && NO_FILE <= fp < MAX_ENTRIES
      // The slot is the one the victim preference names, no other slot changes, and nothing of the
      // victim is left in a reused buffer.
      ensures fp >= 0 ==> LoadedBy(dir, old(slots[..]), nvs.records, dirIdx, fp, slots[..])
      ensures fp >= 0 ==>
                var (record, t, victim) := (old(nvs.records[dir[dirIdx].key]), slots[fp], old(slots[fp]));
                && t.Loaded? && t.dirIdx == dirIdx && t.pos == 0 && !t.dirty && t.len == |record| && |t.buf| == t.size
                && t.size == (if victim.Loaded? && victim.size >= |record| then victim.size else |record|)
                && (forall i :: 0 <= i < t.size ==> t.buf[i] == if i < |record| then record[i] else 0)
      ensures OnlyCommits(old(history), history)
      // It fails only when flash or heap did.
      ensures nvs.refused >= old(nvs.refused) && nvs.faults >= old(nvs.faults) && heap.failures >= old(heap.failures)
      ensures fp < 0 ==>
                nvs.refused > old(nvs.refused) || nvs.faults > old(nvs.faults) || heap.failures > old(heap.failures)
    {
      hide Good, Tracks, Blocks, IsChoice;
      TracksGood(base, history, St());
      SlotsIndexed(St());
      EntryFacts(St(), dirIdx);
      var idx := SlotAcquire(dir, slots, len);
      fp := LoadInto(idx, dirIdx, len);
      if fp >= 0 {
        LoadedSpelledOut(dir, old(slots[..]), nvs.records, dirIdx, fp, slots[..]);
      }
    }

    /** Load the record into a given slot. */
    method LoadInto(idx: nat, dirIdx: nat, len: nat) returns (fp: int)
      requires Valid() && current < 0 && idx < MAX_ENTRIES && dirIdx < |dir| && Unbuffered(slots[..], dirIdx)
      requires dir[dirIdx].key in nvs.records && len == |nvs.records[dir[dirIdx].key]|
      modifies slots, nvs, heap, this`history
      ensures Valid() && (fp == idx || fp == NO_FILE)
      ensures dir[dirIdx].key in nvs.records && nvs.records[dir[dirIdx].key] == old(nvs.records[dir[dirIdx].key])
      ensures len <= U16_MAX
      ensures fp == idx ==>
                var record := old(nvs.records[dir[dirIdx].key]);
                slots[..] == old(slots[..])[idx := Fresh(record, dirIdx, old(slots[idx]))]
      ensures OnlyCommits(old(history), history)
      ensures nvs.refused >= old(nvs.refused) && nvs.faults >= old(nvs.faults) && heap.failures >= old(heap.failures)
      ensures fp < 0 ==>
                nvs.refused > old(nvs.refused) || nvs.faults > old(nvs.faults) || heap.failures > old(heap.failures)
    {
      hide Good, Tracks, Blocks, OnlyCommits, Unbuffered, Reusable, Fresh;
      ghost var s, record := St(), nvs.records[dir[dirIdx].key];
      TracksGood(base, history, s);
      var ok, buffer := Evict(idx, len);
      TracksGood(base, history, St());
      RecordKept(s, St(), idx, dirIdx);
      if !ok {
        return NO_FILE;
      }
      FreshIs(record, dirIdx, old(slots[idx]), buffer);
      fp := ReadInto(dirIdx, len, idx, buffer);
    }

    /** Find a buffer for the record, if the victim left none, and fill it. */
    method ReadInto(dirIdx: nat, len: nat, idx: nat, kept: Option<bytes>) returns (fp: int)
      requires slots.Length == MAX_ENTRIES && Tracks(base, history, St())
      requires heap.live == Blocks(St()) + if kept.Some? then 1 else 0
      requires idx < MAX_ENTRIES && slots[idx].Free? && dirIdx < |dir| && Unbuffered(slots[..], dirIdx)
      requires dir[dirIdx].key in nvs.records && len == |nvs.records[dir[dirIdx].key]| <= U16_MAX
      requires kept.Some? ==> len <= |kept.value| <= U16_MAX && kept.value == Zeros(|kept.value|)
      modifies slots, nvs`faults, heap
      ensures Valid() && nvs.faults >= old(nvs.faults) && heap.failures >= old(heap.failures)
      ensures fp == idx || fp == NO_FILE
      ensures fp == idx ==>
                var size := if kept.Some? then |kept.value| else len;
                var buf := nvs.records[dir[dirIdx].key] + Zeros(size - len);
                slots[..] == old(slots[..])[idx := Loaded(buf, dirIdx, 0, len, size, false)]
      ensures fp == NO_FILE ==> nvs.faults > old(nvs.faults) || heap.failures > old(heap.failures)
    {
      hide Good, Tracks, Blocks;
      var buffer := kept;
      if buffer.None? {
        buffer := heap.Alloc(len);
      }
      if buffer.None? {
        return NO_FILE;
      }
      assert buffer.value[len..] == Zeros(|buffer.value| - len);
      fp := Attach(dirIdx, len, idx, buffer.value);
    }

    /** Read the record into the buffer and attach it to the free slot. */
    method Attach(dirIdx: nat, len: nat, idx: nat, buffer: bytes) returns (fp: int)
      requires slots.Length == MAX_ENTRIES && Tracks(base, history, St()) && heap.live == Blocks(St()) + 1
      requires idx < MAX_ENTRIES && slots[idx].Free? && dirIdx < |dir| && Unbuffered(slots[..], dirIdx)
      requires dir[dirIdx].key in nvs.records ==> len == |nvs.records[dir[dirIdx].key]|
      requires len <= |buffer| <= U16_MAX
      modifies slots, nvs`faults, heap`live
      ensures Valid() && nvs.faults >= old(nvs.faults)
      ensures nvs.refused == old(nvs.refused) && heap.failures == old(heap.failures)
      ensures fp == idx || fp == NO_FILE
      ensures fp == idx ==>
                && dir[dirIdx].key in nvs.records
                && var buf := nvs.records[dir[dirIdx].key] + buffer[len..];
                   slots[..] == old(slots[..])[idx := Loaded(buf, dirIdx, 0, len, |buffer|, false)]
      ensures fp == NO_FILE ==> dir[dirIdx].key !in nvs.records || nvs.faults > old(nvs.faults)
    {
      hide Good, Tracks, Blocks;
      ghost var s := St();
      TracksGood(base, history, s);
      EntryFacts(s, dirIdx);
      var rc, data := nvs.Fetch(dir[dirIdx].key, len);
      if rc < 0 {
        heap.Free();
        return NO_FILE;
      }
      var t := Loaded(data + buffer[len..], dirIdx, 0, len, |buffer|, false);
      assert Content(t) == data;
      FillStep(s, idx, t);
      BlocksChanged(s, idx, t);
      slots[idx] := t;
      assert St() == Fill(s, idx, t);
      TrackInvisible(base, history, s, St());
      return idx;
    }

    /** ss_fopen(): the path is looked up by hash, its hit count raised, and its slot found or loaded. */
    method Fopen(path: bytes) returns (fp: int)
      requires Valid() && current < 0
      modifies this, slots, nvs, heap
      ensures Valid() && NO_FILE <= fp < MAX_ENTRIES && current == fp
      // No file's visible contents change, and no path is listed or unlisted.
      ensures Abs().view == old(Abs()).view && Abs().listing == old(Abs()).listing && initialized == old(initialized)
      // A handle is only ever given out for the file the path names, with the cursor at its start.
      ensures Abs().open == if fp < 0 then None else Some(Handle(Hashed(path), 0))
      ensures if fp < 0 then OnlyCommits(old(history), history)
              else CommitsThen(old(history), Opened(Hashed(path)), history)
      // Unless flash or heap failed on the way, exactly the listed files that have contents open.
      ensures nvs.refused >= old(nvs.refused) && nvs.faults >= old(nvs.faults) && heap.failures >= old(heap.failures)
      ensures fp < 0 && nvs.refused == old(nvs.refused) ==>
                nvs.faults == old(nvs.faults) && heap.failures == old(heap.failures) ==>
                !HasContents(Abs(), Hashed(path))
      ensures fp >= 0 ==> HasContents(Abs(), Hashed(path))
      // A listed path counts a hit; a hit in the cache rewinds its slot, a miss loads one.
      ensures if Hashed(path) !in old(Abs()).listing then dir == old(dir) && slots[..] == old(slots[..])
              else exists idx :: 0 <= idx < |old(dir)| && old(dir)[idx].hash == Hashed(path)
                                 && dir == Counted(old(dir), idx)
                                 && (fp >= 0 ==> OpenedBy(dir, old(slots[..]), nvs.records, idx, fp, slots[..]))
      ensures |dir| == |old(dir)|
      ensures forall i :: 0 <= i < |dir| ==>
                var e := old(dir)[i];
                && dir[i].hash == e.hash && dir[i].key == e.key && dir[i].flags == e.flags
                && dir[i].hits == (if e.hash == Hashed(path) && e.hits < 255 then e.hits + 1 else e.hits)
    {
      hide Good, Tracks, Blocks, AbsOf, OpenedBy, Counted;
      NoOpenFile(base, history, St());
      var idx := DirFind(dir, path);
      if idx < 0 {
        NotListed(base.boot, St(), Hashed(path));
        return NO_FILE;
      }
      IsListed(base.boot, St(), idx);
      HashesDistinct(St());
      CountedSpelledOut(dir, idx);
      fp := OpenEntry(idx);
    }

    /** ss_fopen() once the path has been found. */
    method OpenEntry(idx: nat) returns (fp: int)
      requires Valid() && current < 0 && idx < |dir|
      modifies this`dir, this`current, this`history, slots, nvs, heap
      ensures Valid() && NO_FILE <= fp < MAX_ENTRIES && current == fp
      ensures Abs().view == old(Abs()).view && Abs().listing == old(Abs()).listing
      ensures Abs().open == if fp < 0 then None else Some(Handle(old(dir[idx].hash), 0))
      ensures if fp < 0 then OnlyCommits(old(history), history)
              else CommitsThen(old(history), Opened(old(dir[idx].hash)), history)
      ensures nvs.refused >= old(nvs.refused) && nvs.faults >= old(nvs.faults) && heap.failures >= old(heap.failures)
      ensures fp < 0 && nvs.refused == old(nvs.refused) ==>
                nvs.faults == old(nvs.faults) && heap.failures == old(heap.failures) ==>
                !HasContents(Abs(), old(dir[idx].hash))
      ensures fp >= 0 ==> HasContents(Abs(), old(dir[idx].hash))
      ensures dir == Counted(old(dir), idx)
      ensures fp >= 0 ==> OpenedBy(dir, old(slots[..]), nvs.records, idx, fp, slots[..])
    {
      hide Good, Tracks, Blocks, AbsOf, IsChoice;
      NoOpenFile(base, history, St());
      CountHit(idx);
      var slot := SlotFind(slots, idx);
      if slot < 0 {
        slot := LoadMissing(idx);
        if slot < 0 {
          return NO_FILE;
        }
      }
      HandOut(slot);
      return slot;
    }

    /** The part of ss_fopen() after a cache miss. */
    method LoadMissing(idx: nat) returns (fp: int)
      requires Valid() && current < 0 && idx < |dir| && Unbuffered(slots[..], idx)
      modifies slots, nvs, heap, this`history
      ensures Valid() && NO_FILE <= fp < MAX_ENTRIES
      ensures Abs() == old(Abs()).(durable := nvs.records)
      ensures fp >= 0 ==> LoadedBy(dir, old(slots[..]), nvs.records, idx, fp, slots[..])
      ensures OnlyCommits(old(history), history)
      ensures nvs.refused >= old(nvs.refused) && nvs.faults >= old(nvs.faults) && heap.failures >= old(heap.failures)
      ensures fp < 0 && nvs.refused == old(nvs.refused) ==>
                nvs.faults == old(nvs.faults) && heap.failures == old(heap.failures) ==>
                !HasContents(Abs(), dir[idx].hash)
    {
      hide Good, Tracks, Blocks;
      TracksGood(base, history, St());
      EntryFacts(St(), idx);
      var rc := nvs.Length(dir[idx].key);
      if rc < 0 {
        return NO_FILE;
      }
      fp := LoadToSlot(idx, rc);
      TracksGood(base, history, St());
    }

    method CountHit(idx: nat)
      requires Valid() && idx < |dir|
      modifies this`dir
      ensures Valid() && Abs() == old(Abs()) && dir == Counted(old(dir), idx)
    {
      hide Good, Tracks;
      ghost var s := St();
      TracksGood(base, history, s);
      var e := dir[idx];
      if e.hits < 0xFF {
        dir := dir[idx := e.(hits := e.hits + 1)];
        TouchStep(s, idx, dir[idx]);
        assert St() == Touch(s, idx, dir[idx]);
        TrackInvisible(base, history, s, St());
      }
    }

    method HandOut(slot: nat)
      requires Valid() && current < 0 && slot < MAX_ENTRIES && slots[slot].Loaded?
      modifies slots, this`current, this`history
      ensures Valid() && current == slot
      ensures slots[slot].Loaded? && slots[slot].dirIdx < |dir|
      ensures Abs() == old(Abs()).(open := Some(Handle(dir[slots[slot].dirIdx].hash, 0)))
      ensures slots[..] == old(slots[..])[slot := old(slots[slot]).(pos := 0)]
      ensures HasContents(Abs(), dir[slots[slot].dirIdx].hash)
      ensures history == old(history) + [Opened(dir[slots[slot].dirIdx].hash)]
    {
      hide Good, Tracks, Blocks;
      ghost var s := St();
      TracksGood(base, history, s);
      OpenStep(base.boot, s, slot);
      SlotFacts(s, slot);
      slots[slot] := slots[slot].(pos := 0);
      current := slot;
      assert St() == Open(s, slot);
      TrackStep(base, history, s, Opened(HashAt(s, slot)), St());
      history := history + [Opened(HashAt(s, slot))];
      SameBlocks(s, St(), slot);
    }

    /** ss_file_size() */
    method FileSize(path: bytes) returns (n: int)
      requires Valid()
      modifies nvs`faults
      ensures Valid() && nvs.faults >= old(nvs.faults)
      ensures n >= 0 ==> HasContents(Abs(), Hashed(path)) && n == |view[Abs().listing[Hashed(path)].key]|
      ensures n < 0 ==> n == -1
      ensures n < 0 && nvs.faults == old(nvs.faults) ==> !HasContents(Abs(), Hashed(path))
    {
      hide Good, Tracks, Blocks;
      TracksGood(base, history, St());
      var idx := DirFind(dir, path);
      if idx < 0 {
        NotListed(base.boot, St(), Hashed(path));
        return -1;
      }
      EntryFacts(St(), idx);
      var slot := SlotFind(slots, idx);
      if slot >= 0 {
        SlotFacts(St(), slot);
        return slots[slot].len;
      }
      n := nvs.Length(dir[idx].key);
      if n < 0 {
        n := -1;
      }
    }

    // --- Working on the open file --------------------------------------------------------------

    /** ss_fread(). Past the end the length subtraction underflows, so the cursor must be inside. */
    method Fread(size: nat, nmemb: nat, fp: int) returns (n: nat, data: bytes)
      requires Valid()
      requires size > 0 && nmemb > 0 ==> 0 <= fp == current && slots[fp].Loaded? && slots[fp].pos <= slots[fp].len
      modifies slots, this`history
      ensures Valid() && |data| == n * size
      ensures size == 0 || nmemb == 0 ==> n == 0 && St() == old(St()) && history == old(history)
      ensures size > 0 && nmemb > 0 ==>
                && Step(old(Abs()), Read(size, nmemb, data), Abs())
                && history == old(history) + [Read(size, nmemb, data)]
                && slots[fp].Loaded? && slots[..] == old(slots[..])[fp := old(slots[fp]).(pos := slots[fp].pos)]
      // The next bytes of the file, in as many whole elements as were asked for and are left.
      ensures size > 0 && nmemb > 0 ==>
                && ReadOut(old(Abs()), data, Abs()) && n <= nmemb
                && (n == nmemb || old(slots[fp]).len < old(slots[fp]).pos + (n + 1) * size)
    {
      hide Good, Tracks, Blocks, Legal, Apply, Elements, ReadOut;
      if nmemb == 0 || size == 0 {
        return 0, [];
      }
      TracksGood(base, history, St());
      CurrentLoaded(St());
      var total;
      n, total := ElementsToRead(slots[fp].len, slots[fp].pos, size, nmemb);
      data := Take(fp, size, nmemb, total);
      ReadStepReads(old(Abs()), size, nmemb, data, Abs());
    }

    /** ss_fgets(): the rest of the line, without its end, which the cursor stops at. */
    method Fgets(n: nat, fp: int) returns (line: Option<bytes>)
      requires Valid() && (fp == NO_FILE || fp == current) && n > 0
      requires fp >= 0 ==> slots[fp].Loaded?
      modifies slots, this`history
      ensures Valid()
      ensures line.Some? <==> fp >= 0 && old(slots[fp]).pos < old(slots[fp]).len
      ensures line.None? ==> St() == old(St()) && history == old(history)
      ensures line.Some? ==>
                && Step(old(Abs()), Read(1, |line.value|, line.value), Abs())
                && history == old(history) + [Read(1, |line.value|, line.value)]
                && slots[fp].Loaded? && slots[..] == old(slots[..])[fp := old(slots[fp]).(pos := slots[fp].pos)]
      // It is as long as the buffer and the line allow.
      ensures line.Some? ==> |line.value| < n && forall b :: b in line.value ==> b != 0 && b != 0x0A
      ensures line.Some? && |line.value| < n - 1 ==>
                var (t, end) := (old(slots[fp]), old(slots[fp]).pos + |line.value|);
                end == t.len || (end < |t.buf| && (t.buf[end] == 0 || t.buf[end] == 0x0A))
    {
      hide Good, Tracks, Blocks, Legal, Apply, Elements;
      if fp < 0 {
        return None;
      }
      TracksGood(base, history, St());
      CurrentLoaded(St());
      SlotFacts(St(), fp);
      var t := slots[fp];
      if t.pos >= t.len {
        return None;
      }
      var count := LineLength(t.buf, t.pos, t.len, n);
      OneByOne(t.len, t.pos, count);
      var data := Take(fp, 1, count, count);
      return Some(data);
    }

    /** The loop of ss_fgets(). */
    static method LineLength(buf: bytes, pos: nat, len: nat, n: nat) returns (idx: nat)
      requires pos < len <= |buf| && n > 0
      ensures pos + idx <= len && idx < n
      ensures forall j :: pos <= j < pos + idx ==> !EndsLine(buf[j])
      ensures idx == n - 1 || pos + idx == len || EndsLine(buf[pos + idx])
    {
      idx := 0;
      while pos + idx < len && idx < n - 1 && !EndsLine(buf[pos + idx])
        invariant pos + idx <= len && idx < n
        invariant forall j :: pos <= j < pos + idx ==> !EndsLine(buf[j])
      {
        idx := idx + 1;
      }
    }

    /** The arithmetic of ss_fread(). */
    static method ElementsToRead(len: nat, pos: nat, size: nat, nmemb: nat) returns (n: nat, total: nat)
      requires pos <= len && size > 0
      ensures n == Elements(len, pos, size, nmemb) && total == n * size == size * n && pos + total <= len
      ensures n <= nmemb && (n == nmemb || len < pos + (n + 1) * size)
    {
      var most := (len - pos) / size;
      n := if nmemb > most then most else nmemb;
      total := n * size;
      assert len - pos < (most + 1) * size;
      ReadFits(len, pos, size, nmemb);
    }

    /** Copy `total` bytes out of the open slot and move its cursor past them. */
    method Take(fp: nat, size: nat, nmemb: nat, total: nat) returns (data: bytes)
      requires Valid() && fp == current && slots[fp].Loaded? && slots[fp].pos + total <= slots[fp].len
      requires total == size * Elements(slots[fp].len, slots[fp].pos, size, nmemb)
      modifies slots, this`history
      ensures Valid() && |data| == total <= |old(slots[fp]).buf| - old(slots[fp]).pos
      ensures data == old(slots[fp]).buf[old(slots[fp]).pos..old(slots[fp]).pos + total]
      ensures slots[fp].Loaded? && slots[..] == old(slots[..])[fp := old(slots[fp]).(pos := slots[fp].pos)]
      ensures Step(old(Abs()), Read(size, nmemb, data), Abs()) && history == old(history) + [Read(size, nmemb, data)]
    {
      hide Good, Tracks, Blocks, Legal, Apply, Elements;
      ghost var s := St();
      TracksGood(base, history, s);
      SlotFacts(s, fp);
      var t := slots[fp];
      data := t.buf[t.pos..t.pos + total];
      assert data == Content(t)[t.pos..t.pos + total];
      ReadStep(base.boot, s, size, nmemb, data);
      slots[fp] := t.(pos := t.pos + total);
      assert St() == Fill(s, fp, slots[fp]);
      TrackStep(base, history, s, Read(size, nmemb, data), St());
      history := history + [Read(size, nmemb, data)];
      SameBlocks(s, St(), fp);
    }

    /** ss_fseek() */
    method Fseek(fp: int, offset: int, whence: int) returns (rc: int)
      requires Valid() && (fp == NO_FILE || fp == current)
      modifies slots, this`history
      ensures Valid()
      ensures fp < 0 ==> rc == -1 && St() == old(St()) && history == old(history)
      ensures fp >= 0 ==>
                && rc == 0 && Step(old(Abs()), Sought(offset, whence), Abs())
                && history == old(history) + [Sought(offset, whence)]
                && slots[fp].Loaded? && slots[..] == old(slots[..])[fp := old(slots[fp]).(pos := slots[fp].pos)]
      // Where the cursor goes.
      ensures fp >= 0 ==>
                && Abs().open.Some? && Abs().open.value.pos == slots[fp].pos
                && var (from, len, to) := (old(slots[fp]).pos, old(slots[fp]).len, slots[fp].pos);
                   && (whence == 0 && 0 <= offset <= 65535 ==> to == offset)
                   && (whence == 1 && 0 <= from + offset < len ==> to == from + offset)
                   && (whence == 1 && len <= from + offset <= 65535 ==> to == len - 1)
                   && (whence == 2 && 0 <= offset <= len ==> to == len - offset)
                   && (whence != 0 && whence != 1 && whence != 2 ==> to == from)
    {
      hide Good, Tracks, Blocks, Legal, Apply, SeekTarget;
      if fp < 0 {
        return -1;
      }
      TracksGood(base, history, St());
      SlotFacts(St(), fp);
      var pos := CursorAfter(slots[fp].pos, slots[fp].len, offset, whence);
      MoveCursor(fp, offset, whence, pos);
      return 0;
    }

    /** The arithmetic of ss_fseek(). */
    static method CursorAfter(from: u16, len: u16, offset: int, whence: int) returns (to: u16)
      requires 1 <= len
      ensures to == SeekTarget(from, len, offset, whence)
      ensures whence == 0 && 0 <= offset <= 65535 ==> to == offset
      ensures whence == 1 && 0 <= from + offset < len ==> to == from + offset
      ensures whence == 1 && len <= from + offset <= 65535 ==> to == len - 1
      ensures whence == 2 && 0 <= offset <= len ==> to == len - offset
      ensures whence != 0 && whence != 1 && whence != 2 ==> to == from
    {
      SeekSpelledOut(from, len, offset, whence);
      to := from;
      if whence == SEEK_SET {
        to := offset % 0x1_0000;
      } else if whence == SEEK_CUR {
        to := (from + offset) % 0x1_0000;
        if to >= len {
          to := len - 1;
        }
      } else if whence == SEEK_END {
        to := (len - offset) % 0x1_0000;
      }
    }

    method MoveCursor(fp: nat, offset: int, whence: int, pos: u16)
      requires Valid() && fp == current && slots[fp].Loaded? && slots[fp].len >= 1
      requires pos == SeekTarget(slots[fp].pos, slots[fp].len, offset, whence)
      modifies slots, this`history
      ensures Valid() && Step(old(Abs()), Sought(offset, whence), Abs())
      ensures history == old(history) + [Sought(offset, whence)]
      ensures slots[..] == old(slots[..])[fp := old(slots[fp]).(pos := pos)]
      ensures Abs().open.Some? && Abs().open.value.pos == pos
    {
      hide Good, Tracks, Blocks, Legal, Apply, SeekTarget;
      ghost var s := St();
      TracksGood(base, history, s);
      SeekStep(base.boot, s, offset, whence);
      slots[fp] := slots[fp].(pos := pos);
      assert St() == Fill(s, fp, s.slots[fp].(pos := pos));
      TrackStep(base, history, s, Sought(offset, whence), St());
      history := history + [Sought(offset, whence)];
      SameBlocks(s, St(), fp);
      TracksGood(base, history, St());
    }

    /** ss_ftell() */
    method Ftell(fp: int) returns (pos: int)
      requires Valid() && (fp == NO_FILE || fp == current)
      ensures fp < 0 ==> pos == -1
      ensures fp >= 0 ==> Abs().open.Some? && pos == Abs().open.value.pos
    {
      hide Good, Tracks, Blocks;
      if fp < 0 {
        return -1;
      }
      TracksGood(base, history, St());
      return slots[fp].pos;
    }

    /** ss_fclose(). The read-only flag is bit 8 of a byte, so its guard never holds. */
    method Fclose(fp: int) returns (rc: int)
      requires Valid() && (fp == NO_FILE || fp == current) && (fp >= 0 ==> slots[fp].Loaded?)
      modifies slots, nvs`records, nvs`journal, nvs`refused, this`current, this`history
      ensures Valid() && (rc == 0 || rc == -1) && nvs.refused >= old(nvs.refused)
      ensures fp < 0 ==> rc == -1 && St() == old(St()) && history == old(history)
      ensures fp >= 0 ==>
                && current == NO_FILE && CommitsThen(old(history), Closed(rc), history)
                && Abs() == old(Abs()).(open := None, durable := nvs.records)
                && (rc == 0 <==> nvs.refused == old(nvs.refused))
      // A commit-on-close file that closed well is on flash as it is seen; a close of any other
      // file, or of a clean one, spends no flash write.
      ensures fp >= 0 && rc == 0 && OpenIsEager(old(Abs())) ==> SameRecord(view, nvs.records, OpenKey(old(Abs())))
      ensures fp >= 0 && (!OpenIsEager(old(Abs())) || !old(slots[fp]).dirty) ==>
                rc == 0 && nvs.journal == old(nvs.journal)
    {
      hide Good, Tracks, Blocks, Legal, Apply;
      rc := 0;
      if fp < 0 {
        return -1;
      }
      rc := CommitOnClose(fp);
      EndUse(fp, rc);
    }

    /** The commit a close makes when the file is flagged for it. */
    method CommitOnClose(fp: nat) returns (rc: int)
      requires Valid() && fp == current && slots[fp].Loaded?
      modifies slots, nvs`records, nvs`journal, nvs`refused, this`history
      ensures Valid() && (rc == 0 || rc == -1) && nvs.refused >= old(nvs.refused)
      ensures Abs() == old(Abs()).(durable := nvs.records) && OnlyCommits(old(history), history)
      ensures rc == 0 <==> nvs.refused == old(nvs.refused)
      ensures fp < MAX_ENTRIES && slots[fp].Loaded? && slots[fp].dirIdx < |dir|
      ensures rc == 0 && dir[slots[fp].dirIdx].flags >= 0x80 ==> !slots[fp].dirty
      ensures rc == 0 && OpenIsEager(Abs()) ==> SameRecord(view, nvs.records, OpenKey(Abs()))
      ensures !OpenIsEager(old(Abs())) || !old(slots[fp]).dirty ==> rc == 0 && nvs.journal == old(nvs.journal)
    {
      hide Good, Tracks, Blocks, Legal, Apply, OpenIsEager, SameRecord, CommitsOnClose, OnlyCommits;
      rc := 0;
      TracksGood(base, history, St());
      EagerIs(base.boot, St());
      AtMostOneCommit(history, KeyAt(dir, slots[fp]));
      if CommitsOnClose(dir[slots[fp].dirIdx].flags) && slots[fp].dirty {
        rc := CommitSlot(fp);
        TracksGood(base, history, St());
        EagerIs(base.boot, St());
      }
    }

    method EndUse(fp: nat, rc: int)
      requires Valid() && fp == current && slots[fp].Loaded? && slots[fp].dirIdx < |dir|
      requires rc == 0 && dir[slots[fp].dirIdx].flags >= 0x80 ==> !slots[fp].dirty
      modifies slots, this`current, this`history
      ensures Valid() && Step(old(Abs()), Closed(rc), Abs()) && current == NO_FILE
      ensures history == old(history) + [Closed(rc)]
    {
      hide Good, Tracks, Blocks, Legal, Apply;
      ghost var s := St();
      TracksGood(base, history, s);
      CloseStep(base.boot, s, rc);
      slots[fp] := slots[fp].(pos := 0);
      current := NO_FILE;
      assert St() == Close(s);
      TrackStep(base, history, s, Closed(rc), St());
      history := history + [Closed(rc)];
      SameBlocks(s, St(), fp);
    }

    // --- Changing the open file ----------------------------------------------------------------

    /** The open slot takes a new value that is the step e of its file. */
    method Install(fp: nat, t: Slot, ghost e: Event)
      requires Valid() && fp == current && t.Loaded? && t.dirIdx < |dir| && t.len <= |t.buf|
      requires Good(St()) && Refines(base.boot, St(), e, Update(St(), fp, t)) && !Writes(e)
      modifies slots, this`view, this`history
      ensures Valid() && Step(old(Abs()), e, Abs())
      ensures history == old(history) + [e] && slots[..] == old(slots[..])[fp := t]
    {
      hide Good, Tracks, Blocks, Legal, Apply;
      ghost var s := St();
      CurrentLoaded(s);
      slots[fp] := t;
      view := view[dir[t.dirIdx].key := Content(t)];
      assert St() == Update(s, fp, t);
      TrackStep(base, history, s, e, St());
      history := history + [e];
      SameBlocks(s, St(), fp);
    }

    /** A larger buffer with the old one's bytes in front; None when the heap refuses. */
    method Grow(buf: bytes, size: nat) returns (grown: Option<bytes>)
      requires |buf| <= size && heap.live > 0
      modifies heap
      ensures heap.live == old(heap.live) && heap.failures >= old(heap.failures)
      ensures grown.None? <==> heap.failures > old(heap.failures)
      ensures grown.Some? ==> |grown.value| == size && buf <= grown.value
    {
      var block := heap.Alloc(size);
      if block.None? {
        return None;
      }
      grown := Some(buf + block.value[|buf|..]);
      heap.Free();
    }

    /** ss_fputc(). The only call that lengthens a file. */
    method Fputc(c: int, fp: int) returns (rc: int)
      requires Valid() && (fp == NO_FILE || fp == current)
      // The grown size must fit its 16-bit field, and the cursor the grown buffer.
      requires fp >= 0 ==>
                 && slots[fp].Loaded?
                 && (slots[fp].pos < slots[fp].size || slots[fp].pos < slots[fp].size + 20 <= U16_MAX)
      modifies slots, heap, this`view, this`history
      ensures Valid() && heap.failures >= old(heap.failures)
      ensures fp < 0 || heap.failures > old(heap.failures) ==> rc == -1 && St() == old(St()) && history == old(history)
      ensures fp >= 0 && heap.failures == old(heap.failures) ==>
                && rc == c && |history| == |old(history)| + 1 && old(history) < history
                && history[|old(history)|].Put? && history[|old(history)|].c == c % 0x100
                && Step(old(Abs()), history[|old(history)|], Abs())
                && slots[fp].Loaded? && slots[fp].dirty && slots[..] == old(slots[..])[fp := slots[fp]]
                && BytePut(old(Abs()), c % 0x100, Abs())
                && slots[fp].size == old(slots[fp].size) + if old(slots[fp].pos) < old(slots[fp].size) then 0 else 20
    {
      hide Good, Tracks, Blocks, Legal, Apply, BytePut;
      if fp < 0 {
        return -1;
      }
      ghost var s := St();
      TracksGood(base, history, s);
      SlotFacts(s, fp);
      BlocksPositive(s, fp);
      var t := slots[fp];
      if t.pos >= t.size {
        var grown := Grow(t.buf, t.size + 20);
        if grown.None? {
          return -1;
        }
        t := t.(buf := grown.value, size := t.size + 20);
      }
      PutAt(fp, t, c % 0x100);
      return c;
    }

    /** Store a byte at the cursor of the open file, whose buffer has grown to t's if need be. */
    method PutAt(fp: nat, t: Slot, b: byte)
      requires Valid() && fp == current && slots[fp].Loaded? && Grown(slots[fp], t) && t.pos < t.size
      modifies slots, this`view, this`history
      ensures Valid() && |history| == |old(history)| + 1 && old(history) < history
      ensures history[|old(history)|].Put? && history[|old(history)|].c == b
      ensures Step(old(Abs()), history[|old(history)|], Abs())
      ensures slots[fp].Loaded? && slots[fp].dirty && slots[fp].size == t.size
      ensures slots[..] == old(slots[..])[fp := slots[fp]]
      ensures BytePut(old(Abs()), b, Abs())
    {
      hide Good, Tracks, Blocks, Legal, Apply, BytePut;
      ghost var s := St();
      TracksGood(base, history, s);
      SlotFacts(s, fp);
      var u := t.(buf := t.buf[t.pos := b], pos := t.pos + 1, dirty := true,
                  len := if t.len >= t.pos + 1 then t.len else t.pos + 1);
      ghost var hole := if t.pos > t.len then t.buf[t.len..t.pos] else [];
      PutShows(slots[fp], t, u, b, hole);
      PutStep(base.boot, s, b, hole, u);
      Install(fp, u, Put(b, hole));
      PutStepPuts(old(Abs()), b, hole, Abs());
    }

    /** ss_fwrite(). It never lengthens the file: what lands past the end stays unseen. */
    method Fwrite(ptr: bytes, size: nat, count: nat, fp: int) returns (n: int)
      requires Valid() && (fp == NO_FILE || fp == current) && |ptr| == size * count
      // The end must fit the 16-bit cursor, and an element size of 0 must not be divided by.
      requires fp >= 0 ==> slots[fp].Loaded? && slots[fp].pos + |ptr| <= U16_MAX
      requires fp >= 0 ==> size > 0 || slots[fp].pos < slots[fp].size
      modifies slots, heap, this`view, this`history
      ensures Valid() && heap.failures >= old(heap.failures)
      ensures fp < 0 || heap.failures > old(heap.failures) ==> n == -1 && St() == old(St()) && history == old(history)
      ensures fp >= 0 && heap.failures == old(heap.failures) ==>
                && n == count && Step(old(Abs()), Wrote(ptr), Abs()) && history == old(history) + [Wrote(ptr)]
                && slots[fp].Loaded? && slots[..] == old(slots[..])[fp := slots[fp]]
                && slots[fp].size == Larger(old(slots[fp].size), old(slots[fp].pos) + |ptr|)
                && WrittenOver(old(Abs()), ptr, Abs()) && |old(slots[fp]).buf| == old(slots[fp]).size
      // The slot turns dirty exactly when the bytes are not there already.
      ensures fp >= 0 && heap.failures == old(heap.failures) ==>
                var t := old(slots[fp]);
                t.pos + |ptr| <= t.size ==>
                (slots[fp].dirty <==> t.dirty || exists i :: 0 <= i < |ptr| && t.buf[t.pos + i] != ptr[i])
    {
      hide Good, Tracks, Blocks, Legal, Apply, WrittenOver;
      if fp < 0 {
        return -1;
      }
      ghost var s := St();
      TracksGood(base, history, s);
      SlotFacts(s, fp);
      BlocksPositive(s, fp);
      var t := slots[fp];
      var total := size * count;
      var required := t.pos + total;
      if required > t.size {
        var grown := Grow(t.buf, required);
        if grown.None? {
          return -1;
        }
        t := t.(buf := grown.value, size := required);
      }
      var left := t.size - t.pos;
      n := if left > total then count else left / size;
      AllElementsFit(left, size, count);
      assert ptr[..size * n] == ptr;
      if required <= s.slots[fp].size {
        DiffersSomewhere(t, ptr);
      }
      LayOver(fp, t, ptr[..size * n]);
    }

    /** Lay data over the buffer of the open file, which has grown to t's if need be; a write of what
        is already there leaves the slot as clean as it was. */
    method LayOver(fp: nat, t: Slot, data: bytes)
      requires Valid() && fp == current && slots[fp].Loaded? && Grown(slots[fp], t) && t.pos + |data| <= t.size
      modifies slots, this`view, this`history
      ensures Valid() && Step(old(Abs()), Wrote(data), Abs())
      ensures history == old(history) + [Wrote(data)]
      ensures slots[fp].Loaded? && slots[fp].size == t.size && slots[..] == old(slots[..])[fp := slots[fp]]
      ensures slots[fp].dirty <==> t.dirty || Differs(t, data)
      ensures WrittenOver(old(Abs()), data, Abs())
    {
      hide Good, Tracks, Blocks, Legal, Apply, WrittenOver;
      ghost var s := St();
      TracksGood(base, history, s);
      SlotFacts(s, fp);
      var different := Memcmp(t.buf[t.pos..t.pos + |data|], data);
      var u := t.(pos := t.pos + |data|);
      if different % 0x100 != 0 {
        u := u.(buf := t.buf[..t.pos] + data + t.buf[t.pos + |data|..], dirty := true);
      }
      WriteShows(slots[fp], t, u, data);
      WriteStep(base.boot, s, data, u);
      Install(fp, u, Wrote(data));
      WroteStepWrites(old(Abs()), data, Abs());
    }

    // --- Removing ------------------------------------------------------------------------------

    /** ss_remove(): the buffer dies, the record is deleted if NVS lets it, and the last directory
        entry closes the hole. */
    method Remove(path: bytes) returns (rc: int)
      requires Valid()
      // The file that is open is not the one removed.
      requires current >= 0 ==> Abs().open.value.hash != Hashed(path)
      modifies this`dir, this`view, this`history, slots, nvs`records, nvs`journal, nvs`refused, heap`live
      ensures Valid() && (rc == 0 || rc == -1) && nvs.refused >= old(nvs.refused)
      ensures rc == -1 <==> Hashed(path) !in old(Abs()).listing
      ensures rc == -1 ==> St() == old(St()) && history == old(history)
      ensures rc == 0 ==>
                && history == old(history) + [Removed(Hashed(path), nvs.refused == old(nvs.refused))]
                && Step(old(Abs()), Removed(Hashed(path), nvs.refused == old(nvs.refused)), Abs())
      // Every other buffered file keeps its slot, bytes, cursor and dirty bit.
      ensures rc == 0 ==> PathRemoved(old(Abs()), Hashed(path), nvs.refused == old(nvs.refused), Abs())
      ensures rc == 0 ==> exists idx :: 0 <= idx < |old(dir)| && old(dir)[idx].hash == Hashed(path)
                                        && RemovedFrom(old(dir), old(slots[..]), idx, dir, slots[..])
    {
      hide Good, Tracks, Blocks, Legal, Apply, PathRemoved;
      TracksGood(base, history, St());
      var idx := DirFind(dir, path);
      if idx < 0 {
        NotListed(base.boot, St(), Hashed(path));
        return -1;
      }
      EntryFacts(St(), idx);
      NotTheOpenOne(base.boot, St(), idx);
      RemoveAt(idx);
      RemovedStepRemoves(old(Abs()), Hashed(path), nvs.refused == old(nvs.refused), Abs());
      return 0;
    }

    method RemoveAt(idx: nat)
      requires Valid() && idx < |dir|
      requires current >= 0 ==> slots[current].Loaded? && slots[current].dirIdx != idx
      modifies this`dir, this`view, this`history, slots, nvs`records, nvs`journal, nvs`refused, heap`live
      ensures Valid() && nvs.refused >= old(nvs.refused)
      ensures history == old(history) + [Removed(old(dir)[idx].hash, nvs.refused == old(nvs.refused))]
      ensures Step(old(Abs()), Removed(old(dir)[idx].hash, nvs.refused == old(nvs.refused)), Abs())
      ensures RemovedFrom(old(dir), old(slots[..]), idx, dir, slots[..])
    {
      hide Good, Tracks, Blocks, Legal, Apply;
      ghost var s := St();
      TracksGood(base, history, s);
      DistinctSlots(s);
      Discard(idx);
      ghost var discarded := s.(slots := slots[..]);
      var gone := nvs.Write(dir[idx].key, []);
      CloseHole(idx);
      ghost var erased := gone >= 0;
      view := ViewWithout(view, s.records, s.dir[idx].key, erased);
      assert Renumbered(s.slots, slots[..], idx, |s.dir| - 1);
      RemoveStep(base.boot, s, idx, slots[..], erased);
      assert St() == Steps.Remove(s, idx, slots[..], erased);
      TrackStep(base, history, s, Removed(s.dir[idx].hash, erased), St());
      history := history + [Removed(s.dir[idx].hash, erased)];
      SameBuffers(discarded, St());
    }

    /** The last entry moves into the hole, and its slot, if it is buffered, follows it. */
    method CloseHole(idx: nat)
      requires slots.Length == MAX_ENTRIES && idx < |dir|
      requires forall i, j :: 0 <= i < j < slots.Length && slots[i].Loaded? && slots[j].Loaded? ==>
                 slots[i].dirIdx != slots[j].dirIdx
      requires forall i :: 0 <= i < slots.Length && slots[i].Loaded? ==> slots[i].dirIdx != idx
      modifies slots, this`dir
      ensures dir == Compact(old(dir), idx)
      ensures forall i :: 0 <= i < slots.Length ==>
                slots[i] == if old(slots[i]).Loaded? && old(slots[i]).dirIdx == |old(dir)| - 1
                            then old(slots[i]).(dirIdx := idx) else old(slots[i])
    {
      var last := |dir| - 1;
      if idx != last {
        dir := dir[idx := dir[last]];
        var moved := SlotFind(slots, last);
        if moved >= 0 {
          slots[moved] := slots[moved].(dirIdx := idx);
        }
      }
      dir := dir[..last];
    }

    /** The buffer of entry idx, if it has one, is freed. */
    method Discard(idx: nat)
      requires Valid()
      modifies slots, heap`live
      ensures heap.live == Blocks(old(St()).(slots := slots[..]))
      ensures forall i :: 0 <= i < slots.Length ==>
                slots[i] == if old(slots[i]).Loaded? && old(slots[i]).dirIdx == idx then Free else old(slots[i])
    {
      hide Good, Tracks, Blocks;
      ghost var s := St();
      TracksGood(base, history, s);
      var slot := SlotFind(slots, idx);
      if slot >= 0 {
        BlocksPositive(s, slot);
        BlocksChanged(s, slot, Free);
        OnlySlot(s, slot);
        heap.Free();
        slots[slot] := Free;
        assert slots[..] == s.slots[slot := Free];
      }
    }

    // --- Mounting and unmounting ---------------------------------------------------------------

    /** ss_init_fs(). A failed read of a DIR record whose length was just read trips an assertion in
        the source, which stops the firmware; here it is a failed mount. */
    method InitFs() returns (rc: int)
      requires Valid()
      modifies this`dir, this`initialized, this`history, slots, nvs`faults, heap
      ensures Valid() && (rc == 0 <==> initialized) && slots[..] == old(slots[..])
      ensures old(initialized) || rc != 0 ==> St() == old(St()) && history == old(history)
      ensures !old(initialized) && rc == 0 ==>
                && Step(old(Abs()), Mounted, Abs()) && history == old(history) + [Mounted]
                && Mountable(nvs.records) && dir == BootTable(nvs.records)
      // Unless flash or heap failed, it mounts exactly a DIR record that lists files and no two
      // names of which hash alike.
      ensures nvs.faults >= old(nvs.faults) && heap.failures >= old(heap.failures)
      ensures !old(initialized) && nvs.faults == old(nvs.faults) && heap.failures == old(heap.failures) ==>
                (rc == 0 <==> Mountable(nvs.records))
    {
      hide Good, Tracks, Blocks, Legal, Apply;
      if initialized {
        return 0;
      }
      var m := nvs.Mount();
      if m != 0 {
        return -1;
      }
      var ok, blob := ReadDir();
      if !ok {
        return -1;
      }
      rc := BuildTable(blob);
    }

    /** The DIR record, or nothing when it is absent or there is no memory for it. */
    method ReadDir() returns (ok: bool, blob: bytes)
      requires Valid()
      modifies nvs`faults, heap
      ensures heap.live == old(heap.live)
      ensures nvs.faults >= old(nvs.faults) && heap.failures >= old(heap.failures)
      ensures blob == [] || (DIR_ID in nvs.records && blob == nvs.records[DIR_ID])
      ensures nvs.faults == old(nvs.faults) && heap.failures == old(heap.failures) ==>
                ok && (DIR_ID in nvs.records ==> blob == nvs.records[DIR_ID])
    {
      var len := nvs.Length(DIR_ID);
      if len < 0 {
        len := 0;
      }
      if len == 0 {
        return true, [];
      }
      var data := heap.Alloc(len);
      if data.None? {
        return true, [];
      }
      var rc, d := nvs.Fetch(DIR_ID, len);
      heap.Free();
      if rc != len {
        return false, [];
      }
      return true, d;
    }

    method BuildTable(blob: bytes) returns (rc: int)
      requires Valid() && !initialized
      requires blob == [] || (DIR_ID in nvs.records && blob == nvs.records[DIR_ID])
      modifies this`dir, this`initialized, this`history, slots, heap
      ensures Valid() && (rc == 0 <==> initialized) && heap.failures >= old(heap.failures)
      ensures slots[..] == old(slots[..])
      ensures rc != 0 ==> St() == old(St()) && history == old(history)
      ensures rc == 0 ==>
                && Step(old(Abs()), Mounted, Abs()) && history == old(history) + [Mounted]
                && Mountable(nvs.records) && dir == BootTable(nvs.records)
      ensures heap.failures == old(heap.failures) ==>
                (rc == 0 <==> Parse(blob) != [] && !Collide(Parse(blob)))
    {
      hide Good, Tracks, Blocks, Legal, Apply, Parse, Collide;
      ghost var s := St();
      BootKept(base, history, s);
      DownMeansEmpty(s);
      forall i | 0 <= i < slots.Length {
        slots[i] := Free;
      }
      assert slots[..] == s.slots;
      var n := CountRecords(blob);
      var granted := false;
      if n > 0 {
        var table := heap.Alloc(8 * n);
        granted := table.Some?;
      }
      var count, table := TableFromBlob(blob, granted);
      if count <= 0 {
        if granted {
          heap.Free();
        }
        return 1;
      }
      dir, initialized := table, true;
      BlobMounts(s, blob);
      assert St() == s.(dir := BootTable(s.records), up := true);
      TrackStep(base, history, s, Mounted, St());
      history := history + [Mounted];
      MoreBlocks(s, St());
      return 0;
    }

    /** ss_deinit_fs(): all or nothing. A change NVS refused keeps the file system up. */
    method DeinitFs() returns (rc: int)
      requires Valid() && current < 0
      modifies this, slots, nvs`records, nvs`journal, nvs`refused, heap`live
      ensures Valid() && (rc == 0 <==> nvs.refused == old(nvs.refused)) && (rc == 0 || rc == -1)
      ensures nvs.refused >= old(nvs.refused)
      ensures rc == -1 ==>
                && Abs() == old(Abs()).(durable := nvs.records) && initialized == old(initialized)
                && dir == old(dir) && Cleaned(old(slots[..]), slots[..]) && OnlyCommits(old(history), history)
      ensures rc == 0 ==>
                && !initialized && view == old(view) == nvs.records
                && CommitsThen(old(history), Unmounted, history)
                && Abs() == Plain(base.boot, map[], old(view), old(view), None)
      // No buffer and no table is left allocated.
      ensures rc == 0 ==> heap.live == 0
    {
      hide Good, Tracks, Blocks, Legal, Apply;
      TracksGood(base, history, St());
      rc := PortCommitFs();
      if rc < 0 {
        NoOpenFile(base, history, St());
        return -1;
      }
      TearDown();
      assert Listing([]) == map[];
      NoOpenFile(base, history, St());
    }

    method TearDown()
      requires Valid() && current < 0 && AllClean(slots[..])
      modifies this`dir, this`initialized, this`history, slots, heap`live
      ensures Valid() && !initialized && dir == [] && Step(old(Abs()), Unmounted, Abs())
      ensures history == old(history) + [Unmounted] && heap.live == 0
    {
      hide Good, Tracks, Blocks, Legal, Apply;
      ghost var s := St();
      TracksGood(base, history, s);
      AllBuffers(s);
      FreeBuffers();
      forall i | 0 <= i < slots.Length {
        slots[i] := Free;
      }
      if initialized {
        heap.Free();
      }
      dir, initialized := [], false;
      UnmountStep(base.boot, s, slots[..]);
      assert St() == s.(dir := [], slots := slots[..], up := false);
      TrackStep(base, history, s, Unmounted, St());
      history := history + [Unmounted];
      EmptyBlocks(St());
    }

    method FreeBuffers()
      requires heap.live >= Buffers(slots[..])
      modifies heap`live
      ensures heap.live == old(heap.live) - Buffers(slots[..])
    {
      ghost var s := slots[..];
      for i := 0 to slots.Length
        invariant heap.live == old(heap.live) - Buffers(s[..i])
      {
        BuffersPrefix(s, i);
        BuffersMonotone(s, i + 1);
        if slots[i].Loaded? {
          heap.Free();
        }
      }
      assert s[..slots.Length] == s;
    }

    // --- Writing behind the cache --------------------------------------------------------------

    /** One provisioning step: write a record straight to NVS and clear the entry's flags. The cache
        does not see it, so the file must not be buffered. */
    method StoreRecord(path: bytes, data: bytes) returns (rc: int)
      requires Valid() && current < 0 && 1 <= |data| <= U16_MAX
      requires forall i :: 0 <= i < |dir| && dir[i].hash == Hashed(path) ==> Unbuffered(slots[..], i)
      modifies this`dir, this`view, this`history, nvs`records, nvs`journal, nvs`refused
      ensures Valid() && (rc == 0 || rc == -1)
      ensures rc == -1 ==> St() == old(St()) && history == old(history)
      ensures rc == 0 ==>
                && Step(old(Abs()), Provisioned(Hashed(path), data), Abs())
                && history == old(history) + [Provisioned(Hashed(path), data)]
      ensures rc == 0 <==> Hashed(path) in old(Abs()).listing && nvs.refused == old(nvs.refused)
      ensures nvs.refused >= old(nvs.refused)
      ensures |dir| == |old(dir)| && forall i :: 0 <= i < |dir| ==> dir[i].hash == old(dir)[i].hash
      // The record is what the path shows, in RAM and on flash; its flags are cleared, no others.
      ensures rc == 0 ==> RecordPlaced(old(Abs()), Hashed(path), data, Abs())
      ensures rc == 0 ==> forall i :: 0 <= i < |dir| ==>
                dir[i].key == old(dir)[i].key && dir[i].hits == old(dir)[i].hits
                && dir[i].flags == if dir[i].hash == Hashed(path) then 0 else old(dir)[i].flags
    {
      hide Good, Tracks, Blocks, Legal, Apply, RecordPlaced, AbsOf, Unbuffered;
      TracksGood(base, history, St());
      var idx := DirFind(dir, path);
      if idx < 0 {
        NotListed(base.boot, St(), Hashed(path));
        return -1;
      }
      IsListed(base.boot, St(), idx);
      rc := StoreAt(idx, data);
      if rc == 0 {
        ProvisionedStepPlaces(old(Abs()), Hashed(path), data, Abs());
      }
    }

    /** Once the path has been found. */
    method StoreAt(idx: nat, data: bytes) returns (rc: int)
      requires Valid() && current < 0 && 1 <= |data| <= U16_MAX && idx < |dir| && Unbuffered(slots[..], idx)
      modifies this`dir, this`view, this`history, nvs`records, nvs`journal, nvs`refused
      ensures Valid() && (rc == 0 || rc == -1)
      ensures rc == -1 ==> St() == old(St()) && history == old(history)
      ensures rc == 0 ==>
                && Step(old(Abs()), Provisioned(old(dir)[idx].hash, data), Abs())
                && history == old(history) + [Provisioned(old(dir)[idx].hash, data)]
      ensures (rc == 0 <==> nvs.refused == old(nvs.refused)) && nvs.refused >= old(nvs.refused)
      ensures rc == 0 ==> dir == old(dir)[idx := old(dir)[idx].(flags := 0)]
      ensures DistinctHashes(old(dir))
    {
      hide Good, Tracks, Legal, Apply;
      ghost var s := St();
      TracksGood(base, history, s);
      HashesDistinct(s);
      var w := nvs.Write(dir[idx].key, data);
      if w < 0 {
        return -1;
      }
      view := view[dir[idx].key := data];
      dir := dir[idx := dir[idx].(flags := 0)];
      ProvisionStep(base.boot, s, idx, data);
      assert St() == Provision(s, idx, data);
      TrackStep(base, history, s, Provisioned(s.dir[idx].hash, data), St());
      history := history + [Provisioned(s.dir[idx].hash, data)];
      return 0;
    }
  }
}
