/** Power loss and power-on of the whole device. */
module Recovery {
  import opened Bytes
  import opened SlotTable
  import opened PlainFs
  import opened Cache
  import opened Steps
  import opened Platform
  import opened Durability
  import opened FileSystems

  /** The device as it leaves the factory: flash holds a template, nothing has happened yet. */
  method FirstBoot(nvs: Nvs) returns (fs: FileSystem)
    requires Storable(nvs.records) && GoodDir(nvs.records) && nvs.journal == []
    ensures fs.Valid() && fs.nvs == nvs && fs.view == nvs.records && fs.current < 0 && !fs.initialized && fresh(fs)
  {
    ghost var base := Plain(BootListing(nvs.records), map[], nvs.records, nvs.records, None);
    BootKeys(nvs.records);
    fs := new FileSystem(nvs, base, []);
    DownMeansEmpty(fs.St());
  }

  /** All RAM state is lost at any moment, and the device boots again over the same flash: every
      file has exactly its last successfully committed contents. */
  method PowerCycle(fs: FileSystem) returns (after: FileSystem, rc: int)
    requires fs.Valid()
    modifies fs.nvs`faults
    ensures after.Valid() && after.nvs == fs.nvs && after.base == fs.base && fresh(after)
    ensures rc == 0 <==> after.initialized
    ensures after.history == fs.history + [Crashed] + if rc == 0 then [Mounted] else []
    ensures LegalRun(fs.base, fs.history)
    ensures after.view == fs.nvs.records
    ensures forall k :: Recovered(fs.base, fs.history, |fs.history|, k, after.view)
    ensures rc == 0 ==> after.Abs().listing == fs.base.boot
    // What is lost is exactly what a dirty slot held and flash did not.
    ensures forall k :: !SameRecord(fs.view, after.view, k) <==> OnlyInRam(fs.St(), k)
  {
    hide Good, Tracks, FlashStates, BaseOk, Run, Recovered, Blocks, OnlyInRam, SameRecord;
    ghost var h := fs.history;
    FlashComesBack(fs.base, h, fs.St());
    PowerOnAllowed(fs.base, h, fs.St());
    after := new FileSystem(fs.nvs, fs.base, h);
    DownView(after.base, after.history, after.St());
    rc := after.InitFs();
  }

  /** A dirty slot holds the file of k, with contents other than its record. */
  ghost predicate OnlyInRam(s: State, k: u16) {
    exists i :: 0 <= i < |s.slots| && HoldsUnsaved(s, s.slots[i], k)
  }

  ghost predicate HoldsUnsaved(s: State, t: Slot, k: u16) {
    && t.Loaded? && t.dirty && t.dirIdx < |s.dir| && KeyAt(s.dir, t) == k
    && t.len <= |t.buf| && k in s.records && Content(t) != s.records[k]
  }

  /** A power loss costs a file exactly when a dirty slot holds it with contents flash does not have:
      a clean slot, or one rewritten with what flash has, costs nothing. */
  lemma CrashLosesExactly(boot: map<u32, File>, s: State, k: u16)
    requires Good(s)
    ensures !SameRecord(AbsOf(boot, s).view, Crash(AbsOf(boot, s)).view, k) <==> OnlyInRam(s, k)
    ensures !SameRecord(s.view, s.records, k) <==> OnlyInRam(s, k)
  {
    if OnlyInRam(s, k) {
      var i :| 0 <= i < |s.slots| && HoldsUnsaved(s, s.slots[i], k);
      assert SlotAgrees(s.records, s.dir, s.slots[i], s.view);
    }
    if k in s.records && s.view[k] != s.records[k] {
      assert Unsaved(s.dir, s.slots, k);
      var i :| 0 <= i < |s.slots| && s.slots[i].Loaded? && s.slots[i].dirIdx < |s.dir| && s.slots[i].dirty
               && s.dir[s.slots[i].dirIdx].key == k;
      assert SlotAgrees(s.records, s.dir, s.slots[i], s.view);
      assert HoldsUnsaved(s, s.slots[i], k);
    }
  }

  /** Every state NVS has been in, as its journal tells, is what the run up to that write says. */
  lemma JournalConsistent(fs: FileSystem, j: nat, k: u16) returns (n: nat)
    requires fs.Valid() && j < |fs.nvs.journal|
    ensures LegalRun(fs.base, fs.history)
    ensures 0 < n <= |fs.history| && Writes(fs.history[n - 1]) && WriteCount(fs.history[..n]) == j + 1
    ensures Recovered(fs.base, fs.history, n, k, fs.nvs.journal[j])
  {
    hide Good, Run, Recovered;
    n := EveryFlashStateConsistent(fs.base, fs.history, j, k);
  }

  /** Unmount and mount again: every listed path is listed under its key with its contents. If the
      unmount fails, because NVS refused a write, everything is as it was. */
  method Remount(fs: FileSystem) returns (down: int, up: int)
    requires fs.Valid() && fs.current < 0
    modifies fs, fs.slots, fs.nvs, fs.heap
    ensures fs.Valid() && fs.current < 0 && fs.view == old(fs.view)
    ensures (down == 0 <==> fs.nvs.refused == old(fs.nvs.refused)) && fs.nvs.refused >= old(fs.nvs.refused)
    ensures down != 0 ==>
              up != 0 && fs.Abs() == old(fs.Abs()).(durable := fs.nvs.records) && fs.initialized == old(fs.initialized)
    ensures down == 0 ==> (up == 0 <==> fs.initialized) && fs.Abs().durable == fs.view
    ensures down == 0 ==> fs.Abs().listing == if up == 0 then fs.base.boot else map[]
    ensures up == 0 ==> forall hash :: hash in old(fs.Abs()).listing ==>
              && hash in fs.Abs().listing && fs.Abs().listing[hash].key == old(fs.Abs()).listing[hash].key
              && SameRecord(old(fs.view), fs.view, fs.Abs().listing[hash].key)
    // Unless flash or heap failed, what was mounted mounts again.
    ensures fs.nvs.faults >= old(fs.nvs.faults) && fs.heap.failures >= old(fs.heap.failures)
    ensures down == 0 && old(fs.Abs()).listing != map[] ==>
              fs.nvs.faults == old(fs.nvs.faults) && fs.heap.failures == old(fs.heap.failures) ==> up == 0
  {
    hide Good, Tracks, Blocks, Legal, Run, FlashStates;
    ListingInBoot(fs.base, fs.history, fs.St());
    down := fs.DeinitFs();
    if down != 0 {
      return down, -1;
    }
    DownView(fs.base, fs.history, fs.St());
    MountableBoot(fs.base, fs.history, fs.St());
    up := fs.InitFs();
    if up == 0 {
      MountShows(fs.base.boot, old(fs.view), fs.Abs());
    }
  }

  lemma ListingInBoot(base: Plain, h: seq<Event>, s: State)
    requires Tracks(base, h, s)
    ensures Good(s)
    ensures var p := AbsOf(base.boot, s);
            && (forall hash :: hash in p.listing ==> hash in p.boot && p.listing[hash].key == p.boot[hash].key)
            && (p.listing != map[] ==> base.boot != map[])
  {
    hide Good, Run;
    var p := AbsOf(base.boot, s);
    if p.listing != map[] {
      var hash :| hash in p.listing;
      assert hash in base.boot;
    }
  }

  lemma MountShows(boot: map<u32, File>, view: map<u16, bytes>, q: Plain)
    requires Step(Plain(boot, map[], view, view, None), Mounted, q)
    ensures q.listing == boot && q.view == view && q.durable == view
  {
  }

  /** A path whose removal reached flash does not open after a remount, which lists it again. */
  method ReopenRemoved(fs: FileSystem, path: bytes) returns (rc: int, fp: int, ghost erased: bool)
    requires fs.Valid() && fs.current < 0
    modifies fs, fs.slots, fs.nvs, fs.heap
    ensures fs.Valid()
    ensures rc == 0 <==> Hashed(path) in old(fs.Abs()).listing
    ensures rc == 0 && erased ==> fp == NO_FILE
    ensures fs.nvs.refused == old(fs.nvs.refused) ==> erased
  {
    hide Good, Tracks, Blocks, Run, FlashStates, Hashed;
    ListingInBoot(fs.base, fs.history, fs.St());
    ghost var before := fs.Abs();
    rc := fs.Remove(path);
    erased := fs.nvs.refused == old(fs.nvs.refused);
    ghost var gone := fs.Abs();
    var down, up := Remount(fs);
    if rc == 0 && erased {
      GoneUnlisted(before, gone, Hashed(path));
      assert !HasContents(fs.Abs(), Hashed(path));
    }
    ghost var again := fs.Abs();
    fp := fs.Fopen(path);
    assert HasContents(fs.Abs(), Hashed(path)) ==> HasContents(again, Hashed(path));
  }

  lemma GoneUnlisted(p: Plain, q: Plain, hash: u32)
    requires Step(p, Removed(hash, true), q) && hash in p.boot && p.listing[hash].key == p.boot[hash].key
    ensures hash !in q.listing && p.boot[hash].key !in q.view && q.boot == p.boot
  {
  }

  /** Flash is at every moment what a power loss must bring back. */
  lemma FlashIsRecovered(base: Plain, h: seq<Event>, s: State, k: u16)
    requires Tracks(base, h, s)
    ensures LegalRun(base, h) && Recovered(base, h, |h|, k, s.records)
  {
    hide Good;
    assert h[..|h|] == h;
    CrashConsistency(base, h, |h|, k);
  }

  lemma FlashComesBack(base: Plain, h: seq<Event>, s: State)
    requires Tracks(base, h, s)
    ensures LegalRun(base, h) && forall k :: Recovered(base, h, |h|, k, s.records)
    ensures forall k :: !SameRecord(s.view, s.records, k) <==> OnlyInRam(s, k)
  {
    hide Good, Run, Recovered, OnlyInRam;
    forall k
      ensures LegalRun(base, h) && Recovered(base, h, |h|, k, s.records)
      ensures !SameRecord(s.view, s.records, k) <==> OnlyInRam(s, k)
    {
      FlashIsRecovered(base, h, s, k);
      CrashLosesExactly(base.boot, s, k);
    }
  }

  lemma PowerOnAllowed(base: Plain, h: seq<Event>, s: State)
    requires Tracks(base, h, s)
    ensures BaseOk(base) && LegalRun(base, h) && Run(base, h).value.durable == s.records
    ensures FlashStates(base, h) == s.journal
  {
    hide Good;
  }

  lemma DownView(base: Plain, h: seq<Event>, s: State)
    requires Tracks(base, h, s) && !s.up
    ensures s.view == s.records && Good(s) && AbsOf(base.boot, s).listing == map[]
  {
    hide Run;
    DownMeansEmpty(s);
  }
}
