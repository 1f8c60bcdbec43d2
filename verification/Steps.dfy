/** Each change lib/ss_fs.c makes to its state, as a step of the plain file system or as invisible. */
module Steps {
  import opened Bytes
  import opened DirTable
  import opened SlotTable
  import opened PlainFs
  import opened Cache

  const NO_FILE := -1

  /** Flash and its past, the static variables of lib/ss_fs.c, the contents they show and the slot
      that is open. */
  datatype State = State(records: map<u16, bytes>, journal: seq<map<u16, bytes>>,
                         dir: seq<Entry>, slots: seq<Slot>, up: bool,
                         view: map<u16, bytes>, current: int)

  /** The slot-table invariant, kept by every operation. */
  ghost predicate Good(s: State) {
    && DirOk(s.dir) && SlotsOk(s.dir, s.slots)
    && (!s.up ==> s.dir == [])
    && NO_FILE <= s.current < MAX_ENTRIES
    && (s.current >= 0 ==> s.slots[s.current].Loaded?)
    && Storable(s.records) && Coherent(s.records, s.dir, s.slots, s.view)
  }

  ghost function HashAt(s: State, i: nat): u32
    requires Good(s) && i < MAX_ENTRIES && s.slots[i].Loaded?
  {
    s.dir[s.slots[i].dirIdx].hash
  }

  ghost function OpenOf(s: State): Option<Handle>
    requires Good(s)
  {
    if s.current < 0 then None else Some(Handle(HashAt(s, s.current), s.slots[s.current].pos))
  }

  /** The plain file system a state stands for. */
  ghost function AbsOf(boot: map<u32, File>, s: State): Plain
    requires Good(s)
  {
    Plain(boot, Listing(s.dir), s.view, s.records, OpenOf(s))
  }

  /** A change nobody can observe. */
  ghost predicate Invisible(s: State, t: State)
    requires Good(s)
  {
    Good(t) && AbsOf(map[], t) == AbsOf(map[], s)
  }

  /** A change that is the event e. */
  ghost predicate Refines(boot: map<u32, File>, s: State, e: Event, t: State)
    requires Good(s)
  {
    Good(t) && Legal(AbsOf(boot, s), e) && Apply(AbsOf(boot, s), e) == AbsOf(boot, t)
  }

  // --- Facts a step needs ----------------------------------------------------------------------

  lemma SlotFacts(s: State, i: nat)
    requires Good(s) && i < MAX_ENTRIES && s.slots[i].Loaded?
    ensures var t := s.slots[i];
            && t.dirIdx < |s.dir| && 1 <= t.len <= t.size && |t.buf| == t.size
            && KeyAt(s.dir, t) in s.records && KeyAt(s.dir, t) in s.view
            && s.view[KeyAt(s.dir, t)] == Content(t)
            && (!t.dirty ==> s.records[KeyAt(s.dir, t)] == Content(t))
            && KeyAt(s.dir, t) != DIR_ID
            && HashAt(s, i) in Listing(s.dir) && Listing(s.dir)[HashAt(s, i)] == FileOf(s.dir[t.dirIdx])
  {
    assert SlotOk(s.slots[i], |s.dir|) && SlotAgrees(s.records, s.dir, s.slots[i], s.view);
    ListingHas(s.dir, s.slots[i].dirIdx);
  }

  /** The open file of the plain system is the one in the current slot. */
  lemma CurrentFacts(boot: map<u32, File>, s: State)
    requires Good(s) && s.current >= 0
    ensures IsOpen(AbsOf(boot, s))
    ensures OpenKey(AbsOf(boot, s)) == KeyAt(s.dir, s.slots[s.current])
    ensures AbsOf(boot, s).view[OpenKey(AbsOf(boot, s))] == Content(s.slots[s.current])
  {
    SlotFacts(s, s.current);
  }

  // --- Steps -----------------------------------------------------------------------------------

  ghost function Commit(s: State, i: nat): State
    requires Good(s) && i < MAX_ENTRIES && s.slots[i].Loaded?
  {
    SlotFacts(s, i);
    var flash := s.records[KeyAt(s.dir, s.slots[i]) := Content(s.slots[i])];
    s.(records := flash, journal := s.journal + [flash],
       slots := s.slots[i := s.slots[i].(dirty := false)])
  }

  lemma CommitStep(boot: map<u32, File>, s: State, i: nat)
    requires Good(s) && i < MAX_ENTRIES && s.slots[i].Loaded?
    ensures Refines(boot, s, Committed(KeyAt(s.dir, s.slots[i])), Commit(s, i))
  {
    hide Coherent, DirOk;
    SlotFacts(s, i);
    var t, key := s.slots[i].(dirty := false), KeyAt(s.dir, s.slots[i]);
    SlotReplaced(s.records, s.dir, s.slots, s.view, i, t, Content(t));
    assert s.view[key := Content(t)] == s.view;
  }

  ghost function Touch(s: State, idx: nat, e: Entry): State
    requires idx < |s.dir|
  {
    s.(dir := s.dir[idx := e])
  }

  lemma TouchStep(s: State, idx: nat, e: Entry)
    requires Good(s) && idx < |s.dir| && e.(hits := 0) == s.dir[idx].(hits := 0)
    ensures Invisible(s, Touch(s, idx, e))
  {
    ListingUpdated(s.dir, idx, e);
    EntryTouched(s.records, s.dir, s.slots, s.view, idx, e);
  }

  ghost function Drop(s: State, i: nat): State
    requires i < |s.slots|
  {
    s.(slots := s.slots[i := Free])
  }

  lemma DropStep(s: State, i: nat)
    requires Good(s) && i < MAX_ENTRIES && i != s.current && (s.slots[i].Loaded? ==> !s.slots[i].dirty)
    ensures Invisible(s, Drop(s, i))
  {
    SlotDropped(s.records, s.dir, s.slots, s.view, i);
  }

  ghost function Fill(s: State, i: nat, t: Slot): State
    requires i < |s.slots|
  {
    s.(slots := s.slots[i := t])
  }

  lemma FillStep(s: State, i: nat, t: Slot)
    requires Good(s) && i < MAX_ENTRIES && s.slots[i].Free?
    requires t.Loaded? && SlotOk(t, |s.dir|) && Unbuffered(s.slots, t.dirIdx) && !t.dirty
    requires KeyAt(s.dir, t) in s.records && Content(t) == s.records[KeyAt(s.dir, t)]
    ensures Invisible(s, Fill(s, i, t))
  {
    SlotFilled(s.records, s.dir, s.slots, s.view, i, t);
  }

  /** The slot of an open file changes; the view follows. */
  ghost function Update(s: State, i: nat, t: Slot): State
    requires i < |s.slots| && t.Loaded? && t.dirIdx < |s.dir| && t.len <= |t.buf|
  {
    s.(slots := s.slots[i := t], view := s.view[KeyAt(s.dir, t) := Content(t)])
  }

  lemma UpdateGood(s: State, i: nat, t: Slot)
    requires Good(s) && i < MAX_ENTRIES && s.slots[i].Loaded?
    requires t.Loaded? && SlotOk(t, |s.dir|) && t.dirIdx == s.slots[i].dirIdx
    requires t.dirty || (!s.slots[i].dirty && Content(t) == Content(s.slots[i]))
    ensures Good(Update(s, i, t))
  {
    SlotFacts(s, i);
    var key := KeyAt(s.dir, t);
    SlotReplaced(s.records, s.dir, s.slots, s.view, i, t, s.records[key]);
    assert s.records[key := s.records[key]] == s.records;
  }

  /** Only the cursor, the spare capacity or nothing at all changes. */
  lemma MoveGood(s: State, i: nat, t: Slot)
    requires Good(s) && i < MAX_ENTRIES && s.slots[i].Loaded?
    requires t.Loaded? && SlotOk(t, |s.dir|) && t.dirIdx == s.slots[i].dirIdx
    requires t.dirty == s.slots[i].dirty && Content(t) == Content(s.slots[i])
    ensures Good(Fill(s, i, t))
  {
    SlotFacts(s, i);
    UpdateGood(s, i, t);
    assert Update(s, i, t) == Fill(s, i, t) by {
      assert s.view[KeyAt(s.dir, t) := Content(t)] == s.view;
    }
  }

  ghost function Open(s: State, i: nat): State
    requires i < |s.slots| && s.slots[i].Loaded?
  {
    s.(slots := s.slots[i := s.slots[i].(pos := 0)], current := i)
  }

  lemma OpenStep(boot: map<u32, File>, s: State, i: nat)
    requires Good(s) && i < MAX_ENTRIES && s.slots[i].Loaded? && s.current < 0
    ensures Refines(boot, s, Opened(HashAt(s, i)), Open(s, i))
  {
    hide Coherent, DirOk;
    SlotFacts(s, i);
    MoveGood(s, i, s.slots[i].(pos := 0));
  }

  lemma ReadStep(boot: map<u32, File>, s: State, size: nat, count: nat, data: bytes)
    requires Good(s) && s.current >= 0
    requires var t := s.slots[s.current];
             t.pos <= t.len && data == Content(t)[t.pos..t.pos + size * Elements(t.len, t.pos, size, count)]
    ensures var t := s.slots[s.current];
            Refines(boot, s, Read(size, count, data), Fill(s, s.current, t.(pos := t.pos + |data|)))
  {
    hide Coherent, DirOk;
    CurrentFacts(boot, s);
    SlotFacts(s, s.current);
    var t := s.slots[s.current];
    MoveGood(s, s.current, t.(pos := t.pos + |data|));
  }

  lemma SeekStep(boot: map<u32, File>, s: State, offset: int, whence: int)
    requires Good(s) && s.current >= 0 && s.slots[s.current].len >= 1
    ensures var t := s.slots[s.current];
            Refines(boot, s, Sought(offset, whence),
                    Fill(s, s.current, t.(pos := SeekTarget(t.pos, t.len, offset, whence))))
  {
    hide Coherent, DirOk;
    CurrentFacts(boot, s);
    SlotFacts(s, s.current);
    var t := s.slots[s.current];
    MoveGood(s, s.current, t.(pos := SeekTarget(t.pos, t.len, offset, whence)));
  }

  /** t is the current slot after `data` was laid over its buffer at the cursor. */
  lemma WriteStep(boot: map<u32, File>, s: State, data: bytes, t: Slot)
    requires Good(s) && s.current >= 0
    requires t.Loaded? && SlotOk(t, |s.dir|) && t.dirIdx == s.slots[s.current].dirIdx
    requires t.dirty || (!s.slots[s.current].dirty && Content(t) == Content(s.slots[s.current]))
    requires t.pos == s.slots[s.current].pos + |data|
    requires s.slots[s.current].len <= |s.slots[s.current].buf|
    requires Content(t) == Overlay(Content(s.slots[s.current]), s.slots[s.current].pos, data)
    ensures Refines(boot, s, Wrote(data), Update(s, s.current, t))
  {
    hide Coherent, DirOk;
    CurrentFacts(boot, s);
    UpdateGood(s, s.current, t);
  }

  /** t is the current slot after one byte was put at the cursor. */
  lemma PutStep(boot: map<u32, File>, s: State, c: byte, hole: bytes, t: Slot)
    requires Good(s) && s.current >= 0
    requires t.Loaded? && SlotOk(t, |s.dir|) && t.dirIdx == s.slots[s.current].dirIdx && t.dirty
    requires s.slots[s.current].pos < U16_MAX && t.pos == s.slots[s.current].pos + 1
    requires s.slots[s.current].len <= |s.slots[s.current].buf|
    requires var u := s.slots[s.current];
             && |hole| == (if u.pos > u.len then u.pos - u.len else 0)
             && Content(t) == PutByte(Content(u), u.pos, c, hole)
    ensures Refines(boot, s, Put(c, hole), Update(s, s.current, t))
  {
    hide Coherent, DirOk;
    CurrentFacts(boot, s);
    UpdateGood(s, s.current, t);
  }

  ghost function Close(s: State): State
    requires 0 <= s.current < |s.slots| && s.slots[s.current].Loaded?
  {
    s.(slots := s.slots[s.current := s.slots[s.current].(pos := 0)], current := NO_FILE)
  }

  lemma CloseStep(boot: map<u32, File>, s: State, rc: int)
    requires Good(s) && s.current >= 0
    requires s.slots[s.current].dirIdx < |s.dir|
    requires rc == 0 && s.dir[s.slots[s.current].dirIdx].flags >= 0x80 ==> !s.slots[s.current].dirty
    ensures Refines(boot, s, Closed(rc), Close(s))
  {
    hide Coherent, DirOk;
    CurrentFacts(boot, s);
    SlotFacts(s, s.current);
    MoveGood(s, s.current, s.slots[s.current].(pos := 0));
  }

  ghost function Remove(s: State, idx: nat, after: seq<Slot>, erased: bool): State
    requires idx < |s.dir|
  {
    var key := s.dir[idx].key;
    var flash := Erased(s.records, key, erased);
    s.(records := flash, journal := if erased then s.journal + [flash] else s.journal,
       dir := Compact(s.dir, idx), slots := after,
       view := ViewWithout(s.view, s.records, key, erased))
  }

  lemma RemoveGood(s: State, idx: nat, after: seq<Slot>, erased: bool)
    requires Good(s) && idx < |s.dir| && Renumbered(s.slots, after, idx, |s.dir| - 1)
    requires s.current >= 0 ==> s.slots[s.current].dirIdx != idx
    ensures Good(Remove(s, idx, after, erased))
    ensures OpenOf(Remove(s, idx, after, erased)) == OpenOf(s)
    ensures s.current >= 0 ==> OpenOf(s).value.hash != s.dir[idx].hash
  {
    hide Coherent;
    CompactListing(s.dir, idx);
    FileRemoved(s.records, s.dir, s.slots, after, s.view, idx, erased);
    if s.current >= 0 {
      OthersKept(s.dir, s.slots, after, idx, s.current);
      assert SlotOk(s.slots[s.current], |s.dir|);
    }
  }

  lemma RemoveStep(boot: map<u32, File>, s: State, idx: nat, after: seq<Slot>, erased: bool)
    requires Good(s) && idx < |s.dir| && Renumbered(s.slots, after, idx, |s.dir| - 1)
    requires s.current >= 0 ==> s.slots[s.current].dirIdx != idx
    ensures Refines(boot, s, Removed(s.dir[idx].hash, erased), Remove(s, idx, after, erased))
  {
    hide Coherent, DirOk, SlotsOk, Compact;
    ListingHas(s.dir, idx);
    CompactListing(s.dir, idx);
    RemoveGood(s, idx, after, erased);
  }

  ghost function Provision(s: State, idx: nat, data: bytes): State
    requires idx < |s.dir|
  {
    var key := s.dir[idx].key;
    var flash := s.records[key := data];
    s.(records := flash, journal := s.journal + [flash], view := s.view[key := data],
       dir := s.dir[idx := s.dir[idx].(flags := 0)])
  }

  lemma ProvisionStep(boot: map<u32, File>, s: State, idx: nat, data: bytes)
    requires Good(s) && s.current < 0 && idx < |s.dir| && Unbuffered(s.slots, idx) && 1 <= |data| <= U16_MAX
    ensures Refines(boot, s, Provisioned(s.dir[idx].hash, data), Provision(s, idx, data))
  {
    hide Coherent, DirOk;
    var e := s.dir[idx].(flags := 0);
    ListingHas(s.dir, idx);
    ListingUpdated(s.dir, idx, e);
    RecordStored(s.records, s.dir, s.slots, s.view, idx, data);
    EntryTouched(s.records[e.key := data], s.dir, s.slots, s.view[e.key := data], idx, e);
  }

  ghost predicate NoSlots(s: State) {
    forall i :: 0 <= i < |s.slots| ==> s.slots[i].Free?
  }

  lemma DownMeansEmpty(s: State)
    requires Good(s) && !s.up
    ensures NoSlots(s) && s.current < 0 && s.view == s.records && Listing(s.dir) == map[]
  {
    assert forall i :: 0 <= i < |s.slots| ==> SlotOk(s.slots[i], |s.dir|);
    CleanMeansSynced(s.records, s.dir, s.slots, s.view);
  }

  lemma MountStep(s: State)
    requires Good(s) && !s.up && Mountable(s.records) && GoodDir(s.records)
    ensures Refines(BootListing(s.records), s, Mounted, s.(dir := BootTable(s.records), up := true))
  {
    DownMeansEmpty(s);
    var dir := BootTable(s.records);
    ListingHas(dir, 0);
  }

  lemma UnmountStep(boot: map<u32, File>, s: State, after: seq<Slot>)
    requires Good(s) && s.current < 0 && AllClean(s.slots)
    requires |after| == MAX_ENTRIES && forall i :: 0 <= i < |after| ==> after[i].Free?
    ensures Refines(boot, s, Unmounted, s.(dir := [], slots := after, up := false))
  {
    CleanMeansSynced(s.records, s.dir, s.slots, s.view);
    assert Listing([]) == map[];
  }

  // --- Following a run -------------------------------------------------------------------------

  ghost predicate BaseOk(base: Plain) {
    Inv(base) && base.open.None? && GoodDir(base.durable) && base.boot == BootListing(base.durable)
  }

  /** The state is where the plain file system is after the run h. */
  ghost predicate Tracks(base: Plain, h: seq<Event>, s: State) {
    && BaseOk(base) && Good(s) && Run(base, h) == Some(AbsOf(base.boot, s)) && Inv(AbsOf(base.boot, s))
    && s.journal == FlashStates(base, h)
  }

  /** The journal follows the event. */
  ghost predicate Journaled(s: State, e: Event, t: State) {
    t.journal == s.journal + if Writes(e) then [t.records] else []
  }

  lemma TracksGood(base: Plain, h: seq<Event>, s: State)
    requires Tracks(base, h, s)
    ensures Good(s) && LegalRun(base, h) && Inv(AbsOf(base.boot, s))
  {
  }

  lemma TrackStep(base: Plain, h: seq<Event>, s: State, e: Event, t: State)
    requires Tracks(base, h, s) && Refines(base.boot, s, e, t) && Journaled(s, e, t)
    ensures Tracks(base, h + [e], t)
  {
    hide Good, Legal, Apply;
    Extend(base, h, e);
    FlashExtend(base, h, e);
    InvStep(AbsOf(base.boot, s), e);
  }

  lemma TrackInvisible(base: Plain, h: seq<Event>, s: State, t: State)
    requires Tracks(base, h, s) && Invisible(s, t) && t.journal == s.journal
    ensures Tracks(base, h, t)
  {
    hide Good, Run, FlashStates;
  }

  /** Heap blocks a state accounts for: its buffers and, once mounted, the directory table. */
  ghost function Blocks(s: State): nat {
    Buffers(s.slots) + if s.up then 1 else 0
  }

  /** h1 is h0 and then nothing but commits. */
  ghost predicate OnlyCommits(h0: seq<Event>, h1: seq<Event>) {
    h0 <= h1 && forall j :: |h0| <= j < |h1| ==> h1[j].Committed?
  }

  lemma AtMostOneCommit(h: seq<Event>, k: u16)
    ensures OnlyCommits(h, h) && OnlyCommits(h, h + [Committed(k)])
  {
  }

  /** h1 is h0, then nothing but commits, then e. */
  ghost predicate CommitsThen(h0: seq<Event>, e: Event, h1: seq<Event>) {
    |h1| > 0 && h1[|h1| - 1] == e && OnlyCommits(h0, h1[..|h1| - 1])
  }

  /** The same slots, some of them cleaned. */
  ghost predicate Cleaned(before: seq<Slot>, after: seq<Slot>) {
    && |after| == |before|
    && forall i :: 0 <= i < |before| ==>
         after[i] == before[i] || (before[i].Loaded? && after[i] == before[i].(dirty := false))
  }

  lemma EmptyGood(s: State)
    requires s.dir == [] && !s.up && s.view == s.records && s.current == NO_FILE
    requires |s.slots| == MAX_ENTRIES && NoSlots(s) && Storable(s.records)
    ensures Good(s) && Blocks(s) == 0
    ensures AbsOf(map[], s) == Plain(map[], map[], s.records, s.records, None)
  {
    NoBuffers(s.slots);
    assert Listing([]) == map[];
  }

  lemma PowerOn(base: Plain, past: seq<Event>, s: State)
    requires BaseOk(base) && LegalRun(base, past) && Run(base, past).value.durable == s.records
    requires s.journal == FlashStates(base, past)
    requires s.dir == [] && !s.up && s.view == s.records && s.current == NO_FILE
    requires |s.slots| == MAX_ENTRIES && NoSlots(s)
    ensures Tracks(base, past + [Crashed], s) && Blocks(s) == 0
  {
    hide GoodDir, BootListing, Good, FlashStates, Blocks;
    InvRun(base, past);
    EmptyGood(s);
    Extend(base, past, Crashed);
    FlashExtend(base, past, Crashed);
    InvStep(Run(base, past).value, Crashed);
  }

  lemma SameBlocks(s: State, t: State, i: nat)
    requires i < |s.slots| && |t.slots| == |s.slots| && t.up == s.up
    requires t.slots == s.slots[i := t.slots[i]] && (t.slots[i].Loaded? <==> s.slots[i].Loaded?)
    ensures Blocks(t) == Blocks(s)
  {
    BuffersUpdated(s.slots, i, t.slots[i]);
  }

  lemma CleanIsSynced(s: State)
    requires Good(s) && AllClean(s.slots)
    ensures s.view == s.records
  {
    CleanMeansSynced(s.records, s.dir, s.slots, s.view);
  }

  lemma SlotsIndexed(s: State)
    requires Good(s)
    ensures Indexed(s.dir, s.slots) && |s.slots| == MAX_ENTRIES
  {
    assert forall i :: 0 <= i < |s.slots| ==> SlotOk(s.slots[i], |s.dir|);
  }

  /** A listed path is listed under its entry's key. */
  lemma EntryFacts(s: State, idx: nat)
    requires Good(s) && idx < |s.dir|
    ensures s.dir[idx].hash in Listing(s.dir) && Listing(s.dir)[s.dir[idx].hash] == FileOf(s.dir[idx])
    ensures s.view.Keys == s.records.Keys && s.up
    ensures forall k :: k in s.records ==> 1 <= |s.records[k]| <= U16_MAX
    ensures Unbuffered(s.slots, idx) ==> SameRecord(s.view, s.records, s.dir[idx].key)
  {
    ListingHas(s.dir, idx);
    if Unbuffered(s.slots, idx) {
      UnbufferedSynced(s.records, s.dir, s.slots, s.view, idx);
    }
  }

  lemma HashesDistinct(s: State)
    requires Good(s)
    ensures DistinctHashes(s.dir)
  {
  }

  lemma NotListed(boot: map<u32, File>, s: State, hash: u32)
    requires Good(s) && forall j :: 0 <= j < |s.dir| ==> s.dir[j].hash != hash
    ensures hash !in AbsOf(boot, s).listing
  {
  }

  lemma IsListed(boot: map<u32, File>, s: State, idx: nat)
    requires Good(s) && idx < |s.dir|
    ensures s.dir[idx].hash in AbsOf(boot, s).listing
  {
  }

  /** A path that is listed and whose file exists. */
  ghost predicate HasContents(p: Plain, hash: u32) {
    hash in p.listing && p.listing[hash].key in p.view
  }

  lemma NoOpenFile(base: Plain, h: seq<Event>, s: State)
    requires Tracks(base, h, s) && s.current < 0
    ensures Good(s) && AbsOf(base.boot, s).open == None
  {
  }

  lemma BlocksChanged(s: State, i: nat, t: Slot)
    requires i < |s.slots|
    ensures Blocks(s.(slots := s.slots[i := t])) ==
            Blocks(s) - (if s.slots[i].Loaded? then 1 else 0) + (if t.Loaded? then 1 else 0)
  {
    BuffersUpdated(s.slots, i, t);
  }

  lemma BlocksPositive(s: State, i: nat)
    requires i < |s.slots| && s.slots[i].Loaded?
    ensures Blocks(s) > 0
  {
    BuffersPositive(s.slots, i);
  }

  lemma ReadFits(len: nat, pos: nat, size: nat, count: nat)
    requires pos <= len && size > 0
    ensures var most := (len - pos) / size;
            var n := if count > most then most else count;
            n == Elements(len, pos, size, count) && pos + n * size <= len && n * size == size * n
  {
  }

  ghost predicate OpenIsEager(p: Plain) {
    IsOpen(p) && p.listing[p.open.value.hash].eager
  }

  lemma CurrentLoaded(s: State)
    requires Good(s) && s.current >= 0
    ensures s.current < MAX_ENTRIES == |s.slots| && s.slots[s.current].Loaded?
  {
  }

  /** t is the slot s with at least its buffer. */
  ghost predicate Grown(s: Slot, t: Slot)
    requires s.Loaded?
  {
    t.Loaded? && s.buf <= t.buf && |t.buf| == t.size && t == s.(buf := t.buf, size := t.size)
  }

  lemma PutShows(s: Slot, t: Slot, u: Slot, b: byte, hole: bytes)
    requires s.Loaded? && Grown(s, t) && s.len <= |s.buf| && t.pos < t.size
    requires u == t.(buf := t.buf[t.pos := b], pos := t.pos + 1, dirty := true,
                     len := if t.len >= t.pos + 1 then t.len else t.pos + 1)
    requires hole == if t.pos > t.len then t.buf[t.len..t.pos] else []
    ensures Content(u) == PutByte(Content(s), s.pos, b, hole)
  {
    assert Content(s) == t.buf[..t.len];
    if t.pos >= t.len {
      assert t.buf[t.pos := b][..t.pos + 1] == t.buf[..t.pos] + [b];
      assert t.buf[..t.pos] == t.buf[..t.len] + t.buf[t.len..t.pos];
    }
  }

  lemma WriteShows(s: Slot, t: Slot, u: Slot, data: bytes)
    requires s.Loaded? && Grown(s, t) && s.len <= |s.buf| && t.pos + |data| <= t.size
    requires (u == t.(pos := t.pos + |data|) && t.buf[t.pos..t.pos + |data|] == data)
          || u == t.(pos := t.pos + |data|, buf := t.buf[..t.pos] + data + t.buf[t.pos + |data|..], dirty := true)
    ensures |u.buf| == u.size && Content(u) == Overlay(Content(s), s.pos, data)
  {
    var over := t.buf[..t.pos] + data + t.buf[t.pos + |data|..];
    if u.buf == t.buf {
      assert t.buf == t.buf[..t.pos] + t.buf[t.pos..t.pos + |data|] + t.buf[t.pos + |data|..];
    }
    assert u.buf == over;
    assert Content(s) == t.buf[..t.len];
  }

  lemma OnlySlot(s: State, i: nat)
    requires Good(s) && i < MAX_ENTRIES && s.slots[i].Loaded?
    ensures forall j :: 0 <= j < |s.slots| && j != i && s.slots[j].Loaded? ==> s.slots[j].dirIdx != s.slots[i].dirIdx
  {
  }

  lemma DistinctSlots(s: State)
    requires Good(s)
    ensures forall i, j :: 0 <= i < j < |s.slots| && s.slots[i].Loaded? && s.slots[j].Loaded? ==>
              s.slots[i].dirIdx != s.slots[j].dirIdx
  {
  }

  /** Blocks depend on which slots are in use, not on what they hold. */
  lemma SameBuffers(s: State, t: State)
    requires |s.slots| == |t.slots| && s.up == t.up
    requires forall i :: 0 <= i < |s.slots| ==> (s.slots[i].Loaded? <==> t.slots[i].Loaded?)
    ensures Blocks(s) == Blocks(t)
  {
    EqualBuffers(s.slots, t.slots);
  }

  lemma NotTheOpenOne(boot: map<u32, File>, s: State, idx: nat)
    requires Good(s) && idx < |s.dir|
    requires s.current >= 0 ==> AbsOf(boot, s).open.value.hash != s.dir[idx].hash
    ensures s.current >= 0 ==> s.slots[s.current].Loaded? && s.slots[s.current].dirIdx != idx
  {
  }

  /** The DIR record never changes, so it still lists what it listed at the start. */
  lemma BootKept(base: Plain, h: seq<Event>, s: State)
    requires Tracks(base, h, s)
    ensures Good(s) && GoodDir(s.records) && BootListing(s.records) == base.boot
  {
    hide Good, Run;
    InvRun(base, h);
    BootStable(base.durable, s.records);
  }

  lemma BootStable(a: map<u16, bytes>, b: map<u16, bytes>)
    requires SameRecord(a, b, DIR_ID)
    ensures BootListing(a) == BootListing(b) && (GoodDir(a) <==> GoodDir(b))
  {
  }

  lemma BlobMounts(s: State, blob: bytes)
    requires Good(s) && !s.up && GoodDir(s.records)
    requires Parse(blob) != [] && !Collide(Parse(blob))
    requires blob == [] || (DIR_ID in s.records && blob == s.records[DIR_ID])
    ensures Mountable(s.records) && BootTable(s.records) == Entries(Parse(blob))
    ensures Refines(BootListing(s.records), s, Mounted, s.(dir := BootTable(s.records), up := true))
  {
    hide Good, Refines;
    MountStep(s);
  }

  lemma MoreBlocks(s: State, t: State)
    requires t.slots == s.slots && t.up && !s.up
    ensures Blocks(t) == Blocks(s) + 1
  {
  }

  lemma AllBuffers(s: State)
    ensures Blocks(s) == Buffers(s.slots) + if s.up then 1 else 0
  {
  }

  lemma {:induction false} BuffersMonotone(slots: seq<Slot>, i: nat)
    requires i <= |slots|
    ensures Buffers(slots[..i]) <= Buffers(slots)
    decreases |slots|
  {
    if i < |slots| {
      BuffersMonotone(slots[..|slots| - 1], i);
      assert slots[..|slots| - 1][..i] == slots[..i];
    } else {
      assert slots[..i] == slots;
    }
  }

  lemma BuffersPrefix(slots: seq<Slot>, i: nat)
    requires i < |slots|
    ensures Buffers(slots[..i + 1]) == Buffers(slots[..i]) + if slots[i].Loaded? then 1 else 0
  {
    assert slots[..i + 1][..i] == slots[..i];
  }

  lemma EmptyBlocks(s: State)
    requires NoSlots(s) && !s.up
    ensures Blocks(s) == 0
  {
    NoBuffers(s.slots);
  }

  /** Mounting is possible exactly when the DIR record lists something. */
  lemma MountableBoot(base: Plain, h: seq<Event>, s: State)
    requires Tracks(base, h, s)
    ensures Mountable(s.records) <==> base.boot != map[]
  {
    BootKept(base, h, s);
    if Mountable(s.records) {
      ListingHas(BootTable(s.records), 0);
    }
  }

  /** The open file is committed on close exactly when bit 7 of its flags is set. */
  lemma EagerIs(boot: map<u32, File>, s: State)
    requires Good(s) && s.current >= 0
    ensures s.current < |s.slots| && s.slots[s.current].Loaded? && s.slots[s.current].dirIdx < |s.dir|
    ensures OpenIsEager(AbsOf(boot, s)) <==> s.dir[s.slots[s.current].dirIdx].flags >= 0x80
    ensures OpenIsEager(AbsOf(boot, s)) && !s.slots[s.current].dirty ==>
              SameRecord(s.view, s.records, OpenKey(AbsOf(boot, s)))
  {
    CurrentFacts(boot, s);
    SlotFacts(s, s.current);
  }
}
