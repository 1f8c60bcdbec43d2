/** The invariant that ties the RAM side of lib/ss_fs.c (directory and slots) to flash and to the
    plain view, and what each primitive change does to it. */
module Cache {
  import opened Bytes
  import opened DirTable
  import opened SlotTable
  import opened PlainFs
  import Fnv

  // --- Mounting --------------------------------------------------------------------------------

  function Listing(dir: seq<Entry>): map<u32, File>
    requires DistinctHashes(dir)
  {
    map i | 0 <= i < |dir| :: dir[i].hash := FileOf(dir[i])
  }

  function FileOf(e: Entry): File {
    File(e.key, e.flags >= 0x80)
  }

  /** The DIR record lists at least one file and its table is not refused. */
  ghost predicate Mountable(records: map<u16, bytes>) {
    DIR_ID in records && Parse(records[DIR_ID]) != [] && !Collide(Parse(records[DIR_ID]))
  }

  ghost function BootTable(records: map<u16, bytes>): (dir: seq<Entry>)
    requires Mountable(records)
    ensures DistinctHashes(dir)
  {
    ClashIsCollision(Parse(records[DIR_ID]));
    Entries(Parse(records[DIR_ID]))
  }

  ghost function BootListing(records: map<u16, bytes>): map<u32, File> {
    if Mountable(records) then Listing(BootTable(records)) else map[]
  }

  /** What a mount lists: record i of NVS record 1, each path under its key, committed on every close
      exactly when bit 15 of the key is set. */
  lemma BootListsRecord(records: map<u16, bytes>, i: nat)
    requires Mountable(records) && i < |BootTable(records)|
    ensures 1 in records && EntryAt(records[1], Offset(records[1], i), BootTable(records)[i])
    ensures var (e, listing) := (BootTable(records)[i], BootListing(records));
            && e.hash in listing && listing[e.hash].key == e.key
            && (listing[e.hash].eager <==> e.key >= 0x8000)
  {
    hide Offset, Parse, EntryOf, EntryAt, Collide;
    TableIsBlob(records[DIR_ID]);
    var dir := BootTable(records);
    assert Listing(dir)[dir[i].hash] == FileOf(dir[i]);
    FlagBit(records[DIR_ID], Offset(records[DIR_ID], i), dir[i]);
  }

  lemma FlagBit(blob: bytes, o: nat, e: Entry)
    requires EntryAt(blob, o, e)
    ensures e.flags >= 0x80 <==> e.key >= 0x8000
  {
    hide Fnv.Hash;
  }

  /** And nothing else. */
  lemma BootListsOnly(records: map<u16, bytes>, hash: u32)
    requires hash in BootListing(records)
    ensures 1 in records
    ensures exists i :: 0 <= i < |Parse(records[1])| && Fnv.Hash(Parse(records[1])[i].name) == hash
  {
    hide Fnv.Hash, Parse;
    var dir := BootTable(records);
    var i :| 0 <= i < |dir| && dir[i].hash == hash;
    assert Fnv.Hash(Parse(records[1])[i].name) == hash;
  }

  ghost predicate DirOk(dir: seq<Entry>) {
    && DistinctHashes(dir) && |dir| <= U16_MAX
    && (forall i :: 0 <= i < |dir| ==> dir[i].key != DIR_ID)
    && (forall i, j :: 0 <= i < j < |dir| ==> dir[i].key != dir[j].key)
  }

  /** The DIR record, if it mounts at all, names distinct keys and not its own. */
  ghost predicate GoodDir(records: map<u16, bytes>) {
    Mountable(records) ==> DirOk(BootTable(records))
  }

  lemma BootKeys(records: map<u16, bytes>)
    requires GoodDir(records)
    ensures GoodBoot(BootListing(records))
  {
    if Mountable(records) {
      ListingKeys(BootTable(records));
    }
  }

  lemma ListingKeys(dir: seq<Entry>)
    requires DirOk(dir)
    ensures GoodBoot(Listing(dir))
  {
    var l := Listing(dir);
    forall g, h | g in l && h in l && g != h
      ensures l[g].key != l[h].key
    {
      var i :| 0 <= i < |dir| && dir[i].hash == g;
      var j :| 0 <= j < |dir| && dir[j].hash == h;
      assert i != j;
    }
  }

  ghost predicate Lists(dir: seq<Entry>, h: u32) {
    exists j :: 0 <= j < |dir| && dir[j].hash == h
  }

  lemma ListingIs(dir: seq<Entry>, m: map<u32, File>)
    requires DistinctHashes(dir)
    requires forall j :: 0 <= j < |dir| ==> dir[j].hash in m && m[dir[j].hash] == FileOf(dir[j])
    requires forall h :: h in m ==> Lists(dir, h)
    ensures Listing(dir) == m
  {
    var l := Listing(dir);
    assert forall h :: h in l ==> Lists(dir, h);
    assert l.Keys == m.Keys;
  }

  lemma ListingHas(dir: seq<Entry>, i: nat)
    requires DirOk(dir) && i < |dir|
    ensures dir[i].hash in Listing(dir) && Listing(dir)[dir[i].hash] == FileOf(dir[i])
  {
  }

  lemma UpdatedOk(dir: seq<Entry>, i: nat, e: Entry)
    requires DirOk(dir) && i < |dir| && e.hash == dir[i].hash && e.key == dir[i].key
    ensures DirOk(dir[i := e])
  {
    var d := dir[i := e];
    forall p, q | 0 <= p < q < |d|
      ensures d[p].hash != d[q].hash && d[p].key != d[q].key
    {
      assert dir[p].hash != dir[q].hash && dir[p].key != dir[q].key;
    }
  }

  /** An entry changed in place keeps its path listed under the same key. */
  lemma ListingUpdated(dir: seq<Entry>, i: nat, e: Entry)
    requires DirOk(dir) && i < |dir| && e.hash == dir[i].hash && e.key == dir[i].key
    ensures DirOk(dir[i := e])
    ensures Listing(dir[i := e]) == Listing(dir)[e.hash := FileOf(e)]
    ensures FileOf(e) == FileOf(dir[i]) ==> Listing(dir[i := e]) == Listing(dir)
  {
    UpdatedOk(dir, i, e);
    var d, m := dir[i := e], Listing(dir)[e.hash := FileOf(e)];
    forall j | 0 <= j < |d|
      ensures d[j].hash in m && m[d[j].hash] == FileOf(d[j])
    {
      ListingHas(dir, j);
    }
    forall h | h in m
      ensures Lists(d, h)
    {
      if h != e.hash {
        var j :| 0 <= j < |dir| && dir[j].hash == h;
        assert d[j].hash == h;
      } else {
        assert d[i].hash == h;
      }
    }
    ListingIs(d, m);
    ListingHas(dir, i);
  }

  /** ss_remove(): the last entry closes the hole. */
  function Compact(dir: seq<Entry>, i: nat): seq<Entry>
    requires i < |dir|
  {
    dir[i := dir[|dir| - 1]][..|dir| - 1]
  }

  lemma CompactOk(dir: seq<Entry>, i: nat)
    requires DirOk(dir) && i < |dir|
    ensures DirOk(Compact(dir, i))
  {
    var d, last := Compact(dir, i), |dir| - 1;
    assert forall j :: 0 <= j < last ==> d[j] == if j == i then dir[last] else dir[j];
  }

  /** Compaction loses exactly the removed path. */
  lemma CompactListing(dir: seq<Entry>, i: nat)
    requires DirOk(dir) && i < |dir|
    ensures DirOk(Compact(dir, i))
    ensures Listing(Compact(dir, i)) == Listing(dir) - {dir[i].hash}
  {
    CompactOk(dir, i);
    var d, last, m := Compact(dir, i), |dir| - 1, Listing(dir) - {dir[i].hash};
    forall j | 0 <= j < |d|
      ensures d[j].hash in m && m[d[j].hash] == FileOf(d[j])
    {
      ListingHas(dir, if j == i then last else j);
    }
    forall h | h in m
      ensures Lists(d, h)
    {
      var j :| 0 <= j < |dir| && dir[j].hash == h;
      assert d[if j == last then i else j].hash == h;
    }
    ListingIs(d, m);
  }

  // --- Slots, flash and view -------------------------------------------------------------------

  ghost predicate SlotOk(s: Slot, count: nat) {
    s.Loaded? ==> s.dirIdx < count && 1 <= s.len <= s.size && |s.buf| == s.size
  }

  ghost predicate SlotsOk(dir: seq<Entry>, slots: seq<Slot>) {
    && |slots| == MAX_ENTRIES
    && (forall i :: 0 <= i < |slots| ==> SlotOk(slots[i], |dir|))
    && (forall i, j :: 0 <= i < j < |slots| && slots[i].Loaded? && slots[j].Loaded? ==>
          slots[i].dirIdx != slots[j].dirIdx)
  }

  /** The file a slot holds. */
  function Content(s: Slot): bytes
    requires s.Loaded? && s.len <= |s.buf|
  {
    s.buf[..s.len]
  }

  function KeyAt(dir: seq<Entry>, s: Slot): u16
    requires s.Loaded? && s.dirIdx < |dir|
  {
    dir[s.dirIdx].key
  }

  /** A dirty slot holds k. */
  ghost predicate Unsaved(dir: seq<Entry>, slots: seq<Slot>, k: u16) {
    exists i :: 0 <= i < |slots| && slots[i].Loaded? && slots[i].dirIdx < |dir| && slots[i].dirty
                && dir[slots[i].dirIdx].key == k
  }

  /** A slot shows its file's contents, and while clean those are what flash holds. */
  ghost predicate SlotAgrees(records: map<u16, bytes>, dir: seq<Entry>, s: Slot, view: map<u16, bytes>)
    requires SlotOk(s, |dir|)
  {
    s.Loaded? ==>
      var k := KeyAt(dir, s);
      k in records && k in view && view[k] == Content(s) && (!s.dirty ==> records[k] == Content(s))
  }

  ghost predicate Coherent(records: map<u16, bytes>, dir: seq<Entry>, slots: seq<Slot>, view: map<u16, bytes>)
    requires SlotsOk(dir, slots)
  {
    && view.Keys == records.Keys
    && (forall i :: 0 <= i < |slots| ==> SlotAgrees(records, dir, slots[i], view))
    && (forall k :: k in records && view[k] != records[k] ==> Unsaved(dir, slots, k))
  }

  /** The view is a function of RAM and flash: contents of the slot if buffered, else of the record. */
  lemma ViewDetermined(records: map<u16, bytes>, dir: seq<Entry>, slots: seq<Slot>, v: map<u16, bytes>,
                       w: map<u16, bytes>)
    requires SlotsOk(dir, slots) && Coherent(records, dir, slots, v) && Coherent(records, dir, slots, w)
    ensures v == w
  {
    forall k | k in records
      ensures v[k] == w[k]
    {
      if v[k] != records[k] || w[k] != records[k] {
        assert Unsaved(dir, slots, k);
        var i :| 0 <= i < |slots| && slots[i].Loaded? && slots[i].dirIdx < |dir| && slots[i].dirty
                 && dir[slots[i].dirIdx].key == k;
        assert SlotAgrees(records, dir, slots[i], v) && SlotAgrees(records, dir, slots[i], w);
      }
    }
  }

  ghost predicate AllClean(slots: seq<Slot>) {
    forall i :: 0 <= i < |slots| && slots[i].Loaded? ==> !slots[i].dirty
  }

  /** With no dirty slot, flash holds everything there is to see. */
  lemma CleanMeansSynced(records: map<u16, bytes>, dir: seq<Entry>, slots: seq<Slot>, view: map<u16, bytes>)
    requires SlotsOk(dir, slots) && Coherent(records, dir, slots, view) && AllClean(slots)
    ensures view == records
  {
  }

  lemma DistinctKeys(dir: seq<Entry>, slots: seq<Slot>, i: nat, j: nat)
    requires DirOk(dir) && SlotsOk(dir, slots) && i < |slots| && j < |slots| && i != j
    requires slots[i].Loaded? && slots[j].Loaded?
    ensures KeyAt(dir, slots[i]) != KeyAt(dir, slots[j])
  {
  }

  /** A slot is replaced while its file keeps its identity; `c` becomes visible, `r` is on flash. */
  lemma SlotReplaced(records: map<u16, bytes>, dir: seq<Entry>, slots: seq<Slot>, view: map<u16, bytes>, i: nat,
                     s: Slot, r: bytes)
    requires DirOk(dir) && SlotsOk(dir, slots) && Coherent(records, dir, slots, view)
    requires i < |slots| && slots[i].Loaded? && s.Loaded? && SlotOk(s, |dir|) && s.dirIdx == slots[i].dirIdx
    requires !s.dirty ==> r == Content(s)
    requires s.dirty || slots[i].dirty || r == Content(s)
    ensures SlotsOk(dir, slots[i := s])
    ensures var k := KeyAt(dir, s);
            Coherent(records[k := r], dir, slots[i := s], view[k := Content(s)])
  {
    var k, after := KeyAt(dir, s), slots[i := s];
    assert records[k := r].Keys == records.Keys;
    forall j | 0 <= j < |after| && j != i && slots[j].Loaded?
      ensures SlotAgrees(records[k := r], dir, after[j], view[k := Content(s)])
    {
      DistinctKeys(dir, slots, i, j);
      assert SlotAgrees(records, dir, slots[j], view);
    }
    forall m | m in records && m != k && view[m] != records[m]
      ensures Unsaved(dir, after, m)
    {
      var j :| 0 <= j < |slots| && slots[j].Loaded? && slots[j].dirIdx < |dir| && slots[j].dirty
               && dir[slots[j].dirIdx].key == m;
      assert after[j] == slots[j];
    }
    if s.dirty {
      assert after[i].dirty && dir[after[i].dirIdx].key == k;
    }
  }

  /** A clean slot can be given up. */
  lemma SlotDropped(records: map<u16, bytes>, dir: seq<Entry>, slots: seq<Slot>, view: map<u16, bytes>, i: nat)
    requires SlotsOk(dir, slots) && Coherent(records, dir, slots, view)
    requires i < |slots| && (slots[i].Loaded? ==> !slots[i].dirty)
    ensures SlotsOk(dir, slots[i := Free]) && Coherent(records, dir, slots[i := Free], view)
  {
    var after := slots[i := Free];
    forall m | m in records && view[m] != records[m]
      ensures Unsaved(dir, after, m)
    {
      var j :| 0 <= j < |slots| && slots[j].Loaded? && slots[j].dirIdx < |dir| && slots[j].dirty
               && dir[slots[j].dirIdx].key == m;
      assert after[j] == slots[j];
    }
  }

  /** No slot buffers entry idx. */
  ghost predicate Unbuffered(slots: seq<Slot>, idx: nat) {
    forall i :: 0 <= i < |slots| && slots[i].Loaded? ==> slots[i].dirIdx != idx
  }

  /** What is not buffered is seen as flash has it. */
  lemma UnbufferedSynced(records: map<u16, bytes>, dir: seq<Entry>, slots: seq<Slot>, view: map<u16, bytes>, idx: nat)
    requires DirOk(dir) && SlotsOk(dir, slots) && Coherent(records, dir, slots, view)
    requires idx < |dir| && Unbuffered(slots, idx)
    ensures SameRecord(view, records, dir[idx].key)
  {
    var k := dir[idx].key;
    if k in records && view[k] != records[k] {
      assert Unsaved(dir, slots, k);
      var j :| 0 <= j < |slots| && slots[j].Loaded? && slots[j].dirIdx < |dir| && slots[j].dirty
               && dir[slots[j].dirIdx].key == k;
      assert false;
    }
  }

  /** A record is loaded into a free slot. */
  lemma SlotFilled(records: map<u16, bytes>, dir: seq<Entry>, slots: seq<Slot>, view: map<u16, bytes>, i: nat, s: Slot)
    requires DirOk(dir) && SlotsOk(dir, slots) && Coherent(records, dir, slots, view)
    requires i < |slots| && slots[i].Free? && s.Loaded? && SlotOk(s, |dir|) && Unbuffered(slots, s.dirIdx)
    requires KeyAt(dir, s) in records && Content(s) == records[KeyAt(dir, s)] && !s.dirty
    ensures SlotsOk(dir, slots[i := s]) && Coherent(records, dir, slots[i := s], view)
  {
    UnbufferedSynced(records, dir, slots, view, s.dirIdx);
    var after := slots[i := s];
    forall m | m in records && view[m] != records[m]
      ensures Unsaved(dir, after, m)
    {
      var j :| 0 <= j < |slots| && slots[j].Loaded? && slots[j].dirIdx < |dir| && slots[j].dirty
               && dir[slots[j].dirIdx].key == m;
      assert after[j] == slots[j];
    }
  }

  /** Flags and hit counts do not matter to the contents. */
  lemma EntryTouched(records: map<u16, bytes>, dir: seq<Entry>, slots: seq<Slot>, view: map<u16, bytes>, idx: nat,
                     e: Entry)
    requires SlotsOk(dir, slots) && Coherent(records, dir, slots, view)
    requires idx < |dir| && e.key == dir[idx].key
    ensures SlotsOk(dir[idx := e], slots) && Coherent(records, dir[idx := e], slots, view)
  {
    var d := dir[idx := e];
    forall i | 0 <= i < |slots|
      ensures SlotAgrees(records, d, slots[i], view)
    {
      assert SlotAgrees(records, dir, slots[i], view);
    }
    forall m | m in records && view[m] != records[m]
      ensures Unsaved(d, slots, m)
    {
      var j :| 0 <= j < |slots| && slots[j].Loaded? && slots[j].dirIdx < |dir| && slots[j].dirty
               && dir[slots[j].dirIdx].key == m;
      assert d[slots[j].dirIdx].key == m;
    }
  }

  /** A record is written behind the cache, to a file no slot holds. */
  lemma RecordStored(records: map<u16, bytes>, dir: seq<Entry>, slots: seq<Slot>, view: map<u16, bytes>, idx: nat,
                     data: bytes)
    requires DirOk(dir) && SlotsOk(dir, slots) && Coherent(records, dir, slots, view)
    requires idx < |dir| && Unbuffered(slots, idx)
    ensures Coherent(records[dir[idx].key := data], dir, slots, view[dir[idx].key := data])
  {
    var k := dir[idx].key;
    forall i | 0 <= i < |slots| && slots[i].Loaded?
      ensures SlotAgrees(records[k := data], dir, slots[i], view[k := data])
    {
      assert SlotAgrees(records, dir, slots[i], view);
      assert slots[i].dirIdx != idx;
    }
  }

  /** Written behind the cache to a file a slot does hold, a record is seen only when it says what
      the slot says already: the slot hides it, whatever the view. */
  lemma SlotHidesStore(records: map<u16, bytes>, dir: seq<Entry>, slots: seq<Slot>, view: map<u16, bytes>, i: nat,
                       data: bytes)
    requires DirOk(dir) && SlotsOk(dir, slots) && Coherent(records, dir, slots, view)
    requires i < |slots| && slots[i].Loaded?
    ensures var k := KeyAt(dir, slots[i]);
            (exists v :: Coherent(records[k := data], dir, slots, v) && k in v && v[k] == data)
            <==> data == Content(slots[i])
  {
    var k := KeyAt(dir, slots[i]);
    assert SlotAgrees(records, dir, slots[i], view);
    forall v | Coherent(records[k := data], dir, slots, v)
      ensures k in v && v[k] == Content(slots[i])
    {
      assert SlotAgrees(records[k := data], dir, slots[i], v);
    }
    if data == Content(slots[i]) {
      forall j | 0 <= j < |slots| && slots[j].Loaded?
        ensures SlotAgrees(records[k := data], dir, slots[j], view)
      {
        assert SlotAgrees(records, dir, slots[j], view);
        if j != i {
          DistinctKeys(dir, slots, i, j);
        }
      }
      assert Coherent(records[k := data], dir, slots, view);
    }
  }

  // --- Removal ---------------------------------------------------------------------------------

  /** The slots after compaction: the removed file's slot is free and the moved entry's renumbered. */
  function Renumber(s: Slot, idx: nat, last: nat): Slot {
    if s.Free? || s.dirIdx == idx then Free
    else if s.dirIdx == last then s.(dirIdx := idx)
    else s
  }

  ghost predicate Renumbered(before: seq<Slot>, after: seq<Slot>, idx: nat, last: nat) {
    |after| == |before| && forall i :: 0 <= i < |before| ==> after[i] == Renumber(before[i], idx, last)
  }

  /** Compaction keeps every other buffered file's slot, bytes, cursor and dirty bit, although one
      directory index changes meaning. */
  lemma OthersKept(dir: seq<Entry>, before: seq<Slot>, after: seq<Slot>, idx: nat, i: nat)
    requires DirOk(dir) && SlotsOk(dir, before) && idx < |dir| && i < |before|
    requires Renumbered(before, after, idx, |dir| - 1)
    ensures before[i].Loaded? && before[i].dirIdx != idx ==>
              && after[i].Loaded? && after[i].dirIdx < |Compact(dir, idx)|
              && Compact(dir, idx)[after[i].dirIdx] == dir[before[i].dirIdx]
              && after[i] == before[i].(dirIdx := after[i].dirIdx)
    ensures before[i].Free? || before[i].dirIdx == idx ==> after[i].Free?
  {
  }

  lemma RenumberedOk(dir: seq<Entry>, before: seq<Slot>, after: seq<Slot>, idx: nat)
    requires DirOk(dir) && SlotsOk(dir, before) && idx < |dir|
    requires Renumbered(before, after, idx, |dir| - 1)
    ensures SlotsOk(Compact(dir, idx), after)
  {
    var d := Compact(dir, idx);
    forall i | 0 <= i < |after|
      ensures SlotOk(after[i], |d|)
    {
      OthersKept(dir, before, after, idx, i);
    }
  }

  /** The flash records after the delete, which NVS may refuse. */
  function Erased(records: map<u16, bytes>, k: u16, erased: bool): map<u16, bytes> {
    if erased then records - {k} else records
  }

  /** The view after removal: gone with its record, or back to a record NVS would not give up. */
  function ViewWithout(view: map<u16, bytes>, records: map<u16, bytes>, k: u16, erased: bool): map<u16, bytes> {
    if erased || k !in records then view - {k} else view[k := records[k]]
  }

  lemma FileRemoved(records: map<u16, bytes>, dir: seq<Entry>, before: seq<Slot>, after: seq<Slot>,
                    view: map<u16, bytes>, idx: nat, erased: bool)
    requires DirOk(dir) && SlotsOk(dir, before) && Coherent(records, dir, before, view) && idx < |dir|
    requires Renumbered(before, after, idx, |dir| - 1)
    ensures SlotsOk(Compact(dir, idx), after)
    ensures var k := dir[idx].key;
            Coherent(Erased(records, k, erased), Compact(dir, idx), after, ViewWithout(view, records, k, erased))
  {
    RenumberedOk(dir, before, after, idx);
    var k, d := dir[idx].key, Compact(dir, idx);
    var r, v := Erased(records, k, erased), ViewWithout(view, records, k, erased);
    assert v.Keys == r.Keys;
    forall i | 0 <= i < |after|
      ensures SlotAgrees(r, d, after[i], v)
    {
      OthersKept(dir, before, after, idx, i);
      assert SlotAgrees(records, dir, before[i], view);
    }
    forall m | m in r && v[m] != r[m]
      ensures Unsaved(d, after, m)
    {
      assert m != k && Unsaved(dir, before, m);
      var j :| 0 <= j < |before| && before[j].Loaded? && before[j].dirIdx < |dir| && before[j].dirty
               && dir[before[j].dirIdx].key == m;
      OthersKept(dir, before, after, idx, j);
      assert d[after[j].dirIdx].key == m;
    }
  }

  /** Number of slots with unsaved changes. */
  function DirtySlots(slots: seq<Slot>): nat {
    if slots == [] then 0 else
      var last := slots[|slots| - 1];
      DirtySlots(slots[..|slots| - 1]) + if last.Loaded? && last.dirty then 1 else 0
  }

  lemma DirtyPrefix(slots: seq<Slot>, i: nat)
    requires i < |slots|
    ensures DirtySlots(slots[..i + 1]) == DirtySlots(slots[..i]) + if slots[i].Loaded? && slots[i].dirty then 1 else 0
  {
    assert slots[..i + 1][..i] == slots[..i];
  }

  lemma {:induction false} CleanHasNoDirty(slots: seq<Slot>)
    ensures DirtySlots(slots) == 0 <==> AllClean(slots)
  {
    if slots != [] {
      var n := |slots| - 1;
      CleanHasNoDirty(slots[..n]);
      assert slots == slots[..n] + [slots[n]];
    }
  }

  // --- Heap blocks -----------------------------------------------------------------------------

  /** Number of content buffers held by the slot table. */
  function Buffers(slots: seq<Slot>): nat {
    if slots == [] then 0
    else Buffers(slots[..|slots| - 1]) + if slots[|slots| - 1].Loaded? then 1 else 0
  }

  lemma {:induction false} BuffersUpdated(slots: seq<Slot>, i: nat, s: Slot)
    requires i < |slots|
    ensures Buffers(slots[i := s]) ==
            Buffers(slots) - (if slots[i].Loaded? then 1 else 0) + (if s.Loaded? then 1 else 0)
  {
    var n := |slots| - 1;
    if i < n {
      BuffersUpdated(slots[..n], i, s);
      assert slots[i := s][..n] == slots[..n][i := s];
    } else {
      assert slots[i := s][..n] == slots[..n];
    }
  }

  lemma {:induction false} BuffersPositive(slots: seq<Slot>, i: nat)
    requires i < |slots| && slots[i].Loaded?
    ensures Buffers(slots) > 0
  {
    if i < |slots| - 1 {
      BuffersPositive(slots[..|slots| - 1], i);
    }
  }

  lemma {:induction false} NoBuffers(slots: seq<Slot>)
    requires forall i :: 0 <= i < |slots| ==> slots[i].Free?
    ensures Buffers(slots) == 0
  {
    if slots != [] {
      NoBuffers(slots[..|slots| - 1]);
    }
  }

  lemma {:induction false} EqualBuffers(a: seq<Slot>, b: seq<Slot>)
    requires |a| == |b| && forall i :: 0 <= i < |a| ==> (a[i].Loaded? <==> b[i].Loaded?)
    ensures Buffers(a) == Buffers(b)
  {
    if a != [] {
      EqualBuffers(a[..|a| - 1], b[..|b| - 1]);
    }
  }
}
