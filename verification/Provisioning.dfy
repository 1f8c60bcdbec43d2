/** port_provision() of lib/ss_fs.c: a decoded profile becomes records written behind the cache. */
module Provisioning {
  import opened Bytes
  import opened PlainFs
  import opened Cache
  import opened Steps
  import opened FileSystems
  import opened Paths
  import DirTable

  const KEY_SIZE := 32
  const KEY_BIN_LEN := 16
  const SMSP_RECORD_SIZE := 52
  const SMSC_REC_OFFSET := 37
  const A004_HEADER: bytes := [0xb0, 0x00, 0x11, 0x06, 0x01, 0x01]

  /** Widths and key tags the profile parser defines elsewhere, and its hex decoder. */
  datatype Layout = Layout(kiTag: byte, kicTag: byte, kidTag: byte, a001Len: nat, a004Len: nat, smscLen: nat,
                           hex: bytes -> bytes)

  ghost predicate LayoutOk(l: Layout) {
    && 2 * KEY_BIN_LEN <= l.a001Len <= U16_MAX
    && |A004_HEADER| + 2 * KEY_BIN_LEN <= l.a004Len <= U16_MAX
    && forall s :: |l.hex(s)| == |s| / 2
  }

  /** The hex-ASCII fields of a parsed profile. A001 is KI then OPc; KIC and KID are in A004. */
  datatype Profile = Profile(imsi: bytes, iccid: bytes, a001: bytes, a004: bytes, smsp: bytes, smsc: bytes)

  predicate ProfileOk(l: Layout, p: Profile) {
    && |p.imsi| == 18 && |p.iccid| == 20 && |p.a001| >= 2 * KEY_SIZE
    && |p.smsp| == 2 * SMSP_RECORD_SIZE && |p.smsc| == l.smscLen
  }

  // --- The records -----------------------------------------------------------------------------

  function Repeated(b: byte, n: nat): (s: bytes)
    ensures |s| == n && forall i :: 0 <= i < n ==> s[i] == b
  {
    seq(n, i => b)
  }

  /** A key slot: its one-byte tag instead of the key. */
  function KeySlot(tag: byte): (s: bytes)
    ensures |s| == KEY_BIN_LEN
  {
    [tag] + Zeros(KEY_BIN_LEN - 1)
  }

  function A001(l: Layout, p: Profile): (r: bytes)
    requires LayoutOk(l) && ProfileOk(l, p)
    ensures |r| == l.a001Len
  {
    KeySlot(l.kiTag) + l.hex(p.a001[KEY_SIZE..2 * KEY_SIZE]) + Zeros(l.a001Len - 2 * KEY_BIN_LEN)
  }

  function A004(l: Layout): (r: bytes)
    requires LayoutOk(l)
    ensures |r| == l.a004Len
  {
    A004_HEADER + KeySlot(l.kicTag) + KeySlot(l.kidTag) + Repeated(0xFF, l.a004Len - 38)
  }

  /** A001 as the source builds it: a zeroed array, then the tag, then OPc behind the key slot. */
  method BuildA001(l: Layout, p: Profile) returns (r: bytes)
    requires LayoutOk(l) && ProfileOk(l, p)
    ensures r == A001(l, p)
    // The tag of KI, then zeros up to OPc at offset 16, which is the second half of the profile's field.
    ensures |r| == l.a001Len >= 32 && r[0] == l.kiTag && r[16..32] == l.hex(p.a001[32..64])
    ensures forall i :: 1 <= i < |r| && !(16 <= i < 32) ==> r[i] == 0
  {
    var a := new byte[l.a001Len](_ => 0);
    a[0] := l.kiTag;
    var opc := l.hex(p.a001[KEY_SIZE..2 * KEY_SIZE]);
    forall i | 0 <= i < |opc| {
      a[KEY_BIN_LEN + i] := opc[i];
    }
    r := a[..];
    assert r[..KEY_BIN_LEN] == KeySlot(l.kiTag);
    assert r[KEY_BIN_LEN..2 * KEY_BIN_LEN] == opc;
    assert r[2 * KEY_BIN_LEN..] == Zeros(l.a001Len - 2 * KEY_BIN_LEN);
    assert r == r[..KEY_BIN_LEN] + r[KEY_BIN_LEN..2 * KEY_BIN_LEN] + r[2 * KEY_BIN_LEN..];
  }

  /** A004: header, padding, then the two tags. */
  method BuildA004(l: Layout) returns (r: bytes)
    requires LayoutOk(l)
    ensures r == A004(l)
    // Header, the tag of KIC at offset 6 and of KID at 22, zeros for the rest of the keys, padding.
    ensures |r| == l.a004Len >= 38 && r[..6] == [0xb0, 0x00, 0x11, 0x06, 0x01, 0x01]
    ensures r[6] == l.kicTag && r[22] == l.kidTag
    ensures forall i :: 7 <= i < |r| && i != 22 ==> r[i] == if i < 38 then 0 else 0xFF
  {
    var a := new byte[l.a004Len](_ => 0);
    forall i | 0 <= i < 6 {
      a[i] := A004_HEADER[i];
    }
    forall i | 38 <= i < l.a004Len {
      a[i] := 0xFF;
    }
    a[6] := l.kicTag;
    a[6 + KEY_BIN_LEN] := l.kidTag;
    r := a[..];
    assert r[..6] == A004_HEADER;
    assert r[6..22] == KeySlot(l.kicTag);
    assert r[22..38] == KeySlot(l.kidTag);
    assert r[38..] == Repeated(0xFF, l.a004Len - 38);
    assert r == r[..6] + r[6..22] + r[22..38] + r[38..];
  }

  predicate Given(field: bytes) {
    exists i :: 0 <= i < |field| && field[i] != 0
  }

  /** EF.SMSP with record 1 overlaid by the profile's SMSP and then by its SMSC, each if given. */
  function Smsp(l: Layout, p: Profile, ef: bytes): (r: bytes)
    ensures |r| == |ef|
  {
    var first := if Given(p.smsp) then Overlay(ef, 0, l.hex(p.smsp)) else ef;
    if Given(p.smsc) then Overlay(first, SMSC_REC_OFFSET, l.hex(p.smsc)) else first
  }

  /** The rewrite keeps the length and every byte outside the given fields; an explicit SMSC wins
      over the one inside the SMSP. */
  lemma SmspRewrite(l: Layout, p: Profile, ef: bytes, i: nat)
    requires LayoutOk(l) && ProfileOk(l, p) && i < |ef|
    ensures |Smsp(l, p, ef)| == |ef|
    ensures var inSmsc := (exists j :: 0 <= j < |p.smsc| && p.smsc[j] != 0) && 37 <= i < 37 + l.smscLen / 2;
            var inSmsp := (exists j :: 0 <= j < |p.smsp| && p.smsp[j] != 0) && i < 52;
            Smsp(l, p, ef)[i] ==
            if inSmsc then l.hex(p.smsc)[i - 37] else if inSmsp then l.hex(p.smsp)[i] else ef[i]
  {
  }

  // --- Writing them ----------------------------------------------------------------------------

  /** One record to write: the hash of its path and its contents. */
  datatype Store = Store(hash: u32, data: bytes)

  function Identity(l: Layout, p: Profile): seq<Store>
    requires LayoutOk(l) && ProfileOk(l, p)
  {
    [Store(Hashed(IMSI_PATH), l.hex(p.imsi)), Store(Hashed(ICCID_PATH), l.hex(p.iccid)),
     Store(Hashed(A001_PATH), A001(l, p)), Store(Hashed(A004_PATH), A004(l))]
  }

  /** Everything a complete provisioning writes over contents in which EF.SMSP holds `ef`. */
  function AllStores(l: Layout, p: Profile, ef: bytes): seq<Store>
    requires LayoutOk(l) && ProfileOk(l, p)
  {
    Identity(l, p) + if Given(p.smsp) || Given(p.smsc) then [Store(Hashed(SMSP_PATH), Smsp(l, p, ef))] else []
  }

  /** The parts of a profile that are not KI, KIC or KID. */
  predicate SameButKeys(p: Profile, q: Profile)
    requires |p.a001| >= 2 * KEY_SIZE && |q.a001| >= 2 * KEY_SIZE
  {
    && p.imsi == q.imsi && p.iccid == q.iccid && p.smsp == q.smsp && p.smsc == q.smsc
    && p.a001[KEY_SIZE..2 * KEY_SIZE] == q.a001[KEY_SIZE..2 * KEY_SIZE]
  }

  /** No key material reaches flash: profiles that differ only in KI, KIC and KID write the same. */
  lemma KeysStayOut(l: Layout, p: Profile, q: Profile, ef: bytes)
    requires LayoutOk(l) && ProfileOk(l, p) && ProfileOk(l, q) && SameButKeys(p, q)
    ensures AllStores(l, p, ef) == AllStores(l, q, ef)
  {
  }

  ghost function Provisions(stores: seq<Store>): seq<Event> {
    seq(|stores|, i requires 0 <= i < |stores| => Provisioned(stores[i].hash, stores[i].data))
  }

  /** Each stored path shows its record, whatever else was stored, if no two share a hash. */
  lemma {:induction false} ReadsBack(base: Plain, stores: seq<Store>, i: nat)
    requires Inv(base) && LegalRun(base, Provisions(stores)) && i < |stores|
    requires DistinctPaths(stores)
    ensures var q := Run(base, Provisions(stores)).value;
            && HasContents(q, stores[i].hash)
            && q.view[q.listing[stores[i].hash].key] == stores[i].data
            && q.listing[stores[i].hash].key in q.durable
            && q.durable[q.listing[stores[i].hash].key] == stores[i].data
    decreases |stores|
  {
    var n := |stores| - 1;
    var h := Provisions(stores);
    assert h[..n] == Provisions(stores[..n]);
    PrefixLegal(base, h, n);
    InvRun(base, h[..n]);
    if i < n {
      ReadsBack(base, stores[..n], i);
    }
  }

  ghost predicate DistinctPaths(stores: seq<Store>) {
    forall a, b :: 0 <= a < b < |stores| ==> stores[a].hash != stores[b].hash
  }

  /** The same of a file system whose last steps were these stores. */
  lemma StoresShow(base: Plain, start: seq<Event>, stores: seq<Store>, s: State, i: nat)
    requires Tracks(base, start + Provisions(stores), s) && DistinctPaths(stores) && i < |stores|
    ensures Good(s) && Shows(AbsOf(base.boot, s), stores[i].hash, stores[i].data)
  {
    hide Good;
    RunSplit(base, start, Provisions(stores));
    InvRun(base, start);
    ReadsBack(Run(base, start).value, stores, i);
  }

  /** The path is listed and its file shows exactly c. */
  ghost predicate Shows(p: Plain, hash: u32, c: bytes) {
    HasContents(p, hash) && p.view[p.listing[hash].key] == c
  }

  /** No two records of a profile go to the same path. */
  lemma TargetsDistinct(l: Layout, p: Profile, ef: bytes)
    requires LayoutOk(l) && ProfileOk(l, p)
    ensures DistinctPaths(AllStores(l, p, ef))
  {
    hide LayoutOk, ProfileOk, Smsp, A001, A004, Hashed;
    var stores := AllStores(l, p, ef);
    forall i, j | 0 <= i < j < |stores|
      ensures stores[i].hash != stores[j].hash
    {
      assert stores[i].hash == Hashed(TARGETS[i]) && stores[j].hash == Hashed(TARGETS[j]);
      HashedTargetsDiffer(i, j);
    }
  }

  lemma HashedTargetsDiffer(i: nat, j: nat)
    requires i < j < |TARGETS|
    ensures Hashed(TARGETS[i]) != Hashed(TARGETS[j])
  {
    TargetsHaveNoNul(i);
    TargetsHaveNoNul(j);
    DirTable.CStringWhole(TARGETS[i]);
    DirTable.CStringWhole(TARGETS[j]);
    TargetHashesDiffer(i, j);
  }

  /** Storing to other paths leaves what a path shows. */
  lemma {:induction false} OthersStay(base: Plain, stores: seq<Store>, hash: u32, c: bytes)
    requires Inv(base) && LegalRun(base, Provisions(stores))
    requires forall i :: 0 <= i < |stores| ==> stores[i].hash != hash
    ensures Shows(Run(base, Provisions(stores)).value, hash, c) <==> Shows(base, hash, c)
    decreases |stores|
  {
    if stores != [] {
      var n := |stores| - 1;
      var h := Provisions(stores);
      assert h[..n] == Provisions(stores[..n]);
      PrefixLegal(base, h, n);
      InvRun(base, h[..n]);
      OthersStay(base, stores[..n], hash, c);
      OtherStays(Run(base, h[..n]).value, stores[n], hash, c);
    }
  }

  lemma OtherStays(p: Plain, store: Store, hash: u32, c: bytes)
    requires Inv(p) && Legal(p, Provisioned(store.hash, store.data)) && store.hash != hash
    ensures Shows(Apply(p, Provisioned(store.hash, store.data)), hash, c) <==> Shows(p, hash, c)
  {
  }

  // --- port_provision ---------------------------------------------------------------------------

  /** No slot buffers the file of a path with this hash. */
  ghost predicate Unheld(fs: FileSystem, hash: u32)
    reads fs, fs.slots
  {
    forall i :: 0 <= i < |fs.dir| && fs.dir[i].hash == hash ==> Unbuffered(fs.slots[..], i)
  }

  ghost predicate TargetsUnheld(fs: FileSystem)
    reads fs, fs.slots
  {
    && Unheld(fs, Hashed(IMSI_PATH)) && Unheld(fs, Hashed(ICCID_PATH)) && Unheld(fs, Hashed(A001_PATH))
    && Unheld(fs, Hashed(A004_PATH)) && Unheld(fs, Hashed(SMSP_PATH))
  }

  /** The run so far: `start`, then these records stored. */
  ghost predicate Stored(fs: FileSystem, start: seq<Event>, stores: seq<Store>)
    reads fs
  {
    fs.history == start + Provisions(stores)
  }

  ghost predicate ListsIdentity(p: Plain) {
    && Hashed(IMSI_PATH) in p.listing.Keys && Hashed(ICCID_PATH) in p.listing.Keys
    && Hashed(A001_PATH) in p.listing.Keys && Hashed(A004_PATH) in p.listing.Keys
  }

  /** EF.SMSP has a length the rewrite can handle. */
  ghost predicate SmspFits(p: Plain, l: Layout) {
    && HasContents(p, Hashed(SMSP_PATH))
    && 37 + l.smscLen / 2 <= |p.view[p.listing[Hashed(SMSP_PATH)].key]| <= 104
  }

  /** Every path of the profile shows its own record. */
  ghost predicate ProfileShown(q: Plain, l: Layout, p: Profile, ef: bytes)
    requires LayoutOk(l) && ProfileOk(l, p)
  {
    && Shows(q, Hashed(IMSI_PATH), l.hex(p.imsi)) && Shows(q, Hashed(ICCID_PATH), l.hex(p.iccid))
    && Shows(q, Hashed(A001_PATH), A001(l, p)) && Shows(q, Hashed(A004_PATH), A004(l))
    && (Given(p.smsp) || Given(p.smsc) ==> Shows(q, Hashed(SMSP_PATH), Smsp(l, p, ef)))
  }

  lemma AllShown(q: Plain, l: Layout, p: Profile, ef: bytes)
    requires LayoutOk(l) && ProfileOk(l, p)
    requires forall i :: 0 <= i < |AllStores(l, p, ef)| ==>
               Shows(q, AllStores(l, p, ef)[i].hash, AllStores(l, p, ef)[i].data)
    ensures ProfileShown(q, l, p, ef)
  {
    hide LayoutOk, ProfileOk, A001, A004, Smsp, Hashed, Shows, Given;
    var stores := AllStores(l, p, ef);
    assert Shows(q, stores[0].hash, stores[0].data) && Shows(q, stores[1].hash, stores[1].data);
    assert Shows(q, stores[2].hash, stores[2].data) && Shows(q, stores[3].hash, stores[3].data);
    if Given(p.smsp) || Given(p.smsc) {
      assert Shows(q, stores[4].hash, stores[4].data);
    }
  }

  lemma ProvisionKeepsListing(p: Plain, hash: u32, data: bytes)
    requires Legal(p, Provisioned(hash, data))
    ensures Apply(p, Provisioned(hash, data)).listing.Keys == p.listing.Keys
  {
  }

  /** A failure part-way leaves a prefix of the records written; success means all of them. `start`
      is the run up to and including the mount and `mounted` the state it led to; `ef` is what
      EF.SMSP held then. */
  method PortProvision(fs: FileSystem, l: Layout, p: Profile)
    returns (rc: int, ghost start: seq<Event>, ghost mounted: Plain, ghost stores: seq<Store>, ghost ef: bytes)
    requires fs.Valid() && fs.current < 0 && LayoutOk(l) && ProfileOk(l, p) && TargetsUnheld(fs)
    modifies fs, fs.slots, fs.nvs, fs.heap
    ensures fs.Valid() && fs.current < 0 && (rc == 0 || rc == -1)
    ensures start == old(fs.history) + if fs.initialized && !old(fs.initialized) then [Mounted] else []
    ensures mounted == Listed(old(fs.Abs()), fs.initialized && !old(fs.initialized))
    ensures Stored(fs, start, stores) && stores <= AllStores(l, p, ef)
    ensures Run(mounted, Provisions(stores)) == Some(fs.Abs())
    ensures rc == 0 ==> fs.initialized && stores == AllStores(l, p, ef)
    // What is overlaid is what EF.SMSP showed before, so all else of it is kept.
    ensures |stores| == 5 ==> SmspFits(mounted, l) && Shows(mounted, Hashed(SMSP_PATH), ef)
    // Unless flash or heap failed, it fails only if DIR lacks a path or EF.SMSP has a wrong length.
    ensures rc == -1 && Unharmed(fs, old(fs.nvs.refused), old(fs.nvs.faults), old(fs.heap.failures)) ==>
              !ListsIdentity(mounted) || ((Given(p.smsp) || Given(p.smsc)) && !SmspFits(mounted, l))
    ensures rc == 0 ==> ProfileShown(fs.Abs(), l, p, ef)
    // Every path written reads back its record.
    ensures forall i :: 0 <= i < |stores| ==> Shows(fs.Abs(), stores[i].hash, stores[i].data)
  {
    hide Tracks, Good, Blocks, Legal, Apply, Run, LayoutOk, ProfileOk, Hashed, AbsOf, AllStores, Provisions, Shows,
         ListsIdentity, SmspFits, ProfileShown;
    NothingHeldWhenDown(fs);
    rc := fs.InitFs();
    start, mounted, stores, ef := fs.history, fs.Abs(), [], [];
    MountListed(old(fs.Abs()), mounted, old(fs.initialized), fs.initialized);
    NoneStored(fs, start, mounted, l, p);
    if rc != 0 {
      NothingListedWhenDown(fs);
      return -1, start, mounted, stores, ef;
    }
    ghost var atMount := fs.St();
    AbsIsRun(fs.base, start, atMount);
    rc, stores, ef := WriteProfile(fs, l, p, start);
    Written(fs.base, start, mounted, l, p, ef, stores, fs.St());
    if rc == 0 {
      AllShown(fs.Abs(), l, p, ef);
    }
  }

  /** A mount lists what the DIR record does. */
  ghost function Listed(p: Plain, mounts: bool): Plain {
    if mounts then p.(listing := p.boot) else p
  }

  /** Nothing was refused and nothing failed since these counts. */
  ghost predicate Unharmed(fs: FileSystem, refused: nat, faults: nat, failures: nat)
    reads fs, fs.nvs, fs.heap
  {
    fs.nvs.refused == refused && fs.nvs.faults == faults && fs.heap.failures == failures
  }

  lemma MountListed(p: Plain, q: Plain, was: bool, up: bool)
    requires if up && !was then Step(p, Mounted, q) else q == p
    ensures q == Listed(p, up && !was)
  {
  }

  lemma NoneStored(fs: FileSystem, start: seq<Event>, mounted: Plain, l: Layout, p: Profile)
    requires fs.Valid() && fs.history == start && mounted == fs.Abs() && LayoutOk(l) && ProfileOk(l, p)
    ensures Stored(fs, start, []) && [] <= AllStores(l, p, [])
    ensures Run(mounted, Provisions([])) == Some(fs.Abs())
  {
  }

  lemma AbsIsRun(base: Plain, h: seq<Event>, s: State)
    requires Tracks(base, h, s)
    ensures Good(s) && Inv(AbsOf(base.boot, s)) && Run(base, h) == Some(AbsOf(base.boot, s))
  {
    hide Good;
  }

  /** What follows from the records written being a prefix of the profile's. */
  lemma Written(base: Plain, start: seq<Event>, mounted: Plain, l: Layout, p: Profile, ef: bytes,
                stores: seq<Store>, s: State)
    requires LayoutOk(l) && ProfileOk(l, p) && stores <= AllStores(l, p, ef)
    requires Tracks(base, start + Provisions(stores), s) && Run(base, start) == Some(mounted)
    ensures Good(s) && Run(mounted, Provisions(stores)) == Some(AbsOf(base.boot, s))
    ensures forall i :: 0 <= i < |stores| ==> Shows(AbsOf(base.boot, s), stores[i].hash, stores[i].data)
  {
    hide LayoutOk, ProfileOk, AllStores, Good, Shows;
    TargetsDistinct(l, p, ef);
    RunSplit(base, start, Provisions(stores));
    forall i | 0 <= i < |stores|
      ensures Shows(AbsOf(base.boot, s), stores[i].hash, stores[i].data)
    {
      StoresShow(base, start, stores, s, i);
    }
  }

  /** The writes, on a mounted file system. */
  method WriteProfile(fs: FileSystem, l: Layout, p: Profile, ghost start: seq<Event>)
    returns (rc: int, ghost stores: seq<Store>, ghost ef: bytes)
    requires fs.Valid() && fs.current < 0 && LayoutOk(l) && ProfileOk(l, p) && TargetsUnheld(fs)
    requires Stored(fs, start, [])
    modifies fs`dir, fs`view, fs`history, fs.nvs
    ensures fs.Valid() && (rc == 0 || rc == -1)
    ensures Stored(fs, start, stores) && stores <= AllStores(l, p, ef) && (rc == 0 ==> stores == AllStores(l, p, ef))
    ensures |stores| == 5 ==> SmspFits(old(fs.Abs()), l) && Shows(old(fs.Abs()), Hashed(SMSP_PATH), ef)
    ensures fs.nvs.refused >= old(fs.nvs.refused) && fs.nvs.faults >= old(fs.nvs.faults)
    ensures rc == -1 && fs.nvs.refused == old(fs.nvs.refused) && fs.nvs.faults == old(fs.nvs.faults) ==>
              !ListsIdentity(old(fs.Abs())) || ((Given(p.smsp) || Given(p.smsc)) && !SmspFits(old(fs.Abs()), l))
  {
    hide Tracks, Good, Blocks, Legal, Apply, Run, LayoutOk, ProfileOk, Hashed, AbsOf, Provisions, Shows, Smsp, A001,
         A004, ListsIdentity, SmspFits;
    ghost var mounted := fs.Abs();
    StoredNothing(fs.base, start, fs.history, fs.St());
    ef := [];
    rc, stores := StoreIdentity(fs, l, p, start);
    if rc != 0 || !(Given(p.smsp) || Given(p.smsc)) {
      return;
    }
    SmspUntouched(fs.base, start, mounted, l, p, fs.St());
    rc, stores, ef := StoreSmsp(fs, l, p, start, stores);
  }

  lemma StoredNothing(base: Plain, start: seq<Event>, h: seq<Event>, s: State)
    requires Tracks(base, h, s) && h == start + Provisions([])
    ensures Good(s) && Run(base, start) == Some(AbsOf(base.boot, s))
  {
    hide Good;
    assert h == start;
  }

  /** EF.SMSP shows after the identity was written what it showed before. */
  lemma SmspUntouched(base: Plain, start: seq<Event>, mounted: Plain, l: Layout, p: Profile, s: State)
    requires LayoutOk(l) && ProfileOk(l, p) && Run(base, start) == Some(mounted)
    requires Tracks(base, start + Provisions(Identity(l, p)), s)
    ensures Good(s)
    ensures SmspFits(AbsOf(base.boot, s), l) <==> SmspFits(mounted, l)
    ensures forall c :: Shows(AbsOf(base.boot, s), Hashed(SMSP_PATH), c) <==> Shows(mounted, Hashed(SMSP_PATH), c)
  {
    hide LayoutOk, ProfileOk, Good, Smsp, A001, A004, Hashed;
    var stores, q := Identity(l, p), AbsOf(base.boot, s);
    RunSplit(base, start, Provisions(stores));
    InvRun(base, start);
    forall i | 0 <= i < |stores|
      ensures stores[i].hash != Hashed(SMSP_PATH)
    {
      assert stores[i].hash == Hashed(TARGETS[i]);
      HashedTargetsDiffer(i, 4);
    }
    forall c
      ensures Shows(q, Hashed(SMSP_PATH), c) <==> Shows(mounted, Hashed(SMSP_PATH), c)
    {
      OthersStay(mounted, stores, Hashed(SMSP_PATH), c);
    }
    SameSmsp(q, mounted, l);
  }

  lemma SameSmsp(p: Plain, q: Plain, l: Layout)
    requires forall c :: Shows(p, Hashed(SMSP_PATH), c) <==> Shows(q, Hashed(SMSP_PATH), c)
    ensures SmspFits(p, l) <==> SmspFits(q, l)
  {
    hide Hashed;
    var h := Hashed(SMSP_PATH);
    if HasContents(p, h) {
      assert Shows(p, h, p.view[p.listing[h].key]);
    }
    if HasContents(q, h) {
      assert Shows(q, h, q.view[q.listing[h].key]);
    }
  }

  /** No key material reaches flash: two devices in the same state, provisioned with profiles that
      differ only in KI, KIC and KID, end with the same flash. */
  method ProvisionTwins(a: FileSystem, b: FileSystem, l: Layout, p: Profile, q: Profile) returns (ra: int, rb: int)
    requires a != b && a.slots != b.slots && a.nvs != b.nvs && a.heap != b.heap
    requires a.Valid() && a.current < 0 && TargetsUnheld(a) && b.Valid() && b.current < 0 && TargetsUnheld(b)
    requires a.Abs() == b.Abs() && a.initialized == b.initialized
    requires LayoutOk(l) && ProfileOk(l, p) && ProfileOk(l, q) && SameButKeys(p, q)
    modifies a, a.slots, a.nvs, a.heap, b, b.slots, b.nvs, b.heap
    ensures a.Valid() && b.Valid()
    ensures ra == 0 && rb == 0 ==> a.nvs.records == b.nvs.records && a.Abs() == b.Abs()
  {
    hide Tracks, Good, Blocks, Legal, Apply, Run, LayoutOk, Hashed, AllStores, Shows, SmspFits, ListsIdentity;
    ghost var sa, ma, wa, ea, sb, mb, wb, eb;
    ra, sa, ma, wa, ea := PortProvision(a, l, p);
    rb, sb, mb, wb, eb := PortProvision(b, l, q);
    if ra == 0 && rb == 0 {
      SameStores(ma, l, p, q, ea, eb);
    }
  }

  /** The records to write are a function of the state and of the profile without its keys. */
  lemma SameStores(mounted: Plain, l: Layout, p: Profile, q: Profile, ep: bytes, eq: bytes)
    requires LayoutOk(l) && ProfileOk(l, p) && ProfileOk(l, q) && SameButKeys(p, q)
    requires |AllStores(l, p, ep)| == 5 ==> Shows(mounted, Hashed(SMSP_PATH), ep)
    requires |AllStores(l, q, eq)| == 5 ==> Shows(mounted, Hashed(SMSP_PATH), eq)
    ensures AllStores(l, p, ep) == AllStores(l, q, eq)
  {
    hide Hashed;
    KeysStayOut(l, p, q, ep);
  }

  lemma NothingHeldWhenDown(fs: FileSystem)
    requires fs.Valid()
    ensures !fs.initialized ==> forall i :: 0 <= i < |fs.slots[..]| ==> fs.slots[..][i].Free?
  {
    if !fs.initialized {
      DownMeansEmpty(fs.St());
    }
  }

  lemma NothingListedWhenDown(fs: FileSystem)
    requires fs.Valid()
    ensures !fs.initialized ==> !ListsIdentity(fs.Abs())
  {
    if !fs.initialized {
      DownMeansEmpty(fs.St());
    }
  }

  /** Store one record and note it. */
  method StoreNext(fs: FileSystem, path: bytes, data: bytes, ghost start: seq<Event>, ghost stores: seq<Store>)
    returns (rc: int, ghost more: seq<Store>)
    requires fs.Valid() && fs.current < 0 && 1 <= |data| <= U16_MAX && Unheld(fs, Hashed(path))
    requires Stored(fs, start, stores)
    modifies fs`dir, fs`view, fs`history, fs.nvs`records, fs.nvs`journal, fs.nvs`refused
    ensures fs.Valid() && (rc == 0 || rc == -1) && Stored(fs, start, more)
    ensures more == if rc == 0 then stores + [Store(Hashed(path), data)] else stores
    ensures rc == 0 <==> Hashed(path) in old(fs.Abs()).listing.Keys && fs.nvs.refused == old(fs.nvs.refused)
    ensures fs.Abs().listing.Keys == old(fs.Abs()).listing.Keys && fs.nvs.refused >= old(fs.nvs.refused)
    ensures rc == -1 ==> fs.Abs() == old(fs.Abs())
    ensures forall h :: old(Unheld(fs, h)) ==> Unheld(fs, h)
  {
    hide Tracks, Good, Blocks, Legal, Apply, Hashed, Unbuffered;
    rc := fs.StoreRecord(path, data);
    more := if rc == 0 then stores + [Store(Hashed(path), data)] else stores;
    if rc == 0 {
      ProvisionKeepsListing(old(fs.Abs()), Hashed(path), data);
      assert Provisions(more) == Provisions(stores) + [Provisioned(Hashed(path), data)];
    }
  }

  method StoreIdentity(fs: FileSystem, l: Layout, p: Profile, ghost start: seq<Event>)
    returns (rc: int, ghost stores: seq<Store>)
    requires fs.Valid() && fs.current < 0 && LayoutOk(l) && ProfileOk(l, p) && TargetsUnheld(fs)
    requires Stored(fs, start, [])
    modifies fs`dir, fs`view, fs`history, fs.nvs`records, fs.nvs`journal, fs.nvs`refused
    ensures fs.Valid() && (rc == 0 || rc == -1) && Stored(fs, start, stores) && TargetsUnheld(fs)
    ensures stores <= Identity(l, p) && (rc == 0 ==> stores == Identity(l, p))
    ensures rc == 0 <==> ListsIdentity(old(fs.Abs())) && fs.nvs.refused == old(fs.nvs.refused)
    ensures fs.nvs.refused >= old(fs.nvs.refused)
  {
    hide Tracks, Good, Blocks, Legal, Apply, Hashed, Unheld, A001, A004, AbsOf, Provisions;
    stores := [];
    var a001 := BuildA001(l, p);
    var a004 := BuildA004(l);
    rc, stores := StoreNext(fs, IMSI_PATH, l.hex(p.imsi), start, stores);
    if rc != 0 {
      return;
    }
    rc, stores := StoreNext(fs, ICCID_PATH, l.hex(p.iccid), start, stores);
    if rc != 0 {
      return;
    }
    rc, stores := StoreNext(fs, A001_PATH, a001, start, stores);
    if rc != 0 {
      return;
    }
    rc, stores := StoreNext(fs, A004_PATH, a004, start, stores);
  }

  /** EF.SMSP is read, overlaid and written back at its own length. */
  method StoreSmsp(fs: FileSystem, l: Layout, p: Profile, ghost start: seq<Event>, ghost stores: seq<Store>)
    returns (rc: int, ghost more: seq<Store>, ghost ef: bytes)
    requires fs.Valid() && fs.current < 0 && LayoutOk(l) && ProfileOk(l, p) && Unheld(fs, Hashed(SMSP_PATH))
    requires Stored(fs, start, stores)
    modifies fs`dir, fs`view, fs`history, fs.nvs
    ensures fs.Valid() && (rc == 0 || rc == -1) && Stored(fs, start, more)
    ensures more == if rc == 0 then stores + [Store(Hashed(SMSP_PATH), Smsp(l, p, ef))] else stores
    ensures rc == 0 ==> SMSC_REC_OFFSET + l.smscLen / 2 <= |ef| <= 2 * SMSP_RECORD_SIZE
    ensures rc == 0 <==>
              SmspFits(old(fs.Abs()), l) && fs.nvs.refused == old(fs.nvs.refused) && fs.nvs.faults == old(fs.nvs.faults)
    ensures rc == -1 ==> fs.Abs() == old(fs.Abs())
    ensures fs.nvs.refused >= old(fs.nvs.refused) && fs.nvs.faults >= old(fs.nvs.faults)
    // What is overlaid is what the file showed.
    ensures rc == 0 ==> Shows(old(fs.Abs()), Hashed(SMSP_PATH), ef)
  {
    hide Tracks, Good, Blocks, Legal, Apply, Hashed, Unbuffered, AbsOf;
    var ok, smsp := ReadSmsp(fs, l);
    more, ef := stores, smsp;
    if !ok {
      return -1, stores, smsp;
    }
    if Given(p.smsp) {
      smsp := Overlay(smsp, 0, l.hex(p.smsp));
    }
    if Given(p.smsc) {
      smsp := Overlay(smsp, SMSC_REC_OFFSET, l.hex(p.smsc));
    }
    rc, more := StoreNext(fs, SMSP_PATH, smsp, start, stores);
  }

  method ReadSmsp(fs: FileSystem, l: Layout) returns (ok: bool, ef: bytes)
    requires fs.Valid() && Unheld(fs, Hashed(SMSP_PATH))
    modifies fs.nvs`faults
    ensures fs.Valid() && fs.Abs() == old(fs.Abs()) && fs.nvs.faults >= old(fs.nvs.faults)
    ensures ok <==> SmspFits(fs.Abs(), l) && fs.nvs.faults == old(fs.nvs.faults)
    ensures ok ==> SMSC_REC_OFFSET + l.smscLen / 2 <= |ef| <= 2 * SMSP_RECORD_SIZE
    ensures ok ==> Shows(fs.Abs(), Hashed(SMSP_PATH), ef)
  {
    hide Tracks, Good, Blocks;
    var idx := DirTable.DirFind(fs.dir, SMSP_PATH);
    if idx < 0 {
      return false, [];
    }
    TracksGood(fs.base, fs.history, fs.St());
    EntryFacts(fs.St(), idx);
    var key := fs.dir[idx].key;
    var len := fs.nvs.Length(key);
    if len < SMSC_REC_OFFSET + l.smscLen / 2 || len > 2 * SMSP_RECORD_SIZE {
      return false, [];
    }
    var rd;
    rd, ef := fs.nvs.Fetch(key, len);
    return rd == len, ef;
  }
}
