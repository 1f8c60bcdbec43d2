/** The plain file system that lib/ss_fs.c must be indistinguishable from: a map from NVS key to
    bytes as the SIM core sees them (`view`), next to the bytes flash holds (`durable`). A run is a
    sequence of events; the whole-run promises are theorems about every legal sequence. */
module PlainFs {
  import opened Bytes

  /** The NVS record that holds the directory blob. */
  const DIR_ID: u16 := 1
  const U16_MAX := 0xFFFF

  const SEEK_SET := 0
  const SEEK_CUR := 1
  const SEEK_END := 2

  /** A listed file; an eager one is committed on every close. */
  datatype File = File(key: u16, eager: bool)

  /** The file that is open, and its cursor. */
  datatype Handle = Handle(hash: u32, pos: u16)

  /** `boot` is what a mount lists, `listing` what is listed now. */
  datatype Plain = Plain(boot: map<u32, File>, listing: map<u32, File>,
                         view: map<u16, bytes>, durable: map<u16, bytes>, open: Option<Handle>)

  /** One observable step. Each touches flash at most once, so a power loss falls between events. */
  datatype Event =
    | Opened(hash: u32)
    | Read(size: nat, count: nat, data: bytes)
    | Wrote(data: bytes)
    | Put(c: byte, hole: bytes)
    | Sought(offset: int, whence: int)
    | Closed(rc: int)
    | Committed(key: u16)
    | Removed(hash: u32, erased: bool)
    | Provisioned(hash: u32, data: bytes)
    | Mounted
    | Unmounted
    | Crashed

  // --- Contents --------------------------------------------------------------------------------

  /** Bytes laid over a file, cut off at its end. */
  function Overlay(c: bytes, pos: nat, data: bytes): (r: bytes)
    ensures |r| == |c|
    ensures forall i :: 0 <= i < |c| ==> r[i] == if pos <= i < pos + |data| then data[i - pos] else c[i]
  {
    seq(|c|, i requires 0 <= i < |c| => if pos <= i < pos + |data| then data[i - pos] else c[i])
  }

  /** One byte stored at the cursor; past the end, `hole` becomes part of the file first. */
  function PutByte(c: bytes, pos: nat, b: byte, hole: bytes): (r: bytes)
    requires |hole| == if pos > |c| then pos - |c| else 0
    ensures |r| == (if pos < |c| then |c| else pos + 1) && r[pos] == b
    ensures forall i :: 0 <= i < |c| && i != pos ==> r[i] == c[i]
  {
    if pos < |c| then c[pos := b] else c + hole + [b]
  }

  /** How many whole elements a read returns. */
  function Elements(len: nat, pos: nat, size: nat, count: nat): (n: nat)
    requires pos <= len
    ensures n <= count && pos + n * size <= len
  {
    if size == 0 then 0 else
      var most := (len - pos) / size;
      assert most * size <= len - pos;
      if count > most then most else count
  }

  /** The cursor after a seek, in 16-bit arithmetic. */
  function SeekTarget(pos: u16, len: nat, offset: int, whence: int): u16
    requires 1 <= len <= U16_MAX
  {
    if whence == SEEK_SET then offset % 0x1_0000
    else if whence == SEEK_CUR then
      var q := (pos + offset) % 0x1_0000;
      if q >= len then len - 1 else q
    else if whence == SEEK_END then (len - offset) % 0x1_0000
    else pos
  }

  /** A seek leaves the cursor inside the file exactly when it is relative to the cursor (or not a
      seek at all) or its offset, as 16 bits, does not exceed the file length. */
  lemma SeekStaysInside(pos: u16, len: nat, offset: int, whence: int)
    requires 1 <= len <= U16_MAX && pos <= len
    ensures SeekTarget(pos, len, offset, whence) <= len <==>
            (whence == SEEK_SET || whence == SEEK_END ==> offset % 0x1_0000 <= len)
  {
    if whence == SEEK_END {
      var o := offset % 0x1_0000;
      var q := offset / 0x1_0000;
      assert offset == q * 0x1_0000 + o;
      if o <= len {
        assert (len - offset) % 0x1_0000 == len - o;
      } else {
        assert len - offset == (-q - 1) * 0x1_0000 + (len - o + 0x1_0000);
        assert (len - offset) % 0x1_0000 == len - o + 0x1_0000;
      }
    }
  }

  /** Where a seek goes: the offset from the start, from the cursor but never past the last byte, or
      back from the end, as q and so many laps of 65536; with any other whence it stays. */
  lemma SeekPlace(pos: u16, len: nat, offset: int, whence: int, q: u16, laps: int)
    requires 1 <= len <= 65535
    ensures whence == 0 && offset == 65536 * laps + q ==> SeekTarget(pos, len, offset, whence) == q
    ensures whence == 1 && pos + offset == 65536 * laps + q ==>
              SeekTarget(pos, len, offset, whence) == if q < len then q else len - 1
    ensures whence == 2 && len - offset == 65536 * laps + q ==> SeekTarget(pos, len, offset, whence) == q
    ensures whence != 0 && whence != 1 && whence != 2 ==> SeekTarget(pos, len, offset, whence) == pos
  {
    Laps(offset, q, laps);
    Laps(pos + offset, q, laps);
    Laps(len - offset, q, laps);
  }

  lemma Laps(n: int, q: u16, laps: int)
    ensures n == 65536 * laps + q ==> n % 0x1_0000 == q
  {
    if n == 65536 * laps + q {
      assert (q + laps * 0x1_0000) % 0x1_0000 == q;
    }
  }

  /** Within 16 bits. */
  lemma SeekSpelledOut(pos: u16, len: nat, offset: int, whence: int)
    requires 1 <= len <= 65535
    ensures var q := SeekTarget(pos, len, offset, whence);
            && (whence == 0 && 0 <= offset <= 65535 ==> q == offset)
            && (whence == 1 && 0 <= pos + offset < len ==> q == pos + offset)
            && (whence == 1 && len <= pos + offset <= 65535 ==> q == len - 1)
            && (whence == 1 && len - 65536 <= pos + offset < 0 ==> q == len - 1)
            && (whence == 2 && 0 <= offset <= len ==> q == len - offset)
            && (whence != 0 && whence != 1 && whence != 2 ==> q == pos)
  {
    hide SeekTarget;
    if whence == 0 && 0 <= offset <= 65535 {
      SeekPlace(pos, len, offset, whence, offset, 0);
    } else if whence == 1 && 0 <= pos + offset <= 65535 {
      SeekPlace(pos, len, offset, whence, pos + offset, 0);
    } else if whence == 1 && -65536 <= pos + offset < 0 {
      SeekPlace(pos, len, offset, whence, pos + offset + 65536, -1);
    } else if whence == 2 && 0 <= offset <= len {
      SeekPlace(pos, len, offset, whence, len - offset, 0);
    } else {
      SeekPlace(pos, len, offset, whence, 0, 0);
    }
  }

  /** The number of elements ss_fread() takes, with its 32-bit unsigned subtraction. */
  function ElementsTaken(len: u16, pos: u16, size: nat, count: nat): nat
    requires size > 0
  {
    var most := (len - pos) % 0x1_0000_0000 / size;
    if count > most then most else count
  }

  /** A read of at least one element of a sane size stays inside the file exactly when it starts
      inside it; past the end the subtraction wraps. */
  lemma ReadStaysInside(len: u16, pos: u16, size: nat, count: nat)
    requires 0 < size <= U16_MAX && count > 0
    ensures pos + ElementsTaken(len, pos, size, count) * size <= len <==> pos <= len
    ensures pos <= len ==> ElementsTaken(len, pos, size, count) == Elements(len, pos, size, count)
  {
    if pos > len {
      assert (len - pos) % 0x1_0000_0000 == len - pos + 0x1_0000_0000;
      assert (len - pos + 0x1_0000_0000) / size >= 1;
      assert ElementsTaken(len, pos, size, count) >= 1;
    } else {
      assert (len - pos) % 0x1_0000_0000 == len - pos;
    }
  }

  // --- The machine -----------------------------------------------------------------------------

  function OpenKey(p: Plain): u16
    requires p.open.Some? && p.open.value.hash in p.listing
  {
    p.listing[p.open.value.hash].key
  }

  ghost predicate IsOpen(p: Plain) {
    p.open.Some? && p.open.value.hash in p.listing && OpenKey(p) in p.view
  }

  /** What the plain file system lets each step do and answer. */
  ghost predicate Legal(p: Plain, e: Event) {
    match e
    case Opened(hash) => p.open.None? && hash in p.listing && p.listing[hash].key in p.view
    case Read(size, count, data) =>
      && IsOpen(p)
      && var (c, pos) := (p.view[OpenKey(p)], p.open.value.pos);
         pos <= |c| && |c| <= U16_MAX && data == c[pos..pos + size * Elements(|c|, pos, size, count)]
    case Wrote(data) => IsOpen(p) && p.open.value.pos + |data| <= U16_MAX
    case Put(c, hole) =>
      && IsOpen(p) && p.open.value.pos < U16_MAX
      && var (len, pos) := (|p.view[OpenKey(p)]|, p.open.value.pos);
         |hole| == if pos > len then pos - len else 0
    case Sought(offset, whence) => IsOpen(p) && 1 <= |p.view[OpenKey(p)]| <= U16_MAX
    case Closed(rc) =>
      && IsOpen(p) && OpenKey(p) in p.durable
      && (rc == 0 && p.listing[p.open.value.hash].eager ==> p.durable[OpenKey(p)] == p.view[OpenKey(p)])
    case Committed(key) => key in p.view
    case Removed(hash, erased) => hash in p.listing && (p.open.Some? ==> p.open.value.hash != hash)
    case Provisioned(hash, data) =>
      && p.open.None? && hash in p.listing && 1 <= |data| <= U16_MAX
    case Mounted => p.open.None? && p.listing == map[] && p.boot != map[]
    case Unmounted => p.open.None? && p.view == p.durable
    case Crashed => true
  }

  ghost function Apply(p: Plain, e: Event): Plain
    requires Legal(p, e)
  {
    match e
    case Opened(hash) => p.(open := Some(Handle(hash, 0)))
    case Read(size, count, data) => MoveTo(p, p.open.value.pos + |data|)
    case Wrote(data) =>
      var (key, pos) := (OpenKey(p), p.open.value.pos);
      MoveTo(p.(view := p.view[key := Overlay(p.view[key], pos, data)]), pos + |data|)
    case Put(c, hole) =>
      var (key, pos) := (OpenKey(p), p.open.value.pos);
      MoveTo(p.(view := p.view[key := PutByte(p.view[key], pos, c, hole)]), pos + 1)
    case Sought(offset, whence) =>
      MoveTo(p, SeekTarget(p.open.value.pos, |p.view[OpenKey(p)]|, offset, whence))
    case Closed(rc) => p.(open := None)
    case Committed(key) => p.(durable := p.durable[key := p.view[key]])
    case Removed(hash, erased) =>
      var key := p.listing[hash].key;
      if erased || key !in p.durable then
        p.(listing := p.listing - {hash}, view := p.view - {key}, durable := p.durable - {key})
      else
        p.(listing := p.listing - {hash}, view := p.view[key := p.durable[key]])
    case Provisioned(hash, data) =>
      var key := p.listing[hash].key;
      Plain(p.boot, p.listing[hash := File(key, false)], p.view[key := data], p.durable[key := data], p.open)
    case Mounted => p.(listing := p.boot)
    case Unmounted => p.(listing := map[])
    case Crashed => Plain(p.boot, map[], p.durable, p.durable, None)
  }

  ghost function MoveTo(p: Plain, pos: nat): Plain
    requires p.open.Some? && pos <= U16_MAX
  {
    p.(open := Some(Handle(p.open.value.hash, pos)))
  }

  /** e is a legal step from p to q. */
  ghost predicate Step(p: Plain, e: Event, q: Plain) {
    Legal(p, e) && q == Apply(p, e)
  }

  /** The state a run leads to, or None when some step of it was not legal. */
  ghost function Run(base: Plain, h: seq<Event>): Option<Plain> {
    if h == [] then Some(base) else
      match Run(base, h[..|h| - 1])
      case None => None
      case Some(p) => if Legal(p, h[|h| - 1]) then Some(Apply(p, h[|h| - 1])) else None
  }

  ghost predicate LegalRun(base: Plain, h: seq<Event>) {
    Run(base, h).Some?
  }

  /** The state just before event i. */
  ghost function At(base: Plain, h: seq<Event>, i: nat): Plain
    requires LegalRun(base, h) && i <= |h|
  {
    PrefixLegal(base, h, i);
    Run(base, h[..i]).value
  }

  lemma {:induction false} PrefixLegal(base: Plain, h: seq<Event>, i: nat)
    requires LegalRun(base, h) && i <= |h|
    ensures LegalRun(base, h[..i])
    decreases |h|
  {
    if i < |h| {
      PrefixLegal(base, h[..|h| - 1], i);
      assert h[..|h| - 1][..i] == h[..i];
    } else {
      assert h[..i] == h;
    }
  }

  lemma StepAt(base: Plain, h: seq<Event>, i: nat)
    requires LegalRun(base, h) && i < |h|
    ensures Legal(At(base, h, i), h[i]) && At(base, h, i + 1) == Apply(At(base, h, i), h[i])
  {
    PrefixLegal(base, h, i + 1);
    assert h[..i + 1][..i] == h[..i];
  }

  lemma Extend(base: Plain, h: seq<Event>, e: Event)
    requires LegalRun(base, h) && Legal(Run(base, h).value, e)
    ensures Run(base, h + [e]) == Some(Apply(Run(base, h).value, e))
  {
    assert (h + [e])[..|h|] == h;
  }

  /** A run in two parts. */
  lemma {:induction false} RunSplit(base: Plain, a: seq<Event>, b: seq<Event>)
    requires LegalRun(base, a + b)
    ensures LegalRun(base, a) && Run(Run(base, a).value, b) == Run(base, a + b)
    decreases |b|
  {
    if b == [] {
      assert a + b == a;
    } else {
      var n := |b| - 1;
      assert (a + b)[..|a| + n] == a + b[..n];
      RunSplit(base, a, b[..n]);
    }
  }

  /** The step puts NVS through a write or delete that it accepted. */
  predicate Writes(e: Event) {
    e.Committed? || e.Provisioned? || (e.Removed? && e.erased)
  }

  /** Everything flash has held during a run, one state per accepted write. */
  ghost function FlashStates(base: Plain, h: seq<Event>): seq<map<u16, bytes>>
    requires LegalRun(base, h)
  {
    if h == [] then [] else
      PrefixLegal(base, h, |h| - 1);
      FlashStates(base, h[..|h| - 1]) + if Writes(h[|h| - 1]) then [Run(base, h).value.durable] else []
  }

  lemma FlashExtend(base: Plain, h: seq<Event>, e: Event)
    requires LegalRun(base, h) && Legal(Run(base, h).value, e)
    ensures LegalRun(base, h + [e])
    ensures FlashStates(base, h + [e]) ==
            FlashStates(base, h) + if Writes(e) then [Apply(Run(base, h).value, e).durable] else []
  {
    Extend(base, h, e);
    assert (h + [e])[..|h|] == h;
  }

  /** How many accepted writes a run has. */
  function WriteCount(h: seq<Event>): nat {
    if h == [] then 0 else WriteCount(h[..|h| - 1]) + if Writes(h[|h| - 1]) then 1 else 0
  }

  lemma {:induction false} FlashStateCount(base: Plain, h: seq<Event>)
    requires LegalRun(base, h)
    ensures |FlashStates(base, h)| == WriteCount(h)
  {
    if h != [] {
      PrefixLegal(base, h, |h| - 1);
      FlashStateCount(base, h[..|h| - 1]);
    }
  }

  /** The state flash is in after its write j is the durable state right after the event that made
      that write. */
  lemma {:induction false} FlashStateAt(base: Plain, h: seq<Event>, j: nat) returns (n: nat)
    requires LegalRun(base, h) && j < |FlashStates(base, h)|
    ensures 0 < n <= |h| && Writes(h[n - 1]) && WriteCount(h[..n]) == j + 1
    ensures At(base, h, n).durable == FlashStates(base, h)[j]
  {
    FlashStateCount(base, h);
    var last := |h| - 1;
    PrefixLegal(base, h, last);
    if j < |FlashStates(base, h[..last])| {
      n := FlashStateAt(base, h[..last], j);
      assert h[..last][..n] == h[..n];
    } else {
      n := |h|;
      assert h[..n] == h;
    }
  }

  // --- What every run keeps --------------------------------------------------------------------

  ghost predicate Storable(records: map<u16, bytes>) {
    forall k :: k in records ==> 1 <= |records[k]| <= U16_MAX
  }

  ghost predicate SameRecord(a: map<u16, bytes>, b: map<u16, bytes>, k: u16) {
    (k in a <==> k in b) && (k in a ==> a[k] == b[k])
  }

  /** No two paths share an NVS key and none has the key of the directory itself. */
  ghost predicate GoodBoot(boot: map<u32, File>) {
    && (forall h :: h in boot ==> boot[h].key != DIR_ID)
    && (forall g, h :: g in boot && h in boot && g != h ==> boot[g].key != boot[h].key)
  }

  ghost predicate Inv(p: Plain) {
    && GoodBoot(p.boot)
    && (forall h :: h in p.listing ==> h in p.boot && p.listing[h].key == p.boot[h].key)
    && p.view.Keys == p.durable.Keys
    && Storable(p.view) && Storable(p.durable)
    && SameRecord(p.view, p.durable, DIR_ID)
    && (p.open.Some? ==> IsOpen(p))
  }

  /** What one step keeps. */
  ghost predicate Kept(p: Plain, q: Plain) {
    Inv(q) && q.boot == p.boot && SameRecord(p.durable, q.durable, DIR_ID)
  }

  lemma InvUpdated(p: Plain, c: bytes, pos: nat)
    requires Inv(p) && IsOpen(p) && pos <= U16_MAX && 1 <= |c| <= U16_MAX
    ensures Kept(p, MoveTo(p.(view := p.view[OpenKey(p) := c]), pos))
  {
    assert OpenKey(p) != DIR_ID;
    assert p.view[OpenKey(p) := c].Keys == p.view.Keys;
  }

  lemma InvCommitted(p: Plain, key: u16)
    requires Inv(p) && Legal(p, Committed(key))
    ensures Kept(p, Apply(p, Committed(key)))
  {
    assert p.durable[key := p.view[key]].Keys == p.durable.Keys;
  }

  lemma InvRemoved(p: Plain, hash: u32, erased: bool)
    requires Inv(p) && Legal(p, Removed(hash, erased))
    ensures Kept(p, Apply(p, Removed(hash, erased)))
  {
    if p.open.Some? {
      assert OpenKey(p) != p.listing[hash].key;
    }
  }

  lemma InvProvisioned(p: Plain, hash: u32, data: bytes)
    requires Inv(p) && Legal(p, Provisioned(hash, data))
    ensures Kept(p, Apply(p, Provisioned(hash, data)))
  {
  }

  lemma InvStep(p: Plain, e: Event)
    requires Inv(p) && Legal(p, e)
    ensures Kept(p, Apply(p, e))
  {
    match e
    case Wrote(data) =>
      InvUpdated(p, Overlay(p.view[OpenKey(p)], p.open.value.pos, data), p.open.value.pos + |data|);
    case Put(c, hole) =>
      InvUpdated(p, PutByte(p.view[OpenKey(p)], p.open.value.pos, c, hole), p.open.value.pos + 1);
    case Committed(key) => InvCommitted(p, key);
    case Removed(hash, erased) => InvRemoved(p, hash, erased);
    case Provisioned(hash, data) => InvProvisioned(p, hash, data);
    case _ =>
  }

  lemma {:induction false} InvRun(base: Plain, h: seq<Event>)
    requires Inv(base) && LegalRun(base, h)
    ensures Inv(Run(base, h).value) && Run(base, h).value.boot == base.boot
    ensures SameRecord(base.durable, Run(base, h).value.durable, DIR_ID)
  {
    if h != [] {
      InvRun(base, h[..|h| - 1]);
      InvStep(Run(base, h[..|h| - 1]).value, h[|h| - 1]);
    }
  }

  // --- The steps, byte by byte -----------------------------------------------------------------

  /** Flash, the listing and every file but k are untouched. */
  ghost predicate OnlyFile(p: Plain, q: Plain, k: u16) {
    && q.boot == p.boot && q.listing == p.listing && q.durable == p.durable && q.view.Keys == p.view.Keys
    && forall j :: j in p.view && j != k ==> q.view[j] == p.view[j]
  }

  /** n bytes were read: those of the file from the cursor on, which moves behind them. */
  ghost predicate ReadOut(p: Plain, data: bytes, q: Plain) {
    && IsOpen(p)
    && var (c, pos) := (p.view[OpenKey(p)], p.open.value.pos);
       && pos + |data| <= |c| && (forall i :: 0 <= i < |data| ==> data[i] == c[pos + i])
       && OnlyFile(p, q, OpenKey(p)) && OpenKey(p) in q.view && q.view[OpenKey(p)] == c
       && q.open.Some? && q.open.value.hash == p.open.value.hash && q.open.value.pos == pos + |data|
  }

  /** data was laid over the file at the cursor, which moves behind it; the length stays. */
  ghost predicate WrittenOver(p: Plain, data: bytes, q: Plain) {
    && IsOpen(p) && OnlyFile(p, q, OpenKey(p)) && OpenKey(p) in q.view
    && var (c, d, pos) := (p.view[OpenKey(p)], q.view[OpenKey(p)], p.open.value.pos);
       && |d| == |c|
       && (forall i :: 0 <= i < |d| ==> d[i] == if pos <= i < pos + |data| then data[i - pos] else c[i])
       && q.open.Some? && q.open.value.hash == p.open.value.hash && q.open.value.pos == pos + |data|
  }

  /** The byte b was put at the cursor, which moves behind it; the file grows to there if need be. */
  ghost predicate BytePut(p: Plain, b: byte, q: Plain) {
    && IsOpen(p) && OnlyFile(p, q, OpenKey(p)) && OpenKey(p) in q.view
    && var (c, d, pos) := (p.view[OpenKey(p)], q.view[OpenKey(p)], p.open.value.pos);
       && |d| == (if |c| <= pos then pos + 1 else |c|) && d[pos] == b
       && (forall i :: 0 <= i < |c| && i != pos ==> d[i] == c[i])
       && q.open.Some? && q.open.value.hash == p.open.value.hash && q.open.value.pos == pos + 1
  }

  lemma ReadStepReads(p: Plain, size: nat, count: nat, data: bytes, q: Plain)
    requires Step(p, Read(size, count, data), q)
    ensures ReadOut(p, data, q)
  {
  }

  lemma WroteStepWrites(p: Plain, data: bytes, q: Plain)
    requires Step(p, Wrote(data), q)
    ensures WrittenOver(p, data, q)
  {
  }

  lemma PutStepPuts(p: Plain, c: byte, hole: bytes, q: Plain)
    requires Step(p, Put(c, hole), q)
    ensures BytePut(p, c, q)
  {
  }

  /** A seek and then a read give the bytes of the file from the place sought. */
  lemma ReadAfterSeek(p: Plain, o: nat, q: Plain, size: nat, count: nat, data: bytes, r: Plain)
    requires Inv(p) && o <= 65535 && Step(p, Sought(o, 0), q) && Step(q, Read(size, count, data), r)
    ensures var c := p.view[OpenKey(p)]; o + |data| <= |c| && data == c[o..o + |data|]
  {
    hide Elements, SeekTarget, Overlay, PutByte;
    SeekSpelledOut(p.open.value.pos, |p.view[OpenKey(p)]|, o, 0);
    ReadStepReads(q, size, count, data, r);
  }

  /** The path is gone from the listing, and no other; if flash let go of its record, the file is gone
      too, else it is what flash holds. No other file changes. */
  ghost predicate PathRemoved(p: Plain, hash: u32, erased: bool, q: Plain) {
    && hash in p.listing && q.boot == p.boot && q.open == p.open
    && (forall h :: h in q.listing <==> h in p.listing && h != hash)
    && (forall h :: h in q.listing ==> q.listing[h] == p.listing[h])
    && var k := p.listing[hash].key;
       && (forall j :: j != k ==> SameRecord(p.view, q.view, j) && SameRecord(p.durable, q.durable, j))
       && (if erased then k !in q.view && k !in q.durable
           else SameRecord(p.durable, q.durable, k) && SameRecord(p.durable, q.view, k))
  }

  lemma RemovedStepRemoves(p: Plain, hash: u32, erased: bool, q: Plain)
    requires Inv(p) && Step(p, Removed(hash, erased), q)
    ensures PathRemoved(p, hash, erased, q)
  {
  }

  /** The path shows the record, in RAM and on flash, and is no longer committed on close. */
  ghost predicate RecordPlaced(p: Plain, hash: u32, data: bytes, q: Plain) {
    && hash in p.listing && q.boot == p.boot && q.open == p.open && q.listing.Keys == p.listing.Keys
    && (forall h :: h in p.listing && h != hash ==> q.listing[h] == p.listing[h])
    && var k := p.listing[hash].key;
       && q.listing[hash].key == k && !q.listing[hash].eager
       && k in q.view && q.view[k] == data && k in q.durable && q.durable[k] == data
       && (forall j :: j != k ==> SameRecord(p.view, q.view, j) && SameRecord(p.durable, q.durable, j))
  }

  lemma ProvisionedStepPlaces(p: Plain, hash: u32, data: bytes, q: Plain)
    requires Step(p, Provisioned(hash, data), q)
    ensures RecordPlaced(p, hash, data, q)
  {
  }

  /** A mount lists what the DIR record lists, an unmount nothing; neither changes a file. */
  lemma MountedSpelledOut(p: Plain, q: Plain)
    ensures Step(p, Mounted, q) ==> q.listing == p.boot && q.view == p.view && q.durable == p.durable
    ensures Step(p, Unmounted, q) ==> q.listing == map[] && q.view == p.view == q.durable
    ensures Step(p, Crashed, q) ==> q.listing == map[] && q.view == p.durable == q.durable && q.open == None
  {
  }

  // --- The cursor ------------------------------------------------------------------------------

  /** An open file's cursor is not past its end. */
  ghost predicate CursorInside(p: Plain) {
    p.open.Some? ==> IsOpen(p) && p.open.value.pos <= |p.view[OpenKey(p)]|
  }

  /** A write ends within the file; a seek to a place or from the end has an offset within it. */
  ghost predicate InRange(p: Plain, e: Event)
    requires Legal(p, e)
  {
    match e
    case Wrote(data) => p.open.value.pos + |data| <= |p.view[OpenKey(p)]|
    case Sought(offset, whence) =>
      whence == SEEK_SET || whence == SEEK_END ==> offset % 0x1_0000 <= |p.view[OpenKey(p)]|
    case _ => true
  }

  lemma MovedInside(p: Plain, c: bytes, pos: nat)
    requires IsOpen(p) && pos <= U16_MAX
    ensures CursorInside(MoveTo(p.(view := p.view[OpenKey(p) := c]), pos)) <==> pos <= |c|
    ensures CursorInside(MoveTo(p, pos)) <==> pos <= |p.view[OpenKey(p)]|
  {
  }

  lemma InsideMeans(p: Plain)
    requires CursorInside(p) && p.open.Some?
    ensures IsOpen(p) && p.open.value.pos <= |p.view[OpenKey(p)]|
  {
  }

  lemma CursorWrote(p: Plain, data: bytes)
    requires Legal(p, Wrote(data))
    ensures CursorInside(Apply(p, Wrote(data))) <==> p.open.value.pos + |data| <= |p.view[OpenKey(p)]|
  {
    hide CursorInside, MoveTo;
    var c, pos := p.view[OpenKey(p)], p.open.value.pos;
    MovedInside(p, Overlay(c, pos, data), pos + |data|);
  }

  lemma CursorPut(p: Plain, b: byte, hole: bytes)
    requires Legal(p, Put(b, hole))
    ensures CursorInside(Apply(p, Put(b, hole)))
  {
    hide CursorInside, MoveTo;
    var c, pos := p.view[OpenKey(p)], p.open.value.pos;
    MovedInside(p, PutByte(c, pos, b, hole), pos + 1);
  }

  lemma CursorRead(p: Plain, size: nat, count: nat, data: bytes)
    requires Legal(p, Read(size, count, data))
    ensures CursorInside(Apply(p, Read(size, count, data)))
  {
    hide CursorInside, MoveTo;
    MovedInside(p, p.view[OpenKey(p)], p.open.value.pos + |data|);
  }

  lemma CursorSought(p: Plain, offset: int, whence: int)
    requires Legal(p, Sought(offset, whence)) && p.open.value.pos <= |p.view[OpenKey(p)]|
    ensures CursorInside(Apply(p, Sought(offset, whence))) <==> InRange(p, Sought(offset, whence))
  {
    hide CursorInside, MoveTo;
    var c, pos := p.view[OpenKey(p)], p.open.value.pos;
    SeekStaysInside(pos, |c|, offset, whence);
    MovedInside(p, c, SeekTarget(pos, |c|, offset, whence));
  }

  lemma CursorRests(p: Plain, e: Event)
    requires Inv(p) && Legal(p, e) && CursorInside(p) && !e.Wrote? && !e.Put? && !e.Sought? && !e.Read?
    ensures CursorInside(Apply(p, e))
  {
    if e.Removed? && p.open.Some? {
      assert OpenKey(p) != p.listing[e.hash].key;
    }
  }

  /** Only a write or a seek can take the cursor out of the file, and only out of range. */
  lemma CursorStep(p: Plain, e: Event)
    requires Inv(p) && Legal(p, e) && CursorInside(p)
    ensures CursorInside(Apply(p, e)) <==> InRange(p, e)
  {
    hide Inv, Apply, CursorInside, SeekTarget, Elements;
    match e
    case Wrote(data) => CursorWrote(p, data);
    case Put(b, hole) => CursorPut(p, b, hole);
    case Read(size, count, data) => CursorRead(p, size, count, data);
    case Sought(offset, whence) =>
      InsideMeans(p);
      CursorSought(p, offset, whence);
    case _ => CursorRests(p, e);
  }

  ghost predicate InRangeAt(base: Plain, h: seq<Event>, i: nat)
    requires LegalRun(base, h) && i < |h|
  {
    StepAt(base, h, i);
    InRange(At(base, h, i), h[i])
  }

  /** From a state with the cursor inside, such as any with no file open, the cursor is inside after
      every step of a run up to n exactly when every write and seek up to n is in range. */
  lemma {:induction false} CursorRun(base: Plain, h: seq<Event>, i: nat, n: nat)
    requires Inv(base) && LegalRun(base, h) && i <= n <= |h| && CursorInside(At(base, h, i))
    ensures (forall j :: i <= j <= n ==> CursorInside(At(base, h, j))) <==>
            (forall j :: i <= j < n ==> InRangeAt(base, h, j))
    decreases n
  {
    hide CursorInside, InRange, Apply, Legal, Run, Inv;
    if i < n {
      CursorRun(base, h, i, n - 1);
      PrefixLegal(base, h, n - 1);
      InvRun(base, h[..n - 1]);
      StepAt(base, h, n - 1);
      if CursorInside(At(base, h, n - 1)) {
        CursorStep(At(base, h, n - 1), h[n - 1]);
        assert CursorInside(At(base, h, n)) <==> InRangeAt(base, h, n - 1);
      } else {
        assert !forall j :: i <= j < n - 1 ==> InRangeAt(base, h, j);
      }
    }
  }

  /** Out of range it does happen: a seek one past the end of a one-byte file, from where a read of
      one byte is not refused. */
  lemma SeekPastEnd(hash: u32, key: u16, b: byte) returns (base: Plain, h: seq<Event>)
    requires key != DIR_ID
    ensures Inv(base) && LegalRun(base, h) && h == [Opened(hash), Sought(2, SEEK_SET)]
    ensures var p := Run(base, h).value;
            IsOpen(p) && p.view[OpenKey(p)] == [b] && p.open.value.pos == 2
    ensures 2 + ElementsTaken(1, 2, 1, 1) * 1 == 3
  {
    var files := map[hash := File(key, false)];
    base := Plain(files, files, map[key := [b]], map[key := [b]], None);
    h := [Opened(hash)];
    assert [Opened(hash)] == [] + [Opened(hash)];
    Extend(base, [], Opened(hash));
    Extend(base, h, Sought(2, SEEK_SET));
    h := h + [Sought(2, SEEK_SET)];
    ReadStaysInside(1, 2, 1, 1);
  }
}
