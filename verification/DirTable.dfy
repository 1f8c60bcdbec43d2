/** The directory table of lib/ss_cache.c: parsing the DIR blob and looking paths up by hash. */
module DirTable {
  import opened Bytes
  import Fnv

  /** One 8-byte directory entry; the path itself is not kept. */
  datatype Entry = Entry(hash: u32, key: u16, flags: byte, hits: byte)

  /** One record of the DIR blob. */
  datatype Record = Record(name: bytes, key: u16)

  const HEADER_LEN := 3

  // --- The blob format -------------------------------------------------------------------------

  predicate Encodable(rs: seq<Record>) {
    forall i :: 0 <= i < |rs| ==> |rs[i].name| <= 255
  }

  function EncodeRecord(r: Record): (s: bytes)
    requires |r.name| <= 255
    ensures |s| == HEADER_LEN + |r.name|
  {
    [|r.name|, r.key / 256, r.key % 256] + r.name
  }

  function Encode(rs: seq<Record>): bytes
    requires Encodable(rs)
  {
    if rs == [] then [] else EncodeRecord(rs[0]) + Encode(rs[1..])
  }

  function KeyOf(hi: byte, lo: byte): (key: u16)
    ensures key / 256 == hi && key % 256 == lo
  {
    256 * (hi as int) + lo
  }

  /** A whole record starts at the cursor. */
  predicate RecordAt(blob: bytes, cursor: nat) {
    cursor < |blob| && cursor + HEADER_LEN + blob[cursor] <= |blob|
  }

  function ReadRecord(blob: bytes, cursor: nat): (r: Record)
    requires RecordAt(blob, cursor)
    ensures |r.name| == blob[cursor]
  {
    Record(blob[cursor + HEADER_LEN..cursor + HEADER_LEN + blob[cursor]], KeyOf(blob[cursor + 1], blob[cursor + 2]))
  }

  /** The records from a cursor on, up to the first one that runs past the end. */
  function ParseFrom(blob: bytes, cursor: nat): (rs: seq<Record>)
    requires cursor <= |blob|
    ensures HEADER_LEN * |rs| <= |blob| - cursor
    ensures Encodable(rs)
    decreases |blob| - cursor
  {
    if RecordAt(blob, cursor) then
      [ReadRecord(blob, cursor)] + ParseFrom(blob, cursor + HEADER_LEN + blob[cursor])
    else []
  }

  function Parse(blob: bytes): (rs: seq<Record>)
    ensures HEADER_LEN * |rs| <= |blob| && Encodable(rs)
  {
    ParseFrom(blob, 0)
  }

  /** What the parser took is a prefix of the blob. */
  lemma {:induction false} ParsedPrefix(blob: bytes, cursor: nat)
    requires cursor <= |blob|
    ensures Encode(ParseFrom(blob, cursor)) <= blob[cursor..]
    decreases |blob| - cursor
  {
    if RecordAt(blob, cursor) {
      var next := cursor + HEADER_LEN + blob[cursor];
      assert EncodeRecord(ReadRecord(blob, cursor)) == blob[cursor..next];
      ParsedPrefix(blob, next);
      assert ParseFrom(blob, cursor)[1..] == ParseFrom(blob, next);
      assert blob[cursor..] == blob[cursor..next] + blob[next..];
    }
  }

  lemma ParseStep(blob: bytes, cursor: nat)
    requires RecordAt(blob, cursor)
    ensures ParseFrom(blob, cursor) ==
            [ReadRecord(blob, cursor)] + ParseFrom(blob, cursor + HEADER_LEN + |ReadRecord(blob, cursor).name|)
  {
  }

  lemma ConsConcat<T>(s: seq<T>, t: seq<T>)
    requires s != []
    ensures [s[0]] + (s[1..] + t) == s + t
  {
  }

  /** Any list of records laid out at a cursor, whatever follows it, is read back in order. */
  lemma {:induction false} ParseAfterEncode(blob: bytes, cursor: nat, rs: seq<Record>, end: nat)
    requires cursor <= end <= |blob| && Encodable(rs) && Encode(rs) == blob[cursor..end]
    ensures ParseFrom(blob, cursor) == rs + ParseFrom(blob, end)
    decreases |rs|
  {
    if rs != [] {
      var next := cursor + |EncodeRecord(rs[0])|;
      ChunkParts(blob, cursor, EncodeRecord(rs[0]), Encode(rs[1..]), end);
      RecordReadBack(blob, cursor, rs[0]);
      ParseAfterEncode(blob, next, rs[1..], end);
      ParseStep(blob, cursor);
      ConsConcat(rs, ParseFrom(blob, end));
    }
  }

  lemma ChunkParts(blob: bytes, cursor: nat, a: bytes, b: bytes, end: nat)
    requires cursor <= end <= |blob| && a + b == blob[cursor..end]
    ensures cursor + |a| <= end
    ensures blob[cursor..cursor + |a|] == a && blob[cursor + |a|..end] == b
  {
    assert blob[cursor..cursor + |a|] == (a + b)[..|a|];
    assert blob[cursor + |a|..end] == (a + b)[|a|..];
  }

  lemma RecordReadBack(blob: bytes, cursor: nat, r: Record)
    requires |r.name| <= 255 && cursor + HEADER_LEN + |r.name| <= |blob|
    requires blob[cursor..cursor + HEADER_LEN + |r.name|] == EncodeRecord(r)
    ensures RecordAt(blob, cursor) && ReadRecord(blob, cursor) == r
  {
    var chunk := blob[cursor..cursor + HEADER_LEN + |r.name|];
    assert chunk[0] == blob[cursor] && chunk[1] == blob[cursor + 1] && chunk[2] == blob[cursor + 2];
    assert chunk[HEADER_LEN..] == blob[cursor + HEADER_LEN..cursor + HEADER_LEN + |r.name|];
  }

  /** The parser accepts exactly the longest well-formed record prefix of a blob. */
  lemma ParseIsLongestPrefix(blob: bytes, rs: seq<Record>)
    requires Encodable(rs)
    ensures Encode(rs) <= blob <==> rs <= Parse(blob)
  {
    if Encode(rs) <= blob {
      ParseAfterEncode(blob, 0, rs, |Encode(rs)|);
    }
    if rs <= Parse(blob) {
      var rest := Parse(blob)[|rs|..];
      assert Parse(blob) == rs + rest;
      EncodeConcat(rs, rest);
      ParsedPrefix(blob, 0);
      assert blob[0..] == blob;
    }
  }

  /** Round trip: a written table is read back, with or without a truncated record behind it. */
  lemma ParseEncode(rs: seq<Record>, tail: bytes)
    requires Encodable(rs) && !RecordAt(tail, 0)
    ensures Parse(Encode(rs) + tail) == rs
  {
    var n := |Encode(rs)|;
    var blob := Encode(rs) + tail;
    assert blob[0..n] == Encode(rs);
    ParseAfterEncode(blob, 0, rs, n);
    assert !RecordAt(blob, n) by {
      assert tail != [] ==> blob[n] == tail[0];
    }
    assert ParseFrom(blob, n) == [];
  }

  lemma {:induction false} EncodeConcat(a: seq<Record>, b: seq<Record>)
    requires Encodable(a) && Encodable(b)
    ensures Encode(a + b) == Encode(a) + Encode(b)
  {
    if a == [] {
      assert a + b == b;
    } else {
      assert (a + b)[1..] == a[1..] + b;
      EncodeConcat(a[1..], b);
    }
  }

  // --- The table -------------------------------------------------------------------------------

  function EntryOf(r: Record): Entry {
    Entry(Fnv.Hash(r.name), r.key, r.key / 256, 0)
  }

  function Entries(rs: seq<Record>): (es: seq<Entry>)
    ensures |es| == |rs|
    ensures forall i :: 0 <= i < |rs| ==> es[i] == EntryOf(rs[i])
  {
    seq(|rs|, i requires 0 <= i < |rs| => EntryOf(rs[i]))
  }

  ghost predicate DistinctHashes(dir: seq<Entry>) {
    forall i, j :: 0 <= i < j < |dir| ==> dir[i].hash != dir[j].hash
  }

  /** Two records of the blob have names that hash alike. */
  ghost predicate Collide(rs: seq<Record>) {
    exists i, j :: 0 <= i < j < |rs| && Fnv.Hash(rs[i].name) == Fnv.Hash(rs[j].name)
  }

  /** Where record i of the blob starts, by walking over the name lengths before it; past the end if
      there are not that many. */
  function Offset(blob: bytes, i: nat): nat {
    if i == 0 then 0 else
      var o := Offset(blob, i - 1);
      if o < |blob| then o + 3 + blob[o] else o + 3
  }

  /** The entry is that of the record at the offset: name length, key in two bytes with the flags
      first, name. */
  ghost predicate EntryAt(blob: bytes, o: nat, e: Entry) {
    && o + 3 <= |blob| && o + 3 + blob[o] <= |blob|
    && e.hash == Fnv.Hash(blob[o + 3..o + 3 + blob[o]])
    && e.key == 0x100 * (blob[o + 1] as int) + blob[o + 2]
    && e.flags == blob[o + 1] && e.hits == 0
  }

  lemma {:induction false} RecordStarts(blob: bytes, i: nat)
    requires i <= |Parse(blob)|
    ensures Offset(blob, i) <= |blob| && ParseFrom(blob, Offset(blob, i)) == Parse(blob)[i..]
  {
    if i > 0 {
      RecordStarts(blob, i - 1);
      ParseUncons(blob, Offset(blob, i - 1), Parse(blob), i - 1);
    }
  }

  /** Reading the table off the blob byte by byte: an entry for each record, until one is cut off. */
  lemma TableIsBlob(blob: bytes)
    ensures var table := Entries(Parse(blob));
            && (forall i :: 0 <= i < |table| ==> EntryAt(blob, Offset(blob, i), table[i]))
            && var end := Offset(blob, |table|);
               end == |blob| || (end < |blob| && end + 3 + blob[end] > |blob|)
  {
    hide EntryAt, EntryOf, ReadRecord, Offset, Parse, ParseFrom;
    var all := Parse(blob);
    forall i | 0 <= i < |all|
      ensures EntryAt(blob, Offset(blob, i), EntryOf(all[i]))
    {
      RecordStarts(blob, i);
      ParseUncons(blob, Offset(blob, i), all, i);
      EntryOfRecord(blob, Offset(blob, i));
    }
    RecordStarts(blob, |all|);
    NoRecord(blob, Offset(blob, |all|));
  }

  lemma NoRecord(blob: bytes, cursor: nat)
    requires cursor <= |blob| && ParseFrom(blob, cursor) == []
    ensures !RecordAt(blob, cursor)
  {
  }

  lemma EntryOfRecord(blob: bytes, o: nat)
    requires RecordAt(blob, o)
    ensures EntryAt(blob, o, EntryOf(ReadRecord(blob, o)))
  {
  }

  /** `granted` says whether the heap hands out the table. */
  method TableFromBlob(blob: bytes, granted: bool) returns (count: int, table: seq<Entry>)
    ensures count == 0 <==> Parse(blob) == []
    ensures count == -1 <==> Parse(blob) != [] && (!granted || Collide(Parse(blob)))
    ensures count > 0 ==> table == Entries(Parse(blob)) && count == |table| && DistinctHashes(table)
    ensures count <= 0 ==> count >= -1 && table == []
    // In terms of the bytes: flags are the upper byte of the key, which keeps all 16 bits.
    ensures forall i :: 0 <= i < |table| ==>
              var o := Offset(blob, i);
              && o + 3 <= |blob| && o + 3 + blob[o] <= |blob|
              && table[i].hash == Fnv.Hash(blob[o + 3..o + 3 + blob[o]])
              && table[i].key == 0x100 * (blob[o + 1] as int) + blob[o + 2]
              && table[i].flags == blob[o + 1] && table[i].hits == 0
    ensures count > 0 ==>
              var end := Offset(blob, count);
              end == |blob| || (end < |blob| && end + 3 + blob[end] > |blob|)
  {
    hide Offset, Fnv.Hash, Parse;
    TableIsBlob(blob);
    table := [];
    count := CountRecords(blob);
    if count == 0 {
      return;
    }
    if !granted {
      count := -1;
      return;
    }
    var dir := FillTable(blob, count);
    var clash := HasClash(dir);
    ClashIsCollision(Parse(blob));
    if clash {
      count := -1;
      return;
    }
    table := dir[..];
  }

  lemma ClashIsCollision(rs: seq<Record>)
    ensures Collide(rs) <==> !DistinctHashes(Entries(rs))
  {
    if Collide(rs) {
      var i, j :| 0 <= i < j < |rs| && Fnv.Hash(rs[i].name) == Fnv.Hash(rs[j].name);
      assert Entries(rs)[i].hash == Entries(rs)[j].hash;
    }
  }

  /** First pass: count the well-formed records. */
  method CountRecords(blob: bytes) returns (count: nat)
    ensures count == |Parse(blob)|
  {
    var cursor := 0;
    count := 0;
    while cursor < |blob|
      invariant 0 <= cursor <= |blob|
      invariant count + |ParseFrom(blob, cursor)| == |Parse(blob)|
    {
      var len := blob[cursor];
      if cursor + HEADER_LEN + len > |blob| {
        break;
      }
      cursor := cursor + HEADER_LEN + len;
      count := count + 1;
    }
  }

  /** Second pass: fill the freshly allocated table. */
  method FillTable(blob: bytes, count: nat) returns (dir: array<Entry>)
    requires count == |Parse(blob)|
    ensures dir[..] == Entries(Parse(blob))
  {
    hide ParseFrom, ReadRecord, EntryOf;
    ghost var all := Parse(blob);
    ghost var entries := Entries(all);
    dir := new Entry[count](_ => Entry(0, 0, 0, 0));
    var cursor := 0;
    for i := 0 to count
      invariant 0 <= cursor <= |blob|
      invariant ParseFrom(blob, cursor) == all[i..]
      invariant dir[..i] == entries[..i]
    {
      ParseUncons(blob, cursor, all, i);
      var e := ReadEntry(blob, cursor);
      assert e == entries[i];
      dir[i] := e;
      assert dir[..i + 1] == dir[..i] + [e];
      cursor := cursor + HEADER_LEN + blob[cursor];
    }
    assert dir[..] == dir[..count];
  }

  lemma ParseUncons(blob: bytes, cursor: nat, all: seq<Record>, i: nat)
    requires cursor <= |blob| && i < |all| && ParseFrom(blob, cursor) == all[i..]
    ensures RecordAt(blob, cursor) && ReadRecord(blob, cursor) == all[i]
    ensures ParseFrom(blob, cursor + HEADER_LEN + blob[cursor]) == all[i + 1..]
  {
    assert all[i..] == [all[i]] + all[i + 1..];
  }

  method ReadEntry(blob: bytes, cursor: nat) returns (e: Entry)
    requires RecordAt(blob, cursor)
    ensures e == EntryOf(ReadRecord(blob, cursor))
  {
    var len := blob[cursor];
    var id := KeyOf(blob[cursor + 1], blob[cursor + 2]);
    var h := Fnv.Fnv1a(blob[cursor + HEADER_LEN..cursor + HEADER_LEN + len]);
    e := Entry(h, id, id / 256, 0);
  }

  /** The quadratic scan for two entries with one hash. */
  method HasClash(dir: array<Entry>) returns (clash: bool)
    ensures clash <==> !DistinctHashes(dir[..])
  {
    var i := 1;
    while i < dir.Length
      invariant 1 <= i
      invariant forall p, q :: 0 <= p < q < i && q < dir.Length ==> dir[p].hash != dir[q].hash
    {
      for j := 0 to i
        invariant forall p :: 0 <= p < j ==> dir[p].hash != dir[i].hash
      {
        if dir[i].hash == dir[j].hash {
          assert dir[..][j].hash == dir[..][i].hash;
          return true;
        }
      }
      i := i + 1;
    }
    return false;
  }

  // --- Lookup ----------------------------------------------------------------------------------

  /** What strlen() sees of a buffer: the bytes before the first NUL. */
  function CString(s: bytes): (c: bytes)
    ensures 0 !in c
    ensures c <= s && (|c| < |s| ==> s[|c|] == 0)
  {
    if s == [] || s[0] == 0 then [] else [s[0]] + CString(s[1..])
  }

  method DirFind(dir: seq<Entry>, name: bytes) returns (idx: int)
    ensures -1 <= idx < |dir|
    ensures idx >= 0 ==> dir[idx].hash == Fnv.Hash(CString(name))
    ensures forall j :: 0 <= j < (if idx < 0 then |dir| else idx) ==> dir[j].hash != Fnv.Hash(CString(name))
  {
    var hash := Fnv.Fnv1a(CString(name));
    for i := 0 to |dir|
      invariant forall j :: 0 <= j < i ==> dir[j].hash != hash
    {
      if dir[i].hash == hash {
        return i;
      }
    }
    return -1;
  }

  lemma {:induction false} CStringWhole(s: bytes)
    requires 0 !in s
    ensures CString(s) == s
  {
    if s != [] {
      assert s[0] in s;
      assert forall x :: x in s[1..] ==> x in s;
      CStringWhole(s[1..]);
    }
  }

  /** The index by hash agrees with a search by name in every accepted table: a listed name finds
      its own record and only that one; an unlisted name finds nothing unless it shares its hash
      with a listed one. */
  lemma IndexAgreesWithNames(rs: seq<Record>, name: bytes, idx: int)
    requires !Collide(rs) && 0 !in name
    requires -1 <= idx < |rs|
    requires idx >= 0 ==> Entries(rs)[idx].hash == Fnv.Hash(CString(name))
    requires idx < 0 ==> forall j :: 0 <= j < |rs| ==> Entries(rs)[j].hash != Fnv.Hash(CString(name))
    ensures forall k :: 0 <= k < |rs| && rs[k].name == name ==> idx == k
    ensures (forall k :: 0 <= k < |rs| ==> rs[k].name != name) ==>
              (idx == -1 <==> forall k :: 0 <= k < |rs| ==> Fnv.Hash(rs[k].name) != Fnv.Hash(name))
  {
    CStringWhole(name);
    forall k | 0 <= k < |rs| && rs[k].name == name
      ensures idx == k
    {
      assert Entries(rs)[k].hash == Fnv.Hash(name);
    }
    if idx == -1 {
      forall k | 0 <= k < |rs|
        ensures Fnv.Hash(rs[k].name) != Fnv.Hash(name)
      {
        assert Entries(rs)[k].hash != Fnv.Hash(name);
      }
    }
  }

  /** The check is on hashes only: a table in which two paths name one NVS record is accepted. */
  lemma SharedKeyAccepted(key: u16)
    ensures !Collide([Record([0x61], key), Record([0x62], key)])
  {
    Fnv.NearPathsDiffer([0x61], [0x62], 0);
  }

  ghost predicate OneByteApart(a: bytes, b: bytes) {
    && |a| == |b|
    && exists i :: 0 <= i < |a| && a[i] != b[i] && forall j :: 0 <= j < |a| && j != i ==> a[j] == b[j]
  }

  /** Names that differ in one byte are never what makes a table be refused: whatever the table, it is
      refused exactly for a colliding pair that is not such. */
  lemma NearNamesNeverRefused(rs: seq<Record>)
    ensures Collide(rs) <==>
            exists i, j :: 0 <= i < j < |rs| && Fnv.Hash(rs[i].name) == Fnv.Hash(rs[j].name)
                           && !OneByteApart(rs[i].name, rs[j].name)
  {
    forall i, j | 0 <= i < j < |rs| && OneByteApart(rs[i].name, rs[j].name)
      ensures Fnv.Hash(rs[i].name) != Fnv.Hash(rs[j].name)
    {
      var a, b := rs[i].name, rs[j].name;
      var k :| 0 <= k < |a| && a[k] != b[k] && forall l :: 0 <= l < |a| && l != k ==> a[l] == b[l];
      Fnv.NearPathsDiffer(a, b, k);
    }
  }
}
