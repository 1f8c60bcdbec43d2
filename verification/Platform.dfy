/** What the file system stands on: Zephyr's NVS and the SoftSIM heap, both of which may refuse. */
module Platform {
  import opened Bytes

  /** NVS as an atomic record store. Any write may be refused and any read may fail; a zero-length
      write deletes the record. */
  class Nvs {
    var records: map<u16, bytes>
    /** What flash held after each accepted write or delete. */
    ghost var journal: seq<map<u16, bytes>>
    /** Writes and deletes refused so far. */
    ghost var refused: nat
    /** Mounts and reads that failed without the record being absent. */
    ghost var faults: nat

    constructor (records: map<u16, bytes>)
      ensures this.records == records && journal == [] && refused == 0 && faults == 0
    {
      this.records, journal, refused, faults := records, [], 0, 0;
    }

    method Mount() returns (rc: int)
      modifies this`faults
      ensures rc == 0 <==> faults == old(faults)
      ensures faults >= old(faults)
    {
      var ok: bool := *;
      if ok {
        return 0;
      }
      faults := faults + 1;
      return -1;
    }

    method Write(key: u16, data: bytes) returns (rc: int)
      modifies this`records, this`journal, this`refused
      ensures rc >= 0 ==> refused == old(refused)
      ensures rc >= 0 ==> records == if data == [] then old(records) - {key} else old(records)[key := data]
      ensures rc >= 0 ==> journal == old(journal) + [records]
      ensures rc < 0 ==> refused == old(refused) + 1 && records == old(records) && journal == old(journal)
    {
      var ok: bool := *;
      if !ok {
        refused := refused + 1;
        return -1;
      }
      records := if data == [] then records - {key} else records[key := data];
      journal := journal + [records];
      return |data|;
    }

    /** The length of a record: nvs_read() with no buffer. */
    method Length(key: u16) returns (rc: int)
      modifies this`faults
      ensures faults >= old(faults)
      ensures rc >= 0 ==> key in records && rc == |records[key]| && faults == old(faults)
      ensures rc < 0 && faults == old(faults) ==> key !in records
    {
      var ok: bool := *;
      if !ok {
        faults := faults + 1;
        return -1;
      }
      return if key in records then |records[key]| else -1;
    }

    /** The first `len` bytes of a record. */
    method Fetch(key: u16, len: nat) returns (rc: int, data: bytes)
      modifies this`faults
      ensures faults >= old(faults)
      ensures rc >= 0 ==>
                && key in records && rc == |records[key]| && faults == old(faults)
                && data == records[key][..if len < rc then len else rc]
      ensures rc < 0 && faults == old(faults) ==> key !in records
    {
      var ok: bool := *;
      if !ok {
        faults := faults + 1;
        return -1, [];
      }
      if key !in records {
        return -1, [];
      }
      var r := records[key];
      return |r|, r[..if len < |r| then len else |r|];
    }
  }

  /** The allocator: blocks have arbitrary contents, and any request may fail. */
  class Heap {
    /** Blocks handed out and not returned. */
    ghost var live: nat
    /** Requests turned down so far. */
    ghost var failures: nat

    constructor ()
      ensures live == 0 && failures == 0
    {
      live, failures := 0, 0;
    }

    method Alloc(n: nat) returns (block: Option<bytes>)
      modifies this
      ensures block.Some? ==> |block.value| == n && live == old(live) + 1 && failures == old(failures)
      ensures block.None? ==> live == old(live) && failures == old(failures) + 1
    {
      var ok: bool := *;
      if !ok {
        failures := failures + 1;
        return None;
      }
      var cells := new byte[n];
      live := live + 1;
      return Some(cells[..]);
    }

    method Free()
      requires live > 0
      modifies this`live
      ensures live == old(live) - 1
    {
      live := live - 1;
    }
  }
}
