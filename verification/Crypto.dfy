/** lib/ss_crypto.c: AES-CBC in the caller's buffer and AES-CMAC over two pieces of data, on top of
    PSA multi-part operations. */
module Crypto {
  import opened Bytes
  import opened Cbc

  const PSA_SUCCESS := 0
  const PSA_ERROR := -1
  const EINVAL := 22

  /** A PSA multi-part cipher operation, CBC without padding: it holds back an incomplete block, and
      any step of it may fail. */
  class CipherOperation {
    const cipher: Cipher
    const direction: Direction
    var chain: block
    var held: bytes
    var ready: bool
    /** All input and output so far. */
    ghost var iv: block
    ghost var fed: bytes
    ghost var out: bytes
    /** Steps that failed for no reason in the input. */
    ghost var faults: nat

    ghost predicate Valid()
      reads this
    {
      Streamed(cipher, direction, iv, fed, out, held, chain)
    }

    constructor (cipher: Cipher, direction: Direction)
      ensures Valid() && fed == [] && faults == 0
      ensures this.cipher == cipher && this.direction == direction
    {
      this.cipher, this.direction := cipher, direction;
      chain, held, ready := Zeros(BLOCK), [], false;
      iv, fed, out, faults := Zeros(BLOCK), [], [], 0;
    }

    method Setup() returns (status: int)
      modifies this`faults
      ensures status == PSA_SUCCESS <==> faults == old(faults)
      ensures faults >= old(faults)
    {
      var ok: bool := *;
      if ok {
        return PSA_SUCCESS;
      }
      faults := faults + 1;
      return PSA_ERROR;
    }

    method SetIv(start: block)
      requires Valid() && fed == []
      modifies this
      ensures Valid() && fed == [] && faults >= old(faults)
      ensures ready ==> iv == start
      ensures ready <==> faults == old(faults)
    {
      var ok: bool := *;
      if ok {
        iv, chain, ready := start, start, true;
      } else {
        ready, faults := false, faults + 1;
      }
    }

    /** `room` is the size of the output space offered. */
    method Update(input: bytes, room: nat) returns (status: int, output: bytes)
      requires Valid()
      modifies this`chain, this`held, this`fed, this`out, this`faults
      ensures Valid() && faults >= old(faults)
      ensures status == PSA_SUCCESS ==>
                ready && fed == old(fed) + input && out == old(out) + output && |output| <= room
                && faults == old(faults)
      ensures status != PSA_SUCCESS ==> output == []
      ensures status != PSA_SUCCESS && ready && faults == old(faults) ==> WholeBlocks(|old(held)| + |input|) > room
    {
      var ok: bool := *;
      if !ok {
        faults := faults + 1;
        return PSA_ERROR, [];
      }
      var all := held + input;
      var n := WholeBlocks(|all|);
      if !ready || n > room {
        return PSA_ERROR, [];
      }
      StreamStep(cipher, direction, iv, fed, out, held, chain, input);
      output := Transform(cipher, direction, chain, all[..n]);
      chain, held := ChainAfter(cipher, direction, chain, all[..n]), all[n..];
      fed, out := fed + input, out + output;
      return PSA_SUCCESS, output;
    }

    /** Without padding a held-back block cannot be completed. */
    method Finish() returns (status: int)
      requires Valid()
      modifies this`faults
      ensures Valid() && faults >= old(faults)
      ensures status == PSA_SUCCESS <==> ready && held == [] && faults == old(faults)
    {
      var ok: bool := *;
      if !ok {
        faults := faults + 1;
        return PSA_ERROR;
      }
      return if ready && held == [] then PSA_SUCCESS else PSA_ERROR;
    }
  }

  /** cipher_operation() with input and output in the same buffer: output trails the unread input. */
  method CipherInPlace(op: CipherOperation, buffer: array<byte>, partSize: nat) returns (status: int)
    requires op.Valid() && op.fed == [] && partSize > 0
    modifies op`chain, op`held, op`fed, op`out, op`faults, buffer
    ensures op.faults >= old(op.faults)
    ensures status == PSA_SUCCESS ==>
              && op.ready && op.faults == old(op.faults) && buffer.Length % BLOCK == 0
              && buffer[..] == Transform(op.cipher, op.direction, op.iv, old(buffer[..]))
    ensures partSize == BLOCK && op.ready && op.faults == old(op.faults) ==>
              (status == PSA_SUCCESS <==> buffer.Length % BLOCK == 0)
  {
    hide Streamed;
    HeldBack(op.cipher, op.direction, op.iv, op.fed, op.out, op.held, op.chain);
    ghost var input := buffer[..];
    var written: nat, outLen: nat := 0, 0;
    status := PSA_SUCCESS;
    while written != buffer.Length
      invariant InStep(op, buffer[..], input, written, outLen)
      invariant op.faults == old(op.faults) && (op.ready || written == 0)
      invariant partSize == BLOCK && written < buffer.Length ==> written % BLOCK == 0
      decreases buffer.Length - written
    {
      var n := if buffer.Length - written > partSize then partSize else buffer.Length - written;
      HeldBack(op.cipher, op.direction, op.iv, op.fed, op.out, op.held, op.chain);
      var len;
      status, len := CipherPart(op, buffer, input, written, outLen, n);
      if status != PSA_SUCCESS {
        return;
      }
      written, outLen := written + n, outLen + len;
    }
    assert input[..written] == input;
    HeldBack(op.cipher, op.direction, op.iv, op.fed, op.out, op.held, op.chain);
    status := op.Finish();
    if status == PSA_SUCCESS {
      assert buffer[..][..outLen] == buffer[..];
    }
  }

  /** The output so far trails the input so far, and the input ahead has not been touched. */
  ghost predicate InStep(op: CipherOperation, buffer: bytes, input: bytes, written: nat, outLen: nat)
    reads op
  {
    && outLen <= written <= |buffer| == |input|
    && op.Valid() && op.fed == input[..written] && op.out == buffer[..outLen]
    && buffer[written..] == input[written..]
  }

  /** One part through the operation, its output written behind the unread input. */
  method CipherPart(op: CipherOperation, buffer: array<byte>, ghost input: bytes, written: nat, outLen: nat, n: nat)
    returns (status: int, len: nat)
    requires InStep(op, buffer[..], input, written, outLen) && written + n <= buffer.Length
    modifies op`chain, op`held, op`fed, op`out, op`faults, buffer
    ensures op.faults >= old(op.faults)
    ensures status == PSA_SUCCESS ==>
              InStep(op, buffer[..], input, written + n, outLen + len) && op.ready && op.faults == old(op.faults)
    ensures status != PSA_SUCCESS && op.ready && op.faults == old(op.faults) ==> WholeBlocks(written - outLen + n) > n
  {
    var chunk := buffer[written..written + n];
    assert chunk == buffer[..][written..][..n] == input[written..][..n];
    assert input[..written + n] == input[..written] + chunk;
    var output;
    status, output := op.Update(chunk, n);
    len := |output|;
    if status == PSA_SUCCESS {
      ghost var before := buffer[..];
      Overwrite(buffer, outLen, output);
      assert buffer[..][..outLen + len] == before[..outLen] + output;
      assert buffer[..][written + n..] == before[written..][n..];
      assert input[written + n..] == input[written..][n..];
    }
  }

  method Overwrite(buffer: array<byte>, at: nat, data: bytes)
    requires at + |data| <= buffer.Length
    modifies buffer
    ensures buffer[..] == old(buffer[..at]) + data + old(buffer[at + |data|..])
  {
    forall i | 0 <= i < |data| {
      buffer[at + i] := data[i];
    }
  }

  method Wipe(buffer: array<byte>)
    modifies buffer
    ensures buffer[..] == Zeros(buffer.Length)
  {
    forall i | 0 <= i < buffer.Length {
      buffer[i] := 0;
    }
  }

  /** ss_utils_aes_encrypt() and ss_utils_aes_decrypt(). `cipher` is the key the tag resolves to;
      None is an unknown tag. The result is the whole-buffer CBC of the input under a zero IV, or
      nothing of the input at all. */
  method AesCbc(buffer: array<byte>, cipher: Option<Cipher>, direction: Direction) returns (ghost faults: nat)
    modifies buffer
    ensures buffer.Length % BLOCK == 0 && cipher.Some? && faults == 0 ==>
              buffer[..] == Transform(cipher.value, direction, Zeros(BLOCK), old(buffer[..]))
    ensures buffer.Length % BLOCK != 0 || cipher.None? ==> buffer[..] == Zeros(buffer.Length)
    ensures faults > 0 ==> buffer[..] == Zeros(buffer.Length)
  {
    faults := 0;
    if cipher.None? {
      Wipe(buffer);
      return;
    }
    var op := new CipherOperation(cipher.value, direction);
    var status := op.Setup();
    if status == PSA_SUCCESS {
      op.SetIv(Zeros(BLOCK));
      status := CipherInPlace(op, buffer, BLOCK);
    }
    if status != PSA_SUCCESS {
      Wipe(buffer);
    }
    faults := op.faults;
  }

  // --- CMAC ------------------------------------------------------------------------------------

  datatype Algorithm = NoAlgorithm | TripleDesCbc2 | AesCbcAlgorithm | AesCmac

  datatype KeyId = Ki | Kic | Kid | UnknownKey

  /** A PSA multi-part MAC operation: the tag of everything fed to it, as one-shot `mac` (section
      2.4 of RFC 4493) would give; any step may fail. */
  class MacOperation {
    const mac: bytes -> block
    var fed: bytes
    ghost var faults: nat

    constructor (mac: bytes -> block)
      ensures this.mac == mac && fed == [] && faults == 0
    {
      this.mac, fed, faults := mac, [], 0;
    }

    method Setup() returns (status: int)
      modifies this`faults
      ensures status == PSA_SUCCESS <==> faults == old(faults)
      ensures faults >= old(faults)
    {
      var ok: bool := *;
      if ok {
        return PSA_SUCCESS;
      }
      faults := faults + 1;
      return PSA_ERROR;
    }

    method Update(data: bytes) returns (status: int)
      modifies this`fed, this`faults
      ensures status == PSA_SUCCESS <==> faults == old(faults)
      ensures faults >= old(faults)
      ensures status == PSA_SUCCESS ==> fed == old(fed) + data
    {
      var ok: bool := *;
      if !ok {
        faults := faults + 1;
        return PSA_ERROR;
      }
      fed := fed + data;
      return PSA_SUCCESS;
    }

    method SignFinish() returns (status: int, tag: block)
      modifies this`faults
      ensures status == PSA_SUCCESS <==> faults == old(faults)
      ensures faults >= old(faults)
      ensures status == PSA_SUCCESS ==> tag == mac(fed)
    {
      var ok: bool := *;
      if !ok {
        faults := faults + 1;
        return PSA_ERROR, Zeros(BLOCK);
      }
      return PSA_SUCCESS, mac(fed);
    }
  }

  /** ss_utils_ota_calc_cc(). */
  method OtaCalcCc(mac: bytes -> block, key: KeyId, alg: Algorithm, data1: bytes, data2: bytes, ccLen: nat)
    returns (rc: int, cc: bytes, ghost faults: nat)
    requires ccLen <= BLOCK
    ensures rc == 0 <==> alg == AesCmac && key == Kid && faults == 0
    ensures rc != 0 ==> rc == -EINVAL && cc == []
    // Only the whole blocks of data1 are fed, all of data2 is.
    ensures rc == 0 ==> cc == mac(data1[..WholeBlocks(|data1|)] + data2)[..ccLen]
  {
    faults := 0;
    if alg != AesCmac || key != Kid {
      return -EINVAL, [], 0;
    }
    var op := new MacOperation(mac);
    var status := op.Setup();
    if status == PSA_SUCCESS {
      status := FeedBlocks(op, data1);
    }
    if status == PSA_SUCCESS {
      status := FeedAll(op, data2);
    }
    if status == PSA_SUCCESS {
      assert op.fed == data1[..WholeBlocks(|data1|)] + data2;
      var tag;
      status, tag := op.SignFinish();
      if status == PSA_SUCCESS {
        return 0, tag[..ccLen], op.faults;
      }
    }
    return -EINVAL, [], op.faults;
  }

  /** First piece, block by block. */
  method FeedBlocks(op: MacOperation, data: bytes) returns (status: int)
    modifies op`fed, op`faults
    ensures status == PSA_SUCCESS <==> op.faults == old(op.faults)
    ensures op.faults >= old(op.faults)
    ensures status == PSA_SUCCESS ==> op.fed == old(op.fed) + data[..WholeBlocks(|data|)]
  {
    var blocks, processed := |data| / BLOCK, 0;
    status := PSA_SUCCESS;
    for i := 0 to blocks
      invariant processed == i * BLOCK <= |data|
      invariant op.fed == old(op.fed) + data[..processed] && op.faults == old(op.faults) && status == PSA_SUCCESS
    {
      status := op.Update(data[processed..processed + BLOCK]);
      if status != PSA_SUCCESS {
        return;
      }
      assert data[..processed + BLOCK] == data[..processed] + data[processed..processed + BLOCK];
      processed := processed + BLOCK;
    }
  }

  /** Second piece, block by block, the rest (which may be empty) last. */
  method FeedAll(op: MacOperation, data: bytes) returns (status: int)
    modifies op`fed, op`faults
    ensures status == PSA_SUCCESS <==> op.faults == old(op.faults)
    ensures op.faults >= old(op.faults)
    ensures status == PSA_SUCCESS ==> op.fed == old(op.fed) + data
  {
    var processed := 0;
    status := PSA_SUCCESS;
    while |data| - processed > BLOCK
      invariant 0 <= processed <= |data|
      invariant op.fed == old(op.fed) + data[..processed] && op.faults == old(op.faults) && status == PSA_SUCCESS
    {
      status := op.Update(data[processed..processed + BLOCK]);
      if status != PSA_SUCCESS {
        return;
      }
      assert data[..processed + BLOCK] == data[..processed] + data[processed..processed + BLOCK];
      processed := processed + BLOCK;
    }
    assert data == data[..processed] + data[processed..];
    status := op.Update(data[processed..]);
  }

  /** What is authenticated is data1 followed by data2 exactly when data1 is whole blocks, which is
      what the source asserts. */
  lemma WholeMessageFed(data1: bytes, data2: bytes)
    ensures data1[..WholeBlocks(|data1|)] + data2 == data1 + data2 <==> |data1| % BLOCK == 0
  {
    var n := WholeBlocks(|data1|);
    if |data1| % BLOCK == 0 {
      assert data1[..n] == data1;
    } else {
      assert |data1[..n] + data2| < |data1 + data2|;
    }
  }
}
