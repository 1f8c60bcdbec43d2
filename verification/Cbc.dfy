/** Cipher block chaining (section 6.2 of NIST SP 800-38A) over an arbitrary block cipher. */
module Cbc {
  import opened Bytes

  const BLOCK := 16

  type block = b: bytes | |b| == 16 witness Zeros(16)

  /** A keyed block cipher and its inverse. */
  datatype Cipher = Cipher(enc: block -> block, dec: block -> block)

  ghost predicate Invertible(c: Cipher) {
    forall b: block :: c.dec(c.enc(b)) == b
  }

  function XorByte(a: byte, b: byte): byte {
    Widths();
    XorFits(a, b, 8);
    Xor(a, b)
  }

  /** Bit by bit, r is set exactly where a and b differ. */
  ghost predicate IsXor(r: block, a: block, b: block) {
    forall i, k :: 0 <= i < 16 && 0 <= k < 8 ==> (Bit(r[i], k) <==> Bit(a[i], k) != Bit(b[i], k))
  }

  function XorBlock(a: block, b: block): (r: block)
    ensures IsXor(r, a, b)
  {
    XorBytesBits(a, b);
    seq(BLOCK, i requires 0 <= i < BLOCK => XorByte(a[i], b[i]))
  }

  lemma XorBytesBits(a: block, b: block)
    ensures forall i, k :: 0 <= i < 16 && 0 <= k < 8 ==>
              (Bit(XorByte(a[i], b[i]), k) <==> Bit(a[i], k) != Bit(b[i], k))
  {
    forall i, k | 0 <= i < 16 && 0 <= k < 8
      ensures Bit(XorByte(a[i], b[i]), k) <==> Bit(a[i], k) != Bit(b[i], k)
    {
      XorBits(a[i], b[i], k);
    }
  }

  /** The bits leave no choice. */
  lemma XorIsUnique(r: block, s: block, a: block, b: block)
    requires IsXor(r, a, b) && IsXor(s, a, b)
    ensures r == s
  {
    forall i | 0 <= i < 16
      ensures r[i] == s[i]
    {
      SameBits(r[i], s[i], a[i], b[i]);
    }
  }

  lemma SameBits(r: byte, s: byte, a: byte, b: byte)
    requires forall k :: 0 <= k < 8 ==> (Bit(r, k) <==> Bit(a, k) != Bit(b, k))
    requires forall k :: 0 <= k < 8 ==> (Bit(s, k) <==> Bit(a, k) != Bit(b, k))
    ensures r == s
  {
    hide Bit;
    assert forall k :: 0 <= k < 8 ==> Bit(r, k) == Bit(s, k);
    ByteOfBits(r);
    ByteOfBits(s);
  }

  lemma XorBlockCancels(a: block, b: block)
    ensures XorBlock(XorBlock(a, b), b) == a
  {
    hide IsXor;
    forall i | 0 <= i < BLOCK
      ensures XorBlock(XorBlock(a, b), b)[i] == a[i]
    {
      XorCancels(a[i], b[i]);
    }
  }

  datatype Direction = Encrypting | Decrypting

  /** One block under the chaining value: what comes out, and the next chaining value. */
  function OutBlock(c: Cipher, d: Direction, chain: block, b: block): block {
    match d
    case Encrypting => c.enc(XorBlock(b, chain))
    case Decrypting => XorBlock(c.dec(b), chain)
  }

  function NextChain(c: Cipher, d: Direction, chain: block, b: block): block {
    match d
    case Encrypting => OutBlock(c, d, chain, b)
    case Decrypting => b
  }

  /** The whole-buffer definition. */
  function Transform(c: Cipher, d: Direction, iv: block, data: bytes): (r: bytes)
    requires |data| % BLOCK == 0
    ensures |r| == |data|
    decreases |data|
  {
    if data == [] then [] else
      OutBlock(c, d, iv, data[..BLOCK]) + Transform(c, d, NextChain(c, d, iv, data[..BLOCK]), data[BLOCK..])
  }

  /** The chaining value left behind by a buffer. */
  function ChainAfter(c: Cipher, d: Direction, iv: block, data: bytes): block
    requires |data| % BLOCK == 0
    decreases |data|
  {
    if data == [] then iv else ChainAfter(c, d, NextChain(c, d, iv, data[..BLOCK]), data[BLOCK..])
  }

  /** Decryption undoes encryption. */
  lemma {:induction false} RoundTrip(c: Cipher, iv: block, data: bytes)
    requires Invertible(c) && |data| % BLOCK == 0
    ensures Transform(c, Decrypting, iv, Transform(c, Encrypting, iv, data)) == data
    decreases |data|
  {
    if data != [] {
      var b: bytes := data[..BLOCK];
      var x: bytes := OutBlock(c, Encrypting, iv, b);
      var rest: bytes := Transform(c, Encrypting, x, data[BLOCK..]);
      assert (x + rest)[..BLOCK] == x && (x + rest)[BLOCK..] == rest;
      XorBlockCancels(b, iv);
      RoundTrip(c, x, data[BLOCK..]);
    }
  }

  function BlockAt(data: bytes, j: nat): block
    requires (j + 1) * BLOCK <= |data|
  {
    data[j * BLOCK..(j + 1) * BLOCK]
  }

  /** The equations of SP 800-38A, bit by bit. Each ciphertext block is the encryption of the block
      that differs from the previous ciphertext block, or from the IV, where its plaintext block has
      ones; each plaintext block differs from the previous ciphertext block, or from the IV, where the
      decryption of its ciphertext block has ones. */
  lemma CbcBits(c: Cipher, iv: block, data: bytes, j: nat, x: block)
    requires |data| % 16 == 0 && (j + 1) * 16 <= |data|
    ensures var out := Transform(c, Encrypting, iv, data);
            var before: block := if j == 0 then iv else out[j * 16 - 16..j * 16];
            IsXor(x, data[j * 16..j * 16 + 16], before) ==> out[j * 16..j * 16 + 16] == c.enc(x)
    ensures var out := Transform(c, Decrypting, iv, data);
            var before: block := if j == 0 then iv else data[j * 16 - 16..j * 16];
            IsXor(out[j * 16..j * 16 + 16], c.dec(data[j * 16..j * 16 + 16]), before)
  {
    hide IsXor, Transform;
    CbcEquation(c, iv, data, j);
    DecryptEquation(c, iv, data, j);
    var out := Transform(c, Encrypting, iv, data);
    var before: block := if j == 0 then iv else BlockAt(out, j - 1);
    if IsXor(x, BlockAt(data, j), before) {
      XorIsUnique(x, XorBlock(BlockAt(data, j), before), BlockAt(data, j), before);
    }
  }

  lemma {:induction false} DecryptEquation(c: Cipher, iv: block, data: bytes, j: nat)
    requires |data| % BLOCK == 0 && (j + 1) * BLOCK <= |data|
    ensures var out := Transform(c, Decrypting, iv, data);
            BlockAt(out, j) == XorBlock(c.dec(BlockAt(data, j)), if j == 0 then iv else BlockAt(data, j - 1))
    decreases j
  {
    hide IsXor;
    var b: bytes := data[..BLOCK];
    var x: bytes := OutBlock(c, Decrypting, iv, b);
    var out: bytes := Transform(c, Decrypting, iv, data);
    var rest: bytes := Transform(c, Decrypting, b, data[BLOCK..]);
    assert out == x + rest;
    assert b + data[BLOCK..] == data;
    if j == 0 {
      assert BlockAt(out, 0) == x && BlockAt(data, 0) == b;
    } else {
      DecryptEquation(c, b, data[BLOCK..], j - 1);
      ShiftedBlock(x, rest, j);
      ShiftedBlock(b, data[BLOCK..], j);
      if j > 1 {
        ShiftedBlock(b, data[BLOCK..], j - 1);
      } else {
        assert BlockAt(data, 0) == b;
      }
    }
  }

  /** Each ciphertext block is the encryption of its plaintext block XORed with the previous
      ciphertext block, or with the IV. */
  lemma {:induction false} CbcEquation(c: Cipher, iv: block, data: bytes, j: nat)
    requires |data| % BLOCK == 0 && (j + 1) * BLOCK <= |data|
    ensures var out := Transform(c, Encrypting, iv, data);
            BlockAt(out, j) == c.enc(XorBlock(BlockAt(data, j), if j == 0 then iv else BlockAt(out, j - 1)))
    decreases j
  {
    hide IsXor;
    var b: bytes := data[..BLOCK];
    var x: bytes := OutBlock(c, Encrypting, iv, b);
    var out: bytes := Transform(c, Encrypting, iv, data);
    var rest: bytes := Transform(c, Encrypting, x, data[BLOCK..]);
    assert out == x + rest;
    if j == 0 {
      assert BlockAt(out, 0) == x && BlockAt(data, 0) == b;
    } else {
      CbcEquation(c, x, data[BLOCK..], j - 1);
      ShiftedBlock(x, rest, j);
      ShiftedBlock(b, data[BLOCK..], j);
      assert b + data[BLOCK..] == data;
      if j > 1 {
        ShiftedBlock(x, rest, j - 1);
      } else {
        assert BlockAt(out, 0) == x;
      }
    }
  }

  lemma ShiftedBlock(head: bytes, tail: bytes, j: nat)
    requires |head| == BLOCK && j > 0 && j * BLOCK <= |tail|
    ensures BlockAt(head + tail, j) == BlockAt(tail, j - 1)
  {
  }

  /** Streaming: a buffer cut at a block boundary, the chaining value carried over. */
  lemma {:induction false} TransformConcat(c: Cipher, d: Direction, iv: block, a: bytes, b: bytes)
    requires |a| % BLOCK == 0 && |b| % BLOCK == 0
    ensures Transform(c, d, iv, a + b) == Transform(c, d, iv, a) + Transform(c, d, ChainAfter(c, d, iv, a), b)
    ensures ChainAfter(c, d, iv, a + b) == ChainAfter(c, d, ChainAfter(c, d, iv, a), b)
    decreases |a|
  {
    if a == [] {
      assert a + b == b;
    } else {
      var next := NextChain(c, d, iv, a[..BLOCK]);
      assert (a + b)[..BLOCK] == a[..BLOCK] && (a + b)[BLOCK..] == a[BLOCK..] + b;
      TransformConcat(c, d, next, a[BLOCK..], b);
    }
  }

  function WholeBlocks(n: nat): (m: nat)
    ensures m <= n < m + BLOCK && m % BLOCK == 0
  {
    n - n % BLOCK
  }

  /** A stream: `out` is the transform of the whole blocks of `fed`, the rest is held back. */
  ghost predicate Streamed(c: Cipher, d: Direction, iv: block, fed: bytes, out: bytes, held: bytes, chain: block) {
    && |held| < BLOCK && |fed| == |out| + |held| && |out| % BLOCK == 0
    && fed[|out|..] == held
    && out == Transform(c, d, iv, fed[..|out|])
    && chain == ChainAfter(c, d, iv, fed[..|out|])
  }

  lemma StreamStep(c: Cipher, d: Direction, iv: block, fed: bytes, out: bytes, held: bytes, chain: block, input: bytes)
    requires Streamed(c, d, iv, fed, out, held, chain)
    ensures var all := held + input;
            var whole := all[..WholeBlocks(|all|)];
            Streamed(c, d, iv, fed + input, out + Transform(c, d, chain, whole), all[|whole|..],
                     ChainAfter(c, d, chain, whole))
  {
    var all := held + input;
    var whole := all[..WholeBlocks(|all|)];
    var done := fed[..|out|];
    TransformConcat(c, d, iv, done, whole);
    assert fed + input == done + all;
    assert (done + all)[..|out| + |whole|] == done + whole;
    assert (done + all)[|out| + |whole|..] == all[|whole|..];
  }

  lemma HeldBack(c: Cipher, d: Direction, iv: block, fed: bytes, out: bytes, held: bytes, chain: block)
    requires Streamed(c, d, iv, fed, out, held, chain)
    ensures |held| == |fed| % BLOCK == |fed| - |out|
    ensures held == [] ==> out == Transform(c, d, iv, fed)
  {
    if held == [] {
      assert fed[..|out|] == fed;
    }
  }
}
