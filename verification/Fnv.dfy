/** The path hash of lib/ss_cache.c: 32-bit FNV-1a. */
module Fnv {
  import opened Bytes

  const OFFSET_BASIS: u32 := 2166136261
  const PRIME: u32 := 16777619
  /** Inverse of the prime modulo 2^32. */
  const PRIME_INVERSE: u32 := 899433627

  function Mul(x: u32): u32 {
    x * 16777619 % 0x1_0000_0000
  }

  /** One round: XOR a byte in, then multiply modulo 2^32. */
  function Round(h: u32, b: byte): u32 {
    Widths();
    XorFits(h, b, 32);
    Mul(Xor(h, b))
  }

  function Hash(data: bytes): u32 {
    if data == [] then OFFSET_BASIS else Round(Hash(data[..|data| - 1]), data[|data| - 1])
  }

  method Fnv1a(data: bytes) returns (hash: u32)
    ensures hash == Hash(data)
  {
    hash := OFFSET_BASIS;
    for i := 0 to |data|
      invariant hash == Hash(data[..i])
    {
      Widths();
      XorFits(hash, data[i], 32);
      hash := Xor(hash, data[i]) * PRIME % 0x1_0000_0000;
      assert data[..i + 1][..i] == data[..i];
    }
    assert data[..|data|] == data;
  }

  lemma Remainder(x: u32, t: int)
    ensures (x + t * 0x1_0000_0000) % 0x1_0000_0000 == x
  {
  }

  /** The multiplication can be undone because the prime is odd. */
  lemma MulUndone(x: u32)
    ensures Mul(x) * PRIME_INVERSE % 0x1_0000_0000 == x
  {
    var q := x * 16777619 / 0x1_0000_0000;
    Remainder(x, x * 3513497 - q * 899433627);
  }

  lemma RoundInjectiveInState(h: u32, g: u32, b: byte)
    requires h != g
    ensures Round(h, b) != Round(g, b)
  {
    Widths();
    XorFits(h, b, 32);
    XorFits(g, b, 32);
    XorCancels(h, b);
    XorCancels(g, b);
    MulUndone(Xor(h, b));
    MulUndone(Xor(g, b));
  }

  lemma RoundInjectiveInByte(h: u32, b: byte, c: byte)
    requires b != c
    ensures Round(h, b) != Round(h, c)
  {
    Widths();
    XorFits(h, b, 32);
    XorFits(h, c, 32);
    XorCommutes(h, b);
    XorCommutes(h, c);
    XorCancels(b, h);
    XorCancels(c, h);
    MulUndone(Xor(h, b));
    MulUndone(Xor(h, c));
  }

  /** A common tail neither creates nor removes a collision. */
  lemma {:induction false} SuffixCancels(a: bytes, b: bytes, tail: bytes)
    ensures Hash(a + tail) == Hash(b + tail) <==> Hash(a) == Hash(b)
  {
    if tail == [] {
      assert a + tail == a && b + tail == b;
    } else {
      var n := |tail| - 1;
      SuffixCancels(a, b, tail[..n]);
      assert (a + tail)[..|a| + n] == a + tail[..n];
      assert (b + tail)[..|b| + n] == b + tail[..n];
      if Hash(a) != Hash(b) {
        RoundInjectiveInState(Hash(a + tail[..n]), Hash(b + tail[..n]), tail[n]);
      }
    }
  }

  /** Two strings of equal length that differ in exactly one place never collide. */
  lemma NearPathsDiffer(a: bytes, b: bytes, i: nat)
    requires |a| == |b| && i < |a| && a[i] != b[i]
    requires forall j :: 0 <= j < |a| && j != i ==> a[j] == b[j]
    ensures Hash(a) != Hash(b)
  {
    var x, y, tail := a[..i + 1], b[..i + 1], a[i + 1..];
    assert a == x + tail && b == y + tail;
    assert x[..i] == y[..i];
    RoundInjectiveInByte(Hash(a[..i]), a[i], b[i]);
    assert x[..i] == a[..i] && y[..i] == a[..i];
    SuffixCancels(x, y, tail);
  }
}
