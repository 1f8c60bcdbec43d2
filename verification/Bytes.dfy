/** Machine integers as bounded ints, and the bitwise XOR the hash and the cipher need. */
module Bytes {

  type byte = x: int | 0 <= x < 0x100
  type u16 = x: int | 0 <= x < 0x1_0000
  type u32 = x: int | 0 <= x < 0x1_0000_0000

  type bytes = seq<byte>

  datatype Option<+T> = None | Some(value: T)

  function Zeros(n: nat): (z: bytes)
    ensures |z| == n && forall i :: 0 <= i < n ==> z[i] == 0
  {
    seq(n, i => 0)
  }

  /** C's `^` on unsigned values, bit by bit. */
  function Xor(a: nat, b: nat): nat {
    if a == 0 && b == 0 then 0 else (a + b) % 2 + 2 * Xor(a / 2, b / 2)
  }

  lemma {:induction false} XorCommutes(a: nat, b: nat)
    ensures Xor(a, b) == Xor(b, a)
  {
    if a != 0 || b != 0 {
      XorCommutes(a / 2, b / 2);
    }
  }

  lemma XorParts(a: nat, b: nat)
    ensures Xor(a, b) / 2 == Xor(a / 2, b / 2)
    ensures Xor(a, b) % 2 == (a + b) % 2
  {
  }

  lemma Parity(a: nat, b: nat, x: nat)
    requires x % 2 == (a + b) % 2
    ensures (x + b) % 2 == a % 2
  {
  }

  /** XOR is an involution, so a byte XORed into a word can be taken out again. */
  lemma {:induction false} XorCancels(a: nat, b: nat)
    ensures Xor(Xor(a, b), b) == a
  {
    if a != 0 || b != 0 {
      XorCancels(a / 2, b / 2);
      var x := Xor(a, b);
      XorParts(a, b);
      XorParts(x, b);
      Parity(a, b, x);
    }
  }

  /** Bit k of a number. */
  function Bit(n: nat, k: nat): bool {
    if k == 0 then n % 2 == 1 else Bit(n / 2, k - 1)
  }

  /** A byte is its eight bits. */
  lemma ByteOfBits(b: byte)
    ensures b == (if Bit(b, 0) then 1 else 0) + (if Bit(b, 1) then 2 else 0)
                 + (if Bit(b, 2) then 4 else 0) + (if Bit(b, 3) then 8 else 0)
                 + (if Bit(b, 4) then 16 else 0) + (if Bit(b, 5) then 32 else 0)
                 + (if Bit(b, 6) then 64 else 0) + (if Bit(b, 7) then 128 else 0)
  {
    hide Bit;
    var h := b / 2 / 2 / 2 / 2;
    FourBits(b);
    FourBits(h);
    FourUp(b, 0);
    FourUp(b, 1);
    FourUp(b, 2);
    FourUp(b, 3);
  }

  lemma FourUp(n: nat, k: nat)
    ensures Bit(n, k + 4) == Bit(n / 2 / 2 / 2 / 2, k)
  {
    BitUp(n, k + 4);
    BitUp(n / 2, k + 3);
    BitUp(n / 2 / 2, k + 2);
    BitUp(n / 2 / 2 / 2, k + 1);
  }

  lemma BitUp(n: nat, k: nat)
    requires k > 0
    ensures Bit(n, k) == Bit(n / 2, k - 1)
  {
  }

  lemma FourBits(n: nat)
    ensures n == (if Bit(n, 0) then 1 else 0) + (if Bit(n, 1) then 2 else 0)
                 + (if Bit(n, 2) then 4 else 0) + (if Bit(n, 3) then 8 else 0) + 16 * (n / 2 / 2 / 2 / 2)
    ensures n < 16 ==> n / 2 / 2 / 2 / 2 == 0
  {
    var a, b, c := n / 2, n / 2 / 2, n / 2 / 2 / 2;
    BitUp(n, 1);
    BitUp(n, 2);
    BitUp(n, 3);
    BitUp(a, 1);
    BitUp(a, 2);
    BitUp(b, 1);
  }

  /** A bit of the XOR is set exactly when the bits of its operands differ. */
  lemma {:induction false} XorBits(a: nat, b: nat, k: nat)
    ensures Bit(Xor(a, b), k) <==> Bit(a, k) != Bit(b, k)
    decreases k
  {
    hide Xor;
    XorParts(a, b);
    if k > 0 {
      BitUp(a, k);
      BitUp(b, k);
      BitUp(Xor(a, b), k);
      XorBits(a / 2, b / 2, k - 1);
    } else {
      SumParity(a, b);
    }
  }

  lemma SumParity(a: nat, b: nat)
    ensures (a + b) % 2 == 1 <==> (a % 2 == 1) != (b % 2 == 1)
  {
    assert (a + b) % 2 == (a % 2 + b % 2) % 2;
  }

  function Pow2(n: nat): (p: nat)
    ensures p > 0
  {
    if n == 0 then 1 else 2 * Pow2(n - 1)
  }

  /** XOR never leaves the width of its operands. */
  lemma {:induction false} XorFits(a: nat, b: nat, width: nat)
    requires a < Pow2(width) && b < Pow2(width)
    ensures Xor(a, b) < Pow2(width)
    decreases width
  {
    if a != 0 || b != 0 {
      XorFits(a / 2, b / 2, width - 1);
    }
  }

  lemma Widths()
    ensures Pow2(8) == 0x100 && Pow2(32) == 0x1_0000_0000
  {
    assert Pow2(8) == 0x100;
    assert Pow2(14) == 0x4000;
    assert Pow2(20) == 0x10_0000;
    assert Pow2(26) == 0x400_0000;
  }
}
