/** Evaluating the path hash on fixed strings: XOR digit by digit in hexadecimal, the product with the
    prime given as quotient and remainder. */
module HashBits {
  import opened Bytes
  import opened Fnv

  /** A hexadecimal digit. */
  datatype Nibble = Nibble(b0: bool, b1: bool, b2: bool, b3: bool)

  function NibbleXor(x: Nibble, y: Nibble): Nibble {
    Nibble(x.b0 != y.b0, x.b1 != y.b1, x.b2 != y.b2, x.b3 != y.b3)
  }

  function Value(x: Nibble): (n: nat)
    ensures n < 16
  {
    8 * Bin(x.b3) + 4 * Bin(x.b2) + 2 * Bin(x.b1) + Bin(x.b0)
  }

  /** One binary digit. */
  lemma XorBinary(a: nat, b: nat, s: nat, t: nat, x: nat, y: nat)
    requires x == 2 * a + s && y == 2 * b + t && s < 2 && t < 2
    ensures Xor(x, y) == 2 * Xor(a, b) + if s != t then 1 else 0
  {
  }

  function Bin(b: bool): (n: nat)
    ensures n < 2
  {
    if b then 1 else 0
  }

  lemma Horner(a: nat, m: Nibble, a1: nat, a2: nat, a3: nat)
    requires a1 == 2 * a + Bin(m.b3) && a2 == 2 * a1 + Bin(m.b2) && a3 == 2 * a2 + Bin(m.b1)
    ensures 2 * a3 + Bin(m.b0) == 16 * a + Value(m)
  {
  }

  /** XOR works on each hexadecimal digit alone. */
  lemma XorDigits(a: nat, b: nat, m: Nibble, n: Nibble)
    ensures Xor(16 * a + Value(m), 16 * b + Value(n)) == 16 * Xor(a, b) + Value(NibbleXor(m, n))
  {
    hide Xor, Value;
    var a1, b1 := 2 * a + Bin(m.b3), 2 * b + Bin(n.b3);
    var a2, b2 := 2 * a1 + Bin(m.b2), 2 * b1 + Bin(n.b2);
    var a3, b3 := 2 * a2 + Bin(m.b1), 2 * b2 + Bin(n.b1);
    Horner(a, m, a1, a2, a3);
    Horner(b, n, b1, b2, b3);
    XorBinary(a, b, Bin(m.b3), Bin(n.b3), a1, b1);
    XorBinary(a1, b1, Bin(m.b2), Bin(n.b2), a2, b2);
    XorBinary(a2, b2, Bin(m.b1), Bin(n.b1), a3, b3);
    XorBinary(a3, b3, Bin(m.b0), Bin(n.b0), 16 * a + Value(m), 16 * b + Value(n));
    Horner(Xor(a, b), NibbleXor(m, n), Xor(a1, b1), Xor(a2, b2), Xor(a3, b3));
  }

  lemma {:induction false} XorZero(a: nat)
    ensures Xor(a, 0) == a
  {
    if a != 0 {
      XorZero(a / 2);
    }
  }

  lemma HashNone()
    ensures Hash([]) == 2166136261
  {
  }

  /** One more byte, of digits p and q, on a hash with the last digits m and n: the product with the
      prime is `over` times 2^32 and `next`. */
  lemma HashOne(data: bytes, upper: nat, m: Nibble, n: Nibble, p: Nibble, q: Nibble, over: nat, next: u32)
    requires Hash(data) == 256 * upper + 16 * Value(m) + Value(n)
    requires (256 * upper + 16 * Value(NibbleXor(m, p)) + Value(NibbleXor(n, q))) * 16777619
             == over * 0x1_0000_0000 + next
    ensures Hash(data + [16 * Value(p) + Value(q)]) == next
  {
    hide Xor, Value, NibbleXor, Round;
    var b: byte := 16 * Value(p) + Value(q);
    assert (data + [b])[..|data|] == data;
    XorLastByte(upper, m, n, p, q);
    RoundIs(Hash(data), b, 256 * upper + 16 * Value(NibbleXor(m, p)) + Value(NibbleXor(n, q)), over, next);
  }

  lemma XorLastByte(upper: nat, m: Nibble, n: Nibble, p: Nibble, q: Nibble)
    ensures Xor(256 * upper + 16 * Value(m) + Value(n), 16 * Value(p) + Value(q)) ==
            256 * upper + 16 * Value(NibbleXor(m, p)) + Value(NibbleXor(n, q))
  {
    hide Xor, Value, NibbleXor;
    XorDigits(16 * upper + Value(m), Value(p), n, q);
    XorDigits(upper, 0, m, p);
    XorZero(upper);
  }

  lemma RoundIs(h: u32, b: byte, x: nat, over: nat, next: u32)
    requires Xor(h, b) == x && x * 16777619 == over * 0x1_0000_0000 + next
    ensures Round(h, b) == next
  {
    hide Xor;
    Remainder(next, over);
  }

  // The digits.
  const X0 := Nibble(false, false, false, false)
  const X1 := Nibble(true, false, false, false)
  const X2 := Nibble(false, true, false, false)
  const X3 := Nibble(true, true, false, false)
  const X4 := Nibble(false, false, true, false)
  const X5 := Nibble(true, false, true, false)
  const X6 := Nibble(false, true, true, false)
  const X7 := Nibble(true, true, true, false)
  const X8 := Nibble(false, false, false, true)
  const X9 := Nibble(true, false, false, true)
  const XA := Nibble(false, true, false, true)
  const XB := Nibble(true, true, false, true)
  const XC := Nibble(false, false, true, true)
  const XD := Nibble(true, false, true, true)
  const XE := Nibble(false, true, true, true)
  const XF := Nibble(true, true, true, true)
}
