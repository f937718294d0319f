/**
 * CRC-16 as the packet code asks Zephyr's `crc16()` for it: polynomial 0x1021
 * (ITU-T V.41, "CCITT"), preset 0, most significant bit first, no reflection
 * and no final XOR (the parameter set known as CRC-16/XMODEM). Zephyr's own
 * implementation is not part of this model; this is its bit-serial definition.
 *
 * The 16-bit register is kept as four nibbles of four bits, most significant
 * first, so that the shift and the exclusive or are plain boolean algebra.
 */
module Crc {
  import opened CText

  datatype Nibble = Nibble(b3: bool, b2: bool, b1: bool, b0: bool)

  datatype Register = Register(n3: Nibble, n2: Nibble, n1: Nibble, n0: Nibble)

  /** The sixteen nibbles, named by their hexadecimal digit. */
  const X0 := Nibble(false, false, false, false)
  const X1 := Nibble(false, false, false, true)
  const X2 := Nibble(false, false, true, false)
  const X3 := Nibble(false, false, true, true)
  const X4 := Nibble(false, true, false, false)
  const X5 := Nibble(false, true, false, true)
  const X6 := Nibble(false, true, true, false)
  const X7 := Nibble(false, true, true, true)
  const X8 := Nibble(true, false, false, false)
  const X9 := Nibble(true, false, false, true)
  const XA := Nibble(true, false, true, false)
  const XB := Nibble(true, false, true, true)
  const XC := Nibble(true, true, false, false)
  const XD := Nibble(true, true, false, true)
  const XE := Nibble(true, true, true, false)
  const XF := Nibble(true, true, true, true)

  /** The preset 0x0000. */
  const PRESET_VALUE := Register(X0, X0, X0, X0)

  /** The polynomial's low sixteen coefficients, 0x1021. */
  const CCITT_POLY := Register(X1, X0, X2, X1)

  function XorNibble(p: Nibble, q: Nibble): Nibble {
    Nibble(p.b3 != q.b3, p.b2 != q.b2, p.b1 != q.b1, p.b0 != q.b0)
  }

  function Xor(x: Register, y: Register): Register {
    Register(XorNibble(x.n3, y.n3), XorNibble(x.n2, y.n2), XorNibble(x.n1, y.n1), XorNibble(x.n0, y.n0))
  }

  /** A nibble moved one place up, `carry` entering at the bottom. */
  function ShiftIn(n: Nibble, carry: bool): Nibble {
    Nibble(n.b2, n.b1, n.b0, carry)
  }

  /** `r << 1` on 16 bits. */
  function ShiftLeft(r: Register): Register {
    Register(ShiftIn(r.n3, r.n2.b3), ShiftIn(r.n2, r.n1.b3), ShiftIn(r.n1, r.n0.b3), ShiftIn(r.n0, false))
  }

  /** What is subtracted after the shift: the polynomial 0x1021 when the top
      bit fell out, 0 otherwise (written bit by bit, so without a branch). */
  function Feedback(r: Register): (f: Register)
    ensures f == if r.n3.b3 then CCITT_POLY else PRESET_VALUE
  {
    var c := r.n3.b3;
    Register(Nibble(false, false, false, c), X0, Nibble(false, false, c, false), Nibble(false, false, false, c))
  }

  /** One bit of polynomial division. */
  function ShiftBit(r: Register): Register {
    Xor(ShiftLeft(r), Feedback(r))
  }

  function ShiftBits(r: Register, n: nat): Register
    decreases n
  {
    if n == 0 then r else ShiftBits(ShiftBit(r), n - 1)
  }

  // ---------------------------------------------------------------------------
  // Registers as numbers

  function NibbleValue(n: Nibble): (v: nat)
    ensures v < 16
  {
    (if n.b3 then 8 else 0) + (if n.b2 then 4 else 0) + (if n.b1 then 2 else 0) + (if n.b0 then 1 else 0)
  }

  function NibbleOf(d: nat): (n: Nibble)
    requires d < 16
    ensures NibbleValue(n) == d
  {
    Nibble(d >= 8, d % 8 >= 4, d % 4 >= 2, d % 2 == 1)
  }

  /** The register read as the `uint16_t` that `crc16()` returns. */
  function AsUint16(r: Register): (v: nat)
    ensures v < 0x1_0000
  {
    ((NibbleValue(r.n3) * 16 + NibbleValue(r.n2)) * 16 + NibbleValue(r.n1)) * 16 + NibbleValue(r.n0)
  }

  lemma NibbleValueInjective(p: Nibble, q: Nibble)
    requires NibbleValue(p) == NibbleValue(q)
    ensures p == q
  {
  }

  /** One hexadecimal place: the digit and what stands above it are both fixed. */
  lemma HexPlace(a: nat, d: nat, b: nat, e: nat)
    requires d < 16 && e < 16 && a * 16 + d == b * 16 + e
    ensures a == b && d == e
  {
  }

  /** Two registers holding the same number are the same register. */
  lemma AsUint16Injective(x: Register, y: Register)
    requires AsUint16(x) == AsUint16(y)
    ensures x == y
  {
    var x3, x2, x1, x0 := NibbleValue(x.n3), NibbleValue(x.n2), NibbleValue(x.n1), NibbleValue(x.n0);
    var y3, y2, y1, y0 := NibbleValue(y.n3), NibbleValue(y.n2), NibbleValue(y.n1), NibbleValue(y.n0);
    HexPlace((x3 * 16 + x2) * 16 + x1, x0, (y3 * 16 + y2) * 16 + y1, y0);
    HexPlace(x3 * 16 + x2, x1, y3 * 16 + y2, y1);
    HexPlace(x3, x2, y3, y2);
    NibbleValueInjective(x.n3, y.n3);
    NibbleValueInjective(x.n2, y.n2);
    NibbleValueInjective(x.n1, y.n1);
    NibbleValueInjective(x.n0, y.n0);
  }

  /** Shifting a nibble left doubles it, drops its top bit and brings in
      the carry. */
  lemma ShiftInValue(n: Nibble, c: bool)
    ensures NibbleValue(ShiftIn(n, c)) == 2 * NibbleValue(n) - Carry(n) * 16 + (if c then 1 else 0)
  {
  }

  /** The bit a nibble hands up when it is shifted. */
  function Carry(n: Nibble): (c: nat)
    ensures c == if NibbleValue(n) >= 8 then 1 else 0
  {
    if n.b3 then 1 else 0
  }

  /** Bit 15 of the register is its top nibble's carry. */
  lemma TopBitValue(r: Register)
    ensures r.n3.b3 <==> AsUint16(r) >= 0x8000
  {
  }

  /** The register's shift is the `uint16_t` shift `crc << 1`: the value
      doubles and loses bit 15. */
  lemma ShiftLeftValue(r: Register)
    ensures AsUint16(ShiftLeft(r)) == 2 * AsUint16(r) - (if r.n3.b3 then 0x1_0000 else 0)
  {
    ShiftInValue(r.n3, r.n2.b3);
    ShiftInValue(r.n2, r.n1.b3);
    ShiftInValue(r.n1, r.n0.b3);
    ShiftInValue(r.n0, false);
  }

  /** The feedback is the number 0x1021 exactly when bit 15 was set. */
  lemma FeedbackValue(r: Register)
    ensures AsUint16(Feedback(r)) == if AsUint16(r) >= 0x8000 then 0x1021 else 0
  {
    TopBitValue(r);
  }

  /** A byte placed in the top half of the register, as the byte-wise
      algorithm does before shifting it out. */
  function HighByte(b: Byte): (r: Register)
    ensures AsUint16(r) == b as int * 256
  {
    Register(NibbleOf(b as int / 16), NibbleOf(b as int % 16), X0, X0)
  }

  lemma HighByteInjective(b: Byte, c: Byte)
    requires HighByte(b) == HighByte(c)
    ensures b == c
  {
    assert AsUint16(HighByte(b)) == AsUint16(HighByte(c));
  }

  // ---------------------------------------------------------------------------
  // The CRC

  /** Feed one byte, most significant bit first. */
  function UpdateByte(crc: Register, b: Byte): Register {
    ShiftBits(Xor(crc, HighByte(b)), 8)
  }

  /** `crc16(CRC16_CCITT_POLY, seed, data, len)`. */
  function Crc16(seed: Register, data: seq<Byte>): Register
    decreases |data|
  {
    if data == [] then seed else Crc16(UpdateByte(seed, data[0]), data[1..])
  }

  /** A CRC can be computed piecewise: the CRC of the first part seeds the rest. */
  lemma {:induction false} CrcAppend(seed: Register, a: seq<Byte>, b: seq<Byte>)
    ensures Crc16(seed, a + b) == Crc16(Crc16(seed, a), b)
    decreases |a|
  {
    if a == [] {
      assert a + b == b;
    } else {
      var u := UpdateByte(seed, a[0]);
      assert (a + b)[0] == a[0];
      assert (a + b)[1..] == a[1..] + b;
      assert Crc16(seed, a + b) == Crc16(u, a[1..] + b);
      assert Crc16(seed, a) == Crc16(u, a[1..]);
      CrcAppend(u, a[1..], b);
    }
  }

  lemma XorNibbleCancel(p: Nibble, q: Nibble, m: Nibble)
    ensures XorNibble(XorNibble(p, m), XorNibble(q, m)) == XorNibble(p, q)
  {
  }

  /** A common term cancels out of an exclusive or. */
  lemma XorCancel(x: Register, y: Register, m: Register)
    ensures Xor(Xor(x, m), Xor(y, m)) == Xor(x, y)
  {
    XorNibbleCancel(x.n3, y.n3, m.n3);
    XorNibbleCancel(x.n2, y.n2, m.n2);
    XorNibbleCancel(x.n1, y.n1, m.n1);
    XorNibbleCancel(x.n0, y.n0, m.n0);
  }

  /** Two registers are equal exactly when their exclusive or is zero. */
  lemma XorIsZero(x: Register, y: Register)
    ensures Xor(x, y) == PRESET_VALUE <==> x == y
  {
  }

  lemma XorNibbleSwap(a: Nibble, b: Nibble, c: Nibble, d: Nibble)
    ensures XorNibble(XorNibble(a, b), XorNibble(c, d)) == XorNibble(XorNibble(a, c), XorNibble(b, d))
  {
  }

  lemma XorSwap(a: Register, b: Register, c: Register, d: Register)
    ensures Xor(Xor(a, b), Xor(c, d)) == Xor(Xor(a, c), Xor(b, d))
  {
    XorNibbleSwap(a.n3, b.n3, c.n3, d.n3);
    XorNibbleSwap(a.n2, b.n2, c.n2, d.n2);
    XorNibbleSwap(a.n1, b.n1, c.n1, d.n1);
    XorNibbleSwap(a.n0, b.n0, c.n0, d.n0);
  }

  lemma ShiftInXor(p: Nibble, q: Nibble, c: bool, d: bool)
    ensures ShiftIn(XorNibble(p, q), c != d) == XorNibble(ShiftIn(p, c), ShiftIn(q, d))
  {
  }

  lemma ShiftLeftXor(x: Register, y: Register)
    ensures ShiftLeft(Xor(x, y)) == Xor(ShiftLeft(x), ShiftLeft(y))
  {
    ShiftInXor(x.n3, y.n3, x.n2.b3, y.n2.b3);
    ShiftInXor(x.n2, y.n2, x.n1.b3, y.n1.b3);
    ShiftInXor(x.n1, y.n1, x.n0.b3, y.n0.b3);
    ShiftInXor(x.n0, y.n0, false, false);
  }

  lemma FeedbackXor(x: Register, y: Register)
    ensures Feedback(Xor(x, y)) == Xor(Feedback(x), Feedback(y))
  {
  }

  /** The register shift is linear over GF(2). */
  lemma ShiftBitXor(x: Register, y: Register)
    ensures ShiftBit(Xor(x, y)) == Xor(ShiftBit(x), ShiftBit(y))
  {
    ShiftLeftXor(x, y);
    FeedbackXor(x, y);
    XorSwap(ShiftLeft(x), ShiftLeft(y), Feedback(x), Feedback(y));
  }

  lemma {:induction false} ShiftBitsXor(x: Register, y: Register, n: nat)
    ensures ShiftBits(Xor(x, y), n) == Xor(ShiftBits(x, n), ShiftBits(y, n))
    decreases n
  {
    if n > 0 {
      ShiftBitXor(x, y);
      ShiftBitsXor(ShiftBit(x), ShiftBit(y), n - 1);
    }
  }

  /** The shift never turns a non-zero register into zero: the polynomial's
      lowest coefficient is 1. */
  lemma {:induction false} ShiftBitsNonZero(x: Register, n: nat)
    requires x != PRESET_VALUE
    ensures ShiftBits(x, n) != PRESET_VALUE
    decreases n
  {
    if n > 0 {
      ShiftBitsNonZero(ShiftBit(x), n - 1);
    }
  }

  /** Feeding the same byte into different registers keeps them different. */
  lemma {:induction false} UpdateSeparatesSeeds(u: Register, w: Register, b: Byte)
    requires u != w
    ensures UpdateByte(u, b) != UpdateByte(w, b)
  {
    var m := HighByte(b);
    ShiftBitsXor(Xor(u, m), Xor(w, m), 8);
    XorCancel(u, w, m);
    XorIsZero(u, w);
    ShiftBitsNonZero(Xor(u, w), 8);
    XorIsZero(UpdateByte(u, b), UpdateByte(w, b));
  }

  /** Different values mixed into the same register stay different however
      many shifts follow. */
  lemma {:induction false} ShiftSeparatesMasks(u: Register, m1: Register, m2: Register, n: nat)
    requires m1 != m2
    ensures ShiftBits(Xor(u, m1), n) != ShiftBits(Xor(u, m2), n)
  {
    var a, b := ShiftBits(Xor(u, m1), n), ShiftBits(Xor(u, m2), n);
    ShiftBitsXor(Xor(u, m1), Xor(u, m2), n);
    XorCancel(m1, m2, u);
    XorSwap(u, m1, u, m2);
    XorSwap(m1, u, m2, u);
    XorIsZero(m1, m2);
    ShiftBitsNonZero(Xor(m1, m2), n);
    XorIsZero(a, b);
  }

  /** Feeding different bytes into the same register gives different registers. */
  lemma {:induction false} UpdateSeparatesBytes(u: Register, b: Byte, c: Byte)
    requires b != c
    ensures UpdateByte(u, b) != UpdateByte(u, c)
  {
    if HighByte(b) == HighByte(c) {
      HighByteInjective(b, c);
    }
    ShiftSeparatesMasks(u, HighByte(b), HighByte(c), 8);
  }

  lemma {:induction false} CrcSeparatesSeeds(u: Register, w: Register, data: seq<Byte>)
    requires u != w
    ensures Crc16(u, data) != Crc16(w, data)
    decreases |data|
  {
    if data != [] {
      UpdateSeparatesSeeds(u, w, data[0]);
      CrcSeparatesSeeds(UpdateByte(u, data[0]), UpdateByte(w, data[0]), data[1..]);
    }
  }

  /** The CRC of `p + [x] + t`: the prefix, then the byte, then the suffix. */
  lemma CrcAround(seed: Register, p: seq<Byte>, x: Byte, t: seq<Byte>)
    ensures Crc16(seed, p + [x] + t) == Crc16(UpdateByte(Crc16(seed, p), x), t)
  {
    CrcAppend(seed, p + [x], t);
    CrcAppend(seed, p, [x]);
    var u := Crc16(seed, p);
    assert [x][1..] == [];
    assert Crc16(u, [x]) == UpdateByte(u, x);
  }

  /** Any error confined to one byte, a single flipped bit among them, changes
      the CRC value. */
  lemma {:induction false} CrcDetectsByteError(seed: Register, data: seq<Byte>, j: nat, c: Byte)
    requires j < |data| && c != data[j]
    ensures AsUint16(Crc16(seed, data)) != AsUint16(Crc16(seed, data[j := c]))
  {
    var p, t := data[..j], data[j + 1..];
    var other := data[j := c];
    assert data == p + [data[j]] + t;
    assert other == p + [c] + t;
    CrcAround(seed, p, data[j], t);
    CrcAround(seed, p, c, t);
    var u := Crc16(seed, p);
    UpdateSeparatesBytes(u, data[j], c);
    CrcSeparatesSeeds(UpdateByte(u, data[j]), UpdateByte(u, c), t);
    if AsUint16(Crc16(seed, data)) == AsUint16(Crc16(seed, other)) {
      AsUint16Injective(Crc16(seed, data), Crc16(seed, other));
    }
  }
}
