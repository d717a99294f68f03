/**
 Fixed-width words as bounded integers: wrapping addition and subtraction, exclusive or and rotation, with the
 cancellations they obey.
 */
module Words {
  import opened Arith
  import opened Bytes

  type Word = u64

  function Add(x: Word, y: Word): Word {
    (x + y) % U64_LIMIT
  }

  function Sub(x: Word, y: Word): Word {
    (x - y) % U64_LIMIT
  }

  lemma AddBack(x: Word, y: Word)
    ensures Sub(Add(x, y), y) == x && Add(Sub(x, y), y) == x
  {
  }

  // ----- powers of two and rotation

  function Pow2(k: nat): (p: nat)
    ensures p >= 1
  {
    if k == 0 then 1 else 2 * Pow2(k - 1)
  }

  lemma {:induction false} Pow2Add(a: nat, b: nat)
    ensures Pow2(a + b) == Pow2(a) * Pow2(b)
  {
    if a == 0 {
    } else {
      Pow2Add(a - 1, b);
      MulTwo(Pow2(a - 1), Pow2(b));
    }
  }

  lemma MulTwo(a: int, b: int)
    ensures 2 * (a * b) == (2 * a) * b
  {
  }

  lemma PowStep(k: nat)
    ensures Pow2(k) == if k == 0 then 1 else 2 * Pow2(k - 1)
  {
  }

  lemma Pow2Values()
    ensures Pow2(8) == 256 && Pow2(64) == U64_LIMIT
  {
    hide Pow2;
    Pow2Four();
    Pow2Add(4, 4);
    Pow2Add(8, 8);
    Pow2Add(16, 16);
    Pow2Add(32, 32);
  }

  lemma Pow2Of32()
    ensures Pow2(31) == 0x8000_0000 && Pow2(32) == U32_LIMIT && Pow2(24) == 0x100_0000
  {
    Pow2Values();
    Pow2Add(8, 8);
    Pow2Add(16, 16);
    Pow2Add(16, 8);
    assert Pow2(32) == 2 * Pow2(31);
  }

  lemma Pow2Four()
    ensures Pow2(4) == 16
  {
    assert Pow2(2) == 4;
  }

  /** A word below `a * b`, with its high and low parts exchanged. */
  function SwapParts(x: nat, a: nat, b: nat): (y: nat)
    requires x < a * b && a > 0 && b > 0
    ensures y < a * b
  {
    SwapBound(x, a, b);
    (x % b) * a + x / b
  }

  lemma SwapBound(x: nat, a: nat, b: nat)
    requires x < a * b && a > 0 && b > 0
    ensures x / b < a && 0 <= (x % b) * a + x / b < a * b
  {
    QuotientSmall(x, b);
    if x / b >= a {
      MulMonotone(a, x / b, b);
    }
    MulMonotone(x % b, b - 1, a);
    MulMinusOne(b, a);
  }

  lemma MulMinusOne(b: int, a: int)
    ensures (b - 1) * a == a * b - a
  {
  }

  lemma SwapBack(x: nat, a: nat, b: nat)
    requires x < a * b && a > 0 && b > 0
    ensures SwapParts(x, a, b) < b * a && SwapParts(SwapParts(x, a, b), b, a) == x
  {
    SwapBound(x, a, b);
    QuotientSmall(x, b);
    QuotientUnique(a, x % b, x / b);
  }

  /** `rotate_left(r)`: the top `r` bits move to the bottom. */
  function Rotl(x: Word, r: nat): Word
    requires r < 64
  {
    RotationParts(r);
    SwapParts(x, Pow2(r), Pow2(64 - r))
  }

  function Rotr(x: Word, r: nat): Word
    requires r < 64
  {
    RotationParts(r);
    SwapParts(x, Pow2(64 - r), Pow2(r))
  }

  lemma RotationParts(r: nat)
    requires r <= 64
    ensures Pow2(r) * Pow2(64 - r) == U64_LIMIT && Pow2(64 - r) * Pow2(r) == U64_LIMIT
  {
    Pow2Add(r, 64 - r);
    Pow2Add(64 - r, r);
    Pow2Values();
  }

  lemma RotateBack(x: Word, r: nat)
    requires r < 64
    ensures Rotr(Rotl(x, r), r) == x && Rotl(Rotr(x, r), r) == x
  {
    RotationParts(r);
    SwapBack(x, Pow2(r), Pow2(64 - r));
    SwapBack(x, Pow2(64 - r), Pow2(r));
  }

  // ----- exclusive or

  /** Exclusive or of the low `bits` bits. */
  function XorBits(x: nat, y: nat, bits: nat): (z: nat)
    ensures z < Pow2(bits)
  {
    if bits == 0 then 0 else (x + y) % 2 + 2 * XorBits(x / 2, y / 2, bits - 1)
  }

  lemma HalfOfXor(x: nat, y: nat, bits: nat)
    requires bits > 0
    ensures XorBits(x, y, bits) % 2 == (x + y) % 2 && XorBits(x, y, bits) / 2 == XorBits(x / 2, y / 2, bits - 1)
  {
  }

  lemma XorNoBits(x: nat, y: nat)
    ensures XorBits(x, y, 0) == 0
  {
  }

  lemma SameHalves(u: nat, v: nat)
    requires u % 2 == v % 2 && u / 2 == v / 2
    ensures u == v
  {
  }

  lemma ParityBack(u: nat, x: nat, y: nat)
    requires u % 2 == (x + y) % 2
    ensures (u + y) % 2 == x % 2
  {
  }

  lemma {:induction false} XorBitsBack(x: nat, y: nat, bits: nat)
    requires x < Pow2(bits)
    ensures XorBits(XorBits(x, y, bits), y, bits) == x
  {
    hide XorBits;
    var z := XorBits(x, y, bits);
    if bits > 0 {
      HalfOfXor(x, y, bits);
      HalfOfXor(z, y, bits);
      XorBitsBack(x / 2, y / 2, bits - 1);
      ParityBack(z, x, y);
      SameHalves(XorBits(z, y, bits), x);
    }
  }

  lemma {:induction false} XorZeroLeft(y: nat, bits: nat)
    requires y < Pow2(bits)
    ensures XorBits(0, y, bits) == y
  {
    if bits > 0 {
      XorZeroLeft(y / 2, bits - 1);
    }
  }

  lemma {:induction false} XorCommutes(x: nat, y: nat, bits: nat)
    ensures XorBits(x, y, bits) == XorBits(y, x, bits)
  {
    if bits > 0 {
      XorCommutes(x / 2, y / 2, bits - 1);
    }
  }

  function Xor(x: Word, y: Word): Word {
    Pow2Values();
    XorBits(x, y, 64)
  }

  lemma XorBack(x: Word, y: Word)
    ensures Xor(Xor(x, y), y) == x
  {
    Pow2Values();
    XorBitsBack(x, y, 64);
  }

  function XorByte(x: byte, y: byte): byte {
    Pow2Values();
    XorBits(x, y, 8)
  }

  lemma XorByteBack(x: byte, y: byte)
    ensures XorByte(XorByte(x, y), y) == x
  {
    Pow2Values();
    XorBitsBack(x, y, 8);
  }
}
