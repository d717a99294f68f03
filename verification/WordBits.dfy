/** What the word operations do bit by bit: they are the machine's exclusive or, rotations and wrapping sums. */
module WordBits {
  import opened Arith
  import opened Bytes
  import opened Words

  /** Bit `i` of a number, the lowest first. */
  function Bit(x: nat, i: nat): (b: nat)
    ensures b <= 1
    decreases i
  {
    if i == 0 then x % 2 else Bit(x / 2, i - 1)
  }

  /** A number below 2^n is determined by its first n bits. */
  lemma {:induction false} SameBits(x: nat, y: nat, n: nat)
    requires x < Pow2(n) && y < Pow2(n)
    requires forall i :: 0 <= i < n ==> Bit(x, i) == Bit(y, i)
    ensures x == y
  {
    if n > 0 {
      assert Bit(x, 0) == Bit(y, 0);
      forall i | 0 <= i < n - 1
        ensures Bit(x / 2, i) == Bit(y / 2, i)
      {
        assert Bit(x, i + 1) == Bit(y, i + 1);
      }
      SameBits(x / 2, y / 2, n - 1);
      SameHalves(x, y);
    }
  }

  // ----- exclusive or

  /** A bit of an exclusive or is set when it is set in exactly one operand. */
  lemma {:induction false} XorBit(x: nat, y: nat, bits: nat, i: nat)
    requires i < bits
    ensures Bit(XorBits(x, y, bits), i) == if Bit(x, i) == Bit(y, i) then 0 else 1
    decreases i
  {
    hide XorBits, Pow2;
    HalfOfXor(x, y, bits);
    if i == 0 {
      ParityOfPair(x, y);
    } else {
      XorBit(x / 2, y / 2, bits - 1, i - 1);
    }
  }

  lemma ParityOfPair(x: nat, y: nat)
    ensures (x + y) % 2 == if x % 2 == y % 2 then 0 else 1
  {
  }

  lemma WordXorBit(x: Word, y: Word, i: nat)
    requires i < 64
    ensures Bit(Xor(x, y), i) == if Bit(x, i) == Bit(y, i) then 0 else 1
  {
    hide XorBits, Bit, Pow2;
    XorBit(x, y, 64, i);
  }

  lemma ByteXorBit(x: byte, y: byte, i: nat)
    requires i < 8
    ensures Bit(XorByte(x, y), i) == if Bit(x, i) == Bit(y, i) then 0 else 1
  {
    hide XorBits, Bit, Pow2;
    XorBit(x, y, 8, i);
  }

  lemma XorInjective(x: Word, y: Word, z: Word)
    requires Xor(x, y) == Xor(x, z) || Xor(y, x) == Xor(z, x)
    ensures y == z
  {
    hide XorBits, Pow2;
    Pow2Values();
    XorCommutes(x, y, 64);
    XorCommutes(x, z, 64);
    XorBack(y, x);
    XorBack(z, x);
  }

  // ----- sums

  /** Addition wraps once at 2^64, and subtraction borrows once. */
  lemma WrappingSum(x: Word, y: Word)
    ensures Add(x, y) == if x + y < U64_LIMIT then x + y else x + y - U64_LIMIT
    ensures Sub(x, y) == if x >= y then x - y else x + U64_LIMIT - y
  {
  }

  lemma AddInjective(x: Word, y: Word, z: Word)
    requires Add(x, y) == Add(x, z) || Add(y, x) == Add(z, x)
    ensures y == z
  {
    hide Add;
    WrappingSum(x, y);
    WrappingSum(x, z);
    WrappingSum(y, x);
    WrappingSum(z, x);
  }

  // ----- rotation

  lemma HalveTwice(x: nat, b: nat)
    requires b > 0
    ensures (x / 2) / b == x / (2 * b) && (x % (2 * b)) / 2 == (x / 2) % b && (x % (2 * b)) % 2 == x % 2
  {
    var h, p := x / 2, x % 2;
    var q, s := h / b, h % b;
    assert h == q * b + s;
    MulTwo(b, q);
    assert x == q * (2 * b) + (2 * s + p);
    QuotientUnique(2 * b, q, 2 * s + p);
  }

  /** The bits from place `k` up, moved to the bottom. */
  function High(x: nat, k: nat): (h: nat)
    ensures h == x / Pow2(k)
  {
    hide Pow2;
    QuotientSmall(x, Pow2(k));
    x / Pow2(k)
  }

  /** Dividing by a power of two moves the high bits down. */
  lemma {:induction false} HighBit(x: nat, k: nat, i: nat)
    ensures Bit(High(x, k), i) == Bit(x, k + i)
    decreases k
  {
    hide Pow2;
    PowStep(k);
    if k > 0 {
      HalveTwice(x, Pow2(k - 1));
      HighBit(x / 2, k - 1, i);
    }
  }

  /** Reducing by a power of two keeps the low bits. */
  lemma {:induction false} LowBit(x: nat, k: nat, i: nat)
    requires i < k
    ensures Bit(x % Pow2(k), i) == Bit(x, i)
    decreases k
  {
    hide Pow2;
    PowStep(k);
    HalveTwice(x, Pow2(k - 1));
    if i > 0 {
      LowBit(x / 2, k - 1, i - 1);
    }
  }

  /** A number put together from a low part and a high part has the bits of both. */
  lemma JoinedBit(high: nat, low: nat, k: nat, i: nat)
    requires low < Pow2(k)
    ensures Bit(high * Pow2(k) + low, i) == if i < k then Bit(low, i) else Bit(high, i - k)
  {
    hide Bit, Pow2;
    QuotientUnique(Pow2(k), high, low);
    var x := high * Pow2(k) + low;
    if i < k {
      LowBit(x, k, i);
    } else {
      HighBit(x, k, i - k);
    }
  }

  lemma RotlParts(x: Word, r: nat)
    requires r < 64
    ensures x / Pow2(64 - r) < Pow2(r)
    ensures Rotl(x, r) == (x % Pow2(64 - r)) * Pow2(r) + x / Pow2(64 - r)
  {
    hide Pow2;
    RotationParts(r);
    SwapBound(x, Pow2(r), Pow2(64 - r));
  }

  lemma WrapPlace(i: nat, r: nat)
    requires i < 64 && r < 64
    ensures (i + r) % 64 == if i + r < 64 then i + r else i + r - 64
  {
  }

  /** Rotating left by `r` moves every bit up `r` places, the top ones round to the bottom. */
  lemma RotlBit(x: Word, r: nat, i: nat)
    requires r < 64 && i < 64
    ensures Bit(Rotl(x, r), (i + r) % 64) == Bit(x, i)
  {
    hide Bit, Pow2, Rotl;
    RotlParts(x, r);
    WrapPlace(i, r);
    var low, high := x % Pow2(64 - r), High(x, 64 - r);
    if i + r < 64 {
      JoinedBit(low, high, r, i + r);
      LowBit(x, 64 - r, i);
    } else {
      JoinedBit(low, high, r, i + r - 64);
      HighBit(x, 64 - r, i + r - 64);
    }
  }

  /** Rotating right moves every bit down. */
  lemma RotrBit(x: Word, r: nat, i: nat)
    requires r < 64 && i < 64
    ensures Bit(Rotr(x, r), i) == Bit(x, (i + r) % 64)
  {
    hide Bit, Rotl, Rotr;
    RotateBack(x, r);
    RotlBit(Rotr(x, r), r, i);
  }

  /** Rotations add up. */
  lemma RotlAdd(x: Word, a: nat, b: nat)
    requires a + b < 64
    ensures Rotl(x, a + b) == Rotl(Rotl(x, a), b)
  {
    hide Bit, Rotl, Pow2;
    Pow2Values();
    var y, z := Rotl(x, a + b), Rotl(Rotl(x, a), b);
    forall j | 0 <= j < 64
      ensures Bit(y, j) == Bit(z, j)
    {
      var i := if j >= a + b then j - a - b else j + 64 - a - b;
      RotlBit(x, a + b, i);
      RotlBit(x, a, i);
      RotlBit(Rotl(x, a), b, (i + a) % 64);
    }
    SameBits(y, z, 64);
  }

  // ----- the machine's own operator on bytes

  function Value(a: bv8): (v: byte) {
    a as int
  }

  function Halved(a: bv8): bv8 {
    a >> 1
  }

  function Both(a: bv8, b: bv8): bv8 {
    a ^ b
  }

  lemma ByteParity(a: bv8)
    ensures Value(a) / 2 == Value(Halved(a)) && Value(a) % 2 == (a & 1) as int
    ensures a & 1 == 0 || a & 1 == 1
  {
  }

  lemma HalfOfByte(a: bv8, b: bv8)
    ensures Value(a) / 2 == Value(Halved(a)) && Value(Both(a, b)) / 2 == Value(Both(Halved(a), Halved(b)))
    ensures Value(Both(a, b)) % 2 == if Value(a) % 2 == Value(b) % 2 then 0 else 1
  {
    hide Value;
    ByteParity(a);
    ByteParity(b);
    ByteParity(a ^ b);
    assert (a ^ b) >> 1 == (a >> 1) ^ (b >> 1);
    assert (a ^ b) & 1 == (a & 1) ^ (b & 1);
  }

  lemma NoBits(a: bv8, b: bv8)
    requires Value(a) == 0 && Value(b) == 0
    ensures Value(Both(a, b)) == 0
  {
    assert a == 0 && b == 0;
  }

  lemma XorFromHalf(x: nat, y: nat, z: nat, n: nat)
    requires n > 0 && z / 2 == XorBits(x / 2, y / 2, n - 1) && z % 2 == if x % 2 == y % 2 then 0 else 1
    ensures XorBits(x, y, n) == z
  {
    hide XorBits;
    HalfOfXor(x, y, n);
    ParityOfPair(x, y);
    SameHalves(XorBits(x, y, n), z);
  }

  lemma {:induction false} XorOfBytes(a: bv8, b: bv8, n: nat)
    requires Value(a) < Pow2(n) && Value(b) < Pow2(n)
    ensures XorBits(Value(a), Value(b), n) == Value(Both(a, b))
    decreases n
  {
    hide *;
    PowStep(n);
    if n == 0 {
      XorNoBits(Value(a), Value(b));
      NoBits(a, b);
    } else {
      HalfOfByte(a, b);
      HalfOfByte(b, a);
      XorOfBytes(Halved(a), Halved(b), n - 1);
      XorFromHalf(Value(a), Value(b), Value(Both(a, b)), n);
    }
  }

  lemma ByteValue(x: byte)
    ensures Value(x as bv8) == x
  {
  }

  /** Exclusive or on bytes is the machine's `^`. */
  lemma XorIsNative(x: byte, y: byte)
    ensures XorByte(x, y) == ((x as bv8) ^ (y as bv8)) as int
  {
    hide XorBits, Pow2;
    assert XorBits(x, y, 8) == Value(Both(x as bv8, y as bv8)) by {
      hide Value, Both, XorBits, Pow2;
      Pow2Values();
      ByteValue(x);
      ByteValue(y);
      XorOfBytes(x as bv8, y as bv8, 8);
    }
  }
}
