/** The CRC of section 3.4 of RFC 2083, bit by bit, and what it tells apart. */
module Crc {
  import opened Bytes
  import opened Words

  const POLYNOMIAL: u32 := 0xedb8_8320
  const ALL_ONES: u32 := 0xffff_ffff

  // ----- exclusive or on 32 bits

  lemma ParityAssociates(x: nat, y: nat, z: nat)
    ensures ((x + y) % 2 + z) % 2 == (x + (y + z) % 2) % 2
  {
  }

  /** A sum of bits depends only on their parity. */
  lemma ParityOfSum(u: nat, p: nat, z: nat)
    requires u % 2 == p % 2
    ensures (u + z) % 2 == (p % 2 + z) % 2 && (z + u) % 2 == (z + p % 2) % 2
  {
  }

  lemma {:induction false} XorAssociates(x: nat, y: nat, z: nat, bits: nat)
    ensures XorBits(XorBits(x, y, bits), z, bits) == XorBits(x, XorBits(y, z, bits), bits)
  {
    hide XorBits, Pow2;
    if bits == 0 {
      XorNoBits(XorBits(x, y, 0), z);
      XorNoBits(x, XorBits(y, z, 0));
    } else {
      var u, v := XorBits(x, y, bits), XorBits(y, z, bits);
      HalfOfXor(x, y, bits);
      HalfOfXor(y, z, bits);
      HalfOfXor(u, z, bits);
      HalfOfXor(x, v, bits);
      XorAssociates(x / 2, y / 2, z / 2, bits - 1);
      ParityOfSum(u, x + y, z);
      ParityOfSum(v, y + z, x);
      ParityAssociates(x, y, z);
      SameHalves(XorBits(u, z, bits), XorBits(x, v, bits));
    }
  }

  /** Operands that fit in fewer bits need no more. */
  lemma {:induction false} XorWiden(x: nat, y: nat, bits: nat)
    requires x < Pow2(bits) && y < Pow2(bits)
    ensures XorBits(x, y, bits + 1) == XorBits(x, y, bits)
  {
    if bits > 0 {
      XorWiden(x / 2, y / 2, bits - 1);
    } else {
      assert XorBits(0, 0, 1) == 0 + 2 * XorBits(0, 0, 0);
    }
  }

  /** The top bit of the result is set when it is set in one operand alone. */
  lemma {:induction false} TopBit(x: nat, y: nat, bits: nat)
    requires bits > 0 && x < Pow2(bits - 1) <= y < Pow2(bits)
    ensures XorBits(x, y, bits) >= Pow2(bits - 1)
  {
    HalfOfXor(x, y, bits);
    if bits > 1 {
      TopBit(x / 2, y / 2, bits - 1);
    }
  }

  /** Exclusive or of a low part and a shifted high part is their sum. */
  lemma {:induction false} XorDisjoint(low: nat, high: nat, shift: nat, bits: nat)
    requires low < Pow2(shift) && shift <= bits && high < Pow2(bits - shift)
    ensures XorBits(low, Pow2(shift) * high, bits) == low + Pow2(shift) * high
    decreases shift
  {
    hide XorBits, Pow2;
    PowStep(shift);
    if shift == 0 {
      XorZeroLeft(high, bits);
    } else {
      var half := Pow2(shift - 1) * high;
      MulTwo(Pow2(shift - 1), high);
      HalfOfXor(low, 2 * half, bits);
      XorDisjoint(low / 2, high, shift - 1, bits - 1);
      SameHalves(XorBits(low, 2 * half, bits), low + 2 * half);
    }
  }

  function Xor32(x: nat, y: nat): u32 {
    Pow2Of32();
    XorBits(x, y, 32)
  }

  // ----- the bit step

  /** Shift right, adding the polynomial when a one bit falls out. */
  function CrcBit(crc: u32): u32 {
    if crc % 2 == 1 then Xor32(crc / 2, POLYNOMIAL) else crc / 2
  }

  function CrcBits(crc: u32, n: nat): u32
    decreases n
  {
    if n == 0 then crc else CrcBits(CrcBit(crc), n - 1)
  }

  lemma {:induction false} CrcBitsAdd(crc: u32, a: nat, b: nat)
    ensures CrcBits(crc, a + b) == CrcBits(CrcBits(crc, a), b)
    decreases a
  {
    if a > 0 {
      CrcBitsAdd(CrcBit(crc), a - 1, b);
    }
  }

  /** The bit step loses nothing: the bit that fell out shows in the top bit. */
  lemma CrcBitInjective(x: u32, y: u32)
    requires CrcBit(x) == CrcBit(y)
    ensures x == y
  {
    hide XorBits, Pow2;
    Pow2Of32();
    TopBit(x / 2, POLYNOMIAL, 32);
    TopBit(y / 2, POLYNOMIAL, 32);
    assert x % 2 == y % 2;
    XorBitsBack(x / 2, POLYNOMIAL, 32);
    XorBitsBack(y / 2, POLYNOMIAL, 32);
  }

  lemma {:induction false} CrcBitsInjective(x: u32, y: u32, n: nat)
    requires CrcBits(x, n) == CrcBits(y, n)
    ensures x == y
    decreases n
  {
    hide CrcBit;
    if n > 0 {
      CrcBitsInjective(CrcBit(x), CrcBit(y), n - 1);
      CrcBitInjective(x, y);
    }
  }

  /** Bits above the lowest pass through the step unchanged, one place down. */
  lemma CrcBitShift(x: u32, y: nat)
    requires 2 * y < U32_LIMIT
    ensures CrcBit(Xor32(x, 2 * y)) == Xor32(CrcBit(x), y)
  {
    hide XorBits, Pow2;
    Pow2Of32();
    HalfOfXor(x, 2 * y, 32);
    XorWiden(x / 2, y, 31);
    if x % 2 == 1 {
      XorAssociates(x / 2, y, POLYNOMIAL, 32);
      XorCommutes(y, POLYNOMIAL, 32);
      XorAssociates(x / 2, POLYNOMIAL, y, 32);
    }
  }

  lemma {:induction false} CrcBitsShift(x: u32, y: nat, n: nat)
    requires Pow2(n) * y < U32_LIMIT
    ensures CrcBits(Xor32(x, Pow2(n) * y), n) == Xor32(CrcBits(x, n), y)
    decreases n
  {
    hide CrcBit, Xor32;
    if n > 0 {
      MulTwo(Pow2(n - 1), y);
      CrcBitShift(x, Pow2(n - 1) * y);
      CrcBitsShift(CrcBit(x), y, n - 1);
    }
  }

  // ----- bytes

  function CrcByte(crc: u32, b: byte): u32 {
    CrcBits(Xor32(crc, b), 8)
  }

  function CrcOver(crc: u32, bytes: seq<byte>): u32 {
    if bytes == [] then crc else CrcByte(CrcOver(crc, bytes[..|bytes| - 1]), bytes[|bytes| - 1])
  }

  /** The checksum of a byte string. */
  function Crc32(bytes: seq<byte>): u32 {
    ALL_ONES - CrcOver(ALL_ONES, bytes)
  }

  lemma {:induction false} CrcOverAppend(crc: u32, a: seq<byte>, b: seq<byte>)
    ensures CrcOver(crc, a + b) == CrcOver(CrcOver(crc, a), b)
  {
    hide CrcByte;
    if b == [] {
      assert a + b == a;
    } else {
      var n := |b| - 1;
      assert (a + b)[..|a + b| - 1] == a + b[..n];
      CrcOverAppend(crc, a, b[..n]);
    }
  }

  /** Up to four bytes are absorbed as one little-endian word. */
  lemma {:induction false} WindowIsWord(crc: u32, window: seq<byte>)
    requires |window| <= 4
    ensures FromLe(window) < U32_LIMIT
    ensures CrcOver(crc, window) == CrcBits(Xor32(crc, FromLe(window)), 8 * |window|)
    decreases |window|
  {
    hide CrcBits, XorBits, Pow2;
    LeOfFromLe(window);
    Pow256Values();
    WindowFits(window);
    if window == [] {
      NoBits(crc);
    } else {
      var b, rest := window[0], window[1..];
      WindowIsWord(CrcByte(crc, b), rest);
      assert window == [b] + rest;
      CrcOverAppend(crc, [b], rest);
      OneByte(crc, b);
      WindowFits(rest);
      Pow2Of32();
      Pow2Values();
      CrcBitsShift(Xor32(crc, b), FromLe(rest), 8);
      XorDisjoint(b, FromLe(rest), 8, 32);
      XorAssociates(crc, b, 256 * FromLe(rest), 32);
      CrcBitsAdd(Xor32(crc, FromLe(window)), 8, 8 * |rest|);
    }
  }

  lemma WindowFits(window: seq<byte>)
    requires |window| <= 4
    ensures FromLe(window) < U32_LIMIT && (|window| <= 3 ==> FromLe(window) < 0x100_0000)
  {
    LeOfFromLe(window);
    Pow256Values();
    assert Pow256(3) == 256 * Pow256(2);
    assert Pow256(1) == 256 * Pow256(0);
  }

  lemma NoBits(crc: u32)
    ensures CrcBits(Xor32(crc, 0), 0) == crc
  {
    Pow2Of32();
    XorCommutes(crc, 0, 32);
    XorZeroLeft(crc, 32);
  }

  lemma OneByte(crc: u32, b: byte)
    ensures CrcOver(crc, [b]) == CrcByte(crc, b)
  {
    hide CrcByte;
    assert [b][..0] == [];
    assert CrcOver(crc, [b]) == CrcByte(CrcOver(crc, [b][..0]), b);
  }

  /** Equal bytes after a difference keep the states different. */
  lemma {:induction false} CrcOverInjective(x: u32, y: u32, bytes: seq<byte>)
    requires CrcOver(x, bytes) == CrcOver(y, bytes)
    ensures x == y
  {
    hide CrcByte;
    if bytes != [] {
      var n := |bytes| - 1;
      CrcByteInjective(CrcOver(x, bytes[..n]), CrcOver(y, bytes[..n]), bytes[n]);
      CrcOverInjective(x, y, bytes[..n]);
    }
  }

  lemma CrcByteInjective(x: u32, y: u32, b: byte)
    requires CrcByte(x, b) == CrcByte(y, b)
    ensures x == y
  {
    hide CrcBits, XorBits, Pow2;
    Pow2Of32();
    CrcBitsInjective(Xor32(x, b), Xor32(y, b), 8);
    XorBitsBack(x, b, 32);
    XorBitsBack(y, b, 32);
  }

  /** Any two different strings of equal length that differ only within four consecutive bytes have different checksums. */
  lemma CrcSeparates(before: seq<byte>, a: seq<byte>, b: seq<byte>, after: seq<byte>)
    requires |a| == |b| <= 4 && a != b
    ensures Crc32(before + a + after) != Crc32(before + b + after)
  {
    hide CrcBits, CrcOver, XorBits, Pow2, FromLe;
    CrcOverAppend(ALL_ONES, before + a, after);
    CrcOverAppend(ALL_ONES, before + b, after);
    CrcOverAppend(ALL_ONES, before, a);
    CrcOverAppend(ALL_ONES, before, b);
    var s := CrcOver(ALL_ONES, before);
    if Crc32(before + a + after) == Crc32(before + b + after) {
      CrcOverInjective(CrcOver(s, a), CrcOver(s, b), after);
      WindowIsWord(s, a);
      WindowIsWord(s, b);
      CrcBitsInjective(Xor32(s, FromLe(a)), Xor32(s, FromLe(b)), 8 * |a|);
      SameWord(s, FromLe(a), FromLe(b));
      LeOfFromLe(a);
      LeOfFromLe(b);
    }
  }

  lemma SameWord(s: u32, x: u32, y: u32)
    requires Xor32(s, x) == Xor32(s, y)
    ensures x == y
  {
    hide XorBits, Pow2;
    Pow2Of32();
    XorCommutes(s, x, 32);
    XorCommutes(s, y, 32);
    XorBitsBack(x, s, 32);
    XorBitsBack(y, s, 32);
  }

  /** The loops of the program: eight masked shifts per byte. */
  method ComputeCrc32(bytes: seq<byte>) returns (crc: u32)
    ensures crc == Crc32(bytes)
  {
    hide XorBits, CrcBit, CrcBits;
    crc := ALL_ONES;
    for i := 0 to |bytes|
      invariant crc == CrcOver(ALL_ONES, bytes[..i])
    {
      ghost var start := Xor32(crc, bytes[i]);
      assert bytes[..i + 1][..i] == bytes[..i];
      crc := Xor32(crc, bytes[i]);
      for bit := 0 to 8
        invariant CrcBits(crc, 8 - bit) == CrcBits(start, 8)
      {
        BitStep(crc, 8 - bit);
        var mask := if crc % 2 == 1 then POLYNOMIAL else 0;
        crc := Xor32(crc / 2, mask);
      }
      BitsDone(crc);
    }
    assert bytes[..|bytes|] == bytes;
    crc := ALL_ONES - crc;
  }

  lemma BitStep(crc: u32, n: nat)
    requires n > 0
    ensures CrcBits(crc, n) == CrcBits(Xor32(crc / 2, if crc % 2 == 1 then POLYNOMIAL else 0), n - 1)
  {
    hide XorBits, Pow2;
    Pow2Of32();
    XorCommutes(crc / 2, 0, 32);
    XorZeroLeft(crc / 2, 32);
  }

  lemma BitsDone(crc: u32)
    ensures CrcBits(crc, 0) == crc
  {
  }
}
