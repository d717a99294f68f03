/** The checksum seen from outside: its bit step on machine words, its residue, and a known value. */
module CrcAnswers {
  import opened Bytes
  import opened Words
  import opened NativeWords
  import opened Crc

  // ----- the bit step on machine words

  /** The bit step of section 3.4 of RFC 2083: shift right, and add the polynomial when a one bit falls out. */
  function Step(b: bv64): bv64 {
    (b >> 1) ^ (if b & 1 == 1 then 0xedb8_8320 else 0)
  }

  function EightSteps(b: bv64): bv64 {
    Step(Step(Step(Step(Step(Step(Step(Step(b))))))))
  }

  lemma PolynomialValue()
    ensures Native(POLYNOMIAL, 32) == 0xedb8_8320
  {
    assert Native(0xe, 4) == 0xe;
    assert Native(0xed, 8) == 0xed;
    assert Native(0xedb, 12) == 0xedb;
    assert Native(0xedb8, 16) == 0xedb8;
    assert Native(0xe_db88, 20) == 0xe_db88;
    assert Native(0xed_b883, 24) == 0xed_b883;
    assert Native(0xedb_8832, 28) == 0xedb_8832;
    assert Native(0xedb8_8320, 32) == 0xedb8_8320;
  }

  lemma AllOnesValue()
    ensures Native(ALL_ONES, 32) == 0xffff_ffff
  {
    assert Native(0xf, 4) == 0xf;
    assert Native(0xff, 8) == 0xff;
    assert Native(0xfff, 12) == 0xfff;
    assert Native(0xffff, 16) == 0xffff;
    assert Native(0xf_ffff, 20) == 0xf_ffff;
    assert Native(0xff_ffff, 24) == 0xff_ffff;
    assert Native(0xfff_ffff, 28) == 0xfff_ffff;
    assert Native(0xffff_ffff, 32) == 0xffff_ffff;
  }

  /** The model's bit step is the machine's. */
  lemma CrcBitIsStep(x: u32)
    ensures Native(CrcBit(x), 32) == Step(Native(x, 32))
  {
    hide Native, XorBits;
    HalfIsShift(x);
    PolynomialValue();
    NativeXor(x / 2, POLYNOMIAL, 32);
    ZeroLeft(Native(x, 32) >> 1);
  }

  lemma ZeroLeft(u: bv64)
    ensures u ^ 0 == u
  {
  }

  lemma CrcBitsAreSteps(x: u32)
    ensures Native(CrcBits(x, 32), 32)
         == EightSteps(EightSteps(EightSteps(EightSteps(Native(x, 32)))))
  {
    hide Native, CrcBit, Step, EightSteps;
    EightBits(x);
    EightBits(CrcBits(x, 8));
    EightBits(CrcBits(x, 16));
    EightBits(CrcBits(x, 24));
    CrcBitsAdd(x, 8, 8);
    CrcBitsAdd(x, 16, 8);
    CrcBitsAdd(x, 24, 8);
  }

  lemma EightBits(x: u32)
    ensures Native(CrcBits(x, 8), 32) == EightSteps(Native(x, 32))
  {
    hide Native, CrcBit, Step;
    var a := CrcBit(x);
    var b := CrcBit(a);
    var c := CrcBit(b);
    var d := CrcBit(c);
    var e := CrcBit(d);
    var f := CrcBit(e);
    var g := CrcBit(f);
    CrcBitIsStep(x);
    CrcBitIsStep(a);
    CrcBitIsStep(b);
    CrcBitIsStep(c);
    CrcBitIsStep(d);
    CrcBitIsStep(e);
    CrcBitIsStep(f);
    CrcBitIsStep(g);
    assert CrcBits(x, 8) == CrcBits(b, 6) == CrcBits(d, 4) == CrcBits(f, 2) == CrcBit(g);
  }

  /** Different 32-bit numbers are different machine words. */
  lemma {:induction false} NativeInjective(x: u32, y: u32)
    requires Native(x, 32) == Native(y, 32)
    ensures x == y
    decreases x
  {
    hide Native;
    HalfIsShift(x);
    HalfIsShift(y);
    if x > 0 {
      NativeInjective(x / 2, y / 2);
    } else if y > 0 {
      NativeOfZero(y);
    }
  }

  /** Only zero is the zero word. */
  lemma {:induction false} NativeOfZero(y: u32)
    requires Native(y, 32) == Native(0, 32)
    ensures y == 0
    decreases y
  {
    hide Native;
    HalfIsShift(y);
    HalfIsShift(0);
    if y > 0 {
      NativeOfZero(y / 2);
    }
  }

  // ----- the values a reader of the file format can look up

  /** Exclusive or with all ones subtracts from all ones. */
  lemma {:induction false} Complement(x: nat, n: nat)
    requires x < Pow2(n)
    ensures XorBits(Pow2(n) - 1, x, n) == Pow2(n) - 1 - x
    decreases n
  {
    hide XorBits, Pow2;
    PowStep(n);
    if n == 0 {
      XorNoBits(Pow2(0) - 1, x);
    } else {
      HalfOfXor(Pow2(n) - 1, x, n);
      Complement(x / 2, n - 1);
      SameHalves(XorBits(Pow2(n) - 1, x, n), Pow2(n) - 1 - x);
    }
  }

  lemma ResidueValue()
    ensures CrcBits(ALL_ONES, 32) == 0xdebb_20e3
  {
    hide CrcBits;
    CrcBitsAreSteps(ALL_ONES);
    assert Native(CrcBits(ALL_ONES, 32), 32) == 0xdebb_20e3 by {
      AllOnesValue();
      ResidueSteps();
    }
    assert Native(0xdebb_20e3, 32) == 0xdebb_20e3 by { ResidueWord(); }
    NativeInjective(CrcBits(ALL_ONES, 32), 0xdebb_20e3);
  }

  lemma ResidueSteps()
    ensures EightSteps(EightSteps(EightSteps(EightSteps(0xffff_ffff)))) == 0xdebb_20e3
  {
  }

  lemma ResidueWord()
    ensures Native(0xdebb_20e3, 32) == 0xdebb_20e3
  {
    assert Native(0xd, 4) == 0xd;
    assert Native(0xde, 8) == 0xde;
    assert Native(0xdeb, 12) == 0xdeb;
    assert Native(0xdebb, 16) == 0xdebb;
    assert Native(0xd_ebb2, 20) == 0xd_ebb2;
    assert Native(0xde_bb20, 24) == 0xde_bb20;
    assert Native(0xdeb_b20e, 28) == 0xdeb_b20e;
    assert Native(0xdebb_20e3, 32) == 0xdebb_20e3;
  }

  /** A message followed by its checksum, low byte first, always leaves the register at one value. */
  lemma Residue(message: seq<byte>)
    ensures CrcOver(ALL_ONES, message + Le32(Crc32(message))) == 0xdebb_20e3
  {
    hide CrcBits, CrcOver, XorBits, Pow2, Le32, FromLe;
    var s := CrcOver(ALL_ONES, message);
    var tail := Le32(Crc32(message));
    Le32RoundTrip(Crc32(message));
    CrcOverAppend(ALL_ONES, message, tail);
    WindowIsWord(s, tail);
    Pow2Of32();
    Complement(s, 32);
    XorBitsBack(ALL_ONES, s, 32);
    XorCommutes(s, Crc32(message), 32);
    ResidueValue();
  }

  lemma EndSteps()
    ensures EightSteps(EightSteps(EightSteps(EightSteps(0xbbb1_bab6)))) == 0x51bd_9f7d
  {
  }

  lemma EndStartWord()
    ensures Native(0xbbb1_bab6, 32) == 0xbbb1_bab6
  {
    assert Native(0xb, 4) == 0xb;
    assert Native(0xbb, 8) == 0xbb;
    assert Native(0xbbb, 12) == 0xbbb;
    assert Native(0xbbb1, 16) == 0xbbb1;
    assert Native(0xb_bb1b, 20) == 0xb_bb1b;
    assert Native(0xbb_b1ba, 24) == 0xbb_b1ba;
    assert Native(0xbbb_1bab, 28) == 0xbbb_1bab;
    assert Native(0xbbb1_bab6, 32) == 0xbbb1_bab6;
  }

  lemma EndStopWord()
    ensures Native(0x51bd_9f7d, 32) == 0x51bd_9f7d
  {
    assert Native(0x5, 4) == 0x5;
    assert Native(0x51, 8) == 0x51;
    assert Native(0x51b, 12) == 0x51b;
    assert Native(0x51bd, 16) == 0x51bd;
    assert Native(0x5_1bd9, 20) == 0x5_1bd9;
    assert Native(0x51_bd9f, 24) == 0x51_bd9f;
    assert Native(0x51b_d9f7, 28) == 0x51b_d9f7;
    assert Native(0x51bd_9f7d, 32) == 0x51bd_9f7d;
  }

  lemma EndWord(kind: seq<byte>)
    requires kind == [0x49, 0x45, 0x4e, 0x44]
    ensures FromLe(kind) == 0x444e_4549
  {
    hide FromLe;
    LittleEndian(kind);
    LittleEndian(kind[..2]);
    LittleEndian(kind[2..]);
  }

  /** The checksum of the end chunk, which has no data. */
  lemma EndChecksum()
    ensures Crc32([0x49, 0x45, 0x4e, 0x44]) == 0xae42_6082
  {
    hide CrcBits, CrcOver, XorBits, Pow2, FromLe, EightSteps, Native;
    var kind: seq<byte> := [0x49, 0x45, 0x4e, 0x44];
    WindowIsWord(ALL_ONES, kind);
    EndWord(kind);
    Pow2Of32();
    Complement(0x444e_4549, 32);
    CrcBitsAreSteps(0xbbb1_bab6);
    EndStartWord();
    EndSteps();
    EndStopWord();
    NativeInjective(CrcBits(0xbbb1_bab6, 32), 0x51bd_9f7d);
  }
}
