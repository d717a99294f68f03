/** The model's exclusive or and halving, and the machine's `^` and `>>`. */
module NativeWords {
  import opened Bytes
  import opened Words
  import opened WordBits

  /** The first `n` bits of a number as a machine word. */
  function Native(x: nat, n: nat): bv64
    decreases n
  {
    if n == 0 then 0 else Push(Native(x / 2, n - 1), x % 2 == 1)
  }

  /** One more bit at the bottom. */
  function Push(u: bv64, bit: bool): bv64 {
    if bit then (u << 1) | 1 else u << 1
  }

  function Both(u: bv64, v: bv64): bv64 {
    u ^ v
  }

  // ----- facts about machine words

  lemma PushIs(u: bv64, bit: bool)
    ensures Push(u, bit) == if bit then (u << 1) | 1 else u << 1
  {
  }

  lemma BothIs(u: bv64, v: bv64)
    ensures Both(u, v) == u ^ v
  {
  }

  lemma BothPushed(x: bv64, y: bv64, u: bv64, v: bv64)
    ensures x == u << 1 && y == v << 1 ==> x ^ y == (u ^ v) << 1
    ensures x == (u << 1) | 1 && y == (v << 1) | 1 ==> x ^ y == (u ^ v) << 1
    ensures x == (u << 1) | 1 && y == v << 1 ==> x ^ y == ((u ^ v) << 1) | 1
    ensures x == u << 1 && y == (v << 1) | 1 ==> x ^ y == ((u ^ v) << 1) | 1
  {
  }

  lemma PushBoth(u: bv64, v: bv64, a: bool, b: bool)
    ensures Both(Push(u, a), Push(v, b)) == Push(Both(u, v), a != b)
  {
    hide *;
    var x, y := Push(u, a), Push(v, b);
    PushIs(u, a);
    PushIs(v, b);
    BothIs(u, v);
    BothIs(x, y);
    BothPushed(x, y, u, v);
    PushIs(u ^ v, a != b);
  }

  lemma BothNone()
    ensures Both(0, 0) == 0 && Push(0, false) == 0
  {
  }

  // ----- exclusive or

  lemma {:induction false} NativeXor(x: nat, y: nat, n: nat)
    ensures Native(XorBits(x, y, n), n) == Both(Native(x, n), Native(y, n))
    decreases n
  {
    hide XorBits, Push, Both;
    if n == 0 {
      XorNoBits(x, y);
      BothNone();
    } else {
      HalfOfXor(x, y, n);
      ParityOfPair(x, y);
      NativeXor(x / 2, y / 2, n - 1);
      PushBoth(Native(x / 2, n - 1), Native(y / 2, n - 1), x % 2 == 1, y % 2 == 1);
    }
  }

  /** Exclusive or on words is the machine's `^`. */
  lemma XorIsMachine(x: Word, y: Word)
    ensures Native(Xor(x, y), 64) == Native(x, 64) ^ Native(y, 64)
  {
    hide XorBits, Native;
    NativeXor(x, y, 64);
  }

  // ----- width

  /** `n` one bits. */
  function Ones(n: nat): bv64 {
    if n == 0 then 0 else Push(Ones(n - 1), true)
  }

  lemma PushOnes(u: bv64, m: bv64, bit: bool)
    requires u | m == m
    ensures Push(u, bit) | Push(m, true) == Push(m, true)
  {
  }

  lemma {:induction false} NativeFits(x: nat, n: nat)
    ensures Native(x, n) | Ones(n) == Ones(n)
    decreases n
  {
    hide Push;
    if n > 0 {
      NativeFits(x / 2, n - 1);
      PushOnes(Native(x / 2, n - 1), Ones(n - 1), x % 2 == 1);
    }
  }

  /** Bits past the end of a number are zero. */
  lemma {:induction false} NativeWiden(x: nat, n: nat)
    requires x < Pow2(n)
    ensures Native(x, n + 1) == Native(x, n)
    decreases n
  {
    hide Push, Pow2;
    PowStep(n);
    if n == 0 {
      assert x == 0;
      assert Native(0, 1) == Push(Native(0, 0), false);
      BothNone();
    } else {
      NativeWiden(x / 2, n - 1);
    }
  }

  lemma {:induction false} OnesStep(n: nat)
    ensures Ones(n + 8) == (Ones(n) << 8) | 0xff
  {
    EightPushes(Ones(n));
    assert Ones(n + 4) == Push(Push(Push(Push(Ones(n), true), true), true), true) by {
      assert Ones(n + 2) == Push(Push(Ones(n), true), true);
    }
    assert Ones(n + 8) == Push(Push(Push(Push(Ones(n + 4), true), true), true), true) by {
      assert Ones(n + 6) == Push(Push(Ones(n + 4), true), true);
    }
  }

  lemma EightPushes(u: bv64)
    ensures var four := Push(Push(Push(Push(u, true), true), true), true);
            Push(Push(Push(Push(four, true), true), true), true) == (u << 8) | 0xff
  {
  }

  lemma OnesValues()
    ensures Ones(31) == 0x7fff_ffff && Ones(32) == 0xffff_ffff
  {
    assert Ones(7) == 0x7f;
    OnesStep(7);
    OnesStep(15);
    OnesStep(23);
    assert Ones(32) == Push(Ones(31), true);
  }

  lemma PopPushed(u: bv64, bit: bool)
    requires u | 0x7fff_ffff == 0x7fff_ffff
    ensures Popped(Push(u, bit)) == u && (Lowest(Push(u, bit)) <==> bit)
  {
  }

  function Popped(u: bv64): bv64 {
    u >> 1
  }

  predicate Lowest(u: bv64) {
    u & 1 == 1
  }

  /** Halving a 32-bit number is a shift, and its parity is its lowest bit. */
  lemma HalfIsShift(x: u32)
    ensures Native(x / 2, 32) == Popped(Native(x, 32))
    ensures x % 2 == 1 <==> Lowest(Native(x, 32))
  {
    hide Push, Ones, Pow2, Popped, Lowest;
    Pow2Of32();
    OnesValues();
    NativeFits(x / 2, 31);
    NativeWiden(x / 2, 31);
    PopPushed(Native(x / 2, 31), x % 2 == 1);
  }
}
