/** What the tables of the permutation do: which lanes meet, where words go, and by how much they turn. */
module PermutationShape {
  import opened Words
  import opened WordBits
  import opened Permutation

  // ----- rotation amounts

  /** The amounts start at the base and grow, modulo 63, by the stride with each round and by five with each lane. */
  lemma RotationAdvances(base: nat, round: nat, lane: nat, stride: nat)
    ensures RoundRot(base, 0, 0, stride) == base % 63 + 1
    ensures RoundRot(base, round + 1, lane, stride) == (RoundRot(base, round, lane, stride) - 1 + stride) % 63 + 1
    ensures RoundRot(base, round, lane + 1, stride) == (RoundRot(base, round, lane, stride) - 1 + 5) % 63 + 1
  {
    hide RoundRot;
    var x := base + round * stride + lane * 5;
    Distribute(round, stride);
    ModAdvances(x, stride);
    ModAdvances(x, 5);
    RotationIs(base, round, lane, stride);
    RotationIs(base, round + 1, lane, stride);
    RotationIs(base, round, lane + 1, stride);
    RotationIs(base, 0, 0, stride);
  }

  lemma RotationIs(base: nat, round: nat, lane: nat, stride: nat)
    ensures RoundRot(base, round, lane, stride) == (base + round * stride + lane * 5) % 63 + 1
  {
  }

  lemma ModAdvances(x: nat, step: nat)
    ensures (x % 63 + step) % 63 == (x + step) % 63
  {
  }

  lemma Distribute(a: int, b: int)
    ensures (a + 1) * b == a * b + b && 0 * b == 0
  {
  }

  /** In one round no two collisions, and no two lanes of equal base, turn by the same amount. */
  lemma RotationsDiffer(base: nat, round: nat, lane: nat, lane': nat, stride: nat)
    requires lane < lane' < 6
    ensures RoundRot(base, round, lane, stride) != RoundRot(base, round, lane', stride)
  {
  }

  // ----- who meets whom

  predicate Meet(round: nat, x: nat, y: nat) {
    exists pair :: 0 <= pair < 3 && (PairOf(round, pair) == (x, y) || PairOf(round, pair) == (y, x))
  }

  /** Every lane is in exactly one collision of a round. */
  lemma EveryLaneCollides(round: nat, lane: nat) returns (other: nat)
    requires lane < 6
    ensures other < 6 && other != lane && Meet(round, lane, other)
    ensures forall x :: Meet(round, lane, x) ==> x == other
  {
    var p, q, r := PairOf(round, 0), PairOf(round, 1), PairOf(round, 2);
    other := if p.0 == lane then p.1 else if p.1 == lane then p.0 else if q.0 == lane then q.1
             else if q.1 == lane then q.0 else if r.0 == lane then r.1 else r.0;
  }

  /** Lanes that met in a round meet again three rounds later and not before. */
  lemma MeetingsRepeat(round: nat, x: nat, y: nat)
    requires Meet(round, x, y)
    ensures !Meet(round + 1, x, y) && !Meet(round + 2, x, y) && Meet(round + 3, x, y)
  {
    var pair :| 0 <= pair < 3 && (PairOf(round, pair) == (x, y) || PairOf(round, pair) == (y, x));
    assert PairOf(round + 3, pair) == PairOf(round, pair);
  }

  // ----- where words go

  /** The three word orders of the collision rail, and that they recur. */
  lemma CollisionOrders(a: Word, b: Word, c: Word, d: Word, e: Word, f: Word, round: nat)
    ensures Shuffled([a, b, c, d, e, f], C_PERM, round) ==
            if round % 3 == 0 then [b, e, c, f, a, d]
            else if round % 3 == 1 then [c, a, f, d, b, e]
            else [d, f, b, a, e, c]
  {
  }

  lemma WaveOrders(a: Word, b: Word, c: Word, d: Word, e: Word, f: Word, round: nat)
    ensures Shuffled([a, b, c, d, e, f], W_PERM, round) ==
            if round % 3 == 0 then [f, c, a, e, b, d]
            else if round % 3 == 1 then [e, b, d, a, f, c]
            else [c, f, b, e, a, d]
  {
  }

  // ----- rounds

  /** No two rounds inject the same constants into a rail. */
  lemma RoundsInjectApart(s: Rails, i: nat, j: nat)
    requires i < j < ROUNDS
    ensures Apply(s, Inject(i)).c[0] != Apply(s, Inject(j)).c[0]
    ensures Apply(s, Inject(i)).c[3] != Apply(s, Inject(j)).c[3]
    ensures Apply(s, Inject(i)).w[5] != Apply(s, Inject(j)).w[5]
  {
    hide Add, Xor;
    ConstantsDiffer(i, j);
    if Xor(s.c[0], RC_A[i]) == Xor(s.c[0], RC_A[j]) {
      XorInjective(s.c[0], RC_A[i], RC_A[j]);
    }
    if Xor(s.w[5], RC_B[i]) == Xor(s.w[5], RC_B[j]) {
      XorInjective(s.w[5], RC_B[i], RC_B[j]);
    }
    if Add(s.c[3], RC_C[i]) == Add(s.c[3], RC_C[j]) {
      AddInjective(s.c[3], RC_C[i], RC_C[j]);
    }
  }

  lemma ConstantsDiffer(i: nat, j: nat)
    requires i < j < ROUNDS
    ensures RC_A[i] != RC_A[j] && RC_B[i] != RC_B[j] && RC_C[i] != RC_C[j]
  {
    ConstantsADiffer(i, j);
    ConstantsBDiffer(i, j);
    ConstantsCDiffer(i, j);
  }

  lemma ConstantsADiffer(i: nat, j: nat)
    requires i < j < ROUNDS
    ensures RC_A[i] != RC_A[j]
  {
  }

  lemma ConstantsBDiffer(i: nat, j: nat)
    requires i < j < ROUNDS
    ensures RC_B[i] != RC_B[j]
  {
  }

  lemma ConstantsCDiffer(i: nat, j: nat)
    requires i < j < ROUNDS
    ensures RC_C[i] != RC_C[j]
  {
  }

  // ----- one known step

  const NO_LANES: Lanes := [0, 0, 0, 0, 0, 0]

  lemma FirstTurns()
    ensures Rotl(RC_A[0], 20) == 0x22e4_732c_6ed1_8534
    ensures Rotl(RC_A[0], 32) == 0x4732_c6ed_1853_422e
  {
    hide Rotl, Pow2;
    Pow2Of32();
    Pow2Four();
    Pow2Values();
    Pow2Add(8, 8);
    Pow2Add(16, 4);
    Pow2Add(20, 24);
    RotlParts(RC_A[0], 20);
    RotlParts(RC_A[0], 32);
  }

  lemma RotlOfZero(r: nat)
    requires r < 64
    ensures Rotl(0, r) == 0
  {
    hide Rotl, Pow2;
    RotlParts(0, r);
  }

  /** On the zero state, the first collision of the first round spreads the first constant over lanes 0 and 1. */
  lemma FirstCollision()
    ensures Apply(Apply(Rails(NO_LANES, NO_LANES), Inject(0)), Collide(0, 0)).c[..2]
         == [0x4732_c6ed_1853_422e, 0x22e4_732c_6ed1_8534]
  {
    hide Xor, Rotl;
    var s := Apply(Rails(NO_LANES, NO_LANES), Inject(0));
    assert s.c[0] == RC_A[0] by { ZeroXor(RC_A[0]); }
    assert s.c[1] == 0;
    RotlOfZero(8);
    FirstTurns();
    ZeroXor(0x22e4_732c_6ed1_8534);
  }

  lemma ZeroXor(x: Word)
    ensures Xor(0, x) == x
  {
    hide XorBits, Pow2;
    Pow2Values();
    XorZeroLeft(x, 64);
  }
}
