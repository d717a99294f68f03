/** The P768 permutation: eighteen in-place rounds over two six-lane rails, and the hand-written inverse. */
module Permutation {
  import opened Words

  const ROUNDS: nat := 18
  const STATE_WORDS: nat := 12

  const RC_A: seq<Word> := [
    0x1853_422e_4732_c6ed, 0xd845_5287_4d2c_4a4d, 0x682a_25cb_2e78_c9fd,
    0x9e41_a881_b8f7_397e, 0x9326_6e60_3b67_330a, 0x28b0_d2d3_9e46_889d,
    0x514f_7bcf_bd79_f938, 0x2144_bddd_b649_e982, 0x3069_f197_a63b_435f,
    0x7cf3_370e_57a8_1a4d, 0x34dd_dff2_6d5b_ad1d, 0xfe9a_c5d6_7c20_308e,
    0x1290_1fb3_b7a2_bace, 0x631c_5129_f70d_f08d, 0x7a91_d014_981f_9f21,
    0x8f0d_8d29_3296_178c, 0xf074_cffd_f23e_b10d, 0xb248_ec68_0164_03f4]

  const RC_B: seq<Word> := [
    0x13d4_c46f_19b1_c4bb, 0x1244_e976_6b6c_0e92, 0xca1f_7d73_9867_358c,
    0x3a4f_c6fd_812a_b6e3, 0x6a92_b196_8633_9f29, 0x613b_c163_2616_1de8,
    0xaeb9_1dfc_b0c4_d4fc, 0x98ac_dbb1_563e_8f8f, 0x3e55_5cfc_fb45_db74,
    0xcf64_02ae_9650_f7e4, 0xb93c_472c_eafe_bd32, 0x9456_427f_77d4_7945,
    0x4f72_03e9_0e93_ce75, 0x5c84_5b46_e100_b229, 0x6667_84d5_a5d3_3db0,
    0xcfc2_46c1_1453_c8f8, 0x1b67_f302_66c0_6728, 0x157d_332d_5aab_69ae]

  const RC_C: seq<Word> := [
    0x70b2_dfe5_7b0c_7cc5, 0xd495_2297_a292_40d5, 0x5750_9efc_a5f7_f18d,
    0xc252_5369_a0d0_653d, 0x3ce5_8721_1057_8eb9, 0xef8b_52c0_7f3b_7fa8,
    0xcd80_cf4f_1815_118d, 0x111b_5ddd_b8e3_7e1c, 0x675b_5bd9_d193_6d68,
    0x1619_e844_6754_79db, 0x5c6f_0535_558d_3c83, 0xb204_824f_129d_8eda,
    0x025a_9eed_ce6e_832c, 0x0bbb_1f15_f4bc_8cc8, 0xef6a_fc7d_0e42_2f1e,
    0x36cf_6e7e_e9c4_e0ce, 0xa7a9_98e4_32c1_7646, 0x1682_a490_7b2f_1e4f]

  const IV: seq<Word> := [
    0x49a0_61ae_9c66_8168, 0x2b99_fc22_1067_7971, 0x4c11_c3fa_7a15_6089,
    0x11ef_6319_c60a_c91a, 0x3e89_e2cb_f054_6d31, 0x136c_ad03_d220_bb36,
    0x2003_1540_c164_8278, 0x276f_be30_e486_f7ec, 0xdd61_dffb_67ff_9144,
    0xb245_7a11_a441_32be, 0xe894_9238_b181_4b05, 0x138e_70ba_340a_6986]

  // ----- tables

  const PAIRINGS: seq<seq<(nat, nat)>> := [[(0, 1), (2, 3), (4, 5)], [(0, 2), (1, 4), (3, 5)], [(0, 3), (1, 5), (2, 4)]]
  const C_PERM: seq<seq<nat>> := [[1, 4, 2, 5, 0, 3], [2, 0, 5, 3, 1, 4], [3, 5, 1, 0, 4, 2]]
  const W_PERM: seq<seq<nat>> := [[5, 2, 0, 4, 1, 3], [4, 1, 3, 0, 5, 2], [2, 5, 1, 4, 0, 3]]
  const C_ROT: seq<nat> := [7, 17, 29, 37, 47, 59]
  const W_ROT: seq<nat> := [11, 23, 31, 41, 53, 61]
  const WAVE_LEFT_ROT: seq<nat> := [5, 13, 19, 31, 43, 57]
  const WAVE_RIGHT_ROT: seq<nat> := [3, 11, 27, 35, 49, 63]
  const KICK_C_ROT: seq<nat> := [9, 21, 33, 45, 55, 15]
  const KICK_W_ROT: seq<nat> := [7, 25, 39, 51, 17, 29]

  function RoundRot(base: nat, round: nat, lane: nat, stride: nat): (r: nat)
    ensures 1 <= r < 64
  {
    (base + round * stride + lane * 5) % 63 + 1
  }

  /** The two lanes of collision `pair` in a round. */
  function PairOf(round: nat, pair: nat): (p: (nat, nat))
    requires pair < 3
    ensures p.0 < 6 && p.1 < 6 && p.0 != p.1
  {
    PAIRINGS[round % 3][pair]
  }

  /** The lane that `permute_words` moves to position `lane`. */
  function SourceLane(table: seq<seq<nat>>, round: nat, lane: nat): (l: nat)
    requires table == C_PERM || table == W_PERM
    requires lane < 6
    ensures l < 6
  {
    table[round % 3][lane]
  }

  // ----- one round as steps on the two rails

  type Lanes = s: seq<Word> | |s| == 6 witness [0, 0, 0, 0, 0, 0]

  datatype Rails = Rails(c: Lanes, w: Lanes)

  datatype Step =
    | Inject(round: nat)
    | Collide(round: nat, pair: nat)
    | Wave(lane: nat)
    | KickC(round: nat, lane: nat)
    | KickW(lane: nat)
    | Rotate(round: nat)
    | Shuffle(round: nat)
  {
    predicate Valid() {
      match this
      case Inject(round) => round < ROUNDS
      case Collide(_, pair) => pair < 3
      case Wave(lane) => lane < 6
      case KickC(_, lane) => lane < 6
      case KickW(lane) => lane < 6
      case Rotate(_) => true
      case Shuffle(_) => true
    }
  }

  function WaveTerm(w: Lanes, lane: nat): Word
    requires lane < 6
  {
    hide Xor, Rotl;
    Xor(Rotl(w[(lane + 5) % 6], WAVE_LEFT_ROT[lane]), Rotl(w[(lane + 1) % 6], WAVE_RIGHT_ROT[lane]))
  }

  function KickCTerm(w: Lanes, round: nat, lane: nat): Word
    requires lane < 6
  {
    hide Xor, Rotl;
    Rotl(w[(lane + round + 1) % 6], KICK_C_ROT[lane])
  }

  function KickWTerm(c: Lanes, lane: nat): Word
    requires lane < 6
  {
    hide Xor, Rotl;
    Rotl(Xor(c[(lane + 2) % 6], c[(lane + 5) % 6]), KICK_W_ROT[lane])
  }

  function CollideForward(l: Lanes, a: nat, b: nat, round: nat, pair: nat): Lanes
    requires a < 6 && b < 6
  {
    hide Add, Xor, Rotl, RoundRot;
    var x := Add(l[a], Rotl(l[b], RoundRot(7, round, pair, 7)));
    var y := Xor(l[b], Rotl(x, RoundRot(19, round, pair, 11)));
    l[a := Rotl(x, RoundRot(31, round, pair, 13))][b := y]
  }

  function CollideInverse(l: Lanes, a: nat, b: nat, round: nat, pair: nat): Lanes
    requires a < 6 && b < 6
  {
    hide Add, Sub, Xor, Rotl, Rotr, RoundRot;
    var x := Rotr(l[a], RoundRot(31, round, pair, 13));
    var y := Xor(l[b], Rotl(x, RoundRot(19, round, pair, 11)));
    l[a := Sub(x, Rotl(y, RoundRot(7, round, pair, 7)))][b := y]
  }

  function RotateLeft(l: Lanes, rots: seq<nat>, round: nat, stride: nat): Lanes
    requires |rots| == 6
  {
    hide Rotl, RoundRot;
    seq(6, lane requires 0 <= lane < 6 => Rotl(l[lane], RoundRot(rots[lane], round, lane, stride)))
  }

  function RotateRight(l: Lanes, rots: seq<nat>, round: nat, stride: nat): Lanes
    requires |rots| == 6
  {
    hide Rotr, RoundRot;
    seq(6, lane requires 0 <= lane < 6 => Rotr(l[lane], RoundRot(rots[lane], round, lane, stride)))
  }

  function Shuffled(l: Lanes, table: seq<seq<nat>>, round: nat): Lanes
    requires table == C_PERM || table == W_PERM
  {
    seq(6, lane requires 0 <= lane < 6 => l[SourceLane(table, round, lane)])
  }

  /** The inverse of the table: where lane `l` was moved to. */
  function TargetLane(table: seq<seq<nat>>, round: nat, l: nat): (lane: nat)
    requires table == C_PERM || table == W_PERM
    requires l < 6
    ensures lane < 6 && SourceLane(table, round, lane) == l
  {
    var t := table[round % 3];
    if t[0] == l then 0 else if t[1] == l then 1 else if t[2] == l then 2
    else if t[3] == l then 3 else if t[4] == l then 4 else 5
  }

  function Unshuffled(l: Lanes, table: seq<seq<nat>>, round: nat): Lanes
    requires table == C_PERM || table == W_PERM
  {
    seq(6, lane requires 0 <= lane < 6 => l[TargetLane(table, round, lane)])
  }

  function Apply(s: Rails, step: Step): Rails
    requires step.Valid()
  {
    hide Add, Sub, Xor, Rotl, Rotr, RoundRot, WaveTerm, KickCTerm, KickWTerm, CollideForward, CollideInverse,
         RotateLeft, RotateRight, Shuffled, Unshuffled;
    match step
    case Inject(round) => Rails(s.c[0 := Xor(s.c[0], RC_A[round])][3 := Add(s.c[3], RC_C[round])], s.w[5 := Xor(s.w[5], RC_B[round])])
    case Collide(round, pair) => s.(c := CollideForward(s.c, PairOf(round, pair).0, PairOf(round, pair).1, round, pair))
    case Wave(lane) => s.(w := s.w[lane := Add(s.w[lane], WaveTerm(s.w, lane))])
    case KickC(round, lane) => s.(c := s.c[lane := Xor(s.c[lane], KickCTerm(s.w, round, lane))])
    case KickW(lane) => s.(w := s.w[lane := Add(s.w[lane], KickWTerm(s.c, lane))])
    case Rotate(round) => Rails(RotateLeft(s.c, C_ROT, round, 3), RotateLeft(s.w, W_ROT, round, 5))
    case Shuffle(round) => Rails(Shuffled(s.c, C_PERM, round), Shuffled(s.w, W_PERM, round))
  }

  function Undo(s: Rails, step: Step): Rails
    requires step.Valid()
  {
    hide Add, Sub, Xor, Rotl, Rotr, RoundRot, WaveTerm, KickCTerm, KickWTerm, CollideForward, CollideInverse,
         RotateLeft, RotateRight, Shuffled, Unshuffled;
    match step
    case Inject(round) => Rails(s.c[3 := Sub(s.c[3], RC_C[round])][0 := Xor(s.c[0], RC_A[round])], s.w[5 := Xor(s.w[5], RC_B[round])])
    case Collide(round, pair) => s.(c := CollideInverse(s.c, PairOf(round, pair).0, PairOf(round, pair).1, round, pair))
    case Wave(lane) => s.(w := s.w[lane := Sub(s.w[lane], WaveTerm(s.w, lane))])
    case KickC(round, lane) => s.(c := s.c[lane := Xor(s.c[lane], KickCTerm(s.w, round, lane))])
    case KickW(lane) => s.(w := s.w[lane := Sub(s.w[lane], KickWTerm(s.c, lane))])
    case Rotate(round) => Rails(RotateRight(s.c, C_ROT, round, 3), RotateRight(s.w, W_ROT, round, 5))
    case Shuffle(round) => Rails(Unshuffled(s.c, C_PERM, round), Unshuffled(s.w, W_PERM, round))
  }

  lemma CollideBack(l: Lanes, a: nat, b: nat, round: nat, pair: nat)
    requires a < 6 && b < 6 && a != b
    ensures CollideInverse(CollideForward(l, a, b, round, pair), a, b, round, pair) == l
    ensures CollideForward(CollideInverse(l, a, b, round, pair), a, b, round, pair) == l
  {
    hide Add, Sub, Xor, Rotl, Rotr, RoundRot;
    var r1, r2, r3 := RoundRot(7, round, pair, 7), RoundRot(19, round, pair, 11), RoundRot(31, round, pair, 13);
    var x := Add(l[a], Rotl(l[b], r1));
    RotateBack(x, r3);
    XorBack(l[b], Rotl(x, r2));
    AddBack(l[a], Rotl(l[b], r1));
    var u := Rotr(l[a], r3);
    var v := Xor(l[b], Rotl(u, r2));
    RotateBack(l[a], r3);
    XorBack(l[b], Rotl(u, r2));
    AddBack(u, Rotl(v, r1));
  }

  lemma RotateAllBack(l: Lanes, rots: seq<nat>, round: nat, stride: nat)
    requires |rots| == 6
    ensures RotateRight(RotateLeft(l, rots, round, stride), rots, round, stride) == l
    ensures RotateLeft(RotateRight(l, rots, round, stride), rots, round, stride) == l
  {
    hide Rotl, Rotr, RoundRot;
    forall lane | 0 <= lane < 6
      ensures RotateRight(RotateLeft(l, rots, round, stride), rots, round, stride)[lane] == l[lane]
      ensures RotateLeft(RotateRight(l, rots, round, stride), rots, round, stride)[lane] == l[lane]
    {
      RotateBack(l[lane], RoundRot(rots[lane], round, lane, stride));
    }
  }

  lemma ShuffleBack(l: Lanes, table: seq<seq<nat>>, round: nat)
    requires table == C_PERM || table == W_PERM
    ensures Unshuffled(Shuffled(l, table, round), table, round) == l
    ensures Shuffled(Unshuffled(l, table, round), table, round) == l
  {
    forall lane | 0 <= lane < 6
      ensures Shuffled(Unshuffled(l, table, round), table, round)[lane] == l[lane]
    {
      TargetOfSource(table, round, lane);
    }
  }

  lemma TargetOfSource(table: seq<seq<nat>>, round: nat, lane: nat)
    requires table == C_PERM || table == W_PERM
    requires lane < 6
    ensures TargetLane(table, round, SourceLane(table, round, lane)) == lane
  {
  }

  /** Every step is a bijection of the rails: undoing it and redoing it cancel. */
  lemma StepBack(s: Rails, step: Step)
    requires step.Valid()
    ensures Undo(Apply(s, step), step) == s && Apply(Undo(s, step), step) == s
  {
    hide Add, Sub, Xor, Rotl, Rotr, RoundRot, CollideForward, CollideInverse, RotateLeft, RotateRight, Shuffled,
         Unshuffled;
    match step
    case Inject(round) =>
      XorBack(s.c[0], RC_A[round]);
      XorBack(s.w[5], RC_B[round]);
      AddBack(s.c[3], RC_C[round]);
    case Collide(round, pair) => CollideBack(s.c, PairOf(round, pair).0, PairOf(round, pair).1, round, pair);
    case Wave(lane) => AddBack(s.w[lane], WaveTerm(s.w, lane));
    case KickC(round, lane) => XorBack(s.c[lane], KickCTerm(s.w, round, lane));
    case KickW(lane) => AddBack(s.w[lane], KickWTerm(s.c, lane));
    case Rotate(round) =>
      RotateAllBack(s.c, C_ROT, round, 3);
      RotateAllBack(s.w, W_ROT, round, 5);
    case Shuffle(round) =>
      ShuffleBack(s.c, C_PERM, round);
      ShuffleBack(s.w, W_PERM, round);
  }

  // ----- runs of steps

  ghost predicate ValidSteps(steps: seq<Step>) {
    forall i :: 0 <= i < |steps| ==> steps[i].Valid()
  }

  ghost function ApplyAll(s: Rails, steps: seq<Step>): Rails
    requires ValidSteps(steps)
  {
    if steps == [] then s else Apply(ApplyAll(s, steps[..|steps| - 1]), steps[|steps| - 1])
  }

  ghost function UndoAll(s: Rails, steps: seq<Step>): Rails
    requires ValidSteps(steps)
    decreases |steps|
  {
    if steps == [] then s else UndoAll(Undo(s, steps[|steps| - 1]), steps[..|steps| - 1])
  }

  /** Undoing a run of steps in reverse order cancels it, from either side. */
  lemma {:induction false} RunBack(s: Rails, steps: seq<Step>)
    requires ValidSteps(steps)
    ensures UndoAll(ApplyAll(s, steps), steps) == s && ApplyAll(UndoAll(s, steps), steps) == s
    decreases |steps|
  {
    hide Apply, Undo;
    if steps != [] {
      var n := |steps| - 1;
      StepBack(ApplyAll(s, steps[..n]), steps[n]);
      RunBack(s, steps[..n]);
      StepBack(s, steps[n]);
      RunBack(Undo(s, steps[n]), steps[..n]);
    }
  }

  lemma {:induction false} RunAppend(s: Rails, a: seq<Step>, b: seq<Step>)
    requires ValidSteps(a) && ValidSteps(b)
    ensures ValidSteps(a + b)
    ensures ApplyAll(s, a + b) == ApplyAll(ApplyAll(s, a), b)
    ensures UndoAll(s, a + b) == UndoAll(UndoAll(s, b), a)
    decreases |b|
  {
    hide Apply, Undo;
    if b == [] {
      assert a + b == a;
    } else {
      var n := |b| - 1;
      assert (a + b)[..|a + b| - 1] == a + b[..n];
      RunAppend(s, a, b[..n]);
      RunAppend(Undo(s, b[n]), a, b[..n]);
    }
  }

  function Collides(round: nat, n: nat): (steps: seq<Step>)
    requires n <= 3
    ensures ValidSteps(steps)
  {
    seq(n, i requires 0 <= i < n => Collide(round, i))
  }

  function Waves(n: nat): (steps: seq<Step>)
    requires n <= 6
    ensures ValidSteps(steps)
  {
    seq(n, i requires 0 <= i < n => Wave(i))
  }

  function KicksC(round: nat, n: nat): (steps: seq<Step>)
    requires n <= 6
    ensures ValidSteps(steps)
  {
    seq(n, i requires 0 <= i < n => KickC(round, i))
  }

  function KicksW(n: nat): (steps: seq<Step>)
    requires n <= 6
    ensures ValidSteps(steps)
  {
    seq(n, i requires 0 <= i < n => KickW(i))
  }

  /** One round, in the order the steps run. */
  function RoundSteps(round: nat): (steps: seq<Step>)
    requires round < ROUNDS
    ensures ValidSteps(steps)
  {
    [Inject(round)] + Collides(round, 3) + Waves(6) + KicksC(round, 6) + KicksW(6) + [Rotate(round), Shuffle(round)]
  }

  function Rounds(n: nat): (steps: seq<Step>)
    requires n <= ROUNDS
    ensures ValidSteps(steps)
  {
    if n == 0 then [] else Rounds(n - 1) + RoundSteps(n - 1)
  }

  // ----- the twelve-word state

  type State = s: seq<Word> | |s| == STATE_WORDS witness seq(STATE_WORDS, _ => 0)

  function Split(s: State): Rails {
    Rails(s[..6], s[6..])
  }

  function Join(r: Rails): State {
    r.c + r.w
  }

  ghost function Permuted(s: State, rounds: nat): State
    requires rounds <= ROUNDS
  {
    Join(ApplyAll(Split(s), Rounds(rounds)))
  }

  ghost function Inverted(s: State, rounds: nat): State
    requires rounds <= ROUNDS
  {
    Join(UndoAll(Split(s), Rounds(rounds)))
  }

  /** For every state and round count, the inverse rounds undo the rounds and the other way round. */
  lemma PermutationInvertible(s: State, rounds: nat)
    requires rounds <= ROUNDS
    ensures Inverted(Permuted(s, rounds), rounds) == s && Permuted(Inverted(s, rounds), rounds) == s
  {
    hide ApplyAll, UndoAll, Rounds;
    RunBack(Split(s), Rounds(rounds));
    SplitJoin(ApplyAll(Split(s), Rounds(rounds)));
    SplitJoin(UndoAll(Split(s), Rounds(rounds)));
    assert Join(Split(s)) == s;
  }

  lemma SplitJoin(r: Rails)
    ensures Split(Join(r)) == r
  {
  }

  /** The permutation is injective and reaches every state. */
  lemma PermutationBijective(rounds: nat)
    requires rounds <= ROUNDS
    ensures forall s: State, t: State :: Permuted(s, rounds) == Permuted(t, rounds) ==> s == t
    ensures forall t: State :: Permuted(Inverted(t, rounds), rounds) == t
  {
    hide Permuted, Inverted;
    forall s: State, t: State | Permuted(s, rounds) == Permuted(t, rounds)
      ensures s == t
    {
      PermutationInvertible(s, rounds);
      PermutationInvertible(t, rounds);
    }
    forall t: State
      ensures Permuted(Inverted(t, rounds), rounds) == t
    {
      PermutationInvertible(t, rounds);
    }
  }
}
