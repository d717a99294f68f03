/** The permutation as the program runs it: loops that update the lane arrays in place, forwards and backwards. */
module PermutationInPlace {
  import opened Words
  import opened Permutation

  lemma Snoc(s: Rails, steps: seq<Step>, step: Step, all: seq<Step>)
    requires ValidSteps(steps) && step.Valid() && all == steps + [step]
    ensures ValidSteps(all)
    ensures ApplyAll(s, all) == Apply(ApplyAll(s, steps), step)
    ensures UndoAll(s, all) == UndoAll(Undo(s, step), steps)
  {
    hide Apply, Undo;
    assert all[..|all| - 1] == steps;
  }

  lemma EmptyRun(s: Rails, steps: seq<Step>)
    requires |steps| == 0
    ensures ApplyAll(s, steps) == s && UndoAll(s, steps) == s
  {
  }

  // ----- collisions

  method CollideInPlace(lanes: array<Word>, a: nat, b: nat, round: nat, pair: nat)
    requires lanes.Length == 6 && a < 6 && b < 6 && a != b
    modifies lanes
    ensures lanes[..] == CollideForward(old(lanes[..]), a, b, round, pair)
  {
    hide Add, Sub, Xor, Rotl, Rotr, RoundRot;
    var x := lanes[a];
    var y := lanes[b];
    x := Add(x, Rotl(y, RoundRot(7, round, pair, 7)));
    y := Xor(y, Rotl(x, RoundRot(19, round, pair, 11)));
    x := Rotl(x, RoundRot(31, round, pair, 13));
    lanes[a] := x;
    lanes[b] := y;
  }

  method UncollideInPlace(lanes: array<Word>, a: nat, b: nat, round: nat, pair: nat)
    requires lanes.Length == 6 && a < 6 && b < 6 && a != b
    modifies lanes
    ensures lanes[..] == CollideInverse(old(lanes[..]), a, b, round, pair)
  {
    hide Add, Sub, Xor, Rotl, Rotr, RoundRot;
    var x := lanes[a];
    var y := lanes[b];
    x := Rotr(x, RoundRot(31, round, pair, 13));
    y := Xor(y, Rotl(x, RoundRot(19, round, pair, 11)));
    x := Sub(x, Rotl(y, RoundRot(7, round, pair, 7)));
    lanes[a] := x;
    lanes[b] := y;
  }

  method CollidePairs(c: array<Word>, ghost w: Lanes, round: nat)
    requires c.Length == 6 && round < ROUNDS
    modifies c
    ensures Rails(c[..], w) == ApplyAll(Rails(old(c[..]), w), Collides(round, 3))
  {
    hide ApplyAll, UndoAll, Undo, CollideForward, PairOf;
    ghost var start := Rails(c[..], w);
    EmptyRun(start, Collides(round, 0));
    for pair := 0 to 3
      invariant Rails(c[..], w) == ApplyAll(start, Collides(round, pair))
    {
      var p := PairOf(round, pair);
      CollideInPlace(c, p.0, p.1, round, pair);
      Snoc(start, Collides(round, pair), Collide(round, pair), Collides(round, pair + 1));
    }
  }

  method UncollidePairs(c: array<Word>, ghost w: Lanes, round: nat)
    requires c.Length == 6 && round < ROUNDS
    modifies c
    ensures Rails(c[..], w) == UndoAll(Rails(old(c[..]), w), Collides(round, 3))
  {
    hide ApplyAll, UndoAll, Apply, CollideInverse, PairOf;
    ghost var start := Rails(c[..], w);
    for pair := 3 downto 0
      invariant UndoAll(Rails(c[..], w), Collides(round, pair)) == UndoAll(start, Collides(round, 3))
    {
      var p := PairOf(round, pair);
      Snoc(Rails(c[..], w), Collides(round, pair), Collide(round, pair), Collides(round, pair + 1));
      UncollideInPlace(c, p.0, p.1, round, pair);
    }
    EmptyRun(Rails(c[..], w), Collides(round, 0));
  }

  // ----- waves and kicks: each lane reads neighbours that may already have been updated

  method WaveLane(w: array<Word>, lane: nat, back: bool)
    requires w.Length == 6 && lane < 6
    modifies w
    ensures var l := old(w[..]); var term := WaveTerm(l, lane);
            w[..] == l[lane := if back then Sub(l[lane], term) else Add(l[lane], term)]
  {
    hide Add, Sub, Xor, Rotl;
    var left := Rotl(w[(lane + 5) % 6], WAVE_LEFT_ROT[lane]);
    var right := Rotl(w[(lane + 1) % 6], WAVE_RIGHT_ROT[lane]);
    w[lane] := if back then Sub(w[lane], Xor(left, right)) else Add(w[lane], Xor(left, right));
  }

  method WaveLanes(w: array<Word>, ghost c: Lanes)
    requires w.Length == 6
    modifies w
    ensures Rails(c, w[..]) == ApplyAll(Rails(c, old(w[..])), Waves(6))
  {
    hide ApplyAll, UndoAll, Undo, Add, Sub, WaveTerm;
    ghost var start := Rails(c, w[..]);
    EmptyRun(start, Waves(0));
    for lane := 0 to 6
      invariant Rails(c, w[..]) == ApplyAll(start, Waves(lane))
    {
      Snoc(start, Waves(lane), Wave(lane), Waves(lane + 1));
      WaveLane(w, lane, false);
    }
  }

  method UnwaveLanes(w: array<Word>, ghost c: Lanes)
    requires w.Length == 6
    modifies w
    ensures Rails(c, w[..]) == UndoAll(Rails(c, old(w[..])), Waves(6))
  {
    hide ApplyAll, UndoAll, Apply, Add, Sub, WaveTerm;
    ghost var start := Rails(c, w[..]);
    for lane := 6 downto 0
      invariant UndoAll(Rails(c, w[..]), Waves(lane)) == UndoAll(start, Waves(6))
    {
      Snoc(Rails(c, w[..]), Waves(lane), Wave(lane), Waves(lane + 1));
      WaveLane(w, lane, true);
    }
    EmptyRun(Rails(c, w[..]), Waves(0));
  }

  /** The same line serves both directions: exclusive or is its own inverse. */
  method KickCollision(c: array<Word>, w: array<Word>, round: nat, lane: nat)
    requires c.Length == 6 && w.Length == 6 && c != w && lane < 6
    modifies c
    ensures c[..] == old(c[..])[lane := Xor(old(c[lane]), KickCTerm(w[..], round, lane))]
  {
    hide Xor, Rotl;
    c[lane] := Xor(c[lane], Rotl(w[(lane + round + 1) % 6], KICK_C_ROT[lane]));
  }

  method KickCollisions(c: array<Word>, w: array<Word>, round: nat)
    requires c.Length == 6 && w.Length == 6 && c != w && round < ROUNDS
    modifies c
    ensures Rails(c[..], w[..]) == ApplyAll(Rails(old(c[..]), w[..]), KicksC(round, 6))
  {
    hide ApplyAll, UndoAll, Undo, Xor, KickCTerm;
    ghost var start := Rails(c[..], w[..]);
    EmptyRun(start, KicksC(round, 0));
    for lane := 0 to 6
      invariant Rails(c[..], w[..]) == ApplyAll(start, KicksC(round, lane))
    {
      Snoc(start, KicksC(round, lane), KickC(round, lane), KicksC(round, lane + 1));
      KickCollision(c, w, round, lane);
    }
  }

  method UnkickCollisions(c: array<Word>, w: array<Word>, round: nat)
    requires c.Length == 6 && w.Length == 6 && c != w && round < ROUNDS
    modifies c
    ensures Rails(c[..], w[..]) == UndoAll(Rails(old(c[..]), w[..]), KicksC(round, 6))
  {
    hide ApplyAll, UndoAll, Apply, Xor, KickCTerm;
    ghost var start := Rails(c[..], w[..]);
    for lane := 6 downto 0
      invariant UndoAll(Rails(c[..], w[..]), KicksC(round, lane)) == UndoAll(start, KicksC(round, 6))
    {
      Snoc(Rails(c[..], w[..]), KicksC(round, lane), KickC(round, lane), KicksC(round, lane + 1));
      KickCollision(c, w, round, lane);
    }
    EmptyRun(Rails(c[..], w[..]), KicksC(round, 0));
  }

  method KickWave(c: array<Word>, w: array<Word>, lane: nat, back: bool)
    requires c.Length == 6 && w.Length == 6 && c != w && lane < 6
    modifies w
    ensures var l := old(w[..]); var term := KickWTerm(c[..], lane);
            w[..] == l[lane := if back then Sub(l[lane], term) else Add(l[lane], term)]
  {
    hide Add, Sub, Xor, Rotl;
    var impulse := Xor(c[(lane + 2) % 6], c[(lane + 5) % 6]);
    var term := Rotl(impulse, KICK_W_ROT[lane]);
    w[lane] := if back then Sub(w[lane], term) else Add(w[lane], term);
  }

  method KickWaves(c: array<Word>, w: array<Word>)
    requires c.Length == 6 && w.Length == 6 && c != w
    modifies w
    ensures Rails(c[..], w[..]) == ApplyAll(Rails(c[..], old(w[..])), KicksW(6))
  {
    hide ApplyAll, UndoAll, Undo, Add, Sub, KickWTerm;
    ghost var start := Rails(c[..], w[..]);
    EmptyRun(start, KicksW(0));
    for lane := 0 to 6
      invariant Rails(c[..], w[..]) == ApplyAll(start, KicksW(lane))
    {
      Snoc(start, KicksW(lane), KickW(lane), KicksW(lane + 1));
      KickWave(c, w, lane, false);
    }
  }

  method UnkickWaves(c: array<Word>, w: array<Word>)
    requires c.Length == 6 && w.Length == 6 && c != w
    modifies w
    ensures Rails(c[..], w[..]) == UndoAll(Rails(c[..], old(w[..])), KicksW(6))
  {
    hide ApplyAll, UndoAll, Apply, Add, Sub, KickWTerm;
    ghost var start := Rails(c[..], w[..]);
    for lane := 6 downto 0
      invariant UndoAll(Rails(c[..], w[..]), KicksW(lane)) == UndoAll(start, KicksW(6))
    {
      Snoc(Rails(c[..], w[..]), KicksW(lane), KickW(lane), KicksW(lane + 1));
      KickWave(c, w, lane, true);
    }
    EmptyRun(Rails(c[..], w[..]), KicksW(0));
  }

  // ----- rotations and word permutations

  method RotateLanes(c: array<Word>, w: array<Word>, round: nat)
    requires c.Length == 6 && w.Length == 6 && c != w && round < ROUNDS
    modifies c, w
    ensures Rails(c[..], w[..]) == Apply(Rails(old(c[..]), old(w[..])), Rotate(round))
  {
    hide Rotl, RoundRot;
    for lane := 0 to 6
      invariant forall k :: 0 <= k < lane ==> c[k] == Rotl(old(c[..])[k], RoundRot(C_ROT[k], round, k, 3))
      invariant forall k :: 0 <= k < lane ==> w[k] == Rotl(old(w[..])[k], RoundRot(W_ROT[k], round, k, 5))
      invariant forall k :: lane <= k < 6 ==> c[k] == old(c[..])[k] && w[k] == old(w[..])[k]
    {
      c[lane] := Rotl(c[lane], RoundRot(C_ROT[lane], round, lane, 3));
      w[lane] := Rotl(w[lane], RoundRot(W_ROT[lane], round, lane, 5));
    }
  }

  method UnrotateLanes(c: array<Word>, w: array<Word>, round: nat)
    requires c.Length == 6 && w.Length == 6 && c != w && round < ROUNDS
    modifies c, w
    ensures Rails(c[..], w[..]) == Undo(Rails(old(c[..]), old(w[..])), Rotate(round))
  {
    hide Rotr, RoundRot;
    for lane := 0 to 6
      invariant forall k :: 0 <= k < lane ==> c[k] == Rotr(old(c[..])[k], RoundRot(C_ROT[k], round, k, 3))
      invariant forall k :: 0 <= k < lane ==> w[k] == Rotr(old(w[..])[k], RoundRot(W_ROT[k], round, k, 5))
      invariant forall k :: lane <= k < 6 ==> c[k] == old(c[..])[k] && w[k] == old(w[..])[k]
    {
      c[lane] := Rotr(c[lane], RoundRot(C_ROT[lane], round, lane, 3));
      w[lane] := Rotr(w[lane], RoundRot(W_ROT[lane], round, lane, 5));
    }
  }

  method PermuteWords(lanes: array<Word>, table: seq<seq<nat>>, round: nat)
    requires lanes.Length == 6 && (table == C_PERM || table == W_PERM)
    modifies lanes
    ensures lanes[..] == Shuffled(old(lanes[..]), table, round)
  {
    hide SourceLane;
    var previous := lanes[..];
    for output := 0 to 6
      invariant forall k :: 0 <= k < output ==> lanes[k] == previous[SourceLane(table, round, k)]
    {
      lanes[output] := previous[SourceLane(table, round, output)];
    }
  }

  method InversePermuteWords(lanes: array<Word>, table: seq<seq<nat>>, round: nat)
    requires lanes.Length == 6 && (table == C_PERM || table == W_PERM)
    modifies lanes
    ensures lanes[..] == Unshuffled(old(lanes[..]), table, round)
  {
    hide SourceLane, TargetLane;
    var previous := lanes[..];
    for output := 0 to 6
      invariant forall k :: 0 <= k < output ==> lanes[SourceLane(table, round, k)] == previous[k]
    {
      DistinctSources(table, round);
      lanes[SourceLane(table, round, output)] := previous[output];
    }
    forall l | 0 <= l < 6
      ensures lanes[l] == previous[TargetLane(table, round, l)]
    {
      assert SourceLane(table, round, TargetLane(table, round, l)) == l;
    }
  }

  lemma DistinctSources(table: seq<seq<nat>>, round: nat)
    requires table == C_PERM || table == W_PERM
    ensures forall i, j :: 0 <= i < 6 && 0 <= j < 6 && i != j ==> SourceLane(table, round, i) != SourceLane(table, round, j)
  {
    hide SourceLane, TargetLane;
    forall i, j | 0 <= i < 6 && 0 <= j < 6 && i != j
      ensures SourceLane(table, round, i) != SourceLane(table, round, j)
    {
      TargetOfSource(table, round, i);
      TargetOfSource(table, round, j);
    }
  }

  // ----- whole rounds

  method SplitState(state: array<Word>) returns (c: array<Word>, w: array<Word>)
    requires state.Length == STATE_WORDS
    ensures fresh(c) && fresh(w) && c != w && c.Length == 6 && w.Length == 6
    ensures Rails(c[..], w[..]) == Split(state[..])
  {
    c := new Word[6](i requires 0 <= i < 6 reads state => state[i]);
    w := new Word[6](i requires 0 <= i < 6 reads state => state[i + 6]);
  }

  method JoinState(state: array<Word>, c: array<Word>, w: array<Word>)
    requires state.Length == STATE_WORDS && c.Length == 6 && w.Length == 6 && state != c && state != w
    modifies state
    ensures state[..] == Join(Rails(c[..], w[..]))
  {
    forall i | 0 <= i < 12 {
      state[i] := if i < 6 then c[i] else w[i - 6];
    }
  }

  method RoundForward(state: array<Word>, round: nat)
    requires state.Length == STATE_WORDS && round < ROUNDS
    modifies state
    ensures state[..] == Join(ApplyAll(Split(old(state[..])), RoundSteps(round)))
  {
    hide Add, Xor, RotateLeft, Shuffled, Collides, Waves, KicksC, KicksW, ApplyAll, RoundSteps;
    ghost var start := Split(state[..]);
    var c, w := SplitState(state);
    c[0] := Xor(c[0], RC_A[round]);
    w[5] := Xor(w[5], RC_B[round]);
    c[3] := Add(c[3], RC_C[round]);
    assert Rails(c[..], w[..]) == Apply(start, Inject(round));
    CollidePairs(c, w[..], round);
    WaveLanes(w, c[..]);
    KickCollisions(c, w, round);
    KickWaves(c, w);
    RotateLanes(c, w, round);
    ghost var rotated := Rails(c[..], w[..]);
    PermuteWords(c, C_PERM, round);
    PermuteWords(w, W_PERM, round);
    assert Rails(c[..], w[..]) == Apply(rotated, Shuffle(round));
    RoundOrder(start, round);
    JoinState(state, c, w);
  }

  method RoundInverse(state: array<Word>, round: nat)
    requires state.Length == STATE_WORDS && round < ROUNDS
    modifies state
    ensures state[..] == Join(UndoAll(Split(old(state[..])), RoundSteps(round)))
  {
    hide Sub, Xor, RotateRight, Unshuffled, Collides, Waves, KicksC, KicksW, UndoAll, RoundSteps;
    ghost var start := Split(state[..]);
    var c, w := SplitState(state);
    InversePermuteWords(c, C_PERM, round);
    InversePermuteWords(w, W_PERM, round);
    assert Rails(c[..], w[..]) == Undo(start, Shuffle(round));
    UnrotateLanes(c, w, round);
    UnkickWaves(c, w);
    UnkickCollisions(c, w, round);
    UnwaveLanes(w, c[..]);
    UncollidePairs(c, w[..], round);
    ghost var uncollided := Rails(c[..], w[..]);
    c[3] := Sub(c[3], RC_C[round]);
    w[5] := Xor(w[5], RC_B[round]);
    c[0] := Xor(c[0], RC_A[round]);
    assert Rails(c[..], w[..]) == Undo(uncollided, Inject(round));
    RoundOrder(start, round);
    JoinState(state, c, w);
  }

  /** A round is its phases one after the other, and its inverse undoes them one after the other, backwards. */
  lemma RoundOrder(s: Rails, round: nat)
    requires round < ROUNDS
    ensures ApplyAll(s, RoundSteps(round)) ==
            Apply(Apply(ApplyAll(ApplyAll(ApplyAll(ApplyAll(Apply(s, Inject(round)), Collides(round, 3)), Waves(6)),
                                          KicksC(round, 6)), KicksW(6)), Rotate(round)), Shuffle(round))
    ensures UndoAll(s, RoundSteps(round)) ==
            Undo(UndoAll(UndoAll(UndoAll(UndoAll(Undo(Undo(s, Shuffle(round)), Rotate(round)), KicksW(6)),
                                         KicksC(round, 6)), Waves(6)), Collides(round, 3)), Inject(round))
  {
    hide Apply, Undo, Collides, Waves, KicksC, KicksW, ApplyAll, UndoAll;
    var inject, last := [Inject(round)], [Rotate(round), Shuffle(round)];
    var p1 := inject + Collides(round, 3);
    var p2 := p1 + Waves(6);
    var p3 := p2 + KicksC(round, 6);
    var p4 := p3 + KicksW(6);
    RunAppend(s, inject, Collides(round, 3));
    RunAppend(s, p1, Waves(6));
    RunAppend(s, p2, KicksC(round, 6));
    RunAppend(s, p3, KicksW(6));
    RunAppend(s, p4, last);
    OneStep(s, Inject(round));
    TwoSteps(ApplyAll(s, p4), Rotate(round), Shuffle(round));
    TwoSteps(s, Rotate(round), Shuffle(round));
    var u4 := UndoAll(s, last);
    RunAppend(u4, p3, KicksW(6));
    var u3 := UndoAll(u4, KicksW(6));
    RunAppend(u3, p2, KicksC(round, 6));
    var u2 := UndoAll(u3, KicksC(round, 6));
    RunAppend(u2, p1, Waves(6));
    var u1 := UndoAll(u2, Waves(6));
    RunAppend(u1, inject, Collides(round, 3));
    OneStep(UndoAll(u1, Collides(round, 3)), Inject(round));
  }

  lemma OneStep(s: Rails, a: Step)
    requires a.Valid()
    ensures ApplyAll(s, [a]) == Apply(s, a) && UndoAll(s, [a]) == Undo(s, a)
  {
    hide Apply, Undo;
    Snoc(s, [], a, [a]);
  }

  lemma TwoSteps(s: Rails, a: Step, b: Step)
    requires a.Valid() && b.Valid()
    ensures ApplyAll(s, [a, b]) == Apply(Apply(s, a), b) && UndoAll(s, [a, b]) == Undo(Undo(s, b), a)
  {
    hide Apply, Undo;
    Snoc(s, [a], b, [a, b]);
    OneStep(s, a);
    OneStep(Undo(s, b), a);
  }

  // ----- the permutation

  method PermuteRounds(state: array<Word>, rounds: nat)
    requires state.Length == STATE_WORDS && rounds <= ROUNDS
    modifies state
    ensures state[..] == Permuted(old(state[..]), rounds)
  {
    hide ApplyAll, RoundSteps, Permuted, Split, Join;
    ghost var start := state[..];
    NoRounds(start);
    for round := 0 to rounds
      invariant state[..] == Permuted(start, round)
    {
      OneMoreRound(start, round);
      RoundForward(state, round);
    }
  }

  lemma OneMoreRound(s: State, round: nat)
    requires round < ROUNDS
    ensures Permuted(s, round + 1) == Join(ApplyAll(Split(Permuted(s, round)), RoundSteps(round)))
  {
    hide ApplyAll, RoundSteps;
    RunAppend(Split(s), Rounds(round), RoundSteps(round));
    SplitJoin(ApplyAll(Split(s), Rounds(round)));
  }

  method InvertRounds(state: array<Word>, rounds: nat)
    requires state.Length == STATE_WORDS && rounds <= ROUNDS
    modifies state
    ensures state[..] == Inverted(old(state[..]), rounds)
  {
    hide UndoAll, RoundSteps;
    ghost var start := state[..];
    for round := rounds downto 0
      invariant Inverted(state[..], round) == Inverted(start, rounds)
    {
      ghost var s := Split(state[..]);
      RunAppend(s, Rounds(round), RoundSteps(round));
      SplitJoin(UndoAll(s, RoundSteps(round)));
      RoundInverse(state, round);
    }
    NoRounds(state[..]);
  }

  lemma NoRounds(s: State)
    ensures Permuted(s, 0) == s && Inverted(s, 0) == s
  {
    assert Join(Split(s)) == s;
  }

  method Permute(state: array<Word>)
    requires state.Length == STATE_WORDS
    modifies state
    ensures state[..] == Permuted(old(state[..]), ROUNDS)
  {
    PermuteRounds(state, ROUNDS);
  }

  method Invert(state: array<Word>)
    requires state.Length == STATE_WORDS
    modifies state
    ensures state[..] == Inverted(old(state[..]), ROUNDS)
  {
    InvertRounds(state, ROUNDS);
  }

  /** The full permutation and its inverse in sequence leave any state unchanged. */
  method PermuteAndInvert(state: array<Word>)
    requires state.Length == STATE_WORDS
    modifies state
    ensures state[..] == old(state[..])
  {
    PermutationInvertible(state[..], ROUNDS);
    Permute(state);
    Invert(state);
  }

  /** So do the two reduced-round methods. */
  method PermuteThenInvert(state: array<Word>, rounds: nat)
    requires state.Length == STATE_WORDS && rounds <= ROUNDS
    modifies state
    ensures state[..] == old(state[..])
  {
    PermutationInvertible(state[..], rounds);
    PermuteRounds(state, rounds);
    InvertRounds(state, rounds);
  }
}
