/**
 What the sponge binds: every word of a block, every key, domain and length reaches the state, and every output
 byte comes from it.
 */
module SpongeBinding {
  import opened Bytes
  import opened Words
  import opened WordBits
  import opened Permutation
  import opened Sponge

  lemma SameLane(s: State, t: State, lane: nat)
    requires lane < STATE_WORDS && s == t
    ensures s[lane] == t[lane]
  {
  }

  lemma PermutedInjective(s: State, t: State)
    requires Permuted(s, ROUNDS) == Permuted(t, ROUNDS)
    ensures s == t
  {
    hide Permuted;
    PermutationInvertible(s, ROUNDS);
    PermutationInvertible(t, ROUNDS);
  }

  // ----- words and blocks

  /** Lane `lane` of a block is its eight bytes from `8 * lane` on, the lowest first. */
  lemma WordAtBytes(block: Block, lane: nat)
    requires lane < RATE_WORDS
    ensures Le64(WordAt(block, lane)) == block[lane * 8..lane * 8 + 8]
  {
    hide Le, FromLe;
    LeOfFromLe(block[lane * 8..lane * 8 + 8]);
  }

  /** Each rate lane of the state reappears as a word of the output block. */
  lemma OutputLanes(s: State, lane: nat)
    requires lane < RATE_WORDS
    ensures WordAt(OutputBlock(s), lane) == s[lane]
  {
    hide Le, FromLe;
    assert OutputBlock(s)[lane * 8..lane * 8 + 8] == Le64(s[lane]);
    Le64RoundTrip(s[lane]);
  }

  // ----- absorbing

  /** Two different blocks take a state to two different states. */
  lemma AbsorbBinds(s: State, a: Block, b: Block)
    requires AbsorbBlock(s, a) == AbsorbBlock(s, b)
    ensures a == b
  {
    hide Permuted, Xor, WordAt;
    PermutedInjective(XorBlock(s, a), XorBlock(s, b));
    forall lane | 0 <= lane < RATE_WORDS
      ensures LanesOf(a)[lane] == LanesOf(b)[lane]
    {
      SameLane(XorBlock(s, a), XorBlock(s, b), lane);
      XorInjective(s[lane], WordAt(a, lane), WordAt(b, lane));
    }
    assert LanesOf(a) == LanesOf(b);
    LanesInjective(a, b);
  }

  /** One block takes two different states to two different states. */
  lemma AbsorbKeeps(s: State, t: State, a: Block)
    requires AbsorbBlock(s, a) == AbsorbBlock(t, a)
    ensures s == t
  {
    hide Permuted, Xor, WordAt;
    PermutedInjective(XorBlock(s, a), XorBlock(t, a));
    forall lane | 0 <= lane < STATE_WORDS
      ensures s[lane] == t[lane]
    {
      SameLane(XorBlock(s, a), XorBlock(t, a), lane);
      if lane < RATE_WORDS {
        XorInjective(WordAt(a, lane), s[lane], t[lane]);
      }
    }
  }

  function BlockAt(data: seq<byte>, i: nat): Block
    requires (i + 1) * RATE_BYTES <= |data|
  {
    data[i * RATE_BYTES..(i + 1) * RATE_BYTES]
  }

  lemma {:induction false} AbsorbAllKeeps(s: State, t: State, data: seq<byte>, n: nat)
    requires n * RATE_BYTES <= |data| && AbsorbBlocks(s, data, n) == AbsorbBlocks(t, data, n)
    ensures s == t
  {
    hide AbsorbBlock;
    if n > 0 {
      AbsorbKeeps(AbsorbBlocks(s, data, n - 1), AbsorbBlocks(t, data, n - 1), BlockAt(data, n - 1));
      AbsorbAllKeeps(s, t, data, n - 1);
    }
  }

  /** The two strings agree outside block `m`. */
  ghost predicate OneBlockApart(x: seq<byte>, y: seq<byte>, m: nat) {
    |x| == |y| && forall i :: 0 <= i < |x| && !(m * RATE_BYTES <= i < (m + 1) * RATE_BYTES) ==> x[i] == y[i]
  }

  lemma SameBlock(x: seq<byte>, y: seq<byte>, m: nat, i: nat)
    requires OneBlockApart(x, y, m) && i != m && (i + 1) * RATE_BYTES <= |x|
    ensures BlockAt(x, i) == BlockAt(y, i)
  {
  }

  lemma {:induction false} SameBefore(s: State, x: seq<byte>, y: seq<byte>, m: nat, n: nat)
    requires OneBlockApart(x, y, m) && n <= m && n * RATE_BYTES <= |x|
    ensures AbsorbBlocks(s, x, n) == AbsorbBlocks(s, y, n)
  {
    hide AbsorbBlock, OneBlockApart;
    assert |x| == |y| by { SameLength(x, y, m); }
    if n > 0 {
      SameBlock(x, y, m, n - 1);
      SameBefore(s, x, y, m, n - 1);
    }
  }

  lemma SameLength(x: seq<byte>, y: seq<byte>, m: nat)
    requires OneBlockApart(x, y, m)
    ensures |x| == |y|
  {
  }

  /** Inputs that differ inside one block alone are absorbed to different states. */
  lemma {:induction false} OneBlockAbsorbs(s: State, x: seq<byte>, y: seq<byte>, m: nat, n: nat)
    requires OneBlockApart(x, y, m) && m < n && n * RATE_BYTES <= |x| == |y|
    requires AbsorbBlocks(s, x, n) == AbsorbBlocks(s, y, n)
    ensures BlockAt(x, m) == BlockAt(y, m)
  {
    hide AbsorbBlock, OneBlockApart;
    var u, v := AbsorbBlocks(s, x, n - 1), AbsorbBlocks(s, y, n - 1);
    if m == n - 1 {
      SameBefore(s, x, y, m, m);
      AbsorbBinds(u, BlockAt(x, m), BlockAt(y, m));
    } else {
      SameBlock(x, y, m, n - 1);
      AbsorbKeeps(u, v, BlockAt(x, n - 1));
      OneBlockAbsorbs(s, x, y, m, n - 1);
    }
  }

  // ----- keying

  /** The key can be read off the keyed lanes. */
  lemma KeyBinds(key: Key, key': Key, domain: Domain)
    requires InitialState(key, domain) == InitialState(key', domain)
    ensures key == key'
  {
    hide Permuted, Xor, WordAt, Add, Rotl;
    var s, t := KeyMixed(key, domain), KeyMixed(key', domain);
    PermutedInjective(s, t);
    forall lane | 0 <= lane < RATE_WORDS
      ensures LanesOf(key)[lane] == LanesOf(key')[lane]
    {
      var i := RATE_WORDS + lane;
      SameLane(s, t, i);
      if lane == 5 {
        XorInjective(KEY_SIZE * 0x1_0000_0000, KeyLanes(key)[11], KeyLanes(key')[11]);
      }
      XorInjective(IV[i], WordAt(key, lane), WordAt(key', lane));
    }
    assert LanesOf(key) == LanesOf(key');
    LanesInjective(key, key');
  }

  lemma CodesDiffer(d: Domain, d': Domain)
    requires d.Code() == d'.Code()
    ensures d == d'
  {
  }

  /** Different domains start from different states under one key. */
  lemma DomainBinds(key: Key, d: Domain, d': Domain)
    requires InitialState(key, d) == InitialState(key, d')
    ensures d == d'
  {
    hide Permuted, Xor, KeyLanes;
    var s, t := KeyMixed(key, d), KeyMixed(key, d');
    PermutedInjective(s, t);
    SameLane(s, t, 0);
    XorInjective(KeyLanes(key)[0], d.Code(), d'.Code());
    CodesDiffer(d, d');
  }

  // ----- finishing

  lemma FinalMixedKeeps(s: State, t: State, key: Key, inputLen: nat, outputLen: nat)
    requires FinalMixed(s, key, inputLen, outputLen) == FinalMixed(t, key, inputLen, outputLen)
    ensures s == t
  {
    hide Xor, WordAt;
    var u, v := FinalMixed(s, key, inputLen, outputLen), FinalMixed(t, key, inputLen, outputLen);
    forall lane | 0 <= lane < STATE_WORDS
      ensures s[lane] == t[lane]
    {
      SameLane(u, v, lane);
      if lane == 0 {
        XorInjective(inputLen % U64_LIMIT, s[0], t[0]);
      } else if lane == 1 {
        XorInjective(outputLen % U64_LIMIT, s[1], t[1]);
      } else if lane == 11 {
        XorInjective(0x8000_0000_0000_0001, Xor(s[11], WordAt(key, 5)), Xor(t[11], WordAt(key, 5)));
        XorInjective(WordAt(key, 5), s[11], t[11]);
      } else if lane >= RATE_WORDS {
        XorInjective(WordAt(key, lane - RATE_WORDS), s[lane], t[lane]);
      }
    }
  }

  /** Under one state, key and length of output, the length of the input and the key both show in the final state. */
  lemma FinalMixedBinds(s: State, key: Key, key': Key, inputLen: nat, inputLen': nat, outputLen: nat, outputLen': nat)
    requires FinalMixed(s, key, inputLen, outputLen) == FinalMixed(s, key', inputLen', outputLen')
    ensures key == key' && inputLen % U64_LIMIT == inputLen' % U64_LIMIT && outputLen % U64_LIMIT == outputLen' % U64_LIMIT
  {
    hide Xor, WordAt;
    var u, v := FinalMixed(s, key, inputLen, outputLen), FinalMixed(s, key', inputLen', outputLen');
    SameLane(u, v, 0);
    XorInjective(s[0], inputLen % U64_LIMIT, inputLen' % U64_LIMIT);
    SameLane(u, v, 1);
    XorInjective(s[1], outputLen % U64_LIMIT, outputLen' % U64_LIMIT);
    forall lane | 0 <= lane < RATE_WORDS
      ensures LanesOf(key)[lane] == LanesOf(key')[lane]
    {
      var i := RATE_WORDS + lane;
      SameLane(u, v, i);
      if lane == 5 {
        XorInjective(0x8000_0000_0000_0001, Xor(s[11], WordAt(key, 5)), Xor(s[11], WordAt(key', 5)));
      }
      XorInjective(s[i], WordAt(key, lane), WordAt(key', lane));
    }
    assert LanesOf(key) == LanesOf(key');
    LanesInjective(key, key');
  }

  /** Inputs of one length that differ inside one 48-byte block end in different final states. */
  lemma InputBinds(key: Key, domain: Domain, x: seq<byte>, y: seq<byte>, m: nat, outputLen: nat)
    requires OneBlockApart(x, y, m) && x != y
    ensures FinalState(key, domain, x, outputLen) != FinalState(key, domain, y, outputLen)
  {
    hide InitialState, Permuted, FinalMixed, AbsorbBlocks, Padding;
    var s0 := InitialState(key, domain);
    var p, q := Padded(x), Padded(y);
    var n := |p| / RATE_BYTES;
    PaddedApart(x, y, m);
    if FinalState(key, domain, x, outputLen) == FinalState(key, domain, y, outputLen) {
      var s, t := AbsorbWhole(s0, p), AbsorbWhole(s0, q);
      PermutedInjective(FinalMixed(s, key, |x|, outputLen), FinalMixed(t, key, |x|, outputLen));
      FinalMixedKeeps(s, t, key, |x|, outputLen);
      OneBlockAbsorbs(s0, p, q, m, n);
      BlocksAgree(p, q, m);
      PaddedInjective(x, y);
    }
  }

  lemma PaddedApart(x: seq<byte>, y: seq<byte>, m: nat)
    requires OneBlockApart(x, y, m) && x != y
    ensures OneBlockApart(Padded(x), Padded(y), m) && m < |Padded(x)| / RATE_BYTES
  {
    var i :| 0 <= i < |x| && x[i] != y[i];
    assert m * RATE_BYTES <= i;
  }

  lemma BlocksAgree(p: seq<byte>, q: seq<byte>, m: nat)
    requires OneBlockApart(p, q, m) && (m + 1) * RATE_BYTES <= |p| && BlockAt(p, m) == BlockAt(q, m)
    ensures p == q
  {
    forall i | 0 <= i < |p|
      ensures p[i] == q[i]
    {
      if m * RATE_BYTES <= i < (m + 1) * RATE_BYTES {
        assert p[i] == BlockAt(p, m)[i - m * RATE_BYTES] && q[i] == BlockAt(q, m)[i - m * RATE_BYTES];
      }
    }
  }

  /** Different domains end in different final states, and so do different lengths of output. */
  lemma FinalStateBinds(key: Key, d: Domain, d': Domain, input: seq<byte>, outputLen: u64, outputLen': u64)
    ensures FinalState(key, d, input, outputLen) == FinalState(key, d', input, outputLen) ==> d == d'
    ensures FinalState(key, d, input, outputLen) == FinalState(key, d, input, outputLen') ==> outputLen == outputLen'
  {
    hide InitialState, Permuted, FinalMixed, AbsorbBlocks, Padded;
    var p := Padded(input);
    var s, t := AbsorbWhole(InitialState(key, d), p), AbsorbWhole(InitialState(key, d'), p);
    if FinalState(key, d, input, outputLen) == FinalState(key, d', input, outputLen) {
      PermutedInjective(FinalMixed(s, key, |input|, outputLen), FinalMixed(t, key, |input|, outputLen));
      FinalMixedKeeps(s, t, key, |input|, outputLen);
      AbsorbAllKeeps(InitialState(key, d), InitialState(key, d'), p, |p| / RATE_BYTES);
      DomainBinds(key, d, d');
    }
    if FinalState(key, d, input, outputLen) == FinalState(key, d, input, outputLen') {
      PermutedInjective(FinalMixed(s, key, |input|, outputLen), FinalMixed(s, key, |input|, outputLen'));
      FinalMixedBinds(s, key, key, |input|, |input|, outputLen, outputLen');
    }
  }

  /** One short part in place of another of the same length changes the final state. */
  lemma ShortPartBinds(key: Key, domain: Domain, a: seq<byte>, b: seq<byte>, outputLen: nat)
    requires |a| == |b| <= 40 && a != b
    ensures FinalState(key, domain, EncodeParts([a]), outputLen) != FinalState(key, domain, EncodeParts([b]), outputLen)
  {
    hide FinalState, Le;
    assert [a][1..] == [] && [b][1..] == [];
    assert EncodeParts([a]) == Le64(|a|) + a && EncodeParts([b]) == Le64(|b|) + b;
    assert (Le64(|a|) + a)[8..] == a && (Le64(|b|) + b)[8..] == b;
    InputBinds(key, domain, EncodeParts([a]), EncodeParts([b]), 0, outputLen);
  }

  /** The padding is a one bit, zeros, and a one bit at the end of the block; in the last byte of a block both ones meet. */
  lemma PaddingShape(input: seq<byte>, i: nat)
    requires i < |Padded(input)|
    ensures Padded(input)[i] ==
            if i < |input| then input[i]
            else (if i == |input| then 0x01 else 0) + (if i == |Padded(input)| - 1 then 0x80 else 0)
  {
  }

  // ----- the output stream

  /** The state whose rate lanes are output block `k` of the stream that starts at `s`. */
  ghost function StreamState(s: State, blockIndex: nat, k: nat): State {
    if k == 0 then s else NextOutput(StreamState(s, blockIndex, k - 1), blockIndex + k)
  }

  lemma {:induction false} StreamShift(s: State, blockIndex: nat, k: nat)
    requires k > 0
    ensures StreamState(s, blockIndex, k) == StreamState(NextOutput(s, blockIndex + 1), blockIndex + 1, k - 1)
  {
    hide NextOutput;
    if k > 1 {
      StreamShift(s, blockIndex, k - 1);
    }
  }

  /** Byte `48 k + j` of the output is byte `j` of the k-th block of the stream. */
  lemma {:induction false} SqueezedByte(s: State, blockIndex: nat, len: nat, k: nat, j: nat)
    requires j < RATE_BYTES && k * RATE_BYTES + j < len
    ensures Squeezed(s, blockIndex, len)[k * RATE_BYTES + j] == OutputBlock(StreamState(s, blockIndex, k))[j]
    decreases k
  {
    hide OutputBlock, NextOutput;
    if k > 0 {
      var next := NextOutput(s, blockIndex + 1);
      StreamShift(s, blockIndex, k);
      SqueezedByte(next, blockIndex + 1, len - RATE_BYTES, k - 1, j);
    }
  }

  /** Between two blocks the rate stays, the block number goes in, and the last lane always moves. */
  lemma TweakBinds(s: State, t: State, i: u64, j: u64)
    ensures forall lane :: 0 <= lane < 10 ==> Tweaked(s, i)[lane] == s[lane]
    ensures Tweaked(s, i)[11] != s[11]
    ensures Tweaked(s, i) == Tweaked(t, i) ==> s == t
    ensures Tweaked(s, i) == Tweaked(s, j) ==> i == j
  {
    hide Xor, Add;
    WrappingSum(s[11], 0x9e37_79b9_7f4a_7c15);
    if Tweaked(s, i) == Tweaked(t, i) {
      SameLane(Tweaked(s, i), Tweaked(t, i), 10);
      SameLane(Tweaked(s, i), Tweaked(t, i), 11);
      XorInjective(i, s[10], t[10]);
      AddInjective(0x9e37_79b9_7f4a_7c15, s[11], t[11]);
      forall lane | 0 <= lane < STATE_WORDS
        ensures s[lane] == t[lane]
      {
        SameLane(Tweaked(s, i), Tweaked(t, i), lane);
      }
    }
    if Tweaked(s, i) == Tweaked(s, j) {
      SameLane(Tweaked(s, i), Tweaked(s, j), 10);
      XorInjective(s[10], i, j);
    }
  }
}
