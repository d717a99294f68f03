/**
 The keyed sponge over P768: a buffered absorb, pad and squeeze machine, and the pure function of key, domain
 and input that it computes.
 */
module Sponge {
  import opened Bytes
  import opened Words
  import opened Permutation
  import opened PermutationInPlace

  const RATE_WORDS: nat := 6
  const RATE_BYTES: nat := 48
  const KEY_SIZE: nat := 48
  const TAG_SIZE: nat := 32

  datatype Domain = KeyDerivation | HeaderBinding | RecordSiv | Stream | Manifest | RandomGenerator {
    function Code(): Word {
      match this
      case KeyDerivation => 0x4f59_562d_4b44_4631
      case HeaderBinding => 0x4f59_562d_4844_5231
      case RecordSiv => 0x4f59_562d_5349_5631
      case Stream => 0x4f59_562d_5354_5231
      case Manifest => 0x4f59_562d_4d41_4e31
      case RandomGenerator => 0x4f59_562d_524e_4731
    }
  }

  type Key = s: seq<byte> | |s| == KEY_SIZE witness Zeros(KEY_SIZE)
  type Block = s: seq<byte> | |s| == RATE_BYTES witness Zeros(RATE_BYTES)

  // ----- the sponge as a pure function

  function WordAt(block: Block, lane: nat): Word
    requires lane < RATE_WORDS
  {
    FromLe64(block[lane * 8..lane * 8 + 8])
  }

  function XorBlock(s: State, block: Block): State {
    seq(STATE_WORDS, i requires 0 <= i < STATE_WORDS => if i < RATE_WORDS then Xor(s[i], WordAt(block, i)) else s[i])
  }

  ghost function AbsorbBlock(s: State, block: Block): State {
    Permuted(XorBlock(s, block), ROUNDS)
  }

  /** The state after the first `n` whole blocks of `data`. */
  ghost function AbsorbBlocks(s: State, data: seq<byte>, n: nat): State
    requires n * RATE_BYTES <= |data|
  {
    hide AbsorbBlock;
    if n == 0 then s
    else AbsorbBlock(AbsorbBlocks(s, data, n - 1), data[(n - 1) * RATE_BYTES..n * RATE_BYTES])
  }

  /** The state after every whole block of the input so far. */
  ghost function AbsorbWhole(s: State, input: seq<byte>): State {
    AbsorbBlocks(s, input, |input| / RATE_BYTES)
  }

  function KeyLanes(key: Key): State {
    hide Add, Xor, Rotl, WordAt;
    seq(STATE_WORDS, i requires 0 <= i < STATE_WORDS =>
          if i < RATE_WORDS then Add(IV[i], Rotl(WordAt(key, i), (i * 9 + 7) % 64))
          else Xor(IV[i], WordAt(key, i - RATE_WORDS)))
  }

  function KeyMixed(key: Key, domain: Domain): State {
    var lanes := KeyLanes(key);
    lanes[0 := Xor(lanes[0], domain.Code())][11 := Xor(lanes[11], KEY_SIZE * 0x1_0000_0000)]
  }

  ghost function InitialState(key: Key, domain: Domain): State {
    Permuted(KeyMixed(key, domain), ROUNDS)
  }

  /** The 10*1 padding: a one bit after the input, a one bit at the end of the block, in one byte if need be. */
  function Padding(len: nat): (p: seq<byte>)
    ensures 1 <= |p| <= RATE_BYTES && (len + |p|) % RATE_BYTES == 0
  {
    var rest := RATE_BYTES - len % RATE_BYTES;
    if rest == 1 then [0x81] else [0x01] + Zeros(rest - 2) + [0x80]
  }

  function Padded(input: seq<byte>): (p: seq<byte>)
    ensures |p| % RATE_BYTES == 0 && |p| == (|input| / RATE_BYTES + 1) * RATE_BYTES
  {
    input + Padding(|input|)
  }

  function FinalMixed(s: State, key: Key, inputLen: nat, outputLen: nat): State {
    var keyed := seq(STATE_WORDS, i requires 0 <= i < STATE_WORDS =>
                       if i < RATE_WORDS then s[i] else Xor(s[i], WordAt(key, i - RATE_WORDS)));
    keyed[0 := Xor(keyed[0], inputLen % U64_LIMIT)][1 := Xor(keyed[1], outputLen % U64_LIMIT)]
         [11 := Xor(keyed[11], 0x8000_0000_0000_0001)]
  }

  ghost function FinalState(key: Key, domain: Domain, input: seq<byte>, outputLen: nat): State {
    var absorbed := AbsorbWhole(InitialState(key, domain), Padded(input));
    Permuted(FinalMixed(absorbed, key, |input|, outputLen), ROUNDS)
  }

  function OutputBlock(s: State): Block {
    Le64(s[0]) + Le64(s[1]) + Le64(s[2]) + Le64(s[3]) + Le64(s[4]) + Le64(s[5])
  }

  function Tweaked(s: State, blockIndex: nat): State {
    s[10 := Xor(s[10], blockIndex % U64_LIMIT)][11 := Add(s[11], 0x9e37_79b9_7f4a_7c15)]
  }

  ghost function NextOutput(s: State, blockIndex: nat): State {
    Permuted(Tweaked(s, blockIndex), ROUNDS)
  }

  /** The first `len` bytes of the output stream of state `s`, whose next block number is `blockIndex + 1`. */
  ghost function Squeezed(s: State, blockIndex: nat, len: nat): (out: seq<byte>)
    ensures |out| == len
    decreases len
  {
    hide OutputBlock, NextOutput;
    if len <= RATE_BYTES then OutputBlock(s)[..len]
    else OutputBlock(s) + Squeezed(NextOutput(s, blockIndex + 1), blockIndex + 1, len - RATE_BYTES)
  }

  /** Each part is preceded by its length in eight bytes. */
  function EncodeParts(parts: seq<seq<byte>>): seq<byte> {
    if parts == [] then [] else Le64(|parts[0]|) + parts[0] + EncodeParts(parts[1..])
  }

  ghost function Prf(key: Key, domain: Domain, parts: seq<seq<byte>>, len: nat): (out: seq<byte>)
    ensures |out| == len
  {
    Squeezed(FinalState(key, domain, EncodeParts(parts), len), 0, len)
  }

  // ----- properties of the pure sponge

  /** A shorter output of the same state is a prefix of a longer one. */
  lemma {:induction false} SqueezePrefix(s: State, blockIndex: nat, a: nat, b: nat)
    requires a <= b
    ensures Squeezed(s, blockIndex, a) == Squeezed(s, blockIndex, b)[..a]
    decreases b
  {
    hide OutputBlock, NextOutput;
    if a > RATE_BYTES {
      SqueezePrefix(NextOutput(s, blockIndex + 1), blockIndex + 1, a - RATE_BYTES, b - RATE_BYTES);
    }
  }

  /** Later input does not change the blocks already absorbed. */
  lemma {:induction false} AbsorbPrefix(s: State, data: seq<byte>, more: seq<byte>, n: nat)
    requires n * RATE_BYTES <= |data|
    ensures AbsorbBlocks(s, data + more, n) == AbsorbBlocks(s, data, n)
  {
    hide AbsorbBlock;
    if n > 0 {
      AbsorbPrefix(s, data, more, n - 1);
      assert (data + more)[(n - 1) * RATE_BYTES..n * RATE_BYTES] == data[(n - 1) * RATE_BYTES..n * RATE_BYTES];
    }
  }

  lemma {:induction false} EncodePartsAppend(parts: seq<seq<byte>>, part: seq<byte>)
    ensures EncodeParts(parts + [part]) == EncodeParts(parts) + Le64(|part|) + part
  {
    hide Le64;
    if parts == [] {
      assert ([part])[1..] == [];
      assert parts + [part] == [part];
    } else {
      EncodePartsAppend(parts[1..], part);
      assert (parts + [part])[1..] == parts[1..] + [part];
    }
  }

  /** Padding can be removed: equal padded inputs are equal inputs. */
  lemma PaddedInjective(a: seq<byte>, b: seq<byte>)
    requires Padded(a) == Padded(b)
    ensures a == b
  {
    if |a| < |b| {
      PaddingDiffers(a, b);
    } else if |b| < |a| {
      PaddingDiffers(b, a);
    }
    assert a == Padded(a)[..|a|] && b == Padded(b)[..|b|];
  }

  /** The first padding byte is odd; the later ones are even. */
  lemma PaddingByte(a: seq<byte>, i: nat)
    requires |a| <= i < |Padded(a)|
    ensures Padded(a)[i] % 2 == if i == |a| then 1 else 0
  {
    assert Padded(a)[i] == Padding(|a|)[i - |a|];
  }

  lemma PaddingDiffers(a: seq<byte>, b: seq<byte>)
    requires |a| < |b|
    ensures Padded(a) != Padded(b)
  {
    hide Padded;
    if |Padded(a)| == |Padded(b)| {
      PaddingByte(a, |b|);
      PaddingByte(b, |b|);
    }
  }

  /** Length prefixes make the list of parts recoverable. */
  lemma {:induction false} EncodePartsInjective(p: seq<seq<byte>>, q: seq<seq<byte>>)
    requires forall i :: 0 <= i < |p| ==> |p[i]| < U64_LIMIT
    requires forall i :: 0 <= i < |q| ==> |q[i]| < U64_LIMIT
    requires EncodeParts(p) == EncodeParts(q)
    ensures p == q
  {
    SomePart(p);
    SomePart(q);
    if p != [] {
      var x, y := EncodeParts(p), EncodeParts(q);
      assert x[..8] == Le64(|p[0]|) && y[..8] == Le64(|q[0]|);
      Le64RoundTrip(|p[0]|);
      Le64RoundTrip(|q[0]|);
      assert x[8..8 + |p[0]|] == p[0] && y[8..8 + |q[0]|] == q[0];
      assert x[8 + |p[0]|..] == EncodeParts(p[1..]) && y[8 + |q[0]|..] == EncodeParts(q[1..]);
      EncodePartsInjective(p[1..], q[1..]);
      assert p == [p[0]] + p[1..] && q == [q[0]] + q[1..];
    }
  }

  lemma SomePart(p: seq<seq<byte>>)
    ensures p == [] <==> EncodeParts(p) == []
  {
  }

  /** The words that absorbing `data` feeds to the permutation, block by block. */
  function BlockWords(data: seq<byte>, n: nat): seq<seq<Word>>
    requires |data| == n * RATE_BYTES
  {
    seq(n, i requires 0 <= i < n => LanesOf(data[i * RATE_BYTES..(i + 1) * RATE_BYTES]))
  }

  function LanesOf(block: Block): seq<Word> {
    seq(RATE_WORDS, lane requires 0 <= lane < RATE_WORDS => WordAt(block, lane))
  }

  lemma LanesInjective(a: Block, b: Block)
    requires LanesOf(a) == LanesOf(b)
    ensures a == b
  {
    hide FromLe, Le;
    forall lane | 0 <= lane < RATE_WORDS
      ensures a[lane * 8..lane * 8 + 8] == b[lane * 8..lane * 8 + 8]
    {
      assert LanesOf(a)[lane] == WordAt(a, lane) && LanesOf(b)[lane] == WordAt(b, lane);
      LeOfFromLe(a[lane * 8..lane * 8 + 8]);
      LeOfFromLe(b[lane * 8..lane * 8 + 8]);
    }
    forall i | 0 <= i < RATE_BYTES
      ensures a[i] == b[i]
    {
      var lane := i / 8;
      assert a[i] == a[lane * 8..lane * 8 + 8][i % 8] && b[i] == b[lane * 8..lane * 8 + 8][i % 8];
    }
  }

  lemma BlockWordsPrefix(x: seq<byte>, n: nat, m: nat)
    requires |x| == n * RATE_BYTES && m <= n
    ensures BlockWords(x[..m * RATE_BYTES], m) == BlockWords(x, n)[..m]
  {
    hide LanesOf;
    forall i | 0 <= i < m
      ensures BlockWords(x[..m * RATE_BYTES], m)[i] == BlockWords(x, n)[i]
    {
      var from, end := i * RATE_BYTES, (i + 1) * RATE_BYTES;
      SliceOfSlice(x, 0, m * RATE_BYTES, from, end);
    }
  }

  lemma {:induction false} BlocksInjective(x: seq<byte>, y: seq<byte>, n: nat)
    requires |x| == n * RATE_BYTES && |y| == n * RATE_BYTES
    requires BlockWords(x, n) == BlockWords(y, n)
    ensures x == y
  {
    hide LanesOf;
    if n > 0 {
      var m := (n - 1) * RATE_BYTES;
      assert BlockWords(x, n)[n - 1] == LanesOf(x[m..n * RATE_BYTES]) && BlockWords(y, n)[n - 1] == LanesOf(y[m..n * RATE_BYTES]);
      LanesInjective(x[m..n * RATE_BYTES], y[m..n * RATE_BYTES]);
      BlockWordsPrefix(x, n, n - 1);
      BlockWordsPrefix(y, n, n - 1);
      BlocksInjective(x[..m], y[..m], n - 1);
      assert x == x[..m] + x[m..n * RATE_BYTES] && y == y[..m] + y[m..n * RATE_BYTES];
    }
  }

  /** Different lists of parts feed different blocks to the permutation. */
  lemma PartsSeparate(p: seq<seq<byte>>, q: seq<seq<byte>>)
    requires forall i :: 0 <= i < |p| ==> |p[i]| < U64_LIMIT
    requires forall i :: 0 <= i < |q| ==> |q[i]| < U64_LIMIT
    requires p != q
    ensures var x, y := Padded(EncodeParts(p)), Padded(EncodeParts(q));
            BlockWords(x, |x| / RATE_BYTES) != BlockWords(y, |y| / RATE_BYTES)
  {
    hide LanesOf, EncodeParts, Padded;
    var x, y := Padded(EncodeParts(p)), Padded(EncodeParts(q));
    var n := |x| / RATE_BYTES;
    if BlockWords(x, n) == BlockWords(y, |y| / RATE_BYTES) {
      BlocksInjective(x, y, n);
      PaddedInjective(EncodeParts(p), EncodeParts(q));
      EncodePartsInjective(p, q);
    }
  }
}
