/** The sponge as the program runs it: a state, a partly filled block buffer, and loops that fill and drain them. */
module SpongeMachine {
  import opened Bytes
  import opened Words
  import opened Permutation
  import opened PermutationInPlace
  import opened Sponge

  /** The part of the input that does not yet fill a block. */
  function Tail(input: seq<byte>): (t: seq<byte>)
    ensures |t| == |input| % RATE_BYTES
  {
    input[|input| / RATE_BYTES * RATE_BYTES..]
  }

  /** Filling the buffer to the end of a block completes that block of the input. */
  lemma CompleteBlock(s: State, input: seq<byte>, part: seq<byte>)
    requires |Tail(input)| + |part| == RATE_BYTES
    ensures var all := input + part;
            && |all| % RATE_BYTES == 0
            && AbsorbWhole(s, all) == AbsorbBlock(AbsorbWhole(s, input), Tail(input) + part)
  {
    hide AbsorbBlock;
    var all, n := input + part, |input| / RATE_BYTES;
    AbsorbPrefix(s, input, part, n);
    assert all[n * RATE_BYTES..(n + 1) * RATE_BYTES] == Tail(input) + part;
  }

  lemma PartialBlock(s: State, input: seq<byte>, part: seq<byte>)
    requires |Tail(input)| + |part| < RATE_BYTES
    ensures var all := input + part;
            && Tail(all) == Tail(input) + part
            && AbsorbWhole(s, all) == AbsorbWhole(s, input)
  {
    hide AbsorbBlock;
    AbsorbPrefix(s, input, part, |input| / RATE_BYTES);
  }

  /** The two exclusive ors of `finalize` write the padding, also when both hit byte 47. */
  lemma PadBytes()
    ensures XorByte(0, 0x01) == 0x01 && XorByte(0, 0x80) == 0x80 && XorByte(0x01, 0x80) == 0x81
  {
    Pow2Values();
    XorZeroLeft(0x01, 8);
    XorZeroLeft(0x80, 8);
    XorZeroLeft(0x40, 7);
    OneBit(0x80);
  }

  lemma CountBytes(a: nat, b: nat)
    ensures (a % U64_LIMIT + b) % U64_LIMIT == (a + b) % U64_LIMIT
  {
  }

  lemma OneBit(y: nat)
    requires y % 2 == 0
    ensures XorBits(1, y, 8) == 1 + 2 * XorBits(0, y / 2, 7)
  {
    hide XorBits;
    XorStep(1, y, 8);
  }

  lemma XorStep(x: nat, y: nat, bits: nat)
    requires bits > 0
    ensures XorBits(x, y, bits) == (x + y) % 2 + 2 * XorBits(x / 2, y / 2, bits - 1)
  {
  }

  /** Adds the key words into the rate lanes and exclusive-ors them into the capacity lanes. */
  method KeyState(state: array<Word>, key: Key)
    requires state.Length == STATE_WORDS && state[..] == IV
    modifies state
    ensures state[..] == KeyLanes(key)
  {
    hide Add, Xor, Rotl, WordAt, IV, Le, FromLe;
    ghost var iv: State := state[..];
    for lane := 0 to RATE_WORDS
      invariant forall i :: 0 <= i < lane ==> state[i] == Add(iv[i], Rotl(WordAt(key, i), (i * 9 + 7) % 64))
      invariant forall i :: lane <= i < RATE_WORDS ==> state[i] == iv[i]
      invariant forall i :: RATE_WORDS <= i < RATE_WORDS + lane ==> state[i] == Xor(iv[i], WordAt(key, i - RATE_WORDS))
      invariant forall i :: RATE_WORDS + lane <= i < STATE_WORDS ==> state[i] == iv[i]
    {
      var keyWord := WordAt(key, lane);
      state[lane] := Add(state[lane], Rotl(keyWord, (lane * 9 + 7) % 64));
      state[RATE_WORDS + lane] := Xor(state[RATE_WORDS + lane], keyWord);
    }
  }

  method PermutedKey(key: Key, domain: Domain) returns (state: array<Word>)
    ensures fresh(state) && state.Length == STATE_WORDS && state[..] == InitialState(key, domain)
  {
    hide Add, Xor, Rotl, KeyLanes, Permuted;
    state := new Word[STATE_WORDS](i requires 0 <= i < STATE_WORDS => IV[i]);
    KeyState(state, key);
    state[0] := Xor(state[0], domain.Code());
    state[STATE_WORDS - 1] := Xor(state[STATE_WORDS - 1], KEY_SIZE * 0x1_0000_0000);
    assert state[..] == KeyMixed(key, domain);
    Permute(state);
  }

  class KeyedSponge {
    var state: array<Word>
    var buffer: array<byte>
    var position: nat
    var absorbed: u64
    /** The state after keying, and everything absorbed since. */
    ghost var start: State
    ghost var input: seq<byte>

    ghost predicate Shaped()
      reads this
    {
      state.Length == STATE_WORDS && buffer.Length == RATE_BYTES && state as object != buffer as object
    }

    /** The machine holds a function of its input alone; the unused part of the buffer is zero. */
    ghost predicate Valid()
      reads this, state, buffer
    {
      && Shaped()
      && state[..] == AbsorbWhole(start, input)
      && buffer[..] == Tail(input) + Zeros(RATE_BYTES - |Tail(input)|)
      && position == |Tail(input)|
      && absorbed == |input| % U64_LIMIT
    }

    constructor (key: Key, domain: Domain)
      ensures Valid() && fresh(state) && fresh(buffer)
      ensures start == InitialState(key, domain) && input == []
    {
      hide InitialState;
      var keyed := PermutedKey(key, domain);
      state := keyed;
      buffer := new byte[RATE_BYTES](_ => 0);
      position := 0;
      absorbed := 0;
      input := [];
      start := InitialState(key, domain);
    }

    method CommitBlock()
      requires Shaped()
      modifies this`position, state, buffer
      ensures Shaped() && position == 0 && buffer[..] == Zeros(RATE_BYTES)
      ensures state[..] == AbsorbBlock(old(state[..]), old(buffer[..]))
    {
      hide Xor, WordAt, Permuted;
      ghost var before, block := state[..], buffer[..];
      for lane := 0 to RATE_WORDS
        invariant Shaped() && buffer[..] == block
        invariant forall i :: 0 <= i < lane ==> state[i] == Xor(before[i], WordAt(block, i))
        invariant forall i :: lane <= i < STATE_WORDS ==> state[i] == before[i]
      {
        state[lane] := Xor(state[lane], WordAt(buffer[..], lane));
      }
      assert state[..] == XorBlock(before, block);
      Permute(state);
      forall i | 0 <= i < RATE_BYTES {
        buffer[i] := 0;
      }
      position := 0;
    }

    /** Buffers what fits, and commits the block once it is full. */
    method AbsorbPart(part: seq<byte>)
      requires Valid() && position + |part| <= RATE_BYTES
      modifies this`position, this`absorbed, this`input, state, buffer
      ensures Valid() && input == old(input) + part
    {
      hide AbsorbWhole, AbsorbBlock, Tail, Zeros;
      ghost var tail := Tail(input);
      assert Zeros(0) == [];
      if position + |part| == RATE_BYTES {
        CompleteBlock(start, input, part);
      } else {
        PartialBlock(start, input, part);
      }
      FillNext(buffer, tail, position, part);
      position := position + |part|;
      CountBytes(|input|, |part|);
      absorbed := (absorbed + |part|) % U64_LIMIT;
      input := input + part;
      if position == RATE_BYTES {
        assert buffer[..] == tail + part;
        CommitBlock();
        EmptyTail(input);
      }
    }

    /** Any split of the input over several calls gives the same machine: only the concatenation counts. */
    method Absorb(data: seq<byte>)
      requires Valid()
      modifies this`position, this`absorbed, this`input, state, buffer
      ensures Valid() && input == old(input) + data
    {
      hide AbsorbWhole, AbsorbBlock, Tail;
      var rest := data;
      while rest != []
        invariant Valid() && input + rest == old(input) + data
        decreases |rest|
      {
        var take := Min(RATE_BYTES - position, |rest|);
        ghost var before := input;
        assert before + rest == before + rest[..take] + rest[take..];
        AbsorbPart(rest[..take]);
        rest := rest[take..];
      }
    }

    lemma EmptyTail(data: seq<byte>)
      requires |data| % RATE_BYTES == 0
      ensures Tail(data) == []
    {
    }

    /** Pads, commits the last block, and binds the key and both lengths. */
    method Finalize(key: Key, outputLength: nat)
      requires Valid()
      modifies this`position, state, buffer
      ensures Shaped()
      ensures state[..] == Permuted(FinalMixed(AbsorbWhole(start, Padded(input)), key, |input|, outputLength), ROUNDS)
    {
      hide AbsorbWhole, AbsorbBlock, Xor, XorByte, WordAt, Permuted;
      ghost var tail := Tail(input);
      PadBytes();
      buffer[position] := XorByte(buffer[position], 0x01);
      buffer[RATE_BYTES - 1] := XorByte(buffer[RATE_BYTES - 1], 0x80);
      assert buffer[..] == tail + Padding(|input|);
      CompleteBlock(start, input, Padding(|input|));
      CommitBlock();
      ghost var s := state[..];
      assert s == AbsorbWhole(start, Padded(input));
      for lane := 0 to RATE_WORDS
        invariant Shaped()
        invariant forall i :: 0 <= i < RATE_WORDS ==> state[i] == s[i]
        invariant forall i :: RATE_WORDS <= i < RATE_WORDS + lane ==> state[i] == Xor(s[i], WordAt(key, i - RATE_WORDS))
        invariant forall i :: RATE_WORDS + lane <= i < STATE_WORDS ==> state[i] == s[i]
      {
        state[RATE_WORDS + lane] := Xor(state[RATE_WORDS + lane], WordAt(key, lane));
      }
      state[0] := Xor(state[0], absorbed);
      state[1] := Xor(state[1], outputLength % U64_LIMIT);
      state[STATE_WORDS - 1] := Xor(state[STATE_WORDS - 1], 0x8000_0000_0000_0001);
      assert state[..] == FinalMixed(s, key, |input|, outputLength);
      Permute(state);
    }

    method Squeeze(output: array<byte>)
      requires Shaped() && output as object != state as object && output as object != buffer as object
      modifies state, output
      ensures output[..] == Squeezed(old(state[..]), 0, output.Length)
    {
      hide OutputBlock, Permuted, Xor, Add;
      var written := 0;
      var blockIndex := 0;
      ghost var whole := Squeezed(state[..], 0, output.Length);
      while written < output.Length
        invariant Shaped() && 0 <= written <= output.Length
        invariant output[..written] == whole[..written]
        invariant written < output.Length ==> whole[written..] == Squeezed(state[..], blockIndex, output.Length - written)
      {
        var block := OutputBlock(state[..]);
        var take := Min(output.Length - written, RATE_BYTES);
        CopyInto(output, written, block[..take]);
        ghost var before := written;
        written := written + take;
        assert whole[..written] == whole[..before] + whole[before..][..take];
        if written < output.Length {
          blockIndex := blockIndex + 1;
          assert whole[written..] == whole[before..][take..];
          ghost var s := state[..];
          state[STATE_WORDS - 2] := Xor(state[STATE_WORDS - 2], blockIndex % U64_LIMIT);
          state[STATE_WORDS - 1] := Add(state[STATE_WORDS - 1], 0x9e37_79b9_7f4a_7c15);
          assert state[..] == Tweaked(s, blockIndex);
          Permute(state);
        }
      }
    }
  }

  /** Two machines keyed alike and fed the same bytes, however split, are in the same configuration. */
  lemma SameInputSameMachine(a: KeyedSponge, b: KeyedSponge)
    requires a.Valid() && b.Valid() && a.start == b.start && a.input == b.input
    ensures a.state[..] == b.state[..] && a.buffer[..] == b.buffer[..]
    ensures a.position == b.position && a.absorbed == b.absorbed
  {
    hide AbsorbWhole, Tail;
  }

  method AbsorbParts(sponge: KeyedSponge, parts: seq<seq<byte>>)
    requires sponge.Valid() && sponge.input == []
    modifies sponge`position, sponge`absorbed, sponge`input, sponge.state, sponge.buffer
    ensures sponge.Valid() && sponge.input == EncodeParts(parts)
  {
    hide AbsorbWhole, Tail, EncodeParts;
    NoParts();
    for i := 0 to |parts|
      invariant sponge.Valid() && sponge.input == EncodeParts(parts[..i])
    {
      EncodePartsAppend(parts[..i], parts[i]);
      assert parts[..i + 1] == parts[..i] + [parts[i]];
      sponge.Absorb(Le64(|parts[i]|));
      sponge.Absorb(parts[i]);
    }
    assert parts[..|parts|] == parts;
  }

  /** The whole primitive: the machine computes the pure function of key, domain and parts. */
  method PrfParts(key: Key, domain: Domain, parts: seq<seq<byte>>, output: array<byte>)
    modifies output
    ensures output[..] == Prf(key, domain, parts, output.Length)
  {
    hide AbsorbWhole, Tail, InitialState, Permuted, Squeezed, EncodeParts, FinalMixed;
    var sponge := new KeyedSponge(key, domain);
    AbsorbParts(sponge, parts);
    sponge.Finalize(key, output.Length);
    sponge.Squeeze(output);
  }

  lemma NoParts()
    ensures EncodeParts([]) == []
  {
  }
}
