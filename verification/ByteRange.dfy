/**
 The mounted disk: arbitrary byte ranges over the blocks of a volume. Reads and writes behave as on one flat,
 zero-initialised array of `logicalCapacity` bytes, and each write is one transaction of the volume.
 */
module ByteRange {
  import opened Arith
  import opened Bytes
  import opened Storage
  import opened VolumeFormat
  import opened VolumeCodec
  import opened VolumeLog
  import opened VolumeProtocol
  import opened VolumeRecovery
  import opened VolumeRuns
  import opened VolumeResults
  import opened EncryptedVolume

  // ----- the flat array

  function BlockOf(bs: nat, p: nat): (block: nat)
    requires bs > 0
    ensures block <= p
  {
    QuotientSmall(p, bs);
    p / bs
  }

  function OffsetIn(bs: nat, p: nat): (at: nat)
    requires bs > 0
    ensures at < bs
  {
    p % bs
  }

  /** Byte `p` of the disk: blocks may be missing or stored short, and then read as zero. */
  function ByteAt(m: map<u64, seq<byte>>, bs: nat, p: nat): byte
    requires bs > 0
  {
    var block, at := BlockOf(bs, p), OffsetIn(bs, p);
    if block in m && at < |m[block]| then m[block][at] else 0
  }

  function Flat(m: map<u64, seq<byte>>, boot: Bootstrap): (s: seq<byte>)
    requires boot.blockSize > 0
    ensures |s| == boot.logicalCapacity
  {
    seq<byte>(boot.logicalCapacity, (p: nat) => ByteAt(m, boot.blockSize, p))
  }

  function Splice(s: seq<byte>, offset: nat, input: seq<byte>): (r: seq<byte>)
    requires offset + |input| <= |s|
    ensures |r| == |s|
  {
    s[..offset] + input + s[offset + |input|..]
  }

  predicate InRange(boot: Bootstrap, offset: nat, len: nat) {
    offset + len <= boot.logicalCapacity
  }

  lemma DivMod(bs: nat, q: nat, r: nat)
    requires r < bs
    ensures BlockOf(bs, q * bs + r) == q && OffsetIn(bs, q * bs + r) == r
  {
    QuotientUnique(bs, q, r);
  }

  /** Positions of one block share its index and count up from its start. */
  lemma InBlock(bs: nat, p: nat, k: nat)
    requires bs > 0 && OffsetIn(bs, p) + k < bs
    ensures BlockOf(bs, p + k) == BlockOf(bs, p) && OffsetIn(bs, p + k) == OffsetIn(bs, p) + k
    ensures p == BlockOf(bs, p) * bs + OffsetIn(bs, p)
  {
    QuotientSmall(p, bs);
    DivMod(bs, p / bs, p % bs + k);
  }

  /** Every valid volume has blocks of some size. */
  lemma UsableSize(boot: Bootstrap)
    requires boot.Valid()
    ensures boot.blockSize > 0
  {
    hide PowerOfTwo;
  }

  lemma BlockInRange(boot: Bootstrap, p: nat)
    requires boot.Valid() && p < boot.logicalCapacity
    ensures BlockOf(boot.blockSize, p) < boot.BlockCount()
  {
    hide PowerOfTwo;
    InBlock(boot.blockSize, p, 0);
    BlocksCover(boot.logicalCapacity, boot.blockSize, BlockOf(boot.blockSize, p));
  }

  function Range(m: map<u64, seq<byte>>, bs: nat, from: nat, n: nat): (s: seq<byte>)
    requires bs > 0
    ensures |s| == n
  {
    seq<byte>(n, (k: nat) => ByteAt(m, bs, from + k))
  }

  lemma RangeSplit(m: map<u64, seq<byte>>, bs: nat, from: nat, a: nat, b: nat)
    requires bs > 0
    ensures Range(m, bs, from, a + b) == Range(m, bs, from, a) + Range(m, bs, from + a, b)
  {
    hide ByteAt;
  }

  lemma RangeOfFlat(m: map<u64, seq<byte>>, boot: Bootstrap, from: nat, n: nat)
    requires boot.blockSize > 0 && InRange(boot, from, n)
    ensures Flat(m, boot)[from..from + n] == Range(m, boot.blockSize, from, n)
  {
    hide ByteAt;
  }

  function Available(data: seq<byte>, at: nat, n: nat): (a: nat)
    ensures a <= n && (a > 0 ==> at + a <= |data|)
  {
    if |data| <= at then 0 else if |data| - at <= n then |data| - at else n
  }

  /** The part of a block that a request covers: its stored bytes, then zeros. */
  lemma RangeInBlock(m: map<u64, seq<byte>>, bs: nat, p: nat, n: nat)
    requires bs > 0 && OffsetIn(bs, p) + n <= bs
    ensures var block, at := BlockOf(bs, p), OffsetIn(bs, p);
            Range(m, bs, p, n) ==
            if block in m && Available(m[block], at, n) > 0
            then m[block][at..at + Available(m[block], at, n)] + Zeros(n - Available(m[block], at, n))
            else Zeros(n)
  {
    hide BlockOf, OffsetIn;
    var block, at := BlockOf(bs, p), OffsetIn(bs, p);
    forall k | 0 <= k < n
      ensures Range(m, bs, p, n)[k] == if block in m && at + k < |m[block]| then m[block][at + k] else 0
    {
      InBlock(bs, p, k);
      assert Range(m, bs, p, n)[k] == ByteAt(m, bs, p + k);
    }
  }

  /** Copying the stored part of a block over zeros completes the block's part of the output. */
  lemma ReadStep(done: seq<byte>, rest: nat, stored: seq<byte>, take: nat)
    requires |stored| <= take <= rest
    ensures var out := done + Zeros(rest);
            out[..|done|] + stored + out[|done| + |stored|..] == done + (stored + Zeros(take - |stored|)) + Zeros(rest - take)
  {
  }

  // ----- reading

  /** The stored bytes of one block that a request covers; the rest of the part is zero. */
  method ReadPart(volume: Volume, absolute: nat, take: nat) returns (stored: seq<byte>)
    requires volume.Valid() && absolute < volume.c.boot.logicalCapacity
    requires OffsetIn(volume.c.boot.blockSize, absolute) + take <= volume.c.boot.blockSize
    ensures |stored| <= take
    ensures Range(volume.Blocks(), volume.c.boot.blockSize, absolute, take) == stored + Zeros(take - |stored|)
  {
    hide Consistent, DataOf, Bootstrap.Valid, Bootstrap.BlockCount, ByteAt, Range, BlockOf, OffsetIn;
    var blockSize := volume.c.boot.blockSize;
    var blockIndex, blockOffset := BlockOf(blockSize, absolute), OffsetIn(blockSize, absolute);
    BlockInRange(volume.c.boot, absolute);
    RangeInBlock(volume.Blocks(), blockSize, absolute, take);
    var block := volume.ReadBlock(blockIndex);
    stored := [];
    if block.value.Some? {
      var data := block.value.value;
      var available := Available(data, blockOffset, take);
      if available > 0 {
        stored := data[blockOffset..blockOffset + available];
      }
    }
  }

  lemma NothingRead(m: map<u64, seq<byte>>, bs: nat, offset: nat, output: seq<byte>)
    requires bs > 0 && forall i :: 0 <= i < |output| ==> output[i] == 0
    ensures output == Range(m, bs, offset, 0) + Zeros(|output|)
  {
    hide ByteAt;
  }

  method ReadBytes(volume: Volume, offset: u64, output: array<byte>) returns (r: Result<(), VolumeError>)
    requires volume.Valid()
    modifies output
    ensures r == if InRange(volume.c.boot, offset, output.Length) then Ok(()) else Err(BlockOutOfRange)
    ensures r.Ok? ==> output[..] == Flat(volume.Blocks(), volume.c.boot)[offset..offset + output.Length]
    ensures r.Err? ==> output[..] == old(output[..])
  {
    hide Consistent, DataOf, Bootstrap.Valid, ByteAt, Range, Flat, BlockOf, OffsetIn, Zeros;
    UsableSize(volume.c.boot);
    var capacity, blockSize := volume.c.boot.logicalCapacity, volume.c.boot.blockSize;
    if offset + output.Length > capacity {
      return Err(BlockOutOfRange);
    }
    ghost var m := volume.Blocks();
    forall i | 0 <= i < output.Length {
      output[i] := 0;
    }
    var done := 0;
    NothingRead(m, blockSize, offset, output[..]);
    while done < output.Length
      invariant 0 <= done <= output.Length
      invariant volume.Valid() && volume.Blocks() == m
      invariant output[..] == Range(m, blockSize, offset, done) + Zeros(output.Length - done)
    {
      var absolute := offset + done;
      var blockOffset := OffsetIn(blockSize, absolute);
      var take := Min(output.Length - done, blockSize - blockOffset);
      RangeSplit(m, blockSize, offset, done, take);
      var stored := ReadPart(volume, absolute, take);
      CopyInto(output, done, stored);
      ReadStep(Range(m, blockSize, offset, done), output.Length - done, stored, take);
      done := done + take;
    }
    RangeOfFlat(m, volume.c.boot, offset, output.Length);
    return Ok(());
  }

  // ----- writing

  /** Length of a block within the capacity; only the last one can be shorter than the block size. */
  function LogicalLen(boot: Bootstrap, block: nat): nat {
    if block * boot.blockSize > boot.logicalCapacity then 0
    else Min(boot.logicalCapacity - block * boot.blockSize, boot.blockSize)
  }

  /** Contents of a block once `input` has been written over the disk at `offset`. */
  function NewBlock(m: map<u64, seq<byte>>, boot: Bootstrap, offset: nat, input: seq<byte>, block: nat): (s: seq<byte>)
    requires boot.blockSize > 0
    ensures |s| == LogicalLen(boot, block)
  {
    seq<byte>(LogicalLen(boot, block), (k: nat) => NewByte(m, boot.blockSize, offset, input, block * boot.blockSize + k))
  }

  function NewByte(m: map<u64, seq<byte>>, bs: nat, offset: nat, input: seq<byte>, p: nat): byte
    requires bs > 0
  {
    if offset <= p < offset + |input| then input[p - offset] else ByteAt(m, bs, p)
  }

  /** The block index of entry `i` of the transaction for a write at `offset`. */
  function Touched(boot: Bootstrap, offset: nat, len: nat): (n: nat)
    requires boot.blockSize > 0 && len > 0
  {
    BlocksBetween(boot.blockSize, offset, offset + len - 1);
    BlockOf(boot.blockSize, offset + len - 1) - BlockOf(boot.blockSize, offset) + 1
  }

  lemma BlocksBetween(bs: nat, p: nat, q: nat)
    requires bs > 0 && p <= q
    ensures BlockOf(bs, p) <= BlockOf(bs, q)
    ensures BlockOf(bs, q) * bs <= q < BlockOf(bs, q) * bs + bs
  {
    QuotientMonotone(p, q, bs);
  }

  lemma TouchedInside(boot: Bootstrap, offset: nat, len: nat, i: nat)
    requires boot.blockSize > 0 && len > 0 && InRange(boot, offset, len) && i < Touched(boot, offset, len)
    ensures var block := BlockOf(boot.blockSize, offset) + i;
            block * boot.blockSize < boot.logicalCapacity && block < U64_LIMIT
  {
    hide BlockOf;
    var bs := boot.blockSize;
    BlocksBetween(bs, offset, offset + len - 1);
    var block, last := BlockOf(bs, offset) + i, BlockOf(bs, offset + len - 1);
    MulMonotone(block, last, bs);
    MulMonotone(1, bs, block);
  }

  /** Entry `i` of the transaction: the next block the range meets, with its new contents. */
  function WriteEntry(m: map<u64, seq<byte>>, boot: Bootstrap, offset: nat, input: seq<byte>, i: nat): (u64, seq<byte>)
    requires boot.blockSize > 0 && input != [] && InRange(boot, offset, |input|) && i < Touched(boot, offset, |input|)
  {
    TouchedInside(boot, offset, |input|, i);
    var block := BlockOf(boot.blockSize, offset) + i;
    (block, NewBlock(m, boot, offset, input, block))
  }

  /** The transaction of a write: every block the range meets, in order. */
  function WriteTx(m: map<u64, seq<byte>>, boot: Bootstrap, offset: nat, input: seq<byte>): (tx: Tx)
    requires boot.blockSize > 0 && input != [] && InRange(boot, offset, |input|)
    ensures |tx| == Touched(boot, offset, |input|)
  {
    seq(Touched(boot, offset, |input|),
        i requires 0 <= i < Touched(boot, offset, |input|) => WriteEntry(m, boot, offset, input, i))
  }

  /** It is a valid transaction: strictly increasing blocks of the volume, none larger than a block. */
  lemma WriteTxValid(c: Ctx, m: map<u64, seq<byte>>, offset: nat, input: seq<byte>)
    requires c.Valid() && input != [] && InRange(c.boot, offset, |input|)
    ensures var tx := WriteTx(m, c.boot, offset, input);
            && tx != [] && ValidTx(c, tx)
            && (forall i, j :: 0 <= i < j < |tx| ==> tx[i].0 < tx[j].0)
  {
    hide NewBlock, BlockOf, Bootstrap.Valid, Touched;
    UsableSize(c.boot);
    var tx := WriteTx(m, c.boot, offset, input);
    forall i | 0 <= i < |tx|
      ensures tx[i].0 < c.boot.BlockCount() && |tx[i].1| <= c.boot.blockSize
    {
      TouchedInside(c.boot, offset, |input|, i);
      BlocksCover(c.boot.logicalCapacity, c.boot.blockSize, tx[i].0);
    }
    BlocksBetween(c.boot.blockSize, offset, offset + |input| - 1);
    assert |tx| >= 1 by { TouchedSome(c.boot, offset, |input|); }
  }

  lemma TouchedSome(boot: Bootstrap, offset: nat, len: nat)
    requires boot.blockSize > 0 && len > 0
    ensures Touched(boot, offset, len) >= 1
  {
    hide BlockOf;
    BlocksBetween(boot.blockSize, offset, offset + len - 1);
  }

  /** Each position inside the capacity lies in its own block, within the block's logical length. */
  lemma InsideLogical(boot: Bootstrap, p: nat)
    requires boot.blockSize > 0 && p < boot.logicalCapacity
    ensures var block := BlockOf(boot.blockSize, p);
            && block * boot.blockSize <= boot.logicalCapacity
            && OffsetIn(boot.blockSize, p) < LogicalLen(boot, block)
            && p == block * boot.blockSize + OffsetIn(boot.blockSize, p)
  {
    InBlock(boot.blockSize, p, 0);
  }

  /** Committing the transaction of a write overwrites exactly the written range of the flat array. */
  lemma WriteTxSplices(m: map<u64, seq<byte>>, boot: Bootstrap, offset: nat, input: seq<byte>)
    requires boot.blockSize > 0 && input != [] && InRange(boot, offset, |input|)
    requires DistinctBlocks(WriteTx(m, boot, offset, input))
    ensures Flat(ApplyTx(m, WriteTx(m, boot, offset, input)), boot) == Splice(Flat(m, boot), offset, input)
  {
    hide ApplyTx, WriteTx, ByteAt, BlockOf;
    var tx := WriteTx(m, boot, offset, input);
    var m' := ApplyTx(m, tx);
    forall p | 0 <= p < boot.logicalCapacity
      ensures Flat(m', boot)[p] == NewByte(m, boot.blockSize, offset, input, p)
    {
      WriteTxByte(m, boot, offset, input, p);
    }
    var spliced := Splice(Flat(m, boot), offset, input);
    forall p | 0 <= p < boot.logicalCapacity
      ensures spliced[p] == NewByte(m, boot.blockSize, offset, input, p)
    {
    }
  }

  lemma WriteTxByte(m: map<u64, seq<byte>>, boot: Bootstrap, offset: nat, input: seq<byte>, p: nat)
    requires boot.blockSize > 0 && input != [] && InRange(boot, offset, |input|) && p < boot.logicalCapacity
    requires DistinctBlocks(WriteTx(m, boot, offset, input))
    ensures ByteAt(ApplyTx(m, WriteTx(m, boot, offset, input)), boot.blockSize, p) == NewByte(m, boot.blockSize, offset, input, p)
  {
    hide BlockOf, OffsetIn, Touched, LogicalLen, DistinctBlocks, ApplyTx;
    var bs := boot.blockSize;
    var tx := WriteTx(m, boot, offset, input);
    var block, first, last := BlockOf(bs, p), BlockOf(bs, offset), BlockOf(bs, offset + |input| - 1);
    TxSetsItsBlocks(m, tx, block);
    InsideLogical(boot, p);
    TouchedIs(boot, offset, |input|);
    if first <= block <= last {
      assert tx[block - first].0 == block;
    } else if offset <= p < offset + |input| {
      BlocksBetween(bs, offset, p);
      BlocksBetween(bs, p, offset + |input| - 1);
      assert false;
    }
  }

  lemma TouchedIs(boot: Bootstrap, offset: nat, len: nat)
    requires boot.blockSize > 0 && len > 0
    ensures Touched(boot, offset, len) == BlockOf(boot.blockSize, offset + len - 1) - BlockOf(boot.blockSize, offset) + 1
  {
    hide BlockOf;
  }

  /** A block as `read_block` gives it, cut or zero-filled to its logical length. */
  function StoredBlock(m: map<u64, seq<byte>>, boot: Bootstrap, block: nat): (s: seq<byte>)
    ensures |s| == LogicalLen(boot, block)
  {
    Resize(if block in m then m[block] else [], LogicalLen(boot, block))
  }

  lemma PartStart(boot: Bootstrap, offset: nat, len: nat, done: nat, take: nat)
    requires boot.blockSize > 0 && Part(boot, offset, len, done, take)
    ensures done > 0 ==> OffsetIn(boot.blockSize, offset + done) == 0
    ensures take == Min(len - done, LogicalLen(boot, BlockOf(boot.blockSize, offset + done)) - OffsetIn(boot.blockSize, offset + done))
  {
    hide BlockOf, OffsetIn, LogicalLen;
  }

  /** The next part of a write: it starts at the beginning of the request or of a block, and ends with either. */
  ghost predicate Part(boot: Bootstrap, offset: nat, len: nat, done: nat, take: nat)
    requires boot.blockSize > 0
  {
    var p := offset + done;
    var block := BlockOf(boot.blockSize, p);
    && done < len && InRange(boot, offset, len) && 0 < take
    && (done > 0 ==> OffsetIn(boot.blockSize, p) == 0)
    && take == Min(len - done, LogicalLen(boot, block) - OffsetIn(boot.blockSize, p))
  }

  /** A block as it will be stored: what is there now, cut or zero-filled to its length, with the new bytes in place. */
  lemma PatchedBlock(m: map<u64, seq<byte>>, boot: Bootstrap, offset: nat, input: seq<byte>, done: nat, take: nat)
    requires boot.blockSize > 0 && Part(boot, offset, |input|, done, take)
    ensures var p := offset + done;
            var block, at := BlockOf(boot.blockSize, p), OffsetIn(boot.blockSize, p);
            var stored := StoredBlock(m, boot, block);
            && at + take <= |stored|
            && stored[..at] + input[done..done + take] + stored[at + take..] == NewBlock(m, boot, offset, input, block)
  {
    hide BlockOf, OffsetIn, LogicalLen, NewBlock, StoredBlock, Part, ByteAt;
    PartStart(boot, offset, |input|, done, take);
    PartInside(boot, offset, |input|, done, take);
    var p := offset + done;
    var block: nat, at: nat := BlockOf(boot.blockSize, p), OffsetIn(boot.blockSize, p);
    var stored := StoredBlock(m, boot, block);
    var base := block * boot.blockSize;
    var target := NewBlock(m, boot, offset, input, block);
    InsideLogical(boot, p);
    TargetBytes(m, boot, offset, input, block, base);
    PatchSeq(stored, target, base, at, offset, input, done, take);
  }

  lemma PartInside(boot: Bootstrap, offset: nat, len: nat, done: nat, take: nat)
    requires boot.blockSize > 0 && Part(boot, offset, len, done, take)
    ensures done < len && offset + done < boot.logicalCapacity
    ensures OffsetIn(boot.blockSize, offset + done) + take <= LogicalLen(boot, BlockOf(boot.blockSize, offset + done))
    ensures done + take <= len
  {
    hide BlockOf, OffsetIn, LogicalLen;
  }

  lemma TargetByte(m: map<u64, seq<byte>>, boot: Bootstrap, offset: nat, input: seq<byte>, block: nat, k: nat)
    requires boot.blockSize > 0 && k < LogicalLen(boot, block)
    ensures var p := block * boot.blockSize + k;
            NewBlock(m, boot, offset, input, block)[k] ==
            if offset <= p < offset + |input| then input[p - offset] else StoredBlock(m, boot, block)[k]
  {
    hide ByteAt, LogicalLen;
    LogicalFits(boot, block);
    BlockByte(m, boot.blockSize, block, k);
  }

  lemma TargetBytes(m: map<u64, seq<byte>>, boot: Bootstrap, offset: nat, input: seq<byte>, block: nat, base: nat)
    requires boot.blockSize > 0 && base == block * boot.blockSize
    ensures var stored, target := StoredBlock(m, boot, block), NewBlock(m, boot, offset, input, block);
            && |stored| == |target|
            && forall k :: 0 <= k < |target| ==>
                 target[k] == if offset <= base + k < offset + |input| then input[base + k - offset] else stored[k]
  {
    hide LogicalLen, NewBlock, StoredBlock, ByteAt;
    forall k | 0 <= k < LogicalLen(boot, block)
      ensures NewBlock(m, boot, offset, input, block)[k] ==
              if offset <= base + k < offset + |input| then input[base + k - offset] else StoredBlock(m, boot, block)[k]
    {
      TargetByte(m, boot, offset, input, block, k);
    }
  }

  lemma LogicalFits(boot: Bootstrap, block: nat)
    ensures LogicalLen(boot, block) <= boot.blockSize
  {
  }

  lemma BlockByte(m: map<u64, seq<byte>>, bs: nat, block: nat, k: nat)
    requires k < bs
    ensures ByteAt(m, bs, block * bs + k) == if block in m && k < |m[block]| then m[block][k] else 0
  {
    hide BlockOf, OffsetIn;
    DivMod(bs, block, k);
  }

  lemma PatchSeq(stored: seq<byte>, target: seq<byte>, base: nat, at: nat, offset: nat, input: seq<byte>, done: nat, take: nat)
    requires |stored| == |target| && base + at == offset + done && done < |input| && at <= |stored|
    requires take == Min(|input| - done, |stored| - at) && (done > 0 ==> at == 0)
    requires forall k :: 0 <= k < |target| ==>
               target[k] == if offset <= base + k < offset + |input| then input[base + k - offset] else stored[k]
    ensures stored[..at] + input[done..done + take] + stored[at + take..] == target
  {
  }

  /** Where a write stands after its next block: at the end of the input, or at the start of the block after. */
  lemma NextPart(boot: Bootstrap, offset: nat, len: nat, done: nat, i: nat, take: nat)
    requires boot.blockSize > 0 && InRange(boot, offset, len) && done < len
    requires var p := offset + done; var block := BlockOf(boot.blockSize, p);
             && block == BlockOf(boot.blockSize, offset) + i && block * boot.blockSize <= boot.logicalCapacity
             && take == Min(len - done, LogicalLen(boot, block) - OffsetIn(boot.blockSize, p))
    ensures 0 < take && i < Touched(boot, offset, len)
    ensures var next := offset + done + take;
            if done + take < len
            then OffsetIn(boot.blockSize, next) == 0 && BlockOf(boot.blockSize, next) == BlockOf(boot.blockSize, offset) + i + 1
            else i + 1 == Touched(boot, offset, len)
  {
    hide BlockOf, OffsetIn, LogicalLen, Touched;
    var bs, p := boot.blockSize, offset + done;
    var block := BlockOf(bs, p);
    InsideLogical(boot, p);
    LogicalFits(boot, block);
    BlocksBetween(bs, p, offset + len - 1);
    TouchedIs(boot, offset, len);
    InBlock(bs, p, take - 1);
    if done + take < len {
      FullBlock(boot, block, p, take);
    }
  }

  /** A part that ends inside the capacity but not at the end of the request ends where its block ends. */
  lemma FullBlock(boot: Bootstrap, block: nat, p: nat, take: nat)
    requires boot.blockSize > 0 && block == BlockOf(boot.blockSize, p) && block * boot.blockSize <= boot.logicalCapacity
    requires take == LogicalLen(boot, block) - OffsetIn(boot.blockSize, p) && p + take < boot.logicalCapacity
    ensures OffsetIn(boot.blockSize, p + take) == 0 && BlockOf(boot.blockSize, p + take) == block + 1
  {
    hide BlockOf, OffsetIn;
    InBlock(boot.blockSize, p, 0);
    DivMod(boot.blockSize, block + 1, 0);
    assert (block + 1) * boot.blockSize == block * boot.blockSize + boot.blockSize;
  }

  /** Overwrites `[offset, offset + |input|)` of the flat array with one transaction, or changes nothing. */
  method WriteBytes(volume: Volume, offset: u64, input: seq<byte>) returns (r: Result<(), VolumeError>)
    requires volume.Valid()
    modifies volume, volume.file
    ensures volume.Valid()
    ensures !InRange(volume.c.boot, offset, |input|) ==> r == Err(BlockOutOfRange)
    ensures InRange(volume.c.boot, offset, |input|) ==>
              r == if input == [] then Ok(())
                   else match WriteError(volume.c, old(volume.Memory()), WriteTx(old(volume.Blocks()), volume.c.boot, offset, input))
                        case None => Ok(())
                        case Some(e) => Err(e)
    ensures r.Ok? ==> Flat(volume.Blocks(), volume.c.boot) == Splice(Flat(old(volume.Blocks()), volume.c.boot), offset, input)
    ensures r.Err? || input == [] ==> volume.Memory() == old(volume.Memory()) && volume.Blocks() == old(volume.Blocks())
    ensures r.Ok? && input != [] ==>
              Next(volume.c, old(volume.Snapshot()), Done(Writing(WriteTx(old(volume.Blocks()), volume.c.boot, offset, input))),
                   volume.Snapshot())
  {
    hide Consistent, DataOf, Bootstrap.Valid, NewBlock, BlockOf, OffsetIn, Touched, WriteTx, Flat, LogicalLen, Next,
         WriteError;
    UsableSize(volume.c.boot);
    var boot := volume.c.boot;
    if offset + |input| > boot.logicalCapacity {
      return Err(BlockOutOfRange);
    }
    ghost var m := volume.Blocks();
    if input == [] {
      EmptySplice(Flat(m, boot), offset);
      return Ok(());
    }
    var updates := BuildUpdates(volume, offset, input);
    WriteTxValid(volume.c, m, offset, input);
    ValidIsDistinct(volume.c, updates);
    WriteTxSplices(m, boot, offset, input);
    var written := volume.WriteBlocks(updates);
    if written.Err? {
      return Err(written.error);
    }
    return Ok(());
  }

  /** Reads, patches and collects every block the range meets. */
  method BuildUpdates(volume: Volume, offset: u64, input: seq<byte>) returns (updates: Tx)
    requires volume.Valid() && input != [] && InRange(volume.c.boot, offset, |input|)
    ensures updates == WriteTx(volume.Blocks(), volume.c.boot, offset, input)
  {
    hide Consistent, DataOf, Bootstrap.Valid, NewBlock, BlockOf, OffsetIn, Touched, WriteTx, LogicalLen;
    var boot := volume.c.boot;
    ghost var m := volume.Blocks();
    UsableSize(boot);
    ghost var tx := WriteTx(m, boot, offset, input);
    var done := 0;
    updates := [];
    TouchedSome(boot, offset, |input|);
    while done < |input|
      invariant 0 <= done <= |input| && |updates| <= |tx|
      invariant updates == tx[..|updates|]
      invariant done > 0 && done < |input| ==> OffsetIn(boot.blockSize, offset + done) == 0
      invariant if done < |input| then BlockOf(boot.blockSize, offset + done) == BlockOf(boot.blockSize, offset) + |updates|
                else |updates| == |tx|
    {
      var absolute := offset + done;
      var blockIndex := BlockOf(boot.blockSize, absolute);
      var blockStart := blockIndex * boot.blockSize;
      InsideLogical(boot, absolute);
      var blockOffset := absolute - blockStart;
      var logicalBlockLen := LogicalLen(boot, blockIndex);
      var take := Min(|input| - done, logicalBlockLen - blockOffset);
      NextPart(boot, offset, |input|, done, |updates|, take);
      WriteTxEntry(m, boot, offset, input, |updates|);
      var block := PatchBlock(volume, offset, input, done, take);
      assert tx[..|updates| + 1] == tx[..|updates|] + [tx[|updates|]];
      updates := updates + [(blockIndex, block)];
      done := done + take;
    }
    assert tx[..|tx|] == tx;
  }

  /** The block at `offset + done`, filled to its logical length, with `take` bytes of the input written into it. */
  method PatchBlock(volume: Volume, offset: u64, input: seq<byte>, done: nat, take: nat) returns (block: seq<byte>)
    requires volume.Valid() && Part(volume.c.boot, offset, |input|, done, take)
    ensures block == NewBlock(volume.Blocks(), volume.c.boot, offset, input, BlockOf(volume.c.boot.blockSize, offset + done))
  {
    hide Consistent, DataOf, Bootstrap.Valid, Bootstrap.BlockCount, NewBlock, BlockOf, OffsetIn, LogicalLen, Part,
         Resize;
    UsableSize(volume.c.boot);
    PartInside(volume.c.boot, offset, |input|, done, take);
    var boot, absolute := volume.c.boot, offset + done;
    var blockIndex, blockOffset := BlockOf(boot.blockSize, absolute), OffsetIn(boot.blockSize, absolute);
    BlockInRange(boot, absolute);
    PatchedBlock(volume.Blocks(), boot, offset, input, done, take);
    var read := volume.ReadBlock(blockIndex);
    block := Resize(if read.value.Some? then read.value.value else [], LogicalLen(boot, blockIndex));
    block := block[..blockOffset] + input[done..done + take] + block[blockOffset + take..];
  }

  lemma EmptySplice(s: seq<byte>, offset: nat)
    requires offset <= |s|
    ensures Splice(s, offset, []) == s
  {
  }

  lemma WriteTxEntry(m: map<u64, seq<byte>>, boot: Bootstrap, offset: nat, input: seq<byte>, i: nat)
    requires boot.blockSize > 0 && input != [] && InRange(boot, offset, |input|) && i < Touched(boot, offset, |input|)
    ensures var block := BlockOf(boot.blockSize, offset) + i;
            && block * boot.blockSize <= boot.logicalCapacity
            && WriteTx(m, boot, offset, input)[i] == (block, NewBlock(m, boot, offset, input, block))
  {
    hide BlockOf, Touched, NewBlock;
    TouchedInside(boot, offset, |input|, i);
  }
}
