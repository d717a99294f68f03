/** The encrypted volume: creating, opening, reading and transactional writing over a file. */
module EncryptedVolume {
  import opened Bytes
  import opened Cipher
  import opened Storage
  import opened VolumeFormat
  import opened VolumeCodec
  import opened VolumeLog
  import opened VolumeProtocol
  import opened VolumeRecovery
  import opened VolumeScan
  import opened VolumeRuns

  /** What is kept while a volume is open: the active superblock is on file and accounts exactly for the records. */
  ghost predicate Consistent(c: Ctx, file: seq<byte>, m: Mem, recs: seq<Rec>)
    requires c.Valid()
  {
    && m.active < 2
    && HasBoot(c, file)
    && Holds(c, file, m.active, m.state)
    && Describes(c, file, m.state, recs)
    && m.index == IndexOf(recs)
  }

  // ----- what the operations do to a consistent volume

  lemma {:induction false} TailKeepsCache(d: Disk, ops: seq<Op>, end: nat)
    requires TailOps(ops, end) && end <= |d.cached|
    ensures end <= |Run(d, ops).cached| && Run(d, ops).cached[..end] == d.cached[..end]
  {
    hide Overlay, Resize;
    if ops != [] {
      var n := |ops| - 1;
      TailPrefix(ops, n, end);
      TailKeepsCache(d, ops[..n], end);
      assert TailOp(ops[n], end);
    }
  }

  /** Operations past the committed end leave a volume consistent. */
  lemma TailConsistent(c: Ctx, d: Disk, ops: seq<Op>, m: Mem, recs: seq<Rec>)
    requires c.Valid() && Consistent(c, d.cached, m, recs) && TailOps(ops, m.state.committedEnd)
    ensures Consistent(c, Run(d, ops).cached, m, recs)
  {
    hide Describes, ReadSlot, IndexOf, Step, Bootstrap.Decode, TailOps;
    var end := m.state.committedEnd;
    DescribesInside(c, d.cached, m.state, recs);
    TailKeepsCache(d, ops, end);
    PrefixIsSame(d.cached, Run(d, ops).cached, end);
    SameSlotReads(c, d.cached, Run(d, ops).cached, m.active);
    DescribesFrame(c, d.cached, Run(d, ops).cached, m.state, recs, end);
  }

  /** Publishing a superblock that accounts for the cached records makes it the active one. */
  lemma PublishConsistent(c: Ctx, d: Disk, m: Mem, recs: seq<Rec>, m': Mem, recs': seq<Rec>)
    requires c.Valid() && Consistent(c, d.cached, m, recs)
    requires m'.active == 1 - m.active && m'.index == IndexOf(recs') && Describes(c, d.cached, m'.state, recs')
    ensures Consistent(c, Run(d, SlotOps(c, m'.active, m'.state)).cached, m', recs')
  {
    hide Describes, ReadSlot, IndexOf, Overlay, EncodeSlot, Bootstrap.Decode;
    var ops := SlotOps(c, m'.active, m'.state);
    RunTwo(d, ops[0], ops[1]);
    DescribesInside(c, d.cached, m'.state, recs');
    var file' := SlotWrite(c, d.cached, m'.active, m'.state);
    DescribesFrame(c, d.cached, file', m'.state, recs', |d.cached|);
  }

  lemma CommitConsistent(c: Ctx, d: Disk, m: Mem, recs: seq<Rec>, tx: Tx)
    requires c.Valid() && Consistent(c, d.cached, m, recs) && Accepts(c, m, tx)
    ensures Consistent(c, Run(d, CommitOps(c, m, tx)).cached, CommitMem(m, tx), recs + NewRecs(m.index, tx))
  {
    hide IsLog, HasBoot, ReadSlot, LogEnd, IndexOf, NewRecs, ValidTx, AppendOps, SlotOps;
    var more := NewRecs(m.index, tx);
    var end := m.state.committedEnd;
    NewRecsFit(c, m, tx);
    ValidIsDistinct(c, tx);
    NewRecsContinue(recs, tx);
    AppendExtendsLog(c, d, recs, more);
    TailEndIsLogEnd(recs, more);
    var ops := AppendOps(c, end, more) + [Sync];
    TailConsistent(c, d, ops, m, recs);
    RunAppend(d, ops, SlotOps(c, 1 - m.active, CommitState(m, tx)));
    LogInside(c, Run(d, AppendOps(c, end, more)).cached, recs + more);
    PublishConsistent(c, Run(d, ops), m, recs, CommitMem(m, tx), recs + more);
  }

  lemma MarkConsistent(c: Ctx, d: Disk, m: Mem, recs: seq<Rec>, clean: bool)
    requires c.Valid() && Consistent(c, d.cached, m, recs)
    ensures Consistent(c, Run(d, MarkOps(c, m, clean)).cached, MarkMem(m, clean), recs)
  {
    hide IsLog, HasBoot, ReadSlot, LogEnd, IndexOf, SlotOps;
    if m.state.clean != clean {
      PublishConsistent(c, d, m, recs, MarkMem(m, clean), recs);
    }
  }

  /** Cutting the uncommitted tail, wholly or in part, changes nothing `open` depends on. */
  lemma TruncationHarmless(c: Ctx, file: seq<byte>, p: Picked, len: nat)
    requires c.Valid() && Picks(c, file, p) && p.st.committedEnd <= len <= |file|
    ensures Picks(c, file[..len], p)
  {
    hide Describes, ReadSlot, Bootstrap.Decode;
    var file' := file[..len];
    DescribesInside(c, file, p.st, p.recs);
    PrefixIsSame(file, file', len);
    SameSlotReads(c, file, file', 0);
    SameSlotReads(c, file, file', 1);
    DescribesFrame(c, file, file', p.st, p.recs, len);
    forall q: Picked | Usable(c, file', q) && q.slot != p.slot
      ensures Before(p, q)
    {
      DescribesInside(c, file', q.st, q.recs);
      DescribesFrame(c, file', file, q.st, q.recs, len);
      assert Usable(c, file, q);
    }
  }

  // ----- choosing a superblock

  /** The list has exactly the readable superblocks, each once. */
  ghost predicate AllCandidates(c: Ctx, file: seq<byte>, candidates: seq<(nat, SuperState)>)
    requires c.Valid()
  {
    && |candidates| <= 2
    && (forall k :: 0 <= k < |candidates| ==> candidates[k].0 < 2 && Holds(c, file, candidates[k].0, candidates[k].1))
    && (forall slot, st :: 0 <= slot < 2 && Holds(c, file, slot, st) ==> (slot, st) in candidates)
    && (|candidates| == 2 ==> candidates[0].0 != candidates[1].0)
  }

  ghost predicate NoLog(c: Ctx, file: seq<byte>, st: SuperState)
    requires c.Valid()
  {
    forall recs: seq<Rec> :: !Describes(c, file, st, recs)
  }

  lemma NoBoot(file: seq<byte>)
    requires |file| < BOOTSTRAP_SIZE || Bootstrap.Decode(file[..BOOTSTRAP_SIZE]).Err?
    ensures forall c: Ctx, p: Picked :: c.Valid() ==> !Picks(c, file, p)
  {
    hide Usable, Bootstrap.Decode, Bootstrap.Valid;
  }

  /** The bootstrap bytes and the key material leave one context under which the file can be opened. */
  lemma BootDecides(c: Ctx, suite: Suite, master: seq<byte>, file: seq<byte>)
    requires c.Valid() && HasBoot(c, file) && c == DeriveKeys(suite, master, c.boot)
    ensures forall c': Ctx, p: Picked :: c'.Valid() && c' == DeriveKeys(suite, master, c'.boot) && Picks(c', file, p) ==> c' == c
  {
    hide Usable, Bootstrap.Decode, Bootstrap.Valid;
  }

  lemma SlotStart(c: Ctx, file: seq<byte>, slot: nat, st: SuperState)
    requires c.Valid() && slot < 2 && Holds(c, file, slot, st)
    ensures st.committedEnd >= LOG_START
  {
    hide DeriveNonce, SuperAad, Bootstrap.Valid;
  }

  lemma EndsEarly(c: Ctx, file: seq<byte>, st: SuperState)
    requires c.Valid() && st.committedEnd > |file|
    ensures NoLog(c, file, st)
  {
    hide LogEnd, RecAt, Increasing;
  }

  ghost predicate Newer(a: (nat, SuperState), b: (nat, SuperState)) {
    a.1.generation > b.1.generation || (a.1.generation == b.1.generation && a.0 < b.0)
  }

  lemma PickCandidate(c: Ctx, file: seq<byte>, candidates: seq<(nat, SuperState)>, i: nat, recs: seq<Rec>)
    requires c.Valid() && HasBoot(c, file) && AllCandidates(c, file, candidates) && i < |candidates|
    requires |candidates| == 2 ==> Newer(candidates[0], candidates[1])
    requires forall k :: 0 <= k < i ==> NoLog(c, file, candidates[k].1)
    requires Describes(c, file, candidates[i].1, recs)
    ensures Picks(c, file, Picked(candidates[i].0, candidates[i].1, recs))
  {
    hide ReadSlot, Describes, HasBoot;
    var p := Picked(candidates[i].0, candidates[i].1, recs);
    forall q: Picked | Usable(c, file, q) && q.slot != p.slot
      ensures Before(p, q)
    {
      assert (q.slot, q.st) in candidates;
    }
  }

  lemma NothingUsable(c: Ctx, file: seq<byte>, candidates: seq<(nat, SuperState)>)
    requires c.Valid() && AllCandidates(c, file, candidates)
    requires forall k :: 0 <= k < |candidates| ==> NoLog(c, file, candidates[k].1)
    ensures forall p: Picked :: !Picks(c, file, p)
  {
    hide ReadSlot, Describes, HasBoot;
    assert forall slot, st :: 0 <= slot < 2 && Holds(c, file, slot, st) ==> NoLog(c, file, st);
  }

  /** Opening leaves a consistent volume that ends at its committed end. */
  lemma OpenedConsistent(c: Ctx, d: Disk, p: Picked)
    requires c.Valid() && Picks(c, d.cached, p)
    ensures var d' := Run(d, OpenOps(d.cached, p));
            Consistent(c, d'.cached, Mem(p.st, p.slot, IndexOf(p.recs)), p.recs) && |d'.cached| == p.st.committedEnd
  {
    hide Describes, ReadSlot, IndexOf, Bootstrap.Decode;
    DescribesInside(c, d.cached, p.st, p.recs);
    if |d.cached| > p.st.committedEnd {
      RunTwo(d, SetLen(p.st.committedEnd), Sync);
      TruncationHarmless(c, d.cached, p, p.st.committedEnd);
    }
  }

  /** Opening again, straight after opening any file at all, finds the same superblock and the same records. */
  lemma OpenAgain(c: Ctx, d: Disk, p: Picked, q: Picked)
    requires c.Valid() && Picks(c, d.cached, p)
    requires Picks(c, Run(d, OpenOps(d.cached, p)).cached, q)
    ensures q == p
  {
    hide Picks, Describes, Run;
    DescribesOfPicks(c, d.cached, p);
    if |d.cached| > p.st.committedEnd {
      RunTwo(d, SetLen(p.st.committedEnd), Sync);
      TruncationHarmless(c, d.cached, p, p.st.committedEnd);
    } else {
      RunNone(d);
    }
    PicksUnique(c, Run(d, OpenOps(d.cached, p)).cached, p, q);
  }

  lemma DescribesOfPicks(c: Ctx, file: seq<byte>, p: Picked)
    requires c.Valid() && Picks(c, file, p)
    ensures LOG_START <= p.st.committedEnd <= |file|
  {
    hide Describes, ReadSlot;
    DescribesInside(c, file, p.st, p.recs);
  }

  lemma RunNone(d: Disk)
    ensures Run(d, []) == d
  {
  }

  class Volume {
    const c: Ctx
    const file: File
    var state: SuperState
    var active: nat
    var index: map<u64, RecordIndex>
    /** The records in the log. */
    ghost var recs: seq<Rec>

    ghost predicate Valid()
      reads this, file
    {
      c.Valid() && Consistent(c, file.disk.cached, Memory(), recs)
    }

    function Memory(): Mem
      reads this
    {
      Mem(state, active, index)
    }

    ghost function Snapshot(): Sys
      reads this, file
    {
      Sys(file.disk, Some(Memory()))
    }

    /** What the volume stores: the last payload written to each allocated block. */
    ghost function Blocks(): map<u64, seq<byte>>
      reads this
    {
      DataOf(recs)
    }

    constructor Assemble(c: Ctx, file: File, state: SuperState, active: nat, index: map<u64, RecordIndex>, ghost recs: seq<Rec>)
      requires c.Valid() && Consistent(c, file.disk.cached, Mem(state, active, index), recs)
      ensures Valid() && this.c == c && this.file == file && this.recs == recs
      ensures Memory() == Mem(state, active, index)
    {
      this.c := c;
      this.file := file;
      this.state := state;
      this.active := active;
      this.index := index;
      this.recs := recs;
    }

    /** A new empty volume in an empty file; `volumeId` and `salt` come from the random generator. */
    static method Create(file: File, suite: Suite, master: seq<byte>, capacity: u64, blockSize: u32,
                         volumeId: seq<byte>, salt: seq<byte>)
      returns (r: Result<Volume, VolumeError>)
      requires file.disk == Settled([]) && |volumeId| == 32 && |salt| == 32
      modifies file
      ensures r.Err? <==> ValidateOptions(capacity, blockSize).Err?
      ensures r.Err? ==> file.disk == old(file.disk)
      ensures r.Ok? ==> fresh(r.value) && r.value.Valid() && r.value.file == file && r.value.Blocks() == map[]
      ensures r.Ok? ==> r.value.c == DeriveKeys(suite, master, Bootstrap(capacity, blockSize, volumeId, salt))
      ensures r.Ok? ==> Init(r.value.c, Sys(file.disk, Some(r.value.Memory())))
      ensures r.Ok? ==> file.trace == old(file.trace) + CreateOps(r.value.c)
    {
      hide Describes, ReadSlot, HasBoot, Overlay, Resize, EncodeSlot, Bootstrap.Encode, Cipher.Lawful;
      var valid := ValidateOptions(capacity, blockSize);
      if valid.Err? {
        return Err(valid.error);
      }
      var boot := Bootstrap(capacity, blockSize, volumeId, salt);
      var c := DeriveKeys(suite, master, boot);
      var header := EncodeBootstrap(boot);
      file.WriteAll(0, header[..]);
      file.Truncate(LOG_START);
      WriteSuperblock(c, file, 0, FIRST_STATE);
      WriteSuperblock(c, file, 1, BACKUP_STATE);
      file.Flush();
      FiveSteps(Settled([]), CreateOps(c));
      CreatedGood(c);
      GoodCached(c, file.disk, 0, FIRST_STATE, []);
      var volume := new Volume.Assemble(c, file, FIRST_STATE, 0, map[], []);
      return Ok(volume);
    }

    /**
     Recovers the volume in any file. It succeeds exactly when some readable superblock has an exactly matching
     log, takes the newest such one, and cuts everything after its committed end.
     */
    static method Open(file: File, suite: Suite, master: seq<byte>) returns (r: Result<Volume, VolumeError>)
      modifies file
      ensures r.Ok? ==> fresh(r.value) && r.value.Valid() && r.value.file == file
                        && r.value.c == DeriveKeys(suite, master, r.value.c.boot)
      ensures r.Ok? ==> var p := Picked(r.value.active, r.value.state, r.value.recs);
                        var ops := OpenOps(old(file.disk.cached), p);
                        && Picks(r.value.c, old(file.disk.cached), p)
                        && file.disk == Run(old(file.disk), ops) && file.trace == old(file.trace) + ops
                        && |file.disk.cached| == p.st.committedEnd
                        && Next(r.value.c, Sys(old(file.disk), None), Done(Opening(p)), r.value.Snapshot())
      ensures r.Err? ==> file.disk == old(file.disk) && file.trace == old(file.trace)
      ensures r.Err? ==> forall c: Ctx, p: Picked :: c.Valid() && c == DeriveKeys(suite, master, c.boot) ==>
                           !Picks(c, file.disk.cached, p)
    {
      hide Picks, ReadSlot, Describes, IndexOf, LogEnd, Bootstrap.Decode, Bootstrap.Valid, Run, Next, Consistent,
           OpenOps, Usable, Cipher.Lawful;
      ghost var bytes, d0 := file.disk.cached, file.disk;
      var header := file.ReadExact(0, BOOTSTRAP_SIZE);
      if header.None? {
        NoBoot(bytes);
        return Err(Io);
      }
      var decoded := Bootstrap.Decode(header.value);
      if decoded.Err? {
        NoBoot(bytes);
        return Err(decoded.error);
      }
      BootstrapCanonical(header.value);
      var c := DeriveKeys(suite, master, decoded.value);
      BootDecides(c, suite, master, bytes);
      var candidates := ReadCandidates(c, file);
      if candidates == [] {
        NothingUsable(c, bytes, candidates);
        return Err(AuthenticationFailed);
      }
      // A stable sort, newest generation first.
      if |candidates| == 2 && candidates[0].1.generation < candidates[1].1.generation {
        candidates := [candidates[1], candidates[0]];
      }
      var fileLen := |file.disk.cached|;
      var i := 0;
      while i < |candidates|
        invariant 0 <= i <= |candidates|
        invariant file.disk == d0 && file.trace == old(file.trace)
        invariant forall k :: 0 <= k < i ==> NoLog(c, bytes, candidates[k].1)
      {
        var (slot, st) := candidates[i];
        if st.committedEnd <= fileLen {
          SlotStart(c, bytes, slot, st);
          var scanned, recs := ScanLog(c, file, st);
          if scanned.Ok? {
            PickCandidate(c, bytes, candidates, i, recs);
            var volume := Restore(c, file, slot, st, scanned.value, recs);
            return Ok(volume);
          }
        } else {
          EndsEarly(c, bytes, st);
        }
        i := i + 1;
      }
      NothingUsable(c, bytes, candidates);
      return Err(Corrupt("no authenticated superblock has a valid committed log"));
    }

    /** Cuts the uncommitted tail and assembles the volume. */
    static method Restore(c: Ctx, file: File, slot: nat, st: SuperState, index: map<u64, RecordIndex>, ghost recs: seq<Rec>)
      returns (volume: Volume)
      requires c.Valid() && Picks(c, file.disk.cached, Picked(slot, st, recs)) && index == IndexOf(recs)
      modifies file
      ensures fresh(volume) && volume.Valid() && volume.file == file && volume.c == c
      ensures Picked(volume.active, volume.state, volume.recs) == Picked(slot, st, recs)
      ensures var ops := OpenOps(old(file.disk.cached), Picked(slot, st, recs));
              file.disk == Run(old(file.disk), ops) && file.trace == old(file.trace) + ops
      ensures |file.disk.cached| == st.committedEnd
      ensures Next(c, Sys(old(file.disk), None), Done(Opening(Picked(slot, st, recs))), volume.Snapshot())
    {
      hide Picks, IndexOf, Consistent, Step;
      ghost var d0, t0 := file.disk, file.trace;
      OpenedConsistent(c, d0, Picked(slot, st, recs));
      if |file.disk.cached| > st.committedEnd {
        RunTwo(d0, SetLen(st.committedEnd), Sync);
        assert t0 + [SetLen(st.committedEnd)] + [Sync] == t0 + [SetLen(st.committedEnd), Sync];
        file.Truncate(st.committedEnd);
        file.Flush();
      }
      volume := new Volume.Assemble(c, file, st, slot, index, recs);
    }

    /** The readable superblocks, in slot order. */
    static method ReadCandidates(c: Ctx, file: File) returns (candidates: seq<(nat, SuperState)>)
      requires c.Valid()
      ensures AllCandidates(c, file.disk.cached, candidates)
      ensures |candidates| == 2 ==> candidates[0].0 < candidates[1].0
    {
      hide ReadSlot;
      candidates := [];
      var first := ReadSuperblock(c, file, 0);
      if first.Ok? && first.value.Some? {
        candidates := candidates + [(0, first.value.value)];
      }
      var second := ReadSuperblock(c, file, 1);
      if second.Ok? && second.value.Some? {
        candidates := candidates + [(1, second.value.value)];
      }
    }

    /** The stored payload of a block, `None` if it was never written; reading never finds corruption. */
    method ReadBlock(block: u64) returns (r: Result<Option<seq<byte>>, VolumeError>)
      requires Valid()
      ensures r == if block >= c.boot.BlockCount() then Err(BlockOutOfRange)
                   else if block in Blocks() then Ok(Some(Blocks()[block]))
                   else Ok(None)
    {
      hide IsLog, HasBoot, ReadSlot, LogEnd, IndexOf, DataOf, ReadRecord;
      if block >= c.boot.BlockCount() {
        return Err(BlockOutOfRange);
      }
      ghost var last := IndexHoldsLast(recs, block);
      if block !in index {
        return Ok(None);
      }
      IndexReads(c, file.disk.cached, recs, block);
      var entry := index[block];
      var read := ReadRecordAt(c, file, entry.offset);
      if read.Err? {
        assert false;
      }
      var (header, data) := read.value;
      if header.blockIndex != block || header.generation != entry.generation
         || header.plaintextLen != entry.plaintextLen || header.ciphertextLen != entry.ciphertextLen {
        assert false;
      }
      return Ok(Some(data));
    }

    /** Number of times a block has been written, if ever. */
    method BlockGeneration(block: u64) returns (r: Result<Option<nat>, VolumeError>)
      requires Valid()
      ensures r == if block >= c.boot.BlockCount() then Err(BlockOutOfRange)
                   else if block in Blocks() then Ok(Some(LastGeneration(recs, block)))
                   else Ok(None)
    {
      hide IsLog, HasBoot, ReadSlot, LogEnd, IndexOf, DataOf;
      ghost var last := IndexHoldsLast(recs, block);
      if block >= c.boot.BlockCount() {
        return Err(BlockOutOfRange);
      }
      if block in index {
        return Ok(Some(index[block].generation));
      }
      return Ok(None);
    }

    /** First reason to refuse a transaction before anything is written. */
    method ValidateBlocks(blocks: Tx) returns (e: Option<VolumeError>)
      requires c.Valid()
      ensures e == ValidationError(c, blocks, 0)
    {
      hide Bootstrap.Valid, Bootstrap.BlockCount;
      var seen: set<u64> := {};
      var i := 0;
      while i < |blocks|
        invariant 0 <= i <= |blocks|
        invariant forall b :: b in seen <==> exists j :: 0 <= j < i && blocks[j].0 == b
        invariant ValidationError(c, blocks, 0) == ValidationError(c, blocks, i)
      {
        var (block, data) := blocks[i];
        if block >= c.boot.BlockCount() {
          return Some(BlockOutOfRange);
        }
        if block in seen {
          return Some(InvalidInput("duplicate block in one transaction"));
        }
        seen := seen + {block};
        if |data| > c.boot.blockSize {
          return Some(InvalidInput("block payload exceeds the block size"));
        }
        i := i + 1;
      }
      return None;
    }

    /** Seals one record and writes its header and body at `offset`. */
    method WriteRecord(offset: nat, header: RecordHeader, data: seq<byte>)
      requires c.Valid()
      modifies file
      ensures var head := Write(offset, header.Encode());
              var body := Write(offset + RECORD_HEADER_SIZE, SealRecord(c, header, data));
              file.disk == Step(Step(old(file.disk), head), body) && file.trace == old(file.trace) + [head] + [body]
    {
      hide Step, RecordHeader.Encode, Bootstrap.Valid;
      var headerBytes := EncodeRecordHeader(header);
      var nonce := DeriveNonce(c, Ascii("data"), header.blockIndex, header.generation);
      var sealed := c.suite.seal(c.key, nonce, RecordAad(c, headerBytes[..]), data);
      file.WriteAll(offset, headerBytes[..]);
      file.WriteAll(offset + RECORD_HEADER_SIZE, sealed);
    }

    /** Appends one record per block after the committed end, without publishing them. */
    method AppendBlocks(blocks: Tx)
      returns (e: Option<VolumeError>, records: seq<(u64, RecordIndex)>, nextOffset: nat)
      requires c.Valid() && ValidTx(c, blocks)
      modifies file
      ensures e == AppendError(state.committedEnd, NewRecs(index, blocks), 0)
      ensures e.None? ==>
                var new_ := NewRecs(index, blocks);
                && (forall i :: 0 <= i < |new_| ==> RecFits(c, new_[i]))
                && file.disk == Run(old(file.disk), AppendOps(c, state.committedEnd, new_))
                && file.trace == old(file.trace) + AppendOps(c, state.committedEnd, new_)
                && nextOffset == TailEnd(state.committedEnd, new_) < U64_LIMIT
                && records == Entries(state.committedEnd, new_)
      ensures e.Some? ==> OnlyTailSince(old(file.disk), old(file.trace), file.disk, file.trace, state.committedEnd)
    {
      hide ValidTx, RecFits, Bootstrap.Valid, SealRecord, RecordHeader.Encode, Step, AppendOps, Run, Entries, TailEnd,
           NewRecs;
      ghost var new_, end, d0, t0 := NewRecs(index, blocks), state.committedEnd, file.disk, file.trace;
      ghost var done: seq<Rec> := [];
      NewRecsFit(c, Memory(), blocks);
      AppendNone(c, d0, t0, end);
      nextOffset := state.committedEnd;
      records := [];
      var i := 0;
      while i < |blocks|
        invariant 0 <= i <= |blocks| && done == new_[..i]
        invariant forall k :: 0 <= k < |done| ==> RecFits(c, done[k])
        invariant file.disk == Run(d0, AppendOps(c, end, done))
        invariant file.trace == t0 + AppendOps(c, end, done)
        invariant nextOffset == TailEnd(end, done) < U64_LIMIT
        invariant records == Entries(end, done)
        invariant AppendError(end, new_, 0) == AppendError(end, new_, i)
      {
        var (block, data) := blocks[i];
        NewRecIs(index, blocks, i);
        var generation := 1;
        if block in index {
          generation := index[block].generation + 1;
        }
        if generation >= U64_LIMIT {
          AppendIsTail(c, d0, t0, end, done);
          return Some(InvalidInput("block generation exhausted")), records, nextOffset;
        }
        ghost var r := new_[i];
        FitsHeader(c, r);
        var header := RecordHeader(block, generation, |data|, |data| + TAG_SIZE);
        AppendOneMore(c, d0, t0, end, done, r);
        assert new_[..i + 1] == done + [r];
        WriteRecord(nextOffset, header, data);
        records := records + [(block, RecordIndex(nextOffset, generation, |data|, |data| + TAG_SIZE))];
        nextOffset := nextOffset + RECORD_HEADER_SIZE + header.ciphertextLen;
        i := i + 1;
        done := done + [r];
        if nextOffset >= U64_LIMIT {
          AppendIsTail(c, d0, t0, end, done);
          return Some(InvalidInput("volume offset overflow")), records, nextOffset;
        }
      }
      assert done == new_;
      return None, records, nextOffset;
    }

    /**
     Commits all blocks with one superblock write, or refuses and leaves the committed state alone. The result
     lists the new generation of each block.
     */
    method WriteBlocks(blocks: Tx) returns (r: Result<seq<nat>, VolumeError>)
      requires Valid()
      modifies this, file
      ensures Valid()
      ensures r == WriteResult(c, old(Memory()), blocks)
      ensures r.Err? || blocks == [] ==> Memory() == old(Memory()) && recs == old(recs)
      ensures r.Err? || blocks == [] ==>
                OnlyTailSince(old(file.disk), old(file.trace), file.disk, file.trace, state.committedEnd)
      ensures r.Ok? && blocks != [] ==>
                && Accepts(c, old(Memory()), blocks)
                && Memory() == CommitMem(old(Memory()), blocks)
                && recs == old(recs) + NewRecs(old(index), blocks)
                && Blocks() == ApplyTx(old(Blocks()), blocks)
                && file.disk == Run(old(file.disk), CommitOps(c, old(Memory()), blocks))
                && file.trace == old(file.trace) + CommitOps(c, old(Memory()), blocks)
      ensures r.Ok? && blocks != [] ==> Next(c, old(Snapshot()), Done(Writing(blocks)), Snapshot())
      ensures r.Err? ==>
                Next(c, old(Snapshot()), Done(Refusing(blocks, file.trace[|old(file.trace)|..])), Snapshot())
    {
      hide Consistent, NewRecs, ValidationError, AppendError, AppendOps, SlotOps, CommitOps, CommitMem, Run, Step,
           RecFits,
           ValidTx, Accepts, DataOf, ApplyTx, TailEnd, Entries, IndexWith, OnlyTailSince, Bootstrap.Valid;
      ghost var m, d0, t0 := Memory(), file.disk, file.trace;
      MemoryActive();
      NothingSince(d0, t0, state.committedEnd);
      if blocks == [] {
        EmptyWrite(c, m);
        return Ok([]);
      }
      WriteErrorMeaning(c, m, blocks);
      var invalid := ValidateBlocks(blocks);
      if invalid.Some? {
        RefusedStep(c, m, d0, t0, file.disk, file.trace, blocks);
        return Err(invalid.value);
      }
      ValidationAccepts(c, blocks);
      var failed, records, nextOffset := AppendBlocks(blocks);
      if failed.Some? {
        TailKeepsVolume(d0, t0);
        RefusedStep(c, m, d0, t0, file.disk, file.trace, blocks);
        return Err(failed.value);
      }
      ghost var new_ := NewRecs(m.index, blocks);
      file.Flush();
      FlushedTail(c, d0, t0, m.state.committedEnd, new_);
      if state.generation == U64_MAX {
        TailKeepsVolume(d0, t0);
        RefusedStep(c, m, d0, t0, file.disk, file.trace, blocks);
        return Err(InvalidInput("superblock generation exhausted"));
      }
      if state.recordCount + |records| >= U64_LIMIT {
        TailKeepsVolume(d0, t0);
        RefusedStep(c, m, d0, t0, file.disk, file.trace, blocks);
        return Err(InvalidInput("record count exhausted"));
      }
      var next := SuperState(state.generation + 1, nextOffset, state.recordCount + |records|, false);
      CommitAssembled(c, d0, t0, m, recs, blocks, next);
      var generations := Publish(next, records, new_);
      GenerationsOf(m.index, blocks, generations);
      return Ok(generations);
    }

    /** Writes the new superblock over the older one, moves to the new state, and syncs. */
    method Publish(next: SuperState, records: seq<(u64, RecordIndex)>, ghost new_: seq<Rec>) returns (generations: seq<nat>)
      requires c.Valid() && active < 2 && records == Entries(state.committedEnd, new_)
      modifies this, file
      ensures Memory() == Mem(next, 1 - old(active), IndexWith(old(index), old(state.committedEnd), new_))
      ensures recs == old(recs) + new_
      ensures file.disk == Run(old(file.disk), SlotOps(c, 1 - old(active), next))
      ensures file.trace == old(file.trace) + SlotOps(c, 1 - old(active), next)
      ensures generations == seq(|new_|, k requires 0 <= k < |new_| => new_[k].generation)
    {
      hide EncodeSlot, Step, Entries;
      ghost var index0, end, d0, t0 := index, state.committedEnd, file.disk, file.trace;
      var slot := 1 - active;
      ghost var ops := SlotOps(c, slot, next);
      RunTwo(file.disk, ops[0], ops[1]);
      assert t0 + [ops[0]] + [ops[1]] == t0 + ops;
      WriteSuperblock(c, file, slot, next);
      generations := [];
      var i := 0;
      while i < |records|
        invariant 0 <= i <= |records|
        invariant index == IndexWith(index0, end, new_[..i])
        invariant generations == seq(i, k requires 0 <= k < i => new_[k].generation)
        invariant recs == old(recs)
        invariant file.disk == Step(d0, ops[0]) && file.trace == t0 + [ops[0]]
      {
        EntryIs(end, new_, i);
        generations := generations + [records[i].1.generation];
        index := index[records[i].0 := records[i].1];
        i := i + 1;
      }
      assert new_[..i] == new_;
      state := next;
      active := slot;
      file.Flush();
      recs := recs + new_;
    }

    /** Refusing after some appends leaves the open volume as it was. */
    lemma TailKeepsVolume(d0: Disk, t0: seq<Op>)
      requires c.Valid() && Consistent(c, d0.cached, Memory(), recs)
      requires OnlyTailSince(d0, t0, file.disk, file.trace, state.committedEnd)
      ensures Valid()
    {
      hide Consistent;
      TailConsistent(c, d0, file.trace[|t0|..], Memory(), recs);
    }

    method MarkClean()
      requires Valid()
      modifies this, file
      ensures Valid() && recs == old(recs)
      ensures Memory() == MarkMem(old(Memory()), true)
      ensures file.disk == Run(old(file.disk), MarkOps(c, old(Memory()), true))
      ensures file.trace == old(file.trace) + MarkOps(c, old(Memory()), true)
      ensures old(state.generation) < U64_MAX ==> Next(c, old(Snapshot()), Done(Marking(true)), Snapshot())
    {
      SetCleanState(true);
    }

    method MarkDirty()
      requires Valid()
      modifies this, file
      ensures Valid() && recs == old(recs)
      ensures Memory() == MarkMem(old(Memory()), false)
      ensures file.disk == Run(old(file.disk), MarkOps(c, old(Memory()), false))
      ensures file.trace == old(file.trace) + MarkOps(c, old(Memory()), false)
      ensures old(state.generation) < U64_MAX ==> Next(c, old(Snapshot()), Done(Marking(false)), Snapshot())
    {
      SetCleanState(false);
    }

    method SetCleanState(clean: bool)
      requires Valid()
      modifies this, file
      ensures Valid() && recs == old(recs)
      ensures Memory() == MarkMem(old(Memory()), clean)
      ensures file.disk == Run(old(file.disk), MarkOps(c, old(Memory()), clean))
      ensures file.trace == old(file.trace) + MarkOps(c, old(Memory()), clean)
      ensures old(state.generation) < U64_MAX ==> Next(c, old(Snapshot()), Done(Marking(clean)), Snapshot())
    {
      hide Consistent, EncodeSlot, Overlay;
      ghost var m := Memory();
      MemoryActive();
      if state.clean == clean {
        return;
      }
      MarkConsistent(c, file.disk, m, recs, clean);
      // The generation saturates, so the exhaustion test that follows this in the program never fires.
      var next := state.(generation := Min(state.generation + 1, U64_MAX), clean := clean);
      assert next.generation != 0;
      var slot := 1 - active;
      ghost var ops := SlotOps(c, slot, next);
      RunTwo(file.disk, ops[0], ops[1]);
      WriteSuperblock(c, file, slot, next);
      file.Flush();
      state := next;
      active := slot;
    }

    lemma MemoryActive()
      requires Valid()
      ensures active < 2
    {
    }

    method Flush()
      requires Valid()
      modifies file
      ensures Valid() && file.disk == Run(old(file.disk), [Sync]) && file.trace == old(file.trace) + [Sync]
      ensures Memory() == old(Memory()) && recs == old(recs)
      ensures Next(c, old(Snapshot()), Done(Flushing), Snapshot())
    {
      hide Consistent;
      ghost var d := file.disk;
      file.Flush();
      RunOne(d, Sync);
    }
  }

  /** Everything issued on the file between two moments lies past `end`. */
  ghost predicate OnlyTailSince(d0: Disk, t0: seq<Op>, d: Disk, t: seq<Op>, end: nat) {
    t0 <= t && d == Run(d0, t[|t0|..]) && TailOps(t[|t0|..], end)
  }

  lemma RefusedStep(c: Ctx, m: Mem, d0: Disk, t0: seq<Op>, d: Disk, t: seq<Op>, tx: Tx)
    requires c.Valid() && WriteError(c, m, tx).Some? && OnlyTailSince(d0, t0, d, t, m.state.committedEnd)
    ensures t0 <= t && Next(c, Sys(d0, Some(m)), Done(Refusing(tx, t[|t0|..])), Sys(d, Some(m)))
  {
    hide WriteError, Run, TailOps;
  }

  lemma NothingSince(d: Disk, t: seq<Op>, end: nat)
    ensures OnlyTailSince(d, t, d, t, end)
  {
    assert t[|t|..] == [];
  }

  lemma AppendIsTail(c: Ctx, d0: Disk, t0: seq<Op>, end: nat, new_: seq<Rec>)
    requires c.Valid() && forall i :: 0 <= i < |new_| ==> RecFits(c, new_[i])
    ensures var ops := AppendOps(c, end, new_); OnlyTailSince(d0, t0, Run(d0, ops), t0 + ops, end)
  {
    hide RecFits, Run;
    var ops := AppendOps(c, end, new_);
    assert (t0 + ops)[|t0|..] == ops;
  }

  lemma FlushedTail(c: Ctx, d0: Disk, t0: seq<Op>, end: nat, new_: seq<Rec>)
    requires c.Valid() && forall i :: 0 <= i < |new_| ==> RecFits(c, new_[i])
    ensures var ops := AppendOps(c, end, new_);
            && Run(d0, ops + [Sync]) == Step(Run(d0, ops), Sync)
            && OnlyTailSince(d0, t0, Run(d0, ops + [Sync]), t0 + ops + [Sync], end)
  {
    hide RecFits, Step, AppendOps;
    var ops := AppendOps(c, end, new_);
    assert (ops + [Sync])[..|ops|] == ops;
    assert (t0 + ops + [Sync])[|t0|..] == ops + [Sync];
  }

  /** The index entries of appended records, in order. */
  function Entries(from: nat, new_: seq<Rec>): (entries: seq<(u64, RecordIndex)>)
    ensures |entries| == |new_|
  {
    if new_ == [] then []
    else
      var n := |new_| - 1;
      Entries(from, new_[..n])
      + [(new_[n].block, RecordIndex(TailEnd(from, new_[..n]), new_[n].generation, |new_[n].data|, |new_[n].data| + TAG_SIZE))]
  }

  lemma {:induction false} EntryIs(from: nat, new_: seq<Rec>, i: nat)
    requires i < |new_|
    ensures |Entries(from, new_)| == |new_|
    ensures Entries(from, new_)[i] == (new_[i].block, RecordIndex(TailEnd(from, new_[..i]), new_[i].generation, |new_[i].data|, |new_[i].data| + TAG_SIZE))
    ensures forall index :: IndexWith(index, from, new_[..i + 1]) == IndexWith(index, from, new_[..i])[Entries(from, new_)[i].0 := Entries(from, new_)[i].1]
  {
    hide TailEnd;
    var n := |new_| - 1;
    assert new_[..i + 1][..i] == new_[..i];
    if i < n {
      EntryIs(from, new_[..n], i);
      assert new_[..n][..i] == new_[..i] && new_[..n][..i + 1] == new_[..i + 1];
    } else if n > 0 {
      EntryIs(from, new_[..n], n - 1);
    }
  }

  lemma FitsHeader(c: Ctx, r: Rec)
    requires c.Valid() && RecFits(c, r)
    ensures r.generation < U64_LIMIT && |r.data| + TAG_SIZE < U32_LIMIT && |r.data| <= MAX_BLOCK_SIZE
  {
  }

  /** Writing one more record is the next step of appending all of them. */
  lemma AppendOneMore(c: Ctx, d0: Disk, t0: seq<Op>, end: nat, done: seq<Rec>, r: Rec)
    requires c.Valid() && RecFits(c, r) && forall k :: 0 <= k < |done| ==> RecFits(c, done[k])
    ensures forall k :: 0 <= k < |done + [r]| ==> RecFits(c, (done + [r])[k])
    ensures var at, h := TailEnd(end, done), HeaderOf(r);
            var ops := AppendOps(c, end, done);
            var two := [Write(at, h.Encode()), Write(at + RECORD_HEADER_SIZE, SealRecord(c, h, r.data))];
            && Run(d0, AppendOps(c, end, done + [r])) == Step(Step(Run(d0, ops), two[0]), two[1])
            && t0 + AppendOps(c, end, done + [r]) == t0 + ops + [two[0]] + [two[1]]
            && TailEnd(end, done + [r]) == at + RecLen(r)
            && Entries(end, done + [r]) == Entries(end, done)
                 + [(r.block, RecordIndex(at, r.generation, |r.data|, |r.data| + TAG_SIZE))]
  {
    hide SealRecord, RecordHeader.Encode, Step, Bootstrap.Valid, Bootstrap.BlockCount, RecLen, Run;
    var all := done + [r];
    assert all[..|done|] == done;
    var ops := RecordOps(c, TailEnd(end, done), r);
    RunAppend(d0, AppendOps(c, end, done), ops);
    RunTwo(Run(d0, AppendOps(c, end, done)), ops[0], ops[1]);
    assert AppendOps(c, end, all) == AppendOps(c, end, done) + ops;
  }

  lemma AppendNone(c: Ctx, d0: Disk, t0: seq<Op>, end: nat)
    requires c.Valid()
    ensures AppendOps(c, end, []) == [] && Run(d0, []) == d0 && t0 + [] == t0
    ensures TailEnd(end, []) == end && Entries(end, []) == []
  {
  }

  /** The operations of `write_blocks`, put together. */
  lemma CommitAssembled(c: Ctx, d0: Disk, t0: seq<Op>, m: Mem, recs: seq<Rec>, tx: Tx, next: SuperState)
    requires c.Valid() && Consistent(c, d0.cached, m, recs) && Accepts(c, m, tx)
    requires next == CommitState(m, tx)
    ensures var new_ := NewRecs(m.index, tx);
            && (forall i :: 0 <= i < |new_| ==> RecFits(c, new_[i]))
            && var ops := AppendOps(c, m.state.committedEnd, new_);
            && Run(Run(d0, ops + [Sync]), SlotOps(c, 1 - m.active, next)) == Run(d0, CommitOps(c, m, tx))
            && t0 + ops + [Sync] + SlotOps(c, 1 - m.active, next) == t0 + CommitOps(c, m, tx)
            && CommitMem(m, tx) == Mem(next, 1 - m.active, IndexWith(m.index, m.state.committedEnd, new_))
            && Consistent(c, Run(d0, CommitOps(c, m, tx)).cached, CommitMem(m, tx), recs + new_)
            && DataOf(recs + new_) == ApplyTx(DataOf(recs), tx)
  {
    hide Consistent, NewRecs, AppendOps, SlotOps, Run, RecFits, ValidTx, DataOf, ApplyTx, TailEnd, IndexWith,
         CommitState;
    CommitConsistent(c, d0, m, recs, tx);
    AppendedData(recs, m.index, tx);
    NewRecsFit(c, m, tx);
    RunAppend(d0, AppendOps(c, m.state.committedEnd, NewRecs(m.index, tx)) + [Sync], SlotOps(c, 1 - m.active, next));
  }

  lemma EmptyWrite(c: Ctx, m: Mem)
    requires c.Valid()
    ensures WriteResult(c, m, []) == Ok([])
  {
    assert WriteResult(c, m, []).value == [];
  }

  lemma NewRecIs(index: map<u64, RecordIndex>, tx: Tx, i: nat)
    requires i < |tx|
    ensures NewRecs(index, tx)[i] == Rec(tx[i].0, NextGeneration(index, tx[i].0), tx[i].1)
  {
  }

  lemma GenerationsOf(index: map<u64, RecordIndex>, tx: Tx, generations: seq<nat>)
    requires generations == seq(|tx|, k requires 0 <= k < |tx| => NewRecs(index, tx)[k].generation)
    ensures generations == seq(|tx|, i requires 0 <= i < |tx| => NextGeneration(index, tx[i].0))
  {
  }

  function WriteResult(c: Ctx, m: Mem, tx: Tx): Result<seq<nat>, VolumeError>
    requires c.boot.Valid()
  {
    match WriteError(c, m, tx)
    case Some(e) => Err(e)
    case None => Ok(seq(|tx|, i requires 0 <= i < |tx| => NextGeneration(m.index, tx[i].0)))
  }

  lemma RunOne(d: Disk, op: Op)
    ensures Run(d, [op]) == Step(d, op)
  {
    assert [op][..0] == [];
    assert Run(d, [op]) == Step(Run(d, []), op);
  }
}
