/**
 The commit protocol as disk operations: what a transaction and a clean/dirty mark put on the disk, which
 transactions are refused and why, and what each leaves in memory.
 */
module VolumeProtocol {
  import opened Bytes
  import opened Storage
  import opened VolumeFormat
  import opened VolumeCodec
  import opened VolumeLog

  /** The fields of an open volume that its operations change. */
  datatype Mem = Mem(state: SuperState, active: nat, index: map<u64, RecordIndex>)

  type Tx = seq<(u64, seq<byte>)>

  // ----- records of a transaction

  function NextGeneration(index: map<u64, RecordIndex>, block: u64): nat {
    if block in index then index[block].generation + 1 else 1
  }

  function NewRecs(index: map<u64, RecordIndex>, tx: Tx): (recs: seq<Rec>)
    ensures |recs| == |tx|
  {
    seq(|tx|, i requires 0 <= i < |tx| => Rec(tx[i].0, NextGeneration(index, tx[i].0), tx[i].1))
  }

  /** Where a log that ends at `from` ends once `recs` are appended. */
  function TailEnd(from: nat, recs: seq<Rec>): (end: nat)
    ensures end >= from
  {
    if recs == [] then from else TailEnd(from, recs[..|recs| - 1]) + RecLen(recs[|recs| - 1])
  }

  function IndexWith(index: map<u64, RecordIndex>, from: nat, recs: seq<Rec>): map<u64, RecordIndex> {
    if recs == [] then index
    else
      var n := |recs| - 1;
      IndexWith(index, from, recs[..n])
      [recs[n].block := RecordIndex(TailEnd(from, recs[..n]), recs[n].generation, |recs[n].data|, |recs[n].data| + 16)]
  }

  // ----- acceptance

  function EntryError(c: Ctx, tx: Tx, i: nat): Option<VolumeError>
    requires c.boot.Valid() && i < |tx|
  {
    if tx[i].0 >= c.boot.BlockCount() then Some(BlockOutOfRange)
    else if exists j :: 0 <= j < i && tx[j].0 == tx[i].0 then Some(InvalidInput("duplicate block in one transaction"))
    else if |tx[i].1| > c.boot.blockSize then Some(InvalidInput("block payload exceeds the block size"))
    else None
  }

  /** Error of the first unacceptable entry from position `i` on. */
  function ValidationError(c: Ctx, tx: Tx, i: nat): Option<VolumeError>
    requires c.boot.Valid() && i <= |tx|
    decreases |tx| - i
  {
    if i == |tx| then None
    else if EntryError(c, tx, i).Some? then EntryError(c, tx, i)
    else ValidationError(c, tx, i + 1)
  }

  /** A transaction in the documented sense: distinct blocks, inside the capacity, none larger than a block. */
  ghost predicate ValidTx(c: Ctx, tx: Tx)
    requires c.boot.Valid()
  {
    && (forall i :: 0 <= i < |tx| ==> tx[i].0 < c.boot.BlockCount() && |tx[i].1| <= c.boot.blockSize)
    && (forall i, j :: 0 <= i < j < |tx| ==> tx[i].0 != tx[j].0)
  }

  lemma {:induction false} ValidationIsValidity(c: Ctx, tx: Tx, i: nat)
    requires c.boot.Valid() && i <= |tx|
    ensures ValidationError(c, tx, i).None? <==> forall k :: i <= k < |tx| ==> EntryError(c, tx, k).None?
    decreases |tx| - i
  {
    hide EntryError;
    if i < |tx| {
      ValidationIsValidity(c, tx, i + 1);
    }
  }

  lemma ValidationAccepts(c: Ctx, tx: Tx)
    requires c.boot.Valid()
    ensures ValidationError(c, tx, 0).None? <==> ValidTx(c, tx)
  {
    hide Bootstrap.Valid, Bootstrap.BlockCount;
    ValidationIsValidity(c, tx, 0);
    if ValidationError(c, tx, 0).None? {
      forall i, j | 0 <= i < j < |tx|
        ensures tx[i].0 != tx[j].0
      {
        assert EntryError(c, tx, j).None?;
      }
      forall i | 0 <= i < |tx|
        ensures tx[i].0 < c.boot.BlockCount() && |tx[i].1| <= c.boot.blockSize
      {
        assert EntryError(c, tx, i).None?;
      }
    }
  }

  /** Error met while appending record `i` or a later one to a log that ends at `from`. */
  function AppendError(from: nat, recs: seq<Rec>, i: nat): Option<VolumeError>
    requires i <= |recs|
    decreases |recs| - i
  {
    if i == |recs| then None
    else if recs[i].generation >= U64_LIMIT then Some(InvalidInput("block generation exhausted"))
    else if TailEnd(from, recs[..i + 1]) >= U64_LIMIT then Some(InvalidInput("volume offset overflow"))
    else AppendError(from, recs, i + 1)
  }

  function WriteError(c: Ctx, m: Mem, tx: Tx): Option<VolumeError>
    requires c.boot.Valid()
  {
    var recs := NewRecs(m.index, tx);
    if tx == [] then None
    else if ValidationError(c, tx, 0).Some? then ValidationError(c, tx, 0)
    else if AppendError(m.state.committedEnd, recs, 0).Some? then AppendError(m.state.committedEnd, recs, 0)
    else if m.state.generation == U64_MAX then Some(InvalidInput("superblock generation exhausted"))
    else if m.state.recordCount + |tx| >= U64_LIMIT then Some(InvalidInput("record count exhausted"))
    else None
  }

  /** The transactions `write_blocks` commits: valid ones that exhaust no 64-bit counter. */
  ghost predicate Accepts(c: Ctx, m: Mem, tx: Tx)
    requires c.boot.Valid()
  {
    var recs := NewRecs(m.index, tx);
    && tx != []
    && ValidTx(c, tx)
    && (forall i :: 0 <= i < |recs| ==> recs[i].generation < U64_LIMIT)
    && TailEnd(m.state.committedEnd, recs) < U64_LIMIT
    && m.state.generation < U64_MAX
    && m.state.recordCount + |tx| < U64_LIMIT
  }

  lemma {:induction false} TailEndMonotone(from: nat, recs: seq<Rec>, i: nat, j: nat)
    requires i <= j <= |recs|
    ensures TailEnd(from, recs[..i]) <= TailEnd(from, recs[..j])
  {
    if i < j {
      TailEndMonotone(from, recs, i, j - 1);
      assert recs[..j][..j - 1] == recs[..j - 1];
    }
  }

  lemma {:induction false} AppendErrorMeaning(from: u64, recs: seq<Rec>, i: nat)
    requires i <= |recs| && TailEnd(from, recs[..i]) < U64_LIMIT
    ensures AppendError(from, recs, i).None? <==>
            (forall k :: i <= k < |recs| ==> recs[k].generation < U64_LIMIT) && TailEnd(from, recs) < U64_LIMIT
    decreases |recs| - i
  {
    hide TailEnd;
    assert recs[..|recs|] == recs;
    if i < |recs| {
      TailEndMonotone(from, recs, i + 1, |recs|);
      if recs[i].generation < U64_LIMIT && TailEnd(from, recs[..i + 1]) < U64_LIMIT {
        AppendErrorMeaning(from, recs, i + 1);
      }
    }
  }

  /** `write_blocks` commits a non-empty transaction exactly when it is acceptable. */
  lemma WriteErrorMeaning(c: Ctx, m: Mem, tx: Tx)
    requires c.boot.Valid() && tx != []
    ensures WriteError(c, m, tx).None? <==> Accepts(c, m, tx)
  {
    hide ValidationError, AppendError, ValidTx, Bootstrap.Valid, NewRecs;
    ValidationAccepts(c, tx);
    AppendErrorMeaning(m.state.committedEnd, NewRecs(m.index, tx), 0);
  }

  // ----- disk operations

  function RecordOps(c: Ctx, at: nat, r: Rec): (ops: seq<Op>)
    requires c.Valid() && RecFits(c, r)
    ensures forall i :: 0 <= i < |ops| ==> ops[i].Write? && at <= ops[i].offset
  {
    var h := HeaderOf(r);
    [Write(at, h.Encode()), Write(at + RECORD_HEADER_SIZE, SealRecord(c, h, r.data))]
  }

  function AppendOps(c: Ctx, from: nat, recs: seq<Rec>): (ops: seq<Op>)
    requires c.Valid() && forall i :: 0 <= i < |recs| ==> RecFits(c, recs[i])
    ensures forall i :: 0 <= i < |ops| ==> ops[i].Write? && from <= ops[i].offset
  {
    if recs == [] then []
    else
      var n := |recs| - 1;
      assert RecFits(c, recs[n]);
      AppendOps(c, from, recs[..n]) + RecordOps(c, TailEnd(from, recs[..n]), recs[n])
  }

  lemma NewRecsFit(c: Ctx, m: Mem, tx: Tx)
    requires c.Valid() && ValidTx(c, tx)
    ensures forall i :: 0 <= i < |tx| && NewRecs(m.index, tx)[i].generation < U64_LIMIT ==> RecFits(c, NewRecs(m.index, tx)[i])
  {
  }

  function SlotOps(c: Ctx, slot: nat, st: SuperState): seq<Op>
    requires c.Valid() && slot < 2
  {
    [Write(SuperOffset(slot), EncodeSlot(c, slot, st)), Sync]
  }

  function CommitState(m: Mem, tx: Tx): SuperState
    requires m.state.generation < U64_MAX
    requires TailEnd(m.state.committedEnd, NewRecs(m.index, tx)) < U64_LIMIT
    requires m.state.recordCount + |tx| < U64_LIMIT
  {
    SuperState(m.state.generation + 1, TailEnd(m.state.committedEnd, NewRecs(m.index, tx)),
               m.state.recordCount + |tx|, false)
  }

  function CommitMem(m: Mem, tx: Tx): Mem
    requires m.active < 2
    requires m.state.generation < U64_MAX
    requires TailEnd(m.state.committedEnd, NewRecs(m.index, tx)) < U64_LIMIT
    requires m.state.recordCount + |tx| < U64_LIMIT
  {
    Mem(CommitState(m, tx), 1 - m.active, IndexWith(m.index, m.state.committedEnd, NewRecs(m.index, tx)))
  }

  /** Append the records, make them durable, then publish them with one superblock write. */
  function CommitOps(c: Ctx, m: Mem, tx: Tx): seq<Op>
    requires c.Valid() && m.active < 2 && Accepts(c, m, tx)
  {
    NewRecsFit(c, m, tx);
    AppendOps(c, m.state.committedEnd, NewRecs(m.index, tx)) + [Sync] + SlotOps(c, 1 - m.active, CommitState(m, tx))
  }

  /** The superblock a mark writes; at the top generation the counter stays where it is. */
  function MarkState(st: SuperState, clean: bool): SuperState {
    st.(generation := if st.generation == U64_MAX then U64_MAX else st.generation + 1, clean := clean)
  }

  function MarkMem(m: Mem, clean: bool): Mem
    requires m.active < 2
  {
    if m.state.clean == clean then m else Mem(MarkState(m.state, clean), 1 - m.active, m.index)
  }

  function MarkOps(c: Ctx, m: Mem, clean: bool): seq<Op>
    requires c.Valid() && m.active < 2
  {
    if m.state.clean == clean then [] else SlotOps(c, 1 - m.active, MarkState(m.state, clean))
  }

  // ----- the protocol on logs

  lemma {:induction false} TailEndIsLogEnd(recs: seq<Rec>, more: seq<Rec>)
    ensures TailEnd(LogEnd(recs), more) == LogEnd(recs + more)
    ensures IndexWith(IndexOf(recs), LogEnd(recs), more) == IndexOf(recs + more)
  {
    if more == [] {
      assert recs + more == recs;
    } else {
      var n := |more| - 1;
      TailEndIsLogEnd(recs, more[..n]);
      assert recs + more == recs + more[..n] + [more[n]];
      LogEndSnoc(recs + more[..n], more[n]);
      IndexSnoc(recs + more[..n], more[n]);
    }
  }

  /** Operations that leave everything before `end` alone. */
  predicate TailOp(op: Op, end: nat) {
    match op
    case Write(offset, _) => end <= offset
    case SetLen(len) => end <= len
    case Sync => true
  }

  ghost predicate TailOps(ops: seq<Op>, end: nat) {
    forall i :: 0 <= i < |ops| ==> TailOp(ops[i], end)
  }

  /** Distinct blocks, each continuing the generations of the log. */
  ghost predicate Continues(recs: seq<Rec>, new_: seq<Rec>) {
    && (forall i :: 0 <= i < |new_| ==> new_[i].generation > LastGeneration(recs, new_[i].block))
    && (forall i, j :: 0 <= i < j < |new_| ==> new_[i].block != new_[j].block)
  }

  /** Appending one record extends the log in the cache and leaves everything before its old end. */
  lemma AppendOne(c: Ctx, d: Disk, recs: seq<Rec>, r: Rec)
    requires c.Valid() && IsLog(c, d.cached, recs) && RecFits(c, r)
    requires r.generation > LastGeneration(recs, r.block)
    ensures var ops := RecordOps(c, LogEnd(recs), r);
            var d' := Run(d, ops);
            && d' == Disk(d.durable, d'.cached, d.pending + ops)
            && IsLog(c, d'.cached, recs + [r])
            && LogEnd(recs) <= |d.cached| && LogEnd(recs) <= |d'.cached|
            && d'.cached[..LogEnd(recs)] == d.cached[..LogEnd(recs)]
  {
    hide IsLog, RecAt, LogEnd, Overlay, SealRecord, Bootstrap.Valid, Bootstrap.BlockCount, LastGeneration,
         RecordHeader.Encode;
    var at, h := LogEnd(recs), HeaderOf(r);
    LogInside(c, d.cached, recs);
    var file' := AdjacentWrites(d.cached, at, h.Encode(), SealRecord(c, h, r.data));
    WrittenRecordReads(c, file', at, r);
    NarrowSlice(file', d.cached, 0, at, LOG_START, at);
    IsLogFrame(c, d.cached, file', recs);
    IsLogSnoc(c, file', recs, r);
    var ops := RecordOps(c, at, r);
    RunTwo(d, ops[0], ops[1]);
    assert d.pending + [ops[0]] + [ops[1]] == d.pending + ops;
  }

  lemma OtherBlockGeneration(recs: seq<Rec>, more: seq<Rec>, block: u64)
    requires forall i :: 0 <= i < |more| ==> more[i].block != block
    ensures LastGeneration(recs + more, block) == LastGeneration(recs, block)
    decreases |more|
  {
    hide EntryAt;
    if more == [] {
      assert recs + more == recs;
    } else {
      var n := |more| - 1;
      OtherBlockGeneration(recs, more[..n], block);
      assert recs + more == recs + more[..n] + [more[n]];
      IndexSnoc(recs + more[..n], more[n]);
    }
  }

  /** Running `ops` extends the log `recs` in the cache by `more`, and touches nothing before its old end. */
  ghost predicate Extended(c: Ctx, d: Disk, recs: seq<Rec>, more: seq<Rec>, ops: seq<Op>)
    requires c.Valid()
  {
    var d' := Run(d, ops);
    && d' == Disk(d.durable, d'.cached, d.pending + ops)
    && IsLog(c, d'.cached, recs + more)
    && |d.cached| >= LogEnd(recs) && |d'.cached| >= LogEnd(recs)
    && d'.cached[..LogEnd(recs)] == d.cached[..LogEnd(recs)]
  }

  lemma ExtendedByNothing(c: Ctx, d: Disk, recs: seq<Rec>)
    requires c.Valid() && IsLog(c, d.cached, recs)
    ensures Extended(c, d, recs, [], [])
  {
    hide IsLog, LogEnd;
    LogInside(c, d.cached, recs);
    assert recs + [] == recs && d.pending + [] == d.pending;
  }

  /** One more record extends an extension. */
  lemma ExtendedStep(c: Ctx, d: Disk, recs: seq<Rec>, init: seq<Rec>, r: Rec, before: seq<Op>)
    requires c.Valid() && RecFits(c, r) && r.generation > LastGeneration(recs + init, r.block)
    requires Extended(c, d, recs, init, before)
    ensures Extended(c, d, recs, init + [r], before + RecordOps(c, LogEnd(recs + init), r))
  {
    hide IsLog, RecFits, RecordOps, LogEnd, LastGeneration, Run, Bootstrap.Valid, Cipher.Lawful;
    var d1, ops := Run(d, before), RecordOps(c, LogEnd(recs + init), r);
    AppendOne(c, d1, recs + init, r);
    RunAppend(d, before, ops);
    assert recs + init + [r] == recs + (init + [r]);
    assert d.pending + before + ops == d.pending + (before + ops);
    LogGrows(recs, init);
    NarrowSlice(Run(d1, ops).cached, d1.cached, 0, LogEnd(recs + init), 0, LogEnd(recs));
  }

  lemma LogGrows(recs: seq<Rec>, more: seq<Rec>)
    ensures LogEnd(recs) <= LogEnd(recs + more)
  {
    hide LogEnd;
    TailEndIsLogEnd(recs, more);
  }

  /** Appending a transaction extends the log in the cache and touches nothing before its old end. */
  lemma {:induction false} AppendExtendsLog(c: Ctx, d: Disk, recs: seq<Rec>, more: seq<Rec>)
    requires c.Valid() && IsLog(c, d.cached, recs)
    requires forall i :: 0 <= i < |more| ==> RecFits(c, more[i])
    requires Continues(recs, more)
    ensures Extended(c, d, recs, more, AppendOps(c, LogEnd(recs), more))
  {
    hide IsLog, RecFits, RecordOps, LogEnd, LastGeneration, Extended, Run, TailEnd, Bootstrap.Valid, Cipher.Lawful;
    if more == [] {
      ExtendedByNothing(c, d, recs);
    } else {
      var n := |more| - 1;
      var init, r := more[..n], more[n];
      AppendExtendsLog(c, d, recs, init);
      TailEndIsLogEnd(recs, init);
      OtherBlockGeneration(recs, init, r.block);
      ExtendedStep(c, d, recs, init, r, AppendOps(c, LogEnd(recs), init));
      assert more == init + [r];
    }
  }

  lemma LogInside(c: Ctx, file: seq<byte>, recs: seq<Rec>)
    requires c.Valid() && IsLog(c, file, recs)
    ensures LOG_START <= LogEnd(recs) <= |file|
  {
  }

  lemma RunTwo(d: Disk, a: Op, b: Op)
    ensures Run(d, [a, b]) == Step(Step(d, a), b)
  {
    assert [a, b][..1] == [a];
    assert [a][..0] == [];
    assert Run(d, [a]) == Step(Run(d, []), a);
  }
}
