/** Consequences of the volume protocol: exact bytes of the log, transaction locality, counters and the clean flag. */
module VolumeResults {
  import opened Bytes
  import opened Cipher
  import opened Storage
  import opened VolumeFormat
  import opened VolumeCodec
  import opened VolumeLog
  import opened VolumeProtocol
  import opened VolumeRecovery
  import opened VolumeRuns
  import opened EncryptedVolume
  import opened Words

  // ----- which volumes can be created

  lemma {:induction false} PowerOfTwoIs(n: nat)
    ensures PowerOfTwo(n) <==> exists k: nat :: n == Pow2(k)
  {
    if n == 1 {
      assert n == Pow2(0);
    } else if n > 0 && n % 2 == 0 {
      PowerOfTwoIs(n / 2);
      if PowerOfTwo(n / 2) {
        var k: nat :| n / 2 == Pow2(k);
        assert n == Pow2(k + 1);
      } else {
        forall k: nat
          ensures n != Pow2(k)
        {
          PowStep(k);
          assert k > 0 ==> n / 2 != Pow2(k - 1);
        }
      }
    } else {
      forall k: nat
        ensures n != Pow2(k)
      {
        PowStep(k);
      }
    }
  }

  lemma {:induction false} Pow2Grows(a: nat, b: nat)
    requires a < b
    ensures 2 * Pow2(a) <= Pow2(b)
    decreases b
  {
    PowStep(b);
    if a < b - 1 {
      Pow2Grows(a, b - 1);
    }
  }

  lemma BlockSizeExponent(k: nat)
    ensures 12 <= k <= 24 <==> MIN_BLOCK_SIZE <= Pow2(k) <= MAX_BLOCK_SIZE
  {
    hide Pow2;
    Pow2Four();
    Pow2Add(4, 4);
    Pow2Add(8, 4);
    Pow2Add(12, 12);
    if k < 12 { Pow2Grows(k, 12); }
    if 12 < k { Pow2Grows(12, k); }
    if k < 24 { Pow2Grows(k, 24); }
    if 24 < k { Pow2Grows(24, k); }
  }

  /** A volume is created for every positive capacity, and block sizes of 2^12 to 2^24 bytes. */
  lemma OptionsAccepted(capacity: u64, blockSize: u32)
    ensures ValidateOptions(capacity, blockSize).Ok? <==>
            capacity > 0 && exists k: nat :: 12 <= k <= 24 && blockSize == Pow2(k)
  {
    hide PowerOfTwo, Pow2;
    PowerOfTwoIs(blockSize);
    forall k: nat
      ensures 12 <= k <= 24 <==> MIN_BLOCK_SIZE <= Pow2(k) <= MAX_BLOCK_SIZE
    {
      BlockSizeExponent(k);
    }
  }

  // ----- the bytes of a log

  ghost function LogBytes(c: Ctx, recs: seq<Rec>): seq<byte>
    requires c.Valid() && forall i :: 0 <= i < |recs| ==> RecFits(c, recs[i])
  {
    if recs == [] then [] else LogBytes(c, recs[..|recs| - 1]) + EncodeRecord(c, recs[|recs| - 1])
  }

  lemma LogFits(c: Ctx, file: seq<byte>, recs: seq<Rec>)
    requires c.Valid() && IsLog(c, file, recs)
    ensures forall i :: 0 <= i < |recs| ==> RecFits(c, recs[i])
  {
    hide ReadRecord, LogEnd;
    forall i | 0 <= i < |recs|
      ensures RecFits(c, recs[i])
    {
      assert InPlace(c, file, recs, i);
    }
  }

  lemma LastRecordAt(c: Ctx, file: seq<byte>, recs: seq<Rec>)
    requires c.Valid() && IsLog(c, file, recs) && recs != []
    ensures RecAt(c, file, LogEnd(recs[..|recs| - 1]), recs[|recs| - 1])
  {
    hide RecAt, LogEnd, Increasing;
    assert InPlace(c, file, recs, |recs| - 1);
  }

  /** A scanned log tiles its region: the bytes are the encodings of its records, with no gap and nothing over. */
  lemma {:induction false} LogTiles(c: Ctx, file: seq<byte>, recs: seq<Rec>)
    requires c.Valid() && Resealing(c.suite) && IsLog(c, file, recs)
    ensures forall i :: 0 <= i < |recs| ==> RecFits(c, recs[i])
    ensures LOG_START <= LogEnd(recs) <= |file| && file[LOG_START..LogEnd(recs)] == LogBytes(c, recs)
  {
    hide RecAt, RecFits, IsLog, EncodeRecord;
    LogFits(c, file, recs);
    LogInside(c, file, recs);
    if recs != [] {
      var n := |recs| - 1;
      IsLogPrefix(c, file, recs, n);
      LogTiles(c, file, recs[..n]);
      LastRecordAt(c, file, recs);
      RecordBytes(c, file, LogEnd(recs[..n]), recs[n]);
      var from, mid, end := LOG_START, LogEnd(recs[..n]), LogEnd(recs);
      assert file[from..end] == file[from..mid] + file[mid..end];
    }
  }

  // ----- what a transaction does to the blocks

  /** A transaction sets exactly its own blocks. */
  lemma {:induction false} TxSetsItsBlocks(m: map<u64, seq<byte>>, tx: Tx, block: u64)
    requires DistinctBlocks(tx)
    ensures forall i :: 0 <= i < |tx| && tx[i].0 == block ==> block in ApplyTx(m, tx) && ApplyTx(m, tx)[block] == tx[i].1
    ensures (forall i :: 0 <= i < |tx| ==> tx[i].0 != block) ==>
              (block in ApplyTx(m, tx) <==> block in m) && (block in m ==> ApplyTx(m, tx)[block] == m[block])
  {
    if tx != [] {
      var n := |tx| - 1;
      TxSetsItsBlocks(m, tx[..n], block);
      assert forall i :: 0 <= i < n ==> tx[..n][i] == tx[i];
    }
  }

  // ----- counters after a run

  /**
   After any run: each block's generation is its number of committed writes, the record count is their sum,
   the log is as long as its records, and no two records share block and generation.
   */
  lemma CountersOfRun(c: Ctx, s: Sys, v: View, block: u64)
    requires c.Valid() && Inv(c, s, v)
    ensures LastGeneration(RecsOf(v.history), block) == Writes(v.history, block)
    ensures v.st.recordCount == HistoryCount(v.history)
    ensures v.st.committedEnd == LOG_START + HistorySize(v.history)
    ensures var recs := RecsOf(v.history);
            forall i, j :: 0 <= i < j < |recs| ==> recs[i].block != recs[j].block || recs[i].generation != recs[j].generation
  {
    hide LogEnd, IndexOf, RecsOf, ReadSlot, HasBoot, RecAt, Writes, HistoryCount, HistorySize, ValidTx, DistinctBlocks;
    forall i | 0 <= i < |v.history|
      ensures DistinctBlocks(v.history[i])
    {
      ValidIsDistinct(c, v.history[i]);
    }
    HistoryAccounting(v.history, block);
  }

  // ----- a run in full

  /**
   A new volume, one write and a power cut: this is a run, for every transaction the new volume accepts, and the
   file it leaves opens to exactly the blocks written.
   */
  lemma FirstCommitIsDurable(c: Ctx, tx: Tx) returns (states: seq<Sys>, events: seq<Event>)
    requires c.Valid() && Accepts(c, NEW_MEMORY, tx)
    ensures |events| == 2 && events[0] == Done(Writing(tx)) && events[1].Crash? && Behaviour(c, states, events)
    ensures exists p :: Picks(c, states[2].disk.cached, p) && DataOf(p.recs) == ApplyTx(map[], tx)
  {
    hide CommitOps, CommitMem, Run, CreateOps, Picks, DataOf, ApplyTx, ReadSlot, Good, IndexOf, RecsOf, ValidTx;
    var s0 := Sys(Run(Settled([]), CreateOps(c)), Some(NEW_MEMORY));
    var s1 := Sys(Run(s0.disk, CommitOps(c, NEW_MEMORY, tx)), Some(CommitMem(NEW_MEMORY, tx)));
    var s2 := Sys(Settled(s1.disk.cached), None);
    states, events := [s0, s1, s2], [Done(Writing(tx)), Crash(Idle, 0, s1.disk.cached)];
    var v0 := InitInv(c, s0);
    var v1 := StepKeeps(c, s0, events[0], s1, v0);
    EndsSettled(c, s0.disk, NEW_MEMORY, tx);
    IdleCrash(c, s1, s2);
    var v2 := StepKeeps(c, s1, events[1], s2, v1);
    assert v2.history == [tx];
    SettledImage(c, s2.disk.cached);
    var p := RecoversTo(c, s2, v2, s2.disk.cached);
    OneTx(tx);
  }

  const NEW_MEMORY: Mem := Mem(FIRST_STATE, 0, map[])

  lemma OneTx(tx: Tx)
    ensures MapOf([tx]) == ApplyTx(map[], tx)
  {
    assert [tx][..0] == [];
    assert MapOf([tx]) == ApplyTx(MapOf([tx][..0]), tx);
  }

  /** A commit ends with a sync, so nothing is pending after it. */
  lemma EndsSettled(c: Ctx, d: Disk, m: Mem, tx: Tx)
    requires c.Valid() && m.active < 2 && Accepts(c, m, tx)
    ensures var d' := Run(d, CommitOps(c, m, tx)); d' == Settled(d'.cached)
  {
    hide Accepts, AppendOps, CommitState, EncodeSlot, Overlay;
    var ops := CommitOps(c, m, tx);
    assert ops[|ops| - 1] == Sync;
  }

  lemma SettledImage(c: Ctx, file: seq<byte>)
    requires c.Valid()
    ensures CrashImage(c, Settled(file), file)
  {
    hide ReadSlot;
  }

  lemma IdleCrash(c: Ctx, s: Sys, s': Sys)
    requires c.Valid() && s.disk == Settled(s.disk.cached) && s' == Sys(s.disk, None)
    ensures Next(c, s, Crash(Idle, 0, s.disk.cached), s')
  {
    hide ReadSlot;
    SettledImage(c, s.disk.cached);
    assert OpsOf(c, s, Idle)[..0] == [];
  }

  // ----- clean and dirty marks

  /** The superblock `open` chooses after a mark: the one just written, unless its generation could not grow. */
  function AfterMark(m: Mem, clean: bool, recs: seq<Rec>): Picked
    requires m.active < 2
  {
    if m.state.generation < U64_MAX then Picked(1 - m.active, MarkState(m.state, clean), recs)
    else Picked(0, if m.active == 0 then m.state else MarkState(m.state, clean), recs)
  }

  /** For every open volume, at every generation, and however often it was marked before. */
  lemma MarkPicks(c: Ctx, d: Disk, m: Mem, recs: seq<Rec>, clean: bool)
    requires c.Valid() && Consistent(c, d.cached, m, recs) && m.state.clean != clean
    ensures Picks(c, Run(d, MarkOps(c, m, clean)).cached, AfterMark(m, clean, recs))
  {
    hide IsLog, LogEnd, ReadSlot, Overlay, EncodeSlot, Bootstrap.Decode, IndexOf, Cipher.Lawful;
    var next, slot := MarkState(m.state, clean), 1 - m.active;
    var ops := SlotOps(c, slot, next);
    RunTwo(d, ops[0], ops[1]);
    DescribesInside(c, d.cached, m.state, recs);
    var file := SlotWrite(c, d.cached, slot, next);
    DescribesFrame(c, d.cached, file, m.state, recs, |d.cached|);
    SameAccount(c, file, m.state, next, recs);
    var winner := AfterMark(m, clean, recs);
    forall q: Picked | Usable(c, file, q) && q.slot != winner.slot
      ensures Before(winner, q)
    {
      assert q.st == next || q.st == m.state;
    }
  }

  /**
   A mark that changes the flag is seen by the next `open` exactly when the superblock generation could still
   grow or the mark went to slot 0; otherwise both superblocks carry the same generation and the old one wins.
   */
  lemma MarkSurvives(c: Ctx, d: Disk, m: Mem, recs: seq<Rec>, clean: bool, p: Picked)
    requires c.Valid() && Consistent(c, d.cached, m, recs) && m.state.clean != clean
    requires Picks(c, Run(d, MarkOps(c, m, clean)).cached, p)
    ensures p.st.clean == clean <==> m.state.generation < U64_MAX || m.active == 1
    ensures p.recs == recs
  {
    hide Picks, Describes, ReadSlot, HasBoot, IndexOf, Run, MarkOps;
    MarkPicks(c, d, m, recs, clean);
    PicksUnique(c, Run(d, MarkOps(c, m, clean)).cached, p, AfterMark(m, clean, recs));
  }

  /** At the last generation slot 0 wins, whichever slot the mark went to. */
  lemma StuckMark(c: Ctx, d: Disk, m: Mem, recs: seq<Rec>, clean: bool)
    requires c.Valid() && Consistent(c, d.cached, m, recs) && m.state.clean != clean
    requires m.state.generation == U64_MAX
    ensures var winner := if m.active == 0 then m.state else MarkState(m.state, clean);
            Picks(c, Run(d, MarkOps(c, m, clean)).cached, Picked(0, winner, recs))
  {
    hide Picks, Consistent, Run, MarkOps;
    assert m.active < 2 by { ConsistentSlot(c, d.cached, m, recs); }
    MarkPicks(c, d, m, recs, clean);
  }

  lemma ConsistentSlot(c: Ctx, file: seq<byte>, m: Mem, recs: seq<Rec>)
    requires c.Valid() && Consistent(c, file, m, recs)
    ensures m.active < 2
  {
  }

  lemma GoodConsistent(c: Ctx, d: Disk, m: Mem, recs: seq<Rec>)
    requires c.Valid() && Good(c, d, m.active, m.state, recs) && m.index == IndexOf(recs)
    ensures Consistent(c, d.cached, m, recs)
  {
    hide Describes, ReadSlot, HasBoot, IndexOf;
    GoodCached(c, d, m.active, m.state, recs);
  }

  /**
   In a run the generation is odd exactly when slot 0 is active, so the first mark at the last generation goes to
   slot 1: a mark made in a run is seen by the next `open` exactly when the generation could still grow.
   */
  lemma MarkInRun(c: Ctx, states: seq<Sys>, events: seq<Event>, clean: bool, p: Picked)
    requires c.Valid() && Behaviour(c, states, events)
    requires states[|events|].mem.Some? && states[|events|].mem.value.state.clean != clean
    requires states[|events|].mem.value.active < 2
    requires Picks(c, Run(states[|events|].disk, MarkOps(c, states[|events|].mem.value, clean)).cached, p)
    ensures p.st.clean == clean <==> states[|events|].mem.value.state.generation < U64_MAX
  {
    hide Init, Next, Picks, Good, Consistent, IndexOf, RecsOf, Run, MarkOps;
    var v := RunExplained(c, states, events);
    var s := states[|events|];
    GoodConsistent(c, s.disk, s.mem.value, RecsOf(v.history));
    MarkSurvives(c, s.disk, s.mem.value, RecsOf(v.history), clean, p);
  }

  /** A volume on which the flag sticks: marked dirty, synced, reopened, and still reported clean. */
  lemma DirtyMarkLost(c: Ctx) returns (d: Disk, m: Mem)
    requires c.Valid()
    ensures m.active < 2 && Good(c, d, m.active, m.state, []) && Consistent(c, d.cached, m, [])
    ensures m.state.clean && m.state.generation == U64_MAX
    ensures exists p :: Picks(c, Run(d, MarkOps(c, m, false)).cached, p) && p.st.clean
    ensures forall p: Picked :: Picks(c, Run(d, MarkOps(c, m, false)).cached, p) ==> p.st.clean
  {
    hide Describes, ReadSlot, HasBoot, Overlay, EncodeSlot, CreateOps;
    var last := SuperState(U64_MAX, LOG_START, 0, true);
    var d0 := Run(Settled([]), CreateOps(c));
    CreatedGood(c);
    GoodCached(c, d0, 0, FIRST_STATE, []);
    DescribesInside(c, d0.cached, FIRST_STATE, []);
    var file := SlotWrite(c, d0.cached, 0, last);
    DescribesFrame(c, d0.cached, file, FIRST_STATE, [], LOG_START);
    SameAccount(c, file, FIRST_STATE, last, []);
    forall o | Holds(c, file, 1, o)
      ensures OlderState(c, file, o, last, [])
    {
      assert OlderState(c, d0.cached, o, FIRST_STATE, []);
      DescribesInside(c, d0.cached, o, [][..o.recordCount]);
      DescribesFrame(c, d0.cached, file, o, [][..o.recordCount], |d0.cached|);
    }
    SamePrefixBoot(c, d0.cached, file);
    SettledGood(c, file, 0, last, []);
    d, m := Settled(file), Mem(last, 0, map[]);
    EmptyIndex();
    GoodConsistent(c, d, m, []);
    StuckMark(c, d, m, [], false);
    assert Picks(c, Run(d, MarkOps(c, m, false)).cached, Picked(0, last, []));
    forall p: Picked | Picks(c, Run(d, MarkOps(c, m, false)).cached, p)
      ensures p.st.clean
    {
      MarkSurvives(c, d, m, [], false, p);
    }
  }

  lemma SameAccount(c: Ctx, file: seq<byte>, st: SuperState, st': SuperState, recs: seq<Rec>)
    requires c.Valid() && Describes(c, file, st, recs)
    requires st.committedEnd == st'.committedEnd && st.recordCount == st'.recordCount
    ensures Describes(c, file, st', recs)
  {
    hide IsLog, LogEnd;
  }

  lemma SamePrefixBoot(c: Ctx, file: seq<byte>, file': seq<byte>)
    requires c.Valid() && HasBoot(c, file) && BOOTSTRAP_SIZE <= |file'| && file[..BOOTSTRAP_SIZE] == file'[..BOOTSTRAP_SIZE]
    ensures HasBoot(c, file')
  {
    hide Bootstrap.Decode;
  }
}
