/** Whole runs of the mounted disk: every byte-range write is one crash-atomic step on a flat array. */
module FlatDisk {
  import opened Bytes
  import opened Storage
  import opened VolumeFormat
  import opened VolumeCodec
  import opened VolumeLog
  import opened VolumeProtocol
  import opened VolumeRecovery
  import opened VolumeRuns
  import opened ByteRange
  import opened EncryptedVolume

  datatype Request = Request(offset: nat, input: seq<byte>)

  /** What an open volume reads for each block of its index. */
  ghost function StoredMap(c: Ctx, s: Sys): map<u64, seq<byte>>
    requires c.Valid() && s.mem.Some?
  {
    var index := s.mem.value.index;
    map block | block in index && ReadRecord(c, s.disk.cached, index[block].offset).Ok?
        :: ReadRecord(c, s.disk.cached, index[block].offset).value.1
  }

  predicate IsWrite(e: Event) {
    (e.Done? && e.a.Writing?) || (e.Crash? && e.a.Writing?)
  }

  /** A write event commits the transaction that the byte-range adapter builds from what it reads. */
  ghost predicate IsByteWrite(c: Ctx, s: Sys, e: Event, r: Request)
    requires c.Valid()
  {
    IsWrite(e) ==>
      && s.mem.Some? && r.input != [] && InRange(c.boot, r.offset, |r.input|)
      && e.a.tx == WriteTx(StoredMap(c, s), c.boot, r.offset, r.input)
  }

  ghost predicate ByteBehaviour(c: Ctx, states: seq<Sys>, events: seq<Event>, requests: seq<Request>)
    requires c.Valid()
  {
    && Behaviour(c, states, events)
    && |requests| == |events|
    && (forall i :: 0 <= i < |events| ==> IsByteWrite(c, states[i], events[i], requests[i]))
  }

  /**
   `flat` is a possible content of the disk after `events`: it starts as zeros, an acknowledged write overwrites
   its range, one hit by a crash overwrites all of it or nothing, and nothing else changes a byte.
   */
  ghost predicate FlatOutcome(boot: Bootstrap, events: seq<Event>, requests: seq<Request>, flat: seq<byte>)
    requires |events| == |requests|
  {
    if events == [] then flat == Zeros(boot.logicalCapacity)
    else
      var n := |events| - 1;
      exists before :: FlatOutcome(boot, events[..n], requests[..n], before) && FlatStep(events[n], requests[n], before, flat)
  }

  ghost predicate FlatStep(e: Event, r: Request, before: seq<byte>, after: seq<byte>) {
    match e
    case Done(Writing(_)) => r.offset + |r.input| <= |before| && after == Splice(before, r.offset, r.input)
    case Crash(Writing(tx), issued, _) =>
      || (issued <= 2 * |tx| + 2 && after == before)
      || (issued >= 2 * |tx| + 2 && r.offset + |r.input| <= |before| && after == Splice(before, r.offset, r.input))
    case _ => after == before
  }

  /** In every reachable state, reading back gives the map of the history. */
  lemma StoredIsHistory(c: Ctx, s: Sys, v: View)
    requires c.Valid() && Inv(c, s, v) && s.mem.Some?
    ensures StoredMap(c, s) == MapOf(v.history)
  {
    hide Good, IsLog, ReadRecord, IndexOf, RecsOf, DataOf, MapOf, LogEnd, ValidTx, HasBoot, ReadSlot;
    var recs := RecsOf(v.history);
    HistoryMap(v.history);
    GoodCached(c, s.disk, v.active, v.st, recs);
    RecoverableLog(c, s.disk.cached, v.active, v.st, recs);
    forall block: u64
      ensures block in StoredMap(c, s) <==> block in DataOf(recs)
      ensures block in StoredMap(c, s) ==> StoredMap(c, s)[block] == DataOf(recs)[block]
    {
      var last := IndexHoldsLast(recs, block);
      if block in IndexOf(recs) {
        IndexReads(c, s.disk.cached, recs, block);
      }
    }
  }

  /** The blocks of an open volume object are what its file reads back. */
  lemma StoredIsBlocks(c: Ctx, d: Disk, m: Mem, recs: seq<Rec>)
    requires c.Valid() && Consistent(c, d.cached, m, recs)
    ensures StoredMap(c, Sys(d, Some(m))) == DataOf(recs)
  {
    hide IsLog, ReadRecord, IndexOf, DataOf, LogEnd, HasBoot, ReadSlot;
    forall block: u64
      ensures block in StoredMap(c, Sys(d, Some(m))) <==> block in DataOf(recs)
      ensures block in DataOf(recs) ==> StoredMap(c, Sys(d, Some(m)))[block] == DataOf(recs)[block]
    {
      var last := IndexHoldsLast(recs, block);
      if block in IndexOf(recs) {
        IndexReads(c, d.cached, recs, block);
      }
    }
  }

  /** The write that `WriteBytes` performs, completed or cut short by a crash, is a byte write of a run. */
  lemma WriteBytesIsByteWrite(volume: Volume, e: Event, r: Request)
    requires volume.Valid() && IsWrite(e)
    requires r.input != [] && InRange(volume.c.boot, r.offset, |r.input|)
    requires e.a.tx == WriteTx(volume.Blocks(), volume.c.boot, r.offset, r.input)
    ensures IsByteWrite(volume.c, volume.Snapshot(), e, r)
  {
    hide Consistent, WriteTx, DataOf, StoredMap;
    StoredIsBlocks(volume.c, volume.file.disk, volume.Memory(), volume.recs);
  }

  lemma StepOnFlat(c: Ctx, s: Sys, e: Event, r: Request, before: seq<Tx>, after: seq<Tx>)
    requires c.Valid() && HistoryStep(e, before, after)
    requires IsWrite(e) ==> r.input != [] && InRange(c.boot, r.offset, |r.input|)
                            && e.a.tx == WriteTx(MapOf(before), c.boot, r.offset, r.input)
    ensures FlatStep(e, r, Flat(MapOf(before), c.boot), Flat(MapOf(after), c.boot))
  {
    hide Flat, WriteTx, ApplyTx, Splice, ValidTx, Bootstrap.Valid;
    UsableSize(c.boot);
    if IsWrite(e) && after != before {
      assert (before + [e.a.tx])[..|before|] == before;
      WriteTxValid(c, MapOf(before), r.offset, r.input);
      ValidIsDistinct(c, e.a.tx);
      WriteTxSplices(MapOf(before), c.boot, r.offset, r.input);
    } else if IsWrite(e) {
      assert |before + [e.a.tx]| != |before|;
    }
  }

  lemma {:induction false} FlatRun(c: Ctx, states: seq<Sys>, events: seq<Event>, requests: seq<Request>) returns (v: View)
    requires c.Valid() && ByteBehaviour(c, states, events, requests)
    ensures Inv(c, states[|events|], v) && FlatOutcome(c.boot, events, requests, Flat(MapOf(v.history), c.boot))
  {
    hide Inv, Next, Init, Flat, FlatStep, MapOf, StoredMap, WriteTx, Bootstrap.Valid;
    UsableSize(c.boot);
    if events == [] {
      v := InitInv(c, states[0]);
      EmptyFlat(c.boot);
    } else {
      var n := |events| - 1;
      var u := FlatRun(c, states[..n + 1], events[..n], requests[..n]);
      v := StepKeeps(c, states[n], events[n], states[n + 1], u);
      assert IsByteWrite(c, states[n], events[n], requests[n]);
      if IsWrite(events[n]) {
        StoredIsHistory(c, states[n], u);
      }
      StepOnFlat(c, states[n], events[n], requests[n], u.history, v.history);
    }
  }

  lemma EmptyFlat(boot: Bootstrap)
    requires boot.blockSize > 0
    ensures Flat(MapOf([]), boot) == Zeros(boot.logicalCapacity)
  {
  }

  /** The mounted disk is a flat zero-initialised array on which every request is crash-atomic. */
  lemma FlatCrashAtomicity(c: Ctx, states: seq<Sys>, events: seq<Event>, requests: seq<Request>)
    requires c.Valid() && ByteBehaviour(c, states, events, requests)
    ensures exists flat :: FlatOutcome(c.boot, events, requests, flat)
                           && RecoversFlat(c, states[|events|].disk, flat) && ReadsFlat(c, states[|events|], flat)
  {
    hide Inv, FlatOutcome, Next, Init, Flat, MapOf, DataOf, IsByteWrite, Bootstrap.Valid;
    UsableSize(c.boot);
    var v := FlatRun(c, states, events, requests);
    var flat := Flat(MapOf(v.history), c.boot);
    forall image | CrashImage(c, states[|events|].disk, image)
      ensures OpensFlat(c, image, flat)
    {
      var p := RecoversTo(c, states[|events|], v, image);
    }
    assert RecoversFlat(c, states[|events|].disk, flat);
    if states[|events|].mem.Some? {
      StoredIsHistory(c, states[|events|], v);
    }
  }

  /** While the volume is open, what reads through its index return is `flat`. */
  ghost predicate ReadsFlat(c: Ctx, s: Sys, flat: seq<byte>)
    requires c.Valid()
  {
    s.mem.Some? ==> Flat(StoredMap(c, s), c.boot) == flat
  }

  ghost predicate RecoversFlat(c: Ctx, d: Disk, flat: seq<byte>)
    requires c.Valid()
  {
    forall image :: CrashImage(c, d, image) ==> OpensFlat(c, image, flat)
  }

  ghost predicate OpensFlat(c: Ctx, image: seq<byte>, flat: seq<byte>)
    requires c.Valid()
  {
    exists p :: Picks(c, image, p) && Flat(DataOf(p.recs), c.boot) == flat
  }
}
