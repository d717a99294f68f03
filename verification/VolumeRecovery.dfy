/**
 What a volume file recovers to. `Recoverable` is the two-superblock invariant; the lemmas show which
 operations and which crashes keep it, and that recovery depends on nothing a crash can damage.
 */
module VolumeRecovery {
  import opened Bytes
  import opened Storage
  import opened VolumeFormat
  import opened VolumeCodec
  import opened VolumeLog
  import opened VolumeProtocol

  ghost predicate Holds(c: Ctx, file: seq<byte>, slot: nat, st: SuperState)
    requires c.Valid() && slot < 2
  {
    ReadSlot(c, file, slot) == Ok(Some(st))
  }

  ghost predicate HasBoot(c: Ctx, file: seq<byte>) {
    BOOTSTRAP_SIZE <= |file| && Bootstrap.Decode(file[..BOOTSTRAP_SIZE]) == Ok(c.boot)
  }

  /**
   The active slot holds the newest superblock and accounts exactly for `recs`; the other slot is unreadable or
   holds an older superblock that accounts exactly for a prefix of the same records.
   */
  ghost predicate Recoverable(c: Ctx, file: seq<byte>, active: nat, st: SuperState, recs: seq<Rec>)
    requires c.Valid()
  {
    && active < 2
    && HasBoot(c, file)
    && Holds(c, file, active, st)
    && Describes(c, file, st, recs)
    && (forall o :: Holds(c, file, 1 - active, o) ==> OlderState(c, file, o, st, recs))
  }

  ghost predicate OlderState(c: Ctx, file: seq<byte>, o: SuperState, st: SuperState, recs: seq<Rec>)
    requires c.Valid()
  {
    o.generation < st.generation && o.recordCount <= |recs| && Describes(c, file, o, recs[..o.recordCount])
  }

  /** A superblock `open` chooses, with the records its log scan finds. */
  datatype Picked = Picked(slot: nat, st: SuperState, recs: seq<Rec>)

  /**
   `open` on arbitrary bytes: among the readable superblocks with an exactly matching log, the one with the
   highest generation, slot 0 first among equals.
   */
  ghost predicate Picks(c: Ctx, file: seq<byte>, p: Picked)
    requires c.Valid()
  {
    && HasBoot(c, file)
    && Usable(c, file, p)
    && (forall q: Picked :: Usable(c, file, q) && q.slot != p.slot ==> Before(p, q))
  }

  ghost predicate Usable(c: Ctx, file: seq<byte>, p: Picked)
    requires c.Valid()
  {
    p.slot < 2 && Holds(c, file, p.slot, p.st) && Describes(c, file, p.st, p.recs)
  }

  predicate Before(p: Picked, q: Picked) {
    p.st.generation > q.st.generation || (p.st.generation == q.st.generation && p.slot < q.slot)
  }

  /** The choice is a function of the bytes. */
  lemma PicksUnique(c: Ctx, file: seq<byte>, p: Picked, q: Picked)
    requires c.Valid() && Picks(c, file, p) && Picks(c, file, q)
    ensures p == q
  {
    hide Describes, ReadSlot, HasBoot;
    if p.slot == q.slot {
      LogUnique(c, file, p.st, p.recs, q.recs);
    }
  }

  /** Under the two-superblock invariant `open` takes the active superblock. */
  lemma RecoverablePicks(c: Ctx, file: seq<byte>, active: nat, st: SuperState, recs: seq<Rec>)
    requires c.Valid() && Recoverable(c, file, active, st, recs)
    ensures Picks(c, file, Picked(active, st, recs))
  {
    hide Describes, ReadSlot, HasBoot;
    forall q: Picked | Usable(c, file, q) && q.slot != active
      ensures Before(Picked(active, st, recs), q)
    {
      assert OlderState(c, file, q.st, st, recs);
    }
  }

  // ----- frames

  lemma DescribesFrame(c: Ctx, file: seq<byte>, file': seq<byte>, st: SuperState, recs: seq<Rec>, end: nat)
    requires c.Valid() && Describes(c, file, st, recs)
    requires st.committedEnd <= end <= |file| && end <= |file'|
    requires LOG_START <= end && file[LOG_START..end] == file'[LOG_START..end]
    ensures Describes(c, file', st, recs)
  {
    hide IsLog, LogEnd;
    LogInside(c, file, recs);
    NarrowSlice(file, file', LOG_START, end, LOG_START, st.committedEnd);
    IsLogFrame(c, file, file', recs);
  }

  /** The bytes outside the two superblock slots and past `end` are the same in both files. */
  ghost predicate SameLog(file: seq<byte>, file': seq<byte>, end: nat) {
    && LOG_START <= end <= |file| && end <= |file'|
    && file[..BOOTSTRAP_SIZE] == file'[..BOOTSTRAP_SIZE]
    && file[LOG_START..end] == file'[LOG_START..end]
  }

  ghost predicate SameSlot(file: seq<byte>, file': seq<byte>, slot: nat)
    requires slot < 2
  {
    && LOG_START <= |file| && LOG_START <= |file'|
    && file[SuperOffset(slot)..SuperOffset(slot) + SUPER_SLOT_SIZE] == file'[SuperOffset(slot)..SuperOffset(slot) + SUPER_SLOT_SIZE]
  }

  lemma SameSlotReads(c: Ctx, file: seq<byte>, file': seq<byte>, slot: nat)
    requires c.Valid() && slot < 2 && SameSlot(file, file', slot)
    ensures ReadSlot(c, file, slot) == ReadSlot(c, file', slot)
  {
    hide DecodeSlot;
  }

  lemma PrefixIsSame(file: seq<byte>, file': seq<byte>, end: nat)
    requires LOG_START <= end <= |file| && end <= |file'| && file[..end] == file'[..end]
    ensures SameLog(file, file', end) && SameSlot(file, file', 0) && SameSlot(file, file', 1)
  {
    NarrowSlice(file, file', 0, end, 0, BOOTSTRAP_SIZE);
    NarrowSlice(file, file', 0, end, LOG_START, end);
    NarrowSlice(file, file', 0, end, SUPER_A_OFFSET, SUPER_A_OFFSET + SUPER_SLOT_SIZE);
    NarrowSlice(file, file', 0, end, SUPER_B_OFFSET, SUPER_B_OFFSET + SUPER_SLOT_SIZE);
  }

  /** Recovery depends only on the bytes before the committed end. */
  lemma RecoverableFrame(c: Ctx, file: seq<byte>, file': seq<byte>, active: nat, st: SuperState, recs: seq<Rec>)
    requires c.Valid() && Recoverable(c, file, active, st, recs)
    requires st.committedEnd <= |file| && st.committedEnd <= |file'|
    requires file[..st.committedEnd] == file'[..st.committedEnd]
    ensures Recoverable(c, file', active, st, recs)
  {
    hide Describes, ReadSlot, SameSlot;
    DescribesInside(c, file, st, recs);
    PrefixIsSame(file, file', st.committedEnd);
    SameSlotReads(c, file, file', 0);
    SameSlotReads(c, file, file', 1);
    KeepState(c, file, file', active, st, recs);
  }

  lemma DescribesInside(c: Ctx, file: seq<byte>, st: SuperState, recs: seq<Rec>)
    requires c.Valid() && Describes(c, file, st, recs)
    ensures LOG_START <= st.committedEnd <= |file|
  {
    hide IsLog, LogEnd;
    LogInside(c, file, recs);
  }

  lemma PrefixDescribed(c: Ctx, file: seq<byte>, o: SuperState, st: SuperState, recs: seq<Rec>)
    requires c.Valid() && Describes(c, file, st, recs) && OlderState(c, file, o, st, recs)
    ensures o.committedEnd <= st.committedEnd
  {
    hide IsLog, LogEnd;
    LogEndMonotone(recs, o.recordCount, |recs|);
    assert recs[..|recs|] == recs;
  }

  ghost predicate NothingNew(c: Ctx, file: seq<byte>, file': seq<byte>, slot: nat)
    requires c.Valid() && slot < 2
  {
    forall o :: Holds(c, file', slot, o) ==> Holds(c, file, slot, o)
  }

  /** The same log and the same readings make the same recovery. */
  lemma KeepState(c: Ctx, file: seq<byte>, file': seq<byte>, active: nat, st: SuperState, recs: seq<Rec>)
    requires c.Valid() && Recoverable(c, file, active, st, recs)
    requires SameLog(file, file', st.committedEnd)
    requires Holds(c, file', active, st)
    requires NothingNew(c, file, file', 1 - active)
    ensures Recoverable(c, file', active, st, recs)
  {
    hide Describes, ReadSlot;
    DescribesFrame(c, file, file', st, recs, st.committedEnd);
    forall o | Holds(c, file', 1 - active, o)
      ensures OlderState(c, file', o, st, recs)
    {
      PrefixDescribed(c, file, o, st, recs);
      DescribesFrame(c, file, file', o, recs[..o.recordCount], st.committedEnd);
    }
  }

  /** A newer superblock in the other slot takes over, and the old active one becomes the fallback. */
  lemma Supersede(c: Ctx, file: seq<byte>, file': seq<byte>, active: nat, st: SuperState, recs: seq<Rec>,
                  next: SuperState, more: seq<Rec>)
    requires c.Valid() && Recoverable(c, file, active, st, recs)
    requires SameLog(file, file', st.committedEnd)
    requires Holds(c, file', active, st) && Holds(c, file', 1 - active, next)
    requires Describes(c, file', next, recs + more) && st.generation < next.generation
    ensures Recoverable(c, file', 1 - active, next, recs + more)
  {
    hide Describes, ReadSlot;
    DescribesFrame(c, file, file', st, recs, st.committedEnd);
    DescribesCount(c, file', st, recs);
    assert (recs + more)[..|recs|] == recs;
    assert OlderState(c, file', st, next, recs + more);
  }

  lemma DescribesCount(c: Ctx, file: seq<byte>, st: SuperState, recs: seq<Rec>)
    requires c.Valid() && Describes(c, file, st, recs)
    ensures |recs| == st.recordCount
  {
    hide IsLog, LogEnd;
  }

  // ----- writing a superblock

  lemma SlotWrite(c: Ctx, file: seq<byte>, slot: nat, st: SuperState) returns (file': seq<byte>)
    requires c.Valid() && slot < 2 && LOG_START <= |file| && st.committedEnd >= LOG_START
    ensures file' == Overlay(file, SuperOffset(slot), EncodeSlot(c, slot, st)) && |file'| == |file|
    ensures Holds(c, file', slot, st)
    ensures SameSlot(file, file', 1 - slot) && ReadSlot(c, file, 1 - slot) == ReadSlot(c, file', 1 - slot)
    ensures SameLog(file, file', |file|)
  {
    hide DecodeSlot, EncodeSlot, Overlay;
    file' := Overlay(file, SuperOffset(slot), EncodeSlot(c, slot, st));
    SlotRoundTrip(c, slot, st);
    SameSlotReads(c, file, file', 1 - slot);
  }

  // ----- crashes

  /**
   The files a crash can leave: untouched durable bytes survive, and, the superblocks being sealed, a slot hit
   by the crash reads as it did before or after the pending writes, or is unreadable.
   */
  ghost predicate CrashImage(c: Ctx, d: Disk, image: seq<byte>)
    requires c.Valid()
  {
    && Survives(d, image)
    && (forall slot, st :: 0 <= slot < 2 && Holds(c, image, slot, st) ==>
          Holds(c, d.durable, slot, st) || Holds(c, d.cached, slot, st))
  }

  /** A disk with nothing pending before the committed end: whatever happens next, it recovers to `recs`. */
  ghost predicate Good(c: Ctx, d: Disk, active: nat, st: SuperState, recs: seq<Rec>)
    requires c.Valid()
  {
    && Recoverable(c, d.durable, active, st, recs)
    && TailOps(d.pending, st.committedEnd)
    && LOG_START <= st.committedEnd <= |d.durable| && st.committedEnd <= |d.cached|
    && d.cached[..st.committedEnd] == d.durable[..st.committedEnd]
  }

  lemma SettledGood(c: Ctx, file: seq<byte>, active: nat, st: SuperState, recs: seq<Rec>)
    requires c.Valid() && Recoverable(c, file, active, st, recs)
    ensures Good(c, Settled(file), active, st, recs)
  {
    hide Describes, ReadSlot, HasBoot;
    DescribesInside(c, file, st, recs);
  }

  lemma GoodCached(c: Ctx, d: Disk, active: nat, st: SuperState, recs: seq<Rec>)
    requires c.Valid() && Good(c, d, active, st, recs)
    ensures Recoverable(c, d.cached, active, st, recs)
  {
    hide Recoverable;
    RecoverableFrame(c, d.durable, d.cached, active, st, recs);
  }

  lemma TailSurvives(d: Disk, image: seq<byte>, end: nat)
    requires Survives(d, image) && TailOps(d.pending, end) && end <= |d.durable|
    ensures end <= |image| && image[..end] == d.durable[..end]
  {
    forall i | 0 <= i < end
      ensures Untouched(d.pending, i)
    {
      assert forall k :: 0 <= k < |d.pending| ==> TailOp(d.pending[k], end);
    }
    if end > 0 { assert Untouched(d.pending, end - 1); }
  }

  /** A crash while only the tail is pending loses nothing. */
  lemma CrashInTail(c: Ctx, d: Disk, image: seq<byte>, active: nat, st: SuperState, recs: seq<Rec>)
    requires c.Valid() && Good(c, d, active, st, recs) && CrashImage(c, d, image)
    ensures Recoverable(c, image, active, st, recs)
  {
    hide Recoverable;
    TailSurvives(d, image, st.committedEnd);
    RecoverableFrame(c, d.durable, image, active, st, recs);
  }

  lemma TailStep(c: Ctx, d: Disk, op: Op, active: nat, st: SuperState, recs: seq<Rec>)
    requires c.Valid() && Good(c, d, active, st, recs) && TailOp(op, st.committedEnd)
    ensures Good(c, Step(d, op), active, st, recs)
  {
    hide Recoverable, Overlay, Resize;
    if op.Sync? {
      GoodCached(c, d, active, st, recs);
      RecoverableFrame(c, d.durable, d.cached, active, st, recs);
    }
  }

  lemma {:induction false} TailRun(c: Ctx, d: Disk, ops: seq<Op>, active: nat, st: SuperState, recs: seq<Rec>)
    requires c.Valid() && Good(c, d, active, st, recs) && TailOps(ops, st.committedEnd)
    ensures Good(c, Run(d, ops), active, st, recs)
  {
    hide Good, Step, TailOp;
    if ops != [] {
      var n := |ops| - 1;
      TailRun(c, d, ops[..n], active, st, recs);
      TailStep(c, Run(d, ops[..n]), ops[n], active, st, recs);
    }
  }

  /** What is known while a new superblock is being written over the older one. */
  ghost predicate Publishing(c: Ctx, d: Disk, active: nat, st: SuperState, recs: seq<Rec>, next: SuperState, more: seq<Rec>)
    requires c.Valid()
  {
    && Good(c, d, active, st, recs)
    && st.generation < next.generation
    && Describes(c, d.durable, next, recs + more)
    && TailOps(d.pending, next.committedEnd)
    && next.committedEnd <= |d.cached| && d.cached[..next.committedEnd] == d.durable[..next.committedEnd]
    && st.committedEnd <= next.committedEnd
  }

  /**
   A crash before the superblock write is synced leaves the old state or the new one, the new one exactly when
   the new superblock is readable; a commit never writes the slot recovery would need.
   */
  lemma CrashWhilePublishing(c: Ctx, d: Disk, image: seq<byte>, active: nat, st: SuperState, recs: seq<Rec>,
                             next: SuperState, more: seq<Rec>)
    requires c.Valid() && Publishing(c, d, active, st, recs, next, more)
    requires CrashImage(c, Run(d, SlotOps(c, 1 - active, next)[..1]), image)
    ensures if Holds(c, image, 1 - active, next) then Recoverable(c, image, 1 - active, next, recs + more)
            else Recoverable(c, image, active, st, recs)
  {
    hide Describes, ReadSlot, Overlay, EncodeSlot;
    var slot := 1 - active;
    var op := Write(SuperOffset(slot), EncodeSlot(c, slot, next));
    var d' := Run(d, SlotOps(c, slot, next)[..1]);
    assert SlotOps(c, slot, next)[..1] == [op] && d' == Step(d, op) by {
      assert [op][..0] == [];
      assert Run(d, [op]) == Step(Run(d, []), op);
    }
    DescribesInside(c, d.durable, next, recs + more);
    var cached' := SlotWrite(c, d.cached, slot, next);
    PublishSurvives(d, op, slot, next.committedEnd, image);
    SameSlotReads(c, d.durable, image, active);
    NarrowSlice(d.durable, image, LOG_START, next.committedEnd, LOG_START, st.committedEnd);
    DescribesFrame(c, d.durable, image, next, recs + more, next.committedEnd);
    if Holds(c, image, slot, next) {
      Supersede(c, d.durable, image, active, st, recs, next, more);
    } else {
      KeepState(c, d.durable, image, active, st, recs);
    }
  }

  lemma PublishSurvives(d: Disk, op: Op, slot: nat, end: nat, image: seq<byte>)
    requires slot < 2 && op.Write? && op.offset == SuperOffset(slot) && |op.data| == SUPER_SLOT_SIZE
    requires TailOps(d.pending, end) && LOG_START <= end <= |d.durable|
    requires Survives(Disk(d.durable, Overlay(d.cached, op.offset, op.data), d.pending + [op]), image)
    ensures SameLog(d.durable, image, end) && SameSlot(d.durable, image, 1 - slot)
  {
    hide Overlay;
    var pending := d.pending + [op];
    forall i | 0 <= i < end && !(op.offset <= i < op.offset + SUPER_SLOT_SIZE)
      ensures Untouched(pending, i)
    {
      assert forall k :: 0 <= k < |d.pending| ==> TailOp(d.pending[k], end);
    }
    assert Untouched(pending, end - 1);
  }

  /** Once the superblock write is synced the new state is the recovered one. */
  lemma Published(c: Ctx, d: Disk, active: nat, st: SuperState, recs: seq<Rec>, next: SuperState, more: seq<Rec>)
    requires c.Valid() && Publishing(c, d, active, st, recs, next, more)
    ensures Good(c, Run(d, SlotOps(c, 1 - active, next)), 1 - active, next, recs + more)
  {
    hide Describes, ReadSlot, Overlay, EncodeSlot;
    var slot := 1 - active;
    var ops := SlotOps(c, slot, next);
    RunTwo(d, ops[0], ops[1]);
    DescribesInside(c, d.durable, next, recs + more);
    var cached' := SlotWrite(c, d.cached, slot, next);
    GoodCached(c, d, active, st, recs);
    NarrowSlice(d.cached, cached', LOG_START, |d.cached|, LOG_START, next.committedEnd);
    NarrowSlice(d.cached, cached', LOG_START, |d.cached|, LOG_START, st.committedEnd);
    NarrowSlice(d.cached, d.durable, 0, next.committedEnd, LOG_START, next.committedEnd);
    DescribesFrame(c, d.durable, cached', next, recs + more, next.committedEnd);
    Supersede(c, d.cached, cached', active, st, recs, next, more);
    SettledGood(c, cached', slot, next, recs + more);
  }
}
