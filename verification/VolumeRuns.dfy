/**
 Whole runs of a volume: commits, refused writes, clean and dirty marks, flushes, closes, opens, and crashes in
 the middle of any of them. The main result is that every run recovers to a history that contains each
 transaction that was acknowledged, with a transaction hit by a crash wholly in or wholly out.
 */
module VolumeRuns {
  import opened Bytes
  import opened Storage
  import opened VolumeFormat
  import opened VolumeCodec
  import opened VolumeLog
  import opened VolumeProtocol
  import opened VolumeRecovery

  // ----- histories

  /** The records a history of committed transactions leaves in the log. */
  function RecsOf(history: seq<Tx>): seq<Rec> {
    if history == [] then []
    else
      var before := RecsOf(history[..|history| - 1]);
      before + NewRecs(IndexOf(before), history[|history| - 1])
  }

  function ApplyTx(m: map<u64, seq<byte>>, tx: Tx): map<u64, seq<byte>> {
    if tx == [] then m else ApplyTx(m, tx[..|tx| - 1])[tx[|tx| - 1].0 := tx[|tx| - 1].1]
  }

  /** The block map a history stands for: each transaction overwrites its blocks. */
  function MapOf(history: seq<Tx>): map<u64, seq<byte>> {
    if history == [] then map[] else ApplyTx(MapOf(history[..|history| - 1]), history[|history| - 1])
  }

  lemma {:induction false} AppendedData(recs: seq<Rec>, index: map<u64, RecordIndex>, tx: Tx)
    ensures DataOf(recs + NewRecs(index, tx)) == ApplyTx(DataOf(recs), tx)
  {
    hide NextGeneration;
    if tx == [] {
      assert recs + NewRecs(index, tx) == recs;
    } else {
      var n := |tx| - 1;
      AppendedData(recs, index, tx[..n]);
      var more := NewRecs(index, tx);
      assert NewRecs(index, tx[..n]) == more[..n];
      assert recs + more == recs + more[..n] + [more[n]];
      IndexSnoc(recs + more[..n], more[n]);
    }
  }

  /** The log of a history holds the map of the history. */
  lemma {:induction false} HistoryMap(history: seq<Tx>)
    ensures DataOf(RecsOf(history)) == MapOf(history)
  {
    if history != [] {
      var n := |history| - 1;
      HistoryMap(history[..n]);
      var before := RecsOf(history[..n]);
      AppendedData(before, IndexOf(before), history[n]);
    }
  }

  /** How many entries of a transaction, and of a history, write a block. */
  function TxWrites(tx: Tx, block: u64): nat {
    if tx == [] then 0 else TxWrites(tx[..|tx| - 1], block) + (if tx[|tx| - 1].0 == block then 1 else 0)
  }

  function Writes(history: seq<Tx>, block: u64): nat {
    if history == [] then 0 else Writes(history[..|history| - 1], block) + TxWrites(history[|history| - 1], block)
  }

  function TxSize(tx: Tx): nat {
    if tx == [] then 0 else TxSize(tx[..|tx| - 1]) + 48 + |tx[|tx| - 1].1|
  }

  function HistorySize(history: seq<Tx>): nat {
    if history == [] then 0 else HistorySize(history[..|history| - 1]) + TxSize(history[|history| - 1])
  }

  function HistoryCount(history: seq<Tx>): nat {
    if history == [] then 0 else HistoryCount(history[..|history| - 1]) + |history[|history| - 1]|
  }

  ghost predicate DistinctBlocks(tx: Tx) {
    forall i, j :: 0 <= i < j < |tx| ==> tx[i].0 != tx[j].0
  }

  lemma {:induction false} NoWrites(tx: Tx, block: u64)
    requires forall i :: 0 <= i < |tx| ==> tx[i].0 != block
    ensures TxWrites(tx, block) == 0
  {
    if tx != [] {
      NoWrites(tx[..|tx| - 1], block);
    }
  }

  lemma {:induction false} AppendedCounts(recs: seq<Rec>, index: map<u64, RecordIndex>, tx: Tx, block: u64)
    requires DistinctBlocks(tx) && index == IndexOf(recs)
    ensures LastGeneration(recs + NewRecs(index, tx), block) == LastGeneration(recs, block) + TxWrites(tx, block)
    ensures LogEnd(recs + NewRecs(index, tx)) == LogEnd(recs) + TxSize(tx)
  {
    hide IndexOf, LogEnd;
    var more := NewRecs(index, tx);
    if tx == [] {
      assert recs + more == recs;
    } else {
      var n := |tx| - 1;
      AppendedCounts(recs, index, tx[..n], block);
      assert NewRecs(index, tx[..n]) == more[..n];
      assert recs + more == recs + more[..n] + [more[n]];
      IndexSnoc(recs + more[..n], more[n]);
      LogEndSnoc(recs + more[..n], more[n]);
      if tx[n].0 == block {
        NoWrites(tx[..n], block);
      }
    }
  }

  /** Accounting: generations count writes, and the log is exactly as long as its records. */
  lemma {:induction false} HistoryAccounting(history: seq<Tx>, block: u64)
    requires forall i :: 0 <= i < |history| ==> DistinctBlocks(history[i])
    ensures LastGeneration(RecsOf(history), block) == Writes(history, block)
    ensures LogEnd(RecsOf(history)) == LOG_START + HistorySize(history)
    ensures |RecsOf(history)| == HistoryCount(history)
  {
    hide IndexOf, NewRecs, TxSize, TxWrites, DistinctBlocks;
    if history == [] {
      assert LastGeneration(RecsOf(history), block) == 0 by { EmptyIndex(); }
    } else {
      var n := |history| - 1;
      HistoryAccounting(history[..n], block);
      var before := RecsOf(history[..n]);
      AppendedCounts(before, IndexOf(before), history[n], block);
    }
  }

  lemma EmptyIndex()
    ensures IndexOf([]) == map[]
  {
  }

  // ----- runs

  datatype Sys = Sys(disk: Disk, mem: Option<Mem>)

  /** Something the program does with the file. `Refusing` lists what a refused write put on the disk first. */
  datatype Activity =
    | Idle
    | Writing(tx: Tx)
    | Refusing(tx: Tx, ops: seq<Op>)
    | Marking(clean: bool)
    | Flushing
    | Opening(p: Picked)

  datatype Event =
    | Done(a: Activity)
    | Crash(a: Activity, issued: nat, image: seq<byte>)
    | Close

  /** A mark is bounded away from the last generation, where the counter sticks; see `MarkSurvives`. */
  ghost predicate Enabled(c: Ctx, s: Sys, a: Activity)
    requires c.Valid()
  {
    match a
    case Idle => true
    case Writing(tx) => s.mem.Some? && s.mem.value.active < 2 && Accepts(c, s.mem.value, tx)
    case Refusing(tx, ops) => s.mem.Some? && WriteError(c, s.mem.value, tx).Some? && TailOps(ops, s.mem.value.state.committedEnd)
    case Marking(_) => s.mem.Some? && s.mem.value.active < 2 && s.mem.value.state.generation < U64_MAX
    case Flushing => s.mem.Some?
    case Opening(p) => s.mem.None? && Picks(c, s.disk.cached, p)
  }

  function OpenOps(file: seq<byte>, p: Picked): seq<Op> {
    if |file| > p.st.committedEnd then [SetLen(p.st.committedEnd), Sync] else []
  }

  ghost function OpsOf(c: Ctx, s: Sys, a: Activity): seq<Op>
    requires c.Valid() && Enabled(c, s, a)
  {
    match a
    case Idle => []
    case Writing(tx) => CommitOps(c, s.mem.value, tx)
    case Refusing(_, ops) => ops
    case Marking(clean) => MarkOps(c, s.mem.value, clean)
    case Flushing => [Sync]
    case Opening(p) => OpenOps(s.disk.cached, p)
  }

  ghost function MemAfter(c: Ctx, s: Sys, a: Activity): Option<Mem>
    requires c.Valid() && Enabled(c, s, a)
  {
    match a
    case Writing(tx) => Some(CommitMem(s.mem.value, tx))
    case Marking(clean) => Some(MarkMem(s.mem.value, clean))
    case Opening(p) => Some(Mem(p.st, p.slot, IndexOf(p.recs)))
    case _ => s.mem
  }

  ghost predicate Next(c: Ctx, s: Sys, e: Event, s': Sys)
    requires c.Valid()
  {
    match e
    case Done(a) => Enabled(c, s, a) && s' == Sys(Run(s.disk, OpsOf(c, s, a)), MemAfter(c, s, a))
    case Crash(a, issued, image) =>
      && Enabled(c, s, a) && issued <= |OpsOf(c, s, a)|
      && CrashImage(c, Run(s.disk, OpsOf(c, s, a)[..issued]), image)
      && s' == Sys(Settled(image), None)
    case Close => s' == s.(mem := None)
  }

  /** What `create` puts on the disk. */
  function CreateOps(c: Ctx): seq<Op>
    requires c.boot.Valid()
  {
    [Write(0, c.boot.Encode()), SetLen(LOG_START),
     Write(SUPER_A_OFFSET, EncodeSlot(c, 0, FIRST_STATE)), Write(SUPER_B_OFFSET, EncodeSlot(c, 1, BACKUP_STATE)), Sync]
  }

  const FIRST_STATE: SuperState := SuperState(1, LOG_START, 0, true)
  const BACKUP_STATE: SuperState := SuperState(0, LOG_START, 0, true)

  ghost predicate Init(c: Ctx, s: Sys)
    requires c.Valid()
  {
    s == Sys(Run(Settled([]), CreateOps(c)), Some(Mem(FIRST_STATE, 0, map[])))
  }

  ghost predicate Behaviour(c: Ctx, states: seq<Sys>, events: seq<Event>)
    requires c.Valid()
  {
    && |states| == |events| + 1
    && Init(c, states[0])
    && (forall i :: 0 <= i < |events| ==> Next(c, states[i], events[i], states[i + 1]))
  }

  /**
   `history` is a possible outcome of `events`: acknowledged transactions are in it, in order; one hit by a
   crash is out if its superblock write was not issued, in if that write was synced, and otherwise in or out.
   */
  ghost predicate Explains(events: seq<Event>, history: seq<Tx>) {
    if events == [] then history == []
    else
      var before := events[..|events| - 1];
      match events[|events| - 1]
      case Done(Writing(tx)) => EndsWith(history, tx) && Explains(before, history[..|history| - 1])
      case Crash(Writing(tx), issued, _) =>
        || (issued <= 2 * |tx| + 2 && Explains(before, history))
        || (issued >= 2 * |tx| + 2 && EndsWith(history, tx) && Explains(before, history[..|history| - 1]))
      case _ => Explains(before, history)
  }

  ghost predicate EndsWith(history: seq<Tx>, tx: Tx) {
    history != [] && history[|history| - 1] == tx
  }

  // ----- the invariant

  /** What the disk stands for, independent of whether the volume is open. */
  datatype View = View(active: nat, st: SuperState, history: seq<Tx>)

  ghost predicate Inv(c: Ctx, s: Sys, v: View)
    requires c.Valid()
  {
    && Good(c, s.disk, v.active, v.st, RecsOf(v.history))
    && (forall i :: 0 <= i < |v.history| ==> ValidTx(c, v.history[i]))
    && (s.mem.Some? ==> s.mem.value == Mem(v.st, v.active, IndexOf(RecsOf(v.history))))
  }

  /** Either nothing was published, or the next generation went to the other slot. */
  ghost predicate Turned(v: View, v': View) {
    || (v'.active == v.active && v'.st.generation == v.st.generation)
    || (v'.active == 1 - v.active && v'.st.generation == v.st.generation + 1)
  }

  lemma {:induction false} AppendOpsCount(c: Ctx, from: nat, recs: seq<Rec>)
    requires c.Valid() && forall i :: 0 <= i < |recs| ==> RecFits(c, recs[i])
    ensures |AppendOps(c, from, recs)| == 2 * |recs|
  {
    hide RecFits, TailEnd;
    if recs != [] {
      AppendOpsCount(c, from, recs[..|recs| - 1]);
    }
  }

  lemma NewRecsContinue(recs: seq<Rec>, tx: Tx)
    requires DistinctBlocks(tx)
    ensures Continues(recs, NewRecs(IndexOf(recs), tx))
  {
    hide IndexOf;
  }

  /** Appending and syncing makes the new records durable without disturbing the published state. */
  lemma CommitPrepares(c: Ctx, d: Disk, m: Mem, recs: seq<Rec>, tx: Tx)
    requires c.Valid() && Good(c, d, m.active, m.state, recs) && m.index == IndexOf(recs) && m.active < 2
    requires Accepts(c, m, tx)
    ensures var more := NewRecs(m.index, tx);
            && (forall i :: 0 <= i < |more| ==> RecFits(c, more[i]))
            && TailOps(AppendOps(c, m.state.committedEnd, more) + [Sync], m.state.committedEnd)
            && Publishing(c, Run(d, AppendOps(c, m.state.committedEnd, more) + [Sync]), m.active, m.state, recs,
                          CommitState(m, tx), more)
  {
    hide Recoverable, IsLog, LogEnd, IndexOf, RecFits, NewRecs, ValidTx, Cipher.Lawful;
    var more := NewRecs(m.index, tx);
    var end := m.state.committedEnd;
    NewRecsFit(c, m, tx);
    assert DistinctBlocks(tx) by { ValidIsDistinct(c, tx); }
    NewRecsContinue(recs, tx);
    GoodCached(c, d, m.active, m.state, recs);
    RecoverableLog(c, d.cached, m.active, m.state, recs);
    AppendExtendsLog(c, d, recs, more);
    TailEndIsLogEnd(recs, more);
    var ops := AppendOps(c, end, more) + [Sync];
    TailRun(c, d, ops, m.active, m.state, recs);
    LogInside(c, Run(d, AppendOps(c, end, more)).cached, recs + more);
  }

  lemma RecoverableLog(c: Ctx, file: seq<byte>, active: nat, st: SuperState, recs: seq<Rec>)
    requires c.Valid() && Recoverable(c, file, active, st, recs)
    ensures IsLog(c, file, recs) && LogEnd(recs) == st.committedEnd && |recs| == st.recordCount
  {
    hide IsLog, ReadSlot, HasBoot;
  }

  lemma ValidIsDistinct(c: Ctx, tx: Tx)
    requires c.Valid() && ValidTx(c, tx)
    ensures DistinctBlocks(tx)
  {
  }

  /** A mark's superblock describes the very same records. */
  lemma MarkPrepares(c: Ctx, d: Disk, m: Mem, recs: seq<Rec>, clean: bool)
    requires c.Valid() && Good(c, d, m.active, m.state, recs) && m.active < 2
    requires m.state.generation < U64_MAX
    ensures Publishing(c, d, m.active, m.state, recs, MarkState(m.state, clean), [])
  {
    hide IsLog, LogEnd, ReadSlot, HasBoot;
    assert recs + [] == recs;
  }

  lemma Prefix(ops: seq<Op>, more: seq<Op>, n: nat)
    requires n <= |ops| + |more|
    ensures n <= |ops| ==> (ops + more)[..n] == ops[..n]
    ensures n > |ops| ==> (ops + more)[..n] == ops + more[..n - |ops|]
  {
  }

  lemma TailPrefix(ops: seq<Op>, n: nat, end: nat)
    requires TailOps(ops, end) && n <= |ops|
    ensures TailOps(ops[..n], end)
  {
  }

  /** A crash among operations that touch only the tail leaves the state as it was. */
  lemma CrashInTailOps(c: Ctx, d: Disk, ops: seq<Op>, active: nat, st: SuperState, recs: seq<Rec>, issued: nat, image: seq<byte>)
    requires c.Valid() && Good(c, d, active, st, recs) && TailOps(ops, st.committedEnd) && issued <= |ops|
    requires CrashImage(c, Run(d, ops[..issued]), image)
    ensures Good(c, Settled(image), active, st, recs)
  {
    hide Good, Recoverable, CrashImage, TailOps;
    TailPrefix(ops, issued, st.committedEnd);
    TailRun(c, d, ops[..issued], active, st, recs);
    CrashInTail(c, Run(d, ops[..issued]), image, active, st, recs);
    SettledGood(c, image, active, st, recs);
  }

  /** A crash once the superblock write has been issued: the old state or the new one, and the new one once it is synced. */
  lemma CrashInSlotOps(c: Ctx, d: Disk, active: nat, st: SuperState, recs: seq<Rec>, next: SuperState, more: seq<Rec>,
                       issued: nat, image: seq<byte>) returns (switched: bool)
    requires c.Valid() && active < 2 && Publishing(c, d, active, st, recs, next, more) && 1 <= issued <= 2
    requires CrashImage(c, Run(d, SlotOps(c, 1 - active, next)[..issued]), image)
    ensures if switched then Good(c, Settled(image), 1 - active, next, recs + more) else Good(c, Settled(image), active, st, recs)
    ensures issued == 2 ==> switched
  {
    hide Good, Publishing, Recoverable, SlotOps, CrashImage, Cipher.Lawful;
    var slot := 1 - active;
    SlotOpsSize(c, slot, next);
    if issued == 1 {
      CrashWhilePublishing(c, d, image, active, st, recs, next, more);
      switched := Holds(c, image, slot, next);
    } else {
      assert SlotOps(c, slot, next)[..2] == SlotOps(c, slot, next);
      Published(c, d, active, st, recs, next, more);
      CrashInTail(c, Run(d, SlotOps(c, slot, next)), image, slot, next, recs + more);
      switched := true;
    }
    if switched {
      SettledGood(c, image, slot, next, recs + more);
    } else {
      SettledGood(c, image, active, st, recs);
    }
  }

  /** The operations of a commit up to `issued`: part of the appends and their sync, or all of them and part of the rest. */
  lemma CommitCut(c: Ctx, d: Disk, m: Mem, tx: Tx, issued: nat)
    requires c.Valid() && m.active < 2 && Accepts(c, m, tx) && issued <= |CommitOps(c, m, tx)|
    requires forall r :: r in NewRecs(m.index, tx) ==> RecFits(c, r)
    ensures var ops := AppendOps(c, m.state.committedEnd, NewRecs(m.index, tx)) + [Sync];
            var slotOps := SlotOps(c, 1 - m.active, CommitStateOf(c, m, tx));
            && |ops| == 2 * |tx| + 1 && |slotOps| == 2 && issued <= |ops| + 2
            && if issued <= |ops| then CommitOps(c, m, tx)[..issued] == ops[..issued]
               else Run(d, CommitOps(c, m, tx)[..issued]) == Run(Run(d, ops), slotOps[..issued - |ops|])
  {
    hide Accepts, AppendOps, SlotOps, RecFits, NewRecs, CommitState, Run;
    var new_ := NewRecs(m.index, tx);
    var ops, slotOps := AppendOps(c, m.state.committedEnd, new_) + [Sync], SlotOps(c, 1 - m.active, CommitStateOf(c, m, tx));
    AppendOpsCount(c, m.state.committedEnd, new_);
    SlotOpsSize(c, 1 - m.active, CommitStateOf(c, m, tx));
    Prefix(ops, slotOps, issued);
    if issued > |ops| {
      RunAppend(d, ops, slotOps[..issued - |ops|]);
    }
  }

  /** A crash anywhere in a commit leaves the old history or the new one, as `Explains` says. */
  lemma CrashInCommit(c: Ctx, s: Sys, v: View, tx: Tx, issued: nat, image: seq<byte>) returns (v': View)
    requires c.Valid() && Inv(c, s, v) && Enabled(c, s, Writing(tx))
    requires issued <= |OpsOf(c, s, Writing(tx))|
    requires CrashImage(c, Run(s.disk, OpsOf(c, s, Writing(tx))[..issued]), image)
    ensures Inv(c, Sys(Settled(image), None), v')
    ensures (v' == v && issued <= 2 * |tx| + 2)
            || (v'.history == v.history + [tx] && !v'.st.clean && issued >= 2 * |tx| + 2)
    ensures Turned(v, v')
  {
    hide Good, Publishing, Recoverable, IndexOf, RecsOf, AppendOps, SlotOps, CommitOps, CrashImage, RecFits, Accepts,
         CommitState, NewRecs, TailOps, Run, Cipher.Lawful;
    var m, recs := s.mem.value, RecsOf(v.history);
    var more, next := NewRecs(m.index, tx), CommitStateOf(c, m, tx);
    CommitPrepares(c, s.disk, m, recs, tx);
    CommitCut(c, s.disk, m, tx, issued);
    var ops := AppendOps(c, m.state.committedEnd, more) + [Sync];
    v' := v;
    if issued <= |ops| {
      CrashInTailOps(c, s.disk, ops, m.active, m.state, recs, issued, image);
    } else {
      GoodLog(c, s.disk, v.active, v.st, recs);
      var switched := CrashInSlotOps(c, Run(s.disk, ops), m.active, m.state, recs, next, more, issued - |ops|, image);
      if switched {
        v' := AfterCommit(c, m, v, tx);
      }
    }
  }

  lemma SlotOpsSize(c: Ctx, slot: nat, st: SuperState)
    requires c.Valid() && slot < 2
    ensures |SlotOps(c, slot, st)| == 2
  {
  }

  ghost function CommitStateOf(c: Ctx, m: Mem, tx: Tx): (st: SuperState)
    requires c.Valid() && Accepts(c, m, tx)
    ensures st == CommitState(m, tx) && !st.clean && st.generation == m.state.generation + 1
  {
    CommitState(m, tx)
  }

  /** The view a commit moves to. */
  lemma AfterCommit(c: Ctx, m: Mem, v: View, tx: Tx) returns (v': View)
    requires c.Valid() && Accepts(c, m, tx) && m.active < 2
    requires m == Mem(v.st, v.active, IndexOf(RecsOf(v.history))) && v.st.committedEnd == LogEnd(RecsOf(v.history))
    requires forall i :: 0 <= i < |v.history| ==> ValidTx(c, v.history[i])
    ensures v' == View(1 - m.active, CommitState(m, tx), v.history + [tx])
    ensures v'.st.generation == m.state.generation + 1
    ensures RecsOf(v'.history) == RecsOf(v.history) + NewRecs(m.index, tx)
    ensures forall i :: 0 <= i < |v'.history| ==> ValidTx(c, v'.history[i])
    ensures CommitMem(m, tx) == Mem(v'.st, v'.active, IndexOf(RecsOf(v'.history)))
  {
    hide ValidTx, IndexOf, NewRecs;
    v' := View(1 - m.active, CommitState(m, tx), v.history + [tx]);
    assert (v.history + [tx])[..|v.history|] == v.history;
    TailEndIsLogEnd(RecsOf(v.history), NewRecs(m.index, tx));
  }

  lemma GoodLog(c: Ctx, d: Disk, active: nat, st: SuperState, recs: seq<Rec>)
    requires c.Valid() && Good(c, d, active, st, recs)
    ensures st.committedEnd == LogEnd(recs) && |recs| == st.recordCount && active < 2
  {
    hide IsLog, ReadSlot, HasBoot, LogEnd;
  }

  lemma CommitDone(c: Ctx, s: Sys, v: View, tx: Tx) returns (v': View)
    requires c.Valid() && Inv(c, s, v) && Enabled(c, s, Writing(tx))
    ensures Inv(c, Sys(Run(s.disk, OpsOf(c, s, Writing(tx))), MemAfter(c, s, Writing(tx))), v')
    ensures v'.history == v.history + [tx] && !v'.st.clean && Turned(v, v')
  {
    hide Good, Publishing, Recoverable, IndexOf, RecsOf, AppendOps, SlotOps, RecFits, Accepts, CommitState, NewRecs, TailOps, Run,
         LogEnd;
    var m, recs := s.mem.value, RecsOf(v.history);
    var more, next, slot := NewRecs(m.index, tx), CommitStateOf(c, m, tx), 1 - m.active;
    CommitPrepares(c, s.disk, m, recs, tx);
    var ops := AppendOps(c, m.state.committedEnd, more) + [Sync];
    RunAppend(s.disk, ops, SlotOps(c, slot, next));
    Published(c, Run(s.disk, ops), m.active, m.state, recs, next, more);
    GoodLog(c, s.disk, v.active, v.st, recs);
    v' := AfterCommit(c, m, v, tx);
  }

  lemma CrashInMark(c: Ctx, s: Sys, v: View, clean: bool, issued: nat, image: seq<byte>) returns (v': View)
    requires c.Valid() && Inv(c, s, v) && Enabled(c, s, Marking(clean))
    requires issued <= |OpsOf(c, s, Marking(clean))|
    requires CrashImage(c, Run(s.disk, OpsOf(c, s, Marking(clean))[..issued]), image)
    ensures Inv(c, Sys(Settled(image), None), v')
    ensures v'.history == v.history && (v'.st.clean == v.st.clean || v'.st.clean == clean) && Turned(v, v')
  {
    hide Good, Publishing, Recoverable, IndexOf, RecsOf, SlotOps, CrashImage, Cipher.Lawful;
    var m, recs := s.mem.value, RecsOf(v.history);
    var next, slot := MarkState(m.state, clean), 1 - m.active;
    v' := v;
    GoodLog(c, s.disk, v.active, v.st, recs);
    if issued == 0 {
      assert OpsOf(c, s, Marking(clean))[..0] == [];
      CrashInTail(c, s.disk, image, v.active, v.st, recs);
      SettledGood(c, image, v.active, v.st, recs);
    } else {
      SlotOpsSize(c, slot, next);
      MarkPrepares(c, s.disk, m, recs, clean);
      assert recs + [] == recs;
      var switched := CrashInSlotOps(c, s.disk, m.active, m.state, recs, next, [], issued, image);
      if switched {
        v' := View(slot, next, v.history);
      }
    }
  }

  lemma MarkDone(c: Ctx, s: Sys, v: View, clean: bool) returns (v': View)
    requires c.Valid() && Inv(c, s, v) && Enabled(c, s, Marking(clean))
    ensures Inv(c, Sys(Run(s.disk, OpsOf(c, s, Marking(clean))), MemAfter(c, s, Marking(clean))), v')
    ensures v'.history == v.history && v'.st.clean == clean && Turned(v, v')
  {
    hide Good, Publishing, Recoverable, IndexOf, RecsOf, SlotOps;
    var m, recs := s.mem.value, RecsOf(v.history);
    v' := v;
    if m.state.clean != clean {
      GoodLog(c, s.disk, v.active, v.st, recs);
      MarkPrepares(c, s.disk, m, recs, clean);
      assert recs + [] == recs;
      Published(c, s.disk, m.active, m.state, recs, MarkState(m.state, clean), []);
      v' := View(1 - m.active, MarkState(m.state, clean), v.history);
    }
  }

  /** Idling, refusing, flushing and opening touch only the tail. */
  lemma TailActivity(c: Ctx, s: Sys, v: View, a: Activity)
    requires c.Valid() && Inv(c, s, v) && Enabled(c, s, a) && !a.Writing? && !a.Marking?
    ensures TailOps(OpsOf(c, s, a), v.st.committedEnd)
    ensures a.Opening? ==> a.p == Picked(v.active, v.st, RecsOf(v.history))
  {
    hide Recoverable, Picks, IndexOf, RecsOf;
    if a.Opening? {
      var recs := RecsOf(v.history);
      GoodCached(c, s.disk, v.active, v.st, recs);
      RecoverablePicks(c, s.disk.cached, v.active, v.st, recs);
      PicksUnique(c, s.disk.cached, a.p, Picked(v.active, v.st, recs));
    }
  }

  /** Every step keeps the invariant, and moves the history exactly as acknowledged. */
  lemma StepKeeps(c: Ctx, s: Sys, e: Event, s': Sys, v: View) returns (v': View)
    requires c.Valid() && Inv(c, s, v) && Next(c, s, e, s')
    ensures Inv(c, s', v')
    ensures HistoryStep(e, v.history, v'.history)
    ensures CleanStep(e, v.st.clean, v'.st.clean)
    ensures Turned(v, v')
  {
    hide Good, IndexOf, RecsOf, OpsOf, CrashImage, Picks, Accepts, TailOps;
    v' := v;
    var recs := RecsOf(v.history);
    match e
    case Done(Writing(tx)) => v' := CommitDone(c, s, v, tx);
    case Done(Marking(clean)) => v' := MarkDone(c, s, v, clean);
    case Crash(Writing(tx), issued, image) => v' := CrashInCommit(c, s, v, tx, issued, image);
    case Crash(Marking(clean), issued, image) => v' := CrashInMark(c, s, v, clean, issued, image);
    case Done(a) =>
      TailActivity(c, s, v, a);
      TailRun(c, s.disk, OpsOf(c, s, a), v.active, v.st, recs);
    case Crash(a, issued, image) =>
      TailActivity(c, s, v, a);
      CrashInTailOps(c, s.disk, OpsOf(c, s, a), v.active, v.st, recs, issued, image);
    case Close =>
  }

  ghost predicate HistoryStep(e: Event, before: seq<Tx>, after: seq<Tx>) {
    match e
    case Done(Writing(tx)) => after == before + [tx]
    case Crash(Writing(tx), issued, _) =>
      (issued <= 2 * |tx| + 2 && after == before) || (issued >= 2 * |tx| + 2 && after == before + [tx])
    case _ => after == before
  }

  /** The clean flag changes only as the last completed commit or mark says, or as one hit by a crash may. */
  ghost predicate CleanStep(e: Event, before: bool, after: bool) {
    match e
    case Done(Writing(_)) => !after
    case Done(Marking(clean)) => after == clean
    case Crash(Writing(_), _, _) => after ==> before
    case Crash(Marking(clean), _, _) => after == before || after == clean
    case _ => after == before
  }

  // ----- main results

  /**
   Crash atomicity and durability. After any run there is a history that explains it, and the invariant holds
   for that history.
   */
  lemma {:induction false} RunExplained(c: Ctx, states: seq<Sys>, events: seq<Event>) returns (v: View)
    requires c.Valid() && Behaviour(c, states, events)
    ensures Inv(c, states[|events|], v) && Explains(events, v.history)
    ensures v.active < 2 && (v.active == 0 <==> v.st.generation % 2 == 1)
  {
    hide Inv, Next, Init;
    if events == [] {
      v := InitInv(c, states[0]);
    } else {
      var n := |events| - 1;
      var u := RunExplained(c, states[..n + 1], events[..n]);
      v := StepKeeps(c, states[n], events[n], states[n + 1], u);
      assert v.history[..|u.history|] == u.history;
      if |v.history| > 0 { assert v.history == u.history || v.history[..|v.history| - 1] == u.history; }
    }
  }

  lemma InitInv(c: Ctx, s: Sys) returns (v: View)
    requires c.Valid() && Init(c, s)
    ensures Inv(c, s, v) && v == View(0, FIRST_STATE, [])
  {
    v := View(0, FIRST_STATE, []);
    CreatedGood(c);
  }

  /** The file `create` leaves recovers to the empty log, from slot 0, with slot 1 as the older copy. */
  lemma CreatedGood(c: Ctx)
    requires c.Valid()
    ensures Good(c, Run(Settled([]), CreateOps(c)), 0, FIRST_STATE, [])
  {
    hide Overlay, Resize, EncodeSlot, DecodeSlot, Bootstrap.Valid, Bootstrap.Decode;
    var ops := CreateOps(c);
    var f1 := Overlay([], 0, c.boot.Encode());
    var f2 := Resize(f1, LOG_START);
    var f3 := SlotWrite(c, f2, 0, FIRST_STATE);
    var f4 := SlotWrite(c, f3, 1, BACKUP_STATE);
    FiveSteps(Settled([]), ops);
    assert f4[..BOOTSTRAP_SIZE] == c.boot.Encode() by {
      assert f1[..BOOTSTRAP_SIZE] == f1[0..0 + |c.boot.Encode()|];
      assert f2[..BOOTSTRAP_SIZE] == f1[..BOOTSTRAP_SIZE];
    }
    BootstrapRoundTrip(c.boot);
    EmptyLog(c, f4);
    assert Recoverable(c, f4, 0, FIRST_STATE, []) by {
      forall o | Holds(c, f4, 1, o)
        ensures OlderState(c, f4, o, FIRST_STATE, [])
      {
        assert o == BACKUP_STATE;
        var none: seq<Rec> := [];
        assert none[..0] == [];
      }
    }
    SettledGood(c, f4, 0, FIRST_STATE, []);
  }

  lemma EmptyLog(c: Ctx, file: seq<byte>)
    requires c.Valid() && |file| >= LOG_START
    ensures Describes(c, file, FIRST_STATE, []) && Describes(c, file, BACKUP_STATE, [])
  {
  }

  lemma FiveSteps(d: Disk, ops: seq<Op>)
    requires |ops| == 5
    ensures Run(d, ops) == Step(Step(Step(Step(Step(d, ops[0]), ops[1]), ops[2]), ops[3]), ops[4])
  {
    hide Step;
    assert ops[..4][..3] == ops[..3] && ops[..3][..2] == ops[..2] && ops[..2][..1] == ops[..1] && ops[..1][..0] == [];
    assert Run(d, ops[..1]) == Step(Run(d, []), ops[0]);
    assert Run(d, ops[..2]) == Step(Run(d, ops[..1]), ops[1]);
    assert Run(d, ops[..3]) == Step(Run(d, ops[..2]), ops[2]);
    assert Run(d, ops[..4]) == Step(Run(d, ops[..3]), ops[3]);
  }

  /** Whatever the next crash leaves, `open` succeeds and finds exactly the blocks of the history. */
  lemma RecoversTo(c: Ctx, s: Sys, v: View, image: seq<byte>) returns (p: Picked)
    requires c.Valid() && Inv(c, s, v) && CrashImage(c, s.disk, image)
    ensures Picks(c, image, p) && DataOf(p.recs) == MapOf(v.history) && p.st.clean == v.st.clean
  {
    hide Good, IndexOf, RecsOf, CrashImage, Picks, MapOf, DataOf;
    CrashInTail(c, s.disk, image, v.active, v.st, RecsOf(v.history));
    RecoverablePicks(c, image, v.active, v.st, RecsOf(v.history));
    HistoryMap(v.history);
    p := Picked(v.active, v.st, RecsOf(v.history));
  }

  /**
   The main theorem in one statement: for every run there is one history, explained by what was acknowledged,
   to which every file that a crash may now leave recovers.
   */
  lemma CrashAtomicity(c: Ctx, states: seq<Sys>, events: seq<Event>)
    requires c.Valid() && Behaviour(c, states, events)
    ensures exists history :: Explains(events, history) && AlwaysRecovers(c, states[|events|].disk, history)
  {
    hide Inv, Explains, Next, Init;
    var v := RunExplained(c, states, events);
    forall image | CrashImage(c, states[|events|].disk, image)
      ensures RecoversMap(c, image, v.history)
    {
      var p := RecoversTo(c, states[|events|], v, image);
    }
    assert AlwaysRecovers(c, states[|events|].disk, v.history);
  }

  ghost predicate AlwaysRecovers(c: Ctx, d: Disk, history: seq<Tx>)
    requires c.Valid()
  {
    forall image :: CrashImage(c, d, image) ==> RecoversMap(c, image, history)
  }

  ghost predicate RecoversMap(c: Ctx, image: seq<byte>, history: seq<Tx>)
    requires c.Valid()
  {
    exists p :: Picks(c, image, p) && DataOf(p.recs) == MapOf(history)
  }
}
