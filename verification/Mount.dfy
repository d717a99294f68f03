/**
 The mount host around a volume: the main thread, the stop watcher and the dispatcher callbacks, as one state
 machine. A crash while a disk is mounted leaves a volume that reopens dirty until the next clean mark, and a clean
 mark follows a running dispatcher only after Windows has dismounted the disk and the volume was synced.
 */
module Mount {
  import opened Bytes
  import opened Storage
  import opened VolumeFormat
  import opened VolumeCodec
  import opened VolumeLog
  import opened VolumeProtocol
  import opened VolumeRecovery
  import opened VolumeRuns
  import opened VolumeResults

  /** Where the main thread of the host is; the optional partition set-up before a mount is `Preparing` to `Prepared`. */
  datatype Pc = Down | Preparing | Written | Prepared | Opened | MarkedDirty | Armed | Running | Stopped | Flushed | Closed

  datatype Watch = Waiting | Dismounted | Synced | Finished

  /**
   `safe` is the process-wide flag SAFE_SHUTDOWN; it outlives a mount and starts with any value. `hit` records that
   a crash has found the disk mounted and that no clean mark has been written since.
   */
  datatype Host = Host(sys: Sys, pc: Pc, safe: bool, watch: Watch, hit: bool)

  datatype HostEvent =
    | InitOpen(p: Picked)
    | InitWrite(tx: Tx)
    | InitSync
    | InitClean
    | InitFails(a: Activity)
    | Mount(p: Picked)
    | MarkDirty
    | ClearSafe
    | Start
    | StartFails
    | Callback(a: Activity)
    | WatcherDismounts
    | WatcherSyncs
    | WatcherRetries
    | WatcherSetsSafe
    | DispatcherStops
    | FinalFlush
    | FinishClean
    | FinishDirty
    | CloseFile
    | Crashes(a: Activity, issued: nat, image: seq<byte>)

  /** From the dirty mark until the volume is closed. */
  predicate Mounted(pc: Pc) {
    pc.MarkedDirty? || pc.Armed? || pc.Running? || pc.Stopped? || pc.Flushed?
  }

  predicate SettingUp(pc: Pc) {
    pc.Preparing? || pc.Written? || pc.Prepared?
  }

  /** What the host may be doing to the volume when it crashes. */
  predicate InProgress(h: Host, a: Activity) {
    match a
    case Idle => !h.pc.Down?
    case Opening(_) => h.pc.Down?
    case Writing(_) => h.pc.Running? || h.pc.Preparing?
    case Refusing(_, _) => h.pc.Running? || h.pc.Preparing?
    case Flushing => h.pc.Running? || h.pc.Stopped? || h.pc.Written?
    case Marking(clean) => if clean then h.pc.Prepared? || h.pc.Armed? || (h.pc.Flushed? && h.safe) else h.pc.Opened?
  }

  ghost predicate Volume(c: Ctx, h: Host, a: Activity, h': Host)
    requires c.Valid()
  {
    Next(c, h.sys, Done(a), h'.sys)
  }

  ghost predicate HostNext(c: Ctx, h: Host, e: HostEvent, h': Host)
    requires c.Valid()
  {
    match e
    case InitOpen(p) =>
      h.pc.Down? && Volume(c, h, Opening(p), h') && h' == h.(sys := h'.sys, pc := Preparing, watch := Waiting)
    case InitWrite(tx) => h.pc.Preparing? && Volume(c, h, Writing(tx), h') && h' == h.(sys := h'.sys, pc := Written)
    case InitSync => h.pc.Written? && Volume(c, h, Flushing, h') && h' == h.(sys := h'.sys, pc := Prepared)
    case InitClean =>
      h.pc.Prepared? && Volume(c, h, Marking(true), h') && h' == h.(sys := h'.sys, pc := Closed, hit := false)
    case InitFails(a) =>
      h.pc.Preparing? && (a.Idle? || a.Refusing?) && Volume(c, h, a, h') && h' == h.(sys := h'.sys, pc := Closed)
    case Mount(p) => h.pc.Down? && Volume(c, h, Opening(p), h') && h' == h.(sys := h'.sys, pc := Opened, watch := Waiting)
    case MarkDirty => h.pc.Opened? && Volume(c, h, Marking(false), h') && h' == h.(sys := h'.sys, pc := MarkedDirty)
    case ClearSafe => h.pc.MarkedDirty? && h' == h.(pc := Armed, safe := false)
    case Start => h.pc.Armed? && h' == h.(pc := Running)
    case StartFails => h.pc.Armed? && Volume(c, h, Marking(true), h') && h' == h.(sys := h'.sys, pc := Closed, hit := false)
    case Callback(a) =>
      && h.pc.Running? && (a.Writing? || a.Refusing? || a.Flushing?)
      && Volume(c, h, a, h') && h' == h.(sys := h'.sys)
    case WatcherDismounts => (h.pc.Running? || h.pc.Stopped?) && h.watch.Waiting? && h' == h.(watch := Dismounted)
    case WatcherSyncs =>
      (h.pc.Running? || h.pc.Stopped?) && h.watch.Dismounted? && Volume(c, h, Flushing, h') && h' == h.(sys := h'.sys, watch := Synced)
    case WatcherRetries => !h.pc.Down? && h.watch.Dismounted? && h' == h.(watch := Waiting)
    case WatcherSetsSafe => !h.pc.Down? && h.watch.Synced? && h' == h.(watch := Finished, safe := true)
    case DispatcherStops => h.pc.Running? && h' == h.(pc := Stopped)
    case FinalFlush => h.pc.Stopped? && Volume(c, h, Flushing, h') && h' == h.(sys := h'.sys, pc := Flushed)
    case FinishClean =>
      h.pc.Flushed? && h.safe && Volume(c, h, Marking(true), h') && h' == h.(sys := h'.sys, pc := Closed, hit := false)
    case FinishDirty => h.pc.Flushed? && !h.safe && h' == h.(pc := Closed)
    case CloseFile => h.pc.Closed? && Next(c, h.sys, Close, h'.sys) && h' == h.(sys := h'.sys, pc := Down)
    case Crashes(a, issued, image) =>
      && InProgress(h, a) && Next(c, h.sys, Crash(a, issued, image), h'.sys)
      && h' == Host(h'.sys, Down, h'.safe, Waiting, (Mounted(h.pc) || h.hit) && a != Marking(true))
  }

  ghost predicate HostBehaviour(c: Ctx, hosts: seq<Host>, events: seq<HostEvent>)
    requires c.Valid()
  {
    && |hosts| == |events| + 1
    && hosts[0].pc.Down? && hosts[0].sys.mem.None? && hosts[0].watch.Waiting? && !hosts[0].hit
    && (exists v :: Inv(c, hosts[0].sys, v))
    && (forall i :: 0 <= i < |events| ==> HostNext(c, hosts[i], events[i], hosts[i + 1]))
  }

  ghost predicate HostInv(c: Ctx, h: Host, v: View)
    requires c.Valid()
  {
    && Inv(c, h.sys, v)
    && (Mounted(h.pc) || h.hit ==> !v.st.clean)
    && (Mounted(h.pc) && !h.pc.MarkedDirty? && h.safe ==> h.watch.Finished?)
  }

  lemma HostStep(c: Ctx, h: Host, e: HostEvent, h': Host, v: View) returns (v': View)
    requires c.Valid() && HostInv(c, h, v) && HostNext(c, h, e, h')
    ensures HostInv(c, h', v')
  {
    hide Inv, Next;
    v' := v;
    match e
    case InitOpen(p) => v' := StepKeeps(c, h.sys, Done(Opening(p)), h'.sys, v);
    case InitWrite(tx) => v' := StepKeeps(c, h.sys, Done(Writing(tx)), h'.sys, v);
    case InitSync => v' := StepKeeps(c, h.sys, Done(Flushing), h'.sys, v);
    case InitFails(a) => v' := StepKeeps(c, h.sys, Done(a), h'.sys, v);
    case InitClean => v' := StepKeeps(c, h.sys, Done(Marking(true)), h'.sys, v);
    case Mount(p) => v' := StepKeeps(c, h.sys, Done(Opening(p)), h'.sys, v);
    case MarkDirty => v' := StepKeeps(c, h.sys, Done(Marking(false)), h'.sys, v);
    case StartFails => v' := StepKeeps(c, h.sys, Done(Marking(true)), h'.sys, v);
    case Callback(a) => v' := StepKeeps(c, h.sys, Done(a), h'.sys, v);
    case WatcherSyncs => v' := StepKeeps(c, h.sys, Done(Flushing), h'.sys, v);
    case FinalFlush => v' := StepKeeps(c, h.sys, Done(Flushing), h'.sys, v);
    case FinishClean => v' := StepKeeps(c, h.sys, Done(Marking(true)), h'.sys, v);
    case CloseFile => v' := StepKeeps(c, h.sys, Close, h'.sys, v);
    case Crashes(a, issued, image) => v' := StepKeeps(c, h.sys, Crash(a, issued, image), h'.sys, v);
    case _ =>
  }

  lemma {:induction false} HostRun(c: Ctx, hosts: seq<Host>, events: seq<HostEvent>, n: nat) returns (v: View)
    requires c.Valid() && HostBehaviour(c, hosts, events) && n <= |events|
    ensures HostInv(c, hosts[n], v)
  {
    hide Inv, HostNext;
    if n == 0 {
      v :| Inv(c, hosts[0].sys, v);
    } else {
      var u := HostRun(c, hosts, events, n - 1);
      v := HostStep(c, hosts[n - 1], events[n - 1], hosts[n], u);
    }
  }

  /** While the disk is mounted, and from a crash that hit it mounted until the next clean mark, the volume reopens dirty. */
  lemma DirtyWhileMounted(c: Ctx, hosts: seq<Host>, events: seq<HostEvent>, n: nat, image: seq<byte>, p: Picked)
    requires c.Valid() && HostBehaviour(c, hosts, events) && n <= |events|
    requires Mounted(hosts[n].pc) || hosts[n].hit
    requires CrashImage(c, hosts[n].sys.disk, image) && Picks(c, image, p)
    ensures !p.st.clean
  {
    hide Inv, HostNext, Picks, CrashImage;
    var v := HostRun(c, hosts, events, n);
    var q := RecoversTo(c, hosts[n].sys, v, image);
    PicksUnique(c, image, p, q);
  }

  /** The events that write the clean mark, or may have. */
  predicate MarksClean(e: HostEvent) {
    e.FinishClean? || e.StartFails? || e.InitClean? || (e.Crashes? && e.a == Marking(true))
  }

  /** A crash that hit the disk mounted is remembered through every later mount that does not end in a clean mark. */
  lemma {:induction false} HitStays(c: Ctx, hosts: seq<Host>, events: seq<HostEvent>, i: nat, n: nat)
    requires c.Valid() && HostBehaviour(c, hosts, events) && i < n <= |events|
    requires Mounted(hosts[i].pc) && events[i].Crashes?
    requires forall k :: i <= k < n ==> !MarksClean(events[k])
    ensures hosts[n].hit
  {
    hide Inv, Next;
    assert HostNext(c, hosts[n - 1], events[n - 1], hosts[n]);
    if i < n - 1 {
      HitStays(c, hosts, events, i, n - 1);
    }
  }

  /**
   After a crash that hit the disk mounted, every reopen finds the volume dirty, through any number of further
   mounts and crashes, until a safe stop, a failed dispatcher start or a partition set-up marks it clean.
   */
  lemma DirtyUntilMarkedClean(c: Ctx, hosts: seq<Host>, events: seq<HostEvent>, i: nat, n: nat, image: seq<byte>, p: Picked)
    requires c.Valid() && HostBehaviour(c, hosts, events) && i < n <= |events|
    requires Mounted(hosts[i].pc) && events[i].Crashes?
    requires forall k :: i <= k < n ==> !MarksClean(events[k])
    requires CrashImage(c, hosts[n].sys.disk, image) && Picks(c, image, p)
    ensures !p.st.clean
  {
    hide HostBehaviour, Picks, CrashImage, MarksClean;
    HitStays(c, hosts, events, i, n);
    DirtyWhileMounted(c, hosts, events, n, image, p);
  }

  /** The same for a crash in the middle of any disk operation of a mounted volume other than its final clean mark. */
  lemma DirtyAfterCrash(c: Ctx, hosts: seq<Host>, events: seq<HostEvent>, n: nat, p: Picked)
    requires c.Valid() && HostBehaviour(c, hosts, events) && n < |events|
    requires Mounted(hosts[n].pc) && events[n].Crashes? && events[n].a != Marking(true)
    requires Picks(c, hosts[n + 1].sys.disk.cached, p)
    ensures !p.st.clean
  {
    hide Inv, Picks, Next, RecsOf;
    assert HostNext(c, hosts[n], events[n], hosts[n + 1]);
    var v := HostRun(c, hosts, events, n + 1);
    var s := hosts[n + 1].sys;
    InvCached(c, s, v);
    PicksUnique(c, s.disk.cached, p, Picked(v.active, v.st, RecsOf(v.history)));
  }

  /** A stop that ends with the clean mark leaves a volume that reopens clean, whatever happens to the file next. */
  lemma CleanAfterFinish(c: Ctx, hosts: seq<Host>, events: seq<HostEvent>, n: nat, image: seq<byte>, p: Picked)
    requires c.Valid() && HostBehaviour(c, hosts, events) && n < |events| && events[n].FinishClean?
    requires CrashImage(c, hosts[n + 1].sys.disk, image) && Picks(c, image, p)
    ensures p.st.clean
  {
    hide Inv, Picks, Next, CrashImage;
    assert HostNext(c, hosts[n], events[n], hosts[n + 1]);
    var u := HostRun(c, hosts, events, n);
    var v := StepKeeps(c, hosts[n].sys, Done(Marking(true)), hosts[n + 1].sys, u);
    var q := RecoversTo(c, hosts[n + 1].sys, v, image);
    PicksUnique(c, image, p, q);
  }

  lemma InvCached(c: Ctx, s: Sys, v: View)
    requires c.Valid() && Inv(c, s, v)
    ensures Picks(c, s.disk.cached, Picked(v.active, v.st, RecsOf(v.history)))
  {
    hide Good, Recoverable, Picks, RecsOf;
    GoodCached(c, s.disk, v.active, v.st, RecsOf(v.history));
    RecoverablePicks(c, s.disk.cached, v.active, v.st, RecsOf(v.history));
  }

  // ----- what precedes a clean mark

  predicate Opens(e: HostEvent) {
    e.Mount? || e.InitOpen?
  }

  /** Event `i` is a dismount, a later one before `n` a sync, and the volume was not opened again in between. */
  ghost predicate SafelyStopped(events: seq<HostEvent>, i: nat, j: nat, n: nat) {
    && i < j < n <= |events|
    && events[i].WatcherDismounts? && events[j].WatcherSyncs?
    && (forall k :: i <= k < n ==> !Opens(events[k]))
  }

  ghost predicate DismountedBefore(events: seq<HostEvent>, i: nat, n: nat) {
    && i < n <= |events| && events[i].WatcherDismounts?
    && (forall k :: i <= k < n ==> !Opens(events[k]))
  }

  /** The watcher's state tells what it has done since the last mount. */
  lemma {:induction false} WatcherHistory(c: Ctx, hosts: seq<Host>, events: seq<HostEvent>, n: nat) returns (i: nat, j: nat)
    requires c.Valid() && HostBehaviour(c, hosts, events) && n <= |events|
    ensures hosts[n].watch.Dismounted? ==> DismountedBefore(events, i, n)
    ensures hosts[n].watch.Synced? || hosts[n].watch.Finished? ==> SafelyStopped(events, i, j, n)
  {
    hide Inv, Next, InProgress, Mounted;
    i, j := 0, 0;
    if n > 0 {
      assert HostNext(c, hosts[n - 1], events[n - 1], hosts[n]);
      i, j := WatcherHistory(c, hosts, events, n - 1);
      if events[n - 1].WatcherDismounts? {
        i := n - 1;
      } else if events[n - 1].WatcherSyncs? {
        j := n - 1;
      }
    }
  }

  /** Once the dispatcher has started, a clean mark comes only after a dismount and then a sync of the same mount. */
  lemma CleanAfterSafeStop(c: Ctx, hosts: seq<Host>, events: seq<HostEvent>, n: nat)
    requires c.Valid() && HostBehaviour(c, hosts, events) && n < |events|
    requires events[n].FinishClean? || (events[n].Crashes? && events[n].a == Marking(true) && hosts[n].pc.Flushed?)
    ensures exists i, j :: SafelyStopped(events, i, j, n)
  {
    hide Inv, Next;
    assert HostNext(c, hosts[n], events[n], hosts[n + 1]);
    var v := HostRun(c, hosts, events, n);
    var i, j := WatcherHistory(c, hosts, events, n);
  }

  /** Before the dispatcher of a mount runs, and during a partition set-up, nothing has been dismounted since the open. */
  lemma {:induction false} NoDismountBeforeStart(c: Ctx, hosts: seq<Host>, events: seq<HostEvent>, i: nat, n: nat)
    requires c.Valid() && HostBehaviour(c, hosts, events) && DismountedBefore(events, i, n)
    ensures !SettingUp(hosts[n].pc) && !hosts[n].pc.Opened? && !hosts[n].pc.MarkedDirty? && !hosts[n].pc.Armed?
  {
    hide Inv, Next;
    assert HostNext(c, hosts[n - 1], events[n - 1], hosts[n]);
    if i < n - 1 {
      NoDismountBeforeStart(c, hosts, events, i, n - 1);
    }
  }

  /**
   When a clean mark means a safe stop: a clean mark, completed or hit by a crash, has a dismount and then a sync of
   the same mount behind it exactly when it is not the one of a failed dispatcher start or of a partition set-up.
   */
  lemma CleanMarkIsSafeStop(c: Ctx, hosts: seq<Host>, events: seq<HostEvent>, n: nat)
    requires c.Valid() && HostBehaviour(c, hosts, events) && n < |events| && MarksClean(events[n])
    ensures (exists i, j :: SafelyStopped(events, i, j, n)) <==> !hosts[n].pc.Armed? && !SettingUp(hosts[n].pc)
  {
    hide Inv, Next;
    assert HostNext(c, hosts[n], events[n], hosts[n + 1]);
    if hosts[n].pc.Armed? || SettingUp(hosts[n].pc) {
      forall i, j | SafelyStopped(events, i, j, n)
        ensures false
      {
        NoDismountBeforeStart(c, hosts, events, i, n);
      }
    } else {
      CleanAfterSafeStop(c, hosts, events, n);
    }
  }

  // ----- what a sync leaves

  ghost predicate AtRest(s: Sys) {
    s.disk == Settled(s.disk.cached)
  }

  predicate Syncs(e: HostEvent) {
    e.WatcherSyncs? || e.FinalFlush? || e.InitSync?
  }

  /** After each of the host's syncs nothing is pending: every byte written before it survives every crash after it. */
  lemma SyncSettles(c: Ctx, hosts: seq<Host>, events: seq<HostEvent>, n: nat, image: seq<byte>)
    requires c.Valid() && HostBehaviour(c, hosts, events) && n < |events| && Syncs(events[n])
    ensures AtRest(hosts[n + 1].sys) && hosts[n + 1].sys.disk.cached == hosts[n].sys.disk.cached
    ensures Survives(hosts[n + 1].sys.disk, image) <==> hosts[n].sys.disk.cached <= image
  {
    hide Inv, Survives, Enabled;
    assert HostNext(c, hosts[n], events[n], hosts[n + 1]);
    var d := hosts[n].sys.disk;
    assert Run(d, [Sync]) == Settled(d.cached) by {
      assert [Sync][..0] == [];
      assert Run(d, []) == d;
    }
    SettledSurvives(d.cached, image);
  }

  /** The sync of a safe stop has put on the disk everything that was written before it. */
  lemma SafeStopSettles(c: Ctx, hosts: seq<Host>, events: seq<HostEvent>, i: nat, j: nat, n: nat, image: seq<byte>)
    requires c.Valid() && HostBehaviour(c, hosts, events) && SafelyStopped(events, i, j, n)
    ensures AtRest(hosts[j + 1].sys)
    ensures Survives(hosts[j + 1].sys.disk, image) <==> hosts[j].sys.disk.cached <= image
  {
    hide HostBehaviour, Survives;
    SyncSettles(c, hosts, events, j, image);
  }

  /** Between the last flush of a stop and its clean mark nothing is pending. */
  lemma {:induction false} FlushedAtRest(c: Ctx, hosts: seq<Host>, events: seq<HostEvent>, n: nat)
    requires c.Valid() && HostBehaviour(c, hosts, events) && n <= |events| && hosts[n].pc.Flushed?
    ensures AtRest(hosts[n].sys)
  {
    hide Inv, Next;
    assert n > 0;
    assert HostNext(c, hosts[n - 1], events[n - 1], hosts[n]);
    if events[n - 1].FinalFlush? {
      SyncSettles(c, hosts, events, n - 1, []);
    } else {
      FlushedAtRest(c, hosts, events, n - 1);
    }
  }

  lemma MarkSettles(c: Ctx, s: Sys, clean: bool)
    requires c.Valid() && Enabled(c, s, Marking(clean)) && AtRest(s)
    ensures var d := Run(s.disk, OpsOf(c, s, Marking(clean))); d == Settled(d.cached)
  {
    hide EncodeSlot, Overlay, Resize;
    var m := s.mem.value;
    if m.state.clean != clean {
      var ops := SlotOps(c, 1 - m.active, MarkState(m.state, clean));
      RunTwo(s.disk, ops[0], ops[1]);
    }
  }

  /** A stop finds the disk with nothing pending when it writes the clean mark, and leaves it so. */
  lemma FinishSettles(c: Ctx, hosts: seq<Host>, events: seq<HostEvent>, n: nat)
    requires c.Valid() && HostBehaviour(c, hosts, events) && n < |events| && events[n].FinishClean?
    ensures AtRest(hosts[n].sys) && AtRest(hosts[n + 1].sys)
  {
    hide Inv, Enabled, OpsOf, MemAfter;
    assert HostNext(c, hosts[n], events[n], hosts[n + 1]);
    FlushedAtRest(c, hosts, events, n);
    MarkSettles(c, hosts[n].sys, true);
  }

  // ----- a failed start hides a crash

  lemma OpenStep(c: Ctx, s: Sys, v: View) returns (p: Picked, s': Sys, v': View)
    requires c.Valid() && Inv(c, s, v) && s.mem.None? && AtRest(s)
    ensures Next(c, s, Done(Opening(p)), s') && Inv(c, s', v') && s'.mem.Some? && AtRest(s')
    ensures v'.st.generation <= v.st.generation + 1
  {
    hide Good, Picks, RecsOf, IndexOf;
    InvCached(c, s, v);
    p := Picked(v.active, v.st, RecsOf(v.history));
    s' := Sys(Run(s.disk, OpsOf(c, s, Opening(p))), MemAfter(c, s, Opening(p)));
    v' := StepKeeps(c, s, Done(Opening(p)), s', v);
    if |s.disk.cached| > p.st.committedEnd {
      RunTwo(s.disk, SetLen(p.st.committedEnd), Sync);
    }
  }

  lemma MarkStep(c: Ctx, s: Sys, v: View, clean: bool) returns (s': Sys, v': View)
    requires c.Valid() && Inv(c, s, v) && s.mem.Some? && AtRest(s) && v.st.generation < U64_MAX
    ensures Next(c, s, Done(Marking(clean)), s') && Inv(c, s', v') && s'.mem.Some? && AtRest(s')
    ensures v'.st.generation <= v.st.generation + 1 && v'.st.clean == clean
  {
    hide Good, RecsOf, IndexOf, Overlay, EncodeSlot;
    GoodLog(c, s.disk, v.active, v.st, RecsOf(v.history));
    s' := Sys(Run(s.disk, OpsOf(c, s, Marking(clean))), MemAfter(c, s, Marking(clean)));
    v' := StepKeeps(c, s, Done(Marking(clean)), s', v);
    var m := s.mem.value;
    if m.state.clean != clean {
      var ops := SlotOps(c, 1 - m.active, MarkState(m.state, clean));
      RunTwo(s.disk, ops[0], ops[1]);
    }
  }

  /**
   A run in which a crash finds the disk mounted, the volume is mounted again and its dispatcher fails to start.
   The host marks the volume clean, and from then on it opens clean, with no dismount in the whole run.
   */
  lemma FailedStartHidesCrash(c: Ctx, s: Sys, v: View) returns (hosts: seq<Host>, events: seq<HostEvent>)
    requires c.Valid() && Inv(c, s, v) && s.mem.None? && AtRest(s) && v.st.generation + 5 < U64_MAX
    ensures HostBehaviour(c, hosts, events) && |events| == 9 && hosts[0].sys == s
    ensures events[4].Crashes? && Mounted(hosts[4].pc) && hosts[8].hit && events[8] == StartFails
    ensures forall k :: 0 <= k < 9 ==> !events[k].WatcherDismounts?
    ensures forall image, p :: CrashImage(c, hosts[9].sys.disk, image) && Picks(c, image, p) ==> p.st.clean
  {
    hide Inv, Next, CrashImage, Picks;
    var p0, s1, v1 := OpenStep(c, s, v);
    var s2, v2 := MarkStep(c, s1, v1, false);
    var s3 := Sys(s2.disk, None);
    IdleCrash(c, s2, s3);
    var v3 := StepKeeps(c, s2, Crash(Idle, 0, s2.disk.cached), s3, v2);
    var p1, s4, v4 := OpenStep(c, s3, v3);
    var s5, v5 := MarkStep(c, s4, v4, false);
    var s6, v6 := MarkStep(c, s5, v5, true);
    hosts := [Host(s, Down, false, Waiting, false), Host(s1, Opened, false, Waiting, false),
              Host(s2, MarkedDirty, false, Waiting, false), Host(s2, Armed, false, Waiting, false),
              Host(s2, Running, false, Waiting, false), Host(s3, Down, false, Waiting, true),
              Host(s4, Opened, false, Waiting, true), Host(s5, MarkedDirty, false, Waiting, true),
              Host(s5, Armed, false, Waiting, true), Host(s6, Closed, false, Waiting, false)];
    events := [Mount(p0), MarkDirty, ClearSafe, Start, Crashes(Idle, 0, s2.disk.cached),
               Mount(p1), MarkDirty, ClearSafe, StartFails];
    forall image, p | CrashImage(c, s6.disk, image) && Picks(c, image, p)
      ensures p.st.clean
    {
      var q := RecoversTo(c, s6, v6, image);
      PicksUnique(c, image, p, q);
    }
  }
}
