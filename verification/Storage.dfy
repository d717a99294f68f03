/** A file on a disk whose writes become durable only when synced. */
module Storage {
  import opened Bytes

  datatype Op =
    | Write(offset: nat, data: seq<byte>)
    | SetLen(len: nat)
    | Sync

  /** `durable` is what has reached the disk, `cached` what reads return, `pending` the operations between the two. */
  datatype Disk = Disk(durable: seq<byte>, cached: seq<byte>, pending: seq<Op>)

  function Settled(file: seq<byte>): Disk {
    Disk(file, file, [])
  }

  function Overlay(file: seq<byte>, offset: nat, data: seq<byte>): (r: seq<byte>)
    ensures |r| == if offset + |data| > |file| then offset + |data| else |file|
    ensures forall i :: 0 <= i < |file| && !(offset <= i < offset + |data|) ==> r[i] == file[i]
    ensures r[offset..offset + |data|] == data
  {
    var head := if offset <= |file| then file[..offset] else file + Zeros(offset - |file|);
    var tail := if offset + |data| <= |file| then file[offset + |data|..] else [];
    SliceMiddle(head, data, tail);
    head + data + tail
  }

  function Resize(file: seq<byte>, len: nat): (r: seq<byte>)
    ensures |r| == len
    ensures forall i :: 0 <= i < len ==> r[i] == if i < |file| then file[i] else 0
  {
    if len <= |file| then file[..len] else file + Zeros(len - |file|)
  }

  function Step(d: Disk, op: Op): Disk {
    match op
    case Write(offset, data) => Disk(d.durable, Overlay(d.cached, offset, data), d.pending + [op])
    case SetLen(len) => Disk(d.durable, Resize(d.cached, len), d.pending + [op])
    case Sync => Settled(d.cached)
  }

  function Run(d: Disk, ops: seq<Op>): Disk {
    if ops == [] then d else Step(Run(d, ops[..|ops| - 1]), ops[|ops| - 1])
  }

  lemma {:induction false} RunAppend(d: Disk, a: seq<Op>, b: seq<Op>)
    ensures Run(d, a + b) == Run(Run(d, a), b)
  {
    if b == [] {
      assert a + b == a;
    } else {
      var n := |b| - 1;
      assert (a + b)[..|a + b| - 1] == a + b[..n];
      RunAppend(d, a, b[..n]);
    }
  }

  /** Two writes, the second where the first ends, at a place inside the file or at its end. */
  lemma AdjacentWrites(file: seq<byte>, at: nat, a: seq<byte>, b: seq<byte>) returns (file': seq<byte>)
    requires at <= |file|
    ensures file' == Overlay(Overlay(file, at, a), at + |a|, b)
    ensures |file| <= |file'| && at + |a| + |b| <= |file'|
    ensures file'[..at] == file[..at]
    ensures file'[at..at + |a| + |b|] == a + b
  {
    hide Overlay;
    var mid := Overlay(file, at, a);
    file' := Overlay(mid, at + |a|, b);
    assert file'[at..at + |a|] == mid[at..at + |a|] == a;
    assert file'[at + |a|..at + |a| + |b|] == b;
    assert file'[at..at + |a| + |b|] == file'[at..at + |a|] + file'[at + |a|..at + |a| + |b|];
  }

  predicate Touches(op: Op, i: nat) {
    match op
    case Write(offset, data) => offset <= i < offset + |data|
    case SetLen(len) => len <= i
    case Sync => false
  }

  /**
   After a crash the file is `image`: every durable byte that no pending operation touches is still there.
   Each touched byte, and everything past the durable length, may hold anything or be missing, so any part
   of the pending operations may have been kept, lost, torn or reordered.
   */
  ghost predicate Survives(d: Disk, image: seq<byte>) {
    forall i :: 0 <= i < |d.durable| && Untouched(d.pending, i) ==> i < |image| && image[i] == d.durable[i]
  }

  ghost predicate Untouched(ops: seq<Op>, i: nat) {
    forall k :: 0 <= k < |ops| ==> !Touches(ops[k], i)
  }

  lemma {:induction false} UntouchedStays(file: seq<byte>, ops: seq<Op>, i: nat)
    requires i < |file| && Untouched(ops, i)
    ensures i < |Run(Settled(file), ops).cached| && Run(Settled(file), ops).cached[i] == file[i]
  {
    hide Overlay, Resize;
    if ops != [] {
      var n := |ops| - 1;
      assert !Touches(ops[n], i);
      UntouchedStays(file, ops[..n], i);
    }
  }

  /**
   What a crash may leave includes every outcome of the pending operations: `landed` is any list of operations, in
   any order and with any data, that together touch nothing but what a pending operation touches. So operations
   may be lost, kept, reordered, repeated, torn into pieces or replaced by garbage.
   */
  lemma AnyPartMayLand(d: Disk, landed: seq<Op>)
    requires forall i :: Untouched(d.pending, i) ==> Untouched(landed, i)
    ensures Survives(d, Run(Settled(d.durable), landed).cached)
  {
    hide Run, Untouched;
    forall i | 0 <= i < |d.durable| && Untouched(d.pending, i)
      ensures var image := Run(Settled(d.durable), landed).cached; i < |image| && image[i] == d.durable[i]
    {
      UntouchedStays(d.durable, landed, i);
    }
  }

  /** The cached file is the durable one with the pending operations applied. */
  lemma {:induction false} PendingExplains(file: seq<byte>, ops: seq<Op>)
    ensures var d := Run(Settled(file), ops); d == Run(Settled(d.durable), d.pending)
  {
    hide Overlay, Resize;
    if ops != [] {
      var n := |ops| - 1;
      var before, op := Run(Settled(file), ops[..n]), ops[n];
      PendingExplains(file, ops[..n]);
      assert (before.pending + [op])[..|before.pending|] == before.pending;
    }
  }

  /** A crash may keep nothing of what is pending, or all of it. */
  lemma LostOrKept(file: seq<byte>, ops: seq<Op>)
    ensures var d := Run(Settled(file), ops); Survives(d, d.durable) && Survives(d, d.cached)
  {
    hide Run, Survives;
    var d := Run(Settled(file), ops);
    PendingExplains(file, ops);
    AnyPartMayLand(d, d.pending);
    RunNone(Settled(d.durable));
    AnyPartMayLand(d, []);
  }

  lemma RunNone(d: Disk)
    ensures Run(d, []) == d
  {
  }

  /** With nothing pending a crash takes nothing away. */
  lemma SettledSurvives(file: seq<byte>, image: seq<byte>)
    ensures Survives(Settled(file), image) <==> file <= image
  {
    if Survives(Settled(file), image) {
      forall i | 0 <= i < |file|
        ensures i < |image| && image[i] == file[i]
      {
        assert Untouched(Settled(file).pending, i);
      }
      if |file| > 0 { assert Untouched(Settled(file).pending, |file| - 1); }
    }
  }

  class File {
    var disk: Disk
    /** Every operation issued on the file so far. */
    ghost var trace: seq<Op>

    constructor (d: Disk)
      ensures disk == d && trace == []
    {
      disk := d;
      trace := [];
    }

    method WriteAll(offset: nat, data: seq<byte>)
      modifies this
      ensures disk == Step(old(disk), Write(offset, data)) && trace == old(trace) + [Write(offset, data)]
    {
      disk := Step(disk, Write(offset, data));
      trace := trace + [Write(offset, data)];
    }

    method Truncate(len: nat)
      modifies this
      ensures disk == Step(old(disk), SetLen(len)) && trace == old(trace) + [SetLen(len)]
    {
      disk := Step(disk, SetLen(len));
      trace := trace + [SetLen(len)];
    }

    method Flush()
      modifies this
      ensures disk == Step(old(disk), Sync) && trace == old(trace) + [Sync]
    {
      disk := Step(disk, Sync);
      trace := trace + [Sync];
    }

    /** `None` when the file ends first. */
    method ReadExact(offset: nat, n: nat) returns (r: Option<seq<byte>>)
      ensures r == if offset + n <= |disk.cached| then Some(disk.cached[offset..offset + n]) else None
    {
      if offset + n <= |disk.cached| {
        r := Some(disk.cached[offset..offset + n]);
      } else {
        r := None;
      }
    }
  }
}
