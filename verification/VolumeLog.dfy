/** The record log as a mathematical object: which records a file holds and what index and map they stand for. */
module VolumeLog {
  import opened Bytes
  import opened VolumeFormat
  import opened VolumeCodec

  datatype RecordIndex = RecordIndex(offset: nat, generation: nat, plaintextLen: nat, ciphertextLen: nat)

  /** Where the log of `recs` ends, and so where the next record goes. */
  function LogEnd(recs: seq<Rec>): (end: nat)
    ensures end >= LOG_START
  {
    if recs == [] then LOG_START else LogEnd(recs[..|recs| - 1]) + RecLen(recs[|recs| - 1])
  }

  function EntryAt(recs: seq<Rec>, i: nat): RecordIndex
    requires i < |recs|
  {
    RecordIndex(LogEnd(recs[..i]), recs[i].generation, |recs[i].data|, |recs[i].data| + 16)
  }

  /** Block index of a log: the position of each block's last record. */
  function IndexOf(recs: seq<Rec>): map<u64, RecordIndex> {
    if recs == [] then map[]
    else IndexOf(recs[..|recs| - 1])[recs[|recs| - 1].block := EntryAt(recs, |recs| - 1)]
  }

  /** Block contents of a log: the payload of each block's last record. */
  function DataOf(recs: seq<Rec>): map<u64, seq<byte>> {
    if recs == [] then map[]
    else DataOf(recs[..|recs| - 1])[recs[|recs| - 1].block := recs[|recs| - 1].data]
  }

  ghost predicate Increasing(recs: seq<Rec>) {
    && (forall i :: 0 <= i < |recs| ==> recs[i].generation >= 1)
    && (forall i, j :: 0 <= i < j < |recs| && recs[i].block == recs[j].block ==> recs[i].generation < recs[j].generation)
  }

  /** Record `i` stands in the file where the records before it end. */
  ghost predicate InPlace(c: Ctx, file: seq<byte>, recs: seq<Rec>, i: nat)
    requires c.Valid() && i < |recs|
  {
    RecAt(c, file, LogEnd(recs[..i]), recs[i])
  }

  /** The file holds exactly `recs`, back to back from the start of the log. */
  ghost predicate IsLog(c: Ctx, file: seq<byte>, recs: seq<Rec>)
    requires c.Valid()
  {
    && (forall i :: 0 <= i < |recs| ==> InPlace(c, file, recs, i))
    && Increasing(recs)
    && LogEnd(recs) <= |file|
  }

  /** The superblock `st` is an exact account of the records in the file. */
  ghost predicate Describes(c: Ctx, file: seq<byte>, st: SuperState, recs: seq<Rec>)
    requires c.Valid()
  {
    IsLog(c, file, recs) && LogEnd(recs) == st.committedEnd && |recs| == st.recordCount
  }

  // ----- growing and shrinking a log

  lemma LogEndSnoc(recs: seq<Rec>, r: Rec)
    ensures LogEnd(recs + [r]) == LogEnd(recs) + RecLen(r)
  {
    assert (recs + [r])[..|recs|] == recs;
  }

  lemma {:induction false} LogEndMonotone(recs: seq<Rec>, i: nat, j: nat)
    requires i <= j <= |recs|
    ensures LogEnd(recs[..i]) + 48 * (j - i) <= LogEnd(recs[..j])
  {
    if i == j {
    } else {
      LogEndMonotone(recs, i, j - 1);
      assert recs[..j] == recs[..j - 1] + [recs[j - 1]];
      LogEndSnoc(recs[..j - 1], recs[j - 1]);
    }
  }

  lemma RecordInsideLog(recs: seq<Rec>, i: nat)
    requires i < |recs|
    ensures LogEnd(recs[..i]) + RecLen(recs[i]) <= LogEnd(recs)
  {
    hide *;
    assert recs[..i + 1] == recs[..i] + [recs[i]];
    LogEndSnoc(recs[..i], recs[i]);
    LogEndMonotone(recs, i + 1, |recs|);
    assert recs[..|recs|] == recs;
  }

  /** A log depends only on the bytes before its end. */
  lemma IsLogFrame(c: Ctx, file: seq<byte>, file': seq<byte>, recs: seq<Rec>)
    requires c.Valid() && IsLog(c, file, recs)
    requires LogEnd(recs) <= |file'| && file[LOG_START..LogEnd(recs)] == file'[LOG_START..LogEnd(recs)]
    ensures IsLog(c, file', recs)
  {
    hide RecAt, LogEnd, Increasing;
    forall i | 0 <= i < |recs|
      ensures InPlace(c, file', recs, i)
    {
      assert InPlace(c, file, recs, i);
      RecordInsideLog(recs, i);
      var from, end, all := LogEnd(recs[..i]), LogEnd(recs[..i]) + RecLen(recs[i]), LogEnd(recs);
      NarrowSlice(file, file', LOG_START, all, from, end);
      RecAtFrame(c, file, file', from, recs[i]);
    }
  }

  lemma IsLogPrefix(c: Ctx, file: seq<byte>, recs: seq<Rec>, n: nat)
    requires c.Valid() && IsLog(c, file, recs) && n <= |recs|
    ensures IsLog(c, file, recs[..n])
  {
    hide RecAt, LogEnd;
    LogEndMonotone(recs, n, |recs|);
    assert recs[..|recs|] == recs;
    forall i | 0 <= i < n
      ensures InPlace(c, file, recs[..n], i)
    {
      assert InPlace(c, file, recs, i);
      assert recs[..n][..i] == recs[..i];
    }
  }

  /** Generation of the last record of a block, zero when it has none. */
  function LastGeneration(recs: seq<Rec>, block: u64): nat {
    var index := IndexOf(recs);
    if block in index then index[block].generation else 0
  }

  /** The index has exactly the blocks with records, and for each of them names the last record. */
  lemma {:induction false} IndexHoldsLast(recs: seq<Rec>, block: u64) returns (last: nat)
    ensures block in IndexOf(recs) <==> block in DataOf(recs)
    ensures block !in IndexOf(recs) ==> forall j :: 0 <= j < |recs| ==> recs[j].block != block
    ensures block in IndexOf(recs) ==> last < |recs| && recs[last].block == block
    ensures block in IndexOf(recs) ==> forall j :: last < j < |recs| ==> recs[j].block != block
    ensures block in IndexOf(recs) ==> IndexOf(recs)[block] == EntryAt(recs, last)
    ensures block in IndexOf(recs) ==> DataOf(recs)[block] == recs[last].data
  {
    hide LogEnd;
    last := 0;
    if recs == [] {
    } else {
      var n := |recs| - 1;
      last := IndexHoldsLast(recs[..n], block);
      if recs[n].block == block {
        last := n;
      } else if block in IndexOf(recs[..n]) {
        assert recs[..n][..last] == recs[..last];
      }
    }
  }

  /** Generations grow along a log, so the last one of a block bounds them all. */
  lemma LastGenerationBounds(recs: seq<Rec>, block: u64)
    requires Increasing(recs)
    ensures forall i :: 0 <= i < |recs| && recs[i].block == block ==> recs[i].generation <= LastGeneration(recs, block)
  {
    var last := IndexHoldsLast(recs, block);
  }

  lemma IsLogSnoc(c: Ctx, file: seq<byte>, recs: seq<Rec>, r: Rec)
    requires c.Valid() && IsLog(c, file, recs)
    requires RecAt(c, file, LogEnd(recs), r)
    requires r.generation > LastGeneration(recs, r.block)
    ensures IsLog(c, file, recs + [r])
  {
    hide ReadRecord;
    hide RecAt, LogEnd;
    var all := recs + [r];
    LogEndSnoc(recs, r);
    RecAtInside(c, file, LogEnd(recs), r);
    LastGenerationBounds(recs, r.block);
    forall i | 0 <= i < |all|
      ensures InPlace(c, file, all, i)
    {
      assert all[..i] == recs[..i];
      if i == |recs| {
        assert recs[..i] == recs;
      } else {
        assert InPlace(c, file, recs, i);
      }
    }
  }

  lemma IndexSnoc(recs: seq<Rec>, r: Rec)
    ensures IndexOf(recs + [r]) == IndexOf(recs)[r.block := RecordIndex(LogEnd(recs), r.generation, |r.data|, |r.data| + 16)]
    ensures DataOf(recs + [r]) == DataOf(recs)[r.block := r.data]
  {
    assert (recs + [r])[..|recs|] == recs;
  }

  /** Reading where the index points gives the block's last payload. */
  lemma IndexReads(c: Ctx, file: seq<byte>, recs: seq<Rec>, block: u64)
    requires c.Valid() && IsLog(c, file, recs) && block in IndexOf(recs)
    ensures block in DataOf(recs)
    ensures var e := IndexOf(recs)[block];
            var r := ReadRecord(c, file, e.offset);
            r.Ok? && r.value.1 == DataOf(recs)[block]
            && r.value.0.blockIndex == block && r.value.0.generation == e.generation
            && r.value.0.plaintextLen == e.plaintextLen && r.value.0.ciphertextLen == e.ciphertextLen
  {
    hide LogEnd, ReadRecord;
    var i := IndexHoldsLast(recs, block);
    assert InPlace(c, file, recs, i);
  }

  /** The records before a given offset of a file are determined by the file. */
  lemma {:induction false} LogUnique(c: Ctx, file: seq<byte>, st: SuperState, a: seq<Rec>, b: seq<Rec>)
    requires c.Valid() && Describes(c, file, st, a) && Describes(c, file, st, b)
    ensures a == b
  {
    SamePrefix(c, file, a, b, |a|);
    assert a[..|a|] == a && b[..|b|] == b;
  }

  lemma SameRecord(c: Ctx, file: seq<byte>, offset: nat, a: Rec, b: Rec)
    requires c.Valid() && RecAt(c, file, offset, a) && RecAt(c, file, offset, b)
    ensures a == b
  {
    hide ReadRecord;
  }

  lemma {:induction false} SamePrefix(c: Ctx, file: seq<byte>, a: seq<Rec>, b: seq<Rec>, n: nat)
    requires c.Valid() && IsLog(c, file, a) && IsLog(c, file, b)
    requires n <= |a| && n <= |b|
    ensures a[..n] == b[..n]
  {
    hide LogEnd, RecAt, Increasing;
    if n == 0 {
    } else {
      SamePrefix(c, file, a, b, n - 1);
      assert InPlace(c, file, a, n - 1) && InPlace(c, file, b, n - 1);
      SameRecord(c, file, LogEnd(a[..n - 1]), a[n - 1], b[n - 1]);
      assert a[..n] == a[..n - 1] + [a[n - 1]] && b[..n] == b[..n - 1] + [b[n - 1]];
    }
  }
}
