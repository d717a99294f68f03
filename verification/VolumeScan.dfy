/** Reading superblocks and records from a file, and the log scan that rebuilds the block index. */
module VolumeScan {
  import opened Bytes
  import opened Cipher
  import opened Storage
  import opened VolumeFormat
  import opened VolumeCodec
  import opened VolumeLog
  import opened VolumeProtocol
  import opened VolumeRecovery

  // ----- what a log scan must find

  /** Any account that `st` gives of the file continues with the record at `LogEnd(recs)`. */
  lemma NextRecord(c: Ctx, file: seq<byte>, st: SuperState, recs: seq<Rec>, q: seq<Rec>)
    requires c.Valid() && Describes(c, file, st, q) && recs <= q && LogEnd(recs) < st.committedEnd
    ensures |recs| < |q| && RecAt(c, file, LogEnd(recs), q[|recs|])
    ensures q[|recs|].generation > LastGeneration(recs, q[|recs|].block)
    ensures LogEnd(recs) + RecLen(q[|recs|]) <= st.committedEnd
  {
    hide RecAt, LogEnd, IndexOf, Lawful;
    var n := |recs|;
    assert q[..n] == recs;
    assert n == |q| ==> q == recs;
    RecordInsideLog(q, n);
    assert n < |q| ==> InPlace(c, file, q, n);
    var last := IndexHoldsLast(recs, q[n].block);
    if q[n].block in IndexOf(recs) {
      assert recs[last] == q[last];
    }
  }

  lemma PrefixStep(c: Ctx, file: seq<byte>, st: SuperState, recs: seq<Rec>, r: Rec, q: seq<Rec>)
    requires c.Valid() && Describes(c, file, st, q) && recs <= q && LogEnd(recs) < st.committedEnd
    requires RecAt(c, file, LogEnd(recs), r)
    ensures recs + [r] <= q
  {
    hide RecAt, LogEnd, IndexOf, Describes;
    NextRecord(c, file, st, recs, q);
    SameRecord(c, file, LogEnd(recs), r, q[|recs|]);
  }

  lemma WholeLog(c: Ctx, file: seq<byte>, st: SuperState, recs: seq<Rec>, q: seq<Rec>)
    requires c.Valid() && Describes(c, file, st, q) && recs <= q && LogEnd(recs) >= st.committedEnd
    ensures recs == q
  {
    hide RecAt, LogEnd;
    LogEndMonotone(q, |recs|, |q|);
    assert q[..|recs|] == recs && q[..|q|] == q;
  }

  method ReadRecordAt(c: Ctx, file: File, offset: nat) returns (r: Result<(RecordHeader, seq<byte>), VolumeError>)
    requires c.Valid()
    ensures r == ReadRecord(c, file.disk.cached, offset)
  {
    hide RecordHeader.Decode, DeriveNonce, RecordAad;
    var headerBytes := file.ReadExact(offset, RECORD_HEADER_SIZE);
    if headerBytes.None? {
      return Err(Io);
    }
    var decoded := RecordHeader.Decode(headerBytes.value);
    if decoded.Err? {
      return Err(decoded.error);
    }
    var h := decoded.value;
    if h.blockIndex >= c.boot.BlockCount() {
      return Err(Corrupt("block index exceeds logical capacity"));
    }
    if h.plaintextLen > c.boot.blockSize {
      return Err(Corrupt("block plaintext exceeds configured block size"));
    }
    var sealed := file.ReadExact(offset + RECORD_HEADER_SIZE, h.ciphertextLen);
    if sealed.None? {
      return Err(Io);
    }
    var nonce := DeriveNonce(c, Ascii("data"), h.blockIndex, h.generation);
    var plaintext := c.suite.open(c.key, nonce, RecordAad(c, headerBytes.value), sealed.value);
    if plaintext.None? {
      return Err(AuthenticationFailed);
    }
    if |plaintext.value| != h.plaintextLen {
      return Err(Corrupt("decrypted block length mismatch"));
    }
    return Ok((h, plaintext.value));
  }

  /**
   Rebuilds the block index from the log. It succeeds exactly when some sequence of records accounts for `st`,
   and then the index is the one of those records.
   */
  method ScanLog(c: Ctx, file: File, st: SuperState)
    returns (r: Result<map<u64, RecordIndex>, VolumeError>, ghost recs: seq<Rec>)
    requires c.Valid() && LOG_START <= st.committedEnd <= |file.disk.cached|
    ensures r.Ok? ==> Describes(c, file.disk.cached, st, recs) && r.value == IndexOf(recs)
    ensures r.Err? ==> forall q: seq<Rec> :: !Describes(c, file.disk.cached, st, q)
  {
    hide RecAt, LogEnd, IndexOf, ReadRecord, Describes, IsLog;
    ghost var bytes := file.disk.cached;
    var index: map<u64, RecordIndex> := map[];
    var offset := LOG_START;
    var count := 0;
    recs := [];
    EmptyScan(c, bytes);
    while offset < st.committedEnd
      invariant bytes == file.disk.cached
      invariant IsLog(c, bytes, recs) && offset == LogEnd(recs) <= st.committedEnd
      invariant index == IndexOf(recs) && count == |recs|
      invariant AllExtend(c, bytes, st, recs)
    {
      MustContinue(c, bytes, st, recs);
      var read := ReadRecordAt(c, file, offset);
      if read.Err? {
        UnreadableRecord(c, bytes, offset);
        return Err(read.error), recs;
      }
      var (header, data) := read.value;
      ghost var r0 := Rec(header.blockIndex, header.generation, data);
      FoundRecord(c, bytes, offset, header, data);
      AllContinueWith(c, bytes, st, recs, r0);
      if header.blockIndex in index {
        if header.generation <= index[header.blockIndex].generation {
          return Err(Corrupt("block generation did not increase")), recs;
        }
      } else if header.generation == 0 {
        return Err(Corrupt("block generation zero is invalid")), recs;
      }
      var next := offset + RECORD_HEADER_SIZE + header.ciphertextLen;
      if next >= U64_LIMIT {
        return Err(Corrupt("block record offset overflow")), recs;
      }
      if next > st.committedEnd {
        return Err(Corrupt("block record extends past committed log")), recs;
      }
      index := index[header.blockIndex := RecordIndex(offset, header.generation, header.plaintextLen, header.ciphertextLen)];
      ScanStep(c, bytes, recs, r0);
      recs := recs + [r0];
      offset := next;
      count := Min(count + 1, U64_MAX);
    }
    ScanComplete(c, bytes, st, recs);
    if offset != st.committedEnd || count != st.recordCount {
      return Err(Corrupt("committed log accounting mismatch")), recs;
    }
    DescribesIntro(c, bytes, st, recs);
    return Ok(index), recs;
  }

  lemma EmptyScan(c: Ctx, bytes: seq<byte>)
    requires c.Valid() && LOG_START <= |bytes|
    ensures IsLog(c, bytes, []) && LogEnd([]) == LOG_START && IndexOf([]) == map[]
  {
  }

  ghost predicate AllExtend(c: Ctx, bytes: seq<byte>, st: SuperState, recs: seq<Rec>)
    requires c.Valid()
  {
    forall q: seq<Rec> :: Describes(c, bytes, st, q) ==> recs <= q
  }

  lemma MustContinue(c: Ctx, bytes: seq<byte>, st: SuperState, recs: seq<Rec>)
    requires c.Valid() && AllExtend(c, bytes, st, recs) && LogEnd(recs) < st.committedEnd
    ensures forall q: seq<Rec> :: Describes(c, bytes, st, q) ==> |recs| < |q| && RecAt(c, bytes, LogEnd(recs), q[|recs|])
  {
    hide RecAt, LogEnd, Describes;
    forall q: seq<Rec> | Describes(c, bytes, st, q)
      ensures |recs| < |q| && RecAt(c, bytes, LogEnd(recs), q[|recs|])
    {
      NextRecord(c, bytes, st, recs, q);
    }
  }

  /** The record found next is the next record of every account, and must pass the scan's checks. */
  lemma AllContinueWith(c: Ctx, bytes: seq<byte>, st: SuperState, recs: seq<Rec>, r: Rec)
    requires c.Valid() && AllExtend(c, bytes, st, recs) && LogEnd(recs) < st.committedEnd
    requires RecAt(c, bytes, LogEnd(recs), r)
    ensures AllExtend(c, bytes, st, recs + [r])
    ensures r.generation <= LastGeneration(recs, r.block) || LogEnd(recs) + RecLen(r) > st.committedEnd ==>
              forall q: seq<Rec> :: !Describes(c, bytes, st, q)
  {
    hide RecAt, LogEnd, Describes, LastGeneration, RecLen;
    forall q: seq<Rec> | Describes(c, bytes, st, q)
      ensures recs + [r] <= q && r.generation > LastGeneration(recs, r.block) && LogEnd(recs) + RecLen(r) <= st.committedEnd
    {
      NextRecord(c, bytes, st, recs, q);
      PrefixStep(c, bytes, st, recs, r, q);
    }
  }

  lemma ScanStep(c: Ctx, bytes: seq<byte>, recs: seq<Rec>, r: Rec)
    requires c.Valid() && IsLog(c, bytes, recs) && RecAt(c, bytes, LogEnd(recs), r)
    requires r.generation > LastGeneration(recs, r.block)
    ensures IsLog(c, bytes, recs + [r])
    ensures IndexOf(recs + [r]) == IndexOf(recs)[r.block := RecordIndex(LogEnd(recs), r.generation, |r.data|, |r.data| + 16)]
    ensures LogEnd(recs + [r]) == LogEnd(recs) + RecLen(r)
    ensures |recs| < LogEnd(recs + [r])
  {
    hide *;
    IsLogSnoc(c, bytes, recs, r);
    IndexSnoc(recs, r);
    LogEndSnoc(recs, r);
    CountFits(recs + [r]);
  }

  lemma ScanComplete(c: Ctx, bytes: seq<byte>, st: SuperState, recs: seq<Rec>)
    requires c.Valid() && AllExtend(c, bytes, st, recs) && LogEnd(recs) >= st.committedEnd
    ensures forall q: seq<Rec> :: Describes(c, bytes, st, q) ==> recs == q && |recs| == st.recordCount && LogEnd(recs) == st.committedEnd
  {
    hide IsLog, LogEnd;
    forall q: seq<Rec> | Describes(c, bytes, st, q)
      ensures recs == q
    {
      WholeLog(c, bytes, st, recs, q);
    }
  }

  lemma UnreadableRecord(c: Ctx, bytes: seq<byte>, offset: nat)
    requires c.Valid() && ReadRecord(c, bytes, offset).Err?
    ensures forall r :: !RecAt(c, bytes, offset, r)
  {
    hide ReadRecord;
  }

  lemma FoundRecord(c: Ctx, bytes: seq<byte>, offset: nat, h: RecordHeader, data: seq<byte>)
    requires c.Valid() && ReadRecord(c, bytes, offset) == Ok((h, data))
    ensures RecAt(c, bytes, offset, Rec(h.blockIndex, h.generation, data))
    ensures |data| == h.plaintextLen && h.ciphertextLen == |data| + TAG_SIZE
  {
    hide DeriveNonce, RecordAad, Bootstrap.Valid, Bootstrap.BlockCount;
    hide RecordHeader.Decode;
    ReadRecordIsRec(c, bytes, offset);
  }

  lemma CountFits(recs: seq<Rec>)
    ensures LOG_START + 48 * |recs| <= LogEnd(recs)
  {
    LogEndMonotone(recs, 0, |recs|);
    assert recs[..0] == [] && recs[..|recs|] == recs;
  }

  lemma DescribesIntro(c: Ctx, bytes: seq<byte>, st: SuperState, recs: seq<Rec>)
    requires c.Valid() && IsLog(c, bytes, recs) && LogEnd(recs) == st.committedEnd && |recs| == st.recordCount
    ensures Describes(c, bytes, st, recs)
  {
    hide IsLog, LogEnd;
  }

  method WriteSuperblock(c: Ctx, file: File, slot: nat, st: SuperState)
    requires c.Valid() && slot < 2
    modifies file
    ensures var op := Write(SuperOffset(slot), EncodeSlot(c, slot, st));
            file.disk == Step(old(file.disk), op) && file.trace == old(file.trace) + [op]
  {
    hide DeriveNonce, SuperAad, Step, Le, Bootstrap.Valid;
    var payload := EncodeSuperState(st);
    var nonce := DeriveNonce(c, Ascii("super"), slot, st.generation);
    var sealed := c.suite.seal(c.key, nonce, SuperAad(c, slot, st.generation), payload[..]);
    assert |sealed| == SUPER_PLAINTEXT_SIZE + TAG_SIZE;
    var bytes := new byte[SUPER_SLOT_SIZE](_ => 0);
    FillNext(bytes, [], 0, Le64(st.generation));
    FillNext(bytes, Le64(st.generation), 8, Le32(|sealed|));
    FillNext(bytes, Le64(st.generation) + Le32(|sealed|), 12, Zeros(4));
    FillNext(bytes, Le64(st.generation) + Le32(|sealed|) + Zeros(4), 16, sealed);
    assert bytes[..] == EncodeSlot(c, slot, st);
    file.WriteAll(SuperOffset(slot), bytes[..]);
  }

  method ReadSuperblock(c: Ctx, file: File, slot: nat) returns (r: Result<Option<SuperState>, VolumeError>)
    requires c.Valid() && slot < 2
    ensures r == ReadSlot(c, file.disk.cached, slot)
  {
    hide DecodeSlot;
    var bytes := file.ReadExact(SuperOffset(slot), SUPER_SLOT_SIZE);
    if bytes.None? {
      return Err(Io);
    }
    r := DecodeSlot(c, slot, bytes.value);
  }
}
