/** What the volume authenticates and seals under: nonce messages and associated data that no two places share. */
module VolumeNonces {
  import opened Bytes
  import opened Cipher
  import opened VolumeFormat
  import opened VolumeCodec
  import opened VolumeLog
  import opened VolumeProtocol
  import opened VolumeRecovery
  import opened VolumeRuns
  import opened VolumeResults

  // ----- nonces

  /** Where the fields of a nonce message are, after its label and the volume's identifier. */
  lemma NonceMessageFields(boot: Bootstrap, d: seq<byte>, a: u64, b: u64)
    requires |d| < U64_LIMIT
    ensures var m, at := NonceMessage(boot, d, a, b), |Ascii("OrIsyVra/volume/nonce/v1")| + |boot.volumeId|;
            && |m| == at + 24 + |d| && m[..at] == Ascii("OrIsyVra/volume/nonce/v1") + boot.volumeId
            && FromLe64(m[at..at + 8]) == |d| && m[at + 8..at + 8 + |d|] == d
            && FromLe64(m[at + 8 + |d|..at + 16 + |d|]) == a && FromLe64(m[at + 16 + |d|..at + 24 + |d|]) == b
  {
    hide Le, FromLe;
    var m, at := NonceMessage(boot, d, a, b), |Ascii("OrIsyVra/volume/nonce/v1")| + |boot.volumeId|;
    var mid := at + 8 + |d|;
    assert m[at..at + 8] == Le64(|d|) && m[mid..mid + 8] == Le64(a) && m[mid + 8..mid + 16] == Le64(b);
    Le64RoundTrip(|d|);
    Le64RoundTrip(a);
    Le64RoundTrip(b);
  }

  /** A nonce message determines domain and counters, however long the domain. */
  lemma NonceMessageInjective(boot: Bootstrap, d: seq<byte>, a: u64, b: u64, d': seq<byte>, a': u64, b': u64)
    requires |d| < U64_LIMIT && |d'| < U64_LIMIT
    requires NonceMessage(boot, d, a, b) == NonceMessage(boot, d', a', b')
    ensures d == d' && a == a' && b == b'
  {
    hide NonceMessage, FromLe;
    NonceMessageFields(boot, d, a, b);
    NonceMessageFields(boot, d', a', b');
  }

  function RecordNonceMessage(c: Ctx, r: Rec): seq<byte>
    requires r.generation < U64_LIMIT
  {
    NonceMessage(c.boot, Ascii("data"), r.block, r.generation)
  }

  function SlotNonceMessage(c: Ctx, slot: nat, generation: u64): seq<byte>
    requires slot < 2
  {
    NonceMessage(c.boot, Ascii("super"), slot, generation)
  }

  /** A record is sealed under the nonce of its block and generation, with its header authenticated. */
  lemma RecordSealing(c: Ctx, r: Rec)
    requires c.Valid() && RecFits(c, r)
    ensures EncodeRecord(c, r)[..RECORD_HEADER_SIZE] == HeaderOf(r).Encode()
    ensures |c.suite.hmac(c.nonceKey, RecordNonceMessage(c, r))| == 32
    ensures c.suite.open(c.key, c.suite.hmac(c.nonceKey, RecordNonceMessage(c, r))[..24],
                         RecordAad(c, HeaderOf(r).Encode()), EncodeRecord(c, r)[RECORD_HEADER_SIZE..]) == Some(r.data)
  {
    hide RecordHeader.Encode, RecordAad, NonceMessage, Bootstrap.Valid, Bootstrap.BlockCount;
    var sealed := SealRecord(c, HeaderOf(r), r.data);
    assert EncodeRecord(c, r)[RECORD_HEADER_SIZE..] == sealed;
  }

  /** A superblock is sealed under the nonce of its slot and generation. */
  lemma SlotSealing(c: Ctx, slot: nat, st: SuperState)
    requires c.Valid() && slot < 2
    ensures |c.suite.hmac(c.nonceKey, SlotNonceMessage(c, slot, st.generation))| == 32
    ensures c.suite.open(c.key, c.suite.hmac(c.nonceKey, SlotNonceMessage(c, slot, st.generation))[..24],
                         SuperAad(c, slot, st.generation), EncodeSlot(c, slot, st)[16..96]) == Some(st.Encode())
  {
    hide EncodeSlot, SuperAad, NonceMessage, SuperState.Encode, FromLe64, FromLe32, Bootstrap.Valid;
    SlotLayout(c, slot, st);
  }

  lemma LabelsDiffer()
    ensures Ascii("data") != Ascii("super")
  {
  }

  lemma RecordNoncesDiffer(c: Ctx, r: Rec, q: Rec)
    requires r.generation < U64_LIMIT && q.generation < U64_LIMIT
    requires r.block != q.block || r.generation != q.generation
    ensures RecordNonceMessage(c, r) != RecordNonceMessage(c, q)
  {
    hide NonceMessage;
    if RecordNonceMessage(c, r) == RecordNonceMessage(c, q) {
      NonceMessageInjective(c.boot, Ascii("data"), r.block, r.generation, Ascii("data"), q.block, q.generation);
    }
  }

  lemma RecordAndSlotNoncesDiffer(c: Ctx, r: Rec, slot: nat, generation: u64)
    requires r.generation < U64_LIMIT && slot < 2
    ensures RecordNonceMessage(c, r) != SlotNonceMessage(c, slot, generation)
  {
    hide NonceMessage;
    LabelsDiffer();
    if RecordNonceMessage(c, r) == SlotNonceMessage(c, slot, generation) {
      NonceMessageInjective(c.boot, Ascii("data"), r.block, r.generation, Ascii("super"), slot, generation);
    }
  }

  lemma SlotNoncesDiffer(c: Ctx, slot: nat, generation: u64, slot': nat, generation': u64)
    requires slot < 2 && slot' < 2 && (slot != slot' || generation != generation')
    ensures SlotNonceMessage(c, slot, generation) != SlotNonceMessage(c, slot', generation')
  {
    hide NonceMessage;
    if SlotNonceMessage(c, slot, generation) == SlotNonceMessage(c, slot', generation') {
      NonceMessageInjective(c.boot, Ascii("super"), slot, generation, Ascii("super"), slot', generation');
    }
  }

  /**
   In every reachable state, no two records of the recovered log are sealed under the same nonce message, no record
   shares one with a superblock, and the two superblocks do not share one either.
   */
  lemma NoncesOfRun(c: Ctx, s: Sys, v: View)
    requires c.Valid() && Inv(c, s, v)
    ensures var recs := RecsOf(v.history);
            && (forall i :: 0 <= i < |recs| ==> recs[i].generation < U64_LIMIT)
            && (forall i, j :: 0 <= i < j < |recs| ==> RecordNonceMessage(c, recs[i]) != RecordNonceMessage(c, recs[j]))
            && (forall i, slot, g: u64 :: 0 <= i < |recs| && 0 <= slot < 2 ==>
                  RecordNonceMessage(c, recs[i]) != SlotNonceMessage(c, slot, g))
            && (forall g: u64, g': u64 :: SlotNonceMessage(c, 0, g) != SlotNonceMessage(c, 1, g'))
  {
    hide RecsOf, IsLog, ReadSlot, HasBoot, RecordNonceMessage, SlotNonceMessage, LogEnd, ValidTx;
    var recs := RecsOf(v.history);
    CountersOfRun(c, s, v, 0);
    LogFits(c, s.disk.durable, recs);
    forall i, j | 0 <= i < j < |recs|
      ensures RecordNonceMessage(c, recs[i]) != RecordNonceMessage(c, recs[j])
    {
      RecordNoncesDiffer(c, recs[i], recs[j]);
    }
    forall i, slot, g: u64 | 0 <= i < |recs| && 0 <= slot < 2
      ensures RecordNonceMessage(c, recs[i]) != SlotNonceMessage(c, slot, g)
    {
      RecordAndSlotNoncesDiffer(c, recs[i], slot, g);
    }
    forall g: u64, g': u64
      ensures SlotNonceMessage(c, 0, g) != SlotNonceMessage(c, 1, g')
    {
      SlotNoncesDiffer(c, 0, g, 1, g');
    }
  }

  lemma NewIsLater(recs: seq<Rec>, i: nat)
    requires Increasing(recs) && i < |recs|
    ensures recs[i].generation < NextGeneration(IndexOf(recs), recs[i].block)
  {
    LastGenerationBounds(recs, recs[i].block);
  }

  /** The records a transaction adds are sealed under nonce messages that no record of the log has used. */
  lemma FreshNonces(c: Ctx, recs: seq<Rec>, tx: Tx, i: nat, j: nat)
    requires Increasing(recs) && i < |recs| && j < |tx|
    requires recs[i].generation < U64_LIMIT && NewRecs(IndexOf(recs), tx)[j].generation < U64_LIMIT
    ensures RecordNonceMessage(c, recs[i]) != RecordNonceMessage(c, NewRecs(IndexOf(recs), tx)[j])
  {
    hide RecordNonceMessage, IndexOf, NextGeneration, Increasing;
    NewIsLater(recs, i);
    RecordNoncesDiffer(c, recs[i], NewRecs(IndexOf(recs), tx)[j]);
  }

  // ----- associated data and keys

  /** Records and superblocks authenticate different data: their headers, or their slot and generation, and never alike. */
  lemma AssociatedDataSeparates(c: Ctx, header: seq<byte>, header': seq<byte>, slot: nat, slot': nat, g: u64, g': u64)
    requires c.Valid() && slot < 2 && slot' < 2 && |header| == |header'| == RECORD_HEADER_SIZE
    ensures RecordAad(c, header) == RecordAad(c, header') ==> header == header'
    ensures SuperAad(c, slot, g) == SuperAad(c, slot', g') ==> slot == slot' && g == g'
    ensures RecordAad(c, header) != SuperAad(c, slot, g)
    ensures c.boot.Encode() <= RecordAad(c, header) && c.boot.Encode() <= SuperAad(c, slot, g)
  {
    hide Bootstrap.Encode, Bootstrap.Valid, Le, FromLe;
    var a, b := RecordAad(c, header), RecordAad(c, header');
    assert a[260..292] == header && b[260..292] == header';
    var x, y := SuperAad(c, slot, g), SuperAad(c, slot', g');
    assert x[261] == slot && y[261] == slot';
    assert x[262..270] == Le64(g) && y[262..270] == Le64(g');
    Le64RoundTrip(g);
    Le64RoundTrip(g');
  }

  /** The key and the nonce key are the two halves of one derived string, bound to the master key, the salt and the volume. */
  lemma KeysAreHalves(suite: Suite, master: seq<byte>, boot: Bootstrap)
    ensures var c := DeriveKeys(suite, master, boot);
            && |c.key| == 32 && |c.nonceKey| == 32
            && c.key + c.nonceKey == suite.hkdf(boot.salt, master, Ascii("OrIsyVra/volume/guarded/v1") + boot.volumeId)
  {
    var output := suite.hkdf(boot.salt, master, Ascii("OrIsyVra/volume/guarded/v1") + boot.volumeId);
    assert output[..32] + output[32..] == output;
  }

  /** A slot reads as empty exactly when all its bytes are zero, and a readable one says what its superblock says. */
  lemma SlotReading(c: Ctx, slot: nat, s: seq<byte>)
    requires c.Valid() && slot < 2 && |s| == SUPER_SLOT_SIZE
    ensures DecodeSlot(c, slot, s) == Ok(None) <==> s == Zeros(SUPER_SLOT_SIZE)
    ensures match DecodeSlot(c, slot, s)
            case Ok(Some(st)) => FromLe64(s[..8]) == st.generation && st.committedEnd >= LOG_START
            case _ => true
  {
    hide SuperAad, DeriveNonce, FromLe, Bootstrap.Valid;
  }
}
