/** Sealed superblock slots and sealed block records: how they are written and what they read back as. */
module VolumeCodec {
  import opened Bytes
  import opened Cipher
  import opened VolumeFormat

  /** What every read and write needs: the primitives, the decoded bootstrap and the derived keys. */
  datatype Ctx = Ctx(suite: Suite, boot: Bootstrap, key: seq<byte>, nonceKey: seq<byte>) {
    ghost predicate Valid() {
      boot.Valid()
    }
  }

  function DeriveKeys(suite: Suite, master: seq<byte>, boot: Bootstrap): (c: Ctx)
    ensures c.boot == boot && c.suite == suite
  {
    var output := suite.hkdf(boot.salt, master, Ascii("OrIsyVra/volume/guarded/v1") + boot.volumeId);
    assert |output| == 64;
    Ctx(suite, boot, output[..32], output[32..])
  }

  /** What a nonce authenticates: the volume, a domain of any length, and two counters. */
  function NonceMessage(boot: Bootstrap, domain: seq<byte>, first: u64, second: u64): seq<byte> {
    Ascii("OrIsyVra/volume/nonce/v1") + boot.volumeId + Le64(|domain|) + domain + Le64(first) + Le64(second)
  }

  function DeriveNonce(c: Ctx, domain: seq<byte>, first: u64, second: u64): seq<byte> {
    var digest := c.suite.hmac(c.nonceKey, NonceMessage(c.boot, domain, first, second));
    assert |digest| == 32;
    digest[..24]
  }

  // ----- superblock slots

  function SuperOffset(slot: nat): (at: nat)
    requires slot < 2
    ensures at == BOOTSTRAP_SIZE + slot * SUPER_SLOT_SIZE && at + SUPER_SLOT_SIZE <= LOG_START
  {
    if slot == 0 then SUPER_A_OFFSET else SUPER_B_OFFSET
  }

  function SuperAad(c: Ctx, slot: nat, generation: u64): seq<byte>
    requires c.Valid() && slot < 2
  {
    c.boot.Encode() + Ascii("super") + [slot] + Le64(generation)
  }

  function EncodeSlot(c: Ctx, slot: nat, st: SuperState): (s: seq<byte>)
    requires c.Valid() && slot < 2
    ensures |s| == SUPER_SLOT_SIZE
  {
    var nonce := DeriveNonce(c, Ascii("super"), slot, st.generation);
    var sealed := c.suite.seal(c.key, nonce, SuperAad(c, slot, st.generation), st.Encode());
    assert |sealed| == SUPER_PLAINTEXT_SIZE + TAG_SIZE;
    Le64(st.generation) + Le32(|sealed|) + Zeros(4) + sealed + Zeros(SUPER_SLOT_SIZE - 16 - |sealed|)
  }

  function DecodeSlot(c: Ctx, slot: nat, s: seq<byte>): Result<Option<SuperState>, VolumeError>
    requires c.Valid() && slot < 2 && |s| == SUPER_SLOT_SIZE
  {
    if forall i :: 0 <= i < |s| ==> s[i] == 0 then
      Ok(None)
    else
      var generation := FromLe64(s[..8]);
      var sealedLen := FromLe32(s[8..12]);
      if sealedLen == 0 || sealedLen + 16 > SUPER_SLOT_SIZE then
        Err(Corrupt("invalid superblock slot length"))
      else
        var nonce := DeriveNonce(c, Ascii("super"), slot, generation);
        match c.suite.open(c.key, nonce, SuperAad(c, slot, generation), s[16..16 + sealedLen])
        case None => Err(AuthenticationFailed)
        case Some(plaintext) =>
          var st :- SuperState.Decode(plaintext);
          if st.generation != generation then
            Err(Corrupt("superblock generation mismatch"))
          else
            Ok(Some(st))
  }

  /** The superblock a file holds in a slot, if it is readable there. */
  function ReadSlot(c: Ctx, file: seq<byte>, slot: nat): Result<Option<SuperState>, VolumeError>
    requires c.Valid() && slot < 2
  {
    var at := SuperOffset(slot);
    if at + SUPER_SLOT_SIZE > |file| then Err(Io) else DecodeSlot(c, slot, file[at..at + SUPER_SLOT_SIZE])
  }

  lemma SlotLayout(c: Ctx, slot: nat, st: SuperState)
    requires c.Valid() && slot < 2
    ensures var s, nonce := EncodeSlot(c, slot, st), DeriveNonce(c, Ascii("super"), slot, st.generation);
            && FromLe64(s[..8]) == st.generation && FromLe32(s[8..12]) == 80 && s[8] == 80
            && c.suite.open(c.key, nonce, SuperAad(c, slot, st.generation), s[16..96]) == Some(st.Encode())
  {
    hide SuperAad, DeriveNonce, SuperState.Encode, Le, FromLe, Bootstrap.Valid;
    var s := EncodeSlot(c, slot, st);
    var sealed := c.suite.seal(c.key, DeriveNonce(c, Ascii("super"), slot, st.generation), SuperAad(c, slot, st.generation), st.Encode());
    var front := Le64(st.generation) + Le32(80) + Zeros(4);
    SliceMiddle(front, sealed, Zeros(SUPER_SLOT_SIZE - 16 - |sealed|));
    assert s[..8] == Le64(st.generation) && s[8..12] == Le32(80) && s[8] == Le32(80)[0];
    Le64RoundTrip(st.generation);
    Le32RoundTrip(80);
    LowByteOf80();
  }

  lemma LowByteOf80()
    ensures Le32(80)[0] == 80
  {
  }

  lemma SlotRoundTrip(c: Ctx, slot: nat, st: SuperState)
    requires c.Valid() && slot < 2 && st.committedEnd >= LOG_START
    ensures DecodeSlot(c, slot, EncodeSlot(c, slot, st)) == Ok(Some(st))
  {
    hide EncodeSlot, SuperAad, DeriveNonce, SuperState.Encode, FromLe64, FromLe32, Bootstrap.Valid;
    SlotLayout(c, slot, st);
    SuperStateRoundTrip(st);
  }

  // ----- block records

  datatype Rec = Rec(block: u64, generation: nat, data: seq<byte>)

  ghost predicate RecFits(c: Ctx, r: Rec)
    requires c.Valid()
  {
    && r.block < c.boot.BlockCount()
    && r.generation < U64_LIMIT
    && |r.data| <= c.boot.blockSize <= MAX_BLOCK_SIZE
  }

  function RecLen(r: Rec): nat {
    RECORD_HEADER_SIZE + |r.data| + TAG_SIZE
  }

  function HeaderOf(r: Rec): RecordHeader
    requires r.generation < U64_LIMIT && |r.data| <= MAX_BLOCK_SIZE
  {
    RecordHeader(r.block, r.generation, |r.data|, |r.data| + TAG_SIZE)
  }

  function RecordAad(c: Ctx, header: seq<byte>): seq<byte>
    requires c.Valid()
  {
    c.boot.Encode() + Ascii("data") + header
  }

  function SealRecord(c: Ctx, h: RecordHeader, data: seq<byte>): (s: seq<byte>)
    requires c.Valid()
    ensures |s| == |data| + TAG_SIZE
  {
    var nonce := DeriveNonce(c, Ascii("data"), h.blockIndex, h.generation);
    c.suite.seal(c.key, nonce, RecordAad(c, h.Encode()), data)
  }

  function EncodeRecord(c: Ctx, r: Rec): (s: seq<byte>)
    requires c.Valid() && RecFits(c, r)
    ensures |s| == RecLen(r)
  {
    HeaderOf(r).Encode() + SealRecord(c, HeaderOf(r), r.data)
  }

  /** The header and payload a file holds at `offset`, with every check made before the payload is trusted. */
  function ReadRecord(c: Ctx, file: seq<byte>, offset: nat): Result<(RecordHeader, seq<byte>), VolumeError>
    requires c.Valid()
  {
    var body := offset + RECORD_HEADER_SIZE;
    if body > |file| then
      Err(Io)
    else
      var headerBytes := file[offset..body];
      var h :- RecordHeader.Decode(headerBytes);
      if h.blockIndex >= c.boot.BlockCount() then
        Err(Corrupt("block index exceeds logical capacity"))
      else if h.plaintextLen > c.boot.blockSize then
        Err(Corrupt("block plaintext exceeds configured block size"))
      else if body + h.ciphertextLen > |file| then
        Err(Io)
      else
        var nonce := DeriveNonce(c, Ascii("data"), h.blockIndex, h.generation);
        match c.suite.open(c.key, nonce, RecordAad(c, headerBytes), file[body..body + h.ciphertextLen])
        case None => Err(AuthenticationFailed)
        case Some(data) =>
          if |data| != h.plaintextLen then Err(Corrupt("decrypted block length mismatch")) else Ok((h, data))
  }

  /** Reading the file at `offset` yields exactly the record `r`. */
  ghost predicate RecAt(c: Ctx, file: seq<byte>, offset: nat, r: Rec)
    requires c.Valid()
  {
    RecFits(c, r) && ReadRecord(c, file, offset) == Ok((HeaderOf(r), r.data))
  }

  /** What reads back is some fitting record, and reading determines it. */
  lemma ReadRecordIsRec(c: Ctx, file: seq<byte>, offset: nat)
    requires c.Valid() && ReadRecord(c, file, offset).Ok?
    ensures var (h, data) := ReadRecord(c, file, offset).value;
            RecAt(c, file, offset, Rec(h.blockIndex, h.generation, data)) && offset + RecLen(Rec(h.blockIndex, h.generation, data)) <= |file|
  {
    hide RecordHeader.Decode, DeriveNonce, RecordAad, Bootstrap.BlockCount;
  }

  lemma RecAtInside(c: Ctx, file: seq<byte>, offset: nat, r: Rec)
    requires c.Valid() && RecAt(c, file, offset, r)
    ensures offset + RecLen(r) <= |file|
  {
    hide RecordHeader.Decode, DeriveNonce, RecordAad, Bootstrap.Valid, Bootstrap.BlockCount;
  }

  /** A record depends only on its own bytes. */
  lemma RecAtFrame(c: Ctx, file: seq<byte>, file': seq<byte>, offset: nat, r: Rec)
    requires c.Valid() && RecAt(c, file, offset, r)
    requires offset + RecLen(r) <= |file| && offset + RecLen(r) <= |file'|
    requires file[offset..offset + RecLen(r)] == file'[offset..offset + RecLen(r)]
    ensures RecAt(c, file', offset, r)
  {
    hide RecordHeader.Decode, DeriveNonce, RecordAad, Bootstrap.Valid, Bootstrap.BlockCount;
    var body, end := offset + RECORD_HEADER_SIZE, offset + RecLen(r);
    NarrowSlice(file, file', offset, end, offset, body);
    NarrowSlice(file, file', offset, end, body, end);
  }

  /** When only sealed messages open, what reads back as a record is its encoding, byte for byte. */
  lemma RecordBytes(c: Ctx, file: seq<byte>, offset: nat, r: Rec)
    requires c.Valid() && Resealing(c.suite) && RecAt(c, file, offset, r)
    ensures offset + RecLen(r) <= |file| && file[offset..offset + RecLen(r)] == EncodeRecord(c, r)
  {
    hide RecordHeader.Decode, RecordHeader.Encode, DeriveNonce, RecordAad, Bootstrap.Valid, Bootstrap.BlockCount;
    var body, end := offset + RECORD_HEADER_SIZE, offset + RecLen(r);
    RecordHeaderCanonical(file[offset..body]);
    assert file[offset..end] == file[offset..body] + file[body..end];
  }

  /** A record written to the file reads back as itself. */
  lemma WrittenRecordReads(c: Ctx, file: seq<byte>, offset: nat, r: Rec)
    requires c.Valid() && RecFits(c, r)
    requires offset + RecLen(r) <= |file| && file[offset..offset + RecLen(r)] == EncodeRecord(c, r)
    ensures RecAt(c, file, offset, r)
  {
    hide RecordHeader.Decode, RecordHeader.Encode, DeriveNonce, RecordAad, Bootstrap.BlockCount;
    var body, end := offset + RECORD_HEADER_SIZE, offset + RecLen(r);
    var h := HeaderOf(r);
    assert file[offset..body] == file[offset..end][..RECORD_HEADER_SIZE] == h.Encode();
    assert file[body..end] == file[offset..end][RECORD_HEADER_SIZE..] == SealRecord(c, h, r.data);
    RecordHeaderRoundTrip(h);
  }
}
