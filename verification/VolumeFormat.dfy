/** The on-disk structures of an encrypted volume: bootstrap header, superblock slots and block records. */
module VolumeFormat {
  import opened Bytes
  import opened Cipher

  const BOOTSTRAP_SIZE: nat := 256
  const SUPER_SLOT_SIZE: nat := 512
  const SUPER_A_OFFSET: nat := 256
  const SUPER_B_OFFSET: nat := 768
  const LOG_START: nat := 4096
  const SUPER_PLAINTEXT_SIZE: nat := 64
  const RECORD_HEADER_SIZE: nat := 32
  const MIN_BLOCK_SIZE: nat := 4096
  const MAX_BLOCK_SIZE: nat := 16 * 1024 * 1024
  const VOLUME_VERSION: nat := 1

  const VOLUME_MAGIC: seq<byte> := [0x4f, 0x59, 0x56, 0x56, 0x4f, 0x4c, 0x31, 0]  // "OYVVOL1\0"
  const SUPER_MAGIC: seq<byte> := [0x4f, 0x59, 0x56, 0x53, 0x42, 0x31, 0, 0]      // "OYVSB1\0\0"
  const RECORD_MAGIC: seq<byte> := [0x4f, 0x59, 0x56, 0x42]                       // "OYVB"

  datatype VolumeError =
    | Io
    | InvalidFormat(reason: string)
    | InvalidInput(reason: string)
    | AuthenticationFailed
    | Corrupt(reason: string)
    | BlockOutOfRange

  // ----- bootstrap

  predicate PowerOfTwo(n: nat) {
    n == 1 || (n > 0 && n % 2 == 0 && PowerOfTwo(n / 2))
  }

  function ValidateOptions(capacity: u64, blockSize: u32): Result<(), VolumeError> {
    if capacity == 0 then
      Err(InvalidInput("logical capacity must be greater than zero"))
    else if !(MIN_BLOCK_SIZE <= blockSize <= MAX_BLOCK_SIZE) || !PowerOfTwo(blockSize) then
      Err(InvalidInput("block size must be a power of two between 4096 and 16777216"))
    else
      Ok(())
  }

  datatype Bootstrap = Bootstrap(logicalCapacity: u64, blockSize: u32, volumeId: seq<byte>, salt: seq<byte>) {

    predicate Valid() {
      ValidateOptions(logicalCapacity, blockSize).Ok? && |volumeId| == 32 && |salt| == 32
    }

    function Encode(): (s: seq<byte>)
      requires Valid()
      ensures |s| == BOOTSTRAP_SIZE
    {
      VOLUME_MAGIC + Le16(VOLUME_VERSION) + Le32(blockSize) + Le64(logicalCapacity) + volumeId + salt
      + Le64(LOG_START) + Zeros(162)
    }

    static function Decode(s: seq<byte>): Result<Bootstrap, VolumeError>
      requires |s| == BOOTSTRAP_SIZE
    {
      if s[..8] != VOLUME_MAGIC then
        Err(InvalidFormat("not an OrIsyVra volume"))
      else if FromLe(s[8..10]) != VOLUME_VERSION then
        Err(InvalidFormat("unsupported volume version"))
      else if FromLe64(s[86..94]) != LOG_START then
        Err(InvalidFormat("unexpected volume log offset"))
      else
        var blockSize := FromLe32(s[10..14]);
        var capacity := FromLe64(s[14..22]);
        var _ :- ValidateOptions(capacity, blockSize);
        Ok(Bootstrap(capacity, blockSize, s[22..54], s[54..86]))
    }

    /** Number of logical blocks, the last of which may be partial. */
    function BlockCount(): nat
      requires Valid()
    {
      BlocksFor(logicalCapacity, blockSize)
    }
  }

  function BlocksFor(capacity: nat, blockSize: nat): nat
    requires blockSize > 0
  {
    capacity / blockSize + (if capacity % blockSize != 0 then 1 else 0)
  }

  /** Byte position `p` exists exactly when its block does: blocks cover the capacity and none lies past it. */
  lemma BlocksCover(capacity: nat, blockSize: nat, block: nat)
    requires blockSize > 0
    ensures block < BlocksFor(capacity, blockSize) <==> block * blockSize < capacity
  {
    var whole, rest := capacity / blockSize, capacity % blockSize;
    assert capacity == whole * blockSize + rest;
    if block <= whole {
      assert block * blockSize <= whole * blockSize;
      if block < whole {
        assert (block + 1) * blockSize <= whole * blockSize;
      }
    } else {
      assert (whole + 1) * blockSize <= block * blockSize;
    }
  }

  lemma BootstrapRoundTrip(b: Bootstrap)
    requires b.Valid()
    ensures Bootstrap.Decode(b.Encode()) == Ok(b)
  {
    var s := b.Encode();
    assert s[8..10] == Le16(VOLUME_VERSION);
    assert s[10..14] == Le32(b.blockSize);
    assert s[14..22] == Le64(b.logicalCapacity);
    assert s[22..54] == b.volumeId;
    assert s[54..86] == b.salt;
    assert s[86..94] == Le64(LOG_START);
    Le16RoundTrip(VOLUME_VERSION);
    Le32RoundTrip(b.blockSize);
    Le64RoundTrip(b.logicalCapacity);
    Le64RoundTrip(LOG_START);
  }

  /** Decoding accepts only headers whose 94 field bytes are the encoding of the result. */
  lemma BootstrapCanonical(s: seq<byte>)
    requires |s| == BOOTSTRAP_SIZE && Bootstrap.Decode(s).Ok?
    ensures var b := Bootstrap.Decode(s).value; b.Valid() && b.Encode()[..94] == s[..94]
  {
    hide Le, FromLe, PowerOfTwo;
    var b := Bootstrap.Decode(s).value;
    LeOfFromLe(s[8..10]);
    LeOfFromLe(s[10..14]);
    LeOfFromLe(s[14..22]);
    LeOfFromLe(s[86..94]);
    assert s[..94] == s[..8] + s[8..10] + s[10..14] + s[14..22] + s[22..54] + s[54..86] + s[86..94];
    assert b.Encode()[..94] == VOLUME_MAGIC + Le16(VOLUME_VERSION) + Le32(b.blockSize) + Le64(b.logicalCapacity)
                              + b.volumeId + b.salt + Le64(LOG_START);
  }

  // ----- superblock payload

  datatype SuperState = SuperState(generation: u64, committedEnd: u64, recordCount: u64, clean: bool) {

    function Encode(): (s: seq<byte>)
      ensures |s| == SUPER_PLAINTEXT_SIZE
    {
      SUPER_MAGIC + Le64(generation) + Le64(committedEnd) + Le64(recordCount) + [if clean then 1 else 0] + Zeros(31)
    }

    static function Decode(s: seq<byte>): Result<SuperState, VolumeError> {
      if |s| != SUPER_PLAINTEXT_SIZE || s[..8] != SUPER_MAGIC then
        Err(Corrupt("invalid superblock payload"))
      else if s[32] > 1 then
        Err(Corrupt("invalid superblock clean flag"))
      else if FromLe64(s[16..24]) < LOG_START then
        Err(Corrupt("superblock points before the data log"))
      else
        Ok(SuperState(FromLe64(s[8..16]), FromLe64(s[16..24]), FromLe64(s[24..32]), s[32] == 1))
    }
  }

  /** A superblock payload survives encoding exactly when it does not point before the log. */
  lemma SuperStateRoundTrip(st: SuperState)
    ensures SuperState.Decode(st.Encode()) ==
            if st.committedEnd >= LOG_START then Ok(st) else Err(Corrupt("superblock points before the data log"))
  {
    var s := st.Encode();
    assert s[8..16] == Le64(st.generation);
    assert s[16..24] == Le64(st.committedEnd);
    assert s[24..32] == Le64(st.recordCount);
    assert s[32] == if st.clean then 1 else 0;
    Le64RoundTrip(st.generation);
    Le64RoundTrip(st.committedEnd);
    Le64RoundTrip(st.recordCount);
  }

  // ----- record header

  datatype RecordHeader = RecordHeader(blockIndex: u64, generation: u64, plaintextLen: u32, ciphertextLen: u32) {

    function Encode(): (s: seq<byte>)
      ensures |s| == RECORD_HEADER_SIZE
    {
      RECORD_MAGIC + Le64(blockIndex) + Le64(generation) + Le32(plaintextLen) + Le32(ciphertextLen) + Zeros(4)
    }

    static function Decode(s: seq<byte>): (r: Result<RecordHeader, VolumeError>)
      requires |s| == RECORD_HEADER_SIZE
      ensures r.Ok? ==> r.value.ciphertextLen == r.value.plaintextLen + TAG_SIZE
    {
      if s[..4] != RECORD_MAGIC then
        Err(Corrupt("invalid block-record magic"))
      else if s[28..32] != Zeros(4) then
        Err(Corrupt("unsupported block-record flags"))
      else
        var plaintextLen := FromLe32(s[20..24]);
        var ciphertextLen := FromLe32(s[24..28]);
        if ciphertextLen != plaintextLen + TAG_SIZE then
          Err(Corrupt("invalid encrypted block length"))
        else
          Ok(RecordHeader(FromLe64(s[4..12]), FromLe64(s[12..20]), plaintextLen, ciphertextLen))
    }
  }

  lemma RecordHeaderRoundTrip(h: RecordHeader)
    requires h.ciphertextLen == h.plaintextLen + TAG_SIZE
    ensures RecordHeader.Decode(h.Encode()) == Ok(h)
  {
    var s := h.Encode();
    assert s[4..12] == Le64(h.blockIndex);
    assert s[12..20] == Le64(h.generation);
    assert s[20..24] == Le32(h.plaintextLen);
    assert s[24..28] == Le32(h.ciphertextLen);
    var fields := RECORD_MAGIC + Le64(h.blockIndex) + Le64(h.generation) + Le32(h.plaintextLen) + Le32(h.ciphertextLen);
    assert s == fields + Zeros(4) + [];
    SliceMiddle(fields, Zeros(4), []);
    Le64RoundTrip(h.blockIndex);
    Le64RoundTrip(h.generation);
    Le32RoundTrip(h.plaintextLen);
    Le32RoundTrip(h.ciphertextLen);
  }

  /** A record header is determined byte for byte by what it decodes to. */
  lemma RecordHeaderCanonical(s: seq<byte>)
    requires |s| == RECORD_HEADER_SIZE && RecordHeader.Decode(s).Ok?
    ensures RecordHeader.Decode(s).value.Encode() == s
  {
    hide Le, FromLe;
    LeOfFromLe(s[4..12]);
    LeOfFromLe(s[12..20]);
    LeOfFromLe(s[20..24]);
    LeOfFromLe(s[24..28]);
    assert s == s[..4] + s[4..12] + s[12..20] + s[20..24] + s[24..28] + s[28..32];
  }

  // ----- encoders: each fills a zeroed buffer field by field

  method EncodeBootstrap(b: Bootstrap) returns (a: array<byte>)
    requires b.Valid()
    ensures fresh(a) && a[..] == b.Encode()
  {
    a := new byte[BOOTSTRAP_SIZE](_ => 0);
    FillNext(a, [], 0, VOLUME_MAGIC);
    ghost var done := VOLUME_MAGIC;
    FillNext(a, done, 8, Le16(VOLUME_VERSION));
    done := done + Le16(VOLUME_VERSION);
    FillNext(a, done, 10, Le32(b.blockSize));
    done := done + Le32(b.blockSize);
    FillNext(a, done, 14, Le64(b.logicalCapacity));
    done := done + Le64(b.logicalCapacity);
    FillNext(a, done, 22, b.volumeId);
    done := done + b.volumeId;
    FillNext(a, done, 54, b.salt);
    done := done + b.salt;
    FillNext(a, done, 86, Le64(LOG_START));
  }

  method EncodeSuperState(st: SuperState) returns (a: array<byte>)
    ensures fresh(a) && a[..] == st.Encode()
  {
    a := new byte[SUPER_PLAINTEXT_SIZE](_ => 0);
    FillNext(a, [], 0, SUPER_MAGIC);
    ghost var done := SUPER_MAGIC;
    FillNext(a, done, 8, Le64(st.generation));
    done := done + Le64(st.generation);
    FillNext(a, done, 16, Le64(st.committedEnd));
    done := done + Le64(st.committedEnd);
    FillNext(a, done, 24, Le64(st.recordCount));
    done := done + Le64(st.recordCount);
    FillNext(a, done, 32, [if st.clean then 1 else 0]);
  }

  method EncodeRecordHeader(h: RecordHeader) returns (a: array<byte>)
    ensures fresh(a) && a[..] == h.Encode()
  {
    a := new byte[RECORD_HEADER_SIZE](_ => 0);
    FillNext(a, [], 0, RECORD_MAGIC);
    ghost var done := RECORD_MAGIC;
    FillNext(a, done, 4, Le64(h.blockIndex));
    done := done + Le64(h.blockIndex);
    FillNext(a, done, 12, Le64(h.generation));
    done := done + Le64(h.generation);
    FillNext(a, done, 20, Le32(h.plaintextLen));
    done := done + Le32(h.plaintextLen);
    FillNext(a, done, 24, Le32(h.ciphertextLen));
  }
}
