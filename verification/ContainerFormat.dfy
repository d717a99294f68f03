/** The encrypted file container: its header, its record and manifest frames, and the two layers that seal them. */
module ContainerFormat {
  import opened Bytes
  import opened Cipher
  import opened Words
  import Sponge

  const HEADER_SIZE: nat := 80
  const FILE_VERSION: nat := 1
  const DATA_RECORD: byte := 1
  const MANIFEST_RECORD: byte := 255
  const MIN_CHUNK_SIZE: nat := 4 * 1024
  const MAX_CHUNK_SIZE: nat := 16 * 1024 * 1024
  const MAX_RECORDS: nat := 0x10_0000
  const NATIVE_TAG_SIZE: nat := 32
  const GUARD_TAG_SIZE: nat := 16
  const MANIFEST_PAYLOAD_SIZE: nat := 64
  const MANIFEST_INNER_SIZE: nat := 96

  const FILE_MAGIC: seq<byte> := [0x4f, 0x59, 0x56, 0x46, 0x49, 0x4c, 0x45, 0x31]  // "OYVFILE1"

  datatype ContainerError =
    | Io
    | InvalidFormat(reason: string)
    | InvalidInput(reason: string)
    | AuthenticationFailed
    | LimitExceeded(reason: string)

  datatype Mode = NativeResearch | Guarded {
    function ToByte(): byte {
      if NativeResearch? then 0 else 1
    }

    static function FromByte(b: byte): Result<Mode, ContainerError> {
      if b == 0 then Ok(NativeResearch)
      else if b == 1 then Ok(Guarded)
      else Err(InvalidFormat("unsupported encryption mode"))
    }

    /** Bytes the guard layer adds to each body. */
    function Overhead(): nat {
      if NativeResearch? then 0 else GUARD_TAG_SIZE
    }
  }

  predicate ValidChunkSize(size: nat) {
    MIN_CHUNK_SIZE <= size <= MAX_CHUNK_SIZE
  }

  // ----- header

  datatype Header = Header(mode: Mode, chunkSize: u32, salt: seq<byte>, fileId: seq<byte>) {

    predicate Valid() {
      ValidChunkSize(chunkSize) && |salt| == 32 && |fileId| == 32
    }

    function Encode(): (s: seq<byte>)
      requires Valid()
      ensures |s| == HEADER_SIZE
    {
      FILE_MAGIC + Le16(FILE_VERSION) + [mode.ToByte()] + [0] + Le32(chunkSize) + salt + fileId
    }

    static function Decode(s: seq<byte>): (r: Result<Header, ContainerError>)
      requires |s| == HEADER_SIZE
      ensures r.Ok? ==> r.value.Valid()
    {
      if s[..8] != FILE_MAGIC then
        Err(InvalidFormat("not an OrIsyVra file"))
      else if FromLe(s[8..10]) != FILE_VERSION then
        Err(InvalidFormat("unsupported file version"))
      else
        var mode :- Mode.FromByte(s[10]);
        if s[11] != 0 then
          Err(InvalidFormat("unsupported critical file flags"))
        else if !ValidChunkSize(FromLe32(s[12..16])) then
          Err(InvalidInput("chunk size must be between 4096 and 16777216 bytes"))
        else
          Ok(Header(mode, FromLe32(s[12..16]), s[16..48], s[48..80]))
    }
  }

  lemma HeaderRoundTrip(h: Header)
    requires h.Valid()
    ensures Header.Decode(h.Encode()) == Ok(h)
  {
    var s := h.Encode();
    assert s[8..10] == Le16(FILE_VERSION);
    assert s[12..16] == Le32(h.chunkSize);
    assert s[16..48] == h.salt;
    var front := FILE_MAGIC + Le16(FILE_VERSION) + [h.mode.ToByte()] + [0] + Le32(h.chunkSize) + h.salt;
    assert s == front + h.fileId + [];
    SliceMiddle(front, h.fileId, []);
    Le16RoundTrip(FILE_VERSION);
    Le32RoundTrip(h.chunkSize);
  }

  /** All eighty header bytes are determined by what they decode to. */
  lemma HeaderCanonical(s: seq<byte>)
    requires |s| == HEADER_SIZE && Header.Decode(s).Ok?
    ensures Header.Decode(s).value.Encode() == s
  {
    hide Le, FromLe;
    LeOfFromLe(s[8..10]);
    LeOfFromLe(s[12..16]);
    assert s == s[..8] + s[8..10] + [s[10]] + [s[11]] + s[12..16] + s[16..48] + s[48..80];
  }

  // ----- keys

  datatype FileKeys = FileKeys(suite: Suite, header: Header,
                               siv: Sponge.Key, stream: Sponge.Key, manifest: Sponge.Key, binding: seq<byte>,
                               guardKey: seq<byte>, guardNonceKey: seq<byte>) {
    ghost predicate Valid() {
      header.Valid() && |binding| == 32
    }
  }

  /** What a key of the native layer is for. */
  datatype Purpose = HeaderKey | SivKey | StreamKey | ManifestKey {
    function Label(): string {
      match this
      case HeaderKey => "OrIsyVra/native/header/v1"
      case SivKey => "OrIsyVra/native/siv/v1"
      case StreamKey => "OrIsyVra/native/stream/v1"
      case ManifestKey => "OrIsyVra/native/manifest/v1"
    }
  }

  function KeyParts(purpose: Purpose, header: Header): seq<seq<byte>>
    requires header.Valid()
  {
    [Ascii(purpose.Label()), header.Encode()]
  }

  ghost function DeriveKey(master: Sponge.Key, purpose: Purpose, header: Header): Sponge.Key
    requires header.Valid()
  {
    Sponge.Prf(master, Sponge.KeyDerivation, KeyParts(purpose, header), Sponge.KEY_SIZE)
  }

  ghost function Mac32(key: Sponge.Key, domain: Sponge.Domain, parts: seq<seq<byte>>): (tag: seq<byte>)
    ensures |tag| == 32
  {
    Sponge.Prf(key, domain, parts, Sponge.TAG_SIZE)
  }

  /** Everything derived from the master key and the header of one file. */
  ghost function DeriveFileKeys(suite: Suite, master: Sponge.Key, header: Header): (k: FileKeys)
    requires header.Valid()
    ensures k.Valid() && k.header == header && k.suite == suite
  {
    hide Sponge.Prf;
    var headerKey := DeriveKey(master, HeaderKey, header);
    var guard := suite.hkdf(header.salt, master, Ascii("OrIsyVra/guarded/XChaCha20Poly1305/v1") + header.fileId);
    assert |guard| == 64;
    FileKeys(suite, header,
             DeriveKey(master, SivKey, header),
             DeriveKey(master, StreamKey, header),
             DeriveKey(master, ManifestKey, header),
             Mac32(headerKey, Sponge.HeaderBinding, [header.Encode()]),
             guard[..32], guard[32..])
  }

  // ----- frames

  function RecordFrame(index: nat, plaintextLen: nat, bodyLen: nat): (f: seq<byte>)
    ensures |f| == 17 && f[0] == DATA_RECORD
  {
    [DATA_RECORD] + Le64(index) + Le32(plaintextLen) + Le32(bodyLen)
  }

  function ManifestFrame(bodyLen: nat): (f: seq<byte>)
    ensures |f| == 5 && f[0] == MANIFEST_RECORD
  {
    [MANIFEST_RECORD] + Le32(bodyLen)
  }

  function RecordContext(binding: seq<byte>, index: nat, plaintextLen: nat): seq<byte> {
    binding + Le64(index) + Le32(plaintextLen)
  }

  // ----- the native layer: synthetic initialisation vector and keystream

  function XorBytes(a: seq<byte>, b: seq<byte>): (c: seq<byte>)
    requires |a| == |b|
    ensures |c| == |a|
  {
    seq(|a|, i requires 0 <= i < |a| => XorByte(a[i], b[i]))
  }

  lemma XorBytesBack(a: seq<byte>, b: seq<byte>)
    requires |a| == |b|
    ensures XorBytes(XorBytes(a, b), b) == a
  {
    hide XorByte;
    forall i | 0 <= i < |a|
      ensures XorBytes(XorBytes(a, b), b)[i] == a[i]
    {
      XorByteBack(a[i], b[i]);
    }
  }

  function SivParts(k: FileKeys, index: nat, plaintext: seq<byte>): seq<seq<byte>> {
    [RecordContext(k.binding, index, |plaintext|), plaintext]
  }

  function StreamParts(k: FileKeys, index: nat, siv: seq<byte>, len: nat): seq<seq<byte>> {
    [RecordContext(k.binding, index, len), siv]
  }

  ghost function SivOf(k: FileKeys, index: nat, plaintext: seq<byte>): (siv: seq<byte>)
    ensures |siv| == 32
  {
    Mac32(k.siv, Sponge.RecordSiv, SivParts(k, index, plaintext))
  }

  ghost function StreamOf(k: FileKeys, index: nat, siv: seq<byte>, len: nat): (s: seq<byte>)
    ensures |s| == len
  {
    hide Sponge.Prf;
    Sponge.Prf(k.stream, Sponge.Stream, StreamParts(k, index, siv, len), len)
  }

  ghost function SealNative(k: FileKeys, index: nat, plaintext: seq<byte>): (body: seq<byte>)
    ensures |body| == NATIVE_TAG_SIZE + |plaintext|
  {
    var siv := SivOf(k, index, plaintext);
    siv + XorBytes(plaintext, StreamOf(k, index, siv, |plaintext|))
  }

  ghost function OpenNative(k: FileKeys, index: nat, plaintextLen: nat, body: seq<byte>): Result<seq<byte>, ContainerError> {
    if |body| != NATIVE_TAG_SIZE + plaintextLen then
      Err(InvalidFormat("native record length mismatch"))
    else
      var siv, sealed := body[..NATIVE_TAG_SIZE], body[NATIVE_TAG_SIZE..];
      var plaintext := XorBytes(sealed, StreamOf(k, index, siv, plaintextLen));
      if SivOf(k, index, plaintext) != siv then Err(AuthenticationFailed) else Ok(plaintext)
  }

  /** Opening undoes sealing, and only sealed bodies open: the native layer is a bijection onto what it accepts. */
  lemma NativeInverse(k: FileKeys, index: nat, plaintextLen: nat, plaintext: seq<byte>, body: seq<byte>)
    ensures OpenNative(k, index, plaintextLen, body) == Ok(plaintext) <==>
            body == SealNative(k, index, plaintext) && |plaintext| == plaintextLen
  {
    hide SivOf, StreamOf, XorBytes;
    if body == SealNative(k, index, plaintext) && |plaintext| == plaintextLen {
      var siv := SivOf(k, index, plaintext);
      assert body[..NATIVE_TAG_SIZE] == siv && body[NATIVE_TAG_SIZE..] == XorBytes(plaintext, StreamOf(k, index, siv, plaintextLen));
      XorBytesBack(plaintext, StreamOf(k, index, siv, plaintextLen));
    }
    if OpenNative(k, index, plaintextLen, body) == Ok(plaintext) {
      var siv, sealed := body[..NATIVE_TAG_SIZE], body[NATIVE_TAG_SIZE..];
      XorBytesBack(sealed, StreamOf(k, index, siv, plaintextLen));
      assert body == siv + sealed;
    }
  }

  // ----- the guard layer

  function GuardNonceMessage(k: FileKeys, index: nat, kind: byte): seq<byte> {
    Ascii("OrIsyVra/guarded/nonce/v1") + k.header.fileId + [kind] + Le64(index)
  }

  function GuardNonce(k: FileKeys, index: nat, kind: byte): seq<byte> {
    var digest := k.suite.hmac(k.guardNonceKey, GuardNonceMessage(k, index, kind));
    assert |digest| == 32;
    digest[..24]
  }

  /** Seals a body under its frame: the header and the frame are authenticated with it in guarded mode. */
  function Guard(k: FileKeys, index: nat, frame: seq<byte>, inner: seq<byte>): (body: seq<byte>)
    requires k.header.Valid() && |frame| > 0
    ensures |body| == |inner| + k.header.mode.Overhead()
  {
    if k.header.mode.NativeResearch? then inner
    else
      assert GUARD_TAG_SIZE == TAG_SIZE;
      k.suite.seal(k.guardKey, GuardNonce(k, index, frame[0]), k.header.Encode() + frame, inner)
  }

  function Unguard(k: FileKeys, index: nat, frame: seq<byte>, body: seq<byte>): Result<seq<byte>, ContainerError>
    requires k.header.Valid() && |frame| > 0
  {
    if k.header.mode.NativeResearch? then Ok(body)
    else
      match k.suite.open(k.guardKey, GuardNonce(k, index, frame[0]), k.header.Encode() + frame, body)
      case None => Err(AuthenticationFailed)
      case Some(inner) => Ok(inner)
  }

  /** What it takes for only guarded bodies to pass the guard: nothing in the mode that has no guard layer. */
  ghost predicate OnlySealedOpen(mode: Mode, suite: Suite) {
    mode.NativeResearch? || Resealing(suite)
  }

  lemma UnguardGuarded(k: FileKeys, index: nat, frame: seq<byte>, inner: seq<byte>)
    requires k.header.Valid() && |frame| > 0
    ensures Unguard(k, index, frame, Guard(k, index, frame, inner)) == Ok(inner)
  {
    hide GuardNonce;
  }

  lemma GuardUnguarded(k: FileKeys, index: nat, frame: seq<byte>, body: seq<byte>)
    requires k.header.Valid() && |frame| > 0 && OnlySealedOpen(k.header.mode, k.suite)
    requires Unguard(k, index, frame, body).Ok?
    ensures body == Guard(k, index, frame, Unguard(k, index, frame, body).value)
  {
    hide GuardNonce;
  }

  // ----- the manifest

  const MANIFEST_INDEX: nat := 0xffff_ffff_ffff_ffff

  ghost function ManifestPayload(total: nat, count: nat, digest: seq<byte>): seq<byte> {
    Le64(total) + Le64(count) + digest
  }

  ghost function ManifestInner(k: FileKeys, total: nat, count: nat, digest: seq<byte>): (inner: seq<byte>)
    ensures |digest| == 48 ==> |inner| == MANIFEST_INNER_SIZE
  {
    var payload := ManifestPayload(total, count, digest);
    payload + Mac32(k.manifest, Sponge.Manifest, [k.binding, payload])
  }

  ghost function VerifyManifest(k: FileKeys, inner: seq<byte>, total: nat, count: nat, digest: seq<byte>): Result<(), ContainerError> {
    hide Mac32, FromLe, FromLe64;
    if |inner| != MANIFEST_INNER_SIZE then
      Err(InvalidFormat("manifest length mismatch"))
    else
      var payload, tag := inner[..MANIFEST_PAYLOAD_SIZE], inner[MANIFEST_PAYLOAD_SIZE..];
      if Mac32(k.manifest, Sponge.Manifest, [k.binding, payload]) != tag then
        Err(AuthenticationFailed)
      else if FromLe64(payload[..8]) != total || FromLe64(payload[8..16]) != count || payload[16..64] != digest then
        Err(AuthenticationFailed)
      else
        Ok(())
  }

  /** Verification accepts exactly the manifest that the totals and the transcript determine. */
  lemma ManifestInverse(k: FileKeys, inner: seq<byte>, total: u64, count: u64, digest: seq<byte>)
    requires |digest| == 48
    ensures VerifyManifest(k, inner, total, count, digest).Ok? <==> inner == ManifestInner(k, total, count, digest)
  {
    hide Mac32, Le, FromLe;
    var payload := ManifestPayload(total, count, digest);
    if inner == ManifestInner(k, total, count, digest) {
      assert inner[..MANIFEST_PAYLOAD_SIZE] == payload;
      assert payload[..8] == Le64(total) && payload[8..16] == Le64(count) && payload[16..64] == digest;
      Le64RoundTrip(total);
      Le64RoundTrip(count);
    }
    if VerifyManifest(k, inner, total, count, digest).Ok? {
      var stored := inner[..MANIFEST_PAYLOAD_SIZE];
      LeOfFromLe(stored[..8]);
      LeOfFromLe(stored[8..16]);
      assert stored == stored[..8] + stored[8..16] + stored[16..64];
      assert inner == stored + inner[MANIFEST_PAYLOAD_SIZE..];
    }
  }
}
