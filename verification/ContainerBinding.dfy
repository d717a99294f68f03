/** What a container hides and what its seals are bound to: keystream, derivation inputs, nonces, manifest. */
module ContainerBinding {
  import opened Bytes
  import opened Words
  import opened Cipher
  import opened ContainerFormat
  import opened ContainerSpec
  import Sponge

  // ----- the keystream

  lemma XorByteMask(p: byte, s: byte)
    ensures XorByte(XorByte(p, s), p) == s
  {
    hide XorBits;
    XorCommutes(p, s, 8);
    XorByteBack(s, p);
  }

  /** Each byte of a record body differs from its plaintext byte by the keystream byte at its place. */
  lemma BodyIsMasked(k: FileKeys, index: nat, plaintext: seq<byte>, i: nat)
    requires i < |plaintext|
    ensures SealNative(k, index, plaintext)[..NATIVE_TAG_SIZE] == SivOf(k, index, plaintext)
    ensures XorByte(SealNative(k, index, plaintext)[NATIVE_TAG_SIZE + i], plaintext[i])
         == StreamOf(k, index, SivOf(k, index, plaintext), |plaintext|)[i]
  {
    hide XorByte, SivOf, StreamOf;
    XorByteMask(plaintext[i], StreamOf(k, index, SivOf(k, index, plaintext), |plaintext|)[i]);
  }

  // ----- derivation inputs

  /** Where the fields of a record's context are. */
  lemma ContextFields(binding: seq<byte>, index: u64, len: u32)
    requires |binding| == 32
    ensures var c := RecordContext(binding, index, len);
            |c| == 44 && c[..32] == binding && FromLe64(c[32..40]) == index && FromLe32(c[40..44]) == len
  {
    hide Le, FromLe;
    var c := RecordContext(binding, index, len);
    assert c[32..40] == Le64(index) && c[40..44] == Le32(len);
    Le64RoundTrip(index);
    Le32RoundTrip(len);
  }

  lemma ContextInjective(binding: seq<byte>, binding': seq<byte>, index: u64, index': u64, len: u32, len': u32)
    requires |binding| == |binding'| == 32
    requires RecordContext(binding, index, len) == RecordContext(binding', index', len')
    ensures binding == binding' && index == index' && len == len'
  {
    hide RecordContext, FromLe;
    ContextFields(binding, index, len);
    ContextFields(binding', index', len');
  }

  lemma SivPartsInjective(k: FileKeys, index: u64, index': u64, p: seq<byte>, q: seq<byte>)
    requires k.Valid() && |p| < U32_LIMIT && |q| < U32_LIMIT
    requires SivParts(k, index, p) == SivParts(k, index', q)
    ensures index == index' && p == q
  {
    hide RecordContext, Header.Valid;
    assert SivParts(k, index, p)[0] == SivParts(k, index', q)[0];
    assert SivParts(k, index, p)[1] == SivParts(k, index', q)[1];
    ContextInjective(k.binding, k.binding, index, index', |p|, |q|);
  }

  lemma StreamPartsInjective(k: FileKeys, index: u64, index': u64, siv: seq<byte>, siv': seq<byte>, len: u32, len': u32)
    requires k.Valid() && StreamParts(k, index, siv, len) == StreamParts(k, index', siv', len')
    ensures index == index' && siv == siv' && len == len'
  {
    hide RecordContext, Header.Valid;
    assert StreamParts(k, index, siv, len)[0] == StreamParts(k, index', siv', len')[0];
    assert StreamParts(k, index, siv, len)[1] == StreamParts(k, index', siv', len')[1];
    ContextInjective(k.binding, k.binding, index, index', len, len');
  }

  /** The blocks a list of parts feeds to the permutation. */
  function Fed(parts: seq<seq<byte>>): seq<seq<Word>> {
    var padded := Sponge.Padded(Sponge.EncodeParts(parts));
    Sponge.BlockWords(padded, |padded| / Sponge.RATE_BYTES)
  }

  lemma FedApart(p: seq<seq<byte>>, q: seq<seq<byte>>)
    requires |p| == |q| == 2 && p != q
    requires |p[0]| < U64_LIMIT && |p[1]| < U64_LIMIT && |q[0]| < U64_LIMIT && |q[1]| < U64_LIMIT
    ensures Fed(p) != Fed(q)
  {
    hide Sponge.Padded, Sponge.EncodeParts, Sponge.BlockWords;
    Sponge.PartsSeparate(p, q);
  }

  /** Two records of one file that differ in number, length or plaintext are tagged over different blocks. */
  lemma TagInputsSeparate(k: FileKeys, index: u64, index': u64, p: seq<byte>, q: seq<byte>)
    requires k.Valid() && |p| < U32_LIMIT && |q| < U32_LIMIT && (index != index' || p != q)
    ensures Fed(SivParts(k, index, p)) != Fed(SivParts(k, index', q))
  {
    hide Fed, Header.Valid;
    if SivParts(k, index, p) == SivParts(k, index', q) {
      SivPartsInjective(k, index, index', p, q);
    }
    FedApart(SivParts(k, index, p), SivParts(k, index', q));
  }

  /** Two records that differ in number, length or tag are masked by streams of different inputs. */
  lemma StreamInputsSeparate(k: FileKeys, index: u64, index': u64, siv: seq<byte>, siv': seq<byte>, len: u32, len': u32)
    requires k.Valid() && |siv| == |siv'| == NATIVE_TAG_SIZE && (index != index' || siv != siv' || len != len')
    ensures Fed(StreamParts(k, index, siv, len)) != Fed(StreamParts(k, index', siv', len'))
  {
    hide Fed, Header.Valid;
    if StreamParts(k, index, siv, len) == StreamParts(k, index', siv', len') {
      StreamPartsInjective(k, index, index', siv, siv', len, len');
    }
    FedApart(StreamParts(k, index, siv, len), StreamParts(k, index', siv', len'));
  }

  // ----- keys

  lemma LabelsDiffer(p: Purpose, q: Purpose)
    requires Ascii(p.Label()) == Ascii(q.Label())
    ensures p == q
  {
    AsciiInjective(p.Label(), q.Label());
  }

  lemma HeaderInjective(h: Header, g: Header)
    requires h.Valid() && g.Valid() && h.Encode() == g.Encode()
    ensures h == g
  {
    hide Header.Encode, Header.Decode, Header.Valid;
    HeaderRoundTrip(h);
    HeaderRoundTrip(g);
  }

  /** Every key of every file comes from its own input: no purpose and no header shares one with another. */
  lemma KeyInputsSeparate(p: Purpose, q: Purpose, h: Header, g: Header)
    requires h.Valid() && g.Valid() && (p != q || h != g)
    ensures Fed(KeyParts(p, h)) != Fed(KeyParts(q, g))
  {
    hide Fed, Header.Encode, Header.Valid, Purpose.Label;
    var a, b := KeyParts(p, h), KeyParts(q, g);
    if a == b {
      assert a[0] == b[0] && a[1] == b[1];
      LabelsDiffer(p, q);
      HeaderInjective(h, g);
    }
    LabelSize(p);
    LabelSize(q);
    FedApart(a, b);
  }

  lemma LabelSize(p: Purpose)
    ensures |Ascii(p.Label())| < U64_LIMIT
  {
  }

  /** Which derived string each key is, and that the two guard keys are the two halves of one. */
  lemma KeysOfFile(suite: Suite, master: Sponge.Key, header: Header)
    requires header.Valid()
    ensures var k := DeriveFileKeys(suite, master, header);
            && k.siv == DeriveKey(master, SivKey, header)
            && k.stream == DeriveKey(master, StreamKey, header)
            && k.manifest == DeriveKey(master, ManifestKey, header)
            && k.binding == Mac32(DeriveKey(master, HeaderKey, header), Sponge.HeaderBinding, [header.Encode()])
            && |k.guardKey| == 32
            && k.guardKey + k.guardNonceKey
               == suite.hkdf(header.salt, master, Ascii("OrIsyVra/guarded/XChaCha20Poly1305/v1") + header.fileId)
  {
    hide DeriveKey, Mac32, Header.Encode, Header.Valid;
    var guard := suite.hkdf(header.salt, master, Ascii("OrIsyVra/guarded/XChaCha20Poly1305/v1") + header.fileId);
    assert |guard| == 64 && guard[..32] + guard[32..] == guard;
  }

  // ----- the guard layer

  /** In guarded mode a body opens under the guard key and its own nonce, with the header and its frame authenticated. */
  lemma GuardSealing(k: FileKeys, index: nat, frame: seq<byte>, inner: seq<byte>)
    requires k.header.Valid() && k.header.mode.Guarded? && |frame| > 0
    ensures |k.suite.hmac(k.guardNonceKey, GuardNonceMessage(k, index, frame[0]))| == 32
    ensures k.suite.open(k.guardKey, k.suite.hmac(k.guardNonceKey, GuardNonceMessage(k, index, frame[0]))[..24],
                         k.header.Encode() + frame, Guard(k, index, frame, inner)) == Some(inner)
  {
    hide GuardNonceMessage, Header.Encode, Header.Valid;
  }

  /** Where the fields of a guard nonce message are, after its label. */
  lemma GuardNonceFields(k: FileKeys, index: u64, kind: byte)
    requires |k.header.fileId| == 32
    ensures var m, at := GuardNonceMessage(k, index, kind), |Ascii("OrIsyVra/guarded/nonce/v1")|;
            && |m| == at + 41 && m[..at] == Ascii("OrIsyVra/guarded/nonce/v1")
            && m[at..at + 32] == k.header.fileId && m[at + 32] == kind && FromLe64(m[at + 33..at + 41]) == index
  {
    hide Le, FromLe;
    var m, at := GuardNonceMessage(k, index, kind), |Ascii("OrIsyVra/guarded/nonce/v1")|;
    assert m[at + 33..at + 41] == Le64(index);
    Le64RoundTrip(index);
  }

  lemma GuardNoncesDiffer(k: FileKeys, k': FileKeys, index: u64, index': u64, kind: byte, kind': byte)
    requires |k.header.fileId| == |k'.header.fileId| == 32
    requires GuardNonceMessage(k, index, kind) == GuardNonceMessage(k', index', kind')
    ensures k.header.fileId == k'.header.fileId && index == index' && kind == kind'
  {
    hide GuardNonceMessage, FromLe;
    GuardNonceFields(k, index, kind);
    GuardNonceFields(k', index', kind');
  }

  /** No two records of a file, and no record and the manifest, are guarded under one nonce message. */
  lemma NoncesOfFile(k: FileKeys, i: nat, j: nat)
    requires k.Valid() && i < MAX_RECORDS && j < MAX_RECORDS && i != j
    ensures GuardNonceMessage(k, i, DATA_RECORD) != GuardNonceMessage(k, j, DATA_RECORD)
    ensures GuardNonceMessage(k, i, DATA_RECORD) != GuardNonceMessage(k, MANIFEST_INDEX, MANIFEST_RECORD)
  {
    hide GuardNonceMessage;
    if GuardNonceMessage(k, i, DATA_RECORD) == GuardNonceMessage(k, j, DATA_RECORD) {
      GuardNoncesDiffer(k, k, i, j, DATA_RECORD, DATA_RECORD);
    }
    if GuardNonceMessage(k, i, DATA_RECORD) == GuardNonceMessage(k, MANIFEST_INDEX, MANIFEST_RECORD) {
      GuardNoncesDiffer(k, k, i, MANIFEST_INDEX, DATA_RECORD, MANIFEST_RECORD);
    }
  }

  /** What the guard authenticates determines the header, and the frame. */
  lemma GuardedDataSeparates(h: Header, g: Header, frame: seq<byte>, frame': seq<byte>)
    requires h.Valid() && g.Valid() && h.Encode() + frame == g.Encode() + frame'
    ensures h == g && frame == frame'
  {
    hide Header.Encode, Header.Valid;
    var a, b := h.Encode() + frame, g.Encode() + frame';
    assert a[..HEADER_SIZE] == h.Encode() && b[..HEADER_SIZE] == g.Encode();
    assert a[HEADER_SIZE..] == frame && b[HEADER_SIZE..] == frame';
    HeaderInjective(h, g);
  }

  // ----- layouts

  /** Where the fields of a header are. */
  lemma HeaderLayout(h: Header)
    requires h.Valid()
    ensures var s := h.Encode();
            && s[..8] == FILE_MAGIC
            && FromLe(s[8..10]) == 1
            && s[10] == (if h.mode == NativeResearch then 0 else 1)
            && s[11] == 0
            && FromLe32(s[12..16]) == h.chunkSize
            && s[16..48] == h.salt && s[48..80] == h.fileId
  {
    hide Le, FromLe;
    var s := h.Encode();
    var front := FILE_MAGIC + Le16(FILE_VERSION) + [h.mode.ToByte()] + [0] + Le32(h.chunkSize);
    assert s == front + h.salt + h.fileId && s == (front + h.salt) + h.fileId + [];
    SliceMiddle(front, h.salt, h.fileId);
    SliceMiddle(front + h.salt, h.fileId, []);
    assert s[..8] == FILE_MAGIC && s[8..10] == Le16(FILE_VERSION) && s[12..16] == Le32(h.chunkSize);
    Le16RoundTrip(FILE_VERSION);
    Le32RoundTrip(h.chunkSize);
  }

  /** Where the fields of a record's frame are, and that a manifest's cannot be mistaken for it. */
  lemma FrameLayout(index: u64, plaintextLen: u32, bodyLen: u32)
    ensures var f := RecordFrame(index, plaintextLen, bodyLen);
            && f[0] == 1 && FromLe64(f[1..9]) == index
            && FromLe32(f[9..13]) == plaintextLen && FromLe32(f[13..17]) == bodyLen
    ensures var m := ManifestFrame(bodyLen); m[0] == 255 && FromLe32(m[1..5]) == bodyLen
  {
    hide Le, FromLe;
    var f, m := RecordFrame(index, plaintextLen, bodyLen), ManifestFrame(bodyLen);
    assert f[1..9] == Le64(index) && f[9..13] == Le32(plaintextLen) && f[13..17] == Le32(bodyLen);
    assert m[1..5] == Le32(bodyLen);
    Le64RoundTrip(index);
    Le32RoundTrip(plaintextLen);
    Le32RoundTrip(bodyLen);
  }

  // ----- the manifest

  /** Where the fields of a manifest's payload are. */
  lemma PayloadFields(total: u64, count: u64, digest: seq<byte>)
    requires |digest| == 48
    ensures var p := ManifestPayload(total, count, digest);
            |p| == MANIFEST_PAYLOAD_SIZE && FromLe64(p[..8]) == total && FromLe64(p[8..16]) == count && p[16..64] == digest
  {
    hide Le, FromLe;
    var p := ManifestPayload(total, count, digest);
    assert p[..8] == Le64(total) && p[8..16] == Le64(count);
    Le64RoundTrip(total);
    Le64RoundTrip(count);
  }

  lemma ManifestInjective(k: FileKeys, total: u64, count: u64, digest: seq<byte>, total': u64, count': u64, digest': seq<byte>)
    requires k.Valid() && |digest| == |digest'| == 48
    requires ManifestBytes(k, total, count, digest) == ManifestBytes(k, total', count', digest')
    ensures total == total' && count == count' && digest == digest'
  {
    hide Guard, Unguard, Mac32, ManifestPayload, FromLe, Header.Valid, Header.Encode;
    var frame := ManifestFrame(ManifestLen(k));
    var a, b := ManifestInner(k, total, count, digest), ManifestInner(k, total', count', digest');
    assert ManifestBytes(k, total, count, digest)[5..] == Guard(k, MANIFEST_INDEX, frame, a);
    assert ManifestBytes(k, total', count', digest')[5..] == Guard(k, MANIFEST_INDEX, frame, b);
    UnguardGuarded(k, MANIFEST_INDEX, frame, a);
    UnguardGuarded(k, MANIFEST_INDEX, frame, b);
    PayloadFields(total, count, digest);
    PayloadFields(total', count', digest');
    assert a[..MANIFEST_PAYLOAD_SIZE] == ManifestPayload(total, count, digest);
    assert b[..MANIFEST_PAYLOAD_SIZE] == ManifestPayload(total', count', digest');
  }

  /** The manifest that closes the container of `chunks`. */
  ghost function Closing(k: FileKeys, chunks: seq<seq<byte>>): seq<byte>
    requires k.Valid()
  {
    ManifestBytes(k, |Concat(chunks)|, |chunks|, Digest(k, Covered(k, chunks)))
  }

  /**
   A manifest stands for one file: another list of chunks under the same header with the same manifest has as many
   chunks and bytes, and its records would be a second string with the same SHA-384.
   */
  lemma ManifestBinds(suite: Suite, master: Sponge.Key, header: Header, chunks: seq<seq<byte>>, others: seq<seq<byte>>)
    requires header.Valid() && chunks != others
    requires var k := DeriveFileKeys(suite, master, header);
             ValidChunks(k, chunks) && ValidChunks(k, others) && Closing(k, chunks) == Closing(k, others)
    ensures var k := DeriveFileKeys(suite, master, header);
            && |chunks| == |others| && |Concat(chunks)| == |Concat(others)|
            && Covered(k, chunks) != Covered(k, others)
            && suite.sha384(Covered(k, chunks)) == suite.sha384(Covered(k, others))
  {
    hide DeriveFileKeys, ValidChunks, ManifestBytes, Covered, Concat, Accept, Header.Valid;
    var k := DeriveFileKeys(suite, master, header);
    TotalFits(k, chunks);
    TotalFits(k, others);
    ManifestInjective(k, |Concat(chunks)|, |chunks|, Digest(k, Covered(k, chunks)),
                      |Concat(others)|, |others|, Digest(k, Covered(k, others)));
    ContainerAccepted(suite, master, header, chunks);
    ContainerAccepted(suite, master, header, others);
  }
}
