/** Streaming encryption and decryption of a file, over a reader that may return fewer bytes than asked for. */
module ContainerFile {
  import opened Bytes
  import opened Cipher
  import opened Words
  import opened ContainerFormat
  import opened ContainerSpec
  import Sponge
  import SpongeMachine

  class Reader {
    const data: seq<byte>
    var pos: nat

    ghost predicate Valid()
      reads this
    {
      pos <= |data|
    }

    constructor (data: seq<byte>)
      ensures Valid() && pos == 0 && this.data == data
    {
      this.data := data;
      pos := 0;
    }

    /** Some of the next bytes, at least one unless nothing was asked for or nothing is left. */
    method Read(max: nat) returns (s: seq<byte>)
      requires Valid()
      modifies this
      ensures Valid() && old(pos) <= pos && s == data[old(pos)..pos] && |s| <= max
      ensures s == [] <==> max == 0 || old(pos) == |data|
    {
      var limit := Min(max, |data| - pos);
      var n := limit;
      if limit > 0 {
        n :| 1 <= n <= limit;
      }
      s := data[pos..pos + n];
      pos := pos + n;
    }

    /** Exactly the next `n` bytes, or `None` at the end of the file. */
    method ReadExact(n: nat) returns (r: Option<seq<byte>>)
      requires Valid()
      modifies this
      ensures Valid()
      ensures r == if old(pos) + n <= |data| then Some(data[old(pos)..old(pos) + n]) else None
      ensures r.Some? ==> pos == old(pos) + n
    {
      ghost var start := pos;
      var got := [];
      while |got| < n
        invariant Valid() && start <= pos && got == data[start..pos] && |got| <= n
        decreases n - |got|
      {
        var part := Read(n - |got|);
        if part == [] {
          return None;
        }
        got := got + part;
      }
      return Some(got);
    }

    /** Fills a buffer of `size` bytes as far as the input reaches. */
    method Fill(size: nat) returns (chunk: seq<byte>)
      requires Valid()
      modifies this
      ensures Valid() && pos == Min(old(pos) + size, |data|) && chunk == data[old(pos)..pos]
    {
      ghost var start := pos;
      chunk := [];
      while |chunk| < size
        invariant Valid() && start <= pos && chunk == data[start..pos] && |chunk| <= size
        decreases size - |chunk|
      {
        var part := Read(size - |chunk|);
        if part == [] {
          break;
        }
        chunk := chunk + part;
      }
    }
  }

  // ----- primitives

  method PrfBytes(key: Sponge.Key, domain: Sponge.Domain, parts: seq<seq<byte>>, len: nat) returns (out: seq<byte>)
    ensures out == Sponge.Prf(key, domain, parts, len)
  {
    hide Sponge.Prf;
    var buffer := new byte[len](_ => 0);
    SpongeMachine.PrfParts(key, domain, parts, buffer);
    out := buffer[..];
  }

  method DeriveKeys(suite: Suite, master: Sponge.Key, header: Header) returns (k: FileKeys)
    requires header.Valid()
    ensures k == DeriveFileKeys(suite, master, header)
  {
    hide Sponge.Prf, Header.Encode;
    var bytes := header.Encode();
    var siv := PrfBytes(master, Sponge.KeyDerivation, [Ascii("OrIsyVra/native/siv/v1"), bytes], Sponge.KEY_SIZE);
    var stream := PrfBytes(master, Sponge.KeyDerivation, [Ascii("OrIsyVra/native/stream/v1"), bytes], Sponge.KEY_SIZE);
    var manifest := PrfBytes(master, Sponge.KeyDerivation, [Ascii("OrIsyVra/native/manifest/v1"), bytes], Sponge.KEY_SIZE);
    var headerKey := PrfBytes(master, Sponge.KeyDerivation, [Ascii("OrIsyVra/native/header/v1"), bytes], Sponge.KEY_SIZE);
    var binding := PrfBytes(headerKey, Sponge.HeaderBinding, [bytes], Sponge.TAG_SIZE);
    var guard := suite.hkdf(header.salt, master, Ascii("OrIsyVra/guarded/XChaCha20Poly1305/v1") + header.fileId);
    assert |guard| == 64;
    k := FileKeys(suite, header, siv, stream, manifest, binding, guard[..32], guard[32..]);
  }

  method SealNativeBytes(k: FileKeys, index: nat, plaintext: seq<byte>) returns (body: seq<byte>)
    ensures body == SealNative(k, index, plaintext)
  {
    hide Sponge.Prf, XorBytes;
    var context := RecordContext(k.binding, index, |plaintext|);
    var siv := PrfBytes(k.siv, Sponge.RecordSiv, [context, plaintext], Sponge.TAG_SIZE);
    var stream := PrfBytes(k.stream, Sponge.Stream, [context, siv], |plaintext|);
    body := siv + XorBytes(plaintext, stream);
  }

  method OpenNativeBytes(k: FileKeys, index: nat, plaintextLen: nat, body: seq<byte>)
    returns (r: Result<seq<byte>, ContainerError>)
    ensures r == OpenNative(k, index, plaintextLen, body)
  {
    hide Sponge.Prf, XorBytes;
    if |body| != NATIVE_TAG_SIZE + plaintextLen {
      return Err(InvalidFormat("native record length mismatch"));
    }
    var storedSiv, sealed := body[..NATIVE_TAG_SIZE], body[NATIVE_TAG_SIZE..];
    var context := RecordContext(k.binding, index, plaintextLen);
    var stream := PrfBytes(k.stream, Sponge.Stream, [context, storedSiv], |sealed|);
    var plaintext := XorBytes(sealed, stream);
    var expectedSiv := PrfBytes(k.siv, Sponge.RecordSiv, [context, plaintext], Sponge.TAG_SIZE);
    if expectedSiv != storedSiv {
      return Err(AuthenticationFailed);
    }
    return Ok(plaintext);
  }

  method ManifestInnerBytes(k: FileKeys, total: nat, count: nat, digest: seq<byte>) returns (inner: seq<byte>)
    ensures inner == ManifestInner(k, total, count, digest)
  {
    hide Sponge.Prf;
    var payload := Le64(total) + Le64(count) + digest;
    var tag := PrfBytes(k.manifest, Sponge.Manifest, [k.binding, payload], Sponge.TAG_SIZE);
    inner := payload + tag;
  }

  method VerifyManifestBytes(k: FileKeys, inner: seq<byte>, total: nat, count: nat, digest: seq<byte>)
    returns (r: Result<(), ContainerError>)
    ensures r == VerifyManifest(k, inner, total, count, digest)
  {
    hide Sponge.Prf, FromLe64;
    if |inner| != MANIFEST_INNER_SIZE {
      return Err(InvalidFormat("manifest length mismatch"));
    }
    var payload, storedTag := inner[..MANIFEST_PAYLOAD_SIZE], inner[MANIFEST_PAYLOAD_SIZE..];
    var expectedTag := PrfBytes(k.manifest, Sponge.Manifest, [k.binding, payload], Sponge.TAG_SIZE);
    if expectedTag != storedTag {
      return Err(AuthenticationFailed);
    }
    if FromLe64(payload[..8]) != total || FromLe64(payload[8..16]) != count || payload[16..64] != digest {
      return Err(AuthenticationFailed);
    }
    return Ok(());
  }

  // ----- encryption

  /** The plaintext cut into chunks of `size`, the last one shorter if need be; none for the empty file. */
  function Split(data: seq<byte>, size: nat): (chunks: seq<seq<byte>>)
    requires size > 0
    ensures forall i :: 0 <= i < |chunks| ==> 0 < |chunks[i]| <= size
    decreases |data|
  {
    if data == [] then [] else if |data| <= size then [data] else [data[..size]] + Split(data[size..], size)
  }

  /** Splitting loses nothing and fills every chunk but the last. */
  lemma {:induction false} SplitExact(data: seq<byte>, size: nat)
    requires size > 0
    ensures Concat(Split(data, size)) == data
    ensures forall i :: 0 <= i < |Split(data, size)| - 1 ==> |Split(data, size)[i]| == size
    decreases |data|
  {
    if data != [] {
      if |data| <= size {
        ConcatSnoc([], data);
        assert [data] == [] + [data];
      } else {
        SplitExact(data[size..], size);
        ConcatAppend([data[..size]], Split(data[size..], size));
        ConcatSnoc([], data[..size]);
        assert [data[..size]] == [] + [data[..size]];
        assert data == data[..size] + data[size..];
      }
    }
  }

  method Encrypt(suite: Suite, master: Sponge.Key, mode: Mode, chunkSize: nat, salt: seq<byte>, fileId: seq<byte>, input: Reader)
    returns (r: Result<seq<byte>, ContainerError>)
    requires input.Valid() && input.pos == 0 && |salt| == 32 && |fileId| == 32
    modifies input
    ensures !ValidChunkSize(chunkSize) ==> r == Err(InvalidInput("chunk size must be between 4096 and 16777216 bytes"))
    ensures ValidChunkSize(chunkSize) ==>
              var chunks := Split(input.data, chunkSize);
              r == if |chunks| > MAX_RECORDS then Err(LimitExceeded("too many records in one file"))
                   else Ok(Container(DeriveFileKeys(suite, master, Header(mode, chunkSize, salt, fileId)), chunks))
  {
    hide DeriveFileKeys, Container, Split;
    if !ValidChunkSize(chunkSize) {
      return Err(InvalidInput("chunk size must be between 4096 and 16777216 bytes"));
    }
    var header := Header(mode, chunkSize, salt, fileId);
    var k := DeriveKeys(suite, master, header);
    r := EncryptChunks(k, input);
  }

  /** Reads and seals chunk after chunk, then closes the file with the manifest. */
  method EncryptChunks(k: FileKeys, input: Reader) returns (r: Result<seq<byte>, ContainerError>)
    requires k.Valid() && input.Valid() && input.pos == 0 && k.header.chunkSize > 0
    modifies input
    ensures var chunks := Split(input.data, k.header.chunkSize);
            r == if |chunks| > MAX_RECORDS then Err(LimitExceeded("too many records in one file")) else Ok(Container(k, chunks))
  {
    hide Container, Covered, RecordBytes, ManifestBytes, Split, Concat, Header.Encode, Header.Valid, Digest,
         Cipher.Lawful;
    var size := k.header.chunkSize;
    var output := k.header.Encode();
    var recordIndex, totalLength := 0, 0;
    ghost var chunks: seq<seq<byte>> := [];
    NothingCovered(k);
    NoChunks();
    SplitRest(input.data, size, 0);
    while true
      invariant input.Valid()
      invariant chunks + Split(input.data[input.pos..], size) == Split(input.data, size)
      invariant output == Covered(k, chunks)
      invariant recordIndex == |chunks| <= MAX_RECORDS && totalLength == |Concat(chunks)|
      decreases |input.data| - input.pos
    {
      SplitRest(input.data, size, input.pos);
      var chunk := input.Fill(size);
      if chunk == [] {
        break;
      }
      MoveChunk(chunks, chunk, Split(input.data[input.pos..], size));
      if recordIndex >= MAX_RECORDS {
        return Err(LimitExceeded("too many records in one file"));
      }
      var record := SealRecordBytes(k, recordIndex, chunk);
      CoveredSnoc(k, chunks, chunk);
      ConcatSnoc(chunks, chunk);
      output := output + record;
      // The total stays below 2^44, so the program's overflow check on it never fires.
      totalLength := totalLength + |chunk|;
      recordIndex := recordIndex + 1;
      chunks := chunks + [chunk];
    }
    assert chunks == Split(input.data, size);
    var manifest := SealManifestBytes(k, totalLength, recordIndex, output);
    ContainerIs(k, chunks);
    return Ok(output + manifest);
  }

  /** From any position, the rest of the split starts with the chunk that filling the buffer reads. */
  lemma SplitRest(data: seq<byte>, size: nat, pos: nat)
    requires size > 0 && pos <= |data|
    ensures data[0..] == data
    ensures var end := Min(pos + size, |data|);
            Split(data[pos..], size) == if pos == |data| then [] else [data[pos..end]] + Split(data[end..], size)
  {
    var rest := data[pos..];
    if |rest| > size {
      assert rest[size..] == data[pos + size..] && rest[..size] == data[pos..pos + size];
    } else {
      assert data[|data|..] == [] && rest == data[pos..|data|];
    }
  }

  lemma MoveChunk(done: seq<seq<byte>>, chunk: seq<byte>, rest: seq<seq<byte>>)
    ensures done + ([chunk] + rest) == done + [chunk] + rest
  {
  }

  lemma ContainerIs(k: FileKeys, chunks: seq<seq<byte>>)
    requires k.Valid()
    ensures Container(k, chunks) == Covered(k, chunks) + ManifestBytes(k, |Concat(chunks)|, |chunks|, Digest(k, Covered(k, chunks)))
  {
    hide Covered, ManifestBytes, Digest, Concat;
  }

  method SealRecordBytes(k: FileKeys, index: nat, chunk: seq<byte>) returns (record: seq<byte>)
    requires k.Valid()
    ensures record == RecordBytes(k, index, chunk)
  {
    hide SealNative, Guard, RecordFrame;
    var native := SealNativeBytes(k, index, chunk);
    var frame := RecordFrame(index, |chunk|, |native| + k.header.mode.Overhead());
    record := frame + Guard(k, index, frame, native);
  }

  method SealManifestBytes(k: FileKeys, total: nat, count: nat, transcript: seq<byte>) returns (manifest: seq<byte>)
    requires k.Valid()
    ensures manifest == ManifestBytes(k, total, count, Digest(k, transcript))
  {
    hide ManifestInner, Guard, ManifestFrame;
    var inner := ManifestInnerBytes(k, total, count, Digest(k, transcript));
    var frame := ManifestFrame(MANIFEST_INNER_SIZE + k.header.mode.Overhead());
    manifest := frame + Guard(k, MANIFEST_INDEX, frame, inner);
  }

  // ----- decryption

  method Decrypt(suite: Suite, master: Sponge.Key, input: Reader) returns (r: Result<(Header, seq<byte>), ContainerError>)
    requires input.Valid() && input.pos == 0
    modifies input
    ensures match Accept(suite, master, input.data)
            case Ok((header, chunks)) => r == Ok((header, Concat(chunks)))
            case Err(e) => r == Err(e)
  {
    hide DeriveFileKeys, Header.Decode, Concat, ParseRecord, ParseManifest, Digest;
    var headerBytes := input.ReadExact(HEADER_SIZE);
    if headerBytes.None? {
      return Err(Io);
    }
    var decoded := Header.Decode(headerBytes.value);
    if decoded.Err? {
      return Err(decoded.error);
    }
    var k := DeriveKeys(suite, master, decoded.value);
    var output, transcript := [], headerBytes.value;
    var expectedIndex, totalLength := 0, 0;
    ghost var chunks: seq<seq<byte>> := [];
    assert Concat([]) == [] by { NoChunks(); }
    while true
      invariant input.Valid() && k == DeriveFileKeys(suite, master, decoded.value)
      invariant Parse(k, input.data, input.pos, chunks) == Parse(k, input.data, HEADER_SIZE, [])
      invariant transcript == input.data[..input.pos]
      invariant output == Concat(chunks) && totalLength == |output| && expectedIndex == |chunks|
      decreases |input.data| - input.pos
    {
      ghost var pos := input.pos;
      var kind := input.Read(1);
      if kind == [] {
        // The input ends without a manifest.
        return Err(AuthenticationFailed);
      }
      assert kind[0] == input.data[pos];
      if kind[0] == DATA_RECORD {
        var chunk, read := OpenRecord(k, input, expectedIndex);
        if chunk.Err? {
          return Err(chunk.error);
        }
        ConcatSnoc(chunks, chunk.value);
        transcript := transcript + read;
        output := output + chunk.value;
        if totalLength + |chunk.value| >= U64_LIMIT {
          return Err(LimitExceeded("file length overflow"));
        }
        totalLength := totalLength + |chunk.value|;
        expectedIndex := expectedIndex + 1;
        chunks := chunks + [chunk.value];
      } else if kind[0] == MANIFEST_RECORD {
        var verified := OpenManifest(k, input, totalLength, expectedIndex, transcript);
        if verified.Err? {
          return Err(verified.error);
        }
        return Ok((decoded.value, output));
      } else {
        return Err(InvalidFormat("unknown record type"));
      }
    }
  }

  lemma NoChunks()
    ensures Concat([]) == []
  {
  }

  /** The rest of a data record whose kind byte has been read; `read` is the whole record. */
  method OpenRecord(k: FileKeys, input: Reader, index: nat) returns (r: Result<seq<byte>, ContainerError>, read: seq<byte>)
    requires k.Valid() && input.Valid() && input.pos > 0 && input.data[input.pos - 1] == DATA_RECORD
    modifies input
    ensures input.Valid() && r == ParseRecord(k, input.data, old(input.pos) - 1, index)
    ensures r.Ok? ==> input.pos == old(input.pos) + 16 + BodyLen(k, |r.value|)
                      && read == input.data[old(input.pos) - 1..input.pos]
  {
    hide Unguard, OpenNative, FromLe64, FromLe32;
    ghost var data, pos := input.data, input.pos - 1;
    read := [];
    var rest := input.ReadExact(16);
    if rest.None? {
      return Err(Io), read;
    }
    var frame := [DATA_RECORD] + rest.value;
    assert frame == data[pos..pos + 17];
    SliceOfSlice(data, pos + 1, pos + 17, pos + 1, pos + 9);
    SliceOfSlice(data, pos + 1, pos + 17, pos + 9, pos + 13);
    SliceOfSlice(data, pos + 1, pos + 17, pos + 13, pos + 17);
    var storedIndex := FromLe64(rest.value[..8]);
    var plaintextLen := FromLe32(rest.value[8..12]);
    var bodyLen := FromLe32(rest.value[12..16]);
    if storedIndex != index {
      return Err(AuthenticationFailed), read;
    }
    if index >= MAX_RECORDS {
      return Err(LimitExceeded("too many records")), read;
    }
    if plaintextLen > k.header.chunkSize {
      return Err(InvalidFormat("record exceeds header chunk size")), read;
    }
    if bodyLen != BodyLen(k, plaintextLen) {
      return Err(InvalidFormat("record body length mismatch")), read;
    }
    var body := input.ReadExact(bodyLen);
    if body.None? {
      return Err(Io), read;
    }
    read := frame + body.value;
    var inner := Unguard(k, index, frame, body.value);
    if inner.Err? {
      return Err(inner.error), read;
    }
    r := OpenNativeBytes(k, index, plaintextLen, inner.value);
    OpenedSize(k, index, plaintextLen, inner.value);
  }

  lemma OpenedSize(k: FileKeys, index: nat, plaintextLen: nat, body: seq<byte>)
    ensures OpenNative(k, index, plaintextLen, body).Ok? ==> |OpenNative(k, index, plaintextLen, body).value| == plaintextLen
  {
    hide SivOf, StreamOf;
  }

  /** The rest of a manifest whose kind byte has been read, and the end of the file after it. */
  method OpenManifest(k: FileKeys, input: Reader, total: nat, count: nat, transcript: seq<byte>) returns (r: Result<(), ContainerError>)
    requires k.Valid() && input.Valid() && input.pos > 0 && transcript == input.data[..input.pos - 1]
    modifies input
    ensures r == ParseManifest(k, input.data, old(input.pos) - 1, total, count)
  {
    hide Unguard, FromLe32, VerifyManifest, Digest;
    ghost var pos := input.pos - 1;
    var lenBytes := input.ReadExact(4);
    if lenBytes.None? {
      return Err(Io);
    }
    var bodyLen := FromLe32(lenBytes.value);
    if bodyLen != ManifestLen(k) {
      return Err(InvalidFormat("manifest body length mismatch"));
    }
    var body := input.ReadExact(bodyLen);
    if body.None? {
      return Err(Io);
    }
    var inner := Unguard(k, MANIFEST_INDEX, ManifestFrame(bodyLen), body.value);
    if inner.Err? {
      return Err(inner.error);
    }
    var verified := VerifyManifestBytes(k, inner.value, total, count, Digest(k, transcript));
    if verified.Err? {
      return Err(verified.error);
    }
    var trailing := input.Read(1);
    if trailing != [] {
      return Err(InvalidFormat("trailing bytes after manifest"));
    }
    return Ok(());
  }

  /** Decrypting what encryption produced gives back the header and the plaintext, for every file that fits. */
  lemma EncryptThenDecrypt(suite: Suite, master: Sponge.Key, header: Header, data: seq<byte>)
    requires header.Valid() && |Split(data, header.chunkSize)| <= MAX_RECORDS
    ensures var bytes := Container(DeriveFileKeys(suite, master, header), Split(data, header.chunkSize));
            var accepted := Accept(suite, master, bytes);
            accepted.Ok? && accepted.value.0 == header && Concat(accepted.value.1) == data
  {
    hide DeriveFileKeys, Container, Accept;
    ContainerAccepted(suite, master, header, Split(data, header.chunkSize));
    SplitExact(data, header.chunkSize);
  }
}
