/**
 Which byte strings are containers, twice over: as the bytes that sealing some chunks produces, and as the
 strings the decryptor's checks let through. The two agree, and accepted strings are prefix-free.
 */
module ContainerSpec {
  import opened Bytes
  import opened Cipher
  import opened ContainerFormat
  import Sponge

  // ----- sealing

  function BodyLen(k: FileKeys, plaintextLen: nat): nat {
    NATIVE_TAG_SIZE + plaintextLen + k.header.mode.Overhead()
  }

  function FrameOf(k: FileKeys, index: nat, plaintextLen: nat): (f: seq<byte>)
    ensures |f| == 17 && f[0] == DATA_RECORD
  {
    RecordFrame(index, plaintextLen, BodyLen(k, plaintextLen))
  }

  ghost function RecordBytes(k: FileKeys, index: nat, chunk: seq<byte>): (r: seq<byte>)
    requires k.Valid()
    ensures |r| == 17 + BodyLen(k, |chunk|)
  {
    var frame := FrameOf(k, index, |chunk|);
    frame + Guard(k, index, frame, SealNative(k, index, chunk))
  }

  /** The header and the sealed records of `chunks`: everything the manifest's transcript covers. */
  ghost function Covered(k: FileKeys, chunks: seq<seq<byte>>): (s: seq<byte>)
    requires k.Valid()
    ensures |s| >= HEADER_SIZE
  {
    if chunks == [] then k.header.Encode()
    else Covered(k, chunks[..|chunks| - 1]) + RecordBytes(k, |chunks| - 1, chunks[|chunks| - 1])
  }

  function ManifestLen(k: FileKeys): nat {
    MANIFEST_INNER_SIZE + k.header.mode.Overhead()
  }

  ghost function ManifestBytes(k: FileKeys, total: nat, count: nat, digest: seq<byte>): (m: seq<byte>)
    requires k.Valid() && |digest| == 48
    ensures |m| == 5 + ManifestLen(k)
  {
    var frame := ManifestFrame(ManifestLen(k));
    frame + Guard(k, MANIFEST_INDEX, frame, ManifestInner(k, total, count, digest))
  }

  function Digest(k: FileKeys, transcript: seq<byte>): (d: seq<byte>)
    ensures |d| == 48
  {
    k.suite.sha384(transcript)
  }

  ghost function Container(k: FileKeys, chunks: seq<seq<byte>>): seq<byte>
    requires k.Valid()
  {
    Covered(k, chunks) + ManifestBytes(k, |Concat(chunks)|, |chunks|, Digest(k, Covered(k, chunks)))
  }

  ghost predicate ValidChunks(k: FileKeys, chunks: seq<seq<byte>>) {
    |chunks| <= MAX_RECORDS && forall i :: 0 <= i < |chunks| ==> |chunks[i]| <= k.header.chunkSize
  }

  // ----- the decryptor's checks

  /** The record at `pos`, which must carry number `index`. */
  ghost function ParseRecord(k: FileKeys, bytes: seq<byte>, pos: nat, index: nat): Result<seq<byte>, ContainerError>
    requires k.Valid()
  {
    if pos + 17 > |bytes| then Err(Io)
    else
      var storedIndex := FromLe64(bytes[pos + 1..pos + 9]);
      var plaintextLen := FromLe32(bytes[pos + 9..pos + 13]);
      var bodyLen := FromLe32(bytes[pos + 13..pos + 17]);
      if storedIndex != index then Err(AuthenticationFailed)
      else if index >= MAX_RECORDS then Err(LimitExceeded("too many records"))
      else if plaintextLen > k.header.chunkSize then Err(InvalidFormat("record exceeds header chunk size"))
      else if bodyLen != BodyLen(k, plaintextLen) then Err(InvalidFormat("record body length mismatch"))
      else if pos + 17 + bodyLen > |bytes| then Err(Io)
      else
        var inner :- Unguard(k, index, bytes[pos..pos + 17], bytes[pos + 17..pos + 17 + bodyLen]);
        OpenNative(k, index, plaintextLen, inner)
  }

  /** The manifest at `pos`, which must be the last thing in the file. */
  ghost function ParseManifest(k: FileKeys, bytes: seq<byte>, pos: nat, total: nat, count: nat): Result<(), ContainerError>
    requires k.Valid() && pos <= |bytes|
  {
    if pos + 5 > |bytes| then Err(Io)
    else
      var bodyLen := FromLe32(bytes[pos + 1..pos + 5]);
      if bodyLen != ManifestLen(k) then Err(InvalidFormat("manifest body length mismatch"))
      else if pos + 5 + bodyLen > |bytes| then Err(Io)
      else
        var inner :- Unguard(k, MANIFEST_INDEX, ManifestFrame(bodyLen), bytes[pos + 5..pos + 5 + bodyLen]);
        var _ :- VerifyManifest(k, inner, total, count, Digest(k, bytes[..pos]));
        if pos + 5 + bodyLen < |bytes| then Err(InvalidFormat("trailing bytes after manifest")) else Ok(())
  }

  /** Reads records from `pos` until a manifest closes the file; `chunks` were read before. */
  ghost function Parse(k: FileKeys, bytes: seq<byte>, pos: nat, chunks: seq<seq<byte>>): Result<seq<seq<byte>>, ContainerError>
    requires k.Valid()
    decreases |bytes| - pos
  {
    hide ParseRecord, ParseManifest;
    if pos >= |bytes| then Err(AuthenticationFailed)
    else if bytes[pos] == DATA_RECORD then
      var chunk :- ParseRecord(k, bytes, pos, |chunks|);
      if |Concat(chunks)| + |chunk| >= U64_LIMIT then Err(LimitExceeded("file length overflow"))
      else Parse(k, bytes, pos + 17 + BodyLen(k, |chunk|), chunks + [chunk])
    else if bytes[pos] == MANIFEST_RECORD then
      var _ :- ParseManifest(k, bytes, pos, |Concat(chunks)|, |chunks|);
      Ok(chunks)
    else
      Err(InvalidFormat("unknown record type"))
  }

  /** The decryptor on a whole file: the header it finds and the chunks it recovers. */
  ghost function Accept(suite: Suite, master: Sponge.Key, bytes: seq<byte>): Result<(Header, seq<seq<byte>>), ContainerError> {
    hide DeriveFileKeys, Parse;
    if |bytes| < HEADER_SIZE then Err(Io)
    else
      var header :- Header.Decode(bytes[..HEADER_SIZE]);
      var chunks :- Parse(DeriveFileKeys(suite, master, header), bytes, HEADER_SIZE, []);
      Ok((header, chunks))
  }

  // ----- one record

  /** Where a sealed record stands, the checks recover its chunk. */
  lemma SealedRecordParses(k: FileKeys, bytes: seq<byte>, pos: nat, index: nat, chunk: seq<byte>)
    requires k.Valid() && index < MAX_RECORDS && |chunk| <= k.header.chunkSize
    requires pos + |RecordBytes(k, index, chunk)| <= |bytes|
    requires bytes[pos..pos + |RecordBytes(k, index, chunk)|] == RecordBytes(k, index, chunk)
    ensures bytes[pos] == DATA_RECORD && ParseRecord(k, bytes, pos, index) == Ok(chunk)
  {
    hide Guard, SealNative, Unguard, OpenNative, Header.Encode, FromLe64, FromLe32, Le64, Le32;
    var frame, body := FrameOf(k, index, |chunk|), Guard(k, index, FrameOf(k, index, |chunk|), SealNative(k, index, chunk));
    var end := pos + 17 + BodyLen(k, |chunk|);
    SliceOfSlice(bytes, pos, end, pos, pos + 17);
    SliceOfSlice(bytes, pos, end, pos + 17, end);
    assert bytes[pos..pos + 17] == frame && bytes[pos + 17..end] == body;
    SliceOfSlice(bytes, pos, pos + 17, pos + 1, pos + 9);
    SliceOfSlice(bytes, pos, pos + 17, pos + 9, pos + 13);
    SliceOfSlice(bytes, pos, pos + 17, pos + 13, pos + 17);
    assert frame[1..9] == Le64(index) && frame[9..13] == Le32(|chunk|) && frame[13..17] == Le32(BodyLen(k, |chunk|));
    Le64RoundTrip(index);
    Le32RoundTrip(|chunk|);
    Le32RoundTrip(BodyLen(k, |chunk|));
    UnguardGuarded(k, index, frame, SealNative(k, index, chunk));
    NativeInverse(k, index, |chunk|, chunk, SealNative(k, index, chunk));
  }

  /** What the checks let through has the length its frame says. */
  lemma ParsedRecordSize(k: FileKeys, bytes: seq<byte>, pos: nat, index: nat)
    requires k.Valid() && ParseRecord(k, bytes, pos, index).Ok?
    ensures var chunk := ParseRecord(k, bytes, pos, index).value;
            |chunk| <= k.header.chunkSize && index < MAX_RECORDS && pos + 17 + BodyLen(k, |chunk|) <= |bytes|
  {
    hide Unguard, FromLe64, FromLe32, SivOf, StreamOf;
  }

  /** When only sealed bodies open, a record that passes the checks is the sealed one, byte for byte. */
  lemma ParsedRecordSealed(k: FileKeys, bytes: seq<byte>, pos: nat, index: nat)
    requires k.Valid() && OnlySealedOpen(k.header.mode, k.suite)
    requires pos < |bytes| && bytes[pos] == DATA_RECORD && ParseRecord(k, bytes, pos, index).Ok?
    ensures var r := RecordBytes(k, index, ParseRecord(k, bytes, pos, index).value);
            pos + |r| <= |bytes| && bytes[pos..pos + |r|] == r
  {
    hide Guard, SealNative, Unguard, OpenNative, Header.Encode, FromLe, Le, Le64, Le32;
    var chunk := ParseRecord(k, bytes, pos, index).value;
    ParsedRecordSize(k, bytes, pos, index);
    var frame, end := bytes[pos..pos + 17], pos + 17 + BodyLen(k, |chunk|);
    LeIs(bytes[pos + 1..pos + 9]);
    LeIs(bytes[pos + 9..pos + 13]);
    LeIs(bytes[pos + 13..pos + 17]);
    RecordLens(k, bytes, pos, index);
    assert frame == [bytes[pos]] + bytes[pos + 1..pos + 9] + bytes[pos + 9..pos + 13] + bytes[pos + 13..pos + 17];
    assert frame == FrameOf(k, index, |chunk|);
    GuardUnguarded(k, index, frame, bytes[pos + 17..end]);
    var inner := Unguard(k, index, frame, bytes[pos + 17..end]).value;
    NativeInverse(k, index, |chunk|, chunk, inner);
    assert bytes[pos..end] == frame + bytes[pos + 17..end];
  }

  lemma LeIs(s: seq<byte>)
    ensures |s| == 8 ==> Le64(FromLe64(s)) == s
    ensures |s| == 4 ==> Le32(FromLe32(s)) == s
  {
    hide Le, FromLe;
    LeOfFromLe(s);
  }

  lemma RecordLens(k: FileKeys, bytes: seq<byte>, pos: nat, index: nat)
    requires k.Valid() && ParseRecord(k, bytes, pos, index).Ok?
    ensures pos + 17 <= |bytes| && FromLe64(bytes[pos + 1..pos + 9]) == index
    ensures var n := |ParseRecord(k, bytes, pos, index).value|;
            FromLe32(bytes[pos + 9..pos + 13]) == n && FromLe32(bytes[pos + 13..pos + 17]) == BodyLen(k, n)
  {
    hide Unguard, FromLe64, FromLe32, SivOf, StreamOf;
  }

  /** A record depends only on its own bytes. */
  lemma ParseRecordFrame(k: FileKeys, a: seq<byte>, b: seq<byte>, pos: nat, index: nat)
    requires k.Valid() && a <= b && ParseRecord(k, a, pos, index).Ok?
    ensures ParseRecord(k, b, pos, index) == ParseRecord(k, a, pos, index)
  {
    hide Unguard, FromLe64, FromLe32, OpenNative;
    var bodyLen := FromLe32(a[pos + 13..pos + 17]);
    NarrowSlice(a, b, 0, |a|, pos + 1, pos + 9);
    NarrowSlice(a, b, 0, |a|, pos + 9, pos + 13);
    NarrowSlice(a, b, 0, |a|, pos + 13, pos + 17);
    NarrowSlice(a, b, 0, |a|, pos, pos + 17);
    NarrowSlice(a, b, 0, |a|, pos + 17, pos + 17 + bodyLen);
  }

  // ----- the manifest

  lemma ManifestParses(k: FileKeys, bytes: seq<byte>, pos: nat, total: u64, count: u64)
    requires k.Valid() && pos <= |bytes|
    requires bytes[pos..] == ManifestBytes(k, total, count, Digest(k, bytes[..pos]))
    ensures pos < |bytes| && bytes[pos] == MANIFEST_RECORD && ParseManifest(k, bytes, pos, total, count) == Ok(())
  {
    hide Guard, Unguard, Header.Encode, FromLe32, Le32, ManifestInner, VerifyManifest, Digest;
    var digest := Digest(k, bytes[..pos]);
    var frame := ManifestFrame(ManifestLen(k));
    assert bytes[pos..][..5] == frame;
    assert bytes[pos + 1..pos + 5] == bytes[pos..][..5][1..] == Le32(ManifestLen(k));
    Le32RoundTrip(ManifestLen(k));
    assert bytes[pos + 5..pos + 5 + ManifestLen(k)] == bytes[pos..][5..];
    UnguardGuarded(k, MANIFEST_INDEX, frame, ManifestInner(k, total, count, digest));
    ManifestInverse(k, ManifestInner(k, total, count, digest), total, count, digest);
  }

  lemma ParsedManifestSize(k: FileKeys, bytes: seq<byte>, pos: nat, total: nat, count: nat)
    requires k.Valid() && pos <= |bytes| && ParseManifest(k, bytes, pos, total, count).Ok?
    ensures |bytes| == pos + 5 + ManifestLen(k)
  {
    hide Unguard, FromLe32, VerifyManifest;
  }

  lemma ParsedManifestSealed(k: FileKeys, bytes: seq<byte>, pos: nat, total: u64, count: u64)
    requires k.Valid() && OnlySealedOpen(k.header.mode, k.suite) && pos < |bytes| && bytes[pos] == MANIFEST_RECORD
    requires ParseManifest(k, bytes, pos, total, count).Ok?
    ensures bytes[pos..] == ManifestBytes(k, total, count, Digest(k, bytes[..pos]))
  {
    hide Guard, Unguard, Header.Encode, FromLe32, Le32, ManifestInner, VerifyManifest, Digest;
    var digest, frame := Digest(k, bytes[..pos]), ManifestFrame(ManifestLen(k));
    ParsedManifestSize(k, bytes, pos, total, count);
    LeIs(bytes[pos + 1..pos + 5]);
    assert bytes[pos..] == [bytes[pos]] + bytes[pos + 1..pos + 5] + bytes[pos + 5..pos + 5 + ManifestLen(k)];
    GuardUnguarded(k, MANIFEST_INDEX, frame, bytes[pos + 5..pos + 5 + ManifestLen(k)]);
    var inner := Unguard(k, MANIFEST_INDEX, frame, bytes[pos + 5..pos + 5 + ManifestLen(k)]).value;
    ManifestInverse(k, inner, total, count, digest);
  }

  // ----- whole files

  lemma {:induction false} ConcatBound(chunks: seq<seq<byte>>, size: nat)
    requires forall i :: 0 <= i < |chunks| ==> |chunks[i]| <= size
    ensures |Concat(chunks)| <= |chunks| * size
  {
    if chunks != [] {
      var n := |chunks| - 1;
      ConcatBound(chunks[..n], size);
      assert (n + 1) * size == n * size + size;
    }
  }

  lemma TotalFits(k: FileKeys, chunks: seq<seq<byte>>)
    requires k.Valid() && ValidChunks(k, chunks)
    ensures |Concat(chunks)| < U64_LIMIT && |chunks| < U64_LIMIT
  {
    ConcatBound(chunks, MAX_CHUNK_SIZE);
  }

  lemma ConcatSnoc(chunks: seq<seq<byte>>, chunk: seq<byte>)
    ensures Concat(chunks + [chunk]) == Concat(chunks) + chunk
  {
    assert (chunks + [chunk])[..|chunks|] == chunks;
  }

  lemma CoveredSnoc(k: FileKeys, chunks: seq<seq<byte>>, chunk: seq<byte>)
    requires k.Valid()
    ensures Covered(k, chunks + [chunk]) == Covered(k, chunks) + RecordBytes(k, |chunks|, chunk)
  {
    hide RecordBytes, Header.Encode, Header.Valid;
    var all := chunks + [chunk];
    assert all[..|all| - 1] == chunks;
  }

  lemma {:induction false} CoveredPrefix(k: FileKeys, chunks: seq<seq<byte>>, n: nat)
    requires k.Valid() && n <= |chunks|
    ensures Covered(k, chunks[..n]) <= Covered(k, chunks)
    decreases |chunks| - n
  {
    hide Covered, RecordBytes;
    if n == |chunks| {
      assert chunks[..n] == chunks;
    } else {
      CoveredPrefix(k, chunks, n + 1);
      assert chunks[..n + 1] == chunks[..n] + [chunks[n]];
      CoveredSnoc(k, chunks[..n], chunks[n]);
    }
  }

  /** Round trip: from any record on, the checks recover the rest of the sealed chunks. */
  lemma {:induction false} ContainerParses(k: FileKeys, chunks: seq<seq<byte>>, n: nat)
    requires k.Valid() && ValidChunks(k, chunks) && n <= |chunks|
    ensures Parse(k, Container(k, chunks), |Covered(k, chunks[..n])|, chunks[..n]) == Ok(chunks)
    decreases |chunks| - n
  {
    hide Covered, RecordBytes, ManifestBytes, ParseRecord, ParseManifest, Digest, Concat;
    var bytes, done := Container(k, chunks), chunks[..n];
    var pos := |Covered(k, done)|;
    TotalFits(k, chunks);
    if n == |chunks| {
      assert done == chunks;
      assert bytes[..pos] == Covered(k, chunks);
      ManifestParses(k, bytes, pos, |Concat(chunks)|, |chunks|);
    } else {
      var next := chunks[..n + 1];
      assert next == done + [chunks[n]];
      CoveredSnoc(k, done, chunks[n]);
      CoveredPrefix(k, chunks, n + 1);
      var end := |Covered(k, next)|;
      assert bytes[pos..end] == Covered(k, next)[pos..end] == RecordBytes(k, n, chunks[n]);
      SealedRecordParses(k, bytes, pos, n, chunks[n]);
      TotalFits(k, next);
      ConcatSnoc(done, chunks[n]);
      ContainerParses(k, chunks, n + 1);
    }
  }

  /** Canonicity: when only sealed bodies open, an accepted string is the container of the recovered chunks. */
  lemma {:induction false} ParsedIsContainer(k: FileKeys, bytes: seq<byte>, chunks: seq<seq<byte>>)
    requires k.Valid() && OnlySealedOpen(k.header.mode, k.suite) && ValidChunks(k, chunks)
    requires Covered(k, chunks) <= bytes && Parse(k, bytes, |Covered(k, chunks)|, chunks).Ok?
    ensures var all := Parse(k, bytes, |Covered(k, chunks)|, chunks).value;
            ValidChunks(k, all) && bytes == Container(k, all)
    decreases |bytes| - |Covered(k, chunks)|
  {
    hide Covered, RecordBytes, ManifestBytes, ParseRecord, ParseManifest, Digest, Concat;
    var pos := |Covered(k, chunks)|;
    TotalFits(k, chunks);
    if bytes[pos] == DATA_RECORD {
      var chunk := ParseRecord(k, bytes, pos, |chunks|).value;
      ParsedRecordSize(k, bytes, pos, |chunks|);
      ParsedRecordSealed(k, bytes, pos, |chunks|);
      CoveredSnoc(k, chunks, chunk);
      var r := RecordBytes(k, |chunks|, chunk);
      assert bytes[..pos + |r|] == bytes[..pos] + bytes[pos..pos + |r|];
      ParsedIsContainer(k, bytes, chunks + [chunk]);
    } else {
      ParsedManifestSealed(k, bytes, pos, |Concat(chunks)|, |chunks|);
      assert bytes[..pos] == Covered(k, chunks);
      assert bytes == bytes[..pos] + bytes[pos..];
    }
  }

  /** Prefix-freeness, with no cryptographic assumption: an accepted string has no accepted proper extension. */
  lemma {:induction false} NoAcceptedExtension(k: FileKeys, a: seq<byte>, b: seq<byte>, pos: nat, chunks: seq<seq<byte>>)
    requires k.Valid() && a <= b
    requires Parse(k, a, pos, chunks).Ok? && Parse(k, b, pos, chunks).Ok?
    ensures a == b
    decreases |a| - pos
  {
    hide ParseRecord, ParseManifest, Concat;
    if a[pos] == DATA_RECORD {
      var chunk := ParseRecord(k, a, pos, |chunks|).value;
      ParseRecordFrame(k, a, b, pos, |chunks|);
      NoAcceptedExtension(k, a, b, pos + 17 + BodyLen(k, |chunk|), chunks + [chunk]);
    } else {
      ParsedManifestSize(k, a, pos, |Concat(chunks)|, |chunks|);
      ParsedManifestSize(k, b, pos, |Concat(chunks)|, |chunks|);
    }
  }

  lemma AcceptedPrefixFree(suite: Suite, master: Sponge.Key, a: seq<byte>, b: seq<byte>)
    requires a <= b && Accept(suite, master, a).Ok? && Accept(suite, master, b).Ok?
    ensures a == b
  {
    hide DeriveFileKeys, Parse, Header.Decode;
    NarrowSlice(a, b, 0, |a|, 0, HEADER_SIZE);
    var header := Header.Decode(a[..HEADER_SIZE]).value;
    NoAcceptedExtension(DeriveFileKeys(suite, master, header), a, b, HEADER_SIZE, []);
  }

  /**
   The accepted files are exactly the containers: a file is accepted with given header and chunks if and only if
   it is what sealing those chunks under that header produces.
   */
  lemma AcceptedIffContainer(suite: Suite, master: Sponge.Key, bytes: seq<byte>, header: Header, chunks: seq<seq<byte>>)
    requires OnlySealedOpen(header.mode, suite)
    ensures Accept(suite, master, bytes) == Ok((header, chunks)) <==>
            header.Valid() && var k := DeriveFileKeys(suite, master, header);
            ValidChunks(k, chunks) && bytes == Container(k, chunks)
  {
    hide DeriveFileKeys, Parse, Header.Decode, Header.Encode, Header.Valid, Container, ValidChunks;
    if header.Valid() && ValidChunks(DeriveFileKeys(suite, master, header), chunks)
       && bytes == Container(DeriveFileKeys(suite, master, header), chunks) {
      ContainerAccepted(suite, master, header, chunks);
    }
    if Accept(suite, master, bytes) == Ok((header, chunks)) {
      var k := DeriveFileKeys(suite, master, header);
      HeaderCanonical(bytes[..HEADER_SIZE]);
      NothingCovered(k);
      ParsedIsContainer(k, bytes, []);
    }
  }

  lemma NothingCovered(k: FileKeys)
    requires k.Valid()
    ensures Covered(k, []) == k.header.Encode() && ValidChunks(k, []) && |k.header.Encode()| == HEADER_SIZE
  {
  }

  /** Every container is accepted, by any lawful primitives. */
  lemma ContainerAccepted(suite: Suite, master: Sponge.Key, header: Header, chunks: seq<seq<byte>>)
    requires header.Valid() && ValidChunks(DeriveFileKeys(suite, master, header), chunks)
    ensures Accept(suite, master, Container(DeriveFileKeys(suite, master, header), chunks)) == Ok((header, chunks))
  {
    hide DeriveFileKeys, Parse, Header.Decode, Header.Encode, Header.Valid, Covered, ManifestBytes, ValidChunks,
         Digest, Concat;
    var k := DeriveFileKeys(suite, master, header);
    NothingCovered(k);
    assert chunks[..0] == [];
    ContainerParses(k, chunks, 0);
    CoveredPrefix(k, chunks, 0);
    var bytes := Container(k, chunks);
    assert bytes[..HEADER_SIZE] == Covered(k, chunks)[..HEADER_SIZE] == header.Encode();
    HeaderRoundTrip(header);
  }
}
