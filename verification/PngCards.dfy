/** What the two chunk readers find, what the two writers produce, and that neither writer disturbs the other's reader. */
module PngCards {
  import opened Bytes
  import opened Cipher
  import opened Crc
  import opened Png

  const KEY_KIND: seq<byte> := [0x6f, 0x72, 0x4b, 0x59]                                       // "orKY"
  const KEY_MAGIC: seq<byte> := [0x4f, 0x59, 0x56, 0x50, 0x4b, 0x59, 0x31, 0]                 // "OYVPKY1\0"
  const PIN_KIND: seq<byte> := [0x6f, 0x72, 0x50, 0x6e]                                       // "orPn"
  const PIN_DATA: seq<byte> := [0x4f, 0x59, 0x56, 0x50, 0x49, 0x4e, 0x31, 0, 1, 0, 0, 0]      // "OYVPIN1\0", then 1
  const CAPSULE_SIZE: nat := 128
  const DIGEST_SIZE: nat := 32

  /** The capsule check, of which only the length it demands is used. */
  type Validator = valid: seq<byte> -> bool | forall k :: valid(k) ==> |k| == CAPSULE_SIZE
    witness (k: seq<byte>) => |k| == CAPSULE_SIZE

  // ----- the key chunk

  /** Magic, length, capsule, digest. */
  function KeyData(suite: Suite, key: seq<byte>): (data: seq<byte>)
    ensures |data| == |KEY_MAGIC| + 2 + |key| + DIGEST_SIZE
  {
    KEY_MAGIC + Le16(|key|) + key + suite.sha256(key)
  }

  function BuildKeyChunk(suite: Suite, valid: Validator, key: seq<byte>): Result<seq<byte>, PngError> {
    if valid(key) then Ok(KeyData(suite, key)) else Err(BadCapsule)
  }

  function ParseKeyChunk(suite: Suite, valid: Validator, data: seq<byte>): Result<seq<byte>, PngError> {
    var at := |KEY_MAGIC|;
    if |data| < at + 2 + DIGEST_SIZE || data[..at] != KEY_MAGIC then Err(CardDecode)
    else
      var end := at + 2 + FromLe(data[at..at + 2]);
      if end + DIGEST_SIZE != |data| then Err(CardDecode)
      else
        var key := data[at + 2..end];
        if suite.sha256(key) != data[end..] then Err(CardDecode)
        else if !valid(key) then Err(BadCapsule)
        else Ok(key)
  }

  lemma KeyChunkRoundTrip(suite: Suite, valid: Validator, key: seq<byte>)
    requires valid(key)
    ensures ParseKeyChunk(suite, valid, KeyData(suite, key)) == Ok(key)
  {
    hide FromLe, Le;
    var data := KeyData(suite, key);
    Le16RoundTrip(|key|);
    assert data[..8] == KEY_MAGIC && data[8..10] == Le16(|key|);
    assert data[10..10 + |key|] == key && data[10 + |key|..] == suite.sha256(key);
  }

  /** What parses was built: accepted data is the encoding of the key it gives. */
  lemma ParsedKeyChunkIsBuilt(suite: Suite, valid: Validator, data: seq<byte>)
    requires ParseKeyChunk(suite, valid, data).Ok?
    ensures var key := ParseKeyChunk(suite, valid, data).value; valid(key) && data == KeyData(suite, key)
  {
    hide FromLe, Le;
    var key := ParseKeyChunk(suite, valid, data).value;
    LeOfFromLe(data[8..10]);
    assert data == data[..8] + data[8..10] + data[10..10 + |key|] + data[10 + |key|..];
  }

  /** Two accepted chunks with one digest and different contents show two keys with one SHA-256. */
  lemma DigestBinds(suite: Suite, valid: Validator, data: seq<byte>, other: seq<byte>)
    requires ParseKeyChunk(suite, valid, data).Ok? && ParseKeyChunk(suite, valid, other).Ok?
    requires data != other && data[|data| - DIGEST_SIZE..] == other[|other| - DIGEST_SIZE..]
    ensures var key, otherKey := ParseKeyChunk(suite, valid, data).value, ParseKeyChunk(suite, valid, other).value;
            key != otherKey && suite.sha256(key) == suite.sha256(otherKey) == data[|data| - DIGEST_SIZE..]
  {
    hide FromLe, Le;
    ParsedKeyChunkIsBuilt(suite, valid, data);
    ParsedKeyChunkIsBuilt(suite, valid, other);
  }

  // ----- readers

  function ExtractFrom(suite: Suite, valid: Validator, w: Walked): Result<Option<seq<byte>>, PngError> {
    match First(w.chunks, KEY_KIND)
    case Some(c) =>
      (match ParseKeyChunk(suite, valid, c.data)
       case Ok(key) => Ok(Some(key))
       case Err(e) => Err(e))
    case None => if w.stop == Truncated then Err(CardDecode) else Ok(None)
  }

  /** `extract_key_chunk`: the first key chunk decides. */
  function ExtractKey(suite: Suite, valid: Validator, png: seq<byte>): Result<Option<seq<byte>>, PngError> {
    if IsPng(png) then ExtractFrom(suite, valid, Chunks(png)) else Ok(None)
  }

  predicate IsMarker(c: Chunk) {
    c.data == PIN_DATA && FromBe32(c.crc) == Crc32(PIN_KIND + c.data)
  }

  predicate MarkedIn(w: Walked) {
    var found := First(w.chunks, PIN_KIND);
    found.Some? && IsMarker(found.value)
  }

  /** `marker_present`: the first marker chunk decides. */
  predicate Marked(png: seq<byte>) {
    IsPng(png) && MarkedIn(Chunks(png))
  }

  // ----- writers

  function InjectKey(suite: Suite, valid: Validator, png: seq<byte>, key: seq<byte>): Result<seq<byte>, PngError> {
    if !IsPng(png) then Err(NotPng)
    else
      match BuildKeyChunk(suite, valid, key)
      case Err(e) => Err(e)
      case Ok(data) => InsertBeforeEnd(png, Checked(KEY_KIND, data), CardDecode)
  }

  function AddMarker(png: seq<byte>): Result<seq<byte>, PngError> {
    if Marked(png) then Ok(png)
    else if !IsPng(png) then Err(NotPng)
    else InsertBeforeEnd(png, Checked(PIN_KIND, PIN_DATA), FileTruncated)
  }

  predicate HasChunk(png: seq<byte>, kind: seq<byte>) {
    IsPng(png) && First(Chunks(png).chunks, kind).Some?
  }

  // ----- round trip and non-interference

  lemma NewMarkerIsMarker()
    ensures IsMarker(Checked(PIN_KIND, PIN_DATA))
  {
    hide Crc32, FromBe32, Be32;
    Be32RoundTrip(Crc32(PIN_KIND + PIN_DATA));
  }

  /** What a later reader of `kind` finds: an older chunk if there is one, else the new one. */
  lemma FoundAfterInsert(png: seq<byte>, c: Chunk, truncated: PngError, kind: seq<byte>)
    requires IsPng(png) && c.kind != IEND && kind != IEND && InsertBeforeEnd(png, c, truncated).Ok?
    ensures var q := InsertBeforeEnd(png, c, truncated).value;
            && IsPng(q) && Chunks(png).stop == AtEnd && Chunks(q).stop == AtEnd
            && First(Chunks(q).chunks, kind) ==
               var old_ := First(Chunks(png).chunks, kind);
               if old_.Some? then old_ else if c.kind == kind then Some(c) else None
  {
    hide InsertBeforeEnd, Walk;
    InsertedChunks(png, c, truncated);
    FirstInsert(Chunks(png).chunks, c, kind);
  }

  /** An injected key is the one extracted exactly when no key chunk came before it; an earlier one keeps deciding. */
  lemma ExtractAfterInject(suite: Suite, valid: Validator, png: seq<byte>, key: seq<byte>)
    requires InjectKey(suite, valid, png, key).Ok?
    ensures var before := ExtractKey(suite, valid, png);
            ExtractKey(suite, valid, InjectKey(suite, valid, png, key).value) ==
            if HasChunk(png, KEY_KIND) then before else Ok(Some(key))
    ensures !HasChunk(png, KEY_KIND) <==> ExtractKey(suite, valid, png) == Ok(None)
  {
    hide InsertBeforeEnd, Walk, KeyData, ParseKeyChunk, Checked;
    FoundAfterInsert(png, Checked(KEY_KIND, KeyData(suite, key)), CardDecode, KEY_KIND);
    KeyChunkRoundTrip(suite, valid, key);
  }

  /** Injecting a key leaves the marker reader's answer as it was. */
  lemma InjectKeepsMarker(suite: Suite, valid: Validator, png: seq<byte>, key: seq<byte>)
    requires InjectKey(suite, valid, png, key).Ok?
    ensures Marked(InjectKey(suite, valid, png, key).value) <==> Marked(png)
  {
    hide InsertBeforeEnd, Walk, KeyData, Checked, IsMarker;
    FoundAfterInsert(png, Checked(KEY_KIND, KeyData(suite, key)), CardDecode, PIN_KIND);
  }

  /** Marking leaves the key reader's answer as it was. */
  lemma MarkerKeepsKey(suite: Suite, valid: Validator, png: seq<byte>)
    requires AddMarker(png).Ok?
    ensures ExtractKey(suite, valid, AddMarker(png).value) == ExtractKey(suite, valid, png)
  {
    hide InsertBeforeEnd, Walk, Checked, ParseKeyChunk, Marked;
    if !Marked(png) {
      FoundAfterInsert(png, Checked(PIN_KIND, PIN_DATA), FileTruncated, KEY_KIND);
    }
  }

  /** A file is marked afterwards exactly when it was before or held no marker-type chunk. */
  lemma MarkedAfterAdd(png: seq<byte>)
    requires AddMarker(png).Ok?
    ensures Marked(AddMarker(png).value) <==> Marked(png) || !HasChunk(png, PIN_KIND)
  {
    hide InsertBeforeEnd, Walk, Checked, IsMarker;
    if !Marked(png) {
      FoundAfterInsert(png, Checked(PIN_KIND, PIN_DATA), FileTruncated, PIN_KIND);
      NewMarkerIsMarker();
    }
  }

  /** Marking twice is marking once exactly when the first marking took; otherwise the file grows each time. */
  lemma AddMarkerIdempotent(png: seq<byte>)
    requires AddMarker(png).Ok?
    ensures var q := AddMarker(png).value; AddMarker(q) == Ok(q) <==> Marked(png) || !HasChunk(png, PIN_KIND)
    ensures var q := AddMarker(png).value;
            !Marked(png) && HasChunk(png, PIN_KIND) ==> AddMarker(q).Ok? && |AddMarker(q).value| == |q| + 24
  {
    hide Walk, RawAll, Checked, Marked;
    MarkedAfterAdd(png);
    var q := AddMarker(png).value;
    if !Marked(png) {
      var c := Checked(PIN_KIND, PIN_DATA);
      InsertedChunks(png, c, FileTruncated);
      InsertedSize(Chunks(q).chunks, c);
    }
  }

  /** An empty image with a damaged marker chunk before its end. */
  function StaleMarker(): seq<byte> {
    SIGNATURE + RawAll(StaleChunks())
  }

  function StaleChunks(): seq<Chunk> {
    [Chunk(PIN_KIND, [], [0, 0, 0, 0]), Chunk(IEND, [], [0, 0, 0, 0])]
  }

  /** So the promise that marking succeeds or fails, and can be repeated, is not kept for every file. */
  lemma StaleMarkerStays()
    ensures AddMarker(StaleMarker()).Ok?
    ensures var q := AddMarker(StaleMarker()).value; !Marked(q) && AddMarker(q) != Ok(q)
  {
    hide Walk, RawAll;
    var cs := StaleChunks();
    WalkWrittenClosed(cs, []);
    assert RawAll(cs) + [] == RawAll(cs);
    assert StaleMarker()[|SIGNATURE|..] == RawAll(cs);
    assert Chunks(StaleMarker()) == Walked(cs, AtEnd);
    MarkedAfterAdd(StaleMarker());
    AddMarkerIdempotent(StaleMarker());
  }

  /** The whole path of a PIN card: a key injected into a fresh image, then marked, is found, and so is the marker. */
  lemma PinCardOpens(suite: Suite, valid: Validator, png: seq<byte>, key: seq<byte>)
    requires IsPng(png) && Chunks(png).stop == AtEnd && valid(key)
    requires !HasChunk(png, KEY_KIND) && !HasChunk(png, PIN_KIND)
    ensures InjectKey(suite, valid, png, key).Ok?
    ensures var card := InjectKey(suite, valid, png, key).value;
            && AddMarker(card).Ok?
            && Marked(AddMarker(card).value)
            && ExtractKey(suite, valid, AddMarker(card).value) == Ok(Some(key))
  {
    hide Walk, RawAll, Checked, IsMarker;
    var card := InjectKey(suite, valid, png, key).value;
    FoundAfterInsert(png, Checked(KEY_KIND, KeyData(suite, key)), CardDecode, PIN_KIND);
    ExtractAfterInject(suite, valid, png, key);
    MarkerKeepsKey(suite, valid, card);
    MarkedAfterAdd(card);
  }
}
