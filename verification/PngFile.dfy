/** The cursor loops over a PNG file: two readers and two writers, each equal to its specification. */
module PngFile {
  import opened Bytes
  import opened Cipher
  import opened Crc
  import opened Png
  import opened PngCards

  /** One turn of the walk: what the loop guard and the bound check mean at `cursor`. */
  lemma AtCursor(png: seq<byte>, cursor: nat)
    requires cursor <= |png|
    ensures Walk(png[cursor..]) ==
            if cursor + 12 > |png| then Walked([], Exhausted)
            else
              var end := cursor + 12 + FromBe32(png[cursor..cursor + 4]);
              if end > |png| then Walked([], Truncated)
              else
                var c := ChunkAt(png, cursor);
                if c.kind == IEND then Walked([c], AtEnd) else Walk(png[end..]).After(c)
  {
    hide FromBe32;
    if cursor + 12 <= |png| {
      SameLength(png, cursor);
      if cursor + 12 + FromBe32(png[cursor..cursor + 4]) <= |png| {
        SameChunk(png, cursor);
      }
    }
  }

  lemma SameLength(png: seq<byte>, cursor: nat)
    requires cursor + 12 <= |png|
    ensures png[cursor..][..4] == png[cursor..cursor + 4]
  {
  }

  lemma SameChunk(png: seq<byte>, cursor: nat)
    requires cursor + 12 <= |png| && cursor + 12 + FromBe32(png[cursor..cursor + 4]) <= |png|
    ensures var n := 12 + FromBe32(png[cursor..cursor + 4]);
            && Whole(png[cursor..]) && FrontSize(png[cursor..]) == n
            && Front(png[cursor..]) == ChunkAt(png, cursor)
            && Raw(ChunkAt(png, cursor)) == png[cursor..cursor + n]
            && png[cursor..][n..] == png[cursor + n..]
  {
    hide FromBe32, Raw;
    var s, n := png[cursor..], FromBe32(png[cursor..cursor + 4]);
    SameLength(png, cursor);
    FrontIsRaw(s);
    assert s[4..8] == png[cursor + 4..cursor + 8];
    assert s[8..8 + n] == png[cursor + 8..cursor + 8 + n];
    assert s[8 + n..12 + n] == png[cursor + 8 + n..cursor + 12 + n];
    assert s[..12 + n] == png[cursor..cursor + 12 + n];
  }

  function ChunkAt(png: seq<byte>, cursor: nat): Chunk
    requires cursor + 12 <= |png| && cursor + 12 + FromBe32(png[cursor..cursor + 4]) <= |png|
  {
    var dataEnd := cursor + 8 + FromBe32(png[cursor..cursor + 4]);
    Chunk(png[cursor + 4..cursor + 8], png[cursor + 8..dataEnd], png[dataEnd..dataEnd + 4])
  }

  /** What the first chunk of `kind` at or after `cursor` is. */
  lemma FirstAt(png: seq<byte>, cursor: nat, kind: seq<byte>)
    requires cursor <= |png|
    ensures First(Walk(png[cursor..]).chunks, kind) ==
            if cursor + 12 > |png| then None
            else
              var end := cursor + 12 + FromBe32(png[cursor..cursor + 4]);
              if end > |png| then None
              else
                var c := ChunkAt(png, cursor);
                if c.kind == kind then Some(c)
                else if c.kind == IEND then None else First(Walk(png[end..]).chunks, kind)
  {
    hide FromBe32, Walk, ChunkAt;
    AtCursor(png, cursor);
    if cursor + 12 <= |png| {
      var end := cursor + 12 + FromBe32(png[cursor..cursor + 4]);
      if end <= |png| {
        var c, rest := ChunkAt(png, cursor), Walk(png[end..]).chunks;
        assert ([c] + rest)[1..] == rest && [c][1..] == [];
      }
    }
  }

  method ParseKeyData(suite: Suite, valid: Validator, data: seq<byte>) returns (key: Result<seq<byte>, PngError>)
    ensures key == ParseKeyChunk(suite, valid, data)
  {
    if |data| < |KEY_MAGIC| + 2 + DIGEST_SIZE || data[..|KEY_MAGIC|] != KEY_MAGIC {
      return Err(CardDecode);
    }
    var lengthOffset := |KEY_MAGIC|;
    var keyLength := FromLe(data[lengthOffset..lengthOffset + 2]);
    var keyStart := lengthOffset + 2;
    var keyEnd := keyStart + keyLength;
    if keyEnd + DIGEST_SIZE != |data| {
      return Err(CardDecode);
    }
    var capsule := data[keyStart..keyEnd];
    if suite.sha256(capsule) != data[keyEnd..] {
      return Err(CardDecode);
    }
    if !valid(capsule) {
      return Err(BadCapsule);
    }
    return Ok(capsule);
  }

  /** What the reader answers from `cursor` on. */
  lemma ExtractAt(suite: Suite, valid: Validator, png: seq<byte>, cursor: nat)
    requires cursor <= |png|
    ensures ExtractFrom(suite, valid, Walk(png[cursor..])) ==
            if cursor + 12 > |png| then Ok(None)
            else
              var end := cursor + 12 + FromBe32(png[cursor..cursor + 4]);
              if end > |png| then Err(CardDecode)
              else
                var c := ChunkAt(png, cursor);
                if c.kind == KEY_KIND then
                  match ParseKeyChunk(suite, valid, c.data)
                  case Ok(key) => Ok(Some(key))
                  case Err(e) => Err(e)
                else if c.kind == IEND then Ok(None) else ExtractFrom(suite, valid, Walk(png[end..]))
  {
    hide FromBe32, Walk, ParseKeyChunk, First, ChunkAt, Lawful;
    AtCursor(png, cursor);
    FirstAt(png, cursor, KEY_KIND);
  }

  method ExtractKeyChunk(suite: Suite, valid: Validator, png: seq<byte>)
    returns (key: Result<Option<seq<byte>>, PngError>)
    ensures key == ExtractKey(suite, valid, png)
  {
    hide FromBe32, Walk, ParseKeyChunk, ExtractFrom, Lawful;
    if !(SIGNATURE <= png) {
      return Ok(None);
    }
    var cursor := |SIGNATURE|;
    while cursor + 12 <= |png|
      invariant |SIGNATURE| <= cursor <= |png|
      invariant ExtractFrom(suite, valid, Walk(png[cursor..])) == ExtractKey(suite, valid, png)
      decreases |png| - cursor
    {
      ExtractAt(suite, valid, png, cursor);
      var length := FromBe32(png[cursor..cursor + 4]);
      var dataStart := cursor + 8;
      var dataEnd := dataStart + length;
      var end := dataEnd + 4;
      if end > |png| {
        return Err(CardDecode);
      }
      var chunkType := png[cursor + 4..cursor + 8];
      if chunkType == KEY_KIND {
        assert png[dataStart..dataEnd] == ChunkAt(png, cursor).data;
        var parsed := ParseKeyData(suite, valid, png[dataStart..dataEnd]);
        match parsed {
          case Ok(capsule) => return Ok(Some(capsule));
          case Err(e) => return Err(e);
        }
      }
      cursor := end;
      if chunkType == IEND {
        return Ok(None);
      }
    }
    ExtractAt(suite, valid, png, cursor);
    return Ok(None);
  }

  method MarkerPresent(png: seq<byte>) returns (present: bool)
    ensures present <==> Marked(png)
  {
    hide FromBe32, Walk, Crc32, First;
    if !(SIGNATURE <= png) {
      return false;
    }
    var cursor := |SIGNATURE|;
    while cursor + 12 <= |png|
      invariant |SIGNATURE| <= cursor <= |png|
      invariant MarkedIn(Walk(png[cursor..])) <==> Marked(png)
      decreases |png| - cursor
    {
      FirstAt(png, cursor, PIN_KIND);
      var length := FromBe32(png[cursor..cursor + 4]);
      var dataEnd := cursor + 8 + length;
      var end := dataEnd + 4;
      if end > |png| {
        return false;
      }
      var chunkType := png[cursor + 4..cursor + 8];
      if chunkType == PIN_KIND {
        var data := png[cursor + 8..dataEnd];
        if data != PIN_DATA {
          return false;
        }
        var crcInput := PIN_KIND + data;
        var stored := FromBe32(png[dataEnd..end]);
        var crc := ComputeCrc32(crcInput);
        return stored == crc;
      }
      cursor := end;
      if chunkType == IEND {
        return false;
      }
    }
    FirstAt(png, cursor, PIN_KIND);
    return false;
  }

  /** The copying loop both writers run: every chunk through the end chunk, with the new one put in before that. */
  method CopyInserting(png: seq<byte>, kind: seq<byte>, data: seq<byte>, crc: u32, truncated: PngError)
    returns (result: Result<seq<byte>, PngError>)
    requires IsPng(png) && |kind| == 4 && |data| < U32_LIMIT && crc == Crc32(kind + data)
    ensures result == InsertBeforeEnd(png, Checked(kind, data), truncated)
  {
    hide FromBe32, Be32, Walk, RawAll, Crc32, Insert, Front;
    var output := SIGNATURE;
    var cursor := |SIGNATURE|;
    var inserted := false;
    ghost var new_ := Checked(kind, data);
    ghost var done: seq<Chunk> := [];
    NothingWritten(Walk(png[cursor..]));
    while cursor + 12 <= |png|
      invariant |SIGNATURE| <= cursor <= |png|
      invariant !inserted && output == SIGNATURE + RawAll(done)
      invariant Chunks(png) == Walk(png[cursor..]).AfterAll(done)
      decreases |png| - cursor
    {
      AtCursor(png, cursor);
      var length := FromBe32(png[cursor..cursor + 4]);
      var end := cursor + 12 + length;
      if end > |png| {
        return Err(truncated);
      }
      SameChunk(png, cursor);
      var chunkType := png[cursor + 4..cursor + 8];
      ghost var c := ChunkAt(png, cursor);
      ghost var before := output;
      if chunkType == IEND && !inserted {
        output := output + Be32(|data|);
        output := output + kind;
        output := output + data;
        output := output + Be32(crc);
        inserted := true;
        assert output == before + Raw(new_);
      }
      output := output + png[cursor..end];
      CopyStep(done, c, new_, Walk(png[end..]));
      done := done + [c];
      cursor := end;
      if chunkType == IEND {
        assert before + Raw(new_) + Raw(c) == SIGNATURE + (RawAll(done[..|done| - 1]) + Raw(new_) + Raw(c));
        break;
      }
    }
    if !inserted {
      AtCursor(png, cursor);
      return Err(EndMissing);
    }
    return Ok(output);
  }

  lemma NothingWritten(w: Walked)
    ensures RawAll([]) == [] && w == w.AfterAll([])
  {
    assert [] + w.chunks == w.chunks;
  }

  lemma CopyStep(done: seq<Chunk>, c: Chunk, new_: Chunk, rest: Walked)
    ensures (done + [c])[..|done + [c]| - 1] == done
    ensures RawAll(done + [c]) == RawAll(done) + Raw(c)
    ensures RawAll(Insert(done + [c], new_)) == RawAll(done) + Raw(new_) + Raw(c)
    ensures rest.After(c).AfterAll(done) == rest.AfterAll(done + [c])
  {
    hide Raw;
    RawAllAppend(done, [c]);
    RawAllAppend(done, [new_, c]);
    assert [new_, c][1..] == [c];
    assert (done + [c])[..|done|] == done;
    assert done + ([c] + rest.chunks) == done + [c] + rest.chunks;
  }

  method InjectKeyChunk(suite: Suite, valid: Validator, png: seq<byte>, key: seq<byte>)
    returns (result: Result<seq<byte>, PngError>)
    ensures result == InjectKey(suite, valid, png, key)
  {
    hide InsertBeforeEnd, Crc32, KeyData, Checked;
    if !(SIGNATURE <= png) {
      return Err(NotPng);
    }
    if !valid(key) {
      return Err(BadCapsule);
    }
    var data := KeyData(suite, key);
    var crc := ComputeCrc32(KEY_KIND + data);
    result := CopyInserting(png, KEY_KIND, data, crc, CardDecode);
  }

  method AddPinMarker(png: seq<byte>) returns (result: Result<seq<byte>, PngError>)
    ensures result == AddMarker(png)
  {
    hide InsertBeforeEnd, Crc32, Marked, Checked;
    var present := MarkerPresent(png);
    if present {
      return Ok(png);
    }
    if !(SIGNATURE <= png) {
      return Err(NotPng);
    }
    var crc := ComputeCrc32(PIN_KIND + PIN_DATA);
    result := CopyInserting(png, PIN_KIND, PIN_DATA, crc, FileTruncated);
  }
}
