/** The chunk layout of section 3.2 of RFC 2083, as both walkers of the repository read it. */
module Png {
  import opened Bytes
  import opened Crc
  import opened CrcAnswers

  const SIGNATURE: seq<byte> := [0x89, 0x50, 0x4e, 0x47, 0x0d, 0x0a, 0x1a, 0x0a]
  const IEND: seq<byte> := [0x49, 0x45, 0x4e, 0x44]

  // ----- big-endian lengths

  function Reversed4(s: seq<byte>): (r: seq<byte>)
    requires |s| == 4
    ensures |r| == 4
  {
    [s[3], s[2], s[1], s[0]]
  }

  function Be32(n: u32): (s: seq<byte>)
    ensures |s| == 4
  {
    Reversed4(Le32(n))
  }

  function FromBe32(s: seq<byte>): u32
    requires |s| == 4
  {
    FromLe32(Reversed4(s))
  }

  lemma Be32RoundTrip(n: u32)
    ensures FromBe32(Be32(n)) == n
  {
    hide Le, FromLe;
    assert Reversed4(Reversed4(Le32(n))) == Le32(n);
    Le32RoundTrip(n);
  }

  lemma Be32Canonical(s: seq<byte>)
    requires |s| == 4
    ensures Be32(FromBe32(s)) == s
  {
    hide Le, FromLe;
    LeOfFromLe(Reversed4(s));
    assert Reversed4(Reversed4(s)) == s;
  }

  /** Lengths are in network byte order: the highest byte comes first. */
  lemma NetworkOrder(a: byte, b: byte, c: byte, d: byte)
    ensures FromBe32([a, b, c, d]) as int == ((a * 256 + b) * 256 + c) * 256 + d
  {
    hide FromLe;
    var s: seq<byte> := [d, c, b, a];
    LittleEndian(s);
    LittleEndian(s[..2]);
    LittleEndian(s[2..]);
  }

  // ----- chunks

  datatype AnyChunk = Chunk(kind: seq<byte>, data: seq<byte>, crc: seq<byte>) {
    predicate Fits() {
      |kind| == 4 && |crc| == 4 && |data| < U32_LIMIT
    }
  }

  type Chunk = c: AnyChunk | c.Fits() witness Chunk(IEND, [], [0, 0, 0, 0])

  /** Length, type, data, check value. */
  function Raw(c: Chunk): (r: seq<byte>)
    ensures |r| == 12 + |c.data|
  {
    Be32(|c.data|) + c.kind + c.data + c.crc
  }

  function RawAll(chunks: seq<Chunk>): seq<byte> {
    if chunks == [] then [] else Raw(chunks[0]) + RawAll(chunks[1..])
  }

  lemma {:induction false} RawAllAppend(a: seq<Chunk>, b: seq<Chunk>)
    ensures RawAll(a + b) == RawAll(a) + RawAll(b)
  {
    hide Raw;
    if a == [] {
      assert a + b == b;
    } else {
      assert (a + b)[1..] == a[1..] + b;
      RawAllAppend(a[1..], b);
    }
  }

  /** A chunk whose check value is that of its type and data. */
  function Checked(kind: seq<byte>, data: seq<byte>): (c: Chunk)
    requires |kind| == 4 && |data| < U32_LIMIT
    ensures c.kind == kind && c.data == data && Intact(c)
  {
    Chunk(kind, data, Be32(Crc32(kind + data)))
  }

  predicate Intact(c: Chunk) {
    c.crc == Be32(Crc32(c.kind + c.data))
  }

  /** Damage confined to four consecutive bytes of the type and data is always noticed. */
  lemma DamageNoticed(c: Chunk, d: Chunk, before: seq<byte>, x: seq<byte>, y: seq<byte>, after: seq<byte>)
    requires Intact(c) && c.crc == d.crc
    requires c.kind + c.data == before + x + after && d.kind + d.data == before + y + after
    requires |x| == |y| <= 4 && x != y
    ensures !Intact(d)
  {
    hide Crc32, FromBe32, Be32;
    CrcSeparates(before, x, y, after);
    Be32RoundTrip(Crc32(before + x + after));
    Be32RoundTrip(Crc32(before + y + after));
  }

  // ----- the walk

  /** Why a walk stopped: after the end chunk, with fewer than 12 bytes left, or at a chunk longer than the file. */
  datatype Stop = AtEnd | Exhausted | Truncated

  datatype Walked = Walked(chunks: seq<Chunk>, stop: Stop) {
    function After(c: Chunk): Walked {
      Walked([c] + chunks, stop)
    }

    function AfterAll(cs: seq<Chunk>): Walked {
      Walked(cs + chunks, stop)
    }
  }

  predicate Whole(s: seq<byte>) {
    |s| >= 12 && 12 + FromBe32(s[..4]) <= |s|
  }

  function FrontSize(s: seq<byte>): (n: nat)
    requires |s| >= 4
    ensures n >= 12
  {
    12 + FromBe32(s[..4])
  }

  function Front(s: seq<byte>): (c: Chunk)
    requires Whole(s)
  {
    var n := FromBe32(s[..4]);
    Chunk(s[4..8], s[8..8 + n], s[8 + n..12 + n])
  }

  function Walk(s: seq<byte>): Walked
    decreases |s|
  {
    if |s| < 12 then Walked([], Exhausted)
    else if !Whole(s) then Walked([], Truncated)
    else if Front(s).kind == IEND then Walked([Front(s)], AtEnd)
    else Walk(s[FrontSize(s)..]).After(Front(s))
  }

  lemma FrontIsRaw(s: seq<byte>)
    requires Whole(s)
    ensures Raw(Front(s)) == s[..FrontSize(s)] && s == Raw(Front(s)) + s[FrontSize(s)..]
  {
    hide FromBe32, Be32;
    var n := FromBe32(s[..4]);
    Be32Canonical(s[..4]);
    assert s[..4] + s[4..8] == s[..8];
    assert s[..8] + s[8..8 + n] == s[..8 + n];
    assert s[..8 + n] + s[8 + n..12 + n] == s[..12 + n];
  }

  lemma RawIsFront(c: Chunk, rest: seq<byte>)
    ensures var s := Raw(c) + rest; Whole(s) && FrontSize(s) == 12 + |c.data| && Front(s) == c
    ensures (Raw(c) + rest)[12 + |c.data|..] == rest
  {
    hide FromBe32, Be32;
    var s, n := Raw(c) + rest, |c.data|;
    Be32RoundTrip(n);
    assert s == Be32(n) + (c.kind + c.data + c.crc + rest);
    assert s[..4] == Be32(n);
    assert s[4..8] == c.kind && s[8..8 + n] == c.data && s[8 + n..12 + n] == c.crc;
  }

  /** The walked chunks are what the file starts with, byte for byte. */
  lemma {:induction false} WalkReads(s: seq<byte>)
    ensures RawAll(Walk(s).chunks) <= s
    decreases |s|
  {
    hide Raw, FromBe32;
    if Whole(s) {
      FrontIsRaw(s);
      if Front(s).kind == IEND {
        assert RawAll([Front(s)]) == Raw(Front(s)) + RawAll([]);
      } else {
        var rest := s[FrontSize(s)..];
        WalkReads(rest);
        var cs := Walk(rest).chunks;
        assert ([Front(s)] + cs)[1..] == cs;
      }
    }
  }

  predicate NoEnd(chunks: seq<Chunk>) {
    forall i :: 0 <= i < |chunks| ==> chunks[i].kind != IEND
  }

  predicate Closed(chunks: seq<Chunk>) {
    |chunks| > 0 && NoEnd(chunks[..|chunks| - 1]) && chunks[|chunks| - 1].kind == IEND
  }

  /** A walk that reached the end chunk saw no earlier one; any other walk saw none. */
  lemma {:induction false} WalkShape(s: seq<byte>)
    ensures if Walk(s).stop == AtEnd then Closed(Walk(s).chunks) else NoEnd(Walk(s).chunks)
    decreases |s|
  {
    hide FromBe32;
    if Whole(s) && Front(s).kind != IEND {
      WalkShape(s[FrontSize(s)..]);
    }
  }

  lemma WalkFront(c: Chunk, rest: seq<byte>)
    ensures Walk(Raw(c) + rest) == if c.kind == IEND then Walked([c], AtEnd) else Walk(rest).After(c)
  {
    hide Raw, FromBe32, Front, Whole;
    RawIsFront(c, rest);
  }

  lemma {:induction false} WalkWritten(chunks: seq<Chunk>, rest: seq<byte>)
    requires NoEnd(chunks)
    ensures Walk(RawAll(chunks) + rest) == Walk(rest).AfterAll(chunks)
  {
    hide Raw, Walk;
    if chunks == [] {
      assert RawAll(chunks) + rest == rest;
      assert [] + Walk(rest).chunks == Walk(rest).chunks;
    } else {
      var c, more := chunks[0], chunks[1..];
      var tail := RawAll(more) + rest;
      assert RawAll(chunks) + rest == Raw(c) + tail;
      WalkFront(c, tail);
      WalkWritten(more, rest);
      assert [c] + (more + Walk(rest).chunks) == chunks + Walk(rest).chunks;
    }
  }

  /** Any chunk list with one end chunk, at the end, is read back whatever follows it. */
  lemma WalkWrittenClosed(chunks: seq<Chunk>, rest: seq<byte>)
    requires Closed(chunks)
    ensures Walk(RawAll(chunks) + rest) == Walked(chunks, AtEnd)
  {
    hide Raw, Walk;
    var init, end := chunks[..|chunks| - 1], chunks[|chunks| - 1];
    assert chunks == init + [end];
    RawAllAppend(init, [end]);
    assert RawAll([end]) == Raw(end) + RawAll([]);
    WalkWritten(init, Raw(end) + rest);
    WalkFront(end, rest);
    assert RawAll(chunks) + rest == RawAll(init) + (Raw(end) + rest);
  }

  // ----- files, byte by byte

  /** The layout of a chunk whose length is given by its four bytes. */
  lemma ChunkBytes(c: Chunk, length: seq<byte>)
    requires |length| == 4
    requires ((length[0] as int * 256 + length[1]) * 256 + length[2]) * 256 + length[3] == |c.data|
    ensures Raw(c) == length + c.kind + c.data + c.crc
  {
    hide FromBe32, Be32;
    assert length == [length[0], length[1], length[2], length[3]];
    NetworkOrder(length[0], length[1], length[2], length[3]);
    Be32Canonical(length);
  }

  /** An ordinary image: a 13-byte header chunk, any further chunks, an end chunk, and whatever follows. */
  lemma OrdinaryFile(header: Chunk, more: seq<Chunk>, endCrc: seq<byte>, rest: seq<byte>)
    requires header.kind != IEND && |header.data| == 13 && NoEnd(more) && |endCrc| == 4
    ensures var first := [0, 0, 0, 13] + header.kind + header.data + header.crc;
            var last := [0, 0, 0, 0] + IEND + endCrc;
            Walk(first + RawAll(more) + last + rest) == Walked([header] + more + [Chunk(IEND, [], endCrc)], AtEnd)
  {
    hide Raw, Walk;
    var end: Chunk := Chunk(IEND, [], endCrc);
    var cs := [header] + more + [end];
    ChunkBytes(header, [0, 0, 0, 13]);
    ChunkBytes(end, [0, 0, 0, 0]);
    assert [0, 0, 0, 0] + IEND + [] + endCrc == [0, 0, 0, 0] + IEND + endCrc;
    assert RawAll([end]) == Raw(end) + RawAll([]);
    assert cs == [header] + (more + [end]) && cs[1..] == more + [end];
    RawAllAppend(more, [end]);
    assert cs[..|cs| - 1] == [header] + more;
    WalkWrittenClosed(cs, rest);
    assert RawAll(cs) == Raw(header) + RawAll(more) + Raw(end);
  }

  /** The end chunk of a written file is the twelve bytes every image ends with. */
  lemma EndChunkBytes()
    ensures Raw(Checked(IEND, [])) == [0, 0, 0, 0, 0x49, 0x45, 0x4e, 0x44, 0xae, 0x42, 0x60, 0x82]
  {
    hide FromBe32, Be32, Crc32;
    assert IEND + [] == IEND;
    EndChecksum();
    NetworkOrder(0xae, 0x42, 0x60, 0x82);
    Be32Canonical([0xae, 0x42, 0x60, 0x82]);
    ChunkBytes(Checked(IEND, []), [0, 0, 0, 0]);
  }

  // ----- finding and inserting

  function First(chunks: seq<Chunk>, kind: seq<byte>): Option<Chunk> {
    if chunks == [] then None else if chunks[0].kind == kind then Some(chunks[0]) else First(chunks[1..], kind)
  }

  lemma {:induction false} FirstAppend(a: seq<Chunk>, b: seq<Chunk>, kind: seq<byte>)
    ensures First(a + b, kind) == if First(a, kind).Some? then First(a, kind) else First(b, kind)
  {
    if a == [] {
      assert a + b == b;
    } else {
      assert (a + b)[1..] == a[1..] + b;
      FirstAppend(a[1..], b, kind);
    }
  }

  /** The chunks with `c` put in just before the last. */
  function Insert(chunks: seq<Chunk>, c: Chunk): seq<Chunk>
    requires |chunks| > 0
  {
    chunks[..|chunks| - 1] + [c, chunks[|chunks| - 1]]
  }

  lemma FirstInsert(chunks: seq<Chunk>, c: Chunk, kind: seq<byte>)
    requires Closed(chunks) && kind != IEND
    ensures First(Insert(chunks, c), kind) ==
            if First(chunks, kind).Some? then First(chunks, kind) else if c.kind == kind then Some(c) else None
  {
    var init, end := chunks[..|chunks| - 1], chunks[|chunks| - 1];
    assert chunks == init + [end];
    FirstAppend(init, [end], kind);
    FirstAppend(init, [c, end], kind);
    assert [c, end][1..] == [end] && [end][1..] == [];
  }

  predicate IsPng(png: seq<byte>) {
    SIGNATURE <= png
  }

  function Chunks(png: seq<byte>): Walked
    requires IsPng(png)
  {
    Walk(png[|SIGNATURE|..])
  }

  datatype PngError = NotPng | CardDecode | FileTruncated | EndMissing | BadCapsule

  /** The file with one more chunk before its end chunk; bytes after the end chunk are not copied. */
  function InsertBeforeEnd(png: seq<byte>, c: Chunk, truncated: PngError): Result<seq<byte>, PngError>
    requires IsPng(png)
  {
    var w := Chunks(png);
    WalkShape(png[|SIGNATURE|..]);
    match w.stop
    case Truncated => Err(truncated)
    case Exhausted => Err(EndMissing)
    case AtEnd => Ok(SIGNATURE + RawAll(Insert(w.chunks, c)))
  }

  /** The written file holds the chunks of the old one, in order, and the new one before the last. */
  lemma InsertedChunks(png: seq<byte>, c: Chunk, truncated: PngError)
    requires IsPng(png) && c.kind != IEND && InsertBeforeEnd(png, c, truncated).Ok?
    ensures var q := InsertBeforeEnd(png, c, truncated).value;
            && IsPng(q)
            && Chunks(png).stop == AtEnd && Closed(Chunks(png).chunks)
            && Chunks(q) == Walked(Insert(Chunks(png).chunks, c), AtEnd)
            && q == SIGNATURE + RawAll(Chunks(q).chunks)
  {
    hide Walk, RawAll;
    WalkShape(png[|SIGNATURE|..]);
    var cs := Chunks(png).chunks;
    var more := Insert(cs, c);
    assert more[..|more| - 1] == cs[..|cs| - 1] + [c];
    WalkWrittenClosed(more, []);
    assert RawAll(more) + [] == RawAll(more);
    assert (SIGNATURE + RawAll(more))[|SIGNATURE|..] == RawAll(more);
  }

  lemma InsertedSize(chunks: seq<Chunk>, c: Chunk)
    requires |chunks| > 0
    ensures |RawAll(Insert(chunks, c))| == |RawAll(chunks)| + 12 + |c.data|
  {
    hide Raw;
    var init, end := chunks[..|chunks| - 1], chunks[|chunks| - 1];
    assert chunks == init + [end];
    RawAllAppend(init, [end]);
    RawAllAppend(init, [c, end]);
    assert [c, end][1..] == [end];
  }
}
