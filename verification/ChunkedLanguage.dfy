/**
  The inputs the decoder accepts: exactly the chunked messages of section 4.1 of RFC 7230
  whose extensions and trailer lines hold no CR.
 */
module ChunkedLanguage {
  import opened ChunkedMachine
  import opened Text
  import ChunkedFilter

  /** chunk = chunk-size [ chunk-ext ] CRLF chunk-data CRLF; an extension starts with its semicolon. */
  datatype Chunk = Chunk(size: string, ext: string, data: string)

  /** The chunks, the last chunk with its extension, and the trailer lines. */
  datatype Message = Message(chunks: seq<Chunk>, last: string, lastExt: string, trailers: seq<string>)

  const CRLF := "\r\n"

  predicate IsHex(text: string) {
    text != [] && forall i | 0 <= i < |text| :: IsHexDigit(text[i])
  }

  function HexValue(text: string): nat
    requires forall i | 0 <= i < |text| :: IsHexDigit(text[i])
  {
    if text == [] then 0 else HexValue(text[..|text| - 1]) * 16 + HexDigit(text[|text| - 1])
  }

  predicate IsExtension(ext: string) {
    ext != [] ==> ext[0] == ';' && '\r' !in ext
  }

  predicate IsTrailer(line: string) {
    line != [] && '\r' !in line
  }

  predicate WellFormedChunk(c: Chunk) {
    IsHex(c.size) && IsExtension(c.ext) && 0 < |c.data| < LIMIT && HexValue(c.size) == |c.data|
  }

  predicate WellFormed(m: Message) {
    && (forall i | 0 <= i < |m.chunks| :: WellFormedChunk(m.chunks[i]))
    && IsHex(m.last) && HexValue(m.last) == 0 && IsExtension(m.lastExt)
    && (forall i | 0 <= i < |m.trailers| :: IsTrailer(m.trailers[i]))
  }

  function SizeLine(size: string, ext: string): string { size + (ext + CRLF) }

  function EncodeChunk(c: Chunk): string { SizeLine(c.size, c.ext) + (c.data + CRLF) }

  function EncodeChunks(chunks: seq<Chunk>): string {
    if chunks == [] then "" else EncodeChunks(chunks[..|chunks| - 1]) + EncodeChunk(chunks[|chunks| - 1])
  }

  function EncodeTrailers(lines: seq<string>): string {
    if lines == [] then "" else EncodeTrailers(lines[..|lines| - 1]) + (lines[|lines| - 1] + CRLF)
  }

  function Encode(m: Message): string {
    EncodeChunks(m.chunks) + (SizeLine(m.last, m.lastExt) + (EncodeTrailers(m.trailers) + CRLF))
  }

  /** What a chunked message carries. */
  function Payload(chunks: seq<Chunk>): string {
    if chunks == [] then "" else Payload(chunks[..|chunks| - 1]) + chunks[|chunks| - 1].data
  }

  // ----- reading a message

  /** A chunk size is accepted exactly when its value is below 2^63. */
  lemma {:induction false} ReadSize(d: Decoder, size: string, data: string, k: nat)
    requires Valid(d) && d.state == PREV_CHUNK_SIZE
    requires IsHex(size) && At(data, k, size)
    ensures if HexValue(size) < LIMIT then
              var d' := d.(state := CHUNK_SIZE, chunkSize := HexValue(size));
              Valid(d') && Resume(d, data, k) == Resume(d', data, k + |size|)
            else Resume(d, data, k).aborted
    decreases |size|
  {
    hide Resume, Valid, HexValue;
    var init, c := size[..|size| - 1], size[|size| - 1];
    assert size == init + [c];
    HexSnoc(init, c);
    AtSplit(data, k, init, [c]);
    AtHead(data, k + |init|, [c]);
    hide At, IsHexDigit;
    if init == [] {
      ReadFirstDigit(d, data, k);
    } else {
      ReadSize(d, init, data, k);
      if HexValue(init) < LIMIT {
        ReadSizeDigit(d.(state := CHUNK_SIZE, chunkSize := HexValue(init)), data, k + |init|);
      }
    }
  }

  lemma HexSnoc(init: string, c: char)
    requires IsHexDigit(c) && forall i | 0 <= i < |init| :: IsHexDigit(init[i])
    ensures HexValue(init + [c]) == HexValue(init) * 16 + HexDigit(c)
    ensures init == [] ==> HexValue(init + [c]) == HexDigit(c)
  {
    assert (init + [c])[..|init|] == init;
  }

  lemma ReadFirstDigit(d: Decoder, data: string, k: nat)
    requires Valid(d) && d.state == PREV_CHUNK_SIZE && k < |data| && IsHexDigit(data[k])
    ensures var d' := d.(state := CHUNK_SIZE, chunkSize := HexDigit(data[k]));
            Valid(d') && Resume(d, data, k) == Resume(d', data, k + 1)
  {
    hide Resume;
    TakeByte(d, data, k);
  }

  lemma ReadSizeDigit(d: Decoder, data: string, k: nat)
    requires Valid(d) && d.state == CHUNK_SIZE && k < |data| && IsHexDigit(data[k])
    ensures var n := d.chunkSize * 16 + HexDigit(data[k]);
            if n < LIMIT then Valid(d.(chunkSize := n)) && Resume(d, data, k) == Resume(d.(chunkSize := n), data, k + 1)
            else Resume(d, data, k).aborted
  {
    hide Resume, HighBits;
    TakeByte(d, data, k);
    GuardIsExact(d.chunkSize, HexDigit(data[k]));
  }

  /** Bytes without CR leave an extension or a trailer line where it is. */
  lemma {:induction false} Skip(d: Decoder, text: string, data: string, k: nat)
    requires Valid(d) && (d.state == CHUNK_EXTENSION || d.state == TRAILER)
    requires '\r' !in text && At(data, k, text)
    ensures Resume(d, data, k) == Resume(d, data, k + |text|)
    decreases |text|
  {
    hide Resume, At;
    if text != [] {
      assert text == [text[0]] + text[1..];
      AtSplit(data, k, [text[0]], text[1..]);
      AtHead(data, k, text);
      TakeByte(d, data, k);
      Skip(d, text[1..], data, k + 1);
    }
  }

  /** CRLF behind a chunk size or a trailer line. */
  lemma ReadCRLF(d: Decoder, data: string, k: nat)
    requires Valid(d) && (d.state == CHUNK_SIZE || d.state == CHUNK_EXTENSION || d.state == TRAILER)
    requires At(data, k, CRLF)
    ensures var d' := if d.state == TRAILER then d.(state := PREV_TRAILER)
                      else d.(chunkRemaining := d.chunkSize, state := if d.chunkSize == 0 then PREV_TRAILER else CHUNK);
            Valid(d') && Resume(d, data, k) == Resume(d', data, k + 2)
  {
    hide Resume;
    assert data[k] == data[k..k + 2][0] && data[k + 1] == data[k..k + 2][1];
    TakeByte(d, data, k);
    TakeByte(Advance(d, '\r').decoder, data, k + 1);
  }

  /** A size line with its extension, or the reason why it is refused. */
  lemma ReadSizeLine(d: Decoder, size: string, ext: string, data: string, k: nat)
    requires Valid(d) && d.state == PREV_CHUNK_SIZE
    requires IsHex(size) && IsExtension(ext) && At(data, k, SizeLine(size, ext))
    ensures var n := HexValue(size);
            if n < LIMIT then
              var d' := d.(chunkSize := n, chunkRemaining := n, state := if n == 0 then PREV_TRAILER else CHUNK);
              Valid(d') && Resume(d, data, k) == Resume(d', data, k + |SizeLine(size, ext)|)
            else Resume(d, data, k).aborted
  {
    hide Resume, At, Advance, Valid, HexValue;
    AtSplit(data, k, size, ext + CRLF);
    AtSplit(data, k + |size|, ext, CRLF);
    ReadSize(d, size, data, k);
    if HexValue(size) < LIMIT {
      var d1 := d.(state := CHUNK_SIZE, chunkSize := HexValue(size));
      if ext == [] {
        ReadCRLF(d1, data, k + |size|);
      } else {
        ReadExtension(d1, ext, data, k + |size|);
        ReadCRLF(d1.(state := CHUNK_EXTENSION), data, k + |size| + |ext|);
      }
    }
  }

  lemma ReadExtension(d: Decoder, ext: string, data: string, k: nat)
    requires Valid(d) && d.state == CHUNK_SIZE
    requires ext != [] && IsExtension(ext) && At(data, k, ext)
    ensures var d' := d.(state := CHUNK_EXTENSION);
            Valid(d') && Resume(d, data, k) == Resume(d', data, k + |ext|)
  {
    hide Resume, At;
    assert ext == [ext[0]] + ext[1..];
    AtSplit(data, k, [ext[0]], ext[1..]);
    AtHead(data, k, ext);
    TakeByte(d, data, k);
    Skip(d.(state := CHUNK_EXTENSION), ext[1..], data, k + 1);
  }

  lemma ReadChunk(d: Decoder, c: Chunk, data: string, k: nat)
    requires Valid(d) && d.state == PREV_CHUNK_SIZE
    requires WellFormedChunk(c) && At(data, k, EncodeChunk(c))
    ensures var d' := Decoder(PREV_CHUNK_SIZE, 0, 0, d.out + c.data);
            Resume(d, data, k) == Resume(d', data, k + |EncodeChunk(c)|)
  {
    hide Resume, At, Advance;
    var line := SizeLine(c.size, c.ext);
    AtSplit(data, k, line, c.data + CRLF);
    AtSplit(data, k + |line|, c.data, CRLF);
    ReadSizeLine(d, c.size, c.ext, data, k);
    var n := |c.data|;
    var d1 := d.(chunkSize := n, chunkRemaining := n, state := CHUNK);
    ChunkedFilter.ReadBody(d1, data, k + |line|, n);
    ChunkEnds(Decoder(PREV_CHUNK_CR, n, 0, d.out + c.data), data, k + |line| + n);
  }

  lemma ChunkEnds(d: Decoder, data: string, k: nat)
    requires Valid(d) && d.state == PREV_CHUNK_CR && At(data, k, CRLF)
    ensures Resume(d, data, k) == Resume(Decoder(PREV_CHUNK_SIZE, 0, 0, d.out), data, k + 2)
  {
    hide Resume;
    assert data[k] == data[k..k + 2][0] && data[k + 1] == data[k..k + 2][1];
    TakeByte(d, data, k);
    TakeByte(d.(state := PREV_CHUNK_LF), data, k + 1);
  }

  lemma {:induction false} ReadChunks(chunks: seq<Chunk>, data: string)
    requires forall i | 0 <= i < |chunks| :: WellFormedChunk(chunks[i])
    requires At(data, 0, EncodeChunks(chunks))
    ensures Resume(INIT, data, 0) ==
            Resume(Decoder(PREV_CHUNK_SIZE, 0, 0, Payload(chunks)), data, |EncodeChunks(chunks)|)
    decreases |chunks|
  {
    hide Resume, At, Advance, EncodeChunk, WellFormedChunk;
    if chunks != [] {
      var init, c := chunks[..|chunks| - 1], chunks[|chunks| - 1];
      AtSplit(data, 0, EncodeChunks(init), EncodeChunk(c));
      ReadChunks(init, data);
      ReadChunk(Decoder(PREV_CHUNK_SIZE, 0, 0, Payload(init)), c, data, |EncodeChunks(init)|);
    }
  }

  lemma {:induction false} ReadTrailers(d: Decoder, lines: seq<string>, data: string, k: nat)
    requires Valid(d) && d.state == PREV_TRAILER
    requires forall i | 0 <= i < |lines| :: IsTrailer(lines[i])
    requires At(data, k, EncodeTrailers(lines))
    ensures Resume(d, data, k) == Resume(d, data, k + |EncodeTrailers(lines)|)
    decreases |lines|
  {
    hide Resume, At, Advance, IsTrailer;
    if lines != [] {
      var init, line := lines[..|lines| - 1], lines[|lines| - 1];
      AtSplit(data, k, EncodeTrailers(init), line + CRLF);
      ReadTrailers(d, init, data, k);
      ReadTrailer(d, line, data, k + |EncodeTrailers(init)|);
    }
  }

  lemma ReadTrailer(d: Decoder, line: string, data: string, k: nat)
    requires Valid(d) && d.state == PREV_TRAILER && IsTrailer(line) && At(data, k, line + CRLF)
    ensures Resume(d, data, k) == Resume(d, data, k + |line| + 2)
  {
    hide Resume, At;
    AtSplit(data, k, line, CRLF);
    assert line == [line[0]] + line[1..];
    AtSplit(data, k, [line[0]], line[1..]);
    AtHead(data, k, line);
    TakeByte(d, data, k);
    Skip(d.(state := TRAILER), line[1..], data, k + 1);
    ReadCRLF(d.(state := TRAILER), data, k + |line|);
  }

  lemma ReadEnd(d: Decoder, data: string, k: nat)
    requires Valid(d) && d.state == PREV_TRAILER && At(data, k, CRLF)
    ensures Resume(d, data, k) == Fed(d.(state := CHUNKS_COMPLETE), k + 2, false)
  {
    hide Resume;
    assert data[k] == data[k..k + 2][0] && data[k + 1] == data[k..k + 2][1];
    TakeByte(d, data, k);
    TakeByte(d.(state := PREV_END_LF), data, k + 1);
    AtTheEnd(d.(state := CHUNKS_COMPLETE), data, k + 2);
  }

  /** A well-formed message is decoded to its chunks joined, and decoding stops right behind it. */
  lemma DecodesMessage(m: Message, rest: string)
    requires WellFormed(m)
    ensures Feed(INIT, Encode(m) + rest) ==
            Fed(Decoder(CHUNKS_COMPLETE, 0, 0, Payload(m.chunks)), |Encode(m)|, false)
  {
    hide Resume, At, Advance, WellFormedChunk, IsTrailer, HexValue, IsHex;
    var data := Encode(m) + rest;
    var last, tail := SizeLine(m.last, m.lastExt), EncodeTrailers(m.trailers) + CRLF;
    var a := |EncodeChunks(m.chunks)|;
    Whole(Encode(m), rest);
    AtSplit(data, 0, EncodeChunks(m.chunks), last + tail);
    AtSplit(data, a, last, tail);
    AtSplit(data, a + |last|, EncodeTrailers(m.trailers), CRLF);
    ReadChunks(m.chunks, data);
    var d := Decoder(PREV_CHUNK_SIZE, 0, 0, Payload(m.chunks));
    ReadSizeLine(d, m.last, m.lastExt, data, a);
    ReadTrailers(d.(state := PREV_TRAILER), m.trailers, data, a + |last|);
    ReadEnd(d.(state := PREV_TRAILER), data, a + |last| + |EncodeTrailers(m.trailers)|);
  }

  lemma Whole(text: string, rest: string)
    ensures At(text + rest, 0, text)
  {
  }

  /** A message byte by byte: ten bytes of data behind an extension, a trailer line, and more behind them. */
  lemma Sample(data: string, rest: string)
    requires |data| == 10
    ensures var text := ("0A;a=b\r\n" + (data + "\r\n")) + ("000\r\n" + ("X: y\r\n" + "\r\n"));
            Feed(INIT, text + rest) == Fed(Decoder(CHUNKS_COMPLETE, 0, 0, data), |text|, false)
  {
    var c := Chunk("0A", ";a=b", data);
    var m := Message([c], "000", "", ["X: y"]);
    hide Resume;
    SampleIs(c, m);
    DecodesMessage(m, rest);
  }

  lemma SampleIs(c: Chunk, m: Message)
    requires |c.data| == 10 && c == Chunk("0A", ";a=b", c.data) && m == Message([c], "000", "", ["X: y"])
    ensures WellFormed(m) && Payload(m.chunks) == c.data
    ensures Encode(m) == ("0A;a=b\r\n" + (c.data + "\r\n")) + ("000\r\n" + ("X: y\r\n" + "\r\n"))
  {
    SampleValues();
    hide HexValue, IsHex;
    assert "0A" + (";a=b" + CRLF) == "0A;a=b\r\n" && "000" + ("" + CRLF) == "000\r\n" && "X: y" + CRLF == "X: y\r\n";
    assert [c][..0] == [] && [c][0] == c;
    assert "" + EncodeChunk(c) == EncodeChunk(c) && "" + c.data == c.data;
    assert EncodeChunks([]) == "" && Payload([]) == "" && EncodeTrailers([]) == "";
    assert ["X: y"][..0] == [] && "" + ("X: y" + CRLF) == "X: y" + CRLF;
  }

  lemma SampleValues()
    ensures IsHex("0A") && HexValue("0A") == 10 && IsHex("000") && HexValue("000") == 0
  {
    HexSnoc("0", 'A');
    HexSnoc("", '0');
    HexSnoc("00", '0');
    HexSnoc("0", '0');
    assert "" + ['0'] == "0" && "0" + ['A'] == "0A" && "0" + ['0'] == "00" && "00" + ['0'] == "000";
  }
}
