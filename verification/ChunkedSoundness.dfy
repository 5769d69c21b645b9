/** Nothing but chunked messages is accepted, and the output is their payload. */
module ChunkedSoundness {
  import opened ChunkedMachine
  import opened ChunkedFilter
  import opened ChunkedLanguage
  import opened Text

  /** A message read up to some point: whole chunks, then the pieces of the current one. */
  datatype Partial =
    Partial(chunks: seq<Chunk>, size: string, ext: string, body: string, trailers: seq<string>, line: string)

  /** The text behind the last whole chunk. */
  function Tail(state: State, p: Partial): string {
    match state
    case CHUNK_SIZE => p.size
    case CHUNK_EXTENSION => p.size + p.ext
    case PREV_CHUNK_SIZE_LF => p.size + (p.ext + "\r")
    case CHUNK => SizeLine(p.size, p.ext) + p.body
    case PREV_CHUNK_CR => SizeLine(p.size, p.ext) + p.body
    case PREV_CHUNK_LF => SizeLine(p.size, p.ext) + (p.body + "\r")
    case PREV_TRAILER => SizeLine(p.size, p.ext) + EncodeTrailers(p.trailers)
    case TRAILER => SizeLine(p.size, p.ext) + (EncodeTrailers(p.trailers) + p.line)
    case PREV_TRAILER_LF => SizeLine(p.size, p.ext) + (EncodeTrailers(p.trailers) + (p.line + "\r"))
    case PREV_END_LF => SizeLine(p.size, p.ext) + (EncodeTrailers(p.trailers) + "\r")
    case CHUNKS_COMPLETE => SizeLine(p.size, p.ext) + (EncodeTrailers(p.trailers) + CRLF)
    case _ => ""
  }

  predicate AllChunks(chunks: seq<Chunk>) {
    forall i | 0 <= i < |chunks| :: WellFormedChunk(chunks[i])
  }

  predicate AllTrailers(lines: seq<string>) {
    forall i | 0 <= i < |lines| :: IsTrailer(lines[i])
  }

  predicate InChunk(state: State) {
    state in {CHUNK, PREV_CHUNK_CR, PREV_CHUNK_LF}
  }

  /** The decoder's fields are what the partial message says. */
  predicate Consistent(d: Decoder, p: Partial) {
    && AllChunks(p.chunks) && AllTrailers(p.trailers)
    && d.out == Payload(p.chunks) + p.body
    && (d.state != PREV_CHUNK_SIZE ==> IsHex(p.size) && HexValue(p.size) == d.chunkSize && IsExtension(p.ext))
    && (d.state == CHUNK_SIZE ==> p.ext == "")
    && (d.state == CHUNK_EXTENSION ==> p.ext != "")
    && (if InChunk(d.state) then |p.body| + d.chunkRemaining == d.chunkSize else p.body == "")
    && (d.state in {PREV_CHUNK_SIZE, CHUNK_SIZE, CHUNK_EXTENSION, PREV_CHUNK_SIZE_LF} ==> p.trailers == [])
    && (d.state in {TRAILER, PREV_TRAILER_LF} ==> IsTrailer(p.line))
  }

  predicate Explains(d: Decoder, text: string, p: Partial) {
    Consistent(d, p) && text == EncodeChunks(p.chunks) + Tail(d.state, p)
  }

  ghost predicate Explained(d: Decoder, text: string) {
    exists p :: Explains(d, text, p)
  }

  // ----- one byte

  lemma SizeByte(d: Decoder, text: string, p: Partial, c: char)
    requires Valid(d) && d.state in {PREV_CHUNK_SIZE, CHUNK_SIZE} && Explains(d, text, p)
    requires Advance(d, c).Next?
    ensures Explained(Advance(d, c).decoder, text + [c])
  {
    hide HighBits, AllChunks, AllTrailers, EncodeChunks, Payload, HexValue;
    var done, d' := EncodeChunks(p.chunks), Advance(d, c).decoder;
    if d.state == PREV_CHUNK_SIZE {
      HexSnoc("", c);
      assert "" + [c] == [c] && done + "" == done;
      assert Explains(d', text + [c], p.(size := [c], ext := ""));
    } else if IsHexDigit(c) {
      HexSnoc(p.size, c);
      Assoc(done, p.size, [c]);
      assert Explains(d', text + [c], p.(size := p.size + [c]));
    } else if c == ';' {
      Assoc(done, p.size, [c]);
      assert Explains(d', text + [c], p.(ext := [c]));
    } else {
      Assoc(done, p.size, [c]);
      assert p.ext + "\r" == [c];
      assert Explains(d', text + [c], p);
    }
  }

  lemma LineByte(d: Decoder, text: string, p: Partial, c: char)
    requires Valid(d) && d.state in {CHUNK_EXTENSION, PREV_CHUNK_SIZE_LF} && Explains(d, text, p)
    requires Advance(d, c).Next?
    ensures Explained(Advance(d, c).decoder, text + [c])
  {
    hide AllChunks, AllTrailers, EncodeChunks, Payload, HexValue;
    var done, d' := EncodeChunks(p.chunks), Advance(d, c).decoder;
    if d.state == CHUNK_EXTENSION {
      Assoc(done, p.size + p.ext, [c]);
      Assoc(p.size, p.ext, [c]);
      if c == '\r' {
        assert Explains(d', text + [c], p);
      } else {
        assert Explains(d', text + [c], p.(ext := p.ext + [c]));
      }
    } else {
      Assoc(done, p.size + (p.ext + "\r"), [c]);
      Assoc(p.size, p.ext + "\r", [c]);
      Assoc(p.ext, "\r", [c]);
      assert "\r" + [c] == CRLF;
      var line := SizeLine(p.size, p.ext);
      assert line + "" == line && line + EncodeTrailers([]) == line;
      assert Explains(d', text + [c], p);
    }
  }

  lemma ChunkByte(d: Decoder, text: string, p: Partial, c: char)
    requires Valid(d) && InChunk(d.state) && Explains(d, text, p)
    requires Advance(d, c).Next?
    ensures Explained(Advance(d, c).decoder, text + [c])
  {
    hide AllChunks, AllTrailers, EncodeChunks, Payload, HexValue, SizeLine;
    var done, line, d' := EncodeChunks(p.chunks), SizeLine(p.size, p.ext), Advance(d, c).decoder;
    if d.state == CHUNK {
      Assoc(done, line + p.body, [c]);
      Assoc(line, p.body, [c]);
      Assoc(Payload(p.chunks), p.body, [c]);
      assert Explains(d', text + [c], p.(body := p.body + [c]));
    } else if d.state == PREV_CHUNK_CR {
      Assoc(done, line + p.body, [c]);
      Assoc(line, p.body, [c]);
      assert Explains(d', text + [c], p);
    } else {
      ChunkDone(d, text, p);
    }
  }

  lemma ChunkDone(d: Decoder, text: string, p: Partial)
    requires Valid(d) && d.state == PREV_CHUNK_LF && Explains(d, text, p)
    ensures Explained(Decoder(PREV_CHUNK_SIZE, 0, 0, d.out), text + "\n")
  {
    hide SizeLine, HexValue;
    var done, line, c := EncodeChunks(p.chunks), SizeLine(p.size, p.ext), Chunk(p.size, p.ext, p.body);
    var chunks := p.chunks + [c];
    assert chunks[..|p.chunks|] == p.chunks;
    Assoc(done, line + (p.body + "\r"), "\n");
    Assoc(line, p.body + "\r", "\n");
    Assoc(p.body, "\r", "\n");
    assert "\r" + "\n" == CRLF;
    assert EncodeChunks(chunks) == done + EncodeChunk(c);
    assert EncodeChunks(chunks) + "" == EncodeChunks(chunks);
    assert Payload(chunks) + "" == d.out;
    assert Explains(Decoder(PREV_CHUNK_SIZE, 0, 0, d.out), text + "\n",
                    p.(chunks := chunks, body := "", trailers := []));
  }

  lemma TrailerByte(d: Decoder, text: string, p: Partial, c: char)
    requires Valid(d) && BehindLastChunk(d) && d.state != CHUNKS_COMPLETE && Explains(d, text, p)
    requires Advance(d, c).Next?
    ensures Explained(Advance(d, c).decoder, text + [c])
  {
    hide AllChunks, AllTrailers, EncodeChunks, Payload, HexValue, SizeLine, EncodeTrailers;
    var done, line, lines, d' :=
      EncodeChunks(p.chunks), SizeLine(p.size, p.ext), EncodeTrailers(p.trailers), Advance(d, c).decoder;
    if d.state == PREV_TRAILER {
      Assoc(done, line + lines, [c]);
      Assoc(line, lines, [c]);
      assert Explains(d', text + [c], p.(line := [c]));
    } else if d.state == TRAILER {
      Assoc(done, line + (lines + p.line), [c]);
      Assoc(line, lines + p.line, [c]);
      Assoc(lines, p.line, [c]);
      if c == '\r' {
        assert Explains(d', text + [c], p);
      } else {
        assert Explains(d', text + [c], p.(line := p.line + [c]));
      }
    } else if d.state == PREV_END_LF {
      Assoc(done, line + (lines + "\r"), [c]);
      Assoc(line, lines + "\r", [c]);
      Assoc(lines, "\r", [c]);
      assert "\r" + [c] == CRLF;
      assert Explains(d', text + [c], p);
    } else {
      TrailerDone(d, text, p);
    }
  }

  lemma TrailerDone(d: Decoder, text: string, p: Partial)
    requires Valid(d) && d.state == PREV_TRAILER_LF && Explains(d, text, p)
    ensures Explained(d.(state := PREV_TRAILER), text + "\n")
  {
    hide SizeLine, HexValue, EncodeChunks, Payload, AllChunks;
    var done, line, lines := EncodeChunks(p.chunks), SizeLine(p.size, p.ext), EncodeTrailers(p.trailers);
    var trailers := p.trailers + [p.line];
    assert trailers[..|p.trailers|] == p.trailers;
    Assoc(done, line + (lines + (p.line + "\r")), "\n");
    Assoc(line, lines + (p.line + "\r"), "\n");
    Assoc(lines, p.line + "\r", "\n");
    Assoc(p.line, "\r", "\n");
    assert "\r" + "\n" == CRLF;
    assert Explains(d.(state := PREV_TRAILER), text + "\n", p.(trailers := trailers));
  }

  lemma ByteExplained(d: Decoder, text: string, c: char)
    requires Valid(d) && d.state != CHUNKS_COMPLETE && Explained(d, text) && Advance(d, c).Next?
    ensures Explained(Advance(d, c).decoder, text + [c])
  {
    var p :| Explains(d, text, p);
    hide Explains, Advance;
    if d.state in {PREV_CHUNK_SIZE, CHUNK_SIZE} {
      SizeByte(d, text, p, c);
    } else if d.state in {CHUNK_EXTENSION, PREV_CHUNK_SIZE_LF} {
      LineByte(d, text, p, c);
    } else if InChunk(d.state) {
      ChunkByte(d, text, p, c);
    } else {
      TrailerByte(d, text, p, c);
    }
  }

  lemma {:induction false} BufferExplained(d: Decoder, data: string, k: nat)
    requires Valid(d) && k <= |data| && Explained(d, data[..k])
    ensures var r := Resume(d, data, k); Explained(r.decoder, data[..r.consumed])
    decreases |data| - k
  {
    hide Explained, Advance, Valid;
    if d.state != CHUNKS_COMPLETE && k < |data| {
      TakeByte(d, data, k);
      var step := Advance(d, data[k]);
      if step.Next? {
        ByteExplained(d, data[..k], data[k]);
        assert data[..k] + [data[k]] == data[..k + 1];
        BufferExplained(step.decoder, data, k + 1);
      }
    }
  }

  /** The converse of DecodesMessage: completion means that a message was read, and the output is its payload. */
  lemma AcceptsOnlyMessages(data: string)
    requires Feed(INIT, data).decoder.state == CHUNKS_COMPLETE
    ensures exists m ::
              && WellFormed(m)
              && Encode(m) == data[..Feed(INIT, data).consumed]
              && Payload(m.chunks) == Feed(INIT, data).decoder.out
  {
    hide Resume, Advance, HexValue;
    assert Explains(INIT, data[..0], Partial([], "", "", "", [], ""));
    BufferExplained(INIT, data, 0);
    var r := Feed(INIT, data);
    var p :| Explains(r.decoder, data[..r.consumed], p);
    var m := Message(p.chunks, p.size, p.ext, p.trailers);
    assert Payload(p.chunks) + "" == Payload(p.chunks);
    assert WellFormed(m) && Encode(m) == data[..r.consumed];
  }

  /**
    The filter at work: however a message is cut into buffers, it is finished exactly when a whole message has
    come, and has then passed on its payload, whatever follows.
   */
  method Decode(pieces: seq<string>) returns (data: string, finished: bool)
    ensures finished <==> exists m :: WellFormed(m) && Encode(m) <= Concat(pieces)
    ensures forall m | WellFormed(m) && Encode(m) <= Concat(pieces) :: data == Payload(m.chunks)
  {
    hide Resume, WellFormed, Encode, Payload, ChunkedMachine.Valid;
    var sink := new Sink();
    var filter := new ChunkedDecodingStreamFilter(sink);
    var total, ok := filter.TransformPieces(pieces);
    data, finished := sink.data, filter.Finished();
    ghost var input := Concat(pieces);
    forall m | WellFormed(m) && Encode(m) <= input
      ensures finished && data == Payload(m.chunks)
    {
      assert input == Encode(m) + input[|Encode(m)|..];
      DecodesMessage(m, input[|Encode(m)|..]);
    }
    if finished {
      AcceptsOnlyMessages(input);
    }
  }
}
