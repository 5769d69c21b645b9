/** The stream filter of libaria2/src/ChunkedDecodingStreamFilter.cc over a delegate that keeps everything. */
module ChunkedFilter {
  import opened ChunkedMachine
  import opened Text

  /** The delegate: a sink that appends whatever it is given. */
  class Sink {
    var data: string

    constructor ()
      ensures data == ""
    {
      data := "";
    }

    method Transform(inbuf: string) returns (outlen: nat)
      modifies this
      ensures data == old(data) + inbuf && outlen == |inbuf|
    {
      data := data + inbuf;
      outlen := |inbuf|;
    }
  }

  class ChunkedDecodingStreamFilter {
    const delegate: Sink
    var state: State
    var chunkSize: nat
    var chunkRemaining: nat
    var bytesProcessed: nat

    function Abs(): Decoder
      reads this, delegate
    {
      Decoder(state, chunkSize, chunkRemaining, delegate.data)
    }

    ghost predicate Valid()
      reads this, delegate
    {
      ChunkedMachine.Valid(Abs())
    }

    constructor (delegate: Sink)
      ensures Valid() && this.delegate == delegate && bytesProcessed == 0
      ensures Abs() == INIT.(out := delegate.data)
    {
      this.delegate := delegate;
      state := PREV_CHUNK_SIZE;
      chunkSize, chunkRemaining, bytesProcessed := 0, 0, 0;
    }

    /** The states that take a single byte; false stands for the exception. */
    method TakeOne(c: char) returns (ok: bool)
      requires Valid() && state != CHUNK && state != CHUNKS_COMPLETE
      modifies this`state, this`chunkSize, this`chunkRemaining
      ensures Valid()
      ensures ok == Advance(old(Abs()), c).Next?
      ensures Abs() == if ok then Advance(old(Abs()), c).decoder else old(Abs())
    {
      ok := true;
      if state == PREV_CHUNK_SIZE {
        if IsHexDigit(c) {
          chunkSize := HexDigit(c);
          state := CHUNK_SIZE;
        } else {
          ok := false;
        }
      } else if state == CHUNK_SIZE {
        ok := TakeSizeByte(c);
      } else if state == CHUNK_EXTENSION {
        if c == '\r' {
          state := PREV_CHUNK_SIZE_LF;
        }
      } else if state == PREV_CHUNK_SIZE_LF {
        if c == '\n' {
          chunkRemaining := chunkSize;
          state := if chunkSize == 0 then PREV_TRAILER else CHUNK;
        } else {
          ok := false;
        }
      } else {
        ok := TakeBehindChunk(c);
      }
    }

    method TakeSizeByte(c: char) returns (ok: bool)
      requires Valid() && state == CHUNK_SIZE
      modifies this`state, this`chunkSize
      ensures Valid()
      ensures ok == Advance(old(Abs()), c).Next?
      ensures Abs() == if ok then Advance(old(Abs()), c).decoder else old(Abs())
    {
      ok := true;
      if IsHexDigit(c) {
        if HighBits(chunkSize) {
          return false;
        }
        chunkSize := chunkSize * 16 + HexDigit(c);
      } else if c == ';' {
        state := CHUNK_EXTENSION;
      } else if c == '\r' {
        state := PREV_CHUNK_SIZE_LF;
      } else {
        ok := false;
      }
    }

    method TakeBehindChunk(c: char) returns (ok: bool)
      requires Valid()
      requires state == PREV_CHUNK_CR || state == PREV_CHUNK_LF || state == PREV_TRAILER ||
               state == TRAILER || state == PREV_TRAILER_LF || state == PREV_END_LF
      modifies this`state, this`chunkSize, this`chunkRemaining
      ensures Valid()
      ensures ok == Advance(old(Abs()), c).Next?
      ensures Abs() == if ok then Advance(old(Abs()), c).decoder else old(Abs())
    {
      ok := true;
      if state == PREV_CHUNK_CR {
        if c == '\r' { state := PREV_CHUNK_LF; } else { ok := false; }
      } else if state == PREV_CHUNK_LF {
        if c == '\n' {
          // The source also has a branch for chunkSize_ == 0, which Valid() rules out here.
          chunkSize, chunkRemaining := 0, 0;
          state := PREV_CHUNK_SIZE;
        } else {
          ok := false;
        }
      } else if state == PREV_TRAILER {
        state := if c == '\r' then PREV_END_LF else TRAILER;
      } else if state == TRAILER {
        if c == '\r' { state := PREV_TRAILER_LF; }
      } else if state == PREV_TRAILER_LF {
        if c == '\n' { state := PREV_TRAILER; } else { ok := false; }
      } else {
        if c == '\n' { state := CHUNKS_COMPLETE; } else { ok := false; }
      }
    }

    /** The CHUNK state: as much of the chunk as the buffer holds, in one call of the delegate. */
    method TakeChunk(inbuf: string, i: nat) returns (next: nat, outlen: nat)
      requires Valid() && state == CHUNK && i < |inbuf|
      modifies this`state, this`chunkRemaining, delegate
      ensures Valid()
      ensures i < next <= |inbuf| && outlen == |delegate.data| - |old(delegate.data)|
      ensures Resume(old(Abs()), inbuf, i) == Resume(Abs(), inbuf, next)
    {
      var readlen := if chunkRemaining < |inbuf| - i then chunkRemaining else |inbuf| - i;
      ReadBody(Abs(), inbuf, i, readlen);
      outlen := delegate.Transform(inbuf[i..i + readlen]);
      chunkRemaining := chunkRemaining - readlen;
      next := i + readlen;
      if chunkRemaining == 0 {
        state := PREV_CHUNK_CR;
      }
    }

    /** Decodes a buffer exactly as if its bytes had been taken one at a time. */
    method Transform(inbuf: string) returns (outlen: nat, ok: bool)
      requires Valid()
      modifies this, delegate
      ensures Valid()
      ensures var r := Feed(old(Abs()), inbuf);
              && Abs() == r.decoder
              && ok == !r.aborted
              && (ok ==> bytesProcessed == r.consumed)
      ensures outlen == |delegate.data| - |old(delegate.data)|
    {
      hide Resume, Advance, ChunkedMachine.Valid;
      outlen, ok := 0, true;
      bytesProcessed := 0;
      var i := 0;
      while i < |inbuf|
        invariant Valid() && i <= |inbuf| && bytesProcessed == 0 && ok
        invariant outlen == |delegate.data| - |old(delegate.data)|
        invariant Resume(Abs(), inbuf, i) == Resume(old(Abs()), inbuf, 0)
      {
        if state == CHUNKS_COMPLETE {
          break;
        } else if state == CHUNK {
          var n;
          i, n := TakeChunk(inbuf, i);
          outlen := outlen + n;
        } else {
          TakeByte(Abs(), inbuf, i);
          ok := TakeOne(inbuf[i]);
          if !ok {
            return;
          }
          i := i + 1;
        }
      }
      AtTheEnd(Abs(), inbuf, i);
      bytesProcessed := bytesProcessed + i;
    }

    /** Cutting the input into calls of Transform changes nothing, not even the total of bytesProcessed. */
    method TransformPieces(pieces: seq<string>) returns (total: nat, ok: bool)
      requires Valid()
      modifies this, delegate
      ensures Valid()
      ensures var r := Feed(old(Abs()), Concat(pieces));
              && Abs() == r.decoder
              && ok == !r.aborted
              && (ok ==> total == r.consumed)
    {
      hide Resume, ChunkedMachine.Valid, FeedAll;
      ghost var d := Abs();
      SplitInvariance(d, pieces);
      total, ok := 0, true;
      var i := 0;
      assert pieces[0..] == pieces;
      while i < |pieces|
        invariant Valid() && i <= |pieces| && ok
        invariant FeedAll(d, pieces) == After(total, FeedAll(Abs(), pieces[i..]))
      {
        NextPiece(Abs(), pieces, i, total);
        var outlen;
        outlen, ok := Transform(pieces[i]);
        if !ok {
          return;
        }
        total := total + bytesProcessed;
        i := i + 1;
      }
      assert pieces[i..] == [];
      NoMorePieces(Abs());
    }

    function Finished(): bool
      reads this
    {
      state == CHUNKS_COMPLETE
    }
  }

  /** An outcome that follows bytes already taken. */
  function After(consumed: nat, r: Fed): Fed { r.(consumed := consumed + r.consumed) }

  lemma NextPiece(d: Decoder, pieces: seq<string>, i: nat, total: nat)
    requires ChunkedMachine.Valid(d) && i < |pieces|
    ensures var first := Feed(d, pieces[i]);
            After(total, FeedAll(d, pieces[i..])) ==
            if first.aborted then After(total, first)
            else After(total + first.consumed, FeedAll(first.decoder, pieces[i + 1..]))
  {
    hide Resume, ChunkedMachine.Valid;
    assert pieces[i..][0] == pieces[i] && pieces[i..][1..] == pieces[i + 1..];
  }

  lemma NoMorePieces(d: Decoder)
    requires ChunkedMachine.Valid(d)
    ensures FeedAll(d, []) == Fed(d, 0, false)
  {
  }

  /** n bytes of chunk data, taken one by one, reach the output in order. */
  lemma {:induction false} ReadBody(d: Decoder, data: string, k: nat, n: nat)
    requires ChunkedMachine.Valid(d) && d.state == CHUNK && 0 < n <= d.chunkRemaining && k + n <= |data|
    ensures var rest := d.chunkRemaining - n;
            var d' := d.(out := d.out + data[k..k + n], chunkRemaining := rest,
                         state := if rest == 0 then PREV_CHUNK_CR else CHUNK);
            ChunkedMachine.Valid(d') && Resume(d, data, k) == Resume(d', data, k + n)
    decreases n
  {
    hide Resume;
    TakeByte(d, data, k);
    var d1 := d.(out := d.out + [data[k]], chunkRemaining := d.chunkRemaining - 1,
                 state := if d.chunkRemaining == 1 then PREV_CHUNK_CR else CHUNK);
    assert Advance(d, data[k]) == Next(d1);
    assert data[k..k + n] == [data[k]] + data[k + 1..k + n];
    hide Advance;
    if n == 1 {
      assert data[k..k + n] == [data[k]];
    } else {
      ReadBody(d1, data, k + 1, n - 1);
      Assoc(d.out, [data[k]], data[k + 1..k + n]);
    }
  }
}
