/**
  Chunked transfer coding decoded one byte at a time: the simple form that the
  buffer-at-a-time ChunkedDecodingStreamFilter is proved to refine.
 */
module ChunkedMachine {

  datatype State =
    | PREV_CHUNK_SIZE | CHUNK_SIZE | CHUNK_EXTENSION | PREV_CHUNK_SIZE_LF | CHUNK
    | PREV_CHUNK_CR | PREV_CHUNK_LF | PREV_TRAILER | TRAILER | PREV_TRAILER_LF
    | PREV_END_CR | PREV_END_LF | CHUNKS_COMPLETE

  /** The filter's fields and everything the delegate has been given. */
  datatype Decoder = Decoder(state: State, chunkSize: nat, chunkRemaining: nat, out: string)

  /** A byte was taken, or an exception leaves the decoder as it was. */
  datatype Step = Next(decoder: Decoder) | Abort

  /** The outcome of a buffer: bytes taken, and whether an exception ended it. */
  datatype Fed = Fed(decoder: Decoder, consumed: nat, aborted: bool)

  const INIT := Decoder(PREV_CHUNK_SIZE, 0, 0, "")

  const LIMIT: nat := 0x8000_0000_0000_0000

  predicate IsHexDigit(c: char) {
    '0' <= c <= '9' || 'A' <= c <= 'F' || 'a' <= c <= 'f'
  }

  function HexDigit(c: char): (d: nat)
    requires IsHexDigit(c)
    ensures d < 16
  {
    if c <= '9' then c as int - '0' as int
    else if c <= 'F' then c as int - 'A' as int + 10
    else c as int - 'a' as int + 10
  }

  /** The digits, in order. */
  lemma HexDigitsAre(c: char)
    ensures IsHexDigit(c) <==> c in "0123456789abcdefABCDEF"
    ensures IsHexDigit(c) ==> c == "0123456789abcdef"[HexDigit(c)] || c == "0123456789ABCDEF"[HexDigit(c)]
  {
  }

  /** chunkSize_ & 0x7800000000000000: any of the bits 59 to 62. */
  predicate HighBits(size: nat) {
    size / 0x0800_0000_0000_0000 % 16 != 0
  }

  /** The guard refuses a digit exactly when the size would reach 2^63. */
  lemma GuardIsExact(size: nat, d: nat)
    requires size < 0x8000_0000_0000_0000 && d < 16
    ensures HighBits(size) <==> 0x8000_0000_0000_0000 <= size * 16 + d
  {
    assert size / 0x0800_0000_0000_0000 < 16;
  }

  predicate BehindLastChunk(d: Decoder) {
    d.state in {PREV_TRAILER, TRAILER, PREV_TRAILER_LF, PREV_END_LF, CHUNKS_COMPLETE}
  }

  predicate Valid(d: Decoder) {
    && d.chunkSize < LIMIT
    && d.chunkRemaining <= d.chunkSize
    && d.state != PREV_END_CR
    && (d.state == PREV_CHUNK_SIZE ==> d.chunkSize == 0)
    && (d.state == CHUNK ==> 0 < d.chunkRemaining)
    && (d.state in {CHUNK_SIZE, CHUNK_EXTENSION, PREV_CHUNK_SIZE_LF} ==> d.chunkRemaining == 0)
    && (d.state in {PREV_CHUNK_CR, PREV_CHUNK_LF} ==> 0 < d.chunkSize && d.chunkRemaining == 0)
    && (BehindLastChunk(d) ==> d.chunkSize == 0)
  }

  function Advance(d: Decoder, c: char): (r: Step)
    requires Valid(d) && d.state != CHUNKS_COMPLETE
    ensures r.Next? ==> Valid(r.decoder)
  {
    match d.state
    case PREV_CHUNK_SIZE =>
      if IsHexDigit(c) then Next(d.(chunkSize := HexDigit(c), state := CHUNK_SIZE)) else Abort
    case CHUNK_SIZE =>
      if IsHexDigit(c) then
        if HighBits(d.chunkSize) then Abort
        else Next(d.(chunkSize := d.chunkSize * 16 + HexDigit(c)))
      else if c == ';' then Next(d.(state := CHUNK_EXTENSION))
      else if c == '\r' then Next(d.(state := PREV_CHUNK_SIZE_LF))
      else Abort
    case CHUNK_EXTENSION =>
      if c == '\r' then Next(d.(state := PREV_CHUNK_SIZE_LF)) else Next(d)
    case PREV_CHUNK_SIZE_LF =>
      if c != '\n' then Abort
      else Next(d.(chunkRemaining := d.chunkSize, state := if d.chunkSize == 0 then PREV_TRAILER else CHUNK))
    case CHUNK =>
      Next(d.(out := d.out + [c], chunkRemaining := d.chunkRemaining - 1,
              state := if d.chunkRemaining == 1 then PREV_CHUNK_CR else CHUNK))
    case PREV_CHUNK_CR =>
      if c == '\r' then Next(d.(state := PREV_CHUNK_LF)) else Abort
    case PREV_CHUNK_LF =>
      if c == '\n' then Next(d.(chunkSize := 0, chunkRemaining := 0, state := PREV_CHUNK_SIZE)) else Abort
    case PREV_TRAILER =>
      Next(d.(state := if c == '\r' then PREV_END_LF else TRAILER))
    case TRAILER =>
      if c == '\r' then Next(d.(state := PREV_TRAILER_LF)) else Next(d)
    case PREV_TRAILER_LF =>
      if c == '\n' then Next(d.(state := PREV_TRAILER)) else Abort
    case PREV_END_LF =>
      if c == '\n' then Next(d.(state := CHUNKS_COMPLETE)) else Abort
  }

  /** Continues at byte k of the buffer; `consumed` counts from the start of the buffer. */
  function Resume(d: Decoder, data: string, k: nat): (r: Fed)
    requires Valid(d) && k <= |data|
    ensures Valid(r.decoder) && k <= r.consumed <= |data|
    decreases |data| - k
  {
    if d.state == CHUNKS_COMPLETE || k == |data| then Fed(d, k, false)
    else
      match Advance(d, data[k])
      case Abort => Fed(d, k, true)
      case Next(d') => Resume(d', data, k + 1)
  }

  function Feed(d: Decoder, data: string): Fed
    requires Valid(d)
  {
    Resume(d, data, 0)
  }

  lemma TakeByte(d: Decoder, data: string, k: nat)
    requires Valid(d) && d.state != CHUNKS_COMPLETE && k < |data|
    ensures match Advance(d, data[k])
            case Abort => Resume(d, data, k) == Fed(d, k, true)
            case Next(d') => Resume(d, data, k) == Resume(d', data, k + 1)
  {
    hide Advance, Valid;
  }

  lemma AtTheEnd(d: Decoder, data: string, k: nat)
    requires Valid(d) && k <= |data| && (d.state == CHUNKS_COMPLETE || k == |data|)
    ensures Resume(d, data, k) == Fed(d, k, false)
  {
  }

  // ----- cutting the input

  /** Feeding the pieces one after another until one of them aborts. */
  function FeedAll(d: Decoder, pieces: seq<string>): (r: Fed)
    requires Valid(d)
    ensures Valid(r.decoder)
    decreases |pieces|
  {
    if pieces == [] then Fed(d, 0, false)
    else
      var first := Feed(d, pieces[0]);
      if first.aborted then first
      else
        var rest := FeedAll(first.decoder, pieces[1..]);
        rest.(consumed := first.consumed + rest.consumed)
  }

  function Concat(pieces: seq<string>): string {
    if pieces == [] then "" else pieces[0] + Concat(pieces[1..])
  }

  lemma {:induction false} ResumeShift(d: Decoder, a: string, b: string, k: nat)
    requires Valid(d) && k <= |b|
    ensures var part := Resume(d, b, k);
            Resume(d, a + b, |a| + k) == part.(consumed := |a| + part.consumed)
    decreases |b| - k
  {
    hide Advance, Valid;
    if d.state != CHUNKS_COMPLETE && k < |b| {
      assert (a + b)[|a| + k] == b[k];
      var step := Advance(d, b[k]);
      if step.Next? {
        ResumeShift(step.decoder, a, b, k + 1);
      }
    }
  }

  lemma {:induction false} ResumeSplit(d: Decoder, a: string, b: string, k: nat)
    requires Valid(d) && k <= |a|
    ensures var first, whole := Resume(d, a, k), Resume(d, a + b, k);
            if first.aborted then whole == first
            else
              var second := Feed(first.decoder, b);
              whole == second.(consumed := first.consumed + second.consumed)
    decreases |a| - k
  {
    hide Advance, Valid;
    if k == |a| {
      ResumeShift(d, a, b, 0);
    } else if d.state == CHUNKS_COMPLETE {
      AtTheEnd(d, b, 0);
    } else {
      assert (a + b)[k] == a[k];
      var step := Advance(d, a[k]);
      if step.Next? {
        ResumeSplit(step.decoder, a, b, k + 1);
      }
    }
  }

  /** Any way of cutting the input gives the same decoder, output, byte count and outcome. */
  lemma {:induction false} SplitInvariance(d: Decoder, pieces: seq<string>)
    requires Valid(d)
    ensures FeedAll(d, pieces) == Feed(d, Concat(pieces))
    decreases |pieces|
  {
    hide Valid;
    if pieces != [] {
      ResumeSplit(d, pieces[0], Concat(pieces[1..]), 0);
      SplitInvariance(Feed(d, pieces[0]).decoder, pieces[1..]);
    }
  }
}
