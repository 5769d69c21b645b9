/**
  The language of the parser: what it accepts is a text of a value, so together with the reading of
  texts the accepted inputs are known exactly.
 */
module BencodeLanguage {
  import opened BencodeValues
  import opened BencodeMachine
  import BencodeParser
  import opened BencodeTexts
  import opened BencodeRoundTrip
  import opened Text

  /** An unfinished list or dictionary around the current position: one per stack entry above FINISH. */
  datatype Frame =
    | InList(items: Trees)
    | InKey(entries: Pairs)
    | InValue(entries: Pairs, length: string, key: string)

  /** The part of the text at the current position that has been read so far. */
  datatype Open =
    | Nothing
    | OpenItems(items: Trees)
    | OpenPairs(entries: Pairs)
    | OpenLength(length: string)
    | OpenBody(length: string, part: string)
    | OpenNumber(junk: string, sign: string, digits: string, tail: string)
    | OpenWhole(tree: Tree)

  function FrameControl(f: Frame): Control {
    match f
    case InList(_) => LIST
    case InKey(_) => DICT_KEY
    case InValue(_, _, _) => DICT_VAL
  }

  function FrameText(f: Frame): string {
    match f
    case InList(items) => "l" + WriteTrees(items)
    case InKey(entries) => "d" + WritePairs(entries)
    case InValue(entries, length, key) => ("d" + WritePairs(entries)) + StringText(length, key)
  }

  predicate FrameAt(c: Control, f: Frame) {
    && c == FrameControl(f)
    && match f
       case InList(items) => WellFormedTrees(items)
       case InKey(entries) => WellFormedPairs(entries)
       case InValue(entries, length, key) => WellFormedPairs(entries) && IsLength(length, key)
  }

  predicate FramesMatch(stack: seq<Control>, frames: seq<Frame>) {
    |stack| == |frames| + 1 && forall i | 0 < i < |stack| :: FrameAt(stack[i], frames[i - 1])
  }

  function ContextText(frames: seq<Frame>): string {
    if frames == [] then "" else ContextText(frames[..|frames| - 1]) + FrameText(frames[|frames| - 1])
  }

  function OpenText(o: Open): string {
    match o
    case Nothing => ""
    case OpenItems(items) => "l" + WriteTrees(items)
    case OpenPairs(entries) => "d" + WritePairs(entries)
    case OpenLength(length) => length
    case OpenBody(length, part) => StringText(length, part)
    case OpenNumber(junk, sign, digits, tail) => NumberText(junk, sign, digits, tail)
    case OpenWhole(t) => Write(t)
  }

  /** The open part is what the mode says. */
  predicate OpenOk(mode: Mode, o: Open) {
    match mode
    case Finish => o.OpenWhole? && WellFormed(o.tree)
    case Error(_) => true
    case Initial => o.Nothing?
    case AtValue => o.Nothing?
    case AtKey => o.OpenPairs? && WellFormedPairs(o.entries)
    case AtItem => o.OpenItems? && WellFormedTrees(o.items)
    case InLength(length, digits) =>
      o.OpenLength? && AllDigits(o.length) && |o.length| == digits && NumeralValue(o.length) == length
    case InString(left) => o.OpenBody? && IsNumeral(o.length) && NumeralValue(o.length) == |o.part| + left
    case AtSign => o.OpenNumber? && IsJunk(o.junk) && o.sign == o.digits == o.tail == ""
    case InNumber(sign, magnitude, digits) =>
      && o.OpenNumber? && IsJunk(o.junk) && IsSign(o.sign) && SignOf(o.sign) == sign && o.tail == ""
      && AllDigits(o.digits) && |o.digits| == digits && NumeralValue(o.digits) == magnitude
    case InFloat =>
      && o.OpenNumber? && IsJunk(o.junk) && IsSign(o.sign) && IsNumeral(o.digits)
      && o.tail != "" && IsTail(o.tail)
  }

  /** The text is that of the enclosing frames followed by that of the open part. */
  predicate Explains(p: Parser, text: string, frames: seq<Frame>, o: Open) {
    FramesMatch(p.stack, frames) && OpenOk(p.mode, o) && text == ContextText(frames) + OpenText(o)
  }

  ghost predicate Explained(p: Parser, text: string) {
    exists frames, o :: Explains(p, text, frames, o)
  }

  // ----- frames

  lemma PopFrame(stack: seq<Control>, frames: seq<Frame>)
    requires FramesMatch(stack, frames) && frames != []
    ensures FramesMatch(Pop(stack), frames[..|frames| - 1])
    ensures FrameAt(stack[|stack| - 1], frames[|frames| - 1])
    ensures ContextText(frames) == ContextText(frames[..|frames| - 1]) + FrameText(frames[|frames| - 1])
  {
    hide FrameAt, FrameText;
    var below, outer := Pop(stack), frames[..|frames| - 1];
    forall i | 0 < i < |below|
      ensures FrameAt(below[i], outer[i - 1])
    {
      assert FrameAt(stack[i], frames[i - 1]);
    }
  }

  lemma PushFrame(stack: seq<Control>, frames: seq<Frame>, f: Frame)
    requires FramesMatch(stack, frames) && FrameAt(FrameControl(f), f)
    ensures FramesMatch(stack + [FrameControl(f)], frames + [f])
    ensures ContextText(frames + [f]) == ContextText(frames) + FrameText(f)
  {
    hide FrameText, FrameControl;
    assert (frames + [f])[..|frames|] == frames;
  }

  lemma RootFrames(stack: seq<Control>, frames: seq<Frame>)
    requires StackOk(stack) && FramesMatch(stack, frames)
    ensures frames == [] <==> stack[|stack| - 1] == FINISH
  {
  }

  // ----- the end of a value or of a key

  /** A whole value becomes an item, an entry or the result. */
  lemma ValueEnds(stack: seq<Control>, log: seq<Event>, text: string, frames: seq<Frame>, t: Tree)
    requires StackOk(stack) && IsContext(stack[|stack| - 1])
    requires FramesMatch(stack, frames) && WellFormed(t) && text == ContextText(frames) + Write(t)
    ensures Explained(OnValueEnd(stack, log), text)
  {
    hide FramesMatch, ContextText, WellFormed, Write;
    RootFrames(stack, frames);
    if frames == [] {
      assert Explains(OnValueEnd(stack, log), text, frames, OpenWhole(t));
    } else {
      PopFrame(stack, frames);
      match frames[|frames| - 1]
      case InList(items) => ItemEnds(stack, log, text, frames, items, t);
      case InValue(entries, length, key) => EntryEnds(stack, log, text, frames, entries, length, key, t);
    }
  }

  lemma ItemEnds(stack: seq<Control>, log: seq<Event>, text: string, frames: seq<Frame>, items: Trees, t: Tree)
    requires StackOk(stack) && FramesMatch(stack, frames) && frames != [] && frames[|frames| - 1] == InList(items)
    requires WellFormed(t) && text == ContextText(frames) + Write(t)
    ensures Explained(OnValueEnd(stack, log), text)
  {
    hide FramesMatch, ContextText, WellFormed, Write, WriteTrees, WellFormedTrees;
    PopFrame(stack, frames);
    var outer := frames[..|frames| - 1];
    AppendTreeText(items, t);
    Assoc(ContextText(outer), "l" + WriteTrees(items), Write(t));
    Assoc("l", WriteTrees(items), Write(t));
    assert Explains(OnValueEnd(stack, log), text, outer, OpenItems(AppendTree(items, t)));
  }

  lemma EntryEnds(stack: seq<Control>, log: seq<Event>, text: string, frames: seq<Frame>,
                  entries: Pairs, length: string, key: string, t: Tree)
    requires StackOk(stack) && FramesMatch(stack, frames)
    requires frames != [] && frames[|frames| - 1] == InValue(entries, length, key)
    requires WellFormed(t) && text == ContextText(frames) + Write(t)
    ensures Explained(OnValueEnd(stack, log), text)
  {
    hide FramesMatch, ContextText, WellFormed, Write, WritePairs, WellFormedPairs, StringText, IsLength;
    PopFrame(stack, frames);
    var outer, done, head := frames[..|frames| - 1], WritePairs(entries), StringText(length, key);
    AppendPairText(entries, length, key, t);
    Assoc(ContextText(outer), ("d" + done) + head, Write(t));
    Assoc("d" + done, head, Write(t));
    Assoc("d", done, head + Write(t));
    assert Explains(OnValueEnd(stack, log), text, outer, OpenPairs(AppendPair(entries, length, key, t)));
  }

  /** A key's end turns the key frame into a value frame. */
  lemma KeyEnds(stack: seq<Control>, log: seq<Event>, text: string, frames: seq<Frame>, length: string, key: string)
    requires StackOk(stack) && stack[|stack| - 1] == DICT_KEY && FramesMatch(stack, frames)
    requires IsLength(length, key) && text == ContextText(frames) + StringText(length, key)
    ensures Explained(OnStringEnd(stack, log), text)
  {
    hide FramesMatch, ContextText, WritePairs, WellFormedPairs, StringText, IsLength;
    RootFrames(stack, frames);
    PopFrame(stack, frames);
    var outer, f := frames[..|frames| - 1], frames[|frames| - 1];
    var value := InValue(f.entries, length, key);
    PushFrame(Pop(stack), outer, value);
    Assoc(ContextText(outer), FrameText(f), StringText(length, key));
    assert Explains(OnStringEnd(stack, log), text, outer + [value], Nothing);
  }

  lemma StringEnds(stack: seq<Control>, log: seq<Event>, text: string, frames: seq<Frame>, length: string, s: string)
    requires StackOk(stack) && FramesMatch(stack, frames)
    requires IsLength(length, s) && text == ContextText(frames) + StringText(length, s)
    ensures Explained(OnStringEnd(stack, log), text)
  {
    hide FramesMatch, ContextText, StringText, IsLength, OnValueEnd;
    if stack[|stack| - 1] == DICT_KEY {
      KeyEnds(stack, log, text, frames, length, s);
    } else {
      ValueEnds(stack, log + [End(StringT)], text, frames, StringTree(length, s));
    }
  }

  // ----- one byte

  lemma ValueByte(p: Parser, text: string, c: char, frames: seq<Frame>)
    requires StackOk(p.stack) && IsContext(Top(p)) && FramesMatch(p.stack, frames)
    requires text == ContextText(frames) && StepValue(p, c).code == 0
    ensures Explained(StepValue(p, c).parser, text + [c])
  {
    hide FramesMatch, ContextText;
    if IsDigit(c) {
      OneDigit(c);
    }
    var o := if c == 'd' then OpenPairs(NoPairs) else if c == 'l' then OpenItems(NoTrees)
             else if c == 'i' then OpenNumber("", "", "", "") else OpenLength([c]);
    assert OpenText(o) == [c];
    assert Explains(StepValue(p, c).parser, text + [c], frames, o);
  }

  lemma ItemByte(p: Parser, text: string, c: char, frames: seq<Frame>, o: Open)
    requires Valid(p) && p.mode.AtItem? && Explains(p, text, frames, o) && StepItem(p, c).code == 0
    ensures Explained(StepItem(p, c).parser, text + [c])
  {
    hide FramesMatch, ContextText, OnValueEnd, StepValue, WriteTrees;
    if c == 'e' {
      Assoc(ContextText(frames), "l" + WriteTrees(o.items), "e");
      Assoc("l", WriteTrees(o.items), "e");
      ValueEnds(p.stack, p.log + [End(ArrayT)], text + [c], frames, ListTree(o.items));
    } else {
      PushFrame(p.stack, frames, InList(o.items));
      ValueByte(ItemContext(p), text, c, frames + [InList(o.items)]);
    }
  }

  lemma KeyByte(p: Parser, text: string, c: char, frames: seq<Frame>, o: Open)
    requires Valid(p) && p.mode.AtKey? && Explains(p, text, frames, o) && StepKey(p, c).code == 0
    ensures Explained(StepKey(p, c).parser, text + [c])
  {
    hide FramesMatch, ContextText, OnValueEnd, StepLength, WritePairs;
    if c == 'e' {
      Assoc(ContextText(frames), "d" + WritePairs(o.entries), "e");
      Assoc("d", WritePairs(o.entries), "e");
      ValueEnds(p.stack, p.log + [End(DictT)], text + [c], frames, DictTree(o.entries));
    } else {
      PushFrame(p.stack, frames, InKey(o.entries));
      assert text == ContextText(frames + [InKey(o.entries)]) + "";
      LengthByte(KeyContext(p), text, c, frames + [InKey(o.entries)], "");
    }
  }

  lemma LengthByte(p: Parser, text: string, c: char, frames: seq<Frame>, length: string)
    requires Valid(p) && p.mode.InLength? && FramesMatch(p.stack, frames)
    requires AllDigits(length) && |length| == p.mode.digits && NumeralValue(length) == p.mode.length
    requires text == ContextText(frames) + length && StepLength(p, c).code == 0
    ensures Explained(StepLength(p, c).parser, text + [c])
  {
    hide FramesMatch, ContextText, OnStringEnd, NumeralValue, Push;
    Assoc(ContextText(frames), length, [c]);
    if IsDigit(c) {
      NumeralSnoc(length, c);
      assert Explains(StepLength(p, c).parser, text + [c], frames, OpenLength(length + [c]));
    } else {
      assert StringText(length, "") == length + [c];
      if p.mode.length == 0 {
        StringEnds(p.stack, Push(p.log, Characters([])), text + [c], frames, length, "");
      } else {
        assert Explains(StepLength(p, c).parser, text + [c], frames, OpenBody(length, ""));
      }
    }
  }

  lemma StringByte(p: Parser, text: string, c: char, frames: seq<Frame>, o: Open)
    requires Valid(p) && p.mode.InString? && Explains(p, text, frames, o)
    ensures Explained(StepString(p, c).parser, text + [c])
  {
    hide FramesMatch, ContextText, OnStringEnd, NumeralValue, Push, AllDigits;
    var part := o.part + [c];
    Assoc(":", o.part, [c]);
    Assoc(o.length, ":" + o.part, [c]);
    Assoc(ContextText(frames), StringText(o.length, o.part), [c]);
    assert text + [c] == ContextText(frames) + StringText(o.length, part);
    if p.mode.left == 1 {
      StringEnds(p.stack, Push(p.log, Characters([c])), text + [c], frames, o.length, part);
    } else {
      assert Explains(StepString(p, c).parser, text + [c], frames, OpenBody(o.length, part));
    }
  }

  /** One more byte of a number: junk, sign, digit or tail. */
  lemma NumberGrows(junk: string, sign: string, digits: string, tail: string, c: char)
    ensures NumberText(junk, sign, digits, tail) + [c] == NumberText(junk, sign, digits, tail + [c])
    ensures tail == "" ==> NumberText(junk, sign, digits, tail) + [c] == NumberText(junk, sign, digits + [c], "")
    ensures digits == tail == "" ==> NumberText(junk, sign, digits, tail) + [c] == NumberText(junk, sign + [c], "", "")
    ensures sign == digits == tail == "" ==> NumberText(junk, sign, digits, tail) + [c] == NumberText(junk + [c], "", "", "")
  {
    Assoc(digits, tail, [c]);
    Assoc(sign, digits + tail, [c]);
    Assoc(junk, sign + (digits + tail), [c]);
    Assoc("i", junk + (sign + (digits + tail)), [c]);
  }

  lemma SignByte(p: Parser, text: string, c: char, frames: seq<Frame>, o: Open)
    requires Valid(p) && p.mode.AtSign? && Explains(p, text, frames, o)
    ensures Explained(StepSign(p, c).parser, text + [c])
  {
    hide FramesMatch, ContextText, NumberText, NumeralValue, AllDigits, IsJunk;
    NumberGrows(o.junk, "", "", "", c);
    Assoc(ContextText(frames), OpenText(o), [c]);
    assert "" + [c] == [c];
    var r := StepSign(p, c).parser;
    if c == '+' || c == '-' {
      NoDigits();
      assert Explains(r, text + [c], frames, OpenNumber(o.junk, [c], "", ""));
    } else if IsDigit(c) {
      OneDigit(c);
      assert Explains(r, text + [c], frames, OpenNumber(o.junk, "", [c], ""));
    } else {
      MoreJunk(o.junk, c);
      assert Explains(r, text + [c], frames, OpenNumber(o.junk + [c], "", "", ""));
    }
  }

  lemma NoDigits()
    ensures AllDigits("") && NumeralValue("") == 0
  {
  }

  lemma OneDigit(c: char)
    requires IsDigit(c)
    ensures AllDigits([c]) && NumeralValue([c]) == DigitValue(c)
  {
    NumeralSnoc("", c);
    assert "" + [c] == [c];
  }

  lemma MoreJunk(junk: string, c: char)
    requires IsJunk(junk) && !IsDigit(c) && c != '+' && c != '-'
    ensures IsJunk(junk + [c])
  {
  }

  lemma NumberByte(p: Parser, text: string, c: char, frames: seq<Frame>, o: Open)
    requires Valid(p) && p.mode.InNumber? && Explains(p, text, frames, o) && StepNumber(p, c).code == 0
    ensures Explained(StepNumber(p, c).parser, text + [c])
  {
    hide FramesMatch, ContextText, NumberText, OnNumberEnd, NumeralValue;
    NumberGrows(o.junk, o.sign, o.digits, "", c);
    Assoc(ContextText(frames), OpenText(o), [c]);
    if IsDigit(c) {
      NumeralSnoc(o.digits, c);
      assert Explains(StepNumber(p, c).parser, text + [c], frames, OpenNumber(o.junk, o.sign, o.digits + [c], ""));
    } else if c == 'e' {
      NumberEnds(p, text, frames, o, p.mode.sign * p.mode.magnitude);
    } else {
      assert "" + [c] == [c];
      assert Explains(StepNumber(p, c).parser, text + [c], frames, OpenNumber(o.junk, o.sign, o.digits, [c]));
    }
  }

  lemma NumberEnds(p: Parser, text: string, frames: seq<Frame>, o: Open, n: int)
    requires StackOk(p.stack) && IsContext(Top(p)) && FramesMatch(p.stack, frames)
    requires o.OpenNumber? && WellFormed(NumberTree(o.junk, o.sign, o.digits, o.tail)) && text == ContextText(frames) + OpenText(o)
    ensures Explained(OnNumberEnd(p.stack, p.log, n), text + "e")
  {
    hide FramesMatch, ContextText, NumberText, OnValueEnd, IsJunk, IsTail, IsNumeral;
    Assoc(ContextText(frames), OpenText(o), "e");
    ValueEnds(p.stack, p.log + [Number(n)] + [End(NumberT)], text + "e", frames, NumberTree(o.junk, o.sign, o.digits, o.tail));
  }

  lemma FloatByteRead(p: Parser, text: string, c: char, frames: seq<Frame>, o: Open)
    requires Valid(p) && p.mode.InFloat? && Explains(p, text, frames, o) && StepFloat(p, c).code == 0
    ensures Explained(StepFloat(p, c).parser, text + [c])
  {
    hide FramesMatch, ContextText, NumberText, OnNumberEnd, IsNumeral, IsJunk;
    NumberGrows(o.junk, o.sign, o.digits, o.tail, c);
    Assoc(ContextText(frames), OpenText(o), [c]);
    if c == 'e' {
      NumberEnds(p, text, frames, o, 0);
    } else {
      assert Explains(StepFloat(p, c).parser, text + [c], frames, OpenNumber(o.junk, o.sign, o.digits, o.tail + [c]));
    }
  }

  lemma ByteExplained(p: Parser, text: string, c: char)
    requires Valid(p) && !Stopped(p) && Explained(p, text) && Advance(p, c).code == 0
    ensures Explained(Advance(p, c).parser, text + [c])
  {
    hide StepValue, StepItem, StepKey, StepLength, StepString, StepSign, StepNumber, StepFloat, FramesMatch, ContextText;
    var frames, o :| Explains(p, text, frames, o);
    match p.mode
    case Initial => ValueByte(p, text, c, frames);
    case AtValue => ValueByte(p, text, c, frames);
    case AtItem => ItemByte(p, text, c, frames, o);
    case AtKey => KeyByte(p, text, c, frames, o);
    case InLength(_, _) => LengthByte(p, text, c, frames, o.length);
    case InString(_) => StringByte(p, text, c, frames, o);
    case AtSign => SignByte(p, text, c, frames, o);
    case InNumber(_, _, _) => NumberByte(p, text, c, frames, o);
    case InFloat => FloatByteRead(p, text, c, frames, o);
  }

  // ----- what errors leave behind

  /** Every error but one is remembered: only a structure that is too deep leaves the parser as it was. */
  lemma {:induction false} ErrorsStick(p: Parser, data: string, k: nat)
    requires Valid(p) && !p.mode.Error? && k <= |data| && Resume(p, data, k).consumed < 0
    ensures var r := Resume(p, data, k);
            if r.consumed == ERR_STRUCTURE_TOO_DEEP
            then (r.parser.mode.AtItem? || r.parser.mode.AtKey?) && |r.parser.stack| == MAX_STACK
            else r.parser.mode == Error(r.consumed)
    decreases |data| - k
  {
    hide Advance, Valid;
    TakeByte(p, data, k);
    var step := Advance(p, data[k]);
    ErrorOfByte(p, data[k]);
    if step.code == 0 {
      ErrorsStick(step.parser, data, k + 1);
    }
  }

  lemma ErrorOfByte(p: Parser, c: char)
    requires Valid(p) && !Stopped(p)
    ensures var r := Advance(p, c);
            if r.code == 0 then !r.parser.mode.Error?
            else if r.code == ERR_STRUCTURE_TOO_DEEP then
              r.parser == p && (p.mode.AtItem? || p.mode.AtKey?) && |p.stack| == MAX_STACK
            else r.parser.mode == Error(r.code)
  {
    hide OnValueEnd, OnStringEnd, OnNumberEnd, Push;
  }

  /** Which bytes are refused where, and with which code. */
  lemma RefusedBytes(p: Parser, c: char)
    requires Valid(p) && !Stopped(p)
    ensures var code := Advance(p, c).code;
            var digit := '0' <= c <= '9';
            match p.mode
            case InLength(length, digits) =>
              code == if digit then (if length * 10 + (c as int - '0' as int) > 0x7fff_ffff_ffff_ffff then -7 else 0)
                      else if c == ':' && digits > 0 then 0 else -6
            case InNumber(_, magnitude, digits) =>
              code == if digit then (if magnitude * 10 + (c as int - '0' as int) > 0x7fff_ffff_ffff_ffff then -3 else 0)
                      else if digits > 0 && (c == 'e' || c == '.' || c == 'E' || c == '+' || c == '-') then 0 else -2
            case InFloat =>
              code == if digit || c == 'e' || c == '.' || c == 'E' || c == '+' || c == '-' then 0 else -8
            case InString(_) => code == 0
            case AtSign => code == 0
            case AtKey => code == if c == 'e' then 0 else if |p.stack| >= 50 then -5 else if digit then 0 else -6
            case AtItem =>
              code == if c == 'e' then 0 else if |p.stack| >= 50 then -5
                      else if digit || c == 'd' || c == 'l' || c == 'i' then 0 else -1
            case _ => code == if digit || c == 'd' || c == 'l' || c == 'i' then 0 else -1
  {
    hide OnValueEnd, OnStringEnd, OnNumberEnd, Push, StackOk;
    if IsDigit(c) {
      OverflowGuardIsExact(if p.mode.InLength? then p.mode.length else if p.mode.InNumber? then p.mode.magnitude else 0, DigitValue(c));
    }
  }

  /** After that error parsing goes on: the next byte may close the list or dictionary. */
  lemma TooDeepGoesOn(p: Parser, data: string)
    requires Valid(p) && !p.mode.Error? && Feed(p, data).consumed == ERR_STRUCTURE_TOO_DEEP
    ensures Feed(Feed(p, data).parser, "e").consumed == 1
  {
    hide Valid;
    ErrorsStick(p, data, 0);
    var q := Feed(p, data).parser;
    TakeByte(q, "e", 0);
    ErrorOfByte(q, 'e');
    AtTheEnd(Advance(q, 'e').parser, "e", 1);
  }

  // ----- whole inputs

  lemma {:induction false} BufferExplained(p: Parser, data: string, k: nat)
    requires Valid(p) && !p.mode.Error? && k <= |data| && Explained(p, data[..k])
    ensures var r := Resume(p, data, k); r.consumed >= 0 ==> Explained(r.parser, data[..r.consumed])
    decreases |data| - k
  {
    hide Advance, Valid, Explained;
    if !Stopped(p) && k < |data| {
      TakeByte(p, data, k);
      if Advance(p, data[k]).code == 0 {
        ByteExplained(p, data[..k], data[k]);
        assert data[..k + 1] == data[..k] + [data[k]];
        ErrorOfByte(p, data[k]);
        BufferExplained(Advance(p, data[k]).parser, data, k + 1);
      }
    } else {
      AtTheEnd(p, data, k);
    }
  }

  /** What is accepted is a text. */
  lemma AcceptedIsText(data: string) returns (t: Tree)
    requires Feed(INIT, data).parser.mode.Finish?
    ensures WellFormed(t) && Write(t) <= data && |Write(t)| == Feed(INIT, data).consumed
  {
    hide Resume, Write, WellFormed;
    var r := Feed(INIT, data);
    assert data[..0] == "";
    assert Explains(INIT, "", [], Nothing);
    FinishedIsNoError(data);
    BufferExplained(INIT, data, 0);
    var frames, o :| Explains(r.parser, data[..r.consumed], frames, o);
    RootFrames(r.parser.stack, frames);
    t := o.tree;
    assert ContextText([]) + Write(t) == Write(t);
  }

  lemma FinishedIsNoError(data: string)
    requires Feed(INIT, data).parser.mode.Finish?
    ensures Feed(INIT, data).consumed >= 0 && Feed(INIT, data).parser.stack == [FINISH]
  {
    if Feed(INIT, data).consumed < 0 {
      ErrorsStick(INIT, data, 0);
    }
  }

  /**
    The accepted language. Parsing finishes after n bytes if and only if these are a text of a value
    whose numerals, lengths and nesting fit; the callbacks are then exactly those of the value.
   */
  lemma AcceptsExactly(data: string, n: nat)
    ensures var r := Feed(INIT, data);
            r.parser.mode.Finish? && r.consumed == n <==>
            exists t :: WellFormed(t) && TreeFits(t, 49) && |Write(t)| == n && Write(t) <= data
    ensures forall t | WellFormed(t) && TreeFits(t, 49) && Write(t) <= data ::
              Feed(INIT, data) == Fed(Parser(Finish, [FINISH], Events(Meaning(t))), |Write(t)|)
    ensures forall t | WellFormed(t) && !TreeFits(t, 49) && Write(t) <= data :: Feed(INIT, data).consumed == Obstacle(t, 49)
  {
    hide Resume, Write, WellFormed, TreeFits, Obstacle, Meaning, Events;
    forall t | WellFormed(t) && Write(t) <= data
      ensures var r := Feed(INIT, data);
              if TreeFits(t, 49) then r == Fed(Parser(Finish, [FINISH], Events(Meaning(t))), |Write(t)|)
              else r.consumed == Obstacle(t, 49) < 0
    {
      assert data == Write(t) + data[|Write(t)|..];
      TextIsRead(t, data[|Write(t)|..]);
    }
    if Feed(INIT, data).parser.mode.Finish? {
      var t := AcceptedIsText(data);
    }
  }

  /**
    The parser at work: however the input is cut, it finishes exactly when it begins with a text that fits;
    the callbacks are those of the value and the result is the length of the text, or else the error code of
    a text that does not fit.
   */
  method Decode(pieces: seq<string>) returns (rv: int, finished: bool, events: seq<Event>)
    ensures finished <==> exists t :: WellFormed(t) && TreeFits(t, 49) && Write(t) <= Concat(pieces)
    ensures forall t | WellFormed(t) && TreeFits(t, 49) && Write(t) <= Concat(pieces) ::
              rv == |Write(t)| && BencodeParser.Joined(events) == Events(Meaning(t))
    ensures forall t | WellFormed(t) && !TreeFits(t, 49) && Write(t) <= Concat(pieces) :: rv == Obstacle(t, 49)
  {
    hide Resume, WellFormed, Write, TreeFits, Meaning, Events, Obstacle, BencodeParser.Joined;
    var parser := new BencodeParser.BencodeParser();
    rv := parser.ParsePieces(pieces);
    finished, events := parser.currentState == FINISH, parser.events;
    FinishedMode(parser);
    if finished {
      FinishedIsNoError(Concat(pieces));
    }
    AcceptsExactly(Concat(pieces), if rv < 0 then 0 else rv);
  }

  lemma FinishedMode(parser: BencodeParser.BencodeParser)
    requires parser.Ready()
    ensures parser.currentState == FINISH <==> parser.Abs().mode.Finish?
    ensures parser.Abs().log == BencodeParser.Joined(parser.events)
  {
  }
}
