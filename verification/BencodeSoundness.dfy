/**
  Whatever bytes the parser is given, its callbacks are a properly nested prefix of the
  callbacks of a bencoded value, and exactly those of one value once it has finished.
 */
module BencodeSoundness {
  import opened BencodeValues
  import opened BencodeMachine
  import opened BencodeRoundTrip
  import opened Text

  /** An unfinished list or dictionary around the current position: one per stack entry above FINISH. */
  datatype Frame =
    | OfList(items: Items)
    | OfKey(entries: Entries)
    | OfVal(entries: Entries, key: string)

  /** The part of the value at the current position that has been read so far. */
  datatype Open =
    | Nothing
    | SomeItems(items: Items)
    | SomeEntries(entries: Entries)
    | Text(part: string)
    | Whole(v: Value)

  function FrameControl(f: Frame): Control {
    match f
    case OfList(_) => LIST
    case OfKey(_) => DICT_KEY
    case OfVal(_, _) => DICT_VAL
  }

  function FrameEvents(f: Frame): seq<Event> {
    match f
    case OfList(items) => [Begin(ArrayT)] + ItemsEvents(items) + [Begin(ArrayDataT)]
    case OfKey(entries) => [Begin(DictT)] + EntriesEvents(entries) + [Begin(DictKeyT)]
    case OfVal(entries, key) => [Begin(DictT)] + EntriesEvents(entries) + KeyEvents(key)
  }

  /** `room` is what was left of the stack when the list or dictionary began. */
  predicate FrameFits(f: Frame, room: int) {
    && 0 < room
    && match f
       case OfList(items) => ItemsFit(items, room)
       case OfKey(entries) => EntriesFit(entries, room)
       case OfVal(entries, key) => EntriesFit(entries, room) && |key| <= INT64_MAX
  }

  function ContextEvents(frames: seq<Frame>): seq<Event> {
    if frames == [] then []
    else ContextEvents(frames[..|frames| - 1]) + FrameEvents(frames[|frames| - 1])
  }

  predicate FrameAt(c: Control, f: Frame, room: int) {
    c == FrameControl(f) && FrameFits(f, room)
  }

  predicate FramesMatch(stack: seq<Control>, frames: seq<Frame>) {
    && |stack| == |frames| + 1
    && forall i | 0 < i < |stack| :: FrameAt(stack[i], frames[i - 1], MAX_STACK - i)
  }

  /** The open part has the shape the mode calls for. */
  predicate OpenShape(mode: Mode, o: Open) {
    match mode
    case AtItem => o.SomeItems?
    case AtKey => o.SomeEntries?
    case InString(_) => o.Text?
    case Finish => o.Whole?
    case _ => true
  }

  predicate OpenFits(mode: Mode, o: Open, room: int)
    requires OpenShape(mode, o)
  {
    match mode
    case AtItem => ItemsFit(o.items, room)
    case AtKey => EntriesFit(o.entries, room)
    case InString(left) => |o.part| + left <= INT64_MAX
    case Finish => Fits(o.v, room)
    case _ => true
  }

  function OpenEvents(mode: Mode, o: Open, key: bool): seq<Event>
    requires OpenShape(mode, o)
  {
    match mode
    case AtItem => [Begin(ArrayT)] + ItemsEvents(o.items)
    case AtKey => [Begin(DictT)] + EntriesEvents(o.entries)
    case InLength(_, _) => if key then [] else [Begin(StringT)]
    case InString(_) =>
      (if key then [] else [Begin(StringT)]) + (if o.part == [] then [] else [Characters(o.part)])
    case AtSign => [Begin(NumberT)]
    case InNumber(_, _, _) => [Begin(NumberT)]
    case InFloat => [Begin(NumberT)]
    case Finish => Events(o.v)
    case _ => []
  }

  /** The log is the callbacks of the enclosing frames followed by those of the open part. */
  predicate Explains(p: Parser, frames: seq<Frame>, o: Open)
    requires Valid(p)
  {
    && FramesMatch(p.stack, frames)
    && OpenShape(p.mode, o)
    && OpenFits(p.mode, o, Room(p))
    && p.log == ContextEvents(frames) + OpenEvents(p.mode, o, Top(p) == DICT_KEY)
  }

  ghost predicate Explained(p: Parser)
    requires Valid(p)
  {
    exists frames, o :: Explains(p, frames, o)
  }

  /** The log is a properly nested prefix of a value's callbacks; in an error, that of the mode it happened in. */
  ghost predicate Nested(p: Parser)
    requires Valid(p)
  {
    if p.mode.Error? then exists mode: Mode :: !mode.Error? && Valid(p.(mode := mode)) && Explained(p.(mode := mode))
    else Explained(p)
  }

  /** Giving up leaves the callbacks as they were. */
  lemma FailIsNested(p: Parser, code: int, frames: seq<Frame>, o: Open)
    requires Valid(p) && !p.mode.Error? && code < 0 && Explains(p, frames, o)
    ensures Nested(Fail(p, code).parser)
  {
    hide Explains;
    var r := Fail(p, code).parser;
    assert r.(mode := p.mode) == p && Explained(p);
  }

  lemma PopFrames(stack: seq<Control>, frames: seq<Frame>)
    requires FramesMatch(stack, frames) && frames != []
    ensures FramesMatch(Pop(stack), frames[..|frames| - 1])
    ensures stack[|stack| - 1] == FrameControl(frames[|frames| - 1])
    ensures FrameFits(frames[|frames| - 1], MAX_STACK + 1 - |stack|)
    ensures ContextEvents(frames) == ContextEvents(frames[..|frames| - 1]) + FrameEvents(frames[|frames| - 1])
  {
    hide FrameFits, FrameEvents;
    PopMatch(stack, frames);
  }

  lemma PopMatch(stack: seq<Control>, frames: seq<Frame>)
    requires FramesMatch(stack, frames) && frames != []
    ensures FramesMatch(Pop(stack), frames[..|frames| - 1])
    ensures stack[|stack| - 1] == FrameControl(frames[|frames| - 1])
    ensures FrameFits(frames[|frames| - 1], MAX_STACK + 1 - |stack|)
  {
    assert FrameAt(stack[|stack| - 1], frames[|frames| - 1], MAX_STACK - |frames|);
    hide FrameFits, FrameAt, FrameControl;
    var below, outer := Pop(stack), frames[..|frames| - 1];
    forall i | 0 < i < |below|
      ensures FrameAt(below[i], outer[i - 1], MAX_STACK - i)
    {
      assert FrameAt(stack[i], frames[i - 1], MAX_STACK - i);
    }
  }

  lemma FramesUnder(stack: seq<Control>, frames: seq<Frame>)
    requires StackOk(stack) && FramesMatch(stack, frames)
    ensures frames == [] <==> stack[|stack| - 1] == FINISH
  {
  }

  lemma PushFrame(stack: seq<Control>, frames: seq<Frame>, f: Frame)
    requires FramesMatch(stack, frames) && FrameFits(f, MAX_STACK - |stack|)
    ensures FramesMatch(stack + [FrameControl(f)], frames + [f])
    ensures ContextEvents(frames + [f]) == ContextEvents(frames) + FrameEvents(f)
  {
    hide FrameFits, FrameEvents;
    assert (frames + [f])[..|frames|] == frames;
  }

  // ----- the end of a value or of a key

  /** A whole value that fits becomes an item, an entry or the result. */
  lemma ValueEnds(stack: seq<Control>, log: seq<Event>, frames: seq<Frame>, v: Value)
    requires StackOk(stack) && IsContext(stack[|stack| - 1])
    requires FramesMatch(stack, frames) && Fits(v, MAX_STACK - |stack|)
    requires log == ContextEvents(frames) + Events(v)
    ensures Nested(OnValueEnd(stack, log))
  {
    hide FramesMatch, ContextEvents, Fits, Events, StackOk;
    if frames == [] {
      RootEnds(stack, log, frames, v);
    } else {
      PopFrames(stack, frames);
      match frames[|frames| - 1]
      case OfList(items) => ItemEnds(stack, log, frames, items, v);
      case OfVal(entries, key) => EntryEnds(stack, log, frames, entries, key, v);
    }
  }

  lemma RootEnds(stack: seq<Control>, log: seq<Event>, frames: seq<Frame>, v: Value)
    requires StackOk(stack) && FramesMatch(stack, frames) && frames == [] && Fits(v, MAX_STACK - |stack|)
    requires log == ContextEvents(frames) + Events(v)
    ensures Nested(OnValueEnd(stack, log))
  {
    hide Fits, Events;
    assert Explains(OnValueEnd(stack, log), frames, Whole(v));
  }

  lemma ItemEnds(stack: seq<Control>, log: seq<Event>, frames: seq<Frame>, items: Items, v: Value)
    requires StackOk(stack) && FramesMatch(stack, frames) && Fits(v, MAX_STACK - |stack|)
    requires frames != [] && frames[|frames| - 1] == OfList(items)
    requires log == ContextEvents(frames) + Events(v)
    ensures Nested(OnValueEnd(stack, log))
  {
    hide FramesMatch, ContextEvents, Fits, Events, ItemsEvents, ItemsFit, ItemEvents, FrameEvents;
    PopFrames(stack, frames);
    var r, outer := OnValueEnd(stack, log), frames[..|frames| - 1];
    ItemLog(ContextEvents(outer), items, v);
    AppendItemEvents(items, v, Room(r));
    assert Explains(r, outer, SomeItems(AppendItem(items, v)));
  }

  lemma EntryEnds(stack: seq<Control>, log: seq<Event>, frames: seq<Frame>, entries: Entries, key: string, v: Value)
    requires StackOk(stack) && FramesMatch(stack, frames) && Fits(v, MAX_STACK - |stack|)
    requires frames != [] && frames[|frames| - 1] == OfVal(entries, key)
    requires log == ContextEvents(frames) + Events(v)
    ensures Nested(OnValueEnd(stack, log))
  {
    hide FramesMatch, ContextEvents, Fits, Events, EntriesEvents, EntriesFit, EntryEvents, FrameEvents;
    PopFrames(stack, frames);
    var r, outer := OnValueEnd(stack, log), frames[..|frames| - 1];
    EntryLog(ContextEvents(outer), entries, key, v);
    AppendEntryEvents(entries, key, v, Room(r));
    assert Explains(r, outer, SomeEntries(AppendEntry(entries, key, v)));
  }

  lemma ItemLog(log: seq<Event>, items: Items, v: Value)
    ensures (log + FrameEvents(OfList(items))) + Events(v) + [End(ArrayDataT)] ==
            log + ([Begin(ArrayT)] + (ItemsEvents(items) + ItemEvents(v)))
  {
    hide Events, ItemsEvents;
    var frame, done := FrameEvents(OfList(items)), ItemsEvents(items);
    Assoc(log + frame, Events(v), [End(ArrayDataT)]);
    Assoc(log, frame, Events(v) + [End(ArrayDataT)]);
    Assoc([Begin(ArrayT)] + done, [Begin(ArrayDataT)], Events(v) + [End(ArrayDataT)]);
    Assoc([Begin(ArrayT)], done, ItemEvents(v));
  }

  lemma EntryLog(log: seq<Event>, entries: Entries, key: string, v: Value)
    ensures (log + FrameEvents(OfVal(entries, key))) + Events(v) + [End(DictDataT)] ==
            log + ([Begin(DictT)] + (EntriesEvents(entries) + EntryEvents(key, v)))
  {
    hide Events, EntriesEvents, KeyEvents;
    var frame, done := FrameEvents(OfVal(entries, key)), EntriesEvents(entries);
    Assoc(log + frame, Events(v), [End(DictDataT)]);
    Assoc(log, frame, Events(v) + [End(DictDataT)]);
    Assoc([Begin(DictT)] + done, KeyEvents(key), Events(v) + [End(DictDataT)]);
    Assoc([Begin(DictT)], done, EntryEvents(key, v));
  }

  /** A key's end turns the key frame into a value frame. */
  lemma KeyEnds(stack: seq<Control>, log: seq<Event>, frames: seq<Frame>, key: string)
    requires StackOk(stack) && stack[|stack| - 1] == DICT_KEY
    requires FramesMatch(stack, frames) && |key| <= INT64_MAX
    requires log == ContextEvents(frames) + [Characters(key)]
    ensures Nested(OnStringEnd(stack, log))
  {
    hide ContextEvents, EntriesEvents, EntriesFit, FramesMatch;
    FramesUnder(stack, frames);
    PopFrames(stack, frames);
    var outer, f := frames[..|frames| - 1], frames[|frames| - 1];
    var val := OfVal(f.entries, key);
    PushFrame(Pop(stack), outer, val);
    assert Explains(OnStringEnd(stack, log), outer + [val], Nothing);
  }

  /** A string or a key, once all its characters are there. */
  lemma StringEnds(stack: seq<Control>, log: seq<Event>, frames: seq<Frame>, s: string)
    requires StackOk(stack) && FramesMatch(stack, frames) && |s| <= INT64_MAX
    requires log == ContextEvents(frames) +
                    ((if stack[|stack| - 1] == DICT_KEY then [] else [Begin(StringT)]) + [Characters(s)])
    ensures Nested(OnStringEnd(stack, log))
  {
    if stack[|stack| - 1] == DICT_KEY {
      assert [] + [Characters(s)] == [Characters(s)];
      KeyEnds(stack, log, frames, s);
    } else {
      assert log + [End(StringT)] == ContextEvents(frames) + Events(Str(s));
      ValueEnds(stack, log + [End(StringT)], frames, Str(s));
    }
  }

  // ----- one byte

  lemma ValueByte(p: Parser, c: char, frames: seq<Frame>)
    requires Valid(p) && (p.mode.Initial? || p.mode.AtValue?) && FramesMatch(p.stack, frames)
    requires p.log == ContextEvents(frames)
    ensures Nested(StepValue(p, c).parser)
  {
    hide FramesMatch, ContextEvents;
    assert Explains(p, frames, Nothing);
    if c == 'd' || c == 'l' || c == 'i' || IsDigit(c) {
      var o := if c == 'd' then SomeEntries(NoEntries) else if c == 'l' then SomeItems(NoItems) else Nothing;
      assert Explains(StepValue(p, c).parser, frames, o);
    } else {
      FailIsNested(p, ERR_UNEXPECTED_CHAR_BEFORE_VAL, frames, Nothing);
    }
  }

  lemma ItemByte(p: Parser, c: char, frames: seq<Frame>, o: Open)
    requires Valid(p) && p.mode.AtItem? && Explains(p, frames, o)
    ensures Nested(StepItem(p, c).parser)
  {
    hide FramesMatch, ContextEvents, OnValueEnd, StepValue;
    var context := ContextEvents(frames);
    if c == 'e' {
      Assoc(context, [Begin(ArrayT)] + ItemsEvents(o.items), [End(ArrayT)]);
      Assoc([Begin(ArrayT)], ItemsEvents(o.items), [End(ArrayT)]);
      ValueEnds(p.stack, p.log + [End(ArrayT)], frames, List(o.items));
    } else if |p.stack| < MAX_STACK {
      PushFrame(p.stack, frames, OfList(o.items));
      Assoc(context, [Begin(ArrayT)] + ItemsEvents(o.items), [Begin(ArrayDataT)]);
      ValueByte(ItemContext(p), c, frames + [OfList(o.items)]);
    } else {
      assert Explains(p, frames, o);
    }
  }

  lemma KeyByte(p: Parser, c: char, frames: seq<Frame>, o: Open)
    requires Valid(p) && p.mode.AtKey? && Explains(p, frames, o)
    ensures Nested(StepKey(p, c).parser)
  {
    hide FramesMatch, ContextEvents, OnValueEnd, StepLength;
    var context := ContextEvents(frames);
    if c == 'e' {
      Assoc(context, [Begin(DictT)] + EntriesEvents(o.entries), [End(DictT)]);
      Assoc([Begin(DictT)], EntriesEvents(o.entries), [End(DictT)]);
      ValueEnds(p.stack, p.log + [End(DictT)], frames, Dict(o.entries));
    } else if |p.stack| < MAX_STACK {
      PushFrame(p.stack, frames, OfKey(o.entries));
      Assoc(context, [Begin(DictT)] + EntriesEvents(o.entries), [Begin(DictKeyT)]);
      LengthByte(KeyContext(p), c, frames + [OfKey(o.entries)]);
    } else {
      assert Explains(p, frames, o);
    }
  }

  lemma LengthByte(p: Parser, c: char, frames: seq<Frame>)
    requires Valid(p) && p.mode.InLength? && FramesMatch(p.stack, frames)
    requires p.log == ContextEvents(frames) + (if Top(p) == DICT_KEY then [] else [Begin(StringT)])
    ensures Nested(StepLength(p, c).parser)
  {
    hide FramesMatch, ContextEvents, OnStringEnd;
    assert Explains(p, frames, Nothing);
    var r := StepLength(p, c).parser;
    if r.mode.Error? {
      FailIsNested(p, r.mode.code, frames, Nothing);
    } else if IsDigit(c) {
      assert Explains(r, frames, Nothing);
    } else {
      LengthEnds(p, frames);
    }
  }

  /** The colon behind the length. */
  lemma LengthEnds(p: Parser, frames: seq<Frame>)
    requires Valid(p) && p.mode.InLength? && p.mode.digits != 0 && FramesMatch(p.stack, frames)
    requires p.log == ContextEvents(frames) + (if Top(p) == DICT_KEY then [] else [Begin(StringT)])
    ensures Nested(StepLength(p, ':').parser)
  {
    hide FramesMatch, ContextEvents, OnStringEnd;
    if p.mode.length == 0 {
      Assoc(ContextEvents(frames), if Top(p) == DICT_KEY then [] else [Begin(StringT)], [Characters([])]);
      EmptyStringLog(p, frames);
      StringEnds(p.stack, Push(p.log, Characters([])), frames, []);
    } else {
      assert Explains(StepLength(p, ':').parser, frames, Text(""));
    }
  }

  /** No context ends in characters, so those of a string never join anything before it. */
  lemma ContextEnds(frames: seq<Frame>)
    ensures var events := ContextEvents(frames); events == [] || !events[|events| - 1].Characters?
  {
  }

  lemma EmptyStringLog(p: Parser, frames: seq<Frame>)
    requires StackOk(p.stack)
    requires p.log == ContextEvents(frames) + (if Top(p) == DICT_KEY then [] else [Begin(StringT)])
    ensures Push(p.log, Characters([])) == p.log + [Characters([])]
  {
    ContextEnds(frames);
  }

  lemma StringByte(p: Parser, c: char, frames: seq<Frame>, o: Open)
    requires Valid(p) && p.mode.InString? && Explains(p, frames, o)
    ensures Nested(StepString(p, c).parser)
  {
    hide FramesMatch, ContextEvents, OnStringEnd;
    var head := if Top(p) == DICT_KEY then [] else [Begin(StringT)];
    var log := Push(p.log, Characters([c]));
    CharacterLog(p.log, ContextEvents(frames), head, o.part, c) by { ContextEnds(frames); }
    if p.mode.left == 1 {
      StringEnds(p.stack, log, frames, o.part + [c]);
    } else {
      assert Explains(StepString(p, c).parser, frames, Text(o.part + [c]));
    }
  }

  lemma CharacterLog(log: seq<Event>, context: seq<Event>, head: seq<Event>, part: string, c: char)
    requires context == [] || !context[|context| - 1].Characters?
    requires head == [] || head == [Begin(StringT)]
    requires log == context + (head + (if part == [] then [] else [Characters(part)]))
    ensures Push(log, Characters([c])) == context + (head + [Characters(part + [c])])
  {
    if part != [] {
      assert log[..|log| - 1] == context + head;
      assert log[|log| - 1] == Characters(part);
    } else {
      assert [] + [c] == [c];
    }
  }

  lemma NumberByte(p: Parser, c: char, frames: seq<Frame>, o: Open)
    requires Valid(p) && (p.mode.AtSign? || p.mode.InNumber? || p.mode.InFloat?) && Explains(p, frames, o)
    ensures Nested(Advance(p, c).parser)
  {
    hide FramesMatch, ContextEvents, OnNumberEnd;
    var r := Advance(p, c).parser;
    var ends := c == 'e' && (p.mode.InFloat? || (p.mode.InNumber? && p.mode.digits != 0));
    if ends {
      var n := if p.mode.InFloat? then 0 else p.mode.sign * p.mode.magnitude;
      assert -INT64_MAX <= n <= INT64_MAX;
      NumberEnds(p, frames, n);
    } else if r.mode.Error? {
      FailIsNested(p, r.mode.code, frames, o);
    } else {
      assert Explains(r, frames, Nothing);
    }
  }

  lemma NumberEnds(p: Parser, frames: seq<Frame>, n: int)
    requires StackOk(p.stack) && IsContext(Top(p)) && FramesMatch(p.stack, frames)
    requires p.log == ContextEvents(frames) + [Begin(NumberT)]
    requires -INT64_MAX <= n <= INT64_MAX
    ensures Nested(OnNumberEnd(p.stack, p.log, n))
  {
    hide FramesMatch, ContextEvents, OnValueEnd;
    var log := p.log + [Number(n)] + [End(NumberT)];
    assert log == ContextEvents(frames) + Events(Int(n));
    ValueEnds(p.stack, log, frames, Int(n));
  }

  /** Every byte keeps the callbacks properly nested. */
  lemma ByteKeepsNesting(p: Parser, c: char)
    requires Valid(p) && !Stopped(p) && Nested(p)
    ensures Nested(Advance(p, c).parser)
  {
    hide FramesMatch, ContextEvents, StackOk;
    var frames, o :| Explains(p, frames, o);
    match p.mode
    case Initial => ValueByte(p, c, frames);
    case AtValue => ValueByte(p, c, frames);
    case AtItem => ItemByte(p, c, frames, o);
    case AtKey => KeyByte(p, c, frames, o);
    case InLength(_, _) => LengthByte(p, c, frames);
    case InString(_) => StringByte(p, c, frames, o);
    case _ => NumberByte(p, c, frames, o);
  }

  lemma {:induction false} BufferKeepsNesting(p: Parser, data: string, k: nat)
    requires Valid(p) && Nested(p) && k <= |data|
    ensures Nested(Resume(p, data, k).parser)
    decreases |data| - k
  {
    hide Advance, Valid, Nested;
    if !Stopped(p) && k < |data| {
      TakeByte(p, data, k);
      ByteKeepsNesting(p, data[k]);
      if Advance(p, data[k]).code == 0 {
        BufferKeepsNesting(Advance(p, data[k]).parser, data, k + 1);
      }
    }
  }

  /** Feeding pieces up to the first failure keeps it as well. */
  lemma {:induction false} ReachableIsNested(p: Parser, pieces: seq<string>)
    requires Valid(p) && Nested(p)
    ensures Nested(FeedAll(p, pieces).parser)
    decreases |pieces|
  {
    hide Valid, Nested, Resume;
    if pieces != [] {
      BufferKeepsNesting(p, pieces[0], 0);
      ReachableIsNested(Feed(p, pieces[0]).parser, pieces[1..]);
    }
  }

  /** The parser after feeding every piece, whatever each call returns. */
  function Pressed(p: Parser, pieces: seq<string>): (r: Parser)
    requires Valid(p)
    ensures Valid(r)
    decreases |pieces|
  {
    if pieces == [] then p else Pressed(Feed(p, pieces[0]).parser, pieces[1..])
  }

  /** That holds for runs that go on after an error as well. */
  lemma {:induction false} PressedIsNested(p: Parser, pieces: seq<string>)
    requires Valid(p) && Nested(p)
    ensures Nested(Pressed(p, pieces))
    decreases |pieces|
  {
    hide Valid, Nested, Resume;
    if pieces != [] {
      BufferKeepsNesting(p, pieces[0], 0);
      PressedIsNested(Feed(p, pieces[0]).parser, pieces[1..]);
    }
  }

  lemma StartIsNested()
    ensures Nested(INIT)
  {
    assert Explains(INIT, [], Nothing);
  }

  /** So in every state that any calls at all lead to, in error or not. */
  lemma ReachedIsNested(pieces: seq<string>)
    ensures Nested(Pressed(INIT, pieces))
  {
    hide Nested;
    StartIsNested();
    PressedIsNested(INIT, pieces);
  }

  /**
    Any run that finishes, canonical or not and errors on its way or not, has produced exactly the
    callbacks of one value that fits; parsing the canonical encoding of that value ends in the same state.
   */
  lemma AcceptedIsOneValue(p: Parser, pieces: seq<string>)
    requires Valid(p) && Nested(p) && Pressed(p, pieces).mode.Finish?
    ensures exists v ::
              && Fits(v, MAX_STACK - 1)
              && Pressed(p, pieces).log == Events(v)
              && Feed(INIT, Encode(v)).parser == Pressed(p, pieces)
  {
    hide Resume, Pressed, Fits, Events;
    PressedIsNested(p, pieces);
    var r := Pressed(p, pieces);
    var frames, o :| Explains(r, frames, o);
    assert frames == [] && ContextEvents(frames) + Events(o.v) == Events(o.v);
    RoundTrip(o.v, "");
    assert Encode(o.v) + "" == Encode(o.v);
  }
}
