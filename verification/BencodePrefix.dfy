/**
  What proper nesting means: the callbacks so far are the first ones of some value, whatever bytes the
  parser was given and whatever errors it has reported.
 */
module BencodePrefix {
  import opened BencodeValues
  import opened BencodeMachine
  import opened BencodeRoundTrip
  import opened BencodeSoundness
  import opened Options
  import opened Text

  lemma PrefixUnder(a: seq<Event>, b: seq<Event>, before: seq<Event>, after: seq<Event>)
    requires a <= b
    ensures before + a <= (before + b) + after
  {
  }

  /** Closing a list or dictionary behind one more value. */
  function Closed(f: Frame, w: Value): Value {
    match f
    case OfList(items) => List(AppendItem(items, w))
    case OfKey(entries) => Dict(AppendEntry(entries, "", w))
    case OfVal(entries, key) => Dict(AppendEntry(entries, key, w))
  }

  lemma ClosedBegins(f: Frame, part: seq<Event>, w: Value)
    requires !f.OfKey? && part <= Events(w)
    ensures FrameEvents(f) + part <= Events(Closed(f, w))
  {
    hide Events, ItemsEvents, EntriesEvents, KeyEvents, ItemEvents, EntryEvents;
    if f.OfList? {
      ListEvents(f.items, w);
      PrefixUnder(part, Events(w), FrameEvents(f), [End(ArrayDataT), End(ArrayT)]);
    } else {
      DictEvents(f.entries, f.key, w);
      PrefixUnder(part, Events(w), FrameEvents(f), [End(DictDataT), End(DictT)]);
    }
  }

  lemma ListEvents(items: Items, w: Value)
    ensures Events(List(AppendItem(items, w))) == (FrameEvents(OfList(items)) + Events(w)) + [End(ArrayDataT), End(ArrayT)]
  {
    AppendItemEvents(items, w, 0);
    hide ItemsEvents;
    var done, value := ItemsEvents(items), Events(w);
    assert [Begin(ArrayT)] + ((done + ([Begin(ArrayDataT)] + (value + [End(ArrayDataT)]))) + [End(ArrayT)]) ==
           (([Begin(ArrayT)] + done + [Begin(ArrayDataT)]) + value) + [End(ArrayDataT), End(ArrayT)];
  }

  lemma DictEvents(entries: Entries, key: string, w: Value)
    ensures Events(Dict(AppendEntry(entries, key, w))) ==
            (FrameEvents(OfVal(entries, key)) + Events(w)) + [End(DictDataT), End(DictT)]
  {
    AppendEntryEvents(entries, key, w, 0);
    hide EntriesEvents, KeyEvents;
    var done, value, head := EntriesEvents(entries), Events(w), KeyEvents(key);
    assert [Begin(DictT)] + ((done + (head + (value + [End(DictDataT)]))) + [End(DictT)]) ==
           (([Begin(DictT)] + done + head) + value) + [End(DictDataT), End(DictT)];
  }

  /** The part of a value in its context is the beginning of a value around it. */
  lemma {:induction false} ContextBegins(frames: seq<Frame>, part: seq<Event>, w: Value)
    requires part <= Events(w) && forall i | 0 <= i < |frames| :: !frames[i].OfKey?
    ensures exists v :: ContextEvents(frames) + part <= Events(v)
    decreases |frames|
  {
    hide Events, FrameEvents;
    if frames == [] {
      assert [] + part == part;
    } else {
      var outer, f := frames[..|frames| - 1], frames[|frames| - 1];
      ClosedBegins(f, part, w);
      ContextBegins(outer, FrameEvents(f) + part, Closed(f, w));
      Assoc(ContextEvents(outer), FrameEvents(f), part);
    }
  }

  /** The same of a key that has been read up to some point. */
  lemma KeyBegins(frames: seq<Frame>, part: seq<Event>, key: string)
    requires frames != [] && frames[|frames| - 1].OfKey? && forall i | 0 <= i < |frames| - 1 :: !frames[i].OfKey?
    requires part <= [Characters(key)]
    ensures exists v :: ContextEvents(frames) + part <= Events(v)
  {
    hide Events, FrameEvents;
    var outer, f, w := frames[..|frames| - 1], frames[|frames| - 1], Int(0);
    var v := Dict(AppendEntry(f.entries, key, w));
    DictEvents(f.entries, key, w);
    KeyFrameBegins(f.entries, part, key);
    ContextBegins(outer, FrameEvents(f) + part, v);
    Assoc(ContextEvents(outer), FrameEvents(f), part);
  }

  lemma KeyFrameBegins(entries: Entries, part: seq<Event>, key: string)
    requires part <= [Characters(key)]
    ensures FrameEvents(OfKey(entries)) + part <= FrameEvents(OfVal(entries, key))
  {
    hide EntriesEvents;
    var start := [Begin(DictT)] + EntriesEvents(entries);
    Assoc(start, [Begin(DictKeyT)], part);
    assert [Begin(DictKeyT)] + part <= KeyEvents(key);
  }

  /** Keys stand on top of the stack only. */
  lemma NoKeysBelow(p: Parser, frames: seq<Frame>)
    requires StackOk(p.stack) && FramesMatch(p.stack, frames)
    ensures forall i | 0 <= i < |frames| - 1 :: !frames[i].OfKey?
    ensures frames != [] ==> (frames[|frames| - 1].OfKey? <==> Top(p) == DICT_KEY)
    ensures frames == [] ==> Top(p) == FINISH
  {
    hide FrameFits;
    forall i | 0 <= i < |frames|
      ensures frames[i].OfKey? <==> p.stack[i + 1] == DICT_KEY
    {
      assert FrameAt(p.stack[i + 1], frames[i], MAX_STACK - (i + 1));
    }
  }

  /** The value that the open part is the beginning of. */
  function Completed(mode: Mode, o: Open): Value
    requires OpenShape(mode, o)
  {
    match mode
    case AtItem => List(o.items)
    case AtKey => Dict(o.entries)
    case InLength(_, _) => Str("")
    case InString(_) => Str(o.part)
    case Finish => o.v
    case _ => Int(0)
  }

  lemma OpenBegins(mode: Mode, o: Open)
    requires OpenShape(mode, o)
    ensures OpenEvents(mode, o, false) <= Events(Completed(mode, o))
  {
    if mode.AtItem? {
      Assoc([Begin(ArrayT)], ItemsEvents(o.items), [End(ArrayT)]);
    } else if mode.AtKey? {
      Assoc([Begin(DictT)], EntriesEvents(o.entries), [End(DictT)]);
    }
  }

  lemma ExplainedIsPrefix(p: Parser, frames: seq<Frame>, o: Open)
    requires Valid(p) && !p.mode.Error? && Explains(p, frames, o)
    ensures exists v :: p.log <= Events(v)
  {
    hide ContextEvents, FramesMatch, OpenFits, Events;
    NoKeysBelow(p, frames);
    if Top(p) == DICT_KEY {
      KeyBegins(frames, OpenEvents(p.mode, o, true), if p.mode.InString? then o.part else "");
    } else {
      OpenBegins(p.mode, o);
      ContextBegins(frames, OpenEvents(p.mode, o, false), Completed(p.mode, o));
    }
  }

  /** Nested callbacks are the first ones of a value. */
  lemma NestedIsPrefix(p: Parser)
    requires Valid(p) && Nested(p)
    ensures exists v :: p.log <= Events(v)
  {
    hide Explains, Events;
    var q := p;
    if p.mode.Error? {
      var mode: Mode :| !mode.Error? && Valid(p.(mode := mode)) && Explained(p.(mode := mode));
      q := p.(mode := mode);
    }
    var frames, o :| Explains(q, frames, o);
    ExplainedIsPrefix(q, frames, o);
  }

  /** Whatever is fed in whatever pieces, errors or not, the callbacks so far are the first ones of a value. */
  lemma CallbacksArePrefix(pieces: seq<string>)
    ensures exists v :: Pressed(INIT, pieces).log <= Events(v)
  {
    hide Nested, Pressed, Events;
    ReachedIsNested(pieces);
    NestedIsPrefix(Pressed(INIT, pieces));
  }

  // ----- brackets

  /** Reading callbacks from the left: the elements that are open afterwards, unless an end does not match its begin. */
  function Matched(open: seq<Element>, events: seq<Event>): Option<seq<Element>>
    decreases |events|
  {
    if events == [] then Some(open)
    else if events[0].Begin? then Matched(open + [events[0].element], events[1..])
    else if !events[0].End? then Matched(open, events[1..])
    else if open != [] && open[|open| - 1] == events[0].element then Matched(open[..|open| - 1], events[1..])
    else None
  }

  lemma {:induction false} MatchedParts(open: seq<Element>, a: seq<Event>, b: seq<Event>)
    ensures Matched(open, a + b) == (var m := Matched(open, a); if m.Some? then Matched(m.value, b) else None)
    decreases |a|
  {
    if a == [] {
      assert a + b == b;
    } else {
      assert (a + b)[0] == a[0] && (a + b)[1..] == a[1..] + b;
      if a[0].Begin? {
        MatchedParts(open + [a[0].element], a[1..], b);
      } else if !a[0].End? {
        MatchedParts(open, a[1..], b);
      } else if open != [] && open[|open| - 1] == a[0].element {
        MatchedParts(open[..|open| - 1], a[1..], b);
      }
    }
  }

  lemma MatchedOne(open: seq<Element>, e: Event, b: seq<Event>)
    ensures Matched(open, [e] + b) ==
            if e.Begin? then Matched(open + [e.element], b)
            else if !e.End? then Matched(open, b)
            else if open != [] && open[|open| - 1] == e.element then Matched(open[..|open| - 1], b) else None
  {
    assert ([e] + b)[0] == e && ([e] + b)[1..] == b;
  }

  /** What stands between a begin and its end leaves it open. */
  lemma MatchedInside(open: seq<Element>, e: Element, inner: seq<Event>)
    requires Matched(open + [e], inner) == Some(open + [e])
    ensures Matched(open, [Begin(e)] + (inner + [End(e)])) == Some(open)
  {
    hide Matched;
    MatchedOne(open, Begin(e), inner + [End(e)]);
    MatchedParts(open + [e], inner, [End(e)]);
    MatchedOne(open + [e], End(e), []);
    assert [End(e)] + [] == [End(e)] && (open + [e])[..|open|] == open;
    NothingMore(open);
  }

  lemma NothingMore(open: seq<Element>)
    ensures Matched(open, []) == Some(open)
  {
  }

  /** The callbacks of a value match, and leave everything around it open. */
  lemma {:induction false} EventsMatch(v: Value, open: seq<Element>)
    ensures Matched(open, Events(v)) == Some(open)
    decreases v
  {
    hide Matched;
    match v
    case Int(n) =>
      LeafMatches(open, NumberT, Number(n));
    case Str(s) =>
      LeafMatches(open, StringT, Characters(s));
    case List(items) =>
      ItemsMatch(items, open + [ArrayT]);
      MatchedInside(open, ArrayT, ItemsEvents(items));
    case Dict(entries) =>
      EntriesMatch(entries, open + [DictT]);
      MatchedInside(open, DictT, EntriesEvents(entries));
  }

  lemma LeafMatches(open: seq<Element>, e: Element, inner: Event)
    requires inner.Number? || inner.Characters?
    ensures Matched(open, [Begin(e), inner, End(e)]) == Some(open)
  {
    assert Matched(open + [e], [inner]) == Matched(open + [e], []);
    MatchedInside(open, e, [inner]);
    assert [Begin(e), inner, End(e)] == [Begin(e)] + ([inner] + [End(e)]);
  }

  lemma {:induction false} ItemsMatch(items: Items, open: seq<Element>)
    ensures Matched(open, ItemsEvents(items)) == Some(open)
    decreases items
  {
    hide Matched, Events;
    NothingMore(open);
    if items.Item? {
      EventsMatch(items.head, open + [ArrayDataT]);
      MatchedInside(open, ArrayDataT, Events(items.head));
      MatchedParts(open, ItemEvents(items.head), ItemsEvents(items.rest));
      ItemsMatch(items.rest, open);
    }
  }

  lemma {:induction false} EntriesMatch(entries: Entries, open: seq<Element>)
    ensures Matched(open, EntriesEvents(entries)) == Some(open)
    decreases entries
  {
    hide Matched, Events;
    NothingMore(open);
    if entries.Entry? {
      var key, v := entries.key, entries.value;
      LeafMatches(open, DictKeyT, Characters(key));
      EventsMatch(v, open + [DictDataT]);
      MatchedInside(open, DictDataT, Events(v));
      var keyPart, dataPart := [Begin(DictKeyT), Characters(key), End(DictKeyT)], [Begin(DictDataT)] + (Events(v) + [End(DictDataT)]);
      assert EntryEvents(key, v) == keyPart + dataPart;
      MatchedParts(open, keyPart, dataPart);
      MatchedParts(open, EntryEvents(key, v), EntriesEvents(entries.more));
      EntriesMatch(entries.more, open);
    }
  }

  /** In every state that any calls lead to, each end callback closes the element that was begun last. */
  lemma CallbacksMatch(pieces: seq<string>)
    ensures Matched([], Pressed(INIT, pieces).log).Some?
  {
    hide Pressed, Matched, Events;
    CallbacksArePrefix(pieces);
    var log := Pressed(INIT, pieces).log;
    var v :| log <= Events(v);
    EventsMatch(v, []);
    assert Events(v) == log + Events(v)[|log|..];
    MatchedParts([], log, Events(v)[|log|..]);
  }
}
