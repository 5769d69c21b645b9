/**
  Parsing a text of a value: exactly those are accepted whose numerals, lengths and nesting fit, with
  exactly the events of the value, and parsing stops right behind the text. Canonical encodings are a
  special case.
 */
module BencodeRoundTrip {
  import opened BencodeValues
  import opened BencodeMachine
  import opened BencodeTexts
  import opened Text

  /** The state left by a whole value whose events have been appended to the log. */
  function Done(p: Parser, events: seq<Event>): (r: Parser)
    requires StackOk(p.stack)
    ensures Valid(r)
  {
    OnValueEnd(p.stack, p.log + events)
  }

  function Room(p: Parser): int { MAX_STACK - |p.stack| }

  // ----- digits

  /** The two modes that accumulate digits. */
  function Digits(number: bool, sign: int, acc: nat, count: nat): Mode {
    if number then InNumber(sign, acc, count) else InLength(acc, count)
  }

  predicate DigitsValid(p: Parser, number: bool, sign: int) {
    && StackOk(p.stack)
    && (number ==> IsContext(Top(p)) && (sign == 1 || sign == -1))
  }

  lemma ReadDigit(p: Parser, number: bool, sign: int, acc: nat, count: nat, data: string, k: nat)
    requires DigitsValid(p, number, sign) && acc <= INT64_MAX && (count == 0 ==> acc == 0)
    requires k < |data| && IsDigit(data[k])
    ensures var start, n := p.(mode := Digits(number, sign, acc, count)), acc * 10 + DigitValue(data[k]);
            if n <= INT64_MAX then
              Resume(start, data, k) == Resume(p.(mode := Digits(number, sign, n, count + 1)), data, k + 1)
            else Resume(start, data, k).consumed == if number then -3 else -7
  {
    hide Resume, OnStringEnd, OnNumberEnd;
    TakeByte(p.(mode := Digits(number, sign, acc, count)), data, k);
    OverflowGuardIsExact(acc, DigitValue(data[k]));
  }

  /** Digits are read to their value, leading zeros included, or refused when above INT64_MAX. */
  lemma {:induction false} ReadDigits(p: Parser, number: bool, sign: int, digits: string, data: string, k: nat)
    requires DigitsValid(p, number, sign) && AllDigits(digits) && At(data, k, digits)
    ensures var start, n := p.(mode := Digits(number, sign, 0, 0)), NumeralValue(digits);
            if n <= INT64_MAX then
              Resume(start, data, k) == Resume(p.(mode := Digits(number, sign, n, |digits|)), data, k + |digits|)
            else Resume(start, data, k).consumed == if number then -3 else -7
    decreases |digits|
  {
    hide Resume, At, StackOk, AllDigits, NumeralValue, IsDigit;
    NumeralParts(digits);
    if digits != [] {
      var init, c := digits[..|digits| - 1], digits[|digits| - 1];
      AtSplit(data, k, init, [c]);
      AtHead(data, k + |init|, [c]);
      ReadDigits(p, number, sign, init, data, k);
      if NumeralValue(init) <= INT64_MAX {
        NumeralParts(init);
        ReadDigit(p, number, sign, NumeralValue(init), |init|, data, k + |init|);
      }
    }
  }

  // ----- strings

  /** n bytes of a string's body, read one by one, arrive as one joined characters event. */
  lemma {:induction false} ReadBody(p: Parser, data: string, k: nat, n: nat)
    requires Valid(p) && p.mode.InString? && 0 < n <= p.mode.left && k + n <= |data|
    ensures var log := Push(p.log, Characters(data[k..k + n]));
            Resume(p, data, k) ==
            if n == p.mode.left then Resume(OnStringEnd(p.stack, log), data, k + n)
            else Resume(Parser(InString(p.mode.left - n), p.stack, log), data, k + n)
    decreases n
  {
    hide Resume, OnStringEnd, StackOk, Push;
    var step := StepString(p, data[k]);
    TakeByte(p, data, k);
    assert data[k..k + 1] == [data[k]];
    if 1 < n {
      ReadBody(step.parser, data, k + 1, n - 1);
      PushJoins(p.log, data[k..k + 1], data[k + 1..k + n]);
      assert data[k..k + n] == data[k..k + 1] + data[k + 1..k + n];
    }
  }

  /** ":" and the body, once the length is known. */
  lemma ReadStringTail(p: Parser, s: string, digits: nat, data: string, k: nat)
    requires StackOk(p.stack) && |s| <= INT64_MAX && 0 < digits
    requires At(data, k, ":" + s)
    requires p.log != [] && !p.log[|p.log| - 1].Characters?
    ensures Resume(p.(mode := InLength(|s|, digits)), data, k) ==
            Resume(OnStringEnd(p.stack, p.log + [Characters(s)]), data, k + 1 + |s|)
  {
    hide Resume, OnStringEnd, StackOk, At;
    AtHead(data, k, ":" + s);
    AtSplit(data, k, ":", s);
    TakeByte(p.(mode := InLength(|s|, digits)), data, k);
    if s != [] {
      ReadBody(p.(mode := InString(|s|)), data, k + 1, |s|);
    }
  }

  /** A whole string, length included, after the begin event of a string or of a key. */
  lemma ReadString(p: Parser, length: string, s: string, data: string, k: nat)
    requires StackOk(p.stack) && IsLength(length, s)
    requires At(data, k, StringText(length, s))
    requires p.log != [] && !p.log[|p.log| - 1].Characters?
    ensures var start := p.(mode := InLength(0, 0));
            if |s| <= INT64_MAX then
              Resume(start, data, k) ==
              Resume(OnStringEnd(p.stack, p.log + [Characters(s)]), data, k + |StringText(length, s)|)
            else Resume(start, data, k).consumed == -7
  {
    hide Resume, OnStringEnd, At, NumeralValue, AllDigits;
    AtSplit(data, k, length, ":" + s);
    ReadDigits(p, false, 1, length, data, k);
    if |s| <= INT64_MAX {
      ReadStringTail(p, s, |length|, data, k + |length|);
    }
  }

  lemma ReadStr(p: Parser, length: string, s: string, data: string, k: nat)
    requires Valid(p) && (p.mode.Initial? || p.mode.AtValue?)
    requires IsLength(length, s) && At(data, k, StringText(length, s))
    ensures if |s| <= INT64_MAX then
              Resume(p, data, k) == Resume(Done(p, Events(Str(s))), data, k + |StringText(length, s)|)
            else Resume(p, data, k).consumed == -7
  {
    hide Resume, OnValueEnd, At, Advance, StackOk, StringText;
    StringBegins(length, s);
    AtHead(data, k, StringText(length, s));
    var q := p.(log := p.log + [Begin(StringT)]);
    EnterString(p, data, k);
    ReadString(q, length, s, data, k);
    StringLog(p, s);
  }

  lemma EnterString(p: Parser, data: string, k: nat)
    requires Valid(p) && (p.mode.Initial? || p.mode.AtValue?)
    requires k < |data| && IsDigit(data[k])
    ensures Resume(p, data, k) == Resume(Parser(InLength(0, 0), p.stack, p.log + [Begin(StringT)]), data, k)
  {
    hide Resume, StackOk;
    TakeByte(p, data, k);
    TakeByte(Parser(InLength(0, 0), p.stack, p.log + [Begin(StringT)]), data, k);
  }

  lemma StringLog(p: Parser, s: string)
    requires StackOk(p.stack) && IsContext(Top(p))
    ensures OnStringEnd(p.stack, p.log + [Begin(StringT)] + [Characters(s)]) == Done(p, Events(Str(s)))
  {
    hide StackOk;
    assert p.log + [Begin(StringT)] + [Characters(s)] + [End(StringT)] == p.log + Events(Str(s));
  }

  // ----- numbers

  lemma ReadNumber(p: Parser, junk: string, sign: string, digits: string, tail: string, data: string, k: nat)
    requires Valid(p) && (p.mode.Initial? || p.mode.AtValue?)
    requires WellFormed(NumberTree(junk, sign, digits, tail)) && At(data, k, Write(NumberTree(junk, sign, digits, tail)))
    ensures var t := NumberTree(junk, sign, digits, tail);
            if NumeralValue(digits) <= INT64_MAX then
              Resume(p, data, k) == Resume(Done(p, Events(Meaning(t))), data, k + |Write(t)|)
            else Resume(p, data, k).consumed == -3
  {
    hide At, StackOk, Resume, OnValueEnd, Advance, OnNumberEnd, NumeralValue, AllDigits, IsJunk, IsTail;
    var q := Parser(AtSign, p.stack, p.log + [Begin(NumberT)]);
    NumberParts(junk, sign, digits, tail, data, k);
    EnterNumber(p, data, k);
    SkipsBeforeNumber(q, junk, data, k + 1);
    var at := k + 1 + |junk|;
    ReadSign(q, sign, data, at);
    ReadMagnitude(q, SignOf(sign), digits, tail, data, at + |sign|);
    NumberLog(p, if tail != "" then 0 else SignOf(sign) * NumeralValue(digits));
  }

  /** The text of a number, taken apart. */
  lemma NumberParts(junk: string, sign: string, digits: string, tail: string, data: string, k: nat)
    requires IsNumeral(digits) && At(data, k, NumberText(junk, sign, digits, tail) + "e")
    ensures k < |data| && data[k] == 'i' && At(data, k + 1, junk) && At(data, k + 1 + |junk|, sign)
    ensures var at := k + 1 + |junk| + |sign|; At(data, at, digits + (tail + "e")) && at < |data| && IsDigit(data[at])
    ensures |NumberText(junk, sign, digits, tail)| == 1 + |junk| + |sign| + |digits| + |tail|
  {
    hide At;
    Assoc("i", junk + (sign + (digits + tail)), "e");
    Assoc(junk, sign + (digits + tail), "e");
    Assoc(sign, digits + tail, "e");
    Assoc(digits, tail, "e");
    AtSplit(data, k, "i", junk + (sign + (digits + (tail + "e"))));
    AtHead(data, k, "i");
    AtSplit(data, k + 1, junk, sign + (digits + (tail + "e")));
    AtSplit(data, k + 1 + |junk|, sign, digits + (tail + "e"));
    AtHead(data, k + 1 + |junk| + |sign|, digits + (tail + "e"));
    assert digits[0] in digits;
  }

  lemma NumberLog(p: Parser, n: int)
    requires StackOk(p.stack)
    ensures OnNumberEnd(p.stack, p.log + [Begin(NumberT)], n) == Done(p, Events(Int(n)))
  {
    assert p.log + [Begin(NumberT)] + [Number(n)] + [End(NumberT)] == p.log + Events(Int(n));
  }

  /** The digits, and then the end of the number or its floating-point tail. */
  lemma ReadMagnitude(q: Parser, sign: int, digits: string, tail: string, data: string, k: nat)
    requires DigitsValid(q, true, sign) && IsNumeral(digits) && IsTail(tail)
    requires At(data, k, digits + (tail + "e"))
    ensures var start := q.(mode := InNumber(sign, 0, 0));
            if NumeralValue(digits) <= INT64_MAX then
              Resume(start, data, k) ==
              Resume(OnNumberEnd(q.stack, q.log, if tail != "" then 0 else sign * NumeralValue(digits)),
                     data, k + |digits| + |tail| + 1)
            else Resume(start, data, k).consumed == -3
  {
    hide At, StackOk, Resume, OnNumberEnd, Advance, NumeralValue, AllDigits, IsTail;
    AtSplit(data, k, digits, tail + "e");
    ReadDigits(q, true, sign, digits, data, k);
    if NumeralValue(digits) <= INT64_MAX {
      if tail == "" {
        assert "" + "e" == "e";
        ReadNumberEnd(q, sign, NumeralValue(digits), |digits|, data, k + |digits|);
      } else {
        ReadTail(q, sign, NumeralValue(digits), |digits|, tail, data, k + |digits|);
      }
    }
  }

  lemma ReadNumberEnd(q: Parser, sign: int, m: nat, digits: nat, data: string, k: nat)
    requires DigitsValid(q, true, sign) && m <= INT64_MAX && 0 < digits
    requires At(data, k, "e")
    ensures Resume(q.(mode := InNumber(sign, m, digits)), data, k) ==
            Resume(OnNumberEnd(q.stack, q.log, sign * m), data, k + 1)
  {
    hide Resume, OnNumberEnd;
    AtHead(data, k, "e");
    TakeByte(q.(mode := InNumber(sign, m, digits)), data, k);
  }

  /** A floating-point tail: the number counts as 0. */
  lemma ReadTail(q: Parser, sign: int, m: nat, digits: nat, tail: string, data: string, k: nat)
    requires DigitsValid(q, true, sign) && m <= INT64_MAX && 0 < digits
    requires tail != [] && IsTail(tail) && At(data, k, tail + "e")
    ensures Resume(q.(mode := InNumber(sign, m, digits)), data, k) ==
            Resume(OnNumberEnd(q.stack, q.log, 0), data, k + |tail| + 1)
  {
    hide At, Resume, OnNumberEnd, StackOk, IsFloatChar, IsDigit;
    TailParts(tail, data, k);
    EnterTail(q, sign, m, digits, data, k);
    FloatIsZero(q.(mode := InFloat), tail[1..], data, k + 1);
  }

  lemma TailParts(tail: string, data: string, k: nat)
    requires tail != [] && IsTail(tail) && At(data, k, tail + "e")
    ensures k < |data| && data[k] == tail[0] && tail[0] in tail && At(data, k + 1, tail[1..] + "e")
    ensures forall c | c in tail[1..] :: c in tail
  {
    hide At;
    assert tail + "e" == [tail[0]] + (tail[1..] + "e");
    AtHead(data, k, tail + "e");
    AtSplit(data, k, [tail[0]], tail[1..] + "e");
  }

  lemma EnterTail(q: Parser, sign: int, m: nat, digits: nat, data: string, k: nat)
    requires DigitsValid(q, true, sign) && m <= INT64_MAX && 0 < digits
    requires k < |data| && IsFloatChar(data[k]) && !IsDigit(data[k])
    ensures Resume(q.(mode := InNumber(sign, m, digits)), data, k) == Resume(q.(mode := InFloat), data, k + 1)
  {
    hide Resume, OnNumberEnd, StackOk;
    TakeByte(q.(mode := InNumber(sign, m, digits)), data, k);
  }

  /** The sign, or none before a digit. */
  lemma ReadSign(q: Parser, sign: string, data: string, k: nat)
    requires Valid(q) && q.mode.AtSign? && IsSign(sign) && At(data, k, sign)
    requires k + |sign| < |data| && IsDigit(data[k + |sign|])
    ensures Resume(q, data, k) == Resume(q.(mode := InNumber(SignOf(sign), 0, 0)), data, k + |sign|)
  {
    hide Resume, StackOk, OnNumberEnd, At;
    if sign != "" {
      AtHead(data, k, sign);
    }
    TakeByte(q, data, k);
    TakeByte(q.(mode := InNumber(1, 0, 0)), data, k);
  }

  lemma EnterNumber(p: Parser, data: string, k: nat)
    requires Valid(p) && (p.mode.Initial? || p.mode.AtValue?)
    requires k < |data| && data[k] == 'i'
    ensures Resume(p, data, k) == Resume(Parser(AtSign, p.stack, p.log + [Begin(NumberT)]), data, k + 1)
  {
    hide Resume, StackOk;
    TakeByte(p, data, k);
  }

  /** Bytes before the sign or the first digit of a number are skipped, whatever they are. */
  lemma {:induction false} SkipsBeforeNumber(p: Parser, junk: string, data: string, k: nat)
    requires Valid(p) && p.mode.AtSign? && IsJunk(junk) && At(data, k, junk)
    ensures Resume(p, data, k) == Resume(p, data, k + |junk|)
    decreases |junk|
  {
    hide Valid, Resume, Advance;
    if junk != [] {
      assert junk == [junk[0]] + junk[1..];
      AtSplit(data, k, [junk[0]], junk[1..]);
      AtHead(data, k, junk);
      SkippedByte(p, data, k);
      SkipsBeforeNumber(p, junk[1..], data, k + 1);
    }
  }

  lemma SkippedByte(p: Parser, data: string, k: nat)
    requires Valid(p) && p.mode.AtSign? && k < |data| && !IsDigit(data[k]) && data[k] != '+' && data[k] != '-'
    ensures Resume(p, data, k) == Resume(p, data, k + 1)
  {
    hide Valid;
    TakeByte(p, data, k);
  }

  /** A number in floating-point notation is read to its end and reported as 0. */
  lemma {:induction false} FloatIsZero(p: Parser, text: string, data: string, k: nat)
    requires Valid(p) && p.mode.InFloat? && At(data, k, text + "e")
    requires forall c | c in text :: IsFloatChar(c)
    ensures Resume(p, data, k) == Resume(OnNumberEnd(p.stack, p.log, 0), data, k + |text| + 1)
    decreases |text|
  {
    hide Valid, Resume, Advance, OnNumberEnd;
    AtHead(data, k, text + "e");
    if text == [] {
      FloatByte(p, data, k);
    } else {
      assert text + "e" == [text[0]] + (text[1..] + "e");
      AtSplit(data, k, [text[0]], text[1..] + "e");
      FloatByte(p, data, k);
      FloatIsZero(p, text[1..], data, k + 1);
    }
  }

  lemma FloatByte(p: Parser, data: string, k: nat)
    requires Valid(p) && p.mode.InFloat? && k < |data| && (IsFloatChar(data[k]) || data[k] == 'e')
    ensures StackOk(p.stack)
    ensures Resume(p, data, k) == Resume(if data[k] == 'e' then OnNumberEnd(p.stack, p.log, 0) else p, data, k + 1)
  {
    hide Resume, OnNumberEnd;
    TakeByte(p, data, k);
  }

  // ----- brackets

  /** "l" or "d". */
  lemma ReadOpen(p: Parser, dict: bool, data: string, k: nat)
    requires Valid(p) && (p.mode.Initial? || p.mode.AtValue?)
    requires k < |data| && data[k] == if dict then 'd' else 'l'
    ensures Resume(p, data, k) ==
            Resume(Parser(if dict then AtKey else AtItem, p.stack,
                          p.log + [Begin(if dict then DictT else ArrayT)]), data, k + 1)
  {
    hide Resume, OnValueEnd;
    TakeByte(p, data, k);
  }

  /** "e", or a value that finds the stack full. */
  lemma ReadClose(p: Parser, dict: bool, data: string, k: nat)
    requires StackOk(p.stack) && IsContext(Top(p)) && k < |data|
    ensures var start := p.(mode := if dict then AtKey else AtItem);
            && (data[k] == 'e' ==>
                Resume(start, data, k) ==
                Resume(Done(p, [End(if dict then DictT else ArrayT)]), data, k + 1))
            && (data[k] != 'e' && Room(p) <= 0 ==>
                Resume(start, data, k) == Fed(start, ERR_STRUCTURE_TOO_DEEP))
  {
    hide Resume, OnValueEnd, StepValue, StepLength, StackOk;
    TakeByte(p.(mode := if dict then AtKey else AtItem), data, k);
  }

  // ----- whole values

  /** Reading a value in any context: it fits and its events are appended, or the parse fails. */
  lemma {:induction false} ReadValue(p: Parser, t: Tree, data: string, k: nat)
    requires Valid(p) && (p.mode.Initial? || p.mode.AtValue?)
    requires WellFormed(t) && At(data, k, Write(t))
    ensures if TreeFits(t, Room(p)) then
              Resume(p, data, k) == Resume(Done(p, Events(Meaning(t))), data, k + |Write(t)|)
            else Resume(p, data, k).consumed == Obstacle(t, Room(p))
    decreases t, 1
  {
    hide At, StackOk, Resume, OnValueEnd, Advance, NumberText, StringText;
    match t
    case NumberTree(junk, sign, digits, tail) => ReadNumber(p, junk, sign, digits, tail, data, k);
    case StringTree(length, s) => ReadStr(p, length, s, data, k);
    case ListTree(items) => ReadList(p, items, data, k);
    case DictTree(entries) => ReadDict(p, entries, data, k);
  }

  lemma {:induction false} ReadList(p: Parser, items: Trees, data: string, k: nat)
    requires Valid(p) && (p.mode.Initial? || p.mode.AtValue?)
    requires WellFormedTrees(items) && At(data, k, Write(ListTree(items)))
    ensures if TreesFit(items, Room(p)) then
              Resume(p, data, k) == Resume(Done(p, Events(List(Meanings(items)))), data, k + |Write(ListTree(items))|)
            else Resume(p, data, k).consumed == ItemsObstacle(items, Room(p))
    decreases items, 1
  {
    hide At, StackOk, Resume, OnValueEnd, Advance, TreesFit, ItemsObstacle, WriteTrees, ItemsEvents, Meanings, WellFormedTrees;
    AtHead(data, k, Write(ListTree(items)));
    AtSplit(data, k, "l", WriteTrees(items) + "e");
    ReadOpen(p, false, data, k);
    var q := p.(log := p.log + [Begin(ArrayT)]);
    ReadItems(q, items, data, k + 1);
    Assoc(p.log, [Begin(ArrayT)], ItemsEvents(Meanings(items)) + [End(ArrayT)]);
  }

  lemma {:induction false} ReadDict(p: Parser, entries: Pairs, data: string, k: nat)
    requires Valid(p) && (p.mode.Initial? || p.mode.AtValue?)
    requires WellFormedPairs(entries) && At(data, k, Write(DictTree(entries)))
    ensures if PairsFit(entries, Room(p)) then
              Resume(p, data, k) == Resume(Done(p, Events(Dict(MeaningOfPairs(entries)))), data, k + |Write(DictTree(entries))|)
            else Resume(p, data, k).consumed == PairsObstacle(entries, Room(p))
    decreases entries, 1
  {
    hide At, StackOk, Resume, OnValueEnd, Advance, PairsFit, PairsObstacle, WritePairs, EntriesEvents, MeaningOfPairs, WellFormedPairs;
    AtHead(data, k, Write(DictTree(entries)));
    AtSplit(data, k, "d", WritePairs(entries) + "e");
    ReadOpen(p, true, data, k);
    var q := p.(log := p.log + [Begin(DictT)]);
    ReadEntries(q, entries, data, k + 1);
    Assoc(p.log, [Begin(DictT)], EntriesEvents(MeaningOfPairs(entries)) + [End(DictT)]);
  }

  lemma {:induction false} ReadItems(p: Parser, items: Trees, data: string, k: nat)
    requires StackOk(p.stack) && IsContext(Top(p))
    requires WellFormedTrees(items) && At(data, k, WriteTrees(items) + "e")
    ensures var start := p.(mode := AtItem);
            if TreesFit(items, Room(p)) then
              Resume(start, data, k) ==
              Resume(Done(p, ItemsEvents(Meanings(items)) + [End(ArrayT)]), data, k + |WriteTrees(items)| + 1)
            else Resume(start, data, k).consumed == ItemsObstacle(items, Room(p))
    decreases items, 0
  {
    hide At, StackOk, Resume, OnValueEnd, Advance, TreeFits, Obstacle, Events, Write, WriteTrees, Meaning, WellFormed;
    AtItems(data, k, items);
    ReadClose(p, false, data, k);
    match items
    case NoTrees =>
      assert ItemsEvents(Meanings(items)) + [End(ArrayT)] == [End(ArrayT)];
    case MoreTrees(t, rest) =>
      if 0 < Room(p) {
        ReadItem(p, t, data, k);
        if TreeFits(t, Room(p) - 1) {
          ReadItems(p.(log := p.log + ItemEvents(Meaning(t))), rest, data, k + |Write(t)|);
          Assoc(ItemEvents(Meaning(t)), ItemsEvents(Meanings(rest)), [End(ArrayT)]);
          Assoc(p.log, ItemEvents(Meaning(t)), ItemsEvents(Meanings(rest)) + [End(ArrayT)]);
        }
      }
  }

  /** The text of a list's items, taken apart. */
  lemma AtItems(data: string, k: nat, items: Trees)
    requires WellFormedTrees(items) && At(data, k, WriteTrees(items) + "e")
    ensures k < |data| && (data[k] == 'e' <==> items.NoTrees?)
    ensures items.NoTrees? ==> |WriteTrees(items)| == 0
    ensures items.MoreTrees? ==>
              && At(data, k, Write(items.head))
              && At(data, k + |Write(items.head)|, WriteTrees(items.rest) + "e")
              && |WriteTrees(items)| == |Write(items.head)| + |WriteTrees(items.rest)|
  {
    hide At;
    AtHead(data, k, WriteTrees(items) + "e");
    if items.MoreTrees? {
      TreeBegins(items.head);
      Assoc(Write(items.head), WriteTrees(items.rest), "e");
      AtSplit(data, k, Write(items.head), WriteTrees(items.rest) + "e");
    }
  }

  lemma {:induction false} ReadItem(p: Parser, t: Tree, data: string, k: nat)
    requires StackOk(p.stack) && IsContext(Top(p)) && 0 < Room(p)
    requires WellFormed(t) && At(data, k, Write(t)) && k < |data| && data[k] != 'e'
    ensures var start := p.(mode := AtItem);
            if TreeFits(t, Room(p) - 1) then
              Resume(start, data, k) ==
              Resume(start.(log := p.log + ItemEvents(Meaning(t))), data, k + |Write(t)|)
            else Resume(start, data, k).consumed == Obstacle(t, Room(p) - 1)
    decreases t, 2
  {
    hide At, Resume, Advance, StackOk, TreeFits, Obstacle, Write, Events, OnValueEnd, Meaning, WellFormed;
    var inner := Parser(AtValue, p.stack + [LIST], p.log + [Begin(ArrayDataT)]);
    EnterItem(p, data, k);
    ReadValue(inner, t, data, k);
    ItemDone(p, Meaning(t));
  }

  lemma ItemDone(p: Parser, v: Value)
    requires StackOk(p.stack + [LIST])
    ensures OnValueEnd(p.stack + [LIST], (p.log + [Begin(ArrayDataT)]) + Events(v)) ==
            Parser(AtItem, p.stack, p.log + ItemEvents(v))
  {
    hide StackOk, Events;
    assert Pop(p.stack + [LIST]) == p.stack;
    Assoc(p.log + [Begin(ArrayDataT)], Events(v), [End(ArrayDataT)]);
    Assoc(p.log, [Begin(ArrayDataT)], Events(v) + [End(ArrayDataT)]);
  }

  lemma EnterItem(p: Parser, data: string, k: nat)
    requires StackOk(p.stack) && IsContext(Top(p)) && 0 < Room(p)
    requires k < |data| && data[k] != 'e'
    ensures var inner := Parser(AtValue, p.stack + [LIST], p.log + [Begin(ArrayDataT)]);
            Valid(inner) && Resume(p.(mode := AtItem), data, k) == Resume(inner, data, k)
  {
    hide Resume, OnValueEnd, StepValue;
    TakeByte(p.(mode := AtItem), data, k);
    TakeByte(Parser(AtValue, p.stack + [LIST], p.log + [Begin(ArrayDataT)]), data, k);
  }

  lemma {:induction false} ReadEntries(p: Parser, entries: Pairs, data: string, k: nat)
    requires StackOk(p.stack) && IsContext(Top(p))
    requires WellFormedPairs(entries) && At(data, k, WritePairs(entries) + "e")
    ensures var start := p.(mode := AtKey);
            if PairsFit(entries, Room(p)) then
              Resume(start, data, k) ==
              Resume(Done(p, EntriesEvents(MeaningOfPairs(entries)) + [End(DictT)]), data, k + |WritePairs(entries)| + 1)
            else Resume(start, data, k).consumed == PairsObstacle(entries, Room(p))
    decreases entries, 0
  {
    hide At, StackOk, Resume, OnValueEnd, Advance, TreeFits, Obstacle, Events, Write, StringText, WritePairs, Meaning, WellFormed, IsLength;
    AtEntries(data, k, entries);
    ReadClose(p, true, data, k);
    match entries
    case NoPairs =>
      assert EntriesEvents(MeaningOfPairs(entries)) + [End(DictT)] == [End(DictT)];
    case MorePairs(length, key, t, more) =>
      if 0 < Room(p) {
        ReadEntry(p, length, key, t, data, k);
        if |key| <= INT64_MAX && TreeFits(t, Room(p) - 1) {
          ReadEntries(p.(log := p.log + EntryEvents(key, Meaning(t))), more, data, k + |StringText(length, key)| + |Write(t)|);
          Assoc(EntryEvents(key, Meaning(t)), EntriesEvents(MeaningOfPairs(more)), [End(DictT)]);
          Assoc(p.log, EntryEvents(key, Meaning(t)), EntriesEvents(MeaningOfPairs(more)) + [End(DictT)]);
        }
      }
  }

  /** The text of a dictionary's entries, taken apart. */
  lemma AtEntries(data: string, k: nat, entries: Pairs)
    requires WellFormedPairs(entries) && At(data, k, WritePairs(entries) + "e")
    ensures k < |data| && (data[k] == 'e' <==> entries.NoPairs?)
    ensures entries.NoPairs? ==> |WritePairs(entries)| == 0
    ensures entries.MorePairs? ==>
              var text, value := StringText(entries.length, entries.key), Write(entries.value);
              && At(data, k, text)
              && At(data, k + |text|, value)
              && At(data, k + |text| + |value|, WritePairs(entries.more) + "e")
              && |WritePairs(entries)| == |text| + |value| + |WritePairs(entries.more)|
  {
    hide At;
    AtHead(data, k, WritePairs(entries) + "e");
    if entries.MorePairs? {
      StringBegins(entries.length, entries.key);
      var text, value, more := StringText(entries.length, entries.key), Write(entries.value), WritePairs(entries.more);
      Assoc(text, value + more, "e");
      Assoc(value, more, "e");
      AtSplit(data, k, text, value + (more + "e"));
      AtSplit(data, k + |text|, value, more + "e");
    }
  }

  lemma {:induction false} ReadEntry(p: Parser, length: string, key: string, t: Tree, data: string, k: nat)
    requires StackOk(p.stack) && IsContext(Top(p)) && 0 < Room(p)
    requires IsLength(length, key) && At(data, k, StringText(length, key)) && k < |data| && data[k] != 'e'
    requires WellFormed(t) && At(data, k + |StringText(length, key)|, Write(t))
    ensures var start := p.(mode := AtKey);
            if |key| <= INT64_MAX && TreeFits(t, Room(p) - 1) then
              Resume(start, data, k) ==
              Resume(start.(log := p.log + EntryEvents(key, Meaning(t))), data, k + |StringText(length, key)| + |Write(t)|)
            else Resume(start, data, k).consumed == if |key| > INT64_MAX then -7 else Obstacle(t, Room(p) - 1)
    decreases t, 2
  {
    hide At, Resume, Advance, StackOk, TreeFits, Obstacle, Write, StringText, Events, OnStringEnd, OnValueEnd, Meaning, WellFormed, IsLength;
    var begun := Parser(InLength(0, 0), p.stack + [DICT_KEY], p.log + [Begin(DictKeyT)]);
    EnterKey(p, data, k);
    ReadString(begun, length, key, data, k);
    if |key| <= INT64_MAX {
      KeyDone(p, key);
      ReadValue(Parser(AtValue, p.stack + [DICT_VAL], p.log + KeyEvents(key)), t, data, k + |StringText(length, key)|);
      EntryDone(p, key, Meaning(t));
    }
  }

  lemma KeyDone(p: Parser, key: string)
    requires StackOk(p.stack + [DICT_KEY])
    ensures var inner := Parser(AtValue, p.stack + [DICT_VAL], p.log + KeyEvents(key));
            Valid(inner) && OnStringEnd(p.stack + [DICT_KEY], p.log + [Begin(DictKeyT)] + [Characters(key)]) == inner
  {
    hide StackOk;
    assert Pop(p.stack + [DICT_KEY]) == p.stack;
    assert p.log + [Begin(DictKeyT)] + [Characters(key)] + [End(DictKeyT)] + [Begin(DictDataT)]
        == p.log + KeyEvents(key);
    var inner := Parser(AtValue, p.stack + [DICT_VAL], p.log + KeyEvents(key));
    assert OnStringEnd(p.stack + [DICT_KEY], p.log + [Begin(DictKeyT)] + [Characters(key)]) == inner;
  }

  lemma EntryDone(p: Parser, key: string, v: Value)
    requires StackOk(p.stack + [DICT_VAL])
    ensures OnValueEnd(p.stack + [DICT_VAL], (p.log + KeyEvents(key)) + Events(v)) ==
            Parser(AtKey, p.stack, p.log + EntryEvents(key, v))
  {
    hide StackOk, Events, KeyEvents;
    assert Pop(p.stack + [DICT_VAL]) == p.stack;
    Assoc(p.log + KeyEvents(key), Events(v), [End(DictDataT)]);
    Assoc(p.log, KeyEvents(key), Events(v) + [End(DictDataT)]);
  }

  lemma EnterKey(p: Parser, data: string, k: nat)
    requires StackOk(p.stack) && IsContext(Top(p)) && 0 < Room(p)
    requires k < |data| && data[k] != 'e'
    ensures var begun := Parser(InLength(0, 0), p.stack + [DICT_KEY], p.log + [Begin(DictKeyT)]);
            Valid(begun) && Resume(p.(mode := AtKey), data, k) == Resume(begun, data, k)
  {
    hide Resume, OnValueEnd, StepLength;
    TakeByte(p.(mode := AtKey), data, k);
    TakeByte(Parser(InLength(0, 0), p.stack + [DICT_KEY], p.log + [Begin(DictKeyT)]), data, k);
  }

  /**
    Whatever follows it, a text is consumed exactly and its events are exactly those of its value;
    this happens if and only if numerals and lengths are within INT64_MAX and the value nests at
    most 49 deep. Otherwise the result is the code of the first obstacle.
   */
  lemma TextIsRead(t: Tree, rest: string)
    requires WellFormed(t)
    ensures var r := Feed(INIT, Write(t) + rest);
            if TreeFits(t, 49) then
              r == Fed(Parser(Finish, [FINISH], Events(Meaning(t))), |Write(t)|)
            else r.consumed == Obstacle(t, 49) < 0
  {
    hide OnValueEnd, Resume, TreeFits, Obstacle, Write, Events, Meaning, WellFormed;
    var data, events := Write(t) + rest, Events(Meaning(t));
    assert At(data, 0, Write(t));
    ReadValue(INIT, t, data, 0);
    RootDone(events);
    AtTheEnd(Done(INIT, events), data, |Write(t)|);
  }

  lemma RootDone(events: seq<Event>)
    ensures OnValueEnd(INIT.stack, INIT.log + events) == Parser(Finish, [FINISH], events)
  {
    assert [] + events == events;
  }

  /** Round trip: the same of canonical encodings. */
  lemma RoundTrip(v: Value, rest: string)
    ensures var r := Feed(INIT, Encode(v) + rest);
            if Fits(v, 49) then
              r == Fed(Parser(Finish, [FINISH], Events(v)), |Encode(v)|)
            else WellFormed(Canonical(v)) && r.consumed == Obstacle(Canonical(v), 49) < 0
  {
    hide Resume, Fits, TreeFits, Obstacle, Encode, Write, Events, Meaning, WellFormed;
    CanonicalIs(v, 49);
    TextIsRead(Canonical(v), rest);
  }

  // ----- two texts, byte by byte

  /** A dictionary with one entry, a list of a negative number and a string: its callbacks, and what was consumed. */
  lemma SampleIsRead(key: string, s: string, rest: string)
    requires |key| == 2 && |s| == 3
    ensures var text := ("d2:" + key) + (("li-12e3:" + s) + "ee");
            Feed(INIT, text + rest) ==
            Fed(Parser(Finish, [FINISH],
                       [Begin(DictT), Begin(DictKeyT), Characters(key), End(DictKeyT), Begin(DictDataT),
                        Begin(ArrayT), Begin(ArrayDataT), Begin(NumberT), Number(-12), End(NumberT), End(ArrayDataT),
                        Begin(ArrayDataT), Begin(StringT), Characters(s), End(StringT), End(ArrayDataT), End(ArrayT),
                        End(DictDataT), End(DictT)]),
                18)
  {
    hide Resume;
    var items := Item(Int(-12), Item(Str(s), NoItems));
    var v := Dict(Entry(key, List(items), NoEntries));
    SampleText(key, s, items, v);
    SampleEvents(key, s, items, v);
    RoundTrip(v, rest);
  }

  lemma SampleText(key: string, s: string, items: Items, v: Value)
    requires |key| == 2 && |s| == 3
    requires items == Item(Int(-12), Item(Str(s), NoItems)) && v == Dict(Entry(key, List(items), NoEntries))
    ensures Encode(v) == ("d2:" + key) + (("li-12e3:" + s) + "ee") && |Encode(v)| == 18 && Fits(v, 49)
  {
    SampleDecimals();
    hide Decimal;
    var list := List(items);
    assert EncodeItems(NoItems) == "" && EncodeEntries(NoEntries) == "";
    assert Encode(Int(-12)) == "i-12e" && Encode(Str(s)) == "3:" + s && EncodeString(key) == "2:" + key;
    assert EncodeItems(Item(Str(s), NoItems)) == "3:" + s;
    assert EncodeItems(items) == "i-12e" + ("3:" + s) == "i-12e3:" + s;
    assert Encode(list) == "l" + (("i-12e3:" + s) + "e") == ("li-12e3:" + s) + "e";
    assert EncodeEntries(Entry(key, list, NoEntries)) == ("2:" + key) + (Encode(list) + "") == ("2:" + key) + Encode(list);
    var entry := ("2:" + key) + Encode(list);
    assert EncodeEntries(v.entries) == entry;
    assert Encode(v) == "d" + (entry + "e");
    Assoc("2:" + key, Encode(list), "e");
    Assoc("d", "2:" + key, Encode(list) + "e");
    assert "d" + ("2:" + key) == "d2:" + key;
    assert Encode(list) + "e" == ("li-12e3:" + s) + "ee";
    SampleFits(key, s, items);
  }

  lemma SampleFits(key: string, s: string, items: Items)
    requires |key| == 2 && |s| == 3 && items == Item(Int(-12), Item(Str(s), NoItems))
    ensures Fits(Dict(Entry(key, List(items), NoEntries)), 49)
  {
    var text := Str(s);
    assert ItemsFit(NoItems, 48) && Fits(text, 47) && ItemsFit(Item(text, NoItems), 48);
    assert Fits(Int(-12), 47) && ItemsFit(items, 48);
    assert EntriesFit(NoEntries, 49) && Fits(List(items), 48);
  }

  lemma SampleDecimals()
    ensures Decimal(2) == "2" && Decimal(3) == "3" && Decimal(12) == "12"
  {
    assert Digit(1) == '1' && Digit(2) == '2' && Digit(3) == '3';
    assert Decimal(12 / 10) == [Digit(1)] && 12 % 10 == 2;
  }

  lemma SampleEvents(key: string, s: string, items: Items, v: Value)
    requires items == Item(Int(-12), Item(Str(s), NoItems)) && v == Dict(Entry(key, List(items), NoEntries))
    ensures Events(v) ==
            [Begin(DictT), Begin(DictKeyT), Characters(key), End(DictKeyT), Begin(DictDataT),
             Begin(ArrayT), Begin(ArrayDataT), Begin(NumberT), Number(-12), End(NumberT), End(ArrayDataT),
             Begin(ArrayDataT), Begin(StringT), Characters(s), End(StringT), End(ArrayDataT), End(ArrayT),
             End(DictDataT), End(DictT)]
  {
    SampleItems(s, items);
    hide ItemsEvents;
    assert Events(List(items)) ==
           [Begin(ArrayT), Begin(ArrayDataT), Begin(NumberT), Number(-12), End(NumberT), End(ArrayDataT),
            Begin(ArrayDataT), Begin(StringT), Characters(s), End(StringT), End(ArrayDataT), End(ArrayT)];
    assert Events(v) == [Begin(DictT)] + (EntriesEvents(v.entries) + [End(DictT)]);
    hide Events;
    assert EntriesEvents(NoEntries) == [] && EntriesEvents(v.entries) == EntryEvents(key, List(items)) + [] == EntryEvents(key, List(items));
  }

  lemma SampleItems(s: string, items: Items)
    requires items == Item(Int(-12), Item(Str(s), NoItems))
    ensures ItemsEvents(items) ==
            [Begin(ArrayDataT), Begin(NumberT), Number(-12), End(NumberT), End(ArrayDataT),
             Begin(ArrayDataT), Begin(StringT), Characters(s), End(StringT), End(ArrayDataT)]
  {
    assert ItemsEvents(Item(Str(s), NoItems)) == ItemEvents(Str(s)) + [] == ItemEvents(Str(s));
    assert ItemsEvents(items) == ItemEvents(Int(-12)) + ItemEvents(Str(s));
  }

  function Repeated(c: char, n: nat): string {
    if n == 0 then "" else [c] + Repeated(c, n - 1)
  }

  /** n lists inside each other. */
  function NestedLists(n: nat): Tree {
    ListTree(if n == 0 then NoTrees else MoreTrees(NestedLists(n - 1), NoTrees))
  }

  /** Fifty lists inside each other are read, and more are too deep. */
  lemma DeepestNesting(n: nat, rest: string)
    requires 0 < n
    ensures var r := Feed(INIT, Repeated('l', n) + Repeated('e', n) + rest);
            if n <= 50 then r.parser.mode.Finish? && r.consumed == 2 * n else r.consumed == -5
  {
    hide Resume;
    NestedText(n - 1);
    NestedObstacle(n - 1, 49);
    TextIsRead(NestedLists(n - 1), rest);
  }

  lemma {:induction false} NestedText(n: nat)
    ensures WellFormed(NestedLists(n))
    ensures Write(NestedLists(n)) == Repeated('l', n + 1) + Repeated('e', n + 1) && |Write(NestedLists(n))| == 2 * n + 2
    decreases n
  {
    RepeatedEnds('e', n);
    if n > 0 {
      NestedText(n - 1);
      assert WriteTrees(MoreTrees(NestedLists(n - 1), NoTrees)) == Write(NestedLists(n - 1)) + "";
    }
  }

  lemma {:induction false} NestedObstacle(n: nat, room: nat)
    ensures WellFormed(NestedLists(n))
    ensures Obstacle(NestedLists(n), room) == if n <= room then 0 else -5
    decreases n
  {
    NestedText(n);
    if n > 0 && room > 0 {
      NestedObstacle(n - 1, room - 1);
    }
  }

  lemma {:induction false} RepeatedEnds(c: char, n: nat)
    ensures Repeated(c, n + 1) == Repeated(c, n) + [c] && |Repeated(c, n)| == n
    decreases n
  {
    if n > 0 {
      RepeatedEnds(c, n - 1);
    }
  }
}
