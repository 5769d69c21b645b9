/**
  The incremental bencode parser (libaria2/src/BencodeParser.cc): it works through a
  buffer in runs of digits and of string bytes and keeps its place between calls.
 */
module BencodeParser {
  import opened BencodeValues
  import opened BencodeMachine
  import BencodeRoundTrip

  /** A raw callback log with adjacent characters callbacks joined. */
  function Joined(events: seq<Event>): seq<Event> {
    if events == [] then [] else Push(Joined(events[..|events| - 1]), events[|events| - 1])
  }

  lemma JoinedAppend(events: seq<Event>, e: Event)
    ensures Joined(events + [e]) == Push(Joined(events), e)
  {
    assert (events + [e])[..|events|] == events;
  }

  /** A result that follows bytes already consumed. */
  function After(consumed: nat, r: Fed): Fed {
    if r.consumed < 0 then r else Fed(r.parser, consumed + r.consumed)
  }

  /** The digit loop of BENCODE_STRING_LEN and BENCODE_NUMBER. */
  method DigitRun(data: string, i: nat, start: nat, ghost p: Parser)
    returns (j: nat, value: nat, tooBig: bool)
    requires BencodeMachine.Valid(p) && ReadsDigits(p) && Accumulated(p) == start
    requires i <= |data| && start <= INT64_MAX
    ensures i <= j <= |data| && value <= INT64_MAX
    ensures tooBig ==> Resume(p, data, i) == Fed(p.(mode := Error(OverflowCode(p))), OverflowCode(p))
    ensures !tooBig ==>
              && (j == |data| || !IsDigit(data[j]))
              && BencodeMachine.Valid(WithDigits(p, value, j - i))
              && Resume(p, data, i) == Resume(WithDigits(p, value, j - i), data, j)
  {
    hide Resume, BencodeMachine.Valid;
    j, value, tooBig := i, start, false;
    while j < |data| && IsDigit(data[j])
      invariant i <= j <= |data| && value <= INT64_MAX && !tooBig
      invariant BencodeMachine.Valid(WithDigits(p, value, j - i))
      invariant Resume(p, data, i) == Resume(WithDigits(p, value, j - i), data, j)
    {
      TakeDigit(WithDigits(p, value, j - i), data, j);
      var d := DigitValue(data[j]);
      OverflowGuardIsExact(value, d);
      if (INT64_MAX - d) / 10 < value {
        tooBig := true;
        return;
      }
      value := value * 10 + d;
      j := j + 1;
    }
  }

  class BencodeParser {
    var currentState: Control
    var stateStack: seq<Control>
    var strLength: int
    var numberSign: int
    var number: int
    var numConsumed: nat
    var lastError: int
    // What the state machine behind psm_ has been told.
    var events: seq<Event>

    /** The control state with the fields that matter in it; all others are dropped. */
    function AbsMode(): Mode
      reads this
      requires currentState != DICT_VAL
      requires 0 <= strLength && 0 <= number
    {
      match currentState
      case FINISH => Finish
      case ERROR => Error(lastError)
      case INITIAL => Initial
      case VALUE => AtValue
      case DICT_KEY => AtKey
      case LIST => AtItem
      case STRING_LEN => InLength(strLength, numConsumed)
      case STRING => InString(strLength)
      case NUMBER_SIGN => AtSign
      case NUMBER => InNumber(numberSign, number, numConsumed)
      case FLOAT_NUMBER_IGNORE => InFloat
    }

    predicate Ready()
      reads this
    {
      && currentState != DICT_VAL
      && 0 <= strLength <= INT64_MAX
      && 0 <= number <= INT64_MAX
      && (currentState == NUMBER_SIGN ==> numberSign == 1 && number == 0 && numConsumed == 0)
      && (currentState == FLOAT_NUMBER_IGNORE ==> number == 0)
    }

    function Abs(): Parser
      reads this
      requires Ready()
    {
      Parser(AbsMode(), stateStack, Joined(events))
    }

    ghost predicate Valid()
      reads this
    {
      Ready() && BencodeMachine.Valid(Abs())
    }

    constructor ()
      ensures Valid() && Abs() == INIT
    {
      currentState := INITIAL;
      stateStack := [FINISH];
      strLength, numberSign, number, numConsumed, lastError := 0, 1, 0, 0, 0;
      events := [];
    }

    // ----- callbacks and the state stack

    method Run(e: Event)
      modifies this`events
      ensures Joined(events) == Push(Joined(old(events)), e)
    {
      JoinedAppend(events, e);
      events := events + [e];
    }

    method PushState(state: Control) returns (rv: int)
      modifies this`stateStack
      ensures if |old(stateStack)| < MAX_STACK then rv == 0 && stateStack == old(stateStack) + [state]
              else rv == ERR_STRUCTURE_TOO_DEEP && stateStack == old(stateStack)
    {
      if |stateStack| >= MAX_STACK {
        return ERR_STRUCTURE_TOO_DEEP;
      }
      stateStack := stateStack + [state];
      return 0;
    }

    function StateTop(): Control
      reads this
      requires stateStack != []
    {
      stateStack[|stateStack| - 1]
    }

    method PopState() returns (state: Control)
      requires stateStack != []
      modifies this`stateStack
      ensures state == old(StateTop()) && stateStack == Pop(old(stateStack))
    {
      state := StateTop();
      stateStack := Pop(stateStack);
    }

    // ----- the ends of values

    method OnValueEnd()
      requires Ready() && StackOk(stateStack)
      modifies this`currentState, this`stateStack, this`events
      ensures Valid()
      ensures Abs() == BencodeMachine.OnValueEnd(old(stateStack), old(Joined(events)))
    {
      assert IsContext(StateTop()) || StateTop() == DICT_KEY;
      hide BencodeMachine.Valid, StackOk, Joined, Push;
      if StateTop() == DICT_KEY {
        OnKeyRead();
      } else if StateTop() == DICT_VAL {
        Close(DictDataT, DICT_KEY);
      } else if StateTop() == LIST {
        Close(ArrayDataT, LIST);
      } else {
        assert StateTop() == FINISH; // the source's own assertion
        currentState := StateTop();
        assert Abs() == BencodeMachine.OnValueEnd(old(stateStack), old(Joined(events)));
      }
    }

    /** The key of an entry is there: its value comes next, in the place of the key on the stack. */
    method OnKeyRead()
      requires Ready() && StackOk(stateStack) && StateTop() == DICT_KEY
      modifies this`currentState, this`stateStack, this`events
      ensures Valid()
      ensures Abs() == BencodeMachine.OnValueEnd(old(stateStack), old(Joined(events)))
    {
      ghost var result := BencodeMachine.OnValueEnd(stateStack, Joined(events));
      hide BencodeMachine.Valid, StackOk, Joined;
      var _ := PopState();
      var rv := PushState(DICT_VAL);
      assert rv == 0; // the result the source does not look at
      currentState := VALUE;
      Run(Begin(DictDataT));
      assert Abs() == result;
    }

    /** An item or an entry is there: the list or dictionary goes on. */
    method Close(element: Element, next: Control)
      requires Ready() && StackOk(stateStack)
      requires (StateTop() == DICT_VAL && element == DictDataT && next == DICT_KEY) ||
               (StateTop() == LIST && element == ArrayDataT && next == LIST)
      modifies this`currentState, this`stateStack, this`events
      ensures Valid()
      ensures Abs() == BencodeMachine.OnValueEnd(old(stateStack), old(Joined(events)))
    {
      ghost var result := BencodeMachine.OnValueEnd(stateStack, Joined(events));
      hide BencodeMachine.Valid, StackOk, Joined;
      Run(End(element));
      var _ := PopState();
      currentState := next;
      assert Abs() == result;
    }

    method OnStringEnd()
      requires Ready() && StackOk(stateStack)
      modifies this`currentState, this`stateStack, this`events
      ensures Valid()
      ensures Abs() == BencodeMachine.OnStringEnd(old(stateStack), old(Joined(events)))
    {
      Run(End(if StateTop() == DICT_KEY then DictKeyT else StringT));
      OnValueEnd();
    }

    method OnNumberEnd()
      requires Ready() && StackOk(stateStack)
      modifies this`currentState, this`stateStack, this`events
      ensures Valid()
      ensures Abs() == BencodeMachine.OnNumberEnd(old(stateStack), old(Joined(events)), old(numberSign * number))
    {
      hide BencodeMachine.OnValueEnd, StackOk, Joined, BencodeMachine.Valid;
      ghost var n, log := numberSign * number, Joined(events);
      Run(Number(numberSign * number));
      assert Joined(events) == log + [Number(n)];
      Run(End(NumberT));
      assert Joined(events) == log + [Number(n)] + [End(NumberT)];
      OnValueEnd();
    }

    method OnDictEnd()
      requires Ready() && StackOk(stateStack)
      modifies this`currentState, this`stateStack, this`events
      ensures Valid()
      ensures Abs() == BencodeMachine.OnValueEnd(old(stateStack), old(Joined(events)) + [End(DictT)])
    {
      Run(End(DictT));
      OnValueEnd();
    }

    method OnListEnd()
      requires Ready() && StackOk(stateStack)
      modifies this`currentState, this`stateStack, this`events
      ensures Valid()
      ensures Abs() == BencodeMachine.OnValueEnd(old(stateStack), old(Joined(events)) + [End(ArrayT)])
    {
      Run(End(ArrayT));
      OnValueEnd();
    }

    method SetError(code: int) returns (rv: int)
      requires Ready() && StackOk(stateStack) && code < 0
      modifies this`currentState, this`lastError
      ensures Valid() && rv == code
      ensures Abs() == Parser(Error(code), old(stateStack), old(Joined(events)))
    {
      currentState := ERROR;
      lastError := code;
      rv := code;
    }

    // ----- one turn of the loop, state by state

    /** BENCODE_INITIAL and BENCODE_VALUE. */
    method ParseValue(c: char) returns (rv: int)
      requires Valid() && (currentState == INITIAL || currentState == VALUE)
      modifies this
      ensures Valid()
      ensures Step(Abs(), rv) == StepValue(old(Abs()), c)
    {
      ghost var step := StepValue(Abs(), c);
      assert StackOk(stateStack);
      hide BencodeMachine.Valid, StackOk, IsContext, Joined;
      rv := 0;
      if c == 'd' || c == 'l' {
        currentState := if c == 'd' then DICT_KEY else LIST;
        Run(Begin(if c == 'd' then DictT else ArrayT));
      } else if c == 'i' || IsDigit(c) {
        BeginScalar(c);
      } else {
        rv := SetError(ERR_UNEXPECTED_CHAR_BEFORE_VAL);
      }
      assert Step(Abs(), rv) == step;
    }

    /** The begin of a number or of a string. */
    method BeginScalar(c: char)
      requires Valid() && (currentState == INITIAL || currentState == VALUE) && (c == 'i' || IsDigit(c))
      modifies this
      ensures Valid() && Abs() == StepValue(old(Abs()), c).parser
    {
      ghost var step := StepValue(Abs(), c);
      hide BencodeMachine.Valid, StackOk, IsContext, Joined;
      if c == 'i' {
        number, numberSign, numConsumed := 0, 1, 0;
        currentState := NUMBER_SIGN;
        Run(Begin(NumberT));
      } else {
        strLength := DigitValue(c);
        numConsumed := 1;
        currentState := STRING_LEN;
        Run(Begin(StringT));
      }
      assert Abs() == step.parser;
    }

    /** BENCODE_LIST, falling through to BENCODE_VALUE. */
    method ParseList(c: char) returns (rv: int)
      requires Valid() && currentState == LIST
      modifies this
      ensures Valid()
      ensures Step(Abs(), rv) == StepItem(old(Abs()), c)
    {
      ghost var p := Abs();
      assert StackOk(stateStack) && IsContext(StateTop());
      hide BencodeMachine.OnValueEnd, StepValue, Joined, StackOk, BencodeMachine.Valid;
      if c == 'e' {
        OnListEnd();
        return 0;
      }
      rv := PushState(currentState);
      if rv < 0 {
        return;
      }
      currentState := VALUE;
      Run(Begin(ArrayDataT));
      assert Abs() == ItemContext(p);
      rv := ParseValue(c);
    }

    /** The byte behind the digits. */
    method StringLenEnd(c: char) returns (rv: int)
      requires Valid() && currentState == STRING_LEN && !IsDigit(c)
      modifies this
      ensures Valid()
      ensures Step(Abs(), rv) == StepLength(old(Abs()), c)
    {
      hide BencodeMachine.OnStringEnd;
      if c != ':' || numConsumed == 0 {
        rv := SetError(ERR_INVALID_STRING_LENGTH);
        return;
      }
      currentState := STRING;
      if strLength == 0 {
        Run(Characters([]));
        OnStringEnd();
      }
      return 0;
    }

    /** BENCODE_STRING_LEN: a run of digits and, if the buffer does not end first, the colon. */
    method ParseStringLen(data: string, i: nat) returns (next: nat, rv: int)
      requires Valid() && currentState == STRING_LEN && i < |data|
      modifies this
      ensures Valid()
      ensures rv <= 0 && (rv == 0 ==> i < next <= |data| && currentState != ERROR)
      ensures Resume(old(Abs()), data, i) == if rv < 0 then Fed(Abs(), rv) else Resume(Abs(), data, next)
    {
      hide Resume, StepLength, BencodeMachine.Valid, Joined;
      var j;
      j, rv := StringLenDigits(data, i);
      if rv < 0 {
        return i, rv;
      }
      if j != |data| {
        TakeByte(Abs(), data, j);
        rv := StringLenEnd(data[j]);
        return j + 1, rv;
      }
      return j, 0;
    }

    /** Its digit loop. */
    method StringLenDigits(data: string, i: nat) returns (j: nat, rv: int)
      requires Valid() && currentState == STRING_LEN && i < |data|
      modifies this
      ensures Valid() && rv <= 0 && i <= j <= |data|
      ensures rv == 0 ==> currentState == STRING_LEN && (j == |data| || !IsDigit(data[j]))
      ensures Resume(old(Abs()), data, i) == if rv < 0 then Fed(Abs(), rv) else Resume(Abs(), data, j)
    {
      ghost var p := Abs();
      assert StackOk(stateStack);
      hide Resume, BencodeMachine.Valid, StackOk, Joined;
      var value, tooBig;
      j, value, tooBig := DigitRun(data, i, strLength, p);
      strLength := value;
      if tooBig {
        rv := SetError(ERR_STRING_LENGTH_OUT_OF_RANGE);
        return;
      }
      numConsumed := numConsumed + (j - i);
      assert WithDigits(p, value, j - i).mode == InLength(value, numConsumed);
      assert AbsMode() == InLength(value, numConsumed);
      rv := 0;
    }

    /** BENCODE_DICT_KEY, falling through to BENCODE_STRING_LEN. */
    method ParseDictKey(data: string, i: nat) returns (next: nat, rv: int)
      requires Valid() && currentState == DICT_KEY && i < |data|
      modifies this
      ensures Valid()
      ensures rv <= 0 && (rv == 0 ==> i < next <= |data| && currentState != ERROR)
      ensures Resume(old(Abs()), data, i) == if rv < 0 then Fed(Abs(), rv) else Resume(Abs(), data, next)
    {
      hide Resume, BencodeMachine.OnValueEnd, Advance, Joined;
      ghost var p := Abs();
      BencodeRoundTrip.ReadClose(p, true, data, i);
      if data[i] == 'e' {
        OnDictEnd();
        return i + 1, 0;
      }
      rv := PushState(currentState);
      if rv < 0 {
        return i, rv;
      }
      BencodeRoundTrip.EnterKey(p, data, i);
      strLength, numConsumed := 0, 0;
      Run(Begin(DictKeyT));
      currentState := STRING_LEN;
      assert Abs() == KeyContext(p);
      next, rv := ParseStringLen(data, i);
    }

    /** BENCODE_STRING: as many bytes of the string as the buffer holds. */
    method ParseString(data: string, i: nat) returns (next: nat)
      requires Valid() && currentState == STRING && i < |data|
      modifies this
      ensures Valid()
      ensures i < next <= |data| && currentState != ERROR
      ensures Resume(old(Abs()), data, i) == Resume(Abs(), data, next)
    {
      hide Resume, BencodeMachine.OnStringEnd, Joined, Push, StackOk;
      ghost var p := Abs();
      var nread := if |data| - i < strLength then |data| - i else strLength;
      BencodeRoundTrip.ReadBody(p, data, i, nread);
      Run(Characters(data[i..i + nread]));
      strLength := strLength - nread;
      if strLength == 0 {
        OnStringEnd();
      } else {
        assert Abs() == Parser(InString(p.mode.left - nread), p.stack, Push(p.log, Characters(data[i..i + nread])));
      }
      next := i + nread;
    }

    /** BENCODE_NUMBER_SIGN. */
    method ParseNumberSign(c: char)
      requires Valid() && currentState == NUMBER_SIGN
      modifies this
      ensures Valid()
      ensures Abs() == StepSign(old(Abs()), c).parser
    {
      if c == '+' {
        numberSign := 1;
        currentState := NUMBER;
      } else if c == '-' {
        numberSign := -1;
        currentState := NUMBER;
      } else if IsDigit(c) {
        number := DigitValue(c);
        numConsumed := 1;
        currentState := NUMBER;
      }
    }

    /** The byte behind the digits of a number. */
    method NumberEnd(c: char) returns (rv: int)
      requires Valid() && currentState == NUMBER && !IsDigit(c)
      modifies this
      ensures Valid()
      ensures Step(Abs(), rv) == StepNumber(old(Abs()), c)
    {
      hide BencodeMachine.OnNumberEnd;
      if numConsumed == 0 {
        rv := SetError(ERR_INVALID_NUMBER);
      } else if IsFloatChar(c) {
        number, numConsumed := 0, 0;
        currentState := FLOAT_NUMBER_IGNORE;
        rv := 0;
      } else if c != 'e' {
        rv := SetError(ERR_INVALID_NUMBER);
      } else {
        OnNumberEnd();
        rv := 0;
      }
    }

    /** BENCODE_NUMBER: a run of digits and, if the buffer does not end first, the byte behind them. */
    method ParseNumber(data: string, i: nat) returns (next: nat, rv: int)
      requires Valid() && currentState == NUMBER && i < |data|
      modifies this
      ensures Valid()
      ensures rv <= 0 && (rv == 0 ==> i < next <= |data| && currentState != ERROR)
      ensures Resume(old(Abs()), data, i) == if rv < 0 then Fed(Abs(), rv) else Resume(Abs(), data, next)
    {
      hide Resume, StepNumber, BencodeMachine.Valid, Joined;
      var j;
      j, rv := NumberDigits(data, i);
      if rv < 0 {
        return i, rv;
      }
      if j != |data| {
        TakeByte(Abs(), data, j);
        rv := NumberEnd(data[j]);
        return j + 1, rv;
      }
      return j, 0;
    }

    /** Its digit loop. */
    method NumberDigits(data: string, i: nat) returns (j: nat, rv: int)
      requires Valid() && currentState == NUMBER && i < |data|
      modifies this
      ensures Valid() && rv <= 0 && i <= j <= |data|
      ensures rv == 0 ==> currentState == NUMBER && (j == |data| || !IsDigit(data[j]))
      ensures Resume(old(Abs()), data, i) == if rv < 0 then Fed(Abs(), rv) else Resume(Abs(), data, j)
    {
      ghost var p := Abs();
      assert StackOk(stateStack);
      hide Resume, BencodeMachine.Valid, StackOk, Joined;
      var value, tooBig;
      j, value, tooBig := DigitRun(data, i, number, p);
      number := value;
      if tooBig {
        rv := SetError(ERR_NUMBER_OUT_OF_RANGE);
        return;
      }
      numConsumed := numConsumed + (j - i);
      assert WithDigits(p, value, j - i).mode == InNumber(numberSign, value, numConsumed);
      assert AbsMode() == InNumber(numberSign, value, numConsumed);
      rv := 0;
    }

    /** BENCODE_FLOAT_NUMBER_IGNORE. */
    method ParseFloat(c: char) returns (rv: int)
      requires Valid() && currentState == FLOAT_NUMBER_IGNORE
      modifies this
      ensures Valid()
      ensures Step(Abs(), rv) == StepFloat(old(Abs()), c)
    {
      hide BencodeMachine.OnNumberEnd;
      rv := 0;
      if IsFloatChar(c) {
        return;
      }
      if c != 'e' {
        rv := SetError(ERR_INVALID_FLOAT_NUMBER);
        return;
      }
      OnNumberEnd();
    }

    /** The switch over the states: one turn of the loop starting at byte i. */
    method Turn(data: string, i: nat) returns (next: nat, rv: int)
      requires Valid() && currentState != FINISH && currentState != ERROR && i < |data|
      modifies this
      ensures Valid()
      ensures rv <= 0 && (rv == 0 ==> i < next <= |data| && currentState != ERROR)
      ensures Resume(old(Abs()), data, i) == if rv < 0 then Fed(Abs(), rv) else Resume(Abs(), data, next)
    {
      hide Joined, Resume, BencodeMachine.Valid, StepItem, StepValue, StepKey, StepLength, StepString, StepSign, StepNumber, StepFloat;
      TakeByte(Abs(), data, i);
      next, rv := i + 1, 0;
      if currentState == LIST {
        rv := ParseList(data[i]);
      } else if currentState == INITIAL || currentState == VALUE {
        rv := ParseValue(data[i]);
      } else if currentState == DICT_KEY {
        next, rv := ParseDictKey(data, i);
      } else if currentState == STRING_LEN {
        next, rv := ParseStringLen(data, i);
      } else if currentState == STRING {
        next := ParseString(data, i);
      } else if currentState == NUMBER_SIGN {
        ParseNumberSign(data[i]);
      } else if currentState == NUMBER {
        next, rv := ParseNumber(data, i);
      } else {
        rv := ParseFloat(data[i]);
      }
    }

    // ----- the interface

    /** Parses a buffer exactly as if its bytes had been taken one at a time. */
    method ParseUpdate(data: string) returns (rv: int)
      requires Valid()
      modifies this
      ensures Valid()
      ensures Fed(Abs(), rv) == Feed(old(Abs()), data)
    {
      hide Resume, BencodeMachine.Valid, Joined;
      if currentState == FINISH {
        AtTheEnd(Abs(), data, 0);
        return 0;
      } else if currentState == ERROR {
        StaysInError(Abs(), data);
        return lastError;
      }
      var i := 0;
      while i < |data| && currentState != FINISH
        invariant Valid() && i <= |data| && currentState != ERROR
        invariant Resume(Abs(), data, i) == Resume(old(Abs()), data, 0)
      {
        i, rv := Turn(data, i);
        if rv < 0 {
          return;
        }
      }
      AtTheEnd(Abs(), data, i);
      rv := i;
    }

    method ParseFinal(data: string) returns (rv: int)
      requires Valid()
      modifies this
      ensures Valid()
      ensures Abs() == Feed(old(Abs()), data).parser
      ensures var r := Feed(old(Abs()), data);
              rv == if r.consumed < 0 || r.parser.mode.Finish? || r.parser.mode.Initial? then r.consumed
                    else ERR_PREMATURE_DATA
    {
      rv := ParseUpdate(data);
      if rv >= 0 {
        if currentState != FINISH && currentState != INITIAL {
          rv := ERR_PREMATURE_DATA;
        }
      }
    }

    /** Whatever the number fields still hold, the parser is as good as new. */
    method Reset()
      requires Valid()
      modifies this
      ensures Valid() && Abs() == INIT
    {
      events := [];
      currentState := INITIAL;
      lastError := 0;
      while stateStack != []
        invariant currentState == INITIAL && events == [] && Ready()
        decreases |stateStack|
      {
        var _ := PopState();
      }
      stateStack := stateStack + [FINISH];
    }

    /** Split invariance of the parser itself: cut the input as you like, stop at the first failure. */
    method ParsePieces(pieces: seq<string>) returns (rv: int)
      requires Valid()
      modifies this
      ensures Valid()
      ensures Fed(Abs(), rv) == FeedAll(old(Abs()), pieces) == Feed(old(Abs()), Concat(pieces))
    {
      hide Feed, BencodeMachine.Valid, Joined, FeedAll, AbsMode, After, Concat;
      ghost var p := Abs();
      SplitInvariance(p, pieces);
      ErrorMode();
      AfterNothing(FeedAll(p, pieces));
      if currentState == ERROR {
        StaysInError(p, Concat(pieces));
        return lastError;
      }
      rv := 0;
      var i := 0;
      assert pieces[0..] == pieces;
      ghost var q := p;
      while i < |pieces|
        invariant Valid() && Abs() == q && i <= |pieces| && 0 <= rv && !q.mode.Error?
        invariant FeedAll(p, pieces) == After(rv, FeedAll(q, pieces[i..]))
      {
        NextPiece(q, pieces, i, rv);
        var n := ParseUpdate(pieces[i]);
        ErrorMode();
        if n < 0 {
          return n;
        }
        NoErrorFed(q, pieces[i]);
        q := Abs();
        rv := rv + n;
        i := i + 1;
      }
      assert pieces[i..] == [];
      NoMorePieces(q, rv);
    }

    lemma ErrorMode()
      requires Ready()
      ensures currentState == ERROR <==> Abs().mode.Error?
      ensures currentState == ERROR ==> Abs().mode == Error(lastError)
    {
    }
  }

  lemma NextPiece(p: Parser, pieces: seq<string>, i: nat, consumed: nat)
    requires BencodeMachine.Valid(p) && i < |pieces|
    ensures var first := Feed(p, pieces[i]);
            After(consumed, FeedAll(p, pieces[i..])) ==
            if first.consumed < 0 then first
            else After(consumed + first.consumed, FeedAll(first.parser, pieces[i + 1..]))
  {
    hide Resume, BencodeMachine.Valid;
    assert pieces[i..][0] == pieces[i] && pieces[i..][1..] == pieces[i + 1..];
  }

  lemma NoMorePieces(p: Parser, consumed: nat)
    requires BencodeMachine.Valid(p) && !p.mode.Error?
    ensures After(consumed, FeedAll(p, [])) == Fed(p, consumed)
  {
  }

  lemma AfterNothing(r: Fed)
    ensures After(0, r) == r
  {
  }

  lemma NoErrorFed(p: Parser, data: string)
    requires BencodeMachine.Valid(p) && Feed(p, data).consumed >= 0
    ensures !Feed(p, data).parser.mode.Error?
  {
  }
}
