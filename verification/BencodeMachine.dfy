/**
  The bencode parser read one byte at a time: the simple form that the
  buffer-at-a-time BencodeParser is proved to refine.
 */
module BencodeMachine {
  import opened BencodeValues

  /** The control states that the parser keeps on its stack, and the others. */
  datatype Control =
    | FINISH | ERROR | INITIAL | VALUE | DICT_KEY | DICT_VAL | LIST
    | STRING_LEN | STRING | NUMBER_SIGN | NUMBER | FLOAT_NUMBER_IGNORE

  const ERR_UNEXPECTED_CHAR_BEFORE_VAL := -1
  const ERR_INVALID_NUMBER := -2
  const ERR_NUMBER_OUT_OF_RANGE := -3
  const ERR_PREMATURE_DATA := -4
  const ERR_STRUCTURE_TOO_DEEP := -5
  const ERR_INVALID_STRING_LENGTH := -6
  const ERR_STRING_LENGTH_OUT_OF_RANGE := -7
  const ERR_INVALID_FLOAT_NUMBER := -8

  /** The capacity of the state stack. */
  const MAX_STACK := 50

  /** A control state together with the fields that are meaningful in it. */
  datatype Mode =
    | Finish
    | Error(code: int)
    | Initial
    | AtValue
    | AtKey
    | AtItem
    | InLength(length: nat, digits: nat)
    | InString(left: nat)
    | AtSign
    | InNumber(sign: int, magnitude: nat, digits: nat)
    | InFloat

  /** The whole parser; in `log` adjacent characters callbacks are joined. */
  datatype Parser = Parser(mode: Mode, stack: seq<Control>, log: seq<Event>)

  const INIT := Parser(Initial, [FINISH], [])

  /** A byte was handled, or the parser gives up with a negative code. */
  datatype Step = Step(parser: Parser, code: int)

  /** `consumed` is the number of bytes taken, or a negative error code. */
  datatype Fed = Fed(parser: Parser, consumed: int)

  // ----- the event log

  function Push(log: seq<Event>, e: Event): seq<Event> {
    if e.Characters? && log != [] && log[|log| - 1].Characters? then
      log[..|log| - 1] + [Characters(log[|log| - 1].chars + e.chars)]
    else
      log + [e]
  }

  /** Joining does not depend on how the characters arrived. */
  lemma PushJoins(log: seq<Event>, a: string, b: string)
    ensures Push(Push(log, Characters(a)), Characters(b)) == Push(log, Characters(a + b))
  {
    if log != [] && log[|log| - 1].Characters? {
      assert log[|log| - 1].chars + a + b == log[|log| - 1].chars + (a + b);
    }
  }

  function Emit(p: Parser, e: Event): Parser {
    p.(log := Push(p.log, e))
  }

  // ----- one byte

  predicate IsDigit(c: char) { '0' <= c <= '9' }

  function DigitValue(c: char): nat
    requires IsDigit(c)
  {
    c as int - '0' as int
  }

  /** The overflow guard of the two digit loops, in the source's own arithmetic. */
  predicate Overflows(acc: nat, d: nat) {
    (INT64_MAX - d) / 10 < acc
  }

  predicate IsFloatChar(c: char) {
    IsDigit(c) || c == '.' || c == 'E' || c == '+' || c == '-'
  }

  /** Tops that enclose a value: the bottom of the stack, a list, a dictionary value. */
  predicate IsContext(c: Control) {
    c == FINISH || c == LIST || c == DICT_VAL
  }

  function Top(p: Parser): Control
    requires p.stack != []
  {
    p.stack[|p.stack| - 1]
  }

  function Pop(stack: seq<Control>): seq<Control>
    requires stack != []
  {
    stack[..|stack| - 1]
  }

  /** FINISH at the bottom, then lists and dictionary values, at most a key on top; at most 50 high. */
  predicate StackOk(stack: seq<Control>) {
    && 0 < |stack| <= MAX_STACK
    && (forall i | 0 <= i < |stack| :: stack[i] == FINISH <==> i == 0)
    && (forall i | 0 <= i < |stack| - 1 :: IsContext(stack[i]))
    && (IsContext(stack[|stack| - 1]) || stack[|stack| - 1] == DICT_KEY)
  }

  /** What holds of the parser between any two bytes. */
  predicate Valid(p: Parser) {
    && StackOk(p.stack)
    && match p.mode
       case Finish => p.stack == [FINISH]
       case Error(code) => code < 0
       case Initial => p.stack == [FINISH]
       case AtValue => Top(p) == LIST || Top(p) == DICT_VAL
       case AtKey => IsContext(Top(p))
       case AtItem => IsContext(Top(p))
       case InLength(length, digits) => length <= INT64_MAX && (digits == 0 ==> length == 0)
       case InString(left) => 0 < left <= INT64_MAX
       case AtSign => IsContext(Top(p))
       case InNumber(sign, magnitude, _) =>
         IsContext(Top(p)) && (sign == 1 || sign == -1) && magnitude <= INT64_MAX
       case InFloat => IsContext(Top(p))
  }

  predicate StepOk(r: Step) {
    Valid(r.parser) && r.code <= 0 && (r.code == 0 ==> !r.parser.mode.Error?)
  }

  function Ok(p: Parser): Step { Step(p, 0) }

  function Fail(p: Parser, code: int): Step { Step(p.(mode := Error(code)), code) }

  /** The state after a whole value; it does not depend on the mode the value ended in. */
  function OnValueEnd(stack: seq<Control>, log: seq<Event>): (r: Parser)
    requires StackOk(stack)
    ensures Valid(r) && !r.mode.Error?
  {
    match stack[|stack| - 1]
    case DICT_KEY => Parser(AtValue, Pop(stack) + [DICT_VAL], log + [Begin(DictDataT)])
    case DICT_VAL => Parser(AtKey, Pop(stack), log + [End(DictDataT)])
    case LIST => Parser(AtItem, Pop(stack), log + [End(ArrayDataT)])
    case _ => Parser(Finish, stack, log)
  }

  function OnStringEnd(stack: seq<Control>, log: seq<Event>): (r: Parser)
    requires StackOk(stack)
    ensures Valid(r) && !r.mode.Error?
  {
    OnValueEnd(stack, log + [End(if stack[|stack| - 1] == DICT_KEY then DictKeyT else StringT)])
  }

  function OnNumberEnd(stack: seq<Control>, log: seq<Event>, number: int): (r: Parser)
    requires StackOk(stack)
    ensures Valid(r) && !r.mode.Error?
  {
    OnValueEnd(stack, log + [Number(number)] + [End(NumberT)])
  }

  function StepValue(p: Parser, c: char): (r: Step)
    requires StackOk(p.stack) && IsContext(Top(p))
    ensures StepOk(r)
  {
    if c == 'd' then Ok(Emit(p.(mode := AtKey), Begin(DictT)))
    else if c == 'l' then Ok(Emit(p.(mode := AtItem), Begin(ArrayT)))
    else if c == 'i' then Ok(Emit(p.(mode := AtSign), Begin(NumberT)))
    else if IsDigit(c) then Ok(Emit(p.(mode := InLength(DigitValue(c), 1)), Begin(StringT)))
    else Fail(p, ERR_UNEXPECTED_CHAR_BEFORE_VAL)
  }

  /** Where the values of a list are read. */
  function ItemContext(p: Parser): (r: Parser)
    requires StackOk(p.stack) && IsContext(Top(p)) && |p.stack| < MAX_STACK
    ensures Valid(r)
  {
    Parser(AtValue, p.stack + [LIST], p.log + [Begin(ArrayDataT)])
  }

  /** Where the key of a dictionary entry is read. */
  function KeyContext(p: Parser): (r: Parser)
    requires StackOk(p.stack) && IsContext(Top(p)) && |p.stack| < MAX_STACK
    ensures Valid(r)
  {
    Parser(InLength(0, 0), p.stack + [DICT_KEY], p.log + [Begin(DictKeyT)])
  }

  function StepItem(p: Parser, c: char): (r: Step)
    requires StackOk(p.stack) && IsContext(Top(p)) && p.mode == AtItem
    ensures StepOk(r)
  {
    if c == 'e' then Ok(OnValueEnd(p.stack, p.log + [End(ArrayT)]))
    else if MAX_STACK <= |p.stack| then Step(p, ERR_STRUCTURE_TOO_DEEP)
    else StepValue(ItemContext(p), c)
  }

  function StepLength(p: Parser, c: char): (r: Step)
    requires Valid(p) && p.mode.InLength?
    ensures StepOk(r)
  {
    if IsDigit(c) then
      if Overflows(p.mode.length, DigitValue(c)) then Fail(p, ERR_STRING_LENGTH_OUT_OF_RANGE)
      else Ok(p.(mode := InLength(p.mode.length * 10 + DigitValue(c), p.mode.digits + 1)))
    else if c != ':' || p.mode.digits == 0 then
      Fail(p, ERR_INVALID_STRING_LENGTH)
    else if p.mode.length == 0 then
      Ok(OnStringEnd(p.stack, Push(p.log, Characters([]))))
    else
      Ok(p.(mode := InString(p.mode.length)))
  }

  function StepKey(p: Parser, c: char): (r: Step)
    requires StackOk(p.stack) && IsContext(Top(p)) && p.mode == AtKey
    ensures StepOk(r)
  {
    if c == 'e' then Ok(OnValueEnd(p.stack, p.log + [End(DictT)]))
    else if MAX_STACK <= |p.stack| then Step(p, ERR_STRUCTURE_TOO_DEEP)
    else StepLength(KeyContext(p), c)
  }

  function StepString(p: Parser, c: char): (r: Step)
    requires Valid(p) && p.mode.InString?
    ensures StepOk(r) && r.code == 0
  {
    var log := Push(p.log, Characters([c]));
    if p.mode.left == 1 then Ok(OnStringEnd(p.stack, log))
    else Ok(Parser(InString(p.mode.left - 1), p.stack, log))
  }

  function StepSign(p: Parser, c: char): (r: Step)
    requires Valid(p) && p.mode.AtSign?
    ensures StepOk(r) && r.code == 0
  {
    if c == '+' then Ok(p.(mode := InNumber(1, 0, 0)))
    else if c == '-' then Ok(p.(mode := InNumber(-1, 0, 0)))
    else if IsDigit(c) then Ok(p.(mode := InNumber(1, DigitValue(c), 1)))
    else Ok(p)
  }

  function StepNumber(p: Parser, c: char): (r: Step)
    requires Valid(p) && p.mode.InNumber?
    ensures StepOk(r)
  {
    var InNumber(sign, magnitude, digits) := p.mode;
    if IsDigit(c) then
      if Overflows(magnitude, DigitValue(c)) then Fail(p, ERR_NUMBER_OUT_OF_RANGE)
      else Ok(p.(mode := InNumber(sign, magnitude * 10 + DigitValue(c), digits + 1)))
    else if digits == 0 then Fail(p, ERR_INVALID_NUMBER)
    else if IsFloatChar(c) then Ok(p.(mode := InFloat))
    else if c != 'e' then Fail(p, ERR_INVALID_NUMBER)
    else Ok(OnNumberEnd(p.stack, p.log, sign * magnitude))
  }

  /** Numbers in floating-point notation are skipped and reported as 0. */
  function StepFloat(p: Parser, c: char): (r: Step)
    requires Valid(p) && p.mode.InFloat?
    ensures StepOk(r)
  {
    if IsFloatChar(c) then Ok(p)
    else if c != 'e' then Fail(p, ERR_INVALID_FLOAT_NUMBER)
    else Ok(OnNumberEnd(p.stack, p.log, 0))
  }

  predicate Stopped(p: Parser) { p.mode.Finish? || p.mode.Error? }

  function Advance(p: Parser, c: char): (r: Step)
    requires Valid(p) && !Stopped(p)
    ensures StepOk(r)
  {
    match p.mode
    case AtItem => StepItem(p, c)
    case Initial => StepValue(p, c)
    case AtValue => StepValue(p, c)
    case AtKey => StepKey(p, c)
    case InLength(_, _) => StepLength(p, c)
    case InString(_) => StepString(p, c)
    case AtSign => StepSign(p, c)
    case InNumber(_, _, _) => StepNumber(p, c)
    case InFloat => StepFloat(p, c)
  }

  // ----- a buffer

  /** Continues at byte k of the buffer; `consumed` counts from the start of the buffer. */
  function Resume(p: Parser, data: string, k: nat): (r: Fed)
    requires Valid(p) && k <= |data|
    ensures Valid(r.parser)
    ensures r.consumed < 0 || (k <= r.consumed <= |data| && !r.parser.mode.Error?)
    ensures 0 <= r.consumed < |data| ==> r.parser.mode.Finish?
    decreases |data| - k
  {
    if p.mode.Error? then Fed(p, p.mode.code)
    else if p.mode.Finish? || k == |data| then Fed(p, k)
    else
      var step := Advance(p, data[k]);
      if step.code < 0 then Fed(step.parser, step.code) else Resume(step.parser, data, k + 1)
  }

  lemma StaysInError(p: Parser, data: string)
    requires Valid(p) && p.mode.Error?
    ensures Feed(p, data) == Fed(p, p.mode.code)
  {
  }

  lemma AtTheEnd(p: Parser, data: string, k: nat)
    requires Valid(p) && k <= |data| && !p.mode.Error? && (p.mode.Finish? || k == |data|)
    ensures Resume(p, data, k) == Fed(p, k)
  {
  }

  /** One turn of the loop. */
  lemma TakeByte(p: Parser, data: string, k: nat)
    requires Valid(p) && !Stopped(p) && k < |data|
    ensures var step := Advance(p, data[k]);
            Resume(p, data, k) ==
            if step.code < 0 then Fed(step.parser, step.code) else Resume(step.parser, data, k + 1)
  {
    hide Advance, Valid;
  }

  // ----- runs of digits

  /** The two modes that read digits. */
  predicate ReadsDigits(p: Parser) { p.mode.InLength? || p.mode.InNumber? }

  function Accumulated(p: Parser): nat
    requires ReadsDigits(p)
  {
    if p.mode.InLength? then p.mode.length else p.mode.magnitude
  }

  /** The parser after `count` more digits that made `value`. */
  function WithDigits(p: Parser, value: nat, count: nat): Parser
    requires ReadsDigits(p)
  {
    match p.mode
    case InLength(_, digits) => p.(mode := InLength(value, digits + count))
    case InNumber(sign, _, digits) => p.(mode := InNumber(sign, value, digits + count))
  }

  function OverflowCode(p: Parser): int
    requires ReadsDigits(p)
  {
    if p.mode.InLength? then ERR_STRING_LENGTH_OUT_OF_RANGE else ERR_NUMBER_OUT_OF_RANGE
  }

  lemma TakeDigit(p: Parser, data: string, k: nat)
    requires Valid(p) && ReadsDigits(p) && k < |data| && IsDigit(data[k])
    ensures var d := DigitValue(data[k]);
            if Overflows(Accumulated(p), d) then
              Resume(p, data, k) == Fed(p.(mode := Error(OverflowCode(p))), OverflowCode(p))
            else
              var q := WithDigits(p, Accumulated(p) * 10 + d, 1);
              Valid(q) && Resume(p, data, k) == Resume(q, data, k + 1)
  {
    hide Resume, StackOk;
    TakeByte(p, data, k);
  }

  function Feed(p: Parser, data: string): Fed
    requires Valid(p)
  {
    Resume(p, data, 0)
  }

  /** Feeding the pieces one after another for as long as none of them fails. */
  function FeedAll(p: Parser, pieces: seq<string>): (r: Fed)
    requires Valid(p)
    ensures Valid(r.parser)
    decreases |pieces|
  {
    if pieces == [] then Fed(p, if p.mode.Error? then p.mode.code else 0)
    else
      var first := Feed(p, pieces[0]);
      if first.consumed < 0 then first
      else
        var rest := FeedAll(first.parser, pieces[1..]);
        if rest.consumed < 0 then rest else Fed(rest.parser, first.consumed + rest.consumed)
  }

  function Concat(pieces: seq<string>): string {
    if pieces == [] then "" else pieces[0] + Concat(pieces[1..])
  }

  /** The parse of a buffer and of the buffer with a prefix in front of it agree. */
  lemma {:induction false} ResumeShift(p: Parser, a: string, b: string, k: nat)
    requires Valid(p) && k <= |b|
    ensures var whole, part := Resume(p, a + b, |a| + k), Resume(p, b, k);
            && whole.parser == part.parser
            && whole.consumed == if part.consumed < 0 then part.consumed else |a| + part.consumed
    decreases |b| - k
  {
    hide Advance, Valid;
    if !Stopped(p) && k < |b| {
      var step := Advance(p, b[k]);
      assert (a + b)[|a| + k] == b[k];
      if step.code == 0 {
        ResumeShift(step.parser, a, b, k + 1);
      }
    }
  }

  /** Parsing a + b from position k of a is parsing a and then, unless that failed, b. */
  lemma {:induction false} ResumeSplit(p: Parser, a: string, b: string, k: nat)
    requires Valid(p) && k <= |a|
    ensures var first, whole := Resume(p, a, k), Resume(p, a + b, k);
            if first.consumed < 0 then whole == first
            else
              var second := Feed(first.parser, b);
              && whole.parser == second.parser
              && whole.consumed ==
                 if second.consumed < 0 then second.consumed else first.consumed + second.consumed
    decreases |a| - k
  {
    hide Advance, Valid;
    if k == |a| {
      ResumeShift(p, a, b, 0);
    } else if !Stopped(p) {
      var step := Advance(p, a[k]);
      assert (a + b)[k] == a[k];
      if step.code == 0 {
        ResumeSplit(step.parser, a, b, k + 1);
      }
    }
  }

  /** Split invariance: any way of cutting a buffer into pieces gives the same parser and result. */
  lemma {:induction false} SplitInvariance(p: Parser, pieces: seq<string>)
    requires Valid(p)
    ensures FeedAll(p, pieces) == Feed(p, Concat(pieces))
    decreases |pieces|
  {
    if pieces != [] {
      ResumeSplit(p, pieces[0], Concat(pieces[1..]), 0);
      SplitInvariance(Feed(p, pieces[0]).parser, pieces[1..]);
    }
  }

  /** A digit is refused exactly when the number it would make exceeds INT64_MAX. */
  lemma OverflowGuardIsExact(acc: nat, d: nat)
    requires d < 10
    ensures Overflows(acc, d) <==> INT64_MAX < acc * 10 + d
  {
  }
}
