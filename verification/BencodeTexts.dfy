/**
  The texts that the parser takes for bencoded values, as syntax trees. They are those of BEP 3 and
  more: bytes before the sign or the first digit of a number are skipped, digits may have leading
  zeros, a number may go on in floating-point notation and then counts as 0, and the entries of a
  dictionary come in any order.
 */
module BencodeTexts {
  import opened BencodeValues
  import opened BencodeMachine
  import opened Text

  datatype Tree =
    | NumberTree(junk: string, sign: string, digits: string, tail: string)
    | StringTree(length: string, s: string)
    | ListTree(items: Trees)
    | DictTree(entries: Pairs)

  datatype Trees = NoTrees | MoreTrees(head: Tree, rest: Trees)
  datatype Pairs = NoPairs | MorePairs(length: string, key: string, value: Tree, more: Pairs)

  // ----- well-formed trees

  predicate AllDigits(text: string) {
    forall c | c in text :: IsDigit(c)
  }

  predicate IsNumeral(text: string) {
    text != [] && AllDigits(text)
  }

  function NumeralValue(text: string): nat
    requires AllDigits(text)
  {
    if text == [] then 0 else NumeralValue(text[..|text| - 1]) * 10 + DigitValue(text[|text| - 1])
  }

  predicate IsJunk(text: string) {
    forall c | c in text :: !IsDigit(c) && c != '+' && c != '-'
  }

  predicate IsSign(text: string) {
    text == "" || text == "+" || text == "-"
  }

  predicate IsTail(text: string) {
    text != [] ==> !IsDigit(text[0]) && forall c | c in text :: IsFloatChar(c)
  }

  /** The length in front of a string. */
  predicate IsLength(length: string, s: string) {
    IsNumeral(length) && NumeralValue(length) == |s|
  }

  predicate WellFormed(t: Tree) {
    match t
    case NumberTree(junk, sign, digits, tail) => IsJunk(junk) && IsSign(sign) && IsNumeral(digits) && IsTail(tail)
    case StringTree(length, s) => IsLength(length, s)
    case ListTree(items) => WellFormedTrees(items)
    case DictTree(entries) => WellFormedPairs(entries)
  }

  predicate WellFormedTrees(items: Trees) {
    items.MoreTrees? ==> WellFormed(items.head) && WellFormedTrees(items.rest)
  }

  predicate WellFormedPairs(entries: Pairs) {
    entries.MorePairs? ==> IsLength(entries.length, entries.key) && WellFormed(entries.value) && WellFormedPairs(entries.more)
  }

  // ----- their text

  function NumberText(junk: string, sign: string, digits: string, tail: string): string {
    "i" + (junk + (sign + (digits + tail)))
  }

  function StringText(length: string, s: string): string {
    length + (":" + s)
  }

  function Write(t: Tree): string {
    match t
    case NumberTree(junk, sign, digits, tail) => NumberText(junk, sign, digits, tail) + "e"
    case StringTree(length, s) => StringText(length, s)
    case ListTree(items) => "l" + (WriteTrees(items) + "e")
    case DictTree(entries) => "d" + (WritePairs(entries) + "e")
  }

  function WriteTrees(items: Trees): string {
    match items
    case NoTrees => ""
    case MoreTrees(t, rest) => Write(t) + WriteTrees(rest)
  }

  function WritePairs(entries: Pairs): string {
    match entries
    case NoPairs => ""
    case MorePairs(length, key, t, more) => StringText(length, key) + (Write(t) + WritePairs(more))
  }

  // ----- their value

  function SignOf(sign: string): int {
    if sign == "-" then -1 else 1
  }

  function Meaning(t: Tree): Value
    requires WellFormed(t)
  {
    match t
    case NumberTree(_, sign, digits, tail) =>
      Int(if tail != "" then 0 else SignOf(sign) * NumeralValue(digits))
    case StringTree(_, s) => Str(s)
    case ListTree(items) => List(Meanings(items))
    case DictTree(entries) => Dict(MeaningOfPairs(entries))
  }

  function Meanings(items: Trees): Items
    requires WellFormedTrees(items)
  {
    match items
    case NoTrees => NoItems
    case MoreTrees(t, rest) => Item(Meaning(t), Meanings(rest))
  }

  function MeaningOfPairs(entries: Pairs): Entries
    requires WellFormedPairs(entries)
  {
    match entries
    case NoPairs => NoEntries
    case MorePairs(_, key, t, more) => Entry(key, Meaning(t), MeaningOfPairs(more))
  }

  /** Numerals and lengths are within INT64_MAX, and at most `room` more stack slots are needed. */
  predicate TreeFits(t: Tree, room: int)
    requires WellFormed(t)
  {
    match t
    case NumberTree(_, _, digits, _) => NumeralValue(digits) <= INT64_MAX
    case StringTree(_, s) => |s| <= INT64_MAX
    case ListTree(items) => TreesFit(items, room)
    case DictTree(entries) => PairsFit(entries, room)
  }

  predicate TreesFit(items: Trees, room: int)
    requires WellFormedTrees(items)
  {
    items.MoreTrees? ==> 0 < room && TreeFits(items.head, room - 1) && TreesFit(items.rest, room)
  }

  predicate PairsFit(entries: Pairs, room: int)
    requires WellFormedPairs(entries)
  {
    entries.MorePairs? ==>
      && 0 < room
      && |entries.key| <= INT64_MAX
      && TreeFits(entries.value, room - 1)
      && PairsFit(entries.more, room)
  }

  /** What a text fails of, read from its beginning: the error code, or 0 if it fits. */
  function Obstacle(t: Tree, room: int): (code: int)
    requires WellFormed(t)
    ensures code == 0 <==> TreeFits(t, room)
    ensures code == 0 || code == -3 || code == -5 || code == -7
  {
    match t
    case NumberTree(_, _, digits, _) => if NumeralValue(digits) > 0x7fff_ffff_ffff_ffff then -3 else 0
    case StringTree(_, s) => if |s| > 0x7fff_ffff_ffff_ffff then -7 else 0
    case ListTree(items) => ItemsObstacle(items, room)
    case DictTree(entries) => PairsObstacle(entries, room)
  }

  function ItemsObstacle(items: Trees, room: int): (code: int)
    requires WellFormedTrees(items)
    ensures code == 0 <==> TreesFit(items, room)
    ensures code == 0 || code == -3 || code == -5 || code == -7
  {
    if items.NoTrees? then 0
    else if room <= 0 then -5
    else if Obstacle(items.head, room - 1) != 0 then Obstacle(items.head, room - 1)
    else ItemsObstacle(items.rest, room)
  }

  function PairsObstacle(entries: Pairs, room: int): (code: int)
    requires WellFormedPairs(entries)
    ensures code == 0 <==> PairsFit(entries, room)
    ensures code == 0 || code == -3 || code == -5 || code == -7
  {
    if entries.NoPairs? then 0
    else if room <= 0 then -5
    else if |entries.key| > 0x7fff_ffff_ffff_ffff then -7
    else if Obstacle(entries.value, room - 1) != 0 then Obstacle(entries.value, room - 1)
    else PairsObstacle(entries.more, room)
  }

  // ----- beginnings

  lemma TreeBegins(t: Tree)
    requires WellFormed(t)
    ensures Write(t) != [] && Write(t)[0] != 'e'
  {
    if t.StringTree? {
      assert Write(t)[0] == t.length[0] && t.length[0] in t.length;
    }
  }

  lemma StringBegins(length: string, s: string)
    requires IsNumeral(length)
    ensures StringText(length, s) != [] && IsDigit(StringText(length, s)[0])
  {
    assert StringText(length, s)[0] == length[0] && length[0] in length;
  }

  // ----- numerals

  lemma NumeralSnoc(text: string, c: char)
    requires AllDigits(text) && IsDigit(c)
    ensures AllDigits(text + [c]) && NumeralValue(text + [c]) == NumeralValue(text) * 10 + DigitValue(c)
  {
    assert (text + [c])[..|text|] == text;
  }

  lemma NumeralParts(digits: string)
    requires AllDigits(digits)
    ensures digits == [] ==> NumeralValue(digits) == 0
    ensures digits != [] ==>
              var init, c := digits[..|digits| - 1], digits[|digits| - 1];
              digits == init + [c] && AllDigits(init) && IsDigit(c) && NumeralValue(digits) == NumeralValue(init) * 10 + DigitValue(c)
  {
    if digits != [] {
      assert digits[|digits| - 1] in digits;
    }
  }

  lemma {:induction false} DecimalIsNumeral(n: nat)
    ensures IsNumeral(Decimal(n)) && NumeralValue(Decimal(n)) == n
    decreases n
  {
    if n >= 10 {
      DecimalIsNumeral(n / 10);
      NumeralSnoc(Decimal(n / 10), Digit(n % 10));
    } else {
      NumeralSnoc("", Digit(n));
      assert "" + [Digit(n)] == [Digit(n)];
    }
  }

  // ----- the canonical tree of a value

  function Canonical(v: Value): Tree {
    match v
    case Int(n) => NumberTree("", if n < 0 then "-" else "", Decimal(if n < 0 then -n else n), "")
    case Str(s) => StringTree(Decimal(|s|), s)
    case List(items) => ListTree(CanonicalItems(items))
    case Dict(entries) => DictTree(CanonicalEntries(entries))
  }

  function CanonicalItems(items: Items): Trees {
    match items
    case NoItems => NoTrees
    case Item(v, rest) => MoreTrees(Canonical(v), CanonicalItems(rest))
  }

  function CanonicalEntries(entries: Entries): Pairs {
    match entries
    case NoEntries => NoPairs
    case Entry(k, v, more) => MorePairs(Decimal(|k|), k, Canonical(v), CanonicalEntries(more))
  }

  /** The canonical tree has the value for its meaning and the canonical encoding for its text. */
  lemma {:induction false} CanonicalIs(v: Value, room: int)
    ensures WellFormed(Canonical(v)) && Meaning(Canonical(v)) == v && Write(Canonical(v)) == Encode(v)
    ensures TreeFits(Canonical(v), room) <==> Fits(v, room)
    decreases v
  {
    match v
    case Int(n) => CanonicalNumber(n);
    case Str(s) => DecimalIsNumeral(|s|);
    case List(items) => CanonicalItemsAre(items, room);
    case Dict(entries) => CanonicalEntriesAre(entries, room);
  }

  lemma CanonicalNumber(n: int)
    ensures WellFormed(Canonical(Int(n))) && Meaning(Canonical(Int(n))) == Int(n) && Write(Canonical(Int(n))) == Encode(Int(n))
  {
    hide NumberText, Decimal, NumeralValue;
    DecimalIsNumeral(if n < 0 then -n else n);
    PlainNumber(if n < 0 then "-" else "", Decimal(if n < 0 then -n else n));
  }

  lemma PlainNumber(sign: string, digits: string)
    ensures NumberText("", sign, digits, "") + "e" == ("i" + sign) + (digits + "e")
  {
    assert digits + "" == digits;
    assert "" + (sign + digits) == sign + digits;
    Assoc("i", sign + digits, "e");
    Assoc(sign, digits, "e");
    Assoc("i", sign, digits + "e");
  }

  lemma {:induction false} CanonicalItemsAre(items: Items, room: int)
    ensures var ts := CanonicalItems(items);
            WellFormedTrees(ts) && Meanings(ts) == items && WriteTrees(ts) == EncodeItems(items) &&
            (TreesFit(ts, room) <==> ItemsFit(items, room))
    decreases items
  {
    if items.Item? {
      CanonicalIs(items.head, room - 1);
      CanonicalItemsAre(items.rest, room);
    }
  }

  lemma {:induction false} CanonicalEntriesAre(entries: Entries, room: int)
    ensures var ps := CanonicalEntries(entries);
            WellFormedPairs(ps) && MeaningOfPairs(ps) == entries && WritePairs(ps) == EncodeEntries(entries) &&
            (PairsFit(ps, room) <==> EntriesFit(entries, room))
    decreases entries
  {
    if entries.Entry? {
      DecimalIsNumeral(|entries.key|);
      CanonicalIs(entries.value, room - 1);
      CanonicalEntriesAre(entries.more, room);
    }
  }

  // ----- appending at the end of a list or a dictionary

  function AppendTree(items: Trees, t: Tree): Trees {
    match items
    case NoTrees => MoreTrees(t, NoTrees)
    case MoreTrees(head, rest) => MoreTrees(head, AppendTree(rest, t))
  }

  function AppendPair(entries: Pairs, length: string, key: string, t: Tree): Pairs {
    match entries
    case NoPairs => MorePairs(length, key, t, NoPairs)
    case MorePairs(l, k, v, more) => MorePairs(l, k, v, AppendPair(more, length, key, t))
  }

  lemma {:induction false} AppendTreeText(items: Trees, t: Tree)
    ensures WriteTrees(AppendTree(items, t)) == WriteTrees(items) + Write(t)
    ensures WellFormedTrees(AppendTree(items, t)) <==> WellFormedTrees(items) && WellFormed(t)
  {
    if items.MoreTrees? {
      AppendTreeText(items.rest, t);
      Assoc(Write(items.head), WriteTrees(items.rest), Write(t));
    }
  }

  lemma {:induction false} AppendPairText(entries: Pairs, length: string, key: string, t: Tree)
    ensures WritePairs(AppendPair(entries, length, key, t)) == WritePairs(entries) + (StringText(length, key) + Write(t))
    ensures WellFormedPairs(AppendPair(entries, length, key, t)) <==>
            WellFormedPairs(entries) && IsLength(length, key) && WellFormed(t)
  {
    if entries.MorePairs? {
      AppendPairText(entries.more, length, key, t);
      var head, value, more := StringText(entries.length, entries.key), Write(entries.value), WritePairs(entries.more);
      var last := StringText(length, key) + Write(t);
      Assoc(value, more, last);
      Assoc(head, value + more, last);
    }
  }
}
