/**
  The values of bencoding (BEP 3, section "bencoding"), their canonical text and
  the callbacks a parser owes its state machine for each of them.
 */
module BencodeValues {

  /** INT64_MAX, the bound on numbers and on string lengths. */
  const INT64_MAX: int := 0x7fff_ffff_ffff_ffff

  /** A bencoded value; lists and dictionaries are kept as linked lists. */
  datatype Value =
    | Int(n: int)
    | Str(s: string)
    | List(items: Items)
    | Dict(entries: Entries)

  datatype Items = NoItems | Item(head: Value, rest: Items)
  datatype Entries = NoEntries | Entry(key: string, value: Value, more: Entries)

  /** The STRUCT_*_T element types. */
  datatype Element = DictT | DictKeyT | DictDataT | ArrayT | ArrayDataT | StringT | NumberT

  /** One callback received by the StructParserStateMachine. */
  datatype Event =
    | Begin(element: Element)
    | End(element: Element)
    | Characters(chars: string)
    | Number(value: int)

  // ----- canonical text

  function Digit(d: nat): (c: char)
    requires d < 10
    ensures '0' <= c <= '9' && c as int - '0' as int == d
  {
    '0' + d as char
  }

  function Decimal(n: nat): (text: string)
    ensures text != []
    ensures forall i | 0 <= i < |text| :: '0' <= text[i] <= '9'
  {
    if n < 10 then [Digit(n)] else Decimal(n / 10) + [Digit(n % 10)]
  }

  function Encode(v: Value): (text: string)
    ensures text != [] && text[0] != 'e'
  {
    match v
    case Int(n) => (if n < 0 then "i-" + (Decimal(-n) + "e") else "i" + (Decimal(n) + "e"))
    case Str(s) => EncodeString(s)
    case List(items) => "l" + (EncodeItems(items) + "e")
    case Dict(entries) => "d" + (EncodeEntries(entries) + "e")
  }

  function EncodeString(s: string): (text: string)
    ensures text != [] && '0' <= text[0] <= '9'
  {
    Decimal(|s|) + (":" + s)
  }

  function EncodeItems(items: Items): string {
    match items
    case NoItems => ""
    case Item(v, rest) => Encode(v) + EncodeItems(rest)
  }

  function EncodeEntries(entries: Entries): string {
    match entries
    case NoEntries => ""
    case Entry(k, v, more) => EncodeString(k) + (Encode(v) + EncodeEntries(more))
  }

  // ----- callbacks

  function Events(v: Value): (events: seq<Event>)
    ensures events != [] && events[0].Begin? && events[|events| - 1].End?
    decreases v, 0
  {
    match v
    case Int(n) => [Begin(NumberT), Number(n), End(NumberT)]
    case Str(s) => [Begin(StringT), Characters(s), End(StringT)]
    case List(items) => [Begin(ArrayT)] + (ItemsEvents(items) + [End(ArrayT)])
    case Dict(entries) => [Begin(DictT)] + (EntriesEvents(entries) + [End(DictT)])
  }

  function ItemEvents(v: Value): seq<Event>
    decreases v, 1
  {
    [Begin(ArrayDataT)] + (Events(v) + [End(ArrayDataT)])
  }

  function KeyEvents(key: string): seq<Event> {
    [Begin(DictKeyT), Characters(key), End(DictKeyT), Begin(DictDataT)]
  }

  function EntryEvents(key: string, v: Value): seq<Event>
    decreases v, 1
  {
    KeyEvents(key) + (Events(v) + [End(DictDataT)])
  }

  function ItemsEvents(items: Items): seq<Event> {
    match items
    case NoItems => []
    case Item(v, rest) => ItemEvents(v) + ItemsEvents(rest)
  }

  function EntriesEvents(entries: Entries): seq<Event> {
    match entries
    case NoEntries => []
    case Entry(k, v, more) => EntryEvents(k, v) + EntriesEvents(more)
  }

  // ----- what the parser can hold

  /** The value needs no number or length above INT64_MAX and at most `room` more stack slots. */
  predicate Fits(v: Value, room: int) {
    match v
    case Int(n) => -INT64_MAX <= n <= INT64_MAX
    case Str(s) => |s| <= INT64_MAX
    case List(items) => ItemsFit(items, room)
    case Dict(entries) => EntriesFit(entries, room)
  }

  predicate ItemsFit(items: Items, room: int) {
    items.Item? ==> 0 < room && Fits(items.head, room - 1) && ItemsFit(items.rest, room)
  }

  predicate EntriesFit(entries: Entries, room: int) {
    entries.Entry? ==>
      && 0 < room
      && |entries.key| <= INT64_MAX
      && Fits(entries.value, room - 1)
      && EntriesFit(entries.more, room)
  }

  // ----- appending at the end of a list or a dictionary

  function AppendItem(items: Items, v: Value): Items {
    match items
    case NoItems => Item(v, NoItems)
    case Item(head, rest) => Item(head, AppendItem(rest, v))
  }

  function AppendEntry(entries: Entries, k: string, v: Value): Entries {
    match entries
    case NoEntries => Entry(k, v, NoEntries)
    case Entry(k', v', more) => Entry(k', v', AppendEntry(more, k, v))
  }

  lemma {:induction false} AppendItemEvents(items: Items, v: Value, room: int)
    ensures ItemsEvents(AppendItem(items, v)) == ItemsEvents(items) + ItemEvents(v)
    ensures ItemsFit(AppendItem(items, v), room) <==>
            ItemsFit(items, room) && 0 < room && Fits(v, room - 1)
  {
    match items
    case NoItems =>
    case Item(head, rest) => AppendItemEvents(rest, v, room);
  }

  lemma {:induction false} AppendEntryEvents(entries: Entries, k: string, v: Value, room: int)
    ensures EntriesEvents(AppendEntry(entries, k, v)) == EntriesEvents(entries) + EntryEvents(k, v)
    ensures EntriesFit(AppendEntry(entries, k, v), room) <==>
            EntriesFit(entries, room) && 0 < room && |k| <= INT64_MAX && Fits(v, room - 1)
  {
    match entries
    case NoEntries =>
    case Entry(k', v', more) => AppendEntryEvents(more, k, v, room);
  }
}
