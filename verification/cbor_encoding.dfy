/**
 What CBOR values are written as, in the preferred serialization: the shortest
 heads and floats, definite lengths and, deterministic, map keys in the order
 of their encodings (cbor.rs; RFC 8949, sections 3.4.3 and 4.2.1).
 */
module CborEncoding {
  import opened Bytes
  import opened Decimal
  import opened Floats
  import opened Order
  import Instants
  import Utf8
  import Wide

  const U64: nat := 0x1_0000_0000_0000_0000

  const U128: nat := 0x1_0000_0000_0000_0000_0000_0000_0000_0000

  // ---------------------------------------------------------------------
  // Heads and scalars
  // ---------------------------------------------------------------------

  /** A major type and its argument in as few bytes as hold them. */
  function Head(major: nat, argument: nat): bytes
    requires major < 8
  {
    if argument <= 23 then [major * 32 + argument]
    else if argument <= 0xFF then [major * 32 + 24] + Wide.Written(argument, 1)
    else if argument <= 0xFFFF then [major * 32 + 25] + Wide.Written(argument, 2)
    else if argument <= 0xFFFF_FFFF then [major * 32 + 26] + Wide.Written(argument, 4)
    else [major * 32 + 27] + Wide.Written(argument, 8)
  }

  /** The shortest float that holds the one of these 64 bits exactly; NaN as
      half precision. */
  function FloatBytes(bits: double): bytes {
    if Double(bits) == NaN then [0xF9, 0x7E, 0x00]
    else
      match ToSingle(bits)
      case None => [0xFB] + Wide.Written(bits, 8)
      case Some(single) =>
        ToSingleIsEqual(bits);
        match ToHalf(single)
        case Some(half) => [0xF9] + Wide.Written(half, 2)
        case None => [0xFA] + Wide.Written(single, 4)
  }

  /** The integer of 128 bits at most that digits write, as its sign and
      magnitude. */
  function IntegerDigits(text: bytes): Option<(bool, nat)> {
    var negative := text != [] && text[0] == 0x2D;
    var digits := if text != [] && (text[0] == 0x2D || text[0] == 0x2B) then text[1..] else text;
    if digits == [] || !AllDigits(digits) || Decimal.Value(digits) >= U128 then None
    else Some((negative, Decimal.Value(digits)))
  }

  /** An integer as a head of its own; one of more than 64 bits as a tagged byte
      string. */
  function IntegerBytes(negative: bool, magnitude: nat): bytes {
    var below := negative && magnitude > 0;
    var argument := if below then magnitude - 1 else magnitude;
    if argument < U64 then Head(if below then 1 else 0, argument)
    else
      var significant := Wide.Significant(Wide.Written(argument, 16));
      Head(6, if below then 3 else 2) + Head(2, |significant|) + significant
  }

  function Abs(n: int): nat { if n < 0 then -n else n }

  /** An `Int`: a head of major type 0 or 1. */
  function IntBytes(n: int): bytes { if n >= 0 then Head(0, n) else Head(1, -1 - n) }

  function TextBytes(text: bytes): bytes { Head(3, |text|) + text }

  /** Tag 0 and the text of the instant. */
  function DateTimeBytes(shown: bytes): bytes { [0xC0] + TextBytes(shown) }

  // ---------------------------------------------------------------------
  // Values
  // ---------------------------------------------------------------------

  datatype Value =
    | NullValue
    | BoolValue(bool)
    | Integer(int)
    | FloatValue(double)
    | TextValue(bytes)
    | BytesValue(bytes)
    | DateTimeValue(bytes)
    | ListValue(items: seq<Value>)
    | MapValue(members: seq<Member>)

  datatype Member = Member(key: bytes, value: Value)

  /** An item of a container written: its key's encoding, none in an array, and
      its own. */
  datatype Entry = Entry(key: bytes, value: bytes)

  function EntryKey(entry: Entry): seq<nat> { entry.key }

  /** The text of the instant that a date and time is. */
  function Shown(text: bytes): bytes {
    match Instants.Parsed(text)
    case Some((seconds, nanos)) => Instants.Format(seconds, nanos)
    case None => []
  }

  function Joined(entries: seq<Entry>): bytes {
    if entries == [] then [] else entries[0].key + entries[0].value + Joined(entries[1..])
  }

  function InOrder(entries: seq<Entry>, deterministic: bool): seq<Entry> {
    if deterministic then Sort(EntryKey, entries) else entries
  }

  function Encoded(v: Value, deterministic: bool): bytes {
    match v
    case NullValue => [0xF6]
    case BoolValue(b) => [if b then 0xF5 else 0xF4]
    case Integer(n) => IntegerBytes(n < 0, Abs(n))
    case FloatValue(bits) => FloatBytes(bits)
    case TextValue(text) => TextBytes(text)
    case BytesValue(content) => Head(2, |content|) + content
    case DateTimeValue(text) => DateTimeBytes(Shown(text))
    case ListValue(items) => Head(4, |items|) + Joined(Items(items, deterministic))
    case MapValue(members) => Head(5, |members|) + Joined(InOrder(Pairs(members, deterministic), deterministic))
  }

  function Items(items: seq<Value>, deterministic: bool): (r: seq<Entry>)
    ensures |r| == |items|
  {
    if items == [] then []
    else [Entry([], Encoded(items[0], deterministic))] + Items(items[1..], deterministic)
  }

  function Pairs(members: seq<Member>, deterministic: bool): (r: seq<Entry>)
    ensures |r| == |members|
  {
    if members == [] then []
    else
      assert members[0].value < members[0];
      [Entry(TextBytes(members[0].key), Encoded(members[0].value, deterministic))] + Pairs(members[1..], deterministic)
  }

  // ---------------------------------------------------------------------
  // Integers
  // ---------------------------------------------------------------------

  /** An `Int` is written as its digits would be. */
  lemma IntIsInteger(n: int)
    requires -0x8000_0000_0000_0000 <= n < 0x8000_0000_0000_0000
    ensures IntBytes(n) == IntegerBytes(n < 0, Abs(n))
  {
  }

  /** The digits of an integer of 128 bits are read as it. */
  lemma DigitsAreInteger(n: int)
    requires Abs(n) < U128
    ensures IntegerDigits(if n < 0 then [0x2D] + Digits(-n) else Digits(n)) == Some((n < 0, Abs(n)))
  {
    var magnitude := Abs(n);
    DigitsValue(magnitude);
    assert ([0x2D] + Digits(magnitude))[1..] == Digits(magnitude);
    assert IsDigit(Digits(magnitude)[0]);
  }
}
