/**
 What JSON texts read as (json.rs): the events of a document, one call after
 another, over its whole text. `JsonReader` reads the same from pieces.
 */
module Json {
  import opened Bytes
  import opened Decimal
  import Utf8

  const QUOTE: byte := 0x22
  const COMMA: byte := 0x2C
  const COLON: byte := 0x3A
  const BACKSLASH: byte := 0x5C
  const OPEN_BRACKET: byte := 0x5B
  const CLOSE_BRACKET: byte := 0x5D
  const OPEN_BRACE: byte := 0x7B
  const CLOSE_BRACE: byte := 0x7D
  const MINUS: byte := 0x2D

  const MAX_DEPTH: nat := 128

  datatype Event =
    | End | Null | True | False | Number | String
    | BeginArray | EndArray | BeginObject | EndObject | Key | Error

  datatype Message =
    | UnexpectedData
    | ExpectedCommaOrBracket
    | ExpectedCommaOrBrace
    | ExpectedKey
    | ExpectedColon
    | DuplicateKey(key: bytes)
    | UnexpectedEnd
    | TooDeep
    | UnexpectedCharacter
    | InvalidNumber
    | NoFraction
    | NoExponent
    | InvalidEscape
    | Unpaired
    | Unterminated
    | ControlCharacter
    | NotUtf8
    | Told(text: bytes)

  /** A container the reader is in. An object remembers its keys. */
  datatype Frame =
    | Array(index: nat, started: bool)
    | Object(keys: seq<bytes>, expectKey: bool, started: bool)

  datatype State = State(
    position: nat,
    frames: seq<Frame>,
    text: bytes,
    integer: Option<int>,
    done: bool,
    rootSeen: bool,
    error: Option<(Message, nat)>,
    start: nat)

  /** A document: its text, whether repeated keys are allowed, and whether the
      texts in it have still to be checked for UTF-8, as a stream's. */
  datatype Document = Document(whole: bytes, duplicates: bool, checked: bool)

  const START := State(0, [], [], None, false, false, None, 0)

  // ---------------------------------------------------------------------
  // Tokens
  // ---------------------------------------------------------------------

  /** What was read from the bytes, or why not, and how far the reader got. */
  datatype Scanned<+T> = Got(value: T, at: nat) | Bad(message: Message, at: nat)

  predicate At(w: bytes, p: nat, b: byte) { p < |w| && w[p] == b }

  predicate IsSpace(b: byte) { b == 0x20 || b == 0x09 || b == 0x0A || b == 0x0D }

  function SpaceEnd(w: bytes, p: nat): (end: nat)
    ensures p <= end && (p <= |w| ==> end <= |w|)
    decreases |w| - p
  {
    if p < |w| && IsSpace(w[p]) then SpaceEnd(w, p + 1) else p
  }

  function DigitsEnd(w: bytes, p: nat): (end: nat)
    ensures p <= end && (p <= |w| ==> end <= |w|)
    ensures p < end <==> p < |w| && IsDigit(w[p])
    decreases |w| - p
  {
    if p < |w| && IsDigit(w[p]) then DigitsEnd(w, p + 1) else p
  }

  predicate IsExponent(w: bytes, p: nat) { At(w, p, 0x65) || At(w, p, 0x45) }

  predicate IsSign(w: bytes, p: nat) { At(w, p, 0x2B) || At(w, p, MINUS) }

  /** The whole part of a number: a zero, or digits. */
  function WholeEnd(w: bytes, p: nat): Scanned<()> {
    var first := if At(w, p, MINUS) then p + 1 else p;
    if At(w, first, 0x30) then Got((), first + 1)
    else if first < |w| && IsDigit(w[first]) then Got((), DigitsEnd(w, first))
    else Bad(InvalidNumber, first)
  }

  /** A number from `p` on: where it ends. */
  function NumberEnd(w: bytes, p: nat): Scanned<()> {
    match WholeEnd(w, p)
    case Bad(message, at) => Bad(message, at)
    case Got(_, at) => FractionEnd(w, at)
  }

  function FractionEnd(w: bytes, p: nat): Scanned<()> {
    if !At(w, p, 0x2E) then ExponentEnd(w, p)
    else
      var end := DigitsEnd(w, p + 1);
      if end == p + 1 then Bad(NoFraction, end) else ExponentEnd(w, end)
  }

  function ExponentEnd(w: bytes, p: nat): Scanned<()> {
    if !IsExponent(w, p) then Got((), p)
    else
      var digits := if IsSign(w, p + 1) then p + 2 else p + 1;
      var end := DigitsEnd(w, digits);
      if end == digits then Bad(NoExponent, end) else Got((), end)
  }

  /** `u32::from_str_radix(s, 16)`, which also takes a plus sign. */
  function Radix16(s: bytes): Option<nat> {
    var digits := if s != [] && s[0] == 0x2B then s[1..] else s;
    if digits == [] then None else HexValue(digits)
  }

  function HexDigit(b: byte): Option<nat> {
    var n: int := b;
    if 0x30 <= n <= 0x39 then Some(n - 0x30)
    else if 0x41 <= n <= 0x46 then Some(n - 0x37)
    else if 0x61 <= n <= 0x66 then Some(n - 0x57)
    else None
  }

  function HexValue(s: bytes): Option<nat> {
    if s == [] then Some(0)
    else
      match (HexValue(s[..|s| - 1]), HexDigit(s[|s| - 1]))
      case (Some(high), Some(low)) => Some(high * 16 + low)
      case _ => None
  }

  function Pow16(n: nat): nat { if n == 0 then 1 else 16 * Pow16(n - 1) }

  lemma {:induction false} HexBound(s: bytes)
    ensures HexValue(s).Some? ==> HexValue(s).value < Pow16(|s|)
  {
    if s != [] { HexBound(s[..|s| - 1]); }
  }

  lemma Radix16Bound(s: bytes)
    ensures |s| <= 4 && Radix16(s).Some? ==> Radix16(s).value < 0x1_0000
  {
    var digits := if s != [] && s[0] == 0x2B then s[1..] else s;
    HexBound(digits);
    assert Pow16(4) == 0x1_0000 && Pow16(3) == 0x1000 && Pow16(2) == 0x100 && Pow16(1) == 0x10 && Pow16(0) == 1;
  }

  predicate IsHex(b: byte) { HexDigit(b).Some? }

  lemma {:induction false} HexValueSome(s: bytes)
    ensures HexValue(s).Some? <==> forall i :: 0 <= i < |s| ==> IsHex(s[i])
  {
    if s != [] {
      var t := s[..|s| - 1];
      HexValueSome(t);
      assert forall i :: 0 <= i < |t| ==> t[i] == s[i];
    }
  }

  /** Four hexadecimal digits, or a plus sign and three. */
  ghost predicate HexFour(s: bytes)
    requires |s| == 4
  {
    (IsHex(s[0]) || s[0] == 0x2B) && IsHex(s[1]) && IsHex(s[2]) && IsHex(s[3])
  }

  lemma Radix16Some(s: bytes)
    requires |s| == 4
    ensures Radix16(s).Some? <==> HexFour(s)
  {
    HexValueSome(s);
    HexValueSome(s[1..]);
  }

  /** Four digits of an escape. */
  function Hex4(w: bytes, p: nat): (r: Scanned<nat>)
    ensures r.Got? <==> p + 4 <= |w| && HexFour(w[p..p + 4])
    ensures r.Got? ==> r.value < 0x1_0000 && r.at == p + 4
    ensures r.Bad? ==> r == Bad(InvalidEscape, p)
  {
    if p + 4 > |w| then Bad(InvalidEscape, p)
    else
      Radix16Bound(w[p..p + 4]);
      Radix16Some(w[p..p + 4]);
      match Radix16(w[p..p + 4])
      case Some(value) => Got(value, p + 4)
      case None => Bad(InvalidEscape, p)
  }

  /** An escape that RFC 8259, section 7, does not have: a plus sign and three
      digits for the letter A. */
  lemma PlusIsRead()
    ensures StringFrom([0x5C, 0x75, 0x2B, 0x30, 0x34, 0x31, 0x22], 0, []) == Got([0x41], 7)
  {
    var w: bytes := [0x5C, 0x75, 0x2B, 0x30, 0x34, 0x31, 0x22];
    var zero: bytes := [0x30];
    var four: bytes := [0x30, 0x34];
    var digits: bytes := [0x30, 0x34, 0x31];
    assert zero[..0] == [] && four[..1] == zero && digits[..2] == four && w[2..6][1..] == digits;
    assert HexValue(zero) == Some(0) && HexValue(four) == Some(4) && HexValue(digits) == Some(0x41);
    assert UnicodeAt(w, 2) == Got(0x41, 6);
    assert EscapeAt(w, 1) == Got([0x41], 6);
    var none: bytes := [];
    assert none + [0x41] == [0x41];
    assert StringFrom(w, 0, none) == StringFrom(w, 6, [0x41]);
  }

  predicate IsHigh(code: nat) { 0xD800 <= code < 0xDC00 }

  predicate IsLow(code: nat) { 0xDC00 <= code < 0xE000 }

  /** The character of a `u` escape, whose digits start at `p`: one, or the two
      of a surrogate pair. */
  function UnicodeAt(w: bytes, p: nat): (r: Scanned<nat>)
    ensures r.Got? ==> p < r.at <= |w| && Utf8.IsScalar(r.value)
    ensures p <= r.at && (p <= |w| ==> r.at <= |w|)
  {
    match Hex4(w, p)
    case Bad(message, at) => Bad(message, at)
    case Got(first, at) =>
      if IsHigh(first) then
        if !(At(w, at, BACKSLASH) && At(w, at + 1, 0x75)) then Bad(Unpaired, at)
        else
          match Hex4(w, at + 2)
          case Bad(message, end) => Bad(message, end)
          case Got(second, end) =>
            if IsLow(second) then Got(0x1_0000 + (first - 0xD800) * 0x400 + (second - 0xDC00), end)
            else Bad(Unpaired, end)
      else if IsLow(first) then Bad(Unpaired, at)
      else Got(first, at)
  }

  /** What the letter of an escape stands for, but for `u`. */
  function Escaped(letter: byte): Option<byte> {
    match letter
    case 0x22 => Some(0x22)
    case 0x5C => Some(0x5C)
    case 0x2F => Some(0x2F)
    case 0x62 => Some(0x08)
    case 0x66 => Some(0x0C)
    case 0x6E => Some(0x0A)
    case 0x72 => Some(0x0D)
    case 0x74 => Some(0x09)
    case _ => None
  }

  /** The character of the escape whose letter is at `p`, as its bytes. */
  function EscapeAt(w: bytes, p: nat): (r: Scanned<bytes>)
    ensures r.Got? ==> p < r.at <= |w|
    ensures p <= r.at && (p <= |w| ==> r.at <= |w|)
  {
    if p >= |w| then Bad(Unterminated, p)
    else if w[p] == 0x75 then
      match UnicodeAt(w, p + 1)
      case Bad(message, at) => Bad(message, at)
      case Got(code, at) => Got(Utf8.Encoded(code), at)
    else
      match Escaped(w[p])
      case Some(b) => Got([b], p + 1)
      case None => Bad(InvalidEscape, p + 1)
  }

  /** The rest of a string from `p` on, up to its closing quote. */
  function StringFrom(w: bytes, p: nat, out: bytes): (r: Scanned<bytes>)
    ensures r.Got? ==> p < r.at <= |w|
    ensures p <= r.at && (p <= |w| ==> r.at <= |w|)
    decreases |w| - p
  {
    if p >= |w| then Bad(Unterminated, p)
    else if w[p] == QUOTE then Got(out, p + 1)
    else if w[p] == BACKSLASH then
      match EscapeAt(w, p + 1)
      case Bad(message, at) => Bad(message, at)
      case Got(c, at) => StringFrom(w, at, out + c)
    else if w[p] < 0x20 then Bad(ControlCharacter, p + 1)
    else StringFrom(w, p + 1, out + [w[p]])
  }

  /** The string whose opening quote is at `p`. */
  function StringAt(d: Document, p: nat): (r: Scanned<bytes>)
    ensures r.Got? ==> p + 1 < r.at <= |d.whole|
    ensures p < r.at && (p < |d.whole| ==> r.at <= |d.whole|)
  {
    match StringFrom(d.whole, p + 1, [])
    case Bad(message, at) => Bad(message, at)
    case Got(out, at) => if d.checked && !Utf8.Valid(out) then Bad(NotUtf8, at) else Got(out, at)
  }

  // ---------------------------------------------------------------------
  // Values
  // ---------------------------------------------------------------------

  /** A failure, kept if it is the first, at the current position. */
  function Fail(s: State, message: Message): (Event, State) {
    (Error, if s.error.Some? then s else s.(error := Some((message, s.position))))
  }

  /** A value that is a member ended. */
  function AfterValue(s: State, event: Event): (Event, State) {
    if s.frames == [] then (event, s)
    else
      var n := |s.frames| - 1;
      match s.frames[n]
      case Object(keys, _, started) => (event, s.(frames := s.frames[..n] + [Object(keys, true, started)]))
      case _ => (event, s)
  }

  predicate Word(w: bytes, p: nat, word: bytes) {
    p + |word| <= |w| && w[p..p + |word|] == word
  }

  const TRUE: bytes := [0x74, 0x72, 0x75, 0x65]
  const FALSE: bytes := [0x66, 0x61, 0x6C, 0x73, 0x65]
  const NULL: bytes := [0x6E, 0x75, 0x6C, 0x6C]

  function WordAt(d: Document, s: State, word: bytes, event: Event): (Event, State) {
    if Word(d.whole, s.position, word) then AfterValue(s.(position := s.position + |word|), event)
    else Fail(s, UnexpectedCharacter)
  }

  predicate Integral(text: bytes) {
    0x2E !in text && 0x65 !in text && 0x45 !in text
  }

  /** `text.parse::<i64>()` of an integral number. */
  function AsInt(text: bytes): Option<int> {
    var negative := text != [] && text[0] == MINUS;
    var digits := if negative then text[1..] else text;
    if digits == [] || !AllDigits(digits) then None
    else
      var magnitude: int := Value(digits);
      var value := if negative then -magnitude else magnitude;
      if -0x8000_0000_0000_0000 <= value < 0x8000_0000_0000_0000 then Some(value) else None
  }

  function Slice(w: bytes, from: nat, end: nat): bytes {
    if from <= end <= |w| then w[from..end] else []
  }

  function NumberRead(d: Document, s: State): (Event, State) {
    match NumberEnd(d.whole, s.position)
    case Bad(message, at) => Fail(s.(position := at), message)
    case Got(_, at) =>
      var text := Slice(d.whole, s.position, at);
      AfterValue(s.(position := at, text := text, integer := if Integral(text) then AsInt(text) else None), Number)
  }

  function StringRead(d: Document, s: State): (Event, State) {
    match StringAt(d, s.position)
    case Bad(message, at) => Fail(s.(position := at, text := []), message)
    case Got(text, at) => AfterValue(s.(position := at, text := text), String)
  }

  function Opened(s: State, frame: Frame, event: Event): (Event, State) {
    if |s.frames| >= MAX_DEPTH then Fail(s, TooDeep)
    else (event, s.(position := s.position + 1, frames := s.frames + [frame]))
  }

  /** The value at the position, or its first event. */
  function ValueAt(d: Document, s0: State): (Event, State) {
    var p := SpaceEnd(d.whole, s0.position);
    var s := s0.(position := p, start := p);
    if p >= |d.whole| then Fail(s, UnexpectedEnd)
    else
      var b := d.whole[p];
      if b == OPEN_BRACE then Opened(s, Object([], true, false), BeginObject)
      else if b == OPEN_BRACKET then Opened(s, Array(0, false), BeginArray)
      else if b == QUOTE then StringRead(d, s)
      else if b == 0x74 then WordAt(d, s, TRUE, True)
      else if b == 0x66 then WordAt(d, s, FALSE, False)
      else if b == 0x6E then WordAt(d, s, NULL, Null)
      else if b == MINUS || IsDigit(b) then NumberRead(d, s)
      else Fail(s, UnexpectedCharacter)
  }

  // ---------------------------------------------------------------------
  // Events
  // ---------------------------------------------------------------------

  /** A container closes. */
  function Closed(s: State, event: Event): (Event, State)
    requires s.frames != []
  {
    AfterValue(s.(position := s.position + 1, frames := s.frames[..|s.frames| - 1]), event)
  }

  /** The next item of an array, past its separator. */
  function ItemNext(d: Document, s: State): (Event, State)
    requires s.frames != [] && s.frames[|s.frames| - 1].Array?
  {
    var n := |s.frames| - 1;
    ValueAt(d, s.(frames := s.frames[..n] + [Array(s.frames[n].index + 1, true)]))
  }

  /** The text is the key of the object's next member. */
  function KeyAdded(d: Document, s: State): (Event, State)
    requires s.frames != [] && s.frames[|s.frames| - 1].Object?
  {
    var n := |s.frames| - 1;
    var t := s.(frames := s.frames[..n] + [Object(s.frames[n].keys + [s.text], false, true)]);
    if !d.duplicates && s.text in s.frames[n].keys then Fail(t, DuplicateKey(s.text)) else (Key, t)
  }

  /** The text of a key, past its separator, and the colon after it. */
  function KeyRead(d: Document, s: State): (Option<Message>, State) {
    if !At(d.whole, s.position, QUOTE) then (Some(ExpectedKey), s)
    else
      match StringAt(d, s.position)
      case Bad(message, at) => (Some(message), s.(position := at, text := []))
      case Got(key, at) =>
        var p := SpaceEnd(d.whole, at);
        if At(d.whole, p, COLON) then (None, s.(position := p + 1, text := key))
        else (Some(ExpectedColon), s.(position := p, text := key))
  }

  function KeyNext(d: Document, s: State): (Event, State)
    requires s.frames != [] && s.frames[|s.frames| - 1].Object?
  {
    match KeyRead(d, s)
    case (Some(message), t) => Fail(t, message)
    case (None, t) => KeyAdded(d, t)
  }

  /** A member of a container: its end, or past the comma what comes next. */
  function MemberNext(d: Document, s: State): (Event, State)
    requires s.frames != [] && (s.frames[|s.frames| - 1].Object? ==> s.frames[|s.frames| - 1].expectKey)
  {
    var last := s.frames[|s.frames| - 1];
    if At(d.whole, s.position, if last.Array? then CLOSE_BRACKET else CLOSE_BRACE) then
      Closed(s, if last.Array? then EndArray else EndObject)
    else if last.started && !At(d.whole, s.position, COMMA) then
      Fail(s, if last.Array? then ExpectedCommaOrBracket else ExpectedCommaOrBrace)
    else
      var t := if last.started then s.(position := SpaceEnd(d.whole, s.position + 1)) else s;
      if last.Array? then ItemNext(d, t) else KeyNext(d, t)
  }

  function RootNext(d: Document, s: State): (Event, State) {
    if !s.rootSeen then ValueAt(d, s.(rootSeen := true))
    else if s.position < |d.whole| then Fail(s, UnexpectedData)
    else (End, s.(done := true))
  }

  function Next(d: Document, s0: State): (Event, State) {
    if s0.error.Some? then (Error, s0)
    else if s0.done then (End, s0)
    else
      var s := s0.(position := SpaceEnd(d.whole, s0.position));
      if s.frames == [] then RootNext(d, s)
      else
        match s.frames[|s.frames| - 1]
        case Object(_, expectKey, _) => if expectKey then MemberNext(d, s) else ValueAt(d, s)
        case Array(_, _) => MemberNext(d, s)
  }

  // ---------------------------------------------------------------------
  // How reading goes on
  // ---------------------------------------------------------------------

  lemma NumberAdvances(w: bytes, p: nat)
    requires p <= |w|
    ensures p <= NumberEnd(w, p).at <= |w|
    ensures NumberEnd(w, p).Got? ==> p < NumberEnd(w, p).at
  {
    hide DigitsEnd;
  }

  lemma AfterValueMoves(s: State, event: Event)
    ensures AfterValue(s, event).1.position == s.position && AfterValue(s, event).0 == event
    ensures AfterValue(s, event).1.error == s.error && AfterValue(s, event).1.done == s.done
    ensures |AfterValue(s, event).1.frames| == |s.frames| && AfterValue(s, event).1.start == s.start
  {
  }

  /** A call that gives an event moves on, and no call leaves the text. */
  predicate Advances(d: Document, s: State, r: (Event, State)) {
    && s.position <= r.1.position <= |d.whole|
    && (r.0 != Error && r.0 != End ==> s.position < r.1.position)
    && (r.0 == Error <==> r.1.error.Some?)
    && (s.error.None? && r.0 == Error ==> r.1.error.value.1 == r.1.position)
    && (s.start <= s.position ==> r.1.start <= r.1.position)
  }

  lemma WordAdvances(d: Document, s: State, word: bytes, event: Event)
    requires s.position <= |d.whole| && s.error.None? && word != [] && event != Error
    ensures Advances(d, s, WordAt(d, s, word, event))
  {
    hide AfterValue;
    AfterValueMoves(s.(position := s.position + |word|), event);
  }

  lemma NumberReadAdvances(d: Document, s: State)
    requires s.position <= |d.whole| && s.error.None?
    ensures Advances(d, s, NumberRead(d, s))
  {
    hide NumberEnd, AfterValue, AsInt, Integral, Slice;
    NumberAdvances(d.whole, s.position);
    var at := NumberEnd(d.whole, s.position).at;
    var text := Slice(d.whole, s.position, at);
    AfterValueMoves(s.(position := at, text := text, integer := if Integral(text) then AsInt(text) else None), Number);
  }

  lemma StringReadAdvances(d: Document, s: State)
    requires s.position < |d.whole| && s.error.None?
    ensures Advances(d, s, StringRead(d, s))
  {
    hide StringAt, AfterValue;
    match StringAt(d, s.position)
    case Bad(_, _) =>
    case Got(text, at) => AfterValueMoves(s.(position := at, text := text), String);
  }

  lemma OpenedAdvances(d: Document, s: State, frame: Frame, event: Event)
    requires s.position < |d.whole| && s.error.None? && event != Error
    ensures Advances(d, s, Opened(s, frame, event))
  {
  }

  lemma ValueAdvances(d: Document, s: State)
    requires s.position <= |d.whole| && s.error.None?
    ensures Advances(d, s, ValueAt(d, s))
  {
    hide StringRead, NumberRead, WordAt, SpaceEnd, Opened, AfterValue;
    var p := SpaceEnd(d.whole, s.position);
    var t := s.(position := p, start := p);
    if p < |d.whole| {
      OpenedAdvances(d, t, Object([], true, false), BeginObject);
      OpenedAdvances(d, t, Array(0, false), BeginArray);
    }
    WordAdvances(d, t, TRUE, True);
    WordAdvances(d, t, FALSE, False);
    WordAdvances(d, t, NULL, Null);
    NumberReadAdvances(d, t);
    if p < |d.whole| { StringReadAdvances(d, t); }
  }

  lemma KeyAdvances(d: Document, s: State)
    requires s.position <= |d.whole| && s.error.None?
    requires s.frames != [] && s.frames[|s.frames| - 1].Object?
    ensures Advances(d, s, KeyNext(d, s))
  {
    hide StringAt;
  }

  lemma MemberAdvances(d: Document, s: State)
    requires s.position <= |d.whole| && s.error.None?
    requires s.frames != [] && (s.frames[|s.frames| - 1].Object? ==> s.frames[|s.frames| - 1].expectKey)
    ensures Advances(d, s, MemberNext(d, s))
  {
    hide KeyNext, ValueAt, SpaceEnd, AfterValue;
    var n := |s.frames| - 1;
    var last := s.frames[n];
    if At(d.whole, s.position, if last.Array? then CLOSE_BRACKET else CLOSE_BRACE) {
      AfterValueMoves(s.(position := s.position + 1, frames := s.frames[..n]),
          if last.Array? then EndArray else EndObject);
    } else if !last.started || At(d.whole, s.position, COMMA) {
      var t := if last.started then s.(position := SpaceEnd(d.whole, s.position + 1)) else s;
      if last.Array? {
        ValueAdvances(d, t.(frames := t.frames[..n] + [Array(last.index + 1, true)]));
      } else {
        KeyAdvances(d, t);
      }
    }
  }

  lemma NextAdvances(d: Document, s: State)
    requires s.position <= |d.whole|
    ensures Advances(d, s, Next(d, s))
  {
    hide MemberNext, ValueAt, SpaceEnd;
    if s.error.None? && !s.done {
      var t := s.(position := SpaceEnd(d.whole, s.position));
      if t.frames == [] {
        ValueAdvances(d, t.(rootSeen := true));
      } else {
        ValueAdvances(d, t);
        if t.frames[|t.frames| - 1].Object? ==> t.frames[|t.frames| - 1].expectKey { MemberAdvances(d, t); }
      }
    }
  }

  // ---------------------------------------------------------------------
  // Skipping and raw text
  // ---------------------------------------------------------------------

  /** Reads on until fewer than `depth` containers are open; whether it could. */
  function SkipFrom(d: Document, s: State, depth: nat): (bool, State)
    requires s.position <= |d.whole|
    decreases |d.whole| - s.position
  {
    NextAdvances(d, s);
    var (event, t) := Next(d, s);
    if event == Error then (false, t)
    else if event == End then (false, Fail(t, UnexpectedEnd).1)
    else if (event == EndArray || event == EndObject) && |t.frames| < depth then (true, t)
    else SkipFrom(d, t, depth)
  }

  /** Reads past a value that began with `event`. */
  function Skip(d: Document, s: State, event: Event): (bool, State)
    requires s.position <= |d.whole|
  {
    if event != BeginArray && event != BeginObject then (true, s) else SkipFrom(d, s, |s.frames|)
  }

  /** The bytes a value that began with `event` spans, read past; none when
      reading fails. */
  function Raw(d: Document, s: State, event: Event): (bytes, State)
    requires s.position <= |d.whole|
  {
    var (found, t) := Skip(d, s, event);
    (if found then Slice(d.whole, s.start, t.position) else [], t)
  }

  // ---------------------------------------------------------------------
  // Lines, columns and paths
  // ---------------------------------------------------------------------

  const NEWLINE: byte := 0x0A

  function Lines(s: bytes): nat {
    if s == [] then 0 else Lines(s[..|s| - 1]) + if s[|s| - 1] == NEWLINE then 1 else 0
  }

  /** What follows the last line end. */
  function LastLine(s: bytes): bytes {
    if s == [] || s[|s| - 1] == NEWLINE then [] else LastLine(s[..|s| - 1]) + [s[|s| - 1]]
  }

  /** The line and column of an offset, from 1, in characters. */
  function LineColumn(w: bytes, at: nat): (nat, nat)
    requires at <= |w|
  {
    (Lines(w[..at]) + 1, Utf8.Chars(LastLine(w[..at])) + 1)
  }

  /** The path of the value at the position; how a key is shown depends on
      tables of characters, which are not part of this model. */
  function PathOf(frames: seq<Frame>, shown: bytes -> bytes): bytes {
    if frames == [] then [0x24]
    else PathOf(frames[..|frames| - 1], shown) + Step(frames[|frames| - 1], shown)
  }

  function Step(frame: Frame, shown: bytes -> bytes): bytes {
    match frame
    case Array(index, started) =>
      if started then [OPEN_BRACKET] + Digits(if index > 0 then index - 1 else 0) + [CLOSE_BRACKET] else []
    case Object(keys, _, _) => if keys == [] then [] else shown(keys[|keys| - 1])
  }

  /** Lines are counted by the line ends before an offset, and columns by the
      characters after the last of them. */
  lemma PositionIs(w: bytes, at: nat, before: bytes, line: bytes)
    requires at <= |w| && w[..at] == before + line && (before == [] || before[|before| - 1] == NEWLINE)
    requires forall i :: 0 <= i < |line| ==> line[i] != NEWLINE
    ensures LineColumn(w, at) == (1 + multiset(w[..at])[NEWLINE], 1 + Utf8.Chars(line))
  {
    hide Utf8.Chars;
    LinesCount(w[..at]);
    LastLineIs(before, line);
  }

  lemma {:induction false} LinesCount(s: bytes)
    ensures Lines(s) == multiset(s)[NEWLINE]
  {
    if s != [] {
      LinesCount(s[..|s| - 1]);
      assert s == s[..|s| - 1] + [s[|s| - 1]];
    }
  }

  lemma {:induction false} LastLineIs(before: bytes, line: bytes)
    requires (before == [] || before[|before| - 1] == NEWLINE) && forall i :: 0 <= i < |line| ==> line[i] != NEWLINE
    ensures LastLine(before + line) == line
  {
    var s := before + line;
    if line == [] {
      assert s == before;
    } else {
      assert s[..|s| - 1] == before + line[..|line| - 1];
      LastLineIs(before, line[..|line| - 1]);
    }
  }

  /** While an item of an array is read, the path ends in its number, counted
      from 0. */
  lemma ItemIsNumbered(d: Document, s: State, shown: bytes -> bytes)
    requires s.frames != [] && s.frames[|s.frames| - 1].Array? && ItemNext(d, s).0 != Error
    ensures var n := |s.frames| - 1;
            var t := ItemNext(d, s).1;
            && |t.frames| > n && t.frames[n] == Array(s.frames[n].index + 1, true)
            && PathOf(t.frames[..n + 1], shown)
               == PathOf(s.frames[..n], shown) + [OPEN_BRACKET] + Digits(s.frames[n].index) + [CLOSE_BRACKET]
  {
    hide ValueAt, Digits, PathOf;
    var n := |s.frames| - 1;
    var u := s.(frames := s.frames[..n] + [Array(s.frames[n].index + 1, true)]);
    ValueKeeps(d, u);
    var t := ItemNext(d, s).1;
    assert t.frames[..n + 1] == u.frames && u.frames[..n] == s.frames[..n];
    LastOfPath(u.frames, shown);
    var p, i := PathOf(s.frames[..n], shown), Digits(s.frames[n].index);
    assert p + ([OPEN_BRACKET] + i + [CLOSE_BRACKET]) == p + [OPEN_BRACKET] + i + [CLOSE_BRACKET];
  }

  /** Once a key is read, and while its value is, the path ends in the key as
      it is shown. */
  lemma KeyIsShown(d: Document, s: State, shown: bytes -> bytes)
    requires s.frames != [] && s.frames[|s.frames| - 1].Object? && KeyNext(d, s).0 == Key
    ensures var n := |s.frames| - 1;
            var t := KeyNext(d, s).1;
            |t.frames| == n + 1 && PathOf(t.frames, shown) == PathOf(s.frames[..n], shown) + shown(t.text)
  {
    hide PathOf, StringAt, SpaceEnd;
    var n := |s.frames| - 1;
    var t := KeyNext(d, s).1;
    assert t.frames[..n] == s.frames[..n];
    LastOfPath(t.frames, shown);
  }

  /** Reading a value in an array leaves the containers that were open. */
  lemma ValueKeeps(d: Document, s: State)
    requires s.frames != [] && s.frames[|s.frames| - 1].Array?
    ensures var t := ValueAt(d, s).1; |t.frames| >= |s.frames| && t.frames[..|s.frames|] == s.frames
  {
    hide StringAt, NumberEnd, AsInt, SpaceEnd, AfterValue;
    forall t: State, event: Event | t.frames == s.frames
      ensures AfterValue(t, event).1.frames == s.frames
    {
      AfterInArray(t, event);
    }
  }

  lemma AfterInArray(s: State, event: Event)
    requires s.frames != [] && s.frames[|s.frames| - 1].Array?
    ensures AfterValue(s, event) == (event, s)
  {
  }

  lemma LastOfPath(frames: seq<Frame>, shown: bytes -> bytes)
    requires frames != []
    ensures PathOf(frames, shown) == PathOf(frames[..|frames| - 1], shown) + Step(frames[|frames| - 1], shown)
  {
  }
}
