/**
 The JSON text of a value is read back as its events (json.rs).
 */
module JsonRoundTrip {
  import opened Bytes
  import opened Json
  import opened JsonReading
  import opened JsonText

  // ---------------------------------------------------------------------
  // What a reader says
  // ---------------------------------------------------------------------

  /** An event, with the text of a number, string or key. */
  datatype Said = Said(event: Event, text: bytes)

  function Tell(event: Event, s: State): Said {
    Said(event, if event == Number || event == String || event == Key then s.text else [])
  }

  /** So many calls of `Next`, and the state after them. */
  function Calls(d: Document, s: State, n: nat): (seq<Said>, State)
    decreases n
  {
    if n == 0 then ([], s)
    else
      var (event, t) := Next(d, s);
      var (rest, u) := Calls(d, t, n - 1);
      ([Tell(event, t)] + rest, u)
  }

  /** The same, when the first call has come to a value. */
  function FromValue(d: Document, s: State, n: nat): (seq<Said>, State)
    requires n > 0
  {
    var (event, t) := ValueAt(d, s);
    var (rest, u) := Calls(d, t, n - 1);
    ([Tell(event, t)] + rest, u)
  }

  lemma {:induction false} CallsAdd(d: Document, s: State, m: nat, n: nat)
    ensures var (a, t) := Calls(d, s, m); var (b, u) := Calls(d, t, n); Calls(d, s, m + n) == (a + b, u)
    decreases m
  {
    hide Next;
    if m == 0 {
      var (b, u) := Calls(d, s, n);
      assert [] + b == b;
    } else {
      var (event, t) := Next(d, s);
      CallsAdd(d, t, m - 1, n);
      var (a, u) := Calls(d, t, m - 1);
      var (b, _) := Calls(d, u, n);
      assert [Tell(event, t)] + (a + b) == [Tell(event, t)] + a + b;
    }
  }

  lemma FromValueAdds(d: Document, s: State, m: nat, n: nat)
    requires m > 0
    ensures var (a, t) := FromValue(d, s, m); var (b, u) := Calls(d, t, n); FromValue(d, s, m + n) == (a + b, u)
  {
    hide ValueAt, Calls;
    var (event, t) := ValueAt(d, s);
    CallsAdd(d, t, m - 1, n);
    var (a, u) := Calls(d, t, m - 1);
    var (b, _) := Calls(d, u, n);
    assert [Tell(event, t)] + (a + b) == [Tell(event, t)] + a + b;
    assert m + n - 1 == m - 1 + n;
  }

  /** After a failure every call fails. */
  lemma {:induction false} ErrorStays(d: Document, s: State, n: nat)
    requires s.error.Some?
    ensures Calls(d, s, n).1.error.Some?
    decreases n
  {
    if n > 0 { ErrorStays(d, Next(d, s).1, n - 1); }
  }

  function Says(v: Value): (said: seq<Said>)
    ensures |said| > 0
  {
    match v
    case NullValue => [Said(Null, [])]
    case BoolValue(b) => [Said(if b then True else False, [])]
    case NumberValue(n) => [Said(Number, NumeralText(n))]
    case TextValue(s) => [Said(String, s)]
    case ListValue(items) => [Said(BeginArray, [])] + ItemsSay(items) + [Said(EndArray, [])]
    case ObjectValue(members) => [Said(BeginObject, [])] + MembersSay(members) + [Said(EndObject, [])]
  }

  function ItemsSay(items: seq<Value>): seq<Said> {
    if items == [] then [] else Says(items[0]) + ItemsSay(items[1..])
  }

  function MembersSay(members: seq<Member>): seq<Said> {
    if members == [] then [] else MemberSays(members[0]) + MembersSay(members[1..])
  }

  function MemberSays(member: Member): (said: seq<Said>)
    ensures |said| > 1
  {
    [Said(Key, member.key)] + Says(member.value)
  }

  /** What a reader with room for so many containers reads, repeated keys being
      allowed or not. */
  predicate Readable(v: Value, room: nat, duplicates: bool) {
    match v
    case ListValue(items) => room > 0 && ItemsReadable(items, room - 1, duplicates)
    case ObjectValue(members) => room > 0 && MembersReadable(members, room - 1, duplicates, [])
    case _ => true
  }

  predicate ItemsReadable(items: seq<Value>, room: nat, duplicates: bool) {
    items == [] || (Readable(items[0], room, duplicates) && ItemsReadable(items[1..], room, duplicates))
  }

  /** Members after those of the keys `own`. */
  predicate MembersReadable(members: seq<Member>, room: nat, duplicates: bool, own: seq<bytes>) {
    members == [] ||
    ((duplicates || members[0].key !in own) && MemberReadable(members[0], room, duplicates)
     && MembersReadable(members[1..], room, duplicates, own + [members[0].key]))
  }

  predicate MemberReadable(member: Member, room: nat, duplicates: bool) { Readable(member.value, room, duplicates) }

  // ---------------------------------------------------------------------
  // Where the reader stands
  // ---------------------------------------------------------------------

  predicate Stands(s: State, position: nat, frames: seq<Frame>, rootSeen: bool) {
    s.position == position && s.frames == frames && s.error.None? && !s.done && s.rootSeen == rootSeen
  }

  /** The places of the containers open after a value in them ended. */
  function Ended(frames: seq<Frame>): seq<Frame> {
    if frames == [] then []
    else
      var n := |frames| - 1;
      match frames[n]
      case Object(keys, _, started) => frames[..n] + [Object(keys, true, started)]
      case _ => frames
  }

  predicate Blank(s: bytes) { forall i :: 0 <= i < |s| ==> IsSpace(s[i]) }

  predicate SpaceNext(w: bytes, p: nat) { p < |w| && IsSpace(w[p]) }

  lemma {:induction false} BlankEnds(w: bytes, p: nat, gap: bytes)
    requires Word(w, p, gap) && Blank(gap) && !SpaceNext(w, p + |gap|)
    ensures SpaceEnd(w, p) == p + |gap|
    decreases |gap|
  {
    if gap != [] {
      assert gap == [gap[0]] + gap[1..];
      WordParts(w, p, [gap[0]], gap[1..]);
      WordFirst(w, p, [gap[0]]);
      hide Word;
      BlankEnds(w, p + 1, gap[1..]);
    }
  }

  /** A value's text begins with none of what may come between values. */
  lemma TextStarts(v: Value, style: Style, depth: nat)
    ensures var t := TextOf(v, style, depth);
      t != [] && !IsSpace(t[0]) && t[0] != COMMA && t[0] != CLOSE_BRACKET && t[0] != CLOSE_BRACE
  {
    hide ItemsText, MembersText, QuotedBody, Line, FractionText, ExponentText;
    if v.NumberValue? {
      var n := v.number;
      assert IsDigit(n.whole[0]);
      assert NumeralText(n)[0] == if n.negative then MINUS else n.whole[0];
    }
  }

  lemma LineIsBlank(style: Style, depth: nat)
    ensures Blank(Line(style, depth)) && (Line(style, depth) != [] ==> Line(style, depth)[0] == 0x0A)
  {
  }

  // ---------------------------------------------------------------------
  // Scalars
  // ---------------------------------------------------------------------

  lemma AfterStands(s: State, event: Event)
    ensures AfterValue(s, event) == (event, s.(frames := Ended(s.frames)))
  {
  }

  /** The reader has come to a value's text, and something ends it. */
  predicate Comes(d: Document, s: State, v: Value, style: Style, depth: nat) {
    && s.error.None? && !s.done
    && Word(d.whole, SpaceEnd(d.whole, s.position), TextOf(v, style, depth))
    && Stops(d.whole, SpaceEnd(d.whole, s.position) + |TextOf(v, style, depth)|)
  }

  function ValueEnd(d: Document, s: State, v: Value, style: Style, depth: nat): nat {
    SpaceEnd(d.whole, s.position) + |TextOf(v, style, depth)|
  }

  lemma WordsRead(d: Document, s: State, v: Value, style: Style, depth: nat)
    requires Comes(d, s, v, style, depth) && (v.NullValue? || v.BoolValue?)
    ensures var p := SpaceEnd(d.whole, s.position);
      ValueAt(d, s) == AfterValue(s.(position := p + |TextOf(v, style, depth)|, start := p), Says(v)[0].event)
  {
    hide SpaceEnd, AfterValue;
    WordFirst(d.whole, SpaceEnd(d.whole, s.position), TextOf(v, style, depth));
  }

  lemma NumbersRead(d: Document, s: State, n: numeral, style: Style, depth: nat)
    requires Comes(d, s, NumberValue(n), style, depth)
    ensures var p := SpaceEnd(d.whole, s.position); var (event, t) := ValueAt(d, s);
      event == Number && t.text == NumeralText(n) && Stands(t, p + |NumeralText(n)|, Ended(s.frames), s.rootSeen)
  {
    hide SpaceEnd, NumberEnd, AfterValue, NumeralText, AsInt, Integral;
    var p := SpaceEnd(d.whole, s.position);
    NumeralReads(d.whole, p, n);
    var text := NumeralText(n);
    AfterStands(s.(position := p + |text|, start := p, text := text,
        integer := if Integral(text) then AsInt(text) else None), Number);
  }

  lemma StringsRead(d: Document, s: State, x: text, style: Style, depth: nat)
    requires Comes(d, s, TextValue(x), style, depth)
    ensures var p := SpaceEnd(d.whole, s.position); var (event, t) := ValueAt(d, s);
      event == String && t.text == x && Stands(t, p + |Quoted(x, style.html)|, Ended(s.frames), s.rootSeen)
  {
    hide SpaceEnd, StringAt, AfterValue, Quoted, Word;
    var p := SpaceEnd(d.whole, s.position);
    QuotedReads(d, p, x, style.html);
    AfterStands(s.(position := p + |Quoted(x, style.html)|, start := p, text := x), String);
  }

  lemma ScalarReads(d: Document, s: State, v: Value, style: Style, depth: nat)
    requires Comes(d, s, v, style, depth) && !v.ListValue? && !v.ObjectValue?
    ensures var (said, t) := FromValue(d, s, 1);
      said == Says(v) && Stands(t, ValueEnd(d, s, v, style, depth), Ended(s.frames), s.rootSeen)
  {
    hide SpaceEnd, ValueAt, AfterValue, NumeralText, QuotedBody;
    if v.NumberValue? {
      NumbersRead(d, s, v.number, style, depth);
    } else if v.TextValue? {
      StringsRead(d, s, v.text, style, depth);
    } else {
      WordsRead(d, s, v, style, depth);
      var p := SpaceEnd(d.whole, s.position);
      AfterStands(s.(position := p + |TextOf(v, style, depth)|, start := p), Says(v)[0].event);
    }
  }

  // ---------------------------------------------------------------------
  // Containers
  // ---------------------------------------------------------------------

  /** The text of the members left, and the bracket after them. */
  function ItemsLeft(items: seq<Value>, style: Style, depth: nat, first: bool, gap: bytes): bytes {
    ItemsText(items, style, depth, first) + (gap + [CLOSE_BRACKET])
  }

  function MembersLeft(members: seq<Member>, style: Style, depth: nat, first: bool, gap: bytes): bytes {
    MembersText(members, style, depth, first) + (gap + [CLOSE_BRACE])
  }

  /** What may stand before a closing bracket: nothing, or a new line. */
  predicate Gap(gap: bytes) { Blank(gap) && (gap != [] ==> gap[0] == 0x0A) }

  lemma GapStops(w: bytes, p: nat, gap: bytes, close: byte)
    requires Gap(gap) && (close == CLOSE_BRACKET || close == CLOSE_BRACE) && Word(w, p, gap + [close])
    ensures Stops(w, p) && SpaceEnd(w, p) == p + |gap| && At(w, p + |gap|, close)
  {
    WordParts(w, p, gap, [close]);
    WordFirst(w, p + |gap|, [close]);
    WordFirst(w, p, gap + [close]);
    hide Word;
    BlankEnds(w, p, gap);
  }

  /** A container closes. */
  lemma CloseReads(d: Document, s: State, frames: seq<Frame>, last: Frame, gap: bytes)
    requires Stands(s, s.position, frames + [last], s.rootSeen) && (last.Object? ==> last.expectKey)
    requires Gap(gap) && Word(d.whole, s.position, gap + [if last.Array? then CLOSE_BRACKET else CLOSE_BRACE])
    ensures var (said, t) := Calls(d, s, 1);
      said == [Said(if last.Array? then EndArray else EndObject, [])]
      && Stands(t, s.position + |gap| + 1, Ended(frames), s.rootSeen)
  {
    hide SpaceEnd, AfterValue, Word, ValueAt, KeyNext, ItemNext;
    GapStops(d.whole, s.position, gap, if last.Array? then CLOSE_BRACKET else CLOSE_BRACE);
    var t := s.(position := s.position + |gap| + 1, frames := frames);
    assert (frames + [last])[..|frames|] == frames;
    AfterStands(t, if last.Array? then EndArray else EndObject);
    assert Next(d, s) == AfterValue(t, if last.Array? then EndArray else EndObject);
    CallOnce(d, s);
  }

  lemma CallOnce(d: Document, s: State)
    ensures var (event, t) := Next(d, s); Calls(d, s, 1) == ([Tell(event, t)], t)
  {
    hide Next;
    var (event, t) := Next(d, s);
    assert Calls(d, t, 0) == ([], t);
    assert [Tell(event, t)] + [] == [Tell(event, t)];
  }

  /** Past what comes between members, the reader is at the next one. */
  lemma BetweenReads(w: bytes, p: nat, style: Style, depth: nat, first: bool, rest: bytes)
    requires Word(w, p, Between(style, depth, first) + rest)
    requires rest != [] && !IsSpace(rest[0]) && rest[0] != COMMA && rest[0] != CLOSE_BRACKET && rest[0] != CLOSE_BRACE
    ensures var q := p + |Between(style, depth, first)|;
      && Word(w, q, rest) && SpaceEnd(w, q) == q
      && (first ==> SpaceEnd(w, p) == q)
      && (!first ==> SpaceEnd(w, p) == p && At(w, p, COMMA) && SpaceEnd(w, p + 1) == q)
  {
    var line := Line(style, depth);
    LineIsBlank(style, depth);
    WordParts(w, p, Between(style, depth, first), rest);
    var q := p + |Between(style, depth, first)|;
    WordFirst(w, q, rest);
    if first {
      assert [] + line == line;
      hide Word, Line;
      BlankEnds(w, p, line);
    } else {
      WordParts(w, p, [COMMA], line);
      WordFirst(w, p, [COMMA]);
      hide Word, Line;
      BlankEnds(w, p + 1, line);
    }
  }

  lemma ItemNextReads(d: Document, s: State, frames: seq<Frame>, index: nat, style: Style, depth: nat, rest: bytes)
    requires Stands(s, s.position, frames + [Array(index, index > 0)], s.rootSeen)
    requires Word(d.whole, s.position, Between(style, depth, index == 0) + rest)
    requires rest != [] && !IsSpace(rest[0]) && rest[0] != COMMA && rest[0] != CLOSE_BRACKET && rest[0] != CLOSE_BRACE
    ensures var q := s.position + |Between(style, depth, index == 0)|;
      && Word(d.whole, q, rest) && SpaceEnd(d.whole, q) == q
      && Next(d, s) == ValueAt(d, s.(position := q, frames := frames + [Array(index + 1, true)]))
  {
    hide SpaceEnd, Word, ValueAt, KeyNext, Closed, Between;
    BetweenReads(d.whole, s.position, style, depth, index == 0, rest);
    var q := s.position + |Between(style, depth, index == 0)|;
    RestFirst(d.whole, q, rest);
    assert (frames + [Array(index, index > 0)])[..|frames|] == frames;
  }

  lemma RestFirst(w: bytes, q: nat, rest: bytes)
    requires Word(w, q, rest) && rest != []
    ensures q < |w| && w[q] == rest[0]
  {
    WordFirst(w, q, rest);
  }

  /** A value is read from where the reader has come, or the reading fails. */
  ghost predicate Reads(d: Document, s: State, v: Value, style: Style, depth: nat) {
    var (said, t) := FromValue(d, s, |Says(v)|);
    if |s.frames| <= MAX_DEPTH && Readable(v, MAX_DEPTH - |s.frames|, d.duplicates) then
      said == Says(v) && Stands(t, ValueEnd(d, s, v, style, depth), Ended(s.frames), s.rootSeen)
    else t.error.Some?
  }

  ghost predicate ItemsReadOn(d: Document, s: State, frames: seq<Frame>, items: seq<Value>, style: Style, depth: nat,
                              first: bool, gap: bytes) {
    var (said, t) := Calls(d, s, |ItemsSay(items)| + 1);
    if |frames| < MAX_DEPTH && ItemsReadable(items, MAX_DEPTH - |frames| - 1, d.duplicates) then
      said == ItemsSay(items) + [Said(EndArray, [])]
      && Stands(t, s.position + |ItemsLeft(items, style, depth, first, gap)|, Ended(frames), s.rootSeen)
    else t.error.Some?
  }

  /** One value, then the rest. */
  lemma Then(d: Document, s: State, t: State, v: Value, style: Style, depth: nat, m: nat)
    requires Next(d, s) == ValueAt(d, t) && Reads(d, t, v, style, depth) && |t.frames| <= MAX_DEPTH
    ensures if Readable(v, MAX_DEPTH - |t.frames|, d.duplicates) then
        var u := FromValue(d, t, |Says(v)|).1;
        Stands(u, ValueEnd(d, t, v, style, depth), Ended(t.frames), t.rootSeen)
        && Calls(d, s, |Says(v)| + m) == (Says(v) + Calls(d, u, m).0, Calls(d, u, m).1)
      else Calls(d, s, |Says(v)| + m).1.error.Some?
  {
    hide Next, ValueAt, Readable, ValueEnd, Says;
    assert Calls(d, s, |Says(v)| + m) == FromValue(d, t, |Says(v)| + m);
    FromValueAdds(d, t, |Says(v)|, m);
    var u := FromValue(d, t, |Says(v)|).1;
    if !Readable(v, MAX_DEPTH - |t.frames|, d.duplicates) { ErrorStays(d, u, m); }
  }

  lemma ItemsSplit(items: seq<Value>, style: Style, depth: nat, first: bool, gap: bytes)
    requires items != []
    ensures ItemsLeft(items, style, depth, first, gap)
      == Between(style, depth, first) + (TextOf(items[0], style, depth) + ItemsLeft(items[1..], style, depth, false,
          gap))
  {
    hide TextOf, Between;
    var a, b, c := Between(style, depth, first), TextOf(items[0], style, depth),
        ItemsText(items[1..], style, depth, false);
    var e := gap + [CLOSE_BRACKET];
    assert a + b + c + e == a + (b + (c + e));
  }

  lemma ItemsStop(w: bytes, p: nat, items: seq<Value>, style: Style, depth: nat, gap: bytes)
    requires Gap(gap) && Word(w, p, ItemsLeft(items, style, depth, false, gap))
    ensures Stops(w, p)
  {
    hide TextOf, Line;
    if items == [] {
      assert [] + (gap + [CLOSE_BRACKET]) == gap + [CLOSE_BRACKET];
      hide Word;
      GapStops(w, p, gap, CLOSE_BRACKET);
    } else {
      ItemsSplit(items, style, depth, false, gap);
      WordFirst(w, p, ItemsLeft(items, style, depth, false, gap));
    }
  }

  lemma RestStarts(v: Value, style: Style, depth: nat, more: bytes)
    ensures var rest := TextOf(v, style, depth) + more;
      rest != [] && !IsSpace(rest[0]) && rest[0] != COMMA && rest[0] != CLOSE_BRACKET && rest[0] != CLOSE_BRACE
  {
    hide TextOf;
    TextStarts(v, style, depth);
    assert (TextOf(v, style, depth) + more)[0] == TextOf(v, style, depth)[0];
  }

  /** The reader comes to the next item of an array. */
  lemma ItemComes(d: Document, s: State, frames: seq<Frame>, items: seq<Value>, index: nat, style: Style, depth: nat,
                  gap: bytes)
    requires items != [] && Stands(s, s.position, frames + [Array(index, index > 0)], s.rootSeen)
    requires Gap(gap) && Word(d.whole, s.position, ItemsLeft(items, style, depth, index == 0, gap))
    ensures var q := s.position + |Between(style, depth, index == 0)|;
      var t := s.(position := q, frames := frames + [Array(index + 1, true)]);
      && Next(d, s) == ValueAt(d, t) && Comes(d, t, items[0], style, depth)
      && ValueEnd(d, t, items[0], style, depth) == q + |TextOf(items[0], style, depth)|
      && Word(d.whole, q + |TextOf(items[0], style, depth)|, ItemsLeft(items[1..], style, depth, false, gap))
  {
    hide TextOf, Between, Word, ItemsLeft, Next, ValueAt, SpaceEnd, Stops;
    var left := ItemsLeft(items[1..], style, depth, false, gap);
    var rest := TextOf(items[0], style, depth) + left;
    ItemsSplit(items, style, depth, index == 0, gap);
    RestStarts(items[0], style, depth, left);
    ItemNextReads(d, s, frames, index, style, depth, rest);
    var q := s.position + |Between(style, depth, index == 0)|;
    WordParts(d.whole, q, TextOf(items[0], style, depth), left);
    ItemsStop(d.whole, q + |TextOf(items[0], style, depth)|, items[1..], style, depth, gap);
  }

  lemma {:induction false} ItemsRead(d: Document, s: State, frames: seq<Frame>, items: seq<Value>, index: nat,
                                     style: Style, depth: nat, gap: bytes)
    requires Stands(s, s.position, frames + [Array(index, index > 0)], s.rootSeen) && |frames| < MAX_DEPTH
    requires Gap(gap) && Word(d.whole, s.position, ItemsLeft(items, style, depth, index == 0, gap))
    ensures ItemsReadOn(d, s, frames, items, style, depth, index == 0, gap)
    decreases items, 0
  {
    hide TextOf, Between, Word, Next, ValueAt, SpaceEnd, Stops, Calls, Readable, Says, FromValue, Comes, ValueEnd, Gap;
    if items == [] {
      assert [] + (gap + [CLOSE_BRACKET]) == gap + [CLOSE_BRACKET];
      CloseReads(d, s, frames, Array(index, index > 0), gap);
    } else {
      var q := s.position + |Between(style, depth, index == 0)|;
      var t := s.(position := q, frames := frames + [Array(index + 1, true)]);
      ItemComes(d, s, frames, items, index, style, depth, gap);
      ItemsSplit(items, style, depth, index == 0, gap);
      hide ItemsLeft;
      ValueReads(d, t, items[0], style, depth);
      var m := |ItemsSay(items[1..])| + 1;
      Then(d, s, t, items[0], style, depth, m);
      assert |ItemsSay(items)| + 1 == |Says(items[0])| + m;
      EndedArray(frames, index + 1);
      if Readable(items[0], MAX_DEPTH - |t.frames|, d.duplicates) {
        var u := FromValue(d, t, |Says(items[0])|).1;
        ItemsRead(d, u, frames, items[1..], index + 1, style, depth, gap);
        assert Says(items[0]) + (ItemsSay(items[1..]) + [Said(EndArray, [])])
          == Says(items[0]) + ItemsSay(items[1..]) + [Said(EndArray, [])];
      }
    }
  }

  lemma EndedArray(frames: seq<Frame>, index: nat)
    ensures Ended(frames + [Array(index, true)]) == frames + [Array(index, true)]
  {
  }

  lemma {:induction false} ValueReads(d: Document, s: State, v: Value, style: Style, depth: nat)
    requires Comes(d, s, v, style, depth) && |s.frames| <= MAX_DEPTH
    ensures Reads(d, s, v, style, depth)
    decreases v, 1
  {
    hide Comes, Reads;
    match v {
      case ListValue(items) => ListReads(d, s, items, style, depth);
      case ObjectValue(members) => ObjectReads(d, s, members, style, depth);
      case _ =>
        ScalarIsRead(d, s, v, style, depth);
    }
  }

  lemma ScalarIsRead(d: Document, s: State, v: Value, style: Style, depth: nat)
    requires Comes(d, s, v, style, depth) && |s.frames| <= MAX_DEPTH && !v.ListValue? && !v.ObjectValue?
    ensures Reads(d, s, v, style, depth)
  {
    hide Comes, FromValue;
    ScalarReads(d, s, v, style, depth);
    assert |Says(v)| == 1;
  }

  /** An opening bracket. */
  lemma OpenReads(d: Document, s: State, v: Value, style: Style, depth: nat)
    requires Comes(d, s, v, style, depth) && (v.ListValue? || v.ObjectValue?) && |s.frames| <= MAX_DEPTH
    ensures var p := SpaceEnd(d.whole, s.position); var (event, t) := ValueAt(d, s);
      if |s.frames| == MAX_DEPTH then event == Error && t.error.Some?
      else (event == (if v.ListValue? then BeginArray else BeginObject)
            && Stands(t, p + 1, s.frames + [if v.ListValue? then Array(0, false) else Object([], true, false)],
                s.rootSeen))
  {
    hide SpaceEnd, ItemsText, MembersText, Line;
    WordFirst(d.whole, SpaceEnd(d.whole, s.position), TextOf(v, style, depth));
  }

  /** An opening bracket, then what is inside. */
  lemma Opens(d: Document, s: State, n: nat)
    requires n > 0
    ensures var (event, t) := ValueAt(d, s);
      && FromValue(d, s, n) == ([Tell(event, t)] + Calls(d, t, n - 1).0, Calls(d, t, n - 1).1)
      && (t.error.Some? ==> FromValue(d, s, n).1.error.Some?)
  {
    hide ValueAt, Calls;
    var (event, t) := ValueAt(d, s);
    if t.error.Some? { ErrorStays(d, t, n - 1); }
  }

  lemma ListText(items: seq<Value>, style: Style, depth: nat)
    ensures var gap := if items == [] then [] else Line(style, depth);
      Gap(gap) && TextOf(ListValue(items), style, depth) ==
          [OPEN_BRACKET] + ItemsLeft(items, style, depth + 1, true, gap)
  {
    LineIsBlank(style, depth);
    hide Line, ItemsText;
    var gap := if items == [] then [] else Line(style, depth);
    var inside := ItemsText(items, style, depth + 1, true);
    assert [OPEN_BRACKET] + inside + gap + [CLOSE_BRACKET] == [OPEN_BRACKET] + (inside + (gap + [CLOSE_BRACKET]));
  }

  lemma ListIs(items: seq<Value>, room: nat, duplicates: bool)
    ensures Readable(ListValue(items), room, duplicates) <==> room > 0 && ItemsReadable(items, room - 1, duplicates)
    ensures Says(ListValue(items)) == [Said(BeginArray, [])] + (ItemsSay(items) + [Said(EndArray, [])])
  {
    hide ItemsReadable, ItemsSay;
    assert [Said(BeginArray, [])] + ItemsSay(items) + [Said(EndArray, [])] ==
        [Said(BeginArray, [])] + (ItemsSay(items) + [Said(EndArray, [])]);
  }

  lemma {:induction false} ListReads(d: Document, s: State, items: seq<Value>, style: Style, depth: nat)
    requires Comes(d, s, ListValue(items), style, depth) && |s.frames| <= MAX_DEPTH
    ensures Reads(d, s, ListValue(items), style, depth)
    decreases items, 1
  {
    hide Next, ValueAt, SpaceEnd, Stops, Calls, ItemsSay, FromValue, Gap, ItemsLeft, ItemsReadable, Word, Says,
         Readable, Ended;
    var v := ListValue(items);
    ListIs(items, MAX_DEPTH - |s.frames|, d.duplicates);
    var gap := if items == [] then [] else Line(style, depth);
    ListText(items, style, depth);
    OpenReads(d, s, v, style, depth);
    Opens(d, s, |Says(v)|);
    assert |Says(v)| == |ItemsSay(items)| + 2;
    hide TextOf;
    if |s.frames| < MAX_DEPTH {
      var p := SpaceEnd(d.whole, s.position);
      WordParts(d.whole, p, [OPEN_BRACKET], ItemsLeft(items, style, depth + 1, true, gap));
      var t := ValueAt(d, s).1;
      ItemsRead(d, t, s.frames, items, 0, style, depth + 1, gap);
    }
  }

  // ---------------------------------------------------------------------
  // Objects
  // ---------------------------------------------------------------------

  /** The text of a member's value, and what is after the member. */
  function ValueLeft(members: seq<Member>, style: Style, depth: nat, gap: bytes): bytes
    requires members != []
  {
    TextOf(members[0].value, style, depth) + MembersLeft(members[1..], style, depth, false, gap)
  }

  lemma MembersSplit(members: seq<Member>, style: Style, depth: nat, first: bool, gap: bytes)
    requires members != []
    ensures MembersLeft(members, style, depth, first, gap)
      == Between(style, depth, first) + (Quoted(members[0].key,
          style.html) + (Colon(style) + ValueLeft(members, style, depth, gap)))
  {
    hide TextOf, Between, Quoted, Colon;
    var a, k, c := Between(style, depth, first), Quoted(members[0].key, style.html), Colon(style);
    var v, r := TextOf(members[0].value, style, depth), MembersText(members[1..], style, depth, false);
    var e := gap + [CLOSE_BRACE];
    assert MembersText(members, style, depth, first) == a + (k + c + v) + r;
    assert a + (k + c + v) + r + e == a + (k + (c + (v + (r + e))));
  }

  lemma MembersStop(w: bytes, p: nat, members: seq<Member>, style: Style, depth: nat, gap: bytes)
    requires Gap(gap) && Word(w, p, MembersLeft(members, style, depth, false, gap))
    ensures Stops(w, p)
  {
    hide TextOf, Line, Quoted, ValueLeft;
    if members == [] {
      assert [] + (gap + [CLOSE_BRACE]) == gap + [CLOSE_BRACE];
      hide Word;
      GapStops(w, p, gap, CLOSE_BRACE);
    } else {
      MembersSplit(members, style, depth, false, gap);
      WordFirst(w, p, MembersLeft(members, style, depth, false, gap));
    }
  }

  /** A colon, and the space after it. */
  lemma ColonReads(w: bytes, p: nat, style: Style, rest: bytes)
    requires Word(w, p, Colon(style) + rest) && rest != [] && !IsSpace(rest[0])
    ensures At(w, p, COLON) && SpaceEnd(w, p) == p && SpaceEnd(w, p + 1) == p + |Colon(style)|
    ensures Word(w, p + |Colon(style)|, rest) && SpaceEnd(w, p + |Colon(style)|) == p + |Colon(style)|
  {
    WordParts(w, p, Colon(style), rest);
    WordFirst(w, p, Colon(style));
    WordFirst(w, p + |Colon(style)|, rest);
    if style.pretty {
      assert Colon(style) == [COLON] + [0x20];
      WordParts(w, p, [COLON], [0x20]);
      WordFirst(w, p + 1, [0x20]);
    }
  }

  /** A key and its colon, where the key's quote is. */
  lemma KeyTextReads(d: Document, s: State, key: text, style: Style, rest: bytes)
    requires Word(d.whole, s.position, Quoted(key, style.html) + (Colon(style) + rest)) && rest != []
             && !IsSpace(rest[0])
    ensures var p := s.position + |Quoted(key, style.html)|;
      && KeyRead(d, s) == (None, s.(position := p + 1, text := key))
      && SpaceEnd(d.whole, p + 1) == p + |Colon(style)| && Word(d.whole, p + |Colon(style)|, rest)
      && SpaceEnd(d.whole, p + |Colon(style)|) == p + |Colon(style)|
  {
    hide StringAt, Quoted, SpaceEnd, Colon, Word;
    WordParts(d.whole, s.position, Quoted(key, style.html), Colon(style) + rest);
    QuotedReads(d, s.position, key, style.html);
    ColonReads(d.whole, s.position + |Quoted(key, style.html)|, style, rest);
  }

  /** The call that comes to a key. */
  lemma KeyComes(d: Document, s: State, frames: seq<Frame>, own: seq<bytes>, style: Style, depth: nat, body: bytes)
    requires Stands(s, s.position, frames + [Object(own, true, own != [])], s.rootSeen)
    requires Word(d.whole, s.position, Between(style, depth, own == []) + body) && body != [] && body[0] == QUOTE
    ensures var q := s.position + |Between(style, depth, own == [])|;
      Word(d.whole, q, body) && Next(d, s) == KeyNext(d, s.(position := q))
  {
    hide SpaceEnd, Word, ValueAt, Closed, Between, KeyNext;
    BetweenReads(d.whole, s.position, style, depth, own == [], body);
    RestFirst(d.whole, s.position + |Between(style, depth, own == [])|, body);
  }

  /** The call that reads a key. */
  lemma KeyNextReads(d: Document, s: State, frames: seq<Frame>, own: seq<bytes>, key: text, style: Style, depth: nat,
                     rest: bytes)
    requires Stands(s, s.position, frames + [Object(own, true, own != [])], s.rootSeen)
    requires Word(d.whole, s.position, Between(style, depth, own == [])
             + (Quoted(key, style.html) + (Colon(style) + rest)))
    requires rest != [] && !IsSpace(rest[0])
    ensures var q := s.position + |Between(style, depth, own == [])| + |Quoted(key, style.html)|;
      var (event, t) := Next(d, s);
      && SpaceEnd(d.whole, q + 1) == q + |Colon(style)| && Word(d.whole, q + |Colon(style)|, rest)
      && SpaceEnd(d.whole, q + |Colon(style)|) == q + |Colon(style)|
      && (if !d.duplicates && key in own then t.error.Some?
          else
            event == Key && t.text == key
            && Stands(t, q + 1, frames + [Object(own + [key], false, true)], s.rootSeen))
  {
    hide SpaceEnd, Word, Next, Between, Quoted, Colon, KeyRead, KeyAdded;
    var body := Quoted(key, style.html) + (Colon(style) + rest);
    QuotedFirst(key, style.html, Colon(style) + rest);
    KeyComes(d, s, frames, own, style, depth, body);
    var t := s.(position := s.position + |Between(style, depth, own == [])|);
    KeyTextReads(d, t, key, style, rest);
    KeyIsAdded(d, t.(position := t.position + |Quoted(key, style.html)| + 1, text := key), frames, own);
  }

  lemma QuotedFirst(key: text, html: bool, rest: bytes)
    ensures var body := Quoted(key, html) + rest; body != [] && body[0] == QUOTE
  {
    hide QuotedBody;
  }

  lemma KeyIsAdded(d: Document, t: State, frames: seq<Frame>, own: seq<bytes>)
    requires Stands(t, t.position, frames + [Object(own, true, own != [])], t.rootSeen)
    ensures var (event, u) := KeyAdded(d, t);
      if !d.duplicates && t.text in own then u.error.Some?
      else
        event == Key && u.text == t.text
        && Stands(u, t.position, frames + [Object(own + [t.text], false, true)], t.rootSeen)
  {
    var last := Object(own, true, own != []);
    assert (frames + [last])[..|frames|] == frames && (frames + [last])[|frames|] == last;
  }

  /** The call after it comes to the value. */
  lemma AfterKeyReads(d: Document, s: State, frames: seq<Frame>, own: seq<bytes>)
    requires Stands(s, s.position, frames + [Object(own, false, true)], s.rootSeen)
    ensures Next(d, s) == ValueAt(d, s.(position := SpaceEnd(d.whole, s.position)))
  {
    hide ValueAt, SpaceEnd, MemberNext;
  }

  ghost predicate MembersReadOn(d: Document, s: State, frames: seq<Frame>, own: seq<bytes>, members: seq<Member>,
                                style: Style, depth: nat, gap: bytes) {
    var (said, t) := Calls(d, s, |MembersSay(members)| + 1);
    if |frames| < MAX_DEPTH && MembersReadable(members, MAX_DEPTH - |frames| - 1, d.duplicates, own) then
      said == MembersSay(members) + [Said(EndObject, [])]
      && Stands(t, s.position + |MembersLeft(members, style, depth, own == [], gap)|, Ended(frames), s.rootSeen)
    else t.error.Some?
  }

  lemma EndedObject(frames: seq<Frame>, own: seq<bytes>)
    ensures Ended(frames + [Object(own, false, true)]) == frames + [Object(own, true, true)]
  {
    assert (frames + [Object(own, false, true)])[..|frames|] == frames;
  }

  /** One call, then the rest. */
  lemma OneCall(d: Document, s: State, n: nat)
    ensures var (event, t) := Next(d, s);
      && Calls(d, s, n + 1) == ([Tell(event, t)] + Calls(d, t, n).0, Calls(d, t, n).1)
      && (t.error.Some? ==> Calls(d, s, n + 1).1.error.Some?)
  {
    hide Next;
    var (event, t) := Next(d, s);
    if t.error.Some? { ErrorStays(d, t, n); }
  }

  /** Past a key, the reader comes to its value. */
  lemma MemberComes(d: Document, s: State, frames: seq<Frame>, own: seq<bytes>, members: seq<Member>, style: Style,
                    depth: nat, gap: bytes)
    requires members != [] && Stands(s, s.position, frames + [Object(own, true, own != [])], s.rootSeen)
    requires Gap(gap) && Word(d.whole, s.position, MembersLeft(members, style, depth, own == [], gap))
    ensures var key := members[0].key; var value := members[0].value;
      var q := s.position + |Between(style, depth, own == [])| + |Quoted(key, style.html)|;
      var (event, t) := Next(d, s);
      if !d.duplicates && key in own then t.error.Some?
      else
        (var u := t.(position := q + |Colon(style)|);
         && event == Key && t.text == key && Stands(t, q + 1, frames + [Object(own + [key], false, true)], s.rootSeen)
         && Next(d, t) == ValueAt(d, u) && Comes(d, u, value, style, depth)
         && ValueEnd(d, u, value, style, depth) == q + |Colon(style)| + |TextOf(value, style, depth)|
         && Word(d.whole, q + |Colon(style)| + |TextOf(value, style, depth)|,
             MembersLeft(members[1..], style, depth, false, gap)))
  {
    hide TextOf, Between, Word, MembersLeft, Next, ValueAt, SpaceEnd, Stops, Quoted, Colon;
    var Member(key, value) := members[0];
    var left := MembersLeft(members[1..], style, depth, false, gap);
    MembersSplit(members, style, depth, own == [], gap);
    RestStarts(value, style, depth, left);
    KeyNextReads(d, s, frames, own, key, style, depth, ValueLeft(members, style, depth, gap));
    var q := s.position + |Between(style, depth, own == [])| + |Quoted(key, style.html)|;
    WordParts(d.whole, q + |Colon(style)|, TextOf(value, style, depth), left);
    MembersStop(d.whole, q + |Colon(style)| + |TextOf(value, style, depth)|, members[1..], style, depth, gap);
    var (event, t) := Next(d, s);
    if t.error.None? { AfterKeyReads(d, t, frames, own + [key]); }
  }

  lemma {:induction false} MembersRead(d: Document, s: State, frames: seq<Frame>, own: seq<bytes>,
                                       members: seq<Member>, style: Style, depth: nat, gap: bytes)
    requires Stands(s, s.position, frames + [Object(own, true, own != [])], s.rootSeen) && |frames| < MAX_DEPTH
    requires Gap(gap) && Word(d.whole, s.position, MembersLeft(members, style, depth, own == [], gap))
    ensures MembersReadOn(d, s, frames, own, members, style, depth, gap)
    decreases members, 0
  {
    hide TextOf, Between, Word, Next, ValueAt, SpaceEnd, Stops, Calls, Readable, MemberSays, FromValue, Comes,
         ValueEnd, Gap, Quoted, Colon;
    if members == [] {
      assert [] + (gap + [CLOSE_BRACE]) == gap + [CLOSE_BRACE];
      CloseReads(d, s, frames, Object(own, true, own != []), gap);
    } else {
      MembersSplit(members, style, depth, own == [], gap);
      hide MembersLeft, ValueLeft;
      MemberReads(d, s, frames, own, members, style, depth, gap);
      MembersLength(members, style, depth, own == [], gap);
      var m := |MembersSay(members[1..])| + 1;
      assert |MembersSay(members)| + 1 == |MemberSays(members[0])| + m;
      if (d.duplicates || members[0].key !in own)
          && MemberReadable(members[0], MAX_DEPTH - |frames| - 1, d.duplicates) {
        var u := Calls(d, s, |MemberSays(members[0])|).1;
        MembersRead(d, u, frames, own + [members[0].key], members[1..], style, depth, gap);
        CallsAdd(d, s, |MemberSays(members[0])|, m);
        assert MemberSays(members[0]) + (MembersSay(members[1..]) + [Said(EndObject, [])])
          == MemberSays(members[0]) + MembersSay(members[1..]) + [Said(EndObject, [])];
      } else {
        var u := Calls(d, s, |MemberSays(members[0])|).1;
        ErrorStays(d, u, m);
        CallsAdd(d, s, |MemberSays(members[0])|, m);
      }
    }
  }

  /** How long the text of a member is. */
  lemma MembersLength(members: seq<Member>, style: Style, depth: nat, first: bool, gap: bytes)
    requires members != []
    ensures |MembersLeft(members, style, depth, first, gap)|
      == |Between(style, depth, first)| + |Quoted(members[0].key, style.html)| + |Colon(style)|
        + |TextOf(members[0].value, style, depth)| + |MembersLeft(members[1..], style, depth, false, gap)|
  {
    hide TextOf, Between, Quoted, Colon, MembersLeft;
    MembersSplit(members, style, depth, first, gap);
  }

  /** One member of an object, its key and its value. */
  lemma {:induction false} MemberReads(d: Document, s: State, frames: seq<Frame>, own: seq<bytes>,
                                       members: seq<Member>, style: Style, depth: nat, gap: bytes)
    requires members != [] && Stands(s, s.position, frames + [Object(own, true, own != [])], s.rootSeen)
             && |frames| < MAX_DEPTH
    requires Gap(gap) && Word(d.whole, s.position, MembersLeft(members, style, depth, own == [], gap))
    ensures var (said, t) := Calls(d, s, |MemberSays(members[0])|);
      var end := s.position + |Between(style, depth, own == [])| + |Quoted(members[0].key, style.html)| + |Colon(style)|
        + |TextOf(members[0].value, style, depth)|;
      if (d.duplicates || members[0].key !in own)
          && MemberReadable(members[0], MAX_DEPTH - |frames| - 1, d.duplicates) then
        said == MemberSays(members[0]) && Stands(t, end, frames + [Object(own + [members[0].key], true, true)],
            s.rootSeen)
        && Word(d.whole, end, MembersLeft(members[1..], style, depth, false, gap))
      else t.error.Some?
    decreases members[0], 2
  {
    hide TextOf, Between, Word, Next, ValueAt, SpaceEnd, Stops, Calls, Readable, FromValue, Comes, ValueEnd, Gap,
         Quoted, Colon, MembersLeft, Reads, Ended, Says;
    var Member(key, value) := members[0];
    MemberComes(d, s, frames, own, members, style, depth, gap);
    OneCall(d, s, |Says(value)|);
    var t := Next(d, s).1;
    if d.duplicates || key !in own {
      var q := s.position + |Between(style, depth, own == [])| + |Quoted(key, style.html)|;
      var u := t.(position := q + |Colon(style)|);
      assert value < members[0];
      ValueReads(d, u, value, style, depth);
      Then(d, t, u, value, style, depth, 0);
      EndedObject(frames, own + [key]);
      NoCalls(d, FromValue(d, u, |Says(value)|).1);
      assert Says(value) + [] == Says(value);
    }
  }

  lemma NoCalls(d: Document, s: State)
    ensures Calls(d, s, 0) == ([], s)
  {
  }

  lemma ObjectText(members: seq<Member>, style: Style, depth: nat)
    ensures var gap := if members == [] then [] else Line(style, depth);
      Gap(gap) && TextOf(ObjectValue(members), style, depth) ==
          [OPEN_BRACE] + MembersLeft(members, style, depth + 1, true, gap)
  {
    LineIsBlank(style, depth);
    hide Line, MembersText;
    var gap := if members == [] then [] else Line(style, depth);
    var inside := MembersText(members, style, depth + 1, true);
    assert [OPEN_BRACE] + inside + gap + [CLOSE_BRACE] == [OPEN_BRACE] + (inside + (gap + [CLOSE_BRACE]));
  }

  lemma ObjectIs(members: seq<Member>, room: nat, duplicates: bool)
    ensures Readable(ObjectValue(members), room, duplicates) <==>
            room > 0 && MembersReadable(members, room - 1, duplicates, [])
    ensures Says(ObjectValue(members)) == [Said(BeginObject, [])] + (MembersSay(members) + [Said(EndObject, [])])
  {
    hide MembersReadable, MembersSay;
    assert [Said(BeginObject, [])] + MembersSay(members) + [Said(EndObject, [])] ==
        [Said(BeginObject, [])] + (MembersSay(members) + [Said(EndObject, [])]);
  }

  lemma {:induction false} ObjectReads(d: Document, s: State, members: seq<Member>, style: Style, depth: nat)
    requires Comes(d, s, ObjectValue(members), style, depth) && |s.frames| <= MAX_DEPTH
    ensures Reads(d, s, ObjectValue(members), style, depth)
    decreases members, 1
  {
    hide Next, ValueAt, SpaceEnd, Stops, Calls, MembersSay, FromValue, Gap, MembersLeft, MembersReadable, Word, Says,
         Readable, Ended;
    var v := ObjectValue(members);
    ObjectIs(members, MAX_DEPTH - |s.frames|, d.duplicates);
    var gap := if members == [] then [] else Line(style, depth);
    ObjectText(members, style, depth);
    OpenReads(d, s, v, style, depth);
    Opens(d, s, |Says(v)|);
    assert |Says(v)| == |MembersSay(members)| + 2;
    hide TextOf;
    if |s.frames| < MAX_DEPTH {
      var p := SpaceEnd(d.whole, s.position);
      WordParts(d.whole, p, [OPEN_BRACE], MembersLeft(members, style, depth + 1, true, gap));
      var t := ValueAt(d, s).1;
      MembersRead(d, t, s.frames, [], members, style, depth + 1, gap);
    }
  }

  // ---------------------------------------------------------------------
  // The round trip
  // ---------------------------------------------------------------------

  /** The text of a value, compact, pretty or safe inside a page, is read back
      as its events and the end, exactly when it nests no more than 128 deep and
      repeats no key that may not be; otherwise the reading fails. */
  lemma TextReads(v: Value, style: Style, duplicates: bool, checked: bool)
    ensures var d := Document(TextOf(v, style, 0), duplicates, checked);
      var (said, t) := Calls(d, START, |Says(v)| + 1);
      if Readable(v, MAX_DEPTH, duplicates) then said == Says(v) + [Said(End, [])] && t.done && t.error.None?
      else t.error.Some?
  {
    hide ValueAt, Readable, Says, TextOf, Calls, Next;
    var whole := TextOf(v, style, 0);
    var d := Document(whole, duplicates, checked);
    var s := START.(rootSeen := true);
    assert whole[0..|whole|] == whole;
    TextStarts(v, style, 0);
    assert Comes(d, s, v, style, 0);
    ValueReads(d, s, v, style, 0);
    RootReads(d);
    Then(d, START, s, v, style, 0, 1);
    if Readable(v, MAX_DEPTH, duplicates) {
      var u := FromValue(d, s, |Says(v)|).1;
      EndReads(d, u);
    }
  }

  lemma RootReads(d: Document)
    requires d.whole != [] && !IsSpace(d.whole[0])
    ensures Next(d, START) == ValueAt(d, START.(rootSeen := true))
  {
    hide ValueAt;
  }

  lemma EndReads(d: Document, s: State)
    requires Stands(s, |d.whole|, [], true)
    ensures var (said, t) := Calls(d, s, 1); said == [Said(End, [])] && t.done && t.error.None?
  {
    CallOnce(d, s);
    hide Calls;
  }

  predicate Repeats(members: seq<Member>, own: seq<bytes>) {
    members != [] && (members[0].key in own || Repeats(members[1..], own + [members[0].key]))
  }

  /** No key is repeated when the keys are distinct. */
  lemma {:induction false} DistinctRepeatsNone(members: seq<Member>, own: seq<bytes>)
    ensures !Repeats(members, own) <==>
      (forall i, j :: 0 <= i < j < |members| ==> members[i].key != members[j].key)
      && (forall i :: 0 <= i < |members| ==> members[i].key !in own)
    decreases members
  {
    if members != [] {
      var rest, key := members[1..], members[0].key;
      DistinctRepeatsNone(rest, own + [key]);
      forall i | 0 <= i < |rest| ensures rest[i] == members[i + 1] {
      }
    }
  }

  /** Members can be read when each can and none repeats a key. */
  lemma {:induction false} MembersReadableAre(members: seq<Member>, room: nat, duplicates: bool, own: seq<bytes>)
    ensures MembersReadable(members, room, duplicates, own)
      <==> (duplicates || !Repeats(members, own)) && forall i :: 0 <= i < |members| ==>
          MemberReadable(members[i], room, duplicates)
    decreases members
  {
    hide MemberReadable;
    if members != [] { MembersReadableAre(members[1..], room, duplicates, own + [members[0].key]); }
  }
}
