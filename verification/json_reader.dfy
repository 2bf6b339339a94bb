/**
 The JSON reader, over a text or a stream that comes in pieces (json.rs). What
 it reads is what the functions of `Json` say of the whole text: the pieces
 leave no trace.
 */
module JsonReader {
  import opened Bytes
  import opened Json
  import opened JsonInput
  import opened JsonUtf8
  import Decimal
  import Utf8

  /** How far a stream reader reads on before it drops what it has read. */
  const CHUNK: nat := 65_536

  lemma WordOfTwo(w: bytes, p: nat, a: byte, b: byte)
    ensures Word(w, p, [a, b]) <==> At(w, p, a) && At(w, p + 1, b)
  {
    if p + 2 <= |w| { assert w[p..p + 2] == [w[p], w[p + 1]]; }
  }

  class Reader {
    /** What is held of the text: the bytes from `offset` on, as far as read. */
    var input: bytes
    var offset: nat
    var position: nat
    /** Whether it comes from a stream, the pieces still to come, and whether
        the reader knows that none is left. */
    const streamed: bool
    var chunks: seq<bytes>
    var exhausted: bool
    /** Line ends among the bytes dropped, and how many characters came after the
        last one. */
    var linesBefore: nat
    var columnCarry: nat
    /** The place from which bytes have to be held, for a value taken as text. */
    var pinned: Option<nat>
    var places: seq<Place>
    var text: bytes
    /** A buffer for the keys of all open objects, and the ends of the single keys
        in it. */
    var keys: bytes
    var keyEnds: seq<nat>
    var integer: Option<int>
    var done: bool
    var rootSeen: bool
    var error: Option<(Message, nat)>
    const duplicates: bool
    var start: nat

    /** The whole text, what of it was let go, and the keys one by one. */
    ghost const whole: bytes
    ghost var gone: bytes
    ghost var names: seq<bytes>

    // -------------------------------------------------------------------
    // Input
    // -------------------------------------------------------------------

    /** The input so far and the pieces to come are what is left of the text. */
    ghost predicate InputOk()
      reads this`input, this`offset, this`position, this`chunks, this`exhausted, this`gone
    {
      && whole == gone + input + Flat(chunks)
      && offset == |gone|
      && position <= |input|
      && (forall i :: 0 <= i < |chunks| ==> chunks[i] != [])
      && (exhausted ==> chunks == [])
      && (!streamed ==> chunks == [])
    }

    ghost function Here(): nat
      reads this`offset, this`position
    {
      offset + position
    }

    lemma Known()
      requires InputOk()
      ensures offset + |input| <= |whole| && whole[offset..offset + |input|] == input
      ensures exhausted ==> offset + |input| == |whole|
      ensures forall i :: 0 <= i < |input| ==> input[i] == whole[offset + i]
    {
      assert whole == gone + (input + Flat(chunks));
      assert whole[offset..offset + |input|] == input;
      assert forall i :: 0 <= i < |input| ==> input[i] == whole[offset..offset + |input|][i];
    }

    lemma Piece(from: nat, end: nat)
      requires InputOk() && from <= end <= |input|
      ensures offset + end <= |whole| && whole[offset + from..offset + end] == input[from..end]
    {
      Known();
      assert whole[offset..offset + |input|][from..end] == whole[offset + from..offset + end];
    }

    /** Whether the text goes on for `count` bytes more, which are then held. */
    method Ensure(count: nat) returns (enough: bool)
      requires InputOk()
      modifies this`input, this`chunks, this`exhausted
      ensures InputOk()
      ensures enough <==> Here() + count <= |whole|
      ensures enough ==> position + count <= |input|
    {
      while |input| < position + count && !exhausted
        invariant InputOk()
        decreases |chunks|, if exhausted then 0 else 1
      {
        if !streamed {
          exhausted := true;
          break;
        }
        if chunks == [] {
          exhausted := true;
        } else {
          assert gone + input + (chunks[0] + Flat(chunks[1..])) == gone + (input + chunks[0]) + Flat(chunks[1..]);
          input, chunks := input + chunks[0], chunks[1..];
        }
      }
      Known();
      enough := |input| >= position + count;
    }

    method Peek() returns (b: Option<byte>)
      requires InputOk()
      modifies this`input, this`chunks, this`exhausted
      ensures InputOk()
      ensures Here() <= |whole|
      ensures b == if Here() < |whole| then Some(whole[Here()]) else None
      ensures b.Some? ==> position < |input|
    {
      if position >= |input| { var _ := Ensure(1); }
      Known();
      b := if position < |input| then Some(input[position]) else None;
    }

    /** Takes the byte just looked at. */
    method Advance()
      requires InputOk() && position < |input|
      modifies this`position
      ensures InputOk() && Here() == old(Here()) + 1 && position == old(position) + 1
    {
      position := position + 1;
    }

    method Forward(count: nat)
      requires InputOk() && position + count <= |input|
      modifies this`position
      ensures InputOk() && Here() == old(Here()) + count
    {
      position := position + count;
    }

    method SkipSpace()
      requires InputOk()
      modifies this`input, this`chunks, this`exhausted, this`position
      ensures InputOk()
      ensures Here() == SpaceEnd(whole, old(Here()))
    {
      hide InputOk;
      var next := Peek();
      while next.Some? && IsSpace(next.value)
        invariant InputOk() && Here() <= |whole|
        invariant next == if Here() < |whole| then Some(whole[Here()]) else None
        invariant next.Some? ==> position < |input|
        invariant SpaceEnd(whole, Here()) == SpaceEnd(whole, old(Here()))
        decreases |whole| - Here()
      {
        Advance();
        next := Peek();
      }
    }

    /** Skips digits; how many. */
    method Digits() returns (count: nat)
      requires InputOk()
      modifies this`input, this`chunks, this`exhausted, this`position
      ensures InputOk()
      ensures Here() == DigitsEnd(whole, old(Here())) == old(Here()) + count
    {
      var begin := position;
      hide InputOk;
      var next := Peek();
      while next.Some? && IsDigit(next.value)
        invariant InputOk() && Here() <= |whole| && begin <= position
        invariant next == if Here() < |whole| then Some(whole[Here()]) else None
        invariant next.Some? ==> position < |input|
        invariant DigitsEnd(whole, Here()) == DigitsEnd(whole, old(Here()))
        decreases |whole| - Here()
      {
        Advance();
        next := Peek();
      }
      count := position - begin;
    }

    /** The input from `begin` up to the position. */
    method Between(begin: nat) returns (taken: bytes)
      requires InputOk() && begin <= position
      ensures taken == Slice(whole, offset + begin, Here())
    {
      Piece(begin, position);
      taken := input[begin..position];
    }

    // -------------------------------------------------------------------
    // Tokens
    // -------------------------------------------------------------------

    /** The exponent of a number, if it has one. */
    method Exponent() returns (problem: Option<Message>)
      requires InputOk()
      modifies this`input, this`chunks, this`exhausted, this`position
      ensures InputOk()
      ensures problem == Problem(ExponentEnd(whole, old(Here()))) && Here() == ExponentEnd(whole, old(Here())).at
    {
      hide InputOk, DigitsEnd;
      var mark := Peek();
      if mark.Some? && (mark.value == 0x65 || mark.value == 0x45) {
        Advance();
        var sign := Peek();
        if sign.Some? && (sign.value == 0x2B || sign.value == MINUS) { Advance(); }
        var count := Digits();
        if count == 0 { return Some(NoExponent); }
      }
      return None;
    }

    method Fraction() returns (problem: Option<Message>)
      requires InputOk()
      modifies this`input, this`chunks, this`exhausted, this`position
      ensures InputOk()
      ensures problem == Problem(FractionEnd(whole, old(Here()))) && Here() == FractionEnd(whole, old(Here())).at
    {
      hide InputOk, DigitsEnd, ExponentEnd;
      var point := Peek();
      if point == Some(0x2E) {
        Advance();
        var count := Digits();
        if count == 0 { return Some(NoFraction); }
      }
      problem := Exponent();
    }

    /** The sign and whole part of a number. */
    method Whole() returns (problem: Option<Message>)
      requires InputOk()
      modifies this`input, this`chunks, this`exhausted, this`position
      ensures InputOk()
      ensures problem == Problem(WholeEnd(whole, old(Here()))) && Here() == WholeEnd(whole, old(Here())).at
    {
      hide InputOk, DigitsEnd;
      var sign := Peek();
      if sign == Some(MINUS) { Advance(); }
      var first := Peek();
      if first == Some(0x30) {
        Advance();
      } else if first.Some? && IsDigit(first.value) {
        var _ := Digits();
      } else {
        return Some(InvalidNumber);
      }
      return None;
    }

    /** A number, into `text`. */
    method ReadNumber() returns (problem: Option<Message>)
      requires InputOk() && Here() <= |whole|
      modifies this`input, this`chunks, this`exhausted, this`position, this`text
      ensures InputOk()
      ensures problem == Problem(NumberEnd(whole, old(Here()))) && Here() == NumberEnd(whole, old(Here())).at
      ensures text == if problem.None? then Slice(whole, old(Here()), Here()) else old(text)
    {
      hide InputOk, WholeEnd, FractionEnd, Slice;
      var begin := position;
      NumberAdvances(whole, Here());
      problem := Whole();
      if problem.Some? { return; }
      problem := Fraction();
      if problem.None? { text := Between(begin); }
    }

    /** Four digits of an escape. */
    method ReadHex4() returns (value: Option<nat>)
      requires InputOk()
      modifies this`input, this`chunks, this`exhausted, this`position
      ensures InputOk()
      ensures match Hex4(whole, old(Here()))
        case Got(code, at) => value == Some(code) && Here() == at
        case Bad(_, at) => value == None && Here() == at
    {
      hide Radix16, Utf8.Valid;
      var enough := Ensure(4);
      if !enough { return None; }
      Piece(position, position + 4);
      var digits := input[position..position + 4];
      if Radix16(digits).Some? { RadixIsValid(digits); }
      if !Utf8.Valid(digits) { return None; }
      value := Radix16(digits);
      Radix16Bound(digits);
      if value.Some? { position := position + 4; }
    }

    /** The character of a `u` escape. */
    method ReadUnicode() returns (problem: Option<Message>, code: nat)
      requires InputOk()
      modifies this`input, this`chunks, this`exhausted, this`position
      ensures InputOk()
      ensures match UnicodeAt(whole, old(Here()))
        case Got(c, at) => problem == None && code == c && Here() == at
        case Bad(message, at) => problem == Some(message) && Here() == at
    {
      hide InputOk, Hex4, HexFour, Word;
      code := 0;
      var first := ReadHex4();
      if first.None? { return Some(InvalidEscape), 0; }
      if IsHigh(first.value) {
        var paired := StartsWith([BACKSLASH, 0x75]);
        WordOfTwo(whole, Here(), BACKSLASH, 0x75);
        if !paired { return Some(Unpaired), 0; }
        Advance();
        Advance();
        var second := ReadHex4();
        if second.None? { return Some(InvalidEscape), 0; }
        if !IsLow(second.value) { return Some(Unpaired), 0; }
        return None, 0x1_0000 + (first.value - 0xD800) * 0x400 + (second.value - 0xDC00);
      }
      if IsLow(first.value) { return Some(Unpaired), 0; }
      return None, first.value;
    }

    /** Whether a word comes next: enough of it read, and equal. */
    method StartsWith(word: bytes) returns (next: bool)
      requires InputOk()
      modifies this`input, this`chunks, this`exhausted
      ensures InputOk()
      ensures next <==> Word(whole, Here(), word)
      ensures next ==> position + |word| <= |input|
    {
      var enough := Ensure(|word|);
      if !enough { return false; }
      Piece(position, position + |word|);
      next := input[position..position + |word|] == word;
    }

    /** An escape past its backslash, as the bytes of its character. */
    method ReadEscape() returns (problem: Option<Message>, c: bytes)
      requires InputOk()
      modifies this`input, this`chunks, this`exhausted, this`position
      ensures InputOk()
      ensures match EscapeAt(whole, old(Here()))
        case Got(character, at) => problem == None && c == character && Here() == at
        case Bad(message, at) => problem == Some(message) && Here() == at
    {
      hide InputOk, UnicodeAt, Utf8.Encoded;
      c := [];
      var letter := Peek();
      if letter.None? { return Some(Unterminated), []; }
      Advance();
      if letter.value == 0x75 {
        var code: nat;
        problem, code := ReadUnicode();
        return problem, if problem.None? then Utf8.Encoded(code) else [];
      }
      var escaped := Escaped(letter.value);
      if escaped.None? { return Some(InvalidEscape), []; }
      return None, [escaped.value];
    }

    /** Takes the bytes that need nothing done, at once. */
    method TakeRun() returns (run: bytes)
      requires InputOk()
      modifies this`position
      ensures InputOk() && old(Here()) <= Here() <= |whole|
      ensures run == Slice(whole, old(Here()), Here()) && |run| == Here() - old(Here())
      ensures forall i :: 0 <= i < |run| ==> Plain(run[i])
    {
      var begin := position;
      var end := RunEnd(input, begin);
      position := end;
      Piece(begin, end);
      run := input[begin..end];
    }

    /** The rest of a string, past its opening quote. */
    method StringInto() returns (problem: Option<Message>, out: bytes)
      requires InputOk() && position < |input|
      modifies this`input, this`chunks, this`exhausted, this`position
      ensures InputOk()
      ensures match StringFrom(whole, old(Here()) + 1, [])
        case Got(content, at) => problem == None && out == content && Here() == at
        case Bad(message, at) => problem == Some(message) && Here() == at
    {
      hide InputOk, EscapeAt, StringFrom, Slice;
      Advance();
      out := [];
      while true
        invariant InputOk() && Here() <= |whole|
        invariant StringFrom(whole, Here(), out) == StringFrom(whole, old(Here()) + 1, [])
        decreases |whole| - Here()
      {
        ghost var from := Here();
        var run := TakeRun();
        RunReads(whole, from, run, out);
        out := out + run;
        var next := Peek();
        StringStep(whole, Here(), out);
        if next.None? { return Some(Unterminated), out; }
        Advance();
        if next.value == QUOTE { return None, out; }
        if next.value == BACKSLASH {
          var c: bytes;
          problem, c := ReadEscape();
          if problem.Some? { return; }
          out := out + c;
        } else if next.value < 0x20 {
          return Some(ControlCharacter), out;
        } else {
          out := out + [next.value];
        }
      }
    }

    /** A string, into `text`. */
    method ReadString() returns (problem: Option<Message>)
      requires InputOk() && position < |input|
      modifies this`input, this`chunks, this`exhausted, this`position, this`text
      ensures InputOk()
      ensures match StringAt(Document(whole, duplicates, streamed), old(Here()))
        case Got(content, at) => problem == None && text == content && Here() == at
        case Bad(message, at) => problem == Some(message) && text == [] && Here() == at
    {
      hide InputOk, StringFrom, Utf8.Valid;
      var out: bytes;
      problem, out := StringInto();
      if problem.None? && streamed && !Utf8.Valid(out) { problem := Some(NotUtf8); }
      text := if problem.Some? then [] else out;
    }

    // -------------------------------------------------------------------
    // Keys
    // -------------------------------------------------------------------

    ghost predicate KeysOk()
      reads this`keys, this`keyEnds, this`names, this`places
    {
      && BufferOk(keys, keyEnds, names)
      && (duplicates ==> forall i :: 0 <= i < |places| && places[i].ObjectPlace? ==> places[i].known.None?)
    }

    lemma KeysCounted()
      requires KeysOk()
      ensures |keyEnds| == |names|
    {
    }

    /** The key `at` of the objects open. */
    method KeyAt(at: nat) returns (key: bytes)
      requires BufferOk(keys, keyEnds, names) && at < |names|
      ensures key == names[at]
    {
      KeyIs(keys, keyEnds, names, at);
      key := keys[KeyStart(keyEnds, at)..keyEnds[at]];
    }

    /** Whether one of the keys from `first` on is the text. */
    method Scan(first: nat) returns (found: bool)
      requires BufferOk(keys, keyEnds, names) && first <= |names|
      ensures found <==> text in names[first..]
    {
      hide BufferOk;
      assert |keyEnds| == |names| by { BufferCounts(keys, keyEnds, names); }
      var at := first;
      while at < |keyEnds|
        invariant first <= at <= |names|
        invariant text !in names[first..at]
      {
        var key := KeyAt(at);
        if key == text {
          assert names[first..][at - first] == text;
          return true;
        }
        assert names[first..at + 1] == names[first..at] + [names[at]];
        at := at + 1;
      }
      assert names[first..at] == names[first..];
      return false;
    }

    /** The set of the keys from `first` on. */
    method Collect(first: nat) returns (known: set<bytes>)
      requires BufferOk(keys, keyEnds, names) && first <= |names|
      ensures known == KeySet(names[first..])
    {
      hide BufferOk;
      assert |keyEnds| == |names| by { BufferCounts(keys, keyEnds, names); }
      known := {};
      var at := first;
      while at < |keyEnds|
        invariant first <= at <= |names|
        invariant known == KeySet(names[first..at])
      {
        var key := KeyAt(at);
        assert names[first..at + 1] == names[first..at] + [names[at]];
        assert KeySet(names[first..at + 1]) == KeySet(names[first..at]) + {names[at]};
        known := known + {key};
        at := at + 1;
      }
      assert names[first..at] == names[first..];
    }

    /** Whether the text repeats a key from `first` on, looked up by its bit,
        then among few keys one by one, then in a set, which is kept. */
    method LookUp(first: nat, known: Option<set<bytes>>, bits: bv64) returns (repeated: bool, kept: Option<set<bytes>>)
      requires BufferOk(keys, keyEnds, names) && first <= |names|
      requires Remembers(known, bits, names[first..]) && (duplicates ==> known.None?)
      ensures repeated <==> !duplicates && text in names[first..]
      ensures Remembers(kept, WithBit(bits, text), names[first..] + [text]) && (duplicates ==> kept.None?)
    {
      hide HasBit, WithBit, BufferOk;
      BufferCounts(keys, keyEnds, names);
      ghost var own := names[first..];
      RemembersMore(known, bits, own, text);
      var count := |keyEnds| - first;
      if duplicates || (!HasBit(bits, text) && count < FEW_KEYS) {
        return false, known;
      }
      if count < FEW_KEYS {
        repeated := Scan(first);
        return repeated, known;
      }
      var all: set<bytes>;
      if known.Some? { all := known.value; } else { all := Collect(first); }
      return text in all, Some(all + {text});
    }

    /** What the innermost object remembers of one key more, and whether it
        repeats another. */
    method Remember() returns (repeated: bool)
      requires KeysOk() && PlacesOk(places, names) && places != [] && places[|places| - 1].ObjectPlace?
      modifies this`places
      ensures |places| == |old(places)| && places[..|places| - 1] == old(places)[..|places| - 1]
      ensures var was := old(places)[|places| - 1]; var place := places[|places| - 1];
        && place.ObjectPlace? && place == was.(known := place.known, bits := place.bits)
        && was.first <= |names|
        && Remembers(place.known, place.bits, names[was.first..] + [text])
        && (duplicates ==> place.known.None?)
        && (repeated <==> !duplicates && text in names[was.first..])
    {
      hide HasBit, WithBit, Remembers, BufferOk;
      var n := |places| - 1;
      var place := places[n];
      Innermost(places, names);
      hide PlacesOk;
      var kept: Option<set<bytes>>;
      repeated, kept := LookUp(place.first, place.known, place.bits);
      places := places[..n] + [place.(bits := WithBit(place.bits, text), known := kept)];
    }

    /** The key of a member goes after those there are. */
    method PushKey()
      requires BufferOk(keys, keyEnds, names)
      modifies this`keys, this`keyEnds, this`names
      ensures BufferOk(keys, keyEnds, names) && names == old(names) + [text]
    {
      BufferGrows(keys, keyEnds, names, text);
      keys := keys + text;
      keyEnds := keyEnds + [|keys|];
      names := names + [text];
    }

    /** The keys of an object that closes are let go. */
    method DropKeys(first: nat)
      requires BufferOk(keys, keyEnds, names) && first <= |names|
      modifies this`keys, this`keyEnds, this`names
      ensures BufferOk(keys, keyEnds, names) && names == old(names)[..first]
    {
      BufferCounts(keys, keyEnds, names);
      BufferShrinks(keys, keyEnds, names, first);
      keys := keys[..KeyStart(keyEnds, first)];
      keyEnds := keyEnds[..first];
      names := names[..first];
    }

    // -------------------------------------------------------------------
    // Lines and columns
    // -------------------------------------------------------------------

    /** The lines let go are counted, and for UTF-8 the characters since. */
    ghost predicate CarryOk()
      reads this`gone, this`linesBefore, this`columnCarry
    {
      && linesBefore == Lines(gone)
      && (Utf8.Valid(whole) ==> Utf8.Valid(gone) && columnCarry == Utf8.Chars(LastLine(gone)))
    }

    ghost predicate PinnedOk()
      reads this`pinned, this`offset, this`error
    {
      pinned.Some? ==> offset <= pinned.value && (error.None? ==> Aligned(whole, pinned.value))
    }

    /** Counts the lines and characters of input that goes. */
    method Carry(dropped: bytes)
      requires CarryOk() && (Utf8.Valid(whole) ==> Utf8.Valid(gone + dropped))
      modifies this`linesBefore, this`columnCarry, this`gone
      ensures CarryOk() && gone == old(gone) + dropped
    {
      hide Utf8.Valid, Utf8.Chars, Lines, LastLine;
      LinesAdd(gone, dropped);
      if Utf8.Valid(whole) { ColumnAdds(gone, dropped); }
      var last := LastNewline(dropped);
      match last {
        case Some(end) =>
          var lines := CountLines(dropped);
          linesBefore := linesBefore + lines;
          columnCarry := Utf8.Chars(dropped[end + 1..]);
        case None =>
          NoNewlines(dropped);
          columnCarry := columnCarry + Utf8.Chars(dropped);
      }
      gone := gone + dropped;
    }

    /** Drops what has been read, except from a pinned place on. */
    method Compact()
      requires InputOk() && CarryOk() && PinnedOk() && error.None? && Aligned(whole, Here())
      modifies this`input, this`offset, this`position, this`linesBefore, this`columnCarry, this`gone
      ensures InputOk() && CarryOk() && PinnedOk()
      ensures Here() == old(Here()) && offset + |input| == old(offset + |input|) && old(offset) <= offset
    {
      hide Utf8.Valid, CarryOk, Aligned;
      if !streamed || position < CHUNK { return; }
      var keep := match pinned
        case None => position
        case Some(p) => if p - offset < position then p - offset else position;
      GoneIsPrefix(keep);
      if Utf8.Valid(whole) { AlignedIsValid(whole, offset + keep); }
      Carry(input[..keep]);
      input := input[keep..];
      offset := offset + keep;
      position := position - keep;
    }

    lemma GoneIsPrefix(keep: nat)
      requires InputOk() && keep <= |input|
      ensures whole == gone + input[..keep] + input[keep..] + Flat(chunks)
      ensures offset + keep <= |whole| && whole[..offset + keep] == gone + input[..keep]
    {
      assert input == input[..keep] + input[keep..];
      assert whole == (gone + input[..keep]) + (input[keep..] + Flat(chunks));
    }

    /** Line and column, counted from what is held and what was carried. */
    method LineColumnOf(at: nat) returns (line: nat, column: nat)
      requires InputOk() && CarryOk() && offset <= at <= offset + |input|
      ensures at <= |whole| && line == LineColumn(whole, at).0
      ensures Utf8.Valid(whole) ==> column == LineColumn(whole, at).1
    {
      hide Utf8.Valid, Utf8.Chars, Lines, LastLine;
      var before := input[..at - offset];
      GoneIsPrefix(at - offset);
      var lines := CountLines(before);
      LinesAdd(gone, before);
      line := linesBefore + lines + 1;
      if Utf8.Valid(whole) { ColumnAdds(gone, before); }
      var last := LastNewline(before);
      match last {
        case Some(end) => column := Utf8.Chars(before[end + 1..]) + 1;
        case None => column := columnCarry + Utf8.Chars(before) + 1;
      }
    }

    // -------------------------------------------------------------------
    // Events
    // -------------------------------------------------------------------

    ghost function Doc(): Document { Document(whole, duplicates, streamed) }

    /** The state of reading the whole text that this reader is in. */
    ghost function State(): State
      requires PlacesOk(places, names)
      reads this`offset, this`position, this`places, this`names, this`text, this`integer
      reads this`done, this`rootSeen, this`error, this`start
    {
      Json.State(Here(), FramesOf(places, names), text, integer, done, rootSeen, error, start)
    }

    ghost predicate Sound()
      reads this`input, this`offset, this`position, this`chunks, this`exhausted, this`gone
      reads this`keys, this`keyEnds, this`names, this`places
    {
      InputOk() && KeysOk() && PlacesOk(places, names)
    }

    method Fail(message: Message) returns (event: Event)
      requires Sound()
      modifies this`error
      ensures Sound() && (event, State()) == Json.Fail(old(State()), message)
    {
      if error.None? { error := Some((message, offset + position)); }
      return Error;
    }

    /** The innermost place becomes another, of the same keys. */
    method SetLast(place: Place)
      requires KeysOk() && PlacesOk(places, names) && places != []
      requires PlaceOk(place, names) && Under(place, names) == Under(places[|places| - 1], names)
      requires duplicates && place.ObjectPlace? ==> place.known.None?
      modifies this`places
      ensures KeysOk() && PlacesOk(places, names) && names == old(names) && |places| == |old(places)|
      ensures FramesOf(places, names)
        == old(FramesOf(places, names))[..|old(places)| - 1] + [FrameOf(place, Own(place, names))]
    {
      hide PlaceOk, BufferOk;
      var n := |places| - 1;
      Innermost(places, names);
      Placed(places[..n], names, place);
      hide PlacesOk, FramesOf;
      places := places[..n] + [place];
    }

    /** Records that a member value ended. */
    method AfterValue(event: Event) returns (r: Event)
      requires Sound()
      modifies this`places
      ensures Sound() && names == old(names) && (r, State()) == Json.AfterValue(old(State()), event)
    {
      hide InputOk, BufferOk, PlacesOk, FramesOf, PlaceOk, Under, Own;
      if places != [] {
        var n := |places| - 1;
        var last := places[n];
        Innermost(places, names);
        if last.ObjectPlace? {
          SameKeys(last, last.(expectKey := true), names);
          SetLast(last.(expectKey := true));
        }
      }
      return event;
    }

    /** A container opens, if there is room. */
    method Open(place: Place, event: Event) returns (r: Event)
      requires Sound() && position < |input|
      requires place.ObjectPlace? ==> place.first == |names| && place.known == None
      modifies this`places, this`position, this`error
      ensures Sound() && (r, State()) == Opened(old(State()), FrameOf(place, []), event)
    {
      if |places| >= MAX_DEPTH {
        r := Fail(TooDeep);
        return;
      }
      Pushed(places, names, place);
      hide PlacesOk, FramesOf, BufferOk, InputOk;
      Advance();
      places := places + [place];
      return event;
    }

    method ReadWord(word: bytes, event: Event) returns (r: Event)
      requires Sound()
      modifies this`input, this`chunks, this`exhausted, this`position, this`places, this`error
      ensures Sound() && names == old(names) && (r, State()) == WordAt(Doc(), old(State()), word, event)
    {
      hide PlacesOk, FramesOf, KeysOk, Json.AfterValue, InputOk, Word;
      var next := StartsWith(word);
      if next {
        Forward(|word|);
        r := AfterValue(event);
      } else {
        r := Fail(UnexpectedCharacter);
      }
    }

    method NumberValue() returns (r: Event)
      requires Sound()
      modifies this`input, this`chunks, this`exhausted, this`position, this`places, this`error, this`text, this`integer
      ensures Sound() && names == old(names) && (r, State()) == NumberRead(Doc(), old(State()))
    {
      hide PlacesOk, FramesOf, KeysOk, Json.AfterValue, NumberEnd, AsInt, Integral, Slice, InputOk;
      assert Here() <= |whole| by { Within(); }
      var problem := ReadNumber();
      if problem.Some? {
        r := Fail(problem.value);
        return;
      }
      integer := if Integral(text) then AsInt(text) else None;
      r := AfterValue(Number);
    }

    lemma Within()
      requires InputOk()
      ensures Here() <= |whole|
    {
    }

    method StringValue() returns (r: Event)
      requires Sound() && position < |input|
      modifies this`input, this`chunks, this`exhausted, this`position, this`places, this`error, this`text
      ensures Sound() && names == old(names) && (r, State()) == StringRead(Doc(), old(State()))
    {
      hide PlacesOk, FramesOf, KeysOk, Json.AfterValue, StringAt, InputOk;
      var problem := ReadString();
      if problem.Some? {
        r := Fail(problem.value);
        return;
      }
      r := AfterValue(String);
    }

    /** The value at the position, or its first event. */
    method Value() returns (r: Event)
      requires Sound() && error.None?
      modifies this`input, this`chunks, this`exhausted, this`position, this`places, this`error, this`text,
          this`integer, this`start
      ensures Sound() && names == old(names) && (r, State()) == ValueAt(Doc(), old(State()))
    {
      hide PlacesOk, FramesOf, KeysOk, StringRead, NumberRead, WordAt, Opened, InputOk, SpaceEnd;
      SkipSpace();
      start := offset + position;
      var first := Peek();
      if first.None? {
        r := Fail(UnexpectedEnd);
        return;
      }
      var b := first.value;
      if b == OPEN_BRACE {
        KeysCounted();
        r := Open(ObjectPlace(|keyEnds|, None, 0, true, false), BeginObject);
      } else if b == OPEN_BRACKET {
        r := Open(ArrayPlace(0, false), BeginArray);
      } else if b == QUOTE {
        r := StringValue();
      } else if b == 0x74 {
        r := ReadWord(TRUE, True);
      } else if b == 0x66 {
        r := ReadWord(FALSE, False);
      } else if b == 0x6E {
        r := ReadWord(NULL, Null);
      } else if b == MINUS || IsDigit(b) {
        r := NumberValue();
      } else {
        r := Fail(UnexpectedCharacter);
      }
    }

    /** The keys of a container that closed go. */
    method DropUnder(last: Place)
      requires BufferOk(keys, keyEnds, names) && PlaceOk(last, names) && PlacesOk(places, Under(last, names))
      modifies this`keys, this`keyEnds, this`names
      ensures BufferOk(keys, keyEnds, names) && names == Under(last, old(names))
    {
      hide PlacesOk, FramesOf, BufferOk, Remembers;
      if last.ObjectPlace? { DropKeys(last.first); }
    }

    /** The innermost container closes. */
    method CloseContainer() returns (r: Event)
      requires Sound() && places != [] && position < |input|
      modifies this`position, this`places, this`keys, this`keyEnds, this`names
      ensures Sound()
      ensures (r, State()) == Closed(old(State()), if old(places)[|old(places)| - 1].ArrayPlace? then EndArray
              else EndObject)
    {
      hide PlacesOk, FramesOf, BufferOk, InputOk, PlaceOk, Remembers, Under, Own, Json.AfterValue;
      Innermost(places, names);
      ghost var frames := FramesOf(places, names);
      Advance();
      var n := |places| - 1;
      var last := places[n];
      places := places[..n];
      DropUnder(last);
      assert FramesOf(places, names) == frames[..n];
      r := AfterValue(if last.ArrayPlace? then EndArray else EndObject);
    }

    /** The text becomes the key of the innermost object's next member. */
    method AddKey() returns (r: Event)
      requires Sound() && error.None? && places != [] && places[|places| - 1].ObjectPlace?
      modifies this`places, this`keys, this`keyEnds, this`names, this`error
      ensures Sound() && PlacesOk(old(places), old(names))
      ensures FramesOf(old(places), old(names))[|old(places)| - 1].Object?
      ensures (r, State()) == KeyAdded(Doc(), old(State()))
    {
      hide PlacesOk, FramesOf, BufferOk, InputOk, Remembers;
      var n := |places| - 1;
      ghost var frames := FramesOf(places, names);
      Innermost(places, names);
      var repeated := Remember();
      PushKey();
      var place := places[n].(expectKey := false, started := true);
      ghost var own := frames[n].keys;
      OwnGrows(old(names), place.first, text);
      Placed(places[..n], names, place);
      places := places[..n] + [place];
      assert FramesOf(places, names) == frames[..n] + [Object(own + [text], false, true)];
      if repeated { r := Fail(DuplicateKey(text)); } else { r := Key; }
    }

    /** A key's text and its colon. */
    method ReadKey() returns (problem: Option<Message>)
      requires Sound()
      modifies this`input, this`chunks, this`exhausted, this`position, this`text
      ensures Sound() && (problem, State()) == KeyRead(Doc(), old(State()))
    {
      hide PlacesOk, FramesOf, KeysOk, InputOk, StringAt, SpaceEnd;
      var quote := Peek();
      if quote != Some(QUOTE) { return Some(ExpectedKey); }
      problem := ReadString();
      if problem.Some? { return; }
      SkipSpace();
      var colon := Peek();
      if colon != Some(COLON) { return Some(ExpectedColon); }
      Advance();
      return None;
    }

    method NextKey() returns (r: Event)
      requires Sound() && error.None? && places != [] && places[|places| - 1].ObjectPlace?
      modifies this`input, this`chunks, this`exhausted, this`position, this`places, this`error, this`text
      modifies this`keys, this`keyEnds, this`names
      ensures Sound() && FramesOf(old(places), old(names))[|old(places)| - 1].Object?
      ensures (r, State()) == KeyNext(Doc(), old(State()))
    {
      hide PlacesOk, FramesOf, KeysOk, InputOk, KeyRead, KeyAdded;
      LastIsObject(places, names);
      var problem := ReadKey();
      if problem.Some? { r := Fail(problem.value); } else { r := AddKey(); }
    }

    /** The next member of the innermost container, or its end. */
    method Member() returns (r: Event)
      requires Sound() && error.None? && places != []
      requires places[|places| - 1].ObjectPlace? ==> places[|places| - 1].expectKey
      modifies this`input, this`chunks, this`exhausted, this`position, this`places, this`error, this`text,
          this`integer, this`start
      modifies this`keys, this`keyEnds, this`names
      ensures Sound() && FramesOf(old(places), old(names)) != []
      ensures var last := FramesOf(old(places), old(names))[|old(places)| - 1]; last.Object? ==> last.expectKey
      ensures (r, State()) == MemberNext(Doc(), old(State()))
    {
      hide PlacesOk, FramesOf, KeysOk, InputOk, SpaceEnd, Closed, ItemNext, KeyNext;
      LastIsObject(places, names);
      var last := places[|places| - 1];
      var isArray := last.ArrayPlace?;
      var next := Peek();
      if next == Some(if isArray then CLOSE_BRACKET else CLOSE_BRACE) {
        r := CloseContainer();
        return;
      }
      if last.started {
        if next != Some(COMMA) {
          r := Fail(if isArray then ExpectedCommaOrBracket else ExpectedCommaOrBrace);
          return;
        }
        Advance();
        SkipSpace();
      }
      if isArray { r := NextItem(); } else { r := NextKey(); }
    }

    /** The next item of an array, past its separator. */
    method NextItem() returns (r: Event)
      requires Sound() && error.None? && places != [] && places[|places| - 1].ArrayPlace?
      modifies this`input, this`chunks, this`exhausted, this`position, this`places, this`error, this`text,
          this`integer, this`start
      ensures Sound() && FramesOf(old(places), old(names)) != []
              && FramesOf(old(places), old(names))[|old(places)| - 1].Array?
      ensures (r, State()) == ItemNext(Doc(), old(State()))
    {
      hide PlacesOk, FramesOf, KeysOk, InputOk, ValueAt;
      LastIsObject(places, names);
      SetLast(ArrayPlace(places[|places| - 1].index + 1, true));
      r := Value();
    }

    /** What the reader keeps between two calls. */
    ghost predicate Valid()
      reads this
    {
      && Sound() && CarryOk() && PinnedOk() && start <= Here()
      && (error.None? ==> AlignedState(Doc(), State()))
      && (error.Some? ==> offset <= error.value.1 <= offset + |input|)
    }

    constructor (text: bytes, duplicates: bool)
      ensures Valid() && whole == text && this.duplicates == duplicates && !streamed && State() == START && pinned.None?
    {
      input, offset, position := text, 0, 0;
      streamed, chunks, exhausted := false, [], true;
      linesBefore, columnCarry, pinned := 0, 0, None;
      places, this.text, keys, keyEnds, integer := [], [], [], [], None;
      done, rootSeen, error, start := false, false, None, 0;
      this.duplicates := duplicates;
      whole, gone, names := text, [], [];
    }

    constructor FromStream(pieces: seq<bytes>, duplicates: bool)
      requires forall i :: 0 <= i < |pieces| ==> pieces[i] != []
      ensures Valid() && whole == Flat(pieces) && this.duplicates == duplicates && streamed && State() == START
              && pinned.None?
    {
      input, offset, position := [], 0, 0;
      streamed, chunks, exhausted := true, pieces, false;
      linesBefore, columnCarry, pinned := 0, 0, None;
      places, text, keys, keyEnds, integer := [], [], [], [], None;
      done, rootSeen, error, start := false, false, None, 0;
      this.duplicates := duplicates;
      whole, gone, names := Flat(pieces), [], [];
    }

    /** The root value, or what is after it. */
    method Root() returns (r: Event)
      requires Sound() && error.None? && places == []
      modifies this`input, this`chunks, this`exhausted, this`position, this`places, this`error, this`text,
          this`integer, this`start
      modifies this`done, this`rootSeen
      ensures Sound() && names == old(names) && (r, State()) == RootNext(Doc(), old(State()))
    {
      hide PlacesOk, FramesOf, KeysOk, InputOk, ValueAt;
      if !rootSeen {
        rootSeen := true;
        r := Value();
        return;
      }
      var next := Peek();
      if next.Some? {
        r := Fail(UnexpectedData);
        return;
      }
      done := true;
      return End;
    }

    /** The next event, past the spaces before it. */
    method Continue() returns (r: Event)
      requires Sound() && error.None? && !done
      modifies this`input, this`chunks, this`exhausted, this`position, this`places, this`error, this`text,
          this`integer, this`start
      modifies this`keys, this`keyEnds, this`names, this`done, this`rootSeen
      ensures Sound() && (r, State()) == Json.Next(Doc(), old(State()))
    {
      hide PlacesOk, FramesOf, KeysOk, InputOk, ValueAt, MemberNext, RootNext, SpaceEnd;
      SkipSpace();
      if places == [] {
        r := Root();
        return;
      }
      LastIsObject(places, names);
      var last := places[|places| - 1];
      if last.ArrayPlace? || last.expectKey { r := Member(); } else { r := Value(); }
    }

    method Next() returns (r: Event)
      requires Valid()
      modifies this
      ensures Valid() && (r, State()) == Json.Next(Doc(), old(State()))
      ensures old(offset) <= offset && old(Here()) <= Here() && pinned == old(pinned)
      ensures BeginsValue(r) ==> offset <= start
    {
      hide PlacesOk, FramesOf, KeysOk, InputOk, Json.Next, AlignedState, CarryOk, BeginsValue;
      Within();
      NextKeeps(Doc(), State());
      InputEnds();
      assert !BeginsValue(Error) && !BeginsValue(End) by { ValueEvents(); }
      if error.Some? { return Error; }
      if done { return End; }
      assert Aligned(whole, Here()) by { AlignedHere(Doc(), State()); }
      Compact();
      r := Continue();
      InputEnds();
    }

    lemma InputEnds()
      requires InputOk()
      ensures offset <= Here() <= offset + |input|
    {
    }

    /** Reads past a value that began with `event`; false when that fails. */
    method Skip(event: Event) returns (found: bool)
      requires Valid()
      modifies this
      ensures Valid() && (found, State()) == Json.Skip(Doc(), old(State()), event)
      ensures old(offset) <= offset && old(Here()) <= Here() && pinned == old(pinned)
    {
      hide PlacesOk, FramesOf, KeysOk, InputOk, Json.Next, AlignedState, Aligned, CarryOk;
      Within();
      if event != BeginArray && event != BeginObject { return true; }
      var depth := |places|;
      while true
        invariant Valid() && Here() <= |whole|
        invariant SkipFrom(Doc(), State(), depth) == SkipFrom(Doc(), old(State()), depth)
        invariant old(offset) <= offset && old(Here()) <= Here() && pinned == old(pinned)
        decreases |whole| - Here()
      {
        NextAdvances(Doc(), State());
        var next := Next();
        Within();
        if next == Error { return false; }
        if next == End {
          var _ := Fail(UnexpectedEnd);
          InputEnds();
          return false;
        }
        if (next == EndArray || next == EndObject) && |places| < depth { return true; }
      }
    }

    lemma StartAligned()
      requires Valid() && error.None?
      ensures Aligned(whole, start)
    {
      hide InputOk, PlacesOk, FramesOf, KeysOk, CarryOk;
    }

    /** The bytes a value that began with `event` spans, all of them held
        meanwhile. They have to be held when it is called, as they are after
        `Next` began the value. */
    method Raw(event: Event) returns (raw: bytes)
      requires Valid() && offset <= start && pinned.None?
      modifies this
      ensures Valid() && (raw, State()) == Json.Raw(Doc(), old(State()), event) && pinned.None?
    {
      hide PlacesOk, FramesOf, KeysOk, InputOk, Json.Skip, CarryOk, Aligned, AlignedState;
      Within();
      if error.None? { StartAligned(); }
      var begin := start;
      pinned := Some(begin);
      var found := Skip(event);
      pinned := None;
      InputEnds();
      if !found { return []; }
      Piece(begin - offset, position);
      return input[begin - offset..position];
    }

    /** A failure of the caller, which counts unless there was one before. */
    method Tell(message: bytes)
      requires Valid()
      modifies this`error
      ensures Valid() && State() == Json.Fail(old(State()), Told(message)).1
    {
      InputEnds();
      hide PlacesOk, FramesOf, KeysOk, InputOk, AlignedState, CarryOk, PinnedOk;
      var _ := Fail(Told(message));
    }

    /** Where the failure is, or the current position: its line and column in
        the whole text. */
    method Where() returns (line: nat, column: nat)
      requires Valid()
      ensures var at := if error.Some? then error.value.1 else Here();
        at <= |whole| && line == LineColumn(whole, at).0 && (Utf8.Valid(whole) ==> column == LineColumn(whole, at).1)
    {
      hide PlacesOk, FramesOf, KeysOk, InputOk, AlignedState, CarryOk, PinnedOk, LineColumn, Utf8.Valid;
      InputEnds();
      line, column := LineColumnOf(if error.Some? then error.value.1 else offset + position);
    }

    /** The path of the value at the position. */
    method Path(shown: bytes -> bytes) returns (path: bytes)
      requires Sound()
      ensures path == PathOf(State().frames, shown)
    {
      hide PlacesOk, FramesOf, InputOk, BufferOk, Firsts, Step;
      ghost var frames := State().frames;
      KeysCounted();
      var firsts := Collected(places);
      var passed := 0;
      path := [0x24];
      FirstsNone(places);
      for i := 0 to |places|
        invariant path == PathOf(frames[..i], shown)
        invariant passed == |Firsts(places[..i])|
      {
        FirstsAround(places, i);
        StepIs(places, names, i, shown);
        assert frames[..i + 1][..i] == frames[..i];
        var place := places[i];
        if place.ObjectPlace? {
          var end := if passed + 1 < |firsts| then firsts[passed + 1] else |keyEnds|;
          passed := passed + 1;
          if end != place.first {
            var key := KeyAt(end - 1);
            path := path + shown(key);
          } else {
            assert path + [] == path;
          }
        } else if place.started {
          path := path + ([OPEN_BRACKET] + Decimal.Digits(if place.index > 0 then place.index - 1 else 0)
              + [CLOSE_BRACKET]);
        } else {
          assert path + [] == path;
        }
      }
      assert frames[..|places|] == frames;
    }
  }

  lemma FirstsNone(places: seq<Place>)
    ensures Firsts(places[..0]) == []
  {
  }

  /** What a place adds to a path. */
  lemma StepIs(places: seq<Place>, names: seq<bytes>, i: nat, shown: bytes -> bytes)
    requires PlacesOk(places, names) && i < |places|
    ensures var end := KeysEnd(places, i, |names|);
      && (places[i].ObjectPlace? ==> places[i].first <= end <= |names|)
      && Step(FramesOf(places, names)[i], shown) == match places[i]
        case ObjectPlace(first, _, _, _, _) => (if end == first then [] else shown(names[end - 1]))
        case ArrayPlace(index, started) =>
          if started then [OPEN_BRACKET] + Decimal.Digits(if index > 0 then index - 1 else 0) + [CLOSE_BRACKET] else []
  {
    hide PlacesOk, FramesOf, KeysEnd;
    KeysBetween(places, names, i);
    var end := KeysEnd(places, i, |names|);
    if places[i].ObjectPlace? {
      var own := names[places[i].first..end];
      assert end > places[i].first ==> own[|own| - 1] == names[end - 1];
    }
  }

  method Collected(places: seq<Place>) returns (firsts: seq<nat>)
    ensures firsts == Firsts(places)
  {
    firsts := [];
    for i := 0 to |places|
      invariant firsts == Firsts(places[..i])
    {
      FirstsAdd(places[..i], [places[i]]);
      FirstsOne(places[i]);
      assert places[..i + 1] == places[..i] + [places[i]];
      if places[i].ObjectPlace? { firsts := firsts + [places[i].first]; }
    }
    assert places[..|places|] == places;
  }

  lemma FirstsAround(places: seq<Place>, i: nat)
    requires i < |places|
    ensures Firsts(places) == Firsts(places[..i + 1]) + Firsts(places[i + 1..])
    ensures |Firsts(places[..i + 1])| == |Firsts(places[..i])| + if places[i].ObjectPlace? then 1 else 0
    ensures places[i].ObjectPlace? ==> forall total ::
      KeysEnd(places, i, total)
      == if |Firsts(places[..i])| + 1 < |Firsts(places)| then Firsts(places)[|Firsts(places[..i])| + 1] else total
  {
    hide Firsts;
    assert places == places[..i + 1] + places[i + 1..];
    FirstsAdd(places[..i + 1], places[i + 1..]);
    assert places[..i + 1] == places[..i] + [places[i]];
    FirstsAdd(places[..i], [places[i]]);
    FirstsOne(places[i]);
  }

  lemma AlignedHere(d: Document, s: State)
    requires AlignedState(d, s)
    ensures Aligned(d.whole, s.position)
  {
  }

  /** The events that a value begins with. */
  predicate BeginsValue(event: Event) {
    event == Null || event == True || event == False || event == Number || event == String
    || event == BeginArray || event == BeginObject
  }

  lemma ValueEvents()
    ensures !BeginsValue(Error) && !BeginsValue(End)
  {
  }

  lemma ValueStarts(d: Document, s: State)
    ensures ValueAt(d, s).1.start == SpaceEnd(d.whole, s.position)
  {
    hide SpaceEnd, NumberEnd, StringAt, AsInt, Integral, Slice;
  }

  lemma MemberStarts(d: Document, s: State)
    requires s.frames != [] && (s.frames[|s.frames| - 1].Object? ==> s.frames[|s.frames| - 1].expectKey)
    ensures BeginsValue(MemberNext(d, s).0) ==> s.position <= MemberNext(d, s).1.start
  {
    hide SpaceEnd, ValueAt, StringAt;
    var n := |s.frames| - 1;
    var t := if s.frames[n].started then s.(position := SpaceEnd(d.whole, s.position + 1)) else s;
    if s.frames[n].Array? { ValueStarts(d, t.(frames := t.frames[..n] + [Array(t.frames[n].index + 1, true)])); }
  }

  /** A value that a call begins starts no earlier than the call. */
  lemma NextStarts(d: Document, s: State)
    ensures BeginsValue(Json.Next(d, s).0) && s.error.None? && !s.done ==> s.position <= Json.Next(d, s).1.start
  {
    hide SpaceEnd, ValueAt, MemberNext;
    var t := s.(position := SpaceEnd(d.whole, s.position));
    if t.frames == [] {
      ValueStarts(d, t.(rootSeen := true));
    } else {
      ValueStarts(d, t);
      if t.frames[|t.frames| - 1].Object? ==> t.frames[|t.frames| - 1].expectKey { MemberStarts(d, t); }
    }
  }

  /** What a call of `Next` keeps, and where a failure is. */
  lemma NextKeeps(d: Document, s: State)
    requires s.position <= |d.whole| && (s.error.None? ==> AlignedState(d, s))
    ensures s.error.Some? ==> Json.Next(d, s) == (Error, s)
    ensures s.error.None? && s.done ==> Json.Next(d, s) == (End, s)
    ensures var (event, t) := Json.Next(d, s);
      && (t.error.None? ==> AlignedState(d, t))
      && (s.error.None? && t.error.Some? ==> t.error.value.1 == t.position)
      && s.position <= t.position && (s.start <= s.position ==> t.start <= t.position)
      && (BeginsValue(event) && s.error.None? && !s.done ==> s.position <= t.start)
  {
    NextStarts(d, s);
    NextAdvances(d, s);
    hide MemberNext, ValueAt, RootNext, SpaceEnd, AlignedState, BeginsValue;
    if Json.Next(d, s).0 != Error { NextAligned(d, s); }
  }

  lemma OwnGrows(names: seq<bytes>, first: nat, key: bytes)
    requires first <= |names|
    ensures (names + [key])[first..] == names[first..] + [key] && (names + [key])[..first] == names[..first]
  {
  }

  lemma LastIsObject(places: seq<Place>, names: seq<bytes>)
    requires PlacesOk(places, names) && places != []
    ensures var last := FramesOf(places, names)[|places| - 1];
      match places[|places| - 1]
      case ObjectPlace(_, _, _, expectKey, started) => last.Object? && last.expectKey == expectKey
          && last.started == started
      case ArrayPlace(index, started) => last == Array(index, started)
  {
    hide PlacesOk, FramesOf;
    Innermost(places, names);
  }

  lemma SameKeys(place: Place, other: Place, names: seq<bytes>)
    requires PlaceOk(place, names) && place.ObjectPlace? && other.ObjectPlace?
    requires other.first == place.first && other.known == place.known && other.bits == place.bits
    ensures PlaceOk(other, names) && Under(other, names) == Under(place, names)
            && Own(other, names) == Own(place, names)
  {
  }

  lemma {:induction false} NoNewlines(s: bytes)
    requires NEWLINE !in s
    ensures Lines(s) == 0
  {
    if s != [] { NoNewlines(s[..|s| - 1]); }
  }

  lemma BufferCounts(keys: bytes, ends: seq<nat>, names: seq<bytes>)
    requires BufferOk(keys, ends, names)
    ensures |ends| == |names|
  {
  }

  /** A byte of a string that stands for itself. */
  predicate Plain(b: byte) { b != QUOTE && b != BACKSLASH && b >= 0x20 }

  /** Where the bytes that stand for themselves end. */
  method RunEnd(s: bytes, from: nat) returns (end: nat)
    requires from <= |s|
    ensures from <= end <= |s| && forall i :: from <= i < end ==> Plain(s[i])
    ensures end == |s| || !Plain(s[end])
  {
    end := from;
    while end < |s| && Plain(s[end])
      invariant from <= end <= |s|
      invariant forall i :: from <= i < end ==> Plain(s[i])
    {
      end := end + 1;
    }
  }

  lemma {:induction false} RunReads(w: bytes, p: nat, run: bytes, out: bytes)
    requires p + |run| <= |w| && run == Slice(w, p, p + |run|)
    requires forall i :: 0 <= i < |run| ==> Plain(run[i])
    ensures StringFrom(w, p, out) == StringFrom(w, p + |run|, out + run)
    decreases |run|
  {
    hide EscapeAt;
    if run == [] {
      assert out + run == out;
    } else {
      assert run[0] == w[p] && run[1..] == w[p + 1..p + |run|];
      RunReads(w, p + 1, run[1..], out + [run[0]]);
      assert out + [run[0]] + run[1..] == out + run;
    }
  }

  /** One step of a string. */
  lemma StringStep(w: bytes, p: nat, out: bytes)
    ensures StringFrom(w, p, out) ==
      if p >= |w| then Bad(Unterminated, p)
      else if w[p] == QUOTE then Got(out, p + 1)
      else if w[p] == BACKSLASH then
        (match EscapeAt(w, p + 1)
         case Bad(message, at) => Bad(message, at)
         case Got(c, at) => StringFrom(w, at, out + c))
      else if w[p] < 0x20 then Bad(ControlCharacter, p + 1)
      else StringFrom(w, p + 1, out + [w[p]])
  {
    hide EscapeAt;
  }

  function Problem<T>(scanned: Scanned<T>): Option<Message> {
    match scanned
    case Got(_, _) => None
    case Bad(message, _) => Some(message)
  }
}
