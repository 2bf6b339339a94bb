/** Each head and scalar the CBOR writer writes is read back (cbor.rs). */
module CborReading {
  import opened Bytes
  import opened Cbor
  import opened CborEncoding
  import opened Decimal
  import opened Floats
  import opened InstantText
  import Instants
  import Utf8
  import Wide

  /** The bytes `b` are next at `at`. */
  predicate Holds(input: Input, at: nat, b: bytes) {
    at + |b| <= |input.bytes| && input.bytes[at..at + |b|] == b
  }

  lemma HoldsParts(input: Input, at: nat, a: bytes, b: bytes)
    ensures Holds(input, at, a + b) <==> Holds(input, at, a) && Holds(input, at + |a|, b)
  {
    var n := |a| + |b|;
    if Holds(input, at, a + b) {
      var whole := input.bytes[at..at + n];
      assert whole[..|a|] == a && whole[|a|..] == b;
      assert whole[..|a|] == input.bytes[at..at + |a|];
      assert whole[|a|..] == input.bytes[at + |a|..at + n];
    }
    if Holds(input, at, a) && Holds(input, at + |a|, b) {
      assert input.bytes[at..at + n] == input.bytes[at..at + |a|] + input.bytes[at + |a|..at + n];
    }
  }

  function Moved(s: Decoding, count: nat): Decoding { s.(at := s.at + count) }

  lemma TakeReads(input: Input, s: Decoding, b: bytes)
    requires Holds(input, s.at, b)
    ensures Take(input, s, |b|) == Ok((b, Moved(s, |b|)))
  {
  }

  lemma NumberReads(input: Input, s: Decoding, n: nat, size: nat)
    requires n < Wide.Pow256(size) && Holds(input, s.at, Wide.Written(n, size))
    ensures NumberAt(input, s, size) == Ok((n, Moved(s, size)))
  {
    hide Take, Holds, Wide.Written, Wide.Number, Wide.Pow256;
    TakeReads(input, s, Wide.Written(n, size));
    Wide.WrittenReads(n, size);
  }

  lemma Pow256s()
    ensures Wide.Pow256(1) == 0x100 && Wide.Pow256(2) == 0x1_0000 && Wide.Pow256(4) == 0x1_0000_0000
    ensures Wide.Pow256(8) == 0x1_0000_0000_0000_0000
    ensures Wide.Pow256(16) == 0x1_0000_0000_0000_0000_0000_0000_0000_0000
  {
  }

  /** The additional information of the shortest head. */
  function Info(argument: nat): nat {
    if argument <= 23 then argument
    else if argument <= 0xFF then 24
    else if argument <= 0xFFFF then 25
    else if argument <= 0xFFFF_FFFF then 26
    else 27
  }

  /** A head is read as its major type and argument. */
  lemma HeadReads(input: Input, s: Decoding, major: nat, argument: nat)
    requires major < 7 && argument < U64 && Holds(input, s.at, Head(major, argument))
    ensures Within(input, s) && Take(input, s, 1) == Ok(([major * 32 + Info(argument)], Moved(s, 1)))
    ensures Argument(input, Moved(s, 1), Info(argument), s.at) ==
            Ok((Some(argument), Moved(s, |Head(major, argument)|)))
  {
    hide Holds, Take, Wide.Written;
    var first: bytes := [major * 32 + Info(argument)];
    var rest := if argument <= 23 then [] else Wide.Written(argument, Size(Info(argument)));
    assert Head(major, argument) == first + rest;
    HoldsParts(input, s.at, first, rest);
    TakeReads(input, s, first);
    Pow256s();
    if argument > 23 { NumberReads(input, Moved(s, 1), argument, Size(Info(argument))); }
  }

  /** An item that begins with a head is the one the head announces. */
  lemma HeadItem(input: Input, s: Decoding, major: nat, argument: nat)
    requires major < 7 && argument < U64 && Holds(input, s.at, Head(major, argument))
    ensures Within(input, s) && Within(input, Moved(s, |Head(major, argument)|))
    ensures ItemAt(input, s) == ItemOf(input, Moved(s, |Head(major, argument)|), major, Some(argument), s.at)
  {
    hide Take, Argument, Break, Simple, ItemOf, Holds, Head;
    HeadReads(input, s, major, argument);
    HoldsWithin(input, s, Head(major, argument));
    InfoSmall(argument);
    HeadParts(major, Info(argument));
  }

  lemma HeadParts(major: nat, info: nat)
    requires major < 7 && info < 32
    ensures major * 32 + info < 0xFF && (major * 32 + info) / 32 == major && (major * 32 + info) % 32 == info
  {
  }

  lemma InfoSmall(argument: nat)
    ensures Info(argument) < 28
  {
  }

  /** A string: its head, then its content. */
  lemma BytesItemReads(input: Input, s: Decoding, content: bytes)
    requires |content| < U64 && Holds(input, s.at, Head(2, |content|) + content)
    ensures Within(input, s)
    ensures ItemAt(input, s) == Ok((Some(BytesItem(content)), Moved(s, |Head(2, |content|)| + |content|)))
  {
    hide Holds, Head, ItemAt, Take;
    HoldsParts(input, s.at, Head(2, |content|), content);
    HeadItem(input, s, 2, |content|);
    TakeReads(input, Moved(s, |Head(2, |content|)|), content);
  }

  lemma TextItemReads(input: Input, s: Decoding, text: bytes)
    requires |text| < U64 && Utf8.Valid(text) && Holds(input, s.at, TextBytes(text))
    ensures Within(input, s)
    ensures ItemAt(input, s) == Ok((Some(TextItem(text)), Moved(s, |TextBytes(text)|)))
  {
    hide Holds, Head, ItemAt, Take, Utf8.Valid;
    HoldsParts(input, s.at, Head(3, |text|), text);
    HeadItem(input, s, 3, |text|);
    TakeReads(input, Moved(s, |Head(3, |text|)|), text);
  }

  /** The item an integer's bytes are. */
  function IntegerItem(n: int): Item {
    if n >= 0 then AsInt(n) else AsNegative(-1 - n)
  }

  lemma IntegerItemReads(input: Input, s: Decoding, n: int)
    requires Abs(n) < U128 && Holds(input, s.at, IntegerBytes(n < 0, Abs(n)))
    ensures Within(input, s)
    ensures ItemAt(input, s) == Ok((Some(IntegerItem(n)), Moved(s, |IntegerBytes(n < 0, Abs(n))|)))
  {
    hide Holds, Head, ItemAt, Wide.Significant, Wide.Written;
    var argument := if n < 0 then Abs(n) - 1 else n;
    if argument < U64 {
      HeadItem(input, s, if n < 0 then 1 else 0, argument);
    } else {
      WideReads(input, s, n < 0, argument);
    }
  }

  /** An integer past 64 bits: its tag, then its bytes. */
  lemma WideReads(input: Input, s: Decoding, negative: bool, argument: nat)
    requires argument < U128
    requires var significant := Wide.Significant(Wide.Written(argument, 16));
      Holds(input, s.at, Head(6, if negative then 3 else 2) + Head(2, |significant|) + significant)
    ensures Within(input, s)
    ensures var significant := Wide.Significant(Wide.Written(argument, 16));
      ItemAt(input, s) == Ok((Some(if negative then AsNegative(argument) else AsInt(argument)),
        Moved(s, |Head(6, if negative then 3 else 2) + Head(2, |significant|) + significant|)))
  {
    hide Holds, Head, ItemAt, Wide.Significant, Wide.Written, Wide.Number, Wide.Pow256;
    var significant := Wide.Significant(Wide.Written(argument, 16));
    var tag := if negative then 3 else 2;
    var head := Head(6, tag);
    assert head + Head(2, |significant|) + significant == head + (Head(2, |significant|) + significant);
    HoldsParts(input, s.at, head, Head(2, |significant|) + significant);
    HeadItem(input, s, 6, tag);
    BytesItemReads(input, Moved(s, |head|), significant);
    Pow256s();
    Wide.WrittenReads(argument, 16);
    Wide.SignificantReads(Wide.Written(argument, 16));
  }

  /** The decoder reads back the very float: every size it is written in is
      the same number. */
  lemma FloatItemReads(input: Input, s: Decoding, bits: double)
    requires Holds(input, s.at, FloatBytes(bits))
    ensures Within(input, s)
    ensures ItemAt(input, s) == Ok((Some(FloatItem(Double(bits))), Moved(s, |FloatBytes(bits)|)))
  {
    hide Holds, ItemAt, Double, Single, Half, ToSingle, ToHalf, Wide.Written;
    Pow256s();
    if Double(bits) == NaN {
      NaNReads();
      assert [SizedHead(2)] + [0x7E, 0x00] == FloatBytes(bits);
      SizedReads(input, s, 2, 0x7E00);
    } else {
      match ToSingle(bits)
      case None => SizedReads(input, s, 8, bits);
      case Some(single) =>
        ToSingleIsEqual(bits);
        match ToHalf(single)
        case Some(half) =>
          ToHalfIsEqual(single);
          SizedReads(input, s, 2, half);
        case None => SizedReads(input, s, 4, single);
    }
  }

  lemma NaNReads()
    ensures Half(0x7E00) == NaN && Wide.Written(0x7E00, 2) == [0x7E, 0x00]
  {
    assert Wide.Written(0x7E, 1) == [0x7E];
  }

  /** The head of a float of 2, 4 or 8 bytes. */
  function SizedHead(size: nat): byte { if size == 2 then 0xF9 else if size == 4 then 0xFA else 0xFB }

  function Sized(size: nat, bits: double): Floats.Number {
    if size == 2 then Half(bits % F16) else if size == 4 then Single(bits % F32) else Double(bits)
  }

  lemma SizedReads(input: Input, s: Decoding, size: nat, bits: double)
    requires size == 2 || size == 4 || size == 8
    requires bits < Wide.Pow256(size) && Holds(input, s.at, [SizedHead(size)] + Wide.Written(bits, size))
    ensures Within(input, s)
    ensures ItemAt(input, s) == Ok((Some(FloatItem(Sized(size, bits))), Moved(s, 1 + size)))
  {
    hide Holds, NumberAt, Take, Double, Single, Half, Wide.Written, Wide.Pow256, Break, Argument, ItemOf;
    HoldsParts(input, s.at, [SizedHead(size)], Wide.Written(bits, size));
    HoldsWithin(input, s, [SizedHead(size)]);
    TakeReads(input, s, [SizedHead(size)]);
    NumberReads(input, Moved(s, 1), bits, size);
  }

  lemma HoldsWithin(input: Input, s: Decoding, b: bytes)
    requires Holds(input, s.at, b)
    ensures Within(input, s) && Within(input, Moved(s, |b|))
  {
  }

  /** One byte that says it all. */
  lemma SimpleReads(input: Input, s: Decoding, head: byte)
    requires 0xF4 <= head <= 0xF6 && Holds(input, s.at, [head])
    ensures Within(input, s)
    ensures ItemAt(input, s) == Ok((Some(if head == 0xF6 then NullItem else BoolItem(head == 0xF5)), Moved(s, 1)))
  {
    hide Break, Argument, ItemOf;
  }

  /** A date and time is read back exactly when its UTC year has the four
      digits its text needs. */
  lemma DateTimeReads(input: Input, s: Decoding, text: bytes)
    requires Instants.Parsed(text).Some? && Holds(input, s.at, DateTimeBytes(Shown(text)))
    ensures Within(input, s)
    ensures if Instants.FourDigitYear(Instants.Parsed(text).value.0)
      then ItemAt(input, s) == Ok((None, Dated(Moved(s, |DateTimeBytes(Shown(text))|), Shown(text))))
      else ItemAt(input, s).Err?
  {
    hide Holds, Head, ItemAt, Instants.Parsed, Instants.Format, Instants.FourDigitYear, Dated, TextBytes;
    var shown := Shown(text);
    HoldsParts(input, s.at, [0xC0], TextBytes(shown));
    assert Head(6, 0) == [0xC0] by { TagZero(); }
    HeadItem(input, s, 6, 0);
    FormatShort(text);
    ParsedBound(text);
    TextItemReads(input, Moved(s, 1), shown);
    var (seconds, nanos) := Instants.Parsed(text).value;
    Instants.RoundTrip(seconds, nanos);
  }

  lemma TagZero()
    ensures Head(6, 0) == [0xC0]
  {
  }
}
