/** Base64 of RFC 4648, section 4 with padding and section 5 without (codec.rs). */
module Base64 {
  import opened Arith
  import opened Bytes

  const PAD: byte := 0x3D

  /** The character of a six-bit value. */
  function Letter(url: bool, value: nat): byte
    requires value < 64
  {
    if value < 26 then 0x41 + value
    else if value < 52 then 0x61 + (value - 26)
    else if value < 62 then 0x30 + (value - 52)
    else if value == 62 then (if url then 0x2D else 0x2B)
    else (if url then 0x5F else 0x2F)
  }

  /** The value of a character, if it is one of the alphabet's. */
  function Position(url: bool, c: byte): (r: Option<nat>)
    ensures r.Some? <==> exists v: nat :: v < 64 && Letter(url, v) == c
    ensures r.Some? ==> r.value < 64 && Letter(url, r.value) == c
  {
    var r :=
      if 0x41 <= c <= 0x5A then Some(c - 0x41)
      else if 0x61 <= c <= 0x7A then Some(c - 0x61 + 26)
      else if IsDigit(c) then Some(c - 0x30 + 52)
      else if c == (if url then 0x2D else 0x2B) then Some(62)
      else if c == (if url then 0x5F else 0x2F) then Some(63)
      else None;
    assert r.Some? ==> Letter(url, r.value) == c;
    r
  }

  lemma LetterPosition(url: bool, value: nat)
    requires value < 64
    ensures Position(url, Letter(url, value)) == Some(value) && Letter(url, value) != PAD
  {
  }

  // ---------------------------------------------------------------------
  // Encoding
  // ---------------------------------------------------------------------

  /** One to three bytes as the high bytes of 24 bits. */
  function Bits(chunk: bytes): (n: nat)
    requires 1 <= |chunk| <= 3
    ensures n < 0x100_0000
  {
    var high: nat, middle: nat, low: nat :=
      chunk[0], if |chunk| > 1 then chunk[1] else 0, if |chunk| > 2 then chunk[2] else 0;
    high * 0x1_0000 + middle * 0x100 + low
  }

  /** The letters of one to three bytes, without padding. */
  function Letters(url: bool, chunk: bytes): (r: bytes)
    requires 1 <= |chunk| <= 3
    ensures |r| == |chunk| + 1
  {
    var n := Bits(chunk);
    [Letter(url, n / 0x4_0000 % 64), Letter(url, n / 0x1000 % 64)]
    + (if |chunk| > 1 then [Letter(url, n / 64 % 64)] else [])
    + (if |chunk| > 2 then [Letter(url, n % 64)] else [])
  }

  function Pads(count: nat): (r: bytes)
    ensures |r| == count && forall i :: 0 <= i < count ==> r[i] == PAD
  {
    seq(count, _ => PAD)
  }

  function Encoded(data: bytes, url: bool): bytes {
    if data == [] then []
    else if |data| <= 3 then Letters(url, data) + (if url then [] else Pads(3 - |data|))
    else Letters(url, data[..3]) + Encoded(data[3..], url)
  }

  lemma EncodedFirst(data: bytes, url: bool)
    requires data != []
    ensures var k := if |data| < 3 then |data| else 3;
            Encoded(data, url) == Letters(url, data[..k]) + (if url then [] else Pads(3 - k)) + Encoded(data[k..], url)
  {
    if |data| <= 3 { assert data[..|data|] == data; }
  }

  method Encode(data: bytes, url: bool) returns (out: bytes)
    ensures out == Encoded(data, url)
  {
    hide Letters, Encoded;
    out := [];
    var at := 0;
    assert data[0..] == data;
    while at < |data|
      invariant at <= |data|
      invariant Encoded(data, url) == out + Encoded(data[at..], url)
    {
      var end := if at + 3 <= |data| then at + 3 else |data|;
      EncodedFirst(data[at..], url);
      assert data[at..][..end - at] == data[at..end] && data[at..][end - at..] == data[end..];
      out := out + Letters(url, data[at..end]);
      if !url { out := out + Pads(3 - (end - at)); }
      at := end;
    }
    assert data[at..] == [];
    Nothing(url);
  }

  lemma Nothing(url: bool)
    ensures Encoded([], url) == []
  {
  }

  // ---------------------------------------------------------------------
  // Decoding
  // ---------------------------------------------------------------------

  /** Where the text ends without the `=` after it. */
  function End(input: bytes): (end: nat)
    ensures end <= |input|
    ensures forall i :: end <= i < |input| ==> input[i] == PAD
    ensures end > 0 ==> input[end - 1] != PAD
  {
    if input != [] && input[|input| - 1] == PAD then End(input[..|input| - 1]) else |input|
  }

  /** The first character from `at` on that is none of the alphabet's. */
  function FirstBad(s: bytes, url: bool, at: nat): (r: nat)
    requires at <= |s|
    ensures at <= r <= |s|
    ensures forall i :: at <= i < r ==> Position(url, s[i]).Some?
    ensures r < |s| ==> Position(url, s[r]) == None
    decreases |s| - at
  {
    if at == |s| || Position(url, s[at]) == None then at else FirstBad(s, url, at + 1)
  }

  predicate Alphabetic(s: bytes, url: bool) { forall i :: 0 <= i < |s| ==> Position(url, s[i]).Some? }

  /** The number the letters write in base 64. */
  function Base64Value(s: bytes, url: bool): nat
    requires Alphabetic(s, url)
  {
    if s == [] then 0 else Base64Value(s[..|s| - 1], url) * 64 + Position(url, s[|s| - 1]).value
  }

  function ThreeBytes(n: nat): bytes { [n / 0x1_0000 % 0x100, n / 0x100 % 0x100, n % 0x100] }

  /** The bytes of letters in groups of four, a shorter group last. */
  function Content(s: bytes, url: bool): bytes
    requires Alphabetic(s, url) && |s| % 4 != 1
  {
    if |s| < 4 then Tail(s, url)
    else ThreeBytes(Base64Value(s[..4], url)) + Content(s[4..], url)
  }

  function Tail(s: bytes, url: bool): bytes
    requires Alphabetic(s, url) && |s| < 4 && |s| != 1
  {
    var n := Base64Value(s, url);
    if |s| == 0 then []
    else if |s| == 2 then [n / 16 % 0x100]
    else [n / 0x400 % 0x100, n / 4 % 0x100]
  }

  function Decoded(input: bytes, url: bool): Result<bytes, nat> {
    var end := End(input);
    if |input| - end > 2 || (|input| > end && |input| % 4 != 0) then Err(end)
    else
      var bad := FirstBad(input[..end], url, 0);
      if bad < end then Err(bad)
      else if end % 4 == 1 then Err(|input|)
      else Ok(Content(input[..end], url))
  }

  /** One more letter of a group. */
  lemma Extend(s: bytes, from: nat, offset: nat, url: bool)
    requires from <= offset < |s| && Alphabetic(s[..offset], url) && Position(url, s[offset]).Some?
    ensures Alphabetic(s[..offset + 1], url) && Alphabetic(s[from..offset], url) && Alphabetic(s[from..offset + 1], url)
    ensures Base64Value(s[from..offset + 1], url) == Base64Value(s[from..offset], url) * 64
            + Position(url, s[offset]).value
  {
    assert s[..offset + 1] == s[..offset] + [s[offset]];
    assert forall i :: 0 <= i < offset - from ==> s[from..offset][i] == s[..offset][from + i];
    var group := s[from..offset + 1];
    assert group == s[from..offset] + [s[offset]];
    assert group[..|group| - 1] == s[from..offset];
  }

  lemma StopsAt(s: bytes, url: bool, offset: nat)
    requires offset <= |s| && Alphabetic(s[..offset], url) && (offset < |s| ==> Position(url, s[offset]) == None)
    ensures FirstBad(s, url, 0) == offset
  {
    assert forall i :: 0 <= i < offset ==> s[i] == s[..offset][i];
  }

  /** The content of whole groups and of the letters read of the next. */
  ghost predicate Read(s: bytes, offset: nat, count: nat, n: nat, out: bytes, url: bool) {
    && count <= 3 && count <= offset <= |s| && (offset - count) % 4 == 0
    && Alphabetic(s[..offset], url) && Alphabetic(s[offset - count..offset], url)
        && Alphabetic(s[..offset - count], url)
    && n == Base64Value(s[offset - count..offset], url)
    && out == Content(s[..offset - count], url)
  }

  lemma ReadMore(s: bytes, offset: nat, count: nat, n: nat, out: bytes, url: bool)
    requires Read(s, offset, count, n, out, url)
    requires offset < |s| && Position(url, s[offset]).Some?
    ensures var next := n * 64 + Position(url, s[offset]).value;
            if count == 3 then Read(s, offset + 1, 0, 0, out + ThreeBytes(next), url)
            else Read(s, offset + 1, count + 1, next, out, url)
  {
    hide Position, Base64Value, ThreeBytes, Alphabetic, Content;
    Extend(s, offset - count, offset, url);
    if count == 3 {
      var group := s[offset - 3..offset + 1];
      ContentEnds(s[..offset - 3], group, url);
      assert s[..offset - 3] + group == s[..offset + 1];
      OneGroup(group, url);
      Empty(url);
      assert s[offset + 1..offset + 1] == [];
    }
  }

  lemma ReadNothing(s: bytes, url: bool)
    ensures Read(s, 0, 0, 0, [], url)
  {
    Empty(url);
    assert s[..0] == [] == s[0..0];
  }

  lemma ReadStops(s: bytes, offset: nat, count: nat, n: nat, out: bytes, url: bool)
    requires Read(s, offset, count, n, out, url) && offset < |s| && Position(url, s[offset]) == None
    ensures FirstBad(s, url, 0) == offset
  {
    StopsAt(s, url, offset);
  }

  lemma ReadAll(s: bytes, count: nat, n: nat, out: bytes, url: bool)
    requires Read(s, |s|, count, n, out, url)
    ensures FirstBad(s, url, 0) == |s| && Alphabetic(s, url)
    ensures count == 1 <==> |s| % 4 == 1
    ensures count == 0 ==> Content(s, url) == out
    ensures count == 2 ==> Content(s, url) == out + [n / 16 % 0x100]
    ensures count == 3 ==> Content(s, url) == out + [n / 0x400 % 0x100, n / 4 % 0x100]
  {
    hide Position, Base64Value, ThreeBytes, Alphabetic, Content;
    StopsAt(s, url, |s|);
    assert s[..|s|] == s;
    if count != 1 {
      assert s[..|s| - count] + s[|s| - count..|s|] == s;
      ContentEnds(s[..|s| - count], s[|s| - count..|s|], url);
      LastGroup(s[|s| - count..|s|], url);
    }
  }

  method Decode(input: bytes, url: bool) returns (r: Result<bytes, nat>)
    ensures r == Decoded(input, url)
  {
    hide Position, Content, ThreeBytes, FirstBad, End, Base64Value, Read;
    var end := End(input);
    if |input| - end > 2 || (|input| > end && |input| % 4 != 0) { return Err(end); }
    var s := input[..end];
    var out: bytes := [];
    var n: nat, count: nat, offset: nat := 0, 0, 0;
    ReadNothing(s, url);
    while offset < end
      invariant offset <= end && count <= 3
      invariant Read(s, offset, count, n, out, url)
    {
      var position := Position(url, s[offset]);
      if position == None {
        ReadStops(s, offset, count, n, out, url);
        return Err(offset);
      }
      ReadMore(s, offset, count, n, out, url);
      n := n * 64 + position.value;
      count := count + 1;
      offset := offset + 1;
      if count == 4 {
        out := out + ThreeBytes(n);
        n, count := 0, 0;
      }
    }
    ReadAll(s, count, n, out, url);
    if count == 1 { return Err(|input|); }
    if count == 2 {
      out := out + [n / 16 % 0x100];
    } else if count == 3 {
      out := out + [n / 0x400 % 0x100, n / 4 % 0x100];
    }
    return Ok(out);
  }

  lemma Empty(url: bool)
    ensures Alphabetic([], url) && Base64Value([], url) == 0 && Content([], url) == []
  {
  }

  lemma OneGroup(group: bytes, url: bool)
    requires |group| == 4 && Alphabetic(group, url)
    ensures Content(group, url) == ThreeBytes(Base64Value(group, url))
  {
    assert group[..4] == group;
  }

  lemma LastGroup(group: bytes, url: bool)
    requires |group| < 4 && |group| != 1 && Alphabetic(group, url)
    ensures var n := Base64Value(group, url);
            Content(group, url) == (if |group| == 0 then [] else if |group| == 2 then [n / 16 % 0x100]
                                    else [n / 0x400 % 0x100, n / 4 % 0x100])
  {
  }

  /** Content is that of its groups, one after another. */
  lemma {:induction false} ContentEnds(s: bytes, t: bytes, url: bool)
    requires |s| % 4 == 0 && |t| % 4 != 1 && Alphabetic(s, url) && Alphabetic(t, url)
    ensures Alphabetic(s + t, url) && Content(s + t, url) == Content(s, url) + Content(t, url)
  {
    hide Position, Base64Value, Tail, ThreeBytes;
    if s == [] {
      Empty(url);
      assert s + t == t;
    } else {
      assert (s + t)[..4] == s[..4] && (s + t)[4..] == s[4..] + t;
      ContentEnds(s[4..], t, url);
    }
  }

  // ---------------------------------------------------------------------
  // Decoding what was encoded
  // ---------------------------------------------------------------------

  /** The encoding without its padding. */
  function Unpadded(data: bytes, url: bool): bytes {
    if data == [] then []
    else if |data| <= 3 then Letters(url, data)
    else Letters(url, data[..3]) + Unpadded(data[3..], url)
  }

  /** The encoding is its letters and, with padding, one or two `=` that fill
      the last group. */
  lemma {:induction false} EncodedParts(data: bytes, url: bool)
    ensures Encoded(data, url) == Unpadded(data, url) + (if url then [] else Pads((3 - |data| % 3) % 3))
  {
    hide Letters;
    if |data| > 3 {
      var rest := data[3..];
      EncodedParts(rest, url);
      assert |data| % 3 == |rest| % 3;
      var pads := if url then [] else Pads((3 - |rest| % 3) % 3);
      assert Letters(url, data[..3]) + (Unpadded(rest, url) + pads) ==
          (Letters(url, data[..3]) + Unpadded(rest, url)) + pads;
    } else if data == [] {
      assert Pads(0) == [];
    } else if |data| == 3 {
      assert Pads(0) == [];
    }
  }

  lemma {:induction false} UnpaddedLength(data: bytes, url: bool)
    ensures |Unpadded(data, url)| % 4 == (if |data| % 3 == 0 then 0 else |data| % 3 + 1)
  {
    hide Letters;
    if |data| > 3 {
      UnpaddedLength(data[3..], url);
      assert |data| % 3 == |data[3..]| % 3;
    }
  }

  lemma BitsParts(n: nat)
    requires n < 0x100_0000
    ensures ((n / 0x4_0000 % 64 * 64 + n / 0x1000 % 64) * 64 + n / 64 % 64) * 64 + n % 64 == n
    ensures n / 0x4_0000 % 64 * 64 + n / 0x1000 % 64 == n / 0x1000
    ensures (n / 0x4_0000 % 64 * 64 + n / 0x1000 % 64) * 64 + n / 64 % 64 == n / 64
  {
  }

  lemma ValueOf(s: bytes, url: bool, a: nat, b: nat)
    requires a < 64 && b < 64 && |s| >= 2 && s[0] == Letter(url, a) && s[1] == Letter(url, b) && Alphabetic(s, url)
    ensures |s| == 2 ==> Base64Value(s, url) == a * 64 + b
    ensures |s| == 3 ==> Base64Value(s, url) == (a * 64 + b) * 64 + Position(url, s[2]).value
    ensures |s| == 4 ==>
            Base64Value(s, url) == ((a * 64 + b) * 64 + Position(url, s[2]).value) * 64 + Position(url, s[3]).value
  {
    hide Letter, Position;
    LetterPosition(url, a);
    LetterPosition(url, b);
    assert Base64Value(s[..1], url) == a by { assert s[..1][..0] == []; }
    assert s[..2] == [s[0], s[1]] && s[..2][..1] == [s[0]] && [s[0]][..0] == [];
    assert |s| == 2 ==> s[..2] == s;
    assert |s| >= 3 ==> s[..3][..2] == s[..2];
    assert |s| == 4 ==> s[..4] == s;
    assert |s| == 3 ==> s[..3] == s;
  }

  /** The letters of a chunk write its bits, as many as its bytes need. */
  lemma LettersValue(url: bool, chunk: bytes)
    requires 1 <= |chunk| <= 3
    ensures Alphabetic(Letters(url, chunk), url)
    ensures var n := Bits(chunk);
            Base64Value(Letters(url, chunk), url) ==
                (if |chunk| == 3 then n else if |chunk| == 2 then n / 64 else n / 0x1000)
  {
    hide Letter, Position, Bits, Base64Value;
    var n := Bits(chunk);
    BitsParts(n);
    LetterPosition(url, n / 0x4_0000 % 64);
    LetterPosition(url, n / 0x1000 % 64);
    LetterPosition(url, n / 64 % 64);
    LetterPosition(url, n % 64);
    var s := Letters(url, chunk);
    ValueOf(s, url, n / 0x4_0000 % 64, n / 0x1000 % 64);
  }

  lemma BitsBack(chunk: bytes)
    requires 1 <= |chunk| <= 3
    ensures var n := Bits(chunk);
            && (|chunk| == 1 ==> [n / 0x1000 / 16 % 0x100] == chunk)
            && (|chunk| == 2 ==> [n / 64 / 0x400 % 0x100, n / 64 / 4 % 0x100] == chunk)
            && (|chunk| == 3 ==> ThreeBytes(n) == chunk)
  {
    var high: nat, middle: nat, low: nat :=
      chunk[0], if |chunk| > 1 then chunk[1] else 0, if |chunk| > 2 then chunk[2] else 0;
    var n := Bits(chunk);
    Euclid(n, 0x1_0000, high, middle * 0x100 + low);
    Euclid(n, 0x100, high * 0x100 + middle, low);
    Euclid(high * 0x100 + middle, 0x100, high, middle);
  }

  lemma ChunkBack(url: bool, chunk: bytes)
    requires 1 <= |chunk| <= 3
    ensures Alphabetic(Letters(url, chunk), url) && Content(Letters(url, chunk), url) == chunk
  {
    hide Letter, Position, Bits, Base64Value, Letters, Content, ThreeBytes;
    LettersValue(url, chunk);
    BitsBack(chunk);
    if |chunk| == 3 { OneGroup(Letters(url, chunk), url); } else { LastGroup(Letters(url, chunk), url); }
  }

  lemma {:induction false} ContentOfUnpadded(data: bytes, url: bool)
    ensures Alphabetic(Unpadded(data, url), url) && |Unpadded(data, url)| % 4 != 1
    ensures Content(Unpadded(data, url), url) == data
  {
    UnpaddedLength(data, url);
    hide Letters, Content, Alphabetic;
    if data == [] {
      Empty(url);
    } else if |data| <= 3 {
      ChunkBack(url, data);
    } else {
      ChunkBack(url, data[..3]);
      ContentOfUnpadded(data[3..], url);
      ContentEnds(Letters(url, data[..3]), Unpadded(data[3..], url), url);
      assert data[..3] + data[3..] == data;
    }
  }

  lemma {:induction false} EndOfPadded(s: bytes, pads: nat, url: bool)
    requires Alphabetic(s, url)
    ensures End(s + Pads(pads)) == |s|
  {
    var t := s + Pads(pads);
    if pads == 0 {
      assert t == s;
      if s != [] { assert Position(url, s[|s| - 1]).Some?; }
    } else {
      assert t[..|t| - 1] == s + Pads(pads - 1);
      EndOfPadded(s, pads - 1, url);
    }
  }

  lemma DecodesLetters(data: bytes, url: bool, pads: nat)
    requires pads <= 2 && (pads > 0 ==> (|Unpadded(data, url)| + pads) % 4 == 0)
    ensures Decoded(Unpadded(data, url) + Pads(pads), url) == Ok(data)
  {
    hide Content, Unpadded;
    var s := Unpadded(data, url);
    UnpaddedLength(data, url);
    ContentOfUnpadded(data, url);
    EndOfPadded(s, pads, url);
    assert (s + Pads(pads))[..|s|] == s;
    StopsAt(s, url, |s|);
    assert s[..|s|] == s;
  }

  /** Decoding what was encoded, in either alphabet, gives the data back;
      and the padding may be left out. */
  lemma RoundTrip(data: bytes, url: bool)
    ensures Decoded(Encoded(data, url), url) == Ok(data)
    ensures Decoded(Unpadded(data, url), url) == Ok(data)
  {
    hide Encoded, Unpadded, Decoded;
    EncodedParts(data, url);
    UnpaddedLength(data, url);
    var s := Unpadded(data, url);
    assert Pads(0) == [];
    DecodesLetters(data, url, if url then 0 else (3 - |data| % 3) % 3);
    DecodesLetters(data, url, 0);
    assert s + Pads(0) == s;
    assert s + [] == s;
  }

  lemma DecodesNothing(url: bool)
    ensures Decoded([], url) == Ok([])
  {
  }

  /** Exactly the texts decode that are letters of the alphabet, not one past
      whole groups, and then no padding or the `=` that fill the last group. */
  lemma Accepts(input: bytes, url: bool)
    ensures Decoded(input, url).Ok? <==>
            exists k :: && 0 <= k <= |input| && Alphabetic(input[..k], url) && k % 4 != 1
                        && (forall i :: k <= i < |input| ==> input[i] == PAD)
                        && (k == |input| || (|input| - k <= 2 && |input| % 4 == 0))
  {
    var end := End(input);
    if Decoded(input, url).Ok? {
      assert Alphabetic(input[..end], url);
    }
    forall k | && 0 <= k <= |input| && Alphabetic(input[..k], url) && k % 4 != 1
               && (forall i :: k <= i < |input| ==> input[i] == PAD)
               && (k == |input| || (|input| - k <= 2 && |input| % 4 == 0))
      ensures Decoded(input, url).Ok?
    {
      assert k > 0 ==> Position(url, input[..k][k - 1]).Some? && input[k - 1] != PAD;
      assert k == end;
      StopsAt(input[..end], url, end);
      assert input[..end][..end] == input[..end];
    }
  }
}
