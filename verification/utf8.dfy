/**
 UTF-8, as the runtime's texts are: what is valid, where it may be cut, its
 characters and their UTF-16 code units.
 */
module Utf8 {
  import opened Bytes

  predicate Continues(b: byte) { 0x80 <= b < 0xC0 }

  /** How many bytes the first byte of a character announces; 0 for none. */
  function Announced(b: byte): nat {
    if b < 0x80 then 1
    else if b < 0xC2 then 0
    else if b < 0xE0 then 2
    else if b < 0xF0 then 3
    else if b < 0xF5 then 4
    else 0
  }

  /** Whether `second` may follow `first`: no long form, no surrogate, nothing
      past U+10FFFF. */
  predicate Second(first: byte, second: byte) {
    && Continues(second)
    && (first == 0xE0 ==> second >= 0xA0)
    && (first == 0xED ==> second < 0xA0)
    && (first == 0xF0 ==> second >= 0x90)
    && (first == 0xF4 ==> second < 0x90)
  }

  /** How many bytes the character `s` starts with takes; 0 when it starts with
      none. */
  function CharLength(s: bytes): (n: nat)
    ensures n <= |s| && n <= 4
  {
    if s == [] then 0
    else
      var n := Announced(s[0]);
      if n == 0 || |s| < n || (n > 1 && !Second(s[0], s[1]))
         || (n > 2 && !Continues(s[2])) || (n > 3 && !Continues(s[3])) then 0
      else n
  }

  predicate Valid(s: bytes) {
    s == [] || (CharLength(s) > 0 && Valid(s[CharLength(s)..]))
  }

  lemma CharStays(s: bytes, t: bytes)
    requires CharLength(s) > 0
    ensures CharLength(s + t) == CharLength(s)
    ensures (s + t)[CharLength(s)..] == s[CharLength(s)..] + t
  {
  }

  lemma {:induction false} ValidAppends(s: bytes, t: bytes)
    requires Valid(s)
    ensures Valid(s + t) <==> Valid(t)
  {
    if s == [] {
      assert s + t == t;
    } else {
      CharStays(s, t);
      ValidAppends(s[CharLength(s)..], t);
    }
  }

  /** Only the first byte of a character begins one. */
  lemma RestContinues(s: bytes)
    ensures forall k :: 0 < k < CharLength(s) ==> Continues(s[k])
  {
  }

  /** Valid text may be cut before any byte that begins a character. */
  lemma {:induction false} ValidCuts(s: bytes, t: bytes)
    requires Valid(s + t) && (t == [] || !Continues(t[0]))
    ensures Valid(s) && Valid(t)
  {
    if s == [] {
      assert s + t == t;
    } else {
      var n := CharLength(s + t);
      RestContinues(s + t);
      assert t != [] ==> (s + t)[|s|] == t[0];
      assert s[..n] == (s + t)[..n];
      assert (s + t)[n..] == s[n..] + t;
      assert CharLength(s) == n;
      ValidCuts(s[n..], t);
    }
  }

  /** And after any ASCII byte. */
  lemma ValidAfterAscii(s: bytes, t: bytes)
    requires Valid(s + t) && s != [] && s[|s| - 1] < 0x80
    ensures Valid(s) && Valid(t)
  {
    var front, last := s[..|s| - 1], [s[|s| - 1]];
    assert s + t == front + (last + t);
    ValidCuts(front, last + t);
    assert (last + t)[1..] == t;
    ValidAppends(front, last);
    assert last[1..] == [];
    assert s == front + last;
  }

  lemma {:induction false} AsciiIsValid(s: bytes)
    requires forall i :: 0 <= i < |s| ==> s[i] < 0x80
    ensures Valid(s)
  {
    if s != [] { AsciiIsValid(s[1..]); }
  }

  // ---------------------------------------------------------------------
  // Characters
  // ---------------------------------------------------------------------

  predicate IsScalar(code: nat) { code < 0xD800 || 0xE000 <= code < 0x11_0000 }

  /** `char::encode_utf8`. */
  function Encoded(code: nat): bytes
    requires code < 0x11_0000
  {
    var sixes := code / 0x40;
    var twelves := sixes / 0x40;
    if code < 0x80 then [code]
    else if code < 0x800 then [0xC0 + sixes, Tail(code)]
    else if code < 0x1_0000 then [0xE0 + twelves, Tail(sixes), Tail(code)]
    else [0xF0 + twelves / 0x40, Tail(twelves), Tail(sixes), Tail(code)]
  }

  function Tail(code: nat): byte { 0x80 + code % 0x40 }

  function Bits(b: byte): nat
    requires Continues(b)
  {
    var n: int := b;
    n - 0x80
  }

  /** The bits a first byte gives, above its mark. */
  function Lead(b: byte, mark: nat): nat
    requires mark <= b
  {
    var n: int := b;
    n - mark
  }

  /** The character `s` starts with. */
  function First(s: bytes): nat
    requires CharLength(s) > 0
  {
    match CharLength(s)
    case 1 => s[0]
    case 2 => Lead(s[0], 0xC0) * 0x40 + Bits(s[1])
    case 3 => (Lead(s[0], 0xE0) * 0x40 + Bits(s[1])) * 0x40 + Bits(s[2])
    case _ => ((Lead(s[0], 0xF0) * 0x40 + Bits(s[1])) * 0x40 + Bits(s[2])) * 0x40 + Bits(s[3])
  }

  /** Every character is encoded as valid text, and read back. */
  lemma EncodedReads(code: nat)
    requires IsScalar(code)
    ensures Valid(Encoded(code)) && CharLength(Encoded(code)) == |Encoded(code)| > 0
    ensures First(Encoded(code)) == code
  {
    var s := Encoded(code);
    EncodedLength(code);
    assert s[|s|..] == [];
  }

  lemma EncodedLength(code: nat)
    requires IsScalar(code)
    ensures CharLength(Encoded(code)) == |Encoded(code)|
  {
    var sixes := code / 0x40;
    var twelves := sixes / 0x40;
    assert 0x40 * sixes <= code < 0x40 * sixes + 0x40;
    assert 0x40 * twelves <= sixes < 0x40 * twelves + 0x40;
    if code < 0x80 {
    } else if code < 0x800 {
      assert Announced(0xC0 + sixes) == 2;
    } else if code < 0x1_0000 {
      assert Second(0xE0 + twelves, Tail(sixes));
    } else {
      var top := twelves / 0x40;
      assert 0x40 * top <= twelves < 0x40 * top + 0x40;
      assert Second(0xF0 + top, Tail(twelves));
    }
  }

  /** What a character's bytes say encodes as those bytes. */
  lemma FirstEncodes(s: bytes)
    requires CharLength(s) > 0
    ensures IsScalar(First(s)) && Encoded(First(s)) == s[..CharLength(s)]
  {
    if CharLength(s) == 2 {
      Join(Lead(s[0], 0xC0), s[1]);
    } else if CharLength(s) == 3 {
      Join(Lead(s[0], 0xE0), s[1]);
      Join(Lead(s[0], 0xE0) * 0x40 + Bits(s[1]), s[2]);
    } else if CharLength(s) == 4 {
      Join(Lead(s[0], 0xF0), s[1]);
      Join(Lead(s[0], 0xF0) * 0x40 + Bits(s[1]), s[2]);
      Join((Lead(s[0], 0xF0) * 0x40 + Bits(s[1])) * 0x40 + Bits(s[2]), s[3]);
    }
  }

  /** Six bits more are taken off again. */
  lemma Join(high: nat, b: byte)
    requires Continues(b)
    ensures var n := high * 0x40 + Bits(b); n / 0x40 == high && Tail(n) == b
  {
  }

  function Codes(s: bytes): seq<nat>
    requires Valid(s)
  {
    if s == [] then [] else [First(s)] + Codes(s[CharLength(s)..])
  }

  /** A character's UTF-16 code units: `encode_utf16`. */
  function Units(code: nat): seq<nat> {
    if code < 0x1_0000 then [code]
    else [0xD800 + (code - 0x1_0000) / 0x400, 0xDC00 + (code - 0x1_0000) % 0x400]
  }

  function Utf16(s: bytes): seq<nat>
    requires Valid(s)
  {
    if s == [] then [] else Units(First(s)) + Utf16(s[CharLength(s)..])
  }

  /** Texts differ as their code units do. */
  lemma {:induction false} Utf16Decides(s: bytes, t: bytes)
    requires Valid(s) && Valid(t) && Utf16(s) == Utf16(t)
    ensures s == t
  {
    hide CharLength, First, Units;
    if s != [] && t != [] {
      var a, b := First(s), First(t);
      var u, v := s[CharLength(s)..], t[CharLength(t)..];
      FirstEncodes(s);
      FirstEncodes(t);
      UnitsDecide(a, b, Utf16(u), Utf16(v));
      Utf16Decides(u, v);
      assert s == s[..CharLength(s)] + u && t == t[..CharLength(t)] + v;
    } else {
      UnitsSome(s);
      UnitsSome(t);
    }
  }

  lemma UnitsSome(s: bytes)
    requires Valid(s)
    ensures s != [] ==> Utf16(s) != []
  {
  }

  lemma UnitsDecide(a: nat, b: nat, u: seq<nat>, v: seq<nat>)
    requires IsScalar(a) && IsScalar(b) && Units(a) + u == Units(b) + v
    ensures a == b && u == v
  {
    var s, t := Units(a) + u, Units(b) + v;
    assert s[0] == Units(a)[0] && t[0] == Units(b)[0];
    assert |Units(a)| == |Units(b)|;
    assert s[|Units(a)| - 1] == Units(a)[|Units(a)| - 1] && t[|Units(a)| - 1] == Units(b)[|Units(a)| - 1];
    assert u == s[|Units(a)|..] && v == t[|Units(b)|..];
  }

  /** How many bytes begin a character and are not all of one: what
      `from_utf8_lossy` replaces with one mark. */
  function Broken(s: bytes): (n: nat)
    requires s != []
    ensures 1 <= n <= |s|
  {
    var n := Announced(s[0]);
    if n < 2 || |s| < 2 || !Second(s[0], s[1]) then 1
    else if n < 3 || |s| < 3 || !Continues(s[2]) then 2
    else if n < 4 || |s| < 4 || !Continues(s[3]) then 3
    else 4
  }

  /** `from_utf8_lossy(s).chars().count()`. */
  function Chars(s: bytes): nat {
    if s == [] then 0
    else if CharLength(s) > 0 then 1 + Chars(s[CharLength(s)..])
    else 1 + Chars(s[Broken(s)..])
  }

  /** Characters are counted piece by piece, when the pieces are cut between
      characters. */
  lemma {:induction false} CharsAdd(s: bytes, t: bytes)
    requires Valid(s)
    ensures Chars(s + t) == Chars(s) + Chars(t)
  {
    if s == [] {
      assert s + t == t;
    } else {
      CharStays(s, t);
      CharsAdd(s[CharLength(s)..], t);
    }
  }

  /** How many bytes do not go on with a character begun before them. */
  function Starts(s: bytes): nat {
    if s == [] then 0 else (if Continues(s[0]) then 0 else 1) + Starts(s[1..])
  }

  lemma {:induction false} StartsAdd(s: bytes, t: bytes)
    ensures Starts(s + t) == Starts(s) + Starts(t)
  {
    if s == [] {
      assert s + t == t;
    } else {
      assert (s + t)[1..] == s[1..] + t;
      StartsAdd(s[1..], t);
    }
  }

  lemma {:induction false} NoStarts(s: bytes)
    requires forall i :: 0 <= i < |s| ==> Continues(s[i])
    ensures Starts(s) == 0
  {
    if s != [] { NoStarts(s[1..]); }
  }

  /** The characters of a text are as many as the bytes that begin one. */
  lemma {:induction false} CharsStart(s: bytes)
    requires Valid(s)
    ensures Chars(s) == Starts(s)
  {
    if s != [] {
      var n := CharLength(s);
      var first, rest := s[..n], s[n..];
      RestContinues(s);
      NoStarts(first[1..]);
      StartsAdd(first, rest);
      assert first + rest == s;
      CharsStart(rest);
    }
  }
}
