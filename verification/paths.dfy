/** Paths of keys and indices, `jobs[".setup"].script[0]` (codec.rs). */
module Paths {
  import opened Bytes

  datatype Step = Key(key: string) | Index(index: nat)

  const USIZE: nat := 0x1_0000_0000_0000_0000

  // ---------------------------------------------------------------------
  // Reading a path
  // ---------------------------------------------------------------------

  /** The key up to the quote that ends it, and what follows the quote. */
  function Quoted(s: string): Option<(string, string)> {
    if s == [] then None
    else if s[0] == '"' then Some(([], s[1..]))
    else if s[0] == '\\' then
      if |s| == 1 then None
      else match Quoted(s[2..])
           case Some((key, rest)) => Some(([s[1]] + key, rest))
           case None => None
    else match Quoted(s[1..])
         case Some((key, rest)) => Some(([s[0]] + key, rest))
         case None => None
  }

  /** How long the text is before one of the characters, or in all. */
  function Before(s: string, stops: set<char>): (n: nat)
    ensures n <= |s|
    ensures forall i :: 0 <= i < n ==> s[i] !in stops
    ensures n < |s| ==> s[n] in stops
  {
    if s == [] || s[0] in stops then 0 else 1 + Before(s[1..], stops)
  }

  predicate DecimalDigit(c: char) { '0' <= c <= '9' }

  predicate Decimal(s: string) { forall i :: 0 <= i < |s| ==> DecimalDigit(s[i]) }

  function NumberOf(s: string): nat
    requires Decimal(s)
  {
    if s == [] then 0
    else
      assert DecimalDigit(s[|s| - 1]);
      NumberOf(s[..|s| - 1]) * 10 + (s[|s| - 1] as int - '0' as int)
  }

  /** A `]` or a `"`, which a plain key does not hold. */
  predicate Stray(s: string) { exists i :: 0 <= i < |s| && (s[i] == ']' || s[i] == '"') }

  /** The step a path starts with, and the rest of it. */
  function FirstStep(path: string): (r: Option<(Step, string)>)
    requires path != []
    ensures r.Some? ==> |r.value.1| < |path|
  {
    if path[0] == '[' then
      if |path| > 1 && path[1] == '"' then
        QuotedShrinks(path[2..]);
        match Quoted(path[2..])
        case Some((key, rest)) => if rest != [] && rest[0] == ']' then Some((Key(key), rest[1..])) else None
        case None => None
      else
        var end := 1 + Before(path[1..], {']'});
        if end == |path| || end == 1 || !Decimal(path[1..end]) then None
        else
          var index := NumberOf(path[1..end]);
          if index < USIZE then Some((Index(index), path[end + 1..])) else None
    else
      var end := Before(path, {'.', '['});
      if end == 0 || Stray(path[..end]) then None
      else Some((Key(path[..end]), path[end..]))
  }

  /** What follows a step: past a `.`, which a key must follow. */
  function Following(rest: string): (r: Option<string>)
    ensures r.Some? ==> |r.value| <= |rest|
  {
    if rest != [] && rest[0] == '.' then
      var after := rest[1..];
      if after == [] || after[0] == '.' || after[0] == '[' then None else Some(after)
    else Some(rest)
  }

  function PathSteps(path: string): Option<seq<Step>>
    decreases |path|
  {
    if path == [] then Some([])
    else
      match FirstStep(path)
      case Some((step, rest)) =>
        (match Following(rest)
         case Some(after) =>
           (match PathSteps(after)
            case Some(steps) => Some([step] + steps)
            case None => None)
         case None => None)
      case None => None
  }

  lemma {:induction false} QuotedShrinks(s: string)
    ensures Quoted(s).Some? ==> |Quoted(s).value.1| < |s|
  {
    if s != [] && s[0] != '"' {
      if s[0] == '\\' { if |s| > 1 { QuotedShrinks(s[2..]); } } else { QuotedShrinks(s[1..]); }
    }
  }

  /** A read of a key that goes on from what was read of it. */
  function After(key: string, read: Option<(string, string)>): Option<(string, string)> {
    match read
    case Some((more, rest)) => Some((key + more, rest))
    case None => None
  }

  function Onward(steps: seq<Step>, read: Option<seq<Step>>): Option<seq<Step>> {
    match read
    case Some(more) => Some(steps + more)
    case None => None
  }

  lemma Onwards(steps: seq<Step>, step: Step, read: Option<seq<Step>>)
    ensures Onward([], read) == read && Onward(steps, Onward([step], read)) == Onward(steps + [step], read)
    ensures Onward(steps, Some([])) == Some(steps)
  {
    assert steps + [] == steps;
    match read
    case Some(more) =>
      assert [] + more == more;
      assert steps + ([step] + more) == (steps + [step]) + more;
    case None =>
  }

  lemma Afters(key: string, c: char, read: Option<(string, string)>)
    ensures After([], read) == read && After(key, After([c], read)) == After(key + [c], read)
  {
    match read
    case Some((more, rest)) =>
      assert [] + more == more;
      assert key + ([c] + more) == (key + [c]) + more;
    case None =>
  }

  /** A quoted key, character by character, up to the quote that ends it. */
  method ReadQuoted(quoted: string) returns (r: Option<(string, string)>)
    ensures r == Quoted(quoted)
  {
    var key := "";
    var at := 0;
    assert quoted[0..] == quoted;
    Afters(key, ' ', Quoted(quoted));
    while true
      invariant at <= |quoted|
      invariant Quoted(quoted) == After(key, Quoted(quoted[at..]))
      decreases |quoted| - at
    {
      if at == |quoted| { return None; }
      var c := quoted[at];
      ghost var s := quoted[at..];
      if c == '"' {
        assert s[1..] == quoted[at + 1..];
        assert key + [] == key;
        return Some((key, quoted[at + 1..]));
      }
      if c == '\\' {
        if at + 1 == |quoted| { return None; }
        c := quoted[at + 1];
        assert s[2..] == quoted[at + 2..];
        at := at + 2;
      } else {
        assert s[1..] == quoted[at + 1..];
        at := at + 1;
      }
      Afters(key, c, Quoted(quoted[at..]));
      key := key + [c];
    }
  }

  method Steps(path: string) returns (r: Option<seq<Step>>)
    ensures r == PathSteps(path)
  {
    var steps: seq<Step> := [];
    var rest := path;
    Onwards([], Index(0), PathSteps(path));
    while rest != []
      invariant PathSteps(path) == Onward(steps, PathSteps(rest))
      decreases |rest|
    {
      var step, after;
      if rest[0] == '[' && |rest| > 1 && rest[1] == '"' {
        var read := ReadQuoted(rest[2..]);
        QuotedShrinks(rest[2..]);
        if read == None || read.value.1 == [] || read.value.1[0] != ']' { return None; }
        step, after := Key(read.value.0), read.value.1[1..];
      } else {
        var first := FirstStep(rest);
        if first == None { return None; }
        step, after := first.value.0, first.value.1;
      }
      assert FirstStep(rest) == Some((step, after));
      var following := Following(after);
      if following == None { return None; }
      Onwards(steps, step, PathSteps(following.value));
      steps := steps + [step];
      rest := following.value;
    }
    Onwards(steps, Index(0), None);
    return Some(steps);
  }

  // ---------------------------------------------------------------------
  // Writing a path
  // ---------------------------------------------------------------------

  /** `text.replace(c, with)`. */
  function Replaced(text: string, c: char, with: string): string {
    if text == [] then []
    else (if text[0] == c then with else [text[0]]) + Replaced(text[1..], c, with)
  }

  predicate Plain(key: string) {
    key != [] && forall i :: 0 <= i < |key| ==> key[i] !in {'.', '[', ']', '"'}
  }

  function PathKey(parent: string, key: string): string {
    if !Plain(key) then parent + "[\"" + Replaced(Replaced(key, '\\', "\\\\"), '"', "\\\"") + "\"]"
    else if parent == [] then key
    else parent + "." + key
  }

  /** The path of keys one inside another. */
  function PathOf(keys: seq<string>): string {
    if keys == [] then [] else PathKey(PathOf(keys[..|keys| - 1]), keys[|keys| - 1])
  }

  // ---------------------------------------------------------------------
  // Reading what was written
  // ---------------------------------------------------------------------

  lemma {:induction false} ReplacedAppends(a: string, b: string, c: char, with: string)
    ensures Replaced(a + b, c, with) == Replaced(a, c, with) + Replaced(b, c, with)
  {
    if a == [] {
      assert a + b == b;
    } else {
      assert (a + b)[1..] == a[1..] + b;
      ReplacedAppends(a[1..], b, c, with);
    }
  }

  function Escaped(key: string): string { Replaced(Replaced(key, '\\', "\\\\"), '"', "\\\"") }

  /** Replacing the backslashes first and the quotes then escapes each
      character on its own. */
  lemma EscapedFirst(key: string)
    requires key != []
    ensures Escaped(key) == (if key[0] == '\\' then "\\\\" else if key[0] == '"' then "\\\"" else [key[0]])
            + Escaped(key[1..])
  {
    var first := if key[0] == '\\' then "\\\\" else [key[0]];
    var rest := Replaced(key[1..], '\\', "\\\\");
    assert Replaced(key, '\\', "\\\\") == first + rest;
    ReplacedAppends(first, rest, '"', "\\\"");
    assert first[1..] == if key[0] == '\\' then "\\" else "";
    assert "\\"[1..] == "";
    assert Replaced(first, '"', "\\\"") == if key[0] == '\\' then "\\\\" else if key[0] == '"' then "\\\""
        else [key[0]];
  }

  lemma {:induction false} QuotedReads(key: string, rest: string)
    ensures Quoted(Escaped(key) + "\"" + rest) == Some((key, rest))
  {
    var text := Escaped(key) + "\"" + rest;
    if key == [] {
      assert text[1..] == rest;
    } else {
      EscapedFirst(key);
      QuotedReads(key[1..], rest);
      var more := Escaped(key[1..]) + "\"" + rest;
      if key[0] == '\\' || key[0] == '"' {
        assert text == ['\\', key[0]] + more;
        assert text[2..] == more;
      } else {
        assert text == [key[0]] + more;
        assert text[1..] == more;
      }
      assert [key[0]] + key[1..] == key;
    }
  }

  lemma {:induction false} QuotedExtends(s: string, suffix: string)
    requires Quoted(s).Some?
    ensures Quoted(s + suffix) == Some((Quoted(s).value.0, Quoted(s).value.1 + suffix))
  {
    if s[0] == '"' {
      assert (s + suffix)[1..] == s[1..] + suffix;
    } else if s[0] == '\\' {
      QuotedExtends(s[2..], suffix);
      assert (s + suffix)[2..] == s[2..] + suffix;
    } else {
      QuotedExtends(s[1..], suffix);
      assert (s + suffix)[1..] == s[1..] + suffix;
    }
  }

  lemma {:induction false} BeforeExtends(s: string, suffix: string, stops: set<char>)
    requires Before(s, stops) < |s| || (suffix != [] && suffix[0] in stops)
    ensures Before(s + suffix, stops) == Before(s, stops)
  {
    if s == [] {
      assert s + suffix == suffix;
    } else if s[0] !in stops {
      assert (s + suffix)[1..] == s[1..] + suffix;
      BeforeExtends(s[1..], suffix, stops);
    }
  }

  /** What a step of a path may be followed by. */
  predicate Continues(suffix: string) { suffix != [] && (suffix[0] == '.' || suffix[0] == '[') }

  lemma QuotedStepExtends(path: string, suffix: string)
    requires |path| > 1 && path[0] == '[' && path[1] == '"' && FirstStep(path).Some?
    ensures FirstStep(path + suffix) == Some((FirstStep(path).value.0, FirstStep(path).value.1 + suffix))
  {
    hide Quoted;
    QuotedExtends(path[2..], suffix);
    assert (path + suffix)[2..] == path[2..] + suffix;
    var rest := Quoted(path[2..]).value.1;
    assert (rest + suffix)[1..] == rest[1..] + suffix;
  }

  lemma IndexStepExtends(path: string, suffix: string)
    requires path != [] && path[0] == '[' && !(|path| > 1 && path[1] == '"') && FirstStep(path).Some?
    ensures FirstStep(path + suffix) == Some((FirstStep(path).value.0, FirstStep(path).value.1 + suffix))
  {
    hide Quoted, Before, NumberOf;
    var whole := path + suffix;
    BeforeExtends(path[1..], suffix, {']'});
    assert whole[1..] == path[1..] + suffix;
    var end := 1 + Before(path[1..], {']'});
    assert whole[1..end] == path[1..end] && whole[end + 1..] == path[end + 1..] + suffix;
  }

  lemma KeyStepExtends(path: string, suffix: string)
    requires path != [] && path[0] != '[' && FirstStep(path).Some? && Continues(suffix)
    ensures FirstStep(path + suffix) == Some((FirstStep(path).value.0, FirstStep(path).value.1 + suffix))
  {
    hide Before, Stray;
    BeforeExtends(path, suffix, {'.', '['});
    var whole, end := path + suffix, Before(path, {'.', '['});
    assert whole[..end] == path[..end] && whole[end..] == path[end..] + suffix;
  }

  /** A step reads the same with more of the path after it. */
  lemma FirstStepExtends(path: string, suffix: string)
    requires path != [] && FirstStep(path).Some? && Continues(suffix)
    ensures FirstStep(path + suffix) == Some((FirstStep(path).value.0, FirstStep(path).value.1 + suffix))
  {
    hide FirstStep;
    if path[0] != '[' {
      KeyStepExtends(path, suffix);
    } else if |path| > 1 && path[1] == '"' {
      QuotedStepExtends(path, suffix);
    } else {
      IndexStepExtends(path, suffix);
    }
  }

  lemma FollowingExtends(rest: string, suffix: string)
    requires rest != [] && Following(rest).Some? && Following(rest).value != [] && Continues(suffix)
    ensures Following(rest + suffix) == Some(Following(rest).value + suffix)
  {
    if rest[0] == '.' { assert (rest + suffix)[1..] == rest[1..] + suffix; }
  }

  /** A path goes on with the steps of what is written after it. */
  lemma {:induction false} PathExtends(path: string, suffix: string, more: seq<Step>)
    requires path != [] && PathSteps(path).Some? && Continues(suffix)
    requires Following(suffix).Some? && PathSteps(Following(suffix).value) == Some(more)
    ensures PathSteps(path + suffix) == Some(PathSteps(path).value + more)
    decreases |path|
  {
    hide FirstStep;
    FirstStepExtends(path, suffix);
    var (step, rest) := FirstStep(path).value;
    var after := Following(rest).value;
    assert path + suffix != [];
    if rest == [] {
      assert rest + suffix == suffix;
      assert [step] + [] == [step];
    } else {
      FollowingExtends(rest, suffix);
      PathExtends(after, suffix, more);
      assert [step] + (PathSteps(after).value + more) == ([step] + PathSteps(after).value) + more;
    }
  }

  lemma PlainReads(key: string)
    requires Plain(key)
    ensures PathSteps(key) == Some([Key(key)]) && key[0] != '.' && key[0] != '['
  {
    var end := Before(key, {'.', '['});
    assert end == |key|;
    assert key[..|key|] == key && key[|key|..] == [];
    assert FirstStep(key) == Some((Key(key), []));
    assert [Key(key)] + [] == [Key(key)];
  }

  lemma QuotedKeyReads(key: string)
    ensures PathSteps("[\"" + Escaped(key) + "\"]") == Some([Key(key)])
  {
    var text := "[\"" + Escaped(key) + "\"]";
    QuotedReads(key, "]");
    assert text[2..] == Escaped(key) + "\"" + "]";
    assert "]"[1..] == [];
    assert FirstStep(text) == Some((Key(key), []));
    assert [Key(key)] + [] == [Key(key)];
  }

  /** The steps of the path of a key are those of its parent, then the key:
      whatever the key holds, whatever path its parent is. */
  lemma KeyReads(parent: string, key: string)
    requires PathSteps(parent).Some?
    ensures PathSteps(PathKey(parent, key)) == Some(PathSteps(parent).value + [Key(key)])
  {
    if Plain(key) { PlainChild(parent, key); } else { QuotedChild(parent, key); }
  }

  lemma QuotedChild(parent: string, key: string)
    requires PathSteps(parent).Some? && !Plain(key)
    ensures PathSteps(PathKey(parent, key)) == Some(PathSteps(parent).value + [Key(key)])
  {
    NoSteps();
    hide PathSteps, Escaped, Plain, PathKey;
    var suffix := "[\"" + Escaped(key) + "\"]";
    QuotedKeyReads(key);
    QuotedPath(parent, key);
    if parent == [] {
      assert parent + suffix == suffix && [] + [Key(key)] == [Key(key)];
    } else {
      PathExtends(parent, suffix, [Key(key)]);
    }
  }

  lemma PlainChild(parent: string, key: string)
    requires PathSteps(parent).Some? && Plain(key)
    ensures PathSteps(PathKey(parent, key)) == Some(PathSteps(parent).value + [Key(key)])
  {
    NoSteps();
    hide PathSteps, Plain, PathKey;
    PlainReads(key);
    PlainPath(parent, key);
    if parent == [] {
      assert [] + [Key(key)] == [Key(key)];
    } else {
      var suffix := "." + key;
      assert suffix[1..] == key;
      PathExtends(parent, suffix, [Key(key)]);
    }
  }

  lemma PlainPath(parent: string, key: string)
    requires Plain(key)
    ensures key != [] && PathKey(parent, key) == if parent == [] then key else parent + ("." + key)
  {
  }

  lemma NoSteps()
    ensures PathSteps([]) == Some([])
  {
  }

  lemma QuotedPath(parent: string, key: string)
    requires !Plain(key)
    ensures PathKey(parent, key) == parent + ("[\"" + Escaped(key) + "\"]")
  {
  }

  function KeySteps(keys: seq<string>): seq<Step> {
    if keys == [] then [] else KeySteps(keys[..|keys| - 1]) + [Key(keys[|keys| - 1])]
  }

  /** Any list of keys, written one inside another, reads back. */
  lemma {:induction false} PathOfReads(keys: seq<string>)
    ensures PathSteps(PathOf(keys)) == Some(KeySteps(keys))
  {
    if keys != [] {
      var front := keys[..|keys| - 1];
      PathOfReads(front);
      KeyReads(PathOf(front), keys[|keys| - 1]);
    }
  }

  // ---------------------------------------------------------------------
  // Indices
  // ---------------------------------------------------------------------

  function DigitOf(n: nat): char
    requires n < 10
  {
    '0' + n as char
  }

  /** The decimal digits of a number. */
  function Numeral(n: nat): (s: string)
    ensures s != [] && Decimal(s)
  {
    if n < 10 then [DigitOf(n)] else Numeral(n / 10) + [DigitOf(n % 10)]
  }

  lemma {:induction false} NumeralReads(n: nat)
    ensures NumberOf(Numeral(n)) == n
  {
    var s := Numeral(n);
    if n < 10 {
      assert s[..|s| - 1] == [];
    } else {
      NumeralReads(n / 10);
      assert s[..|s| - 1] == Numeral(n / 10);
    }
  }

  function IndexText(index: nat): string { "[" + Numeral(index) + "]" }

  lemma IndexTextReads(index: nat)
    ensures PathSteps(IndexText(index)) == if index < USIZE then Some([Index(index)]) else None
  {
    hide NumberOf, Numeral;
    NumeralReads(index);
    var digits, text := Numeral(index), IndexText(index);
    assert text[1..] == digits + "]";
    NoBracket(digits);
    assert text[1..1 + |digits|] == digits && text[|digits| + 2..] == [];
    assert DecimalDigit(digits[0]);
    assert FirstStep(text) == if index < USIZE then Some((Index(index), [])) else None;
    assert [Index(index)] + [] == [Index(index)];
  }

  lemma {:induction false} NoBracket(digits: string)
    requires Decimal(digits)
    ensures Before(digits + "]", {']'}) == |digits|
  {
    var text := digits + "]";
    if digits != [] {
      assert DecimalDigit(digits[0]);
      assert text[1..] == digits[1..] + "]";
      NoBracket(digits[1..]);
    }
  }

  /** The steps of the path of an index are those of its parent, then the
      index. */
  lemma IndexReads(parent: string, index: nat)
    requires PathSteps(parent).Some? && index < USIZE
    ensures PathSteps(parent + IndexText(index)) == Some(PathSteps(parent).value + [Index(index)])
  {
    IndexTextReads(index);
    NoSteps();
    hide PathSteps, Numeral;
    var suffix := IndexText(index);
    if parent == [] {
      assert parent + suffix == suffix && [] + [Index(index)] == [Index(index)];
    } else {
      PathExtends(parent, suffix, [Index(index)]);
    }
  }

  /** The path of keys and indices, one inside another. */
  function StepsPath(steps: seq<Step>): string {
    if steps == [] then []
    else
      var parent := StepsPath(steps[..|steps| - 1]);
      match steps[|steps| - 1]
      case Key(key) => PathKey(parent, key)
      case Index(index) => parent + IndexText(index)
  }

  /** Any steps written as a path are read back, if the indices fit. */
  lemma {:induction false} StepsRead(steps: seq<Step>)
    requires forall i :: 0 <= i < |steps| && steps[i].Index? ==> steps[i].index < USIZE
    ensures PathSteps(StepsPath(steps)) == Some(steps)
  {
    hide PathSteps, PathKey, IndexText;
    if steps == [] {
      NoSteps();
    } else {
      var front, last := steps[..|steps| - 1], steps[|steps| - 1];
      StepsRead(front);
      match last {
        case Key(key) => KeyReads(StepsPath(front), key);
        case Index(index) => IndexReads(StepsPath(front), index);
      }
      assert steps == front + [last];
    }
  }
}
