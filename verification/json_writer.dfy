/**
 The JSON writer (json.rs): operations one after another, the output growing as
 they come or, canonical, a tree written at the end.
 */
module JsonWriter {
  import opened Bytes
  import opened Json
  import opened JsonText
  import opened Order
  import Decimal
  import Utf8

  /** A value kept for canonical output. */
  datatype Tree = Leaf(bytes) | ArrayTree(items: seq<Tree>) | ObjectTree(branches: seq<Branch>)

  datatype Branch = Branch(key: text, tree: Tree)

  /** A container being built, and the key it goes under. */
  datatype Building = Building(tree: Tree, key: Option<text>)

  /** Whether an open container has members yet, and whether a key was just
      written. */
  datatype Open = Open(members: bool, keyed: bool)

  /** `double` is a number's text as a double, none when that is not finite:
      printing and reading floats is not part of this model. */
  datatype Mode = Mode(style: Style, canonical: bool, double: numeral -> Option<numeral>)

  datatype Writing = Writing(
    out: bytes,
    open: seq<Open>,
    stack: seq<Building>,
    root: Option<Tree>,
    pendingKey: Option<text>)

  const FRESH := Writing([], [], [], None, None)

  datatype Op =
    | WriteWord(word: bytes)
    | WriteInt(value: int)
    | WriteNumber(number: numeral)
    | WriteString(text: text)
    | WriteKey(key: text)
    | WriteBegin(isObject: bool)
    | WriteEnd(isObject: bool)

  // ---------------------------------------------------------------------
  // Output as it comes
  // ---------------------------------------------------------------------

  /** What comes before a value or key. */
  function Separated(mode: Mode, w: Writing): Writing {
    if w.open == [] then w
    else
      var n := |w.open| - 1;
      if w.open[n].keyed then w.(open := w.open[..n] + [w.open[n].(keyed := false)])
      else
        w.(out := w.out + JsonText.Between(mode.style, |w.open|, !w.open[n].members),
            open := w.open[..n] + [w.open[n].(members := true)])
  }

  function Put(w: Writing, s: bytes): Writing { w.(out := w.out + s) }

  // ---------------------------------------------------------------------
  // A tree
  // ---------------------------------------------------------------------

  /** A finished value goes into the container being built, or is the root. */
  function TreeAdded(w0: Writing, tree: Tree): Writing {
    var w := w0.(pendingKey := None);
    if w.stack == [] then w.(root := Some(tree))
    else
      var n := |w.stack| - 1;
      match w.stack[n].tree
      case ArrayTree(items) => w.(stack := w.stack[..n] + [w.stack[n].(tree := ArrayTree(items + [tree]))])
      case ObjectTree(branches) =>
        var key: text := if w0.pendingKey.Some? then w0.pendingKey.value else [];
        w.(stack := w.stack[..n] + [w.stack[n].(tree := ObjectTree(branches + [Branch(key, tree)]))])
      case Leaf(_) => w.(root := Some(tree))
  }

  function Leafed(mode: Mode, w: Writing, s: bytes): Writing {
    if mode.canonical then TreeAdded(w, Leaf(s)) else Put(Separated(mode, w), s)
  }

  function Begun(mode: Mode, w: Writing, isObject: bool): Writing {
    if mode.canonical then
      w.(stack := w.stack + [Building(if isObject then ObjectTree([]) else ArrayTree([]), w.pendingKey)],
          pendingKey := None)
    else
      var s := Put(Separated(mode, w), [if isObject then OPEN_BRACE else OPEN_BRACKET]);
      s.(open := s.open + [Open(false, false)])
  }

  function Ended(mode: Mode, w: Writing, isObject: bool): Writing {
    if mode.canonical then
      if w.stack == [] then w
      else
        var n := |w.stack| - 1;
        TreeAdded(w.(stack := w.stack[..n], pendingKey := w.stack[n].key), w.stack[n].tree)
    else
      var n := |w.open| - 1;
      var popped := if w.open == [] then w else w.(open := w.open[..n]);
      var line := if w.open != [] && w.open[n].members then Line(mode.style, n) else [];
      Put(popped, line + [if isObject then CLOSE_BRACE else CLOSE_BRACKET])
  }

  function Keyed(mode: Mode, w: Writing, key: text): Writing {
    if mode.canonical then w.(pendingKey := Some(key))
    else
      var s := Put(Separated(mode, w), Quoted(key, mode.style.html) + Colon(mode.style));
      if s.open == [] then s
      else s.(open := s.open[..|s.open| - 1] + [s.open[|s.open| - 1].(keyed := true)])
  }

  function IntText(value: int): bytes {
    if value < 0 then [MINUS] + Decimal.Digits(-value) else Decimal.Digits(value)
  }

  /** A number is written as it is; canonical, as a double. */
  function NumberText(mode: Mode, n: numeral): bytes {
    if !mode.canonical then NumeralText(n)
    else
      match mode.double(n)
      case Some(m) => NumeralText(m)
      case None => NULL
  }

  function Applied(mode: Mode, w: Writing, op: Op): Writing {
    match op
    case WriteWord(word) => Leafed(mode, w, word)
    case WriteInt(value) => Leafed(mode, w, IntText(value))
    case WriteNumber(n) => Leafed(mode, w, NumberText(mode, n))
    case WriteString(s) => Leafed(mode, w, Quoted(s, mode.style.html && !mode.canonical))
    case WriteKey(key) => Keyed(mode, w, key)
    case WriteBegin(isObject) => Begun(mode, w, isObject)
    case WriteEnd(isObject) => Ended(mode, w, isObject)
  }

  // ---------------------------------------------------------------------
  // Canonical output
  // ---------------------------------------------------------------------

  datatype Entry = Entry(key: text, text: bytes)

  /** RFC 8785, section 3.2.3, orders keys by their UTF-16 code units. */
  function EntryUnits(entry: Entry): seq<nat> { Utf8.Utf16(entry.key) }

  function Emitted(tree: Tree): bytes {
    match tree
    case Leaf(s) => s
    case ArrayTree(items) => [OPEN_BRACKET] + EmittedItems(items, true) + [CLOSE_BRACKET]
    case ObjectTree(branches) => [OPEN_BRACE] + Joined(Sort(EntryUnits, Entries(branches)), true) + [CLOSE_BRACE]
  }

  function Comma(first: bool): bytes { if first then [] else [COMMA] }

  function EmittedItems(items: seq<Tree>, first: bool): bytes {
    if items == [] then [] else Comma(first) + Emitted(items[0]) + EmittedItems(items[1..], false)
  }

  function Entries(branches: seq<Branch>): (r: seq<Entry>)
    ensures |r| == |branches|
    ensures forall i :: 0 <= i < |r| ==> r[i] == EntryOf(branches[i])
  {
    if branches == [] then [] else [EntryOf(branches[0])] + Entries(branches[1..])
  }

  function EntryOf(branch: Branch): Entry { Entry(branch.key, Emitted(branch.tree)) }

  function EntryText(entry: Entry): bytes { Quoted(entry.key, false) + [COLON] + entry.text }

  function Joined(entries: seq<Entry>, first: bool): bytes {
    if entries == [] then [] else Comma(first) + EntryText(entries[0]) + Joined(entries[1..], false)
  }

  /** All the output: what was put out, then the root. */
  function Finished(w: Writing): bytes {
    w.out + if w.root.Some? then Emitted(w.root.value) else []
  }

  // ---------------------------------------------------------------------
  // In place
  // ---------------------------------------------------------------------

  /** How much output gathers before it goes to a stream. */
  const CHUNK: nat := 65_536

  class Writer {
    var out: bytes
    const mode: Mode
    var open: seq<Open>
    var stack: seq<Building>
    var root: Option<Tree>
    var pendingKey: Option<text>
    /** Whether the output goes to a stream, what the stream has got, and
        whether it failed. */
    const streamed: bool
    var delivered: bytes
    var failed: bool
    /** All that was put out. */
    ghost var made: bytes

    ghost predicate Valid()
      reads this`out, this`delivered, this`failed, this`made
    {
      if failed then delivered <= made else made == delivered + out
    }

    ghost function State(): Writing
      reads this`made, this`open, this`stack, this`root, this`pendingKey
    {
      Writing(made, open, stack, root, pendingKey)
    }

    constructor (mode: Mode, streamed: bool)
      ensures Valid() && State() == FRESH && this.mode == mode && this.streamed == streamed && !failed
              && delivered == []
    {
      this.mode := mode;
      out, open, stack, root, pendingKey := [], [], [], None, None;
      this.streamed, delivered, failed, made := streamed, [], false, [];
    }

    method Push(s: bytes)
      requires Valid()
      modifies this`out, this`made
      ensures Valid() && made == old(made) + s
    {
      assert delivered + (out + s) == delivered + out + s;
      out := out + s;
      made := made + s;
    }

    method Separator()
      requires Valid()
      modifies this`out, this`made, this`open
      ensures Valid() && State() == Separated(mode, old(State()))
    {
      hide Indent;
      var indent := |open|;
      if open != [] {
        var n := |open| - 1;
        var last := open[n];
        if last.keyed {
          open := open[..n] + [last.(keyed := false)];
          return;
        }
        if last.members { Push([COMMA]); }
        open := open[..n] + [last.(members := true)];
        if mode.style.pretty { Push([0x0A] + Indent(indent)); }
        assert old(made) + ([COMMA] + Line(mode.style, indent)) == old(made) + [COMMA] + Line(mode.style, indent);
        assert [] + Line(mode.style, indent) == Line(mode.style, indent)
            && old(made) + [COMMA] + [] == old(made) + [COMMA];
        assert old(made) + [] == old(made);
      }
    }

    method Add(tree: Tree)
      modifies this`stack, this`root, this`pendingKey
      ensures State() == TreeAdded(old(State()), tree)
    {
      var key := pendingKey;
      pendingKey := None;
      if stack == [] {
        root := Some(tree);
        return;
      }
      var n := |stack| - 1;
      match stack[n].tree {
        case ArrayTree(items) => stack := stack[..n] + [stack[n].(tree := ArrayTree(items + [tree]))];
        case ObjectTree(branches) =>
          var name: text := if key.Some? then key.value else [];
          stack := stack[..n] + [stack[n].(tree := ObjectTree(branches + [Branch(name, tree)]))];
        case Leaf(_) => root := Some(tree);
      }
    }

    /** A scalar, already as JSON text. */
    method LeafText(s: bytes)
      requires Valid()
      modifies this`out, this`made, this`open, this`stack, this`root, this`pendingKey
      ensures Valid() && State() == Leafed(mode, old(State()), s)
    {
      hide Separated, TreeAdded;
      if mode.canonical {
        Add(Leaf(s));
      } else {
        Separator();
        Push(s);
      }
    }

    method Begin(isObject: bool)
      requires Valid()
      modifies this`out, this`made, this`open, this`stack, this`pendingKey
      ensures Valid() && State() == Begun(mode, old(State()), isObject)
    {
      hide Separated;
      if mode.canonical {
        stack := stack + [Building(if isObject then ObjectTree([]) else ArrayTree([]), pendingKey)];
        pendingKey := None;
      } else {
        Separator();
        Push([if isObject then OPEN_BRACE else OPEN_BRACKET]);
        open := open + [Open(false, false)];
      }
    }

    method End(isObject: bool)
      requires Valid()
      modifies this`out, this`made, this`open, this`stack, this`root, this`pendingKey
      ensures Valid() && State() == Ended(mode, old(State()), isObject)
    {
      hide TreeAdded, Line;
      if mode.canonical {
        if stack != [] {
          var last := stack[|stack| - 1];
          stack := stack[..|stack| - 1];
          pendingKey := last.key;
          Add(last.tree);
        }
      } else {
        EndText(isObject);
      }
    }

    /** The bracket that closes the container opened last, on a line of its own
        after members. */
    method EndText(isObject: bool)
      requires Valid() && !mode.canonical
      modifies this`out, this`made, this`open
      ensures Valid() && State() == Ended(mode, old(State()), isObject)
    {
      hide Line;
      var close: bytes := [if isObject then CLOSE_BRACE else CLOSE_BRACKET];
      var line: bytes := [];
      if open != [] {
        var last := open[|open| - 1];
        open := open[..|open| - 1];
        if last.members { line := Line(mode.style, |open|); }
      }
      Push(line);
      Push(close);
      Chain(old(made), line, close);
    }

    method Key(name: text)
      requires Valid()
      modifies this`out, this`made, this`open, this`pendingKey
      ensures Valid() && State() == Keyed(mode, old(State()), name)
    {
      hide Separated, QuotedBody;
      if mode.canonical {
        pendingKey := Some(name);
        return;
      }
      Separator();
      ghost var before := made;
      var quoted := Quote([], name, mode.style.html);
      Push(quoted);
      Push(Colon(mode.style));
      assert [] + Quoted(name, mode.style.html) == Quoted(name, mode.style.html);
      assert before + Quoted(name, mode.style.html) + Colon(mode.style) ==
          before + (Quoted(name, mode.style.html) + Colon(mode.style));
      if open != [] {
        var n := |open| - 1;
        open := open[..n] + [open[n].(keyed := true)];
      }
    }

    /** Passes the output to the stream once enough gathers, or all of it. */
    method Deliver(all: bool)
      requires Valid()
      modifies this`out, this`delivered, this`failed
      ensures Valid() && delivered <= made
      ensures old(failed) ==> failed && delivered == old(delivered)
      ensures streamed && all && !failed ==> delivered == made
      ensures !streamed ==> out == old(out) && delivered == old(delivered) && failed == old(failed)
    {
      if !streamed { return; }
      if out == [] || (!all && |out| < CHUNK) { return; }
      var data := out;
      out := [];
      if !failed {
        var taken := StreamTakes();
        if taken {
          delivered := delivered + data;
        } else {
          failed := true;
        }
      }
    }

    /** Whether the stream took a write. */
    method StreamTakes() returns (taken: bool)
    {
      if * { taken := true; } else { taken := false; }
    }

    /** One operation, after which output may go to the stream. */
    method Write(op: Op)
      requires Valid() && (op.WriteInt? ==> -0x8000_0000_0000_0000 <= op.value < 0x8000_0000_0000_0000)
      modifies this
      ensures Valid() && State() == Applied(mode, old(State()), op)
      ensures old(failed) ==> failed && delivered == old(delivered)
      ensures !streamed && old(!failed && delivered == []) ==> !failed && delivered == []
    {
      hide Leafed, Keyed, Begun, Ended, Quoted, NumeralText, Decimal.Digits;
      match op {
        case WriteWord(word) => LeafText(word);
        case WriteInt(value) =>
          var digits := DecimalDigits(value);
          LeafText(digits);
        case WriteNumber(n) => LeafText(NumberText(mode, n));
        case WriteString(s) =>
          var quoted := Quote([], s, mode.style.html && !mode.canonical);
          assert quoted == Quoted(s, mode.style.html && !mode.canonical);
          LeafText(quoted);
        case WriteKey(key) => Key(key);
        case WriteBegin(isObject) => Begin(isObject);
        case WriteEnd(isObject) => End(isObject);
      }
      Deliver(false);
    }

    /** The output that is left, all of it when no stream takes it. */
    method Finish() returns (rest: bytes)
      requires Valid()
      modifies this
      ensures delivered <= made && made == Finished(old(State()))
      ensures streamed && !failed ==> delivered == made
      ensures !streamed && old(!failed && delivered == []) ==> rest == made
      ensures old(failed) ==> failed && delivered == old(delivered)
    {
      hide Emitted;
      if root.Some? {
        var text := Emit(root.value);
        Push(text);
        root := None;
      }
      if streamed {
        Deliver(true);
        if !failed {
          var flushed := StreamTakes();
          failed := !flushed;
        }
      }
      rest := out;
      out := [];
      assert [] + rest == rest;
      assert old(made) + [] == old(made);
    }
  }

  lemma Chain(a: bytes, b: bytes, c: bytes)
    ensures a + b + c == a + (b + c)
  {
  }

  /** Writes a tree, the members of its objects sorted first. */
  method Emit(tree: Tree) returns (out: bytes)
    ensures out == Emitted(tree)
    decreases tree
  {
    hide Sort;
    match tree {
      case Leaf(s) => return s;
      case ArrayTree(items) =>
        out := [OPEN_BRACKET];
        for i := 0 to |items|
          invariant out + EmittedItems(items[i..], i == 0) == [OPEN_BRACKET] + EmittedItems(items, true)
        {
          var text := Emit(items[i]);
          assert items[i..][1..] == items[i + 1..];
          Regroup3(out, Comma(i == 0), text, EmittedItems(items[i + 1..], false));
          out := out + Comma(i == 0) + text;
        }
        NoneEmitted(items[|items|..]);
        out := out + [CLOSE_BRACKET];
      case ObjectTree(branches) =>
        var sorted := Sort(BranchUnits, branches);
        SortedEntries(branches);
        out := [OPEN_BRACE];
        for i := 0 to |sorted|
          invariant out + Joined(Entries(sorted[i..]), i == 0) == [OPEN_BRACE] + Joined(Entries(sorted), true)
        {
          ghost var k := Origin(branches, i);
          assert branches[k].tree < branches[k];
          var text := Emit(sorted[i].tree);
          assert sorted[i..][1..] == sorted[i + 1..];
          var entry := EntryText(Entry(sorted[i].key, text));
          assert Entries(sorted[i..])[0] == EntryOf(sorted[i]) && Entries(sorted[i..])[1..] == Entries(sorted[i + 1..]);
          Regroup3(out, Comma(i == 0), entry, Joined(Entries(sorted[i + 1..]), false));
          out := out + Comma(i == 0) + entry;
        }
        NoneJoined(sorted[|sorted|..]);
        out := out + [CLOSE_BRACE];
    }
  }

  function BranchUnits(branch: Branch): seq<nat> { Utf8.Utf16(branch.key) }

  /** A sorted branch is one of those there are. */
  lemma Origin(branches: seq<Branch>, i: nat) returns (k: nat)
    requires i < |Sort(BranchUnits, branches)|
    ensures k < |branches| && branches[k] == Sort(BranchUnits, branches)[i]
  {
    hide Sort;
    var sorted := Sort(BranchUnits, branches);
    SortKeeps(BranchUnits, branches);
    Order.Member(sorted, branches, sorted[i]);
    k :| 0 <= k < |branches| && branches[k] == sorted[i];
  }

  /** Branches may be written before they are sorted or after. */
  lemma SortedEntries(branches: seq<Branch>)
    ensures Entries(Sort(BranchUnits, branches)) == Sort(EntryUnits, Entries(branches))
  {
    hide Sort, Emitted, Utf8.Utf16;
    EntriesMap(branches);
    EntriesMap(Sort(BranchUnits, branches));
    SortMaps(BranchUnits, EntryUnits, EntryOf, branches);
  }

  lemma {:induction false} EntriesMap(branches: seq<Branch>)
    ensures Entries(branches) == Mapped(EntryOf, branches)
  {
    hide Emitted;
    if branches != [] { EntriesMap(branches[1..]); }
  }

  lemma NoneEmitted(items: seq<Tree>)
    requires items == []
    ensures forall first :: EmittedItems(items, first) == []
  {
  }

  lemma NoneJoined(branches: seq<Branch>)
    requires branches == []
    ensures forall first :: Joined(Entries(branches), first) == []
  {
  }

  lemma Regroup3(a: bytes, b: bytes, c: bytes, d: bytes)
    ensures a + (b + c + d) == a + b + c + d
  {
  }
}
