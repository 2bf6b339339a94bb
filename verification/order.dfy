/**
 Members in the order of their keys: the stable sort of deterministic CBOR and
 canonical JSON.
 */
module Order {

  /** The order of slices: by the first unit that differs, a prefix first. */
  predicate Less(a: seq<nat>, b: seq<nat>) {
    b != [] && (a == [] || a[0] < b[0] || (a[0] == b[0] && Less(a[1..], b[1..])))
  }

  lemma {:induction false} LessIsStrict(a: seq<nat>, b: seq<nat>)
    ensures !(Less(a, b) && Less(b, a)) && !Less(a, a)
  {
    if a != [] { LessIsStrict(a[1..], a[1..]); }
    if a != [] && b != [] { LessIsStrict(a[1..], b[1..]); }
  }

  lemma {:induction false} LessIsTotal(a: seq<nat>, b: seq<nat>)
    ensures a == b || Less(a, b) || Less(b, a)
  {
    if a != [] && b != [] {
      LessIsTotal(a[1..], b[1..]);
      assert a == [a[0]] + a[1..] && b == [b[0]] + b[1..];
    }
  }

  lemma {:induction false} LessChains(a: seq<nat>, b: seq<nat>, c: seq<nat>)
    requires Less(a, b) && Less(b, c)
    ensures Less(a, c)
  {
    if a != [] && a[0] == b[0] == c[0] { LessChains(a[1..], b[1..], c[1..]); }
  }

  function Insert<T>(f: T -> seq<nat>, x: T, s: seq<T>): seq<T> {
    if s == [] then [x]
    else if Less(f(s[0]), f(x)) then [s[0]] + Insert(f, x, s[1..])
    else [x] + s
  }

  function Sort<T>(f: T -> seq<nat>, s: seq<T>): seq<T> {
    if s == [] then [] else Insert(f, s[0], Sort(f, s[1..]))
  }

  predicate Ascends<T>(f: T -> seq<nat>, s: seq<T>) {
    forall i, j :: 0 <= i < j < |s| ==> !Less(f(s[j]), f(s[i]))
  }

  predicate Strictly<T>(f: T -> seq<nat>, s: seq<T>) {
    forall i, j :: 0 <= i < j < |s| ==> Less(f(s[i]), f(s[j]))
  }

  predicate Distinct<T>(f: T -> seq<nat>, s: seq<T>) {
    forall i, j :: 0 <= i < j < |s| ==> f(s[i]) != f(s[j])
  }

  // ---------------------------------------------------------------------
  // What sorting does
  // ---------------------------------------------------------------------

  lemma {:induction false} InsertKeeps<T>(f: T -> seq<nat>, x: T, s: seq<T>)
    ensures multiset(Insert(f, x, s)) == multiset{x} + multiset(s)
    ensures |Insert(f, x, s)| == |s| + 1
  {
    if s != [] {
      assert s == [s[0]] + s[1..];
      if Less(f(s[0]), f(x)) { InsertKeeps(f, x, s[1..]); }
    }
  }

  /** Nothing is lost, added or repeated. */
  lemma {:induction false} SortKeeps<T>(f: T -> seq<nat>, s: seq<T>)
    ensures multiset(Sort(f, s)) == multiset(s)
    ensures |Sort(f, s)| == |s|
  {
    hide Insert;
    if s != [] {
      SortKeeps(f, s[1..]);
      InsertKeeps(f, s[0], Sort(f, s[1..]));
      assert s == [s[0]] + s[1..];
    }
  }

  lemma Member<T>(s: seq<T>, t: seq<T>, x: T)
    requires multiset(s) == multiset(t)
    ensures x in s <==> x in t
  {
    assert x in s <==> x in multiset(s);
    assert x in t <==> x in multiset(t);
  }

  ghost predicate NoneBelow<T>(f: T -> seq<nat>, key: seq<nat>, s: seq<T>) {
    forall y :: y in s ==> !Less(f(y), key)
  }

  lemma AscendsTail<T>(f: T -> seq<nat>, s: seq<T>)
    requires s != []
    ensures Ascends(f, s) <==> Ascends(f, s[1..]) && NoneBelow(f, f(s[0]), s[1..])
  {
    var t := s[1..];
    if Ascends(f, s) {
      forall i, j | 0 <= i < j < |t| ensures !Less(f(t[j]), f(t[i])) {
        assert t[i] == s[i + 1] && t[j] == s[j + 1];
      }
      forall y | y in t ensures !Less(f(y), f(s[0])) {
        var k :| 0 <= k < |t| && t[k] == y;
        assert s[k + 1] == y;
      }
    }
    if Ascends(f, t) && NoneBelow(f, f(s[0]), t) {
      forall i, j | 0 <= i < j < |s| ensures !Less(f(s[j]), f(s[i])) {
        assert s[j] == t[j - 1];
        assert s[j] in t;
        if i > 0 { assert s[i] == t[i - 1]; }
      }
    }
  }

  lemma OneAscends<T>(f: T -> seq<nat>, x: T)
    ensures Ascends(f, [x])
  {
  }

  lemma {:induction false} InsertAscends<T>(f: T -> seq<nat>, x: T, s: seq<T>)
    requires Ascends(f, s)
    ensures Ascends(f, Insert(f, x, s))
  {
    hide Ascends, Less;
    if s == [] {
      OneAscends(f, x);
    } else {
      AscendsTail(f, s);
      var r := Insert(f, x, s);
      AscendsTail(f, r);
      if Less(f(s[0]), f(x)) {
        InsertAscends(f, x, s[1..]);
        assert r[1..] == Insert(f, x, s[1..]);
        LessIsStrict(f(s[0]), f(x));
        InsertMembers(f, x, s[1..]);
        assert NoneBelow(f, f(s[0]), Insert(f, x, s[1..]));
      } else {
        assert r[1..] == s;
        NoneBelowEither(f, f(x), s);
      }
    }
  }

  lemma InsertMembers<T>(f: T -> seq<nat>, x: T, s: seq<T>)
    ensures forall y :: y in Insert(f, x, s) <==> y == x || y in s
  {
    InsertKeeps(f, x, s);
    forall y ensures y in Insert(f, x, s) <==> y == x || y in s {
      assert y in Insert(f, x, s) <==> y in multiset(Insert(f, x, s));
      assert y in s <==> y in multiset(s);
    }
  }

  /** What is below a bound keeps the bound above. */
  lemma Between(a: seq<nat>, b: seq<nat>, c: seq<nat>)
    requires !Less(b, a) && Less(b, c)
    ensures Less(a, c)
  {
    LessIsTotal(a, b);
    if Less(a, b) { LessChains(a, b, c); }
  }

  lemma NoneBelowEither<T>(f: T -> seq<nat>, key: seq<nat>, s: seq<T>)
    requires s != [] && NoneBelow(f, f(s[0]), s[1..]) && !Less(f(s[0]), key)
    ensures NoneBelow(f, key, s)
  {
    hide Less;
    forall y | y in s ensures !Less(f(y), key) {
      if y != s[0] {
        assert y in s[1..];
        if Less(f(y), key) { Between(f(s[0]), f(y), key); }
      }
    }
  }

  lemma {:induction false} SortAscends<T>(f: T -> seq<nat>, s: seq<T>)
    ensures Ascends(f, Sort(f, s))
  {
    if s != [] {
      SortAscends(f, s[1..]);
      InsertAscends(f, s[0], Sort(f, s[1..]));
    }
  }

  lemma AscendsStrictly<T>(f: T -> seq<nat>, s: seq<T>)
    requires Ascends(f, s)
    ensures Distinct(f, s) <==> Strictly(f, s)
  {
    forall i, j | 0 <= i < j < |s| ensures f(s[i]) == f(s[j]) || Less(f(s[i]), f(s[j])) {
      LessIsTotal(f(s[i]), f(s[j]));
    }
    forall i, j | 0 <= i < j < |s| && Less(f(s[i]), f(s[j])) ensures f(s[i]) != f(s[j]) {
      LessIsStrict(f(s[i]), f(s[j]));
    }
  }

  /** A member's key is that of the next one. */
  predicate Repeated<T>(f: T -> seq<nat>, s: seq<T>, i: nat) {
    i + 1 < |s| && f(s[i]) == f(s[i + 1])
  }

  /** Two keys of a sorted sequence are the same exactly when two neighbours'
      are. */
  lemma NeighboursTell<T>(f: T -> seq<nat>, s: seq<T>)
    requires Ascends(f, s)
    ensures Distinct(f, s) <==> forall i: nat :: !Repeated(f, s, i)
  {
    if forall i: nat :: !Repeated(f, s, i) {
      forall i, j | 0 <= i < j < |s| ensures f(s[i]) != f(s[j]) {
        assert !Repeated(f, s, i);
        LessIsTotal(f(s[i]), f(s[i + 1]));
        if i + 1 < j { assert !Less(f(s[j]), f(s[i + 1])); }
      }
    }
  }

  /** Distinct keys stay distinct in any order. */
  lemma DistinctStays<T>(f: T -> seq<nat>, s: seq<T>, t: seq<T>)
    requires multiset(s) == multiset(t) && Distinct(f, s)
    ensures Distinct(f, t)
  {
    forall i, j | 0 <= i < j < |t| ensures f(t[i]) != f(t[j]) {
      Member(s, t, t[i]);
      Member(s, t, t[j]);
      var a :| 0 <= a < |s| && s[a] == t[i];
      var b :| 0 <= b < |s| && s[b] == t[j];
      Once(f, s, a);
      if t[i] == t[j] { Twice(t, i, j); }
    }
  }

  lemma Twice<T>(t: seq<T>, i: nat, j: nat)
    requires i < j < |t| && t[i] == t[j]
    ensures multiset(t)[t[i]] >= 2
  {
    var a, b := t[..j], t[j..];
    assert t == a + b;
    assert a[i] in a && b[0] in b;
    assert multiset(t) == multiset(a) + multiset(b);
    assert t[i] in multiset(a) && t[i] in multiset(b);
  }

  lemma Once<T>(f: T -> seq<nat>, s: seq<T>, a: nat)
    requires a < |s| && Distinct(f, s)
    ensures multiset(s)[s[a]] == 1
  {
    var x := s[a];
    var front, back := s[..a], s[a + 1..];
    assert s == front + [x] + back;
    assert x !in front && x !in back;
    assert multiset(s) == multiset(front) + multiset{x} + multiset(back);
    assert x !in multiset(front) && x !in multiset(back);
  }

  /** In strictly increasing order there is one way to write the same members:
      the order they came in leaves no trace. */
  lemma {:induction false} OneOrder<T>(f: T -> seq<nat>, s: seq<T>, t: seq<T>)
    requires Strictly(f, s) && Strictly(f, t)
    requires forall x :: x in s <==> x in t
    ensures s == t
  {
    assert s != [] ==> s[0] in s;
    assert t != [] ==> t[0] in t;
    if s != [] && t != [] {
      var i :| 0 <= i < |t| && t[i] == s[0];
      var j :| 0 <= j < |s| && s[j] == t[0];
      if i > 0 && j > 0 { LessIsStrict(f(s[0]), f(t[0])); }
      assert s[0] == t[0];
      TailMembers(f, s, t);
      OneOrder(f, s[1..], t[1..]);
      assert s == [s[0]] + s[1..] && t == [t[0]] + t[1..];
    }
  }

  lemma TailMembers<T>(f: T -> seq<nat>, s: seq<T>, t: seq<T>)
    requires Strictly(f, s) && Strictly(f, t) && s != [] && t != [] && s[0] == t[0]
    requires forall x :: x in s <==> x in t
    ensures Strictly(f, s[1..]) && Strictly(f, t[1..])
    ensures forall x :: x in s[1..] <==> x in t[1..]
  {
    StrictTail(f, s);
    StrictTail(f, t);
    forall x ensures x in s[1..] <==> x in t[1..] {
      assert x in s <==> x == s[0] || x in s[1..];
      assert x in t <==> x == t[0] || x in t[1..];
    }
  }

  lemma StrictTail<T>(f: T -> seq<nat>, s: seq<T>)
    requires Strictly(f, s) && s != []
    ensures Strictly(f, s[1..]) && s[0] !in s[1..]
  {
    var t := s[1..];
    forall i | 0 <= i < |t| ensures t[i] != s[0] {
      assert t[i] == s[i + 1];
      LessIsStrict(f(s[0]), f(s[0]));
    }
  }

  /** Sorting forgets the order distinct keys came in. */
  lemma SortForgets<T>(f: T -> seq<nat>, s: seq<T>, t: seq<T>)
    requires Distinct(f, s) && Distinct(f, t)
    requires forall x :: x in s <==> x in t
    ensures Sort(f, s) == Sort(f, t)
  {
    hide Sort, Distinct, Strictly, Ascends;
    SortStrictly(f, s);
    SortStrictly(f, t);
    forall x ensures x in Sort(f, s) <==> x in Sort(f, t) {
      Member(Sort(f, s), s, x);
      Member(Sort(f, t), t, x);
    }
    OneOrder(f, Sort(f, s), Sort(f, t));
  }

  lemma SortStrictly<T>(f: T -> seq<nat>, s: seq<T>)
    ensures multiset(Sort(f, s)) == multiset(s)
    ensures Distinct(f, s) <==> Strictly(f, Sort(f, s))
  {
    hide Sort, Distinct, Strictly, Ascends;
    SortKeeps(f, s);
    SortAscends(f, s);
    AscendsStrictly(f, Sort(f, s));
    if Distinct(f, s) { DistinctStays(f, s, Sort(f, s)); }
    if Distinct(f, Sort(f, s)) { DistinctStays(f, Sort(f, s), s); }
  }

  // ---------------------------------------------------------------------
  // Sorting and encoding
  // ---------------------------------------------------------------------

  function Mapped<T, U>(g: T -> U, s: seq<T>): (r: seq<U>)
    ensures |r| == |s| && forall i :: 0 <= i < |s| ==> r[i] == g(s[i])
  {
    if s == [] then [] else [g(s[0])] + Mapped(g, s[1..])
  }

  lemma {:induction false} InsertMaps<T, U>(f: T -> seq<nat>, h: U -> seq<nat>, g: T -> U, x: T, s: seq<T>)
    requires forall y: T {:trigger g(y)} :: f(y) == h(g(y))
    ensures Mapped(g, Insert(f, x, s)) == Insert(h, g(x), Mapped(g, s))
  {
    if s != [] && Less(f(s[0]), f(x)) {
      InsertMaps(f, h, g, x, s[1..]);
      assert Insert(f, x, s)[1..] == Insert(f, x, s[1..]);
      assert Mapped(g, s)[1..] == Mapped(g, s[1..]);
    } else {
      assert Insert(f, x, s) == [x] + s;
      assert Insert(f, x, s)[1..] == s;
      assert Insert(h, g(x), Mapped(g, s)) == [g(x)] + Mapped(g, s);
    }
  }

  /** Members may be encoded before they are sorted or after. */
  lemma {:induction false} SortMaps<T, U>(f: T -> seq<nat>, h: U -> seq<nat>, g: T -> U, s: seq<T>)
    requires forall y: T {:trigger g(y)} :: f(y) == h(g(y))
    ensures Mapped(g, Sort(f, s)) == Sort(h, Mapped(g, s))
  {
    if s != [] {
      SortMaps(f, h, g, s[1..]);
      InsertMaps(f, h, g, s[0], Sort(f, s[1..]));
      assert Mapped(g, s)[1..] == Mapped(g, s[1..]);
    }
  }
}
