/**
 The reference-counted heap the cycle collector looks at (cycles.rs): which
 objects refer to which, and what is reached from what.
 */
module Heap {
  import opened Bytes

  /** The count of an object that is never freed. */
  const IMMORTAL: nat := 0xFFFF_FFFF_FFFF_FFFF

  /** An object: its count, the addresses its value refers to, 0 for a null
      one, and whether something the counts do not show holds it. */
  datatype Object = Object(rc: nat, refs: seq<nat>, flagged: bool)

  type Heap = map<nat, Object>

  /** No object dangles that another refers to, but for those being freed. */
  ghost predicate Closed(h: Heap) {
    && 0 !in h && (forall a :: a in h ==> h[a].rc <= IMMORTAL)
    && forall a, i :: a in h && h[a].rc != 0 && 0 <= i < |h[a].refs| ==> h[a].refs[i] == 0 || h[a].refs[i] in h
  }

  /** The references a visit reports: neither null nor to an immortal. */
  function Counted(h: Heap, refs: seq<nat>): (r: seq<nat>)
    requires forall i :: 0 <= i < |refs| ==> refs[i] == 0 || refs[i] in h
    ensures forall i :: 0 <= i < |r| ==> r[i] in h && h[r[i]].rc != IMMORTAL
  {
    if refs == [] then []
    else
      var last := refs[|refs| - 1];
      Counted(h, refs[..|refs| - 1]) + (if last == 0 || h[last].rc == IMMORTAL then [] else [last])
  }

  /** The references a visit of an object reports. It reports none when the count
      is zero: whoever frees the object lets them go. */
  function References(h: Heap, a: nat): (r: seq<nat>)
    requires Closed(h) && a in h
    ensures forall i :: 0 <= i < |r| ==> r[i] in h && h[r[i]].rc != IMMORTAL
  {
    if h[a].rc == 0 then [] else Counted(h, h[a].refs)
  }

  ghost predicate Path(h: Heap, p: seq<nat>)
    requires Closed(h)
  {
    && (forall i :: 0 <= i < |p| ==> p[i] in h)
    && (forall i :: 0 <= i < |p| - 1 ==> p[i + 1] in References(h, p[i]))
  }

  /** Whether references lead from one of `from` to `a`. */
  ghost predicate Reached(h: Heap, from: set<nat>, a: nat)
    requires Closed(h)
  {
    exists p :: Path(h, p) && p != [] && p[0] in from && p[|p| - 1] == a
  }

  lemma ReachedFirst(h: Heap, from: set<nat>, a: nat)
    requires Closed(h) && a in h && a in from
    ensures Reached(h, from, a)
  {
    assert Path(h, [a]) && [a][0] in from;
  }

  lemma ReachedNext(h: Heap, from: set<nat>, a: nat, b: nat)
    requires Closed(h) && a in h && Reached(h, from, a) && b in References(h, a)
    ensures Reached(h, from, b)
  {
    var p :| Path(h, p) && p != [] && p[0] in from && p[|p| - 1] == a;
    var q := p + [b];
    assert Path(h, q) by {
      forall i | 0 <= i < |q| - 1 ensures q[i + 1] in References(h, q[i]) {
        if i < |p| - 1 { assert q[i] == p[i] && q[i + 1] == p[i + 1]; }
      }
    }
    assert q[0] in from && q[|q| - 1] == b;
  }

  /** A set that holds `from` and what its members refer to holds all that
      is reached. */
  lemma ReachedInside(h: Heap, from: set<nat>, inside: set<nat>, a: nat)
    requires Closed(h) && Reached(h, from, a)
    requires forall x :: x in from && x in h ==> x in inside
    requires forall x, y :: x in inside && x in h && y in References(h, x) ==> y in inside
    ensures a in h && a in inside
  {
    var p :| Path(h, p) && p != [] && p[0] in from && p[|p| - 1] == a;
    PathInside(h, p, inside, |p| - 1);
  }

  lemma {:induction false} PathInside(h: Heap, p: seq<nat>, inside: set<nat>, i: nat)
    requires Closed(h) && Path(h, p) && i < |p| && p[0] in inside
    requires forall x, y :: x in inside && x in h && y in References(h, x) ==> y in inside
    ensures p[i] in inside
  {
    if i > 0 { PathInside(h, p, inside, i - 1); }
  }

  // ---------------------------------------------------------------------
  // Counting references
  // ---------------------------------------------------------------------

  /** The references to `a` from the objects of a set. */
  ghost function RefsFrom(h: Heap, objects: set<nat>, a: nat): nat
    requires Closed(h) && objects <= h.Keys
  {
    if objects == {} then 0
    else
      var one :| one in objects;
      Occurs(References(h, one), a) + RefsFrom(h, objects - {one}, a)
  }

  lemma {:induction false} RefsFromRemoves(h: Heap, objects: set<nat>, a: nat, x: nat)
    requires Closed(h) && objects <= h.Keys && x in objects
    ensures RefsFrom(h, objects, a) == Occurs(References(h, x), a) + RefsFrom(h, objects - {x}, a)
    decreases |objects|
  {
    hide References;
    var one :| one in objects && RefsFrom(h, objects, a) == Occurs(References(h, one), a) + RefsFrom(h,
        objects - {one}, a);
    if one != x {
      RefsFromRemoves(h, objects - {one}, a, x);
      RefsFromRemoves(h, objects - {x}, a, one);
      assert objects - {one} - {x} == objects - {x} - {one};
    }
  }

  /** References from two sets of objects add up. */
  lemma {:induction false} RefsFromSplits(h: Heap, s: set<nat>, t: set<nat>, a: nat)
    requires Closed(h) && s <= h.Keys && t <= h.Keys && s !! t
    ensures RefsFrom(h, s + t, a) == RefsFrom(h, s, a) + RefsFrom(h, t, a)
    decreases |s|
  {
    hide References;
    if s == {} {
      assert s + t == t;
    } else {
      var x :| x in s;
      RefsFromSplits(h, s - {x}, t, a);
      RefsFromRemoves(h, s, a, x);
      RefsFromRemoves(h, s + t, a, x);
      assert s + t - {x} == s - {x} + t;
    }
  }

  /** No reference to `a` means none from any object. */
  lemma {:induction false} NoRefsFrom(h: Heap, objects: set<nat>, a: nat)
    requires Closed(h) && objects <= h.Keys
    ensures RefsFrom(h, objects, a) == 0 <==> forall x :: x in objects ==> a !in References(h, x)
    decreases |objects|
  {
    hide References;
    if objects != {} {
      var x :| x in objects;
      NoRefsFrom(h, objects - {x}, a);
      RefsFromRemoves(h, objects, a, x);
      OccursWhen(References(h, x), a);
    }
  }

  /** Objects that refer to the same things give the same references. */
  lemma {:induction false} SameRefsFrom(h: Heap, h': Heap, objects: set<nat>, a: nat)
    requires Closed(h) && Closed(h') && objects <= h.Keys && objects <= h'.Keys
    requires forall x :: x in objects ==> References(h, x) == References(h', x)
    ensures RefsFrom(h, objects, a) == RefsFrom(h', objects, a)
    decreases |objects|
  {
    hide References;
    if objects != {} {
      var x :| x in objects;
      SameRefsFrom(h, h', objects - {x}, a);
      RefsFromRemoves(h, objects, a, x);
      RefsFromRemoves(h', objects, a, x);
    }
  }

  /** What counts of some references depends on which objects are immortal. */
  lemma {:induction false} SameCounted(h: Heap, h': Heap, refs: seq<nat>)
    requires forall i :: 0 <= i < |refs| ==> refs[i] == 0 || (refs[i] in h && refs[i] in h')
    requires forall i :: 0 <= i < |refs| && refs[i] != 0 ==> (h[refs[i]].rc == IMMORTAL <==> h'[refs[i]].rc == IMMORTAL)
    ensures Counted(h, refs) == Counted(h', refs)
  {
    if refs != [] { SameCounted(h, h', refs[..|refs| - 1]); }
  }

  lemma {:induction false} CountedHas(h: Heap, refs: seq<nat>, a: nat)
    requires forall i :: 0 <= i < |refs| ==> refs[i] == 0 || refs[i] in h
    ensures a in Counted(h, refs) <==> a in refs && a != 0 && h[a].rc != IMMORTAL
  {
    if refs != [] {
      CountedHas(h, refs[..|refs| - 1], a);
      assert refs == refs[..|refs| - 1] + [refs[|refs| - 1]];
    }
  }
}
