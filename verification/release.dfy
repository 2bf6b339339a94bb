/**
 What clearing the garbage cells frees (cycles.rs): their states are taken,
 and releasing them frees by reference counts what then has none left.
 */
module Releases {
  import opened Bytes
  import opened Heap
  import opened Cycles

  /** How many references come from outside the objects: from tasks, from
      variables, from what the runtime holds. */
  type Outside = map<nat, nat>

  /** Each count is the references there are: from the objects, from those
      taken and not yet released, and from outside. */
  ghost predicate Balanced(h: Heap, outside: Outside, owed: seq<nat>) {
    && Closed(h) && h.Keys <= outside.Keys
    && (forall i :: 0 <= i < |owed| ==> owed[i] in h && h[owed[i]].rc != IMMORTAL)
    && (forall a :: a in h && h[a].rc != IMMORTAL ==> h[a].rc == RefsFrom(h, h.Keys, a) + Occurs(owed, a) + outside[a])
  }

  /** Objects that stay whatever is released: each is never freed, is held
      from outside, or is referred to by another of them. */
  ghost predicate Supported(h: Heap, outside: Outside, kept: set<nat>)
    requires Closed(h) && h.Keys <= outside.Keys
  {
    && kept <= h.Keys
    && forall x :: x in kept ==> h[x].rc == IMMORTAL || h[x].rc == 0 || outside[x] > 0 || ReferredFrom(h, kept, x)
  }

  ghost predicate ReferredFrom(h: Heap, objects: set<nat>, x: nat)
    requires Closed(h)
  {
    exists y :: y in objects && y in h && x in References(h, y)
  }

  /** What is left of `before`: some objects, with the same references. */
  ghost predicate LeftOf(before: Heap, after: Heap) {
    && after.Keys <= before.Keys
    && (forall a :: a in after ==> after[a].refs == before[a].refs && after[a].flagged == before[a].flagged)
    && (forall a :: a in after ==> (after[a].rc == 0 <==> before[a].rc == 0)
                                     && (after[a].rc == IMMORTAL <==> before[a].rc == IMMORTAL))
  }

  // ---------------------------------------------------------------------
  // One reference, one object, one cell
  // ---------------------------------------------------------------------

  lemma SameReferences(h: Heap, h': Heap, a: nat)
    requires Closed(h) && Closed(h') && a in h && a in h' && h[a].refs == h'[a].refs
    requires h[a].rc == 0 <==> h'[a].rc == 0
    requires forall r :: r in h && r in h' ==> (h[r].rc == IMMORTAL <==> h'[r].rc == IMMORTAL)
    ensures References(h, a) == References(h', a)
  {
    if h[a].rc != 0 { SameCounted(h, h', h[a].refs); }
  }

  /** A reference goes that is not the last. */
  lemma Decrements(h: Heap, outside: Outside, owed: seq<nat>, target: nat)
    requires Balanced(h, outside, owed + [target]) && target in h && h[target].rc > 1
    ensures var h' := h[target := h[target].(rc := h[target].rc - 1)];
            Balanced(h', outside, owed) && LeftOf(h, h')
  {
    hide References, RefsFrom;
    assert (owed + [target])[|owed|] == target;
    assert forall i :: 0 <= i < |owed| ==> (owed + [target])[i] == owed[i];
    var h' := h[target := h[target].(rc := h[target].rc - 1)];
    assert h'.Keys == h.Keys;
    forall a | a in h ensures References(h, a) == References(h', a) { SameReferences(h, h', a); }
    forall a | a in h' && h'[a].rc != IMMORTAL
      ensures h'[a].rc == RefsFrom(h', h'.Keys, a) + Occurs(owed, a) + outside[a]
    {
      SameRefsFrom(h, h', h.Keys, a);
      OneMore(owed, target, a);
    }
  }

  lemma OneMore(owed: seq<nat>, target: nat, a: nat)
    ensures Occurs(owed + [target], a) == Occurs(owed, a) + (if a == target then 1 else 0)
  {
    assert (owed + [target])[..|owed|] == owed;
  }

  /** The last reference to an object means no object refers to it. */
  lemma LastReference(h: Heap, outside: Outside, owed: seq<nat>, target: nat)
    requires Balanced(h, outside, owed + [target]) && target in h && h[target].rc == 1
    ensures outside[target] == 0 && Occurs(owed, target) == 0
    ensures forall y :: y in h ==> target !in References(h, y)
  {
    hide References, RefsFrom;
    assert (owed + [target])[|owed|] == target;
    OneMore(owed, target, target);
    NoRefsFrom(h, h.Keys, target);
  }

  lemma FreedCloses(h: Heap, target: nat)
    requires Closed(h) && target in h && h[target].rc != IMMORTAL
    requires forall y :: y in h ==> target !in References(h, y)
    ensures Closed(h - {target})
  {
    var h' := h - {target};
    forall a, i | a in h' && h'[a].rc != 0 && 0 <= i < |h'[a].refs|
      ensures h'[a].refs[i] == 0 || h'[a].refs[i] in h'
    {
      CountedHas(h, h[a].refs, target);
      assert target !in References(h, a);
    }
  }

  /** The last reference goes: the object too, which owes those it held. */
  lemma Frees(h: Heap, outside: Outside, owed: seq<nat>, target: nat)
    requires Balanced(h, outside, owed + [target]) && target in h && h[target].rc == 1
    ensures Balanced(h - {target}, outside, owed + References(h, target)) && LeftOf(h, h - {target})
  {
    hide References, RefsFrom;
    LastReference(h, outside, owed, target);
    FreedCloses(h, target);
    var h', held := h - {target}, References(h, target);
    assert h'.Keys == h.Keys - {target};
    forall a | a in h' ensures References(h, a) == References(h', a) { SameReferences(h, h', a); }
    assert forall i :: 0 <= i < |owed| ==> (owed + [target])[i] == owed[i];
    OccursWhen(owed, target);
    forall i | 0 <= i < |owed + held|
      ensures (owed + held)[i] in h' && h'[(owed + held)[i]].rc != IMMORTAL
    {
      if i < |owed| {
        assert owed[i] in owed;
      } else {
        assert (owed + held)[i] == held[i - |owed|] && held[i - |owed|] in held;
      }
    }
    forall a | a in h' && h'[a].rc != IMMORTAL
      ensures h'[a].rc == RefsFrom(h', h'.Keys, a) + Occurs(owed + held, a) + outside[a]
    {
      RefsFromRemoves(h, h.Keys, a, target);
      SameRefsFrom(h, h', h'.Keys, a);
      OneMore(owed, target, a);
      OccursAppends(owed, held, a);
    }
  }

  /** A cell gives up its state, which owes the references it held. */
  lemma Clears(h: Heap, outside: Outside, owed: seq<nat>, cell: nat)
    requires Balanced(h, outside, owed) && cell in h
    ensures var h' := h[cell := h[cell].(refs := [])];
            Balanced(h', outside, owed + References(h, cell))
  {
    hide References, RefsFrom;
    var h', held := h[cell := h[cell].(refs := [])], References(h, cell);
    assert h'.Keys == h.Keys;
    assert Closed(h');
    forall a | a in h && a != cell ensures References(h, a) == References(h', a) { SameReferences(h, h', a); }
    NoReferences(h', cell);
    forall a | a in h' && h'[a].rc != IMMORTAL
      ensures h'[a].rc == RefsFrom(h', h'.Keys, a) + Occurs(owed + held, a) + outside[a]
    {
      RefsFromRemoves(h, h.Keys, a, cell);
      RefsFromRemoves(h', h'.Keys, a, cell);
      SameRefsFrom(h, h', h.Keys - {cell}, a);
      OccursAppends(owed, held, a);
    }
  }

  lemma NoReferences(h: Heap, cell: nat)
    requires Closed(h) && cell in h && h[cell].refs == []
    ensures References(h, cell) == [] && forall a :: Occurs(References(h, cell), a) == 0
  {
  }

  /** What is supported stays so when something else goes. */
  lemma StaysSupported(h: Heap, h': Heap, outside: Outside, kept: set<nat>)
    requires Closed(h) && Closed(h') && h.Keys <= outside.Keys && LeftOf(h, h')
    requires Supported(h, outside, kept) && kept <= h'.Keys
    ensures Supported(h', outside, kept)
  {
    hide References;
    forall x | x in kept
      ensures h'[x].rc == IMMORTAL || h'[x].rc == 0 || outside[x] > 0 || ReferredFrom(h', kept, x)
    {
      if ReferredFrom(h, kept, x) {
        var y :| y in kept && y in h && x in References(h, y);
        SameReferences(h, h', y);
      }
    }
  }

  // ---------------------------------------------------------------------
  // Releasing
  // ---------------------------------------------------------------------

  class Store {
    var objects: Heap

    constructor (h: Heap)
      ensures objects == h
    {
      objects := h;
    }

    /** Lets one reference go; the last frees the object, and then lets go
        those it held. Releasing a null reference or an immortal does nothing,
        so only the others are owed. */
    method Release(target: nat, ghost outside: Outside, ghost owed: seq<nat>, ghost kept: set<nat>)
      requires Balanced(objects, outside, owed + [target]) && Supported(objects, outside, kept)
      modifies this
      ensures Balanced(objects, outside, owed) && Supported(objects, outside, kept)
      ensures LeftOf(old(objects), objects)
      decreases |objects|, 1
    {
      ghost var all := owed + [target];
      assert all[|owed|] == target;
      CountPositive(objects, outside, owed, target);
      var rc := objects[target].rc - 1;
      if rc != 0 {
        Decrements(objects, outside, owed, target);
        StaysSupported(objects, objects[target := objects[target].(rc := rc)], outside, kept);
        objects := objects[target := objects[target].(rc := rc)];
        return;
      }
      var held := References(objects, target);
      Frees(objects, outside, owed, target);
      NotKept(objects, outside, owed, target, kept);
      StaysSupported(objects, objects - {target}, outside, kept);
      objects := objects - {target};
      ReleaseAll(held, outside, owed, kept);
    }

    /** Lets references go, one after another. */
    method ReleaseAll(held: seq<nat>, ghost outside: Outside, ghost owed: seq<nat>, ghost kept: set<nat>)
      requires Balanced(objects, outside, owed + held) && Supported(objects, outside, kept)
      modifies this
      ensures Balanced(objects, outside, owed) && Supported(objects, outside, kept)
      ensures LeftOf(old(objects), objects)
      decreases |objects|, 2
    {
      var k := 0;
      assert held[0..] == held;
      while k < |held|
        invariant k <= |held|
        invariant Balanced(objects, outside, owed + held[k..]) && Supported(objects, outside, kept)
        invariant LeftOf(old(objects), objects) && |objects| <= |old(objects)|
      {
        Reordered(objects, outside, owed, held, k);
        ghost var before := objects;
        Release(held[k], outside, owed + held[k + 1..], kept);
        Fewer(objects, before);
        k := k + 1;
      }
      assert owed + held[k..] == owed;
    }
  }

  lemma CountPositive(h: Heap, outside: Outside, owed: seq<nat>, target: nat)
    requires Balanced(h, outside, owed + [target])
    ensures target in h && 0 < h[target].rc < IMMORTAL
  {
    assert (owed + [target])[|owed|] == target;
    OneMore(owed, target, target);
  }

  lemma NotKept(h: Heap, outside: Outside, owed: seq<nat>, target: nat, kept: set<nat>)
    requires Balanced(h, outside, owed + [target]) && target in h && h[target].rc == 1 && Supported(h, outside, kept)
    ensures target !in kept && kept <= (h - {target}).Keys
  {
    hide References;
    LastReference(h, outside, owed, target);
  }

  lemma Fewer(after: Heap, before: Heap)
    requires after.Keys <= before.Keys
    ensures |after| <= |before|
  {
    SubsetSize(after.Keys, before.Keys);
  }

  lemma {:induction false} SubsetSize(a: set<nat>, b: set<nat>)
    requires a <= b
    ensures |a| <= |b|
  {
    if a != {} {
      var x :| x in a;
      SubsetSize(a - {x}, b - {x});
    }
  }

  /** Which reference owed goes first does not matter. */
  lemma Reordered(h: Heap, outside: Outside, owed: seq<nat>, held: seq<nat>, k: nat)
    requires k < |held| && Balanced(h, outside, owed + held[k..])
    ensures Balanced(h, outside, owed + held[k + 1..] + [held[k]])
  {
    hide RefsFrom;
    var s, t := owed + held[k..], owed + held[k + 1..] + [held[k]];
    assert held[k..] == [held[k]] + held[k + 1..];
    forall a ensures Occurs(s, a) == Occurs(t, a) {
      OccursAppends(owed, held[k..], a);
      OccursAppends([held[k]], held[k + 1..], a);
      OccursAppends(owed + held[k + 1..], [held[k]], a);
      OccursAppends(owed, held[k + 1..], a);
    }
    forall i | 0 <= i < |t| ensures t[i] in h && h[t[i]].rc != IMMORTAL {
      assert t[i] in s;
    }
  }

  // ---------------------------------------------------------------------
  // Garbage, by counts that are right
  // ---------------------------------------------------------------------

  lemma ImmortalUncounted(h: Heap, objects: set<nat>, a: nat)
    requires Closed(h) && objects <= h.Keys && a in h && h[a].rc == IMMORTAL
    ensures RefsFrom(h, objects, a) == 0
  {
    NoRefsFrom(h, objects, a);
  }

  /** What a collection finds is closed under references. */
  lemma FoundCloses(h: Heap, cells: seq<nat>, x: nat, y: nat)
    requires Closed(h) && x in Found(h, cells) && y in References(h, x)
    ensures y in Found(h, cells)
  {
    hide Reached;
    ReachedNext(h, (set c | c in cells), x, y);
  }

  /** Nothing outside holds garbage: no task or variable, no object that is
      not garbage too. */
  lemma GarbageIsUnheld(h: Heap, outside: Outside, cells: seq<nat>, g: nat)
    requires Balanced(h, outside, []) && Garbage(h, Found(h, cells), g)
    ensures g in h && h[g].rc != IMMORTAL && h[g].rc != 0 && !h[g].flagged && outside[g] == 0
    ensures forall y :: y in h && g in References(h, y) ==> Garbage(h, Found(h, cells), y)
  {
    hide Reached, References, RefsFrom;
    var found := Found(h, cells);
    var held := HeldOf(h, found);
    if Held(h, found, g) { ReachedFirst(h, held, g); }
    if h[g].rc == IMMORTAL { ImmortalUncounted(h, found, g); }
    assert h[g].rc == RefsFrom(h, h.Keys, g) + outside[g] by { NothingOwed(h, outside, g); }
    RefsFromSplits(h, found, h.Keys - found, g);
    assert found + (h.Keys - found) == h.Keys;
    NoRefsFrom(h, h.Keys - found, g);
    forall y | y in h && g in References(h, y)
      ensures Garbage(h, found, y)
    {
      if Reached(h, held, y) { ReachedNext(h, held, y, g); }
    }
  }

  lemma NothingOwed(h: Heap, outside: Outside, a: nat)
    requires Balanced(h, outside, []) && a in h && h[a].rc != IMMORTAL
    ensures h[a].rc == RefsFrom(h, h.Keys, a) + outside[a]
  {
  }

  /** What the program, or the runtime, holds. */
  ghost function Roots(h: Heap, outside: Outside): set<nat>
    requires h.Keys <= outside.Keys
  {
    set x | x in h && (outside[x] > 0 || h[x].flagged || h[x].rc == 0 || h[x].rc == IMMORTAL)
  }

  /** The objects that are not garbage. */
  ghost function Rest(h: Heap, cells: seq<nat>): set<nat>
    requires Closed(h)
  {
    set x | x in h && !Garbage(h, Found(h, cells), x)
  }

  /** The garbage that keeps its state. */
  ghost function Hidden(h: Heap, cells: seq<nat>, cleared: set<nat>): set<nat>
    requires Closed(h)
  {
    set a | a in h && Garbage(h, Found(h, cells), a) && a !in cleared
  }

  /** No references lead from what the program holds to garbage. */
  lemma GarbageIsUnreachable(h: Heap, outside: Outside, cells: seq<nat>, g: nat)
    requires Balanced(h, outside, []) && Garbage(h, Found(h, cells), g)
    ensures !Reached(h, Roots(h, outside), g)
  {
    hide Reached, Garbage, References, RefsFrom;
    var roots := Roots(h, outside);
    var inside := set x | x in h && !Garbage(h, Found(h, cells), x);
    forall x | x in roots ensures x in inside {
      if Garbage(h, Found(h, cells), x) { GarbageIsUnheld(h, outside, cells, x); }
    }
    forall x, y | x in inside && x in h && y in References(h, x) ensures y in inside {
      if Garbage(h, Found(h, cells), y) { GarbageIsUnheld(h, outside, cells, y); }
    }
    if Reached(h, roots, g) { ReachedInside(h, roots, inside, g); }
  }

  lemma Referrer(h: Heap, outside: Outside, cells: seq<nat>, x: nat) returns (y: nat)
    requires Balanced(h, outside, []) && x in h && !Garbage(h, Found(h, cells), x)
    requires h[x].rc != IMMORTAL && h[x].rc != 0 && outside[x] == 0 && !h[x].flagged
    ensures y in h && x in References(h, y) && !Garbage(h, Found(h, cells), y)
  {
    hide Reached, References, RefsFrom;
    var found := Found(h, cells);
    var held := HeldOf(h, found);
    NothingOwed(h, outside, x);
    if x !in found {
      NoRefsFrom(h, h.Keys, x);
      y :| y in h && x in References(h, y);
      if y in found { FoundCloses(h, cells, y, x); }
    } else if x in held {
      RefsFromSplits(h, found, h.Keys - found, x);
      assert found + (h.Keys - found) == h.Keys;
      NoRefsFrom(h, h.Keys - found, x);
      y :| y in h.Keys - found && x in References(h, y);
    } else {
      y := ReachedFrom(h, held, x);
    }
  }

  /** What is reached is a start itself, or referred to by what is reached. */
  lemma ReachedFrom(h: Heap, from: set<nat>, x: nat) returns (y: nat)
    requires Closed(h) && Reached(h, from, x)
    ensures (y == x && x in from) || (y in h && Reached(h, from, y) && x in References(h, y))
  {
    hide References;
    var p :| Path(h, p) && p != [] && p[0] in from && p[|p| - 1] == x;
    if |p| == 1 {
      y := x;
    } else {
      y := p[|p| - 2];
      var q := p[0..|p| - 1];
      PartOfPath(h, p, 0, |p| - 1);
      assert q[0] in from && q[|q| - 1] == y;
      assert p[|p| - 2 + 1] in References(h, p[|p| - 2]);
    }
  }

  // ---------------------------------------------------------------------
  // Cycles
  // ---------------------------------------------------------------------

  /** References that lead from an object of a set back to it, inside it. */
  ghost predicate Cycle(h: Heap, inside: set<nat>, p: seq<nat>)
    requires Closed(h)
  {
    Path(h, p) && |p| >= 2 && p[0] == p[|p| - 1] && forall i :: 0 <= i < |p| ==> p[i] in inside
  }

  ghost function Members(p: seq<nat>): set<nat> { set i | 0 <= i < |p| :: p[i] }

  /** The objects of a cycle keep each other. */
  lemma CycleIsSupported(h: Heap, outside: Outside, inside: set<nat>, p: seq<nat>)
    requires Closed(h) && h.Keys <= outside.Keys && Cycle(h, inside, p)
    ensures Supported(h, outside, Members(p))
  {
    hide References;
    var kept := Members(p);
    forall x | x in kept
      ensures ReferredFrom(h, kept, x)
    {
      var i :| 0 <= i < |p| && p[i] == x;
      var j := if i == 0 then |p| - 2 else i - 1;
      assert p[j + 1] in References(h, p[j]) && p[j] in kept;
    }
  }

  lemma PartOfPath(h: Heap, p: seq<nat>, i: nat, j: nat)
    requires Closed(h) && Path(h, p) && i <= j <= |p|
    ensures Path(h, p[i..j])
  {
    hide References;
    var q := p[i..j];
    forall k | 0 <= k < |q| - 1 ensures q[k + 1] in References(h, q[k]) {
      assert q[k] == p[i + k] && q[k + 1] == p[i + k + 1];
    }
  }

  /** Following the references into a set's members back, each from another,
      comes round. */
  lemma ComesRound(h: Heap, inside: set<nat>, around: set<nat>)
    requires Closed(h) && inside != {} && inside <= h.Keys && inside <= around
    requires forall x :: x in inside ==> ReferredFrom(h, inside, x)
    ensures exists p :: Cycle(h, around, p)
  {
    hide References, ReferredFrom, Path;
    var p := Backwards(h, inside, |inside| + 1);
    var i, j := Twice(p, inside);
    PartOfPath(h, p, i, j + 1);
    assert Cycle(h, around, p[i..j + 1]);
  }

  lemma {:induction false} Backwards(h: Heap, inside: set<nat>, n: nat) returns (p: seq<nat>)
    requires Closed(h) && inside != {} && inside <= h.Keys && n > 0
    requires forall x :: x in inside ==> ReferredFrom(h, inside, x)
    ensures |p| == n && Path(h, p) && forall i :: 0 <= i < |p| ==> p[i] in inside
  {
    hide References;
    if n == 1 {
      var x :| x in inside;
      p := [x];
    } else {
      var q := Backwards(h, inside, n - 1);
      assert ReferredFrom(h, inside, q[0]);
      var y :| y in inside && y in h && q[0] in References(h, y);
      p := [y] + q;
      forall i | 0 <= i < |p| - 1 ensures p[i + 1] in References(h, p[i]) {
        if i > 0 { assert p[i] == q[i - 1] && p[i + 1] == q[i]; }
      }
    }
  }

  /** A longer sequence than its members are many has one of them twice. */
  lemma {:induction false} Twice(p: seq<nat>, members: set<nat>) returns (i: nat, j: nat)
    requires |p| > |members| && forall k :: 0 <= k < |p| ==> p[k] in members
    ensures i < j < |p| && p[i] == p[j]
    decreases |p|
  {
    var last := p[|p| - 1];
    if k :| 0 <= k < |p| - 1 && p[k] == last {
      i, j := k, |p| - 1;
    } else {
      i, j := Twice(p[..|p| - 1], members - {last});
    }
  }

  // ---------------------------------------------------------------------
  // A collection frees the garbage
  // ---------------------------------------------------------------------

  /** What is left of the objects after some cells gave up their states. */
  ghost predicate LeftCleared(before: Heap, cleared: set<nat>, after: Heap) {
    && after.Keys <= before.Keys
    && (forall a :: a in after ==> after[a].refs == (if a in cleared then [] else before[a].refs))
    && (forall a :: a in after ==> (after[a].rc == 0 <==> before[a].rc == 0)
                                     && (after[a].rc == IMMORTAL <==> before[a].rc == IMMORTAL))
  }

  /** Garbage that is left is referred to by garbage left that kept its state. */
  lemma LeftReferrer(h: Heap, outside: Outside, cells: seq<nat>, cleared: set<nat>, after: Heap, g: nat)
      returns (y: nat)
    requires Balanced(h, outside, []) && Garbage(h, Found(h, cells), g)
    requires Balanced(after, outside, []) && LeftCleared(h, cleared, after) && g in after
    ensures y in after && y !in cleared && Garbage(h, Found(h, cells), y) && g in References(h, y)
  {
    hide References, RefsFrom, Garbage;
    GarbageIsUnheld(h, outside, cells, g);
    NothingOwed(after, outside, g);
    NoRefsFrom(after, after.Keys, g);
    y :| y in after && g in References(after, y);
    if y in cleared { NoReferences(after, y); }
    SameReferences(h, after, y);
  }

  /** If every cycle of garbage passes through a cell that gave up its state,
      no garbage is left once the references are released. */
  lemma AllFreed(h: Heap, outside: Outside, cells: seq<nat>, cleared: set<nat>, after: Heap)
    requires Balanced(h, outside, []) && Balanced(after, outside, []) && LeftCleared(h, cleared, after)
    requires forall p :: !Cycle(h, Hidden(h, cells, cleared), p)
    ensures forall g :: Garbage(h, Found(h, cells), g) ==> g !in after
  {
    hide Garbage, References, RefsFrom;
    var hidden := Hidden(h, cells, cleared);
    var left := set a | a in hidden && a in after;
    forall a | a in left
      ensures ReferredFrom(h, left, a)
    {
      var y := LeftReferrer(h, outside, cells, cleared, after, a);
      assert y in left;
    }
    forall g | Garbage(h, Found(h, cells), g)
      ensures g !in after
    {
      if g in after {
        var y := LeftReferrer(h, outside, cells, cleared, after, g);
        assert y in left;
        ComesRound(h, left, hidden);
      }
    }
  }

  /** The garbage whose state is taken: what can be cleared of it. */
  ghost function Cleared(h: Heap, cells: seq<nat>, clearable: set<nat>): set<nat>
    requires Closed(h)
  {
    set a | a in clearable && Garbage(h, Found(h, cells), a)
  }

  /** Whether every cycle of garbage passes through a cell that is cleared. */
  ghost predicate CyclesBroken(h: Heap, cells: seq<nat>, clearable: set<nat>)
    requires Closed(h)
  {
    forall p :: !Cycle(h, Hidden(h, cells, Cleared(h, cells, clearable)), p)
  }

  lemma BalancedCloses(h: Heap, outside: Outside)
    requires Balanced(h, outside, [])
    ensures Closed(h) && h.Keys <= outside.Keys
  {
  }

  // ---------------------------------------------------------------------
  // What stays
  // ---------------------------------------------------------------------

  /** The heap once cells have given up their states. */
  function Emptied(h: Heap, cleared: set<nat>): Heap {
    map a | a in h :: if a in cleared then h[a].(refs := []) else h[a]
  }

  /** The objects that stay when all that is owed is released: those of any
      set whose members keep themselves. */
  ghost function Lasting(h: Heap, outside: Outside): set<nat>
    requires Closed(h) && h.Keys <= outside.Keys
  {
    set x | x in h && exists kept :: Supported(h, outside, kept) && x in kept
  }

  lemma LastingSupported(h: Heap, outside: Outside)
    requires Closed(h) && h.Keys <= outside.Keys
    ensures Supported(h, outside, Lasting(h, outside))
  {
    hide References;
    forall x | x in Lasting(h, outside)
      ensures h[x].rc == IMMORTAL || h[x].rc == 0 || outside[x] > 0 || ReferredFrom(h, Lasting(h, outside), x)
    {
      var kept :| Supported(h, outside, kept) && x in kept;
      if ReferredFrom(h, kept, x) {
        var y :| y in kept && y in h && x in References(h, y);
        assert y in Lasting(h, outside);
      }
    }
  }

  /** What is left, with nothing owed, keeps itself. */
  lemma LeftIsSupported(h: Heap, outside: Outside, after: Heap)
    requires Closed(h) && h.Keys <= outside.Keys && Balanced(after, outside, []) && LeftOf(h, after)
    ensures Supported(h, outside, after.Keys)
  {
    hide References, RefsFrom;
    forall x | x in after.Keys
      ensures h[x].rc == IMMORTAL || h[x].rc == 0 || outside[x] > 0 || ReferredFrom(h, after.Keys, x)
    {
      if h[x].rc != IMMORTAL && h[x].rc != 0 && outside[x] == 0 {
        NothingOwed(after, outside, x);
        NoRefsFrom(after, after.Keys, x);
        var y :| y in after && x in References(after, y);
        SameReferences(h, after, y);
      }
    }
  }

  lemma EmptiedCloses(h: Heap, cleared: set<nat>)
    requires Closed(h)
    ensures Closed(Emptied(h, cleared)) && Emptied(h, cleared).Keys == h.Keys
    ensures forall y :: y in h && y !in cleared ==> References(Emptied(h, cleared), y) == References(h, y)
  {
    hide References;
    forall y | y in h && y !in cleared ensures References(Emptied(h, cleared), y) == References(h, y) {
      SameReferences(h, Emptied(h, cleared), y);
    }
  }

  /** Emptying other cells does not matter to what keeps itself. */
  lemma EmptiedSupports(h: Heap, outside: Outside, kept: set<nat>, cleared: set<nat>)
    requires Closed(h) && h.Keys <= outside.Keys && Closed(Emptied(h, cleared)) && kept !! cleared
    ensures Supported(h, outside, kept) <==> Supported(Emptied(h, cleared), outside, kept)
  {
    hide References;
    EmptiedCloses(h, cleared);
    var e := Emptied(h, cleared);
    forall x ensures ReferredFrom(h, kept, x) <==> ReferredFrom(e, kept, x) {
      if ReferredFrom(h, kept, x) {
        var y :| y in kept && y in h && x in References(h, y);
        assert y in e && x in References(e, y);
      }
      if ReferredFrom(e, kept, x) {
        var y :| y in kept && y in e && x in References(e, y);
        assert y in h && x in References(h, y);
      }
    }
  }

  /** Only what is flagged as held may fail to be kept by the rest. */
  lemma FlaggedDecide(h: Heap, outside: Outside, cells: seq<nat>)
    requires Balanced(h, outside, [])
    ensures Supported(h, outside, Rest(h, cells)) <==>
            forall x ::
              x in Rest(h, cells) && h[x].flagged && h[x].rc != IMMORTAL && h[x].rc != 0 && outside[x] == 0 ==>
              ReferredFrom(h, Rest(h, cells), x)
  {
    hide Reached, References, RefsFrom, Garbage;
    forall x | x in Rest(h, cells) && !h[x].flagged && h[x].rc != IMMORTAL && h[x].rc != 0 && outside[x] == 0
      ensures ReferredFrom(h, Rest(h, cells), x)
    {
      var y := Referrer(h, outside, cells, x);
      assert y in Rest(h, cells);
    }
  }

  // ---------------------------------------------------------------------
  // A collection
  // ---------------------------------------------------------------------

  /** The clearable among the first of the garbage. */
  ghost function ClearedOf(garbage: seq<nat>, clearable: set<nat>): set<nat> {
    set a | a in garbage && a in clearable
  }

  /** Empties a cell; its references are then owed. */
  method Take(store: Store, cell: nat, ghost outside: Outside, ghost owed: seq<nat>) returns (taken: seq<nat>)
    requires Balanced(store.objects, outside, owed) && cell in store.objects
    modifies store
    ensures Balanced(store.objects, outside, owed + taken)
    ensures store.objects == old(store.objects)[cell := old(store.objects)[cell].(refs := [])]
  {
    hide References, RefsFrom;
    Clears(store.objects, outside, owed, cell);
    taken := References(store.objects, cell);
    store.objects := store.objects[cell := store.objects[cell].(refs := [])];
  }

  lemma ClearedMore(h: Heap, garbage: seq<nat>, clearable: set<nat>, k: nat)
    requires k < |garbage| && garbage[k] in h
    ensures var before := Emptied(h, ClearedOf(garbage[..k], clearable));
            Emptied(h, ClearedOf(garbage[..k + 1], clearable)) ==
              if garbage[k] in clearable then before[garbage[k] := before[garbage[k]].(refs := [])] else before
  {
    assert garbage[..k + 1] == garbage[..k] + [garbage[k]];
    assert forall a :: a in garbage[..k + 1] <==> a in garbage[..k] || a == garbage[k];
  }

  /** Takes the states of the garbage cells. */
  method TakeAll(store: Store, garbage: seq<nat>, clearable: set<nat>, ghost outside: Outside) returns (taken: seq<nat>)
    requires Balanced(store.objects, outside, [])
    requires forall i :: 0 <= i < |garbage| ==> garbage[i] in store.objects
    modifies store
    ensures Balanced(store.objects, outside, taken)
    ensures store.objects == Emptied(old(store.objects), ClearedOf(garbage, clearable))
  {
    ghost var h := store.objects;
    taken := [];
    var k := 0;
    assert Emptied(h, ClearedOf(garbage[..0], clearable)) == h;
    hide Balanced, ClearedOf;
    while k < |garbage|
      invariant k <= |garbage| && Balanced(store.objects, outside, taken)
      invariant store.objects == Emptied(h, ClearedOf(garbage[..k], clearable))
    {
      ClearedMore(h, garbage, clearable, k);
      if garbage[k] in clearable {
        var state := Take(store, garbage[k], outside, taken);
        taken := taken + state;
      }
      k := k + 1;
    }
    assert garbage[..k] == garbage;
  }

  /** What being left exactly with what lasts means for garbage and the rest. */
  lemma Summary(h: Heap, outside: Outside, cells: seq<nat>, clearable: set<nat>, after: Heap)
    requires Balanced(h, outside, []) && Balanced(after, outside, [])
    requires var emptied := Emptied(h, Cleared(h, cells, clearable));
             Closed(emptied) && LeftOf(emptied, after) && after.Keys == Lasting(emptied, outside)
    ensures LeftCleared(h, Cleared(h, cells, clearable), after)
    ensures CyclesBroken(h, cells, clearable) <==> forall g :: Garbage(h, Found(h, cells), g) ==> g !in after
    ensures CyclesBroken(h, cells, clearable) ==>
            (Rest(h, cells) <= after.Keys <==> Supported(h, outside, Rest(h, cells)))
  {
    hide Garbage, Cycle, Balanced, References;
    BalancedCloses(h, outside);
    var cleared := Cleared(h, cells, clearable);
    var emptied := Emptied(h, cleared);
    var rest := Rest(h, cells);
    EmptiedSupports(h, outside, rest, cleared);
    if CyclesBroken(h, cells, clearable) {
      AllFreed(h, outside, cells, cleared, after);
      LeftIsSupported(emptied, outside, after);
      if rest <= after.Keys { assert rest == after.Keys; }
    } else {
      var p :| Cycle(h, Hidden(h, cells, cleared), p);
      CycleStays(h, outside, cells, cleared, p);
    }
  }

  /** An unbroken cycle of garbage lasts. */
  lemma CycleStays(h: Heap, outside: Outside, cells: seq<nat>, cleared: set<nat>, p: seq<nat>)
    requires Closed(h) && h.Keys <= outside.Keys && Closed(Emptied(h, cleared))
             && Cycle(h, Hidden(h, cells, cleared), p)
    ensures exists g :: Garbage(h, Found(h, cells), g) && g in Lasting(Emptied(h, cleared), outside)
  {
    hide Garbage, References, Path;
    CycleIsSupported(h, outside, Hidden(h, cells, cleared), p);
    EmptiedSupports(h, outside, Members(p), cleared);
    assert p[0] in Members(p) && Garbage(h, Found(h, cells), p[0]);
  }

  lemma ClearedAre(h: Heap, cells: seq<nat>, garbage: seq<nat>, clearable: set<nat>)
    requires Closed(h) && forall a :: a in garbage <==> Garbage(h, Found(h, cells), a)
    ensures ClearedOf(garbage, clearable) == Cleared(h, cells, clearable)
    ensures forall i :: 0 <= i < |garbage| ==> garbage[i] in h
  {
    hide Reached;
    forall i | 0 <= i < |garbage| ensures garbage[i] in h { assert garbage[i] in garbage; }
  }

  /** A whole collection, on a store whose counts are right: the garbage is
      found, the cells that can be are cleared, and what they held released. */
  method Collect(store: Store, cells: seq<nat>, clearable: set<nat>, ghost outside: Outside)
    requires Balanced(store.objects, outside, [])
    requires forall i :: 0 <= i < |cells| ==> cells[i] in store.objects
    requires forall i, j :: 0 <= i < j < |cells| ==> cells[i] != cells[j]
    modifies store
    // Each count is what is left of the references to its object.
    ensures Balanced(store.objects, outside, [])
    ensures LeftCleared(old(store.objects), Cleared(old(store.objects), cells, clearable), store.objects)
    // What stays is exactly what then keeps itself.
    ensures var emptied := Emptied(old(store.objects), Cleared(old(store.objects), cells, clearable));
            Closed(emptied) && emptied.Keys <= outside.Keys && store.objects.Keys == Lasting(emptied, outside)
    // All garbage is freed exactly when every cycle of it is broken.
    ensures var h := old(store.objects);
            CyclesBroken(h, cells, clearable) <==> forall g :: Garbage(h, Found(h, cells), g) ==> g !in store.objects
    // Then nothing else is exactly when the rest keeps itself.
    ensures var h := old(store.objects);
            CyclesBroken(h, cells, clearable) ==>
              (Rest(h, cells) <= store.objects.Keys <==> Supported(h, outside, Rest(h, cells)))
  {
    hide Garbage, Cycle, Balanced, LeftCleared, CyclesBroken, Rest, Supported, Cleared, Emptied, Lasting;
    ghost var h := store.objects;
    BalancedCloses(h, outside);
    var garbage := CountAndMark(store.objects, cells);
    ClearedAre(h, cells, garbage, clearable);
    // The states are all taken before any is released.
    var taken := TakeAll(store, garbage, clearable, outside);
    ghost var emptied := store.objects;
    EmptiedCloses(h, Cleared(h, cells, clearable));
    ghost var kept := Lasting(emptied, outside);
    LastingSupported(emptied, outside);
    assert [] + taken == taken;
    store.ReleaseAll(taken, outside, [], kept);
    LeftIsLasting(emptied, outside, store.objects);
    Summary(h, outside, cells, clearable, store.objects);
  }

  lemma LeftIsLasting(h: Heap, outside: Outside, after: Heap)
    requires Closed(h) && h.Keys <= outside.Keys && Balanced(after, outside, []) && LeftOf(h, after)
    requires Supported(after, outside, Lasting(h, outside))
    ensures after.Keys == Lasting(h, outside)
  {
    hide Balanced;
    LeftIsSupported(h, outside, after);
    forall x | x in after ensures x in Lasting(h, outside) {
      assert x in after.Keys;
    }
  }

  // ---------------------------------------------------------------------
  // An object flagged as held that goes
  // ---------------------------------------------------------------------

  /** A garbage cell that refers to itself and to an object with no other
      reference that is flagged as held. */
  const LOST: Heap := map[8 := Object(1, [8, 16], false), 16 := Object(1, [], true)]

  lemma LostReferences()
    ensures Closed(LOST) && References(LOST, 8) == [8, 16] && References(LOST, 16) == []
  {
    LostCloses();
    var one: seq<nat> := [8];
    var both: seq<nat> := [8, 16];
    assert both[..1] == one && one[..0] == [];
    assert Counted(LOST, []) == [];
    assert Counted(LOST, one) == one;
    assert Counted(LOST, both) == both;
  }

  lemma LostCloses()
    ensures Closed(LOST)
  {
  }

  const UNSHOWN: Outside := map[8 := 0, 16 := 0]

  lemma LostRefsFrom(a: nat)
    ensures Closed(LOST) && LOST.Keys == {8, 16}
    ensures RefsFrom(LOST, {8, 16}, a) == (if a == 8 || a == 16 then 1 else 0)
  {
    hide References;
    LostReferences();
    RefsFromRemoves(LOST, {8, 16}, a, 8);
    RefsFromRemoves(LOST, {16}, a, 16);
    assert {8, 16} - {8} == {16} && {16} - {16} == {};
    assert [8, 16][..1] == [8] && [8][..0] == [];
    assert Occurs([], a) == 0 && Occurs([8], a) == (if a == 8 then 1 else 0);
  }

  lemma LostIsGarbage()
    ensures Closed(LOST) && forall a :: a in LOST ==> (Garbage(LOST, Found(LOST, [8, 16]), a) <==> a == 8)
  {
    hide References, Reached, RefsFrom;
    LostReferences();
    LostRefsFrom(8);
    var from := set c | c in [8, 16];
    ReachedFirst(LOST, from, 8);
    ReachedFirst(LOST, from, 16);
    var found := Found(LOST, [8, 16]);
    assert found == {8, 16};
    var held := HeldOf(LOST, found);
    assert held == {16};
    ReachedFirst(LOST, held, 16);
    if Reached(LOST, held, 8) { ReachedInside(LOST, held, {16}, 8); }
  }

  /** Counts are right, the cycle of garbage is broken, and what is not garbage
      does not keep itself. */
  lemma FlaggedIsUnkept()
    ensures Balanced(LOST, UNSHOWN, []) && CyclesBroken(LOST, [8, 16], {8, 16})
    ensures Rest(LOST, [8, 16]) == {16} && !Supported(LOST, UNSHOWN, {16})
  {
    hide References, RefsFrom, Garbage, Found;
    LostReferences();
    LostIsGarbage();
    LostRefsFrom(8);
    LostRefsFrom(16);
    assert Hidden(LOST, [8, 16], Cleared(LOST, [8, 16], {8, 16})) == {};
    assert !ReferredFrom(LOST, {16}, 16);
  }

  /** The object flagged as held is freed with the garbage that refers to it. */
  method FreesFlagged() returns (left: Heap)
    ensures left == map[]
  {
    hide Balanced, Supported, CyclesBroken, Rest, Garbage, Found, Lasting, Emptied, Cleared, LeftCleared;
    FlaggedIsUnkept();
    LostIsGarbage();
    var store := new Store(LOST);
    Collect(store, [8, 16], {8, 16}, UNSHOWN);
    left := store.objects;
    assert 8 !in left && 16 !in left;
    LostLeft(left, [8, 16], {8, 16});
  }

  lemma LostLeft(left: Heap, cells: seq<nat>, clearable: set<nat>)
    requires Closed(LOST) && LeftCleared(LOST, Cleared(LOST, cells, clearable), left) && 8 !in left && 16 !in left
    ensures left == map[]
  {
    assert left.Keys == {};
  }
}
