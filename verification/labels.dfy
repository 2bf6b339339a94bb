/**
 The table of label sets (labels.rs): a set is given a number, its slot and
 the generation of that slot, and a new set takes the slots in turn.
 */
module Labels {
  import opened Arith
  import opened Bytes

  const SLOTS := 4096
  const GENERATIONS := 0x10_0000

  /** A set of names and values; the empty one has the number 0. */
  type Labels = seq<(bytes, bytes)>

  /** A table: its slots with the generation each is in, the next slot to use, and
      where each kept set is. */
  datatype State = State(slots: seq<(nat, Labels)>, next: nat, known: map<Labels, nat>)

  const EMPTY := State(seq(SLOTS, _ => (0, [])), 1, map[])

  /** `slot | generation << 12`, in 32 bits. */
  function Packed(slot: nat, generation: nat): nat { slot + SLOTS * generation }
  function SlotOf(number: nat): nat { number % SLOTS }
  function GenerationOf(number: nat): nat { number / SLOTS }

  /** The map of numbers agrees with the slots, in both directions. */
  ghost predicate Valid(s: State) {
    && |s.slots| == SLOTS && 1 <= s.next < SLOTS
    && (forall i :: 0 <= i < SLOTS ==> s.slots[i].0 < GENERATIONS)
    && s.slots[0].1 == []
    && (forall labels :: labels in s.known ==> Keeps(s, labels))
    && (forall i :: 0 < i < SLOTS && s.slots[i].1 != [] ==>
          s.slots[i].1 in s.known && s.known[s.slots[i].1] == Packed(i, s.slots[i].0))
  }

  /** A known set is in the slot, with the generation, that its number says. */
  ghost predicate Keeps(s: State, labels: Labels)
    requires |s.slots| == SLOTS && labels in s.known
  {
    var n := s.known[labels];
    labels != [] && 0 < SlotOf(n) && s.slots[SlotOf(n)] == (GenerationOf(n), labels)
  }

  lemma PackedParts(slot: nat, generation: nat)
    requires slot < SLOTS
    ensures SlotOf(Packed(slot, generation)) == slot && GenerationOf(Packed(slot, generation)) == generation
    ensures generation < GENERATIONS ==> Packed(slot, generation) < 0x1_0000_0000
  {
  }

  function Interned(s: State, labels: Labels): (State, nat)
    requires Valid(s)
  {
    if labels == [] then (s, 0)
    else if labels in s.known then (s, s.known[labels])
    else
      var (generation, replaced) := s.slots[s.next];
      var taken := (generation + 1) % GENERATIONS;
      var number := Packed(s.next, taken);
      (State(s.slots[s.next := (taken, labels)],
             if s.next + 1 == SLOTS then 1 else s.next + 1,
             (s.known - {replaced})[labels := number]),
       number)
  }

  function Got(s: State, number: nat): Option<Labels>
    requires |s.slots| == SLOTS
  {
    if number == 0 then None
    else
      var (generation, labels) := s.slots[SlotOf(number)];
      if generation == GenerationOf(number) then Some(labels) else None
  }

  /** The table of the process, made when the first set comes. */
  class Table {
    var made: bool
    var slots: seq<(nat, Labels)>
    var next: nat
    var known: map<Labels, nat>

    ghost function Abstract(): State
      reads this
    {
      if made then State(slots, next, known) else EMPTY
    }

    ghost predicate Ok()
      reads this
    {
      Valid(Abstract())
    }

    constructor ()
      ensures Ok() && Abstract() == EMPTY && !made
    {
      made, slots, next, known := false, [], 0, map[];
      new;
      EmptyValid();
    }

    method Intern(labels: Labels) returns (number: nat)
      requires Ok()
      modifies this
      ensures Ok()
      ensures (Abstract(), number) == Interned(old(Abstract()), labels)
    {
      hide Valid;
      Shape(Abstract());
      InternedValid(Abstract(), labels);
      if labels == [] { return 0; }
      if !made {
        made, slots, next, known := true, seq(SLOTS, _ => (0, [])), 1, map[];
      }
      if labels in known { return known[labels]; }
      var slot := next;
      next := if slot + 1 == SLOTS then 1 else slot + 1;
      var (generation, replaced) := slots[slot];
      known := known - {replaced};
      generation := (generation + 1) % GENERATIONS;
      slots := slots[slot := (generation, labels)];
      number := Packed(slot, generation);
      known := known[labels := number];
    }

    method Get(number: nat) returns (labels: Option<Labels>)
      requires Ok()
      ensures !made ==> labels == None
      ensures made ==> labels == Got(Abstract(), number)
    {
      if number == 0 || !made { return None; }
      var (generation, kept) := slots[SlotOf(number)];
      return if generation == GenerationOf(number) then Some(kept) else None;
    }
  }

  lemma Shape(s: State)
    requires Valid(s)
    ensures |s.slots| == SLOTS && 1 <= s.next < SLOTS
  {
  }

  lemma EmptyValid()
    ensures Valid(EMPTY)
  {
  }

  /** Interning keeps the agreement, and gives a number that names the set. */
  lemma InternedValid(s: State, labels: Labels)
    requires Valid(s)
    ensures var (t, n) := Interned(s, labels);
            && Valid(t)
            && n < 0x1_0000_0000
            && (labels != [] ==> n != 0 && labels in t.known && t.known[labels] == n && Got(t, n) == Some(labels))
  {
    var (t, n) := Interned(s, labels);
    if labels != [] && labels in s.known {
      assert Keeps(s, labels);
    } else if labels != [] {
      var replaced := s.slots[s.next].1;
      PackedParts(s.next, t.slots[s.next].0);
      forall other | other in t.known
        ensures Keeps(t, other)
      {
        if other != labels { assert Keeps(s, other); }
      }
      forall i | 0 < i < SLOTS && t.slots[i].1 != []
        ensures t.slots[i].1 in t.known && t.known[t.slots[i].1] == Packed(i, t.slots[i].0)
      {
        if i != s.next {
          PackedParts(i, s.slots[i].0);
          if s.slots[i].1 == replaced { PackedParts(s.next, s.slots[s.next].0); assert false; }
        }
      }
    }
  }

  // ---------------------------------------------------------------------
  // Runs
  // ---------------------------------------------------------------------

  predicate New(s: State, labels: Labels) { labels != [] && labels !in s.known }

  /** The table after interning sets one after another. */
  ghost function After(s: State, sets: seq<Labels>): State
    requires Valid(s)
    decreases |sets|
  {
    if sets == [] then s
    else
      InternedValid(s, sets[0]);
      After(Interned(s, sets[0]).0, sets[1..])
  }

  /** How many of them the table did not keep when they came. */
  ghost function NewIn(s: State, sets: seq<Labels>): nat
    requires Valid(s)
    decreases |sets|
  {
    if sets == [] then 0
    else
      InternedValid(s, sets[0]);
      (if New(s, sets[0]) then 1 else 0) + NewIn(Interned(s, sets[0]).0, sets[1..])
  }

  /** `k` new sets came since `slot` was taken with `generation`. */
  ghost predicate Since(s: State, slot: nat, generation: nat, labels: Labels, k: nat)
    requires Valid(s)
  {
    && 0 < slot < SLOTS
    && s.next == (slot + k) % (SLOTS - 1) + 1
    && s.slots[slot].0 == (generation + k / (SLOTS - 1)) % GENERATIONS
    && (k < SLOTS - 1 ==> s.slots[slot].1 == labels)
  }

  /** One turn of the slots: where the next new set goes, and when it takes
      the slot followed. */
  lemma Turn(slot: nat, k: nat)
    requires 0 < slot < SLOTS
    ensures var n := SLOTS - 1;
            var next := (slot + k) % n + 1;
            && (next == slot ==> k + 1 >= n)
            && (k + 1) / n == k / n + (if next == slot then 1 else 0)
            && (slot + (k + 1)) % n + 1 == (if next + 1 == SLOTS then 1 else next + 1)
  {
    var n := SLOTS - 1;
    var q, r := k / n, k % n;
    if slot + r < n {
      Euclid(slot + k, n, q, slot + r);
    } else {
      Euclid(slot + k, n, q + 1, slot + r - n);
    }
    if r + 1 < n { Euclid(k + 1, n, q, r + 1); } else { Euclid(k + 1, n, q + 1, 0); }
    var next := (slot + k) % n + 1;
    if next == n {
      Euclid(slot + k + 1, n, (slot + k) / n + 1, 0);
    } else {
      Euclid(slot + k + 1, n, (slot + k) / n, next);
    }
  }

  lemma Older(generation: nat, rounds: nat)
    ensures ((generation + rounds) % GENERATIONS + 1) % GENERATIONS == (generation + (rounds + 1)) % GENERATIONS
  {
    var x := generation + rounds;
    var q, r := x / GENERATIONS, x % GENERATIONS;
    if r + 1 < GENERATIONS { Euclid(x + 1, GENERATIONS, q, r + 1); } else { Euclid(x + 1, GENERATIONS, q + 1, 0); }
  }

  lemma SinceStep(s: State, slot: nat, generation: nat, labels: Labels, k: nat, another: Labels)
    requires Valid(s) && Since(s, slot, generation, labels, k)
    ensures var t := Interned(s, another).0;
            Valid(t) && Since(t, slot, generation, labels, if New(s, another) then k + 1 else k)
  {
    InternedValid(s, another);
    hide Valid;
    Turn(slot, k);
    Older(generation, k / (SLOTS - 1));
  }

  lemma {:induction false} SinceRun(s: State, slot: nat, generation: nat, labels: Labels, k: nat, sets: seq<Labels>)
    requires Valid(s) && Since(s, slot, generation, labels, k)
    ensures var t := After(s, sets);
            Valid(t) && Since(t, slot, generation, labels, k + NewIn(s, sets))
    decreases sets
  {
    if sets != [] {
      SinceStep(s, slot, generation, labels, k, sets[0]);
      InternedValid(s, sets[0]);
      SinceRun(Interned(s, sets[0]).0, slot, generation, labels, if New(s, sets[0]) then k + 1 else k, sets[1..]);
    }
  }

  /** A new set's number names it until 4095 other new sets came; from then
      on, until its slot's 20-bit generation has gone round, it names none. */
  lemma NumberLives(s: State, labels: Labels, sets: seq<Labels>)
    requires Valid(s) && New(s, labels)
    ensures var (t, number) := Interned(s, labels);
            && Valid(t) && Valid(After(t, sets))
            && (NewIn(t, sets) < SLOTS - 1 ==> Got(After(t, sets), number) == Some(labels))
            && (SLOTS - 1 <= NewIn(t, sets) < (SLOTS - 1) * GENERATIONS ==> Got(After(t, sets), number) == None)
  {
    InternedValid(s, labels);
    var (t, number) := Interned(s, labels);
    var slot, generation := s.next, t.slots[s.next].0;
    PackedParts(slot, generation);
    assert slot % (SLOTS - 1) + 1 == t.next;
    SinceRun(t, slot, generation, labels, 0, sets);
    var k := NewIn(t, sets);
    if SLOTS - 1 <= k < (SLOTS - 1) * GENERATIONS { NotYetRound(generation, k); }
  }

  lemma NotYetRound(generation: nat, k: nat)
    requires generation < GENERATIONS && SLOTS - 1 <= k < (SLOTS - 1) * GENERATIONS
    ensures (generation + k / (SLOTS - 1)) % GENERATIONS != generation
  {
    var rounds := k / (SLOTS - 1);
    assert 1 <= rounds < GENERATIONS;
  }

  /** The table keeps at most 4095 sets. */
  lemma KeepsFew(s: State)
    requires Valid(s)
    ensures |s.known| <= SLOTS - 1
  {
    var taken := set labels | labels in s.known :: SlotOf(s.known[labels]);
    forall a, b | a in s.known && b in s.known && SlotOf(s.known[a]) == SlotOf(s.known[b])
      ensures a == b
    {
      assert Keeps(s, a) && Keeps(s, b);
    }
    SameSize(s.known.Keys, taken, s);
    forall labels | labels in s.known ensures 0 < SlotOf(s.known[labels]) { assert Keeps(s, labels); }
    BoundedSize(taken, SLOTS - 1);
  }

  lemma {:induction false} SameSize(keys: set<Labels>, slots: set<nat>, s: State)
    requires keys <= s.known.Keys
    requires slots == set labels | labels in keys :: SlotOf(s.known[labels])
    requires forall a, b :: a in keys && b in keys && SlotOf(s.known[a]) == SlotOf(s.known[b]) ==> a == b
    ensures |keys| == |slots|
  {
    if keys != {} {
      var one :| one in keys;
      var slot := SlotOf(s.known[one]);
      var fewer := keys - {one};
      assert slots - {slot} == set labels | labels in fewer :: SlotOf(s.known[labels]);
      SameSize(fewer, slots - {slot}, s);
    }
  }

  lemma {:induction false} BoundedSize(slots: set<nat>, n: nat)
    requires forall x :: x in slots ==> 0 < x <= n
    ensures |slots| <= n
  {
    if n == 0 {
      assert slots == {};
    } else {
      BoundedSize(slots - {n}, n - 1);
    }
  }
}
