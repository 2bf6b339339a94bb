/**
 Deterministic CBOR does not depend on the order members came in (cbor.rs;
 RFC 8949, section 4.2.1).
 */
module CborCanonical {
  import opened Bytes
  import opened CborEncoding
  import opened CborValues
  import opened CborWriter
  import opened Order

  /** The same value with the members of every map in the order of their
      encoded keys. */
  function Canonical(v: Value): Value {
    match v
    case ListValue(items) => ListValue(CanonicalItems(items))
    case MapValue(members) => MapValue(Sort(MemberKey, CanonicalMembers(members)))
    case _ => v
  }

  function CanonicalItems(items: seq<Value>): (r: seq<Value>)
    ensures |r| == |items| && forall i :: 0 <= i < |items| ==> r[i] == Canonical(items[i])
  {
    if items == [] then [] else [Canonical(items[0])] + CanonicalItems(items[1..])
  }

  function CanonicalMembers(members: seq<Member>): (r: seq<Member>)
    ensures |r| == |members| && forall i :: 0 <= i < |members| ==> r[i] == CanonicalMember(members[i])
  {
    if members == [] then [] else [CanonicalMember(members[0])] + CanonicalMembers(members[1..])
  }

  function CanonicalMember(member: Member): Member { Member(member.key, Canonical(member.value)) }

  /** Whether the keys of every map in a value strictly increase, encoded. */
  predicate Ordered(v: Value) {
    match v
    case ListValue(items) => forall i :: 0 <= i < |items| ==> Ordered(items[i])
    case MapValue(members) => Strictly(MemberKey, members) && forall i :: 0 <= i < |members| ==>
        MemberOrdered(members[i])
    case _ => true
  }

  predicate MemberOrdered(member: Member) { Ordered(member.value) }

  // ---------------------------------------------------------------------
  // Deterministic bytes are the canonical value's
  // ---------------------------------------------------------------------

  function EntryOf(member: Member): Entry { Entry(TextBytes(member.key), Encoded(member.value, false)) }

  lemma {:induction false} CanonicalEncodes(v: Value)
    ensures Encoded(v, true) == Encoded(Canonical(v), false)
    decreases v, 1
  {
    hide Head, Joined, Sort;
    match v {
      case ListValue(items) => ItemsEncode(items);
      case MapValue(members) =>
        MembersEncode(members);
        SortedPairs(CanonicalMembers(members));
      case _ =>
    }
  }

  lemma {:induction false} ItemsEncode(items: seq<Value>)
    ensures Items(items, true) == Items(CanonicalItems(items), false)
    decreases items, 0
  {
    hide Encoded, Canonical;
    if items != [] {
      CanonicalEncodes(items[0]);
      ItemsEncode(items[1..]);
    }
  }

  lemma {:induction false} MembersEncode(members: seq<Member>)
    ensures Pairs(members, true) == Pairs(CanonicalMembers(members), false)
    decreases members, 0
  {
    hide Encoded, Canonical;
    if members != [] {
      assert members[0].value < members[0];
      CanonicalEncodes(members[0].value);
      MembersEncode(members[1..]);
    }
  }

  lemma {:induction false} PairsMap(members: seq<Member>)
    ensures Pairs(members, false) == Mapped(EntryOf, members)
  {
    hide Encoded, TextBytes;
    if members != [] { PairsMap(members[1..]); }
  }

  lemma SortedPairs(members: seq<Member>)
    ensures Sort(EntryKey, Pairs(members, false)) == Pairs(Sort(MemberKey, members), false)
    ensures |Sort(MemberKey, members)| == |members|
  {
    hide Encoded, TextBytes, Sort;
    PairsMap(members);
    PairsMap(Sort(MemberKey, members));
    SortMaps(MemberKey, EntryKey, EntryOf, members);
    SortKeeps(MemberKey, members);
  }

  // ---------------------------------------------------------------------
  // Any order
  // ---------------------------------------------------------------------

  /** The same value, but for the order of members at any depth. */
  predicate Reordered(v: Value, w: Value) {
    match (v, w)
    case (ListValue(a), ListValue(b)) => |a| == |b| && forall i :: 0 <= i < |a| ==> Reordered(a[i], b[i])
    case (MapValue(a), MapValue(b)) => SameMembers(a, b)
    case _ => v == w
  }

  /** Every member of each is one of the other. */
  predicate SameMembers(a: seq<Member>, b: seq<Member>) {
    && (forall i :: 0 <= i < |a| ==> Among(a[i], b))
    && (forall j :: 0 <= j < |b| ==> Source(a, b[j]))
  }

  predicate Among(m: Member, b: seq<Member>) { exists j :: 0 <= j < |b| && MemberReordered(m, b[j]) }

  predicate Source(a: seq<Member>, n: Member) { exists i :: 0 <= i < |a| && MemberReordered(a[i], n) }

  predicate MemberReordered(m: Member, n: Member) { m.key == n.key && Reordered(m.value, n.value) }

  lemma {:induction false} ReorderedCanonical(v: Value, w: Value)
    requires Reordered(v, w) && DistinctKeys(v) && DistinctKeys(w)
    ensures Canonical(v) == Canonical(w)
    decreases v, 1
  {
    hide SameMembers, Sort, Distinct, MembersDistinct;
    match (v, w) {
      case (ListValue(a), ListValue(b)) => ReorderedItems(a, b);
      case (MapValue(a), MapValue(b)) => ReorderedMembers(a, b);
      case _ =>
    }
  }

  lemma {:induction false} ReorderedItems(a: seq<Value>, b: seq<Value>)
    requires |a| == |b| && forall i :: 0 <= i < |a| ==> Reordered(a[i], b[i])
    requires AllDistinct(a) && AllDistinct(b)
    ensures CanonicalItems(a) == CanonicalItems(b)
    decreases a, 0
  {
    hide Reordered, DistinctKeys, Canonical;
    if a != [] {
      ReorderedCanonical(a[0], b[0]);
      ReorderedItems(a[1..], b[1..]);
    }
  }

  lemma {:induction false} DistinctItem(items: seq<Value>, i: nat)
    requires i < |items| && AllDistinct(items)
    ensures DistinctKeys(items[i])
  {
    hide DistinctKeys;
    if i > 0 { DistinctItem(items[1..], i - 1); }
  }

  lemma {:induction false} DistinctMember(members: seq<Member>, i: nat)
    requires i < |members| && MembersDistinct(members)
    ensures MemberDistinct(members[i])
  {
    hide MemberDistinct;
    if i > 0 { DistinctMember(members[1..], i - 1); }
  }

  lemma {:induction false} MemberCanonical(m: Member, n: Member)
    requires MemberReordered(m, n) && MemberDistinct(m) && MemberDistinct(n)
    ensures CanonicalMember(m) == CanonicalMember(n)
    decreases m, 0
  {
    hide Canonical;
    ReorderedCanonical(m.value, n.value);
  }

  lemma {:induction false} AmongCanonical(m: Member, b: seq<Member>)
    requires Among(m, b) && MemberDistinct(m) && MembersDistinct(b)
    ensures CanonicalMember(m) in CanonicalMembers(b)
    decreases m, 1
  {
    hide MemberReordered, MemberDistinct, MembersDistinct, CanonicalMember;
    var j :| 0 <= j < |b| && MemberReordered(m, b[j]);
    DistinctMember(b, j);
    MemberCanonical(m, b[j]);
    assert CanonicalMembers(b)[j] == CanonicalMember(m);
  }

  lemma {:induction false} SourceCanonical(a: seq<Member>, n: Member)
    requires Source(a, n) && MemberDistinct(n) && MembersDistinct(a)
    ensures CanonicalMember(n) in CanonicalMembers(a)
    decreases a, 0
  {
    hide MemberReordered, MemberDistinct, MembersDistinct, CanonicalMember;
    var i :| 0 <= i < |a| && MemberReordered(a[i], n);
    DistinctMember(a, i);
    MemberCanonical(a[i], n);
    assert CanonicalMembers(a)[i] == CanonicalMember(n);
  }

  lemma {:induction false} ReorderedMembers(a: seq<Member>, b: seq<Member>)
    requires SameMembers(a, b)
    requires Distinct(MemberKey, a) && Distinct(MemberKey, b) && MembersDistinct(a) && MembersDistinct(b)
    ensures Sort(MemberKey, CanonicalMembers(a)) == Sort(MemberKey, CanonicalMembers(b))
    decreases a, 1
  {
    var ca, cb := CanonicalMembers(a), CanonicalMembers(b);
    hide Sort, CanonicalMembers, CanonicalMember, Among, Source, MemberDistinct, MembersDistinct, Distinct;
    forall i | 0 <= i < |ca| ensures ca[i] in cb {
      DistinctMember(a, i);
      AmongCanonical(a[i], b);
    }
    forall j | 0 <= j < |cb| ensures cb[j] in ca {
      DistinctMember(b, j);
      SourceCanonical(a, b[j]);
    }
    CanonicalDistinct(a);
    CanonicalDistinct(b);
    SortForgets(MemberKey, ca, cb);
  }

  lemma CanonicalDistinct(members: seq<Member>)
    requires Distinct(MemberKey, members)
    ensures Distinct(MemberKey, CanonicalMembers(members))
  {
    hide TextBytes;
    var c := CanonicalMembers(members);
    assert forall i :: 0 <= i < |c| ==> MemberKey(c[i]) == MemberKey(members[i]);
  }

  /** Canonical keys strictly increase at every depth. */
  lemma {:induction false} CanonicalOrdered(v: Value)
    requires DistinctKeys(v)
    ensures Ordered(Canonical(v))
    decreases v
  {
    hide Sort, TextBytes;
    match v {
      case ListValue(items) =>
        forall i | 0 <= i < |items| ensures Ordered(Canonical(items[i])) {
          DistinctItem(items, i);
          CanonicalOrdered(items[i]);
        }
      case MapValue(members) =>
        var c := CanonicalMembers(members);
        var sorted := Sort(MemberKey, c);
        CanonicalDistinct(members);
        SortStrictly(MemberKey, c);
        forall k | 0 <= k < |sorted| ensures MemberOrdered(sorted[k]) {
          Order.Member(sorted, c, sorted[k]);
          var i :| 0 <= i < |c| && c[i] == sorted[k];
          DistinctMember(members, i);
          assert members[i].value < members[i];
          CanonicalOrdered(members[i].value);
        }
      case _ =>
    }
  }

  /** Written deterministically, a value gives the same bytes whatever order its
      members are written in, with the keys of every map strictly increasing. */
  lemma OrderLeavesNoTrace(v: Value, w: Value)
    requires Writable(v) && Writable(w) && DistinctKeys(v) && DistinctKeys(w) && Reordered(v, w)
    ensures Finish(Run(Fresh(true), Ops(v))) == Finish(Run(Fresh(true), Ops(w))) == Encoded(Canonical(v), false)
    ensures Ordered(Canonical(v))
  {
    hide Run, Encoded, Canonical, Reordered, DistinctKeys, Writable;
    Written(v, true);
    Written(w, true);
    CanonicalEncodes(v);
    CanonicalEncodes(w);
    ReorderedCanonical(v, w);
    CanonicalOrdered(v);
  }
}
