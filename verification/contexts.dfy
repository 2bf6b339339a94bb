/**
 The contexts of the tasks (contexts.rs): tables of references that never
 change, shared by counts, against the plain environments they stand for.
 */
module Contexts {
  import opened Bytes

  /** A table: how many hold it, and a reference for each context. */
  datatype Table = Table(count: nat, slots: seq<nat>)

  type Tables = map<nat, Table>

  /** What holds a table: a task, a `with` block of a task for when it ends,
      by how many enclose it, or a capture. */
  datatype Holder = Running(task: nat) | Block(task: nat, depth: nat) | Captured(capture: nat)

  // ---------------------------------------------------------------------
  // Plain environments
  // ---------------------------------------------------------------------

  /** The setting of each context for each holder, and how many blocks each
      task is in. */
  datatype Plain = Plain(envs: map<Holder, seq<nat>>, depths: map<nat, nat>)

  predicate Known(p: Plain, task: nat) { task in p.depths && Running(task) in p.envs }

  /** A block begins with other settings; those before are kept for its end. */
  function Entered(p: Plain, task: nat, env: seq<nat>): Plain
    requires Known(p, task)
  {
    var depth := p.depths[task];
    Plain(p.envs[Block(task, depth) := p.envs[Running(task)]][Running(task) := env], p.depths[task := depth + 1])
  }

  predicate InBlock(p: Plain, task: nat) {
    Known(p, task) && p.depths[task] > 0 && Block(task, p.depths[task] - 1) in p.envs
  }

  /** The block ends: the settings before it come back. */
  function Ended(p: Plain, task: nat): Plain
    requires InBlock(p, task)
  {
    var block := Block(task, p.depths[task] - 1);
    Plain((p.envs - {block})[Running(task) := p.envs[block]], p.depths[task := p.depths[task] - 1])
  }

  /** A capture, or a task another spawns, has the settings of the moment. */
  function Shared(p: Plain, from: Holder, to: Holder): Plain
    requires from in p.envs
  {
    Plain(p.envs[to := p.envs[from]], if to.Running? then p.depths[to.task := 0] else p.depths)
  }

  /** A task that ended, or a capture let go, has none. */
  function Dropped(p: Plain, h: Holder): Plain {
    Plain(p.envs - {h}, if h.Running? then p.depths - {h.task} else p.depths)
  }

  // ---------------------------------------------------------------------
  // Counting
  // ---------------------------------------------------------------------

  /** The holders of a table; 0 is none. */
  ghost function HoldersOf(holds: map<Holder, nat>, table: nat): set<Holder> {
    set h | h in holds && holds[h] == table
  }

  /** How often the tables of a set refer to a value. */
  ghost function SlotsOf(tables: Tables, ids: set<nat>, ref: nat): nat
    requires ids <= tables.Keys
  {
    if ids == {} then 0
    else
      var one :| one in ids;
      Occurs(tables[one].slots, ref) + SlotsOf(tables, ids - {one}, ref)
  }

  lemma {:induction false} SlotsOfRemoves(tables: Tables, ids: set<nat>, ref: nat, x: nat)
    requires ids <= tables.Keys && x in ids
    ensures SlotsOf(tables, ids, ref) == Occurs(tables[x].slots, ref) + SlotsOf(tables, ids - {x}, ref)
    decreases |ids|
  {
    hide Occurs;
    var one :| one in ids && SlotsOf(tables, ids, ref)
                             == Occurs(tables[one].slots, ref) + SlotsOf(tables, ids - {one}, ref);
    if one != x {
      SlotsOfRemoves(tables, ids - {one}, ref, x);
      SlotsOfRemoves(tables, ids - {x}, ref, one);
      assert ids - {one} - {x} == ids - {x} - {one};
    }
  }

  lemma {:induction false} SlotsOfSame(a: Tables, b: Tables, ids: set<nat>, ref: nat)
    requires ids <= a.Keys && ids <= b.Keys && forall id :: id in ids ==> a[id].slots == b[id].slots
    ensures SlotsOf(a, ids, ref) == SlotsOf(b, ids, ref)
    decreases |ids|
  {
    hide Occurs;
    if ids != {} {
      var x :| x in ids;
      SlotsOfSame(a, b, ids - {x}, ref);
      SlotsOfRemoves(a, ids, ref, x);
      SlotsOfRemoves(b, ids, ref, x);
    }
  }

  /** Each table's count is its holders, but for one that `dropping` lost and
      that is still to be counted out. */
  ghost predicate TablesCounted(tables: Tables, holds: map<Holder, nat>, dropping: nat) {
    && 0 !in tables
    && (forall h :: h in holds && holds[h] != 0 ==> holds[h] in tables)
    && (forall id :: id in tables ==> tables[id].count == |HoldersOf(holds, id)| + (if id == dropping then 1 else 0))
    && (forall id :: id in tables ==> tables[id].count > 0)
  }

  /** How many references there are to a value: from other code, from the
      tables and the initial values', and from those being let go. */
  ghost function Uses(tables: Tables, root: seq<nat>, outside: map<nat, nat>, owed: seq<nat>, ref: nat): nat
    requires ref in outside
  {
    outside[ref] + Occurs(root, ref) + SlotsOf(tables, tables.Keys, ref) + Occurs(owed, ref)
  }

  ghost predicate RefsCounted(tables: Tables, root: seq<nat>, refs: map<nat, nat>, outside: map<nat, nat>,
                              owed: seq<nat>) {
    && (forall id, i :: id in tables && 0 <= i < |tables[id].slots| ==> tables[id].slots[i] in refs)
    && (forall i :: 0 <= i < |root| ==> root[i] in refs)
    && (forall i :: 0 <= i < |owed| ==> owed[i] in refs)
    && (forall ref :: ref in refs ==>
          ref in outside && refs[ref] > 0 && refs[ref] == Uses(tables, root, outside, owed, ref))
  }

  // ---------------------------------------------------------------------
  // One step of counting
  // ---------------------------------------------------------------------

  /** A holder more, one less, and one in place of another. */
  lemma HolderMore(holds: map<Holder, nat>, h: Holder, table: nat)
    requires h !in holds
    ensures forall t :: |HoldersOf(holds[h := table], t)| == |HoldersOf(holds, t)| + (if t == table then 1 else 0)
  {
    forall t ensures |HoldersOf(holds[h := table], t)| == |HoldersOf(holds, t)| + (if t == table then 1 else 0) {
      OneHolderMore(holds, h, table, t);
    }
  }

  lemma OneHolderMore(holds: map<Holder, nat>, h: Holder, table: nat, t: nat)
    requires h !in holds
    ensures |HoldersOf(holds[h := table], t)| == |HoldersOf(holds, t)| + (if t == table then 1 else 0)
  {
    var before, after := HoldersOf(holds, t), HoldersOf(holds[h := table], t);
    if t == table { assert after == before + {h}; } else { assert after == before; }
  }

  lemma HolderLess(holds: map<Holder, nat>, h: Holder)
    requires h in holds
    ensures forall t :: |HoldersOf(holds, t)| == |HoldersOf(holds - {h}, t)| + (if t == holds[h] then 1 else 0)
  {
    HolderMore(holds - {h}, h, holds[h]);
    assert (holds - {h})[h := holds[h]] == holds;
  }

  lemma HolderRenamed(holds: map<Holder, nat>, h: Holder, k: Holder)
    requires h in holds && k !in holds
    ensures forall t :: |HoldersOf((holds - {h})[k := holds[h]], t)| == |HoldersOf(holds, t)|
  {
    HolderLess(holds, h);
    HolderMore(holds - {h}, k, holds[h]);
  }

  /** A task enters a block with another table, which counts it already. */
  lemma EnterCounts(tables: Tables, holds: map<Holder, nat>, task: nat, depth: nat, table: nat, after: Tables)
    requires TablesCounted(tables, holds, 0) && Running(task) in holds && Block(task, depth) !in holds
    requires after.Keys == tables.Keys + (if table == 0 then {} else {table}) && 0 !in after
    requires forall id :: id in after ==>
             after[id].count == (if id in tables then tables[id].count else 0) + (if id == table then 1 else 0)
    requires table !in tables && table != 0 ==> forall h :: h in holds ==> holds[h] != table
    ensures TablesCounted(after, holds[Block(task, depth) := holds[Running(task)]][Running(task) := table], 0)
  {
    var renamed := (holds - {Running(task)})[Block(task, depth) := holds[Running(task)]];
    HolderRenamed(holds, Running(task), Block(task, depth));
    HolderMore(renamed, Running(task), table);
    assert renamed[Running(task) := table] == holds[Block(task, depth) := holds[Running(task)]][Running(task) := table];
    if table !in tables && table != 0 { assert HoldersOf(holds, table) == {}; }
  }

  /** A block ends, and its table is the task's again; the one before is still
      to be counted out. */
  lemma LeaveCounts(tables: Tables, holds: map<Holder, nat>, task: nat, depth: nat)
    requires TablesCounted(tables, holds, 0) && Running(task) in holds && Block(task, depth) in holds
    ensures TablesCounted(tables, (holds - {Block(task, depth)})[Running(task) := holds[Block(task, depth)]],
            holds[Running(task)])
  {
    var fewer := holds - {Running(task)};
    HolderLess(holds, Running(task));
    HolderRenamed(fewer, Block(task, depth), Running(task));
    assert (fewer - {Block(task, depth)})[Running(task) := fewer[Block(task, depth)]]
        == (holds - {Block(task, depth)})[Running(task) := holds[Block(task, depth)]];
  }

  /** Each slot's count one more, as often as it is there. */
  function Retained(refs: map<nat, nat>, slots: seq<nat>): (r: map<nat, nat>)
    ensures r.Keys == refs.Keys && forall ref :: ref in refs ==> r[ref] == refs[ref] + Occurs(slots, ref)
  {
    map ref | ref in refs :: refs[ref] + Occurs(slots, ref)
  }

  /** More references of a value's slots, as a table is made of them. */
  lemma TableMade(tables: Tables, root: seq<nat>, refs: map<nat, nat>, outside: map<nat, nat>, id: nat, made: Table)
    requires RefsCounted(tables, root, refs, outside, []) && id !in tables
    requires forall i :: 0 <= i < |made.slots| ==> made.slots[i] in refs
    ensures RefsCounted(tables[id := made], root, Retained(refs, made.slots), outside, [])
  {
    hide Occurs;
    var after := tables[id := made];
    var more := Retained(refs, made.slots);
    assert more.Keys == refs.Keys;
    assert forall i, k :: i in after && 0 <= k < |after[i].slots| ==> after[i].slots[k] in more;
    forall ref | ref in more
      ensures more[ref] == refs[ref] + Occurs(made.slots, ref)
      ensures Uses(after, root, outside, [], ref) == Uses(tables, root, outside, [], ref) + Occurs(made.slots, ref)
    {
      SlotsOfRemoves(after, after.Keys, ref, id);
      assert after.Keys - {id} == tables.Keys;
      SlotsOfSame(after, tables, tables.Keys, ref);
    }
  }

  /** A table goes, and owes the references of its slots. */
  lemma TableFreed(tables: Tables, root: seq<nat>, refs: map<nat, nat>, outside: map<nat, nat>, id: nat)
    requires RefsCounted(tables, root, refs, outside, []) && id in tables
    ensures RefsCounted(tables - {id}, root, refs, outside, tables[id].slots)
  {
    hide Occurs;
    var after, slots := tables - {id}, tables[id].slots;
    forall ref | ref in refs
      ensures Uses(after, root, outside, slots, ref) == Uses(tables, root, outside, [], ref)
    {
      SlotsOfRemoves(tables, tables.Keys, ref, id);
      assert tables.Keys - {id} == after.Keys;
      SlotsOfSame(tables, after, after.Keys, ref);
      NoOccurs(ref);
    }
  }

  lemma NoOccurs(ref: nat)
    ensures Occurs([], ref) == 0
  {
  }

  /** Tables whose counts alone differ refer to the same values. */
  lemma CountsOnly(tables: Tables, after: Tables, root: seq<nat>, refs: map<nat, nat>, outside: map<nat, nat>,
                   owed: seq<nat>)
    requires RefsCounted(tables, root, refs, outside, owed) && after.Keys == tables.Keys
    requires forall id :: id in tables ==> after[id].slots == tables[id].slots
    ensures RefsCounted(after, root, refs, outside, owed)
  {
    hide Occurs;
    forall ref | ref in refs
      ensures Uses(after, root, outside, owed, ref) == Uses(tables, root, outside, owed, ref)
    {
      SlotsOfSame(tables, after, tables.Keys, ref);
    }
  }

  /** One reference owed goes; the last frees the value. */
  lemma RefReleased(tables: Tables, root: seq<nat>, refs: map<nat, nat>, outside: map<nat, nat>, owed: seq<nat>,
                    ref: nat)
    requires RefsCounted(tables, root, refs, outside, [ref] + owed)
    ensures ref in refs && refs[ref] > 0
    ensures RefsCounted(tables, root, if refs[ref] == 1 then refs - {ref} else refs[ref := refs[ref] - 1], outside,
            owed)
  {
    assert ([ref] + owed)[0] == ref;
    assert forall i :: 0 <= i < |owed| ==> ([ref] + owed)[i + 1] == owed[i];
    forall other | other in refs
      ensures Occurs([ref] + owed, other) == Occurs(owed, other) + (if other == ref then 1 else 0)
    {
      OccursAppends([ref], owed, other);
      assert [ref][..0] == [];
    }
    if refs[ref] == 1 { LastUse(tables, root, refs, outside, owed, ref); }
  }

  lemma LastUse(tables: Tables, root: seq<nat>, refs: map<nat, nat>, outside: map<nat, nat>, owed: seq<nat>, ref: nat)
    requires ref in outside && Uses(tables, root, outside, owed, ref) == 0
    ensures ref !in root && ref !in owed && forall id :: id in tables ==> ref !in tables[id].slots
  {
    hide Occurs;
    OccursWhen(root, ref);
    OccursWhen(owed, ref);
    forall id | id in tables ensures ref !in tables[id].slots {
      SlotsOfRemoves(tables, tables.Keys, ref, id);
      OccursWhen(tables[id].slots, ref);
    }
  }

  // ---------------------------------------------------------------------
  // The contexts of the program
  // ---------------------------------------------------------------------

  /** The settings a table gives, the initial values' for none. */
  function SettingsOf(tables: Tables, root: seq<nat>, table: nat): seq<nat>
    requires table == 0 || table in tables
  {
    if table == 0 then root else tables[table].slots
  }

  ghost predicate AllThere(tables: Tables, holds: map<Holder, nat>) {
    forall h :: h in holds ==> holds[h] == 0 || holds[h] in tables
  }

  /** The plain environments that tables and their holders stand for. */
  ghost function PlainOf(tables: Tables, root: seq<nat>, holds: map<Holder, nat>, depths: map<nat, nat>): Plain
    requires AllThere(tables, holds)
  {
    Plain(map h | h in holds :: SettingsOf(tables, root, holds[h]), depths)
  }

  lemma SamePlain(tables: Tables, after: Tables, root: seq<nat>, holds: map<Holder, nat>, depths: map<nat, nat>)
    requires AllThere(tables, holds) && AllThere(after, holds)
    requires forall h :: h in holds && holds[h] != 0 ==> after[holds[h]].slots == tables[holds[h]].slots
    ensures PlainOf(after, root, holds, depths) == PlainOf(tables, root, holds, depths)
  {
  }

  /** A task that holds another table as a block begins has its settings. */
  lemma PlainEnters(tables: Tables, after: Tables, root: seq<nat>, holds: map<Holder, nat>, depths: map<nat, nat>,
                    task: nat, table: nat)
    requires AllThere(tables, holds) && task in depths && Running(task) in holds && (table == 0 || table in after)
    requires forall id :: id in tables ==> id in after && after[id].slots == tables[id].slots
    ensures var now := holds[Block(task, depths[task]) := holds[Running(task)]][Running(task) := table];
            && AllThere(after, now)
            && PlainOf(after, root, now, depths[task := depths[task] + 1])
                 == Entered(PlainOf(tables, root, holds, depths), task, SettingsOf(after, root, table))
  {
    var now := holds[Block(task, depths[task]) := holds[Running(task)]][Running(task) := table];
    assert PlainOf(after, root, now, depths).envs
        == Entered(PlainOf(tables, root, holds, depths), task, SettingsOf(after, root, table)).envs;
  }

  lemma PlainLeaves(tables: Tables, root: seq<nat>, holds: map<Holder, nat>, depths: map<nat, nat>, task: nat)
    requires AllThere(tables, holds) && task in depths && depths[task] > 0
    requires Running(task) in holds && Block(task, depths[task] - 1) in holds
    ensures var block := Block(task, depths[task] - 1);
            var now := (holds - {block})[Running(task) := holds[block]];
            && AllThere(tables, now)
            && PlainOf(tables, root, now, depths[task := depths[task] - 1]) ==
                Ended(PlainOf(tables, root, holds, depths), task)
  {
    var block := Block(task, depths[task] - 1);
    var now := (holds - {block})[Running(task) := holds[block]];
    assert PlainOf(tables, root, now, depths).envs == Ended(PlainOf(tables, root, holds, depths), task).envs;
  }

  /** Each task holds a table, and keeps one for each block it is in. */
  ghost predicate Nested(holds: map<Holder, nat>, depths: map<nat, nat>) {
    && (forall task :: task in depths <==> Running(task) in holds)
    && (forall task, depth :: Block(task, depth) in holds <==> task in depths && depth < depths[task])
  }

  lemma NestedTask(holds: map<Holder, nat>, depths: map<nat, nat>, task: nat)
    requires Nested(holds, depths) && task in depths
    ensures Running(task) in holds && Block(task, depths[task]) !in holds
    ensures depths[task] > 0 ==> Block(task, depths[task] - 1) in holds
  {
  }

  lemma NestedEnters(holds: map<Holder, nat>, depths: map<nat, nat>, task: nat, kept: nat, table: nat)
    requires Nested(holds, depths) && task in depths
    ensures Nested(holds[Block(task, depths[task]) := kept][Running(task) := table], depths[task := depths[task] + 1])
  {
  }

  lemma NestedLeaves(holds: map<Holder, nat>, depths: map<nat, nat>, task: nat, table: nat)
    requires Nested(holds, depths) && task in depths && depths[task] > 0
    ensures Nested((holds - {Block(task, depths[task] - 1)})[Running(task) := table], depths[task := depths[task] - 1])
  {
  }

  lemma NestedShares(holds: map<Holder, nat>, depths: map<nat, nat>, to: Holder, table: nat)
    requires Nested(holds, depths) && to !in holds && !to.Block?
    ensures Nested(holds[to := table], if to.Running? then depths[to.task := 0] else depths)
  {
  }

  lemma NestedDrops(holds: map<Holder, nat>, depths: map<nat, nat>, h: Holder)
    requires Nested(holds, depths) && h in holds && !h.Block?
             && (h.Running? ==> h.task in depths && depths[h.task] == 0)
    ensures Nested(holds - {h}, if h.Running? then depths - {h.task} else depths)
  {
  }

  class Contexts {
    var tables: Tables
    /** The initial values' table, which is not counted. */
    const root: seq<nat>
    var holds: map<Holder, nat>
    var depths: map<nat, nat>
    /** The count of each value there is a reference to. */
    var refs: map<nat, nat>
    /** Where the next table is made. */
    var next: nat

    /** A program starts with one task, which has the initial values. */
    constructor (initial: seq<nat>, counts: map<nat, nat>, ghost outside: map<nat, nat>)
      requires RefsCounted(map[], initial, counts, outside, [])
      ensures Valid(outside) && root == initial && refs == counts
      ensures Value() == Plain(map[Running(0) := initial], map[0 := 0])
    {
      root, refs, tables, next := initial, counts, map[], 1;
      holds, depths := map[Running(0) := 0], map[0 := 0];
    }

    /** Each task holds a table, or none for the initial values; each block it
        is in keeps one for its end. */
    ghost predicate Shaped()
      reads this
    {
      && (forall id :: id in tables ==> 0 < id < next && |tables[id].slots| == |root|) && next > 0
      && AllThere(tables, holds)
      && Nested(holds, depths)
    }

    ghost predicate Valid(outside: map<nat, nat>)
      reads this
    {
      Shaped() && TablesCounted(tables, holds, 0) && RefsCounted(tables, root, refs, outside, [])
    }

    ghost function Value(): Plain
      requires Shaped()
      reads this
    {
      PlainOf(tables, root, holds, depths)
    }

    /** The `Ref` of a context's value where a task runs. */
    method Get(task: nat, index: nat, ghost outside: map<nat, nat>) returns (ref: nat)
      requires Valid(outside) && task in depths && index < |root|
      ensures |Value().envs[Running(task)]| == |root| && ref == Value().envs[Running(task)][index] && ref in refs
    {
      ref := SettingsOf(tables, root, holds[Running(task)])[index];
    }

    method Retain(slots: seq<nat>)
      requires forall i :: 0 <= i < |slots| ==> slots[i] in refs
      modifies this`refs
      ensures refs == Retained(old(refs), slots)
    {
      var k := 0;
      assert slots[..0] == [];
      while k < |slots|
        invariant k <= |slots| && refs == Retained(old(refs), slots[..k])
      {
        refs := refs[slots[k] := refs[slots[k]] + 1];
        assert slots[..k + 1][..k] == slots[..k];
        k := k + 1;
      }
      assert slots[..k] == slots;
    }

    /** A `with` that changes a context: the task gets a new table, and the
        block keeps the old one. The value is the caller's. */
    method Set(task: nat, index: nat, value: nat, ghost outside: map<nat, nat>)
      requires Valid(outside) && task in depths && index < |root| && value in refs
      modifies this
      ensures Valid(outside)
      ensures Value() == Entered(old(Value()), task, old(Value()).envs[Running(task)][index := value])
      ensures refs.Keys == old(refs).Keys
    {
      hide RefsCounted, TablesCounted, Occurs, PlainOf, Nested, HoldersOf;
      NestedTask(holds, depths, task);
      NestedEnters(holds, depths, task, holds[Running(task)], next);
      var slots := SettingsOf(tables, root, holds[Running(task)])[index := value];
      SlotsKnown(tables, root, refs, outside);
      Retain(slots);
      var made, depth := next, depths[task];
      TableMade(tables, root, old(refs), outside, made, Table(1, slots));
      EnterNew(tables, holds, task, depth, made, slots);
      PlainEnters(tables, tables[made := Table(1, slots)], root, holds, depths, task, made);
      PlainSettingsOf(tables, root, holds, depths, Running(task));
      tables, next := tables[made := Table(1, slots)], next + 1;
      holds := holds[Block(task, depth) := holds[Running(task)]][Running(task) := made];
      depths := depths[task := depth + 1];
    }

    /** One more holder of a table, which there are others of. */
    method Share(from: Holder, to: Holder, ghost outside: map<nat, nat>)
      requires Valid(outside) && from in holds && to !in holds && !to.Block?
      requires to.Running? ==> to.task !in depths
      modifies this
      ensures Valid(outside) && Value() == Shared(old(Value()), from, to)
      ensures refs == old(refs) && tables.Keys == old(tables).Keys
    {
      hide RefsCounted, TablesCounted, PlainOf, Nested;
      NestedShares(holds, depths, to, holds[from]);
      var table := holds[from];
      ghost var before := tables;
      assert table == 0 || table in tables;
      if table != 0 { tables := tables[table := Table(tables[table].count + 1, tables[table].slots)]; }
      ShareCounts(before, holds, from, to, tables);
      CountsOnly(before, tables, root, refs, outside, []);
      PlainShares(before, tables, root, holds, depths, from, to);
      holds := holds[to := table];
      if to.Running? { depths := depths[to.task := 0]; }
    }

    /** `Contexts.current()`: the running task's contexts, to give back. */
    method Capture(task: nat, capture: nat, ghost outside: map<nat, nat>)
      requires Valid(outside) && task in depths && Captured(capture) !in holds
      modifies this
      ensures Valid(outside) && Value() == Shared(old(Value()), Running(task), Captured(capture))
    {
      Share(Running(task), Captured(capture), outside);
    }

    /** A task that another spawns starts with its contexts. */
    method Spawn(task: nat, child: nat, ghost outside: map<nat, nat>)
      requires Valid(outside) && task in depths && child !in depths
      modifies this
      ensures Valid(outside) && Value() == Shared(old(Value()), Running(task), Running(child))
    {
      Share(Running(task), Running(child), outside);
    }

    /** `with captured`: the task has the captured contexts until the block
        ends, in whatever task they were captured. */
    method Activate(task: nat, capture: nat, ghost outside: map<nat, nat>)
      requires Valid(outside) && task in depths && Captured(capture) in holds
      modifies this
      ensures Valid(outside) && Value() == Entered(old(Value()), task, old(Value()).envs[Captured(capture)])
    {
      hide RefsCounted, TablesCounted, PlainOf, Nested;
      NestedTask(holds, depths, task);
      NestedEnters(holds, depths, task, holds[Running(task)], holds[Captured(capture)]);
      var table, depth := holds[Captured(capture)], depths[task];
      ghost var before := tables;
      if table != 0 { tables := tables[table := Table(tables[table].count + 1, tables[table].slots)]; }
      ActivateCounts(before, holds, task, depth, capture, tables);
      CountsOnly(before, tables, root, refs, outside, []);
      PlainEnters(before, tables, root, holds, depths, task, table);
      PlainSettingsOf(before, root, holds, depths, Captured(capture));
      holds := holds[Block(task, depth) := holds[Running(task)]][Running(task) := table];
      depths := depths[task := depth + 1];
    }

    /** A task ends outside any block, or a capture goes: its share does. */
    method Drop(h: Holder, ghost outside: map<nat, nat>)
      requires Valid(outside) && h in holds && !h.Block? && (h.Running? ==> depths[h.task] == 0)
      modifies this
      ensures Valid(outside) && Value() == Dropped(old(Value()), h)
    {
      hide RefsCounted, TablesCounted, PlainOf;
      NestedDrops(holds, depths, h);
      hide Nested;
      var table := holds[h];
      DropHolder(tables, holds, h);
      PlainDrops(tables, root, holds, depths, h);
      holds := holds - {h};
      if h.Running? { depths := depths - {h.task}; }
      Release(table, outside);
    }

    /** Lets a table go; the last to hold it frees it and the references of
        its slots. */
    method Release(table: nat, ghost outside: map<nat, nat>)
      requires Shaped() && TablesCounted(tables, holds, table) && RefsCounted(tables, root, refs, outside, [])
      requires table == 0 || table in tables
      modifies this`tables, this`refs
      ensures Valid(outside) && Value() == old(Value())
      ensures tables.Keys == old(tables).Keys
              || (HoldersOf(holds, table) == {} && tables.Keys == old(tables).Keys - {table})
      ensures refs.Keys <= old(refs).Keys
    {
      hide RefsCounted, Occurs, PlainOf, TablesCounted;
      if table == 0 { return; }
      var Table(count, slots) := tables[table];
      DropCounts(tables, holds, table);
      if count != 1 {
        var fewer := tables[table := Table(count - 1, slots)];
        CountsOnly(tables, fewer, root, refs, outside, []);
        SamePlain(tables, fewer, root, holds, depths);
        tables := fewer;
        return;
      }
      TableFreed(tables, root, refs, outside, table);
      SamePlain(tables, tables - {table}, root, holds, depths);
      tables := tables - {table};
      ReleaseSlots(slots, outside);
    }

    method ReleaseSlots(slots: seq<nat>, ghost outside: map<nat, nat>)
      requires RefsCounted(tables, root, refs, outside, slots)
      modifies this`refs
      ensures RefsCounted(tables, root, refs, outside, []) && refs.Keys <= old(refs).Keys
    {
      hide RefsCounted;
      var k := 0;
      assert slots[0..] == slots;
      while k < |slots|
        invariant k <= |slots| && RefsCounted(tables, root, refs, outside, slots[k..]) && refs.Keys <= old(refs).Keys
      {
        var ref := slots[k];
        assert slots[k..] == [ref] + slots[k + 1..];
        RefReleased(tables, root, refs, outside, slots[k + 1..], ref);
        refs := if refs[ref] == 1 then refs - {ref} else refs[ref := refs[ref] - 1];
        k := k + 1;
      }
      assert slots[k..] == [];
    }

    /** The end of a block: the table before it comes back. */
    method Restore(task: nat, ghost outside: map<nat, nat>)
      requires Valid(outside) && task in depths && depths[task] > 0
      modifies this
      ensures Valid(outside) && Value() == Ended(old(Value()), task)
    {
      hide RefsCounted, TablesCounted, PlainOf, Nested;
      NestedTask(holds, depths, task);
      NestedLeaves(holds, depths, task, holds[Block(task, depths[task] - 1)]);
      var block := Block(task, depths[task] - 1);
      var ended := holds[Running(task)];
      LeaveCounts(tables, holds, task, depths[task] - 1);
      PlainLeaves(tables, root, holds, depths, task);
      holds := (holds - {block})[Running(task) := holds[block]];
      depths := depths[task := depths[task] - 1];
      Release(ended, outside);
    }
  }

  /** A count less for a holder lost; the last count of a table goes with it. */
  lemma DropCounts(tables: Tables, holds: map<Holder, nat>, table: nat)
    requires TablesCounted(tables, holds, table) && table in tables
    ensures tables[table].count > 0 && AllThere(tables, holds)
    ensures tables[table].count != 1 ==>
              TablesCounted(tables[table := Table(tables[table].count - 1, tables[table].slots)], holds, 0)
    ensures tables[table].count == 1 ==>
              && HoldersOf(holds, table) == {} && (forall h :: h in holds ==> holds[h] != table)
              && TablesCounted(tables - {table}, holds, 0) && AllThere(tables - {table}, holds)
  {
    if tables[table].count == 1 {
      var holders := HoldersOf(holds, table);
      assert |holders| == 0;
      forall h | h in holds ensures holds[h] != table { assert h !in holders; }
    }
  }

  lemma ShareCounts(tables: Tables, holds: map<Holder, nat>, from: Holder, to: Holder, after: Tables)
    requires TablesCounted(tables, holds, 0) && from in holds && to !in holds
    requires after == (if holds[from] == 0 then tables
             else tables[holds[from] := Table(tables[holds[from]].count + 1, tables[holds[from]].slots)])
    ensures TablesCounted(after, holds[to := holds[from]], 0)
  {
    HolderMore(holds, to, holds[from]);
  }

  lemma ActivateCounts(tables: Tables, holds: map<Holder, nat>, task: nat, depth: nat, capture: nat, after: Tables)
    requires TablesCounted(tables, holds, 0) && Running(task) in holds && Block(task, depth) !in holds
             && Captured(capture) in holds
    requires var table := holds[Captured(capture)];
             after == (if table == 0 then tables
                 else tables[table := Table(tables[table].count + 1, tables[table].slots)])
    ensures var entered := holds[Block(task, depth) := holds[Running(task)]];
            TablesCounted(after, entered[Running(task) := holds[Captured(capture)]], 0)
  {
    EnterCounts(tables, holds, task, depth, holds[Captured(capture)], after);
  }

  lemma DropHolder(tables: Tables, holds: map<Holder, nat>, h: Holder)
    requires TablesCounted(tables, holds, 0) && h in holds
    ensures TablesCounted(tables, holds - {h}, holds[h])
  {
    HolderLess(holds, h);
  }

  lemma PlainShares(tables: Tables, after: Tables, root: seq<nat>, holds: map<Holder, nat>, depths: map<nat, nat>,
                    from: Holder, to: Holder)
    requires AllThere(tables, holds) && AllThere(after, holds) && from in holds && to !in holds
    requires forall id :: id in tables ==> id in after && after[id].slots == tables[id].slots
    ensures AllThere(after, holds[to := holds[from]])
    ensures PlainOf(after, root, holds[to := holds[from]], if to.Running? then depths[to.task := 0] else depths)
         == Shared(PlainOf(tables, root, holds, depths), from, to)
  {
    assert PlainOf(after, root, holds[to := holds[from]], depths).envs ==
        Shared(PlainOf(tables, root, holds, depths), from, to).envs;
  }

  lemma PlainDrops(tables: Tables, root: seq<nat>, holds: map<Holder, nat>, depths: map<nat, nat>, h: Holder)
    requires AllThere(tables, holds)
    ensures AllThere(tables, holds - {h})
    ensures PlainOf(tables, root, holds - {h}, if h.Running? then depths - {h.task} else depths)
         == Dropped(PlainOf(tables, root, holds, depths), h)
  {
    assert PlainOf(tables, root, holds - {h}, depths).envs == Dropped(PlainOf(tables, root, holds, depths), h).envs;
  }

  lemma PlainSettingsOf(tables: Tables, root: seq<nat>, holds: map<Holder, nat>, depths: map<nat, nat>, h: Holder)
    requires AllThere(tables, holds) && h in holds
    ensures PlainOf(tables, root, holds, depths).envs[h] == SettingsOf(tables, root, holds[h])
  {
  }

  lemma SlotsKnown(tables: Tables, root: seq<nat>, refs: map<nat, nat>, outside: map<nat, nat>)
    requires RefsCounted(tables, root, refs, outside, [])
    ensures forall i :: 0 <= i < |root| ==> root[i] in refs
    ensures forall id, i :: id in tables && 0 <= i < |tables[id].slots| ==> tables[id].slots[i] in refs
  {
  }

  lemma EnterNew(tables: Tables, holds: map<Holder, nat>, task: nat, depth: nat, made: nat, slots: seq<nat>)
    requires TablesCounted(tables, holds, 0) && Running(task) in holds && Block(task, depth) !in holds
    requires made != 0 && made !in tables
    ensures TablesCounted(tables[made := Table(1, slots)],
            holds[Block(task, depth) := holds[Running(task)]][Running(task) := made], 0)
  {
    EnterCounts(tables, holds, task, depth, made, tables[made := Table(1, slots)]);
  }

  // ---------------------------------------------------------------------
  // Blocks, whatever happens meanwhile
  // ---------------------------------------------------------------------

  /** What tasks do with their contexts. */
  datatype Op =
    | Sets(task: nat, index: nat, value: nat)
    | Activates(task: nat, capture: nat)
    | Restores(task: nat)
    | Captures(task: nat, capture: nat)
    | Spawns(task: nat, child: nat)
    | Drops(holder: Holder)

  predicate Possible(p: Plain, op: Op) {
    match op
    case Sets(task, index, _) => Known(p, task) && index < |p.envs[Running(task)]|
    case Activates(task, capture) => Known(p, task) && Captured(capture) in p.envs
    case Restores(task) => InBlock(p, task)
    case Captures(task, capture) => Known(p, task) && Captured(capture) !in p.envs
    case Spawns(task, child) => Known(p, task) && child !in p.depths
    case Drops(h) => h in p.envs && !h.Block? && (h.Running? ==> Known(p, h.task) && p.depths[h.task] == 0)
  }

  function Done(p: Plain, op: Op): Plain
    requires Possible(p, op)
  {
    match op
    case Sets(task, index, value) => Entered(p, task, p.envs[Running(task)][index := value])
    case Activates(task, capture) => Entered(p, task, p.envs[Captured(capture)])
    case Restores(task) => Ended(p, task)
    case Captures(task, capture) => Shared(p, Running(task), Captured(capture))
    case Spawns(task, child) => Shared(p, Running(task), Running(child))
    case Drops(h) => Dropped(p, h)
  }

  /** Operations of any tasks, one after another, in which `task` stays inside
      the block it is in, at more than `depth`. */
  ghost predicate Inside(p: Plain, ops: seq<Op>, task: nat, depth: nat)
    decreases |ops|
  {
    && task in p.depths && p.depths[task] > depth
    && (ops == [] || (Possible(p, ops[0]) && Inside(Done(p, ops[0]), ops[1..], task, depth)))
  }

  ghost function After(p: Plain, ops: seq<Op>, task: nat, depth: nat): Plain
    requires Inside(p, ops, task, depth)
    decreases |ops|
  {
    if ops == [] then p else After(Done(p, ops[0]), ops[1..], task, depth)
  }

  lemma {:induction false} BlockKept(p: Plain, ops: seq<Op>, task: nat, depth: nat)
    requires Inside(p, ops, task, depth) && Block(task, depth) in p.envs
    ensures var q := After(p, ops, task, depth);
            && Block(task, depth) in q.envs && q.envs[Block(task, depth)] == p.envs[Block(task, depth)]
            && task in q.depths && q.depths[task] > depth
    decreases |ops|
  {
    if ops != [] { BlockKept(Done(p, ops[0]), ops[1..], task, depth); }
  }

  /** Whether an operation begins a block of a task: a setting, or a capture
      activated. */
  predicate Begins(op: Op, task: nat) { (op.Sets? || op.Activates?) && op.task == task }

  /** Inside a block a task reads what was set, or what was captured, and when
      the block ends it has the settings it had before, whatever it and other
      tasks did meanwhile. */
  lemma BlocksNest(p: Plain, begin: Op, task: nat, ops: seq<Op>)
    requires Possible(p, begin) && Begins(begin, task)
    requires Inside(Done(p, begin), ops, task, p.depths[task])
    requires var q := After(Done(p, begin), ops, task, p.depths[task]);
             task in q.depths && q.depths[task] == p.depths[task] + 1 && Running(task) in q.envs
    ensures var inside := Done(p, begin).envs[Running(task)];
            match begin
            case Sets(_, index, value) =>
              && inside[index] == value && |inside| == |p.envs[Running(task)]|
              && (forall other :: 0 <= other < |inside| && other != index ==>
                  inside[other] == p.envs[Running(task)][other])
            case Activates(_, capture) => inside == p.envs[Captured(capture)]
            case _ => true
    ensures var q := After(Done(p, begin), ops, task, p.depths[task]);
            && InBlock(q, task)
            && Ended(q, task).envs[Running(task)] == p.envs[Running(task)]
            && Ended(q, task).depths[task] == p.depths[task]
  {
    BlockKept(Done(p, begin), ops, task, p.depths[task]);
  }
}
