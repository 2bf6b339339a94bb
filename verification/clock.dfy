/**
 The virtual clock (clock.rs): the domain behind its lock, and every
 interleaving of the tasks and threads that take the lock.
 */
module Clock {
  import opened Bytes

  const U64_MAX: nat := 0xFFFF_FFFF_FFFF_FFFF
  const I64_MAX: nat := 0x7FFF_FFFF_FFFF_FFFF
  /** What claims a wait that ends as its task is cancelled. */
  const CANCELLED: nat := U64_MAX

  /** What a task waits for: an operation, the end of `settle`, or of an
      `advance` to its target. */
  datatype Purpose = Operation | Settling | Advancing(target: nat)

  /** A wait of a task, and the operation that claimed it first. */
  datatype Wait = Wait(task: nat, purpose: Purpose, fired: Option<nat>)

  type Waits = map<nat, Wait>

  datatype Timer = Timer(at: nat, sequence: nat, wait: nat, index: nat)

  /** By deadline, and at the same deadline by the order they were made in. */
  predicate Before(a: Timer, b: Timer) { a.at < b.at || (a.at == b.at && a.sequence < b.sequence) }

  predicate Ordered(timers: seq<Timer>) { forall i, j :: 0 <= i < j < |timers| ==> Before(timers[i], timers[j]) }

  datatype Domain = Domain(
    now: nat,
    timers: seq<Timer>,
    sequence: nat,
    active: nat,
    external: nat,
    waiter: Option<(nat, Option<nat>)>,
    driving: bool,
    automatic: nat,
    explicit: nat,
    settles: nat)

  const BEGUN := Domain(0, [], 0, 1, 0, None, false, 0, 0, 0)

  function Claimed(waits: Waits, wait: nat, index: nat): (r: Waits)
    requires wait in waits
    ensures r.Keys == waits.Keys
  {
    if waits[wait].fired == None then waits[wait := waits[wait].(fired := Some(index))] else waits
  }

  /** The tasks that claiming a wait wakes: the first claim wins. */
  function Wakes(waits: Waits, wait: nat): seq<nat>
    requires wait in waits
  {
    if waits[wait].fired == None then [waits[wait].task] else []
  }

  /** A timer among the others, in the order they fire. */
  function Inserted(timers: seq<Timer>, timer: Timer): seq<Timer> {
    if timers == [] || Before(timer, timers[0]) then [timer] + timers else [timers[0]] + Inserted(timers[1..], timer)
  }

  predicate TimersWait(timers: seq<Timer>, waits: Waits) { forall i :: 0 <= i < |timers| ==> timers[i].wait in waits }

  /** How many timers are due at `at`, the first of them. */
  function DueCount(timers: seq<Timer>, at: nat): (n: nat)
    ensures n <= |timers| && (forall i :: 0 <= i < n ==> timers[i].at == at) && (n < |timers| ==> timers[n].at != at)
  {
    if timers == [] || timers[0].at != at then 0 else 1 + DueCount(timers[1..], at)
  }

  /** The waits and the woken tasks after timers fire, in turn. */
  function Fired(due: seq<Timer>, waits: Waits): (r: (Waits, seq<nat>))
    requires TimersWait(due, waits)
    ensures r.0.Keys == waits.Keys
  {
    if due == [] then (waits, [])
    else
      var (w, wake) := Fired(due[..|due| - 1], waits);
      var last := due[|due| - 1];
      (Claimed(w, last.wait, last.index), wake + Wakes(w, last.wait))
  }

  lemma FiredNone(waits: Waits)
    ensures Fired([], waits) == (waits, [])
  {
  }

  lemma FiredOne(timers: seq<Timer>, n: nat, waits: Waits)
    requires n < |timers| && TimersWait(timers, waits)
    ensures var (w, wake) := Fired(timers[..n], waits);
            var next := timers[n];
            Fired(timers[..n + 1], waits) == (Claimed(w, next.wait, next.index), wake + Wakes(w, next.wait))
  {
    hide Wakes, Claimed;
    assert timers[..n + 1][..n] == timers[..n];
  }

  /** What a first look of `drive` leads to. */
  datatype Begin = Returns | Drives(wake: seq<nat>) | Deadlock

  /** The first region of `drive`. */
  function DriveBegin(d: Domain, waits: Waits): (r: (Domain, Waits, Begin))
    requires TimersWait(d.timers, waits) && (d.waiter.Some? ==> d.waiter.value.0 in waits)
    ensures r.1.Keys == waits.Keys
  {
    if d.active > 0 || d.external > 0 || d.driving then (d, waits, Returns)
    else
      var e := d.(driving := true, waiter := None);
      match d.waiter
      case Some((wait, None)) =>
        (e.(settles := d.settles + 1), Claimed(waits, wait, 0), Drives(Wakes(waits, wait)))
      case Some((wait, Some(target))) =>
        if d.timers == [] || d.timers[0].at > target then
          (e.(now := target, explicit := d.explicit + 1), Claimed(waits, wait, 0), Drives(Wakes(waits, wait)))
        else
          var (w, wake) := Fired(d.timers[..DueCount(d.timers, d.timers[0].at)], waits);
          (Moved(e.(waiter := d.waiter)), w, Drives(wake))
      case None =>
        if d.timers == [] then (e, waits, Deadlock)
        else
          var (w, wake) := Fired(d.timers[..DueCount(d.timers, d.timers[0].at)], waits);
          (Moved(e.(automatic := d.automatic + 1)), w, Drives(wake))
  }

  /** The clock at the next deadline, with its timers gone. */
  function Moved(d: Domain): Domain
    requires d.timers != []
  {
    var at := d.timers[0].at;
    d.(now := at, timers := d.timers[DueCount(d.timers, at)..])
  }

  /** The tasks woken are those of the waits claimed meanwhile, once for each. */
  ghost predicate Wakened(before: Waits, after: Waits, wake: seq<nat>) {
    exists claimed: seq<nat> :: ClaimedNow(before, after, claimed, wake)
  }

  ghost predicate ClaimedNow(before: Waits, after: Waits, claimed: seq<nat>, wake: seq<nat>) {
    && |claimed| == |wake|
    && (forall i, j :: 0 <= i < j < |claimed| ==> claimed[i] != claimed[j])
    && (forall i :: 0 <= i < |claimed| ==> claimed[i] in before && wake[i] == before[claimed[i]].task)
    && (forall w :: w in claimed <==> w in before && w in after && before[w].fired == None && after[w].fired.Some?)
  }

  lemma NoneWakened(waits: Waits)
    ensures Wakened(waits, waits, []) && OnlyClaims(waits, waits)
  {
    assert ClaimedNow(waits, waits, [], []);
  }

  lemma WakenedMore(before: Waits, after: Waits, wake: seq<nat>, wait: nat, index: nat)
    requires before.Keys == after.Keys && wait in before && Wakened(before, after, wake)
    requires forall w :: w in before ==>
               after[w].task == before[w].task && (before[w].fired.Some? ==> after[w].fired == before[w].fired)
    ensures Wakened(before, Claimed(after, wait, index), wake + Wakes(after, wait))
  {
    var claimed :| ClaimedNow(before, after, claimed, wake);
    if after[wait].fired == None {
      assert ClaimedNow(before, Claimed(after, wait, index), claimed + [wait], wake + Wakes(after, wait));
    } else {
      assert wake + [] == wake;
    }
  }

  /** Claims change nothing of a wait but what claimed it first. */
  ghost predicate OnlyClaims(before: Waits, after: Waits) {
    && before.Keys == after.Keys
    && forall w :: w in before ==> after[w].task == before[w].task && after[w].purpose == before[w].purpose
                                   && (before[w].fired.Some? ==> after[w].fired == before[w].fired)
  }

  lemma {:induction false} FiredWakes(due: seq<Timer>, waits: Waits)
    requires TimersWait(due, waits)
    ensures OnlyClaims(waits, Fired(due, waits).0)
    ensures Wakened(waits, Fired(due, waits).0, Fired(due, waits).1)
    ensures forall i :: 0 <= i < |due| ==> Fired(due, waits).0[due[i].wait].fired.Some?
  {
    hide Wakened, Wakes;
    if due == [] {
      NoneWakened(waits);
    } else {
      var front, last := due[..|due| - 1], due[|due| - 1];
      FiredWakes(front, waits);
      var (w, wake) := Fired(front, waits);
      WakenedMore(waits, w, wake, last.wait, last.index);
      assert forall i :: 0 <= i < |front| ==> due[i] == front[i];
    }
  }

  lemma EndWakes(waits: Waits, wait: nat)
    requires wait in waits
    ensures var w := Claimed(waits, wait, 0);
            OnlyClaims(waits, w) && w[wait].fired.Some? && Wakened(waits, w, Wakes(waits, wait))
  {
    hide Wakened, Wakes;
    NoneWakened(waits);
    WakenedMore(waits, waits, [], wait, 0);
    assert [] + Wakes(waits, wait) == Wakes(waits, wait);
  }

  lemma DueWakes(timers: seq<Timer>, waits: Waits)
    requires TimersWait(timers, waits) && timers != []
    ensures var n := DueCount(timers, timers[0].at);
            var (w, wake) := Fired(timers[..n], waits);
            && OnlyClaims(waits, w) && Wakened(waits, w, wake)
            && forall i :: 0 <= i < n ==> w[timers[i].wait].fired.Some?
  {
    hide Fired, DueCount, Wakened;
    var due := timers[..DueCount(timers, timers[0].at)];
    FiredWakes(due, waits);
    assert forall i :: 0 <= i < |due| ==> due[i] == timers[i];
  }

  /** What a look does to the waits, the timers and the waiter. */
  ghost predicate LooksWell(d: Domain, waits: Waits, e: Domain, w: Waits, wake: seq<nat>)
    requires TimersWait(d.timers, waits) && (d.waiter.Some? ==> d.waiter.value.0 in waits)
  {
    && OnlyClaims(waits, w)
    && |e.timers| <= |d.timers| && e.timers == d.timers[|d.timers| - |e.timers|..]
    && (forall i :: 0 <= i < |d.timers| - |e.timers| ==> w[d.timers[i].wait].fired.Some?)
    && (d.waiter.Some? && e.waiter == None ==> w[d.waiter.value.0].fired.Some?)
    && Wakened(waits, w, wake)
  }

  lemma LookEnding(d: Domain, waits: Waits, e: Domain)
    requires TimersWait(d.timers, waits) && d.waiter.Some? && d.waiter.value.0 in waits && e.timers == d.timers
    ensures var wait := d.waiter.value.0; LooksWell(d, waits, e, Claimed(waits, wait, 0), Wakes(waits, wait))
  {
    hide Wakes, Wakened, Claimed;
    assert d.timers[0..] == d.timers;
    EndWakes(waits, d.waiter.value.0);
  }

  lemma LookFiring(d: Domain, waits: Waits, e: Domain)
    requires TimersWait(d.timers, waits) && (d.waiter.Some? ==> d.waiter.value.0 in waits) && d.timers != []
    requires e.waiter == d.waiter && e.timers == d.timers[DueCount(d.timers, d.timers[0].at)..]
    ensures var (w, wake) := Fired(d.timers[..DueCount(d.timers, d.timers[0].at)], waits);
            LooksWell(d, waits, e, w, wake)
  {
    hide Fired, DueCount, Wakened;
    DueWakes(d.timers, waits);
  }

  lemma LookNot(d: Domain, waits: Waits, e: Domain)
    requires TimersWait(d.timers, waits) && (d.waiter.Some? ==> d.waiter.value.0 in waits)
    requires e.waiter == d.waiter && e.timers == d.timers
    ensures LooksWell(d, waits, e, waits, [])
  {
    hide Wakened;
    assert d.timers[0..] == d.timers;
    NoneWakened(waits);
  }

  /** A look that drives claims the wait of every timer that goes, and of the
      `settle` or `advance` that ends, unless they were claimed before; and it
      wakes exactly the tasks of the waits it claims. */
  lemma LookWakes(d: Domain, waits: Waits)
    requires TimersWait(d.timers, waits) && (d.waiter.Some? ==> d.waiter.value.0 in waits)
    ensures var (e, w, begin) := DriveBegin(d, waits);
            LooksWell(d, waits, e, w, if begin.Drives? then begin.wake else [])
  {
    hide Fired, DueCount, Wakes, LooksWell, Claimed, TimersWait;
    var e := DriveBegin(d, waits).0;
    if d.active > 0 || d.external > 0 || d.driving {
      LookNot(d, waits, e);
    } else if d.waiter.Some?
              && (d.waiter.value.1 == None || d.timers == [] || d.timers[0].at > d.waiter.value.1.value) {
      LookEnding(d, waits, e);
    } else if d.timers == [] {
      LookNot(d, waits, e);
    } else {
      LookFiring(d, waits, e);
    }
  }

  // ---------------------------------------------------------------------
  // The domain, changed in place under its lock
  // ---------------------------------------------------------------------

  class Locked {
    var now: nat
    var timers: seq<Timer>
    var sequence: nat
    var active: nat
    var external: nat
    var waiter: Option<(nat, Option<nat>)>
    var driving: bool
    var automatic: nat
    var explicit: nat
    var settles: nat
    /** The waits made so far, which claims change. */
    var waits: Waits

    constructor ()
      ensures Value() == BEGUN && waits == map[]
    {
      now, timers, sequence, active, external, waiter, driving := 0, [], 0, 1, 0, None, false;
      automatic, explicit, settles := 0, 0, 0;
      waits := map[];
    }

    function Value(): Domain
      reads this
    {
      Domain(now, timers, sequence, active, external, waiter, driving, automatic, explicit, settles)
    }

    method Claim(wait: nat, index: nat) returns (first: bool)
      requires wait in waits
      modifies this`waits
      ensures first <==> old(waits)[wait].fired == None
      ensures waits == Claimed(old(waits), wait, index)
    {
      first := waits[wait].fired == None;
      if first { waits := waits[wait := waits[wait].(fired := Some(index))]; }
    }

    method AddTimer(nanos: nat, wait: nat, index: nat)
      requires wait in waits
      modifies this`sequence, this`timers
      ensures var at := if old(now) + nanos > U64_MAX then U64_MAX else old(now) + nanos;
              Value() == old(Value()).(sequence := old(sequence) + 1,
                                       timers := Inserted(old(timers), Timer(at, old(sequence) + 1, wait, index)))
    {
      sequence := sequence + 1;
      var at := if now + nanos > U64_MAX then U64_MAX else now + nanos;
      timers := Inserted(timers, Timer(at, sequence, wait, index));
    }

    /** The first region of `drive`. */
    method Look() returns (begin: Begin)
      requires TimersWait(timers, waits) && (waiter.Some? ==> waiter.value.0 in waits)
      modifies this
      ensures (Value(), waits, begin) == DriveBegin(old(Value()), old(waits))
    {
      hide Fired, DueCount, Wakes, Claimed, Moved;
      if active > 0 || external > 0 || driving { return Returns; }
      driving := true;
      var next := if timers == [] then None else Some(timers[0].at);
      var taken := waiter;
      waiter := None;
      match taken {
        case Some((wait, None)) =>
          settles := settles + 1;
          begin := Drives(Wakes(waits, wait));
          var first := Claim(wait, 0);
          return;
        case Some((wait, Some(target))) =>
          if next == None || next.value > target {
            now := target;
            explicit := explicit + 1;
            begin := Drives(Wakes(waits, wait));
            var first := Claim(wait, 0);
            return;
          }
        case None =>
          if next == None { return Deadlock; }
          automatic := automatic + 1;
      }
      waiter := taken;
      var wake := MoveOn(next.value);
      return Drives(wake);
    }

    /** The clock goes to the next deadline. */
    method MoveOn(at: nat) returns (wake: seq<nat>)
      requires TimersWait(timers, waits) && timers != [] && timers[0].at == at
      modifies this`now, this`timers, this`waits
      ensures Value() == Moved(old(Value()))
      ensures (waits, wake) == Fired(old(timers)[..DueCount(old(timers), at)], old(waits))
    {
      hide Fired, DueCount;
      now := at;
      wake := PopDue(at);
    }

    /** Takes the timers due at `at` off, one by one, claiming their waits. */
    method PopDue(at: nat) returns (wake: seq<nat>)
      requires TimersWait(timers, waits)
      modifies this`timers, this`waits
      ensures var n := DueCount(old(timers), at);
              timers == old(timers)[n..] && (waits, wake) == Fired(old(timers)[..n], old(waits))
    {
      hide Wakes, Claimed, Fired;
      wake := [];
      ghost var all, before, n := timers, waits, 0;
      assert all[..0] == [] && all[0..] == all;
      FiredNone(before);
      while timers != [] && timers[0].at == at
        invariant n <= |all| && timers == all[n..]
        invariant DueCount(all, at) == n + DueCount(timers, at)
        invariant (waits, wake) == Fired(all[..n], before)
      {
        var timer := timers[0];
        FiredOne(all, n, before);
        wake := wake + Wakes(waits, timer.wait);
        var first := Claim(timer.wait, timer.index);
        assert all[n..][1..] == all[n + 1..];
        timers := timers[1..];
        n := n + 1;
      }
    }

    /** The last region of `drive`: whether it goes around. */
    method Finish() returns (again: bool)
      modifies this`driving
      ensures !driving && (again <==> active == 0 && external == 0)
    {
      driving := false;
      again := !(active > 0 || external > 0);
    }
  }
}
