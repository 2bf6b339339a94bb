/**
 Every interleaving of the tasks of a virtual clock's domain and of the
 threads that run them (clock.rs): each action is what one thread does while
 it holds the domain's lock, or what changes a task's state between.
 */
module ClockRuns {
  import opened Bytes
  import opened Clock

  /** Where a task of the domain is that waits: about to park, or parked or
      about to see whether its wait is claimed. */
  datatype Blocked = Entering(wait: nat) | Checking(wait: nat)

  /** The domain, the waits, and where tasks and threads are. */
  datatype State = State(
    domain: Domain,
    waits: Waits,
    /** The tasks that run or can run; the others are parked. */
    running: set<nat>,
    /** The tasks whose clock is the host's, which may hold the domain's clock
        all the same. */
    others: set<nat>,
    /** The running tasks whose next park returns at once. */
    notified: set<nat>,
    /** The waits the tasks of the domain are in. */
    on: map<nat, Blocked>,
    /** The tasks that those who claimed their waits have yet to notify, but
        for `drive`. */
    owed: multiset<nat>,
    /** The tasks that read the clock to advance it, and to what target. */
    advancing: map<nat, nat>,
    /** The threads that parked a task and did not yet count it out. */
    stopping: set<nat>,
    /** The threads about to take the lock in `drive`. */
    calling: set<nat>,
    /** The threads between the two regions of `drive`, and the tasks each
        has yet to notify. */
    inside: map<nat, seq<nat>>,
    /** Whether a deadlock was reported, which ends the program. */
    reported: bool,
    /** The timers fired so far. */
    log: seq<Timer>)

  datatype Action =
    | Wake(task: nat)
    | Park(thread: nat, task: nat)
    | Checks(task: nat)
    | GivesUp(task: nat)
    | Ends(thread: nat, task: nat)
    | Stop(thread: nat)
    | HostStarts(task: nat)
    | HostEnds(thread: nat)
    | Opens(wait: nat, task: nat)
    | Sets(nanos: nat, wait: nat, index: nat, task: nat)
    | Claims(wait: nat, index: nat)
    | Tells(task: nat)
    | Reads(task: nat, nanos: nat)
    | Advances(task: nat, wait: nat)
    | Settles(task: nat, wait: nat)
    | Cancels(task: nat, wait: nat)
    | Looks(thread: nat)
    | Notifies(thread: nat)
    | Finishes(thread: nat)

  /** As `withVirtualTime` begins: its task runs. */
  function Begun(task: nat, others: set<nat>): State {
    State(BEGUN, map[], {task}, others, {}, map[], multiset{}, map[], {}, {}, map[], false, [])
  }

  /** Whether a task may call the clock: one of the domain that runs, or any
      other. */
  predicate Calls(s: State, task: nat) { task in s.running || task in s.others }

  /** A task in a wait makes no other until it leaves that one, unless it did
      not park for it. */
  predicate Free(s: State, task: nat) { task in s.on ==> s.on[task].Entering? }

  predicate Away(s: State, thread: nat) {
    thread !in s.stopping && thread !in s.calling && thread !in s.inside
  }

  /** Whether an action is one of a task with its waits, or a claim of one. */
  predicate OfTask(a: Action) { a.Park? || a.Checks? || a.GivesUp? || a.Ends? || a.Opens? || a.Claims? }

  /** Whether it is one that a task does with the domain as it runs. */
  predicate OfClock(a: Action) {
    a.HostStarts? || a.Sets? || a.Reads? || a.Advances? || a.Settles? || a.Cancels?
  }

  predicate TaskMay(s: State, a: Action) {
    match a
    case Park(thread, task) =>
      Away(s, thread) && task in s.running && task !in s.advancing && task in s.on && s.on[task].Entering?
    case Checks(task) => task in s.running && task in s.on && s.on[task].Checking? && s.on[task].wait in s.waits
    // A task cancelled before it parks claims its wait itself.
    case GivesUp(task) =>
      task in s.running && task in s.on && s.on[task].Entering? && s.on[task].wait in s.waits
      && s.waits[s.on[task].wait].fired == None
    case Ends(thread, task) => Away(s, thread) && task in s.running && task !in s.advancing && Free(s, task)
    case Opens(wait, task) => wait !in s.waits && task in s.running && Free(s, task)
    case Claims(wait, index) => wait in s.waits && (s.waits[wait].purpose.Operation? || index != 0)
    case _ => false
  }

  predicate ClockMay(s: State, a: Action) {
    match a
    case HostStarts(task) => task in s.running
    case Sets(nanos, wait, index, task) =>
      task in s.running && wait in s.waits && (s.waits[wait].purpose.Operation? || index != 0)
    case Reads(task, nanos) => Calls(s, task) && s.domain.now + nanos <= I64_MAX
    case Advances(task, wait) => Calls(s, task) && task in s.advancing && wait !in s.waits && Free(s, task)
    case Settles(task, wait) => Calls(s, task) && wait !in s.waits && Free(s, task)
    case Cancels(task, wait) => Calls(s, task) && wait in s.waits && s.waits[wait].fired == Some(CANCELLED)
    case _ => false
  }

  predicate ThreadMay(s: State, a: Action) {
    match a
    case Wake(task) => true
    case Tells(task) => task in s.owed
    case Stop(thread) => thread in s.stopping
    case HostEnds(thread) => Away(s, thread)
    case Looks(thread) => thread in s.calling && Ready(s)
    case Notifies(thread) => thread in s.inside && s.inside[thread] != []
    case Finishes(thread) => thread in s.inside && s.inside[thread] == []
    case _ => false
  }

  /** What each action needs: tasks do theirs while they run, and threads in
      the order of the code. */
  predicate Enabled(s: State, a: Action) {
    if OfTask(a) then TaskMay(s, a) else if OfClock(a) then ClockMay(s, a) else ThreadMay(s, a)
  }

  /** What the lock keeps for the first region of `drive`. */
  predicate Ready(s: State) {
    TimersWait(s.domain.timers, s.waits) && (s.domain.waiter.Some? ==> s.domain.waiter.value.0 in s.waits)
  }

  /** A task is notified: one of the domain wakes if it is parked, and else
      goes on when it parks next. */
  function Notified(s: State, task: nat): State {
    if task in s.others then s
    else if task in s.running then s.(notified := s.notified + {task})
    else s.(running := s.running + {task}, domain := s.domain.(active := s.domain.active + 1))
  }

  function Looked(s: State, thread: nat): State
    requires Ready(s)
  {
    var (d, waits, begin) := DriveBegin(s.domain, s.waits);
    var t := s.(domain := d, waits := waits, calling := s.calling - {thread});
    match begin
    case Returns => t
    case Deadlock => t.(reported := true)
    case Drives(wake) =>
      t.(inside := s.inside[thread := wake],
         log := s.log + s.domain.timers[..|s.domain.timers| - |d.timers|])
  }

  /** A wait made by a task, which is then in it; where another task is does
      not matter here. */
  function Made(s: State, wait: nat, task: nat, purpose: Purpose): State {
    s.(waits := s.waits[wait := Wait(task, purpose, None)],
       on := if task in s.others then s.on else s.on[task := Entering(wait)])
  }

  /** A wait is claimed by someone who then notifies its task, the first time. */
  function ClaimedBy(s: State, wait: nat, index: nat): State
    requires wait in s.waits
  {
    s.(waits := Claimed(s.waits, wait, index),
       owed := if s.waits[wait].fired == None then s.owed + multiset{s.waits[wait].task} else s.owed)
  }

  function TaskDoes(s: State, a: Action): State
    requires TaskMay(s, a)
  {
    match a
    case Park(thread, task) =>
      var t := s.(on := s.on[task := Checking(s.on[task].wait)]);
      if task in s.notified then t.(notified := s.notified - {task})
      else t.(running := s.running - {task}, stopping := s.stopping + {thread})
    case Checks(task) =>
      var wait := s.on[task].wait;
      s.(on := if s.waits[wait].fired == None then s.on[task := Entering(wait)] else s.on - {task})
    case GivesUp(task) =>
      s.(waits := Claimed(s.waits, s.on[task].wait, CANCELLED), on := s.on - {task})
    case Ends(thread, task) =>
      s.(running := s.running - {task}, notified := s.notified - {task}, on := s.on - {task},
         stopping := s.stopping + {thread})
    case Opens(wait, task) => Made(s, wait, task, Operation)
    case Claims(wait, index) => ClaimedBy(s, wait, index)
  }

  function ClockDoes(s: State, a: Action): State
    requires ClockMay(s, a)
  {
    var d := s.domain;
    match a
    case HostStarts(_) => s.(domain := d.(external := d.external + 1))
    case Sets(nanos, wait, index, _) =>
      var at := if d.now + nanos > U64_MAX then U64_MAX else d.now + nanos;
      s.(domain := d.(sequence := d.sequence + 1, timers := Inserted(d.timers, Timer(at, d.sequence + 1, wait, index))))
    case Reads(task, nanos) => s.(advancing := s.advancing[task := d.now + nanos])
    case Advances(task, wait) =>
      var target := s.advancing[task];
      Made(s, wait, task, Advancing(target)).(advancing := s.advancing - {task},
                                              domain := d.(waiter := Some((wait, Some(target)))))
    case Settles(task, wait) =>
      Made(s, wait, task, Settling).(domain := d.(waiter := Some((wait, None))))
    case Cancels(_, _) => s.(domain := d.(waiter := None))
  }

  function ThreadDoes(s: State, a: Action): State
    requires ThreadMay(s, a)
  {
    var d := s.domain;
    match a
    case Wake(task) => Notified(s, task)
    case Tells(task) => Notified(s.(owed := s.owed - multiset{task}), task)
    case Stop(thread) =>
      s.(domain := d.(active := if d.active == 0 then 0 else d.active - 1), stopping := s.stopping - {thread},
         calling := s.calling + {thread})
    case HostEnds(thread) =>
      s.(domain := d.(external := if d.external == 0 then 0 else d.external - 1), calling := s.calling + {thread})
    case Looks(thread) => Looked(s, thread)
    case Notifies(thread) =>
      var wake := s.inside[thread];
      Notified(s.(inside := s.inside[thread := wake[1..]]), wake[0])
    case Finishes(thread) =>
      var again := d.active == 0 && d.external == 0;
      s.(domain := d.(driving := false), inside := s.inside - {thread},
         calling := if again then s.calling + {thread} else s.calling)
  }

  function Apply(s: State, a: Action): State
    requires Enabled(s, a)
  {
    if OfTask(a) then TaskDoes(s, a) else if OfClock(a) then ClockDoes(s, a) else ThreadDoes(s, a)
  }

  // ---------------------------------------------------------------------
  // What every reachable state keeps
  // ---------------------------------------------------------------------

  /** The domain counts its running tasks, and those a thread parked and did
      not yet count out. */
  ghost predicate Counts(s: State) {
    s.domain.active == |s.running| + |s.stopping|
  }

  /** One thread at most is inside `drive`, and `driving` says so; it stays
      set when a deadlock was reported. */
  ghost predicate OneDrives(s: State) {
    && (s.domain.driving <==> s.reported || s.inside.Keys != {})
    && (forall a, b :: a in s.inside && b in s.inside ==> a == b)
    && !(s.reported && s.inside.Keys != {})
  }

  /** No drive is lost: with nothing that runs and nothing to wait for from
      the host, a thread is inside `drive` or about to call it. */
  ghost predicate NoDriveLost(s: State) {
    s.domain.active == 0 && s.domain.external == 0 ==> s.calling != {} || s.inside.Keys != {} || s.reported
  }

  /** Timers are ahead of the clock, in the order they fire, after those
      that fired; those fired at their deadlines, in that order. */
  ghost predicate Fits(now: nat, sequence: nat, timers: seq<Timer>, log: seq<Timer>) {
    && Ordered(timers) && Ordered(log) && now <= U64_MAX
    && (forall i :: 0 <= i < |timers| ==> now <= timers[i].at <= U64_MAX && timers[i].sequence <= sequence)
    && (forall i :: 0 <= i < |log| ==> log[i].at <= now && log[i].sequence <= sequence)
    && (forall i, j :: 0 <= i < |log| && 0 <= j < |timers| ==> Before(log[i], timers[j]))
  }

  ghost predicate TimersOrdered(s: State) {
    && Fits(s.domain.now, s.domain.sequence, s.domain.timers, s.log)
    && |s.log| + |s.domain.timers| == s.domain.sequence
  }

  /** A timer does not end as the domain ends `settle` or `advance`. */
  ghost predicate TimerWaits(waits: Waits, timer: Timer) {
    timer.wait in waits && (waits[timer.wait].purpose.Operation? || timer.index != 0)
  }

  ghost predicate TimersHaveWaits(s: State) {
    forall i :: 0 <= i < |s.domain.timers| ==> TimerWaits(s.waits, s.domain.timers[i])
  }

  /** The waiter waits for `settle`, or for its target. */
  ghost predicate WaiterWaits(s: State) {
    match s.domain.waiter
    case Some((wait, None)) => wait in s.waits && s.waits[wait].purpose == Settling
    case Some((wait, Some(target))) => wait in s.waits && s.waits[wait].purpose == Advancing(target)
    case None => true
  }

  ghost predicate WaitsKept(s: State) { TimersHaveWaits(s) && WaiterWaits(s) }

  /** Targets are in the clock's range. A task of the domain that read the
      clock to advance it still runs, so the clock is where it was. */
  ghost predicate TargetsAhead(s: State) {
    && (forall task :: task in s.advancing ==> s.advancing[task] <= I64_MAX)
    && (forall task :: task in s.advancing && task !in s.others ==>
        task in s.running && s.domain.now <= s.advancing[task])
  }

  /** The clock is not past where the waiter wants it. */
  ghost predicate WaiterAhead(s: State) {
    match s.domain.waiter
    case Some((_, Some(target))) => s.domain.now <= target <= I64_MAX
    case _ => true
  }

  /** Whether a task is to be notified: by `drive`, or by who claimed its
      wait. */
  ghost predicate ToBeTold(s: State, task: nat) {
    task in s.owed || exists thread :: thread in s.inside && task in s.inside[thread]
  }

  /** A task whose wait was claimed comes to see it: it is about to look, its
      next park returns at once, or it is to be notified. */
  ghost predicate Hears(s: State, task: nat)
    requires task in s.on
  {
    var wait := s.on[task].wait;
    && task !in s.others && wait in s.waits && s.waits[wait].task == task
    && (task !in s.running ==> s.on[task].Checking?)
    && (s.waits[wait].fired.Some? ==>
          (task in s.running && s.on[task].Checking?) || task in s.notified || ToBeTold(s, task))
  }

  /** No wake is lost. */
  ghost predicate NoWakeLost(s: State) {
    && s.notified <= s.running
    && forall task :: task in s.on ==> Hears(s, task)
  }

  /** What holds whoever calls the clock. */
  ghost predicate Safe(s: State) {
    Counts(s) && OneDrives(s) && NoDriveLost(s) && NoWakeLost(s) && WaitsKept(s) && s.running !! s.others
  }

  /** What holds as long as no target set is behind the clock. */
  ghost predicate Inv(s: State) {
    Safe(s) && TimersOrdered(s) && TargetsAhead(s) && WaiterAhead(s)
  }

  lemma InvBegun(task: nat, others: set<nat>)
    requires task !in others
    ensures Inv(Begun(task, others))
  {
  }

  /** Whether an `advance` gets to wait before the clock is past the target it
      read the clock for. */
  predicate Timely(s: State, a: Action)
    requires Enabled(s, a)
  {
    a.Advances? ==> s.domain.now <= s.advancing[a.task]
  }

  /** A task of the domain always does. */
  lemma InsideIsTimely(s: State, a: Action)
    requires Inv(s) && Enabled(s, a) && (a.Advances? ==> a.task !in s.others)
    ensures Timely(s, a)
  {
  }

  /** What the first region of `drive` leaves alone, and when it drives. */
  lemma LookKeeps(d: Domain, waits: Waits)
    requires TimersWait(d.timers, waits) && (d.waiter.Some? ==> d.waiter.value.0 in waits)
    ensures var (e, w, begin) := DriveBegin(d, waits);
            && e.active == d.active && e.external == d.external && e.sequence == d.sequence
            && (begin.Returns? <==> d.active > 0 || d.external > 0 || d.driving)
            && (begin.Returns? ==> e == d && w == waits)
            && (!begin.Returns? ==> e.driving)
            && (begin.Deadlock? ==> d.waiter == None && d.timers == [])
  {
    hide Fired;
  }

  /** Waits are made and claimed, but `settle` and `advance` not ended. */
  ghost predicate KeepsWaits(before: Waits, after: Waits) {
    forall w :: w in before ==>
                  && w in after && after[w].task == before[w].task && after[w].purpose == before[w].purpose
                  && (before[w].fired.Some? ==> after[w].fired == before[w].fired)
                  && (after[w].fired == Some(0) ==> before[w].fired == Some(0) || before[w].purpose.Operation?)
  }

  /** What a task with its waits leaves alone. */
  lemma TaskKeeps(s: State, a: Action)
    requires Enabled(s, a) && OfTask(a)
    ensures var t := Apply(s, a);
            && t.domain == s.domain && t.others == s.others && t.calling == s.calling && t.inside == s.inside
            && t.reported == s.reported && t.log == s.log && t.advancing == s.advancing && t.running <= s.running
            && (forall task :: task in s.advancing && task in s.running ==> task in t.running)
            && KeepsWaits(s.waits, t.waits)
  {
    hide KeepsWaits;
    TaskKeepsWaits(s, a);
  }

  lemma TaskKeepsWaits(s: State, a: Action)
    requires Enabled(s, a) && OfTask(a)
    ensures KeepsWaits(s.waits, Apply(s, a).waits)
  {
  }

  /** What a task with the domain leaves alone. */
  lemma ClockKeeps(s: State, a: Action)
    requires Enabled(s, a) && OfClock(a)
    ensures var d, t := s.domain, Apply(s, a);
            && t.running == s.running && t.others == s.others && t.notified == s.notified && t.owed == s.owed
            && t.stopping == s.stopping && t.calling == s.calling && t.inside == s.inside && t.reported == s.reported
            && t.log == s.log && t.domain.active == d.active && t.domain.driving == d.driving && t.domain.now == d.now
            && t.domain.external >= d.external && KeepsWaits(s.waits, t.waits)
            && (!a.Sets? ==> t.domain.timers == d.timers && t.domain.sequence == d.sequence)
  {
    hide Inserted;
  }

  /** What notifying a task leaves alone. */
  lemma NotifiedKeeps(s: State, task: nat)
    ensures var d, t := s.domain, Notified(s, task);
            && t == s.(domain := t.domain, running := t.running, notified := t.notified) && s.running <= t.running
            && t.domain == d.(active := t.domain.active)
            && (s.running !! s.others ==> t.running !! t.others)
  {
  }

  /** What the threads leave alone; only a look at the domain moves it on. */
  lemma ThreadKeeps(s: State, a: Action)
    requires Enabled(s, a) && !OfTask(a) && !OfClock(a)
    ensures var d, t := s.domain, Apply(s, a);
            && t.others == s.others && t.advancing == s.advancing && t.on == s.on && s.running <= t.running
            && (!a.Looks? ==>
                  && t.waits == s.waits && t.log == s.log && t.reported == s.reported && t.domain.timers == d.timers
                  && t.domain.now == d.now && t.domain.sequence == d.sequence && t.domain.waiter == d.waiter)
            && (a.Looks? ==> Ready(s) && t == Looked(s, a.thread) && t.running == s.running)
            && (s.running !! s.others ==> t.running !! t.others)
  {
    hide Notified, Looked, Ready;
    if a.Wake? {
      NotifiedKeeps(s, a.task);
    } else if a.Tells? {
      NotifiedKeeps(s.(owed := s.owed - multiset{a.task}), a.task);
    } else if a.Notifies? {
      var wake := s.inside[a.thread];
      NotifiedKeeps(s.(inside := s.inside[a.thread := wake[1..]]), wake[0]);
    } else if a.Looks? {
      LookedIs(s, a.thread);
    }
  }

  lemma LookedIs(s: State, thread: nat)
    requires Ready(s)
    ensures var (d, waits, begin) := DriveBegin(s.domain, s.waits);
            var t := Looked(s, thread);
            && t == s.(domain := d, waits := waits, calling := s.calling - {thread},
                       inside := t.inside, reported := t.reported, log := t.log)
            && t.inside == (if begin.Drives? then s.inside[thread := begin.wake] else s.inside)
            && t.reported == (begin.Deadlock? || s.reported)
  {
    hide DriveBegin;
  }

  lemma NotifiedCounts(s: State, task: nat)
    requires Counts(s)
    ensures Counts(Notified(s, task))
  {
  }

  lemma TaskCounts(s: State, a: Action)
    requires Counts(s) && Enabled(s, a) && OfTask(a)
    ensures Counts(Apply(s, a))
  {
    TaskKeeps(s, a);
    match a
    case Park(thread, task) =>
      assert |s.running - {task}| == |s.running| - 1 && |s.stopping + {thread}| == |s.stopping| + 1;
    case Ends(thread, task) =>
      assert |s.running - {task}| == |s.running| - 1 && |s.stopping + {thread}| == |s.stopping| + 1;
    case _ =>
  }

  lemma ThreadCounts(s: State, a: Action)
    requires Counts(s) && Enabled(s, a) && !OfTask(a) && !OfClock(a)
    ensures Counts(Apply(s, a))
  {
    hide DriveBegin, Notified, Ready;
    match a
    case Wake(task) => NotifiedCounts(s, task);
    case Tells(task) => NotifiedCounts(s.(owed := s.owed - multiset{task}), task);
    case Notifies(thread) =>
      var wake := s.inside[thread];
      NotifiedCounts(s.(inside := s.inside[thread := wake[1..]]), wake[0]);
    case Stop(thread) => assert |s.stopping - {thread}| == |s.stopping| - 1;
    case Looks(_) =>
      LooksApply(s, a.thread);
      LookKeeps(s.domain, s.waits);
    case _ =>
  }

  lemma CountsKept(s: State, a: Action)
    requires Safe(s) && Enabled(s, a)
    ensures Counts(Apply(s, a))
  {
    hide Enabled, Apply, OneDrives, NoDriveLost, NoWakeLost, WaitsKept;
    if OfTask(a) {
      TaskCounts(s, a);
    } else if OfClock(a) {
      ClockKeeps(s, a);
    } else {
      ThreadCounts(s, a);
    }
  }

  lemma LookOneDrives(s: State, thread: nat)
    requires OneDrives(s) && Ready(s)
    ensures OneDrives(Looked(s, thread))
  {
    hide DriveBegin, Looked;
    LookedIs(s, thread);
    LookKeeps(s.domain, s.waits);
    var begin := DriveBegin(s.domain, s.waits).2;
    if begin.Drives? { assert s.inside[thread := begin.wake].Keys == s.inside.Keys + {thread}; }
  }

  lemma ThreadOneDrives(s: State, a: Action)
    requires OneDrives(s) && Enabled(s, a) && !OfTask(a) && !OfClock(a)
    ensures OneDrives(Apply(s, a))
  {
    hide Looked, Notified, Ready;
    if a.Wake? {
      NotifiedKeeps(s, a.task);
    } else if a.Tells? {
      NotifiedKeeps(s.(owed := s.owed - multiset{a.task}), a.task);
    } else if a.Notifies? {
      var wake := s.inside[a.thread];
      assert s.inside[a.thread := wake[1..]].Keys == s.inside.Keys;
      NotifiedKeeps(s.(inside := s.inside[a.thread := wake[1..]]), wake[0]);
    } else if a.Looks? {
      LookOneDrives(s, a.thread);
    } else if a.Finishes? {
      assert (s.inside - {a.thread}).Keys == s.inside.Keys - {a.thread} == {};
    }
  }

  lemma OneDrivesKept(s: State, a: Action)
    requires Safe(s) && Enabled(s, a)
    ensures OneDrives(Apply(s, a))
  {
    hide Enabled, Apply, Counts, NoDriveLost, NoWakeLost, WaitsKept;
    if OfTask(a) {
      TaskKeeps(s, a);
    } else if OfClock(a) {
      ClockKeeps(s, a);
    } else {
      ThreadOneDrives(s, a);
    }
  }

  lemma ThreadNoDriveLost(s: State, a: Action)
    requires OneDrives(s) && NoDriveLost(s) && Enabled(s, a) && !OfTask(a) && !OfClock(a)
    ensures NoDriveLost(Apply(s, a))
  {
    hide DriveBegin, Ready;
    if a.Looks? {
      LooksApply(s, a.thread);
      LookKeeps(s.domain, s.waits);
    }
  }

  lemma NoDriveLostKept(s: State, a: Action)
    requires Safe(s) && Enabled(s, a)
    ensures NoDriveLost(Apply(s, a))
  {
    hide Enabled, Apply, Counts, OneDrives, NoWakeLost, WaitsKept;
    if OfTask(a) {
      TaskKeeps(s, a);
    } else if OfClock(a) {
      ClockKeeps(s, a);
    } else {
      ThreadNoDriveLost(s, a);
    }
  }

  // ---------------------------------------------------------------------
  // Wakes
  // ---------------------------------------------------------------------

  /** A task that is notified needs to be told no more. */
  lemma NotifiedHears(s: State, t: State, told: nat)
    requires NoWakeLost(s) && t.waits == s.waits && t.on == s.on && t.others == s.others
    requires t.running == s.running && t.notified == s.notified
    requires forall task :: task != told && ToBeTold(s, task) ==> ToBeTold(t, task)
    ensures NoWakeLost(Notified(t, told))
  {
    hide ToBeTold;
    var u := Notified(t, told);
    forall task | task in u.on
      ensures Hears(u, task)
    {
      assert Hears(s, task);
      SameTold(t, u, task);
    }
  }

  lemma SameTold(s: State, t: State, task: nat)
    requires s.owed == t.owed && s.inside == t.inside
    ensures ToBeTold(s, task) == ToBeTold(t, task)
  {
  }

  /** What `drive` has yet to notify is to be told, and so are the tasks whose
      waits it claims. */
  lemma LookTells(s: State, thread: nat)
    requires OneDrives(s) && Ready(s)
    ensures var t := Looked(s, thread);
            && t.on == s.on && t.running == s.running && t.notified == s.notified && t.others == s.others
            && OnlyClaims(s.waits, t.waits)
            && (forall task :: ToBeTold(s, task) ==> ToBeTold(t, task))
            && (forall w :: w in s.waits && s.waits[w].fired == None && t.waits[w].fired.Some? ==>
                ToBeTold(t, s.waits[w].task))
  {
    hide DriveBegin, OnlyClaims, Wakened, Looked, Ready;
    IsReady(s);
    LookedIs(s, thread);
    LookKeeps(s.domain, s.waits);
    LookWakes(s.domain, s.waits);
    var t := Looked(s, thread);
    var begin := DriveBegin(s.domain, s.waits).2;
    forall w | w in s.waits && w in t.waits && s.waits[w].fired == None && t.waits[w].fired.Some?
      ensures ToBeTold(t, s.waits[w].task)
    {
      WokenOf(s.waits, t.waits, if begin.Drives? then begin.wake else [], w);
      assert s.waits[w].task in t.inside[thread];
    }
    assert t.waits.Keys == s.waits.Keys;
  }

  lemma IsReady(s: State)
    requires Ready(s)
    ensures TimersWait(s.domain.timers, s.waits) && (s.domain.waiter.Some? ==> s.domain.waiter.value.0 in s.waits)
  {
  }

  lemma LookHears(s: State, thread: nat)
    requires NoWakeLost(s) && OneDrives(s) && Ready(s)
    ensures NoWakeLost(Looked(s, thread))
  {
    hide Looked, OneDrives, Ready, ToBeTold;
    LookTells(s, thread);
    var t := Looked(s, thread);
    forall task | task in t.on
      ensures Hears(t, task)
    {
      assert Hears(s, task);
    }
  }

  lemma WokenOf(before: Waits, after: Waits, wake: seq<nat>, wait: nat)
    requires Wakened(before, after, wake)
    requires wait in before && wait in after && before[wait].fired == None && after[wait].fired.Some?
    ensures before[wait].task in wake
  {
    var claimed :| ClaimedNow(before, after, claimed, wake);
    var i :| 0 <= i < |claimed| && claimed[i] == wait;
  }

  lemma ToldStays(s: State, t: State)
    requires s.owed <= t.owed && s.inside == t.inside
    ensures forall task :: ToBeTold(s, task) ==> ToBeTold(t, task)
    ensures forall task :: task in t.owed ==> ToBeTold(t, task)
  {
    forall task | ToBeTold(s, task)
      ensures ToBeTold(t, task)
    {
      if task in s.owed { assert s.owed[task] <= t.owed[task]; }
    }
  }

  lemma StopHears(s: State, a: Action)
    requires NoWakeLost(s) && s.running !! s.others && Enabled(s, a) && (a.Park? || a.Ends?)
    ensures NoWakeLost(Apply(s, a))
  {
    hide ToBeTold;
    var t := Apply(s, a);
    ToldStays(s, t);
    forall task | task in t.on
      ensures Hears(t, task)
    {
      if task in s.on { assert Hears(s, task); }
    }
  }

  lemma CheckHears(s: State, a: Action)
    requires NoWakeLost(s) && s.running !! s.others && Enabled(s, a) && (a.Checks? || a.GivesUp?)
    ensures NoWakeLost(Apply(s, a))
  {
    hide ToBeTold;
    var t := Apply(s, a);
    ToldStays(s, t);
    forall task | task in t.on
      ensures Hears(t, task)
    {
      if task in s.on { assert Hears(s, task); }
    }
  }

  lemma WaitHears(s: State, a: Action)
    requires NoWakeLost(s) && s.running !! s.others && Enabled(s, a) && (a.Opens? || a.Claims?)
    ensures NoWakeLost(Apply(s, a))
  {
    hide ToBeTold;
    var t := Apply(s, a);
    ToldStays(s, t);
    forall task | task in t.on
      ensures Hears(t, task)
    {
      if task in s.on { assert Hears(s, task); }
    }
  }

  lemma TaskHears(s: State, a: Action)
    requires NoWakeLost(s) && s.running !! s.others && Enabled(s, a) && OfTask(a)
    ensures NoWakeLost(Apply(s, a))
  {
    hide Enabled, Apply, NoWakeLost;
    if a.Park? || a.Ends? {
      StopHears(s, a);
    } else if a.Checks? || a.GivesUp? {
      CheckHears(s, a);
    } else {
      WaitHears(s, a);
    }
  }

  lemma ClockHears(s: State, a: Action)
    requires NoWakeLost(s) && s.running !! s.others && Enabled(s, a) && OfClock(a)
    ensures NoWakeLost(Apply(s, a))
  {
    hide Inserted;
    var t := Apply(s, a);
    forall task | task in t.on
      ensures Hears(t, task)
    {
      if task in s.on {
        assert Hears(s, task);
        assert ToBeTold(s, task) ==> ToBeTold(t, task);
      }
    }
  }

  lemma ThreadHears(s: State, a: Action)
    requires NoWakeLost(s) && OneDrives(s) && Enabled(s, a) && !OfTask(a) && !OfClock(a)
    ensures NoWakeLost(Apply(s, a))
  {
    hide Looked, Notified, OneDrives, NoWakeLost, Ready;
    if a.Wake? {
      NotifiedHears(s, s, a.task);
    } else if a.Tells? {
      NotifiedHears(s, s.(owed := s.owed - multiset{a.task}), a.task);
    } else if a.Notifies? {
      NotifyHears(s, a.thread);
    } else if a.Looks? {
      LookHears(s, a.thread);
    } else {
      SameHears(s, Apply(s, a));
    }
  }

  lemma SameHears(s: State, t: State)
    requires NoWakeLost(s) && t.waits == s.waits && t.on == s.on && t.others == s.others && t.owed == s.owed
    requires t.running == s.running && t.notified == s.notified
    requires forall thread :: thread in s.inside && s.inside[thread] != [] ==>
               thread in t.inside && t.inside[thread] == s.inside[thread]
    ensures NoWakeLost(t)
  {
    forall task | task in t.on
      ensures Hears(t, task)
    {
      assert Hears(s, task);
      assert ToBeTold(s, task) ==> ToBeTold(t, task);
    }
  }

  /** Every action keeps it that a task whose wait was claimed comes to see it. */
  lemma NoWakeLostKept(s: State, a: Action)
    requires Safe(s) && Enabled(s, a)
    ensures NoWakeLost(Apply(s, a))
  {
    hide Enabled, Apply, Counts, OneDrives, NoDriveLost, NoWakeLost, WaitsKept;
    if OfTask(a) {
      TaskHears(s, a);
    } else if OfClock(a) {
      ClockHears(s, a);
    } else {
      ThreadHears(s, a);
    }
  }

  lemma NotifyHears(s: State, thread: nat)
    requires NoWakeLost(s) && Enabled(s, Notifies(thread))
    ensures NoWakeLost(Apply(s, Notifies(thread)))
  {
    hide Notified;
    var wake := s.inside[thread];
    var t := s.(inside := s.inside[thread := wake[1..]]);
    forall task | task != wake[0] && ToBeTold(s, task)
      ensures ToBeTold(t, task)
    {
      if task !in s.owed {
        var other :| other in s.inside && task in s.inside[other];
        assert other in t.inside && task in t.inside[other] by { assert wake == [wake[0]] + wake[1..]; }
      }
    }
    NotifiedHears(s, t, wake[0]);
  }

  // ---------------------------------------------------------------------
  // Timers
  // ---------------------------------------------------------------------

  lemma {:induction false} InsertedKeeps(timers: seq<Timer>, timer: Timer)
    requires Ordered(timers) && forall i :: 0 <= i < |timers| ==> timers[i].sequence < timer.sequence
    ensures Ordered(Inserted(timers, timer)) && |Inserted(timers, timer)| == |timers| + 1
    ensures forall i :: 0 <= i < |timers| + 1 ==>
            Inserted(timers, timer)[i] == timer || Inserted(timers, timer)[i] in timers
    ensures forall t :: t in timers ==> t in Inserted(timers, timer)
    ensures timer in Inserted(timers, timer)
  {
    var r := Inserted(timers, timer);
    if timers == [] || Before(timer, timers[0]) {
    } else {
      InsertedKeeps(timers[1..], timer);
      assert timers == [timers[0]] + timers[1..];
    }
  }

  lemma {:induction false} InsertedLength(timers: seq<Timer>, timer: Timer)
    ensures |Inserted(timers, timer)| == |timers| + 1
  {
    if timers != [] && !Before(timer, timers[0]) { InsertedLength(timers[1..], timer); }
  }

  /** Those due are the first, and the others come later. */
  lemma {:induction false} DueAreFirst(timers: seq<Timer>, at: nat)
    requires Ordered(timers) && (timers != [] ==> at <= timers[0].at)
    ensures forall i :: DueCount(timers, at) <= i < |timers| ==> timers[i].at > at
  {
    var n := DueCount(timers, at);
    if n < |timers| {
      assert timers[n].at != at;
      assert n > 0 ==> Before(timers[0], timers[n]);
    }
  }

  lemma AllBefore(timers: seq<Timer>, n: nat)
    requires Ordered(timers) && n <= |timers|
    ensures Ordered(timers[..n]) && Ordered(timers[n..])
    ensures forall i, j :: 0 <= i < n && 0 <= j < |timers| - n ==> Before(timers[..n][i], timers[n..][j])
  {
  }

  /** How the timers and the clock change as `drive` looks: those that go are
      due at the time it then is, the others later or no earlier. */
  lemma LookTimers(d: Domain, waits: Waits)
    requires TimersWait(d.timers, waits) && (d.waiter.Some? ==> d.waiter.value.0 in waits)
    requires Ordered(d.timers) && d.now <= U64_MAX && forall i :: 0 <= i < |d.timers| ==>
             d.now <= d.timers[i].at <= U64_MAX
    requires match d.waiter case Some((_, Some(target))) => d.now <= target <= U64_MAX case _ => true
    ensures var (e, w, begin) := DriveBegin(d, waits);
            var n := |d.timers| - |e.timers|;
            && 0 <= n && e.timers == d.timers[n..] && d.now <= e.now <= U64_MAX
            && (forall i :: 0 <= i < n ==> d.timers[i].at == e.now)
            && (forall i :: n <= i < |d.timers| ==> e.now <= d.timers[i].at)
  {
    hide Fired;
    if d.timers != [] {
      DueAreFirst(d.timers, d.timers[0].at);
      assert forall i :: 0 < i < |d.timers| ==> Before(d.timers[0], d.timers[i]);
    }
    assert d.timers[0..] == d.timers;
  }

  lemma {:induction false} AppendOrdered(a: seq<Timer>, b: seq<Timer>)
    requires Ordered(a) && Ordered(b) && forall i, j :: 0 <= i < |a| && 0 <= j < |b| ==> Before(a[i], b[j])
    ensures Ordered(a + b)
  {
  }

  lemma FitsMore(now: nat, sequence: nat, timers: seq<Timer>, log: seq<Timer>, timer: Timer)
    requires Fits(now, sequence, timers, log) && now <= timer.at <= U64_MAX && timer.sequence == sequence + 1
    ensures Fits(now, sequence + 1, Inserted(timers, timer), log)
  {
    InsertedKeeps(timers, timer);
    hide Inserted, Ordered;
    forall j | 0 <= j < |timers| + 1
      ensures now <= Inserted(timers, timer)[j].at <= U64_MAX && Inserted(timers, timer)[j].sequence <= sequence + 1
      ensures forall i :: 0 <= i < |log| ==> Before(log[i], Inserted(timers, timer)[j])
    {
      var t := Inserted(timers, timer)[j];
      if t != timer {
        assert t in timers;
        var k :| 0 <= k < |timers| && timers[k] == t;
      }
    }
  }

  /** The first `n` timers fire at `then`, the time of each of them. */
  lemma FitsFired(now: nat, sequence: nat, timers: seq<Timer>, log: seq<Timer>, n: nat, time: nat)
    requires Fits(now, sequence, timers, log) && n <= |timers| && now <= time <= U64_MAX
    requires forall i :: 0 <= i < n ==> timers[i].at == time
    requires forall i :: n <= i < |timers| ==> time <= timers[i].at
    ensures Fits(time, sequence, timers[n..], log + timers[..n])
  {
    AllBefore(timers, n);
    AppendOrdered(log, timers[..n]);
    hide Ordered;
    var log', rest := log + timers[..n], timers[n..];
    forall i, j | 0 <= i < |log'| && 0 <= j < |rest|
      ensures Before(log'[i], rest[j])
    {
      assert rest[j] == timers[n + j];
      if i >= |log| { assert log'[i] == timers[..n][i - |log|]; }
    }
  }

  lemma LookTimersFit(d: Domain, waits: Waits, log: seq<Timer>)
    requires TimersWait(d.timers, waits) && (d.waiter.Some? ==> d.waiter.value.0 in waits)
    requires Fits(d.now, d.sequence, d.timers, log)
    requires match d.waiter case Some((_, Some(target))) => d.now <= target <= U64_MAX case _ => true
    ensures var e := DriveBegin(d, waits).0;
            var n := |d.timers| - |e.timers|;
            0 <= n && e.timers == d.timers[n..] && d.now <= e.now
                && Fits(e.now, d.sequence, e.timers, log + d.timers[..n])
  {
    hide DriveBegin, TimersWait;
    LookTimers(d, waits);
    FitsFired(d.now, d.sequence, d.timers, log, |d.timers| - |DriveBegin(d, waits).0.timers|,
        DriveBegin(d, waits).0.now);
  }

  lemma LookFits(s: State, thread: nat)
    requires TimersOrdered(s) && Enabled(s, Looks(thread))
    requires match s.domain.waiter case Some((_, Some(target))) => s.domain.now <= target <= U64_MAX case _ => true
    ensures TimersOrdered(Looked(s, thread)) && s.domain.now <= Looked(s, thread).domain.now
  {
    hide DriveBegin, TimersWait, Fits;
    LookTimersFit(s.domain, s.waits, s.log);
    LookKeeps(s.domain, s.waits);
    LookLogs(s, thread);
  }

  lemma TimersOrderedKept(s: State, a: Action)
    requires Inv(s) && Enabled(s, a)
    ensures TimersOrdered(Apply(s, a)) && s.domain.now <= Apply(s, a).domain.now
  {
    hide Apply, Enabled, Looked, Counts, OneDrives, NoDriveLost, TimersWait, Inserted, Fits;
    match a
    case Looks(thread) =>
      LooksApply(s, thread);
      LookFits(s, thread);
    case Sets(_, _, _, _) =>
      var timer := Set(s, a);
      var d := s.domain;
      InRange(s);
      InsertedLength(d.timers, timer);
      FitsMore(d.now, d.sequence, d.timers, s.log, timer);
    case _ =>
      TimersUntouched(s, a);
  }

  lemma InRange(s: State)
    requires TimersOrdered(s)
    ensures s.domain.now <= U64_MAX
  {
  }

  lemma LooksApply(s: State, thread: nat)
    requires Enabled(s, Looks(thread))
    ensures Ready(s) && Apply(s, Looks(thread)) == Looked(s, thread)
  {
  }

  /** The timer set, which joins the others. */
  lemma Set(s: State, a: Action) returns (timer: Timer)
    requires Enabled(s, a) && a.Sets?
    ensures var at := if s.domain.now + a.nanos > U64_MAX then U64_MAX else s.domain.now + a.nanos;
            timer == Timer(at, s.domain.sequence + 1, a.wait, a.index)
    ensures var t := Apply(s, a);
            t.domain == s.domain.(sequence := timer.sequence, timers := Inserted(s.domain.timers, timer))
                && t.log == s.log
    ensures s.domain.now <= U64_MAX ==> s.domain.now <= timer.at <= U64_MAX
  {
    hide Inserted;
    var at := if s.domain.now + a.nanos > U64_MAX then U64_MAX else s.domain.now + a.nanos;
    timer := Timer(at, s.domain.sequence + 1, a.wait, a.index);
  }

  lemma TimersUntouched(s: State, a: Action)
    requires Enabled(s, a) && !a.Looks? && !a.Sets?
    ensures var d, t := s.domain, Apply(s, a);
            t.domain.now == d.now && t.domain.timers == d.timers && t.domain.sequence == d.sequence && t.log == s.log
  {
    hide Enabled, Apply;
    if OfTask(a) {
      TaskKeeps(s, a);
    } else if OfClock(a) {
      ClockKeeps(s, a);
    } else {
      ThreadKeeps(s, a);
    }
  }

  lemma LookLogs(s: State, thread: nat)
    requires Ready(s) && Enabled(s, Looks(thread))
    ensures var t := Looked(s, thread); var n := |s.domain.timers| - |t.domain.timers|;
            n >= 0 && t.log == s.log + s.domain.timers[..n]
  {
    hide Fired;
    assert s.log + [] == s.log;
  }

  // ---------------------------------------------------------------------
  // Waits
  // ---------------------------------------------------------------------

  lemma {:induction false} FiredOnlyClaims(due: seq<Timer>, waits: Waits)
    requires TimersWait(due, waits)
    ensures OnlyClaims(waits, Fired(due, waits).0)
    ensures forall w :: w in waits && waits[w].fired == None && Fired(due, waits).0[w].fired.Some? ==>
              exists i :: 0 <= i < |due| && due[i].wait == w && Fired(due, waits).0[w].fired == Some(due[i].index)
  {
    if due != [] {
      var front := due[..|due| - 1];
      FiredOnlyClaims(front, waits);
      var before, after := Fired(front, waits).0, Fired(due, waits).0;
      forall w | w in waits && waits[w].fired == None && after[w].fired.Some?
        ensures exists i :: 0 <= i < |due| && due[i].wait == w && after[w].fired == Some(due[i].index)
      {
        if before[w].fired.Some? {
          var i :| 0 <= i < |front| && front[i].wait == w && before[w].fired == Some(front[i].index);
          assert due[i] == front[i];
        } else {
          assert due[|due| - 1].wait == w;
        }
      }
    }
  }

  /** How the waits and the waiter change as `drive` looks. */
  lemma LookWaits(d: Domain, waits: Waits)
    requires TimersWait(d.timers, waits) && (d.waiter.Some? ==> d.waiter.value.0 in waits)
    ensures var (e, w, begin) := DriveBegin(d, waits);
            && OnlyClaims(waits, w)
            && (e.waiter == None || e.waiter == d.waiter)
            && (match e.waiter case Some((_, Some(target))) => e.now == d.now || e.now <= target case _ => true)
  {
    hide Fired, DueCount;
    if d.timers != [] { FiredOnlyClaims(d.timers[..DueCount(d.timers, d.timers[0].at)], waits); }
  }

  /** When a look claims a wait that no timer may end so. */
  lemma LookEnds(d: Domain, waits: Waits, wait: nat)
    requires TimersWait(d.timers, waits) && (d.waiter.Some? ==> d.waiter.value.0 in waits)
    requires wait in waits && waits[wait].fired == None && DriveBegin(d, waits).1[wait].fired == Some(0)
    requires forall i :: 0 <= i < |d.timers| && d.timers[i].wait == wait ==> d.timers[i].index != 0
    ensures var (e, w, begin) := DriveBegin(d, waits);
            && d.active == 0 && d.external == 0 && d.waiter.Some? && d.waiter.value.0 == wait && e.timers == d.timers
            && (match d.waiter.value.1
                case None => e.now == d.now
                case Some(target) => e.now == target && (d.timers == [] || d.timers[0].at > target))
  {
    hide Fired, DueCount;
    if d.timers != [] {
      var due := d.timers[..DueCount(d.timers, d.timers[0].at)];
      FiredOnlyClaims(due, waits);
      assert forall i :: 0 <= i < |due| ==> due[i] == d.timers[i];
    }
  }

  /** What a look leaves of the timers are the last of them. */
  lemma LookSuffix(d: Domain, waits: Waits)
    requires TimersWait(d.timers, waits) && (d.waiter.Some? ==> d.waiter.value.0 in waits)
    ensures forall timer :: timer in DriveBegin(d, waits).0.timers ==> timer in d.timers
  {
    hide Fired, DueCount;
  }

  lemma LookWaitsKept(s: State, thread: nat)
    requires WaitsKept(s) && Enabled(s, Looks(thread))
    ensures WaitsKept(Looked(s, thread))
  {
    hide DriveBegin, Fired;
    LookWaits(s.domain, s.waits);
    LookSuffix(s.domain, s.waits);
    var t := Looked(s, thread);
    forall i | 0 <= i < |t.domain.timers|
      ensures TimerWaits(t.waits, t.domain.timers[i])
    {
      assert t.domain.timers[i] in DriveBegin(s.domain, s.waits).0.timers;
    }
  }

  /** Targets stay ahead of the clock that a look moves. */
  lemma LookAhead(s: State, thread: nat)
    requires Inv(s) && Enabled(s, Looks(thread))
    ensures TargetsAhead(Looked(s, thread)) && WaiterAhead(Looked(s, thread))
  {
    hide DriveBegin, Looked, Ready, OneDrives, NoDriveLost, NoWakeLost, WaitsKept, TimersOrdered;
    LooksApply(s, thread);
    IsReady(s);
    LookedIs(s, thread);
    LookWaits(s.domain, s.waits);
    LookKeeps(s.domain, s.waits);
    LookFits(s, thread);
    if Looked(s, thread).domain.now != s.domain.now { QuietWhen(s); }
  }

  lemma TimersKeep(s: State, t: State)
    requires TimersHaveWaits(s) && t.domain.timers == s.domain.timers && KeepsWaits(s.waits, t.waits)
    ensures TimersHaveWaits(t)
  {
    forall i | 0 <= i < |t.domain.timers|
      ensures TimerWaits(t.waits, t.domain.timers[i])
    {
      assert TimerWaits(s.waits, s.domain.timers[i]);
    }
  }

  lemma ClockWaits(s: State, a: Action)
    requires WaitsKept(s) && Enabled(s, a) && OfClock(a)
    ensures WaitsKept(Apply(s, a))
  {
    hide Inserted, TimersHaveWaits;
    ClockKeeps(s, a);
    if a.Sets? {
      var timer := Set(s, a);
      SetsWaits(s, timer);
    } else {
      TimersKeep(s, Apply(s, a));
    }
  }

  lemma WaitsKeptKept(s: State, a: Action)
    requires Safe(s) && Enabled(s, a)
    ensures WaitsKept(Apply(s, a))
  {
    hide Enabled, Apply, OneDrives, NoDriveLost, NoWakeLost, Counts, TimersHaveWaits;
    if OfTask(a) {
      TaskKeeps(s, a);
      TimersKeep(s, Apply(s, a));
    } else if OfClock(a) {
      ClockWaits(s, a);
    } else {
      ThreadKeeps(s, a);
      if a.Looks? {
        LookWaitsKept(s, a.thread);
      } else {
        TimersKeep(s, Apply(s, a));
      }
    }
  }

  lemma AheadKept(s: State, a: Action)
    requires Inv(s) && Enabled(s, a) && Timely(s, a)
    ensures TargetsAhead(Apply(s, a)) && WaiterAhead(Apply(s, a))
  {
    hide Enabled, Apply, OneDrives, NoDriveLost, NoWakeLost, TimersOrdered, Counts, WaitsKept;
    if OfTask(a) {
      TaskKeeps(s, a);
    } else if OfClock(a) {
      ClockAhead(s, a);
    } else {
      ThreadKeeps(s, a);
      if a.Looks? { LookAhead(s, a.thread); }
    }
  }

  lemma ClockAhead(s: State, a: Action)
    requires TargetsAhead(s) && WaiterAhead(s) && Enabled(s, a) && OfClock(a) && Timely(s, a)
    ensures TargetsAhead(Apply(s, a)) && WaiterAhead(Apply(s, a))
  {
    hide Inserted;
    ClockKeeps(s, a);
  }

  lemma SetsWaits(s: State, timer: Timer)
    requires TimerWaits(s.waits, timer) && TimersHaveWaits(s)
    ensures TimersHaveWaits(s.(domain := s.domain.(sequence := timer.sequence,
            timers := Inserted(s.domain.timers, timer))))
  {
    InsertedHas(s.domain.timers, timer);
  }

  lemma {:induction false} InsertedHas(timers: seq<Timer>, timer: Timer)
    ensures forall i :: 0 <= i < |Inserted(timers, timer)| ==>
              Inserted(timers, timer)[i] == timer || Inserted(timers, timer)[i] in timers
  {
    if timers != [] && !Before(timer, timers[0]) {
      InsertedHas(timers[1..], timer);
      assert timers == [timers[0]] + timers[1..];
    }
  }

  /** Every action, whoever does it, keeps what the drive needs. */
  lemma SafeKept(s: State, a: Action)
    requires Safe(s) && Enabled(s, a)
    ensures Safe(Apply(s, a))
  {
    CountsKept(s, a);
    OneDrivesKept(s, a);
    NoDriveLostKept(s, a);
    NoWakeLostKept(s, a);
    WaitsKeptKept(s, a);
    ApartKept(s, a);
  }

  lemma ApartKept(s: State, a: Action)
    requires s.running !! s.others && Enabled(s, a)
    ensures Apply(s, a).running !! Apply(s, a).others && Apply(s, a).others == s.others
  {
    hide Enabled, Apply;
    if OfTask(a) {
      TaskKeeps(s, a);
    } else if OfClock(a) {
      ClockKeeps(s, a);
    } else {
      ThreadKeeps(s, a);
    }
  }

  /** A timely one keeps all of it. */
  lemma InvKept(s: State, a: Action)
    requires Inv(s) && Enabled(s, a) && Timely(s, a)
    ensures Inv(Apply(s, a))
  {
    SafeKept(s, a);
    TimersOrderedKept(s, a);
    AheadKept(s, a);
  }

  // ---------------------------------------------------------------------
  // What one action does
  // ---------------------------------------------------------------------

  /** The clock moves only in `drive`, while every task waits and the host
      has nothing to bring; and then no further than it may. */
  lemma MovesWhenIdle(s: State, a: Action)
    requires Inv(s) && Enabled(s, a)
    ensures var t := Apply(s, a);
            && s.domain.now <= t.domain.now
            && (s.domain.now < t.domain.now ==> s.running == {} && s.stopping == {} && s.domain.external == 0)
  {
    hide Enabled, Apply, DriveBegin, OneDrives, NoDriveLost, NoWakeLost, TimersOrdered, WaitsKept;
    TimersOrderedKept(s, a);
    if a.Looks? {
      LooksApply(s, a.thread);
      LookKeeps(s.domain, s.waits);
      if Apply(s, a).domain.now != s.domain.now { QuietWhen(s); }
    } else if a.Sets? {
      var _ := Set(s, a);
    } else {
      TimersUntouched(s, a);
    }
  }

  /** Timers fire at exactly their deadline, each once: what is no longer
      pending was added to the log, in order, at the time it was due. */
  lemma FiresAtDeadline(s: State, a: Action)
    requires Inv(s) && Enabled(s, a)
    ensures var t := Apply(s, a);
            && |s.log| <= |t.log| && t.log[..|s.log|] == s.log
            && (forall i :: |s.log| <= i < |t.log| ==> t.log[i].at == t.domain.now && t.log[i] in s.domain.timers)
            && (forall timer :: timer in s.domain.timers ==> timer in t.domain.timers || timer in t.log)
  {
    hide Apply, Enabled, DriveBegin, OneDrives, NoDriveLost, Fired, Counts, Inserted, NoWakeLost, WaitsKept,
         TargetsAhead;
    match a
    case Looks(thread) =>
      LooksApply(s, thread);
      LookTimers(s.domain, s.waits);
      LookKeeps(s.domain, s.waits);
      LookLogs(s, thread);
      Split(s.domain.timers, |s.domain.timers| - |Apply(s, a).domain.timers|);
    case Sets(_, _, _, _) =>
      var timer := Set(s, a);
      InsertedKeeps(s.domain.timers, timer);
    case _ =>
      TimersUntouched(s, a);
  }

  lemma Split(timers: seq<Timer>, n: nat)
    requires n <= |timers|
    ensures forall timer :: timer in timers <==> timer in timers[..n] || timer in timers[n..]
  {
    assert timers == timers[..n] + timers[n..];
  }

  /** Only a look at the domain ends `settle` or `advance`. */
  lemma EndsByLook(s: State, a: Action, wait: nat)
    requires Enabled(s, a) && wait in s.waits && !s.waits[wait].purpose.Operation? && s.waits[wait].fired == None
    requires wait in Apply(s, a).waits && Apply(s, a).waits[wait].fired == Some(0)
    ensures a.Looks?
  {
    hide Enabled, Apply, KeepsWaits;
    if OfTask(a) {
      TaskKeeps(s, a);
      NotEnded(s.waits, Apply(s, a).waits, wait);
    } else if OfClock(a) {
      ClockKeeps(s, a);
      NotEnded(s.waits, Apply(s, a).waits, wait);
    } else {
      ThreadKeeps(s, a);
    }
  }

  lemma NotEnded(before: Waits, after: Waits, wait: nat)
    requires KeepsWaits(before, after) && wait in before && !before[wait].purpose.Operation?
             && before[wait].fired == None
    ensures wait in after && after[wait].fired != Some(0)
  {
  }

  /** An `advance` that is not cancelled ends with the clock at its target,
      every deadline up to it visited, and every task waiting. */
  lemma AdvanceReachesTarget(s: State, a: Action, wait: nat)
    requires Inv(s) && Enabled(s, a) && wait in s.waits && s.waits[wait].purpose.Advancing?
             && s.waits[wait].fired == None
    requires wait in Apply(s, a).waits && Apply(s, a).waits[wait].fired == Some(0)
    ensures var t := Apply(s, a); var target := s.waits[wait].purpose.target;
            && t.domain.now == target && s.running == {} && s.domain.external == 0
            && (forall timer :: timer in t.domain.timers ==> timer.at > target)
  {
    hide Apply, Enabled, OneDrives, NoDriveLost, DriveBegin, Counts, NoWakeLost;
    if !a.Looks? {
      EndsByLook(s, a, wait);
    } else {
      LooksApply(s, a.thread);
      LookEnds(s.domain, s.waits, wait);
      QuietWhen(s);
      FirstIsLeast(s.domain.timers);
    }
  }

  lemma QuietWhen(s: State)
    requires Counts(s) && s.domain.active == 0
    ensures s.running == {} && s.stopping == {}
  {
  }

  lemma FirstIsLeast(timers: seq<Timer>)
    requires Ordered(timers)
    ensures forall timer :: timer in timers ==> timers[0].at <= timer.at
  {
    assert forall i :: 0 < i < |timers| ==> Before(timers[0], timers[i]);
  }

  /** `settle` ends with every task waiting, and the clock where it was. */
  lemma SettleEndsQuiet(s: State, a: Action, wait: nat)
    requires Inv(s) && Enabled(s, a) && wait in s.waits && s.waits[wait].purpose.Settling?
             && s.waits[wait].fired == None
    requires wait in Apply(s, a).waits && Apply(s, a).waits[wait].fired == Some(0)
    ensures Apply(s, a).domain.now == s.domain.now && s.running == {} && s.domain.external == 0
  {
    hide Apply, Enabled, OneDrives, NoDriveLost, DriveBegin, Counts, NoWakeLost;
    if !a.Looks? {
      EndsByLook(s, a, wait);
    } else {
      LooksApply(s, a.thread);
      LookEnds(s.domain, s.waits, wait);
      QuietWhen(s);
    }
  }

  /** A deadlock is reported only when every task waits, the host has nothing
      to bring, and neither a waiter nor a timer is left to wake them. */
  lemma DeadlockIsReal(s: State, a: Action)
    requires Inv(s) && Enabled(s, a) && !s.reported && Apply(s, a).reported
    ensures s.running == {} && s.domain.external == 0 && s.domain.waiter == None && s.domain.timers == []
  {
    hide Enabled, Apply, DriveBegin, OneDrives, NoDriveLost, NoWakeLost, TimersOrdered, WaitsKept;
    if OfTask(a) {
      TaskKeeps(s, a);
    } else if OfClock(a) {
      ClockKeeps(s, a);
    } else {
      ThreadKeeps(s, a);
      if a.Looks? {
        LookKeeps(s.domain, s.waits);
        QuietWhen(s);
      }
    }
  }

  // ---------------------------------------------------------------------
  // Runs
  // ---------------------------------------------------------------------

  predicate Can(s: State, actions: seq<Action>)
    decreases |actions|
  {
    actions == [] || (Enabled(s, actions[0]) && Can(Apply(s, actions[0]), actions[1..]))
  }

  function After(s: State, actions: seq<Action>): State
    requires Can(s, actions)
    decreases |actions|
  {
    if actions == [] then s else After(Apply(s, actions[0]), actions[1..])
  }

  /** Whether each `advance` of a run waits before the clock is past its
      target. */
  predicate AllTimely(s: State, actions: seq<Action>)
    requires Can(s, actions)
    decreases |actions|
  {
    actions == [] || (Timely(s, actions[0]) && AllTimely(Apply(s, actions[0]), actions[1..]))
  }

  /** Whatever tasks and threads do: no drive is lost. */
  lemma {:induction false} EveryRunIsSafe(s: State, actions: seq<Action>)
    requires Safe(s) && Can(s, actions)
    ensures Safe(After(s, actions))
    decreases |actions|
  {
    hide Safe;
    if actions != [] {
      SafeKept(s, actions[0]);
      EveryRunIsSafe(Apply(s, actions[0]), actions[1..]);
    }
  }

  /** And while each `advance` is timely, the clock never goes back. */
  lemma {:induction false} EveryRun(s: State, actions: seq<Action>)
    requires Inv(s) && Can(s, actions) && AllTimely(s, actions)
    ensures Inv(After(s, actions)) && s.domain.now <= After(s, actions).domain.now
    decreases |actions|
  {
    hide Inv;
    if actions != [] {
      InvKept(s, actions[0]);
      MovesWhenIdle(s, actions[0]);
      EveryRun(Apply(s, actions[0]), actions[1..]);
    }
  }

  /** Each is when only tasks of the domain call the clock. */
  lemma {:induction false} AloneIsTimely(s: State, actions: seq<Action>)
    requires Inv(s) && s.others == {} && Can(s, actions)
    ensures AllTimely(s, actions)
    decreases |actions|
  {
    hide Inv;
    if actions != [] {
      assert s.others == {} && Timely(s, actions[0]) by { InsideIsTimely(s, actions[0]); }
      InvKept(s, actions[0]);
      assert Safe(s) by { InvIsSafe(s); }
      ApartKept(s, actions[0]);
      AloneIsTimely(Apply(s, actions[0]), actions[1..]);
    }
  }

  lemma InvIsSafe(s: State)
    requires Inv(s)
    ensures Safe(s)
  {
  }

  /** From the start, whoever calls the clock, no drive is lost; and the clock
      and the timers are right as long as each `advance` is timely, as it is
      when only tasks of the domain call the clock. */
  lemma FromTheStart(task: nat, others: set<nat>, actions: seq<Action>)
    requires task !in others && Can(Begun(task, others), actions)
    ensures var s := After(Begun(task, others), actions);
            && (s.domain.active == 0 && s.domain.external == 0 ==> s.calling != {} || s.inside.Keys != {} || s.reported)
            && s.domain.active == |s.running| + |s.stopping|
            && (forall parked :: parked in s.on && parked !in s.running ==>
                  && s.on[parked].wait in s.waits
                  && (s.waits[s.on[parked].wait].fired.Some? ==>
                        parked in s.owed || exists thread :: thread in s.inside && parked in s.inside[thread]))
    ensures others == {} ==> AllTimely(Begun(task, others), actions)
    ensures AllTimely(Begun(task, others), actions) ==>
            var s := After(Begun(task, others), actions);
            && (forall i, j :: 0 <= i < j < |s.log| ==> Before(s.log[i], s.log[j]))
            && (forall i :: 0 <= i < |s.domain.timers| ==> s.domain.now <= s.domain.timers[i].at)
            && |s.log| + |s.domain.timers| == s.domain.sequence
  {
    var s := Begun(task, others);
    InvBegun(task, others);
    EveryRunIsSafe(s, actions);
    if others == {} { AloneIsTimely(s, actions); }
    if AllTimely(s, actions) { EveryRun(s, actions); }
  }

  // ---------------------------------------------------------------------
  // A clock that goes back
  // ---------------------------------------------------------------------

  /** With every task waiting and a thread about to drive, an `advance` that
      gets to wait leads to a clock that goes back exactly when its target is
      behind the clock. */
  lemma LateGoesBack(s: State, a: Action, thread: nat)
    requires Inv(s) && a.Advances? && Enabled(s, a)
    requires s.domain.active == 0 && s.domain.external == 0 && !s.domain.driving && thread in s.calling
    ensures !Timely(s, a) <==>
            exists actions :: Can(Apply(s, a), actions) && AllTimely(Apply(s, a), actions)
                              && After(Apply(s, a), actions).domain.now < s.domain.now
  {
    hide DriveBegin, Looked, OneDrives, NoDriveLost, Counts;
    var t := Apply(s, a);
    if Timely(s, a) {
      InvKept(s, a);
      forall actions | Can(t, actions) && AllTimely(t, actions)
        ensures s.domain.now <= After(t, actions).domain.now
      {
        EveryRun(t, actions);
      }
    } else {
      hide Inv;
      TimersAhead(s);
      LookReaches(t, thread, a.wait, s.advancing[a.task]);
      OneLook(t, thread);
    }
  }

  lemma TimersAhead(s: State)
    requires Inv(s)
    ensures TimersWait(s.domain.timers, s.waits) && forall i :: 0 <= i < |s.domain.timers| ==>
            s.domain.now <= s.domain.timers[i].at
  {
  }

  lemma LookReaches(s: State, thread: nat, wait: nat, target: nat)
    requires Ready(s) && s.domain.active == 0 && s.domain.external == 0 && !s.domain.driving
    requires s.domain.waiter == Some((wait, Some(target)))
    requires s.domain.timers == [] || s.domain.timers[0].at > target
    ensures Looked(s, thread).domain.now == target
  {
  }

  lemma OneLook(s: State, thread: nat)
    requires Enabled(s, Looks(thread))
    ensures Can(s, [Looks(thread)]) && After(s, [Looks(thread)]) == Looked(s, thread) && AllTimely(s, [Looks(thread)])
  {
    hide Looked;
    var look := [Looks(thread)];
    assert look[1..] == [];
  }

  /** Whether a domain that task 1 began, beside a task 2 whose clock is the
      host's, comes to a state with each `advance` timely. */
  ghost predicate Comes(s: State) {
    exists actions :: Can(Begun(1, {2}), actions) && AllTimely(Begun(1, {2}), actions)
        && After(Begun(1, {2}), actions) == s
  }

  lemma {:induction false} Extends(s: State, actions: seq<Action>, a: Action)
    requires Can(s, actions) && AllTimely(s, actions)
    requires Enabled(After(s, actions), a) && Timely(After(s, actions), a)
    ensures Can(s, actions + [a]) && AllTimely(s, actions + [a])
            && After(s, actions + [a]) == Apply(After(s, actions), a)
    decreases |actions|
  {
    hide Apply, Enabled;
    if actions == [] {
      assert actions + [a] == [a] && [a][1..] == [];
      assert Can(Apply(s, a), []) && AllTimely(Apply(s, a), []);
    } else {
      assert (actions + [a])[1..] == actions[1..] + [a];
      Extends(Apply(s, actions[0]), actions[1..], a);
    }
  }

  lemma ComesOn(s: State, a: Action)
    requires Comes(s) && Enabled(s, a) && Timely(s, a)
    ensures Comes(Apply(s, a))
  {
    hide Apply, Enabled, Can, AllTimely, After, Timely;
    var actions :| Can(Begun(1, {2}), actions) && AllTimely(Begun(1, {2}), actions)
        && After(Begun(1, {2}), actions) == s;
    Extends(Begun(1, {2}), actions, a);
  }

  /** Task 1 waits until 10, which task 2 read the clock before, to go to 5. */
  function Waiting(now: nat, timers: seq<Timer>, driven: bool): State {
    State(Domain(now, timers, 1, 0, 0, None, false, if driven then 1 else 0, 0, 0),
          map[0 := Wait(1, Operation, if driven then Some(0) else None)],
          {}, {2}, {}, if driven then map[] else map[1 := Checking(0)], multiset{},
          map[2 := 5], {}, {0}, map[], false, if driven then [TEN] else [])
  }

  const TEN := Timer(10, 1, 0, 0)

  /** Task 1 is about to park, and task 2 has read the clock. */
  function Parking(): State {
    var s := Waiting(0, [TEN], false);
    s.(domain := s.domain.(active := 1), running := {1}, on := map[1 := Entering(0)], calling := {})
  }

  lemma ComesToPark()
    ensures Comes(Parking())
  {
    hide Comes;
    var s := Begun(1, {2});
    BeginsSo();
    ComesOn(s, Opens(0, 1));
    s := Apply(s, Opens(0, 1));
    ComesOn(s, Sets(10, 0, 0, 1));
    s := Apply(s, Sets(10, 0, 0, 1));
    ComesOn(s, Reads(2, 5));
    assert Apply(s, Reads(2, 5)) == Parking();
  }

  lemma ComesToWait()
    ensures Comes(Waiting(0, [TEN], false))
  {
    hide Comes;
    ComesToPark();
    var s := Parking();
    ComesOn(s, Park(0, 1));
    s := Apply(s, Park(0, 1));
    ComesOn(s, Stop(0));
    assert Apply(s, Stop(0)) == Waiting(0, [TEN], false);
  }

  lemma BeginsSo()
    ensures Comes(Begun(1, {2}))
  {
    assert Can(Begun(1, {2}), []) && AllTimely(Begun(1, {2}), []) && After(Begun(1, {2}), []) == Begun(1, {2});
  }

  lemma ComesToTen()
    ensures Comes(Waiting(10, [], true))
  {
    hide Comes, DueCount;
    ComesToWait();
    var s := Waiting(0, [TEN], false);
    FiresTen();
    ComesOn(s, Looks(0));
    assert Apply(s, Looks(0)) == Woken();
    WokenParks();
  }

  function Woken(): State {
    var s := Waiting(10, [], true);
    s.(domain := s.domain.(driving := true), on := map[1 := Checking(0)], calling := {}, inside := map[0 := [1]])
  }

  /** Task 1 runs again, and has yet to see that its wait is claimed. */
  function Awake(): State {
    var s := Waiting(10, [], true);
    s.(domain := s.domain.(active := 1), running := {1}, on := map[1 := Checking(0)], calling := {})
  }

  lemma WokenRuns()
    requires Comes(Woken())
    ensures Comes(Awake())
  {
    hide Comes;
    var s := Woken();
    ComesOn(s, Notifies(0));
    s := Apply(s, Notifies(0));
    ComesOn(s, Finishes(0));
    assert Apply(s, Finishes(0)) == Awake();
  }

  lemma WokenParks()
    requires Comes(Woken())
    ensures Comes(Waiting(10, [], true))
  {
    hide Comes;
    WokenRuns();
    var s := Awake();
    ComesOn(s, Checks(1));
    s := Apply(s, Checks(1));
    ComesOn(s, Ends(0, 1));
    s := Apply(s, Ends(0, 1));
    ComesOn(s, Stop(0));
    assert Apply(s, Stop(0)) == Waiting(10, [], true);
  }

  lemma FiresTen()
    ensures var d := Waiting(0, [TEN], false);
            DriveBegin(d.domain, d.waits) ==
              (d.domain.(now := 10, timers := [], driving := true, automatic := 1), Waiting(10, [], true).waits,
                  Drives([1]))
  {
    assert [TEN][1..] == [] && [TEN][..1] == [TEN] && [TEN][..0] == [];
    assert DueCount([], 10) == 0 && DueCount([TEN], 10) == 1;
    var waits := Waiting(0, [TEN], false).waits;
    assert Fired([], waits) == (waits, []);
    assert Wakes(waits, 0) == [1] && Claimed(waits, 0, 0) == Waiting(10, [], true).waits;
    assert Fired([TEN], waits).1 == [] + Wakes(waits, 0) == [1];
  }

  /** So the clock goes back when a task whose clock is the host's calls
      `advance`: it reads 0, the clock moves to 10 by itself, and drives to 5. */
  lemma OtherGoesBack()
    ensures exists s, actions :: Comes(s) && Can(s, actions) && After(s, actions).domain.now < s.domain.now
  {
    hide Apply, Enabled, Can, AllTimely, After, Inv, Comes;
    ComesToTen();
    var s := Waiting(10, [], true);
    var a := Advances(2, 1);
    IsLate();
    ComesSafely(s);
    LateGoesBack(s, a, 0);
    var actions :| Can(Apply(s, a), actions) && AllTimely(Apply(s, a), actions)
        && After(Apply(s, a), actions).domain.now < s.domain.now;
    Prepended(s, a, actions);
  }

  lemma IsLate()
    ensures var s := Waiting(10, [], true); Enabled(s, Advances(2, 1)) && !Timely(s, Advances(2, 1))
  {
  }

  lemma Prepended(s: State, a: Action, actions: seq<Action>)
    requires Enabled(s, a) && Can(Apply(s, a), actions)
    ensures Can(s, [a] + actions) && After(s, [a] + actions) == After(Apply(s, a), actions)
  {
    hide Apply, Enabled;
    assert ([a] + actions)[1..] == actions;
  }

  lemma ComesSafely(s: State)
    requires Comes(s)
    ensures Inv(s)
  {
    hide Apply, Enabled, Can, AllTimely, After, Inv;
    var actions :| Can(Begun(1, {2}), actions) && AllTimely(Begun(1, {2}), actions)
        && After(Begun(1, {2}), actions) == s;
    InvBegun(1, {2});
    EveryRun(Begun(1, {2}), actions);
  }
}
