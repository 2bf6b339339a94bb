/**
 A context field whose initial value is computed when first read
 (contexts.rs): one task computes it while the others that read it wait.
 Each action is what one task does while it holds the field's lock.
 */
module ComputedField {
  import opened Bytes

  datatype Field = Pending | Computing(task: nat, waiting: set<nat>) | Done(value: nat)

  /** Where a task that reads the field is. A wait is claimed once: by the one
      that computed, or as its task is cancelled. */
  datatype Reader =
    | Reading
    | Parked(claim: Claim)
    | Making
    | Left(result: Option<nat>)

  datatype Claim = Unclaimed | Woken | Cancelled

  datatype State = State(field: Field, readers: map<nat, Reader>)

  const BEGUN := State(Pending, map[])

  datatype Action =
    | Reads(task: nat)
    | Looks(task: nat)
    | ReadsItself(task: nat)
    | Makes(task: nat, made: Option<nat>)
    | Cancels(task: nat)
    | Resumes(task: nat)

  predicate Enabled(s: State, a: Action) {
    match a
    // A task that does not read the field, or no longer does.
    case Reads(task) => task !in s.readers || s.readers[task].Left?
    case Looks(task) => task in s.readers && s.readers[task] == Reading
    case ReadsItself(task) => task in s.readers && s.readers[task] == Making
    case Makes(task, _) => task in s.readers && s.readers[task] == Making
    case Cancels(task) => task in s.readers && s.readers[task] == Parked(Unclaimed)
    case Resumes(task) => task in s.readers && s.readers[task].Parked? && s.readers[task].claim != Unclaimed
  }

  /** The readers whose waits `tasks` are, woken unless cancelled first. */
  function Wakened(readers: map<nat, Reader>, tasks: set<nat>): map<nat, Reader> {
    map task | task in readers ::
      if task in tasks && readers[task] == Parked(Unclaimed) then Parked(Woken) else readers[task]
  }

  /** What a task sees as it takes the lock. */
  function Looked(s: State, task: nat): State {
    match s.field
    case Done(value) => s.(readers := s.readers[task := Left(Some(value))])
    case Computing(other, waiting) =>
      if other == task then s.(readers := s.readers[task := Left(None)])
      else State(Computing(other, waiting + {task}), s.readers[task := Parked(Unclaimed)])
    case Pending => State(Computing(task, {}), s.readers[task := Making])
  }

  function Apply(s: State, a: Action): State
    requires Enabled(s, a)
  {
    match a
    case Reads(task) => s.(readers := s.readers[task := Reading])
    case Looks(task) => Looked(s, task)
    // The read inside fails; the task goes on computing.
    case ReadsItself(task) => if s.field.Computing? && s.field.task == task then s else Looked(s, task)
    case Makes(task, made) =>
      var readers := s.readers[task := Left(made)];
      State(if made == None then Pending else Done(made.value),
            if s.field.Computing? then Wakened(readers, s.field.waiting) else readers)
    case Cancels(task) => s.(readers := s.readers[task := Parked(Cancelled)])
    case Resumes(task) =>
      if s.readers[task].claim == Woken then s.(readers := s.readers[task := Reading])
      else
        State(if s.field.Computing? then s.field.(waiting := s.field.waiting - {task}) else s.field,
              s.readers[task := Left(None)])
  }

  /** The field is being computed exactly while one task makes it, and a task
      parked and not yet woken is among those that will be. */
  ghost predicate Inv(s: State) {
    && (forall task :: task in s.readers && s.readers[task] == Making ==> s.field.Computing? && s.field.task == task)
    && (s.field.Computing? ==> s.field.task in s.readers && s.readers[s.field.task] == Making)
    && (forall task :: task in s.readers && s.readers[task] == Parked(Unclaimed) ==>
        s.field.Computing? && task in s.field.waiting)
    && (forall task :: task in s.readers && s.readers[task].Left? && s.readers[task].result.Some? ==>
          s.field == Done(s.readers[task].result.value))
  }

  lemma InvBegun()
    ensures Inv(BEGUN)
  {
  }

  /** Every action keeps it. */
  lemma InvKept(s: State, a: Action)
    requires Inv(s) && Enabled(s, a)
    ensures Inv(Apply(s, a))
  {
  }

  lemma StepKeepsDone(s: State, a: Action)
    requires Inv(s) && Enabled(s, a) && s.field.Done?
    ensures Apply(s, a).field == s.field
  {
  }

  // ---------------------------------------------------------------------
  // Runs
  // ---------------------------------------------------------------------

  predicate Can(s: State, actions: seq<Action>)
    decreases |actions|
  {
    actions == [] || (Enabled(s, actions[0]) && Can(Apply(s, actions[0]), actions[1..]))
  }

  function After(s: State, actions: seq<Action>): State
    requires Can(s, actions)
    decreases |actions|
  {
    if actions == [] then s else After(Apply(s, actions[0]), actions[1..])
  }

  lemma {:induction false} EveryRun(s: State, actions: seq<Action>)
    requires Inv(s) && Can(s, actions)
    ensures Inv(After(s, actions))
    ensures s.field.Done? ==> After(s, actions).field == s.field
    decreases |actions|
  {
    hide Inv;
    if actions != [] {
      InvKept(s, actions[0]);
      if s.field.Done? { StepKeepsDone(s, actions[0]); }
      EveryRun(Apply(s, actions[0]), actions[1..]);
    }
  }

  /** In every interleaving, at most one task computes the field. */
  lemma OneComputes(actions: seq<Action>, a: nat, b: nat)
    requires Can(BEGUN, actions)
    requires var s := After(BEGUN, actions); a in s.readers && b in s.readers && s.readers[a] == s.readers[b] == Making
    ensures a == b
  {
    EveryRun(BEGUN, actions);
  }

  /** Once done, the field never changes, whatever tasks do next. */
  lemma DoneStays(actions: seq<Action>, more: seq<Action>)
    requires Can(BEGUN, actions) && After(BEGUN, actions).field.Done? && Can(After(BEGUN, actions), more)
    ensures After(After(BEGUN, actions), more).field == After(BEGUN, actions).field
  {
    EveryRun(BEGUN, actions);
    EveryRun(After(BEGUN, actions), more);
  }

  /** Whenever the computing ends, the one that computed leaves with what it
      made, no reader is left parked unwoken, and after a failure the field is
      as at first, so that whoever reads next computes it. */
  lemma MakingEnds(actions: seq<Action>, task: nat, made: Option<nat>)
    requires Can(BEGUN, actions) && Enabled(After(BEGUN, actions), Makes(task, made))
    ensures var t := Apply(After(BEGUN, actions), Makes(task, made));
            && t.readers[task] == Left(made) && t.field == (if made == None then Pending else Done(made.value))
            && (forall other :: other in t.readers ==>
                t.readers[other] != Parked(Unclaimed) && t.readers[other] != Making)
            && (forall next :: next in t.readers && t.readers[next] == Reading ==>
                  Looked(t, next).readers[next] == if made == None then Making else Left(made))
  {
    EveryRun(BEGUN, actions);
  }

  /** In every interleaving, the tasks that got the value got the same one. */
  lemma AllReadTheSame(actions: seq<Action>, a: nat, b: nat)
    requires Can(BEGUN, actions)
    requires var s := After(BEGUN, actions);
             a in s.readers && b in s.readers && s.readers[a].Left? && s.readers[b].Left?
    ensures var s := After(BEGUN, actions);
            s.readers[a].result.Some? && s.readers[b].result.Some? ==> s.readers[a].result == s.readers[b].result
  {
    EveryRun(BEGUN, actions);
  }
}
