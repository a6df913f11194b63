/** The mutex and the shared stack together: whatever the schedulers do with their task lists, only
    suspended coroutines are ever resumed, so that every run is a legal schedule of each shared stack. */
module CoSchedules {
  import opened ByteText
  import M = CoMutex
  import S = SharedStack

  type Co = M.Co

  /** What is fixed: which scheduler a coroutine belongs to, the scheduler whose stack is watched, the
      size of that stack, and what runs on it. */
  datatype Setting = Setting(own: Co -> nat, k: nat, size: nat, run: S.Program)

  /** The lock and the task lists, the suspended coroutines, the watched stack with its pool, and the pool
      index under which each coroutine was started on it. */
  datatype State = State(lock: M.State, suspended: set<Co>, stack: S.State, at: map<Co, nat>)

  /** A step of the schedulers, or a coroutine is started from its callback, or ends. */
  datatype Step = Plain(step: M.Step) | StartCo(i: nat, co: Co) | FinishCo(i: nat)

  function Slot(st: State, i: nat): M.Slot
    requires i < |st.lock.scheds|
  {
    st.lock.scheds[i].slot
  }

  /** The last run on the stack ended, or will end, by a yield. */
  predicate LastYields(stack: S.State) {
    var h := stack.history;
    |h| > 0 && h[|h| - 1].outcome.Yielded?
  }

  /** A coroutine whose wake-up comes from elsewhere has been suspended, or is about to be; one resumed
      directly is suspended; one started is not. A run ends in the way that its outcome says. */
  predicate Enabled(c: Setting, st: State, step: Step) {
    match step
    case Plain(s) =>
      && M.Enabled(st.lock, c.own, s)
      && (s.SignalStep? ==> s.co in st.suspended || Slot(st, s.i) == M.Yields(s.co))
      && (s.WakeStep? ==> s.co in st.suspended)
      && (s.YieldStep? && s.i == c.k ==> LastYields(st.stack))
    case StartCo(i, co) => M.Enabled(st.lock, c.own, M.WakeStep(i, co)) && co !in st.suspended
    case FinishCo(i) => M.Enabled(st.lock, c.own, M.PrepareStep(i)) && (i == c.k ==> !LastYields(st.stack))
  }

  /** The same in the mutex's terms: to start is to run from the loop, to end is to leave for the loop. */
  function LockSteps(step: Step): seq<M.Step> {
    match step
    case Plain(s) => [s]
    case StartCo(i, co) => [M.WakeStep(i, co)]
    case FinishCo(i) => [M.PrepareStep(i), M.YieldStep(i)]
  }

  function LockAfter(c: Setting, st: State, step: Step): M.State
    requires Enabled(c, st, step)
  {
    match step
    case Plain(s) => M.Apply(st.lock, c.own, s)
    case StartCo(i, co) => M.Apply(st.lock, c.own, M.WakeStep(i, co))
    case FinishCo(i) => M.SetSlot(st.lock, i, M.Loop)
  }

  function SuspendedAfter(st: State, s: M.Step): set<Co>
    requires s.i < |st.lock.scheds|
  {
    var sched := st.lock.scheds[s.i];
    match s
    case YieldStep(_) => if sched.slot.Yields? then st.suspended + {sched.slot.co} else st.suspended
    case ResumeStep(_) => if sched.batch != [] then st.suspended - {sched.batch[0]} else st.suspended
    case WakeStep(_, co) => st.suspended - {co}
    case _ => st.suspended
  }

  /** What a step does on the watched stack: it runs a new coroutine there, or an old one. */
  function EventsOf(c: Setting, st: State, step: Step): seq<S.Event> {
    match step
    case Plain(ResumeStep(i)) =>
      if i == c.k && i < |st.lock.scheds| && st.lock.scheds[i].batch != []
      then [S.Wake(Index(st, st.lock.scheds[i].batch[0]))] else []
    case Plain(WakeStep(i, co)) => if i == c.k then [S.Wake(Index(st, co))] else []
    case StartCo(i, co) => if i == c.k then [S.Start(co)] else []
    case _ => []
  }

  function Index(st: State, co: Co): nat {
    if co in st.at then st.at[co] else 0
  }

  /** Where a run takes place; a schedule that is not legal has no meaning. */
  function StackAfter(c: Setting, stack: S.State, es: seq<S.Event>): S.State {
    if |es| == 1 && S.CanStep(stack, es[0]) then S.Step(stack, es[0], c.run) else stack
  }

  function Target(stack: S.State, e: S.Event): nat {
    match e
    case Start(job) => if S.CanStep(stack, e) then S.NewCoroutine(stack, job).1 else 0
    case Wake(i) => i
  }

  function Do(c: Setting, st: State, step: Step): State
    requires Enabled(c, st, step)
  {
    var es := EventsOf(c, st, step);
    State(LockAfter(c, st, step), if step.Plain? then SuspendedAfter(st, step.step) else st.suspended,
          StackAfter(c, st.stack, es),
          if step.StartCo? && step.i == c.k then st.at[step.co := Target(st.stack, es[0])] else st.at)
  }

  predicate CanRun(c: Setting, st: State, steps: seq<Step>)
    decreases |steps|
  {
    |steps| == 0 || (Enabled(c, st, steps[0]) && CanRun(c, Do(c, st, steps[0]), steps[1..]))
  }

  function Run(c: Setting, st: State, steps: seq<Step>): State
    requires CanRun(c, st, steps)
    decreases |steps|
  {
    if |steps| == 0 then st else Run(c, Do(c, st, steps[0]), steps[1..])
  }

  /** The schedule of the watched stack. */
  function Events(c: Setting, st: State, steps: seq<Step>): seq<S.Event>
    requires CanRun(c, st, steps)
    decreases |steps|
  {
    if |steps| == 0 then [] else EventsOf(c, st, steps[0]) + Events(c, Do(c, st, steps[0]), steps[1..])
  }

  function AllLockSteps(steps: seq<Step>): seq<M.Step> {
    if |steps| == 0 then [] else LockSteps(steps[0]) + AllLockSteps(steps[1..])
  }

  // The invariant

  /** Whatever is to be resumed is suspended, or has queued itself and is about to yield; what is not in
      the loop is not suspended. */
  ghost predicate SuspendedInv(lock: M.State, suspended: set<Co>, own: Co -> nat) {
    && (forall co :: co in suspended ==> own(co) < |lock.scheds|)
    && (forall i :: 0 <= i < |lock.scheds| && !lock.scheds[i].slot.Loop? ==> lock.scheds[i].slot.co !in suspended)
    && (forall co :: M.Count(lock, co) > 0 ==> Parked(lock, suspended, own, co))
  }

  predicate Parked(lock: M.State, suspended: set<Co>, own: Co -> nat, co: Co) {
    co in suspended || (own(co) < |lock.scheds| && lock.scheds[own(co)].slot == M.Yields(co))
  }

  /** The coroutine that the watched scheduler is at, if its run ends by a yield. */
  predicate Stays(c: Setting, st: State, co: Co) {
    c.k < |st.lock.scheds| && !Slot(st, c.k).Loop? && Slot(st, c.k).co == co && LastYields(st.stack)
  }

  predicate OnStack(c: Setting, st: State, co: Co) {
    c.own(co) == c.k && (co in st.suspended || Stays(c, st, co))
  }

  /** The live coroutines of the watched stack are the suspended ones of its scheduler, and the one that
      runs if it is going to yield. */
  ghost predicate StackInv(c: Setting, st: State) {
    && S.Inv(st.stack, c.size)
    && (forall co :: OnStack(c, st, co) ==>
          co in st.at && S.Live(st.stack, st.at[co]) && st.stack.pool[st.at[co]].job == co)
    && (forall i :: S.Live(st.stack, i) ==> OnStack(c, st, st.stack.pool[i].job) && st.at[st.stack.pool[i].job] == i)
  }

  ghost predicate Inv(c: Setting, st: State) {
    M.Inv(st.lock, c.own) && SuspendedInv(st.lock, st.suspended, c.own) && StackInv(c, st) && c.k < |st.lock.scheds|
  }

  // The lock's part

  /** In the mutex's model a coroutine that ends yields without being suspended. */
  lemma {:induction false} LockFollows(c: Setting, st: State, step: Step)
    requires Enabled(c, st, step)
    ensures M.CanRun(st.lock, c.own, LockSteps(step)) && M.Run(st.lock, c.own, LockSteps(step)) == Do(c, st, step).lock
  {
    hide M.Waits, M.Count;
    if step.FinishCo? {
      var prepare, leave := M.PrepareStep(step.i), M.YieldStep(step.i);
      var lock1 := M.Apply(st.lock, c.own, prepare);
      assert M.Enabled(lock1, c.own, leave);
      assert M.Apply(lock1, c.own, leave).scheds == Do(c, st, step).lock.scheds;
      TwoSteps(st.lock, c.own, prepare, leave);
    } else {
      assert LockSteps(step)[1..] == [];
    }
  }

  lemma {:induction false} TwoSteps(lock: M.State, own: Co -> nat, s: M.Step, s': M.Step)
    requires M.Enabled(lock, own, s) && M.Enabled(M.Apply(lock, own, s), own, s')
    ensures M.CanRun(lock, own, [s, s']) && M.Run(lock, own, [s, s']) == M.Apply(M.Apply(lock, own, s), own, s')
  {
    hide M.Enabled, M.Apply;
    assert [s, s'][1..] == [s'] && [s'][1..] == [];
    var lock1 := M.Apply(lock, own, s);
    assert M.CanRun(lock1, own, [s']) && M.Run(lock1, own, [s']) == M.Apply(lock1, own, s');
  }

  lemma {:induction false} LockKeeps(c: Setting, st: State, step: Step)
    requires Enabled(c, st, step) && M.Inv(st.lock, c.own)
    ensures M.Inv(Do(c, st, step).lock, c.own) && |Do(c, st, step).lock.scheds| == |st.lock.scheds|
  {
    hide M.Inv, M.Run, M.CanRun, LockSteps, Do, Enabled;
    LockFollows(c, st, step);
    M.RunKeeps(st.lock, c.own, LockSteps(step));
    M.RunKeepsSize(st.lock, c.own, LockSteps(step));
  }

  lemma {:induction false} RunsJoin(lock: M.State, own: Co -> nat, steps: seq<M.Step>, more: seq<M.Step>)
    requires M.CanRun(lock, own, steps) && M.CanRun(M.Run(lock, own, steps), own, more)
    ensures M.CanRun(lock, own, steps + more)
            && M.Run(lock, own, steps + more) == M.Run(M.Run(lock, own, steps), own, more)
    decreases |steps|
  {
    hide M.Enabled, M.Apply;
    if |steps| == 0 {
      assert steps + more == more;
    } else {
      assert (steps + more)[1..] == steps[1..] + more;
      RunsJoin(M.Apply(lock, own, steps[0]), own, steps[1..], more);
    }
  }

  lemma {:induction false} LockRuns(c: Setting, st: State, steps: seq<Step>)
    requires CanRun(c, st, steps)
    ensures M.CanRun(st.lock, c.own, AllLockSteps(steps))
    ensures M.Run(st.lock, c.own, AllLockSteps(steps)) == Run(c, st, steps).lock
    decreases |steps|
  {
    hide M.Enabled, M.Apply, Enabled, Do, LockSteps;
    if |steps| > 0 {
      LockFollows(c, st, steps[0]);
      LockRuns(c, Do(c, st, steps[0]), steps[1..]);
      RunsJoin(st.lock, c.own, LockSteps(steps[0]), AllLockSteps(steps[1..]));
    }
  }

  // Only suspended coroutines are resumed

  lemma {:induction false} CountChanges(lock: M.State, own: Co -> nat, s: M.Step, co: Co)
    requires M.Enabled(lock, own, s)
    ensures M.Count(M.Apply(lock, own, s), co) == M.Count(lock, co) + M.Change(lock, own, s, co)
  {
    hide M.Enabled, M.Apply, M.Count, M.Change;
    if M.OfMutex(s) { M.CountInMutex(lock, own, s, co); } else { M.CountElsewhere(lock, own, s, co); }
  }

  lemma {:induction false} PlainSuspended(c: Setting, st: State, s: M.Step)
    requires Enabled(c, st, Plain(s)) && M.Inv(st.lock, c.own) && SuspendedInv(st.lock, st.suspended, c.own)
    ensures SuspendedInv(M.Apply(st.lock, c.own, s), SuspendedAfter(st, s), c.own)
  {
    hide M.Count, M.OwnerInv, M.HandInv;
    var lock' := M.Apply(st.lock, c.own, s);
    forall co | M.Count(lock', co) > 0 ensures Parked(lock', SuspendedAfter(st, s), c.own, co) {
      CountChanges(st.lock, c.own, s, co);
    }
  }

  lemma {:induction false} StartSuspended(c: Setting, st: State, i: nat, co: Co)
    requires Enabled(c, st, StartCo(i, co)) && M.Inv(st.lock, c.own) && SuspendedInv(st.lock, st.suspended, c.own)
    ensures SuspendedInv(M.Apply(st.lock, c.own, M.WakeStep(i, co)), st.suspended, c.own)
  {
    hide M.Count, M.OwnerInv, M.HandInv;
    var s := M.WakeStep(i, co);
    var lock' := M.Apply(st.lock, c.own, s);
    forall d | M.Count(lock', d) > 0 ensures Parked(lock', st.suspended, c.own, d) {
      CountChanges(st.lock, c.own, s, d);
    }
  }

  lemma {:induction false} FinishSuspended(c: Setting, st: State, i: nat)
    requires Enabled(c, st, FinishCo(i)) && M.Inv(st.lock, c.own) && SuspendedInv(st.lock, st.suspended, c.own)
    ensures SuspendedInv(M.SetSlot(st.lock, i, M.Loop), st.suspended, c.own)
  {
    hide M.OwnerInv, M.HandInv, M.Tokens;
    var lock', s := M.SetSlot(st.lock, i, M.Loop), st.lock.scheds[i];
    forall d | M.Count(lock', d) > 0 ensures Parked(lock', st.suspended, c.own, d) {
      M.Recount(st.lock.mutex.wait, st.lock.scheds, i, s.(slot := M.Loop), st.lock.mutex.wait, d);
      assert M.Of(s.(slot := M.Loop)) == M.Of(s);
      assert M.Count(st.lock, d) > 0;
      assert Parked(st.lock, st.suspended, c.own, d);
    }
  }

  lemma {:induction false} SuspendedKeeps(c: Setting, st: State, step: Step)
    requires Enabled(c, st, step) && M.Inv(st.lock, c.own) && SuspendedInv(st.lock, st.suspended, c.own)
    ensures SuspendedInv(Do(c, st, step).lock, Do(c, st, step).suspended, c.own)
  {
    hide M.Inv, M.Apply, M.Enabled, M.SetSlot, SuspendedInv, SuspendedAfter;
    match step
    case Plain(s) => PlainSuspended(c, st, s);
    case StartCo(i, co) => StartSuspended(c, st, i, co);
    case FinishCo(i) => FinishSuspended(c, st, i);
  }

  /** A coroutine taken off a task list is suspended, and belongs to the scheduler. */
  lemma {:induction false} ResumedIsSuspended(c: Setting, st: State, i: nat)
    requires M.Inv(st.lock, c.own) && SuspendedInv(st.lock, st.suspended, c.own)
    requires M.Enabled(st.lock, c.own, M.ResumeStep(i))
    ensures var co := st.lock.scheds[i].batch[0]; co in st.suspended && c.own(co) == i
  {
    hide M.OwnerInv, M.HandInv, M.TokenInv, M.Queued;
    var s := st.lock.scheds[i];
    assert s.batch[0] in s.batch;
    M.OfWithin(st.lock.scheds, i);
    assert M.Of(s)[s.batch[0]] > 0;
    assert M.Count(st.lock, s.batch[0]) > 0;
    assert M.AtHome(s, i, c.own);
  }

  // The stack's part

  /** After an event the live coroutines are those before, without the one that ran if it ended. */
  lemma {:induction false} EventLives(stack: S.State, e: S.Event, run: S.Program, size: nat)
    requires S.Inv(stack, size) && S.Legal(stack, e) && S.Fits(run, size)
    ensures S.CanStep(stack, e)
    ensures var stack', t := S.Step(stack, e, run), Target(stack, e);
            && S.Inv(stack', size) && t < |stack'.pool|
            && stack'.pool[t].job == (if e.Start? then e.job else stack.pool[e.index].job)
            && (e.Start? ==> !S.Live(stack, t))
            && (forall i :: S.Live(stack', i) <==> if i == t then LastYields(stack') else S.Live(stack, i))
            && (forall i :: S.Live(stack, i) && i != t ==> stack'.pool[i].job == stack.pool[i].job)
  {
    hide S.Resume, S.Fits, S.Restorable, S.Frames;
    S.StepInv(stack, e, run, size);
    if e.Start? {
      S.NewCoroutineIsNotLive(stack, e.job, size);
      hide S.NewCoroutine;
      var (stack1, t) := S.NewCoroutine(stack, e.job);
      S.ResumeInv(stack1, t, run, size);
      S.ResumeCells(stack1, t, run);
    } else {
      S.ResumeInv(stack, e.index, run, size);
      S.ResumeCells(stack, e.index, run);
    }
  }

  /** The scheduler's loop runs a coroutine: a new one, or a suspended one. */
  ghost predicate LoopRuns(c: Setting, st: State, e: S.Event, co: Co) {
    && c.k < |st.lock.scheds| && Slot(st, c.k).Loop? && c.own(co) == c.k
    && match e
       case Start(job) => job == co && co !in st.suspended
       case Wake(i) => co in st.suspended && i == Index(st, co)
  }

  lemma {:induction false} EventIsLegal(c: Setting, st: State, e: S.Event, co: Co)
    requires StackInv(c, st) && LoopRuns(c, st, e, co)
    ensures S.Legal(st.stack, e) && (e.Wake? ==> co in st.at && st.stack.pool[e.index].job == co)
  {
    hide S.Inv, S.Live;
    if e.Wake? {
      assert OnStack(c, st, co);
    }
  }

  lemma {:induction false} StackRuns(c: Setting, st: State, st': State, e: S.Event, co: Co)
    requires StackInv(c, st) && LoopRuns(c, st, e, co) && S.Fits(c.run, c.size)
    requires st'.stack == StackAfter(c, st.stack, [e]) && st'.suspended == st.suspended - {co}
    requires c.k < |st'.lock.scheds| && Slot(st', c.k) == M.Runs(co)
    requires st'.at == if e.Start? then st.at[co := Target(st.stack, e)] else st.at
    ensures StackInv(c, st')
  {
    hide S.Inv, S.Fits, S.Step, S.Legal, S.CanStep;
    EventIsLegal(c, st, e, co);
    EventLives(st.stack, e, c.run, c.size);
    var t := Target(st.stack, e);
    hide Target;
    forall d ensures OnStack(c, st', d) <==> if d == co then LastYields(st'.stack) else OnStack(c, st, d) {
    }
    forall d | OnStack(c, st', d)
      ensures d in st'.at && S.Live(st'.stack, st'.at[d]) && st'.stack.pool[st'.at[d]].job == d
    {
      if d != co {
        assert OnStack(c, st, d);
        assert S.Live(st.stack, st.at[d]);
      }
    }
    forall i | S.Live(st'.stack, i)
      ensures OnStack(c, st', st'.stack.pool[i].job) && st'.at[st'.stack.pool[i].job] == i
    {
      if i != t {
        assert S.Live(st.stack, i);
        assert OnStack(c, st, st.stack.pool[i].job) && st.at[st.stack.pool[i].job] == i;
      }
    }
  }

  lemma {:induction false} StackStays(c: Setting, st: State, st': State)
    requires StackInv(c, st) && st'.stack == st.stack && st'.at == st.at
    requires forall co :: OnStack(c, st', co) <==> OnStack(c, st, co)
    ensures StackInv(c, st')
  {
  }

  /** Only leaving the loop and going back to it changes the coroutine that a scheduler is at. */
  lemma {:induction false} SlotStays(lock: M.State, own: Co -> nat, s: M.Step, k: nat)
    requires M.Enabled(lock, own, s) && k < |lock.scheds|
    requires s.i == k ==> !s.YieldStep? && !s.ResumeStep? && !s.WakeStep?
    ensures k < |M.Apply(lock, own, s).scheds|
    ensures var slot, slot' := lock.scheds[k].slot, M.Apply(lock, own, s).scheds[k].slot;
            slot'.Loop? == slot.Loop? && (!slot.Loop? ==> slot'.co == slot.co)
  {
    hide M.Waits;
  }

  /** A step of another scheduler suspends or resumes only coroutines of its own. */
  lemma {:induction false} SuspendsItsOwn(c: Setting, st: State, s: M.Step, co: Co)
    requires Inv(c, st) && Enabled(c, st, Plain(s)) && c.own(co) == c.k
    requires s.i == c.k ==> !s.YieldStep? && !s.ResumeStep? && !s.WakeStep?
    ensures co in SuspendedAfter(st, s) <==> co in st.suspended
  {
    hide StackInv, M.OwnerInv, M.HandInv, M.TokenInv, M.Waits;
    if s.ResumeStep? {
      ResumedIsSuspended(c, st, s.i);
    } else if s.YieldStep? {
      assert M.AtHome(st.lock.scheds[s.i], s.i, c.own);
    }
  }

  lemma {:induction false} YieldSuspends(c: Setting, st: State, co: Co)
    requires Inv(c, st) && Enabled(c, st, Plain(M.YieldStep(c.k)))
    ensures OnStack(c, Do(c, st, Plain(M.YieldStep(c.k))), co) <==> OnStack(c, st, co)
  {
    hide StackInv, M.OwnerInv, M.HandInv, M.TokenInv;
    assert M.AtHome(st.lock.scheds[c.k], c.k, c.own);
  }

  /** A step that runs nothing on the watched stack leaves the same coroutines on it. */
  lemma {:induction false} SameOnStack(c: Setting, st: State, step: Step, co: Co)
    requires Inv(c, st) && Enabled(c, st, step) && EventsOf(c, st, step) == []
    ensures OnStack(c, Do(c, st, step), co) <==> OnStack(c, st, co)
  {
    hide Inv, StackInv, M.Apply, SuspendedAfter;
    StackUntouched(c, st, step);
    SchedIsThere(c, st);
    match step
    case Plain(s) =>
      if s == M.YieldStep(c.k) {
        hide Enabled, Do, OnStack;
        YieldSuspends(c, st, co);
      } else if c.own(co) == c.k {
        SlotStays(st.lock, c.own, s, c.k);
        SuspendsItsOwn(c, st, s, co);
      }
    case StartCo(i, d) => SlotStays(st.lock, c.own, M.WakeStep(i, d), c.k);
    case FinishCo(i) =>
  }

  lemma {:induction false} SchedIsThere(c: Setting, st: State)
    requires Inv(c, st)
    ensures c.k < |st.lock.scheds|
  {
  }

  /** What a step runs on the watched stack, if anything. */
  lemma {:induction false} EventOf(c: Setting, st: State, step: Step) returns (co: Co)
    requires Inv(c, st) && Enabled(c, st, step) && EventsOf(c, st, step) != []
    ensures var es, st' := EventsOf(c, st, step), Do(c, st, step);
            && |es| == 1 && LoopRuns(c, st, es[0], co)
            && st'.stack == StackAfter(c, st.stack, es) && st'.suspended == st.suspended - {co}
            && c.k < |st'.lock.scheds| && Slot(st', c.k) == M.Runs(co)
            && st'.at == if es[0].Start? then st.at[co := Target(st.stack, es[0])] else st.at
  {
    hide StackInv, M.OwnerInv, M.HandInv, M.Count, M.Waits, S.CanStep, S.Step, SuspendedInv, StackAfter, Target;
    match step
    case Plain(s) =>
      match s {
        case ResumeStep(i) =>
          co := st.lock.scheds[i].batch[0];
          ResumedIsSuspended(c, st, i);
        case WakeStep(_, d) => co := d;
      }
    case StartCo(_, d) => co := d;
  }

  lemma {:induction false} StackKeeps(c: Setting, st: State, step: Step)
    requires Inv(c, st) && Enabled(c, st, step) && S.Fits(c.run, c.size)
    ensures StackInv(c, Do(c, st, step))
  {
    hide Inv, Enabled, StackInv, LoopRuns, OnStack, S.Fits, M.Apply, LockAfter, SuspendedAfter;
    var es := EventsOf(c, st, step);
    InvParts(c, st);
    if es == [] {
      forall co ensures OnStack(c, Do(c, st, step), co) <==> OnStack(c, st, co) {
        SameOnStack(c, st, step, co);
      }
      StackUntouched(c, st, step);
      StackStays(c, st, Do(c, st, step));
    } else {
      var co := EventOf(c, st, step);
      hide Do, EventsOf;
      assert es == [es[0]];
      StackRuns(c, st, Do(c, st, step), es[0], co);
    }
  }

  lemma {:induction false} InvParts(c: Setting, st: State)
    requires Inv(c, st)
    ensures StackInv(c, st)
  {
  }

  lemma {:induction false} StackUntouched(c: Setting, st: State, step: Step)
    requires Enabled(c, st, step) && EventsOf(c, st, step) == []
    ensures Do(c, st, step).stack == st.stack && Do(c, st, step).at == st.at
  {
    hide Enabled, LockAfter, SuspendedAfter;
  }

  lemma {:induction false} StepKeeps(c: Setting, st: State, step: Step)
    requires Inv(c, st) && Enabled(c, st, step) && S.Fits(c.run, c.size)
    ensures Inv(c, Do(c, st, step))
  {
    hide Enabled, M.Inv, SuspendedInv, StackInv, Do, S.Fits;
    LockKeeps(c, st, step);
    SuspendedKeeps(c, st, step);
    StackKeeps(c, st, step);
  }

  /** The events of one step are legal, and the stack goes through them. */
  lemma {:induction false} StepIsLegal(c: Setting, st: State, step: Step)
    requires Inv(c, st) && Enabled(c, st, step) && S.Fits(c.run, c.size)
    ensures var es := EventsOf(c, st, step);
            && |es| <= 1 && (|es| == 1 ==> S.Legal(st.stack, es[0]) && S.CanStep(st.stack, es[0]))
            && Do(c, st, step).stack == StackAfter(c, st.stack, es)
  {
    hide Inv, Enabled, StackInv, LoopRuns, S.Fits, S.Legal, S.CanStep, S.Step, LockAfter, SuspendedAfter;
    if EventsOf(c, st, step) != [] {
      var co := EventOf(c, st, step);
      InvParts(c, st);
      EventIsLegal(c, st, EventsOf(c, st, step)[0], co);
      InvStack(c, st);
      EventLives(st.stack, EventsOf(c, st, step)[0], c.run, c.size);
    }
  }

  lemma {:induction false} InvStack(c: Setting, st: State)
    requires StackInv(c, st)
    ensures S.Inv(st.stack, c.size)
  {
  }

  // Whole runs

  lemma {:induction false} RunsAreLegal(c: Setting, st: State, steps: seq<Step>)
    requires Inv(c, st) && CanRun(c, st, steps) && S.Fits(c.run, c.size)
    ensures Inv(c, Run(c, st, steps))
    ensures var es := Events(c, st, steps);
            && S.LegalRun(st.stack, es, c.run) && S.Safe(st.stack, es, c.run)
            && Run(c, st, steps).stack == S.Run(st.stack, es, c.run)
    decreases |steps|
  {
    hide Inv, Enabled, Do, EventsOf, S.Fits, S.Legal, S.CanStep, S.Step;
    if |steps| > 0 {
      var st1, es := Do(c, st, steps[0]), EventsOf(c, st, steps[0]);
      StepKeeps(c, st, steps[0]);
      StepIsLegal(c, st, steps[0]);
      RunsAreLegal(c, st1, steps[1..]);
      var more := Events(c, st1, steps[1..]);
      if |es| == 0 {
        assert es + more == more;
      } else {
        assert (es + more)[0] == es[0] && (es + more)[1..] == more;
      }
    }
  }

  /** No coroutine exists yet. */
  function Fresh(n: nat, mem: Bytes): State {
    State(M.Fresh(n), {}, S.Fresh(mem), map[])
  }

  lemma {:induction false} FreshInv(c: Setting, n: nat, mem: Bytes)
    requires c.k < n && |mem| == c.size
    ensures Inv(c, Fresh(n, mem))
  {
    M.FreshInv(n, c.own);
    hide M.Inv;
    M.FreshQueuesNothing(M.Fresh(n).scheds);
  }

  /** Whatever n schedulers do with a mutex, with wake-ups from elsewhere for coroutines that wait there, and
      with starting and ending coroutines: the runs on the stack of any of them are a legal schedule, in
      which only suspended coroutines are woken and none is started twice; so sharing that stack cannot be
      told from having one each. And the lock sees one of its own runs. */
  lemma {:induction false} SchedulesAreLegal(c: Setting, n: nat, mem: Bytes, steps: seq<Step>)
    requires c.k < n && |mem| == c.size && S.Fits(c.run, c.size) && CanRun(c, Fresh(n, mem), steps)
    ensures var es, st := Events(c, Fresh(n, mem), steps), Run(c, Fresh(n, mem), steps);
            && S.LegalRun(S.Fresh(mem), es, c.run) && S.Safe(S.Fresh(mem), es, c.run)
            && st.stack == S.Run(S.Fresh(mem), es, c.run)
            && S.CanRun(S.NOTHING_RUN, S.Moves(S.Fresh(mem), es, c.run), c.run)
            && st.stack.history == S.RunPrivate(S.NOTHING_RUN, S.Moves(S.Fresh(mem), es, c.run), c.run).history
    ensures M.CanRun(M.Fresh(n), c.own, AllLockSteps(steps))
    ensures M.Run(M.Fresh(n), c.own, AllLockSteps(steps)) == Run(c, Fresh(n, mem), steps).lock
  {
    hide Inv, CanRun, Run, Events, AllLockSteps, M.CanRun, M.Run, S.Fits, S.LegalRun, S.Safe, S.Run, S.CanRun,
      S.RunPrivate, S.Moves;
    FreshInv(c, n, mem);
    RunsAreLegal(c, Fresh(n, mem), steps);
    LockRuns(c, Fresh(n, mem), steps);
    S.StackSharingIsTransparent(mem, Events(c, Fresh(n, mem), steps), c.run);
  }

  /** In every run, what a scheduler's loop takes off its task list is a suspended coroutine of its own. */
  lemma {:induction false} OnlySuspendedAreResumed(c: Setting, n: nat, mem: Bytes, steps: seq<Step>, i: nat)
    requires c.k < n && |mem| == c.size && S.Fits(c.run, c.size) && CanRun(c, Fresh(n, mem), steps)
    requires M.Enabled(Run(c, Fresh(n, mem), steps).lock, c.own, M.ResumeStep(i))
    ensures var st := Run(c, Fresh(n, mem), steps); var co := st.lock.scheds[i].batch[0];
            co in st.suspended && c.own(co) == i
  {
    hide CanRun, Run, M.Inv, SuspendedInv, StackInv, M.Enabled, S.Fits;
    FreshInv(c, n, mem);
    RunsAreLegal(c, Fresh(n, mem), steps);
    ResumedIsSuspended(c, Run(c, Fresh(n, mem), steps), i);
  }
}
