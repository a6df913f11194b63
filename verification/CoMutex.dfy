/** `co::Mutex` under any interleaving of any number of schedulers: the atomic steps are the critical
    sections of the mutex and of the task queues, and a coroutine's yield and resumption. */
module CoMutex {
  import opened Options

  type Co = nat

  /** The fields of `MutexImpl`: `_lock` and `_co_wait`. */
  datatype Mutex = Mutex(locked: bool, wait: seq<Co>)

  /** What a scheduler's thread is at: its loop; a coroutine that runs; one that has queued itself, here
      or elsewhere, and will yield next; one that has taken a waiter off the queue inside `unlock` and
      will add it to the tasks of its scheduler next. */
  datatype Slot = Loop | Runs(co: Co) | Yields(co: Co) | Hands(co: Co, waiter: Co)

  /** `_task_co`, and the list that `loop` swapped it into and is working through. */
  datatype Sched = Sched(slot: Slot, tasks: seq<Co>, batch: seq<Co>)

  /** Beside the real state: who owns the lock or is to own it next, who is inside `lock()` and blocked,
      who holds the lock (its `lock()` or `try_lock()` returned, and it has not called `unlock()`), which
      scheduler is at `Hands`, and logs of who was added to a task queue by `unlock` and who entered. */
  datatype State = State(mutex: Mutex, scheds: seq<Sched>, home: map<Co, nat>,
                         owner: Option<Co>, blocked: set<Co>, inside: set<Co>, hander: Option<nat>,
                         queued: seq<Co>, entered: seq<Co>)

  /** Steps of the scheduler with an index. */
  datatype Step =
    | LockStep(i: nat)
    | TryLockStep(i: nat)
    | UnlockStep(i: nat)
    | AddTaskStep(i: nat)
    | PrepareStep(i: nat)
    | YieldStep(i: nat)
    | SwapStep(i: nat)
    | ResumeStep(i: nat)
    /** Elsewhere: a coroutine that waits for something else is added to its tasks, or resumed. */
    | SignalStep(i: nat, co: Co)
    | WakeStep(i: nat, co: Co)

  // What is queued

  function Of(s: Sched): multiset<Co> {
    multiset(s.tasks) + multiset(s.batch) + if s.slot.Hands? then multiset{s.slot.waiter} else multiset{}
  }

  function Queued(scheds: seq<Sched>): multiset<Co> {
    if |scheds| == 0 then multiset{} else Queued(scheds[..|scheds| - 1]) + Of(scheds[|scheds| - 1])
  }

  /** Everywhere a coroutine can be that is to be resumed later. */
  function Tokens(wait: seq<Co>, scheds: seq<Sched>): multiset<Co> {
    multiset(wait) + Queued(scheds)
  }

  function Count(st: State, c: Co): nat {
    Tokens(st.mutex.wait, st.scheds)[c]
  }

  predicate IsActive(s: Slot, c: Co) {
    (s.Runs? || s.Hands?) && s.co == c
  }

  // The steps

  predicate Waits(st: State, own: Co -> nat, c: Co) {
    c !in st.blocked && Count(st, c) == 0 && own(c) < |st.scheds| && !IsActive(st.scheds[own(c)].slot, c)
  }

  predicate Enabled(st: State, own: Co -> nat, step: Step) {
    && step.i < |st.scheds|
    && var s := st.scheds[step.i];
       match step
       case LockStep(_) => s.slot.Runs?
       case TryLockStep(_) => s.slot.Runs?
       case UnlockStep(_) => s.slot.Runs? && s.slot.co in st.inside
       case AddTaskStep(_) => s.slot.Hands? && s.slot.waiter in st.home && st.home[s.slot.waiter] < |st.scheds|
       case PrepareStep(_) => s.slot.Runs?
       case YieldStep(_) => s.slot.Yields?
       case SwapStep(_) => s.slot.Loop? && s.batch == []
       case ResumeStep(_) => s.slot.Loop? && s.batch != []
       case SignalStep(i, c) => own(c) == i && Waits(st, own, c)
       case WakeStep(i, c) => own(c) == i && Waits(st, own, c) && s.slot.Loop?
  }

  function SetSlot(st: State, i: nat, slot: Slot): State
    requires i < |st.scheds|
  {
    st.(scheds := st.scheds[i := st.scheds[i].(slot := slot)])
  }

  function AddTask(st: State, i: nat, c: Co): State
    requires i < |st.scheds|
  {
    st.(scheds := st.scheds[i := st.scheds[i].(tasks := st.scheds[i].tasks + [c])])
  }

  function Enter(st: State, c: Co): State {
    st.(owner := Some(c), inside := st.inside + {c}, entered := st.entered + [c])
  }

  function Apply(st: State, own: Co -> nat, step: Step): State
    requires Enabled(st, own, step)
  {
    var i := step.i;
    var s := st.scheds[i];
    match step
    case LockStep(_) =>
      if !st.mutex.locked then Enter(st.(mutex := st.mutex.(locked := true)), s.slot.co)
      else SetSlot(st.(mutex := st.mutex.(wait := st.mutex.wait + [s.slot.co]), home := st.home[s.slot.co := i],
                       blocked := st.blocked + {s.slot.co}), i, Yields(s.slot.co))
    case TryLockStep(_) =>
      if st.mutex.locked then st else Enter(st.(mutex := st.mutex.(locked := true)), s.slot.co)
    case UnlockStep(_) =>
      var left := st.(inside := st.inside - {s.slot.co});
      if st.mutex.wait == [] then left.(mutex := st.mutex.(locked := false), owner := None)
      else
        var w := st.mutex.wait[0];
        SetSlot(left.(mutex := st.mutex.(wait := st.mutex.wait[1..]), owner := Some(w), hander := Some(i)), i,
                Hands(s.slot.co, w))
    case AddTaskStep(_) =>
      var w := s.slot.waiter;
      AddTask(SetSlot(st, i, Runs(s.slot.co)), st.home[w], w).(hander := None, queued := st.queued + [w])
    case PrepareStep(_) => SetSlot(st, i, Yields(s.slot.co))
    case YieldStep(_) => SetSlot(st, i, Loop)
    case SwapStep(_) => st.(scheds := st.scheds[i := s.(batch := s.tasks, tasks := [])])
    case ResumeStep(_) =>
      var c := s.batch[0];
      var st' := st.(scheds := st.scheds[i := Sched(Runs(c), s.tasks, s.batch[1..])]);
      if c in st.blocked then Enter(st', c).(blocked := st.blocked - {c}) else st'
    case SignalStep(_, c) => AddTask(st, i, c)
    case WakeStep(_, c) => SetSlot(st, i, Runs(c))
  }

  // The invariant

  /** Everything a scheduler handles is its own. */
  ghost predicate AtHome(s: Sched, i: nat, own: Co -> nat) {
    && (!s.slot.Loop? ==> own(s.slot.co) == i)
    && (forall c :: c in s.tasks ==> own(c) == i) && (forall c :: c in s.batch ==> own(c) == i)
  }

  ghost predicate HomeInv(st: State, own: Co -> nat) {
    && (forall i :: 0 <= i < |st.scheds| ==> AtHome(st.scheds[i], i, own))
    && (forall c :: c in st.blocked ==> c in st.home && st.home[c] == own(c) < |st.scheds|)
  }

  /** A blocked coroutine is to be resumed exactly once, an active one not at all. */
  ghost predicate TokenInv(st: State) {
    && (forall c :: Count(st, c) <= 1)
    && (forall c :: c in st.blocked ==> Count(st, c) == 1)
    && (forall c :: c in st.mutex.wait ==> c in st.blocked)
    && (forall i :: 0 <= i < |st.scheds| && (st.scheds[i].slot.Runs? || st.scheds[i].slot.Hands?) ==>
          st.scheds[i].slot.co !in st.blocked && Count(st, st.scheds[i].slot.co) == 0)
  }

  ghost predicate HandInv(st: State) {
    && (forall i :: 0 <= i < |st.scheds| && st.scheds[i].slot.Hands? ==> st.hander == Some(i))
    && (st.hander.Some? ==>
          && st.hander.value < |st.scheds| && st.scheds[st.hander.value].slot.Hands?
          && var w := st.scheds[st.hander.value].slot.waiter;
             && w in st.blocked && st.owner == Some(w) && w !in st.inside
             && forall i :: 0 <= i < |st.scheds| ==> w !in st.scheds[i].tasks && w !in st.scheds[i].batch)
  }

  /** The owner that is not inside yet. */
  function OnItsWay(st: State): seq<Co> {
    if st.owner.Some? && st.owner.value !in st.inside then [st.owner.value] else []
  }

  function Handed(st: State): seq<Co>
    requires HandInv(st)
  {
    if st.hander.Some? then [st.scheds[st.hander.value].slot.waiter] else []
  }

  ghost predicate OwnerInv(st: State) {
    && (st.mutex.locked <==> st.owner.Some?)
    && (st.mutex.wait != [] ==> st.mutex.locked)
    && (forall c :: c in st.inside ==> st.owner == Some(c))
    && (forall c :: c in st.blocked && c !in st.mutex.wait ==> st.owner == Some(c) && c !in st.inside)
    && (st.owner.Some? && st.owner.value !in st.inside ==>
          st.owner.value in st.blocked && st.owner.value !in st.mutex.wait)
    && (st.owner.Some? ==> var log := st.entered + OnItsWay(st); |log| > 0 && log[|log| - 1] == st.owner.value)
  }

  ghost predicate Inv(st: State, own: Co -> nat) {
    HomeInv(st, own) && TokenInv(st) && HandInv(st) && OwnerInv(st)
  }

  // Counting what is queued

  lemma {:induction false} QueuedUpdate(scheds: seq<Sched>, i: nat, s: Sched)
    requires i < |scheds|
    ensures forall c :: Queued(scheds[i := s])[c] + Of(scheds[i])[c] == Queued(scheds)[c] + Of(s)[c]
    decreases |scheds|
  {
    hide Of;
    var n := |scheds| - 1;
    if i == n {
      assert scheds[i := s][..n] == scheds[..n] && scheds[i := s][n] == s;
    } else {
      assert scheds[i := s][..n] == scheds[..n][i := s];
      QueuedUpdate(scheds[..n], i, s);
    }
  }

  lemma {:induction false} OfWithin(scheds: seq<Sched>, i: nat)
    requires i < |scheds|
    ensures Of(scheds[i]) <= Queued(scheds)
    decreases |scheds|
  {
    hide Of;
    if i < |scheds| - 1 {
      assert scheds[..|scheds| - 1][i] == scheds[i];
      OfWithin(scheds[..|scheds| - 1], i);
    }
  }

  /** What a change of one scheduler does to the count. */
  lemma {:induction false} Recount(wait: seq<Co>, scheds: seq<Sched>, i: nat, s: Sched, wait': seq<Co>, c: Co)
    requires i < |scheds|
    ensures Tokens(wait', scheds[i := s])[c] + Of(scheds[i])[c] + multiset(wait)[c]
         == Tokens(wait, scheds)[c] + Of(s)[c] + multiset(wait')[c]
  {
    hide Of, Queued;
    QueuedUpdate(scheds, i, s);
  }

  // Every step keeps the invariant

  predicate OfMutex(step: Step) {
    step.LockStep? || step.TryLockStep? || step.UnlockStep? || step.AddTaskStep?
  }

  lemma {:induction false} HomeKeepsInAddTask(st: State, own: Co -> nat, step: Step)
    requires HomeInv(st, own) && HandInv(st) && Enabled(st, own, step) && step.AddTaskStep?
    ensures HomeInv(Apply(st, own, step), own)
  {
    hide Count, Waits;
  }

  lemma {:induction false} HomeKeepsInMutex(st: State, own: Co -> nat, step: Step)
    requires HomeInv(st, own) && HandInv(st) && Enabled(st, own, step) && OfMutex(step)
    ensures HomeInv(Apply(st, own, step), own)
  {
    hide Count, Waits, HandInv;
    if step.AddTaskStep? {
      hide HomeInv, Apply;
      HomeKeepsInAddTask(st, own, step);
    }
  }

  lemma {:induction false} HomeKeepsElsewhere(st: State, own: Co -> nat, step: Step)
    requires HomeInv(st, own) && Enabled(st, own, step) && !OfMutex(step)
    ensures HomeInv(Apply(st, own, step), own)
  {
    hide Waits;
    if step.ResumeStep? {
      var batch := st.scheds[step.i].batch;
      assert batch[0] in batch;
    }
  }

  /** What the count means for the steps. */
  ghost predicate Apart(st: State) {
    && (forall c :: c in st.mutex.wait ==> c in st.blocked)
    && (forall i :: 0 <= i < |st.scheds| && (st.scheds[i].slot.Runs? || st.scheds[i].slot.Hands?) ==>
          st.scheds[i].slot.co !in st.blocked)
    && (forall i, c :: 0 <= i < |st.scheds| && c in st.mutex.wait ==>
          c !in st.scheds[i].tasks && c !in st.scheds[i].batch)
    && (forall j, k :: 0 <= j < k < |st.mutex.wait| ==> st.mutex.wait[j] != st.mutex.wait[k])
  }

  lemma {:induction false} OnceIsDistinct(s: seq<Co>, j: nat, k: nat)
    requires j < k < |s| && multiset(s)[s[j]] <= 1
    ensures s[j] != s[k]
  {
    assert s == s[..j + 1] + s[j + 1..];
    assert s[j] in s[..j + 1] && s[k] in s[j + 1..];
    assert multiset(s)[s[j]] == multiset(s[..j + 1])[s[j]] + multiset(s[j + 1..])[s[j]];
  }

  lemma {:induction false} TokensApart(st: State)
    requires TokenInv(st)
    ensures Apart(st)
  {
    hide Queued;
    var wait := st.mutex.wait;
    forall i, c | 0 <= i < |st.scheds| && c in wait
      ensures c !in st.scheds[i].tasks && c !in st.scheds[i].batch
    {
      OfWithin(st.scheds, i);
      assert multiset(wait)[c] >= 1 && Count(st, c) <= 1;
      assert Of(st.scheds[i])[c] == 0;
    }
    forall j, k | 0 <= j < k < |wait| ensures wait[j] != wait[k] {
      assert Count(st, wait[j]) <= 1;
      OnceIsDistinct(wait, j, k);
    }
  }

  lemma {:induction false} HandKeepsInMutex(st: State, own: Co -> nat, step: Step)
    requires HandInv(st) && OwnerInv(st) && Apart(st) && Enabled(st, own, step) && OfMutex(step)
    ensures HandInv(Apply(st, own, step))
  {
    hide Count, Waits;
    if step.UnlockStep? && st.mutex.wait != [] {
      assert st.mutex.wait[0] in st.mutex.wait;
    }
  }

  /** A blocked coroutine that comes off a task list owns the lock and has not entered yet. */
  lemma {:induction false} ResumedIsOnItsWay(st: State, own: Co -> nat, step: Step)
    requires OwnerInv(st) && Apart(st) && Enabled(st, own, step) && step.ResumeStep?
    ensures var c := st.scheds[step.i].batch[0];
            && c in st.scheds[step.i].batch
            && (c in st.blocked ==> st.owner == Some(c) && c !in st.inside && OnItsWay(st) == [c])
  {
    var batch := st.scheds[step.i].batch;
    assert batch[0] in batch;
  }

  lemma {:induction false} HandKeepsInResume(st: State, own: Co -> nat, step: Step)
    requires HandInv(st) && OwnerInv(st) && Apart(st) && Enabled(st, own, step) && step.ResumeStep?
    ensures HandInv(Apply(st, own, step))
  {
    ResumedIsOnItsWay(st, own, step);
    hide OwnerInv, Apart, OnItsWay;
  }

  lemma {:induction false} HandKeepsElsewhere(st: State, own: Co -> nat, step: Step)
    requires HandInv(st) && OwnerInv(st) && Apart(st) && Enabled(st, own, step) && !OfMutex(step)
    ensures HandInv(Apply(st, own, step))
  {
    hide Count, IsActive, OwnerInv, Apart;
    if step.ResumeStep? {
      hide HandInv, Apply, Enabled;
      HandKeepsInResume(st, own, step);
    }
  }

  lemma {:induction false} FrontAndRest(wait: seq<Co>)
    requires wait != [] && forall j, k :: 0 <= j < k < |wait| ==> wait[j] != wait[k]
    ensures wait[0] !in wait[1..] && forall c :: c in wait <==> c == wait[0] || c in wait[1..]
  {
    assert wait == [wait[0]] + wait[1..];
  }

  lemma {:induction false} OwnerKeepsInMutex(st: State, own: Co -> nat, step: Step)
    requires OwnerInv(st) && Apart(st) && Enabled(st, own, step) && OfMutex(step)
    ensures OwnerInv(Apply(st, own, step))
  {
    hide Count, Waits;
    if st.mutex.wait != [] {
      FrontAndRest(st.mutex.wait);
    }
  }

  lemma {:induction false} OwnerKeepsElsewhere(st: State, own: Co -> nat, step: Step)
    requires OwnerInv(st) && Apart(st) && Enabled(st, own, step) && !OfMutex(step)
    ensures OwnerInv(Apply(st, own, step))
  {
    hide Count, IsActive, Waits;
  }

  /** How a step changes the number of places a coroutine waits to be resumed from. */
  function Change(st: State, own: Co -> nat, step: Step, c: Co): int
    requires Enabled(st, own, step)
  {
    match step
    case LockStep(i) => if st.mutex.locked && st.scheds[i].slot.co == c then 1 else 0
    case ResumeStep(i) => if st.scheds[i].batch[0] == c then -1 else 0
    case SignalStep(_, co) => if co == c then 1 else 0
    case _ => 0
  }

  lemma {:induction false} CountAddTask(st: State, own: Co -> nat, step: Step, c: Co)
    requires Enabled(st, own, step) && step.AddTaskStep?
    ensures Count(Apply(st, own, step), c) == Count(st, c)
  {
    hide Tokens, Waits;
    var wait, s := st.mutex.wait, st.scheds[step.i];
    var w, scheds1 := s.slot.waiter, st.scheds[step.i := s.(slot := Runs(s.slot.co))];
    Recount(wait, st.scheds, step.i, scheds1[step.i], wait, c);
    var h := st.home[w];
    Recount(wait, scheds1, h, scheds1[h].(tasks := scheds1[h].tasks + [w]), wait, c);
  }

  lemma {:induction false} CountInMutex(st: State, own: Co -> nat, step: Step, c: Co)
    requires Enabled(st, own, step) && OfMutex(step)
    ensures Count(Apply(st, own, step), c) == Count(st, c) + Change(st, own, step, c)
  {
    hide Tokens, Waits;
    var i, wait := step.i, st.mutex.wait;
    var s := st.scheds[i];
    match step
    case LockStep(_) =>
      if st.mutex.locked {
        Recount(wait, st.scheds, i, s.(slot := Yields(s.slot.co)), wait + [s.slot.co], c);
      }
    case TryLockStep(_) =>
    case UnlockStep(_) =>
      if wait != [] {
        assert wait == [wait[0]] + wait[1..];
        Recount(wait, st.scheds, i, s.(slot := Hands(s.slot.co, wait[0])), wait[1..], c);
      }
    case AddTaskStep(_) =>
      CountAddTask(st, own, step, c);
  }

  lemma {:induction false} CountFront(s: seq<Co>, c: Co)
    requires s != []
    ensures multiset(s)[c] == multiset(s[1..])[c] + if s[0] == c then 1 else 0
  {
    assert s == [s[0]] + s[1..];
  }

  lemma {:induction false} CountBack(s: seq<Co>, x: Co, c: Co)
    ensures multiset(s + [x])[c] == multiset(s)[c] + if x == c then 1 else 0
  {
  }

  lemma {:induction false} CountSwap(s: Sched, c: Co)
    requires s.batch == []
    ensures Of(s.(batch := s.tasks, tasks := []))[c] == Of(s)[c]
  {
  }

  lemma {:induction false} CountFirst(s: Sched, slot: Slot, c: Co)
    requires s.batch != [] && !s.slot.Hands? && !slot.Hands?
    ensures Of(Sched(slot, s.tasks, s.batch[1..]))[c] == Of(s)[c] - if s.batch[0] == c then 1 else 0
  {
    CountFront(s.batch, c);
  }

  lemma {:induction false} CountAdded(s: Sched, co: Co, c: Co)
    ensures Of(s.(tasks := s.tasks + [co]))[c] == Of(s)[c] + if co == c then 1 else 0
  {
    CountBack(s.tasks, co, c);
  }

  lemma {:induction false} CountSlot(s: Sched, slot: Slot)
    requires !s.slot.Hands? && !slot.Hands?
    ensures Of(s.(slot := slot)) == Of(s)
  {
  }

  lemma {:induction false} OfElsewhere(st: State, own: Co -> nat, step: Step, c: Co)
    requires Enabled(st, own, step) && !OfMutex(step)
    ensures step.i < |Apply(st, own, step).scheds|
    ensures Of(Apply(st, own, step).scheds[step.i])[c] == Of(st.scheds[step.i])[c] + Change(st, own, step, c)
  {
    hide Waits, Of;
    var s := st.scheds[step.i];
    match step
    case SwapStep(_) => CountSwap(s, c);
    case ResumeStep(_) => CountFirst(s, Runs(s.batch[0]), c);
    case SignalStep(_, co) => CountAdded(s, co, c);
    case PrepareStep(_) => CountSlot(s, Yields(s.slot.co));
    case YieldStep(_) => CountSlot(s, Loop);
    case WakeStep(_, co) => CountSlot(s, Runs(co));
    case _ =>
  }

  lemma {:induction false} OnlyOneElsewhere(st: State, own: Co -> nat, step: Step)
    requires Enabled(st, own, step) && !OfMutex(step)
    ensures var st' := Apply(st, own, step);
            st'.mutex == st.mutex && |st'.scheds| == |st.scheds|
            && st'.scheds == st.scheds[step.i := st'.scheds[step.i]]
  {
    hide Waits;
  }

  lemma {:induction false} CountElsewhere(st: State, own: Co -> nat, step: Step, c: Co)
    requires Enabled(st, own, step) && !OfMutex(step)
    ensures Count(Apply(st, own, step), c) == Count(st, c) + Change(st, own, step, c)
  {
    hide Tokens, Waits, Enabled, Apply, Of, Change;
    OfElsewhere(st, own, step, c);
    OnlyOneElsewhere(st, own, step);
    Recount(st.mutex.wait, st.scheds, step.i, Apply(st, own, step).scheds[step.i], st.mutex.wait, c);
  }

  lemma {:induction false} TokenKeepsInMutex(st: State, own: Co -> nat, step: Step)
    requires TokenInv(st) && HomeInv(st, own) && Apart(st) && Enabled(st, own, step) && OfMutex(step)
    requires forall c :: Count(Apply(st, own, step), c) == Count(st, c) + Change(st, own, step, c)
    ensures TokenInv(Apply(st, own, step))
  {
    hide Count, Waits;
  }

  lemma {:induction false} TokenKeepsElsewhere(st: State, own: Co -> nat, step: Step)
    requires TokenInv(st) && HomeInv(st, own) && Apart(st) && Enabled(st, own, step) && !OfMutex(step)
    requires forall c :: Count(Apply(st, own, step), c) == Count(st, c) + Change(st, own, step, c)
    ensures TokenInv(Apply(st, own, step))
  {
    hide Count;
  }

  lemma {:induction false} TokenKeeps(st: State, own: Co -> nat, step: Step)
    requires TokenInv(st) && HomeInv(st, own) && Apart(st) && Enabled(st, own, step)
    requires forall c :: Count(Apply(st, own, step), c) == Count(st, c) + Change(st, own, step, c)
    ensures TokenInv(Apply(st, own, step))
  {
    hide TokenInv, HomeInv, Apart, Enabled, Apply, Count, Change;
    if OfMutex(step) { TokenKeepsInMutex(st, own, step); } else { TokenKeepsElsewhere(st, own, step); }
  }

  lemma {:induction false} StepKeeps(st: State, own: Co -> nat, step: Step)
    requires Inv(st, own) && Enabled(st, own, step)
    ensures Inv(Apply(st, own, step), own)
  {
    hide HomeInv, TokenInv, HandInv, OwnerInv, Apart, Enabled, Apply, Count, Change;
    TokensApart(st);
    forall c ensures Count(Apply(st, own, step), c) == Count(st, c) + Change(st, own, step, c) {
      if OfMutex(step) { CountInMutex(st, own, step, c); } else { CountElsewhere(st, own, step, c); }
    }
    TokenKeeps(st, own, step);
    if OfMutex(step) {
      HomeKeepsInMutex(st, own, step);
      HandKeepsInMutex(st, own, step);
      OwnerKeepsInMutex(st, own, step);
    } else {
      HomeKeepsElsewhere(st, own, step);
      HandKeepsElsewhere(st, own, step);
      OwnerKeepsElsewhere(st, own, step);
    }
  }

  // Runs

  predicate CanRun(st: State, own: Co -> nat, steps: seq<Step>)
    decreases |steps|
  {
    |steps| == 0 || (Enabled(st, own, steps[0]) && CanRun(Apply(st, own, steps[0]), own, steps[1..]))
  }

  function Run(st: State, own: Co -> nat, steps: seq<Step>): State
    requires CanRun(st, own, steps)
    decreases |steps|
  {
    if |steps| == 0 then st else Run(Apply(st, own, steps[0]), own, steps[1..])
  }

  /** An unlocked mutex, and schedulers in their loops. */
  function Fresh(n: nat): State {
    State(Mutex(false, []), seq(n, i => Sched(Loop, [], [])), map[], None, {}, {}, None, [], [])
  }

  lemma {:induction false} FreshQueuesNothing(scheds: seq<Sched>)
    requires forall i :: 0 <= i < |scheds| ==> scheds[i] == Sched(Loop, [], [])
    ensures Queued(scheds) == multiset{}
    decreases |scheds|
  {
    if |scheds| > 0 {
      FreshQueuesNothing(scheds[..|scheds| - 1]);
    }
  }

  lemma {:induction false} RunKeeps(st: State, own: Co -> nat, steps: seq<Step>)
    requires Inv(st, own) && CanRun(st, own, steps)
    ensures Inv(Run(st, own, steps), own)
    decreases |steps|
  {
    hide Inv, Enabled, Apply;
    if |steps| > 0 {
      StepKeeps(st, own, steps[0]);
      RunKeeps(Apply(st, own, steps[0]), own, steps[1..]);
    }
  }

  lemma {:induction false} FreshInv(n: nat, own: Co -> nat)
    ensures Inv(Fresh(n), own)
  {
    FreshQueuesNothing(Fresh(n).scheds);
  }

  /** What a scheduler is still to resume: what it is working through, then its tasks. */
  function ToResume(s: Sched): seq<Co> {
    s.batch + s.tasks
  }

  lemma {:induction false} ResumesFirst(st: State, own: Co -> nat, i: nat)
    requires Enabled(st, own, ResumeStep(i))
    ensures i < |Apply(st, own, ResumeStep(i)).scheds|
    ensures var q, s' := ToResume(st.scheds[i]), Apply(st, own, ResumeStep(i)).scheds[i];
            |q| > 0 && ToResume(s') == q[1..] && s'.slot == Runs(q[0])
  {
    var s := st.scheds[i];
    assert ToResume(s)[1..] == s.batch[1..] + s.tasks;
  }

  lemma {:induction false} AddsBehind(s: Sched, c: Co)
    ensures ToResume(s.(tasks := s.tasks + [c])) == ToResume(s) + [c]
  {
  }

  lemma {:induction false} SwapsAll(s: Sched)
    requires s.batch == []
    ensures ToResume(s.(batch := s.tasks, tasks := [])) == ToResume(s)
  {
  }

  /** First come, first resumed: resuming takes the first off, every other step takes none off and adds at the end
      if it adds. */
  lemma {:induction false} ResumedInOrder(st: State, own: Co -> nat, step: Step, k: nat)
    requires Enabled(st, own, step) && k < |st.scheds|
    ensures |Apply(st, own, step).scheds| == |st.scheds|
    ensures var q, s' := ToResume(st.scheds[k]), Apply(st, own, step).scheds[k];
            if step == ResumeStep(k) then |q| > 0 && ToResume(s') == q[1..] && s'.slot == Runs(q[0])
            else ToResume(s') == q || (|s'.tasks| > 0 && ToResume(s') == q + [s'.tasks[|s'.tasks| - 1]])
  {
    StepKeepsSize(st, own, step);
    hide Waits, ToResume;
    var s := st.scheds[k];
    match step
    case ResumeStep(i) => if i == k { ResumesFirst(st, own, k); }
    case SwapStep(i) => if i == k { SwapsAll(s); }
    case SignalStep(i, c) => AddsBehind(s, c);
    case AddTaskStep(i) =>
      var w, s1 := st.scheds[i].slot.waiter, s.(slot := Runs(st.scheds[i].slot.co));
      AddsBehind(s, w);
      AddsBehind(s1, w);
      SlotApart(s, s1.slot);
    case LockStep(i) => SlotApart(s, Yields(st.scheds[i].slot.co));
    case UnlockStep(i) =>
      if st.mutex.wait != [] { SlotApart(s, Hands(st.scheds[i].slot.co, st.mutex.wait[0])); }
    case PrepareStep(i) => SlotApart(s, Yields(st.scheds[i].slot.co));
    case YieldStep(i) => SlotApart(s, Loop);
    case WakeStep(i, c) => SlotApart(s, Runs(c));
    case TryLockStep(_) =>
  }

  lemma {:induction false} SlotApart(s: Sched, slot: Slot)
    ensures ToResume(s.(slot := slot)) == ToResume(s)
  {
  }

  // What the callers see

  /** What a coroutine can tell of a step: its call and whether that came back, or that it goes on. */
  datatype Call =
    | CalledLock(co: Co, returned: bool)
    | CalledTryLock(co: Co, ok: bool)
    | CalledUnlock(co: Co)
    | WentOn(co: Co)
    | NoCall

  function CallOf(st: State, own: Co -> nat, step: Step): Call
    requires Enabled(st, own, step)
  {
    var s := st.scheds[step.i];
    match step
    case LockStep(i) =>
      var scheds' := Apply(st, own, step).scheds;
      CalledLock(s.slot.co, i < |scheds'| && scheds'[i].slot == Runs(s.slot.co))
    case TryLockStep(_) => CalledTryLock(s.slot.co, !st.mutex.locked)
    case UnlockStep(_) => CalledUnlock(s.slot.co)
    case ResumeStep(_) => WentOn(s.batch[0])
    case _ => NoCall
  }

  function Calls(st: State, own: Co -> nat, steps: seq<Step>): seq<Call>
    requires CanRun(st, own, steps)
    decreases |steps|
  {
    if |steps| == 0 then [] else [CallOf(st, own, steps[0])] + Calls(Apply(st, own, steps[0]), own, steps[1..])
  }

  /** Who has come back from `lock()` or from a `try_lock()` that succeeded and has not called `unlock()`; who
      has called `lock()` and has not come back. */
  datatype Seen = Seen(critical: set<Co>, waiting: set<Co>)

  function See(v: Seen, call: Call): Seen {
    match call
    case CalledLock(co, returned) =>
      if returned then v.(critical := v.critical + {co}) else v.(waiting := v.waiting + {co})
    case CalledTryLock(co, ok) => if ok then v.(critical := v.critical + {co}) else v
    case CalledUnlock(co) => v.(critical := v.critical - {co})
    case WentOn(co) =>
      if co in v.waiting then Seen(v.critical + {co}, v.waiting - {co}) else v
    case NoCall => v
  }

  function SeeAll(v: Seen, calls: seq<Call>): Seen
    decreases |calls|
  {
    if |calls| == 0 then v else SeeAll(See(v, calls[0]), calls[1..])
  }

  lemma {:induction false} SeenIsInside(st: State, own: Co -> nat, step: Step)
    requires Enabled(st, own, step)
    ensures var st' := Apply(st, own, step);
            See(Seen(st.inside, st.blocked), CallOf(st, own, step)) == Seen(st'.inside, st'.blocked)
  {
    hide Waits, Count;
  }

  lemma {:induction false} RunIsSeen(st: State, own: Co -> nat, steps: seq<Step>)
    requires CanRun(st, own, steps)
    ensures var st' := Run(st, own, steps);
            SeeAll(Seen(st.inside, st.blocked), Calls(st, own, steps)) == Seen(st'.inside, st'.blocked)
    decreases |steps|
  {
    hide Enabled, Apply, CallOf, See;
    if |steps| > 0 {
      SeenIsInside(st, own, steps[0]);
      var st1 := Apply(st, own, steps[0]);
      RunIsSeen(st1, own, steps[1..]);
      var calls := Calls(st, own, steps);
      assert calls[0] == CallOf(st, own, steps[0]) && calls[1..] == Calls(st1, own, steps[1..]);
    }
  }

  const NOTHING_SEEN: Seen := Seen({}, {})

  /** In every run, judged by the calls and whether they came back: at most one coroutine is in its critical
      section, `_lock` is set if and only if one is or one is to be next, those who wait are the blocked ones,
      and nobody waits for a lock that is not set. */
  lemma {:induction false} MutualExclusion(n: nat, own: Co -> nat, steps: seq<Step>)
    requires CanRun(Fresh(n), own, steps)
    ensures var st, seen := Run(Fresh(n), own, steps), SeeAll(NOTHING_SEEN, Calls(Fresh(n), own, steps));
            && (forall a, b :: a in seen.critical && b in seen.critical ==> a == b)
            && seen == Seen(st.inside, st.blocked)
            && (st.mutex.locked <==> seen.critical != {} || OnItsWay(st) != [])
            && (seen.critical == {} || OnItsWay(st) == [])
            && (st.mutex.wait != [] ==> st.mutex.locked)
  {
    FreshInv(n, own);
    RunKeeps(Fresh(n), own, steps);
    RunIsSeen(Fresh(n), own, steps);
    var st := Run(Fresh(n), own, steps);
    hide Run, CanRun, HomeInv, TokenInv, HandInv, SeeAll, Calls;
    assert OwnerInv(st);
    if st.owner.Some? && st.owner.value in st.inside {
      assert st.inside != {};
    }
  }

  lemma {:induction false} SomewhereQueued(scheds: seq<Sched>, c: Co) returns (i: nat)
    requires Queued(scheds)[c] > 0
    ensures i < |scheds| && Of(scheds[i])[c] > 0
    decreases |scheds|
  {
    hide Of;
    i := |scheds| - 1;
    if Of(scheds[i])[c] == 0 {
      i := SomewhereQueued(scheds[..i], c);
    }
  }

  /** No wake-up is lost or doubled: in every run a coroutine blocked in `lock()` either waits in the
      queue, once, or has been taken off it to own the lock and then is, once, with the coroutine about
      to add it to the tasks, or among the tasks of its own scheduler. */
  lemma {:induction false} WokenExactlyOnce(n: nat, own: Co -> nat, steps: seq<Step>, c: Co)
    requires CanRun(Fresh(n), own, steps) && c in Run(Fresh(n), own, steps).blocked
    ensures var st := Run(Fresh(n), own, steps);
            && Count(st, c) == 1 && own(c) < n == |st.scheds|
            && (c in st.mutex.wait
                || (st.owner == Some(c)
                    && ((HandInv(st) && Handed(st) == [c])
                        || c in st.scheds[own(c)].tasks || c in st.scheds[own(c)].batch)))
  {
    FreshInv(n, own);
    RunKeeps(Fresh(n), own, steps);
    RunKeepsSize(Fresh(n), own, steps);
    var st := Run(Fresh(n), own, steps);
    hide Run, CanRun;
    if c !in st.mutex.wait {
      assert multiset(st.mutex.wait)[c] == 0;
      var i := SomewhereQueued(st.scheds, c);
      assert AtHome(st.scheds[i], i, own);
    }
  }

  lemma {:induction false} RunKeepsSize(st: State, own: Co -> nat, steps: seq<Step>)
    requires CanRun(st, own, steps)
    ensures |Run(st, own, steps).scheds| == |st.scheds|
    decreases |steps|
  {
    hide Enabled;
    if |steps| > 0 {
      StepKeepsSize(st, own, steps[0]);
      hide Apply;
      RunKeepsSize(Apply(st, own, steps[0]), own, steps[1..]);
    }
  }

  lemma {:induction false} StepKeepsSize(st: State, own: Co -> nat, step: Step)
    requires Enabled(st, own, step)
    ensures |Apply(st, own, step).scheds| == |st.scheds|
  {
  }

  // Order

  function Unlocks(steps: seq<Step>): nat {
    if |steps| == 0 then 0 else (if steps[0].UnlockStep? then 1 else 0) + Unlocks(steps[1..])
  }

  /** Between two states n waiters have been granted the lock, they and nobody else, in the order in which
      they queued, each added to a task queue once and let in once; the others wait, still in order,
      before all newcomers. */
  ghost predicate Granted(st: State, st': State, n: nat, more: seq<Co>)
    requires HandInv(st) && HandInv(st') && n <= |st.mutex.wait|
  {
    && st'.mutex.locked && st'.mutex.wait == st.mutex.wait[n..] + more
    && st'.entered + OnItsWay(st') == st.entered + OnItsWay(st) + st.mutex.wait[..n]
    && st'.queued + Handed(st') == st.queued + Handed(st) + st.mutex.wait[..n]
  }

  lemma {:induction false} StepGrantsInMutex(st: State, own: Co -> nat, step: Step) returns (more: seq<Co>)
    requires Apart(st) && HandInv(st) && OwnerInv(st) && Enabled(st, own, step) && st.mutex.locked
    requires HandInv(Apply(st, own, step)) && OwnerInv(Apply(st, own, step)) && OfMutex(step)
    requires step.UnlockStep? ==> st.mutex.wait != []
    ensures Granted(st, Apply(st, own, step), if step.UnlockStep? then 1 else 0, more)
  {
    more := if step.LockStep? then [st.scheds[step.i].slot.co] else [];
  }

  lemma {:induction false} ResumeGrantsNothing(st: State, own: Co -> nat, step: Step)
    requires Apart(st) && HandInv(st) && OwnerInv(st) && Enabled(st, own, step) && st.mutex.locked
    requires HandInv(Apply(st, own, step)) && OwnerInv(Apply(st, own, step)) && step.ResumeStep?
    ensures Granted(st, Apply(st, own, step), 0, [])
  {
    ResumedIsOnItsWay(st, own, step);
    hide Apart;
    var c := st.scheds[step.i].batch[0];
    if c in st.blocked {
      assert st.entered + [c] + [] == st.entered + [c];
    }
  }

  lemma {:induction false} StepGrantsElsewhere(st: State, own: Co -> nat, step: Step)
    requires Apart(st) && HandInv(st) && OwnerInv(st) && Enabled(st, own, step) && st.mutex.locked
    requires HandInv(Apply(st, own, step)) && OwnerInv(Apply(st, own, step)) && !OfMutex(step)
    ensures Granted(st, Apply(st, own, step), 0, [])
  {
    hide Count, IsActive, Waits, Apart;
    if step.ResumeStep? {
      hide Granted, HandInv, OwnerInv, Apply, Enabled;
      ResumeGrantsNothing(st, own, step);
    }
  }

  /** While the mutex is locked, one step grants nothing, or it is an unlock and grants the front waiter. */
  lemma {:induction false} StepGrants(st: State, own: Co -> nat, step: Step) returns (more: seq<Co>)
    requires Inv(st, own) && Enabled(st, own, step) && st.mutex.locked
    requires Inv(Apply(st, own, step), own)
    requires step.UnlockStep? ==> st.mutex.wait != []
    ensures Granted(st, Apply(st, own, step), if step.UnlockStep? then 1 else 0, more)
  {
    hide HomeInv, TokenInv, HandInv, OwnerInv, Apart, Apply, Enabled, Granted;
    TokensApart(st);
    if OfMutex(step) {
      more := StepGrantsInMutex(st, own, step);
    } else {
      more := [];
      StepGrantsElsewhere(st, own, step);
    }
  }

  lemma {:induction false} LogsJoin(a: seq<Co>, a1: seq<Co>, a2: seq<Co>, wait: seq<Co>, wait1: seq<Co>, more: seq<Co>,
                                    k: nat, n: nat)
    requires k <= n <= |wait| && wait1 == wait[k..] + more
    requires a1 == a + wait[..k] && a2 == a1 + wait1[..n - k]
    ensures a2 == a + wait[..n] && wait1[n - k..] == wait[n..] + more
  {
    assert wait1[..n - k] == wait[k..n];
  }

  lemma {:induction false} GrantsJoin(st: State, st1: State, st2: State, k: nat, n: nat, more1: seq<Co>, more2: seq<Co>)
    requires HandInv(st) && HandInv(st1) && HandInv(st2) && k <= n <= |st.mutex.wait|
    requires Granted(st, st1, k, more1) && n - k <= |st1.mutex.wait| && Granted(st1, st2, n - k, more2)
    ensures Granted(st, st2, n, more1 + more2)
  {
    hide HandInv, OnItsWay, Handed;
    LogsJoin(st.entered + OnItsWay(st), st1.entered + OnItsWay(st1), st2.entered + OnItsWay(st2),
             st.mutex.wait, st1.mutex.wait, more1, k, n);
    LogsJoin(st.queued + Handed(st), st1.queued + Handed(st1), st2.queued + Handed(st2),
             st.mutex.wait, st1.mutex.wait, more1, k, n);
  }

  /** A run with no more unlocks than there are waiters grants the lock to as many waiters as it has
      unlocks. */
  lemma {:induction false} GrantsInOrder(st: State, own: Co -> nat, steps: seq<Step>) returns (more: seq<Co>)
    requires Inv(st, own) && CanRun(st, own, steps) && st.mutex.locked
    requires Unlocks(steps) <= |st.mutex.wait|
    ensures Inv(Run(st, own, steps), own) && Granted(st, Run(st, own, steps), Unlocks(steps), more)
    decreases |steps|
  {
    hide HomeInv, TokenInv, HandInv, OwnerInv, Enabled, Apply, OnItsWay, Handed;
    if |steps| == 0 {
      more := [];
    } else {
      StepKeeps(st, own, steps[0]);
      var st1 := Apply(st, own, steps[0]);
      var more1 := StepGrants(st, own, steps[0]);
      var more2 := GrantsInOrder(st1, own, steps[1..]);
      more := more1 + more2;
      GrantsJoin(st, st1, Run(st, own, steps), if steps[0].UnlockStep? then 1 else 0, Unlocks(steps), more1, more2);
    }
  }

  /** A waiter with k ahead of it owns the lock after exactly k + 1 unlocks: with fewer it waits on. */
  lemma {:induction false} OwnsAfterItsTurn(st: State, own: Co -> nat, steps: seq<Step>, k: nat)
    requires Inv(st, own) && CanRun(st, own, steps) && k < |st.mutex.wait| && Unlocks(steps) <= k + 1
    ensures var st', n := Run(st, own, steps), Unlocks(steps);
            if n == k + 1 then st'.owner == Some(st.mutex.wait[k])
            else k - n < |st'.mutex.wait| && st'.mutex.wait[k - n] == st.mutex.wait[k]
  {
    hide HomeInv, TokenInv, HandInv, Handed, Run, CanRun, Unlocks, OnItsWay;
    var more := GrantsInOrder(st, own, steps);
    var st', n := Run(st, own, steps), Unlocks(steps);
    if n == k + 1 {
      var log := st'.entered + OnItsWay(st');
      assert log[|log| - 1] == st.mutex.wait[k];
    }
  }

  // The objects

  class Coroutine {
    const id: Co
    var s: Scheduler
    constructor (id: Co, s: Scheduler)
      ensures this.id == id && this.s == s
    {
      this.id, this.s := id, s;
    }
  }

  class Scheduler {
    var taskCo: seq<Coroutine>
    constructor ()
      ensures taskCo == []
    {
      taskCo := [];
    }

    method AddTask(co: Coroutine)
      modifies this
      ensures taskCo == old(taskCo) + [co]
    {
      taskCo := taskCo + [co];
    }
  }

  function Ids(cos: seq<Coroutine>): (r: seq<Co>)
    ensures |r| == |cos| && forall k :: 0 <= k < |cos| ==> r[k] == cos[k].id
  {
    seq(|cos|, k requires 0 <= k < |cos| => cos[k].id)
  }

  /** Each method does in one call what the steps of the same name do, run without interruption: `Lock`
      and `TryLock` one step, `Unlock` the unlocking and the adding to the tasks of the waiter's own
      scheduler. */
  class MutexImpl {
    var locked: bool
    var coWait: seq<Coroutine>

    constructor ()
      ensures View() == Fresh(0).mutex
    {
      locked, coWait := false, [];
    }

    ghost function View(): Mutex
      reads this
    {
      Mutex(locked, Ids(coWait))
    }

    method Lock(co: Coroutine, gSched: Scheduler, ghost st: State, ghost own: Co -> nat, ghost i: nat)
      returns (blocks: bool)
      requires st.mutex == View() && Enabled(st, own, LockStep(i)) && st.scheds[i].slot.co == co.id
      modifies this, co`s
      ensures View() == Apply(st, own, LockStep(i)).mutex
      ensures blocks <==> Apply(st, own, LockStep(i)).scheds[i].slot.Yields?
      ensures CallOf(st, own, LockStep(i)) == CalledLock(co.id, !blocks)
      ensures locked && (blocks <==> old(locked))
      ensures blocks ==> coWait == old(coWait) + [co] && co.s == gSched
      ensures !blocks ==> coWait == old(coWait) && co.s == old(co.s)
    {
      if !locked {
        locked := true;
        blocks := false;
      } else {
        if co.s != gSched {
          co.s := gSched;
        }
        coWait := coWait + [co];
        blocks := true;
        assert Ids(coWait) == Ids(old(coWait)) + [co.id];
      }
    }

    method TryLock(ghost st: State, ghost own: Co -> nat, ghost i: nat) returns (ok: bool)
      requires st.mutex == View() && Enabled(st, own, TryLockStep(i))
      modifies this
      ensures View() == Apply(st, own, TryLockStep(i)).mutex && coWait == old(coWait)
      ensures ok <==> |Apply(st, own, TryLockStep(i)).entered| > |st.entered|
      ensures CallOf(st, own, TryLockStep(i)) == CalledTryLock(st.scheds[i].slot.co, ok)
      ensures locked && (ok <==> !old(locked))
    {
      ok := !locked;
      locked := true;
    }

    method Unlock(ghost st: State, ghost own: Co -> nat, ghost i: nat)
      requires st.mutex == View() && Enabled(st, own, UnlockStep(i))
      modifies this, set co | co in coWait :: co.s
      ensures View() == Apply(st, own, UnlockStep(i)).mutex
      ensures old(coWait) == [] ==> coWait == []
      ensures old(coWait) != [] ==>
                && coWait == old(coWait[1..])
                && old(coWait[0]).s.taskCo == old(coWait[0].s.taskCo) + [old(coWait[0])]
                && old(coWait[0]).id == Apply(st, own, UnlockStep(i)).scheds[i].slot.waiter
                && forall co :: co in old(coWait) && co.s != old(coWait[0].s) ==> co.s.taskCo == old(co.s.taskCo)
    {
      if |coWait| == 0 {
        locked := false;
      } else {
        var co := coWait[0];
        coWait := coWait[1..];
        assert Ids(coWait) == Ids(old(coWait))[1..];
        co.s.AddTask(co);
      }
    }
  }
}
