/** The scheduler's objects: `new_coroutine`, `recycle`, `save_stack`, `resume` and the task part of
    `loop`, each proved to do what the shared machine of `SharedStack` does. */
module CoScheduler {
  import opened ByteText
  import opened SharedStack

  /** What a run leaves in the cell of the coroutine. */
  function CellAfter(c: Cell, mem: Bytes, o: Outcome, size: nat): Cell
    requires o.Yielded? ==> |o.below| <= |mem|
  {
    if o.Yielded? then c.(ctx := At(|o.below|), saved := Buffer(mem[|o.below|..]))
    else c.(ctx := if c.ctx.At? then c.ctx else At(size))
  }

  lemma {:induction false} ResumeIs(st: State, i: nat, run: Program)
    requires i < |st.pool| && Restorable(st.pool[i], |st.mem|)
    ensures var c := st.pool[i];
            var o := run(st.history, c.job, Frames(st.mem, c));
            SharedStack.Resume(st, i, run)
            == State(Memory(o), st.pool[i := CellAfter(c, Memory(o), o, |st.mem|)],
                     st.ids + (if o.Finished? then [c.id] else []), st.history + [Ran(c.job, o)])
  {
    assert st.ids + [] == st.ids;
  }

  // Tasks

  /** `_task_cb`, and `_task_co` by the ids of its coroutines. */
  datatype Tasks = Tasks(jobs: seq<Job>, ids: seq<nat>)

  /** The tasks added while a run lasts, by the run itself or by other threads; they may depend on it and on
      all that ran before it. */
  type Adds = seq<Ran> -> Tasks

  const NO_TASKS: Tasks := Tasks([], [])

  function Append(t: Tasks, more: Tasks): Tasks {
    Tasks(t.jobs + more.jobs, t.ids + more.ids)
  }

  /** A coroutine that is added is in the pool; an id that names none is taken for the main one's, which is
      never resumed. */
  function Known(ids: seq<nat>, n: nat): (r: seq<nat>)
    ensures |r| == |ids| && forall k :: 0 <= k < |ids| ==> r[k] == if ids[k] < n then ids[k] else 0
  {
    seq(|ids|, k requires 0 <= k < |ids| => if ids[k] < n then ids[k] else 0)
  }

  /** What the last run of a state has added. */
  function AddedLast(st: State, adds: Adds): Tasks {
    Tasks(adds(st.history).jobs, Known(adds(st.history).ids, |st.pool|))
  }

  /** What the runs of a schedule add, in their order. */
  function AddedIn(st: State, es: seq<Event>, run: Program, adds: Adds): Tasks
    requires Safe(st, es, run)
    decreases |es|
  {
    if |es| == 0 then NO_TASKS
    else
      var st' := Step(st, es[0], run);
      Append(AddedLast(st', adds), AddedIn(st', es[1..], run, adds))
  }

  /** The events of one round of the loop: the new tasks, and then the coroutines to resume. */
  function Round(t: Tasks): seq<Event>
    decreases |t.jobs| + |t.ids|
  {
    if |t.jobs| > 0 then [Start(t.jobs[0])] + Round(t.(jobs := t.jobs[1..]))
    else if |t.ids| > 0 then [Wake(t.ids[0])] + Round(t.(ids := t.ids[1..]))
    else []
  }

  /** The new tasks first, then the coroutines, each in the order they were added. */
  lemma {:induction false} RoundIs(t: Tasks)
    ensures |Round(t)| == |t.jobs| + |t.ids|
    ensures forall k :: 0 <= k < |t.jobs| ==> Round(t)[k] == Start(t.jobs[k])
    ensures forall k :: 0 <= k < |t.ids| ==> Round(t)[|t.jobs| + k] == Wake(t.ids[k])
    decreases |t.jobs| + |t.ids|
  {
    if |t.jobs| > 0 {
      RoundIs(t.(jobs := t.jobs[1..]));
    } else if |t.ids| > 0 {
      RoundIs(t.(ids := t.ids[1..]));
    }
  }

  lemma {:induction false} AppendJoins(t: Tasks, t1: Tasks, t2: Tasks)
    ensures Append(Append(t, t1), t2) == Append(t, Append(t1, t2))
    ensures Append(t, NO_TASKS) == t && Append(NO_TASKS, t) == t
  {
    assert (t.jobs + t1.jobs) + t2.jobs == t.jobs + (t1.jobs + t2.jobs);
    assert (t.ids + t1.ids) + t2.ids == t.ids + (t1.ids + t2.ids);
  }

  /** What is left of a run leads where the whole run leads, and adds what it has not added yet. */
  ghost predicate Ahead(v: State, es: seq<Event>, now: State, rest: seq<Event>, run: Program, adds: Adds,
                        added: Tasks) {
    && Safe(v, es, run) && Safe(now, rest, run) && LegalRun(now, rest, run) && Run(v, es, run) == Run(now, rest, run)
    && AddedIn(v, es, run, adds) == Append(added, AddedIn(now, rest, run, adds))
  }

  lemma {:induction false} Depart(v: State, es: seq<Event>, run: Program, adds: Adds)
    requires Safe(v, es, run) && LegalRun(v, es, run)
    ensures Ahead(v, es, v, es, run, adds, NO_TASKS)
  {
    hide AddedIn, Safe, LegalRun, Run;
    AppendJoins(AddedIn(v, es, run, adds), NO_TASKS, NO_TASKS);
  }

  lemma {:induction false} Advance(v: State, es: seq<Event>, now: State, rest: seq<Event>, run: Program, adds: Adds,
                                   added: Tasks)
    requires Ahead(v, es, now, rest, run, adds, added) && |rest| > 0
    ensures CanStep(now, rest[0]) && Legal(now, rest[0])
    ensures var next := Step(now, rest[0], run);
            Ahead(v, es, next, rest[1..], run, adds, Append(added, AddedLast(next, adds)))
  {
    hide Step, CanStep, Legal, AddedLast, Append;
    var next := Step(now, rest[0], run);
    AppendJoins(added, AddedLast(next, adds), AddedIn(next, rest[1..], run, adds));
  }

  lemma {:induction false} Arrive(v: State, es: seq<Event>, now: State, run: Program, adds: Adds, added: Tasks)
    requires Ahead(v, es, now, [], run, adds, added)
    ensures Safe(v, es, run) && now == Run(v, es, run) && added == AddedIn(v, es, run, adds)
  {
    AppendJoins(added, NO_TASKS, NO_TASKS);
  }

  // Round after round

  /** The scheduler between two rounds. */
  datatype Loop = Loop(st: State, tasks: Tasks)

  ghost predicate CanTurn(l: Loop, run: Program, adds: Adds, n: nat)
    decreases n
  {
    n == 0 || (Safe(l.st, Round(l.tasks), run) && CanTurn(Turn(l, run, adds), run, adds, n - 1))
  }

  function Turn(l: Loop, run: Program, adds: Adds): Loop
    requires Safe(l.st, Round(l.tasks), run)
  {
    Loop(Run(l.st, Round(l.tasks), run), AddedIn(l.st, Round(l.tasks), run, adds))
  }

  ghost function Turns(l: Loop, run: Program, adds: Adds, n: nat): Loop
    requires CanTurn(l, run, adds, n)
    decreases n
  {
    if n == 0 then l else Turns(Turn(l, run, adds), run, adds, n - 1)
  }

  /** The tasks run in n rounds, and those added in them. */
  ghost function RunInTurns(l: Loop, run: Program, adds: Adds, n: nat): Tasks
    requires CanTurn(l, run, adds, n)
    decreases n
  {
    if n == 0 then NO_TASKS else Append(l.tasks, RunInTurns(Turn(l, run, adds), run, adds, n - 1))
  }

  ghost function AddedInTurns(l: Loop, run: Program, adds: Adds, n: nat): Tasks
    requires CanTurn(l, run, adds, n)
    decreases n
  {
    if n == 0 then NO_TASKS
    else Append(AddedIn(l.st, Round(l.tasks), run, adds), AddedInTurns(Turn(l, run, adds), run, adds, n - 1))
  }

  /** However many rounds: the tasks run and then those waiting are the first ones and then those added, in
      order. None is lost, run twice or overtaken by one of its kind. */
  lemma {:induction false} NoTaskIsLost(l: Loop, run: Program, adds: Adds, n: nat)
    requires CanTurn(l, run, adds, n)
    ensures Append(RunInTurns(l, run, adds, n), Turns(l, run, adds, n).tasks)
         == Append(l.tasks, AddedInTurns(l, run, adds, n))
    decreases n
  {
    hide Append, AddedIn, Run, Round, Safe;
    if n == 0 {
      AppendJoins(l.tasks, NO_TASKS, NO_TASKS);
    } else {
      var l1 := Turn(l, run, adds);
      NoTaskIsLost(l1, run, adds, n - 1);
      AppendJoins(l.tasks, RunInTurns(l1, run, adds, n - 1), Turns(l1, run, adds, n - 1).tasks);
    }
  }

  class Coroutine {
    const id: nat
    var ctx: Context
    var stack: Buffer
    var cb: Job

    constructor (id: nat, cb: Job)
      ensures this.id == id && this.cb == cb && ctx == NoContext && stack == NoBuffer
    {
      this.id, this.cb, ctx, stack := id, cb, NoContext, NoBuffer;
    }

    function View(): Cell
      reads this
    {
      Cell(id, cb, ctx, stack)
    }
  }

  class Scheduler {
    const size: nat
    const program: Program
    const adds: Adds
    const main: Coroutine
    var stack: array<Byte>
    var running: Coroutine
    var pool: seq<Coroutine>
    var ids: seq<nat>
    /** The runs so far; what a run does may depend on them. */
    var history: seq<Ran>
    var taskCb: seq<Job>
    var taskCo: seq<Coroutine>

    ghost predicate Valid()
      reads `stack, `pool, `ids, `history, `taskCo, stack, pool
    {
      && stack.Length == size && Fits(program, size) && |pool| > 0 && pool[0] == main
      && (forall j, k :: 0 <= j < k < |pool| ==> pool[j] != pool[k])
      && Inv(View(), size) && (forall co :: co in taskCo ==> co in pool)
    }

    /** What is on the task lists. */
    function Lists(): Tasks
      reads `taskCb, `taskCo
    {
      Tasks(taskCb, Ids(taskCo))
    }

    static function Ids(cos: seq<Coroutine>): (r: seq<nat>)
      ensures |r| == |cos| && forall k :: 0 <= k < |cos| ==> r[k] == cos[k].id
    {
      seq(|cos|, k requires 0 <= k < |cos| => cos[k].id)
    }

    ghost function View(): State
      reads `stack, `pool, `ids, `history, stack, pool
    {
      var cos := pool;
      State(stack[..], seq(|cos|, i requires 0 <= i < |cos| reads cos => cos[i].View()), ids, history)
    }

    constructor (size: nat, program: Program, adds: Adds)
      requires Fits(program, size)
      ensures Valid() && View() == Fresh(stack[..]) && Lists() == NO_TASKS
      ensures this.size == size && this.program == program && this.adds == adds
      ensures fresh(stack) && fresh(main)
    {
      var co := new Coroutine(0, 0);
      this.size, this.program, this.adds, main, running, pool := size, program, adds, co, co, [co];
      stack := new Byte[size];
      ids, history, taskCb, taskCo := [], [], [], [];
    }

    /** The coroutine freed last, for another job. */
    method Reuse(cb: Job) returns (co: Coroutine)
      requires |ids| > 0 && ids[|ids| - 1] < |pool|
      requires forall j, k :: 0 <= j < k < |pool| ==> pool[j] != pool[k]
      modifies `ids, pool[ids[|ids| - 1]]
      ensures co == old(pool[ids[|ids| - 1]])
      ensures View() == SharedStack.Reuse(old(View()), cb)
    {
      ghost var was := View();
      var i := ids[|ids| - 1];
      co := pool[i];
      co.cb := cb;
      co.ctx := NoContext;
      ids := ids[..|ids| - 1];
      assert View().pool == SharedStack.Reuse(was, cb).pool;
    }

    /** One more coroutine. */
    method Extend(cb: Job) returns (co: Coroutine)
      modifies `pool
      ensures fresh(co) && co.id == old(|pool|) && pool == old(pool) + [co]
      ensures View() == SharedStack.Extend(old(View()), cb)
    {
      ghost var was := View();
      co := new Coroutine(|pool|, cb);
      pool := pool + [co];
      assert View().pool == SharedStack.Extend(was, cb).pool;
    }

    method NewCoroutine(cb: Job) returns (co: Coroutine)
      requires Valid()
      modifies `pool, `ids, pool
      ensures View() == SharedStack.NewCoroutine(old(View()), cb).0
      ensures Valid() && Lists() == old(Lists())
      ensures co in pool && Live(View(), co.id) && co.id == SharedStack.NewCoroutine(old(View()), cb).1
      ensures if old(ids) == [] then |pool| == old(|pool|) + 1 && co.id == old(|pool|) && ids == []
              else pool == old(pool) && old(ids) == ids + [co.id]
      ensures stack == old(stack) && (forall c :: c in old(pool) ==> c in pool)
      ensures forall k :: 0 <= k < |pool| ==> pool[k] in old(pool) || fresh(pool[k])
    {
      FreeAreInPool(View(), size);
      PoolIsIndexed();
      NewCoroutineIsNotLive(View(), cb, size);
      hide Inv, Live, View, SharedStack.Reuse, SharedStack.Extend;
      if |ids| > 0 {
        co := Reuse(cb);
      } else {
        co := Extend(cb);
      }
    }

    method Recycle(co: Coroutine)
      modifies `ids
      ensures ids == old(ids) + [co.id]
    {
      ids := ids + [co.id];
    }

    method SaveStack(co: Coroutine)
      requires co.ctx.At? && co.ctx.offset <= stack.Length
      modifies co`stack
      ensures co.stack == Buffer(stack[co.ctx.offset..])
    {
      co.stack := Buffer([]);
      co.stack := Buffer(co.stack.bytes + stack[co.ctx.offset..]);
    }

    /** `memcpy` to the shared stack. */
    method CopyIn(offset: nat, bytes: Bytes)
      requires offset + |bytes| <= stack.Length
      modifies stack
      ensures stack[..] == old(stack[..offset]) + bytes + old(stack[offset + |bytes|..])
    {
      var k := 0;
      while k < |bytes|
        invariant k <= |bytes|
        invariant stack[..] == old(stack[..offset]) + bytes[..k] + old(stack[offset + k..])
      {
        stack[offset + k] := bytes[k];
        k := k + 1;
      }
    }

    /** `add_task`, for a job and for a coroutine. */
    method AddJob(cb: Job)
      modifies `taskCb
      ensures taskCb == old(taskCb) + [cb]
    {
      taskCb := taskCb + [cb];
    }

    method AddCoroutine(co: Coroutine)
      modifies `taskCo
      ensures taskCo == old(taskCo) + [co]
    {
      taskCo := taskCo + [co];
    }

    /** The pool's index is the id. */
    ghost predicate Indexed()
      reads `pool
    {
      |pool| > 0 && forall k :: 0 <= k < |pool| ==> pool[k].id == k
    }

    /** The tasks added while a run lasted. */
    method AddTasks(t: Tasks)
      requires Indexed() && forall co :: co in taskCo ==> co in pool
      modifies `taskCb, `taskCo
      ensures Lists() == Append(old(Lists()), Tasks(t.jobs, Known(t.ids, |pool|)))
      ensures forall co :: co in taskCo ==> co in pool
    {
      var j, k := 0, 0;
      while j < |t.jobs|
        invariant j <= |t.jobs| && taskCb == old(taskCb) + t.jobs[..j] && taskCo == old(taskCo)
      {
        AddJob(t.jobs[j]);
        j := j + 1;
      }
      ghost var ids := Known(t.ids, |pool|);
      while k < |t.ids|
        invariant k <= |t.ids| && taskCb == old(taskCb) + t.jobs && Ids(taskCo) == Ids(old(taskCo)) + ids[..k]
        invariant forall co :: co in taskCo ==> co in pool
      {
        AddCoroutine(if t.ids[k] < |pool| then pool[t.ids[k]] else pool[0]);
        k := k + 1;
      }
      assert ids[..k] == ids;
    }

    /** The jump to a coroutine and back: its program runs on the shared stack, from the frames it
        finds above its context, until it yields or, through `main_func`, recycles itself. */
    method Jump(co: Coroutine) returns (o: Outcome)
      requires Fits(program, size) && stack.Length == size && Indexed() && forall c :: c in taskCo ==> c in pool
      requires co.ctx.At? ==> co.ctx.offset <= size
      modifies stack, `ids, `history, `taskCb, `taskCo
      ensures Lists() == Append(old(Lists()), AddedAfter()) && forall c :: c in taskCo ==> c in pool
      ensures o == program(old(history), co.cb, if co.ctx.At? then old(stack[co.ctx.offset..]) else [])
      ensures stack[..] == Memory(o) && history == old(history) + [Ran(co.cb, o)]
      ensures ids == old(ids) + if o.Finished? then [co.id] else []
    {
      o := program(history, co.cb, if co.ctx.At? then stack[co.ctx.offset..] else []);
      assert |Memory(o)| == size;
      CopyIn(0, Memory(o));
      history := history + [Ran(co.cb, o)];
      if o.Finished? {
        Recycle(co);
      }
      AddTasks(adds(history));
    }

    /** What the last run has added. */
    function AddedAfter(): Tasks
      reads `history, `pool
    {
      Tasks(adds(history).jobs, Known(adds(history).ids, |pool|))
    }

    /** Enters a coroutine: a new one at the top of the shared stack, a suspended one after its frames
        have been copied back. */
    method Enter(co: Coroutine) returns (o: Outcome)
      requires Fits(program, size) && stack.Length == size && Restorable(co.View(), size)
      requires Indexed() && forall c :: c in taskCo ==> c in pool
      modifies stack, `ids, `history, `taskCb, `taskCo, co`ctx
      ensures Lists() == Append(old(Lists()), AddedAfter()) && forall c :: c in taskCo ==> c in pool
      ensures o == program(old(history), co.cb, Frames(old(stack[..]), old(co.View())))
      ensures stack[..] == Memory(o) && history == old(history) + [Ran(co.cb, o)]
      ensures ids == old(ids) + if o.Finished? then [co.id] else []
      ensures co.ctx == if old(co.ctx).At? then old(co.ctx) else At(size)
    {
      hide Fits;
      if co.ctx == NoContext {
        o := Jump(co);
        co.ctx := At(size);
      } else {
        assert co.ctx.offset + |co.stack.bytes| == size;
        CopyIn(co.ctx.offset, co.stack.bytes);
        assert stack[..] == Restore(old(stack[..]), co.View());
        assert stack[co.ctx.offset..] == stack[..][co.ctx.offset..];
        o := Jump(co);
      }
    }

    /** After the jump back: a coroutine that yielded leaves its context and its frames. */
    method Leave(o: Outcome)
      requires o.Yielded? ==> |o.below| <= stack.Length
      requires o.Finished? ==> running.ctx.At?
      modifies running
      ensures running.View() == CellAfter(old(running.View()), stack[..], o, stack.Length)
    {
      if o.Yielded? {
        running.ctx := At(|o.below|);
        SaveStack(running);
        assert stack[|o.below|..] == stack[..][|o.below|..];
      }
    }

    /** There and back. */
    method Switch(co: Coroutine) returns (o: Outcome)
      requires Fits(program, size) && stack.Length == size && Restorable(co.View(), size)
      requires Indexed() && forall c :: c in taskCo ==> c in pool
      modifies `running, `ids, `history, `taskCb, `taskCo, stack, co
      ensures Lists() == Append(old(Lists()), AddedAfter()) && forall c :: c in taskCo ==> c in pool
      ensures o == program(old(history), old(co.cb), Frames(old(stack[..]), old(co.View())))
      ensures stack[..] == Memory(o) && history == old(history) + [Ran(old(co.cb), o)]
      ensures ids == old(ids) + if o.Finished? then [co.id] else []
      ensures co.View() == CellAfter(old(co.View()), Memory(o), o, size)
    {
      hide Fits, Restorable, Frames, Lists, Append, AddedAfter;
      running := co;
      o := Enter(co);
      Leave(o);
    }

    method Resume(co: Coroutine)
      requires Valid() && co in pool && Live(View(), co.id)
      modifies `running, `ids, `history, `taskCb, `taskCo, stack, co
      ensures Valid() && stack == old(stack) && pool == old(pool)
      ensures View() == SharedStack.Resume(old(View()), co.id, program)
      ensures Lists() == Append(old(Lists()), AddedLast(View(), adds))
    {
      ghost var v, i := View(), co.id;
      ResumeInv(v, i, program, size);
      InPool(co);
      PoolIsIndexed();
      assert v.pool[i] == co.View() && Restorable(v.pool[i], size);
      ResumeIs(v, i, program);
      hide Inv, SharedStack.Resume, Live, Fits, Restorable, Frames, CellAfter, Append, Lists;
      var o := Switch(co);
      assert View().pool == v.pool[i := co.View()];
    }

    method StartTask(cb: Job)
      requires Valid() && Legal(View(), Start(cb)) && CanStep(View(), Start(cb))
      modifies `pool, `running, `ids, `history, `taskCb, `taskCo, stack, pool
      ensures Valid() && View() == Step(old(View()), Start(cb), program)
      ensures Lists() == Append(old(Lists()), AddedLast(View(), adds))
      ensures stack == old(stack) && (forall co :: co in old(pool) ==> co in pool)
      ensures forall k :: 0 <= k < |pool| ==> pool[k] in old(pool) || fresh(pool[k])
    {
      hide Valid, View, SharedStack.NewCoroutine, SharedStack.Resume, Append, AddedLast, Lists;
      var co := NewCoroutine(cb);
      Resume(co);
    }

    method WakeTask(co: Coroutine)
      requires Valid() && co in pool && Legal(View(), Wake(co.id)) && CanStep(View(), Wake(co.id))
      modifies `running, `ids, `history, `taskCb, `taskCo, stack, co
      ensures Valid() && View() == Step(old(View()), Wake(co.id), program)
      ensures Lists() == Append(old(Lists()), AddedLast(View(), adds))
      ensures stack == old(stack) && pool == old(pool)
    {
      hide Valid, View, SharedStack.Resume, Append, AddedLast, Lists;
      Resume(co);
    }

    method StartTasks(cbs: seq<Job>, ghost ids: seq<nat>, ghost v: State, ghost es: seq<Event>)
      requires Valid() && Ahead(v, es, View(), Round(Tasks(cbs, ids)), program, adds, Lists())
      modifies `pool, `running, `ids, `history, `taskCb, `taskCo, stack, pool
      ensures Valid() && Ahead(v, es, View(), Round(Tasks([], ids)), program, adds, Lists())
      ensures stack == old(stack) && (forall co :: co in old(pool) ==> co in pool)
      ensures forall k :: 0 <= k < |pool| ==> pool[k] in old(pool) || fresh(pool[k])
    {
      hide *;
      var i := 0;
      assert cbs[i..] == cbs;
      while i < |cbs|
        invariant i <= |cbs| && Valid() && stack == old(stack)
        invariant (forall co :: co in old(pool) ==> co in pool)
        invariant forall k :: 0 <= k < |pool| ==> pool[k] in old(pool) || fresh(pool[k])
        invariant Ahead(v, es, View(), Round(Tasks(cbs[i..], ids)), program, adds, Lists())
      {
        NextStart(cbs[i..], ids);
        Advance(v, es, View(), Round(Tasks(cbs[i..], ids)), program, adds, Lists());
        assert cbs[i..][1..] == cbs[i + 1..];
        StartTask(cbs[i]);
        i := i + 1;
      }
      assert cbs[i..] == [];
    }

    method WakeTasks(cos: seq<Coroutine>, ghost v: State, ghost es: seq<Event>)
      requires Valid() && Ahead(v, es, View(), Round(Tasks([], Ids(cos))), program, adds, Lists())
      requires forall co :: co in cos ==> co in pool
      modifies `running, `ids, `history, `taskCb, `taskCo, stack, pool
      ensures Valid() && Ahead(v, es, View(), [], program, adds, Lists())
      ensures stack == old(stack) && pool == old(pool)
    {
      hide *;
      var i := 0;
      assert cos[i..] == cos;
      while i < |cos|
        invariant i <= |cos| && Valid() && stack == old(stack) && pool == old(pool)
        invariant Ahead(v, es, View(), Round(Tasks([], Ids(cos[i..]))), program, adds, Lists())
      {
        NextWake(cos[i..]);
        Advance(v, es, View(), Round(Tasks([], Ids(cos[i..]))), program, adds, Lists());
        assert cos[i..][1..] == cos[i + 1..];
        assert cos[i] in cos;
        WakeTask(cos[i]);
        i := i + 1;
      }
      assert Ids(cos[i..]) == [];
      NoMore();
    }

    /** Both lists are swapped with empty ones. */
    method TakeOver() returns (cbs: seq<Job>, cos: seq<Coroutine>)
      requires Valid()
      modifies `taskCb, `taskCo
      ensures Valid() && Lists() == NO_TASKS && old(Lists()) == Tasks(cbs, Ids(cos)) && View() == old(View())
      ensures forall co :: co in cos ==> co in pool
    {
      cbs, cos := taskCb, taskCo;
      taskCb, taskCo := [], [];
    }

    /** The task part of `loop`: both lists are taken over and what they name is run in order; what is left on
        them is what was added meanwhile. */
    method RunTasks()
      requires Valid() && LegalRun(View(), Round(Lists()), program)
      modifies this, stack, pool
      ensures Valid() && Safe(old(View()), old(Round(Lists())), program)
      ensures View() == Run(old(View()), old(Round(Lists())), program)
      ensures Lists() == AddedIn(old(View()), old(Round(Lists())), program, adds)
    {
      hide *;
      ghost var v, es := View(), Round(Lists());
      RoundIsSafe(es);
      var cbs, cos := TakeOver();
      Depart(v, es, program, adds);
      StartTasks(cbs, Ids(cos), v, es);
      WakeTasks(cos, v, es);
      Arrive(v, es, View(), program, adds, Lists());
    }

    lemma {:induction false} RoundIsSafe(es: seq<Event>)
      requires Valid() && LegalRun(View(), es, program)
      ensures Safe(View(), es, program)
    {
      hide LegalRun, Safe, Inv, Fits;
      LegalRunsAreSafe(View(), es, program, size);
    }

    static lemma {:induction false} NoMore()
      ensures Round(NO_TASKS) == [] && NO_TASKS == Tasks([], [])
    {
    }

    static lemma {:induction false} NextStart(cbs: seq<Job>, ids: seq<nat>)
      requires |cbs| > 0
      ensures |Round(Tasks(cbs, ids))| > 0 && Round(Tasks(cbs, ids))[0] == Start(cbs[0])
      ensures Round(Tasks(cbs, ids))[1..] == Round(Tasks(cbs[1..], ids))
    {
    }

    static lemma {:induction false} NextWake(cos: seq<Coroutine>)
      requires |cos| > 0
      ensures var es := Round(Tasks([], Ids(cos)));
              |es| > 0 && es[0] == Wake(cos[0].id) && es[1..] == Round(Tasks([], Ids(cos[1..])))
    {
      assert Ids(cos)[1..] == Ids(cos[1..]);
    }

    lemma {:induction false} PoolIsIndexed()
      requires Valid()
      ensures Indexed()
    {
      forall k | 0 <= k < |pool| ensures pool[k].id == k {
        assert View().pool[k].id == k;
      }
    }

    lemma {:induction false} InPool(co: Coroutine)
      requires Valid() && co in pool
      ensures co.id < |pool| && pool[co.id] == co
    {
      var k :| 0 <= k < |pool| && pool[k] == co;
      assert View().pool[k].id == k;
    }
  }
}
