/** Coroutines that share one stack: the machine that copies it out and in behaves, over every run,
    like a machine in which each coroutine has a stack of its own. */
module SharedStack {
  import opened ByteText

  /** What a coroutine was started with; no two unfinished coroutines are started with the same. */
  type Job = nat

  /** A run of a coroutine, up to where it yields or ends: it leaves its own frames at the top of the
      shared memory and anything at all below them. */
  datatype Outcome = Yielded(below: Bytes, frames: Bytes) | Finished(mem: Bytes)

  datatype Ran = Ran(job: Job, outcome: Outcome)

  /** What a run does may depend on all that ran before it, on its job, and on its own frames. */
  type Program = (seq<Ran>, Job, Bytes) -> Outcome

  function Memory(o: Outcome): Bytes {
    match o
    case Yielded(below, frames) => below + frames
    case Finished(mem) => mem
  }

  ghost predicate Fits(run: Program, size: nat) {
    forall h, job, seen :: |Memory(run(h, job, seen))| == size
  }

  datatype Context = NoContext | At(offset: nat)
  datatype Buffer = NoBuffer | Buffer(bytes: Bytes)

  /** A `Coroutine` object, the scheduler's part that matters here, and the runs so far. */
  datatype Cell = Cell(id: nat, job: Job, ctx: Context, saved: Buffer)
  datatype State = State(mem: Bytes, pool: seq<Cell>, ids: seq<nat>, history: seq<Ran>)

  const MAIN: Cell := Cell(0, 0, NoContext, NoBuffer)

  // The shared machine

  /** The coroutine freed last, for another job; it keeps its buffer. */
  function Reuse(st: State, job: Job): State
    requires |st.ids| > 0 && st.ids[|st.ids| - 1] < |st.pool|
  {
    var i := st.ids[|st.ids| - 1];
    st.(pool := st.pool[i := st.pool[i].(job := job, ctx := NoContext)], ids := st.ids[..|st.ids| - 1])
  }

  function Extend(st: State, job: Job): State {
    st.(pool := st.pool + [Cell(|st.pool|, job, NoContext, NoBuffer)])
  }

  function NewCoroutine(st: State, job: Job): (r: (State, nat))
    requires forall k :: 0 <= k < |st.ids| ==> st.ids[k] < |st.pool|
    ensures r.1 < |r.0.pool| && r.0.pool[r.1].ctx == NoContext && r.0.pool[r.1].job == job
  {
    if |st.ids| > 0 then (Reuse(st, job), st.ids[|st.ids| - 1]) else (Extend(st, job), |st.pool|)
  }

  /** The condition `resume` asserts before it copies a stack back. */
  predicate Restorable(c: Cell, size: nat) {
    c.ctx.At? ==> c.saved.Buffer? && c.ctx.offset + |c.saved.bytes| == size
  }

  function Restore(mem: Bytes, c: Cell): (r: Bytes)
    requires Restorable(c, |mem|)
    ensures |r| == |mem|
  {
    if c.ctx.At? then mem[..c.ctx.offset] + c.saved.bytes else mem
  }

  /** What the coroutine finds above its context. A new one finds no frames. */
  function Frames(mem: Bytes, c: Cell): Bytes
    requires Restorable(c, |mem|)
  {
    if c.ctx.At? then Restore(mem, c)[c.ctx.offset..] else []
  }

  function Resume(st: State, i: nat, run: Program): State
    requires i < |st.pool| && Restorable(st.pool[i], |st.mem|)
  {
    var c := st.pool[i];
    var o := run(st.history, c.job, Frames(st.mem, c));
    var ran := st.history + [Ran(c.job, o)];
    match o
    case Yielded(below, frames) =>
      var mem := Memory(o);
      State(mem, st.pool[i := c.(ctx := At(|below|), saved := Buffer(mem[|below|..]))], st.ids, ran)
    case Finished(mem) =>
      State(mem, st.pool[i := c.(ctx := if c.ctx.At? then c.ctx else At(|st.mem|))], st.ids + [c.id], ran)
  }

  /** The loop starts a job or wakes the coroutine at a pool index. */
  datatype Event = Start(job: Job) | Wake(index: nat)

  predicate CanStep(st: State, e: Event) {
    && (forall k :: 0 <= k < |st.ids| ==> st.ids[k] < |st.pool|)
    && (e.Wake? ==> e.index < |st.pool| && Restorable(st.pool[e.index], |st.mem|))
    && (e.Start? ==> var (st', i) := NewCoroutine(st, e.job); Restorable(st'.pool[i], |st'.mem|))
  }

  function Step(st: State, e: Event, run: Program): State
    requires CanStep(st, e)
  {
    match e
    case Start(job) => var (st', i) := NewCoroutine(st, job); Resume(st', i, run)
    case Wake(i) => Resume(st, i, run)
  }

  // The private machine

  /** Unfinished jobs, each with the stack it owns. */
  datatype Private = Private(stacks: map<Job, Bytes>, history: seq<Ran>)

  datatype Move = Begin(job: Job) | Continue(job: Job)

  predicate CanMove(pv: Private, m: Move) {
    match m
    case Begin(job) => job !in pv.stacks
    case Continue(job) => job in pv.stacks
  }

  function MoveOn(pv: Private, m: Move, run: Program): Private
    requires CanMove(pv, m)
  {
    var o := run(pv.history, m.job, if m.Begin? then [] else pv.stacks[m.job]);
    Private(if o.Yielded? then pv.stacks[m.job := o.frames] else pv.stacks - {m.job},
            pv.history + [Ran(m.job, o)])
  }

  // What every step keeps

  predicate Live(st: State, i: int) {
    0 < i < |st.pool| && i !in st.ids
  }

  /** Pool index and id agree, the free ids are distinct, none is the main coroutine's, and the size
      assertion holds of every coroutine that may be resumed. */
  ghost predicate Inv(st: State, size: nat) {
    && |st.mem| == size && |st.pool| > 0
    && (forall i :: 0 <= i < |st.pool| ==> st.pool[i].id == i)
    && (forall k :: 0 <= k < |st.ids| ==> 0 < st.ids[k] < |st.pool|)
    && (forall j, k :: 0 <= j < k < |st.ids| ==> st.ids[j] != st.ids[k])
    && (forall i :: Live(st, i) ==> Restorable(st.pool[i], size))
  }

  ghost predicate HasLive(st: State, job: Job) {
    exists k :: Live(st, k) && st.pool[k].job == job
  }

  /** Every live coroutine is suspended, and what was saved of it is the stack its job owns. */
  ghost predicate Matches(st: State, pv: Private) {
    && st.history == pv.history
    && (forall i :: Live(st, i) ==> Suspends(st.pool[i], pv))
    && (forall i, j :: Live(st, i) && Live(st, j) && i != j ==> st.pool[i].job != st.pool[j].job)
    && (forall job :: job in pv.stacks ==> HasLive(st, job))
  }

  ghost predicate Suspends(c: Cell, pv: Private) {
    c.ctx.At? && c.saved.Buffer? && c.job in pv.stacks && pv.stacks[c.job] == c.saved.bytes
  }

  /** The private machine's view of an event. */
  function MoveOf(st: State, e: Event): Move
    requires e.Wake? ==> e.index < |st.pool|
  {
    match e
    case Start(job) => Begin(job)
    case Wake(i) => Continue(st.pool[i].job)
  }

  /** A job is started that is not under way; a live coroutine is woken. */
  ghost predicate Legal(st: State, e: Event) {
    match e
    case Start(job) => forall i :: Live(st, i) ==> st.pool[i].job != job
    case Wake(i) => Live(st, i)
  }

  lemma {:induction false} FreeAreInPool(st: State, size: nat)
    requires Inv(st, size)
    ensures forall k :: 0 <= k < |st.ids| ==> st.ids[k] < |st.pool|
  {
  }

  /** A free coroutine is used again, the one freed last; only when none is free does the pool grow. */
  lemma {:induction false} FreedLastIsUsedAgain(st: State, job: Job)
    requires forall k :: 0 <= k < |st.ids| ==> st.ids[k] < |st.pool|
    ensures var (st', i) := NewCoroutine(st, job);
            if st.ids == [] then i == |st.pool| && |st'.pool| == |st.pool| + 1 && st'.ids == []
            else i == st.ids[|st.ids| - 1] && |st'.pool| == |st.pool| && st.ids == st'.ids + [i]
  {
    if |st.ids| > 0 {
      assert st.ids == st.ids[..|st.ids| - 1] + [st.ids[|st.ids| - 1]];
    }
  }

  /** `new_coroutine` never hands out a live coroutine, and leaves the live ones as they were. */
  lemma {:induction false} NewCoroutineIsNotLive(st: State, job: Job, size: nat)
    requires Inv(st, size)
    ensures var (st', i) := NewCoroutine(st, job);
            && !Live(st, i) && Inv(st', size) && Live(st', i)
            && (forall k :: Live(st', k) <==> k == i || Live(st, k))
            && (forall k :: Live(st, k) ==> st'.pool[k] == st.pool[k])
  {
    if |st.ids| > 0 {
      ReusedIsNotLive(st, job, size);
    }
  }

  /** A recycled coroutine: its id goes off the free ids. */
  lemma {:induction false} ReusedIsNotLive(st: State, job: Job, size: nat)
    requires Inv(st, size) && |st.ids| > 0
    ensures var (st', i) := NewCoroutine(st, job);
            && !Live(st, i) && Inv(st', size) && Live(st', i)
            && (forall k :: Live(st', k) <==> k == i || Live(st, k))
            && (forall k :: Live(st, k) ==> st'.pool[k] == st.pool[k])
  {
    var (st', i) := NewCoroutine(st, job);
    LastFree(st.ids);
    forall k ensures Live(st', k) <==> k == i || Live(st, k) {
    }
  }

  lemma {:induction false} LastFree(ids: seq<nat>)
    requires |ids| > 0 && forall j, k :: 0 <= j < k < |ids| ==> ids[j] != ids[k]
    ensures var n := |ids| - 1;
            ids[n] !in ids[..n] && forall k: int :: k in ids <==> k == ids[n] || k in ids[..n]
  {
    var n := |ids| - 1;
    assert ids == ids[..n] + [ids[n]];
  }

  /** A resumed coroutine finds above its context exactly what was saved. */
  lemma {:induction false} FindsItsFrames(mem: Bytes, c: Cell)
    requires c.ctx.At? && Restorable(c, |mem|)
    ensures Frames(mem, c) == c.saved.bytes
  {
  }

  lemma {:induction false} ResumeInv(st: State, i: nat, run: Program, size: nat)
    requires Inv(st, size) && Live(st, i) && Fits(run, size)
    ensures Inv(Resume(st, i, run), size)
    ensures var o := run(st.history, st.pool[i].job, Frames(st.mem, st.pool[i]));
            forall k :: Live(Resume(st, i, run), k) <==> Live(st, k) && (k == i ==> o.Yielded?)
  {
    var c := st.pool[i];
    var o := run(st.history, c.job, Frames(st.mem, c));
    var st' := Resume(st, i, run);
    assert |Memory(o)| == size;
    if o.Finished? {
      forall k ensures k in st'.ids <==> k == i || k in st.ids {
        assert st'.ids == st.ids + [i];
      }
    }
  }

  /** What a run leaves in the pool: its own frames in its own cell, and every other cell as it was. */
  lemma {:induction false} ResumeCells(st: State, i: nat, run: Program)
    requires i < |st.pool| && Restorable(st.pool[i], |st.mem|)
    ensures var o, st' := run(st.history, st.pool[i].job, Frames(st.mem, st.pool[i])), Resume(st, i, run);
            && |st'.pool| == |st.pool| && st'.history == st.history + [Ran(st.pool[i].job, o)]
            && (forall k :: 0 <= k < |st.pool| && k != i ==> st'.pool[k] == st.pool[k])
            && (forall k :: 0 <= k < |st.pool| ==> st'.pool[k].job == st.pool[k].job)
            && (o.Yielded? ==> st'.pool[i].ctx.At? && st'.pool[i].saved == Buffer(o.frames))
  {
    var o := run(st.history, st.pool[i].job, Frames(st.mem, st.pool[i]));
    if o.Yielded? {
      assert Memory(o)[|o.below|..] == o.frames;
    }
  }

  lemma {:induction false} StepInv(st: State, e: Event, run: Program, size: nat)
    requires Inv(st, size) && Legal(st, e) && Fits(run, size)
    ensures CanStep(st, e) && Inv(Step(st, e, run), size)
  {
    hide Resume, Fits;
    if e.Start? {
      NewCoroutineIsNotLive(st, e.job, size);
      hide NewCoroutine;
      var (st', i) := NewCoroutine(st, e.job);
      ResumeInv(st', i, run, size);
    } else {
      ResumeInv(st, e.index, run, size);
    }
  }

  lemma {:induction false} FindsItsStack(mem: Bytes, c: Cell, pv: Private, m: Move)
    requires CanMove(pv, m) && Restorable(c, |mem|) && c.job == m.job
    requires if m.Begin? then c.ctx == NoContext else Suspends(c, pv)
    ensures Frames(mem, c) == if m.Begin? then [] else pv.stacks[m.job]
  {
  }

  /** Another coroutine's move leaves a suspended one's stack alone. */
  lemma {:induction false} StillSuspends(c: Cell, pv: Private, m: Move, run: Program)
    requires CanMove(pv, m) && Suspends(c, pv) && c.job != m.job
    ensures Suspends(c, MoveOn(pv, m, run))
  {
  }

  /** The coroutine that ran and yielded is suspended with the frames it left. */
  lemma {:induction false} SuspendsNow(c: Cell, pv: Private, m: Move, run: Program)
    requires CanMove(pv, m) && c.job == m.job && c.ctx.At?
    requires var o := run(pv.history, m.job, if m.Begin? then [] else pv.stacks[m.job]);
             o.Yielded? && c.saved == Buffer(o.frames)
    ensures Suspends(c, MoveOn(pv, m, run))
  {
  }

  lemma {:induction false} JobsAfter(pv: Private, m: Move, run: Program)
    requires CanMove(pv, m)
    ensures var o, pv' := run(pv.history, m.job, if m.Begin? then [] else pv.stacks[m.job]), MoveOn(pv, m, run);
            && pv'.history == pv.history + [Ran(m.job, o)]
            && forall job :: job in pv'.stacks <==> if job == m.job then o.Yielded? else job in pv.stacks
  {
  }

  lemma {:induction false} LiveHasIt(st: State, k: nat)
    requires Live(st, k)
    ensures HasLive(st, st.pool[k].job)
  {
  }

  lemma {:induction false} JobStaysLive(st: State, i: nat, st': State, job: Job)
    requires |st'.pool| == |st.pool| && forall k :: 0 <= k < |st.pool| ==> st'.pool[k].job == st.pool[k].job
    requires forall k :: Live(st, k) && k != i ==> Live(st', k)
    requires i < |st.pool| && HasLive(st, job) && st.pool[i].job != job
    ensures HasLive(st', job)
  {
    var k :| Live(st, k) && st.pool[k].job == job;
    assert Live(st', k);
  }

  /** One run on the shared stack is one run on the private stacks, where the live coroutine either
      is new or is suspended with the stack its job owns. */
  lemma {:induction false} ResumeMatches(st: State, i: nat, pv: Private, m: Move, run: Program, size: nat)
    requires Inv(st, size) && Live(st, i) && Fits(run, size)
    requires CanMove(pv, m) && m.job == st.pool[i].job && st.history == pv.history
    requires if m.Begin? then st.pool[i].ctx == NoContext else Suspends(st.pool[i], pv)
    requires forall k :: Live(st, k) && k != i ==> Suspends(st.pool[k], pv) && st.pool[k].job != m.job
    requires forall j, k :: Live(st, j) && Live(st, k) && j != k ==> st.pool[j].job != st.pool[k].job
    requires forall job :: job in pv.stacks ==> HasLive(st, job)
    ensures Matches(Resume(st, i, run), MoveOn(pv, m, run))
  {
    ResumeInv(st, i, run, size);
    var c, st', pv' := st.pool[i], Resume(st, i, run), MoveOn(pv, m, run);
    FindsItsStack(st.mem, c, pv, m);
    ResumeCells(st, i, run);
    JobsAfter(pv, m, run);
    hide Inv, Fits, Resume, Restorable, Frames, MoveOn, Suspends, HasLive;
    forall k | Live(st', k) ensures Suspends(st'.pool[k], pv') {
      if k == i {
        SuspendsNow(st'.pool[k], pv, m, run);
      } else {
        StillSuspends(st.pool[k], pv, m, run);
      }
    }
    forall job | job in pv'.stacks ensures HasLive(st', job) {
      if job == m.job {
        LiveHasIt(st', i);
      } else {
        JobStaysLive(st, i, st', job);
      }
    }
  }

  lemma {:induction false} StepMatches(st: State, e: Event, pv: Private, run: Program, size: nat)
    requires Inv(st, size) && Matches(st, pv) && Legal(st, e) && Fits(run, size)
    ensures CanStep(st, e) && CanMove(pv, MoveOf(st, e))
    ensures Inv(Step(st, e, run), size) && Matches(Step(st, e, run), MoveOn(pv, MoveOf(st, e), run))
  {
    hide Resume, MoveOn, NewCoroutine, Fits;
    match e
    case Start(job) =>
      NewCoroutineIsNotLive(st, job, size);
      var (st', i) := NewCoroutine(st, job);
      NewCoroutineKeeps(st, job);
      forall job | job in pv.stacks ensures HasLive(st', job) {
        var k :| Live(st, k) && st.pool[k].job == job;
        assert Live(st', k);
      }
      ResumeInv(st', i, run, size);
      ResumeMatches(st', i, pv, Begin(job), run, size);
    case Wake(i) =>
      ResumeInv(st, i, run, size);
      ResumeMatches(st, i, pv, Continue(st.pool[i].job), run, size);
  }

  lemma {:induction false} NewCoroutineKeeps(st: State, job: Job)
    requires forall k :: 0 <= k < |st.ids| ==> st.ids[k] < |st.pool|
    ensures NewCoroutine(st, job).0.history == st.history && NewCoroutine(st, job).0.mem == st.mem
  {
  }

  lemma {:induction false} ResumeSizes(st: State, i: nat, run: Program)
    requires i < |st.pool| && Restorable(st.pool[i], |st.mem|)
    ensures var st', n := Resume(st, i, run), |st.history|;
            && |st'.pool| == |st.pool| && |st'.history| == n + 1
            && |st'.ids| == |st.ids| + if st'.history[n].outcome.Yielded? then 0 else 1
  {
  }

  lemma {:induction false} MoveSizes(pv: Private, m: Move, run: Program)
    requires CanMove(pv, m)
    ensures var pv', n := MoveOn(pv, m, run), |pv.history|;
            && |pv'.history| == n + 1
            && |pv'.stacks| == |pv.stacks| + (if m.Begin? then 1 else 0)
                             - if pv'.history[n].outcome.Yielded? then 0 else 1
  {
    var o := run(pv.history, m.job, if m.Begin? then [] else pv.stacks[m.job]);
    if o.Finished? {
      assert (pv.stacks - {m.job}).Keys == pv.stacks.Keys - {m.job};
    }
  }

  /** No coroutine is lost: the pool holds the main one, the free ones, and one for each private stack. */
  lemma {:induction false} StepBalances(st: State, e: Event, pv: Private, run: Program, size: nat)
    requires CanStep(st, e) && CanMove(pv, MoveOf(st, e)) && st.history == pv.history
    requires Step(st, e, run).history == MoveOn(pv, MoveOf(st, e), run).history
    requires |st.pool| == 1 + |st.ids| + |pv.stacks|
    ensures var st', pv' := Step(st, e, run), MoveOn(pv, MoveOf(st, e), run);
            |st'.pool| == 1 + |st'.ids| + |pv'.stacks|
  {
    hide Resume, MoveOn, Restorable;
    MoveSizes(pv, MoveOf(st, e), run);
    match e
    case Start(job) =>
      var (st', i) := NewCoroutine(st, job);
      ResumeSizes(st', i, run);
    case Wake(i) =>
      ResumeSizes(st, i, run);
  }

  lemma {:induction false} StepPool(st: State, e: Event, run: Program)
    requires CanStep(st, e)
    ensures |Step(st, e, run).pool| == |st.pool| + if e.Start? && st.ids == [] then 1 else 0
  {
    hide Restorable, Frames;
    if e.Start? {
      FreedLastIsUsedAgain(st, e.job);
      hide NewCoroutine;
      var (st', i) := NewCoroutine(st, e.job);
      ResumeSizes(st', i, run);
    } else {
      ResumeSizes(st, e.index, run);
    }
  }

  // Whole runs

  /** Every event of the schedule is legal where it happens. */
  ghost predicate LegalRun(st: State, es: seq<Event>, run: Program)
    decreases |es|
  {
    |es| == 0 || (Legal(st, es[0]) && (CanStep(st, es[0]) ==> LegalRun(Step(st, es[0], run), es[1..], run)))
  }

  /** The assertions of the code hold at every event. */
  predicate Safe(st: State, es: seq<Event>, run: Program)
    decreases |es|
  {
    |es| == 0 || (CanStep(st, es[0]) && Safe(Step(st, es[0], run), es[1..], run))
  }

  function Run(st: State, es: seq<Event>, run: Program): State
    requires Safe(st, es, run)
    decreases |es|
  {
    if |es| == 0 then st else Run(Step(st, es[0], run), es[1..], run)
  }

  function Moves(st: State, es: seq<Event>, run: Program): seq<Move>
    requires Safe(st, es, run)
    decreases |es|
  {
    if |es| == 0 then [] else [MoveOf(st, es[0])] + Moves(Step(st, es[0], run), es[1..], run)
  }

  predicate CanRun(pv: Private, ms: seq<Move>, run: Program)
    decreases |ms|
  {
    |ms| == 0 || (CanMove(pv, ms[0]) && CanRun(MoveOn(pv, ms[0], run), ms[1..], run))
  }

  function RunPrivate(pv: Private, ms: seq<Move>, run: Program): Private
    requires CanRun(pv, ms, run)
    decreases |ms|
  {
    if |ms| == 0 then pv else RunPrivate(MoveOn(pv, ms[0], run), ms[1..], run)
  }

  ghost predicate Agree(st: State, pv: Private, size: nat) {
    Inv(st, size) && Matches(st, pv) && |st.pool| == 1 + |st.ids| + |pv.stacks| && Remembered(pv)
  }

  lemma {:induction false} LegalRunsAreSafe(st: State, es: seq<Event>, run: Program, size: nat)
    requires Inv(st, size) && Fits(run, size) && LegalRun(st, es, run)
    ensures Safe(st, es, run) && Inv(Run(st, es, run), size)
    decreases |es|
  {
    hide Step, Inv, Fits, CanStep, Legal;
    if |es| > 0 {
      StepInv(st, es[0], run, size);
      LegalRunsAreSafe(Step(st, es[0], run), es[1..], run, size);
    }
  }

  lemma {:induction false} RunsAgree(st: State, pv: Private, es: seq<Event>, run: Program, size: nat)
    requires Agree(st, pv, size) && Fits(run, size) && LegalRun(st, es, run)
    ensures Safe(st, es, run) && CanRun(pv, Moves(st, es, run), run)
    ensures Agree(Run(st, es, run), RunPrivate(pv, Moves(st, es, run), run), size)
    decreases |es|
  {
    hide Step, MoveOn, Inv, Fits, CanMove, Remembered, Suspends;
    if |es| > 0 {
      StepMatches(st, es[0], pv, run, size);
      StepBalances(st, es[0], pv, run, size);
      var m := MoveOf(st, es[0]);
      MoveRemembers(pv, m, run);
      var st', pv' := Step(st, es[0], run), MoveOn(pv, m, run);
      RunsAgree(st', pv', es[1..], run, size);
      var ms := Moves(st, es, run);
      assert ms[0] == m && ms[1..] == Moves(st', es[1..], run);
    }
  }

  function Fresh(mem: Bytes): State {
    State(mem, [MAIN], [], [])
  }

  const NOTHING_RUN: Private := Private(map[], [])

  /** Sharing the stack cannot be told from having a stack each: under every schedule that only wakes
      suspended coroutines, with programs that do anything at all, the assertions hold throughout, and
      all the runs come out as they do with private stacks. */
  lemma {:induction false} StackSharingIsTransparent(mem: Bytes, es: seq<Event>, run: Program)
    requires Fits(run, |mem|) && LegalRun(Fresh(mem), es, run)
    ensures Safe(Fresh(mem), es, run) && CanRun(NOTHING_RUN, Moves(Fresh(mem), es, run), run)
    ensures Run(Fresh(mem), es, run).history
         == RunPrivate(NOTHING_RUN, Moves(Fresh(mem), es, run), run).history
  {
    hide Fits, LegalRun, Safe, CanRun, Run, RunPrivate, Moves;
    assert Agree(Fresh(mem), NOTHING_RUN, |mem|);
    RunsAgree(Fresh(mem), NOTHING_RUN, es, run, |mem|);
  }

  function Max(a: nat, b: nat): nat {
    if a < b then b else a
  }

  /** The greatest number of coroutines under way at once, counted by their private stacks and the one that a
      move begins. */
  function Peak(pv: Private, ms: seq<Move>, run: Program): nat
    requires CanRun(pv, ms, run)
    decreases |ms|
  {
    if |ms| == 0 then 0
    else Max(|pv.stacks| + if ms[0].Begin? then 1 else 0, Peak(MoveOn(pv, ms[0], run), ms[1..], run))
  }

  lemma {:induction false} PoolGrowsToPeak(st: State, pv: Private, es: seq<Event>, run: Program, size: nat)
    requires Agree(st, pv, size) && Fits(run, size) && LegalRun(st, es, run)
    ensures Safe(st, es, run) && CanRun(pv, Moves(st, es, run), run)
    ensures |Run(st, es, run).pool| == Max(|st.pool|, 1 + Peak(pv, Moves(st, es, run), run))
    decreases |es|
  {
    hide Step, MoveOn, Inv, Fits, CanMove, Remembered, Suspends, HasLive;
    if |es| > 0 {
      StepMatches(st, es[0], pv, run, size);
      StepBalances(st, es[0], pv, run, size);
      StepPool(st, es[0], run);
      var m := MoveOf(st, es[0]);
      MoveRemembers(pv, m, run);
      var st', pv' := Step(st, es[0], run), MoveOn(pv, m, run);
      PoolGrowsToPeak(st', pv', es[1..], run, size);
      var ms := Moves(st, es, run);
      assert ms[0] == m && ms[1..] == Moves(st', es[1..], run);
    }
  }

  /** Over every legal run coroutines are used again as far as they can be: there is the main one, and as many
      others as were ever under way at once. */
  lemma {:induction false} PoolIsAtItsPeak(mem: Bytes, es: seq<Event>, run: Program)
    requires Fits(run, |mem|) && LegalRun(Fresh(mem), es, run)
    ensures Safe(Fresh(mem), es, run) && CanRun(NOTHING_RUN, Moves(Fresh(mem), es, run), run)
    ensures |Run(Fresh(mem), es, run).pool| == 1 + Peak(NOTHING_RUN, Moves(Fresh(mem), es, run), run)
  {
    hide Fits, LegalRun, Safe, CanRun, Run, Moves, Peak;
    assert Agree(Fresh(mem), NOTHING_RUN, |mem|);
    PoolGrowsToPeak(Fresh(mem), NOTHING_RUN, es, run, |mem|);
  }

  /** The last of the runs of a job was the k-th and left these frames. */
  ghost predicate LeftAt(h: seq<Ran>, k: int, job: Job, frames: Bytes) {
    && 0 <= k < |h| && h[k].job == job && h[k].outcome.Yielded? && h[k].outcome.frames == frames
    && forall j :: k < j < |h| ==> h[j].job != job
  }

  ghost predicate Left(h: seq<Ran>, job: Job, frames: Bytes) {
    exists k :: LeftAt(h, k, job, frames)
  }

  ghost predicate Remembered(pv: Private) {
    forall job :: job in pv.stacks ==> Left(pv.history, job, pv.stacks[job])
  }

  lemma {:induction false} MoveRemembers(pv: Private, m: Move, run: Program)
    requires Remembered(pv) && CanMove(pv, m)
    ensures Remembered(MoveOn(pv, m, run))
  {
    var pv' := MoveOn(pv, m, run);
    forall job | job in pv'.stacks ensures Left(pv'.history, job, pv'.stacks[job]) {
      if job == m.job {
        assert LeftAt(pv'.history, |pv.history|, job, pv'.stacks[job]);
      } else {
        var k :| LeftAt(pv.history, k, job, pv.stacks[job]);
        assert LeftAt(pv'.history, k, job, pv'.stacks[job]);
      }
    }
  }

  /** Whatever ran in between, a suspended coroutine finds above its context the bytes it left there
      when it last yielded; and the pool holds no more coroutines than that: the main one, the free
      ones, and the suspended ones. */
  lemma {:induction false} ResumedAsItYielded(mem: Bytes, es: seq<Event>, run: Program)
    requires Fits(run, |mem|) && LegalRun(Fresh(mem), es, run)
    ensures Safe(Fresh(mem), es, run)
    ensures var st := Run(Fresh(mem), es, run);
            && Inv(st, |mem|)
            && (forall i :: Live(st, i) ==> (Restorable(st.pool[i], |st.mem|)
                                             && Left(st.history, st.pool[i].job, Frames(st.mem, st.pool[i]))))
            && |st.pool| == 1 + |st.ids| + |set i | 0 < i < |st.pool| && Live(st, i)|
  {
    hide Fits, LegalRun, Safe, CanRun, Run, RunPrivate, Moves, Left;
    assert Agree(Fresh(mem), NOTHING_RUN, |mem|);
    RunsAgree(Fresh(mem), NOTHING_RUN, es, run, |mem|);
    var st := Run(Fresh(mem), es, run);
    var pv := RunPrivate(NOTHING_RUN, Moves(Fresh(mem), es, run), run);
    forall i | Live(st, i)
      ensures Restorable(st.pool[i], |st.mem|) && Left(st.history, st.pool[i].job, Frames(st.mem, st.pool[i]))
    {
      FindsItsFrames(st.mem, st.pool[i]);
    }
    LiveAreTheRest(st, |mem|);
  }

  lemma {:induction false} LiveAreTheRest(st: State, size: nat)
    requires Inv(st, size)
    ensures |st.pool| == 1 + |st.ids| + |set i | 0 < i < |st.pool| && Live(st, i)|
  {
    hide Restorable;
    var n, ids := |st.pool|, st.ids;
    CountRest(n, ids);
    assert (set i | 0 < i < n && Live(st, i)) == (set i | 0 < i < n && i !in ids);
  }

  lemma {:induction false} CountRest(n: nat, ids: seq<int>)
    requires n > 0 && forall j, k :: 0 <= j < k < |ids| ==> ids[j] != ids[k]
    requires forall k :: 0 <= k < |ids| ==> 0 < ids[k] < n
    ensures n == 1 + |ids| + |set i | 0 < i < n && i !in ids|
  {
    var rest := set i | 0 < i < n && i !in ids;
    var free := set k | k in ids;
    DistinctSize(ids);
    assert rest + free == Indices(n);
    assert rest !! free;
  }

  ghost function Indices(n: nat): (r: set<int>)
    ensures forall i :: i in r <==> 0 < i < n
    ensures |r| == if n == 0 then 0 else n - 1
  {
    if n <= 1 then {} else Indices(n - 1) + {n - 1}
  }

  lemma {:induction false} DistinctSize(s: seq<int>)
    requires forall j, k :: 0 <= j < k < |s| ==> s[j] != s[k]
    ensures |set k | k in s| == |s|
  {
    if |s| > 0 {
      var n := |s| - 1;
      var t := s[..n];
      DistinctSize(t);
      assert s == t + [s[n]];
      assert (set k | k in s) == (set k | k in t) + {s[n]};
    }
  }
}
