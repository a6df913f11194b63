/** The scheduler's timers: `_timed_wait`, ordered by time, the remembered position `_it`, and the time
    the loop may wait. A position is a node of the tree, which keeps its identity. */
module CoTimers {
  import opened Options

  type Co = nat

  class Timer {
    const time: int
    const co: Co
    constructor (time: int, co: Co)
      ensures this.time == time && this.co == co
    {
      this.time, this.co := time, co;
    }
  }

  /** `(uint32)-1`: no timer to wait for. */
  const FOREVER := 0xffff_ffff
  const UINT32 := 0x1_0000_0000

  predicate Ordered(ts: seq<Timer>) {
    forall j, k :: 0 <= j < k < |ts| ==> ts[j].time <= ts[k].time
  }

  predicate Distinct(ts: seq<Timer>) {
    forall j, k :: 0 <= j < k < |ts| ==> ts[j] != ts[k]
  }

  /** A remembered position is a timer that is there, or the end. */
  predicate Standing(ts: seq<Timer>, it: Option<Timer>) {
    it.Some? ==> it.value in ts
  }

  function Without(ts: seq<Timer>, t: Timer): seq<Timer> {
    if |ts| == 0 then [] else (if ts[0] == t then [] else [ts[0]]) + Without(ts[1..], t)
  }

  /** The timers due at a time are a first part of the ordered timers. */
  function Due(ts: seq<Timer>, now: int): (n: nat)
    ensures n <= |ts| && (n < |ts| ==> ts[n].time > now)
    ensures forall k :: 0 <= k < n ==> ts[k].time <= now
  {
    if |ts| == 0 || ts[0].time > now then 0 else 1 + Due(ts[1..], now)
  }

  function Coroutines(ts: seq<Timer>): (r: seq<Co>)
    ensures |r| == |ts| && forall k :: 0 <= k < |ts| ==> r[k] == ts[k].co
  {
    seq(|ts|, k requires 0 <= k < |ts| => ts[k].co)
  }

  /** The coroutines of the timers due. */
  function TimedOut(ts: seq<Timer>, now: int): seq<Co> {
    Coroutines(ts[..Due(ts, now)])
  }

  lemma {:induction false} WithoutHas(ts: seq<Timer>, t: Timer, x: Timer)
    ensures x in Without(ts, t) <==> x in ts && x != t
  {
    if |ts| > 0 {
      WithoutHas(ts[1..], t, x);
      assert ts == [ts[0]] + ts[1..];
    }
  }

  lemma {:induction false} WithoutKeepsOrder(ts: seq<Timer>, t: Timer)
    requires Ordered(ts) && Distinct(ts)
    ensures Ordered(Without(ts, t)) && Distinct(Without(ts, t))
  {
    if |ts| > 0 {
      var rest := ts[1..];
      WithoutKeepsOrder(rest, t);
      var r := Without(rest, t);
      forall k | 0 <= k < |r| ensures r[k] in ts[1..] && ts[0].time <= r[k].time && ts[0] != r[k] {
        WithoutHas(rest, t, r[k]);
        var j :| 0 <= j < |rest| && rest[j] == r[k];
        assert rest[j] == ts[j + 1];
      }
    }
  }

  /** Every timer due is in the first part, and no other. */
  lemma {:induction false} DueIsExact(ts: seq<Timer>, now: int, k: nat)
    requires Ordered(ts) && k < |ts|
    ensures ts[k].time <= now <==> k < Due(ts, now)
  {
  }

  // Runs of the scheduler's timer operations

  /** `_timed_wait` and `_it`. */
  datatype Wait = Wait(timed: seq<Timer>, it: Option<Timer>)

  /** `add_timer`, `add_ev_timer` or the insertion in `sleep`, `del_timer`, `check_timeout`, and the erasing
      of an event's timer in the ready part of the loop. */
  datatype Op =
    | Add(t: Timer, place: nat)
    | AddEv(t: Timer, place: nat)
    | Del(t: Timer)
    | Check(now: int)
    | Erase(t: Timer)

  /** Where the tree may put a timer; among timers of the same time, that is left to the tree. */
  predicate MayPut(ts: seq<Timer>, t: Timer, place: nat) {
    && t !in ts && place <= |ts|
    && (forall k :: 0 <= k < place ==> ts[k].time <= t.time)
    && (forall k :: place <= k < |ts| ==> t.time <= ts[k].time)
  }

  function Put(ts: seq<Timer>, t: Timer, place: nat): seq<Timer>
    requires place <= |ts|
  {
    ts[..place] + [t] + ts[place..]
  }

  function Place(ts: seq<Timer>, t: Timer): (k: nat)
    requires t in ts
    ensures k < |ts| && ts[k] == t
  {
    if ts[0] == t then 0 else 1 + Place(ts[1..], t)
  }

  function Next(ts: seq<Timer>, t: Timer): Option<Timer>
    requires t in ts
  {
    var k := Place(ts, t);
    if k + 1 < |ts| then Some(ts[k + 1]) else None
  }

  predicate Can(w: Wait, op: Op) {
    match op
    case Add(t, place) => MayPut(w.timed, t, place)
    case AddEv(t, place) => MayPut(w.timed, t, place)
    case Del(t) => t in w.timed
    case Check(_) => true
    case Erase(t) => t in w.timed
  }

  function Do(w: Wait, op: Op): Wait
    requires Can(w, op)
  {
    match op
    case Add(t, place) => Wait(Put(w.timed, t, place), Some(t))
    case AddEv(t, place) => Wait(Put(w.timed, t, place), w.it)
    case Del(t) => Wait(Without(w.timed, t), if w.it == Some(t) then Next(w.timed, t) else w.it)
    case Check(now) =>
      var rest := w.timed[Due(w.timed, now)..];
      Wait(rest, if w.it.None? || w.it.value.time > now then w.it else if |rest| > 0 then Some(rest[0]) else None)
    case Erase(t) => Wait(Without(w.timed, t), w.it)
  }

  /** Deleting the k-th timer: it goes, and a position on it moves to the one after it, or to the end. */
  lemma {:induction false} DeletedIs(w: Wait, k: nat)
    requires Distinct(w.timed) && k < |w.timed|
    ensures var ts, t := w.timed, w.timed[k];
            Do(w, Del(t))
            == Wait(ts[..k] + ts[k + 1..],
                    if w.it != Some(t) then w.it else if k + 1 < |ts| then Some(ts[k + 1]) else None)
  {
    WithoutIs(w.timed, k);
    PlaceIs(w.timed, k);
  }

  lemma {:induction false} WithoutIs(ts: seq<Timer>, k: nat)
    requires Distinct(ts) && k < |ts|
    ensures Without(ts, ts[k]) == ts[..k] + ts[k + 1..]
  {
    var t, rest := ts[k], ts[1..];
    if k == 0 {
      NotThere(rest, t);
      assert ts[..0] + rest == rest;
    } else {
      WithoutIs(rest, k - 1);
      assert ts[..k] == [ts[0]] + rest[..k - 1] && ts[k + 1..] == rest[k..];
    }
  }

  lemma {:induction false} NotThere(ts: seq<Timer>, t: Timer)
    requires t !in ts
    ensures Without(ts, t) == ts
  {
    if |ts| > 0 {
      NotThere(ts[1..], t);
      assert ts == [ts[0]] + ts[1..];
    }
  }

  lemma {:induction false} PlaceIs(ts: seq<Timer>, k: nat)
    requires Distinct(ts) && k < |ts|
    ensures Place(ts, ts[k]) == k
  {
  }

  /** Checking with the first n timers due: they go, and a position on one of them, or on a timer gone before that
      was due, moves to the first that is left. */
  lemma {:induction false} CheckedIs(w: Wait, now: int, n: nat)
    requires Ordered(w.timed) && n <= |w.timed| && (forall k :: 0 <= k < n ==> w.timed[k].time <= now)
    requires n < |w.timed| ==> w.timed[n].time > now
    ensures Do(w, Check(now))
         == Wait(w.timed[n..], if w.it.None? || w.it.value.time > now then w.it
                               else if n < |w.timed| then Some(w.timed[n]) else None)
  {
    assert Due(w.timed, now) == n;
  }

  predicate Sound(w: Wait) {
    Ordered(w.timed) && Distinct(w.timed) && Standing(w.timed, w.it)
  }

  /** The direct erasing hits the remembered position. */
  predicate Hits(w: Wait, op: Op) {
    op.Erase? && w.it == Some(op.t)
  }

  lemma {:induction false} PutHas(ts: seq<Timer>, t: Timer, place: nat, x: Timer)
    requires place <= |ts|
    ensures x in Put(ts, t, place) <==> x == t || x in ts
  {
    assert ts == ts[..place] + ts[place..];
  }

  lemma {:induction false} PutKeepsOrder(ts: seq<Timer>, t: Timer, place: nat)
    requires Ordered(ts) && Distinct(ts) && MayPut(ts, t, place)
    ensures Ordered(Put(ts, t, place)) && Distinct(Put(ts, t, place))
  {
    var r := Put(ts, t, place);
    forall j, k | 0 <= j < k < |r| ensures r[j] != r[k] && r[j].time <= r[k].time {
      assert j != place ==> r[j] == ts[if j < place then j else j - 1];
      assert k != place ==> r[k] == ts[if k < place then k else k - 1];
    }
  }

  lemma {:induction false} RestKeepsOrder(ts: seq<Timer>, i: nat)
    requires Ordered(ts) && Distinct(ts) && i <= |ts|
    ensures Ordered(ts[i..]) && Distinct(ts[i..])
  {
  }

  lemma {:induction false} StillThere(ts: seq<Timer>, t: Timer, now: int)
    requires t in ts && t.time > now
    ensures t in ts[Due(ts, now)..]
  {
    var k := Place(ts, t);
    assert ts[Due(ts, now)..][k - Due(ts, now)] == t;
  }

  /** One operation leaves the position on a timer that is there, or at the end, exactly when it is not
      an erasing of the timer it is on. */
  lemma {:induction false} StandsUnlessHit(w: Wait, op: Op)
    requires Sound(w) && Can(w, op)
    ensures Ordered(Do(w, op).timed) && Distinct(Do(w, op).timed)
    ensures Standing(Do(w, op).timed, Do(w, op).it) <==> !Hits(w, op)
  {
    hide Ordered, Distinct, Due, Put;
    match op
    case Add(t, place) =>
      PutKeepsOrder(w.timed, t, place);
      PutHas(w.timed, t, place, t);
    case AddEv(t, place) =>
      PutKeepsOrder(w.timed, t, place);
      if w.it.Some? { PutHas(w.timed, t, place, w.it.value); }
    case Del(t) =>
      WithoutKeepsOrder(w.timed, t);
      var it := Do(w, op).it;
      if it.Some? {
        NextIsAnother(w.timed, t);
        WithoutHas(w.timed, t, it.value);
      }
    case Check(now) =>
      RestKeepsOrder(w.timed, Due(w.timed, now));
      if w.it.Some? && w.it.value.time > now { StillThere(w.timed, w.it.value, now); }
    case Erase(t) =>
      WithoutKeepsOrder(w.timed, t);
      if w.it.Some? { WithoutHas(w.timed, t, w.it.value); }
  }

  lemma {:induction false} NextIsAnother(ts: seq<Timer>, t: Timer)
    requires Distinct(ts) && t in ts
    ensures Next(ts, t).Some? ==> Next(ts, t).value in ts && Next(ts, t).value != t
  {
  }

  const NO_TIMERS: Wait := Wait([], None)

  predicate CanRun(w: Wait, ops: seq<Op>)
    decreases |ops|
  {
    |ops| == 0 || (Can(w, ops[0]) && CanRun(Do(w, ops[0]), ops[1..]))
  }

  function Run(w: Wait, ops: seq<Op>): Wait
    requires CanRun(w, ops)
    decreases |ops|
  {
    if |ops| == 0 then w else Run(Do(w, ops[0]), ops[1..])
  }

  /** After every operation the position stands. */
  predicate StandsThroughout(w: Wait, ops: seq<Op>)
    requires CanRun(w, ops)
    decreases |ops|
  {
    Standing(w.timed, w.it) && (|ops| == 0 || StandsThroughout(Do(w, ops[0]), ops[1..]))
  }

  /** No erasing hits the position it finds. */
  predicate NeverHit(w: Wait, ops: seq<Op>)
    requires CanRun(w, ops)
    decreases |ops|
  {
    |ops| == 0 || (!Hits(w, ops[0]) && NeverHit(Do(w, ops[0]), ops[1..]))
  }

  /** Over any run the position stands throughout if and only if the loop never erases the timer that it
      is on, which it could see before each erasing. */
  lemma {:induction false} StandsUnlessEverHit(w: Wait, ops: seq<Op>)
    requires Sound(w) && CanRun(w, ops)
    ensures StandsThroughout(w, ops) <==> NeverHit(w, ops)
    decreases |ops|
  {
    hide Ordered, Distinct, Do, Can;
    if |ops| > 0 {
      StandsUnlessHit(w, ops[0]);
      if Standing(Do(w, ops[0]).timed, Do(w, ops[0]).it) {
        StandsUnlessEverHit(Do(w, ops[0]), ops[1..]);
      } else {
        NotStanding(Do(w, ops[0]), ops[1..]);
      }
    }
  }

  lemma {:induction false} NotStanding(w: Wait, ops: seq<Op>)
    requires CanRun(w, ops) && !Standing(w.timed, w.it)
    ensures !StandsThroughout(w, ops)
  {
  }

  /** What an operation leaves of the timer that `add_timer` added last. */
  function LastAfter(last: Option<Timer>, op: Op): Option<Timer> {
    match op
    case Add(t, _) => Some(t)
    case AddEv(_, _) => last
    case Check(now) => if last.Some? && last.value.time <= now then None else last
    case Del(t) => if last == Some(t) then None else last
    case Erase(t) => if last == Some(t) then None else last
  }

  /** The timer that `add_timer` added last, unless it has been taken off. */
  function LastAdded(last: Option<Timer>, ops: seq<Op>): Option<Timer>
    decreases |ops|
  {
    if |ops| == 0 then last else LastAdded(LastAfter(last, ops[0]), ops[1..])
  }

  /** While the timer that `add_timer` added last has not been taken off, the position is on it: until
      then no erasing of an event's timer can hit the position. */
  lemma {:induction false} PositionIsLastAdded(w: Wait, last: Option<Timer>, ops: seq<Op>)
    requires CanRun(w, ops) && (last.Some? ==> w.it == last)
    ensures LastAdded(last, ops).Some? ==> Run(w, ops).it == LastAdded(last, ops)
    decreases |ops|
  {
    if |ops| > 0 {
      PositionAfter(w, last, ops[0]);
      PositionIsLastAdded(Do(w, ops[0]), LastAfter(last, ops[0]), ops[1..]);
    }
  }

  lemma {:induction false} PositionAfter(w: Wait, last: Option<Timer>, op: Op)
    requires Can(w, op) && (last.Some? ==> w.it == last)
    ensures LastAfter(last, op).Some? ==> Do(w, op).it == LastAfter(last, op)
  {
    hide Due, Put, Without, Next;
  }

  /** What can happen: a timer by `add_timer`, a later one for an event, the first times out, so that the
      position moves on to the second; the event becomes ready, and the position is left on nothing. */
  lemma {:induction false} TimeoutThenReadyHits(a: Timer, b: Timer)
    requires a.time < b.time
    ensures var ops := [Add(a, 0), AddEv(b, 1), Check(a.time), Erase(b)];
            && CanRun(NO_TIMERS, ops) && Run(NO_TIMERS, ops) == Wait([], Some(b))
            && !StandsThroughout(NO_TIMERS, ops) && !NeverHit(NO_TIMERS, ops)
  {
    var ops := [Add(a, 0), AddEv(b, 1), Check(a.time), Erase(b)];
    var w1, w2, w3, w4 := Wait([a], Some(a)), Wait([a, b], Some(a)), Wait([b], Some(b)), Wait([], Some(b));
    FirstTimer(a);
    ReadyStep(a, b);
    assert ops[1..] == [ops[1], ops[2], ops[3]] && ops[1..][1..] == [ops[2], ops[3]] && ops[1..][1..][1..] == [ops[3]];
    hide Do, Can;
    assert ops[1..][1..][1..][1..] == [];
    assert CanRun(w4, []) && Run(w4, []) == w4 && !StandsThroughout(w4, []);
    assert CanRun(w3, [ops[3]]) && Run(w3, [ops[3]]) == w4 && !StandsThroughout(w3, [ops[3]])
        && !NeverHit(w3, [ops[3]]);
    assert CanRun(w2, [ops[2], ops[3]]) && CanRun(w1, ops[1..]);
    assert Run(w2, [ops[2], ops[3]]) == w4 && !StandsThroughout(w2, [ops[2], ops[3]])
        && !NeverHit(w2, [ops[2], ops[3]]);
    assert Run(w1, ops[1..]) == w4;
  }

  lemma {:induction false} FirstTimer(a: Timer)
    ensures Can(NO_TIMERS, Add(a, 0)) && Do(NO_TIMERS, Add(a, 0)) == Wait([a], Some(a))
  {
  }

  lemma {:induction false} ReadyStep(a: Timer, b: Timer)
    requires a.time < b.time
    ensures Can(Wait([a], Some(a)), AddEv(b, 1)) && Do(Wait([a], Some(a)), AddEv(b, 1)) == Wait([a, b], Some(a))
    ensures Do(Wait([a, b], Some(a)), Check(a.time)) == Wait([b], Some(b))
    ensures Can(Wait([b], Some(b)), Erase(b)) && Do(Wait([b], Some(b)), Erase(b)) == Wait([], Some(b))
  {
    assert [a, b][1..] == [b] && [b][1..] == [];
    assert Due([b], a.time) == 0 && Due([a, b], a.time) == 1;
    assert Without([], b) == [];
  }

  class Timers {
    var timed: seq<Timer>
    var it: Option<Timer>
    var waitMs: int

    function State(): Wait
      reads `timed, `it
    {
      Wait(timed, it)
    }

    ghost predicate Valid()
      reads `timed, `it
    {
      Sound(State())
    }

    constructor ()
      ensures Valid() && timed == [] && it == None && waitMs == 0xffff_ffff
    {
      timed, it, waitMs := [], None, FOREVER;
    }

    method Shorten(ms: nat)
      modifies `waitMs
      ensures waitMs == if old(waitMs) > ms then ms else old(waitMs)
    {
      if waitMs > ms {
        waitMs := ms;
      }
    }

    /** `add_timer`: the new timer becomes the remembered position. */
    method AddTimer(now: int, ms: nat, co: Co, place: nat) returns (t: Timer)
      requires Valid() && place <= |timed|
      requires (forall k :: 0 <= k < place ==> timed[k].time <= now + ms)
            && (forall k :: place <= k < |timed| ==> now + ms <= timed[k].time)
      modifies this
      ensures fresh(t) && t.time == now + ms && t.co == co
      ensures Valid() && Can(old(State()), Add(t, place)) && State() == Do(old(State()), Add(t, place))
      ensures waitMs == if old(waitMs) > ms then ms else old(waitMs)
    {
      Shorten(ms);
      t := new Timer(now + ms, co);
      StandsUnlessHit(State(), Add(t, place));
      timed := Put(timed, t, place);
      it := Some(t);
    }

    /** `add_ev_timer` and the insertion in `sleep`: the position stays. */
    method AddEvTimer(now: int, ms: nat, co: Co, place: nat) returns (t: Timer)
      requires Valid() && place <= |timed|
      requires (forall k :: 0 <= k < place ==> timed[k].time <= now + ms)
            && (forall k :: place <= k < |timed| ==> now + ms <= timed[k].time)
      modifies `timed, `waitMs
      ensures fresh(t) && t.time == now + ms && t.co == co
      ensures Valid() && Can(old(State()), AddEv(t, place)) && State() == Do(old(State()), AddEv(t, place))
      ensures waitMs == if old(waitMs) > ms then ms else old(waitMs)
    {
      Shorten(ms);
      t := new Timer(now + ms, co);
      StandsUnlessHit(State(), AddEv(t, place));
      timed := Put(timed, t, place);
    }

    /** `del_timer`: a position on the timer moves on before the timer goes. */
    method DelTimer(t: Timer)
      requires Valid() && t in timed
      modifies `timed, `it
      ensures Valid() && State() == Do(old(State()), Del(t))
    {
      StandsUnlessHit(State(), Del(t));
      if it == Some(t) {
        it := Next(timed, t);
      }
      timed := Without(timed, t);
    }

    /** The erasing in the ready part of the loop, past the position. */
    method EraseTimer(t: Timer)
      requires Valid() && t in timed
      modifies `timed
      ensures State() == Do(old(State()), Erase(t))
      ensures Valid() <==> old(it) != Some(t)
    {
      StandsUnlessHit(State(), Erase(t));
      timed := Without(timed, t);
    }

    /** `check_timeout`: exactly the timers due are taken off, their coroutines returned in the order of
        time, and the loop is to wait for the next one. */
    method CheckTimeout(now: int) returns (res: seq<Co>)
      requires Valid()
      modifies this
      ensures Valid() && State() == Do(old(State()), Check(now))
      ensures res == TimedOut(old(timed), now)
      ensures forall k :: 0 <= k < |timed| ==> timed[k].time > now
      ensures waitMs == if |timed| == 0 then 0xffff_ffff else (timed[0].time - now) % 0x1_0000_0000
    {
      StandsUnlessHit(State(), Check(now));
      hide Ordered, Distinct, Coroutines, Due, Do;
      if |timed| == 0 {
        NoneDue(State(), now);
        SetWait(now);
        return [];
      }
      var i;
      res, i := TakeDue(now);
      Leave(i, now);
      SetWait(now);
    }

    /** Takes the first i timers off; a remembered position among them moves to the next. */
    method Leave(i: nat, now: int)
      requires Standing(timed, it) && i == Due(timed, now)
      requires forall k :: i <= k < |timed| ==> timed[k].time > now
      modifies `timed, `it
      ensures State() == Do(old(State()), Check(now)) && timed == old(timed[i..])
    {
      hide Ordered, Distinct, Due, Do;
      CheckLeaves(State(), now);
      if i != 0 {
        if it.Some? && it.value.time <= now {
          it := if i < |timed| then Some(timed[i]) else None;
        }
        timed := timed[i..];
      }
    }

    /** The loop is to wait until the first timer, or for ever. */
    method SetWait(now: int)
      modifies `waitMs
      ensures waitMs == if |timed| == 0 then 0xffff_ffff else (timed[0].time - now) % 0x1_0000_0000
    {
      if |timed| > 0 {
        waitMs := (timed[0].time - now) % UINT32;
      } else if waitMs != FOREVER {
        waitMs := FOREVER;
      }
    }

    static lemma {:induction false} CheckLeaves(w: Wait, now: int)
      requires Standing(w.timed, w.it) && forall k :: Due(w.timed, now) <= k < |w.timed| ==> w.timed[k].time > now
      ensures var i := Due(w.timed, now);
              var it := if i < |w.timed| then Some(w.timed[i]) else None;
              Do(w, Check(now)) == if i == 0 then w
                else Wait(w.timed[i..], if w.it.Some? && w.it.value.time <= now then it else w.it)
    {
      hide Due;
      var i := Due(w.timed, now);
      if i == 0 {
        assert w.timed[0..] == w.timed;
      } else if i < |w.timed| {
        assert w.timed[i..][0] == w.timed[i];
      }
    }

    /** The loop from the first timer to the first that is not due. */
    method TakeDue(now: int) returns (res: seq<Co>, i: nat)
      requires Valid()
      ensures i == Due(timed, now) && res == Coroutines(timed[..i])
      ensures forall k :: i <= k < |timed| ==> timed[k].time > now
    {
      res, i := [], 0;
      while i < |timed| && timed[i].time <= now
        invariant i <= Due(timed, now) && res == Coroutines(timed[..i])
      {
        assert timed[..i + 1] == timed[..i] + [timed[i]];
        res := res + [timed[i].co];
        i := i + 1;
      }
    }

    static lemma {:induction false} NoneDue(w: Wait, now: int)
      requires w.timed == [] && w.it.None?
      ensures TimedOut([], now) == [] && Do(w, Check(now)) == w
    {
    }
  }

  /** A run of the objects that ends with the position on a timer that is gone. */
  method PositionLeftBehind() returns (timers: Timers, gone: Timer)
    ensures timers.timed == [] && timers.it == Some(gone) && !Standing(timers.timed, timers.it)
  {
    hide Do, Due, Put, Without, Sound, MayPut, Coroutines, TimedOut;
    timers := new Timers();
    var a := timers.AddTimer(0, 10, 1, 0);
    FirstTimer(a);
    assert timers.State() == Wait([a], Some(a));
    gone := timers.AddEvTimer(0, 20, 2, 1);
    ReadyStep(a, gone);
    assert timers.State() == Wait([a, gone], Some(a));
    var due := timers.CheckTimeout(10);
    assert timers.State() == Wait([gone], Some(gone));
    timers.EraseTimer(gone);
    assert timers.State() == Wait([], Some(gone));
  }
}
