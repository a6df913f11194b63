/** The trails of the alarm engine: how one frame ages them and assigns its boxes to them, and what that
    means over any sequence of frames. Coordinates are integers, scores are real numbers. */
module Tracker {
  const TIME_STAMP := 120
  const MUCH := 60
  const THRESHOLD: real := 0.2
  const THETA: real := 0.5
  const PERSON_LABEL := 1

  datatype Point = Point(x: int, y: int)

  /** What a `Trail` is; `id` and `seen` only name it and record the frame of its last box. */
  datatype Track = Track(id: nat, seen: nat, count: nat, insertable: bool, lt: Point, rb: Point, points: seq<Point>)

  datatype Detection = Detection(classId: int, lt: Point, rb: Point)

  /** The weighted overlap and distance of a trail's box and a new one. */
  type Score = (Point, Point, Point, Point) -> real

  /** Assigning a `double` to an `int` cuts towards zero. */
  function Half(n: int): int {
    if n >= 0 then n / 2 else -(-n / 2)
  }

  function Foot(a: Point, b: Point): Point {
    Point(Half(a.x + b.x), b.y)
  }

  /** The foot is half way between the sides, cut towards zero, on the lower edge. */
  lemma {:induction false} FootIs(a: Point, b: Point)
    ensures var f, sum := Foot(a, b), a.x + b.x;
            f.y == b.y && if sum >= 0 then sum - 1 <= 2 * f.x <= sum else sum <= 2 * f.x <= sum + 1
  {
  }

  function New(id: nat, now: nat, a: Point, b: Point): Track {
    Track(id, now, 0, false, a, b, [Foot(a, b)])
  }

  function Inserted(t: Track, now: nat, a: Point, b: Point): Track {
    var points := t.points + [Foot(a, b)];
    Track(t.id, now, 0, false, a, b, if |points| > MUCH then [Foot(a, b)] else points)
  }

  function Cleared(t: Track): Track {
    t.(points := [Foot(t.lt, t.rb)])
  }

  /** Trails out of time are dropped, the others grow older and open. */
  function Age(ts: seq<Track>): seq<Track> {
    if |ts| == 0 then []
    else if ts[0].count < TIME_STAMP then [ts[0].(count := ts[0].count + 1, insertable := true)] + Age(ts[1..])
    else Age(ts[1..])
  }

  /** The search loop over the first n trails: the best so far, and its score. */
  function Best(ts: seq<Track>, n: nat, a: Point, b: Point, score: Score): (r: (int, real))
    requires n <= |ts|
    ensures -1 <= r.0 < n
  {
    if n == 0 then (-1, THETA - 1.0)
    else
      var (k, max) := Best(ts, n - 1, a, b, score);
      var t := ts[n - 1];
      if t.insertable && score(t.lt, t.rb, a, b) > max then (n - 1, score(t.lt, t.rb, a, b)) else (k, max)
  }

  function Min(x: int, y: int): int {
    if x < y then x else y
  }

  predicate NearEdge(p: Point) {
    Min(Min(1920 - p.x, p.x), Min(1080 - p.y, p.y)) < 100
  }

  /** The trail a box goes to, or the number of trails for a new one. */
  function Choose(ts: seq<Track>, a: Point, b: Point, score: Score): (k: nat)
    ensures k <= |ts|
  {
    var (k, max) := Best(ts, |ts|, a, b, score);
    if |ts| == 0 then 0
    else if max > THRESHOLD && k >= 0 then k
    else if k < 0 then |ts|
    else if NearEdge(Foot(a, b)) then |ts|
    else k
  }

  function Assign(ts: seq<Track>, id: nat, now: nat, a: Point, b: Point, score: Score): seq<Track> {
    var k := Choose(ts, a, b, score);
    if k == |ts| then ts + [New(id, now, a, b)] else ts[k := Inserted(ts[k], now, a, b)]
  }

  /** The boxes of a frame, one after the other. */
  function AssignAll(ts: seq<Track>, id: nat, now: nat, dets: seq<Detection>, score: Score): (seq<Track>, nat)
    decreases |dets|
  {
    if |dets| == 0 then (ts, id)
    else if dets[0].classId != PERSON_LABEL then AssignAll(ts, id, now, dets[1..], score)
    else
      var ts' := Assign(ts, id, now, dets[0].lt, dets[0].rb, score);
      AssignAll(ts', if |ts'| > |ts| then id + 1 else id, now, dets[1..], score)
  }

  // Where a box goes

  predicate Scores(ts: seq<Track>, j: int, a: Point, b: Point, score: Score, max: real) {
    0 <= j < |ts| && ts[j].insertable && score(ts[j].lt, ts[j].rb, a, b) > max
  }

  lemma {:induction false} BestIsFirstMaximum(ts: seq<Track>, n: nat, a: Point, b: Point, score: Score)
    requires n <= |ts|
    ensures var (k, max) := Best(ts, n, a, b, score);
            && (k < 0 ==> max == THETA - 1.0)
            && (k >= 0 ==> ts[k].insertable && max == score(ts[k].lt, ts[k].rb, a, b) > THETA - 1.0)
            && (forall j :: 0 <= j < n ==> !Scores(ts, j, a, b, score, max))
            && (forall j :: 0 <= j < k && ts[j].insertable ==> score(ts[j].lt, ts[j].rb, a, b) < max)
  {
    if n > 0 {
      BestIsFirstMaximum(ts, n - 1, a, b, score);
      var (k', max') := Best(ts, n - 1, a, b, score);
      var (k, max) := Best(ts, n, a, b, score);
      forall j | 0 <= j < n ensures !Scores(ts, j, a, b, score, max) {
        assert j < n - 1 ==> !Scores(ts, j, a, b, score, max');
      }
      forall j | 0 <= j < k && ts[j].insertable ensures score(ts[j].lt, ts[j].rb, a, b) < max {
        assert k != k' ==> !Scores(ts, j, a, b, score, max');
      }
    }
  }

  /** A box goes to the open trail that scores best, the first of several, if that score is above -0.5,
      and is above 0.2 or the box is away from the edge; otherwise, and only then, to a new trail. */
  lemma {:induction false} ChooseIsBestOpenTrail(ts: seq<Track>, a: Point, b: Point, score: Score)
    ensures var k, foot := Choose(ts, a, b, score), Foot(a, b);
            var edge := foot.x < 100 || foot.x > 1820 || foot.y < 100 || foot.y > 980;
            if k < |ts| then
              var max := score(ts[k].lt, ts[k].rb, a, b);
              && ts[k].insertable && max > -0.5 && (max > 0.2 || !edge)
              && (forall j :: 0 <= j < |ts| ==> !Scores(ts, j, a, b, score, max))
              && (forall j :: 0 <= j < k && ts[j].insertable ==> score(ts[j].lt, ts[j].rb, a, b) < max)
            else
              var least := if edge then 0.2 else -0.5;
              forall j :: 0 <= j < |ts| ==> !Scores(ts, j, a, b, score, least)
  {
    BestIsFirstMaximum(ts, |ts|, a, b, score);
    var (k, max) := Best(ts, |ts|, a, b, score);
    var least := if NearEdge(Foot(a, b)) then 0.2 else -0.5;
    if Choose(ts, a, b, score) == |ts| {
      forall j | 0 <= j < |ts| ensures !Scores(ts, j, a, b, score, least) {
        assert !Scores(ts, j, a, b, score, max);
      }
    }
  }

  // What every frame keeps

  /** A trail holds 1 to 60 points, the last one under its current box. */
  predicate WellFormed(t: Track) {
    1 <= |t.points| <= MUCH && t.points[|t.points| - 1] == Foot(t.lt, t.rb)
  }

  /** After frame `now`: every trail is well formed and as old as the time since its last box, no older
      than 120, and no two trails are the same. */
  ghost predicate Inv(ts: seq<Track>, id: nat, now: nat) {
    && (forall k :: 0 <= k < |ts| ==>
          WellFormed(ts[k]) && ts[k].id < id && ts[k].count <= TIME_STAMP && ts[k].seen + ts[k].count == now)
    && (forall j, k :: 0 <= j < k < |ts| ==> ts[j].id != ts[k].id)
  }

  /** In the midst of a frame: an open trail has not been given a box in this frame. */
  ghost predicate Open(ts: seq<Track>, now: nat) {
    forall k :: 0 <= k < |ts| ==> (ts[k].insertable <==> ts[k].seen < now)
  }

  predicate Has(ts: seq<Track>, id: nat) {
    exists k :: 0 <= k < |ts| && ts[k].id == id
  }

  lemma {:induction false} AgeAt(ts: seq<Track>, k: nat) returns (j: nat)
    requires k < |Age(ts)|
    ensures k <= j < |ts| && ts[j].count < TIME_STAMP
    ensures Age(ts)[k] == ts[j].(count := ts[j].count + 1, insertable := true)
  {
    if ts[0].count < TIME_STAMP {
      if k == 0 {
        j := 0;
      } else {
        j := AgeAt(ts[1..], k - 1);
        j := j + 1;
      }
    } else {
      j := AgeAt(ts[1..], k);
      j := j + 1;
    }
  }

  lemma {:induction false} AgeKeepsIds(ts: seq<Track>, id: nat)
    requires forall j, k :: 0 <= j < k < |ts| ==> ts[j].id != ts[k].id
    ensures forall j, k :: 0 <= j < k < |Age(ts)| ==> Age(ts)[j].id != Age(ts)[k].id
    ensures Has(Age(ts), id) <==> exists k :: 0 <= k < |ts| && ts[k].id == id && ts[k].count < TIME_STAMP
  {
    if |ts| > 0 {
      var rest := ts[1..];
      AgeKeepsIds(rest, id);
      var aged := Age(rest);
      forall k | 0 <= k < |aged| ensures aged[k].id != ts[0].id {
        var j := AgeAt(rest, k);
        assert rest[j] == ts[j + 1];
      }
      forall k | 0 <= k < |rest| ensures rest[k] == ts[k + 1] {
      }
      AgeHas(ts, id);
    }
  }

  lemma {:induction false} AgeHas(ts: seq<Track>, id: nat)
    requires |ts| > 0
    requires Has(Age(ts[1..]), id)
        <==> exists k :: 0 <= k < |ts[1..]| && ts[1..][k].id == id && ts[1..][k].count < TIME_STAMP
    ensures Has(Age(ts), id) <==> exists k :: 0 <= k < |ts| && ts[k].id == id && ts[k].count < TIME_STAMP
  {
    var rest, aged := ts[1..], Age(ts);
    if Has(aged, id) {
      var k :| 0 <= k < |aged| && aged[k].id == id;
      var j := AgeAt(ts, k);
      assert ts[j].id == id && ts[j].count < TIME_STAMP;
    }
    if k :| 0 <= k < |ts| && ts[k].id == id && ts[k].count < TIME_STAMP {
      if k == 0 {
        assert aged[0].id == id;
      } else {
        assert rest[k - 1] == ts[k];
        assert Has(Age(rest), id);
        var m :| 0 <= m < |Age(rest)| && Age(rest)[m].id == id;
        assert aged[if ts[0].count < TIME_STAMP then m + 1 else m].id == id;
      }
    }
  }

  function Persons(dets: seq<Detection>): seq<Detection> {
    if |dets| == 0 then []
    else if dets[0].classId != PERSON_LABEL then Persons(dets[1..])
    else [dets[0]] + Persons(dets[1..])
  }

  /** One more point; a path of sixty starts anew. */
  function Lengthened(path: seq<Point>, p: Point): seq<Point> {
    if |path| >= 60 then [p] else path + [p]
  }

  /** What became of the k-th trail when it was given this box in frame `now`: it was open, or is new, has the
      box, its path is longer by the box's foot, and it is closed for the rest of the frame. */
  predicate Took(ts: seq<Track>, ts': seq<Track>, k: nat, now: nat, d: Detection) {
    && k < |ts'| && ts'[k].lt == d.lt && ts'[k].rb == d.rb
    && ts'[k].seen == now && ts'[k].count == 0 && !ts'[k].insertable
    && ts'[k].points == Lengthened(if k < |ts| then ts[k].points else [], Foot(d.lt, d.rb))
    && (k < |ts| ==> ts[k].insertable && ts'[k].id == ts[k].id)
  }

  /** The trails each box went to are all different; the trails that got none are as they were. */
  ghost predicate Assigned(ts: seq<Track>, ts': seq<Track>, to: seq<nat>, now: nat, persons: seq<Detection>) {
    && |to| == |persons| && |ts| <= |ts'|
    && (forall m :: 0 <= m < |to| ==> Took(ts, ts', to[m], now, persons[m]))
    && (forall m, n :: 0 <= m < n < |to| ==> to[m] != to[n])
    && (forall k :: 0 <= k < |ts'| && k !in to ==> k < |ts| && ts'[k] == ts[k])
  }

  /** Only the k-th trail has changed or been added. */
  predicate OnlyAt(ts: seq<Track>, ts1: seq<Track>, k: nat) {
    |ts| <= |ts1| && forall j :: 0 <= j < |ts1| && j != k ==> j < |ts| && ts1[j] == ts[j]
  }

  lemma {:induction false} SameAt(ts: seq<Track>, ts1: seq<Track>, k: nat, j: nat)
    requires OnlyAt(ts, ts1, k) && j < |ts1| && j != k
    ensures j < |ts| && ts1[j] == ts[j]
  {
    assert ts1[j] in ts1;
  }

  /** The same, told from before another trail was given a box. */
  lemma {:induction false} TookEarlier(ts: seq<Track>, ts1: seq<Track>, ts': seq<Track>, j: nat, now: nat, d: Detection)
    requires Took(ts1, ts', j, now, d) && |ts| <= |ts1|
    requires j < |ts1| ==> j < |ts| && ts1[j] == ts[j]
    ensures Took(ts, ts', j, now, d)
  {
    hide Lengthened, Foot;
  }

  lemma {:induction false} TookStays(ts: seq<Track>, ts1: seq<Track>, ts': seq<Track>, k: nat, now: nat, d: Detection)
    requires Took(ts, ts1, k, now, d) && k < |ts'| && ts'[k] == ts1[k]
    ensures Took(ts, ts', k, now, d)
  {
    hide Lengthened, Foot;
  }

  lemma {:induction false} ConsDistinct(k: nat, to: seq<nat>)
    requires forall m :: 0 <= m < |to| ==> to[m] != k
    requires forall m, n :: 0 <= m < n < |to| ==> to[m] != to[n]
    ensures var all := [k] + to; forall m, n :: 0 <= m < n < |all| ==> all[m] != all[n]
  {
  }

  lemma {:induction false} InCons(k: nat, to: seq<nat>, i: nat)
    ensures i in [k] + to <==> i == k || i in to
  {
  }

  lemma {:induction false} AllTook(ts: seq<Track>, ts1: seq<Track>, ts': seq<Track>, k: nat, to: seq<nat>,
                                   now: nat, d: Detection, rest: seq<Detection>, m: nat)
    requires Took(ts, ts', k, now, d) && |to| == |rest| && m <= |to| && |ts| <= |ts1|
    requires m > 0 ==> to[m - 1] != k && Took(ts1, ts', to[m - 1], now, rest[m - 1])
    requires OnlyAt(ts, ts1, k)
    ensures Took(ts, ts', ([k] + to)[m], now, ([d] + rest)[m])
  {
    hide Took, OnlyAt;
    if m > 0 {
      if to[m - 1] < |ts1| {
        SameAt(ts, ts1, k, to[m - 1]);
      }
      TookEarlier(ts, ts1, ts', to[m - 1], now, rest[m - 1]);
    }
  }

  /** The first box of a frame went to the trail at k, the others to these; none of them went to k again, which is
      closed. */
  lemma {:induction false} AssignFirst(ts: seq<Track>, ts1: seq<Track>, ts': seq<Track>, k: nat, to: seq<nat>,
                                       now: nat, d: Detection, rest: seq<Detection>)
    requires Took(ts, ts1, k, now, d) && Assigned(ts1, ts', to, now, rest)
    requires OnlyAt(ts, ts1, k)
    ensures Assigned(ts, ts', [k] + to, now, [d] + rest)
  {
    forall m | 0 <= m < |to| ensures to[m] != k {
      assert Took(ts1, ts', to[m], now, rest[m]);
    }
    assert k < |ts1| && k !in to;
    hide Took, OnlyAt;
    TookStays(ts, ts1, ts', k, now, d);
    ConsDistinct(k, to);
    var all, persons := [k] + to, [d] + rest;
    forall m | 0 <= m < |all| ensures Took(ts, ts', all[m], now, persons[m]) {
      assert m > 0 ==> Took(ts1, ts', to[m - 1], now, rest[m - 1]);
      AllTook(ts, ts1, ts', k, to, now, d, rest, m);
    }
    forall i | 0 <= i < |ts'| && i !in all ensures i < |ts| && ts'[i] == ts[i] {
      InCons(k, to, i);
      SameAt(ts, ts1, k, i);
    }
  }

  lemma {:induction false} FirstTook(ts: seq<Track>, id: nat, now: nat, d: Detection, score: Score)
    ensures var k, ts1 := Choose(ts, d.lt, d.rb, score), Assign(ts, id, now, d.lt, d.rb, score);
            && Took(ts, ts1, k, now, d) && |ts| <= |ts1|
            && OnlyAt(ts, ts1, k)
  {
    ChooseIsBestOpenTrail(ts, d.lt, d.rb, score);
    hide Choose, Foot;
  }

  /** Each person of a frame goes to exactly one trail, and no trail takes two. */
  lemma {:induction false} EachPersonToItsOwnTrail(ts: seq<Track>, id: nat, now: nat, dets: seq<Detection>,
                                                   score: Score)
    returns (to: seq<nat>)
    ensures Assigned(ts, AssignAll(ts, id, now, dets, score).0, to, now, Persons(dets))
    decreases |dets|
  {
    if |dets| == 0 {
      to := [];
    } else if dets[0].classId != PERSON_LABEL {
      to := EachPersonToItsOwnTrail(ts, id, now, dets[1..], score);
    } else {
      var d := dets[0];
      var k := Choose(ts, d.lt, d.rb, score);
      var ts1 := Assign(ts, id, now, d.lt, d.rb, score);
      FirstTook(ts, id, now, d, score);
      hide Choose, Assigned, Assign, Took;
      to := EachPersonToItsOwnTrail(ts1, if |ts1| > |ts| then id + 1 else id, now, dets[1..], score);
      AssignFirst(ts, ts1, AssignAll(ts, id, now, dets, score).0, k, to, now, d, Persons(dets[1..]));
      to := [k] + to;
    }
  }

  /** Ageing makes an invariant of the next frame, in which every trail is open. */
  lemma {:induction false} AgeInv(ts: seq<Track>, id: nat, now: nat)
    requires Inv(ts, id, now)
    ensures Inv(Age(ts), id, now + 1) && Open(Age(ts), now + 1)
  {
    AgeKeepsIds(ts, 0);
    forall k | 0 <= k < |Age(ts)|
      ensures WellFormed(Age(ts)[k]) && Age(ts)[k].id < id && Age(ts)[k].count <= TIME_STAMP
      ensures Age(ts)[k].seen + Age(ts)[k].count == now + 1 && Age(ts)[k].insertable && Age(ts)[k].seen < now + 1
    {
      var j := AgeAt(ts, k);
    }
  }

  lemma {:induction false} AssignInv(ts: seq<Track>, id: nat, now: nat, a: Point, b: Point, score: Score)
    requires Inv(ts, id, now) && Open(ts, now)
    ensures var ts' := Assign(ts, id, now, a, b, score);
            Inv(ts', if |ts'| > |ts| then id + 1 else id, now) && Open(ts', now)
  {
    hide Choose;
  }

  lemma {:induction false} AssignAllInv(ts: seq<Track>, id: nat, now: nat, dets: seq<Detection>, score: Score)
    requires Inv(ts, id, now) && Open(ts, now)
    ensures var (ts', id') := AssignAll(ts, id, now, dets, score);
            Inv(ts', id', now) && Open(ts', now) && id <= id'
    decreases |dets|
  {
    hide Inv, Open, Assign;
    if |dets| > 0 {
      if dets[0].classId != PERSON_LABEL {
        AssignAllInv(ts, id, now, dets[1..], score);
      } else {
        var ts1 := Assign(ts, id, now, dets[0].lt, dets[0].rb, score);
        AssignInv(ts, id, now, dets[0].lt, dets[0].rb, score);
        AssignAllInv(ts1, if |ts1| > |ts| then id + 1 else id, now, dets[1..], score);
      }
    }
  }

  /** The trail at k has an id and was last given a box in this frame. */
  predicate Is(ts: seq<Track>, k: int, id: nat, seen: nat) {
    0 <= k < |ts| && ts[k].id == id && ts[k].seen == seen
  }

  /** One frame, up to the clearing of points: a trail not yet 120 frames old is there after it, given a
      box in it or as it was; and what was not given a box in it was there before. */
  lemma {:induction false} FrameForth(ts: seq<Track>, id: nat, now: nat, dets: seq<Detection>, score: Score, k: nat)
    returns (j: nat)
    requires k < |ts| && ts[k].count < TIME_STAMP
    requires forall i, j :: 0 <= i < j < |ts| ==> ts[i].id != ts[j].id
    ensures var ts' := AssignAll(Age(ts), id, now, dets, score).0;
            Is(ts', j, ts[k].id, ts[k].seen) || Is(ts', j, ts[k].id, now)
  {
    var aged, ts' := Age(ts), AssignAll(Age(ts), id, now, dets, score).0;
    AgeKeepsIds(ts, ts[k].id);
    j :| 0 <= j < |aged| && aged[j].id == ts[k].id;
    var i := AgeAt(ts, j);
    assert i == k;
    var to := EachPersonToItsOwnTrail(aged, id, now, dets, score);
    if m :| 0 <= m < |to| && to[m] == j {
      assert Took(aged, ts', to[m], now, Persons(dets)[m]);
    }
  }

  lemma {:induction false} FrameBack(ts: seq<Track>, id: nat, now: nat, dets: seq<Detection>, score: Score, k: nat)
    returns (j: nat)
    requires var ts' := AssignAll(Age(ts), id, now, dets, score).0; k < |ts'| && ts'[k].seen != now
    ensures var ts' := AssignAll(Age(ts), id, now, dets, score).0; Is(ts, j, ts'[k].id, ts'[k].seen)
  {
    var aged, ts' := Age(ts), AssignAll(Age(ts), id, now, dets, score).0;
    var to := EachPersonToItsOwnTrail(aged, id, now, dets, score);
    forall m | 0 <= m < |to| ensures to[m] != k {
      assert Took(aged, ts', to[m], now, Persons(dets)[m]);
    }
    j := AgeAt(ts, k);
  }
}
