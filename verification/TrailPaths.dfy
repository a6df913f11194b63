/** The paths of the trails over whole runs, told from the input frames and from which person went to which
    trail: what `AlarmEngine` judges against the lines is where the person has been. */
module TrailPaths {
  import opened Options
  import opened Tracker
  import opened AlarmEngine
  import N = AlarmNames

  /** For every frame, the id of the trail that each of its persons went to. */
  type Names = seq<seq<nat>>

  /** The box that a frame gives to a trail. */
  function BoxIn(persons: seq<Detection>, names: seq<nat>, id: nat): (r: Option<Detection>)
    decreases |names|
  {
    if |names| == 0 || |persons| == 0 then None
    else if names[0] == id then Some(persons[0])
    else BoxIn(persons[1..], names[1..], id)
  }

  function BoxesIn(x: Frame, names: seq<nat>, id: nat): seq<Detection> {
    match BoxIn(Persons(x.dets), names, id)
    case None => []
    case Some(d) => [d]
  }

  /** The boxes a trail was given, in order. */
  function Boxes(xs: seq<Frame>, names: Names, id: nat): seq<Detection>
    requires |names| == |xs|
    decreases |xs|
  {
    if |xs| == 0 then []
    else
      var n := |xs| - 1;
      Boxes(xs[..n], names[..n], id) + BoxesIn(xs[n], names[n], id)
  }

  function Feet(boxes: seq<Detection>): (r: seq<Point>)
    ensures |r| == |boxes| && forall k :: 0 <= k < |boxes| ==> r[k] == Foot(boxes[k].lt, boxes[k].rb)
  {
    seq(|boxes|, k requires 0 <= k < |boxes| => Foot(boxes[k].lt, boxes[k].rb))
  }

  /** A path crosses one of the lines; graph 4 is a line, 32 a broken one. */
  predicate Crosses(path: seq<Point>, borders: seq<Border>, g: Geometry) {
    exists k :: 0 <= k < |borders| && (borders[k].graph == 4 || borders[k].graph == 32)
                && g.crosses(borders[k].graph, path, borders[k].points)
  }

  /** A path with the box that the frame gives to the trail, as it is judged against the frame's lines. */
  function Judged(before: seq<Point>, x: Frame, names: seq<nat>, id: nat): seq<Point> {
    match BoxIn(Persons(x.dets), names, id)
    case None => before
    case Some(d) => Lengthened(before, Foot(d.lt, d.rb))
  }

  /** The path after the frame: of one that crosses only its last point is left. */
  function PathAfter(before: seq<Point>, x: Frame, names: seq<nat>, id: nat, g: Geometry): seq<Point> {
    var path := Judged(before, x, names, id);
    if |path| > 0 && Crosses(path, x.borders, g) then path[|path| - 1..] else path
  }

  /** The path of a trail after all frames. */
  function Path(xs: seq<Frame>, names: Names, id: nat, g: Geometry): seq<Point>
    requires |names| == |xs|
    decreases |xs|
  {
    if |xs| == 0 then []
    else
      var n := |xs| - 1;
      PathAfter(Path(xs[..n], names[..n], id, g), xs[n], names[n], id, g)
  }

  /** The trail was given this box in frame `now`. */
  ghost predicate Given(ts: seq<Track>, id: nat, now: nat, d: Detection) {
    exists k :: 0 <= k < |ts| && ts[k].id == id && ts[k].seen == now && ts[k].lt == d.lt && ts[k].rb == d.rb
  }

  /** These are the trails that the persons of a frame went to, each to another, and no trail else was given a
      box in it. */
  ghost predicate WentTo(ts: seq<Track>, names: seq<nat>, now: nat, persons: seq<Detection>) {
    && |names| == |persons|
    && (forall m :: 0 <= m < |names| ==> Given(ts, names[m], now, persons[m]))
    && (forall m, n :: 0 <= m < n < |names| ==> names[m] != names[n])
    && (forall k :: 0 <= k < |ts| ==> (ts[k].seen == now <==> ts[k].id in names))
  }

  ghost predicate Told(xs: seq<Frame>, names: Names, g: Geometry) {
    && |names| == |xs|
    && forall i :: 0 <= i < |xs| ==> WentTo(Run(xs[..i + 1], g).trails, names[i], i + 1, Persons(xs[i].dets))
  }

  // What judging the lines does to the points

  lemma {:induction false} LinesPoints(m: Marks, t: Track, borders: seq<Border>, g: Geometry)
    requires |m.condition| > 0
    ensures CheckLines(m, t, borders, g).1 == if Crosses(t.points, borders, g) then Cleared(t) else t
    decreases |borders|
  {
    if |borders| > 0 {
      var rest := borders[1..];
      FirstOrLater(t.points, borders, g);
      if CrossesLine(t, borders[0], g) {
        LinesPoints(Cross(m), Cleared(t), rest, g);
        assert Cleared(Cleared(t)) == Cleared(t);
      } else {
        LinesPoints(m, t, rest, g);
      }
    }
  }

  lemma {:induction false} FirstOrLater(path: seq<Point>, borders: seq<Border>, g: Geometry)
    requires |borders| > 0
    ensures var b := borders[0];
            Crosses(path, borders, g)
            <==> ((b.graph == 4 || b.graph == 32) && g.crosses(b.graph, path, b.points))
                 || Crosses(path, borders[1..], g)
  {
    var rest := borders[1..];
    if k :| 0 <= k < |borders| && (borders[k].graph == 4 || borders[k].graph == 32)
            && g.crosses(borders[k].graph, path, borders[k].points) {
      if k > 0 {
        assert rest[k - 1] == borders[k];
      }
    }
    if k :| 0 <= k < |rest| && (rest[k].graph == 4 || rest[k].graph == 32)
            && g.crosses(rest[k].graph, path, rest[k].points) {
      assert borders[k + 1] == rest[k];
    }
  }

  lemma {:induction false} TrailsPoints(m: Marks, ts: seq<Track>, borders: seq<Border>, g: Geometry, k: nat)
    requires |m.condition| > 0 && k < |ts|
    ensures CheckTrails(m, ts, borders, g).1[k] == if Crosses(ts[k].points, borders, g) then Cleared(ts[k]) else ts[k]
    decreases |ts|
  {
    hide CheckLines, Crosses, Cleared;
    LinesPoints(m, ts[0], borders, g);
    if k > 0 {
      TrailsPoints(CheckLines(m, ts[0], borders, g).0, ts[1..], borders, g, k - 1);
    }
  }

  lemma {:induction false} StepPoints(st: State, x: Frame, g: Geometry, k: nat)
    requires Sized(st) && k < |Followed(st, x, g).0|
    ensures var t := Followed(st, x, g).0[k];
            && |Step(st, x, g).trails| == |Followed(st, x, g).0|
            && Step(st, x, g).trails[k] == if Crosses(t.points, x.borders, g) then Cleared(t) else t
  {
    hide CheckPersons, CheckTrails, AssignAll, Crosses, Cleared, Push;
    var m1 := CheckPersons(st.marks.(condition := Push(st.marks.condition, 0)), x.dets, x.borders, g);
    TrailsPoints(m1, Followed(st, x, g).0, x.borders, g, k);
  }

  // One frame

  lemma {:induction false} AssignIds(ts: seq<Track>, id: nat, now: nat, dets: seq<Detection>, score: Score)
    ensures var (ts', id') := AssignAll(ts, id, now, dets, score);
            && id <= id' && |ts| <= |ts'| && (forall k :: 0 <= k < |ts| ==> ts'[k].id == ts[k].id)
            && (forall k :: |ts| <= k < |ts'| ==> id <= ts'[k].id < id')
    decreases |dets|
  {
    if |dets| > 0 {
      if dets[0].classId != PERSON_LABEL {
        AssignIds(ts, id, now, dets[1..], score);
      } else {
        var ts1 := Assign(ts, id, now, dets[0].lt, dets[0].rb, score);
        hide Choose;
        AssignIds(ts1, if |ts1| > |ts| then id + 1 else id, now, dets[1..], score);
      }
    }
  }

  lemma {:induction false} BoxOf(persons: seq<Detection>, names: seq<nat>, m: nat)
    requires m < |names| == |persons| && forall j, k :: 0 <= j < k < |names| ==> names[j] != names[k]
    ensures BoxIn(persons, names, names[m]) == Some(persons[m])
    decreases |names|
  {
    if m > 0 {
      BoxOf(persons[1..], names[1..], m - 1);
    }
  }

  lemma {:induction false} NoBoxOf(persons: seq<Detection>, names: seq<nat>, id: nat)
    requires id !in names
    ensures BoxIn(persons, names, id) == None
    decreases |names|
  {
    if |names| > 0 && |persons| > 0 {
      NoBoxOf(persons[1..], names[1..], id);
    }
  }

  /** The path before a frame, of a trail that is there when its boxes have been given: what it was if it was
      there before, and nothing if it is new. */
  ghost predicate Before(aged: seq<Track>, ts: seq<Track>, before: nat -> seq<Point>) {
    && |aged| <= |ts|
    && forall k :: 0 <= k < |ts| ==> before(ts[k].id) == if k < |aged| then aged[k].points else []
  }

  function NamesOf(ts: seq<Track>, to: seq<nat>): (r: seq<nat>)
    requires forall m :: 0 <= m < |to| ==> to[m] < |ts|
    ensures |r| == |to| && forall m :: 0 <= m < |to| ==> r[m] == ts[to[m]].id
  {
    seq(|to|, m requires 0 <= m < |to| => ts[to[m]].id)
  }

  lemma {:induction false} InRange(aged: seq<Track>, ts: seq<Track>, to: seq<nat>, now: nat, persons: seq<Detection>)
    requires Assigned(aged, ts, to, now, persons)
    ensures forall m :: 0 <= m < |to| ==> to[m] < |ts|
  {
    forall m | 0 <= m < |to| ensures to[m] < |ts| {
      assert Took(aged, ts, to[m], now, persons[m]);
    }
  }

  /** The names of a frame's persons, from the trails they went to. */
  lemma {:induction false} NamesWentTo(aged: seq<Track>, ts: seq<Track>, to: seq<nat>, now: nat,
                                       persons: seq<Detection>)
    requires Assigned(aged, ts, to, now, persons)
    requires forall j, k :: 0 <= j < k < |ts| ==> ts[j].id != ts[k].id
    requires forall k :: 0 <= k < |aged| ==> aged[k].seen < now
    ensures forall m :: 0 <= m < |to| ==> to[m] < |ts|
    ensures WentTo(ts, NamesOf(ts, to), now, persons)
    ensures forall k :: 0 <= k < |ts| ==> (k in to <==> ts[k].id in NamesOf(ts, to))
  {
    InRange(aged, ts, to, now, persons);
    var names := NamesOf(ts, to);
    forall m | 0 <= m < |names| ensures Given(ts, names[m], now, persons[m]) && ts[to[m]].seen == now {
      assert Took(aged, ts, to[m], now, persons[m]);
      assert ts[to[m]].id == names[m];
    }
    forall k | 0 <= k < |ts|
      ensures (k in to <==> ts[k].id in names) && (ts[k].seen == now <==> ts[k].id in names)
    {
      if k in to {
        var m :| 0 <= m < |to| && to[m] == k;
        assert names[m] == ts[k].id;
      }
    }
  }

  /** With the box it was given, the path is the trail's points. */
  lemma {:induction false} PointsJudged(aged: seq<Track>, ts: seq<Track>, to: seq<nat>, now: nat, x: Frame,
                                        before: nat -> seq<Point>, k: nat)
    requires Assigned(aged, ts, to, now, Persons(x.dets)) && Before(aged, ts, before) && k < |ts|
    requires forall j, k :: 0 <= j < k < |ts| ==> ts[j].id != ts[k].id
    requires forall k :: 0 <= k < |aged| ==> aged[k].seen < now
    ensures forall m :: 0 <= m < |to| ==> to[m] < |ts|
    ensures ts[k].points == Judged(before(ts[k].id), x, NamesOf(ts, to), ts[k].id)
  {
    var persons := Persons(x.dets);
    NamesWentTo(aged, ts, to, now, persons);
    var names := NamesOf(ts, to);
    hide WentTo, Lengthened, Foot;
    if k in to {
      var m :| 0 <= m < |to| && to[m] == k;
      BoxOf(persons, names, m);
      assert Took(aged, ts, to[m], now, persons[m]);
    } else {
      NoBoxOf(persons, names, ts[k].id);
    }
  }

  /** The trails' points are their paths, and no path has a name that is still to come. */
  ghost predicate Kept(st: State, path: nat -> seq<Point>) {
    && (forall k :: 0 <= k < |st.trails| ==> st.trails[k].points == path(st.trails[k].id))
    && (forall id :: id >= st.nextId ==> path(id) == [])
  }

  lemma {:induction false} KeptBefore(st: State, x: Frame, g: Geometry, before: nat -> seq<Point>)
    requires Inv(st.trails, st.nextId, st.now) && Kept(st, before)
    ensures Before(Age(st.trails), Followed(st, x, g).0, before)
    ensures forall k :: 0 <= k < |Age(st.trails)| ==> Age(st.trails)[k].seen < st.now + 1
  {
    var aged, ts := Age(st.trails), Followed(st, x, g).0;
    AssignIds(aged, st.nextId, st.now + 1, x.dets, g.score);
    forall k | 0 <= k < |aged| ensures before(aged[k].id) == aged[k].points && aged[k].seen < st.now + 1 {
      var j := AgeAt(st.trails, k);
    }
  }

  /** A trail's points after a frame, from what its path was before. */
  lemma {:induction false} PointsAfter(st: State, x: Frame, g: Geometry, before: nat -> seq<Point>, names: seq<nat>,
                                       k: nat)
    requires Sized(st) && k < |Followed(st, x, g).0|
    requires var t := Followed(st, x, g).0[k]; WellFormed(t) && t.points == Judged(before(t.id), x, names, t.id)
    ensures k < |Step(st, x, g).trails|
    ensures var t := Step(st, x, g).trails[k]; t.points == PathAfter(before(t.id), x, names, t.id, g)
  {
    hide Step, Followed, Judged, Crosses;
    StepPoints(st, x, g, k);
  }

  lemma {:induction false} NamesBelow(ts: seq<Track>, id: nat, now: nat, to: seq<nat>)
    requires Inv(ts, id, now) && forall m :: 0 <= m < |to| ==> to[m] < |ts|
    ensures forall m :: m in NamesOf(ts, to) ==> m < id
    ensures forall j, k :: 0 <= j < k < |ts| ==> ts[j].id != ts[k].id
  {
  }

  lemma {:induction false} PersonsTold(aged: seq<Track>, ts: seq<Track>, id: nat, now: nat, to: seq<nat>, x: Frame,
                                       before: nat -> seq<Point>)
    returns (names: seq<nat>)
    requires Assigned(aged, ts, to, now, Persons(x.dets)) && Before(aged, ts, before) && Inv(ts, id, now)
    requires forall k :: 0 <= k < |aged| ==> aged[k].seen < now
    ensures WentTo(ts, names, now, Persons(x.dets)) && forall m :: m in names ==> m < id
    ensures forall k :: 0 <= k < |ts| ==> ts[k].points == Judged(before(ts[k].id), x, names, ts[k].id)
  {
    hide Assigned, WentTo, Judged, Before, Inv;
    InRange(aged, ts, to, now, Persons(x.dets));
    NamesBelow(ts, id, now, to);
    NamesWentTo(aged, ts, to, now, Persons(x.dets));
    names := NamesOf(ts, to);
    forall k | 0 <= k < |ts| ensures ts[k].points == Judged(before(ts[k].id), x, names, ts[k].id) {
      PointsJudged(aged, ts, to, now, x, before, k);
    }
  }

  lemma {:induction false} FrameTold(st: State, x: Frame, g: Geometry, before: nat -> seq<Point>)
    returns (names: seq<nat>)
    requires Inv(st.trails, st.nextId, st.now) && Kept(st, before)
    ensures var (ts, id) := Followed(st, x, g);
            && Inv(ts, id, st.now + 1) && st.nextId <= id && WentTo(ts, names, st.now + 1, Persons(x.dets))
            && (forall k :: 0 <= k < |ts| ==> ts[k].points == Judged(before(ts[k].id), x, names, ts[k].id))
            && (forall m :: m in names ==> m < id)
  {
    hide Age, AssignAll, Assigned, WentTo, Judged, Before, Persons, Kept, Inv;
    var (ts, id) := Followed(st, x, g);
    var to := EachPersonToItsOwnTrail(Age(st.trails), st.nextId, st.now + 1, x.dets, g.score);
    FollowedInv(st, x, g);
    KeptBefore(st, x, g, before);
    AssignIds(Age(st.trails), st.nextId, st.now + 1, x.dets, g.score);
    names := PersonsTold(Age(st.trails), ts, id, st.now + 1, to, x, before);
  }

  lemma {:induction false} WentToSame(ts: seq<Track>, ts': seq<Track>, names: seq<nat>, now: nat,
                                      persons: seq<Detection>)
    requires WentTo(ts, names, now, persons) && AllSame(ts, ts')
    ensures WentTo(ts', names, now, persons)
  {
    forall k | 0 <= k < |ts|
      ensures ts'[k].id == ts[k].id && ts'[k].seen == ts[k].seen && ts'[k].lt == ts[k].lt && ts'[k].rb == ts[k].rb
    {
      assert Same(ts[k], ts'[k]);
    }
    forall m | 0 <= m < |names| ensures Given(ts', names[m], now, persons[m]) {
      assert Given(ts, names[m], now, persons[m]);
      var k :| 0 <= k < |ts| && ts[k].id == names[m] && ts[k].seen == now && ts[k].lt == persons[m].lt
               && ts[k].rb == persons[m].rb;
      assert ts'[k].id == names[m];
    }
  }

  // Whole runs

  function PathsOf(xs: seq<Frame>, names: Names, g: Geometry): nat -> seq<Point>
    requires |names| == |xs|
  {
    (id: nat) => Path(xs, names, id, g)
  }

  lemma {:induction false} ToldMore(xs: seq<Frame>, x: Frame, names: Names, more: seq<nat>, g: Geometry)
    requires Told(xs, names, g) && WentTo(Run(xs + [x], g).trails, more, |xs| + 1, Persons(x.dets))
    ensures Told(xs + [x], names + [more], g)
  {
    hide Run, WentTo;
    var ys, all := xs + [x], names + [more];
    forall i | 0 <= i < |ys| ensures WentTo(Run(ys[..i + 1], g).trails, all[i], i + 1, Persons(ys[i].dets)) {
      if i < |xs| {
        assert ys[..i + 1] == xs[..i + 1];
      } else {
        assert ys[..i + 1] == ys;
      }
    }
  }

  lemma {:induction false} PathMore(xs: seq<Frame>, x: Frame, names: Names, more: seq<nat>, id: nat, g: Geometry)
    requires |names| == |xs|
    ensures Path(xs + [x], names + [more], id, g) == PathAfter(Path(xs, names, id, g), x, more, id, g)
  {
    hide PathAfter;
    assert (xs + [x])[..|xs|] == xs && (names + [more])[..|xs|] == names;
  }

  lemma {:induction false} KeptMore(xs: seq<Frame>, x: Frame, names: Names, more: seq<nat>, g: Geometry)
    requires |names| == |xs| && Kept(Run(xs, g), PathsOf(xs, names, g)) && Run(xs + [x], g) == Step(Run(xs, g), x, g)
    requires var (ts, id) := Followed(Run(xs, g), x, g);
             && Inv(ts, id, |xs| + 1) && Run(xs, g).nextId <= id == Run(xs + [x], g).nextId
             && (forall k :: 0 <= k < |ts| ==>
                   ts[k].points == Judged(PathsOf(xs, names, g)(ts[k].id), x, more, ts[k].id))
             && (forall m :: m in more ==> m < id) && |ts| == |Run(xs + [x], g).trails|
    ensures Kept(Run(xs + [x], g), PathsOf(xs + [x], names + [more], g))
  {
    hide Run, Step, Followed, PathAfter, Path, Judged;
    var st, st', before := Run(xs, g), Run(xs + [x], g), PathsOf(xs, names, g);
    var after := PathsOf(xs + [x], names + [more], g);
    forall k | 0 <= k < |st'.trails| ensures st'.trails[k].points == after(st'.trails[k].id) {
      PointsAfter(st, x, g, before, more, k);
      PathMore(xs, x, names, more, st'.trails[k].id, g);
    }
    forall id: nat | id >= st'.nextId ensures after(id) == [] {
      PathMore(xs, x, names, more, id, g);
      assert before(id) == [];
      NoPath(x, more, id, g);
    }
  }

  lemma {:induction false} NoPath(x: Frame, names: seq<nat>, id: nat, g: Geometry)
    requires id !in names
    ensures PathAfter([], x, names, id, g) == []
  {
    NoBoxOf(Persons(x.dets), names, id);
  }

  /** In the i-th frame the path of some trail crosses a line of the frame. */
  ghost predicate PathCrosses(xs: seq<Frame>, names: Names, i: nat, g: Geometry)
    requires i < |xs| == |names|
  {
    exists t :: t in Run(xs[..i + 1], g).trails && CrossesIn(xs, names, i, t.id, g)
  }

  ghost predicate CrossesIn(xs: seq<Frame>, names: Names, i: nat, id: nat, g: Geometry)
    requires i < |xs| == |names|
  {
    Crosses(Judged(Path(xs[..i], names[..i], id, g), xs[i], names[i], id), xs[i].borders, g)
  }

  lemma {:induction false} SameCrossing(xs: seq<Frame>, x: Frame, names: Names, more: seq<nat>, i: nat, g: Geometry)
    requires i < |xs| == |names|
    ensures PathCrosses(xs + [x], names + [more], i, g) <==> PathCrosses(xs, names, i, g)
  {
    hide Run, Judged, Crosses, Path;
    var ys, all := xs + [x], names + [more];
    assert ys[..i + 1] == xs[..i + 1] && ys[..i] == xs[..i] && all[..i] == names[..i];
    assert ys[i] == xs[i] && all[i] == names[i];
  }

  /** The last frame is marked as one with a crossing exactly when a path crosses. */
  lemma {:induction false} LastCrossing(xs: seq<Frame>, x: Frame, names: Names, more: seq<nat>, g: Geometry)
    requires |names| == |xs| && |Run(xs + [x], g).trails| == |Followed(Run(xs, g), x, g).0|
    requires var ts := Followed(Run(xs, g), x, g).0;
             forall k :: 0 <= k < |ts| ==> ts[k].id == Run(xs + [x], g).trails[k].id
                                           && ts[k].points == Judged(Path(xs, names, ts[k].id, g), x, more, ts[k].id)
    ensures MarkOf(xs + [x], |xs|, g) == 2 <==> PathCrosses(xs + [x], names + [more], |xs|, g)
  {
    hide Run, Judged, Path, Followed, MarkOf, N.HitsUpTo, N.NoneSampled;
    var n, ys, all := |xs|, xs + [x], names + [more];
    assert ys[..n] == xs && ys[..n + 1] == ys && all[..n] == names && ys[n] == x && all[n] == more;
    N.MarkIs(ys, n, g);
    var ts := Followed(Run(xs, g), x, g).0;
    assert N.FrameCrosses(ys, n, g) <==> N.SomeCrosses(ts, x.borders, g);
    var ts' := Run(ys[..n + 1], g).trails;
    if j, k :| 0 <= j < |ts| && 0 <= k < |x.borders| && CrossesLine(ts[j], x.borders[k], g) {
      assert ts'[j] in ts' && CrossesIn(ys, all, n, ts'[j].id, g);
    }
    if t :| t in ts' && CrossesIn(ys, all, n, t.id, g) {
      var j :| 0 <= j < |ts'| && ts'[j] == t;
      var k :| 0 <= k < |x.borders| && (x.borders[k].graph == 4 || x.borders[k].graph == 32)
               && g.crosses(x.borders[k].graph, ts[j].points, x.borders[k].points);
      assert CrossesLine(ts[j], x.borders[k], g);
    }
  }

  ghost predicate CrossingsTold(xs: seq<Frame>, names: Names, g: Geometry)
    requires |names| == |xs|
  {
    forall i :: 0 <= i < |xs| ==> (MarkOf(xs, i, g) == 2 <==> PathCrosses(xs, names, i, g))
  }

  lemma {:induction false} CrossingsMore(xs: seq<Frame>, x: Frame, names: Names, more: seq<nat>, g: Geometry)
    requires |names| == |xs| && CrossingsTold(xs, names, g)
    requires |Run(xs + [x], g).trails| == |Followed(Run(xs, g), x, g).0|
    requires AllSame(Followed(Run(xs, g), x, g).0, Run(xs + [x], g).trails)
    requires var ts := Followed(Run(xs, g), x, g).0;
             forall k :: 0 <= k < |ts| ==>
               ts[k].points == Judged(PathsOf(xs, names, g)(ts[k].id), x, more, ts[k].id)
    ensures CrossingsTold(xs + [x], names + [more], g)
  {
    hide Run, Judged, Path, Followed, MarkOf, PathCrosses, Same;
    RunSnoc(xs, x, g);
    var ts, ts', ys, all := Followed(Run(xs, g), x, g).0, Run(xs + [x], g).trails, xs + [x], names + [more];
    forall k | 0 <= k < |ts| ensures ts[k].id == ts'[k].id {
      SameId(ts[k], ts'[k]);
    }
    LastCrossing(xs, x, names, more, g);
    forall i | 0 <= i < |ys| ensures MarkOf(ys, i, g) == 2 <==> PathCrosses(ys, all, i, g) {
      if i < |xs| {
        SameCrossing(xs, x, names, more, i, g);
      }
    }
  }

  lemma {:induction false} SameId(t: Track, t': Track)
    requires Same(t, t')
    ensures t'.id == t.id
  {
  }

  lemma {:induction false} RunTold(xs: seq<Frame>, g: Geometry) returns (names: Names)
    ensures Told(xs, names, g) && Kept(Run(xs, g), PathsOf(xs, names, g)) && CrossingsTold(xs, names, g)
    decreases |xs|
  {
    if |xs| == 0 {
      names := [];
    } else {
      var init, x := xs[..|xs| - 1], xs[|xs| - 1];
      assert init + [x] == xs;
      var before := RunTold(init, g);
      RunSnoc(init, x, g);
      RunCounted(init, g);
      TrailsStayWellFormed(init, g);
      hide Run, Step, Followed, WentTo, Judged, Told, Kept, Counted, AllSame, CrossingsTold;
      var st := Run(init, g);
      StepTrails(st, x, g);
      var more := FrameTold(st, x, g, PathsOf(init, before, g));
      SameLength(Followed(st, x, g).0, Step(st, x, g).trails);
      WentToSame(Followed(st, x, g).0, Step(st, x, g).trails, more, |xs|, Persons(x.dets));
      names := before + [more];
      ToldMore(init, x, before, more, g);
      ToldSize(init, before, g);
      KeptMore(init, x, before, more, g);
      CrossingsMore(init, x, before, more, g);
    }
  }

  lemma {:induction false} SameLength(ts: seq<Track>, ts': seq<Track>)
    requires AllSame(ts, ts')
    ensures |ts| == |ts'|
  {
  }

  lemma {:induction false} ToldSize(xs: seq<Frame>, names: Names, g: Geometry)
    requires Told(xs, names, g)
    ensures |names| == |xs|
  {
  }

  /** Over every run there are names of the trails that each frame's persons went to, for which: after the run the
      points of each trail are its path, told from the frames and these names alone; and a frame is marked as one
      with a crossing if and only if in it the path of a trail crosses a line. */
  lemma {:induction false} PointsAreThePath(xs: seq<Frame>, g: Geometry) returns (names: Names)
    ensures Told(xs, names, g)
    ensures forall k :: 0 <= k < |Run(xs, g).trails| ==>
              Run(xs, g).trails[k].points == Path(xs, names, Run(xs, g).trails[k].id, g)
    ensures forall i :: 0 <= i < |xs| ==> (MarkOf(xs, i, g) == 2 <==> PathCrosses(xs, names, i, g))
  {
    names := RunTold(xs, g);
    assert Kept(Run(xs, g), PathsOf(xs, names, g)) && CrossingsTold(xs, names, g);
    hide Run, Path, Told, PathCrosses, MarkOf;
  }

  // What a path is

  ghost predicate EndOf(path: seq<Point>, feet: seq<Point>) {
    |path| <= |feet| && path == feet[|feet| - |path|..]
  }

  lemma {:induction false} EndGrows(path: seq<Point>, feet: seq<Point>, p: Point)
    requires EndOf(path, feet)
    ensures EndOf(Lengthened(path, p), feet + [p])
    ensures |path| <= 60 ==> 0 < |Lengthened(path, p)| <= 60
  {
  }

  lemma {:induction false} EndOfEnd(path: seq<Point>, feet: seq<Point>)
    requires EndOf(path, feet) && |path| > 0
    ensures EndOf(path[|path| - 1..], feet)
  {
  }

  lemma {:induction false} FeetGrow(boxes: seq<Detection>, d: Detection)
    ensures Feet(boxes + [d]) == Feet(boxes) + [Foot(d.lt, d.rb)] && boxes + [] == boxes
  {
  }

  lemma {:induction false} EndJudged(before: seq<Point>, boxes: seq<Detection>, x: Frame, names: seq<nat>, id: nat)
    requires EndOf(before, Feet(boxes)) && |before| <= 60 && (|boxes| > 0 ==> |before| > 0)
    ensures var path, boxes' := Judged(before, x, names, id), boxes + BoxesIn(x, names, id);
            EndOf(path, Feet(boxes')) && |path| <= 60 && (|boxes'| > 0 ==> |path| > 0)
  {
    hide BoxIn, Persons, Foot, EndOf, Feet, Lengthened;
    match BoxIn(Persons(x.dets), names, id)
    case None => assert boxes + [] == boxes;
    case Some(d) =>
      EndGrows(before, Feet(boxes), Foot(d.lt, d.rb));
      FeetGrow(boxes, d);
  }

  lemma {:induction false} EndMoves(before: seq<Point>, boxes: seq<Detection>, x: Frame, names: seq<nat>, id: nat,
                                    g: Geometry)
    requires EndOf(before, Feet(boxes)) && |before| <= 60 && (|boxes| > 0 ==> |before| > 0)
    ensures var path, boxes' := PathAfter(before, x, names, id, g), boxes + BoxesIn(x, names, id);
            EndOf(path, Feet(boxes')) && |path| <= 60 && (|boxes'| > 0 ==> |path| > 0)
  {
    hide Judged, BoxesIn, Feet, EndOf, Crosses;
    EndJudged(before, boxes, x, names, id);
    var judged := Judged(before, x, names, id);
    if |judged| > 0 {
      EndOfEnd(judged, Feet(boxes + BoxesIn(x, names, id)));
    }
  }

  /** A path is the feet of the last boxes of its trail, in order: of one at least, if it was given any, and of
      sixty at most. */
  lemma {:induction false} PathIsOfTheLastFeet(xs: seq<Frame>, names: Names, id: nat, g: Geometry)
    requires |names| == |xs|
    ensures var path, boxes := Path(xs, names, id, g), Boxes(xs, names, id);
            EndOf(path, Feet(boxes)) && |path| <= 60 && (|boxes| > 0 ==> |path| > 0)
    decreases |xs|
  {
    hide BoxesIn, PathAfter, Feet;
    if |xs| > 0 {
      hide EndOf;
      var n := |xs| - 1;
      PathIsOfTheLastFeet(xs[..n], names[..n], id, g);
      EndMoves(Path(xs[..n], names[..n], id, g), Boxes(xs[..n], names[..n], id), xs[n], names[n], id, g);
    }
  }

  /** The boxes since the trail began, or since its path last crossed, the one it had then among them. */
  function Counted(xs: seq<Frame>, names: Names, id: nat, g: Geometry): nat
    requires |names| == |xs|
    decreases |xs|
  {
    if |xs| == 0 then 0
    else
      var n := |xs| - 1;
      var count := Counted(xs[..n], names[..n], id, g) + |BoxesIn(xs[n], names[n], id)|;
      var judged := Judged(Path(xs[..n], names[..n], id, g), xs[n], names[n], id);
      if count > 0 && Crosses(judged, xs[n].borders, g) then 1 else count
  }

  /** Of so many boxes: all up to sixty, and with each sixty and one the first anew. */
  function Left(count: nat): nat {
    if count == 0 then 0 else (count - 1) % 60 + 1
  }

  lemma {:induction false} LeftMoves(path: seq<Point>, p: Point, count: nat)
    requires |path| == Left(count)
    ensures |Lengthened(path, p)| == Left(count + 1)
  {
  }

  lemma {:induction false} CountMoves(before: seq<Point>, x: Frame, names: seq<nat>, id: nat, g: Geometry, count: nat)
    requires |before| == Left(count)
    ensures var path, judged := PathAfter(before, x, names, id, g), Judged(before, x, names, id);
            var count' := count + |BoxesIn(x, names, id)|;
            |path| == Left(if count' > 0 && Crosses(judged, x.borders, g) then 1 else count')
  {
    hide BoxIn, Persons, Crosses, Foot, Lengthened;
    match BoxIn(Persons(x.dets), names, id)
    case None =>
    case Some(d) => LeftMoves(before, Foot(d.lt, d.rb), count);
  }

  lemma {:induction false} PathLength(xs: seq<Frame>, names: Names, id: nat, g: Geometry)
    requires |names| == |xs|
    ensures |Path(xs, names, id, g)| == Left(Counted(xs, names, id, g))
    decreases |xs|
  {
    if |xs| > 0 {
      hide PathAfter, Judged, BoxesIn, Crosses, Left;
      var n := |xs| - 1;
      PathLength(xs[..n], names[..n], id, g);
      CountMoves(Path(xs[..n], names[..n], id, g), xs[n], names[n], id, g, Counted(xs[..n], names[..n], id, g));
    } else {
    }
  }

  /** A path is the feet of just these boxes, in order. */
  lemma {:induction false} PathIsExactly(xs: seq<Frame>, names: Names, id: nat, g: Geometry)
    requires |names| == |xs|
    ensures var feet, left := Feet(Boxes(xs, names, id)), Left(Counted(xs, names, id, g));
            left <= |feet| && Path(xs, names, id, g) == feet[|feet| - left..]
  {
    PathLength(xs, names, id, g);
    PathIsOfTheLastFeet(xs, names, id, g);
    hide Path, Boxes, Counted, Left, Feet;
  }

  /** A trail whose path crosses in the last frame is left with one point, the foot of its box. */
  lemma {:induction false} OnePointIsLeft(xs: seq<Frame>, names: Names, k: nat, g: Geometry)
    requires |names| == |xs| > 0 && k < |Run(xs, g).trails|
    requires var t := Run(xs, g).trails[k];
             t.points == Path(xs, names, t.id, g) && CrossesIn(xs, names, |xs| - 1, t.id, g)
    ensures var t := Run(xs, g).trails[k]; t.points == [Foot(t.lt, t.rb)]
  {
    TrailsStayWellFormed(xs, g);
    hide Run, Judged, Crosses;
    assert WellFormed(Run(xs, g).trails[k]);
  }
}
