/** The alarm engine's objects: `Trail`, and `ProcessResult` with its loops, proved to do what one step of
    `AlarmEngine` does. Files are taken to be written. */
module DstEngineObjects {
  import opened AlarmEngine
  import T = Tracker

  class Trail {
    var count: nat
    var insertable: bool
    var lt: T.Point
    var rb: T.Point
    var points: seq<T.Point>
    ghost var id: nat
    ghost var seen: nat

    constructor (a: T.Point, b: T.Point, ghost id: nat, ghost now: nat)
      ensures View() == T.New(id, now, a, b)
    {
      lt, rb, count, insertable := a, b, 0, false;
      points := [T.Foot(a, b)];
      this.id, seen := id, now;
    }

    ghost function View(): T.Track
      reads this
    {
      T.Track(id, seen, count, insertable, lt, rb, points)
    }

    method CheckStates() returns (ok: bool)
      ensures ok <==> View().count < T.TIME_STAMP
    {
      ok := count < T.TIME_STAMP;
    }

    method Clear()
      modifies this
      ensures View() == T.Cleared(old(View()))
    {
      points := [];
      points := points + [T.Foot(lt, rb)];
    }

    method Insert(a: T.Point, b: T.Point, ghost now: nat)
      modifies this
      ensures View() == T.Inserted(old(View()), now, a, b)
    {
      points := points + [T.Foot(a, b)];
      UpdateStatesInsert(a, b);
      seen := now;
    }

    method UpdateStatesInsert(a: T.Point, b: T.Point)
      modifies this
      ensures count == 0 && lt == a && rb == b && !insertable && id == old(id)
      ensures points == if |old(points)| > T.MUCH then [T.Foot(a, b)] else old(points)
    {
      count := 0;
      lt, rb := a, b;
      insertable := false;
      if |points| > T.MUCH {
        points := [];
        points := points + [T.Foot(lt, rb)];
      }
    }

    method UpdateStatesCommon()
      modifies this
      ensures View() == old(View()).(count := old(count) + 1, insertable := true)
    {
      count := count + 1;
      insertable := true;
    }
  }

  ghost function Views(ts: seq<Trail>): (r: seq<T.Track>)
    reads ts
    ensures |r| == |ts| && forall k :: 0 <= k < |ts| ==> r[k] == ts[k].View()
  {
    seq(|ts|, k requires 0 <= k < |ts| reads ts => ts[k].View())
  }

  ghost predicate Distinct(ts: seq<Trail>) {
    forall j, k :: 0 <= j < k < |ts| ==> ts[j] != ts[k]
  }

  /** A step, from what its two phases give; SAMPLE_N is 1, so every frame is checked for crossings. */
  lemma {:induction false} StepIs(st: State, x: Frame, g: Geometry, m1: Marks, ts1: seq<T.Track>, id1: nat,
                                  m2: Marks, ts2: seq<T.Track>)
    requires Sized(st) && |m1.condition| > 0
    requires m1 == CheckPersons(st.marks.(condition := Push(st.marks.condition, 0)), x.dets, x.borders, g)
    requires (ts1, id1) == T.AssignAll(T.Age(st.trails), st.nextId, st.now + 1, x.dets, g.score)
    requires (m2, ts2) == CheckTrails(m1, ts1, x.borders, g)
    ensures var videos := Push(st.videos, x);
            Step(st, x, g) == State((st.frameId + 1) % UINT32, st.now + 1, videos, m2, ts2, id1,
                                    st.films + Save(m1, videos, 1, m1.name1) + Save(m2, videos, 2, m2.name2))
  {
    hide CheckPersons, CheckTrails, T.AssignAll, T.Age, Push;
  }

  class DstEngine {
    const geometry: Geometry
    var frameId: nat
    var videos: seq<Frame>
    var condition: seq<int>
    var alarmFlag: nat
    var videoId: int
    var videoname1: int
    var videoname2: int
    var trails: seq<Trail>
    /** What was reported and saved. */
    var reports: seq<Report>
    var films: seq<Film>
    ghost var hits: nat
    ghost var now: nat
    ghost var nextId: nat

    ghost function Marking(): Marks
      reads this
    {
      Marks(condition, hits, alarmFlag, videoId, videoname1, videoname2, reports)
    }

    ghost function View(): State
      reads this, trails
    {
      State(frameId, now, videos, Marking(), Views(trails), nextId, films)
    }

    constructor (geometry: Geometry)
      ensures View() == INIT && trails == [] && this.geometry == geometry
    {
      this.geometry := geometry;
      frameId, videos, condition, alarmFlag, videoId, videoname1, videoname2 := 0, [], [], 0, 1, 0, 0;
      trails, reports, films, hits, now, nextId := [], [], [], 0, 0, 0;
    }

    method PushFrame(x: Frame)
      requires |videos| == |condition| <= WINDOW
      modifies `videos, `condition
      ensures videos == Push(old(videos), x) && condition == Push(old(condition), 0)
    {
      videos := videos + [x];
      condition := condition + [0];
      if |videos| > FRAME_RATE * SAVE_TIME * 2 {
        videos := videos[1..];
        condition := condition[1..];
      }
    }

    /** The ageing loop is at i, after j of the trails there were: those kept so far have aged, the rest
        are as they were. */
    ghost predicate Aging(i: nat, j: nat, was: seq<Trail>, views: seq<T.Track>, aged: seq<T.Track>)
      reads `trails, trails
    {
      && i <= |trails| && j <= |was| == |views| && |trails| - i == |was| - j && |aged| == i
      && Distinct(trails) && (forall k :: i <= k < |trails| ==> trails[k] == was[k - i + j])
      && (forall k :: 0 <= k < |trails| ==> trails[k] in was)
      && (forall k :: 0 <= k < i ==> trails[k].View() == aged[k])
      && (forall k :: i <= k < |trails| ==> trails[k].View() == views[k - i + j])
    }

    method KeepTrail(i: nat, ghost j: nat, ghost was: seq<Trail>, ghost views: seq<T.Track>, ghost aged: seq<T.Track>)
      returns (ghost aged': seq<T.Track>)
      requires Aging(i, j, was, views, aged) && i < |trails|
      modifies trails[i]
      ensures aged' == aged + [views[j].(count := views[j].count + 1, insertable := true)]
      ensures Aging(i + 1, j + 1, was, views, aged')
    {
      trails[i].UpdateStatesCommon();
      aged' := aged + [trails[i].View()];
    }

    method EraseTrail(i: nat, ghost j: nat, ghost was: seq<Trail>, ghost views: seq<T.Track>, ghost aged: seq<T.Track>)
      requires Aging(i, j, was, views, aged) && i < |trails|
      modifies `trails
      ensures |trails| == old(|trails|) - 1 && Aging(i, j + 1, was, views, aged)
    {
      trails := trails[..i] + trails[i + 1..];
    }

    method AgeLoop(ghost was: seq<Trail>, ghost views: seq<T.Track>)
      requires Aging(0, 0, was, views, []) && was == trails
      modifies `trails, trails
      ensures Aging(|trails|, |was|, was, views, T.Age(views))
    {
      hide *;
      ghost var aged: seq<T.Track>, j := [], 0;
      var i := 0;
      assert views[j..] == views && aged + T.Age(views) == T.Age(views);
      while i < |trails|
        invariant j <= |views| && Aging(i, j, was, views, aged)
        invariant aged + T.Age(views[j..]) == T.Age(views)
        decreases |trails| - i
      {
        AgingNext(i, j, was, views, aged);
        AgeFirst(views, j, aged);
        var ok := trails[i].CheckStates();
        if ok {
          aged := KeepTrail(i, j, was, views, aged);
          i := i + 1;
        } else {
          EraseTrail(i, j, was, views, aged);
        }
        j := j + 1;
      }
      AgingDone(i, j, was, views, aged);
      NoneToAge();
    }

    /** Drops the trails out of time, and ages and opens the others. */
    method AgeTrails()
      requires Distinct(trails)
      modifies `trails, trails
      ensures Distinct(trails) && Views(trails) == T.Age(old(Views(trails)))
      ensures forall t <- trails :: t in old(trails)
    {
      AgeLoop(trails, Views(trails));
    }

    lemma {:induction false} AgingNext(i: nat, j: nat, was: seq<Trail>, views: seq<T.Track>, aged: seq<T.Track>)
      requires Aging(i, j, was, views, aged) && i < |trails|
      ensures j < |views| && trails[i].View() == views[j] && trails[i] in was
    {
    }

    lemma {:induction false} AgingDone(i: nat, j: nat, was: seq<Trail>, views: seq<T.Track>, aged: seq<T.Track>)
      requires Aging(i, j, was, views, aged) && i >= |trails|
      ensures i == |trails| && j == |was| && views[j..] == [] && aged + [] == aged
    {
    }

    static lemma {:induction false} AgeFirst(views: seq<T.Track>, j: nat, aged: seq<T.Track>)
      requires j < |views|
      ensures aged + T.Age(views[j..])
           == (if views[j].count < T.TIME_STAMP
               then aged + [views[j].(count := views[j].count + 1, insertable := true)] else aged)
              + T.Age(views[j + 1..])
    {
      assert views[j..][1..] == views[j + 1..];
    }

    static lemma {:induction false} NoneToAge()
      ensures T.Age([]) == []
    {
    }

    /** One more foot inside a region: every sixth raises an alarm. */
    method RaiseRegion()
      requires |condition| > 0
      modifies `condition, `alarmFlag, `videoId, `videoname1, `reports, `hits
      ensures Marking() == Hit(old(Marking())) && |condition| == old(|condition|)
    {
      alarmFlag := (alarmFlag + 1) % UINT32;
      hits := hits + 1;
      if alarmFlag % SAMPLE_P != 1 {
        return;
      }
      videoname1 := videoId;
      videoId := videoId + 1;
      condition := condition[..|condition| - 1];
      condition := condition + [1];
      reports := reports + [Region];
    }

    /** Judges a foot point against the rectangles and polygons. */
    method CheckFoot(foot: T.Point, borders: seq<Border>)
      requires |condition| > 0
      modifies `condition, `alarmFlag, `videoId, `videoname1, `reports, `hits
      ensures Marking() == CheckRegions(old(Marking()), foot, borders, geometry) && |condition| > 0
    {
      ghost var whole := CheckRegions(Marking(), foot, borders, geometry);
      hide Hit;
      var k := 0;
      assert borders[k..] == borders;
      while k < |borders|
        invariant k <= |borders| && |condition| > 0
        invariant CheckRegions(Marking(), foot, borders[k..], geometry) == whole
      {
        var border := borders[k];
        assert borders[k..][0] == border && borders[k..][1..] == borders[k + 1..];
        if border.graph == RECTANGLE || border.graph == POLYGON {
          if geometry.inside(border.graph, foot, border.points) {
            RaiseRegion();
          }
        }
        k := k + 1;
      }
      assert borders[k..] == [];
    }

    /** The trail to add a box to: -1 for none, and the best score found. */
    method FindTarget(a: T.Point, b: T.Point) returns (target: int, resMax: real)
      ensures (target, resMax) == T.Best(Views(trails), |trails|, a, b, geometry.score)
    {
      target, resMax := -1, T.THETA - 1.0;
      var i := 0;
      while i < |trails|
        invariant i <= |trails| && (target, resMax) == T.Best(Views(trails), i, a, b, geometry.score)
      {
        if trails[i].insertable {
          var res := geometry.score(trails[i].lt, trails[i].rb, a, b);
          if res > resMax {
            target, resMax := i, res;
          }
        }
        i := i + 1;
      }
    }

    method AddTrail(a: T.Point, b: T.Point)
      requires Distinct(trails)
      modifies `trails, `nextId
      ensures Distinct(trails) && |trails| == |old(trails)| + 1 && nextId == old(nextId) + 1
      ensures forall t <- trails :: t in old(trails) || fresh(t)
      ensures Views(trails) == old(Views(trails)) + [T.New(old(nextId), now, a, b)]
    {
      var t := new Trail(a, b, nextId, now);
      assert forall k :: 0 <= k < |trails| ==> trails[k] != t;
      trails := trails + [t];
      nextId := nextId + 1;
    }

    method InsertInto(k: nat, a: T.Point, b: T.Point)
      requires Distinct(trails) && k < |trails|
      modifies trails[k]
      ensures Views(trails) == old(Views(trails))[k := T.Inserted(old(Views(trails))[k], now, a, b)]
    {
      trails[k].Insert(a, b, now);
    }

    method AssignBox(a: T.Point, b: T.Point, foot: T.Point)
      requires Distinct(trails) && foot == T.Foot(a, b)
      modifies `trails, `nextId, trails
      ensures Distinct(trails)
      ensures forall t <- trails :: t in old(trails) || fresh(t)
      ensures Views(trails) == T.Assign(old(Views(trails)), old(nextId), now, a, b, geometry.score)
      ensures nextId == old(nextId) + if |trails| > |old(trails)| then 1 else 0
    {
      hide Views, T.Best, T.Inserted, T.New, T.Foot, Distinct;
      if |trails| == 0 {
        AddTrail(a, b);
      } else {
        var target, resMax := FindTarget(a, b);
        if resMax > T.THRESHOLD && target >= 0 {
          InsertInto(target, a, b);
        } else if target < 0 {
          AddTrail(a, b);
        } else if T.Min(T.Min(1920 - foot.x, foot.x), T.Min(1080 - foot.y, foot.y)) < 100 {
          AddTrail(a, b);
        } else {
          InsertInto(target, a, b);
        }
      }
    }

    /** Judges a trail against the lines; every crossing raises an alarm and clears the trail. */
    method CheckTrail(t: Trail, borders: seq<Border>)
      requires |condition| > 0
      modifies `condition, `videoId, `videoname2, `reports, t
      ensures (Marking(), t.View()) == CheckLines(old(Marking()), old(t.View()), borders, geometry)
    {
      ghost var whole := CheckLines(Marking(), t.View(), borders, geometry);
      var k := 0;
      assert borders[k..] == borders;
      while k < |borders|
        invariant k <= |borders| && |condition| == old(|condition|)
        invariant CheckLines(Marking(), t.View(), borders[k..], geometry) == whole
      {
        var border := borders[k];
        assert borders[k..][0] == border && borders[k..][1..] == borders[k + 1..];
        if border.graph == LINE || border.graph == BROKEN_LINE {
          if geometry.crosses(border.graph, t.points, border.points) {
            videoname2 := videoId;
            videoId := videoId + 1;
            condition := condition[..|condition| - 1];
            condition := condition + [2];
            reports := reports + [Crossing];
            t.Clear();
          }
        }
        k := k + 1;
      }
      assert borders[k..] == [];
    }

    lemma {:induction false} NextPerson(m: Marks, ts: seq<T.Track>, id: nat, dets: seq<T.Detection>,
                                        borders: seq<Border>)
      requires |dets| > 0 && |m.condition| > 0 && dets[0].classId == T.PERSON_LABEL
      ensures var d, rest := dets[0], dets[1..];
              var ts' := T.Assign(ts, id, now, d.lt, d.rb, geometry.score);
              && CheckPersons(m, dets, borders, geometry)
              == CheckPersons(CheckRegions(m, T.Foot(d.lt, d.rb), borders, geometry), rest, borders, geometry)
              && T.AssignAll(ts, id, now, dets, geometry.score)
              == T.AssignAll(ts', if |ts'| > |ts| then id + 1 else id, now, rest, geometry.score)
    {
    }

    lemma {:induction false} NextOther(m: Marks, ts: seq<T.Track>, id: nat, dets: seq<T.Detection>,
                                       borders: seq<Border>)
      requires |dets| > 0 && |m.condition| > 0 && dets[0].classId != T.PERSON_LABEL
      ensures CheckPersons(m, dets, borders, geometry) == CheckPersons(m, dets[1..], borders, geometry)
      ensures T.AssignAll(ts, id, now, dets, geometry.score) == T.AssignAll(ts, id, now, dets[1..], geometry.score)
    {
    }

    lemma {:induction false} NoDetections(m: Marks, ts: seq<T.Track>, id: nat, borders: seq<Border>)
      requires |m.condition| > 0
      ensures CheckPersons(m, [], borders, geometry) == m
      ensures T.AssignAll(ts, id, now, [], geometry.score) == (ts, id)
    {
    }

    /** A person found: its alarms, and its trail. */
    method Follow(det: T.Detection, borders: seq<Border>)
      requires Distinct(trails) && |Marking().condition| > 0
      modifies `condition, `alarmFlag, `videoId, `videoname1, `reports, `hits, `trails, `nextId, trails
      ensures Distinct(trails) && |Marking().condition| > 0
      ensures forall t <- trails :: t in old(trails) || fresh(t)
      ensures Marking() == CheckRegions(old(Marking()), T.Foot(det.lt, det.rb), borders, geometry)
      ensures Views(trails) == T.Assign(old(Views(trails)), old(nextId), now, det.lt, det.rb, geometry.score)
      ensures nextId == if |Views(trails)| > |old(Views(trails))| then old(nextId) + 1 else old(nextId)
    {
      hide Distinct, T.Assign, CheckRegions, Views, T.Foot;
      var foot := T.Foot(det.lt, det.rb);
      CheckFoot(foot, borders);
      AssignBox(det.lt, det.rb, foot);
    }

    /** Every person found. */
    method CheckAndFollow(dets: seq<T.Detection>, borders: seq<Border>)
      requires Distinct(trails) && |Marking().condition| > 0
      modifies `condition, `alarmFlag, `videoId, `videoname1, `reports, `hits, `trails, `nextId, trails
      ensures Distinct(trails) && Marking() == CheckPersons(old(Marking()), dets, borders, geometry)
      ensures forall t <- trails :: t in old(trails) || fresh(t)
      ensures (Views(trails), nextId) == T.AssignAll(old(Views(trails)), old(nextId), now, dets, geometry.score)
    {
      hide *;
      ghost var marks := CheckPersons(Marking(), dets, borders, geometry);
      ghost var views := T.AssignAll(Views(trails), nextId, now, dets, geometry.score);
      var k := 0;
      assert dets[k..] == dets;
      while k < |dets|
        invariant k <= |dets| && |Marking().condition| > 0 && Distinct(trails)
        invariant forall t <- trails :: t in old(trails) || fresh(t)
        invariant CheckPersons(Marking(), dets[k..], borders, geometry) == marks
        invariant T.AssignAll(Views(trails), nextId, now, dets[k..], geometry.score) == views
      {
        var det := dets[k];
        assert dets[k..][0] == det && dets[k..][1..] == dets[k + 1..];
        if det.classId == T.PERSON_LABEL {
          NextPerson(Marking(), Views(trails), nextId, dets[k..], borders);
          assert forall k :: 0 <= k < |trails| ==> trails[k] in trails;
          Follow(det, borders);
        } else {
          NextOther(Marking(), Views(trails), nextId, dets[k..], borders);
        }
        k := k + 1;
      }
      assert dets[k..] == [];
      NoDetections(Marking(), Views(trails), nextId, borders);
    }

    /** The line loop is at k: the trails before it have been checked, the rest are as they were. */
    ghost predicate Checking(k: nat, views: seq<T.Track>, checked: seq<T.Track>)
      reads `trails, trails
    {
      && k <= |trails| == |views| && |checked| == k && Distinct(trails)
      && (forall j :: 0 <= j < k ==> trails[j].View() == checked[j])
      && (forall j :: k <= j < |trails| ==> trails[j].View() == views[j])
    }

    method CheckNext(k: nat, borders: seq<Border>, ghost views: seq<T.Track>, ghost checked: seq<T.Track>)
      returns (ghost checked': seq<T.Track>)
      requires |Marking().condition| > 0 && Checking(k, views, checked) && k < |trails|
      modifies `condition, `videoId, `videoname2, `reports, trails[k]
      ensures Checking(k + 1, views, checked') && |Marking().condition| > 0
      ensures var r := CheckLines(old(Marking()), views[k], borders, geometry);
              Marking() == r.0 && checked' == checked + [r.1]
    {
      hide CheckLines;
      CheckTrail(trails[k], borders);
      checked' := checked + [trails[k].View()];
    }

    lemma {:induction false} CheckingStarts()
      requires Distinct(trails)
      ensures Checking(0, Views(trails), [])
    {
    }

    lemma {:induction false} CheckingEnds(k: nat, views: seq<T.Track>, checked: seq<T.Track>)
      requires Checking(k, views, checked) && k >= |trails|
      ensures Views(trails) == checked && views[k..] == []
    {
    }

    lemma {:induction false} CheckingOn(k: nat, views: seq<T.Track>, checked: seq<T.Track>)
      requires Checking(k, views, checked) && k < |trails|
      ensures k < |views| && views[k..][0] == views[k] && views[k..][1..] == views[k + 1..]
    {
    }

    /** Every trail against every line. */
    method CheckAllTrails(borders: seq<Border>)
      requires Distinct(trails) && |Marking().condition| > 0
      modifies `condition, `videoId, `videoname2, `reports, trails
      ensures (Marking(), Views(trails)) == CheckTrails(old(Marking()), old(Views(trails)), borders, geometry)
    {
      ghost var views := Views(trails);
      ghost var whole := CheckTrails(Marking(), views, borders, geometry);
      ghost var checked: seq<T.Track> := [];
      var k := 0;
      assert views[k..] == views && checked + whole.1 == whole.1;
      CheckingStarts();
      hide CheckLines, CheckTrails, Distinct, Views, Checking, Marking;
      while k < |trails|
        invariant |Marking().condition| > 0 && Checking(k, views, checked)
        invariant Prepend(checked, CheckTrails(Marking(), views[k..], borders, geometry)) == whole
      {
        CheckingOn(k, views, checked);
        FirstTrail(Marking(), views[k..], borders, checked);
        checked := CheckNext(k, borders, views, checked);
        k := k + 1;
      }
      CheckingEnds(k, views, checked);
      NoTrailsLeft(Marking(), borders);
      assert checked + [] == checked;
    }

    static ghost function Prepend(done: seq<T.Track>, r: (Marks, seq<T.Track>)): (Marks, seq<T.Track>) {
      (r.0, done + r.1)
    }

    lemma {:induction false} FirstTrail(m: Marks, ts: seq<T.Track>, borders: seq<Border>, done: seq<T.Track>)
      requires |ts| > 0 && |m.condition| > 0
      ensures Prepend(done, CheckTrails(m, ts, borders, geometry))
           == Prepend(done + [CheckLines(m, ts[0], borders, geometry).1],
                      CheckTrails(CheckLines(m, ts[0], borders, geometry).0, ts[1..], borders, geometry))
    {
      hide CheckLines;
      var (m1, t) := CheckLines(m, ts[0], borders, geometry);
      var rest := CheckTrails(m1, ts[1..], borders, geometry).1;
      assert done + ([t] + rest) == done + [t] + rest;
    }

    lemma {:induction false} NoTrailsLeft(m: Marks, borders: seq<Border>)
      requires |m.condition| > 0
      ensures CheckTrails(m, [], borders, geometry) == (m, [])
    {
    }

    /** A new frame: the window moves, the trails age, and every person found is judged and followed. */
    method Detect(x: Frame)
      requires Sized(View()) && Distinct(trails)
      modifies `videos, `condition, `alarmFlag, `videoId, `videoname1, `reports, `hits, `trails, `nextId, `now, trails
      ensures Distinct(trails) && videos == Push(old(videos), x) && now == old(now) + 1
      ensures forall t <- trails :: t in old(trails) || fresh(t)
      ensures var m := old(Marking()).(condition := Push(old(Marking()).condition, 0));
              Marking() == CheckPersons(m, x.dets, x.borders, geometry)
      ensures (Views(trails), nextId)
           == T.AssignAll(T.Age(old(Views(trails))), old(nextId), now, x.dets, geometry.score)
    {
      hide Views, Distinct, CheckPersons, T.AssignAll, T.Age, Push;
      PushFrame(x);
      now := now + 1;
      AgeTrails();
      assert forall k :: 0 <= k < |trails| ==> trails[k] in trails;
      CheckAndFollow(x.dets, x.borders);
    }

    /** SAMPLE_N is 1: every frame that has trails checks them. */
    method CheckCrossings(borders: seq<Border>)
      requires Distinct(trails) && |Marking().condition| > 0
      modifies `condition, `videoId, `videoname2, `reports, trails
      ensures (Marking(), Views(trails)) == CheckTrails(old(Marking()), old(Views(trails)), borders, geometry)
    {
      hide Views, Distinct, CheckTrails;
      if |trails| > 0 && frameId % SAMPLE_N == 0 {
        CheckAllTrails(borders);
      } else {
        EmptyViews();
        NoTrailsLeft(Marking(), borders);
      }
    }

    /** Saves the window if its middle frame bears the mark. */
    method FilmCenter(kind: int, name: int)
      requires kind != 0
      modifies `films
      ensures films == old(films) + Save(Marking(), videos, kind, name)
    {
      var resultCenter := 0;
      if |condition| == FRAME_RATE * SAVE_TIME * 2 {
        resultCenter := condition[FRAME_RATE * SAVE_TIME];
      }
      if resultCenter == kind {
        films := films + [Film(kind, name, videos)];
      }
    }

    /** Saves the window for a region alarm, checks the crossings, and saves it for a crossing. */
    method CrossAndFilm(borders: seq<Border>)
      requires Distinct(trails) && |Marking().condition| > 0
      modifies `condition, `videoId, `videoname2, `reports, `films, `frameId, trails
      ensures (Marking(), Views(trails)) == CheckTrails(old(Marking()), old(Views(trails)), borders, geometry)
      ensures films == old(films) + Save(old(Marking()), videos, 1, old(Marking()).name1)
                     + Save(Marking(), videos, 2, Marking().name2)
      ensures frameId == (old(frameId) + 1) % UINT32
    {
      hide Views, Distinct, CheckTrails, Save;
      FilmCenter(1, videoname1);
      CheckCrossings(borders);
      FilmCenter(2, videoname2);
      frameId := (frameId + 1) % UINT32;
    }

    /** One frame. */
    method ProcessResult(x: Frame)
      requires Sized(View()) && Distinct(trails)
      modifies this, trails
      ensures View() == Step(old(View()), x, geometry)
      ensures Sized(View()) && Distinct(trails)
      ensures forall t <- trails :: t in old(trails) || fresh(t)
    {
      hide Views, Distinct, CheckPersons, CheckTrails, T.AssignAll, T.Age, Push, Step, Save, Marking;
      ghost var st := View();
      Detect(x);
      ghost var m1, ts1 := Marking(), Views(trails);
      assert forall k :: 0 <= k < |trails| ==> trails[k] in trails;
      CrossAndFilm(x.borders);
      StepIs(st, x, geometry, m1, ts1, nextId, Marking(), Views(trails));
    }

    lemma {:induction false} EmptyViews()
      requires |trails| == 0
      ensures Views(trails) == []
    {
    }
  }
}
