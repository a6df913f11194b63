/** What one frame does in the alarm engine, as a function: the window of the last twenty frames and
    their marks, the alarms, the films saved, and the trails; and what follows for whole runs. */
module AlarmEngine {
  import opened Tracker

  const SAMPLE_P := 6
  const FRAME_RATE := 2
  const SAVE_TIME := 5
  const SAMPLE_N := FRAME_RATE / 2
  const WINDOW := FRAME_RATE * SAVE_TIME * 2
  const CENTER := FRAME_RATE * SAVE_TIME
  const UINT32 := 0x1_0000_0000

  const RECTANGLE := 1
  const LINE := 4
  const POLYGON := 16
  const BROKEN_LINE := 32

  datatype Border = Border(graph: int, points: seq<Point>)

  /** A frame: its image, what the detector found, and the borders in force. */
  datatype Frame = Frame(image: nat, dets: seq<Detection>, borders: seq<Border>)

  /** The geometry: any score, and any judgement of a foot point or of a trail's points. */
  datatype Geometry = Geometry(score: Score, inside: (int, Point, seq<Point>) -> bool,
                               crosses: (int, seq<Point>, seq<Point>) -> bool)

  datatype Report = Region | Crossing

  /** A film, the video id it is stored under, and its frames. */
  datatype Film = Film(kind: int, name: int, frames: seq<Frame>)

  /** `hits` counts what `alarm_flag_` counts modulo 2^32. */
  datatype Marks = Marks(condition: seq<int>, hits: nat, flag: nat, videoId: int, name1: int, name2: int,
                         reports: seq<Report>)

  /** `now` is the number of frames so far, `nextId` the number of trails so far. */
  datatype State = State(frameId: nat, now: nat, videos: seq<Frame>, marks: Marks,
                         trails: seq<Track>, nextId: nat, films: seq<Film>)

  // Alarms

  function Mark(condition: seq<int>, mark: int): seq<int>
    requires |condition| > 0
  {
    condition[..|condition| - 1] + [mark]
  }

  /** A foot point inside a region: every sixth one raises an alarm, beginning with the first. */
  function Hit(m: Marks): Marks
    requires |m.condition| > 0
  {
    var flag := (m.flag + 1) % UINT32;
    if flag % SAMPLE_P != 1 then m.(hits := m.hits + 1, flag := flag)
    else m.(hits := m.hits + 1, flag := flag, name1 := m.videoId, videoId := m.videoId + 1,
            condition := Mark(m.condition, 1), reports := m.reports + [Region])
  }

  function Cross(m: Marks): Marks
    requires |m.condition| > 0
  {
    m.(name2 := m.videoId, videoId := m.videoId + 1, condition := Mark(m.condition, 2),
       reports := m.reports + [Crossing])
  }

  /** The foot is inside the border, a region. */
  predicate InRegion(foot: Point, b: Border, g: Geometry) {
    (b.graph == RECTANGLE || b.graph == POLYGON) && g.inside(b.graph, foot, b.points)
  }

  function CheckRegions(m: Marks, foot: Point, borders: seq<Border>, g: Geometry): (r: Marks)
    requires |m.condition| > 0
    ensures |r.condition| == |m.condition|
    decreases |borders|
  {
    if |borders| == 0 then m
    else CheckRegions(if InRegion(foot, borders[0], g) then Hit(m) else m, foot, borders[1..], g)
  }

  function CheckPersons(m: Marks, dets: seq<Detection>, borders: seq<Border>, g: Geometry): (r: Marks)
    requires |m.condition| > 0
    ensures |r.condition| == |m.condition|
    decreases |dets|
  {
    if |dets| == 0 then m
    else if dets[0].classId != PERSON_LABEL then CheckPersons(m, dets[1..], borders, g)
    else CheckPersons(CheckRegions(m, Foot(dets[0].lt, dets[0].rb), borders, g), dets[1..], borders, g)
  }

  /** The trail's points cross the border, a line. */
  predicate CrossesLine(t: Track, b: Border, g: Geometry) {
    (b.graph == LINE || b.graph == BROKEN_LINE) && g.crosses(b.graph, t.points, b.points)
  }

  /** One trail against every border; a crossing clears its points. */
  function CheckLines(m: Marks, t: Track, borders: seq<Border>, g: Geometry): (r: (Marks, Track))
    requires |m.condition| > 0
    ensures |r.0.condition| == |m.condition|
    decreases |borders|
  {
    if |borders| == 0 then (m, t)
    else if CrossesLine(t, borders[0], g) then CheckLines(Cross(m), Cleared(t), borders[1..], g)
    else CheckLines(m, t, borders[1..], g)
  }

  function CheckTrails(m: Marks, ts: seq<Track>, borders: seq<Border>, g: Geometry): (r: (Marks, seq<Track>))
    requires |m.condition| > 0
    ensures |r.0.condition| == |m.condition| && |r.1| == |ts|
    decreases |ts|
  {
    if |ts| == 0 then (m, ts)
    else
      var (m1, t) := CheckLines(m, ts[0], borders, g);
      var (m2, rest) := CheckTrails(m1, ts[1..], borders, g);
      (m2, [t] + rest)
  }

  // One frame

  predicate Sized(st: State) {
    |st.videos| == |st.marks.condition| <= WINDOW
  }

  function Push<T>(window: seq<T>, x: T): (r: seq<T>)
    requires |window| <= WINDOW
    ensures 1 <= |r| <= WINDOW && r[|r| - 1] == x
  {
    if |window| + 1 > WINDOW then (window + [x])[1..] else window + [x]
  }

  /** What is saved of a full window whose middle frame has this mark. */
  function Save(m: Marks, videos: seq<Frame>, kind: int, name: int): seq<Film> {
    if |m.condition| == WINDOW && m.condition[CENTER] == kind then [Film(kind, name, videos)] else []
  }

  function Step(st: State, x: Frame, g: Geometry): (r: State)
    requires Sized(st)
    ensures Sized(r) && |r.marks.condition| > 0
  {
    var videos := Push(st.videos, x);
    var m0 := st.marks.(condition := Push(st.marks.condition, 0));
    var m1 := CheckPersons(m0, x.dets, x.borders, g);
    var (ts1, id1) := AssignAll(Age(st.trails), st.nextId, st.now + 1, x.dets, g.score);
    var (m2, ts2) := if st.frameId % SAMPLE_N == 0 then CheckTrails(m1, ts1, x.borders, g) else (m1, ts1);
    State((st.frameId + 1) % UINT32, st.now + 1, videos, m2, ts2, id1,
          st.films + Save(m1, videos, 1, m1.name1) + Save(m2, videos, 2, m2.name2))
  }

  const INIT: State := State(0, 0, [], Marks([], 0, 0, 1, 0, 0, []), [], 0, [])

  function Run(xs: seq<Frame>, g: Geometry): (r: State)
    ensures Sized(r) && (|xs| > 0 ==> |r.marks.condition| > 0)
    decreases |xs|
  {
    if |xs| == 0 then INIT else Step(Run(xs[..|xs| - 1], g), xs[|xs| - 1], g)
  }

  // What the alarm checks change

  function Regions(rs: seq<Report>): nat {
    if |rs| == 0 then 0 else Regions(rs[..|rs| - 1]) + if rs[|rs| - 1] == Region then 1 else 0
  }

  function Crossings(rs: seq<Report>): nat {
    if |rs| == 0 then 0 else Crossings(rs[..|rs| - 1]) + if rs[|rs| - 1] == Crossing then 1 else 0
  }

  function Sampled(k: nat): bool {
    k % UINT32 % SAMPLE_P == 1
  }

  function Samples(hits: nat): nat {
    if hits == 0 then 0 else Samples(hits - 1) + if Sampled(hits) then 1 else 0
  }

  /** The flag counts the hits, the alarms raised are the sampled hits, and the names are old ids. */
  predicate Counted(m: Marks) {
    m.flag == m.hits % UINT32 && Regions(m.reports) == Samples(m.hits) && m.name1 < m.videoId && m.name2 < m.videoId
  }

  /** What a part of a frame, or a run, can do between two states: a name changes just when an alarm of
      its kind is raised. */
  predicate Later(m: Marks, m': Marks) {
    && Counted(m') && m.videoId <= m'.videoId
    && Regions(m.reports) <= Regions(m'.reports) && Crossings(m.reports) <= Crossings(m'.reports)
    && (if Regions(m.reports) == Regions(m'.reports) then m'.name1 == m.name1 else m'.name1 >= m.videoId)
    && (if Crossings(m.reports) == Crossings(m'.reports) then m'.name2 == m.name2 else m'.name2 >= m.videoId)
  }

  /** Within a frame: only the mark of the newest frame changes, as the alarms raised say. */
  predicate Marked(m: Marks, m': Marks) {
    && Later(m, m') && |m.condition| == |m'.condition| > 0
    && var n := |m.condition| - 1;
       && m'.condition[..n] == m.condition[..n]
       && m'.condition[n] == if Crossings(m'.reports) > Crossings(m.reports) then 2
                             else if Regions(m'.reports) > Regions(m.reports) then 1
                             else m.condition[n]
  }

  lemma {:induction false} ReportsSnoc(rs: seq<Report>, r: Report)
    ensures Regions(rs + [r]) == Regions(rs) + if r == Region then 1 else 0
    ensures Crossings(rs + [r]) == Crossings(rs) + if r == Crossing then 1 else 0
  {
    assert (rs + [r])[..|rs|] == rs;
  }

  lemma {:induction false} HitMarks(m: Marks)
    requires Counted(m) && |m.condition| > 0
    ensures Marked(m, Hit(m)) && Crossings(Hit(m).reports) == Crossings(m.reports)
  {
    ReportsSnoc(m.reports, Region);
    assert (m.hits % UINT32 + 1) % UINT32 == (m.hits + 1) % UINT32;
  }

  lemma {:induction false} CrossMarks(m: Marks)
    requires Counted(m) && |m.condition| > 0
    ensures Marked(m, Cross(m)) && Regions(Cross(m).reports) == Regions(m.reports)
  {
    ReportsSnoc(m.reports, Crossing);
  }

  /** Region checks come first: with no crossing before, marks compose. */
  lemma {:induction false} MarksCompose(m: Marks, m1: Marks, m2: Marks)
    requires Marked(m, m1) && Marked(m1, m2)
    requires Crossings(m1.reports) == Crossings(m.reports) || Regions(m2.reports) == Regions(m1.reports)
    ensures Marked(m, m2)
  {
    hide Counted, Regions, Crossings;
    var n := |m.condition| - 1;
    assert m2.condition[..n] == m.condition[..n];
  }

  lemma {:induction false} RegionsMark(m: Marks, foot: Point, borders: seq<Border>, g: Geometry)
    requires Counted(m) && |m.condition| > 0
    ensures var m' := CheckRegions(m, foot, borders, g);
            Marked(m, m') && Crossings(m'.reports) == Crossings(m.reports)
    decreases |borders|
  {
    hide Hit, Counted, Marked, Regions, Crossings;
    if |borders| == 0 {
      NoMarks(m);
    } else {
      NoMarks(m);
      HitMarks(m);
      var m1 := if InRegion(foot, borders[0], g) then Hit(m) else m;
      MarkedMeans(m, m1);
      RegionsMark(m1, foot, borders[1..], g);
      MarksCompose(m, m1, CheckRegions(m, foot, borders, g));
    }
  }

  lemma {:induction false} NoMarks(m: Marks)
    requires Counted(m) && |m.condition| > 0
    ensures Marked(m, m)
  {
  }

  lemma {:induction false} MarkedMeans(m: Marks, m': Marks)
    requires Marked(m, m')
    ensures Counted(m') && |m'.condition| == |m.condition| > 0
  {
  }

  lemma {:induction false} PersonsMark(m: Marks, dets: seq<Detection>, borders: seq<Border>, g: Geometry)
    requires Counted(m) && |m.condition| > 0
    ensures var m' := CheckPersons(m, dets, borders, g);
            Marked(m, m') && Crossings(m'.reports) == Crossings(m.reports)
    decreases |dets|
  {
    hide CheckRegions, Counted, Marked, Regions, Crossings;
    NoMarks(m);
    if |dets| > 0 {
      var foot := Foot(dets[0].lt, dets[0].rb);
      RegionsMark(m, foot, borders, g);
      var m1 := if dets[0].classId != PERSON_LABEL then m else CheckRegions(m, foot, borders, g);
      MarkedMeans(m, m1);
      PersonsMark(m1, dets[1..], borders, g);
      MarksCompose(m, m1, CheckPersons(m, dets, borders, g));
    }
  }

  /** Checking lines leaves a trail what it is, and its points well formed. */
  predicate Same(t: Track, t': Track) {
    t' == t || t' == Cleared(t)
  }

  lemma {:induction false} LinesMark(m: Marks, t: Track, borders: seq<Border>, g: Geometry)
    requires Counted(m) && |m.condition| > 0
    ensures var (m', t') := CheckLines(m, t, borders, g);
            Marked(m, m') && Regions(m'.reports) == Regions(m.reports) && Same(t, t')
    decreases |borders|
  {
    hide Cross, Counted, Marked, Regions, Crossings;
    NoMarks(m);
    if |borders| > 0 {
      CrossMarks(m);
      MarkedMeans(m, Cross(m));
      if CrossesLine(t, borders[0], g) {
        LinesMark(Cross(m), Cleared(t), borders[1..], g);
        MarksCompose(m, Cross(m), CheckLines(m, t, borders, g).0);
      } else {
        LinesMark(m, t, borders[1..], g);
      }
    }
  }

  lemma {:induction false} TrailsMark(m: Marks, ts: seq<Track>, borders: seq<Border>, g: Geometry)
    requires Counted(m) && |m.condition| > 0
    ensures var (m', ts') := CheckTrails(m, ts, borders, g);
            && Marked(m, m') && Regions(m'.reports) == Regions(m.reports)
            && forall k :: 0 <= k < |ts| ==> Same(ts[k], ts'[k])
    decreases |ts|
  {
    hide CheckLines, Counted, Marked, Regions, Crossings, Same;
    NoMarks(m);
    if |ts| > 0 {
      LinesMark(m, ts[0], borders, g);
      var m1 := CheckLines(m, ts[0], borders, g).0;
      MarkedMeans(m, m1);
      var rest := ts[1..];
      TrailsMark(m1, rest, borders, g);
      MarksCompose(m, m1, CheckTrails(m, ts, borders, g).0);
      var rest' := CheckTrails(m1, rest, borders, g).1;
      forall k | 0 <= k < |ts| ensures Same(ts[k], CheckTrails(m, ts, borders, g).1[k]) {
        if k > 0 {
          assert Same(rest[k - 1], rest'[k - 1]);
        }
      }
    }
  }

  // Whole runs: the window and the films

  lemma {:induction false} LaterTransitive(m: Marks, m1: Marks, m2: Marks)
    requires Later(m, m1) && Later(m1, m2)
    ensures Later(m, m2)
  {
    hide Regions, Crossings, Counted;
  }

  /** What a frame does to the marks: the window moves, and the newest mark says whether the frame raised
      a crossing, or else a region alarm. */
  lemma {:induction false} StepMarks(st: State, x: Frame, g: Geometry)
    requires Sized(st) && Counted(st.marks)
    ensures var m, m' := st.marks.(condition := Push(st.marks.condition, 0)), Step(st, x, g).marks;
            Counted(m') && Later(st.marks, m') && Marked(m, m')
  {
    hide CheckPersons, CheckTrails, AssignAll, Regions, Crossings, Counted, Marked, Later;
    var m := st.marks.(condition := Push(st.marks.condition, 0));
    NewFrame(st.marks, m);
    PersonsMark(m, x.dets, x.borders, g);
    var m1 := CheckPersons(m, x.dets, x.borders, g);
    MarkedMeans(m, m1);
    var ts1 := AssignAll(Age(st.trails), st.nextId, st.now + 1, x.dets, g.score).0;
    TrailsMark(m1, ts1, x.borders, g);
    MarksCompose(m, m1, CheckTrails(m1, ts1, x.borders, g).0);
    MarkedLater(st.marks, m, Step(st, x, g).marks);
  }

  lemma {:induction false} NewFrame(m: Marks, m': Marks)
    requires Counted(m) && m' == m.(condition := m'.condition)
    ensures Counted(m')
  {
  }

  lemma {:induction false} MarkedLater(m: Marks, m1: Marks, m2: Marks)
    requires m1 == m.(condition := m1.condition) && Marked(m1, m2)
    ensures Later(m, m2) && Counted(m2)
  {
  }

  lemma {:induction false} RunCounted(xs: seq<Frame>, g: Geometry)
    ensures Counted(Run(xs, g).marks)
    decreases |xs|
  {
    hide Step, Counted;
    if |xs| > 0 {
      RunCounted(xs[..|xs| - 1], g);
      StepMarks(Run(xs[..|xs| - 1], g), xs[|xs| - 1], g);
    } else {
      InitCounted();
    }
  }

  lemma {:induction false} InitCounted()
    ensures Counted(INIT.marks)
  {
  }

  lemma {:induction false} RunLater(xs: seq<Frame>, i: nat, j: nat, g: Geometry)
    requires i <= j <= |xs|
    ensures Later(Run(xs[..i], g).marks, Run(xs[..j], g).marks)
    decreases j - i
  {
    hide Step, Counted, Later, Marked;
    RunCounted(xs[..i], g);
    if i == j {
      LaterSelf(Run(xs[..i], g).marks);
    } else {
      RunLater(xs, i, j - 1, g);
      RunCounted(xs[..j - 1], g);
      assert xs[..j][..j - 1] == xs[..j - 1];
      StepMarks(Run(xs[..j - 1], g), xs[j - 1], g);
      LaterTransitive(Run(xs[..i], g).marks, Run(xs[..j - 1], g).marks, Run(xs[..j], g).marks);
    }
  }

  lemma {:induction false} LaterSelf(m: Marks)
    requires Counted(m)
    ensures Later(m, m)
  {
  }

  /** The final mark of the i-th frame. */
  function MarkOf(xs: seq<Frame>, i: nat, g: Geometry): int
    requires i < |xs|
  {
    var c := Run(xs[..i + 1], g).marks.condition;
    c[|c| - 1]
  }

  lemma {:induction false} MarkOfPrefix(xs: seq<Frame>, n: nat, i: nat, g: Geometry)
    requires i < n <= |xs|
    ensures MarkOf(xs[..n], i, g) == MarkOf(xs, i, g)
  {
    assert xs[..n][..i + 1] == xs[..i + 1];
  }

  /** The mark is 2 if the frame raised a crossing, else 1 if it raised a region alarm, else 0. */
  lemma {:induction false} MarkSaysWhatWasRaised(xs: seq<Frame>, i: nat, g: Geometry)
    requires i < |xs|
    ensures var m, m' := Run(xs[..i], g).marks, Run(xs[..i + 1], g).marks;
            MarkOf(xs, i, g) == if Crossings(m'.reports) > Crossings(m.reports) then 2
                                else if Regions(m'.reports) > Regions(m.reports) then 1
                                else 0
  {
    hide Step;
    RunCounted(xs[..i], g);
    assert xs[..i + 1][..i] == xs[..i];
    StepMarks(Run(xs[..i], g), xs[i], g);
  }

  lemma {:induction false} PushIs<T>(window: seq<T>, x: T)
    requires |window| <= WINDOW
    ensures var n := if |window| < WINDOW then |window| else WINDOW - 1;
            Push(window, x) == window[|window| - n..] + [x]
  {
  }

  /** The window holds the last twenty frames, or all, in order, and their marks. */
  predicate InWindow(st: State, xs: seq<Frame>, g: Geometry) {
    var w := if |xs| < WINDOW then |xs| else WINDOW;
    |st.videos| == |st.marks.condition| == w && LastFrames(xs, st.videos) && LastMarks(xs, st.marks.condition, g)
  }

  predicate LastFrames(xs: seq<Frame>, vs: seq<Frame>) {
    |vs| <= |xs| && vs == xs[|xs| - |vs|..]
  }

  /** The marks of the last frames. */
  predicate LastMarks(xs: seq<Frame>, c: seq<int>, g: Geometry) {
    |c| <= |xs| && forall k :: 0 <= k < |c| ==> MarkOf(xs, |xs| - |c| + k, g) == c[k]
  }

  /** The last n are kept, and one is added. */
  predicate Moved<T(==)>(a: seq<T>, b: seq<T>, n: nat) {
    n <= |a| && |b| == n + 1 && b[..n] == a[|a| - n..]
  }

  lemma {:induction false} StepWindow(st: State, x: Frame, g: Geometry)
    requires Sized(st) && Counted(st.marks)
    ensures var st', w := Step(st, x, g), |st.videos|;
            var n := if w < WINDOW then w else WINDOW - 1;
            && |st'.videos| == |st'.marks.condition| == n + 1 && st'.videos[n] == x
            && Moved(st.videos, st'.videos, n) && Moved(st.marks.condition, st'.marks.condition, n)
  {
    StepMarks(st, x, g);
    PushIs(st.videos, x);
    PushIs(st.marks.condition, 0);
    hide Push, Counted, Later, Regions, Crossings, CheckPersons, CheckTrails;
  }

  lemma {:induction false} RunSnoc(xs: seq<Frame>, x: Frame, g: Geometry)
    ensures Run(xs + [x], g) == Step(Run(xs, g), x, g)
    ensures var c := Run(xs + [x], g).marks.condition; MarkOf(xs + [x], |xs|, g) == c[|c| - 1]
    ensures forall i :: 0 <= i < |xs| ==> MarkOf(xs + [x], i, g) == MarkOf(xs, i, g)
  {
    hide Step;
    var ys := xs + [x];
    assert ys[..|xs|] == xs && ys[..|ys|] == ys;
    forall i | 0 <= i < |xs| ensures MarkOf(xs + [x], i, g) == MarkOf(xs, i, g) {
      MarkOfPrefix(ys, |xs|, i, g);
    }
  }

  lemma {:induction false} MarksMove(xs: seq<Frame>, x: Frame, c: seq<int>, c': seq<int>, n: nat, g: Geometry)
    requires LastMarks(xs, c, g) && Moved(c, c', n)
    requires MarkOf(xs + [x], |xs|, g) == c'[n]
    requires forall i :: 0 <= i < |xs| ==> MarkOf(xs + [x], i, g) == MarkOf(xs, i, g)
    ensures LastMarks(xs + [x], c', g)
  {
    hide MarkOf;
    forall k | 0 <= k < n ensures MarkOf(xs + [x], |xs| - n + k, g) == c'[k] {
      assert c'[..n][k] == c'[k];
    }
  }

  lemma {:induction false} FramesMove(xs: seq<Frame>, x: Frame, vs: seq<Frame>, vs': seq<Frame>, n: nat)
    requires LastFrames(xs, vs) && Moved(vs, vs', n) && vs'[n] == x
    ensures LastFrames(xs + [x], vs')
  {
    assert vs' == vs'[..n] + [x];
  }

  lemma {:induction false} WindowMoves(xs: seq<Frame>, x: Frame, g: Geometry)
    requires InWindow(Run(xs, g), xs, g)
    ensures InWindow(Run(xs + [x], g), xs + [x], g)
  {
    hide Step, Run, Counted, MarkOf, Sized, LastFrames, LastMarks, Moved;
    RunCounted(xs, g);
    RunSnoc(xs, x, g);
    var st, st' := Run(xs, g), Run(xs + [x], g);
    StepWindow(st, x, g);
    var n := |st'.videos| - 1;
    FramesMove(xs, x, st.videos, st'.videos, n);
    MarksMove(xs, x, st.marks.condition, st'.marks.condition, n, g);
  }

  lemma {:induction false} WindowIs(xs: seq<Frame>, g: Geometry)
    ensures InWindow(Run(xs, g), xs, g)
    decreases |xs|
  {
    hide Run, InWindow;
    if |xs| > 0 {
      var init := xs[..|xs| - 1];
      WindowIs(init, g);
      WindowMoves(init, xs[|xs| - 1], g);
      assert init + [xs[|xs| - 1]] == xs;
    } else {
      EmptyWindow(xs, g);
    }
  }

  lemma {:induction false} EmptyWindow(xs: seq<Frame>, g: Geometry)
    requires |xs| == 0
    ensures InWindow(Run(xs, g), xs, g)
  {
  }

  function NameOf(m: Marks, kind: int): int {
    if kind == 1 then m.name1 else m.name2
  }

  /** What the last frame of a run saves: the window, if the frame ten before the end is marked. */
  function Saved(xs: seq<Frame>, g: Geometry): seq<Film> {
    var n := |xs|;
    if n < WINDOW || MarkOf(xs, n - CENTER, g) == 0 then []
    else [Film(MarkOf(xs, n - CENTER, g), NameOf(Run(xs, g).marks, MarkOf(xs, n - CENTER, g)), xs[n - WINDOW..])]
  }

  lemma {:induction false} StepSaves(st: State, x: Frame, g: Geometry)
    requires Sized(st) && Counted(st.marks)
    ensures var st' := Step(st, x, g); var c := st'.marks.condition;
            st'.films == st.films + (if |c| == WINDOW && (c[CENTER] == 1 || c[CENTER] == 2)
                                     then [Film(c[CENTER], NameOf(st'.marks, c[CENTER]), st'.videos)] else [])
  {
    hide CheckPersons, CheckTrails, AssignAll, Counted, Push, Regions, Crossings;
    var m := st.marks.(condition := Push(st.marks.condition, 0));
    NewFrame(st.marks, m);
    PersonsMark(m, x.dets, x.borders, g);
    var m1 := CheckPersons(m, x.dets, x.borders, g);
    var ts1 := AssignAll(Age(st.trails), st.nextId, st.now + 1, x.dets, g.score).0;
    TrailsMark(m1, ts1, x.borders, g);
    var m2 := CheckTrails(m1, ts1, x.borders, g).0;
    assert m1.name1 == m2.name1;
    assert |m2.condition| == WINDOW ==> m1.condition[..WINDOW - 1][CENTER] == m2.condition[..WINDOW - 1][CENTER];
  }

  lemma {:induction false} MarkRange(xs: seq<Frame>, i: nat, g: Geometry)
    requires i < |xs|
    ensures 0 <= MarkOf(xs, i, g) <= 2
  {
    hide Run, MarkOf;
    MarkSaysWhatWasRaised(xs, i, g);
  }

  lemma {:induction false} FilmsOfFrame(xs: seq<Frame>, g: Geometry)
    requires |xs| > 0
    ensures Run(xs, g).films == Run(xs[..|xs| - 1], g).films + Saved(xs, g)
  {
    var init := xs[..|xs| - 1];
    RunCounted(init, g);
    StepSaves(Run(init, g), xs[|xs| - 1], g);
    hide Step, MarkOf, Counted;
    WindowIs(xs, g);
    if |xs| >= WINDOW {
      MarkRange(xs, |xs| - CENTER, g);
    }
  }

  /** The marked frames that have ten frames before them and nine after them. */
  function Due(xs: seq<Frame>, n: nat, g: Geometry): seq<nat>
    requires n <= |xs|
  {
    if n < WINDOW then []
    else Due(xs, n - 1, g) + if MarkOf(xs, n - CENTER, g) == 0 then [] else [n - CENTER]
  }

  lemma {:induction false} DueIs(xs: seq<Frame>, n: nat, g: Geometry)
    requires n <= |xs|
    ensures forall i :: i in Due(xs, n, g) <==> CENTER <= i <= n - CENTER && MarkOf(xs, i, g) != 0
    ensures forall j, k :: 0 <= j < k < |Due(xs, n, g)| ==> Due(xs, n, g)[j] < Due(xs, n, g)[k]
  {
    hide MarkOf;
    if n >= WINDOW {
      DueIs(xs, n - 1, g);
      var due := Due(xs, n - 1, g);
      forall j | 0 <= j < |due| ensures due[j] < n - CENTER {
        assert due[j] in due;
      }
    }
  }

  /** The film of the i-th frame: of its mark's kind, saved nine frames later under the name then current,
      and made of exactly the ten frames before it, itself, and the nine after it. */
  function FilmOf(xs: seq<Frame>, i: nat, g: Geometry): Film
    requires CENTER <= i <= |xs| - CENTER
  {
    var kind := MarkOf(xs, i, g);
    Film(kind, NameOf(Run(xs[..i + CENTER], g).marks, kind), xs[i - CENTER..i + CENTER])
  }

  lemma {:induction false} FilmsUpTo(xs: seq<Frame>, n: nat, g: Geometry)
    requires n <= |xs|
    ensures |Run(xs[..n], g).films| == |Due(xs, n, g)|
    ensures forall k :: 0 <= k < |Due(xs, n, g)| ==>
              && CENTER <= Due(xs, n, g)[k] <= |xs| - CENTER
              && Run(xs[..n], g).films[k] == FilmOf(xs, Due(xs, n, g)[k], g)
    decreases n
  {
    hide Step, MarkOf;
    if n > 0 {
      var ys := xs[..n];
      assert ys[..n - 1] == xs[..n - 1];
      FilmsUpTo(xs, n - 1, g);
      FilmsOfFrame(ys, g);
      hide Run;
      if n >= WINDOW {
        MarkOfPrefix(xs, n, n - CENTER, g);
        assert ys[n - WINDOW..] == xs[n - WINDOW..n];
      }
    } else {
      assert xs[..0] == [];
    }
  }

  /** Over any run, every marked frame with ten frames before it and nine after it is filmed exactly once,
      in order, and nothing else is ever filmed. */
  lemma {:induction false} EveryAlarmIsFilmedOnce(xs: seq<Frame>, g: Geometry) returns (due: seq<nat>)
    ensures forall i :: i in due <==> CENTER <= i <= |xs| - CENTER && MarkOf(xs, i, g) != 0
    ensures forall j, k :: 0 <= j < k < |due| ==> due[j] < due[k]
    ensures |Run(xs, g).films| == |due|
    ensures forall k :: 0 <= k < |due| ==>
              CENTER <= due[k] <= |xs| - CENTER && Run(xs, g).films[k] == FilmOf(xs, due[k], g)
  {
    hide Step, MarkOf, FilmOf, Run;
    due := Due(xs, |xs|, g);
    DueIs(xs, |xs|, g);
    FilmsUpTo(xs, |xs|, g);
    assert xs[..|xs|] == xs;
  }

  /** A film bears the name current after its own frame exactly when no later alarm of its kind was raised
      before it was saved. */
  lemma {:induction false} NameKeptUnlessLaterAlarm(xs: seq<Frame>, i: nat, g: Geometry)
    requires CENTER <= i <= |xs| - CENTER
    ensures var m, m' := Run(xs[..i + 1], g).marks, Run(xs[..i + CENTER], g).marks;
            && (MarkOf(xs, i, g) == 1 ==>
                  (FilmOf(xs, i, g).name == m.name1 <==> Regions(m'.reports) == Regions(m.reports)))
            && (MarkOf(xs, i, g) == 2 ==>
                  (FilmOf(xs, i, g).name == m.name2 <==> Crossings(m'.reports) == Crossings(m.reports)))
  {
    hide Run, MarkOf, Regions, Crossings;
    RunCounted(xs[..i + 1], g);
    RunLater(xs, i + 1, i + CENTER, g);
  }

  // Whole runs: the trails

  predicate AllSame(ts: seq<Track>, ts': seq<Track>) {
    |ts| == |ts'| && forall k :: 0 <= k < |ts| ==> Same(ts[k], ts'[k])
  }

  /** The trails after a frame, but for cleared points. */
  function Followed(st: State, x: Frame, g: Geometry): (seq<Track>, nat) {
    AssignAll(Age(st.trails), st.nextId, st.now + 1, x.dets, g.score)
  }

  lemma {:induction false} StepTrails(st: State, x: Frame, g: Geometry)
    requires Sized(st) && Counted(st.marks)
    ensures var st' := Step(st, x, g);
            AllSame(Followed(st, x, g).0, st'.trails) && st'.nextId == Followed(st, x, g).1 && st'.now == st.now + 1
  {
    hide CheckPersons, CheckTrails, AssignAll, Counted, Push, Regions, Crossings;
    var m := st.marks.(condition := Push(st.marks.condition, 0));
    NewFrame(st.marks, m);
    PersonsMark(m, x.dets, x.borders, g);
    TrailsMark(CheckPersons(m, x.dets, x.borders, g), Followed(st, x, g).0, x.borders, g);
  }

  lemma {:induction false} SameInv(ts: seq<Track>, ts': seq<Track>, id: nat, now: nat)
    requires Inv(ts, id, now) && AllSame(ts, ts')
    ensures Inv(ts', id, now)
  {
    forall k | 0 <= k < |ts'|
      ensures WellFormed(ts'[k]) && ts'[k].id == ts[k].id && ts'[k].seen == ts[k].seen && ts'[k].count == ts[k].count
    {
      assert Same(ts[k], ts'[k]);
    }
  }

  /** After every frame of every run: each trail holds 1 to 60 points, the last under its current box, its
      count is the number of frames since that box, at most 120, and trails are distinct. */
  lemma {:induction false} TrailsStayWellFormed(xs: seq<Frame>, g: Geometry)
    ensures var st := Run(xs, g); st.now == |xs| && Inv(st.trails, st.nextId, |xs|)
    decreases |xs|
  {
    hide Step, Counted, Followed, AllSame, Inv;
    if |xs| > 0 {
      var init, x := xs[..|xs| - 1], xs[|xs| - 1];
      TrailsStayWellFormed(init, g);
      RunCounted(init, g);
      var st := Run(init, g);
      StepTrails(st, x, g);
      FollowedInv(st, x, g);
      SameInv(Followed(st, x, g).0, Step(st, x, g).trails, Followed(st, x, g).1, |xs|);
    } else {
      NoTrails();
    }
  }

  lemma {:induction false} NoTrails()
    ensures Inv([], 0, 0)
  {
  }

  lemma {:induction false} FollowedInv(st: State, x: Frame, g: Geometry)
    requires Inv(st.trails, st.nextId, st.now)
    ensures Inv(Followed(st, x, g).0, Followed(st, x, g).1, st.now + 1)
  {
    hide AssignAll, Age, Inv, Open;
    AgeInv(st.trails, st.nextId, st.now);
    AssignAllInv(Age(st.trails), st.nextId, st.now + 1, x.dets, g.score);
  }

  /** In every frame of every run: each person found goes to exactly one trail, and no trail takes two;
      a trail takes one only if open, and the trails that take none only grow older or are dropped. */
  lemma {:induction false} EachPersonIsFollowed(xs: seq<Frame>, x: Frame, g: Geometry)
    returns (ts: seq<Track>, to: seq<nat>)
    ensures Assigned(Age(Run(xs, g).trails), ts, to, |xs| + 1, Persons(x.dets))
    ensures AllSame(ts, Run(xs + [x], g).trails)
  {
    hide Step, Assigned, AllSame, Age, AssignAll;
    RunSnoc(xs, x, g);
    RunCounted(xs, g);
    TrailsStayWellFormed(xs, g);
    var st := Run(xs, g);
    StepTrails(st, x, g);
    ts := Followed(st, x, g).0;
    to := EachPersonToItsOwnTrail(Age(st.trails), st.nextId, st.now + 1, x.dets, g.score);
  }

  /** After the n-th frame the trail is there and was last given a box in the m-th. */
  ghost predicate SeenLast(xs: seq<Frame>, n: nat, id: nat, m: nat, g: Geometry)
    requires n <= |xs|
  {
    exists k :: Is(Run(xs[..n], g).trails, k, id, m)
  }

  /** It was given a box in the m-th frame. */
  ghost predicate GivenBox(xs: seq<Frame>, id: nat, m: nat, g: Geometry) {
    m <= |xs| && SeenLast(xs, m, id, m, g)
  }

  lemma {:induction false} StepBack(st: State, x: Frame, g: Geometry, k: nat, id: nat, m: nat) returns (j: nat)
    requires Sized(st) && Counted(st.marks)
    requires Is(Step(st, x, g).trails, k, id, m) && m != st.now + 1
    ensures Is(st.trails, j, id, m)
  {
    StepTrails(st, x, g);
    hide Step, Counted, Age;
    assert Same(Followed(st, x, g).0[k], Step(st, x, g).trails[k]);
    j := FrameBack(st.trails, st.nextId, st.now + 1, x.dets, g.score, k);
  }

  lemma {:induction false} StepForth(st: State, x: Frame, g: Geometry, k: nat, id: nat, m: nat)
    returns (j: nat, m': nat)
    requires Sized(st) && Counted(st.marks) && Inv(st.trails, st.nextId, st.now)
    requires Is(st.trails, k, id, m) && st.now < m + TIME_STAMP
    ensures Is(Step(st, x, g).trails, j, id, m') && m' >= m
  {
    StepTrails(st, x, g);
    hide Step, Counted, Age;
    j := FrameForth(st.trails, st.nextId, st.now + 1, x.dets, g.score, k);
    assert Same(Followed(st, x, g).0[j], Step(st, x, g).trails[j]);
    m' := Step(st, x, g).trails[j].seen;
  }

  lemma {:induction false} RunInv(xs: seq<Frame>, n: nat, g: Geometry)
    requires n <= |xs|
    ensures var st := Run(xs[..n], g); Counted(st.marks) && Sized(st) && st.now == n && Inv(st.trails, st.nextId, n)
    ensures n > 0 ==> Run(xs[..n], g) == Step(Run(xs[..n - 1], g), xs[n - 1], g)
  {
    hide Step, Counted, Inv;
    RunCounted(xs[..n], g);
    TrailsStayWellFormed(xs[..n], g);
    if n > 0 {
      assert xs[..n][..n - 1] == xs[..n - 1];
    }
  }

  lemma {:induction false} SeenBack(xs: seq<Frame>, n: nat, id: nat, m: nat, g: Geometry)
    requires n <= |xs| && SeenLast(xs, n, id, m, g)
    ensures m <= n <= m + TIME_STAMP && GivenBox(xs, id, m, g)
    decreases n
  {
    hide Step, Run, Counted;
    RunInv(xs, n, g);
    var k :| Is(Run(xs[..n], g).trails, k, id, m);
    if m < n {
      RunInv(xs, n - 1, g);
      var j := StepBack(Run(xs[..n - 1], g), xs[n - 1], g, k, id, m);
      SeenBack(xs, n - 1, id, m, g);
    }
  }

  lemma {:induction false} SeenForth(xs: seq<Frame>, n: nat, id: nat, m: nat, g: Geometry) returns (m': nat)
    requires m <= n <= |xs| && n <= m + TIME_STAMP && GivenBox(xs, id, m, g)
    ensures SeenLast(xs, n, id, m', g) && m' >= m
    decreases n
  {
    hide Step, Run, Counted, Inv;
    if m == n {
      m' := m;
    } else {
      var m1 := SeenForth(xs, n - 1, id, m, g);
      var k :| Is(Run(xs[..n - 1], g).trails, k, id, m1);
      RunInv(xs, n - 1, g);
      RunInv(xs, n, g);
      var j;
      j, m' := StepForth(Run(xs[..n - 1], g), xs[n - 1], g, k, id, m1);
    }
  }

  /** A trail is there after the n-th frame if and only if it was given a box in that frame or in one of
      the 120 before it: it is kept for exactly 120 frames without a box. */
  lemma {:induction false} KeptForExactly120Frames(xs: seq<Frame>, n: nat, id: nat, g: Geometry)
    requires n <= |xs|
    ensures Has(Run(xs[..n], g).trails, id)
       <==> exists m: nat :: m <= n <= m + 120 && GivenBox(xs, id, m, g)
  {
    hide Run, GivenBox;
    var ts := Run(xs[..n], g).trails;
    if Has(ts, id) {
      var k :| 0 <= k < |ts| && ts[k].id == id;
      assert Is(ts, k, id, ts[k].seen);
      SeenBack(xs, n, id, ts[k].seen, g);
    }
    if m: nat :| m <= n <= m + 120 && GivenBox(xs, id, m, g) {
      var m' := SeenForth(xs, n, id, m, g);
      var k :| Is(ts, k, id, m');
    }
  }
}
