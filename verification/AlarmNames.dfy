/** The region alarms of a run, read from its frames, and the name a film of one is saved under. */
module AlarmNames {
  import opened Tracker
  import opened AlarmEngine

  // The hits of a frame and of a run

  /** The regions that a foot is inside of. */
  function FootHits(foot: Point, borders: seq<Border>, g: Geometry): nat {
    if |borders| == 0 then 0
    else
      var b := borders[0];
      (if (b.graph == 1 || b.graph == 16) && g.inside(b.graph, foot, b.points) then 1 else 0)
        + FootHits(foot, borders[1..], g)
  }

  /** The hits of a frame: its persons, each counted once for every region that its foot is inside of. */
  function FrameHits(dets: seq<Detection>, borders: seq<Border>, g: Geometry): nat {
    if |dets| == 0 then 0
    else (if dets[0].classId == 1 then FootHits(Foot(dets[0].lt, dets[0].rb), borders, g) else 0)
         + FrameHits(dets[1..], borders, g)
  }

  /** The hits of the first n frames. */
  function HitsUpTo(xs: seq<Frame>, n: nat, g: Geometry): nat
    requires n <= |xs|
  {
    if n == 0 then 0 else HitsUpTo(xs, n - 1, g) + FrameHits(xs[n - 1].dets, xs[n - 1].borders, g)
  }

  lemma {:induction false} RegionsHits(m: Marks, foot: Point, borders: seq<Border>, g: Geometry)
    requires |m.condition| > 0
    ensures CheckRegions(m, foot, borders, g).hits == m.hits + FootHits(foot, borders, g)
    decreases |borders|
  {
    if |borders| > 0 {
      RegionsHits(if InRegion(foot, borders[0], g) then Hit(m) else m, foot, borders[1..], g);
    }
  }

  lemma {:induction false} PersonsHits(m: Marks, dets: seq<Detection>, borders: seq<Border>, g: Geometry)
    requires |m.condition| > 0
    ensures CheckPersons(m, dets, borders, g).hits == m.hits + FrameHits(dets, borders, g)
    decreases |dets|
  {
    hide CheckRegions, FootHits, Foot;
    if |dets| > 0 {
      var foot := Foot(dets[0].lt, dets[0].rb);
      RegionsHits(m, foot, borders, g);
      var m1 := if dets[0].classId != PERSON_LABEL then m else CheckRegions(m, foot, borders, g);
      PersonsHits(m1, dets[1..], borders, g);
    }
  }

  lemma {:induction false} LinesHits(m: Marks, t: Track, borders: seq<Border>, g: Geometry)
    requires |m.condition| > 0
    ensures CheckLines(m, t, borders, g).0.hits == m.hits
    decreases |borders|
  {
    if |borders| > 0 {
      LinesHits(m, t, borders[1..], g);
      LinesHits(Cross(m), Cleared(t), borders[1..], g);
    }
  }

  lemma {:induction false} TrailsHits(m: Marks, ts: seq<Track>, borders: seq<Border>, g: Geometry)
    requires |m.condition| > 0
    ensures CheckTrails(m, ts, borders, g).0.hits == m.hits
    decreases |ts|
  {
    hide CheckLines;
    if |ts| > 0 {
      LinesHits(m, ts[0], borders, g);
      TrailsHits(CheckLines(m, ts[0], borders, g).0, ts[1..], borders, g);
    }
  }

  lemma {:induction false} StepHits(st: State, x: Frame, g: Geometry)
    requires Sized(st)
    ensures Step(st, x, g).marks.hits == st.marks.hits + FrameHits(x.dets, x.borders, g)
  {
    hide CheckPersons, CheckTrails, AssignAll, FrameHits, Save;
    var m := st.marks.(condition := Push(st.marks.condition, 0));
    PersonsHits(m, x.dets, x.borders, g);
    TrailsHits(CheckPersons(m, x.dets, x.borders, g),
               AssignAll(Age(st.trails), st.nextId, st.now + 1, x.dets, g.score).0, x.borders, g);
  }

  /** What a run counts are the feet of persons inside regions, frame by frame. */
  lemma {:induction false} RunHits(xs: seq<Frame>, n: nat, g: Geometry)
    requires n <= |xs|
    ensures Run(xs[..n], g).marks.hits == HitsUpTo(xs, n, g)
    decreases n
  {
    hide Step, FrameHits;
    if n > 0 {
      RunHits(xs, n - 1, g);
      assert xs[..n][..n - 1] == xs[..n - 1];
      StepHits(Run(xs[..n - 1], g), xs[n - 1], g);
    }
  }

  // Which hits raise an alarm

  predicate NoneSampled(a: nat, b: nat) {
    forall k :: a < k <= b ==> !Sampled(k)
  }

  lemma {:induction false} SamplesGrow(a: nat, b: nat)
    requires a <= b
    ensures Samples(a) <= Samples(b) && (Samples(a) == Samples(b) <==> NoneSampled(a, b))
    decreases b
  {
    hide Sampled;
    if a < b {
      SamplesGrow(a, b - 1);
    }
  }

  lemma {:induction false} SamplesAre(hits: nat)
    requires hits < UINT32
    ensures Samples(hits) == (hits + 5) / 6
  {
    if hits > 0 {
      SamplesAre(hits - 1);
      assert hits % UINT32 == hits;
      var q, r := hits / 6, hits % 6;
      assert hits == 6 * q + r;
      assert (hits + 5) / 6 == if r == 0 then q else q + 1;
      assert (hits + 4) / 6 == if r <= 1 then q else q + 1;
    }
  }

  lemma {:induction false} HitsGrow(xs: seq<Frame>, i: nat, j: nat, g: Geometry)
    requires i <= j <= |xs|
    ensures HitsUpTo(xs, i, g) <= HitsUpTo(xs, j, g)
    decreases j
  {
    if i < j {
      HitsGrow(xs, i, j - 1, g);
    }
  }

  lemma {:induction false} ReportsAreSamples(xs: seq<Frame>, n: nat, g: Geometry)
    requires n <= |xs|
    ensures Regions(Run(xs[..n], g).marks.reports) == Samples(HitsUpTo(xs, n, g))
  {
    hide Run, Regions, Samples;
    RunCounted(xs[..n], g);
    RunHits(xs, n, g);
  }

  /** Of the feet found inside a region, every sixth raises an alarm, beginning with the first, as long as
      there are fewer than 2^32 of them. */
  lemma {:induction false} EverySixthHitIsReported(xs: seq<Frame>, g: Geometry)
    ensures var hits := HitsUpTo(xs, |xs|, g);
            && Run(xs, g).marks.hits == hits
            && Regions(Run(xs, g).marks.reports) == Samples(hits)
            && (hits < UINT32 ==> Samples(hits) == (hits + 5) / 6)
  {
    hide Run, Regions, Samples;
    assert xs[..|xs|] == xs;
    RunHits(xs, |xs|, g);
    ReportsAreSamples(xs, |xs|, g);
    if HitsUpTo(xs, |xs|, g) < UINT32 {
      SamplesAre(HitsUpTo(xs, |xs|, g));
    }
  }

  // Which frames raise a crossing

  lemma {:induction false} LinesCrossings(m: Marks, t: Track, borders: seq<Border>, g: Geometry)
    requires |m.condition| > 0
    ensures Crossings(CheckLines(m, t, borders, g).0.reports) >= Crossings(m.reports)
    decreases |borders|
  {
    hide Crossings;
    if |borders| > 0 {
      ReportsSnoc(m.reports, Crossing);
      LinesCrossings(Cross(m), Cleared(t), borders[1..], g);
      LinesCrossings(m, t, borders[1..], g);
    }
  }

  /** A trail raises a crossing exactly when its points, as they are before any is cleared, cross a line. */
  lemma {:induction false} TrailCrosses(m: Marks, t: Track, borders: seq<Border>, g: Geometry)
    requires |m.condition| > 0
    ensures Crossings(CheckLines(m, t, borders, g).0.reports) > Crossings(m.reports)
       <==> exists k :: 0 <= k < |borders| && CrossesLine(t, borders[k], g)
    decreases |borders|
  {
    hide Crossings, CrossesLine;
    if |borders| > 0 {
      var rest := borders[1..];
      if CrossesLine(t, borders[0], g) {
        ReportsSnoc(m.reports, Crossing);
        LinesCrossings(Cross(m), Cleared(t), rest, g);
      } else {
        TrailCrosses(m, t, rest, g);
        if k :| 0 <= k < |borders| && CrossesLine(t, borders[k], g) {
          assert rest[k - 1] == borders[k];
        }
      }
    }
  }

  ghost predicate SomeCrosses(ts: seq<Track>, borders: seq<Border>, g: Geometry) {
    exists j, k :: 0 <= j < |ts| && 0 <= k < |borders| && CrossesLine(ts[j], borders[k], g)
  }

  lemma {:induction false} TrailsCrossings(m: Marks, ts: seq<Track>, borders: seq<Border>, g: Geometry)
    requires |m.condition| > 0
    ensures Crossings(CheckTrails(m, ts, borders, g).0.reports) >= Crossings(m.reports)
    decreases |ts|
  {
    hide Crossings, CheckLines;
    if |ts| > 0 {
      LinesCrossings(m, ts[0], borders, g);
      TrailsCrossings(CheckLines(m, ts[0], borders, g).0, ts[1..], borders, g);
    }
  }

  lemma {:induction false} TrailsCross(m: Marks, ts: seq<Track>, borders: seq<Border>, g: Geometry)
    requires |m.condition| > 0
    ensures Crossings(CheckTrails(m, ts, borders, g).0.reports) > Crossings(m.reports) <==> SomeCrosses(ts, borders, g)
    decreases |ts|
  {
    hide Crossings, CheckLines, CrossesLine;
    if |ts| > 0 {
      var rest := ts[1..];
      TrailCrosses(m, ts[0], borders, g);
      LinesCrossings(m, ts[0], borders, g);
      var m1 := CheckLines(m, ts[0], borders, g).0;
      TrailsCrossings(m1, rest, borders, g);
      TrailsCross(m1, rest, borders, g);
      SomeOrFirst(ts, borders, g);
    }
  }

  lemma {:induction false} SomeOrFirst(ts: seq<Track>, borders: seq<Border>, g: Geometry)
    requires |ts| > 0
    ensures SomeCrosses(ts, borders, g)
       <==> (exists k :: 0 <= k < |borders| && CrossesLine(ts[0], borders[k], g)) || SomeCrosses(ts[1..], borders, g)
  {
    hide CrossesLine;
    var rest := ts[1..];
    if j, k :| 0 <= j < |ts| && 0 <= k < |borders| && CrossesLine(ts[j], borders[k], g) {
      if j > 0 {
        assert CrossesLine(rest[j - 1], borders[k], g);
      }
    }
    if j, k :| 0 <= j < |rest| && 0 <= k < |borders| && CrossesLine(rest[j], borders[k], g) {
      assert CrossesLine(ts[j + 1], borders[k], g);
    }
    if k :| 0 <= k < |borders| && CrossesLine(ts[0], borders[k], g) {
      assert SomeCrosses(ts, borders, g);
    }
  }

  /** In the i-th frame the points of some trail, with the boxes of the frame, cross a line in force. */
  ghost predicate FrameCrosses(xs: seq<Frame>, i: nat, g: Geometry)
    requires i < |xs|
  {
    SomeCrosses(Followed(Run(xs[..i], g), xs[i], g).0, xs[i].borders, g)
  }

  lemma {:induction false} StepCrosses(st: State, x: Frame, g: Geometry)
    requires Sized(st) && Counted(st.marks)
    ensures Crossings(Step(st, x, g).marks.reports) > Crossings(st.marks.reports)
       <==> SomeCrosses(Followed(st, x, g).0, x.borders, g)
  {
    hide CheckPersons, CheckTrails, AssignAll, Counted, Marked, Regions, Crossings, SomeCrosses, Save;
    var m := st.marks.(condition := Push(st.marks.condition, 0));
    NewFrame(st.marks, m);
    PersonsMark(m, x.dets, x.borders, g);
    TrailsCross(CheckPersons(m, x.dets, x.borders, g), Followed(st, x, g).0, x.borders, g);
  }

  /** The mark of every frame, read from its persons, its borders and the points of its trails: 2 if a trail
      crosses a line, else 1 if one of the feet inside regions is a sampled one, else 0. */
  lemma {:induction false} MarkIs(xs: seq<Frame>, i: nat, g: Geometry)
    requires i < |xs|
    ensures MarkOf(xs, i, g) == if FrameCrosses(xs, i, g) then 2
                                else if NoneSampled(HitsUpTo(xs, i, g), HitsUpTo(xs, i + 1, g)) then 0
                                else 1
  {
    hide Step, MarkOf, Regions, Crossings, Samples, HitsUpTo, SomeCrosses, Followed, Counted;
    MarkSaysWhatWasRaised(xs, i, g);
    RunCounted(xs[..i], g);
    assert xs[..i + 1][..i] == xs[..i];
    StepCrosses(Run(xs[..i], g), xs[i], g);
    ReportsAreSamples(xs, i, g);
    ReportsAreSamples(xs, i + 1, g);
    HitsGrow(xs, i, i + 1, g);
    SamplesGrow(HitsUpTo(xs, i, g), HitsUpTo(xs, i + 1, g));
  }

  // The name of a film

  lemma {:induction false} CrossingsOfFrames(xs: seq<Frame>, i: nat, j: nat, g: Geometry)
    requires i <= j <= |xs|
    ensures Crossings(Run(xs[..i], g).marks.reports) == Crossings(Run(xs[..j], g).marks.reports)
       <==> forall k :: i <= k < j ==> MarkOf(xs, k, g) != 2
    decreases j
  {
    hide Run, MarkOf, Regions, Crossings;
    if i < j {
      CrossingsOfFrames(xs, i, j - 1, g);
      CrossingsLater(xs, i, j - 1, g);
      CrossingsLater(xs, j - 1, j, g);
      MarkSaysWhatWasRaised(xs, j - 1, g);
    }
  }

  lemma {:induction false} NoneCrosses(xs: seq<Frame>, i: nat, j: nat, g: Geometry)
    requires i <= j <= |xs|
    ensures Crossings(Run(xs[..i], g).marks.reports) == Crossings(Run(xs[..j], g).marks.reports)
       <==> forall k :: i <= k < j ==> !FrameCrosses(xs, k, g)
  {
    hide Run, MarkOf, FrameCrosses, Crossings, HitsUpTo, NoneSampled;
    CrossingsOfFrames(xs, i, j, g);
    forall k | i <= k < j ensures MarkOf(xs, k, g) == 2 <==> FrameCrosses(xs, k, g) {
      MarkIs(xs, k, g);
    }
  }

  lemma {:induction false} CrossingsLater(xs: seq<Frame>, i: nat, j: nat, g: Geometry)
    requires i <= j <= |xs|
    ensures Crossings(Run(xs[..i], g).marks.reports) <= Crossings(Run(xs[..j], g).marks.reports)
  {
    hide Run, Crossings, Regions;
    RunLater(xs, i, j, g);
  }

  /** The film of a region alarm bears the name its alarm was given exactly when no hit of the nine frames
      after it is a sampled one, and that of a crossing exactly when in none of those frames the points of a
      trail cross a line. */
  lemma {:induction false} FilmBearsItsOwnName(xs: seq<Frame>, i: nat, g: Geometry)
    requires CENTER <= i <= |xs| - CENTER
    ensures var own, film := Run(xs[..i + 1], g).marks, FilmOf(xs, i, g);
            && (MarkOf(xs, i, g) == 1 ==>
                  (film.name == own.name1 <==> NoneSampled(HitsUpTo(xs, i + 1, g), HitsUpTo(xs, i + CENTER, g))))
            && (MarkOf(xs, i, g) == 2 ==>
                  (film.name == own.name2 <==> forall k :: i < k < i + CENTER ==> !FrameCrosses(xs, k, g)))
  {
    hide Run, FrameCrosses, MarkOf, FilmOf, Regions, Crossings, Samples, HitsUpTo, NoneSampled;
    NameKeptUnlessLaterAlarm(xs, i, g);
    ReportsAreSamples(xs, i + 1, g);
    ReportsAreSamples(xs, i + CENTER, g);
    HitsGrow(xs, i + 1, i + CENTER, g);
    SamplesGrow(HitsUpTo(xs, i + 1, g), HitsUpTo(xs, i + CENTER, g));
    NoneCrosses(xs, i + 1, i + CENTER, g);
  }

  /** Of any seven hits in a row one is a sampled one, also where the count wraps. */
  lemma {:induction false} OneInSeven(a: nat) returns (k: nat)
    ensures a < k <= a + 7 && Sampled(k)
  {
    var r := a % UINT32;
    var q := a / UINT32;
    assert a == q * UINT32 + r;
    if r + 6 < UINT32 {
      var d := 6 - (r + 5) % 6;
      k := a + d;
      Remainder(k, q, r + d);
    } else {
      k := (q + 1) * UINT32 + 1;
      Remainder(k, q + 1, 1);
    }
  }

  lemma {:induction false} Remainder(k: nat, q: nat, r: nat)
    requires k == q * UINT32 + r && r < UINT32
    ensures k % UINT32 == r
  {
  }

  /** With seven hits or more in the nine frames after a region alarm, its film bears another name. */
  lemma {:induction false} SevenHitsMisname(xs: seq<Frame>, i: nat, g: Geometry)
    requires CENTER <= i <= |xs| - CENTER && MarkOf(xs, i, g) == 1
    requires HitsUpTo(xs, i + CENTER, g) >= HitsUpTo(xs, i + 1, g) + 7
    ensures FilmOf(xs, i, g).name != Run(xs[..i + 1], g).marks.name1
  {
    hide Run, MarkOf, FilmOf, HitsUpTo, Sampled;
    FilmBearsItsOwnName(xs, i, g);
    var k := OneInSeven(HitsUpTo(xs, i + 1, g));
  }

  // Somebody who stays inside a region

  /** Borders that nothing can cross. */
  predicate NoLines(borders: seq<Border>) {
    forall k :: 0 <= k < |borders| ==> borders[k].graph != LINE && borders[k].graph != BROKEN_LINE
  }

  /** Every frame has exactly one hit and no line. */
  predicate OneStays(xs: seq<Frame>, g: Geometry) {
    forall i :: 0 <= i < |xs| ==> FrameHits(xs[i].dets, xs[i].borders, g) == 1 && NoLines(xs[i].borders)
  }

  lemma {:induction false} NoLinesNoCrossing(m: Marks, t: Track, borders: seq<Border>, g: Geometry)
    requires |m.condition| > 0 && NoLines(borders)
    ensures CheckLines(m, t, borders, g) == (m, t)
    decreases |borders|
  {
    if |borders| > 0 {
      NoLinesNoCrossing(m, t, borders[1..], g);
    }
  }

  lemma {:induction false} NoLinesNoCrossings(m: Marks, ts: seq<Track>, borders: seq<Border>, g: Geometry)
    requires |m.condition| > 0 && NoLines(borders)
    ensures CheckTrails(m, ts, borders, g).0 == m
    decreases |ts|
  {
    hide CheckLines, NoLines;
    if |ts| > 0 {
      NoLinesNoCrossing(m, ts[0], borders, g);
      NoLinesNoCrossings(m, ts[1..], borders, g);
    }
  }

  /** Without crossings the name is the number of region alarms raised, and the next is one more. */
  predicate Numbered(m: Marks) {
    Crossings(m.reports) == 0 && m.name1 == Regions(m.reports) && m.videoId == m.name1 + 1
  }

  lemma {:induction false} RegionsNumber(m: Marks, foot: Point, borders: seq<Border>, g: Geometry)
    requires |m.condition| > 0 && Numbered(m)
    ensures Numbered(CheckRegions(m, foot, borders, g))
    decreases |borders|
  {
    hide Regions, Crossings;
    if |borders| > 0 {
      ReportsSnoc(m.reports, Region);
      RegionsNumber(if InRegion(foot, borders[0], g) then Hit(m) else m, foot, borders[1..], g);
    }
  }

  lemma {:induction false} PersonsNumber(m: Marks, dets: seq<Detection>, borders: seq<Border>, g: Geometry)
    requires |m.condition| > 0 && Numbered(m)
    ensures Numbered(CheckPersons(m, dets, borders, g))
    decreases |dets|
  {
    hide CheckRegions, Numbered, Foot;
    if |dets| > 0 {
      var foot := Foot(dets[0].lt, dets[0].rb);
      RegionsNumber(m, foot, borders, g);
      var m1 := if dets[0].classId != PERSON_LABEL then m else CheckRegions(m, foot, borders, g);
      PersonsNumber(m1, dets[1..], borders, g);
    }
  }

  lemma {:induction false} StepNumbers(st: State, x: Frame, g: Geometry)
    requires Sized(st) && Numbered(st.marks) && NoLines(x.borders)
    ensures Numbered(Step(st, x, g).marks)
  {
    hide CheckPersons, CheckTrails, AssignAll, Save, NoLines, Regions, Crossings;
    var m := st.marks.(condition := Push(st.marks.condition, 0));
    PersonsNumber(m, x.dets, x.borders, g);
    NoLinesNoCrossings(CheckPersons(m, x.dets, x.borders, g),
                       AssignAll(Age(st.trails), st.nextId, st.now + 1, x.dets, g.score).0, x.borders, g);
  }

  lemma {:induction false} RunNumbers(xs: seq<Frame>, n: nat, g: Geometry)
    requires OneStays(xs, g) && n <= |xs|
    ensures Numbered(Run(xs[..n], g).marks) && HitsUpTo(xs, n, g) == n
    decreases n
  {
    hide Step, FrameHits, NoLines;
    if n > 0 {
      RunNumbers(xs, n - 1, g);
      assert xs[..n][..n - 1] == xs[..n - 1];
      hide Numbered;
      StepNumbers(Run(xs[..n - 1], g), xs[n - 1], g);
    }
  }

  /** While one person stays inside a region, the frames with a sampled hit are marked, and not one film
      bears the name its alarm was given: it bears the number of the alarms up to nine frames later. */
  lemma {:induction false} OneWhoStaysIsMisnamed(xs: seq<Frame>, i: nat, g: Geometry)
    requires OneStays(xs, g) && CENTER <= i <= |xs| - CENTER
    ensures MarkOf(xs, i, g) == if Sampled(i + 1) then 1 else 0
    ensures Sampled(i + 1) ==>
              && Run(xs[..i + 1], g).marks.name1 == Samples(i + 1)
              && FilmOf(xs, i, g).name == Samples(i + CENTER) > Samples(i + 1)
  {
    hide Run, MarkOf, Regions, Crossings, Samples, HitsUpTo, OneStays, Sampled;
    RunNumbers(xs, i, g);
    RunNumbers(xs, i + 1, g);
    RunNumbers(xs, i + CENTER, g);
    ReportsAreSamples(xs, i + 1, g);
    ReportsAreSamples(xs, i + CENTER, g);
    MarkSaysWhatWasRaised(xs, i, g);
    MarkIs(xs, i, g);
    var k := OneInSeven(i + 1);
    SamplesGrow(i + 1, i + CENTER);
  }

  /** Twenty-two frames of one person standing in a region. */
  function Standing(a: Point, b: Point, region: seq<Point>): (xs: seq<Frame>)
    ensures |xs| == 22
  {
    seq(22, i requires 0 <= i < 22 => Frame(i, [Detection(PERSON_LABEL, a, b)], [Border(RECTANGLE, region)]))
  }

  /** A run: the one film made of those frames is of the third alarm and saved under the fourth's name. */
  lemma {:induction false} TwentyTwoFrames(a: Point, b: Point, region: seq<Point>, g: Geometry)
    requires g.inside(RECTANGLE, Foot(a, b), region)
    ensures var xs := Standing(a, b, region);
            Run(xs, g).films == [Film(1, 4, xs[2..])] && Run(xs[..13], g).marks.name1 == 3
  {
    var xs := Standing(a, b, region);
    hide Run, OneStays, Standing, Samples, Sampled, MarkOf, FilmOf, Foot, NoneSampled;
    StandingStays(a, b, region, g);
    OneWhoStaysIsMisnamed(xs, 12, g);
    SamplesAre(13);
    SamplesAre(22);
    SampledAre();
    OneFilm(xs, g);
    FilmIs(xs, g);
  }

  lemma {:induction false} SampledAre()
    ensures !Sampled(11) && !Sampled(12) && Sampled(13)
  {
  }

  lemma {:induction false} FilmIs(xs: seq<Frame>, g: Geometry)
    requires |xs| == 22 && MarkOf(xs, 12, g) == 1
    ensures FilmOf(xs, 12, g) == Film(1, FilmOf(xs, 12, g).name, xs[2..])
  {
    hide Run, MarkOf;
    assert xs[2..22] == xs[2..];
  }

  lemma {:induction false} OneFilm(xs: seq<Frame>, g: Geometry)
    requires OneStays(xs, g) && |xs| == 22
    ensures Run(xs, g).films == [FilmOf(xs, 12, g)]
  {
    hide Run, OneStays, Samples, Sampled, MarkOf, FilmOf;
    OneWhoStaysIsMisnamed(xs, 10, g);
    OneWhoStaysIsMisnamed(xs, 11, g);
    OneWhoStaysIsMisnamed(xs, 12, g);
    SampledAre();
    assert Due(xs, 19, g) == [];
    assert Due(xs, 20, g) == [] && Due(xs, 21, g) == [];
    assert Due(xs, 22, g) == [12];
    assert xs[..22] == xs;
    FilmsUpTo(xs, 22, g);
  }

  lemma {:induction false} StandingStays(a: Point, b: Point, region: seq<Point>, g: Geometry)
    requires g.inside(RECTANGLE, Foot(a, b), region)
    ensures OneStays(Standing(a, b, region), g)
  {
    hide FrameHits, Foot;
    OneHit(a, b, region, g);
  }

  lemma {:induction false} OneHit(a: Point, b: Point, region: seq<Point>, g: Geometry)
    requires g.inside(RECTANGLE, Foot(a, b), region)
    ensures FrameHits([Detection(PERSON_LABEL, a, b)], [Border(RECTANGLE, region)], g) == 1
  {
    var borders := [Border(RECTANGLE, region)];
    assert borders[1..] == [];
    assert FootHits(Foot(a, b), borders, g) == 1;
    var dets := [Detection(PERSON_LABEL, a, b)];
    assert dets[1..] == [];
    assert FrameHits([], borders, g) == 0;
  }
}
