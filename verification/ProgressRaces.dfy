/**
 * `recalculate` split at its awaits, with any number of them overlapping: it reads the lesson records,
 * then the enrollment row, then writes the row.  The cached percent may then lag and the completion
 * event may repeat; this says by how much.  `catalog` gives the lesson counts, fixed over a run.
 */
module ProgressRaces {
  import opened Base
  import opened Enrollments
  import opened ProgressRuns

  /**
   * What one recalculation has read of the lesson records, after `at` steps.  `announces` is None
   * until it has read the row, and then says whether its write will announce the completion.
   */
  datatype Summary = Summary(key: Key, percent: nat, finished: bool, announces: Option<bool>, at: nat)

  /**
   * History variables: `steps` counts the steps taken, and `shown` says of a row when the summary it
   * shows was read.
   */
  datatype Racing = Racing(db: Db, summaries: seq<Option<Summary>>, steps: nat, shown: map<Key, nat>)

  datatype Step =
    | Marks(user: nat, lesson: Lesson, now: nat)
    | Reads(key: Key)
    | Looks(read: nat)
    | Writes(read: nat, now: nat)
    | Admits(key: Key, source: Source, paymentId: Option<nat>)
    | Expels(key: Key, now: nat)

  function Exact(db: Db, key: Key, catalog: map<nat, nat>): nat {
    Percent(|CompletedLessons(db, key)|, Total(catalog, key.course))
  }

  function ReadSummary(db: Db, key: Key, catalog: map<nat, nat>, at: nat): Summary {
    Summary(key, Exact(db, key, catalog), Finishes(|CompletedLessons(db, key)|, Total(catalog, key.course)), None, at)
  }

  /** Without a row there is nothing to write. */
  function LookAtRow(db: Db, s: Summary): Option<Summary> {
    if s.key !in db.enrollments then None
    else Some(s.(announces := Some(s.finished && db.enrollments[s.key].completedAt.None?)))
  }

  function WriteSummary(db: Db, s: Summary, now: nat): Db {
    if s.key !in db.enrollments then db
    else
      var e := db.enrollments[s.key].(progressPercent := s.percent);
      if s.announces == Some(true)
      then db.(enrollments := db.enrollments[s.key := e.(completedAt := Some(now), status := Completed)],
               announced := db.announced + [s.key])
      else db.(enrollments := db.enrollments[s.key := e])
  }

  predicate Unread(m: Racing, i: nat) {
    i < |m.summaries| && m.summaries[i].Some? && m.summaries[i].value.announces.None?
  }

  predicate Ready(m: Racing, i: nat) {
    i < |m.summaries| && m.summaries[i].Some? && m.summaries[i].value.announces.Some?
  }

  function Next(m: Racing, s: Step, catalog: map<nat, nat>): Racing {
    var n := m.(steps := m.steps + 1);
    match s
    case Marks(user, lesson, now) => n.(db := MarkComplete(m.db, user, lesson, now))
    case Reads(key) => n.(summaries := m.summaries + [Some(ReadSummary(m.db, key, catalog, m.steps))])
    case Looks(i) =>
      if Unread(m, i) then n.(summaries := m.summaries[i := LookAtRow(m.db, m.summaries[i].value)]) else n
    case Writes(i, now) =>
      if Ready(m, i) then
        var summary := m.summaries[i].value;
        n.(db := WriteSummary(m.db, summary, now), summaries := m.summaries[i := None],
           shown := m.shown[summary.key := summary.at])
      else n
    case Admits(key, source, paymentId) => n.(db := Admit(m.db, key, source, paymentId))
    case Expels(key, now) => n.(db := Expel(m.db, key, now))
  }

  function Run(m: Racing, run: seq<Step>, catalog: map<nat, nat>): Racing {
    if run == [] then m else Next(Run(m, run[..|run| - 1], catalog), run[|run| - 1], catalog)
  }

  const EMPTY := Racing(Db(map[], {}, map[], []), [], 0, map[])

  /** The two reads and the write back to back are the whole call. */
  lemma RecalculateIsItsSteps(db: Db, key: Key, catalog: map<nat, nat>, now: nat)
    ensures var seen := LookAtRow(db, ReadSummary(db, key, catalog, 0));
      (if seen.Some? then WriteSummary(db, seen.value, now) else db)
      == Recalculate(db, key, Total(catalog, key.course), now)
  {
  }

  // ---- the cached percent is never ahead ----------------------------------------------------------

  /** Neither the row nor any summary under way claims more than a recount would. */
  predicate Behind(m: Racing, key: Key, catalog: map<nat, nat>) {
    && (key in m.db.enrollments ==> m.db.enrollments[key].progressPercent <= Exact(m.db, key, catalog))
    && (forall i :: 0 <= i < |m.summaries| && m.summaries[i].Some? && m.summaries[i].value.key == key ==>
                      m.summaries[i].value.percent <= Exact(m.db, key, catalog))
  }

  lemma StepKeepsCompleted(m: Racing, s: Step, key: Key, catalog: map<nat, nat>)
    ensures CompletedLessons(m.db, key) <= CompletedLessons(Next(m, s, catalog).db, key)
    ensures Exact(m.db, key, catalog) <= Exact(Next(m, s, catalog).db, key, catalog)
  {
    var n := Next(m, s, catalog);
    assert s.Marks? || n.db.progress == m.db.progress;
    SubsetSize(CompletedLessons(m.db, key), CompletedLessons(n.db, key));
    PercentMonotone(|CompletedLessons(m.db, key)|, |CompletedLessons(n.db, key)|, Total(catalog, key.course));
  }

  lemma StepKeepsBehind(m: Racing, s: Step, key: Key, catalog: map<nat, nat>)
    requires Behind(m, key, catalog)
    ensures Behind(Next(m, s, catalog), key, catalog)
  {
    StepKeepsCompleted(m, s, key, catalog);
  }

  /** However recalculations overlap, the cached percent never exceeds the true one. */
  lemma {:induction false} CachedPercentIsNeverAhead(run: seq<Step>, key: Key, catalog: map<nat, nat>)
    ensures Behind(Run(EMPTY, run, catalog), key, catalog)
  {
    if run != [] {
      CachedPercentIsNeverAhead(run[..|run| - 1], key, catalog);
      StepKeepsBehind(Run(EMPTY, run[..|run| - 1], catalog), run[|run| - 1], key, catalog);
    }
  }

  // ---- what the cached percent shows --------------------------------------------------------------

  /** The true percent after the first `at` steps. */
  function ExactAt(run: seq<Step>, at: nat, key: Key, catalog: map<nat, nat>): nat
    requires at <= |run|
  {
    Exact(Run(EMPTY, run[..at], catalog).db, key, catalog)
  }

  predicate ShowsItsRead(run: seq<Step>, m: Racing, key: Key, catalog: map<nat, nat>) {
    && m.steps == |run|
    && (key in m.shown ==> key in m.db.enrollments && m.shown[key] <= |run|
                           && m.db.enrollments[key].progressPercent == ExactAt(run, m.shown[key], key, catalog))
    && (key !in m.shown && key in m.db.enrollments ==> m.db.enrollments[key].progressPercent == 0)
    && (forall i :: 0 <= i < |m.summaries| && m.summaries[i].Some? && m.summaries[i].value.key == key ==>
          && (m.summaries[i].value.announces.Some? ==> key in m.db.enrollments) && m.summaries[i].value.at <= |run|
          && m.summaries[i].value.percent == ExactAt(run, m.summaries[i].value.at, key, catalog))
  }

  /** What held of the steps so far holds of them in a longer run. */
  lemma {:induction false} LongerRun(run: seq<Step>, m: Racing, s: Step, key: Key, catalog: map<nat, nat>)
    requires ShowsItsRead(run, m, key, catalog)
    ensures ShowsItsRead(run + [s], m.(steps := |run| + 1), key, catalog)
  {
    forall at: nat | at <= |run|
      ensures ExactAt(run + [s], at, key, catalog) == ExactAt(run, at, key, catalog)
    {
      assert (run + [s])[..at] == run[..at];
    }
  }

  lemma {:induction false} StepShows(run: seq<Step>, m: Racing, s: Step, key: Key, catalog: map<nat, nat>)
    requires m == Run(EMPTY, run, catalog) && ShowsItsRead(run, m, key, catalog)
    ensures ShowsItsRead(run + [s], Next(m, s, catalog), key, catalog)
  {
    LongerRun(run, m, s, key, catalog);
    assert (run + [s])[..|run|] == run;
    assert ExactAt(run + [s], |run|, key, catalog) == Exact(m.db, key, catalog);
  }

  lemma {:induction false} LastStepShows(run: seq<Step>, key: Key, catalog: map<nat, nat>)
    requires run != [] && ShowsItsRead(run[..|run| - 1], Run(EMPTY, run[..|run| - 1], catalog), key, catalog)
    ensures ShowsItsRead(run, Run(EMPTY, run, catalog), key, catalog)
  {
    var before, last := run[..|run| - 1], run[|run| - 1];
    var m := Run(EMPTY, before, catalog);
    StepShows(before, m, last, key, catalog);
    assert before + [last] == run;
    assert Next(m, last, catalog) == Run(EMPTY, run, catalog);
  }

  /**
   * However recalculations overlap, the cached percent is the true percent of the moment at which
   * the summary written last was read; so it is exact if and only if that percent still is.
   */
  lemma {:induction false} CachedPercentShowsItsRead(run: seq<Step>, key: Key, catalog: map<nat, nat>)
    ensures ShowsItsRead(run, Run(EMPTY, run, catalog), key, catalog)
  {
    if run != [] {
      CachedPercentShowsItsRead(run[..|run| - 1], key, catalog);
      LastStepShows(run, key, catalog);
    }
  }

  /** In the source's terms: the rounded percent of the lessons that were complete at that moment. */
  lemma {:induction false} CachedPercentIsRounded(run: seq<Step>, key: Key, catalog: map<nat, nat>)
    requires key in Run(EMPTY, run, catalog).shown
    ensures var m := Run(EMPTY, run, catalog);
      && m.shown[key] <= |run| && key in m.db.enrollments
      && Rounded(m.db.enrollments[key].progressPercent,
                 |CompletedLessons(Run(EMPTY, run[..m.shown[key]], catalog).db, key)|, Total(catalog, key.course))
  {
    CachedPercentShowsItsRead(run, key, catalog);
    var read := Run(EMPTY, run[..Run(EMPTY, run, catalog).shown[key]], catalog);
    PercentIsRounded(|CompletedLessons(read.db, key)|, Total(catalog, key.course));
  }

  lemma {:induction false} NextExactIsNoLess(run: seq<Step>, b: nat, key: Key, catalog: map<nat, nat>)
    requires 0 < b <= |run|
    ensures ExactAt(run, b - 1, key, catalog) <= ExactAt(run, b, key, catalog)
  {
    var m := Run(EMPTY, run[..b - 1], catalog);
    assert run[..b][..b - 1] == run[..b - 1];
    assert Run(EMPTY, run[..b], catalog) == Next(m, run[b - 1], catalog);
    StepKeepsCompleted(m, run[b - 1], key, catalog);
  }

  lemma {:induction false} ExactNeverFalls(run: seq<Step>, a: nat, b: nat, key: Key, catalog: map<nat, nat>)
    requires a <= b <= |run|
    ensures ExactAt(run, a, key, catalog) <= ExactAt(run, b, key, catalog)
    decreases b
  {
    if a < b {
      ExactNeverFalls(run, a, b - 1, key, catalog);
      NextExactIsNoLess(run, b, key, catalog);
    }
  }

  /** This step writes a summary of `key` that was read before the one the row shows. */
  predicate WritesBack(m: Racing, s: Step, key: Key) {
    && s.Writes? && Ready(m, s.read) && m.summaries[s.read].value.key == key
    && key in m.shown && m.summaries[s.read].value.at < m.shown[key]
  }

  predicate WritesInOrder(run: seq<Step>, key: Key, catalog: map<nat, nat>) {
    run == []
    || (WritesInOrder(run[..|run| - 1], key, catalog)
          && !WritesBack(Run(EMPTY, run[..|run| - 1], catalog), run[|run| - 1], key))
  }

  lemma {:induction false} StepRaisesCached(run: seq<Step>, m: Racing, s: Step, key: Key, catalog: map<nat, nat>)
    requires m == Run(EMPTY, run, catalog) && ShowsItsRead(run, m, key, catalog)
    requires key in m.db.enrollments && !WritesBack(m, s, key)
    ensures key in Next(m, s, catalog).db.enrollments
    ensures m.db.enrollments[key].progressPercent <= Next(m, s, catalog).db.enrollments[key].progressPercent
  {
    if s.Writes? && Ready(m, s.read) && m.summaries[s.read].value.key == key {
      if key in m.shown {
        ExactNeverFalls(run, m.shown[key], m.summaries[s.read].value.at, key, catalog);
      }
    }
  }

  /** The cached percent of a row can only fall when a summary is written after one read later. */
  lemma {:induction false} CachedPercentRisesInOrder(run: seq<Step>, k: nat, key: Key, catalog: map<nat, nat>)
    requires k <= |run| && WritesInOrder(run, key, catalog) && key in Run(EMPTY, run[..k], catalog).db.enrollments
    ensures var m, n := Run(EMPTY, run[..k], catalog), Run(EMPTY, run, catalog);
      key in n.db.enrollments && m.db.enrollments[key].progressPercent <= n.db.enrollments[key].progressPercent
    decreases |run|
  {
    if k == |run| {
      assert run[..k] == run;
    } else {
      var before := run[..|run| - 1];
      assert before[..k] == run[..k];
      CachedPercentRisesInOrder(before, k, key, catalog);
      CachedPercentShowsItsRead(before, key, catalog);
      StepRaisesCached(before, Run(EMPTY, before, catalog), run[|run| - 1], key, catalog);
    }
  }

  /** Whatever stale value is cached, the next recalculation left alone makes it exact. */
  lemma RecalculationRepairs(m: Racing, key: Key, catalog: map<nat, nat>, now: nat)
    requires key in m.db.enrollments
    ensures var k := |m.summaries|;
      var n := Next(Next(Next(m, Reads(key), catalog), Looks(k), catalog), Writes(k, now), catalog);
      n.db.enrollments[key].progressPercent == Exact(n.db, key, catalog)
  {
    var k := |m.summaries|;
    var m1 := Next(m, Reads(key), catalog);
    assert Unread(m1, k);
    var m2 := Next(m1, Looks(k), catalog);
    assert Ready(m2, k);
    var n := Next(m2, Writes(k, now), catalog);
    assert n.db.progress == m.db.progress;
  }

  /** A recalculation overtaken by a lesson and by the recalculation for it. */
  function Overtaken(m: Racing, user: nat, lesson: Lesson, now: nat): seq<Step> {
    var key, k := Key(user, lesson.course), |m.summaries|;
    [Reads(key), Marks(user, lesson, now), Reads(key), Looks(k), Looks(k + 1), Writes(k + 1, now), Writes(k, now)]
  }

  function SixSteps(m: Racing, r: seq<Step>, catalog: map<nat, nat>): Racing
    requires |r| >= 6
  {
    Next(Next(Next(Next(Next(Next(m, r[0], catalog), r[1], catalog), r[2], catalog), r[3], catalog), r[4], catalog),
      r[5], catalog)
  }

  lemma OvertakenWritesBack(m: Racing, user: nat, lesson: Lesson, catalog: map<nat, nat>, now: nat)
    requires Key(user, lesson.course) in m.db.enrollments
    ensures var key, r := Key(user, lesson.course), Overtaken(m, user, lesson, now);
      var before := SixSteps(m, r, catalog);
      var end := Next(before, r[6], catalog);
      var raised := Exact(MarkComplete(m.db, user, lesson, now), key, catalog);
      && key in before.db.enrollments && key in end.db.enrollments
      && before.db.enrollments[key].progressPercent == raised
      && Exact(before.db, key, catalog) == raised && Exact(end.db, key, catalog) == raised
      && end.db.enrollments[key].progressPercent == Exact(m.db, key, catalog)
  {
    var key, k, r := Key(user, lesson.course), |m.summaries|, Overtaken(m, user, lesson, now);
    var m1 := Next(m, r[0], catalog);
    var m2 := Next(m1, r[1], catalog);
    var m3 := Next(m2, r[2], catalog);
    var s, s' := ReadSummary(m.db, key, catalog, m.steps), ReadSummary(m2.db, key, catalog, m2.steps);
    assert m3.summaries == m.summaries + [Some(s), Some(s')] && m3.db == m2.db;
    var m4 := Next(m3, r[3], catalog);
    assert Unread(m3, k) && m4.summaries == m3.summaries[k := LookAtRow(m2.db, s)] && m4.db == m2.db;
    var m5 := Next(m4, r[4], catalog);
    assert Unread(m4, k + 1) && m5.summaries == m4.summaries[k + 1 := LookAtRow(m2.db, s')] && m5.db == m2.db;
    var m6 := Next(m5, r[5], catalog);
    assert Ready(m5, k + 1) && m6.db.progress == m2.db.progress && m6.summaries[k] == m5.summaries[k];
    var m7 := Next(m6, r[6], catalog);
    assert Ready(m6, k) && m7.db.progress == m2.db.progress;
  }

  /**
   * The percent can lag with nothing left under way: whenever a lesson raises the true percent, an
   * overtaken recalculation writes the old one back, below the one just cached.
   */
  lemma {:induction false} CachedPercentCanLag(m: Racing, user: nat, lesson: Lesson, catalog: map<nat, nat>, now: nat)
    requires var key := Key(user, lesson.course);
      key in m.db.enrollments && Exact(m.db, key, catalog) < Exact(MarkComplete(m.db, user, lesson, now), key, catalog)
    ensures var key, run := Key(user, lesson.course), Overtaken(m, user, lesson, now);
      var before, end := Run(m, run[..6], catalog), Run(m, run, catalog);
      && key in before.db.enrollments && key in end.db.enrollments
      && before.db.enrollments[key].progressPercent == Exact(before.db, key, catalog)
      && end.db.enrollments[key].progressPercent < before.db.enrollments[key].progressPercent
      && end.db.enrollments[key].progressPercent < Exact(end.db, key, catalog)
  {
    OvertakenWritesBack(m, user, lesson, catalog, now);
    SevenSteps(m, Overtaken(m, user, lesson, now), catalog);
  }

  lemma {:induction false} SevenSteps(m: Racing, r: seq<Step>, catalog: map<nat, nat>)
    requires |r| == 7
    ensures Run(m, r[..6], catalog) == SixSteps(m, r, catalog)
    ensures Run(m, r, catalog) == Next(Run(m, r[..6], catalog), r[6], catalog)
  {
    assert r[..6][..5] == r[..5] && r[..5][..4] == r[..4] && r[..4][..3] == r[..3] && r[..3][..2] == r[..2];
    assert r[..2][..1] == [r[0]] && [r[0]][..0] == [];
    assert Run(m, r[..1], catalog) == Next(Run(m, [], catalog), r[0], catalog);
    assert Run(m, r[..2], catalog) == Next(Run(m, r[..1], catalog), r[1], catalog);
    assert Run(m, r[..3], catalog) == Next(Run(m, r[..2], catalog), r[2], catalog);
    assert Run(m, r[..4], catalog) == Next(Run(m, r[..3], catalog), r[3], catalog);
    assert Run(m, r[..5], catalog) == Next(Run(m, r[..4], catalog), r[4], catalog);
  }

  // ---- how often the completion is announced --------------------------------------------------------

  function Times(announced: seq<Key>, key: Key): nat {
    multiset(announced)[key]
  }

  /** Recalculations that have read an unfinished row of `key` and will announce its completion. */
  function Announcing(summaries: seq<Option<Summary>>, key: Key): set<nat> {
    set i | 0 <= i < |summaries| && WillAnnounce(summaries[i], key)
  }

  predicate WillAnnounce(s: Option<Summary>, key: Key) {
    s.Some? && s.value.key == key && s.value.announces == Some(true)
  }

  predicate HasFinished(db: Db, key: Key) {
    key in db.enrollments && db.enrollments[key].completedAt.Some?
  }

  predicate RowsRead(m: Racing) {
    forall i :: 0 <= i < |m.summaries| && Ready(m, i) ==> m.summaries[i].value.key in m.db.enrollments
  }

  /** This step reads the row of `key` unfinished, for a recalculation past its finish line. */
  predicate SeesFirstFinish(m: Racing, s: Step, key: Key) {
    && s.Looks? && Unread(m, s.read)
    && m.summaries[s.read].value.key == key && m.summaries[s.read].value.finished
    && key in m.db.enrollments && m.db.enrollments[key].completedAt.None?
  }

  lemma SummaryChanges(summaries: seq<Option<Summary>>, i: nat, s: Option<Summary>, key: Key)
    requires i < |summaries|
    ensures |Announcing(summaries[i := s], key)| == |Announcing(summaries, key)|
      - (if WillAnnounce(summaries[i], key) then 1 else 0) + (if WillAnnounce(s, key) then 1 else 0)
  {
    var rest := Announcing(summaries, key) - {i};
    assert Announcing(summaries[i := s], key) == if WillAnnounce(s, key) then rest + {i} else rest;
  }

  lemma WriteCounts(m: Racing, i: nat, now: nat, key: Key, catalog: map<nat, nat>)
    requires RowsRead(m) && Ready(m, i)
    ensures var n := Next(m, Writes(i, now), catalog);
      Times(n.db.announced, key) + |Announcing(n.summaries, key)| ==
        Times(m.db.announced, key) + |Announcing(m.summaries, key)|
  {
    var n := Next(m, Writes(i, now), catalog);
    var s := m.summaries[i].value;
    SummaryChanges(m.summaries, i, None, key);
    TimesSnoc(m.db.announced, s.key, key);
    assert n.summaries == m.summaries[i := None];
    assert n.db.announced == if s.announces == Some(true) then m.db.announced + [s.key] else m.db.announced;
  }

  lemma TimesSnoc(announced: seq<Key>, last: Key, key: Key)
    ensures Times(announced + [last], key) == Times(announced, key) + (if last == key then 1 else 0)
  {
  }

  /** Announcements made or under way grow only by a read of an unfinished row past its finish line. */
  lemma StepCounts(m: Racing, s: Step, key: Key, catalog: map<nat, nat>)
    requires RowsRead(m)
    ensures var n := Next(m, s, catalog);
      && Times(n.db.announced, key) + |Announcing(n.summaries, key)| ==
         Times(m.db.announced, key) + |Announcing(m.summaries, key)| + (if SeesFirstFinish(m, s, key) then 1 else 0)
  {
    var n := Next(m, s, catalog);
    if s.Reads? {
      assert Announcing(n.summaries, key) == Announcing(m.summaries, key);
    } else if s.Looks? && Unread(m, s.read) {
      SummaryChanges(m.summaries, s.read, LookAtRow(m.db, m.summaries[s.read].value), key);
    } else if s.Writes? && Ready(m, s.read) {
      WriteCounts(m, s.read, s.now, key, catalog);
    }
  }

  lemma StepKeepsFinished(m: Racing, s: Step, key: Key, catalog: map<nat, nat>)
    requires RowsRead(m)
    ensures RowsRead(Next(m, s, catalog)) && (HasFinished(m.db, key) ==> HasFinished(Next(m, s, catalog).db, key))
  {
  }

  /**
   * The exact price of the race: once the row is marked finished, further announcements come only
   * from recalculations that had already read it unfinished, one each.
   */
  lemma {:induction false} RepeatsAreInFlight(m: Racing, run: seq<Step>, key: Key, catalog: map<nat, nat>)
    requires RowsRead(m) && HasFinished(m.db, key)
    ensures var n := Run(m, run, catalog);
      && RowsRead(n) && HasFinished(n.db, key)
      && Times(n.db.announced, key) + |Announcing(n.summaries, key)| ==
         Times(m.db.announced, key) + |Announcing(m.summaries, key)|
  {
    if run != [] {
      RepeatsAreInFlight(m, run[..|run| - 1], key, catalog);
      StepCounts(Run(m, run[..|run| - 1], catalog), run[|run| - 1], key, catalog);
      StepKeepsFinished(Run(m, run[..|run| - 1], catalog), run[|run| - 1], key, catalog);
    }
  }

  /** Two recalculations, both past their reads before either writes. */
  function Overlapping(m: Racing, key: Key, now: nat): seq<Step> {
    var k := |m.summaries|;
    [Reads(key), Reads(key), Looks(k), Looks(k + 1), Writes(k, now), Writes(k + 1, now)]
  }

  lemma OverlappingBothWrite(m: Racing, key: Key, catalog: map<nat, nat>, now: nat)
    requires key in m.db.enrollments
    ensures SixSteps(m, Overlapping(m, key, now), catalog).db.announced ==
      if FirstFinish(m.db, key, Total(catalog, key.course)) then m.db.announced + [key, key] else m.db.announced
  {
    var k, r := |m.summaries|, Overlapping(m, key, now);
    var s, s' := ReadSummary(m.db, key, catalog, m.steps), ReadSummary(m.db, key, catalog, m.steps + 1);
    var m2 := Next(Next(m, r[0], catalog), r[1], catalog);
    assert m2.db == m.db && m2.summaries == m.summaries + [Some(s), Some(s')];
    var m3 := Next(m2, r[2], catalog);
    assert Unread(m2, k) && m3.db == m.db && m3.summaries == m2.summaries[k := LookAtRow(m.db, s)];
    var m4 := Next(m3, r[3], catalog);
    assert Unread(m3, k + 1) && m4.db == m.db && m4.summaries == m3.summaries[k + 1 := LookAtRow(m.db, s')];
    var m5 := Next(m4, r[4], catalog);
    assert Ready(m4, k) && m5.db == WriteSummary(m.db, m4.summaries[k].value, now);
    assert m5.summaries[k + 1] == m4.summaries[k + 1];
    var n := Next(m5, r[5], catalog);
    assert Ready(m5, k + 1) && n.db == WriteSummary(m5.db, m5.summaries[k + 1].value, now);
  }

  /** Two overlapping recalculations announce twice exactly when one alone would announce at all. */
  lemma {:induction false} OverlapAnnouncesTwiceIff(m: Racing, key: Key, catalog: map<nat, nat>, now: nat)
    requires key in m.db.enrollments
    ensures Run(m, Overlapping(m, key, now), catalog).db.announced ==
      if FirstFinish(m.db, key, Total(catalog, key.course)) then m.db.announced + [key, key] else m.db.announced
  {
    var r := Overlapping(m, key, now);
    OverlappingBothWrite(m, key, catalog, now);
    SevenSteps(m, r + [Reads(key)], catalog);
    assert (r + [Reads(key)])[..6] == r;
    assert SixSteps(m, r + [Reads(key)], catalog) == SixSteps(m, r, catalog);
  }
}
