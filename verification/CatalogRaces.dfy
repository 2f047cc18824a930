/**
 * The counters of a course when edits overlap: a call edits its rows, then sums up the course's
 * lessons, then stores the sums, and any number of calls may come between.
 */
module CatalogRaces {
  import opened Base
  import opened Reorder
  import opened Catalog

  /** What a refresh has read of the lessons, after `at` steps, and is about to store. */
  datatype Sums = Sums(course: nat, count: nat, seconds: nat, at: nat)

  /**
   * History variables: `steps` counts the steps taken, and `shown` says of a course when the sums it
   * shows were read.
   */
  datatype Racing = Racing(db: Db, sums: seq<Option<Sums>>, steps: nat, shown: map<nat, nat>)

  datatype Step = Edit(call: Call) | Sum(course: nat) | Store(sum: nat)

  /** The call's edit without its refresh: every existing course keeps the counters it shows. */
  function KeepCounters(before: seq<Course>, after: seq<Course>): seq<Course> {
    seq(|after|, i requires 0 <= i < |after| =>
      if i < |before|
      then after[i].(lessonCount := before[i].lessonCount, durationMinutes := before[i].durationMinutes)
      else after[i])
  }

  function EditOnly(db: Db, call: Call): Db {
    var db' := Serve(db, call);
    db'.(courses := KeepCounters(db.courses, db'.courses))
  }

  function StoreSums(db: Db, s: Sums): Db {
    if s.course >= |db.courses| then db
    else db.(courses := db.courses[s.course := db.courses[s.course].(
               lessonCount := s.count, durationMinutes := RoundDiv(s.seconds, 60))])
  }

  function Next(m: Racing, s: Step): Racing {
    var n := m.(steps := m.steps + 1);
    match s
    case Edit(call) => n.(db := EditOnly(m.db, call))
    case Sum(course) =>
      n.(sums := m.sums
        + [Some(Sums(course, |Live(m.db.lessons, course)|, TotalSeconds(m.db.lessons, course), m.steps))])
    case Store(i) =>
      if i < |m.sums| && m.sums[i].Some? && m.sums[i].value.course < |m.db.courses| then
        n.(db := StoreSums(m.db, m.sums[i].value), sums := m.sums[i := None],
           shown := m.shown[m.sums[i].value.course := m.sums[i].value.at])
      else n
  }

  const EMPTY := Racing(Db([], [], []), [], 0, map[])

  function Run(run: seq<Step>): Racing {
    if run == [] then EMPTY else Next(Run(run[..|run| - 1]), run[|run| - 1])
  }

  // ---- what does not depend on the counters -----------------------------------------------------------

  predicate Keys(db: Db) {
    Refers(db) && Keyed(ModuleRanks(db.modules)) && Keyed(LessonRanks(db.lessons)) && UniqueSlugs(db.lessons)
  }

  /** The same tables up to the counters. */
  predicate SameRows(a: Db, b: Db) {
    && a.modules == b.modules && a.lessons == b.lessons && |a.courses| == |b.courses|
    && forall c :: 0 <= c < |a.courses| ==> a.courses[c].deleted == b.courses[c].deleted
  }

  /** The tables as they would be if every counter were right. */
  function Exacted(db: Db): (r: Db)
    ensures SameRows(db, r) && forall c :: 0 <= c < |r.courses| ==> CountersExact(r, c)
  {
    db.(courses := seq(|db.courses|, c requires 0 <= c < |db.courses| =>
      Course(|Live(db.lessons, c)|, RoundDiv(TotalSeconds(db.lessons, c), 60), db.courses[c].deleted)))
  }

  lemma LessonCallIgnoresCounters(a: Db, b: Db, call: Call)
    requires SameRows(a, b) && LessonCall(call)
    ensures SameRows(Serve(a, call), Serve(b, call))
  {
  }

  /** No call looks at the counters. */
  lemma ServeIgnoresCounters(a: Db, b: Db, call: Call)
    requires SameRows(a, b)
    ensures SameRows(Serve(a, call), Serve(b, call))
  {
    if LessonCall(call) {
      LessonCallIgnoresCounters(a, b, call);
    }
  }

  lemma EditKeepsKeys(db: Db, call: Call)
    requires Keys(db)
    ensures Keys(EditOnly(db, call))
  {
    ServeIgnoresCounters(db, Exacted(db), call);
    ServeKeepsConsistent(Exacted(db), call);
    assert SameRows(EditOnly(db, call), Serve(Exacted(db), call));
  }

  /** However edits and refreshes overlap, orders and slugs stay unique and references hold. */
  lemma {:induction false} RunKeepsKeys(run: seq<Step>)
    ensures Keys(Run(run).db)
  {
    if run != [] {
      var m, s := Run(run[..|run| - 1]), run[|run| - 1];
      RunKeepsKeys(run[..|run| - 1]);
      if s.Edit? {
        EditKeepsKeys(m.db, s.call);
      } else {
        assert Next(m, s).db.modules == m.db.modules && Next(m, s).db.lessons == m.db.lessons;
      }
    }
  }

  // ---- what the counters show ---------------------------------------------------------------------------

  predicate Shows(course: Course, lessons: seq<Lesson>, c: nat) {
    && course.lessonCount == |Live(lessons, c)|
    && course.durationMinutes == RoundDiv(TotalSeconds(lessons, c), 60)
  }

  /** The lessons after the first `at` steps. */
  function LessonsAt(run: seq<Step>, at: nat): seq<Lesson>
    requires at <= |run|
  {
    Run(run[..at]).db.lessons
  }

  predicate ShowsItsRead(run: seq<Step>, m: Racing, c: nat) {
    && m.steps == |run|
    && (c in m.shown ==>
          c < |m.db.courses| && m.shown[c] <= |run| && Shows(m.db.courses[c], LessonsAt(run, m.shown[c]), c))
    && (c !in m.shown && c < |m.db.courses| ==>
          m.db.courses[c].lessonCount == 0 && m.db.courses[c].durationMinutes == 0)
    && (forall i :: 0 <= i < |m.sums| && m.sums[i].Some? && m.sums[i].value.course == c ==>
          && m.sums[i].value.at <= |run|
          && m.sums[i].value.count == |Live(LessonsAt(run, m.sums[i].value.at), c)|
          && m.sums[i].value.seconds == TotalSeconds(LessonsAt(run, m.sums[i].value.at), c))
  }

  lemma {:induction false} LongerRun(run: seq<Step>, m: Racing, s: Step, c: nat)
    requires ShowsItsRead(run, m, c)
    ensures ShowsItsRead(run + [s], m.(steps := |run| + 1), c)
  {
    forall at: nat | at <= |run|
      ensures LessonsAt(run + [s], at) == LessonsAt(run, at)
    {
      assert (run + [s])[..at] == run[..at];
    }
  }

  lemma EditKeepsCounters(db: Db, call: Call, c: nat)
    ensures var after := EditOnly(db, call).courses;
      && |db.courses| <= |after|
      && (c < |db.courses| ==>
            after[c].lessonCount == db.courses[c].lessonCount
              && after[c].durationMinutes == db.courses[c].durationMinutes)
      && (|db.courses| <= c < |after| ==> after[c] == Course(0, 0, false))
  {
  }

  lemma {:induction false} StepShows(run: seq<Step>, m: Racing, s: Step, c: nat)
    requires m == Run(run) && ShowsItsRead(run, m, c)
    ensures ShowsItsRead(run + [s], Next(m, s), c)
  {
    LongerRun(run, m, s, c);
    if s.Edit? {
      EditKeepsCounters(m.db, s.call, c);
    } else if s.Sum? {
      assert (run + [s])[..|run|] == run;
      assert LessonsAt(run + [s], |run|) == m.db.lessons;
    }
  }

  /**
   * However edits and refreshes overlap, a course's counters are those of its lessons at the moment
   * the sums stored last were read; so they are exact if and only if those sums still are.
   */
  lemma {:induction false} CountersShowTheirRead(run: seq<Step>, c: nat)
    ensures ShowsItsRead(run, Run(run), c)
  {
    if run != [] {
      var before, last := run[..|run| - 1], run[|run| - 1];
      assert before + [last] == run && Next(Run(before), last) == Run(run);
      CountersShowTheirRead(before, c);
      StepShows(before, Run(before), last, c);
    }
  }

  /** The calls that end with a refresh. */
  predicate CountedCall(call: Call) {
    LessonCall(call) && !call.CallReorderLessons?
  }

  /** The course whose counters a lesson call refreshes, if the call gets that far. */
  function Refreshed(db: Db, call: Call): Option<nat>
    requires Refers(db) && CountedCall(call)
  {
    match call
    case CallAddLesson(mod, order, base, duration) =>
      if AddLesson(db, mod, order, base, duration).Some? then Some(db.modules[mod].rank.parent) else None
    case CallUpdateLesson(id, order, duration) =>
      if UpdateLesson(db, id, order, duration).Some? then Some(db.lessons[id].course) else None
    case CallRemoveLesson(id) => if id < |db.lessons| then Some(db.lessons[id].course) else None
  }

  lemma RefreshIsSumAndStore(m: Racing, c: nat)
    requires c < |m.db.courses|
    ensures Next(Next(m, Sum(c)), Store(|m.sums|)).db == RefreshCounters(m.db, c)
  {
  }

  lemma SameButOne(a: seq<Course>, b: seq<Course>, c: nat)
    requires c < |a| && |b| == |a| && forall i :: 0 <= i < |a| && i != c ==> a[i] == b[i]
    requires a[c].deleted == b[c].deleted
    ensures KeepCounters(a, b) == a
  {
  }

  /** A lesson call that gets that far is its edit and then a refresh. */
  lemma LessonCallRefreshes(db: Db, call: Call)
    requires Refers(db) && CountedCall(call) && Refreshed(db, call).Some?
    ensures var c := Refreshed(db, call).value;
      c < |db.courses| && Serve(db, call) == RefreshCounters(EditOnly(db, call), c)
  {
    var c, db' := Refreshed(db, call).value, Serve(db, call);
    SameButOne(db.courses, db'.courses, c);
  }

  /** With nothing in between, an edit, its sums and their store are the whole call. */
  lemma LessonCallIsItsSteps(m: Racing, call: Call)
    requires Refers(m.db) && CountedCall(call)
    ensures var c, edited := Refreshed(m.db, call), Next(m, Edit(call));
      Serve(m.db, call) ==
      if c.Some? then Next(Next(edited, Sum(c.value)), Store(|m.sums|)).db else edited.db
  {
    var c := Refreshed(m.db, call);
    if c.Some? {
      LessonCallRefreshes(m.db, call);
      RefreshIsSumAndStore(Next(m, Edit(call)), c.value);
    } else {
      assert Serve(m.db, call) == m.db;
      assert KeepCounters(m.db.courses, m.db.courses) == m.db.courses;
    }
  }

  /** Whatever the counters show, one refresh left alone makes them exact. */
  lemma RefreshRepairs(m: Racing, c: nat)
    requires c < |m.db.courses|
    ensures var n := Next(Next(m, Sum(c)), Store(|m.sums|)); c < |n.db.courses| && CountersExact(n.db, c)
  {
  }

  /** A refresh overtaken by an added lesson and by the refresh for it. */
  function Overtaken(m: Racing, mod: nat, base: string, duration: nat): seq<Step>
    requires mod < |m.db.modules|
  {
    var c, k := m.db.modules[mod].rank.parent, |m.sums|;
    [Sum(c), Edit(CallAddLesson(mod, None, base, duration)), Sum(c), Store(k + 1), Store(k)]
  }

  lemma AddedRow(db: Db, mod: nat, base: string, duration: nat) returns (row: Lesson)
    requires Consistent(db) && mod < |db.modules|
    ensures Serve(db, CallAddLesson(mod, None, base, duration)).lessons == db.lessons + [row]
    ensures row.course == db.modules[mod].rank.parent && !row.deleted
  {
    DefaultAddLessonSucceeds(db, mod, base, duration);
    row := AddLesson(db, mod, None, base, duration).value.lessons[|db.lessons|];
  }

  lemma LiveGrows(lessons: seq<Lesson>, row: Lesson)
    requires !row.deleted
    ensures |Live(lessons + [row], row.course)| == |Live(lessons, row.course)| + 1
  {
    var longer, live := lessons + [row], Live(lessons, row.course);
    assert |longer| == |lessons| + 1 && longer[|lessons|] == row;
    assert forall i :: 0 <= i < |lessons| ==> longer[i] == lessons[i];
    assert |lessons| !in live;
    assert Live(longer, row.course) == live + {|lessons|};
  }

  lemma AddedLessonIsLive(db: Db, mod: nat, base: string, duration: nat)
    requires Keys(db) && mod < |db.modules|
    ensures var c := db.modules[mod].rank.parent;
      |Live(EditOnly(db, CallAddLesson(mod, None, base, duration)).lessons, c)| == |Live(db.lessons, c)| + 1
  {
    var row := AddedRow(Exacted(db), mod, base, duration);
    ServeIgnoresCounters(db, Exacted(db), CallAddLesson(mod, None, base, duration));
    LiveGrows(db.lessons, row);
  }

  /** The counters can lag with nothing left under way: adding any lesson can leave the count one short. */
  lemma CountersCanLag(m: Racing, mod: nat, base: string, duration: nat)
    requires Keys(m.db) && mod < |m.db.modules|
    ensures var c, r := m.db.modules[mod].rank.parent, Overtaken(m, mod, base, duration);
      var n := Next(Next(Next(Next(Next(m, r[0]), r[1]), r[2]), r[3]), r[4]);
      c < |n.db.courses| && n.db.courses[c].lessonCount + 1 == |Live(n.db.lessons, c)|
  {
    var c, k, r := m.db.modules[mod].rank.parent, |m.sums|, Overtaken(m, mod, base, duration);
    AddedLessonIsLive(m.db, mod, base, duration);
    EditKeepsCounters(m.db, r[1].call, c);
    var m3 := Next(Next(Next(m, r[0]), r[1]), r[2]);
    assert m3.sums[k].value.count == |Live(m.db.lessons, c)| && m3.sums[k].value.course == c;
    var m4 := Next(m3, r[3]);
    assert m4.sums[k] == m3.sums[k] && m4.db.lessons == m3.db.lessons;
    assert Next(m4, r[4]).db == StoreSums(m4.db, m4.sums[k].value);
  }
}
