/**
 * Course-service: modules ranked in a course, lessons ranked in a module, slugs unique in a
 * course, and the counters cached on the course row.  A call that throws leaves the tables as
 * they were: None.
 */
module Catalog {
  import opened Base
  import opened Reorder
  import opened Slugs
  import opened Sorting

  datatype Course = Course(lessonCount: nat, durationMinutes: nat, deleted: bool)

  /** `rank.parent` is the course. */
  datatype ModuleRow = ModuleRow(rank: Ranked, deleted: bool)

  /** `rank.parent` is the module. */
  datatype Lesson = Lesson(rank: Ranked, course: nat, slug: string, duration: nat, deleted: bool)

  datatype Db = Db(courses: seq<Course>, modules: seq<ModuleRow>, lessons: seq<Lesson>)

  function ModuleRanks(modules: seq<ModuleRow>): (ranks: seq<Ranked>)
    ensures |ranks| == |modules| && forall i :: 0 <= i < |ranks| ==> ranks[i] == modules[i].rank
  {
    seq(|modules|, i requires 0 <= i < |modules| => modules[i].rank)
  }

  function LessonRanks(lessons: seq<Lesson>): (ranks: seq<Ranked>)
    ensures |ranks| == |lessons| && forall i :: 0 <= i < |ranks| ==> ranks[i] == lessons[i].rank
  {
    seq(|lessons|, i requires 0 <= i < |lessons| => lessons[i].rank)
  }

  function RankModules(modules: seq<ModuleRow>, ranks: seq<Ranked>): seq<ModuleRow>
    requires |ranks| == |modules|
  {
    seq(|modules|, i requires 0 <= i < |modules| => modules[i].(rank := ranks[i]))
  }

  function RankLessons(lessons: seq<Lesson>, ranks: seq<Ranked>): seq<Lesson>
    requires |ranks| == |lessons|
  {
    seq(|lessons|, i requires 0 <= i < |lessons| => lessons[i].(rank := ranks[i]))
  }

  // ---- counters -----------------------------------------------------------------------------------

  /** Ids of the course's lessons that are not soft-deleted. */
  function Live(lessons: seq<Lesson>, course: nat): set<nat> {
    set i | 0 <= i < |lessons| && lessons[i].course == course && !lessons[i].deleted
  }

  function TotalSeconds(lessons: seq<Lesson>, course: nat): nat {
    if lessons == [] then 0
    else
      var last := lessons[|lessons| - 1];
      TotalSeconds(lessons[..|lessons| - 1], course)
        + (if last.course == course && !last.deleted then last.duration else 0)
  }

  function RefreshCounters(db: Db, course: nat): Db
    requires course < |db.courses|
  {
    db.(courses := db.courses[course := db.courses[course].(
          lessonCount := |Live(db.lessons, course)|,
          durationMinutes := RoundDiv(TotalSeconds(db.lessons, course), 60))])
  }

  // ---- the calls ------------------------------------------------------------------------------------

  function SlugsOf(lessons: seq<Lesson>, course: nat): set<string> {
    set i | 0 <= i < |lessons| && lessons[i].course == course :: lessons[i].slug
  }

  function Held(ranks: seq<Ranked>, rank: Ranked): bool {
    exists i :: 0 <= i < |ranks| && ranks[i] == rank
  }

  function RemoveCourse(db: Db, id: nat): Option<Db> {
    if id >= |db.courses| || db.courses[id].deleted then None
    else Some(db.(courses := db.courses[id := db.courses[id].(deleted := true)]))
  }

  function AddModule(db: Db, course: nat, order: Option<nat>): Option<Db> {
    var at := if order.Some? then order.value else NextOrder(ModuleRanks(db.modules), course);
    if course >= |db.courses| || db.courses[course].deleted || Held(ModuleRanks(db.modules), Ranked(course, at))
      then None
    else Some(db.(modules := db.modules + [ModuleRow(Ranked(course, at), false)]))
  }

  function UpdateModule(db: Db, id: nat, order: Option<nat>): Option<Db> {
    if id >= |db.modules| then None
    else if order.None? then Some(db)
    else
      var written := Write(ModuleRanks(db.modules), id, order.value);
      if written.None? then None else Some(db.(modules := RankModules(db.modules, written.value)))
  }

  function RemoveModule(db: Db, id: nat): Option<Db> {
    if id >= |db.modules| then None else Some(db.(modules := db.modules[id := db.modules[id].(deleted := true)]))
  }

  function ReorderModules(db: Db, ids: seq<nat>): Option<Db> {
    var r := Reordered(ModuleRanks(db.modules), ids);
    if r.Some? then Some(db.(modules := RankModules(db.modules, r.value))) else None
  }

  function AddLesson(db: Db, mod: nat, order: Option<nat>, base: string, duration: nat): Option<Db> {
    if mod >= |db.modules| || db.modules[mod].rank.parent >= |db.courses| then None
    else
      var course := db.modules[mod].rank.parent;
      var at := if order.Some? then order.value else NextOrder(LessonRanks(db.lessons), mod);
      var slug := FreeSlug(base, SlugsOf(db.lessons, course));
      if Held(LessonRanks(db.lessons), Ranked(mod, at)) then None
      else Some(RefreshCounters(db.(lessons := db.lessons + [Lesson(Ranked(mod, at), course, slug, duration, false)]),
        course))
  }

  /** The one `update` statement: a new order, a new duration, both or neither. */
  function EditLesson(lessons: seq<Lesson>, id: nat, order: Option<nat>,
      duration: Option<nat>): (r: Option<seq<Lesson>>)
    requires id < |lessons|
    ensures r.Some? ==> |r.value| == |lessons| && r.value[id].course == lessons[id].course
  {
    var written := if order.Some? then Write(LessonRanks(lessons), id, order.value) else Some(LessonRanks(lessons));
    if written.None? then None
    else
      var moved := RankLessons(lessons, written.value);
      Some(moved[id := moved[id].(duration := if duration.Some? then duration.value else moved[id].duration)])
  }

  function UpdateLesson(db: Db, id: nat, order: Option<nat>, duration: Option<nat>): Option<Db> {
    if id >= |db.lessons| || db.lessons[id].course >= |db.courses| then None
    else
      var edited := EditLesson(db.lessons, id, order, duration);
      if edited.None? then None else Some(RefreshCounters(db.(lessons := edited.value), db.lessons[id].course))
  }

  function RemoveLesson(db: Db, id: nat): Option<Db> {
    if id >= |db.lessons| || db.lessons[id].course >= |db.courses| then None
    else Some(RefreshCounters(db.(lessons := db.lessons[id := db.lessons[id].(deleted := true)]),
      db.lessons[id].course))
  }

  function ReorderLessons(db: Db, ids: seq<nat>): Option<Db> {
    var r := Reordered(LessonRanks(db.lessons), ids);
    if r.Some? then Some(db.(lessons := RankLessons(db.lessons, r.value))) else None
  }

  datatype Call =
    | CallAddCourse
    | CallRemoveCourse(id: nat)
    | CallAddModule(course: nat, order: Option<nat>)
    | CallUpdateModule(id: nat, order: Option<nat>)
    | CallRemoveModule(id: nat)
    | CallReorderModules(ids: seq<nat>)
    | CallAddLesson(mod: nat, order: Option<nat>, base: string, duration: nat)
    | CallUpdateLesson(id: nat, order: Option<nat>, newDuration: Option<nat>)
    | CallRemoveLesson(id: nat)
    | CallReorderLessons(ids: seq<nat>)

  function Serve(db: Db, call: Call): Db {
    var r := match call
      case CallAddCourse => Some(db.(courses := db.courses + [Course(0, 0, false)]))
      case CallRemoveCourse(id) => RemoveCourse(db, id)
      case CallAddModule(course, order) => AddModule(db, course, order)
      case CallUpdateModule(id, order) => UpdateModule(db, id, order)
      case CallRemoveModule(id) => RemoveModule(db, id)
      case CallReorderModules(ids) => ReorderModules(db, ids)
      case CallAddLesson(mod, order, base, duration) => AddLesson(db, mod, order, base, duration)
      case CallUpdateLesson(id, order, duration) => UpdateLesson(db, id, order, duration)
      case CallRemoveLesson(id) => RemoveLesson(db, id)
      case CallReorderLessons(ids) => ReorderLessons(db, ids);
    if r.Some? then r.value else db
  }

  function ServeAll(calls: seq<Call>): Db {
    if calls == [] then Db([], [], []) else Serve(ServeAll(calls[..|calls| - 1]), calls[|calls| - 1])
  }

  // ---- what every call keeps ------------------------------------------------------------------------

  predicate Refers(db: Db) {
    && (forall i :: 0 <= i < |db.modules| ==> db.modules[i].rank.parent < |db.courses|)
    && (forall i :: 0 <= i < |db.lessons| ==>
          && db.lessons[i].rank.parent < |db.modules|
          && db.lessons[i].course == db.modules[db.lessons[i].rank.parent].rank.parent)
  }

  predicate Keyed(ranks: seq<Ranked>) {
    UniqueRanks(ranks) && NoneParked(ranks)
  }

  predicate UniqueSlugs(lessons: seq<Lesson>) {
    forall i, j | 0 <= i < j < |lessons| :: lessons[i].course != lessons[j].course || lessons[i].slug != lessons[j].slug
  }

  predicate CountersExact(db: Db, course: nat)
    requires course < |db.courses|
  {
    && db.courses[course].lessonCount == |Live(db.lessons, course)|
    && db.courses[course].durationMinutes == RoundDiv(TotalSeconds(db.lessons, course), 60)
  }

  /** Only that course's counters are new: its live lessons, and their total in rounded minutes, halves up. */
  predicate Recounted(before: seq<Course>, after: seq<Course>, lessons: seq<Lesson>, course: nat) {
    && |after| == |before| && course < |after|
    && (forall c :: 0 <= c < |after| && c != course ==> after[c] == before[c])
    && after[course].deleted == before[course].deleted
    && after[course].lessonCount == |set i | 0 <= i < |lessons| && lessons[i].course == course && !lessons[i].deleted|
    && -60 < 120 * after[course].durationMinutes - 2 * TotalSeconds(lessons, course) <= 60
  }

  lemma RefreshRecounts(db: Db, course: nat)
    requires course < |db.courses|
    ensures Recounted(db.courses, RefreshCounters(db, course).courses, db.lessons, course)
  {
    assert Live(db.lessons, course) ==
      set i | 0 <= i < |db.lessons| && db.lessons[i].course == course && !db.lessons[i].deleted;
    RoundDivError(TotalSeconds(db.lessons, course), 60);
  }

  predicate Consistent(db: Db) {
    && Refers(db)
    && Keyed(ModuleRanks(db.modules))
    && Keyed(LessonRanks(db.lessons))
    && UniqueSlugs(db.lessons)
    && forall c :: 0 <= c < |db.courses| ==> CountersExact(db, c)
  }

  /** The columns the counters look at. */
  predicate SameCounted(a: seq<Lesson>, b: seq<Lesson>, course: nat) {
    |a| == |b| && forall i :: 0 <= i < |a| ==>
      && (a[i].course == course && !a[i].deleted <==> b[i].course == course && !b[i].deleted)
      && (a[i].course == course && !a[i].deleted ==> a[i].duration == b[i].duration)
  }

  lemma {:induction false} CountersDependOn(a: seq<Lesson>, b: seq<Lesson>, course: nat)
    requires SameCounted(a, b, course)
    ensures Live(a, course) == Live(b, course) && TotalSeconds(a, course) == TotalSeconds(b, course)
  {
    if a != [] {
      CountersDependOn(a[..|a| - 1], b[..|b| - 1], course);
    }
  }

  lemma {:induction false} NoLessonsNoTotal(lessons: seq<Lesson>, course: nat)
    requires forall i :: 0 <= i < |lessons| ==> lessons[i].course != course
    ensures Live(lessons, course) == {} && TotalSeconds(lessons, course) == 0
  {
    if lessons != [] {
      NoLessonsNoTotal(lessons[..|lessons| - 1], course);
    }
  }

  /** A lesson adds its own duration to its course's total, and nothing to any other's. */
  lemma {:induction false} TotalSecondsOf(lessons: seq<Lesson>, l: Lesson, course: nat)
    ensures TotalSeconds([], course) == 0
    ensures l.course == course && !l.deleted ==>
      TotalSeconds(lessons + [l], course) == TotalSeconds(lessons, course) + l.duration
    ensures l.course != course || l.deleted ==> TotalSeconds(lessons + [l], course) == TotalSeconds(lessons, course)
  {
    assert (lessons + [l])[..|lessons|] == lessons;
  }

  lemma RefreshIsExact(db: Db, course: nat)
    requires course < |db.courses|
    ensures CountersExact(RefreshCounters(db, course), course)
  {
  }

  /** Only the refreshed course's rows changed, so every other course's counters stand. */
  lemma RefreshKeepsOthers(db: Db, lessons: seq<Lesson>, course: nat)
    requires course < |db.courses| && forall c :: 0 <= c < |db.courses| ==> CountersExact(db, c)
    requires forall c :: 0 <= c < |db.courses| && c != course ==>
               Live(lessons, c) == Live(db.lessons, c) && TotalSeconds(lessons, c) == TotalSeconds(db.lessons, c)
    ensures var db' := RefreshCounters(db.(lessons := lessons), course);
      forall c :: 0 <= c < |db'.courses| ==> CountersExact(db', c)
  {
    var db' := RefreshCounters(db.(lessons := lessons), course);
    forall c | 0 <= c < |db'.courses|
      ensures CountersExact(db', c)
    {
      assert c != course ==> CountersExact(db, c);
    }
  }

  lemma AppendKeepsKeyed(ranks: seq<Ranked>, rank: Ranked)
    requires Keyed(ranks) && !Held(ranks, rank) && rank.order >= 0
    ensures Keyed(ranks + [rank])
  {
  }

  lemma WriteKeepsKeyed(ranks: seq<Ranked>, id: nat, order: nat)
    requires Keyed(ranks) && Write(ranks, id, order).Some?
    ensures Keyed(Write(ranks, id, order).value)
  {
    WriteKeepsUnique(ranks, id, order);
  }

  /** Parents survive any write: only orders move. */
  predicate SameParents(a: seq<Ranked>, b: seq<Ranked>) {
    |a| == |b| && forall i :: 0 <= i < |a| ==> a[i].parent == b[i].parent
  }

  lemma RankModulesKeeps(db: Db, ranks: seq<Ranked>)
    requires Consistent(db) && Keyed(ranks) && SameParents(ModuleRanks(db.modules), ranks)
    ensures Consistent(db.(modules := RankModules(db.modules, ranks)))
  {
    var db' := db.(modules := RankModules(db.modules, ranks));
    assert ModuleRanks(db'.modules) == ranks;
    forall c | 0 <= c < |db.courses| ensures CountersExact(db', c) { assert CountersExact(db, c); }
  }

  lemma RankLessonsKeeps(db: Db, ranks: seq<Ranked>)
    requires Consistent(db) && Keyed(ranks) && SameParents(LessonRanks(db.lessons), ranks)
    ensures Consistent(db.(lessons := RankLessons(db.lessons, ranks)))
  {
    var db' := db.(lessons := RankLessons(db.lessons, ranks));
    assert LessonRanks(db'.lessons) == ranks;
    forall c | 0 <= c < |db.courses|
      ensures CountersExact(db', c)
    {
      assert CountersExact(db, c);
      CountersDependOn(db.lessons, db'.lessons, c);
    }
  }

  lemma ReorderKeepsParents(ranks: seq<Ranked>, ids: seq<nat>)
    requires Keyed(ranks) && Reordered(ranks, ids).Some?
    ensures Keyed(Reordered(ranks, ids).value) && SameParents(ranks, Reordered(ranks, ids).value)
  {
    ReorderKeepsTable(ranks, ids);
    ReorderIsOneAssignment(ranks, ids);
  }

  lemma AddModuleKeeps(db: Db, course: nat, order: Option<nat>)
    requires Consistent(db) && AddModule(db, course, order).Some?
    ensures Consistent(AddModule(db, course, order).value)
  {
    var db' := AddModule(db, course, order).value;
    var row := db'.modules[|db.modules|];
    AppendKeepsKeyed(ModuleRanks(db.modules), row.rank);
    assert ModuleRanks(db'.modules) == ModuleRanks(db.modules) + [row.rank];
    forall c | 0 <= c < |db.courses| ensures CountersExact(db', c) { assert CountersExact(db, c); }
  }

  lemma RefreshKeepsRest(db: Db, course: nat)
    requires course < |db.courses|
    requires Refers(db) && Keyed(ModuleRanks(db.modules)) && Keyed(LessonRanks(db.lessons)) && UniqueSlugs(db.lessons)
    ensures var db' := RefreshCounters(db, course);
      Refers(db') && Keyed(ModuleRanks(db'.modules)) && Keyed(LessonRanks(db'.lessons)) && UniqueSlugs(db'.lessons)
  {
  }

  lemma AppendLessonKeeps(db: Db, row: Lesson)
    requires Consistent(db) && row.rank.parent < |db.modules| && row.course == db.modules[row.rank.parent].rank.parent
    requires !Held(LessonRanks(db.lessons), row.rank) && row.rank.order >= 0
      && row.slug !in SlugsOf(db.lessons, row.course)
    ensures Consistent(RefreshCounters(db.(lessons := db.lessons + [row]), row.course))
  {
    var lessons := db.lessons + [row];
    AppendKeepsKeyed(LessonRanks(db.lessons), row.rank);
    assert LessonRanks(lessons) == LessonRanks(db.lessons) + [row.rank];
    assert forall i :: 0 <= i < |db.lessons| && db.lessons[i].course == row.course ==>
      db.lessons[i].slug in SlugsOf(db.lessons, row.course);
    assert UniqueSlugs(lessons);
    forall c | 0 <= c < |db.courses| && c != row.course
      ensures Live(lessons, c) == Live(db.lessons, c) && TotalSeconds(lessons, c) == TotalSeconds(db.lessons, c)
    {
      assert lessons[..|db.lessons|] == db.lessons;
    }
    RefreshKeepsOthers(db, lessons, row.course);
    RefreshKeepsRest(db.(lessons := lessons), row.course);
  }

  lemma AddLessonKeeps(db: Db, mod: nat, order: Option<nat>, base: string, duration: nat)
    requires Consistent(db)
    ensures Consistent(Serve(db, CallAddLesson(mod, order, base, duration)))
  {
    var added := AddLesson(db, mod, order, base, duration);
    if added.Some? {
      AppendLessonKeeps(db, added.value.lessons[|db.lessons|]);
    }
  }

  /** Change one lesson's duration or its deleted mark, then refresh its course. */
  lemma EditLessonKeeps(db: Db, id: nat, duration: nat, deleted: bool)
    requires Consistent(db) && id < |db.lessons|
    ensures var lessons := db.lessons[id := db.lessons[id].(duration := duration, deleted := deleted)];
      db.lessons[id].course < |db.courses|
        && Consistent(RefreshCounters(db.(lessons := lessons), db.lessons[id].course))
  {
    var course := db.lessons[id].course;
    var lessons := db.lessons[id := db.lessons[id].(duration := duration, deleted := deleted)];
    assert LessonRanks(lessons) == LessonRanks(db.lessons);
    forall c | 0 <= c < |db.courses| && c != course
      ensures Live(lessons, c) == Live(db.lessons, c) && TotalSeconds(lessons, c) == TotalSeconds(db.lessons, c)
    {
      CountersDependOn(db.lessons, lessons, c);
    }
    RefreshKeepsOthers(db, lessons, course);
    RefreshKeepsRest(db.(lessons := lessons), course);
  }

  lemma UpdateLessonKeeps(db: Db, id: nat, order: Option<nat>, duration: Option<nat>)
    requires Consistent(db) && UpdateLesson(db, id, order, duration).Some?
    ensures Consistent(UpdateLesson(db, id, order, duration).value)
  {
    var ranks := LessonRanks(db.lessons);
    var written := if order.Some? then Write(ranks, id, order.value) else Some(ranks);
    if order.Some? {
      WriteKeepsKeyed(ranks, id, order.value);
    }
    RankLessonsKeeps(db, written.value);
    var ranked := db.(lessons := RankLessons(db.lessons, written.value));
    var lesson := ranked.lessons[id];
    EditLessonKeeps(ranked, id, if duration.Some? then duration.value else lesson.duration, lesson.deleted);
  }

  lemma RemoveLessonKeeps(db: Db, id: nat)
    requires Consistent(db)
    ensures Consistent(Serve(db, CallRemoveLesson(id)))
  {
    if id < |db.lessons| {
      EditLessonKeeps(db, id, db.lessons[id].duration, true);
    }
  }

  lemma UpdateModuleKeeps(db: Db, id: nat, order: Option<nat>)
    requires Consistent(db) && UpdateModule(db, id, order).Some?
    ensures Consistent(UpdateModule(db, id, order).value)
  {
    if order.Some? {
      WriteKeepsKeyed(ModuleRanks(db.modules), id, order.value);
      RankModulesKeeps(db, Write(ModuleRanks(db.modules), id, order.value).value);
    }
  }

  lemma ReorderModulesKeeps(db: Db, ids: seq<nat>)
    requires Consistent(db) && ReorderModules(db, ids).Some?
    ensures Consistent(ReorderModules(db, ids).value)
  {
    ReorderKeepsParents(ModuleRanks(db.modules), ids);
    RankModulesKeeps(db, Reordered(ModuleRanks(db.modules), ids).value);
  }

  lemma ReorderLessonsKeeps(db: Db, ids: seq<nat>)
    requires Consistent(db)
    ensures Consistent(Serve(db, CallReorderLessons(ids)))
  {
    if ReorderLessons(db, ids).Some? {
      ReorderKeepsParents(LessonRanks(db.lessons), ids);
      RankLessonsKeeps(db, Reordered(LessonRanks(db.lessons), ids).value);
    }
  }

  lemma UpdateLessonServed(db: Db, id: nat, order: Option<nat>, duration: Option<nat>)
    requires Consistent(db)
    ensures Consistent(Serve(db, CallUpdateLesson(id, order, duration)))
  {
    if UpdateLesson(db, id, order, duration).Some? {
      UpdateLessonKeeps(db, id, order, duration);
    }
  }

  lemma CourseRowsKeep(db: Db, courses: seq<Course>)
    requires Consistent(db) && |courses| >= |db.courses|
    requires forall c :: 0 <= c < |db.courses| ==> courses[c] == db.courses[c].(deleted := courses[c].deleted)
    requires forall c :: |db.courses| <= c < |courses| ==> courses[c] == Course(0, 0, false)
    ensures Consistent(db.(courses := courses))
  {
    var db' := db.(courses := courses);
    forall c | 0 <= c < |courses|
      ensures CountersExact(db', c)
    {
      if c < |db.courses| {
        assert CountersExact(db, c);
      } else {
        NoLessonsNoTotal(db.lessons, c);
      }
    }
  }

  predicate LessonCall(call: Call) {
    call.CallAddLesson? || call.CallUpdateLesson? || call.CallRemoveLesson? || call.CallReorderLessons?
  }

  lemma LessonCallKeeps(db: Db, call: Call)
    requires Consistent(db) && LessonCall(call)
    ensures Consistent(Serve(db, call))
  {
    match call
    case CallAddLesson(mod, order, base, duration) => AddLessonKeeps(db, mod, order, base, duration);
    case CallUpdateLesson(id, order, duration) => UpdateLessonServed(db, id, order, duration);
    case CallRemoveLesson(id) => RemoveLessonKeeps(db, id);
    case CallReorderLessons(ids) => ReorderLessonsKeeps(db, ids);
  }

  lemma ServeKeepsConsistent(db: Db, call: Call)
    requires Consistent(db)
    ensures Consistent(Serve(db, call))
  {
    match call
    case CallAddCourse => CourseRowsKeep(db, Serve(db, call).courses);
    case CallRemoveCourse(id) => CourseRowsKeep(db, Serve(db, call).courses);
    case CallAddModule(course, order) => if AddModule(db, course, order).Some? { AddModuleKeeps(db, course, order); }
    case CallUpdateModule(id, order) => if UpdateModule(db, id, order).Some? { UpdateModuleKeeps(db, id, order); }
    case CallRemoveModule(id) => RemoveModuleKeeps(db, id);
    case CallReorderModules(ids) => if ReorderModules(db, ids).Some? { ReorderModulesKeeps(db, ids); }
    case _ => LessonCallKeeps(db, call);
  }

  lemma RemoveModuleKeeps(db: Db, id: nat)
    requires Consistent(db)
    ensures Consistent(Serve(db, CallRemoveModule(id)))
  {
    var db' := Serve(db, CallRemoveModule(id));
    assert ModuleRanks(db'.modules) == ModuleRanks(db.modules);
    forall c | 0 <= c < |db.courses| ensures CountersExact(db', c) { assert CountersExact(db, c); }
  }

  /**
   * In every run of calls: ranks and slugs are unique, no row is left parked, references hold,
   * and every course's cached lesson count and duration are those of its live lessons.
   */
  lemma {:induction false} RunKeepsConsistent(calls: seq<Call>)
    ensures Consistent(ServeAll(calls))
  {
    if calls != [] {
      RunKeepsConsistent(calls[..|calls| - 1]);
      ServeKeepsConsistent(ServeAll(calls[..|calls| - 1]), calls[|calls| - 1]);
    }
  }

  /** The given order, or the next above every lesson of the module; and the first slug free in the course. */
  ghost predicate AddedAs(before: seq<Lesson>, row: Lesson, mod: nat, course: nat, order: Option<nat>, base: string,
      duration: nat) {
    && row.rank.parent == mod && row.course == course && row.duration == duration && !row.deleted
    && (order.Some? ==> row.rank.order == order.value)
    && (order.None? ==>
          && (forall i :: 0 <= i < |before| && before[i].rank.parent == mod ==> before[i].rank.order < row.rank.order)
          && (row.rank.order == 0
              || exists i :: 0 <= i < |before| && before[i].rank == Ranked(mod, row.rank.order - 1)))
    && exists lookups :: FirstFree(base, SlugsOf(before, course), lookups, row.slug)
  }

  /** One lesson more, for the module's course, and that course counted again. */
  ghost predicate LessonAdded(db: Db, db': Db, mod: nat, order: Option<nat>, base: string, duration: nat) {
    && mod < |db.modules| && db'.modules == db.modules
    && |db'.lessons| == |db.lessons| + 1 && db'.lessons[..|db.lessons|] == db.lessons
    && AddedAs(db.lessons, db'.lessons[|db.lessons|], mod, db.modules[mod].rank.parent, order, base, duration)
    && Recounted(db.courses, db'.courses, db'.lessons, db.modules[mod].rank.parent)
  }

  lemma NewRowIsAdded(before: seq<Lesson>, row: Lesson, mod: nat, course: nat, order: Option<nat>, base: string,
      duration: nat, lookups: nat)
    requires row == Lesson(
      Ranked(mod, if order.Some? then order.value else NextOrder(LessonRanks(before), mod)),
      course, row.slug, duration, false)
    requires FirstFree(base, SlugsOf(before, course), lookups, row.slug)
    ensures AddedAs(before, row, mod, course, order, base, duration)
  {
    var ranks := LessonRanks(before);
    if order.None? && row.rank.order != 0 {
      var i :| 0 <= i < |ranks| && ranks[i] == Ranked(mod, row.rank.order - 1);
      assert before[i].rank == ranks[i];
    }
    assert forall i :: 0 <= i < |before| ==> ranks[i] == before[i].rank;
  }

  lemma HeldByRow(lessons: seq<Lesson>, rank: Ranked)
    ensures Held(LessonRanks(lessons), rank) <==> exists i :: 0 <= i < |lessons| && lessons[i].rank == rank
  {
    var ranks := LessonRanks(lessons);
    if i :| 0 <= i < |lessons| && lessons[i].rank == rank {
      assert ranks[i] == rank;
    }
  }

  /** A lesson is added unless its module is missing or the given order is taken in it; and then just that row. */
  lemma AddLessonAdds(db: Db, mod: nat, order: Option<nat>, base: string, duration: nat)
    requires Consistent(db)
    ensures var r := AddLesson(db, mod, order, base, duration);
      && (r.Some? <==> mod < |db.modules| && (order.Some? ==>
            forall i :: 0 <= i < |db.lessons| ==> db.lessons[i].rank != Ranked(mod, order.value)))
      && (r.Some? ==> LessonAdded(db, r.value, mod, order, base, duration))
  {
    var r := AddLesson(db, mod, order, base, duration);
    if order.Some? {
      HeldByRow(db.lessons, Ranked(mod, order.value));
    } else if mod < |db.modules| {
      DefaultAddLessonSucceeds(db, mod, base, duration);
    }
    if r.Some? {
      var course, row := db.modules[mod].rank.parent, r.value.lessons[|db.lessons|];
      var taken := SlugsOf(db.lessons, course);
      assert Tried(base, 1) == {};
      NewRowIsAdded(db.lessons, row, mod, course, order, base, duration, FreeNumber(base, taken, 1));
      RefreshRecounts(db.(lessons := r.value.lessons), course);
    }
  }

  /**
   * The edit succeeds unless it asks for an order that another lesson of the module has; then only
   * that row's order and duration are the given ones.
   */
  predicate EditedAs(before: seq<Lesson>, after: seq<Lesson>, id: nat, order: Option<nat>, duration: Option<nat>,
      ok: bool)
    requires id < |before|
  {
    && |after| == |before|
    && (ok <==> (order.Some? ==> forall i :: 0 <= i < |before| && i != id ==>
          before[i].rank != Ranked(before[id].rank.parent, order.value)))
    && (!ok ==> after == before)
    && (forall i :: 0 <= i < |before| && i != id ==> after[i] == before[i])
    && (ok ==> after[id] == before[id].(
          rank := Ranked(before[id].rank.parent, if order.Some? then order.value else before[id].rank.order),
          duration := if duration.Some? then duration.value else before[id].duration))
  }

  lemma UpdateLessonEdits(db: Db, id: nat, order: Option<nat>, duration: Option<nat>)
    requires Consistent(db)
    ensures var r := UpdateLesson(db, id, order, duration);
      && (r.Some? ==> id < |db.lessons|)
      && (id < |db.lessons| ==>
            EditedAs(db.lessons, if r.Some? then r.value.lessons else db.lessons, id, order, duration, r.Some?))
      && (r.Some? ==> Recounted(db.courses, r.value.courses, r.value.lessons, db.lessons[id].course))
  {
    var r := UpdateLesson(db, id, order, duration);
    if r.Some? {
      RefreshRecounts(db.(lessons := r.value.lessons), db.lessons[id].course);
    }
  }

  /** With the allocated order and slug, adding a lesson to an existing module never fails. */
  lemma DefaultAddLessonSucceeds(db: Db, mod: nat, base: string, duration: nat)
    requires Consistent(db) && mod < |db.modules|
    ensures AddLesson(db, mod, None, base, duration).Some?
    ensures var lesson := AddLesson(db, mod, None, base, duration).value.lessons[|db.lessons|];
      && (forall i :: 0 <= i < |db.lessons| && db.lessons[i].rank.parent == mod ==>
            db.lessons[i].rank.order < lesson.rank.order)
      && (forall i :: 0 <= i < |db.lessons| && db.lessons[i].course == lesson.course ==>
            db.lessons[i].slug != lesson.slug)
  {
    var ranks := LessonRanks(db.lessons);
    assert !Held(ranks, Ranked(mod, NextOrder(ranks, mod)));
    var course := db.modules[mod].rank.parent;
    assert forall i :: 0 <= i < |db.lessons| && db.lessons[i].course == course ==>
      db.lessons[i].slug in SlugsOf(db.lessons, course);
  }
}
