/** The course service over its tables: loops that rewrite orders and probe slugs, proved against Catalog. */
module CatalogServices {
  import opened Base
  import opened Reorder
  import opened Slugs
  import opened Catalog

  class CatalogService {
    var courses: seq<Course>
    var modules: seq<ModuleRow>
    var lessons: seq<Lesson>

    ghost function Rows(): Db
      reads this
    {
      Db(courses, modules, lessons)
    }

    ghost predicate Valid()
      reads this
    {
      Consistent(Rows())
    }

    constructor ()
      ensures Valid() && Rows() == Db([], [], [])
    {
      courses, modules, lessons := [], [], [];
    }

    /** One `update` of a lesson's order, rejected by the unique key or an unknown id. */
    method UpdateLessonOrder(id: nat, order: int) returns (ok: bool)
      modifies this`lessons
      ensures var written := Write(LessonRanks(old(lessons)), id, order);
        ok == written.Some? && lessons == if ok then RankLessons(old(lessons), written.value) else old(lessons)
      ensures ok <==> id < |lessons| && forall i :: 0 <= i < |lessons| && i != id ==>
        old(lessons)[i].rank != Ranked(old(lessons)[id].rank.parent, order)
    {
      if id >= |lessons| {
        return false;
      }
      var rank := Ranked(lessons[id].rank.parent, order);
      if exists r :: 0 <= r < |lessons| && r != id && lessons[r].rank == rank {
        return false;
      }
      lessons := lessons[id := lessons[id].(rank := rank)];
      return true;
    }

    method UpdateModuleOrder(id: nat, order: int) returns (ok: bool)
      modifies this`modules
      ensures var written := Write(ModuleRanks(old(modules)), id, order);
        ok == written.Some? && modules == if ok then RankModules(old(modules), written.value) else old(modules)
      ensures ok <==> id < |modules| && forall i :: 0 <= i < |modules| && i != id ==>
        old(modules)[i].rank != Ranked(old(modules)[id].rank.parent, order)
    {
      if id >= |modules| {
        return false;
      }
      var rank := Ranked(modules[id].rank.parent, order);
      if exists r :: 0 <= r < |modules| && r != id && modules[r].rank == rank {
        return false;
      }
      modules := modules[id := modules[id].(rank := rank)];
      return true;
    }

    /** Phase one: every listed lesson out of the way, at -1, -2, ... */
    method ParkLessons(ids: seq<nat>) returns (ok: bool)
      modifies this`lessons
      ensures var parked := Park(LessonRanks(old(lessons)), ids, |ids|);
        ok == parked.Some? && (ok ==> lessons == RankLessons(old(lessons), parked.value))
    {
      ghost var before, ranks := lessons, LessonRanks(lessons);
      ghost var done := ranks;
      RankLessonsAsTheyAre(lessons);
      for i := 0 to |ids|
        invariant Park(ranks, ids, i) == Some(done) && |done| == |before| && lessons == RankLessons(before, done)
      {
        RankLessonsAgain(before, done, Write(done, ids[i], -(i + 1)));
        ParkNext(ranks, ids, i);
        ok := UpdateLessonOrder(ids[i], -(i + 1));
        if !ok {
          ParkStops(ranks, ids, i + 1);
          return false;
        }
        done := Write(done, ids[i], -(i + 1)).value;
      }
      return true;
    }

    /** Phase two: every listed lesson to its final position. */
    method PlaceLessons(ids: seq<nat>) returns (ok: bool)
      modifies this`lessons
      ensures var placed := Place(LessonRanks(old(lessons)), ids, |ids|);
        ok == placed.Some? && (ok ==> lessons == RankLessons(old(lessons), placed.value))
    {
      ghost var before, ranks := lessons, LessonRanks(lessons);
      ghost var done := ranks;
      RankLessonsAsTheyAre(lessons);
      for i := 0 to |ids|
        invariant Place(ranks, ids, i) == Some(done) && |done| == |before| && lessons == RankLessons(before, done)
      {
        RankLessonsAgain(before, done, Write(done, ids[i], i));
        PlaceNext(ranks, ids, i);
        ok := UpdateLessonOrder(ids[i], i);
        if !ok {
          PlaceStops(ranks, ids, i + 1);
          return false;
        }
        done := Write(done, ids[i], i).value;
      }
      return true;
    }

    /** Both phases in one transaction: a failed write puts every row back. */
    method ReorderLessonRows(ids: seq<nat>) returns (ok: bool)
      requires Valid()
      modifies this`lessons
      ensures Valid() && Rows() == Serve(old(Rows()), CallReorderLessons(ids))
      ensures ok <==> Reorderable(LessonRanks(old(lessons)), ids)
      ensures if ok then Assigned(LessonRanks(old(lessons)), ids, LessonRanks(lessons)) else lessons == old(lessons)
    {
      var before := lessons;
      ghost var ranks := LessonRanks(before);
      ReorderIsOneAssignment(ranks, ids);
      ServeKeepsConsistent(Rows(), CallReorderLessons(ids));
      ok := ParkLessons(ids);
      if ok {
        RankLessonsAgain(before, Park(ranks, ids, |ids|).value, Reordered(ranks, ids));
        ok := PlaceLessons(ids);
      }
      if ok {
        RankLessonsAgain(before, Reordered(ranks, ids).value, None);
      } else {
        lessons := before;
      }
    }

    /** Phase one: every listed module out of the way, at -1, -2, ... */
    method ParkModules(ids: seq<nat>) returns (ok: bool)
      modifies this`modules
      ensures var parked := Park(ModuleRanks(old(modules)), ids, |ids|);
        ok == parked.Some? && (ok ==> modules == RankModules(old(modules), parked.value))
    {
      ghost var before, ranks := modules, ModuleRanks(modules);
      ghost var done := ranks;
      RankModulesAsTheyAre(modules);
      for i := 0 to |ids|
        invariant Park(ranks, ids, i) == Some(done) && |done| == |before| && modules == RankModules(before, done)
      {
        RankModulesAgain(before, done, Write(done, ids[i], -(i + 1)));
        ParkNext(ranks, ids, i);
        ok := UpdateModuleOrder(ids[i], -(i + 1));
        if !ok {
          ParkStops(ranks, ids, i + 1);
          return false;
        }
        done := Write(done, ids[i], -(i + 1)).value;
      }
      return true;
    }

    /** Phase two: every listed module to its final position. */
    method PlaceModules(ids: seq<nat>) returns (ok: bool)
      modifies this`modules
      ensures var placed := Place(ModuleRanks(old(modules)), ids, |ids|);
        ok == placed.Some? && (ok ==> modules == RankModules(old(modules), placed.value))
    {
      ghost var before, ranks := modules, ModuleRanks(modules);
      ghost var done := ranks;
      RankModulesAsTheyAre(modules);
      for i := 0 to |ids|
        invariant Place(ranks, ids, i) == Some(done) && |done| == |before| && modules == RankModules(before, done)
      {
        RankModulesAgain(before, done, Write(done, ids[i], i));
        PlaceNext(ranks, ids, i);
        ok := UpdateModuleOrder(ids[i], i);
        if !ok {
          PlaceStops(ranks, ids, i + 1);
          return false;
        }
        done := Write(done, ids[i], i).value;
      }
      return true;
    }

    /** Both phases in one transaction: a failed write puts every row back. */
    method ReorderModuleRows(ids: seq<nat>) returns (ok: bool)
      requires Valid()
      modifies this`modules
      ensures Valid() && Rows() == Serve(old(Rows()), CallReorderModules(ids))
      ensures ok <==> Reorderable(ModuleRanks(old(modules)), ids)
      ensures if ok then Assigned(ModuleRanks(old(modules)), ids, ModuleRanks(modules)) else modules == old(modules)
    {
      var before := modules;
      ghost var ranks := ModuleRanks(before);
      ReorderIsOneAssignment(ranks, ids);
      ServeKeepsConsistent(Rows(), CallReorderModules(ids));
      ok := ParkModules(ids);
      if ok {
        RankModulesAgain(before, Park(ranks, ids, |ids|).value, Reordered(ranks, ids));
        ok := PlaceModules(ids);
      }
      if ok {
        RankModulesAgain(before, Reordered(ranks, ids).value, None);
      } else {
        modules := before;
      }
    }

    method Refresh(course: nat)
      requires course < |courses|
      modifies this`courses
      ensures Rows() == RefreshCounters(old(Rows()), course) && CountersExact(Rows(), course)
      ensures Recounted(old(courses), courses, lessons, course)
    {
      RefreshRecounts(Rows(), course);
      RefreshIsExact(Rows(), course);
      var count := |set i | 0 <= i < |lessons| && lessons[i].course == course && !lessons[i].deleted|;
      var seconds := TotalSeconds(lessons, course);
      assert count == |Live(lessons, course)|;
      courses := courses[course := courses[course].(lessonCount := count, durationMinutes := RoundDiv(seconds, 60))];
    }

    method AddLessonRow(mod: nat, order: Option<nat>, base: string, duration: nat) returns (ok: bool)
      requires Valid()
      modifies this`lessons, this`courses
      ensures Valid() && Rows() == Serve(old(Rows()), CallAddLesson(mod, order, base, duration))
      ensures ok == AddLesson(old(Rows()), mod, order, base, duration).Some?
      ensures order.None? && mod < |modules| ==> ok
      ensures ok <==> mod < |modules| && (order.Some? ==>
        forall i :: 0 <= i < |old(lessons)| ==> old(lessons)[i].rank != Ranked(mod, order.value))
      ensures !ok ==> lessons == old(lessons) && courses == old(courses)
      ensures ok ==> LessonAdded(old(Rows()), Rows(), mod, order, base, duration)
    {
      ServeKeepsConsistent(Rows(), CallAddLesson(mod, order, base, duration));
      AddLessonAdds(Rows(), mod, order, base, duration);
      if mod >= |modules| {
        return false;
      }
      var course := modules[mod].rank.parent;
      var at := if order.Some? then order.value else NextOrder(LessonRanks(lessons), mod);
      var slug, _ := UniqueSlug(base, SlugsOf(lessons, course));
      if Held(LessonRanks(lessons), Ranked(mod, at)) {
        return false;
      }
      lessons := lessons + [Lesson(Ranked(mod, at), course, slug, duration, false)];
      ghost var inserted := Rows();
      Refresh(course);
      assert Rows() == RefreshCounters(inserted, course);
      return true;
    }

    method EditLessonRow(id: nat, order: Option<nat>, duration: Option<nat>) returns (ok: bool)
      requires id < |lessons|
      modifies this`lessons
      ensures var edited := EditLesson(old(lessons), id, order, duration);
        ok == edited.Some? && lessons == if ok then edited.value else old(lessons)
    {
      RankLessonsAsTheyAre(lessons);
      ok := true;
      if order.Some? {
        ok := UpdateLessonOrder(id, order.value);
      }
      if ok && duration.Some? {
        lessons := lessons[id := lessons[id].(duration := duration.value)];
      }
    }

    method UpdateLessonRow(id: nat, order: Option<nat>, duration: Option<nat>) returns (ok: bool)
      requires Valid()
      modifies this`lessons, this`courses
      ensures Valid() && Rows() == Serve(old(Rows()), CallUpdateLesson(id, order, duration))
      ensures id >= |old(lessons)| ==> !ok && lessons == old(lessons)
      ensures id < |old(lessons)| ==> EditedAs(old(lessons), lessons, id, order, duration, ok)
      ensures if ok then Recounted(old(courses), courses, lessons, old(lessons)[id].course) else courses == old(courses)
    {
      ServeKeepsConsistent(Rows(), CallUpdateLesson(id, order, duration));
      UpdateLessonEdits(Rows(), id, order, duration);
      if id >= |lessons| {
        return false;
      }
      ok := EditLessonRow(id, order, duration);
      if ok {
        Refresh(lessons[id].course);
        assert UpdateLesson(old(Rows()), id, order, duration) == Some(Rows());
      }
    }

    method RemoveLessonRow(id: nat) returns (ok: bool)
      requires Valid()
      modifies this`lessons, this`courses
      ensures Valid() && Rows() == Serve(old(Rows()), CallRemoveLesson(id)) && ok == (id < |old(lessons)|)
      ensures |lessons| == |old(lessons)|
      ensures forall i :: 0 <= i < |lessons| ==>
        lessons[i] == if i == id then old(lessons)[i].(deleted := true) else old(lessons)[i]
      ensures if ok then Recounted(old(courses), courses, lessons, old(lessons)[id].course) else courses == old(courses)
    {
      ServeKeepsConsistent(Rows(), CallRemoveLesson(id));
      if id >= |lessons| {
        return false;
      }
      lessons := lessons[id := lessons[id].(deleted := true)];
      Refresh(lessons[id].course);
      return true;
    }

    method AddModuleRow(course: nat, order: Option<nat>) returns (ok: bool)
      requires Valid()
      modifies this`modules
      ensures Valid() && Rows() == Serve(old(Rows()), CallAddModule(course, order))
      ensures ok <==> (course < |courses| && !courses[course].deleted
                       && (order.Some? ==> !Held(ModuleRanks(old(modules)), Ranked(course, order.value))))
      ensures ok ==> modules == old(modules) + [ModuleRow(modules[|old(modules)|].rank, false)]
      ensures ok ==> modules[|old(modules)|].rank.parent == course
      ensures ok && order.Some? ==> modules[|old(modules)|].rank.order == order.value
      ensures ok && order.None? ==> forall i :: 0 <= i < |old(modules)| && modules[i].rank.parent == course ==>
        modules[i].rank.order < modules[|old(modules)|].rank.order
      ensures ok && order.None? && modules[|old(modules)|].rank.order != 0 ==>
        Held(ModuleRanks(old(modules)), Ranked(course, modules[|old(modules)|].rank.order - 1))
      ensures !ok ==> modules == old(modules)
    {
      ServeKeepsConsistent(Rows(), CallAddModule(course, order));
      if course >= |courses| || courses[course].deleted {
        return false;
      }
      var at := if order.Some? then order.value else NextOrder(ModuleRanks(modules), course);
      if Held(ModuleRanks(modules), Ranked(course, at)) {
        return false;
      }
      modules := modules + [ModuleRow(Ranked(course, at), false)];
      return true;
    }

    method UpdateModuleRow(id: nat, order: Option<nat>) returns (ok: bool)
      requires Valid()
      modifies this`modules
      ensures Valid() && Rows() == Serve(old(Rows()), CallUpdateModule(id, order))
      ensures ok <==> id < |old(modules)| && (order.Some? ==>
        forall i :: 0 <= i < |old(modules)| && i != id ==>
          old(modules)[i].rank != Ranked(old(modules)[id].rank.parent, order.value))
      ensures |modules| == |old(modules)| && forall i :: 0 <= i < |modules| && i != id ==> modules[i] == old(modules)[i]
      ensures ok && order.Some? ==> modules[id].rank == Ranked(old(modules)[id].rank.parent, order.value)
      ensures ok ==> modules[id].deleted == old(modules)[id].deleted
      ensures !ok || order.None? ==> modules == old(modules)
    {
      ServeKeepsConsistent(Rows(), CallUpdateModule(id, order));
      if id >= |modules| {
        return false;
      }
      ok := true;
      if order.Some? {
        ok := UpdateModuleOrder(id, order.value);
      }
    }

    method RemoveModuleRow(id: nat) returns (ok: bool)
      requires Valid()
      modifies this`modules
      ensures Valid() && Rows() == Serve(old(Rows()), CallRemoveModule(id)) && ok == (id < |old(modules)|)
      ensures |modules| == |old(modules)| && ModuleRanks(modules) == ModuleRanks(old(modules))
      ensures forall i :: 0 <= i < |modules| ==> modules[i].deleted == (old(modules)[i].deleted || i == id)
    {
      ServeKeepsConsistent(Rows(), CallRemoveModule(id));
      ok := id < |modules|;
      if ok {
        modules := modules[id := modules[id].(deleted := true)];
      }
    }
  }

  /** A failed write of the parking phase fails the phase. */
  lemma {:induction false} ParkStops(rows: seq<Ranked>, ids: seq<nat>, n: nat)
    requires n <= |ids| && Park(rows, ids, n).None?
    ensures Park(rows, ids, |ids|).None?
    decreases |ids| - n
  {
    if n < |ids| {
      ParkStops(rows, ids, n + 1);
    }
  }

  lemma {:induction false} PlaceStops(rows: seq<Ranked>, ids: seq<nat>, n: nat)
    requires n <= |ids| && Place(rows, ids, n).None?
    ensures Place(rows, ids, |ids|).None?
    decreases |ids| - n
  {
    if n < |ids| {
      PlaceStops(rows, ids, n + 1);
    }
  }

  lemma RankLessonsAgain(lessons: seq<Lesson>, a: seq<Ranked>, b: Option<seq<Ranked>>)
    requires |a| == |lessons| && (b.Some? ==> |b.value| == |lessons|)
    ensures LessonRanks(RankLessons(lessons, a)) == a
    ensures b.Some? ==> RankLessons(RankLessons(lessons, a), b.value) == RankLessons(lessons, b.value)
  {
  }

  lemma RankLessonsAsTheyAre(lessons: seq<Lesson>)
    ensures RankLessons(lessons, LessonRanks(lessons)) == lessons
  {
  }

  lemma RankModulesAgain(modules: seq<ModuleRow>, a: seq<Ranked>, b: Option<seq<Ranked>>)
    requires |a| == |modules| && (b.Some? ==> |b.value| == |modules|)
    ensures ModuleRanks(RankModules(modules, a)) == a
    ensures b.Some? ==> RankModules(RankModules(modules, a), b.value) == RankModules(modules, b.value)
  {
  }

  lemma RankModulesAsTheyAre(modules: seq<ModuleRow>)
    ensures RankModules(modules, ModuleRanks(modules)) == modules
  {
  }

  lemma ParkNext(rows: seq<Ranked>, ids: seq<nat>, i: nat)
    requires i < |ids| && Park(rows, ids, i).Some?
    ensures Park(rows, ids, i + 1) == Write(Park(rows, ids, i).value, ids[i], -(i + 1))
  {
  }

  lemma PlaceNext(rows: seq<Ranked>, ids: seq<nat>, i: nat)
    requires i < |ids| && Place(rows, ids, i).Some?
    ensures Place(rows, ids, i + 1) == Write(Place(rows, ids, i).value, ids[i], i)
  {
  }
}
