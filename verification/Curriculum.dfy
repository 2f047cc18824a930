/** The flat lesson order of a course: one query, equal to its modules' blocks end to end. */
module Curriculum {
  import opened Base
  import opened Reorder
  import opened Sorting
  import opened Catalog

  /** `orderBy: [{ module: { sortOrder } }, { sortOrder }]`. */
  function LessonKeys(db: Db): (keys: Keys)
    requires Refers(db)
    ensures |keys| == |db.lessons|
    ensures forall i :: 0 <= i < |keys| ==>
      keys[i] == (db.modules[db.lessons[i].rank.parent].rank.order, db.lessons[i].rank.order)
  {
    seq(|db.lessons|, i requires 0 <= i < |db.lessons| =>
      (db.modules[db.lessons[i].rank.parent].rank.order, db.lessons[i].rank.order))
  }

  function OrderKeys(ranks: seq<Ranked>): (keys: Keys)
    ensures |keys| == |ranks| && forall i :: 0 <= i < |keys| ==> keys[i] == (ranks[i].order, 0)
  {
    seq(|ranks|, i requires 0 <= i < |ranks| => (ranks[i].order, 0))
  }

  function GetCurriculum(db: Db, course: nat): seq<nat>
    requires Refers(db)
  {
    Sort(LessonKeys(db), Live(db.lessons, course))
  }

  /** Live lessons of a module, in lesson order. */
  function Block(lessons: seq<Lesson>, mod: nat): seq<nat> {
    Sort(OrderKeys(LessonRanks(lessons)), LiveIn(lessons, mod))
  }

  function LiveIn(lessons: seq<Lesson>, mod: nat): set<nat> {
    set i | 0 <= i < |lessons| && lessons[i].rank.parent == mod && !lessons[i].deleted
  }

  function ModulesOf(modules: seq<ModuleRow>, course: nat): set<nat> {
    set m | 0 <= m < |modules| && modules[m].rank.parent == course
  }

  /** Modules of a course in module order; a soft-deleted module keeps its place and its lessons. */
  function ModulesInOrder(modules: seq<ModuleRow>, course: nat): seq<nat> {
    Sort(OrderKeys(ModuleRanks(modules)), ModulesOf(modules, course))
  }

  function Blocks(lessons: seq<Lesson>, mods: seq<nat>): seq<nat> {
    if mods == [] then [] else Block(lessons, mods[0]) + Blocks(lessons, mods[1..])
  }

  lemma RanksSeparate(ranks: seq<Ranked>, selected: set<nat>, parent: nat)
    requires UniqueRanks(ranks) && forall x :: x in selected ==> x < |ranks| && ranks[x].parent == parent
    ensures DistinctOn(OrderKeys(ranks), selected)
  {
  }

  lemma BlockLists(db: Db, mod: nat)
    requires Consistent(db)
    ensures Lists(OrderKeys(LessonRanks(db.lessons)), LiveIn(db.lessons, mod), Block(db.lessons, mod))
  {
    RanksSeparate(LessonRanks(db.lessons), LiveIn(db.lessons, mod), mod);
    SortLists(OrderKeys(LessonRanks(db.lessons)), LiveIn(db.lessons, mod));
  }

  lemma ModulesList(db: Db, course: nat)
    requires Consistent(db)
    ensures Lists(OrderKeys(ModuleRanks(db.modules)), ModulesOf(db.modules, course), ModulesInOrder(db.modules, course))
  {
    RanksSeparate(ModuleRanks(db.modules), ModulesOf(db.modules, course), course);
    SortLists(OrderKeys(ModuleRanks(db.modules)), ModulesOf(db.modules, course));
  }

  /** Two live lessons of a course never tie: other modules differ in module order, one module's in lesson order. */
  lemma LessonKeysDiffer(db: Db, course: nat)
    requires Consistent(db)
    ensures DistinctOn(LessonKeys(db), Live(db.lessons, course))
  {
    var keys := LessonKeys(db);
    forall a, b | a in Live(db.lessons, course) && b in Live(db.lessons, course) && a != b
      ensures keys[a] != keys[b]
    {
      var ra, rb := db.lessons[a].rank, db.lessons[b].rank;
      assert LessonRanks(db.lessons)[a] != LessonRanks(db.lessons)[b];
      if ra.parent != rb.parent {
        assert ModuleRanks(db.modules)[ra.parent] != ModuleRanks(db.modules)[rb.parent];
      }
    }
  }

  lemma CurriculumLists(db: Db, course: nat)
    requires Consistent(db)
    ensures Lists(LessonKeys(db), Live(db.lessons, course), GetCurriculum(db, course))
  {
    LessonKeysDiffer(db, course);
    SortLists(LessonKeys(db), Live(db.lessons, course));
  }

  lemma AppendSorted(keys: Keys, s: seq<nat>, t: seq<nat>)
    requires InRange(keys, s) && Sorted(keys, s) && InRange(keys, t) && Sorted(keys, t)
    requires forall x, y :: x in s && y in t ==> Less(keys, x, y)
    ensures InRange(keys, s + t) && Sorted(keys, s + t)
  {
    assert forall i :: 0 <= i < |s| ==> s[i] in s;
    assert forall i :: 0 <= i < |t| ==> t[i] in t;
  }

  /** Within one module the query's order is the module's own. */
  lemma BlockSortedInCourse(db: Db, mod: nat)
    requires Consistent(db)
    ensures InRange(LessonKeys(db), Block(db.lessons, mod)) && Sorted(LessonKeys(db), Block(db.lessons, mod))
  {
    BlockLists(db, mod);
    var block := Block(db.lessons, mod);
    assert forall i :: 0 <= i < |block| ==> block[i] in block;
  }

  /** Blocks of modules in module order, end to end, are in the query's order. */
  lemma {:induction false} BlocksSorted(db: Db, mods: seq<nat>)
    requires Consistent(db) && InRange(OrderKeys(ModuleRanks(db.modules)), mods)
      && Sorted(OrderKeys(ModuleRanks(db.modules)), mods)
    ensures InRange(LessonKeys(db), Blocks(db.lessons, mods)) && Sorted(LessonKeys(db), Blocks(db.lessons, mods))
    ensures forall x: nat :: x in Blocks(db.lessons, mods) <==>
      x < |db.lessons| && !db.lessons[x].deleted && db.lessons[x].rank.parent in mods
  {
    if mods != [] {
      var moduleKeys := OrderKeys(ModuleRanks(db.modules));
      TailSorted(moduleKeys, mods);
      BlocksSorted(db, mods[1..]);
      BlockLists(db, mods[0]);
      BlockSortedInCourse(db, mods[0]);
      var head, tail := Block(db.lessons, mods[0]), Blocks(db.lessons, mods[1..]);
      forall x, y | x in head && y in tail
        ensures Less(LessonKeys(db), x, y)
      {
        assert x in LiveIn(db.lessons, mods[0]);
        assert Less(moduleKeys, mods[0], db.lessons[y].rank.parent);
      }
      AppendSorted(LessonKeys(db), head, tail);
      assert mods == [mods[0]] + mods[1..];
    }
  }

  /** The query returns the concatenation, in module order, of each module's live lessons in lesson order. */
  lemma CurriculumIsItsBlocks(db: Db, course: nat)
    requires Consistent(db)
    ensures GetCurriculum(db, course) == Blocks(db.lessons, ModulesInOrder(db.modules, course))
  {
    var mods := ModulesInOrder(db.modules, course);
    ModulesList(db, course);
    BlocksSorted(db, mods);
    CurriculumLists(db, course);
    assert forall x: nat :: x in Blocks(db.lessons, mods) <==> x in Live(db.lessons, course);
    ListingIsUnique(LessonKeys(db), Live(db.lessons, course), GetCurriculum(db, course), Blocks(db.lessons, mods));
  }

  /** Listed modules stand in the order of the list (of its last mention, should it repeat one). */
  predicate InListOrder(mods: seq<nat>, ids: seq<nat>) {
    forall a, b :: 0 <= a < |mods| && 0 <= b < |mods| && mods[a] in ids && mods[b] in ids ==>
      (a < b <==> LastIndex(ids, mods[a]) < LastIndex(ids, mods[b]))
  }

  lemma AssignedListsInOrder(ranks: seq<Ranked>, ids: seq<nat>, ranks': seq<Ranked>, mods: seq<nat>)
    requires Assigned(ranks, ids, ranks') && InRange(OrderKeys(ranks'), mods) && Sorted(OrderKeys(ranks'), mods)
    ensures InListOrder(mods, ids)
  {
    forall a, b | 0 <= a < |mods| && 0 <= b < |mods| && mods[a] in ids && mods[b] in ids
      ensures a < b <==> LastIndex(ids, mods[a]) < LastIndex(ids, mods[b])
    {
      assert ranks'[mods[a]].order == LastIndex(ids, mods[a]) && ranks'[mods[b]].order == LastIndex(ids, mods[b]);
      if a < b {
        assert Less(OrderKeys(ranks'), mods[a], mods[b]);
      } else if b < a {
        assert Less(OrderKeys(ranks'), mods[b], mods[a]);
      }
    }
  }

  /**
   * Reordering modules moves whole blocks: the course has the same modules, no more and no fewer,
   * each with the same block as before, and the listed ones now come in the order of the list.
   */
  lemma ReorderModulesMovesBlocks(db: Db, ids: seq<nat>, course: nat)
    requires Consistent(db) && ReorderModules(db, ids).Some?
    ensures var db' := ReorderModules(db, ids).value;
      var before, after := ModulesInOrder(db.modules, course), ModulesInOrder(db'.modules, course);
      && Consistent(db')
      && GetCurriculum(db', course) == Blocks(db.lessons, after)
      && |after| == |before| && (forall m :: m in after <==> m in before)
      && InListOrder(after, ids)
  {
    var db' := ReorderModules(db, ids).value;
    ServeKeepsConsistent(db, CallReorderModules(ids));
    CurriculumIsItsBlocks(db', course);
    ReorderKeepsParents(ModuleRanks(db.modules), ids);
    assert ModulesOf(db'.modules, course) == ModulesOf(db.modules, course);
    ModulesList(db, course);
    ModulesList(db', course);
    var keys, keys' := OrderKeys(ModuleRanks(db.modules)), OrderKeys(ModuleRanks(db'.modules));
    ListingLength(keys, ModulesOf(db.modules, course), ModulesInOrder(db.modules, course));
    ListingLength(keys', ModulesOf(db.modules, course), ModulesInOrder(db'.modules, course));
    ReorderIsOneAssignment(ModuleRanks(db.modules), ids);
    assert ModuleRanks(db'.modules) == Reordered(ModuleRanks(db.modules), ids).value;
    AssignedListsInOrder(ModuleRanks(db.modules), ids, ModuleRanks(db'.modules), ModulesInOrder(db'.modules, course));
  }

  predicate NamesNone(lessons: seq<Lesson>, ids: seq<nat>, mod: nat) {
    forall x :: x in ids && x < |lessons| ==> lessons[x].rank.parent != mod
  }

  /** A block none of whose lessons is listed keeps every order in it. */
  lemma UnlistedBlockStands(db: Db, ids: seq<nat>, mod: nat)
    requires Consistent(db) && ReorderLessons(db, ids).Some? && NamesNone(db.lessons, ids, mod)
    requires var db' := ReorderLessons(db, ids).value;
      Consistent(db') && LiveIn(db'.lessons, mod) == LiveIn(db.lessons, mod)
    ensures Block(ReorderLessons(db, ids).value.lessons, mod) == Block(db.lessons, mod)
  {
    var db' := ReorderLessons(db, ids).value;
    var keys, keys' := OrderKeys(LessonRanks(db.lessons)), OrderKeys(LessonRanks(db'.lessons));
    var block := Block(db.lessons, mod);
    ReorderIsOneAssignment(LessonRanks(db.lessons), ids);
    BlockLists(db, mod);
    BlockLists(db', mod);
    forall i | 0 <= i < |block|
      ensures block[i] < |db.lessons| && keys'[block[i]] == keys[block[i]]
    {
      assert block[i] in block;
      assert block[i] in LiveIn(db.lessons, mod);
    }
    ListingIsUnique(keys', LiveIn(db.lessons, mod), block, Block(db'.lessons, mod));
  }

  lemma BlocksAreAsLong(db: Db, db': Db, mod: nat)
    requires Consistent(db) && Consistent(db') && LiveIn(db'.lessons, mod) == LiveIn(db.lessons, mod)
    ensures |Block(db'.lessons, mod)| == |Block(db.lessons, mod)|
    ensures forall x :: x in Block(db'.lessons, mod) <==> x in Block(db.lessons, mod)
  {
    BlockLists(db, mod);
    BlockLists(db', mod);
    ListingLength(OrderKeys(LessonRanks(db.lessons)), LiveIn(db.lessons, mod), Block(db.lessons, mod));
    ListingLength(OrderKeys(LessonRanks(db'.lessons)), LiveIn(db.lessons, mod), Block(db'.lessons, mod));
  }

  /**
   * Reordering lessons moves lessons only inside their own module: the modules stay where they
   * were, every block keeps its lessons, and a block without any listed lesson is untouched.
   */
  lemma ReorderLessonsStaysInside(db: Db, ids: seq<nat>, course: nat, mod: nat)
    requires Consistent(db) && ReorderLessons(db, ids).Some?
    ensures var db' := ReorderLessons(db, ids).value;
      && Consistent(db')
      && GetCurriculum(db', course) == Blocks(db'.lessons, ModulesInOrder(db.modules, course))
      && |Block(db'.lessons, mod)| == |Block(db.lessons, mod)|
      && (forall x :: x in Block(db'.lessons, mod) <==> x in Block(db.lessons, mod))
      && (NamesNone(db.lessons, ids, mod) ==> Block(db'.lessons, mod) == Block(db.lessons, mod))
  {
    var db' := ReorderLessons(db, ids).value;
    ServeKeepsConsistent(db, CallReorderLessons(ids));
    CurriculumIsItsBlocks(db', course);
    ReorderKeepsParents(LessonRanks(db.lessons), ids);
    assert LiveIn(db'.lessons, mod) == LiveIn(db.lessons, mod);
    BlocksAreAsLong(db, db', mod);
    if NamesNone(db.lessons, ids, mod) {
      UnlistedBlockStands(db, ids, mod);
    }
  }

  // ---- removing a lesson ------------------------------------------------------------------------------

  /** `after` is `before` without its one mention of `id`. */
  predicate LeavesOut(before: seq<nat>, id: nat, after: seq<nat>) {
    exists k :: 0 <= k < |before| && before[k] == id && after == before[..k] + before[k + 1..]
  }

  lemma MembersWithout(s: seq<nat>, k: nat, t: seq<nat>)
    requires k < |s| && forall i :: 0 <= i < |s| && i != k ==> s[i] != s[k]
    requires t == s[..k] + s[k + 1..]
    ensures forall x :: x in t <==> x in s && x != s[k]
  {
    assert s == s[..k] + [s[k]] + s[k + 1..];
    assert forall i :: 0 <= i < k ==> s[..k][i] == s[i];
    assert forall i :: k < i < |s| ==> s[k + 1..][i - k - 1] == s[i];
  }

  lemma SortedWithout(keys: Keys, s: seq<nat>, k: nat)
    requires InRange(keys, s) && Sorted(keys, s) && k < |s|
    ensures InRange(keys, s[..k] + s[k + 1..]) && Sorted(keys, s[..k] + s[k + 1..])
    ensures forall i :: 0 <= i < |s| && i != k ==> s[i] != s[k]
  {
    var t := s[..k] + s[k + 1..];
    assert forall i :: 0 <= i < |t| ==> t[i] == s[if i < k then i else i + 1];
    forall i | 0 <= i < |s| && i != k
      ensures s[i] != s[k]
    {
      assert if i < k then Less(keys, s[i], s[k]) else Less(keys, s[k], s[i]);
    }
  }

  lemma ListsWithout(keys: Keys, selected: set<nat>, before: seq<nat>, k: nat)
    requires Lists(keys, selected, before) && k < |before|
    ensures Lists(keys, selected - {before[k]}, before[..k] + before[k + 1..])
  {
    SortedWithout(keys, before, k);
    MembersWithout(before, k, before[..k] + before[k + 1..]);
  }

  lemma RemoveKeepsKeys(db: Db, id: nat, course: nat)
    requires Consistent(db) && id < |db.lessons|
    ensures RemoveLesson(db, id).Some?
    ensures var db' := RemoveLesson(db, id).value;
      && Consistent(db') && LessonKeys(db') == LessonKeys(db)
      && Live(db'.lessons, course) == Live(db.lessons, course) - {id}
  {
    var db' := RemoveLesson(db, id).value;
    ServeKeepsConsistent(db, CallRemoveLesson(id));
    assert db'.modules == db.modules && |db'.lessons| == |db.lessons|;
    assert forall i :: 0 <= i < |db.lessons| && i != id ==> db'.lessons[i] == db.lessons[i];
    assert db'.lessons[id].rank == db.lessons[id].rank;
  }

  /**
   * A removed lesson is gone from the curriculum of its course, every other lesson keeps its place,
   * and no other course's curriculum changes.
   */
  lemma RemovedLessonIsGone(db: Db, id: nat, course: nat)
    requires Consistent(db) && id < |db.lessons|
    ensures RemoveLesson(db, id).Some?
    ensures var db' := RemoveLesson(db, id).value;
      var before, after := GetCurriculum(db, course), GetCurriculum(db', course);
      && Consistent(db') && id !in after
      && (id in before <==> db.lessons[id].course == course && !db.lessons[id].deleted)
      && if id in before then LeavesOut(before, id, after) else after == before
  {
    var db' := RemoveLesson(db, id).value;
    var before, after := GetCurriculum(db, course), GetCurriculum(db', course);
    var keys, live := LessonKeys(db), Live(db.lessons, course);
    RemoveKeepsKeys(db, id, course);
    CurriculumLists(db, course);
    CurriculumLists(db', course);
    if id in before {
      var k :| 0 <= k < |before| && before[k] == id;
      ListsWithout(keys, live, before, k);
      ListingIsUnique(keys, live - {id}, after, before[..k] + before[k + 1..]);
    } else {
      assert live - {id} == live;
      ListingIsUnique(keys, live, after, before);
    }
  }

  // ---- the counters -----------------------------------------------------------------------------------

  /** How long it takes to watch the listed lessons. */
  function PlayTime(lessons: seq<Lesson>, ids: seq<nat>): nat
    requires forall i :: 0 <= i < |ids| ==> ids[i] < |lessons|
  {
    if ids == [] then 0 else lessons[ids[0]].duration + PlayTime(lessons, ids[1..])
  }

  /** `ids` names exactly the course's live lessons, each once. */
  predicate NamesLive(lessons: seq<Lesson>, course: nat, ids: seq<nat>) {
    && (forall i :: 0 <= i < |ids| ==> ids[i] in Live(lessons, course))
    && (forall i, j :: 0 <= i < j < |ids| ==> ids[i] != ids[j])
    && forall x :: x in Live(lessons, course) ==> x in ids
  }

  lemma {:induction false} PlayTimeWithout(lessons: seq<Lesson>, ids: seq<nat>, k: nat)
    requires k < |ids| && forall i :: 0 <= i < |ids| ==> ids[i] < |lessons|
    ensures PlayTime(lessons, ids) == lessons[ids[k]].duration + PlayTime(lessons, ids[..k] + ids[k + 1..])
  {
    var rest := ids[..k] + ids[k + 1..];
    if k == 0 {
      assert rest == ids[1..];
    } else {
      PlayTimeWithout(lessons, ids[1..], k - 1);
      assert rest[1..] == ids[1..][..k - 1] + ids[1..][k..];
    }
  }

  lemma {:induction false} PlayTimeOfPrefix(lessons: seq<Lesson>, n: nat, ids: seq<nat>)
    requires n <= |lessons| && forall i :: 0 <= i < |ids| ==> ids[i] < n
    ensures PlayTime(lessons[..n], ids) == PlayTime(lessons, ids)
  {
    if ids != [] {
      PlayTimeOfPrefix(lessons, n, ids[1..]);
    }
  }

  lemma LiveButLast(lessons: seq<Lesson>, course: nat)
    requires lessons != []
    ensures Live(lessons[..|lessons| - 1], course) == Live(lessons, course) - {|lessons| - 1}
  {
  }

  lemma NamesWithout(lessons: seq<Lesson>, course: nat, ids: seq<nat>, k: nat)
    requires NamesLive(lessons, course, ids) && k < |ids| && ids[k] + 1 == |lessons|
    ensures NamesLive(lessons[..ids[k]], course, ids[..k] + ids[k + 1..])
  {
    var rest, live := ids[..k] + ids[k + 1..], Live(lessons, course) - {ids[k]};
    LiveButLast(lessons, course);
    assert forall i :: 0 <= i < |rest| ==> rest[i] == ids[if i < k then i else i + 1];
    forall x | x in live
      ensures x in rest
    {
      var i :| 0 <= i < |ids| && ids[i] == x;
      assert rest[if i < k then i else i - 1] == x;
    }
  }

  /** Whether or not the list names the table's last lesson, the rest of the list names the rest of the table. */
  lemma NamesRest(lessons: seq<Lesson>, course: nat, ids: seq<nat>) returns (rest: seq<nat>)
    requires NamesLive(lessons, course, ids) && lessons != []
    ensures NamesLive(lessons[..|lessons| - 1], course, rest)
    ensures var l := lessons[|lessons| - 1];
      PlayTime(lessons, ids) ==
      PlayTime(lessons[..|lessons| - 1], rest) + (if l.course == course && !l.deleted then l.duration else 0)
  {
    var n := |lessons| - 1;
    LiveButLast(lessons, course);
    if n in ids {
      var k :| 0 <= k < |ids| && ids[k] == n;
      rest := ids[..k] + ids[k + 1..];
      NamesWithout(lessons, course, ids, k);
      PlayTimeWithout(lessons, ids, k);
      assert n in Live(lessons, course);
    } else {
      rest := ids;
      assert n !in Live(lessons, course);
    }
    PlayTimeOfPrefix(lessons, n, rest);
  }

  lemma NamesSome(lessons: seq<Lesson>, course: nat, ids: seq<nat>)
    requires NamesLive(lessons, course, ids)
    ensures ids != [] ==> lessons != []
  {
    if ids != [] {
      assert ids[0] in Live(lessons, course);
    }
  }

  lemma {:induction false} TotalIsPlayTime(lessons: seq<Lesson>, course: nat, ids: seq<nat>)
    requires NamesLive(lessons, course, ids)
    ensures PlayTime(lessons, ids) == TotalSeconds(lessons, course)
  {
    NamesSome(lessons, course, ids);
    if lessons == [] {
      assert ids == [];
    } else {
      var rest := NamesRest(lessons, course, ids);
      TotalIsPlayTime(lessons[..|lessons| - 1], course, rest);
    }
  }

  lemma CurriculumNamesLive(db: Db, course: nat)
    requires Consistent(db)
    ensures NamesLive(db.lessons, course, GetCurriculum(db, course))
  {
    var ids := GetCurriculum(db, course);
    CurriculumLists(db, course);
    assert forall i :: 0 <= i < |ids| ==> ids[i] in ids;
  }

  lemma CountersDescribe(db: Db, course: nat)
    requires Consistent(db) && course < |db.courses|
    ensures NamesLive(db.lessons, course, GetCurriculum(db, course))
    ensures db.courses[course].lessonCount == |GetCurriculum(db, course)|
    ensures -60 < 120 * db.courses[course].durationMinutes - 2 * PlayTime(db.lessons, GetCurriculum(db, course)) <= 60
  {
    assert CountersExact(db, course);
    CurriculumLists(db, course);
    CurriculumNamesLive(db, course);
    ListingLength(LessonKeys(db), Live(db.lessons, course), GetCurriculum(db, course));
    TotalIsPlayTime(db.lessons, course, GetCurriculum(db, course));
    RoundDivError(TotalSeconds(db.lessons, course), 60);
  }

  /**
   * In every reachable state the cached counters describe the curriculum: the lesson count is its
   * length, and the cached minutes are the time it takes to watch it, rounded to the nearest minute
   * and halves up.
   */
  lemma {:induction false} CountersDescribeCurriculum(calls: seq<Call>, course: nat)
    requires course < |ServeAll(calls).courses|
    ensures var db := ServeAll(calls);
      && Consistent(db)
      && NamesLive(db.lessons, course, GetCurriculum(db, course))
      && db.courses[course].lessonCount == |GetCurriculum(db, course)|
      && -60 < 120 * db.courses[course].durationMinutes - 2 * PlayTime(db.lessons, GetCurriculum(db, course)) <= 60
  {
    RunKeepsConsistent(calls);
    CountersDescribe(ServeAll(calls), course);
  }
}
