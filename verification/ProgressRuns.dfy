/** The cached percent and the completion event, over every run of the enrollment machine. */
module ProgressRuns {
  import opened Base
  import opened Enrollments
  import opened EnrollmentRuns

  /** Course-service reports the same lesson count for `course` throughout. */
  predicate FixedTotal(run: seq<Event>, course: nat, total: nat) {
    forall i :: 0 <= i < |run| && run[i].step.Commit? ==> Total(run[i].step.catalog, course) == total
  }

  /** Lesson rows, and completions under way, belong to learners who have an enrollment row. */
  predicate RowsExist(m: Machine) {
    && (forall at :: at in m.db.progress ==> Key(at.user, at.lesson.course) in m.db.enrollments)
    && (forall i :: 0 <= i < |m.pending| && m.pending[i].Completing? ==>
                      Key(m.pending[i].user, m.pending[i].lesson.course) in m.db.enrollments)
  }

  predicate CacheExact(db: Db, key: Key, total: nat) {
    key in db.enrollments ==> db.enrollments[key].progressPercent == Percent(|CompletedLessons(db, key)|, total)
  }

  lemma StepKeepsRows(m: Machine, e: Event)
    requires RowsExist(m)
    ensures RowsExist(Next(m, e)) && m.db.enrollments.Keys <= Next(m, e).db.enrollments.Keys
  {
  }

  /** Nobody has completed anything before having a row, so a new row's 0 is exact. */
  lemma NoRowNoLessons(m: Machine, key: Key)
    requires RowsExist(m) && key !in m.db.enrollments
    ensures CompletedLessons(m.db, key) == {}
  {
    assert forall at :: at in CompletedLessons(m.db, key) ==> Key(at.user, at.lesson.course) == key;
  }

  lemma CompletionOnlyAdds(db: Db, user: nat, lesson: Lesson, total: nat, now: nat, key: Key)
    ensures var db' := Complete(db, user, lesson, total, now);
      && CompletedLessons(db', key) == CompletedLessons(MarkComplete(db, user, lesson, now), key)
      && CompletedLessons(db', key) ==
         if key == Key(user, lesson.course) then CompletedLessons(db, key) + {LessonKey(user, lesson)}
           else CompletedLessons(db, key)
  {
    var at := LessonKey(user, lesson);
    var marked := MarkComplete(db, user, lesson, now);
    assert Complete(db, user, lesson, total, now).progress == marked.progress;
    assert marked.progress == db.progress || marked.progress == db.progress[at := marked.progress[at]];
  }

  lemma HeartbeatKeepsLessons(db: Db, user: nat, lesson: Lesson, position: real, now: nat, key: Key)
    ensures CompletedLessons(SavePosition(db, user, lesson, position, now), key) == CompletedLessons(db, key)
  {
  }

  predicate CompletesLesson(m: Machine, e: Event) {
    e.step.Commit? && e.step.call < |m.pending| && m.pending[e.step.call].Completing?
  }

  lemma OtherStepsKeepLessons(m: Machine, e: Event, key: Key)
    requires !CompletesLesson(m, e)
    ensures CompletedLessons(Next(m, e).db, key) == CompletedLessons(m.db, key)
  {
    if e.step.Heartbeat? {
      HeartbeatKeepsLessons(m.db, e.step.user, e.step.lesson, e.step.position, m.clock + e.wait, key);
    } else {
      assert Next(m, e).db.progress == m.db.progress;
    }
  }

  lemma OtherStepsKeepCache(m: Machine, e: Event, key: Key)
    requires !CompletesLesson(m, e)
    ensures var n := Next(m, e);
      key in n.db.enrollments ==>
        if key in m.db.enrollments
        then n.db.enrollments[key].progressPercent == m.db.enrollments[key].progressPercent
             && n.db.enrollments[key].completedAt == m.db.enrollments[key].completedAt
        else n.db.enrollments[key].progressPercent == 0 && n.db.enrollments[key].completedAt.None?
    ensures Next(m, e).db.announced == m.db.announced
  {
  }

  lemma PercentOfNone(total: nat)
    ensures Percent(0, total) == 0
  {
  }

  lemma StepKeepsCache(m: Machine, e: Event, key: Key, total: nat)
    requires RowsExist(m) && CacheExact(m.db, key, total)
    requires e.step.Commit? ==> Total(e.step.catalog, key.course) == total
    ensures CacheExact(Next(m, e).db, key, total)
  {
    if CompletesLesson(m, e) {
      var c := m.pending[e.step.call];
      CompletionOnlyAdds(m.db, c.user, c.lesson, Total(e.step.catalog, c.lesson.course), m.clock + e.wait, key);
    } else {
      OtherStepsKeepLessons(m, e, key);
      OtherStepsKeepCache(m, e, key);
      if key !in m.db.enrollments {
        NoRowNoLessons(m, key);
        PercentOfNone(total);
      }
    }
  }

  /**
   * In every state of every run, the cached percent is 100 times the completed lessons over the lesson
   * count, to the nearest integer and ties upwards, and 0 for a course without lessons.
   */
  lemma {:induction false} CachedPercentIsRounded(run: seq<Event>, key: Key, total: nat)
    requires FixedTotal(run, key.course, total) && key in Run(EMPTY, run).db.enrollments
    ensures var db := Run(EMPTY, run).db;
      Rounded(db.enrollments[key].progressPercent, |CompletedLessons(db, key)|, total)
  {
    CachedPercentIsExact(run, key, total);
    PercentIsRounded(|CompletedLessons(Run(EMPTY, run).db, key)|, total);
  }

  /** The cached percent is the percent a recount would give, in every state of every run. */
  lemma {:induction false} CachedPercentIsExact(run: seq<Event>, key: Key, total: nat)
    requires FixedTotal(run, key.course, total)
    ensures var m := Run(EMPTY, run); RowsExist(m) && CacheExact(m.db, key, total)
  {
    if run != [] {
      var before := Run(EMPTY, run[..|run| - 1]);
      CachedPercentIsExact(run[..|run| - 1], key, total);
      StepKeepsRows(before, run[|run| - 1]);
      StepKeepsCache(before, run[|run| - 1], key, total);
    }
  }

  lemma StepKeepsLessons(m: Machine, e: Event, key: Key)
    ensures CompletedLessons(m.db, key) <= CompletedLessons(Next(m, e).db, key)
  {
    if CompletesLesson(m, e) {
      var c := m.pending[e.step.call];
      CompletionOnlyAdds(m.db, c.user, c.lesson, Total(e.step.catalog, c.lesson.course), m.clock + e.wait, key);
    } else {
      OtherStepsKeepLessons(m, e, key);
    }
  }

  /** A completed lesson stays completed: refunds, heartbeats and re-purchases included. */
  lemma {:induction false} LessonsNeverRegress(m: Machine, run: seq<Event>, key: Key)
    ensures CompletedLessons(m.db, key) <= CompletedLessons(Run(m, run).db, key)
    ensures |CompletedLessons(m.db, key)| <= |CompletedLessons(Run(m, run).db, key)|
  {
    if run != [] {
      LessonsNeverRegress(m, run[..|run| - 1], key);
      StepKeepsLessons(Run(m, run[..|run| - 1]), run[|run| - 1], key);
    }
    SubsetSize(CompletedLessons(m.db, key), CompletedLessons(Run(m, run).db, key));
  }

  lemma {:induction false} RunAppend(m: Machine, a: seq<Event>, b: seq<Event>)
    ensures Run(m, a + b) == Run(Run(m, a), b)
  {
    if b == [] {
      assert a + b == a;
    } else {
      RunAppend(m, a, b[..|b| - 1]);
      assert (a + b)[..|a + b| - 1] == a + b[..|b| - 1];
    }
  }

  /** So the cached percent never goes down. */
  lemma {:induction false} CachedPercentNeverFalls(a: seq<Event>, b: seq<Event>, key: Key, total: nat)
    requires FixedTotal(a + b, key.course, total) && key in Run(EMPTY, a).db.enrollments
    ensures key in Run(EMPTY, a + b).db.enrollments
    ensures Run(EMPTY, a).db.enrollments[key].progressPercent <= Run(EMPTY, a + b).db.enrollments[key].progressPercent
  {
    assert forall i :: 0 <= i < |a| ==> (a + b)[i] == a[i];
    CachedPercentIsExact(a, key, total);
    CachedPercentIsExact(a + b, key, total);
    RunAppend(EMPTY, a, b);
    RowsStay(Run(EMPTY, a), b);
    LessonsNeverRegress(Run(EMPTY, a), b, key);
    PercentMonotone(|CompletedLessons(Run(EMPTY, a).db, key)|, |CompletedLessons(Run(EMPTY, a + b).db, key)|, total);
  }

  lemma {:induction false} RowsStay(m: Machine, run: seq<Event>)
    requires RowsExist(m)
    ensures RowsExist(Run(m, run)) && m.db.enrollments.Keys <= Run(m, run).db.enrollments.Keys
  {
    if run != [] {
      RowsStay(m, run[..|run| - 1]);
      StepKeepsRows(Run(m, run[..|run| - 1]), run[|run| - 1]);
    }
  }

  // ---- one announcement per enrollment --------------------------------------------------------------

  predicate Announces(rows: map<Key, Enrollment>, announced: seq<Key>) {
    && (forall i, j :: 0 <= i < j < |announced| ==> announced[i] != announced[j])
    && (forall i :: 0 <= i < |announced| ==> announced[i] in rows && rows[announced[i]].completedAt.Some?)
    && (forall key :: key in rows && rows[key].completedAt.Some? ==> key in announced)
  }

  predicate AnnouncedOnce(db: Db) {
    Announces(db.enrollments, db.announced)
  }

  lemma RecalculateKeepsAnnounced(db: Db, key: Key, total: nat, now: nat)
    requires AnnouncedOnce(db)
    ensures AnnouncedOnce(Recalculate(db, key, total, now))
  {
    var db' := Recalculate(db, key, total, now);
    if FirstFinish(db, key, total) {
      assert key !in db.announced;
      assert db'.announced == db.announced + [key];
      forall k
        ensures k in db'.announced <==> k in db.announced || k == key
      {
      }
    } else {
      assert db'.announced == db.announced;
      assert forall k :: k in db.enrollments ==> db'.enrollments[k].completedAt == db.enrollments[k].completedAt;
    }
  }

  lemma OtherStepsKeepAnnounced(m: Machine, e: Event)
    requires !CompletesLesson(m, e) && AnnouncedOnce(m.db)
    ensures AnnouncedOnce(Next(m, e).db)
  {
    forall key
      ensures key in Next(m, e).db.enrollments && Next(m, e).db.enrollments[key].completedAt.Some?
              <==> key in m.db.enrollments && m.db.enrollments[key].completedAt.Some?
    {
      OtherStepsKeepCache(m, e, key);
    }
    OtherStepsKeepCache(m, e, Key(0, 0));
  }

  lemma CompletingKeepsAnnounced(m: Machine, e: Event)
    requires CompletesLesson(m, e) && AnnouncedOnce(m.db)
    ensures AnnouncedOnce(Next(m, e).db)
  {
    var c := m.pending[e.step.call];
    var now := m.clock + e.wait;
    var total := Total(e.step.catalog, c.lesson.course);
    var marked := MarkComplete(m.db, c.user, c.lesson, now);
    assert marked.enrollments == m.db.enrollments && marked.announced == m.db.announced;
    RecalculateKeepsAnnounced(marked, Key(c.user, c.lesson.course), total, now);
    assert Next(m, e).db == Recalculate(marked, Key(c.user, c.lesson.course), total, now);
  }

  /**
   * course.completed is published at most once per learner and course, and exactly for the rows
   * that carry a completion time, across any refunds, re-purchases and races.
   */
  lemma {:induction false} CompletionAnnouncedOnce(run: seq<Event>)
    ensures AnnouncedOnce(Run(EMPTY, run).db)
  {
    if run != [] {
      var m := Run(EMPTY, run[..|run| - 1]);
      CompletionAnnouncedOnce(run[..|run| - 1]);
      if CompletesLesson(m, run[|run| - 1]) {
        CompletingKeepsAnnounced(m, run[|run| - 1]);
      } else {
        OtherStepsKeepAnnounced(m, run[|run| - 1]);
      }
    }
  }
}
