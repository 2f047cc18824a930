/**
 * The enrollment-service tables and its calls: who holds a course, which events have been
 * applied, how far each learner is.  A lesson id is always used with its own course, so it
 * carries the course here.
 */
module Enrollments {
  import opened Base

  datatype Key = Key(user: nat, course: nat)

  datatype Status = Active | Expired | Revoked | Completed

  datatype Source = ByPayment | ByAdmin | ByFree

  datatype Enrollment = Enrollment(
    status: Status,
    source: Source,
    paymentId: Option<nat>,
    expiresAt: Option<nat>,
    progressPercent: nat,
    completedAt: Option<nat>,
    revokedAt: Option<nat>)

  datatype Lesson = Lesson(course: nat, number: nat)

  datatype LessonKey = LessonKey(user: nat, lesson: Lesson)

  datatype LessonRow = LessonRow(completed: bool, position: nat, completedAt: Option<nat>)

  datatype Kind = PaymentCompleted | PaymentRefunded

  datatype Envelope = Envelope(id: nat, kind: Kind, key: Key, payment: nat)

  /** `announced` lists the course.completed events published so far. */
  datatype Db = Db(
    enrollments: map<Key, Enrollment>,
    ledger: set<nat>,
    progress: map<LessonKey, LessonRow>,
    announced: seq<Key>)

  /** `isEntitled`. */
  predicate Entitled(db: Db, key: Key, now: nat) {
    && key in db.enrollments
    && var e := db.enrollments[key];
       && e.status != Revoked
       && !(e.expiresAt.Some? && e.expiresAt.value < now)
  }

  /** The upsert behind every way in: it reactivates a row and keeps its progress. */
  function Admit(db: Db, key: Key, source: Source, paymentId: Option<nat>): Db {
    var row :=
      if key in db.enrollments then
        var e := db.enrollments[key];
        e.(status := Active, revokedAt := None, paymentId := if paymentId.Some? then paymentId else e.paymentId)
      else Enrollment(Active, source, paymentId, None, 0, None, None);
    db.(enrollments := db.enrollments[key := row])
  }

  function Expel(db: Db, key: Key, now: nat): Db {
    if key in db.enrollments
    then db.(enrollments := db.enrollments[key := db.enrollments[key].(status := Revoked, revokedAt := Some(now))])
    else db
  }

  function EnrollFree(db: Db, key: Key, isFree: bool, priceMinor: int): Db {
    if !isFree && priceMinor > 0 then db else Admit(db, key, ByFree, None)
  }

  /** The consumer's transaction: the ledger insert fails on a known id and takes the effect with it. */
  function Consume(db: Db, evt: Envelope, now: nat): Db {
    if evt.id in db.ledger then db
    else
      var noted := db.(ledger := db.ledger + {evt.id});
      match evt.kind
      case PaymentCompleted => Admit(noted, evt.key, ByPayment, Some(evt.payment))
      case PaymentRefunded => Expel(noted, evt.key, now)
  }

  // ---- progress -------------------------------------------------------------------------------

  /** `Math.max(0, Math.floor(position))`. */
  function WholeSeconds(position: real): nat {
    if position < 0.0 then 0 else position.Floor
  }

  function SavePosition(db: Db, user: nat, lesson: Lesson, position: real, now: nat): Db {
    var at := LessonKey(user, lesson);
    if !Entitled(db, Key(user, lesson.course), now) then db
    else db.(progress := db.progress[at :=
      if at in db.progress then db.progress[at].(position := WholeSeconds(position))
        else LessonRow(false, WholeSeconds(position), None)])
  }

  function MarkComplete(db: Db, user: nat, lesson: Lesson, now: nat): Db {
    var at := LessonKey(user, lesson);
    if at in db.progress && db.progress[at].completed then db
    else db.(progress := db.progress[at :=
      if at in db.progress then db.progress[at].(completed := true, completedAt := Some(now))
        else LessonRow(true, 0, Some(now))])
  }

  function CompletedLessons(db: Db, key: Key): set<LessonKey> {
    set at | at in db.progress && at.user == key.user && at.lesson.course == key.course && db.progress[at].completed
  }

  function Percent(completed: nat, total: nat): nat {
    if total == 0 then 0 else RoundDiv(100 * completed, total)
  }

  /** `percent` is 100 * completed / total to the nearest integer, ties upwards, and 0 without lessons. */
  predicate Rounded(percent: nat, completed: nat, total: nat) {
    if total == 0 then percent == 0 else -(total as int) < 2 * total * percent - 200 * completed <= total
  }

  /** That, and nothing else, is the percent computed. */
  lemma PercentIsRounded(completed: nat, total: nat)
    ensures Rounded(Percent(completed, total), completed, total)
    ensures forall p: nat :: Rounded(p, completed, total) ==> p == Percent(completed, total)
  {
    if total > 0 {
      RoundDivError(100 * completed, total);
      forall p: nat | Rounded(p, completed, total)
        ensures p == Percent(completed, total)
      {
        NearestIsUnique(100 * completed, total, p, Percent(completed, total));
      }
    }
  }

  predicate Finishes(completed: nat, total: nat) {
    Percent(completed, total) >= 100 && total > 0
  }

  /** The lesson count that course-service answered with, 0 for a course it does not list. */
  function Total(catalog: map<nat, nat>, course: nat): nat {
    if course in catalog then catalog[course] else 0
  }

  predicate FirstFinish(db: Db, key: Key, total: nat) {
    key in db.enrollments && db.enrollments[key].completedAt.None? && Finishes(|CompletedLessons(db, key)|, total)
  }

  /** `recalculate`: refresh the cached percent and announce the first finish. */
  function Recalculate(db: Db, key: Key, total: nat, now: nat): Db {
    if key !in db.enrollments then db
    else
      var e := db.enrollments[key].(progressPercent := Percent(|CompletedLessons(db, key)|, total));
      if FirstFinish(db, key, total)
      then db.(enrollments := db.enrollments[key := e.(completedAt := Some(now), status := Completed)],
        announced := db.announced + [key])
      else db.(enrollments := db.enrollments[key := e])
  }

  /** `completeLesson` once entitlement has been checked. */
  function Complete(db: Db, user: nat, lesson: Lesson, total: nat, now: nat): Db {
    Recalculate(MarkComplete(db, user, lesson, now), Key(user, lesson.course), total, now)
  }

  // ---- where rounding puts the finish line --------------------------------------------------------

  lemma FinishLine(completed: nat, total: nat)
    ensures Finishes(completed, total) <==> total > 0 && 200 * completed >= 199 * total
  {
    if total > 0 {
      RoundDivReaches(100 * completed, total, 100);
    }
  }

  /**
   * For learners who complete only lessons of the curriculum, "finished" means "every lesson done"
   * for exactly the curricula of fewer than 200 lessons; from 200 on, one lesson may be missing.
   */
  lemma FinishedMeansAllDone(curriculum: set<LessonKey>)
    requires curriculum != {}
    ensures (forall done: set<LessonKey> :: done <= curriculum ==>
               (Finishes(|done|, |curriculum|) <==> done == curriculum))
      <==> |curriculum| < 200
  {
    forall done: set<LessonKey> | done <= curriculum
      ensures |curriculum| < 200 ==> (Finishes(|done|, |curriculum|) <==> done == curriculum)
    {
      SubsetSize(done, curriculum);
      FinishLine(|done|, |curriculum|);
    }
    var x :| x in curriculum;
    var most := curriculum - {x};
    FinishLine(|most|, |curriculum|);
  }

  /**
   * The count does not look at the curriculum, so ids outside it count too.  Finishing means that
   * every lesson was done exactly unless some are missing and the strays make up for them.
   */
  lemma StraysMakeUp(done: set<LessonKey>, curriculum: set<LessonKey>)
    requires curriculum != {} && |curriculum| < 200
    ensures (Finishes(|done|, |curriculum|) ==> curriculum <= done)
      <==> curriculum <= done || |done - curriculum| < |curriculum - done|
  {
    FinishLine(|done|, |curriculum|);
    assert done == (done - curriculum) + (done * curriculum);
    assert curriculum == (curriculum - done) + (done * curriculum);
  }

  /** Lessons 7 and 9 finish a course whose two lessons are 0 and 1. */
  lemma StraysFinish(key: Key)
    ensures var admitted := Admit(Db(map[], {}, map[], []), key, ByAdmin, None);
      var one := Complete(admitted, key.user, Lesson(key.course, 7), 2, 0);
      var two := Complete(one, key.user, Lesson(key.course, 9), 2, 0);
      && two.enrollments[key].status == Completed && two.enrollments[key].progressPercent == 100
      && CompletedLessons(two, key) ==
            {LessonKey(key.user, Lesson(key.course, 7)), LessonKey(key.user, Lesson(key.course, 9))}
  {
    var seven, nine := LessonKey(key.user, Lesson(key.course, 7)), LessonKey(key.user, Lesson(key.course, 9));
    var admitted := Admit(Db(map[], {}, map[], []), key, ByAdmin, None);
    assert CompletedLessons(MarkComplete(admitted, key.user, seven.lesson, 0), key) == {seven};
    var one := Complete(admitted, key.user, seven.lesson, 2, 0);
    assert one.enrollments[key].completedAt.None?;
    var marked := MarkComplete(one, key.user, nine.lesson, 0);
    assert CompletedLessons(marked, key) == {seven, nine};
    var two := Complete(one, key.user, nine.lesson, 2, 0);
    assert two.progress == marked.progress;
  }

  lemma PercentMonotone(completed: nat, completed': nat, total: nat)
    requires completed <= completed'
    ensures Percent(completed, total) <= Percent(completed', total)
  {
    if total > 0 {
      RoundDivMonotone(100 * completed, 100 * completed', total);
    }
  }
}
