/**
 * The enrollment and progress services over their tables.  Every call keeps one completion event per
 * finished row; each method also states what its caller may rely on.
 */
module EnrollmentServices {
  import opened Base
  import opened Bus
  import opened Enrollments
  import Access = AccessHistory
  import Progress = ProgressRuns

  /** Whether and since when a lesson is complete. */
  function Completion(progress: map<LessonKey, LessonRow>, at: LessonKey): (bool, Option<nat>) {
    if at in progress then (progress[at].completed, progress[at].completedAt) else (false, None)
  }

  function Position(progress: map<LessonKey, LessonRow>, at: LessonKey): nat {
    if at in progress then progress[at].position else 0
  }

  class EnrollmentService {
    var enrollments: map<Key, Enrollment>
    var ledger: set<nat>
    var progress: map<LessonKey, LessonRow>
    var announced: seq<Key>

    ghost function Rows(): Db
      reads this
    {
      Db(enrollments, ledger, progress, announced)
    }

    ghost predicate Valid()
      reads this
    {
      Progress.AnnouncedOnce(Rows()) && Access.NoExpiry(Rows())
    }

    ghost predicate Open(key: Key)
      reads this
    {
      forall later: nat :: Entitled(Rows(), key, later)
    }

    ghost predicate Closed(key: Key)
      reads this
    {
      forall later: nat :: !Entitled(Rows(), key, later)
    }

    constructor ()
      ensures Valid() && Rows() == Db(map[], {}, map[], [])
    {
      enrollments, ledger, progress, announced := map[], {}, map[], [];
    }

    method IsEntitled(key: Key, now: nat) returns (ok: bool)
      ensures ok == Entitled(Rows(), key, now)
      ensures ok <==> (key in enrollments && enrollments[key].status != Revoked
                       && (enrollments[key].expiresAt.None? || now <= enrollments[key].expiresAt.value))
    {
      if key !in enrollments {
        return false;
      }
      var e := enrollments[key];
      if e.status == Revoked {
        return false;
      }
      if e.expiresAt.Some? && e.expiresAt.value < now {
        return false;
      }
      return true;
    }

    /** The row is opened for good, and nothing that was earned on it is lost. */
    method Upsert(key: Key, source: Source, paymentId: Option<nat>)
      requires Valid()
      modifies this`enrollments
      ensures Valid() && Rows() == Admit(old(Rows()), key, source, paymentId)
      ensures Open(key) && enrollments == old(enrollments)[key := enrollments[key]]
      ensures enrollments[key].status == Active && enrollments[key].revokedAt == None
      ensures enrollments[key].paymentId ==
        if paymentId.Some? || key !in old(enrollments) then paymentId else old(enrollments)[key].paymentId
      ensures key in old(enrollments) ==>
        && enrollments[key].source == old(enrollments)[key].source
        && enrollments[key].expiresAt == old(enrollments)[key].expiresAt
        && enrollments[key].progressPercent == old(enrollments)[key].progressPercent
        && enrollments[key].completedAt == old(enrollments)[key].completedAt
      ensures key !in old(enrollments) ==>
        enrollments[key] == Enrollment(Active, source, paymentId, None, 0, None, None)
    {
      AdmitKeeps(Rows(), key, source, paymentId);
      if key in enrollments {
        var e := enrollments[key];
        e := e.(status := Active, revokedAt := None);
        if paymentId.Some? {
          e := e.(paymentId := paymentId);
        }
        enrollments := enrollments[key := e];
      } else {
        enrollments := enrollments[key := Enrollment(Active, source, paymentId, None, 0, None, None)];
      }
    }

    method Grant(key: Key)
      requires Valid()
      modifies this`enrollments
      ensures Valid() && Rows() == Admit(old(Rows()), key, ByAdmin, None)
      ensures Open(key) && enrollments == old(enrollments)[key := enrollments[key]]
      ensures key in old(enrollments) ==>
        enrollments[key] == old(enrollments)[key].(status := Active, revokedAt := None)
      ensures key !in old(enrollments) ==> enrollments[key] == Enrollment(Active, ByAdmin, None, None, 0, None, None)
    {
      Upsert(key, ByAdmin, None);
    }

    method EnrollFree(key: Key, isFree: bool, priceMinor: int) returns (ok: bool)
      requires Valid()
      modifies this`enrollments
      ensures Valid() && Rows() == Enrollments.EnrollFree(old(Rows()), key, isFree, priceMinor)
      ensures ok == (isFree || priceMinor <= 0)
      ensures if ok then Open(key) && enrollments == old(enrollments)[key := enrollments[key]]
        else enrollments == old(enrollments)
      ensures ok && key in old(enrollments) ==>
        enrollments[key] == old(enrollments)[key].(status := Active, revokedAt := None)
      ensures ok && key !in old(enrollments) ==>
        enrollments[key] == Enrollment(Active, ByFree, None, None, 0, None, None)
    {
      if !isFree && priceMinor > 0 {
        return false;
      }
      Upsert(key, ByFree, None);
      return true;
    }

    method Revoke(key: Key, now: nat) returns (found: bool)
      requires Valid()
      modifies this`enrollments
      ensures Valid() && Rows() == Expel(old(Rows()), key, now)
      ensures found == (key in old(enrollments)) && Closed(key)
      ensures !found ==> enrollments == old(enrollments)
      ensures found ==>
        enrollments == old(enrollments)[key := old(enrollments)[key].(status := Revoked, revokedAt := Some(now))]
    {
      ExpelKeeps(Rows(), key, now);
      found := key in enrollments;
      if found {
        enrollments := enrollments[key := enrollments[key].(status := Revoked, revokedAt := Some(now))];
      }
    }

    /** A first delivery opens access; any later one changes nothing, whatever happened in between. */
    method HandlePaymentCompleted(evt: Envelope, now: nat)
      requires Valid() && evt.kind == PaymentCompleted
      modifies this`enrollments, this`ledger
      ensures Valid() && Rows() == Consume(old(Rows()), evt, now)
      ensures ledger == old(ledger) + {evt.id}
      ensures evt.id in old(ledger) ==> enrollments == old(enrollments)
      ensures evt.id !in old(ledger) ==>
        Open(evt.key) && enrollments == old(enrollments)[evt.key := enrollments[evt.key]]
      ensures evt.id !in old(ledger) && evt.key in old(enrollments) ==>
        enrollments[evt.key] ==
        old(enrollments)[evt.key].(status := Active, revokedAt := None, paymentId := Some(evt.payment))
      ensures evt.id !in old(ledger) && evt.key !in old(enrollments) ==>
        enrollments[evt.key] == Enrollment(Active, ByPayment, Some(evt.payment), None, 0, None, None)
      ensures forall later :: Consume(Rows(), evt, later) == Rows()
    {
      if evt.id in ledger {
        return;
      }
      ledger := ledger + {evt.id};
      Upsert(evt.key, ByPayment, Some(evt.payment));
    }

    /** A first delivery closes access; any later one changes nothing, whatever happened in between. */
    method HandlePaymentRefunded(evt: Envelope, now: nat)
      requires Valid() && evt.kind == PaymentRefunded
      modifies this`enrollments, this`ledger
      ensures Valid() && Rows() == Consume(old(Rows()), evt, now)
      ensures ledger == old(ledger) + {evt.id}
      ensures evt.id in old(ledger) ==> enrollments == old(enrollments)
      ensures evt.id !in old(ledger) ==> Closed(evt.key)
      ensures evt.key !in old(enrollments) ==> enrollments == old(enrollments)
      ensures evt.id !in old(ledger) && evt.key in old(enrollments) ==>
        enrollments ==
        old(enrollments)[evt.key := old(enrollments)[evt.key].(status := Revoked, revokedAt := Some(now))]
      ensures forall later :: Consume(Rows(), evt, later) == Rows()
    {
      if evt.id in ledger {
        return;
      }
      ledger := ledger + {evt.id};
      var _ := Revoke(evt.key, now);
    }

    /** The subscriber's callback: an event takes effect or its id goes to the dead letters. */
    method OnMessage(bus: EventBus<Envelope>, id: nat, fails: bool, now: nat)
      requires Valid() && bus.Valid() && id < |bus.sent| && bus.sent[id].id == id
      modifies this`enrollments, this`ledger, bus`deadLetters
      ensures Valid() && bus.Valid()
      ensures Rows() == if fails then old(Rows()) else Consume(old(Rows()), bus.sent[id], now)
      ensures id in ledger || id in bus.deadLetters
      ensures bus.deadLetters == if fails then [id] + old(bus.deadLetters) else old(bus.deadLetters)
      ensures fails ==> enrollments == old(enrollments) && ledger == old(ledger)
    {
      var evt := bus.sent[id];
      if !fails {
        if evt.kind == PaymentCompleted {
          HandlePaymentCompleted(evt, now);
        } else {
          HandlePaymentRefunded(evt, now);
        }
      }
      bus.Receive(id, !fails);
    }

    /** What is stored is the whole second the position falls in; no completion is touched. */
    method SavePosition(user: nat, lesson: Lesson, position: real, now: nat) returns (ok: bool)
      requires Valid()
      modifies this`progress
      ensures Valid() && Rows() == Enrollments.SavePosition(old(Rows()), user, lesson, position, now)
      ensures ok == Entitled(old(Rows()), Key(user, lesson.course), now)
      ensures ok ==> LessonKey(user, lesson) in progress
      ensures ok && position < 0.0 ==> progress[LessonKey(user, lesson)].position == 0
      ensures ok && position >= 0.0 ==> 0.0 <= position - progress[LessonKey(user, lesson)].position as real < 1.0
      ensures !ok ==> progress == old(progress)
      ensures ok ==> progress == old(progress)[LessonKey(user, lesson) := progress[LessonKey(user, lesson)]]
      ensures ok ==> Completion(progress, LessonKey(user, lesson)) == Completion(old(progress), LessonKey(user, lesson))
      ensures forall key :: CompletedLessons(Rows(), key) == old(CompletedLessons(Rows(), key))
    {
      forall key
        ensures CompletedLessons(Enrollments.SavePosition(Rows(), user, lesson, position, now), key) ==
          CompletedLessons(Rows(), key)
      {
        Progress.HeartbeatKeepsLessons(Rows(), user, lesson, position, now, key);
      }
      ok := IsEntitled(Key(user, lesson.course), now);
      if !ok {
        return;
      }
      var at := LessonKey(user, lesson);
      if at in progress {
        progress := progress[at := progress[at].(position := WholeSeconds(position))];
      } else {
        progress := progress[at := LessonRow(false, WholeSeconds(position), None)];
      }
    }

    /** One lesson more is complete, the cached percent is exact, and only a first finish is announced. */
    method CompleteLesson(user: nat, lesson: Lesson, catalog: map<nat, nat>, now: nat) returns (ok: bool)
      requires Valid()
      modifies this`progress, this`enrollments, this`announced
      ensures Valid() && ok == Entitled(old(Rows()), Key(user, lesson.course), now)
      ensures Rows() == if ok then Complete(old(Rows()), user, lesson, Total(catalog, lesson.course), now)
        else old(Rows())
      ensures ok ==>
        var key := Key(user, lesson.course);
        && key in enrollments && key in old(enrollments)
        && CompletedLessons(Rows(), key) == old(CompletedLessons(Rows(), key)) + {LessonKey(user, lesson)}
        && Rounded(enrollments[key].progressPercent, |CompletedLessons(Rows(), key)|,
                   if lesson.course in catalog then catalog[lesson.course] else 0)
        && (announced == if enrollments[key].completedAt == old(enrollments)[key].completedAt then old(announced)
              else old(announced) + [key])
      ensures ok ==>
        var at := LessonKey(user, lesson);
        && progress == old(progress)[at := progress[at]]
        && Position(progress, at) == Position(old(progress), at)
        && Completion(progress, at) ==
           if Completion(old(progress), at).0 then Completion(old(progress), at) else (true, Some(now))
    {
      ok := IsEntitled(Key(user, lesson.course), now);
      if !ok {
        return;
      }
      Progress.CompletionOnlyAdds(Rows(), user, lesson, Total(catalog, lesson.course), now, Key(user, lesson.course));
      var at := LessonKey(user, lesson);
      if at !in progress {
        progress := progress[at := LessonRow(true, 0, Some(now))];
      } else if !progress[at].completed {
        progress := progress[at := progress[at].(completed := true, completedAt := Some(now))];
      }
      RecalculateCache(Key(user, lesson.course), Total(catalog, lesson.course), now);
    }

    /** Recounts one row; it is announced exactly when it becomes finished by this call. */
    method RecalculateCache(key: Key, total: nat, now: nat)
      requires Valid()
      modifies this`enrollments, this`announced
      ensures Valid() && Rows() == Recalculate(old(Rows()), key, total, now)
      ensures enrollments.Keys == old(enrollments).Keys
      ensures key in enrollments ==> Rounded(enrollments[key].progressPercent, |CompletedLessons(Rows(), key)|, total)
      ensures forall k :: k in enrollments && k != key ==> enrollments[k] == old(enrollments)[k]
      ensures key in enrollments ==>
        var percent := enrollments[key].progressPercent;
        enrollments[key] == if enrollments[key].completedAt == old(enrollments)[key].completedAt
          then old(enrollments)[key].(progressPercent := percent)
          else old(enrollments)[key].(progressPercent := percent, status := Completed, completedAt := Some(now))
      ensures key in enrollments ==>
        && (enrollments[key].completedAt.Some? <==>
              old(enrollments)[key].completedAt.Some?
                || (total > 0 && 200 * |CompletedLessons(Rows(), key)| >= 199 * total))
        && (announced == if enrollments[key].completedAt == old(enrollments)[key].completedAt then old(announced)
              else old(announced) + [key])
    {
      RecalculateKeeps(Rows(), key, total, now);
      FinishLine(|CompletedLessons(Rows(), key)|, total);
      PercentIsRounded(|CompletedLessons(Rows(), key)|, total);
      var completed := |set at | at in progress && at.user == key.user && at.lesson.course == key.course
        && progress[at].completed|;
      assert completed == |CompletedLessons(Rows(), key)|;
      var percent := if total > 0 then RoundDiv(100 * completed, total) else 0;
      var finished := percent >= 100 && total > 0;
      if key in enrollments {
        var e := enrollments[key].(progressPercent := percent);
        if finished && e.completedAt.None? {
          enrollments := enrollments[key := e.(completedAt := Some(now), status := Completed)];
          announced := announced + [key];
        } else {
          enrollments := enrollments[key := e];
        }
      }
      assert CompletedLessons(Rows(), key) == old(CompletedLessons(Rows(), key));
    }
  }

  /** Rows whose completion times stand keep their announcements. */
  lemma SameCompletions(db: Db, db': Db)
    requires Progress.AnnouncedOnce(db) && db'.announced == db.announced
    requires forall key :: (key in db'.enrollments && db'.enrollments[key].completedAt.Some?)
                           == (key in db.enrollments && db.enrollments[key].completedAt.Some?)
    ensures Progress.AnnouncedOnce(db')
  {
  }

  lemma AdmitKeeps(db: Db, key: Key, source: Source, paymentId: Option<nat>)
    requires Progress.AnnouncedOnce(db) && Access.NoExpiry(db)
    ensures Progress.AnnouncedOnce(Admit(db, key, source, paymentId))
      && Access.NoExpiry(Admit(db, key, source, paymentId))
  {
    SameCompletions(db, Admit(db, key, source, paymentId));
  }

  lemma ExpelKeeps(db: Db, key: Key, now: nat)
    requires Progress.AnnouncedOnce(db) && Access.NoExpiry(db)
    ensures Progress.AnnouncedOnce(Expel(db, key, now)) && Access.NoExpiry(Expel(db, key, now))
  {
    SameCompletions(db, Expel(db, key, now));
  }

  lemma RecalculateKeeps(db: Db, key: Key, total: nat, now: nat)
    requires Progress.AnnouncedOnce(db) && Access.NoExpiry(db)
    ensures Progress.AnnouncedOnce(Recalculate(db, key, total, now))
      && Access.NoExpiry(Recalculate(db, key, total, now))
  {
    Progress.RecalculateKeepsAnnounced(db, key, total, now);
  }
}
