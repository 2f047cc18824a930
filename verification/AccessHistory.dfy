/** Access read off the history of grants and revocations alone. */
module AccessHistory {
  import opened Base
  import opened Enrollments
  import opened EnrollmentRuns

  predicate Opens(a: Action, key: Key) {
    (a.Granted? && a.key == key) || (a.Consumed? && a.evt.kind == PaymentCompleted && a.evt.key == key)
  }

  predicate Closes(a: Action, key: Key) {
    (a.Withdrawn? && a.key == key) || (a.Consumed? && a.evt.kind == PaymentRefunded && a.evt.key == key)
  }

  /** The course's first finish: the only recount that touches the status. */
  predicate FirstFinishOf(a: Action, key: Key) {
    a.Recounted? && a.key == key && a.finishedAt.Some?
  }

  /** Some opening action comes after every closing one. */
  predicate Held(log: seq<Action>, key: Key) {
    exists i :: 0 <= i < |log| && Opens(log[i], key) && forall j :: i < j < |log| ==> !Closes(log[j], key)
  }

  /** A first finish was committed although access had been closed since it was checked. */
  predicate Reopened(log: seq<Action>, key: Key) {
    exists i :: 0 <= i < |log| && FirstFinishOf(log[i], key) && !Held(log[..i], key)
      && forall j :: i < j < |log| ==> !Closes(log[j], key)
  }

  lemma HeldSnoc(log: seq<Action>, a: Action, key: Key)
    ensures Held(log + [a], key) <==> Opens(a, key) || (!Closes(a, key) && Held(log, key))
  {
    var longer := log + [a];
    if Opens(a, key) {
      assert longer[|log|] == a;
    } else if Held(log, key) && !Closes(a, key) {
      var i :| 0 <= i < |log| && Opens(log[i], key) && forall j :: i < j < |log| ==> !Closes(log[j], key);
      assert longer[i] == log[i];
    }
    if Held(longer, key) && !Opens(a, key) {
      var i :| 0 <= i < |longer| && Opens(longer[i], key) && forall j :: i < j < |longer| ==> !Closes(longer[j], key);
      assert longer[|log|] == a && i < |log|;
      assert log[i] == longer[i];
      assert forall j :: i < j < |log| ==> log[j] == longer[j];
    }
  }

  lemma ReopenedSnoc(log: seq<Action>, a: Action, key: Key)
    ensures Reopened(log + [a], key) <==>
      (FirstFinishOf(a, key) && !Held(log, key)) || (!Closes(a, key) && Reopened(log, key))
  {
    var longer := log + [a];
    assert longer[..|log|] == log && longer[|log|] == a;
    if Reopened(log, key) && !Closes(a, key) {
      var i :| 0 <= i < |log| && FirstFinishOf(log[i], key) && !Held(log[..i], key)
        && forall j :: i < j < |log| ==> !Closes(log[j], key);
      assert longer[i] == log[i] && longer[..i] == log[..i];
    }
    if Reopened(longer, key) {
      var i :| 0 <= i < |longer| && FirstFinishOf(longer[i], key) && !Held(longer[..i], key)
        && forall j :: i < j < |longer| ==> !Closes(longer[j], key);
      if i < |log| {
        assert longer[i] == log[i] && longer[..i] == log[..i];
        assert forall j :: i < j < |log| ==> log[j] == longer[j];
      }
    }
  }

  // ---- every row agrees with the history ----------------------------------------------------------

  predicate OpenRow(db: Db, key: Key) {
    key in db.enrollments && db.enrollments[key].status != Revoked
  }

  predicate NoExpiry(db: Db) {
    forall key :: key in db.enrollments ==> db.enrollments[key].expiresAt.None?
  }

  lemma StepOpens(m: Machine, e: Event, key: Key)
    ensures var n := Next(m, e);
      || (n.log == m.log && OpenRow(n.db, key) == OpenRow(m.db, key))
      || (exists a :: n.log == m.log + [a] && OpenRow(n.db, key) ==
            if Opens(a, key) || FirstFinishOf(a, key) then true else if Closes(a, key) then false
              else OpenRow(m.db, key))
  {
    var n := Next(m, e);
    if n.log != m.log {
      assert n.log == m.log + [n.log[|m.log|]];
    }
  }

  lemma StepKeepsNoExpiry(m: Machine, e: Event)
    requires NoExpiry(m.db)
    ensures NoExpiry(Next(m, e).db)
  {
  }

  lemma {:induction false} RowsFollowHistory(run: seq<Event>, key: Key)
    ensures var m := Run(EMPTY, run);
      NoExpiry(m.db) && (OpenRow(m.db, key) <==> Held(m.log, key) || Reopened(m.log, key))
  {
    if run != [] {
      var before := Run(EMPTY, run[..|run| - 1]);
      var n := Next(before, run[|run| - 1]);
      RowsFollowHistory(run[..|run| - 1], key);
      StepKeepsNoExpiry(before, run[|run| - 1]);
      StepOpens(before, run[|run| - 1], key);
      if n.log != before.log {
        var a := n.log[|before.log|];
        assert n.log == before.log + [a];
        HeldSnoc(before.log, a, key);
        ReopenedSnoc(before.log, a, key);
      }
    }
  }

  /**
   * In every run, at every moment: a learner is entitled exactly when some grant, free enrolment
   * or consumed payment comes after every revocation and refund, or a completion raced past one.
   */
  lemma AccessIsDecidedByHistory(run: seq<Event>, key: Key, now: nat)
    ensures var m := Run(EMPTY, run);
      Entitled(m.db, key, now) <==> Held(m.log, key) || Reopened(m.log, key)
  {
    RowsFollowHistory(run, key);
  }

  /** Each finishing write is made while the learner is still entitled: the whole call is atomic. */
  predicate PromptCompletions(run: seq<Event>) {
    run == [] ||
    (&& PromptCompletions(run[..|run| - 1])
     && var m := Run(EMPTY, run[..|run| - 1]);
        var e := run[|run| - 1];
        e.step.Commit? && e.step.call < |m.pending| && m.pending[e.step.call].Completing? ==>
          var c := m.pending[e.step.call];
          Entitled(m.db, Key(c.user, c.lesson.course), m.clock + e.wait))
  }

  /** A finish is logged only by a completion's commit, for that completion's key. */
  lemma FinishIsCommitted(m: Machine, e: Event, a: Action, key: Key)
    requires Next(m, e).log == m.log + [a] && FirstFinishOf(a, key)
    ensures e.step.Commit? && e.step.call < |m.pending| && m.pending[e.step.call].Completing?
    ensures key == Key(m.pending[e.step.call].user, m.pending[e.step.call].lesson.course)
  {
    assert Next(m, e).log[|m.log|] == a;
  }

  /** With atomic completions, grants and revocations alone decide access. */
  lemma {:induction false} AtomicAccessIsDecidedByHistory(run: seq<Event>, key: Key, now: nat)
    requires PromptCompletions(run)
    ensures var m := Run(EMPTY, run);
      !Reopened(m.log, key) && (Entitled(m.db, key, now) <==> Held(m.log, key))
  {
    RowsFollowHistory(run, key);
    if run != [] {
      var before := Run(EMPTY, run[..|run| - 1]);
      var n := Next(before, run[|run| - 1]);
      AtomicAccessIsDecidedByHistory(run[..|run| - 1], key, now);
      StepOpens(before, run[|run| - 1], key);
      if n.log != before.log {
        var a := n.log[|before.log|];
        assert n.log == before.log + [a];
        ReopenedSnoc(before.log, a, key);
        if FirstFinishOf(a, key) {
          FinishIsCommitted(before, run[|run| - 1], a, key);
          RowsFollowHistory(run[..|run| - 1], key);
        }
      }
    }
  }

  /**
   * Split at the entitlement check, the history theorem needs its second disjunct: any completion
   * that would finish a course lets access survive a revocation committed in between.
   */
  lemma RaceReopensAccess(m: Machine, user: nat, lesson: Lesson, catalog: map<nat, nat>, now: nat)
    requires var key := Key(user, lesson.course);
      Entitled(m.db, key, m.clock) && NoExpiry(m.db)
      && FirstFinish(MarkComplete(m.db, user, lesson, m.clock), key, Total(catalog, lesson.course))
    ensures var key := Key(user, lesson.course);
      var n := Next(Next(Next(m, Event(0, AskComplete(user, lesson))), Event(0, Withdraw(key))),
        Event(0, Commit(|m.pending|, catalog)));
      Entitled(n.db, key, now) && !Held(n.log, key)
  {
    var key := Key(user, lesson.course);
    var m1 := Next(m, Event(0, AskComplete(user, lesson)));
    var m2 := Next(m1, Event(0, Withdraw(key)));
    assert m2.pending[|m.pending|] == Completing(user, lesson);
    assert m2.db.progress == m.db.progress;
    assert CompletedLessons(MarkComplete(m2.db, user, lesson, m.clock), key)
        == CompletedLessons(MarkComplete(m.db, user, lesson, m.clock), key);
    var marked := MarkComplete(m2.db, user, lesson, m.clock);
    HeldSnoc(m.log, Withdrawn(key, m.clock), key);
    HeldSnoc(m2.log, Recount(marked, key, Total(catalog, lesson.course), m.clock), key);
  }
}
