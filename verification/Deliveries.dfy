/**
 * What becomes of every delivery to enrollment-service.  A handler throws when it loses the race
 * for its ledger row, or fails for any other reason before its transaction commits; either way the
 * bus puts the event on the dead-letter list.
 */
module Deliveries {
  import opened Base
  import opened Enrollments
  import opened EnrollmentRuns

  /** This step runs the transaction of an event that has been applied since its look-up. */
  predicate Throws(m: Machine, e: Event) {
    && e.step.Commit? && e.step.call < |m.pending|
    && m.pending[e.step.call].Consuming? && m.pending[e.step.call].evt.id in m.db.ledger
  }

  /** This step is any other failure of a handler; its transaction leaves nothing behind. */
  predicate Fails(m: Machine, e: Event) {
    e.step.Abort? && e.step.call < |m.pending| && m.pending[e.step.call].Consuming?
  }

  /** Ids of the events whose handler failed, newest first. */
  function Failed(run: seq<Event>): seq<nat> {
    if run == [] then []
    else
      var m, e := Run(EMPTY, run[..|run| - 1]), run[|run| - 1];
      (if Fails(m, e) then [m.pending[e.step.call].evt.id] else []) + Failed(run[..|run| - 1])
  }

  /** Ids on the dead-letter list, newest first. */
  function DeadLetters(run: seq<Event>): seq<nat> {
    if run == [] then []
    else
      var m, e := Run(EMPTY, run[..|run| - 1]), run[|run| - 1];
      (if Throws(m, e) || Fails(m, e) then [m.pending[e.step.call].evt.id] else []) + DeadLetters(run[..|run| - 1])
  }

  function Delivered(run: seq<Event>): nat {
    if run == [] then 0 else Delivered(run[..|run| - 1]) + (if run[|run| - 1].step.Deliver? then 1 else 0)
  }

  predicate Skips(m: Machine, e: Event) {
    e.step.Deliver? && e.step.evt.id in m.db.ledger
  }

  /** Deliveries whose look-up found the event already processed. */
  function Skipped(run: seq<Event>): nat {
    if run == [] then 0
    else Skipped(run[..|run| - 1]) + (if Skips(Run(EMPTY, run[..|run| - 1]), run[|run| - 1]) then 1 else 0)
  }

  /** Handlers between their look-up and their transaction. */
  function Handling(pending: seq<Pending>): set<nat> {
    set i | 0 <= i < |pending| && pending[i].Consuming?
  }

  lemma SettlingLeaves(pending: seq<Pending>, i: nat)
    requires i < |pending|
    ensures |Handling(pending[i := Settled])| == |Handling(pending)| - (if pending[i].Consuming? then 1 else 0)
  {
    assert Handling(pending[i := Settled]) == Handling(pending) - {i};
  }

  lemma StartingEnters(pending: seq<Pending>, p: Pending)
    ensures |Handling(pending + [p])| == |Handling(pending)| + (if p.Consuming? then 1 else 0)
  {
    assert Handling(pending + [p]) == if p.Consuming? then Handling(pending) + {|pending|} else Handling(pending);
  }

  /** This step runs the transaction of an event that has not been applied. */
  predicate Applies(m: Machine, e: Event) {
    && e.step.Commit? && e.step.call < |m.pending|
    && m.pending[e.step.call].Consuming? && m.pending[e.step.call].evt.id !in m.db.ledger
  }

  lemma {:induction false} StepLogs(m: Machine, e: Event)
    ensures var n := Next(m, e);
      if Applies(m, e) then n.log == m.log + [Consumed(m.pending[e.step.call].evt, m.clock + e.wait)]
      else n.log == m.log || (|n.log| == |m.log| + 1 && n.log[..|m.log|] == m.log && !n.log[|m.log|].Consumed?)
  {
  }

  /** Only a consumer's transaction adds an applied event, and it adds its own. */
  lemma {:induction false} StepConsumes(m: Machine, e: Event)
    ensures ConsumedIds(Next(m, e).log) ==
      ConsumedIds(m.log) + (if Applies(m, e) then [m.pending[e.step.call].evt.id] else [])
  {
    var log, log' := m.log, Next(m, e).log;
    StepLogs(m, e);
    if log' != log {
      var a := log'[|log|];
      assert log' == log + [a];
      ConsumedSnoc(log, a);
    }
  }

  /** This step settles a handler, whatever comes of it. */
  predicate Settles(m: Machine, e: Event) {
    && (e.step.Commit? || e.step.Abort?)
    && e.step.call < |m.pending| && m.pending[e.step.call].Consuming?
  }

  lemma StepHandles(m: Machine, e: Event)
    ensures var n := Next(m, e);
      |Handling(n.pending)| + (if Settles(m, e) then 1 else 0)
      == |Handling(m.pending)| + (if e.step.Deliver? && !Skips(m, e) then 1 else 0)
  {
    var n := Next(m, e);
    if |n.pending| > |m.pending| {
      StartingEnters(m.pending, n.pending[|m.pending|]);
      assert n.pending == m.pending + [n.pending[|m.pending|]];
    } else if (e.step.Commit? || e.step.Abort?) && e.step.call < |m.pending| {
      SettlingLeaves(m.pending, e.step.call);
      assert n.pending == m.pending[e.step.call := Settled];
    }
  }

  /**
   * No delivery counts twice and none goes missing: each one was skipped at its look-up, took effect,
   * was dead-lettered, or is still being handled.
   */
  lemma {:induction false} EveryDeliveryIsAccounted(run: seq<Event>)
    ensures var m := Run(EMPTY, run);
      Delivered(run) == Skipped(run) + |ConsumedIds(m.log)| + |DeadLetters(run)| + |Handling(m.pending)|
  {
    if run != [] {
      var before := run[..|run| - 1];
      EveryDeliveryIsAccounted(before);
      StepConsumes(Run(EMPTY, before), run[|run| - 1]);
      StepHandles(Run(EMPTY, before), run[|run| - 1]);
    }
  }

  /**
   * A dead letter whose handler did not fail needs no redrive: it lost a race, and its event took
   * effect, exactly once, through the delivery that won.
   */
  lemma {:induction false} LostRacesWereApplied(run: seq<Event>)
    ensures var m := Run(EMPTY, run);
      && Distinct(ConsumedIds(m.log))
      && forall id :: id in DeadLetters(run) ==> id in ConsumedIds(m.log) || id in Failed(run)
  {
    TableIsFoldOfLog(run);
    if run != [] {
      var before := run[..|run| - 1];
      LostRacesWereApplied(before);
      TableIsFoldOfLog(before);
      StepConsumes(Run(EMPTY, before), run[|run| - 1]);
    }
  }

  predicate BeingHandled(pending: seq<Pending>, id: nat) {
    exists i :: 0 <= i < |pending| && pending[i].Consuming? && pending[i].evt.id == id
  }

  predicate WasDelivered(run: seq<Event>, id: nat) {
    exists i :: 0 <= i < |run| && run[i].step.Deliver? && run[i].step.evt.id == id
  }

  /** Where an event stands after `run`. */
  predicate Placed(run: seq<Event>, id: nat) {
    var m := Run(EMPTY, run);
    id in ConsumedIds(m.log) || id in DeadLetters(run) || BeingHandled(m.pending, id)
  }

  lemma StepKeepsHandled(m: Machine, e: Event, id: nat)
    requires BeingHandled(m.pending, id)
    ensures BeingHandled(Next(m, e).pending, id) || (Settles(m, e) && m.pending[e.step.call].evt.id == id)
  {
    var i :| 0 <= i < |m.pending| && m.pending[i].Consuming? && m.pending[i].evt.id == id;
    var n := Next(m, e);
    assert n.pending[i] == m.pending[i] || ((e.step.Commit? || e.step.Abort?) && e.step.call == i);
  }

  lemma DeliveryEnters(m: Machine, e: Event)
    requires e.step.Deliver? && !Skips(m, e)
    ensures BeingHandled(Next(m, e).pending, e.step.evt.id)
  {
    assert Next(m, e).pending[|m.pending|] == Consuming(e.step.evt);
  }

  /**
   * The dead-letter list misses nothing: an event that was ever delivered took effect, is being
   * handled, or is on the list.
   */
  lemma {:induction false} NothingIsLost(run: seq<Event>, id: nat)
    requires WasDelivered(run, id)
    ensures Placed(run, id)
  {
    var before, e := run[..|run| - 1], run[|run| - 1];
    var m := Run(EMPTY, before);
    StepConsumes(m, e);
    TableIsFoldOfLog(before);
    assert forall i :: 0 <= i < |before| ==> before[i] == run[i];
    if WasDelivered(before, id) {
      NothingIsLost(before, id);
      if BeingHandled(m.pending, id) {
        StepKeepsHandled(m, e, id);
      }
    } else {
      assert e.step.Deliver? && e.step.evt.id == id;
      if !Skips(m, e) {
        DeliveryEnters(m, e);
      }
    }
  }

  /** Two deliveries of an event whose look-ups both come before either transaction. */
  function Race(evt: Envelope): seq<Event> {
    [Event(0, Deliver(evt)), Event(0, Deliver(evt)), Event(0, Commit(0, map[])), Event(0, Commit(1, map[]))]
  }

  lemma {:induction false} LettersGrow(run: seq<Event>, e: Event)
    ensures var m := Run(EMPTY, run);
      && Run(EMPTY, run + [e]) == Next(m, e)
      && DeadLetters(run + [e]) ==
            (if Throws(m, e) || Fails(m, e) then [m.pending[e.step.call].evt.id] else []) + DeadLetters(run)
      && Failed(run + [e]) == (if Fails(m, e) then [m.pending[e.step.call].evt.id] else []) + Failed(run)
  {
    assert (run + [e])[..|run|] == run;
  }

  /** What a run has left: its machine, its dead letters and its failures. */
  predicate Leaves(run: seq<Event>, m: Machine, letters: seq<nat>, failed: seq<nat>) {
    Run(EMPTY, run) == m && DeadLetters(run) == letters && Failed(run) == failed
  }

  lemma {:induction false} OneMore(run: seq<Event>, m: Machine, letters: seq<nat>, failed: seq<nat>, e: Event)
    requires Leaves(run, m, letters, failed) && !Fails(m, e)
    ensures Leaves(run + [e], Next(m, e), if Throws(m, e) then [m.pending[e.step.call].evt.id] + letters
      else letters, failed)
  {
    LettersGrow(run, e);
  }

  lemma DeliverStep(m: Machine, evt: Envelope)
    requires evt.id !in m.db.ledger
    ensures Next(m, Event(0, Deliver(evt))) == m.(pending := m.pending + [Consuming(evt)])
  {
  }

  lemma CommitStep(m: Machine, i: nat, evt: Envelope)
    requires i < |m.pending| && m.pending[i] == Consuming(evt)
    ensures var n := Next(m, Event(0, Commit(i, map[])));
      && n.pending == m.pending[i := Settled] && n.db.ledger == m.db.ledger + {evt.id}
      && n.log == if evt.id in m.db.ledger then m.log else m.log + [Consumed(evt, m.clock)]
  {
  }

  /** The machines the race goes through. */
  lemma {:induction false} RaceMachines(evt: Envelope) returns (m1: Machine, m2: Machine, m3: Machine, m4: Machine)
    ensures var r := Race(evt);
      && m1 == Next(EMPTY, r[0]) && m2 == Next(m1, r[1]) && m3 == Next(m2, r[2]) && m4 == Next(m3, r[3])
      && !Fails(EMPTY, r[0]) && !Throws(EMPTY, r[0])
      && !Fails(m1, r[1]) && !Throws(m1, r[1])
      && !Fails(m2, r[2]) && !Throws(m2, r[2])
      && !Fails(m3, r[3]) && Throws(m3, r[3]) && m3.pending[r[3].step.call].evt.id == evt.id
    ensures m4.log == [Consumed(evt, 0)]
  {
    m1 := EMPTY.(pending := [Consuming(evt)]);
    m2 := EMPTY.(pending := [Consuming(evt), Consuming(evt)]);
    DeliverStep(EMPTY, evt);
    DeliverStep(m1, evt);
    m3 := Next(m2, Event(0, Commit(0, map[])));
    CommitStep(m2, 0, evt);
    m4 := Next(m3, Event(0, Commit(1, map[])));
    CommitStep(m3, 1, evt);
  }

  /** The race does happen: any event so delivered takes effect and is dead-lettered without a failure. */
  lemma {:induction false} LostRaceIsDeadLettered(evt: Envelope)
    ensures var run := Race(evt);
      DeadLetters(run) == [evt.id] && ConsumedIds(Run(EMPTY, run).log) == [evt.id] && Failed(run) == []
  {
    var r := Race(evt);
    var m1, m2, m3, m4 := RaceMachines(evt);
    var r1, r2, r3 := [r[0]], [r[0], r[1]], [r[0], r[1], r[2]];
    assert [] + [r[0]] == r1 && r1 + [r[1]] == r2 && r2 + [r[2]] == r3 && r3 + [r[3]] == r;
    OneMore([], EMPTY, [], [], r[0]);
    OneMore(r1, m1, [], [], r[1]);
    OneMore(r2, m2, [], [], r[2]);
    OneMore(r3, m3, [], [], r[3]);
    assert Leaves(r, m4, [evt.id] + [], []);
    assert m4.log[..0] == [] && ConsumedIds([]) == [];
  }
}
