/**
 * `start` split where other calls can come between: it counts the user's live sessions, inserts the
 * row, provisions the container, and only then marks the row running or failed, without looking at
 * it again.
 */
module LabRaces {
  import opened Base
  import opened Labs

  datatype StartCall = Counted(user: nat, template: Template) | Inserted(user: nat, id: nat) | Over

  datatype Racing = Racing(lab: Machine, starts: seq<StartCall>)

  datatype RaceStep =
    | Count(user: nat, entitled: bool, template: Option<Template>)
    | Insert(start: nat)
    | Finish(start: nat, provisioned: bool)
    | Other(step: Step)

  datatype RaceEvent = RaceEvent(wait: nat, step: RaceStep)

  function InsertRow(sessions: seq<Session>, user: nat, template: Template, now: nat): seq<Session> {
    sessions + [Session(user, Provisioning, None, None, None, now + 1000 * template.ttlSeconds, template.idleSeconds)]
  }

  function MarkRow(sessions: seq<Session>, id: nat, provisioned: bool, now: nat): seq<Session> {
    if id >= |sessions| then sessions
    else if provisioned then sessions[id := sessions[id].(status := Running, lastActivityAt := Some(now))]
    else sessions[id := sessions[id].(status := Failed, endedAt := Some(now))]
  }

  /** `Other` is every step but a whole start: those are split here. */
  function NextRace(m: Racing, e: RaceEvent, max: nat): Racing {
    var now := m.lab.clock + e.wait;
    var later := m.(lab := m.lab.(clock := now));
    match e.step
    case Count(user, entitled, template) =>
      if MayStart(m.lab.sessions, user, entitled, template, max)
      then later.(starts := m.starts + [Counted(user, template.value)]) else later
    case Insert(i) =>
      if i < |m.starts| && m.starts[i].Counted?
      then Racing(later.lab.(sessions := InsertRow(m.lab.sessions, m.starts[i].user, m.starts[i].template, now)),
                  m.starts[i := Inserted(m.starts[i].user, |m.lab.sessions|)])
      else later
    case Finish(i, provisioned) =>
      if i < |m.starts| && m.starts[i].Inserted?
      then Racing(later.lab.(sessions := MarkRow(m.lab.sessions, m.starts[i].id, provisioned, now)),
        m.starts[i := Over])
      else later
    case Other(step) => if step.DoStart? then later else m.(lab := Next(m.lab, Event(e.wait, step), max))
  }

  function RunRace(m: Racing, run: seq<RaceEvent>, max: nat): Racing {
    if run == [] then m else NextRace(RunRace(m, run[..|run| - 1], max), run[|run| - 1], max)
  }

  const NOBODY := Racing(EMPTY, [])

  /** Counted, inserted and finished with nothing in between, a start is the whole start. */
  lemma StartIsItsSteps(m: Racing, user: nat, entitled: bool, template: Option<Template>, provisioned: bool, max: nat,
      wait: nat)
    ensures var i := |m.starts|;
      var counted := NextRace(m, RaceEvent(wait, Count(user, entitled, template)), max);
      var done := NextRace(NextRace(counted, RaceEvent(0, Insert(i)), max), RaceEvent(0, Finish(i, provisioned)), max);
      done.lab == Next(m.lab, Event(wait, DoStart(user, entitled, template, provisioned)), max)
  {
  }

  // ---- the quota ------------------------------------------------------------------------------------

  predicate InFlight(c: StartCall, user: nat) {
    !c.Over? && c.user == user
  }

  function Flights(starts: seq<StartCall>, user: nat): set<nat> {
    set i | 0 <= i < |starts| && InFlight(starts[i], user)
  }

  predicate Starting(starts: seq<StartCall>, id: nat) {
    exists i :: 0 <= i < |starts| && starts[i].Inserted? && starts[i].id == id
  }

  /** Live sessions whose start is over. */
  function Settled(m: Racing, user: nat): set<nat> {
    set id | id in LiveOf(m.lab.sessions, user) && !Starting(m.starts, id)
  }

  /** Every start that has inserted its row inserted it for its own user. */
  predicate OwnRows(m: Racing) {
    forall i :: 0 <= i < |m.starts| && m.starts[i].Inserted? ==>
      m.starts[i].id < |m.lab.sessions| && m.lab.sessions[m.starts[i].id].user == m.starts[i].user
  }

  lemma {:induction false} ImageFits(from: set<nat>, image: map<nat, nat>)
    requires from <= image.Keys
    ensures |set i | i in from :: image[i]| <= |from|
    decreases |from|
  {
    if from == {} {
      assert (set i | i in from :: image[i]) == {};
    } else {
      var x :| x in from;
      ImageFits(from - {x}, image);
      var rest := set i | i in from - {x} :: image[i];
      assert (set i | i in from :: image[i]) == rest + {image[x]};
    }
  }

  /** A live session is settled or belongs to a start in flight, one session to a start. */
  lemma LiveFits(m: Racing, user: nat)
    requires OwnRows(m)
    ensures |LiveOf(m.lab.sessions, user)| <= |Settled(m, user)| + |Flights(m.starts, user)|
  {
    var live, settled, flights := LiveOf(m.lab.sessions, user), Settled(m, user), Flights(m.starts, user);
    var rowOf := map i | 0 <= i < |m.starts| :: if m.starts[i].Inserted? then m.starts[i].id else |m.lab.sessions|;
    var rows := set i | i in flights :: rowOf[i];
    ImageFits(flights, rowOf);
    forall id | id in live - settled
      ensures id in rows
    {
      var i :| 0 <= i < |m.starts| && m.starts[i].Inserted? && m.starts[i].id == id;
      assert i in flights && rowOf[i] == id;
    }
    SubsetSize(live - settled, rows);
    assert live == settled + (live - settled);
  }

  lemma StepKeepsOwnRows(m: Racing, e: RaceEvent, max: nat)
    requires OwnRows(m)
    ensures OwnRows(NextRace(m, e, max))
    ensures |m.lab.sessions| <= |NextRace(m, e, max).lab.sessions|
    ensures forall id :: 0 <= id < |m.lab.sessions| ==>
      NextRace(m, e, max).lab.sessions[id].user == m.lab.sessions[id].user
  {
  }

  lemma FlightChanges(starts: seq<StartCall>, i: nat, c: StartCall, user: nat)
    requires i < |starts| && (InFlight(c, user) ==> InFlight(starts[i], user))
    ensures Flights(starts[i := c], user) == if InFlight(c, user) then Flights(starts, user)
      else Flights(starts, user) - {i}
  {
  }

  lemma CountingEnters(starts: seq<StartCall>, c: StartCall, user: nat)
    ensures Flights(starts + [c], user) == if InFlight(c, user) then Flights(starts, user) + {|starts|}
      else Flights(starts, user)
  {
  }

  predicate Passes(m: Racing, e: RaceEvent, max: nat, user: nat) {
    e.step.Count? && e.step.user == user && MayStart(m.lab.sessions, user, e.step.entitled, e.step.template, max)
  }

  lemma CountSlots(m: Racing, e: RaceEvent, max: nat, user: nat)
    requires e.step.Count?
    ensures var n := NextRace(m, e, max);
      Settled(n, user) == Settled(m, user)
      && |Flights(n.starts, user)| == |Flights(m.starts, user)| + (if Passes(m, e, max, user) then 1 else 0)
  {
    var n := NextRace(m, e, max);
    if n.starts != m.starts {
      var c := n.starts[|m.starts|];
      assert n.starts == m.starts + [c];
      CountingEnters(m.starts, c, user);
      assert !c.Inserted?;
      assert forall i :: 0 <= i < |m.starts| ==> n.starts[i] == m.starts[i];
      forall id
        ensures Starting(n.starts, id) <==> Starting(m.starts, id)
      {
      }
    }
  }

  lemma InsertSlots(m: Racing, e: RaceEvent, max: nat, user: nat)
    requires OwnRows(m) && e.step.Insert? && e.step.start < |m.starts| && m.starts[e.step.start].Counted?
    ensures var n := NextRace(m, e, max);
      Settled(n, user) == Settled(m, user) && Flights(n.starts, user) == Flights(m.starts, user)
  {
    var n := NextRace(m, e, max);
    var i, id := e.step.start, |m.lab.sessions|;
    FlightChanges(m.starts, i, n.starts[i], user);
    assert n.starts[i] == Inserted(m.starts[i].user, id);
    forall x
      ensures Starting(n.starts, x) <==> Starting(m.starts, x) || x == id
    {
      if Starting(m.starts, x) {
        var k :| 0 <= k < |m.starts| && m.starts[k].Inserted? && m.starts[k].id == x;
        assert n.starts[k] == m.starts[k];
      }
    }
  }

  lemma FinishSlots(m: Racing, e: RaceEvent, max: nat, user: nat)
    requires OwnRows(m) && e.step.Finish? && e.step.start < |m.starts| && m.starts[e.step.start].Inserted?
    ensures var n := NextRace(m, e, max);
      |Settled(n, user)| + |Flights(n.starts, user)| <= |Settled(m, user)| + |Flights(m.starts, user)|
  {
    var n := NextRace(m, e, max);
    var i, id := e.step.start, m.starts[e.step.start].id;
    FlightChanges(m.starts, i, Over, user);
    forall x | Starting(m.starts, x) && x != id
      ensures Starting(n.starts, x)
    {
      var k :| 0 <= k < |m.starts| && m.starts[k].Inserted? && m.starts[k].id == x;
      assert n.starts[k] == m.starts[k];
    }
    SubsetSize(Settled(n, user), Settled(m, user) + {id});
    if m.starts[i].user != user {
      assert id !in Settled(n, user);
      SubsetSize(Settled(n, user), Settled(m, user));
    }
  }

  lemma OtherSlots(m: Racing, e: RaceEvent, max: nat, user: nat)
    requires e.step.Other?
    ensures var n := NextRace(m, e, max); n.starts == m.starts && |Settled(n, user)| <= |Settled(m, user)|
  {
    var n := NextRace(m, e, max);
    forall id | id in Settled(n, user)
      ensures id in Settled(m, user)
    {
      if !e.step.step.DoStart? {
        StepKeepsEnds(m.lab, Event(e.wait, e.step.step), max, id);
      }
    }
    SubsetSize(Settled(n, user), Settled(m, user));
  }

  lemma StepSlots(m: Racing, e: RaceEvent, max: nat, user: nat)
    requires OwnRows(m)
    ensures var n := NextRace(m, e, max);
      |Settled(n, user)| + |Flights(n.starts, user)|
      <= |Settled(m, user)| + |Flights(m.starts, user)| + (if Passes(m, e, max, user) then 1 else 0)
  {
    if e.step.Count? {
      CountSlots(m, e, max, user);
    } else if e.step.Insert? && e.step.start < |m.starts| && m.starts[e.step.start].Counted? {
      InsertSlots(m, e, max, user);
    } else if e.step.Finish? && e.step.start < |m.starts| && m.starts[e.step.start].Inserted? {
      FinishSlots(m, e, max, user);
    } else if e.step.Other? {
      OtherSlots(m, e, max, user);
    } else {
      var n := NextRace(m, e, max);
      assert n.starts == m.starts && n.lab.sessions == m.lab.sessions;
    }
  }

  /** No more than `overlap` starts of the user are ever in flight together. */
  predicate AtMost(run: seq<RaceEvent>, max: nat, user: nat, overlap: nat) {
    && |Flights(RunRace(NOBODY, run, max).starts, user)| <= overlap
    && (run == [] || AtMost(run[..|run| - 1], max, user, overlap))
  }

  /** A start passes only below the quota, so the settled sessions leave room for it. */
  lemma PassingLeavesRoom(m: Racing, e: RaceEvent, max: nat, user: nat)
    requires Passes(m, e, max, user)
    ensures |Settled(m, user)| < max && |Flights(NextRace(m, e, max).starts, user)| == |Flights(m.starts, user)| + 1
    ensures Settled(NextRace(m, e, max), user) == Settled(m, user)
  {
    CountSlots(m, e, max, user);
    SubsetSize(Settled(m, user), LiveOf(m.lab.sessions, user));
  }

  lemma {:induction false} SlotsBound(run: seq<RaceEvent>, max: nat, user: nat, overlap: nat)
    requires overlap >= 1 && AtMost(run, max, user, overlap)
    ensures var m := RunRace(NOBODY, run, max);
      OwnRows(m) && |Settled(m, user)| + |Flights(m.starts, user)| <= max + overlap - 1
  {
    if run == [] {
      assert Settled(NOBODY, user) == {} && Flights(NOBODY.starts, user) == {};
    } else {
      var before, e := RunRace(NOBODY, run[..|run| - 1], max), run[|run| - 1];
      SlotsBound(run[..|run| - 1], max, user, overlap);
      StepKeepsOwnRows(before, e, max);
      if Passes(before, e, max, user) {
        PassingLeavesRoom(before, e, max, user);
      } else {
        StepSlots(before, e, max, user);
      }
    }
  }

  /**
   * The price of overlap: with at most `overlap` starts of a user in flight together, the user
   * never has more than `overlap` - 1 live sessions above the quota.
   */
  lemma {:induction false} OverlapQuota(run: seq<RaceEvent>, max: nat, user: nat, overlap: nat)
    requires overlap >= 1 && AtMost(run, max, user, overlap)
    ensures |LiveOf(RunRace(NOBODY, run, max).lab.sessions, user)| <= max + overlap - 1
  {
    SlotsBound(run, max, user, overlap);
    LiveFits(RunRace(NOBODY, run, max), user);
  }

  // ---- the bound is met -------------------------------------------------------------------------------

  const BARE := Template(0, 0)

  function CountEvent(user: nat): RaceEvent {
    RaceEvent(0, Count(user, true, Some(BARE)))
  }

  lemma CountOnce(m: Racing, max: nat, user: nat)
    requires |LiveOf(m.lab.sessions, user)| < max
    ensures var n := NextRace(m, CountEvent(user), max);
      && n.lab.sessions == m.lab.sessions && n.starts == m.starts + [Counted(user, BARE)]
      && |Flights(n.starts, user)| == |Flights(m.starts, user)| + 1
  {
    CountSlots(m, CountEvent(user), max, user);
  }

  lemma InsertOnce(m: Racing, max: nat, user: nat, i: nat)
    requires i < |m.starts| && m.starts[i] == Counted(user, BARE)
    ensures var n := NextRace(m, RaceEvent(0, Insert(i)), max);
      && n.starts == m.starts[i := Inserted(user, |m.lab.sessions|)]
      && |n.lab.sessions| == |m.lab.sessions| + 1
      && n.lab.sessions[|m.lab.sessions|].user == user && IsLive(n.lab.sessions[|m.lab.sessions|])
      && |LiveOf(n.lab.sessions, user)| == |LiveOf(m.lab.sessions, user)| + 1
      && Flights(n.starts, user) == Flights(m.starts, user)
  {
    var n := NextRace(m, RaceEvent(0, Insert(i)), max);
    FlightChanges(m.starts, i, Inserted(user, |m.lab.sessions|), user);
    assert LiveOf(n.lab.sessions, user) == LiveOf(m.lab.sessions, user) + {|m.lab.sessions|};
  }

  lemma FinishOnce(m: Racing, max: nat, user: nat, i: nat)
    requires i < |m.starts| && m.starts[i].Inserted? && m.starts[i].user == user && m.starts[i].id < |m.lab.sessions|
    requires m.lab.sessions[m.starts[i].id].user == user && IsLive(m.lab.sessions[m.starts[i].id])
    ensures var n := NextRace(m, RaceEvent(0, Finish(i, true)), max);
      && LiveOf(n.lab.sessions, user) == LiveOf(m.lab.sessions, user)
      && Flights(n.starts, user) == Flights(m.starts, user) - {i}
  {
    FlightChanges(m.starts, i, Over, user);
  }

  /** One more event keeps the run within `overlap`, if its own state is. */
  lemma {:induction false} AddOne(run: seq<RaceEvent>, m: Racing, e: RaceEvent, max: nat, user: nat, overlap: nat)
    returns (longer: seq<RaceEvent>, n: Racing)
    requires m == RunRace(NOBODY, run, max) && AtMost(run, max, user, overlap)
    requires |Flights(NextRace(m, e, max).starts, user)| <= overlap
    ensures n == NextRace(m, e, max) && n == RunRace(NOBODY, longer, max) && AtMost(longer, max, user, overlap)
  {
    longer, n := run + [e], NextRace(m, e, max);
    assert longer[..|run|] == run;
  }

  /** One start from its count to its end, with no other in flight. */
  lemma {:induction false} StartAlone(run: seq<RaceEvent>, m: Racing, max: nat, user: nat, overlap: nat)
    returns (longer: seq<RaceEvent>, n: Racing)
    requires m == RunRace(NOBODY, run, max) && AtMost(run, max, user, overlap) && overlap >= 1
    requires |LiveOf(m.lab.sessions, user)| < max && Flights(m.starts, user) == {}
    ensures n == RunRace(NOBODY, longer, max) && AtMost(longer, max, user, overlap)
    ensures |LiveOf(n.lab.sessions, user)| == |LiveOf(m.lab.sessions, user)| + 1 && Flights(n.starts, user) == {}
  {
    var i := |m.starts|;
    CountOnce(m, max, user);
    var a, ma := AddOne(run, m, CountEvent(user), max, user, overlap);
    InsertOnce(ma, max, user, i);
    var b, mb := AddOne(a, ma, RaceEvent(0, Insert(i)), max, user, overlap);
    FinishOnce(mb, max, user, i);
    CountingEnters(m.starts, Counted(user, BARE), user);
    assert Flights(mb.starts, user) == {i};
    longer, n := AddOne(b, mb, RaceEvent(0, Finish(i, true)), max, user, overlap);
  }

  lemma {:induction false} StartAll(max: nat, user: nat, overlap: nat, j: nat) returns (run: seq<RaceEvent>, m: Racing)
    requires j <= max && overlap >= 1
    ensures m == RunRace(NOBODY, run, max) && AtMost(run, max, user, overlap)
    ensures |LiveOf(m.lab.sessions, user)| == j && Flights(m.starts, user) == {}
  {
    if j == 0 {
      run, m := [], NOBODY;
      assert LiveOf(m.lab.sessions, user) == {} && Flights(m.starts, user) == {};
    } else {
      run, m := StartAll(max, user, overlap, j - 1);
      run, m := StartAlone(run, m, max, user, overlap);
    }
  }

  /** Starts `lo` to `hi` have counted and not yet inserted. */
  predicate AllCounted(m: Racing, user: nat, lo: nat, hi: nat) {
    hi <= |m.starts| && forall i :: lo <= i < hi ==> m.starts[i] == Counted(user, BARE)
  }

  /** `k` starts count together, with one place left. */
  lemma {:induction false} CountAll(max: nat, user: nat, overlap: nat, k: nat)
    returns (run: seq<RaceEvent>, m: Racing, lo: nat)
    requires max >= 1 && k <= overlap && overlap >= 1
    ensures m == RunRace(NOBODY, run, max) && AtMost(run, max, user, overlap)
    ensures |LiveOf(m.lab.sessions, user)| == max - 1 && |Flights(m.starts, user)| == k
    ensures lo + k == |m.starts| && AllCounted(m, user, lo, lo + k)
  {
    if k == 0 {
      run, m := StartAll(max, user, overlap, max - 1);
      lo := |m.starts|;
    } else {
      run, m, lo := CountAll(max, user, overlap, k - 1);
      CountOnce(m, max, user);
      run, m := AddOne(run, m, CountEvent(user), max, user, overlap);
    }
  }

  /** They all insert: none looks at the count again. */
  lemma {:induction false} InsertAll(max: nat, user: nat, overlap: nat, j: nat)
    returns (run: seq<RaceEvent>, m: Racing, lo: nat)
    requires max >= 1 && j <= overlap && overlap >= 1
    ensures m == RunRace(NOBODY, run, max) && AtMost(run, max, user, overlap)
    ensures |LiveOf(m.lab.sessions, user)| == max - 1 + j && |Flights(m.starts, user)| == overlap
    ensures lo + overlap == |m.starts| && AllCounted(m, user, lo + j, lo + overlap)
  {
    if j == 0 {
      run, m, lo := CountAll(max, user, overlap, overlap);
    } else {
      run, m, lo := InsertAll(max, user, overlap, j - 1);
      InsertOnce(m, max, user, lo + j - 1);
      run, m := AddOne(run, m, RaceEvent(0, Insert(lo + j - 1)), max, user, overlap);
    }
  }

  /** The bound is met: some run with that overlap ends with that many live sessions. */
  lemma OverlapQuotaIsMet(max: nat, user: nat, overlap: nat) returns (run: seq<RaceEvent>)
    requires max >= 1 && overlap >= 1
    ensures AtMost(run, max, user, overlap)
    ensures |LiveOf(RunRace(NOBODY, run, max).lab.sessions, user)| == max + overlap - 1
  {
    var m, lo;
    run, m, lo := InsertAll(max, user, overlap, overlap);
  }

  ghost predicate QuotaSurvives(max: nat, user: nat, overlap: nat) {
    forall run :: AtMost(run, max, user, overlap) ==> |LiveOf(RunRace(NOBODY, run, max).lab.sessions, user)| <= max
  }

  /** The quota holds in every run if and only if no two starts of the user overlap. */
  lemma QuotaSurvivesIffNoOverlap(max: nat, user: nat, overlap: nat)
    requires max >= 1 && overlap >= 1
    ensures QuotaSurvives(max, user, overlap) <==> overlap == 1
  {
    if overlap == 1 {
      forall run | AtMost(run, max, user, overlap)
        ensures |LiveOf(RunRace(NOBODY, run, max).lab.sessions, user)| <= max
      {
        OverlapQuota(run, max, user, overlap);
      }
    } else {
      var run := OverlapQuotaIsMet(max, user, overlap);
    }
  }

  // ---- never live again -------------------------------------------------------------------------------

  lemma StepRevives(m: Racing, e: RaceEvent, max: nat, id: nat)
    requires OwnRows(m) && id < |m.lab.sessions| && !IsLive(m.lab.sessions[id]) && !Starting(m.starts, id)
    ensures var n := NextRace(m, e, max);
      OwnRows(n) && id < |n.lab.sessions| && !IsLive(n.lab.sessions[id]) && !Starting(n.starts, id)
  {
    var n := NextRace(m, e, max);
    StepKeepsOwnRows(m, e, max);
    assert forall k :: 0 <= k < |n.starts| && n.starts[k].Inserted? ==>
      (k < |m.starts| && n.starts[k] == m.starts[k]) || n.starts[k].id == |m.lab.sessions|;
  }

  lemma {:induction false} OverStaysOver(m: Racing, run: seq<RaceEvent>, max: nat, id: nat)
    requires OwnRows(m) && id < |m.lab.sessions| && !IsLive(m.lab.sessions[id]) && !Starting(m.starts, id)
    ensures var n := RunRace(m, run, max);
      OwnRows(n) && id < |n.lab.sessions| && !IsLive(n.lab.sessions[id]) && !Starting(n.starts, id)
  {
    if run != [] {
      OverStaysOver(m, run[..|run| - 1], max, id);
      StepRevives(RunRace(m, run[..|run| - 1], max), run[|run| - 1], max, id);
    }
  }

  ghost predicate CanLiveAgain(m: Racing, max: nat, id: nat) {
    exists run :: id < |RunRace(m, run, max).lab.sessions| && IsLive(RunRace(m, run, max).lab.sessions[id])
  }

  lemma {:induction false} RunKeepsOwnRows(run: seq<RaceEvent>, max: nat)
    ensures OwnRows(RunRace(NOBODY, run, max))
  {
    if run != [] {
      RunKeepsOwnRows(run[..|run| - 1], max);
      StepKeepsOwnRows(RunRace(NOBODY, run[..|run| - 1], max), run[|run| - 1], max);
    }
  }

  lemma StartingLivesAgain(m: Racing, max: nat, id: nat)
    requires OwnRows(m) && Starting(m.starts, id)
    ensures CanLiveAgain(m, max, id)
  {
    var i :| 0 <= i < |m.starts| && m.starts[i].Inserted? && m.starts[i].id == id;
    var run := [RaceEvent(0, Finish(i, true))];
    assert run[..0] == [];
    assert RunRace(m, run, max) == NextRace(m, run[0], max);
    assert IsLive(RunRace(m, run, max).lab.sessions[id]);
  }

  /**
   * In every run: a session that has ended, expired or failed is never live again, with exactly one
   * exception: its start is still provisioning, and will mark it running when it is done.
   */
  lemma {:induction false} LivesAgainIffStarting(before: seq<RaceEvent>, max: nat, id: nat)
    requires var m := RunRace(NOBODY, before, max); id < |m.lab.sessions| && !IsLive(m.lab.sessions[id])
    ensures var m := RunRace(NOBODY, before, max); CanLiveAgain(m, max, id) <==> Starting(m.starts, id)
  {
    var m := RunRace(NOBODY, before, max);
    RunKeepsOwnRows(before, max);
    if Starting(m.starts, id) {
      StartingLivesAgain(m, max, id);
    } else {
      forall run: seq<RaceEvent>
        ensures !(id < |RunRace(m, run, max).lab.sessions| && IsLive(RunRace(m, run, max).lab.sessions[id]))
      {
        OverStaysOver(m, run, max, id);
      }
    }
  }
}
