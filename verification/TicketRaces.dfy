/**
 * `redeemTicket` split between its read and its update: what has passed the checks is attached later
 * without another look at the row.
 */
module TicketRaces {
  import opened Base
  import opened Labs

  /** `looks` holds the tickets that have been read as good and are still to be attached. */
  datatype Racing = Racing(lab: Machine, looks: seq<Option<nat>>)

  datatype RaceStep = Look(ticket: nat) | Attach(look: nat) | Other(step: Step)

  datatype RaceEvent = RaceEvent(wait: nat, step: RaceStep)

  /** This step's read finds the ticket good. */
  predicate Passes(m: Racing, e: RaceEvent, ticket: nat) {
    e.step == Look(ticket) && RedeemCheck(m.lab.sessions, ticket, m.lab.clock + e.wait) == Attached
  }

  /** This step attaches the ticket. */
  predicate Honours(m: Racing, e: RaceEvent, ticket: nat) {
    e.step.Attach? && e.step.look < |m.looks| && m.looks[e.step.look] == Some(ticket) && ticket < |m.lab.sessions|
  }

  function MarkUsed(sessions: seq<Session>, ticket: nat, now: nat): seq<Session>
    requires ticket < |sessions|
  {
    sessions[ticket := sessions[ticket].(ticketUsedAt := Some(now), lastActivityAt := Some(now))]
  }

  /** `Other` is every step but a whole redemption: those are split here. */
  function NextRace(m: Racing, e: RaceEvent, max: int): Racing {
    var now := m.lab.clock + e.wait;
    var later := m.(lab := m.lab.(clock := now));
    match e.step
    case Look(ticket) => if Passes(m, e, ticket) then later.(looks := m.looks + [Some(ticket)]) else later
    case Attach(i) =>
      if i < |m.looks| && m.looks[i].Some? && Honours(m, e, m.looks[i].value)
      then Racing(later.lab.(sessions := MarkUsed(m.lab.sessions, m.looks[i].value, now)), m.looks[i := None])
      else later
    case Other(step) => if step.DoRedeem? then later else m.(lab := Next(m.lab, Event(e.wait, step), max))
  }

  const NOBODY := Racing(EMPTY, [])

  /** A run so far, and how often it has honoured one ticket. */
  datatype Tally = Tally(m: Racing, honoured: nat)

  function Run(run: seq<RaceEvent>, max: int, ticket: nat): Tally {
    if run == [] then Tally(NOBODY, 0)
    else
      var t := Run(run[..|run| - 1], max, ticket);
      Tally(NextRace(t.m, run[|run| - 1], max), t.honoured + (if Honours(t.m, run[|run| - 1], ticket) then 1 else 0))
  }

  /** Read and update back to back are the whole redemption. */
  lemma RedeemIsItsSteps(m: Racing, ticket: nat, max: int)
    ensures var n := NextRace(NextRace(m, RaceEvent(0, Look(ticket)), max), RaceEvent(0, Attach(|m.looks|)), max);
      n.lab.sessions == Redeem(m.lab.sessions, ticket, m.lab.clock)
  {
  }

  function Waiting(looks: seq<Option<nat>>, ticket: nat): set<nat> {
    set i | 0 <= i < |looks| && looks[i] == Some(ticket)
  }

  predicate Used(m: Racing, ticket: nat) {
    ticket < |m.lab.sessions| && m.lab.sessions[ticket].ticketUsedAt.Some?
  }

  lemma LookEnters(looks: seq<Option<nat>>, look: nat, ticket: nat)
    ensures |Waiting(looks + [Some(look)], ticket)| == |Waiting(looks, ticket)| + (if look == ticket then 1 else 0)
  {
    assert Waiting(looks + [Some(look)], ticket)
        == if look == ticket then Waiting(looks, ticket) + {|looks|} else Waiting(looks, ticket);
  }

  lemma LookConserves(m: Racing, e: RaceEvent, max: int, ticket: nat)
    requires e.step.Look?
    ensures |Waiting(NextRace(m, e, max).looks, ticket)| ==
      |Waiting(m.looks, ticket)| + (if Passes(m, e, ticket) then 1 else 0)
  {
    var n := NextRace(m, e, max);
    if Passes(m, e, e.step.ticket) {
      assert n.looks == m.looks + [Some(e.step.ticket)];
      LookEnters(m.looks, e.step.ticket, ticket);
    }
  }

  lemma AttachConserves(m: Racing, e: RaceEvent, max: int, ticket: nat)
    requires e.step.Attach?
    ensures |Waiting(NextRace(m, e, max).looks, ticket)| + (if Honours(m, e, ticket) then 1 else 0) ==
      |Waiting(m.looks, ticket)|
  {
    var n := NextRace(m, e, max);
    if Honours(m, e, ticket) {
      assert Waiting(n.looks, ticket) == Waiting(m.looks, ticket) - {e.step.look};
    } else {
      assert Waiting(n.looks, ticket) == Waiting(m.looks, ticket);
    }
  }

  lemma StepUses(m: Racing, e: RaceEvent, max: int, ticket: nat)
    ensures var n := NextRace(m, e, max);
      (Used(m, ticket) || Honours(m, e, ticket) ==> Used(n, ticket)) && (Used(m, ticket) ==> !Passes(m, e, ticket))
  {
    if e.step.Other? && ticket < |m.lab.sessions| && !e.step.step.DoRedeem? {
      StepKeepsEnds(m.lab, Event(e.wait, e.step.step), max, ticket);
    }
  }

  /** Redemptions honoured or under way grow only by a read that passes, and none passes a used ticket. */
  lemma StepConserves(m: Racing, e: RaceEvent, max: int, ticket: nat)
    ensures var n := NextRace(m, e, max);
      && |Waiting(n.looks, ticket)| + (if Honours(m, e, ticket) then 1 else 0)
         == |Waiting(m.looks, ticket)| + (if Passes(m, e, ticket) then 1 else 0)
      && (Used(m, ticket) ==> Used(n, ticket) && !Passes(m, e, ticket))
      && (Honours(m, e, ticket) ==> Used(n, ticket))
  {
    StepUses(m, e, max, ticket);
    if e.step.Look? {
      LookConserves(m, e, max, ticket);
    } else if e.step.Attach? {
      AttachConserves(m, e, max, ticket);
    }
  }

  /** No more than `overlap` redemptions of the ticket are ever under way together. */
  predicate AtMost(run: seq<RaceEvent>, max: int, ticket: nat, overlap: nat) {
    && |Waiting(Run(run, max, ticket).m.looks, ticket)| <= overlap
    && (run == [] || AtMost(run[..|run| - 1], max, ticket, overlap))
  }

  /** Once the ticket is used, what it can still be honoured is what was under way. */
  predicate Spent(t: Tally, ticket: nat, overlap: nat) {
    if Used(t.m, ticket) then t.honoured + |Waiting(t.m.looks, ticket)| <= overlap else t.honoured == 0
  }

  lemma {:induction false} RunSpends(run: seq<RaceEvent>, max: int, ticket: nat, overlap: nat)
    requires AtMost(run, max, ticket, overlap)
    ensures Spent(Run(run, max, ticket), ticket, overlap)
  {
    if run != [] {
      RunSpends(run[..|run| - 1], max, ticket, overlap);
      StepConserves(Run(run[..|run| - 1], max, ticket).m, run[|run| - 1], max, ticket);
    }
  }

  /** A ticket is honoured no more often than redemptions of it were under way together. */
  lemma {:induction false} HonouredAtMostOverlap(run: seq<RaceEvent>, max: int, ticket: nat, overlap: nat)
    requires AtMost(run, max, ticket, overlap)
    ensures Run(run, max, ticket).honoured <= overlap
  {
    RunSpends(run, max, ticket, overlap);
  }

  // ---- the bound is met ---------------------------------------------------------------------------

  lemma {:induction false} AddOne(run: seq<RaceEvent>, t: Tally, e: RaceEvent, max: int, ticket: nat, overlap: nat)
    returns (longer: seq<RaceEvent>, u: Tally)
    requires t == Run(run, max, ticket) && AtMost(run, max, ticket, overlap)
    requires |Waiting(NextRace(t.m, e, max).looks, ticket)| <= overlap
    ensures u == Run(longer, max, ticket) && AtMost(longer, max, ticket, overlap)
    ensures u == Tally(NextRace(t.m, e, max), t.honoured + (if Honours(t.m, e, ticket) then 1 else 0))
  {
    longer, u := run + [e], Tally(NextRace(t.m, e, max), t.honoured + (if Honours(t.m, e, ticket) then 1 else 0));
    assert longer[..|run|] == run;
  }

  /** `k` reads of the ticket of a running session all pass before any update. */
  lemma {:induction false} LookAll(max: nat, overlap: nat, k: nat) returns (run: seq<RaceEvent>, t: Tally)
    requires max >= 1 && k <= overlap
    ensures t == Run(run, max, 0) && AtMost(run, max, 0, overlap) && t.honoured == 0
    ensures RedeemCheck(t.m.lab.sessions, 0, t.m.lab.clock) == Attached
    ensures |t.m.looks| == k && forall i :: 0 <= i < k ==> t.m.looks[i] == Some(0)
    ensures |Waiting(t.m.looks, 0)| == k
  {
    if k == 0 {
      var e := RaceEvent(0, Other(DoStart(0, true, Some(Template(0, 0)), true)));
      assert LiveOf(NOBODY.lab.sessions, 0) == {} && Waiting(NOBODY.looks, 0) == {};
      assert AtMost([], max, 0, overlap);
      run, t := AddOne([], Tally(NOBODY, 0), e, max, 0, overlap);
    } else {
      run, t := LookAll(max, overlap, k - 1);
      StepConserves(t.m, RaceEvent(0, Look(0)), max, 0);
      run, t := AddOne(run, t, RaceEvent(0, Look(0)), max, 0, overlap);
    }
  }

  lemma {:induction false} AttachAll(max: nat, overlap: nat, j: nat) returns (run: seq<RaceEvent>, t: Tally)
    requires max >= 1 && j <= overlap
    ensures t == Run(run, max, 0) && AtMost(run, max, 0, overlap) && t.honoured == j
    ensures |t.m.lab.sessions| > 0 && |t.m.looks| == overlap && forall i :: j <= i < overlap ==> t.m.looks[i] == Some(0)
    ensures |Waiting(t.m.looks, 0)| == overlap - j
  {
    if j == 0 {
      run, t := LookAll(max, overlap, overlap);
    } else {
      run, t := AttachAll(max, overlap, j - 1);
      StepConserves(t.m, RaceEvent(0, Attach(j - 1)), max, 0);
      run, t := AddOne(run, t, RaceEvent(0, Attach(j - 1)), max, 0, overlap);
    }
  }

  ghost predicate HonouredOnce(max: nat, overlap: nat) {
    forall run, ticket :: AtMost(run, max, ticket, overlap) ==> Run(run, max, ticket).honoured <= 1
  }

  /** The bound is met, so tickets are honoured once in every run if and only if redemptions do not overlap. */
  lemma HonouredOnceIffNoOverlap(max: nat, overlap: nat) returns (run: seq<RaceEvent>)
    requires max >= 1
    ensures AtMost(run, max, 0, overlap) && Run(run, max, 0).honoured == overlap
    ensures HonouredOnce(max, overlap) <==> overlap <= 1
  {
    var t;
    run, t := AttachAll(max, overlap, overlap);
    if overlap <= 1 {
      forall r, ticket | AtMost(r, max, ticket, overlap)
        ensures Run(r, max, ticket).honoured <= 1
      {
        HonouredAtMostOverlap(r, max, ticket, overlap);
      }
    }
  }
}
