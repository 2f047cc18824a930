/**
 * The lab service over its table.  Every call keeps every user within the quota; each method also
 * states what its caller may rely on.
 */
module LabServices {
  import opened Base
  import opened Labs

  class LabService {
    var sessions: seq<Session>
    const max: nat

    ghost predicate Valid()
      reads this
    {
      Quotas(sessions, max)
    }

    constructor (max: nat)
      ensures Valid() && sessions == [] && this.max == max
    {
      sessions := [];
      this.max := max;
      new;
      forall user
        ensures LiveOf(sessions, user) == {}
      {
      }
    }

    method StartSession(user: nat, entitled: bool, template: Option<Template>, provisioned: bool, now: nat)
        returns (ticket: Option<nat>)
      requires Valid()
      modifies this`sessions
      ensures Valid() && sessions == Start(old(sessions), user, entitled, template, provisioned, max, now)
      ensures old(sessions) <= sessions
      ensures ticket.Some? ==>
        && ticket.value < |sessions| && sessions[ticket.value].user == user
        && RedeemCheck(sessions, ticket.value, now) == Attached
      ensures ticket.None? ==> LiveOf(sessions, user) == LiveOf(old(sessions), user)
      ensures ticket.Some? <==> MayStart(old(sessions), user, entitled, template, max) && provisioned
      ensures ticket.Some? ==> ticket.value == |old(sessions)|
      ensures ticket.Some? <==>
        && entitled && template.Some? && provisioned
        && |set i | 0 <= i < |old(sessions)| && old(sessions)[i].user == user
              && old(sessions)[i].status in {Provisioning, Running}| < max
      ensures |sessions| == |old(sessions)| || |sessions| == |old(sessions)| + 1
      ensures |sessions| > |old(sessions)| ==>
        && template.Some? && |sessions| == |old(sessions)| + 1
        && sessions[|old(sessions)|] == Session(user, if provisioned then Running else Failed, None,
             if provisioned then Some(now) else None, if provisioned then None else Some(now),
             now + 1000 * template.value.ttlSeconds, template.value.idleSeconds)
      ensures |sessions| > |old(sessions)| <==>
        entitled && template.Some? && |LiveOf(old(sessions), user)| < max
    {
      StartKeepsQuotas(sessions, user, entitled, template, provisioned, max, now);
      assert LiveOf(sessions, user) == set i | 0 <= i < |sessions| && sessions[i].user == user
        && sessions[i].status in {Provisioning, Running};
      if !entitled || template.None? {
        return None;
      }
      var live := |set i | 0 <= i < |sessions| && IsLive(sessions[i]) && sessions[i].user == user|;
      if live >= max {
        return None;
      }
      var id := |sessions|;
      var expiresAt := now + 1000 * template.value.ttlSeconds;
      sessions := sessions + [Session(user, Provisioning, None, None, None, expiresAt, template.value.idleSeconds)];
      if !provisioned {
        sessions := sessions[id := sessions[id].(status := Failed, endedAt := Some(now))];
        assert sessions == Start(old(sessions), user, entitled, template, provisioned, max, now);
        return None;
      }
      sessions := sessions[id := sessions[id].(status := Running, lastActivityAt := Some(now))];
      assert sessions == Start(old(sessions), user, entitled, template, provisioned, max, now);
      return Some(id);
    }

    method RedeemTicket(ticket: nat, now: nat) returns (r: RedeemResult)
      requires Valid()
      modifies this`sessions
      ensures Valid() && sessions == Redeem(old(sessions), ticket, now) && r == RedeemCheck(old(sessions), ticket, now)
      ensures r == Attached ==>
        && ticket < |sessions| && sessions[ticket].status == Running && now <= sessions[ticket].expiresAt
        && old(sessions)[ticket].ticketUsedAt.None? && sessions[ticket].ticketUsedAt == Some(now)
        && !Idle(sessions[ticket], now)
        && forall later :: RedeemCheck(sessions, ticket, later) == AlreadyUsed
      ensures r == InvalidTicket <==> ticket >= |old(sessions)|
      ensures ticket < |old(sessions)| ==>
        var s := old(sessions)[ticket];
        && (r == AlreadyUsed <==> s.ticketUsedAt.Some?)
        && (r == NotRunning <==> s.ticketUsedAt.None? && s.status != Running)
        && (r == TooLate <==> s.ticketUsedAt.None? && s.status == Running && now > s.expiresAt)
        && (r == Attached <==> s.ticketUsedAt.None? && s.status == Running && now <= s.expiresAt)
        && (r == Attached ==>
              sessions == old(sessions)[ticket := s.(ticketUsedAt := Some(now), lastActivityAt := Some(now))])
      ensures r != Attached ==> sessions == old(sessions)
      ensures forall user :: LiveOf(sessions, user) == LiveOf(old(sessions), user)
    {
      SameLiveKeepsQuotas(sessions, Redeem(sessions, ticket, now), max);
      if ticket >= |sessions| {
        return InvalidTicket;
      }
      if sessions[ticket].ticketUsedAt.Some? {
        return AlreadyUsed;
      }
      if sessions[ticket].status != Running {
        return NotRunning;
      }
      if sessions[ticket].expiresAt < now {
        return TooLate;
      }
      sessions := sessions[ticket := sessions[ticket].(ticketUsedAt := Some(now), lastActivityAt := Some(now))];
      return Attached;
    }

    method TouchSession(id: nat, now: nat)
      requires Valid()
      modifies this`sessions
      ensures Valid() && sessions == Touch(old(sessions), id, now)
      ensures |sessions| == |old(sessions)|
      ensures id < |sessions| ==> sessions[id] == old(sessions)[id].(lastActivityAt := Some(now))
      ensures forall i :: 0 <= i < |sessions| && i != id ==> sessions[i] == old(sessions)[i]
      ensures id < |sessions| ==> forall later: nat :: Idle(sessions[id], later) <==>
        later > now + 1000 * sessions[id].idleSeconds
      ensures forall i, later: nat :: 0 <= i < |sessions| ==>
        PastLifetime(sessions[i], later) == PastLifetime(old(sessions)[i], later)
      ensures forall user :: LiveOf(sessions, user) == LiveOf(old(sessions), user)
    {
      SameLiveKeepsQuotas(sessions, Touch(sessions, id, now), max);
      if id < |sessions| {
        sessions := sessions[id := sessions[id].(lastActivityAt := Some(now))];
      }
    }

    method StopSession(id: nat, user: Option<nat>, expired: bool, destroyed: bool, now: nat) returns (ok: bool)
      requires Valid()
      modifies this`sessions
      ensures Valid() && sessions == Stop(old(sessions), id, user, expired, destroyed, now)
      ensures |sessions| == |old(sessions)|
      ensures forall i :: 0 <= i < |sessions| && i != id ==> sessions[i] == old(sessions)[i]
      ensures ok ==> id < |sessions| && !IsLive(sessions[id])
      ensures ok <==> (id < |old(sessions)| && (user == None || user == Some(old(sessions)[id].user))
                       && (destroyed || old(sessions)[id].status == Ended))
      ensures id < |sessions| ==>
        var s := old(sessions)[id];
        sessions[id] == if s.status == Ended || !(user == None || user == Some(s.user)) then s
          else if !destroyed then s.(status := Stopping)
          else if expired then s.(status := Expired, endedAt := Some(now))
          else s.(status := Ended, endedAt := Some(now))
    {
      SameLiveKeepsQuotas(sessions, Stop(sessions, id, user, expired, destroyed, now), max);
      if id >= |sessions| || (user.Some? && sessions[id].user != user.value) {
        return false;
      }
      if sessions[id].status == Ended {
        return true;
      }
      sessions := sessions[id := sessions[id].(status := Stopping)];
      if !destroyed {
        return false;
      }
      sessions := sessions[id := sessions[id].(status := if expired then Expired else Ended, endedAt := Some(now))];
      assert sessions == Stop(old(sessions), id, user, expired, destroyed, now);
      return true;
    }

    /** Stopping due candidates one by one is the same as ending all of them at once. */
    method ReapExpired(candidates: seq<nat>, failing: set<nat>, now: nat)
      requires Valid()
      requires forall k :: 0 <= k < |candidates| ==> candidates[k] < |sessions|
      requires forall k, l :: 0 <= k < l < |candidates| ==> candidates[k] != candidates[l]
      modifies this`sessions
      ensures Valid() && sessions == Sweep(old(sessions), (set id | id in candidates), failing, now)
      ensures forall id :: id in candidates && IsLive(sessions[id]) ==>
        !PastLifetime(sessions[id], now) && !Idle(sessions[id], now)
      ensures |sessions| == |old(sessions)|
      ensures forall i :: 0 <= i < |sessions| && i !in candidates ==> sessions[i] == old(sessions)[i]
      ensures forall i :: i in candidates ==>
        var s := old(sessions)[i];
        (now <= s.expiresAt && (s.lastActivityAt.Some? ==> now <= s.lastActivityAt.value + 1000 * s.idleSeconds)) ==>
          sessions[i] == s
      ensures forall i :: i in candidates ==>
        var s := old(sessions)[i];
        now > s.expiresAt && s.status != Ended ==>
          sessions[i] == if i in failing then s.(status := Stopping) else s.(status := Expired, endedAt := Some(now))
      ensures forall i :: i in candidates ==>
        var s := old(sessions)[i];
        (&& now <= s.expiresAt && s.status != Ended
         && s.lastActivityAt.Some? && now > s.lastActivityAt.value + 1000 * s.idleSeconds) ==>
          sessions[i] == if i in failing then s.(status := Stopping) else s.(status := Ended, endedAt := Some(now))
    {
      var found := sessions;
      ghost var swept := Sweep(found, (set id | id in candidates), failing, now);
      for k := 0 to |candidates|
        invariant Valid() && |sessions| == |found|
        invariant forall i :: 0 <= i < |found| ==> sessions[i] == if i in candidates[..k] then swept[i] else found[i]
      {
        var s := found[candidates[k]];
        var expired := s.expiresAt < now;
        var idle := s.lastActivityAt.Some? && now > s.lastActivityAt.value + 1000 * s.idleSeconds;
        assert candidates[..k + 1] == candidates[..k] + [candidates[k]];
        assert candidates[k] !in candidates[..k];
        if expired || idle {
          var _ := StopSession(candidates[k], None, expired, candidates[k] !in failing, now);
        }
      }
      assert candidates[..|candidates|] == candidates;
    }
  }

  lemma StartKeepsQuotas(sessions: seq<Session>, user: nat, entitled: bool, template: Option<Template>,
      provisioned: bool, max: nat, now: nat)
    requires Quotas(sessions, max)
    ensures Quotas(Start(sessions, user, entitled, template, provisioned, max, now), max)
  {
    forall u
      ensures |LiveOf(Start(sessions, user, entitled, template, provisioned, max, now), u)| <= max
    {
      StepKeepsQuota(Machine(sessions, now, 0), Event(0, DoStart(user, entitled, template, provisioned)), max, u);
    }
  }

  lemma SameLiveKeepsQuotas(sessions: seq<Session>, sessions': seq<Session>, max: nat)
    requires Quotas(sessions, max) && |sessions'| == |sessions|
    requires forall i :: 0 <= i < |sessions| ==>
      sessions'[i].user == sessions[i].user && (IsLive(sessions'[i]) ==> IsLive(sessions[i]))
    ensures Quotas(sessions', max)
    ensures (forall i :: 0 <= i < |sessions| ==> IsLive(sessions'[i]) == IsLive(sessions[i])) ==>
      forall user :: LiveOf(sessions', user) == LiveOf(sessions, user)
  {
    forall user
      ensures |LiveOf(sessions', user)| <= max
    {
      SubsetSize(LiveOf(sessions', user), LiveOf(sessions, user));
    }
  }
}
