/**
 * The shape of a token family when refreshes race: a tree under the login token, and exactly
 * when it still has a single live token.
 */
module AuthFamilies {
  import opened Base
  import opened AuthTables
  import opened AuthRace

  /** Links recorded in one token row agree with the rows they point to. */
  predicate TokenLinks(db: Db, i: nat)
    requires i < |db.tokens|
  {
    var t := db.tokens[i];
    && t.userId == db.sessions[t.sessionId].userId
    && (t.revokedAt.Some? ==> db.sessions[t.sessionId].revokedAt.Some?)
    && (t.usedAt.Some? <==> t.replacedById.Some?)
    && (t.replacedById.Some? ==>
          t.replacedById.value < |db.tokens| && db.tokens[t.replacedById.value].origin == Some(i))
    && (t.origin.Some? ==>
          && t.origin.value < i
          && db.tokens[t.origin.value].sessionId == t.sessionId
          && db.tokens[t.origin.value].usedAt.Some?)
  }

  predicate IsRoot(db: Db, i: nat, sid: nat)
    requires i < |db.tokens|
  {
    db.tokens[i].origin.None? && db.tokens[i].sessionId == sid
  }

  predicate OpensFamily(c: Call, sid: nat) {
    (c.Unsigned? || c.Signed?) && c.origin.None? && c.sid == sid
  }

  predicate CallOwner(db: Db, c: Call)
    requires CallRefers(db, c)
  {
    c.Unsigned? || c.Signed? ==> c.uid == db.sessions[c.sid].userId
  }

  predicate Linked(db: Db) {
    forall i :: 0 <= i < |db.tokens| ==> TokenLinks(db, i)
  }

  predicate Owned(m: Machine) {
    forall c :: 0 <= c < |m.calls| ==> CallOwner(m.db, m.calls[c])
  }

  /** A session has one root, or one login still on its way to insert it, or neither. */
  ghost predicate OneRoot(m: Machine, sid: nat) {
    && (forall i, j ::
          0 <= i < |m.db.tokens| && 0 <= j < |m.db.tokens| && IsRoot(m.db, i, sid) && IsRoot(m.db, j, sid) ==> i == j)
    && (forall i, c :: 0 <= i < |m.db.tokens| && 0 <= c < |m.calls| && IsRoot(m.db, i, sid) ==>
          !OpensFamily(m.calls[c], sid))
    && (forall c, d ::
          0 <= c < |m.calls| && 0 <= d < |m.calls| && OpensFamily(m.calls[c], sid) && OpensFamily(m.calls[d], sid) ==>
          c == d)
  }

  lemma CommitKeepsLinked(db: Db, c: Call, now: nat)
    requires Linked(db) && c.Signed? && CallRefers(db, c) && CallOwner(db, c)
    ensures Linked(CommitToken(db, c, now))
  {
    var db' := CommitToken(db, c, now);
    forall i | 0 <= i < |db'.tokens|
      ensures TokenLinks(db', i)
    {
      if i < |db.tokens| {
        assert TokenLinks(db, i);
      }
    }
  }

  lemma RevokeKeepsLinked(db: Db, sid: nat, now: nat)
    requires Linked(db) && sid < |db.sessions|
    ensures Linked(RevokeSession(db, sid, now))
  {
    var db' := RevokeSession(db, sid, now);
    forall i | 0 <= i < |db'.tokens|
      ensures TokenLinks(db', i)
    {
      assert TokenLinks(db, i);
    }
  }

  lemma ResetKeepsLinked(db: Db, uid: nat, now: nat)
    requires Linked(db) && uid < |db.users|
    ensures Linked(ResetPassword(db, uid, now))
  {
    var db' := ResetPassword(db, uid, now);
    forall i | 0 <= i < |db'.tokens|
      ensures TokenLinks(db', i)
    {
      assert TokenLinks(db, i);
    }
  }

  /** Statements that leave the token rows alone and only add sessions or touch users. */
  lemma OtherKeepsLinked(db: Db, db': Db)
    requires Linked(db) && db'.tokens == db.tokens && db.sessions <= db'.sessions
    ensures Linked(db')
  {
    forall i | 0 <= i < |db'.tokens|
      ensures TokenLinks(db', i)
    {
      assert TokenLinks(db, i);
    }
  }

  lemma StepKeepsLinked(m: Machine, e: Event, config: Config)
    requires Linked(m.db) && Owned(m)
    ensures Linked(Next(m, e, config).db)
  {
    var now := m.clock + e.wait;
    if e.step.Finish? && e.step.call < |m.calls| {
      var c := m.calls[e.step.call];
      if c.Signed? {
        CommitKeepsLinked(m.db, c, now);
      } else if c.MustRevoke? {
        RevokeKeepsLinked(m.db, c.sid, now);
      }
    } else if e.step.Revoke? && e.step.sid < |m.db.sessions| {
      RevokeKeepsLinked(m.db, e.step.sid, now);
    } else if e.step.Reset? && e.step.uid < |m.db.users| {
      ResetKeepsLinked(m.db, e.step.uid, now);
    } else {
      OtherKeepsLinked(m.db, Next(m, e, config).db);
    }
  }

  lemma SessionsKeepOwners(m: Machine, e: Event, config: Config)
    ensures var n := Next(m, e, config);
      && |m.db.sessions| <= |n.db.sessions|
      && forall i :: 0 <= i < |m.db.sessions| ==> n.db.sessions[i].userId == m.db.sessions[i].userId
  {
  }

  lemma StepKeepsOwned(m: Machine, e: Event, config: Config)
    requires Linked(m.db) && Owned(m)
    ensures Owned(Next(m, e, config))
  {
    var n := Next(m, e, config);
    SessionsKeepOwners(m, e, config);
    forall c | 0 <= c < |n.calls|
      ensures CallOwner(n.db, n.calls[c])
    {
      if c < |m.calls| {
        assert CallOwner(m.db, m.calls[c]);
      } else if e.step.Present? && e.step.raw.Some? && e.step.raw.value < |m.db.tokens| {
        assert TokenLinks(m.db, e.step.raw.value);
      }
    }
  }

  /** Old rows keep their place in the forest, and no old call starts to open a family. */
  lemma StepKeepsRoots(m: Machine, e: Event, config: Config, sid: nat)
    ensures var n := Next(m, e, config);
      && |m.db.tokens| <= |n.db.tokens| && |m.calls| <= |n.calls|
      && (forall i :: 0 <= i < |m.db.tokens| ==> IsRoot(n.db, i, sid) == IsRoot(m.db, i, sid))
      && (forall c :: 0 <= c < |m.calls| && OpensFamily(n.calls[c], sid) ==> OpensFamily(m.calls[c], sid))
  {
  }

  /** A new root comes from the call that was opening the family; a new opener, with a new session. */
  lemma StepMovesRoot(m: Machine, e: Event, config: Config, sid: nat)
    ensures var n := Next(m, e, config);
      && (|n.db.tokens| > |m.db.tokens| ==>
            && |n.db.tokens| == |m.db.tokens| + 1 && e.step.Finish? && e.step.call < |m.calls|
            && n.calls == m.calls[e.step.call := Done]
            && (IsRoot(n.db, |m.db.tokens|, sid) ==> OpensFamily(m.calls[e.step.call], sid)))
      && (|n.calls| > |m.calls| ==>
            && |n.calls| == |m.calls| + 1 && |n.db.tokens| == |m.db.tokens|
            && (OpensFamily(n.calls[|m.calls|], sid) ==> sid == |m.db.sessions|))
  {
  }

  lemma StepKeepsOneRoot(m: Machine, e: Event, config: Config, sid: nat)
    requires OneRoot(m, sid)
    ensures OneRoot(Next(m, e, config), sid)
  {
    StepKeepsRoots(m, e, config, sid);
    StepMovesRoot(m, e, config, sid);
    assert forall c :: 0 <= c < |m.calls| ==> CallRefers(m.db, m.calls[c]);
  }

  lemma {:induction false} ReachableFamilies(run: seq<Event>, config: Config, sid: nat)
    ensures var m := Run(EMPTY, run, config); Linked(m.db) && Owned(m) && OneRoot(m, sid)
  {
    if run != [] {
      var before := Run(EMPTY, run[..|run| - 1], config);
      var e := run[|run| - 1];
      ReachableFamilies(run[..|run| - 1], config, sid);
      StepKeepsLinked(before, e, config);
      StepKeepsOwned(before, e, config);
      StepKeepsOneRoot(before, e, config, sid);
    }
  }

  // ---- counting -------------------------------------------------------------------------------

  ghost predicate Injective(f: map<nat, nat>) {
    forall x, y :: x in f && y in f && f[x] == f[y] ==> x == y
  }

  lemma {:induction false} ImageSize(f: map<nat, nat>)
    ensures |f.Values| <= |f.Keys|
    ensures |f.Values| == |f.Keys| <==> Injective(f)
    decreases |f.Keys|
  {
    if f.Keys == {} {
      assert f.Values == {};
    } else {
      var x :| x in f.Keys;
      var g := f - {x};
      assert g.Keys == f.Keys - {x};
      ImageSize(g);
      assert forall k :: k in f.Keys && k != x ==> k in g && g[k] == f[k];
      if f[x] in g.Values {
        var y :| y in g && g[y] == f[x];
        assert f.Values == g.Values;
        assert f[x] == f[y] && x != y;
      } else {
        assert f.Values == g.Values + {f[x]};
        if Injective(g) {
          assert Injective(f);
        } else {
          var a, b :| a in g && b in g && g[a] == g[b] && a != b;
          assert f[a] == f[b];
        }
      }
    }
  }

  function Live(db: Db, sid: nat): set<nat> {
    set i | i in Family(db, sid) && db.tokens[i].usedAt.None? && db.tokens[i].revokedAt.None?
  }

  /** No token of the family has been exchanged twice. */
  predicate NeverForked(db: Db, sid: nat) {
    forall i, j | i in Family(db, sid) && j in Family(db, sid) && i != j ::
      db.tokens[i].origin.None? || db.tokens[i].origin != db.tokens[j].origin
  }

  /** The oldest token of a family is the one its login handed out. */
  lemma {:induction false} FamilyHasRoot(db: Db, sid: nat, i: nat) returns (root: nat)
    requires Linked(db) && i in Family(db, sid)
    ensures root in Family(db, sid) && IsRoot(db, root, sid)
    decreases i
  {
    assert TokenLinks(db, i);
    if db.tokens[i].origin.None? {
      root := i;
    } else {
      root := FamilyHasRoot(db, sid, db.tokens[i].origin.value);
    }
  }

  predicate RootedAt(db: Db, sid: nat, root: nat) {
    && root in Family(db, sid)
    && forall i :: i in Family(db, sid) ==> (db.tokens[i].origin.None? <==> i == root)
  }

  function Used(db: Db, sid: nat): set<nat> {
    set i | i in Family(db, sid) && db.tokens[i].usedAt.Some?
  }

  /** Each token below the root, with the token it was exchanged for. */
  function Exchanged(db: Db, sid: nat, root: nat): map<nat, nat>
    requires RootedAt(db, sid, root)
  {
    map i | i in Family(db, sid) && i != root :: db.tokens[i].origin.value
  }

  lemma ExchangedTokensAreUsed(db: Db, sid: nat, root: nat)
    requires Linked(db) && RootedAt(db, sid, root)
    ensures Exchanged(db, sid, root).Values == Used(db, sid)
  {
    var f := Exchanged(db, sid, root);
    forall p | p in Used(db, sid)
      ensures p in f.Values
    {
      assert TokenLinks(db, p);
      var child := db.tokens[p].replacedById.value;
      assert TokenLinks(db, child);
      assert child in f && f[child] == p;
    }
    forall p | p in f.Values
      ensures p in Used(db, sid)
    {
      var child :| child in f && f[child] == p;
      assert TokenLinks(db, child);
    }
  }

  lemma NeverForkedIsInjective(db: Db, sid: nat, root: nat)
    requires RootedAt(db, sid, root)
    ensures Injective(Exchanged(db, sid, root)) <==> NeverForked(db, sid)
  {
    var f := Exchanged(db, sid, root);
    assert forall i :: i in f ==> db.tokens[i].origin == Some(f[i]);
    if !Injective(f) {
      var i, j :| i in f && j in f && f[i] == f[j] && i != j;
      assert db.tokens[i].origin == db.tokens[j].origin;
    }
  }

  lemma LiveAreUnused(db: Db, sid: nat)
    requires Linked(db) && AccessValid(db, sid)
    ensures Live(db, sid) == Family(db, sid) - Used(db, sid) && Used(db, sid) <= Family(db, sid)
  {
    assert forall i :: i in Family(db, sid) ==> TokenLinks(db, i);
  }

  lemma LiveTokensOfFamily(db: Db, sid: nat, root: nat)
    requires Linked(db) && AccessValid(db, sid) && RootedAt(db, sid, root)
    ensures |Live(db, sid)| >= 1 && (|Live(db, sid)| == 1 <==> NeverForked(db, sid))
  {
    var f := Exchanged(db, sid, root);
    assert f.Keys == Family(db, sid) - {root};
    ExchangedTokensAreUsed(db, sid, root);
    ImageSize(f);
    NeverForkedIsInjective(db, sid, root);
    LiveAreUnused(db, sid);
  }

  /**
   * However refreshes raced, an unrevoked session with any token has a live one, and it has
   * exactly one if and only if no token of the family was exchanged twice.
   */
  lemma {:induction false} LiveTokensOfRacedFamily(run: seq<Event>, config: Config, sid: nat)
    requires var db := Run(EMPTY, run, config).db; AccessValid(db, sid) && Family(db, sid) != {}
    ensures var db := Run(EMPTY, run, config).db;
      |Live(db, sid)| >= 1 && (|Live(db, sid)| == 1 <==> NeverForked(db, sid))
  {
    var db := Run(EMPTY, run, config).db;
    ReachableFamilies(run, config, sid);
    var some :| some in Family(db, sid);
    var root := FamilyHasRoot(db, sid, some);
    assert forall i :: i in Family(db, sid) && IsRoot(db, i, sid) ==> i == root;
    LiveTokensOfFamily(db, sid, root);
  }

  /** Two reads of one token before either transaction. */
  function Race(m: Machine, raw: nat): seq<Event> {
    var c := |m.calls|;
    [Event(0, Present(Some(raw))), Event(0, Present(Some(raw))), Event(0, SignNext(c)), Event(0, SignNext(c + 1)),
     Event(0, Finish(c)), Event(0, Finish(c + 1))]
  }

  lemma RunSix(m: Machine, r: seq<Event>, config: Config)
    requires |r| == 6
    ensures Run(m, r, config) ==
      Next(Next(Next(Next(Next(Next(m, r[0], config), r[1], config), r[2], config), r[3], config), r[4], config),
        r[5], config)
  {
    assert r[..5][..4] == r[..4] && r[..4][..3] == r[..3] && r[..3][..2] == r[..2] && r[..2][..1] == [r[0]]
      && [r[0]][..0] == [];
    assert Run(m, r[..1], config) == Next(Run(m, [], config), r[0], config);
    assert Run(m, r[..2], config) == Next(Run(m, r[..1], config), r[1], config);
    assert Run(m, r[..3], config) == Next(Run(m, r[..2], config), r[2], config);
    assert Run(m, r[..4], config) == Next(Run(m, r[..3], config), r[3], config);
  }

  /** The fork is always within reach: any token that would refresh can be made to refresh twice. */
  lemma EveryLiveTokenCanFork(m: Machine, raw: nat, config: Config)
    requires Check(m.db, Some(raw), m.clock) == Pass
    ensures var sid := m.db.tokens[raw].sessionId;
      var db := Run(m, Race(m, raw), config).db;
      |m.db.tokens| in Live(db, sid) && |m.db.tokens| + 1 in Live(db, sid) && !NeverForked(db, sid)
  {
    var r := Race(m, raw);
    var c := |m.calls|;
    var t := m.db.tokens[raw];
    RunSix(m, r, config);
    var m2 := Next(Next(m, r[0], config), r[1], config);
    var c2 := Unsigned(Some(raw), t.sessionId, t.userId);
    assert m2.db == m.db && m2.calls == m.calls + [c2, c2];
    var m4 := Next(Next(m2, r[2], config), r[3], config);
    assert m4.db == m.db && m4.calls[c].Signed? && m4.calls[c + 1].Signed?;
    var m5 := Next(m4, r[4], config);
    assert |m5.db.tokens| == |m.db.tokens| + 1 && m5.calls[c + 1] == m4.calls[c + 1];
    var m6 := Next(m5, r[5], config);
    var n := |m.db.tokens|;
    assert |m6.db.tokens| == n + 2;
    assert m6.db.tokens[n] == m5.db.tokens[n];
    assert {n, n + 1} <= Family(m6.db, t.sessionId);
  }
}
