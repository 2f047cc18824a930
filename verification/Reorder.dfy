/**
 * Two-phase reordering under a unique key on (parent, order) that is checked after every write,
 * and the next free order.  Rows are ranked within a parent: lessons in a module, modules in a
 * course.  Soft-deleted rows keep their rank and count.
 */
module Reorder {
  import opened Base

  datatype Ranked = Ranked(parent: nat, order: int)

  predicate UniqueRanks(rows: seq<Ranked>) {
    forall i, j | 0 <= i < j < |rows| :: rows[i] != rows[j]
  }

  predicate NoneParked(rows: seq<Ranked>) {
    forall i :: 0 <= i < |rows| ==> rows[i].order >= 0
  }

  /** Another row of the same parent already holds `order`. */
  predicate Clash(rows: seq<Ranked>, id: nat, order: int)
    requires id < |rows|
  {
    exists r :: 0 <= r < |rows| && r != id && rows[r] == Ranked(rows[id].parent, order)
  }

  /** One update: it fails on an unknown id and on the unique key. */
  function Write(rows: seq<Ranked>, id: nat, order: int): (r: Option<seq<Ranked>>)
    ensures r.Some? ==> |r.value| == |rows|
  {
    if id >= |rows| || Clash(rows, id, order) then None
    else Some(rows[id := rows[id].(order := order)])
  }

  /** The first `n` writes of the parking phase. */
  function Park(rows: seq<Ranked>, ids: seq<nat>, n: nat): (r: Option<seq<Ranked>>)
    requires n <= |ids|
    ensures r.Some? ==> |r.value| == |rows|
  {
    if n == 0 then Some(rows)
    else
      var before := Park(rows, ids, n - 1);
      if before.None? then None else Write(before.value, ids[n - 1], -(n as int))
  }

  /** The first `n` writes of the placing phase. */
  function Place(rows: seq<Ranked>, ids: seq<nat>, n: nat): (r: Option<seq<Ranked>>)
    requires n <= |ids|
    ensures r.Some? ==> |r.value| == |rows|
  {
    if n == 0 then Some(rows)
    else
      var before := Place(rows, ids, n - 1);
      if before.None? then None else Write(before.value, ids[n - 1], n - 1)
  }

  /** The transaction: both phases, or nothing. */
  function Reordered(rows: seq<Ranked>, ids: seq<nat>): (r: Option<seq<Ranked>>)
    ensures r.Some? ==> |r.value| == |rows|
  {
    var parked := Park(rows, ids, |ids|);
    if parked.None? then None else Place(parked.value, ids, |ids|)
  }

  // ---- what it amounts to ---------------------------------------------------------------------------

  /** Where the list names `id` last, counting from 0. */
  function LastIndex(ids: seq<nat>, id: nat): (k: nat)
    requires id in ids
    ensures k < |ids| && ids[k] == id && forall j :: k < j < |ids| ==> ids[j] != id
  {
    if ids[|ids| - 1] == id then |ids| - 1 else LastIndex(ids[..|ids| - 1], id)
  }

  /** All rows named in `ids` take their position at once; every other row stays. */
  predicate Assigned(rows: seq<Ranked>, ids: seq<nat>, rows': seq<Ranked>) {
    && |rows'| == |rows|
    && forall r: nat :: r < |rows| ==>
         rows'[r] == if r in ids then Ranked(rows[r].parent, LastIndex(ids, r)) else rows[r]
  }

  /** A row outside the list sits where position `i` has to go. */
  predicate Occupied(rows: seq<Ranked>, ids: seq<nat>, i: nat)
    requires i < |ids| && ids[i] < |rows|
  {
    exists r: nat :: r < |rows| && r !in ids && rows[r] == Ranked(rows[ids[i]].parent, i)
  }

  predicate Reorderable(rows: seq<Ranked>, ids: seq<nat>) {
    forall i :: 0 <= i < |ids| ==> ids[i] < |rows| && !Occupied(rows, ids, i)
  }

  predicate ParkedTo(rows: seq<Ranked>, ids: seq<nat>, n: nat, rows': seq<Ranked>)
    requires n <= |ids|
  {
    && |rows'| == |rows|
    && forall r: nat :: r < |rows| ==>
         rows'[r] == if r in ids[..n] then Ranked(rows[r].parent, -(LastIndex(ids[..n], r) + 1)) else rows[r]
  }

  lemma LastIndexGrows(ids: seq<nat>, n: nat, r: nat)
    requires 0 < n <= |ids|
    ensures r in ids[..n] <==> r in ids[..n - 1] || r == ids[n - 1]
    ensures r in ids[..n] ==>
      LastIndex(ids[..n], r) == if r == ids[n - 1] then n - 1 else LastIndex(ids[..n - 1], r)
  {
    assert ids[..n] == ids[..n - 1] + [ids[n - 1]];
    assert ids[..n][..n - 1] == ids[..n - 1];
  }

  lemma {:induction false} ParkSucceeds(rows: seq<Ranked>, ids: seq<nat>, n: nat)
    requires NoneParked(rows) && n <= |ids|
    ensures Park(rows, ids, n).Some? <==> forall i :: 0 <= i < n ==> ids[i] < |rows|
    ensures Park(rows, ids, n).Some? ==> ParkedTo(rows, ids, n, Park(rows, ids, n).value)
  {
    if n > 0 {
      ParkSucceeds(rows, ids, n - 1);
      var before := Park(rows, ids, n - 1);
      if before.Some? && ids[n - 1] < |rows| {
        forall r: nat | r < |rows|
          ensures before.value[r].order > -(n as int)
        {
        }
        assert !Clash(before.value, ids[n - 1], -(n as int));
        forall r: nat | r < |rows|
          ensures Park(rows, ids, n).value[r] == if r in ids[..n]
            then Ranked(rows[r].parent, -(LastIndex(ids[..n], r) + 1)) else rows[r]
        {
          LastIndexGrows(ids, n, r);
        }
      }
    }
  }

  predicate PlacedTo(rows: seq<Ranked>, ids: seq<nat>, n: nat, rows': seq<Ranked>)
    requires n <= |ids|
  {
    && |rows'| == |rows|
    && forall r: nat :: r < |rows| ==>
         && rows'[r].parent == rows[r].parent
         && (r in ids[..n] ==> rows'[r].order == LastIndex(ids[..n], r))
         && (r in ids && r !in ids[..n] ==> rows'[r].order < 0)
         && (r !in ids ==> rows'[r] == rows[r])
  }

  lemma {:induction false} PlaceSucceeds(rows: seq<Ranked>, ids: seq<nat>, parked: seq<Ranked>, n: nat)
    requires n <= |ids| && ParkedTo(rows, ids, |ids|, parked) && forall i :: 0 <= i < |ids| ==> ids[i] < |rows|
    ensures Place(parked, ids, n).Some? <==> forall i :: 0 <= i < n ==> !Occupied(rows, ids, i)
    ensures Place(parked, ids, n).Some? ==> PlacedTo(rows, ids, n, Place(parked, ids, n).value)
  {
    assert ids[..|ids|] == ids;
    if n > 0 {
      PlaceSucceeds(rows, ids, parked, n - 1);
      var before := Place(parked, ids, n - 1);
      if before.Some? {
        var id := ids[n - 1];
        forall r: nat | r < |rows| && r in ids
          ensures before.value[r].order < n - 1
        {
        }
        assert Clash(before.value, id, n - 1) <==> Occupied(rows, ids, n - 1) by {
          if Clash(before.value, id, n - 1) {
            var r :| 0 <= r < |rows| && r != id && before.value[r] == Ranked(before.value[id].parent, n - 1);
            assert r !in ids && rows[r] == Ranked(rows[id].parent, n - 1);
          }
          if Occupied(rows, ids, n - 1) {
            var r: nat :| r < |rows| && r !in ids && rows[r] == Ranked(rows[id].parent, n - 1);
            assert before.value[r] == Ranked(before.value[id].parent, n - 1);
          }
        }
        forall r: nat | r < |rows|
          ensures r in ids[..n] <==> r in ids[..n - 1] || r == id
          ensures r in ids[..n] ==> LastIndex(ids[..n], r) == if r == id then n - 1 else LastIndex(ids[..n - 1], r)
        {
          LastIndexGrows(ids, n, r);
        }
      }
    }
  }

  /**
   * For any list of ids, repeated or foreign ones included: the transaction commits if and only
   * if every id exists and no row outside the list holds a wanted order, and what it commits is
   * one simultaneous assignment.  In every other case nothing changes.
   */
  lemma ReorderIsOneAssignment(rows: seq<Ranked>, ids: seq<nat>)
    requires NoneParked(rows)
    ensures Reordered(rows, ids).Some? <==> Reorderable(rows, ids)
    ensures Reordered(rows, ids).Some? ==> Assigned(rows, ids, Reordered(rows, ids).value)
  {
    ParkSucceeds(rows, ids, |ids|);
    assert ids[..|ids|] == ids;
    var parked := Park(rows, ids, |ids|);
    if parked.Some? {
      PlaceSucceeds(rows, ids, parked.value, |ids|);
    }
  }

  lemma WriteKeepsUnique(rows: seq<Ranked>, id: nat, order: int)
    requires UniqueRanks(rows) && Write(rows, id, order).Some?
    ensures UniqueRanks(Write(rows, id, order).value)
  {
  }

  /**
   * A consequence of the database's key, which rejects a clashing write: the two phases never rely
   * on the key being deferred, since it holds after each single write and so at the commit.
   */
  lemma {:induction false} EveryWriteKeepsUnique(rows: seq<Ranked>, ids: seq<nat>, n: nat)
    requires UniqueRanks(rows) && n <= |ids|
    ensures Park(rows, ids, n).Some? ==> UniqueRanks(Park(rows, ids, n).value)
    ensures Place(rows, ids, n).Some? ==> UniqueRanks(Place(rows, ids, n).value)
  {
    if n > 0 {
      EveryWriteKeepsUnique(rows, ids, n - 1);
      if Park(rows, ids, n).Some? { WriteKeepsUnique(Park(rows, ids, n - 1).value, ids[n - 1], -(n as int)); }
      if Place(rows, ids, n).Some? { WriteKeepsUnique(Place(rows, ids, n - 1).value, ids[n - 1], n - 1); }
    }
  }

  lemma ReorderKeepsTable(rows: seq<Ranked>, ids: seq<nat>)
    requires UniqueRanks(rows) && NoneParked(rows) && Reordered(rows, ids).Some?
    ensures UniqueRanks(Reordered(rows, ids).value) && NoneParked(Reordered(rows, ids).value)
  {
    EveryWriteKeepsUnique(rows, ids, |ids|);
    EveryWriteKeepsUnique(Park(rows, ids, |ids|).value, ids, |ids|);
    ReorderIsOneAssignment(rows, ids);
  }

  // ---- the next order ---------------------------------------------------------------------------

  /** One more than the highest order of the parent, deleted rows included; 0 for an empty parent. */
  function NextOrder(rows: seq<Ranked>, parent: nat): (next: int)
    ensures next >= 0
    ensures forall i :: 0 <= i < |rows| && rows[i].parent == parent ==> rows[i].order < next
    ensures next == 0 || exists i :: 0 <= i < |rows| && rows[i] == Ranked(parent, next - 1)
  {
    if rows == [] then 0
    else
      var rest := NextOrder(rows[..|rows| - 1], parent);
      var last := rows[|rows| - 1];
      if last.parent == parent && last.order >= rest then last.order + 1 else rest
  }
}
