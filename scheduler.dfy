/**
 * The periodic sweep that releases reservations still RESERVED after their
 * deadline, one at a time, logging and skipping any that fail.
 */
module Expiration {
  import opened Types
  import opened Reservations
  import opened Database
  import opened Reserving

  /** The sweep from position `i` of the selected ids, with the ids whose release failed so far. */
  ghost function SweepFrom(st: DbState, ids: seq<ReservationId>, i: nat, now: int, failed: seq<ReservationId>)
    : (r: (DbState, seq<ReservationId>))
    requires WellFormed(st) && i <= |ids|
    ensures WellFormed(r.0)
    ensures |failed| <= |r.1| <= |failed| + |ids| - i && r.1[..|failed|] == failed
    decreases |ids| - i
  {
    if i == |ids| then (st, failed)
    else
      var e := Release(st, [ids[i]], now);
      SweepFrom(e.state, ids, i + 1, now, if e.result.Err? then failed + [ids[i]] else failed)
  }

  /** One run of the sweep: select the expired holds, then release each on its own. */
  ghost function Sweep(st: DbState, now: int): (r: (DbState, seq<ReservationId>))
    requires WellFormed(st)
    ensures WellFormed(r.0)
  {
    SweepFrom(st, ExpiredBelow(st.reservations, now, st.nextReservationId), 0, now, [])
  }

  /** What one release inside the sweep does to a RESERVED hold: it succeeds, and only that row and its counter change. */
  lemma ReleaseHoldShape(st: DbState, id: ReservationId, now: int)
    requires WellFormed(st) && id in st.reservations && st.reservations[id].status == RESERVED
    ensures var e := Release(st, [id], now);
      && e.result.Ok?
      && e.state.nextReservationId == st.nextReservationId && e.state.outbox == st.outbox
      && e.state.reservations == st.reservations[id := st.reservations[id].(releasedAt := Some(now), status := RELEASED)]
      && (var r := st.reservations[id];
          e.state.inventories == st.inventories[r.inventory := st.inventories[r.inventory].(
            reservedQuantity := st.inventories[r.inventory].reservedQuantity - r.quantity)])
      && (forall p :: p in st.inventories <==> p in e.state.inventories)
      && (forall p :: p in st.inventories ==> e.state.inventories[p].totalQuantity == st.inventories[p].totalQuantity)
  {
    ReleaseSingleton(st, id, now);
    ReleaseOneOutcomes(st, id, now);
  }

  /** One release inside the sweep keeps the ledger invariant. */
  lemma ReleaseHoldKeepsConsistent(st: DbState, id: ReservationId, now: int)
    requires Consistent(st) && id in st.reservations && st.reservations[id].status == RESERVED
    ensures Consistent(Release(st, [id], now).state)
  {
    ReleaseSingleton(st, id, now);
    ReleaseReservedPreservesConsistent(st, id, now);
  }

  /**
   * Releasing distinct RESERVED reservations one by one succeeds for each,
   * leaves each RELEASED at `now`, and touches no other reservation and no total.
   */
  lemma {:induction false} SweepFromReleases(st: DbState, ids: seq<ReservationId>, i: nat, now: int,
                                             failed: seq<ReservationId>)
    requires WellFormed(st) && i <= |ids|
    requires forall j, k :: i <= j < k < |ids| ==> ids[j] != ids[k]
    requires forall k :: i <= k < |ids| ==> ids[k] in st.reservations && st.reservations[ids[k]].status == RESERVED
    ensures var st' := SweepFrom(st, ids, i, now, failed).0;
      && SweepFrom(st, ids, i, now, failed).1 == failed
      && st'.nextReservationId == st.nextReservationId && st'.outbox == st.outbox
      && (forall id :: id in st'.reservations <==> id in st.reservations)
      && (forall id :: id in st.reservations && id !in ids[i..] ==> st'.reservations[id] == st.reservations[id])
      && (forall k :: i <= k < |ids| ==>
            st'.reservations[ids[k]] == st.reservations[ids[k]].(releasedAt := Some(now), status := RELEASED))
      && (forall p :: p in st.inventories <==> p in st'.inventories)
      && (forall p :: p in st.inventories ==> st'.inventories[p].totalQuantity == st.inventories[p].totalQuantity)
    decreases |ids| - i
  {
    if i < |ids| {
      var id := ids[i];
      var e := Release(st, [id], now);
      ReleaseHoldShape(st, id, now);
      assert forall k :: i + 1 <= k < |ids| ==> ids[k] != id;
      SweepFromReleases(e.state, ids, i + 1, now, failed);
      var st' := SweepFrom(st, ids, i, now, failed).0;
      assert st' == SweepFrom(e.state, ids, i + 1, now, failed).0;
      assert id !in ids[i + 1..];
      forall id' | id' in st.reservations && id' !in ids[i..]
        ensures st'.reservations[id'] == st.reservations[id']
      {
        assert id' != id;
        assert id' !in ids[i + 1..];
      }
      forall k | i <= k < |ids|
        ensures st'.reservations[ids[k]] == st.reservations[ids[k]].(releasedAt := Some(now), status := RELEASED)
      {
        if k == i {
          assert st'.reservations[id] == e.state.reservations[id];
        } else {
          assert ids[k] != id;
          assert e.state.reservations[ids[k]] == st.reservations[ids[k]];
        }
      }
    }
  }

  /** How much of product `p` the reservations `ids[i..]` hold. */
  ghost function HeldIn(rs: map<ReservationId, Reservation>, ids: seq<ReservationId>, i: nat, p: ProductId): int
    requires i <= |ids|
    decreases |ids| - i
  {
    if i == |ids| then 0 else Holding(rs, ids[i], p) + HeldIn(rs, ids, i + 1, p)
  }

  /** The amount held by `ids[i..]` depends only on their own holdings. */
  lemma {:induction false} HeldInFrame(rs: map<ReservationId, Reservation>, rs': map<ReservationId, Reservation>,
                                       ids: seq<ReservationId>, i: nat, p: ProductId)
    requires i <= |ids|
    requires forall k :: i <= k < |ids| ==> Holding(rs, ids[k], p) == Holding(rs', ids[k], p)
    ensures HeldIn(rs, ids, i, p) == HeldIn(rs', ids, i, p)
    decreases |ids| - i
  {
    if i < |ids| {
      HeldInFrame(rs, rs', ids, i + 1, p);
    }
  }

  /**
   * Releasing distinct RESERVED reservations one by one lowers product `p`'s
   * reserved counter by exactly what those reservations held of it, and
   * changes nothing else in its inventory row.
   */
  lemma {:induction false} SweepFromCounters(st: DbState, ids: seq<ReservationId>, i: nat, now: int,
                                             failed: seq<ReservationId>, p: ProductId)
    requires WellFormed(st) && i <= |ids| && p in st.inventories
    requires forall j, k :: i <= j < k < |ids| ==> ids[j] != ids[k]
    requires forall k :: i <= k < |ids| ==> ids[k] in st.reservations && st.reservations[ids[k]].status == RESERVED
    ensures var st' := SweepFrom(st, ids, i, now, failed).0;
      && p in st'.inventories
      && st'.inventories[p] == st.inventories[p].(
           reservedQuantity := st.inventories[p].reservedQuantity - HeldIn(st.reservations, ids, i, p))
    decreases |ids| - i
  {
    if i < |ids| {
      var id := ids[i];
      var e := Release(st, [id], now);
      ReleaseHoldShape(st, id, now);
      assert forall k :: i + 1 <= k < |ids| ==> ids[k] != id;
      SweepStepCounters(st, ids, i, now, p);
      SweepFromCounters(e.state, ids, i + 1, now, failed, p);
    }
  }

  /** One step of the sweep: the released hold's product loses its quantity, and the holds still to come are untouched. */
  lemma SweepStepCounters(st: DbState, ids: seq<ReservationId>, i: nat, now: int, p: ProductId)
    requires WellFormed(st) && i < |ids| && p in st.inventories
    requires forall k :: i + 1 <= k < |ids| ==> ids[k] != ids[i]
    requires ids[i] in st.reservations && st.reservations[ids[i]].status == RESERVED
    ensures var e := Release(st, [ids[i]], now);
      && p in e.state.inventories
      && e.state.inventories[p] == st.inventories[p].(
           reservedQuantity := st.inventories[p].reservedQuantity - Holding(st.reservations, ids[i], p))
      && HeldIn(e.state.reservations, ids, i + 1, p) == HeldIn(st.reservations, ids, i + 1, p)
  {
    var e := Release(st, [ids[i]], now);
    ReleaseHoldShape(st, ids[i], now);
    forall k | i + 1 <= k < |ids|
      ensures Holding(e.state.reservations, ids[k], p) == Holding(st.reservations, ids[k], p)
    {
    }
    HeldInFrame(e.state.reservations, st.reservations, ids, i + 1, p);
  }

  /** Releasing distinct RESERVED reservations one by one keeps the ledger invariant. */
  lemma {:induction false} SweepFromKeepsConsistent(st: DbState, ids: seq<ReservationId>, i: nat, now: int,
                                                    failed: seq<ReservationId>)
    requires Consistent(st) && i <= |ids|
    requires forall j, k :: i <= j < k < |ids| ==> ids[j] != ids[k]
    requires forall k :: i <= k < |ids| ==> ids[k] in st.reservations && st.reservations[ids[k]].status == RESERVED
    ensures Consistent(SweepFrom(st, ids, i, now, failed).0)
    decreases |ids| - i
  {
    if i < |ids| {
      var id := ids[i];
      var e := Release(st, [id], now);
      ReleaseHoldShape(st, id, now);
      ReleaseHoldKeepsConsistent(st, id, now);
      assert forall k :: i + 1 <= k < |ids| ==> ids[k] != id;
      SweepFromKeepsConsistent(e.state, ids, i + 1, now, failed);
    }
  }

  /** The selected ids are distinct RESERVED reservations, and they are exactly the expired ones. */
  lemma ExpiredIdsAreDistinctHolds(st: DbState, now: int, ids: seq<ReservationId>)
    requires WellFormed(st) && ids == ExpiredBelow(st.reservations, now, st.nextReservationId)
    ensures forall j, k :: 0 <= j < k < |ids| ==> ids[j] != ids[k]
    ensures forall k :: 0 <= k < |ids| ==> ids[k] in st.reservations && st.reservations[ids[k]].status == RESERVED
    ensures forall id :: id in st.reservations ==> (id in ids <==> IsExpired(st.reservations[id], now))
  {
    ExpiredBelowSelects(st.reservations, now, st.nextReservationId);
    forall j, k | 0 <= j < k < |ids|
      ensures ids[j] != ids[k]
    {
      assert ids[j].n < ids[k].n;
    }
    forall k | 0 <= k < |ids|
      ensures ids[k] in st.reservations && st.reservations[ids[k]].status == RESERVED
    {
      assert ids[k] in ids;
    }
  }

  /**
   * One sweep: every reservation that was RESERVED with a deadline before
   * `now` ends RELEASED at `now`, every other one is untouched, no release
   * fails, and the totals do not move.
   */
  lemma SweepMarksExactlyTheExpired(st: DbState, now: int)
    requires WellFormed(st)
    ensures var st' := Sweep(st, now).0;
      && Sweep(st, now).1 == []
      && (forall id :: id in st'.reservations <==> id in st.reservations)
      && (forall id :: id in st.reservations ==>
            st'.reservations[id] == if IsExpired(st.reservations[id], now)
                                    then st.reservations[id].(releasedAt := Some(now), status := RELEASED)
                                    else st.reservations[id])
      && (forall p :: p in st.inventories <==> p in st'.inventories)
      && (forall p :: p in st.inventories ==> st'.inventories[p].totalQuantity == st.inventories[p].totalQuantity)
  {
    var ids := ExpiredBelow(st.reservations, now, st.nextReservationId);
    ExpiredIdsAreDistinctHolds(st, now, ids);
    SweepFromReleases(st, ids, 0, now, []);
    var st' := Sweep(st, now).0;
    assert ids[0..] == ids;
    forall id | id in st.reservations
      ensures st'.reservations[id] == if IsExpired(st.reservations[id], now)
                                      then st.reservations[id].(releasedAt := Some(now), status := RELEASED)
                                      else st.reservations[id]
    {
      if IsExpired(st.reservations[id], now) {
        assert id in ids;
        var k :| 0 <= k < |ids| && ids[k] == id;
      } else {
        assert id !in ids[0..];
      }
    }
  }

  /**
   * One sweep lowers each product's reserved counter by exactly the
   * quantities of its expired holds, and changes nothing else in any
   * inventory row.
   */
  lemma SweepDropsExpiredHolds(st: DbState, now: int, ids: seq<ReservationId>)
    requires WellFormed(st) && ids == ExpiredBelow(st.reservations, now, st.nextReservationId)
    ensures var st' := Sweep(st, now).0;
      forall p :: p in st.inventories ==>
        && p in st'.inventories
        && st'.inventories[p] == st.inventories[p].(
             reservedQuantity := st.inventories[p].reservedQuantity - HeldIn(st.reservations, ids, 0, p))
  {
    ExpiredIdsAreDistinctHolds(st, now, ids);
    forall p | p in st.inventories
      ensures p in Sweep(st, now).0.inventories
      ensures Sweep(st, now).0.inventories[p] == st.inventories[p].(
                reservedQuantity := st.inventories[p].reservedQuantity - HeldIn(st.reservations, ids, 0, p))
    {
      SweepFromCounters(st, ids, 0, now, [], p);
    }
  }

  /**
   * On a consistent ledger the sweep keeps every reserved counter equal to
   * what the holds left open add up to.
   */
  lemma SweepKeepsLedgerConsistent(st: DbState, now: int)
    requires Consistent(st)
    ensures Consistent(Sweep(st, now).0)
  {
    var ids := ExpiredBelow(st.reservations, now, st.nextReservationId);
    ExpiredIdsAreDistinctHolds(st, now, ids);
    SweepFromKeepsConsistent(st, ids, 0, now, []);
  }

  /** The scheduled job over the shared tables and the reservation service. */
  class ReservationExpirationScheduler {
    const db: Database
    const reservationService: ReservationService

    constructor (db: Database, reservationService: ReservationService)
      requires reservationService.db == db
      ensures this.db == db && this.reservationService == reservationService
    {
      this.db := db;
      this.reservationService := reservationService;
    }

    /** Returns the ids whose release failed, which the job logs and skips. */
    method ReleaseExpiredReservations(now: int) returns (failed: seq<ReservationId>)
      requires db.Valid() && reservationService.db == db
      modifies db
      ensures db.Valid()
      ensures (db.State(), failed) == Sweep(old(db.State()), now)
    {
      var expiredReservations := db.FindExpiredReservations(now);
      failed := [];
      var i := 0;
      while i < |expiredReservations|
        invariant i <= |expiredReservations|
        invariant db.Valid()
        invariant SweepFrom(db.State(), expiredReservations, i, now, failed) == Sweep(old(db.State()), now)
        decreases |expiredReservations| - i
      {
        var released := reservationService.ReleaseReservation([expiredReservations[i]], now);
        if released.Err? {
          failed := failed + [expiredReservations[i]];
        }
        i := i + 1;
      }
    }
  }
}
