/**
 * Reservation lifecycle over the ledger: reserve a batch of items under one
 * idempotency key, release and confirm batches of reservations, and look one
 * up. Time is a minute count supplied by the caller.
 */
module Reserving {
  import opened Types
  import opened Reservations
  import opened Inventories
  import opened Database
  import opened Ledger

  /** The configured hold time when none is set. */
  const DefaultTimeoutMinutes: int := 15

  datatype ReserveItem = ReserveItem(productId: ProductId, quantity: int)

  /** The reservation row reserve creates for one item. */
  function NewHold(p: ProductId, quantity: int, orderId: OrderId, key: IdempotencyKey, expiresAt: int): Reservation {
    Reservation(p, quantity, RESERVED, orderId, key, expiresAt, None, None, None)
  }

  /**
   * One item of reserve: `Ok(None)` is a replay hit, which ends the call;
   * otherwise the item is refused when it exceeds what is available, or held
   * and recorded under the next reservation id.
   */
  ghost function ReserveOne(st: DbState, key: IdempotencyKey, orderId: OrderId, item: ReserveItem,
                            expiresAt: int): (e: Effect<Option<ReservationId>>)
    ensures e.result.Ok? && e.result.value.None? <==> HasReservationFor(st.reservations, item.productId, key)
    ensures !(e.result.Ok? && e.result.value.Some?) ==> e.state == st
  {
    if HasReservationFor(st.reservations, item.productId, key) then Effect(st, Ok(None))
    else
      var inv := FindOrCreate(st.inventories, item.productId);
      var available := inv.totalQuantity - inv.reservedQuantity;
      if available < item.quantity then
        Effect(st, Err(NotEnoughInventory(inv.productId, item.quantity, available)))
      else
        var saved := inv.(idempotencyKey := Some(key), reservedQuantity := inv.reservedQuantity + item.quantity);
        var id := ReservationId(st.nextReservationId);
        Effect(st.(inventories := st.inventories[saved.productId := saved],
                   reservations := st.reservations[id := NewHold(saved.productId, item.quantity, orderId, key, expiresAt)],
                   nextReservationId := st.nextReservationId + 1),
               Ok(Some(id)))
  }

  /** Reserve from item `i` on, with the ids collected so far; `Ok(None)` is the null a replay returns. */
  ghost function ReserveFrom(st: DbState, key: IdempotencyKey, orderId: OrderId, items: seq<ReserveItem>, i: nat,
                             expiresAt: int, acc: seq<ReservationId>): (e: Effect<Option<seq<ReservationId>>>)
    requires i <= |items|
    decreases |items| - i
  {
    if i == |items| then Effect(st, Ok(Some(acc)))
    else
      var e := ReserveOne(st, key, orderId, items[i], expiresAt);
      match e.result
      case Err(err) => Effect(e.state, Err(err))
      case Ok(None) => Effect(e.state, Ok(None))
      case Ok(Some(id)) => ReserveFrom(e.state, key, orderId, items, i + 1, expiresAt, acc + [id])
  }

  ghost function Reserve(st: DbState, key: IdempotencyKey, orderId: OrderId, items: seq<ReserveItem>,
                         expiresAt: int): Effect<Option<seq<ReservationId>>>
  {
    ReserveFrom(st, key, orderId, items, 0, expiresAt, [])
  }

  /** Release of one reservation: the entity's guard, then the owning inventory's reserved counter drops by the quantity. */
  ghost function ReleaseOne(st: DbState, id: ReservationId, now: int): (e: Effect<Reservation>)
    requires WellFormed(st)
    ensures WellFormed(e.state)
  {
    if id !in st.reservations then Effect(st, Err(ReservationNotFound(id)))
    else
      var r := st.reservations[id];
      match Apply(r, ReleaseNow, now)
      case Err(err) => Effect(st, Err(err))
      case Ok(r') =>
        var inv := st.inventories[r.inventory];
        var inv' := inv.(reservedQuantity := inv.reservedQuantity - r.quantity);
        Effect(st.(inventories := st.inventories[inv'.productId := inv'],
                   reservations := st.reservations[id := r']), Ok(r'))
  }

  ghost function ReleaseFrom(st: DbState, ids: seq<ReservationId>, i: nat, now: int, acc: seq<Reservation>)
    : (e: Effect<seq<Reservation>>)
    requires WellFormed(st) && i <= |ids|
    ensures WellFormed(e.state)
    decreases |ids| - i
  {
    if i == |ids| then Effect(st, Ok(acc))
    else
      var e := ReleaseOne(st, ids[i], now);
      match e.result
      case Err(err) => Effect(e.state, Err(err))
      case Ok(r) => ReleaseFrom(e.state, ids, i + 1, now, acc + [r])
  }

  ghost function Release(st: DbState, ids: seq<ReservationId>, now: int): (e: Effect<seq<Reservation>>)
    requires WellFormed(st)
    ensures WellFormed(e.state)
  {
    ReleaseFrom(st, ids, 0, now, [])
  }

  /**
   * Confirmation of one reservation: past its deadline it goes through the
   * one-id release (which ReleaseSingleton shows is ReleaseOne) and the call
   * raises ReservationExpired; otherwise the entity's guard, then the quantity
   * leaves both the total and the reserved counter.
   */
  ghost function ConfirmOne(st: DbState, id: ReservationId, orderId: OrderId, now: int): (e: Effect<Reservation>)
    requires WellFormed(st)
    ensures WellFormed(e.state)
  {
    if id !in st.reservations then Effect(st, Err(ReservationNotFound(id)))
    else
      var r := st.reservations[id];
      if r.expiresAt < now then
        var released := ReleaseOne(st, id, now);
        if released.result.Err? then Effect(released.state, Err(released.result.error))
        else Effect(released.state, Err(ReservationExpired(id)))
      else ConfirmLive(st, id, orderId, now)
  }

  /** Confirmation of a reservation within its deadline: the entity's guard, then both counters. */
  ghost function ConfirmLive(st: DbState, id: ReservationId, orderId: OrderId, now: int): (e: Effect<Reservation>)
    requires WellFormed(st) && id in st.reservations
    ensures WellFormed(e.state)
  {
    var r := st.reservations[id];
    match Apply(r, ConfirmFor(orderId), now)
    case Err(err) => Effect(st, Err(err))
    case Ok(r') =>
      var inv := st.inventories[r.inventory];
      var inv' := inv.(totalQuantity := inv.totalQuantity - r.quantity,
                       reservedQuantity := inv.reservedQuantity - r.quantity);
      Effect(st.(inventories := st.inventories[inv'.productId := inv'],
                 reservations := st.reservations[id := r']), Ok(r'))
  }

  ghost function ConfirmFrom(st: DbState, ids: seq<ReservationId>, orderId: OrderId, i: nat, now: int,
                             acc: seq<Reservation>): (e: Effect<seq<Reservation>>)
    requires WellFormed(st) && i <= |ids|
    ensures WellFormed(e.state)
    decreases |ids| - i
  {
    if i == |ids| then Effect(st, Ok(acc))
    else
      var e := ConfirmOne(st, ids[i], orderId, now);
      match e.result
      case Err(err) => Effect(e.state, Err(err))
      case Ok(r) => ConfirmFrom(e.state, ids, orderId, i + 1, now, acc + [r])
  }

  ghost function Confirm(st: DbState, ids: seq<ReservationId>, orderId: OrderId, now: int): (e: Effect<seq<Reservation>>)
    requires WellFormed(st)
    ensures WellFormed(e.state)
  {
    ConfirmFrom(st, ids, orderId, 0, now, [])
  }

  // ---------------------------------------------------------------- reserve

  /**
   * One reserve item: a (product, key) pair already reserved is a replay and
   * changes nothing; an item beyond what is available is refused with the
   * product, the request and the availability and changes nothing; otherwise
   * the inventory's reserved counter grows by the quantity, its key is
   * stamped, and a RESERVED reservation with a fresh id records the hold, so
   * the holds stay within the total.
   */
  lemma ReserveOneOutcomes(st: DbState, key: IdempotencyKey, orderId: OrderId, item: ReserveItem, expiresAt: int)
    requires WellFormed(st)
    ensures var e := ReserveOne(st, key, orderId, item, expiresAt);
      var p := item.productId;
      var inv := FindOrCreate(st.inventories, p);
      && (e.result == Ok(None) <==> HasReservationFor(st.reservations, p, key))
      && (e.result.Err? <==> !HasReservationFor(st.reservations, p, key) && inv.Available() < item.quantity)
      && (e.result.Err? ==> e.state == st
                            && e.result.error == NotEnoughInventory(p, item.quantity, inv.Available()))
      && (e.result == Ok(None) ==> e.state == st)
      && (e.result.Ok? && e.result.value.Some? ==>
            var id := e.result.value.value;
            && id == ReservationId(st.nextReservationId) && id !in st.reservations
            && e.state.inventories == st.inventories[p := inv.(idempotencyKey := Some(key),
                                                              reservedQuantity := inv.reservedQuantity + item.quantity)]
            && e.state.reservations == st.reservations[id := NewHold(p, item.quantity, orderId, key, expiresAt)]
            && e.state.nextReservationId == st.nextReservationId + 1
            && e.state.outbox == st.outbox
            && e.state.inventories[p].reservedQuantity <= e.state.inventories[p].totalQuantity)
    ensures WellFormed(ReserveOne(st, key, orderId, item, expiresAt).state)
  {
    assert ReservationId(st.nextReservationId) !in st.reservations;
  }

  /** Adding reservation number `n` adds its holding to the sum and leaves the rest as it was. */
  lemma HeldWithNewHold(rs: map<ReservationId, Reservation>, r: Reservation, p: ProductId, n: nat)
    ensures HeldBelow(rs[ReservationId(n) := r], p, n + 1)
            == HeldBelow(rs, p, n) + (if r.inventory == p && r.status == RESERVED then r.quantity else 0)
  {
    HeldFrame(rs, rs[ReservationId(n) := r], p, n);
  }

  /** A reserve item of positive quantity keeps the ledger invariant. */
  lemma ReserveOnePreservesConsistent(st: DbState, key: IdempotencyKey, orderId: OrderId, item: ReserveItem,
                                      expiresAt: int)
    requires Consistent(st) && item.quantity >= 1
    ensures Consistent(ReserveOne(st, key, orderId, item, expiresAt).state)
  {
    var e := ReserveOne(st, key, orderId, item, expiresAt);
    ReserveOneOutcomes(st, key, orderId, item, expiresAt);
    if e.result.Ok? && e.result.value.Some? {
      var p := item.productId;
      var st' := e.state;
      assert p in st.inventories;
      var r := NewHold(p, item.quantity, orderId, key, expiresAt);
      forall q | q in st'.inventories
        ensures Accounted(st', q)
      {
        assert Accounted(st, q);
        HeldWithNewHold(st.reservations, r, q, st.nextReservationId);
      }
    }
  }

  /** A whole reserve call whose items have positive quantities keeps the ledger invariant, whatever it returns. */
  lemma {:induction false} ReserveFromPreservesConsistent(st: DbState, key: IdempotencyKey, orderId: OrderId,
                                                          items: seq<ReserveItem>, i: nat, expiresAt: int,
                                                          acc: seq<ReservationId>)
    requires Consistent(st) && i <= |items|
    requires forall k :: 0 <= k < |items| ==> items[k].quantity >= 1
    ensures Consistent(ReserveFrom(st, key, orderId, items, i, expiresAt, acc).state)
    decreases |items| - i
  {
    if i < |items| {
      var e := ReserveOne(st, key, orderId, items[i], expiresAt);
      ReserveOnePreservesConsistent(st, key, orderId, items[i], expiresAt);
      if e.result.Ok? && e.result.value.Some? {
        ReserveFromPreservesConsistent(e.state, key, orderId, items, i + 1, expiresAt, acc + [e.result.value.value]);
      }
    }
  }

  lemma ReservePreservesConsistent(st: DbState, key: IdempotencyKey, orderId: OrderId, items: seq<ReserveItem>,
                                   expiresAt: int)
    requires Consistent(st)
    requires forall k :: 0 <= k < |items| ==> items[k].quantity >= 1
    ensures Consistent(Reserve(st, key, orderId, items, expiresAt).state)
  {
    ReserveFromPreservesConsistent(st, key, orderId, items, 0, expiresAt, []);
  }

  /** What a successful run of reserve from item `i` creates, on top of the ids collected before it. */
  lemma {:induction false} ReserveFromCreates(st: DbState, key: IdempotencyKey, orderId: OrderId,
                                              items: seq<ReserveItem>, i: nat, expiresAt: int,
                                              acc: seq<ReservationId>)
    requires WellFormed(st) && i <= |items|
    requires ReserveFrom(st, key, orderId, items, i, expiresAt, acc).result.Ok?
    requires ReserveFrom(st, key, orderId, items, i, expiresAt, acc).result.value.Some?
    ensures var e := ReserveFrom(st, key, orderId, items, i, expiresAt, acc);
      var ids := e.result.value.value;
      && |ids| == |acc| + |items| - i
      && ids[..|acc|] == acc
      && e.state.nextReservationId == st.nextReservationId + |items| - i
      && (forall j :: |acc| <= j < |ids| ==>
            && ids[j] == ReservationId(st.nextReservationId + j - |acc|)
            && ids[j] in e.state.reservations
            && e.state.reservations[ids[j]]
               == NewHold(items[i + j - |acc|].productId, items[i + j - |acc|].quantity, orderId, key, expiresAt))
      && (forall id :: id in st.reservations ==> id in e.state.reservations && e.state.reservations[id] == st.reservations[id])
    decreases |items| - i
  {
    if i < |items| {
      var e1 := ReserveOne(st, key, orderId, items[i], expiresAt);
      ReserveOneOutcomes(st, key, orderId, items[i], expiresAt);
      var id := e1.result.value.value;
      ReserveFromCreates(e1.state, key, orderId, items, i + 1, expiresAt, acc + [id]);
      var e := ReserveFrom(st, key, orderId, items, i, expiresAt, acc);
      var ids := e.result.value.value;
      assert ids[..|acc| + 1] == acc + [id];
      assert ids[..|acc|] == (acc + [id])[..|acc|];
      assert ids[|acc|] == (acc + [id])[|acc|] == id;
    }
  }

  /** A successful reserve leaves the key on every product of the batch and on every product that had it. */
  lemma {:induction false} ReserveFromStampsKey(st: DbState, key: IdempotencyKey, orderId: OrderId,
                                                items: seq<ReserveItem>, i: nat, expiresAt: int,
                                                acc: seq<ReservationId>)
    requires WellFormed(st) && i <= |items|
    requires ReserveFrom(st, key, orderId, items, i, expiresAt, acc).result.Ok?
    requires ReserveFrom(st, key, orderId, items, i, expiresAt, acc).result.value.Some?
    ensures var e := ReserveFrom(st, key, orderId, items, i, expiresAt, acc);
      && (forall k :: i <= k < |items| ==>
            items[k].productId in e.state.inventories && e.state.inventories[items[k].productId].idempotencyKey == Some(key))
      && (forall p :: p in st.inventories && st.inventories[p].idempotencyKey == Some(key) ==>
            p in e.state.inventories && e.state.inventories[p].idempotencyKey == Some(key))
    decreases |items| - i
  {
    if i < |items| {
      var e1 := ReserveOne(st, key, orderId, items[i], expiresAt);
      ReserveOneOutcomes(st, key, orderId, items[i], expiresAt);
      ReserveFromStampsKey(e1.state, key, orderId, items, i + 1, expiresAt, acc + [e1.result.value.value]);
    }
  }

  /**
   * A successful reserve returns one new id per item, consecutive and in item
   * order, each naming a RESERVED reservation of that item's product and
   * quantity under the call's order, key and deadline; every earlier
   * reservation is kept as it was, and every product in the batch carries the key.
   */
  lemma ReserveCreatesOneHoldPerItem(st: DbState, key: IdempotencyKey, orderId: OrderId, items: seq<ReserveItem>,
                                     expiresAt: int)
    requires WellFormed(st)
    requires Reserve(st, key, orderId, items, expiresAt).result.Ok?
    requires Reserve(st, key, orderId, items, expiresAt).result.value.Some?
    ensures var e := Reserve(st, key, orderId, items, expiresAt);
      var ids := e.result.value.value;
      && |ids| == |items|
      && e.state.nextReservationId == st.nextReservationId + |items|
      && (forall j :: 0 <= j < |ids| ==>
            && ids[j] == ReservationId(st.nextReservationId + j)
            && ids[j] !in st.reservations
            && ids[j] in e.state.reservations
            && e.state.reservations[ids[j]] == NewHold(items[j].productId, items[j].quantity, orderId, key, expiresAt))
      && (forall id :: id in st.reservations ==> id in e.state.reservations && e.state.reservations[id] == st.reservations[id])
      && (forall k :: 0 <= k < |items| ==>
            items[k].productId in e.state.inventories && e.state.inventories[items[k].productId].idempotencyKey == Some(key))
  {
    ReserveFromCreates(st, key, orderId, items, 0, expiresAt, []);
    ReserveFromStampsKey(st, key, orderId, items, 0, expiresAt, []);
    var e := Reserve(st, key, orderId, items, expiresAt);
    var ids := e.result.value.value;
    forall j | 0 <= j < |ids|
      ensures ids[j] == ReservationId(st.nextReservationId + j) && ids[j] !in st.reservations
      ensures ids[j] in e.state.reservations
      ensures e.state.reservations[ids[j]] == NewHold(items[j].productId, items[j].quantity, orderId, key, expiresAt)
    {
      assert items[0 + j - 0] == items[j];
    }
  }

  /**
   * Two different products reserved in one successful call end up carrying the
   * same idempotency key, a column the inventory table declares unique. This
   * describes the writes the code requests; the tables here do not enforce the
   * uniqueness, so a store that does would refuse them.
   */
  lemma MultiProductReserveSharesKey(st: DbState, key: IdempotencyKey, orderId: OrderId, items: seq<ReserveItem>,
                                     expiresAt: int, j: nat, k: nat)
    requires WellFormed(st)
    requires Reserve(st, key, orderId, items, expiresAt).result.Ok?
    requires Reserve(st, key, orderId, items, expiresAt).result.value.Some?
    requires j < |items| && k < |items| && items[j].productId != items[k].productId
    ensures var inventories := Reserve(st, key, orderId, items, expiresAt).state.inventories;
      && items[j].productId in inventories && items[k].productId in inventories
      && inventories[items[j].productId].idempotencyKey == Some(key)
      && inventories[items[k].productId].idempotencyKey == Some(key)
  {
    ReserveCreatesOneHoldPerItem(st, key, orderId, items, expiresAt);
  }

  /** A call whose first item's (product, key) pair is already reserved returns null and changes nothing. */
  lemma ReplayIsNoOp(st: DbState, key: IdempotencyKey, orderId: OrderId, items: seq<ReserveItem>, expiresAt: int)
    requires |items| > 0 && HasReservationFor(st.reservations, items[0].productId, key)
    ensures Reserve(st, key, orderId, items, expiresAt) == Effect(st, Ok(None))
  {
  }

  /** After a successful reserve, any later reserve under the same key that starts with a product of that batch is a replay. */
  lemma ReserveTwiceIsReplay(st: DbState, key: IdempotencyKey, orderId: OrderId, items: seq<ReserveItem>,
                             expiresAt: int, orderId': OrderId, items': seq<ReserveItem>, expiresAt': int)
    requires WellFormed(st)
    requires Reserve(st, key, orderId, items, expiresAt).result.Ok?
    requires Reserve(st, key, orderId, items, expiresAt).result.value.Some?
    requires |items'| > 0 && exists k :: 0 <= k < |items| && items[k].productId == items'[0].productId
    ensures var st' := Reserve(st, key, orderId, items, expiresAt).state;
      Reserve(st', key, orderId', items', expiresAt') == Effect(st', Ok(None))
  {
    var e := Reserve(st, key, orderId, items, expiresAt);
    ReserveCreatesOneHoldPerItem(st, key, orderId, items, expiresAt);
    var k :| 0 <= k < |items| && items[k].productId == items'[0].productId;
    var id := e.result.value.value[k];
    assert id in e.state.reservations && e.state.reservations[id].inventory == items'[0].productId;
    assert HasReservationFor(e.state.reservations, items'[0].productId, key);
  }

  /**
   * When the items before position `n` all reserve, the call from position `i`
   * runs them and then carries on from `n` with the state and ids they leave.
   */
  lemma {:induction false} ReserveFromPrefix(st: DbState, key: IdempotencyKey, orderId: OrderId,
                                             items: seq<ReserveItem>, i: nat, n: nat, expiresAt: int,
                                             acc: seq<ReservationId>)
    requires i <= n <= |items|
    requires ReserveFrom(st, key, orderId, items[..n], i, expiresAt, acc).result.Ok?
    requires ReserveFrom(st, key, orderId, items[..n], i, expiresAt, acc).result.value.Some?
    ensures var e := ReserveFrom(st, key, orderId, items[..n], i, expiresAt, acc);
      ReserveFrom(st, key, orderId, items, i, expiresAt, acc)
      == ReserveFrom(e.state, key, orderId, items, n, expiresAt, e.result.value.value)
    decreases n - i
  {
    if i < n {
      assert items[..n][i] == items[i];
      var e1 := ReserveOne(st, key, orderId, items[i], expiresAt);
      ReserveFromPrefix(e1.state, key, orderId, items, i + 1, n, expiresAt, acc + [e1.result.value.value]);
    }
  }

  /**
   * A retried batch whose item `n` is already reserved under the key, after
   * items that were not: the items before it are held and recorded, then the
   * hit ends the call with null, so the caller gets no ids for those holds.
   */
  lemma ReplayMidBatchKeepsPrefix(st: DbState, key: IdempotencyKey, orderId: OrderId, items: seq<ReserveItem>,
                                  n: nat, expiresAt: int)
    requires WellFormed(st) && n < |items|
    requires Reserve(st, key, orderId, items[..n], expiresAt).result.Ok?
    requires Reserve(st, key, orderId, items[..n], expiresAt).result.value.Some?
    requires HasReservationFor(Reserve(st, key, orderId, items[..n], expiresAt).state.reservations, items[n].productId, key)
    ensures Reserve(st, key, orderId, items, expiresAt)
            == Effect(Reserve(st, key, orderId, items[..n], expiresAt).state, Ok(None))
    ensures Reserve(st, key, orderId, items[..n], expiresAt).state.nextReservationId == st.nextReservationId + n
    ensures forall m :: st.nextReservationId <= m < st.nextReservationId + n ==>
      && ReservationId(m) in Reserve(st, key, orderId, items[..n], expiresAt).state.reservations
      && Reserve(st, key, orderId, items[..n], expiresAt).state.reservations[ReservationId(m)]
         == NewHold(items[m - st.nextReservationId].productId, items[m - st.nextReservationId].quantity,
                    orderId, key, expiresAt)
  {
    var e := Reserve(st, key, orderId, items[..n], expiresAt);
    ReserveFromPrefix(st, key, orderId, items, 0, n, expiresAt, []);
    ReserveCreatesOneHoldPerItem(st, key, orderId, items[..n], expiresAt);
    var ids := e.result.value.value;
    forall m | st.nextReservationId <= m < st.nextReservationId + n
      ensures && ReservationId(m) in e.state.reservations
              && e.state.reservations[ReservationId(m)]
                 == NewHold(items[m - st.nextReservationId].productId, items[m - st.nextReservationId].quantity,
                            orderId, key, expiresAt)
    {
      var j := m - st.nextReservationId;
      assert items[..n][j] == items[j];
      assert ids[j] == ReservationId(m);
    }
  }

  /**
   * A batch that names the same product twice: the first item is held and
   * saved, the second finds that hold under the same key and the call returns
   * null, so the caller gets no ids while one reservation stays held.
   */
  lemma RepeatedProductLeaksHold(st: DbState, key: IdempotencyKey, orderId: OrderId, item: ReserveItem,
                                 quantity': int, expiresAt: int)
    requires WellFormed(st)
    requires ReserveOne(st, key, orderId, item, expiresAt).result.Ok?
    requires ReserveOne(st, key, orderId, item, expiresAt).result.value.Some?
    ensures var st1 := ReserveOne(st, key, orderId, item, expiresAt).state;
      && Reserve(st, key, orderId, [item, ReserveItem(item.productId, quantity')], expiresAt) == Effect(st1, Ok(None))
      && st1.nextReservationId == st.nextReservationId + 1
      && ReservationId(st.nextReservationId) in st1.reservations
      && st1.reservations[ReservationId(st.nextReservationId)].status == RESERVED
  {
    var e1 := ReserveOne(st, key, orderId, item, expiresAt);
    ReserveOneOutcomes(st, key, orderId, item, expiresAt);
    var id := ReservationId(st.nextReservationId);
    var items := [item, ReserveItem(item.productId, quantity')];
    assert id in e1.state.reservations && e1.state.reservations[id].inventory == item.productId;
    assert HasReservationFor(e1.state.reservations, item.productId, key);
    assert ReserveOne(e1.state, key, orderId, items[1], expiresAt) == Effect(e1.state, Ok(None));
    assert ReserveFrom(st, key, orderId, items, 0, expiresAt, []) == ReserveFrom(e1.state, key, orderId, items, 1, expiresAt, [id]);
  }

  /**
   * Reserve stamps its own key on the inventory, replacing the key of the
   * add-stock call before it, so a retry of that add-stock is no longer seen
   * as a replay and adds the stock a second time.
   */
  lemma ReserveForgetsAddStockKey(st: DbState, addKey: IdempotencyKey, p: ProductId, quantity: int,
                                  reserveKey: IdempotencyKey, orderId: OrderId, item: ReserveItem, expiresAt: int)
    requires WellFormed(st)
    requires !KeyRecorded(st.inventories, addKey) && reserveKey != addKey && item.productId == p
    requires ReserveOne(AddStock(st, addKey, p, quantity), reserveKey, orderId, item, expiresAt).result.Ok?
    requires ReserveOne(AddStock(st, addKey, p, quantity), reserveKey, orderId, item, expiresAt).result.value.Some?
    ensures var st1 := AddStock(st, addKey, p, quantity);
      var st2 := ReserveOne(st1, reserveKey, orderId, item, expiresAt).state;
      && !KeyRecorded(st2.inventories, addKey)
      && AddStock(st2, addKey, p, quantity).inventories[p].totalQuantity
         == st2.inventories[p].totalQuantity + quantity
  {
    var st1 := AddStock(st, addKey, p, quantity);
    var st2 := ReserveOne(st1, reserveKey, orderId, item, expiresAt).state;
    assert WellFormed(st1) by {
      if p !in st.inventories {
        assert FindOrCreate(st.inventories, p).productId == p;
      }
    }
    ReserveOneOutcomes(st1, reserveKey, orderId, item, expiresAt);
    assert p in st2.inventories && !st2.inventories[p].deleted;
  }

  // ---------------------------------------------------------------- release

  /**
   * Release of one id: an unknown id raises ReservationNotFound and a status
   * other than RESERVED or CONFIRMED raises IllegalState, both without change;
   * otherwise the reservation is RELEASED at `now` and its inventory's
   * reserved counter drops by its quantity, with the total untouched.
   */
  lemma ReleaseOneOutcomes(st: DbState, id: ReservationId, now: int)
    requires WellFormed(st)
    ensures var e := ReleaseOne(st, id, now);
      && (id !in st.reservations ==> e == Effect(st, Err(ReservationNotFound(id))))
      && (id in st.reservations && st.reservations[id].status != RESERVED && st.reservations[id].status != CONFIRMED
          ==> e == Effect(st, Err(IllegalState)))
      && (id in st.reservations && (st.reservations[id].status == RESERVED || st.reservations[id].status == CONFIRMED) ==>
            var r := st.reservations[id];
            var inv := st.inventories[r.inventory];
            && e.result == Ok(r.(releasedAt := Some(now), status := RELEASED))
            && e.state.reservations == st.reservations[id := r.(releasedAt := Some(now), status := RELEASED)]
            && e.state.inventories == st.inventories[r.inventory := inv.(reservedQuantity := inv.reservedQuantity - r.quantity)]
            && e.state.nextReservationId == st.nextReservationId && e.state.outbox == st.outbox)
  {
  }

  /** Releasing a RESERVED reservation keeps the ledger invariant. */
  lemma ReleaseReservedPreservesConsistent(st: DbState, id: ReservationId, now: int)
    requires Consistent(st) && id in st.reservations && st.reservations[id].status == RESERVED
    ensures ReleaseOne(st, id, now).result.Ok?
    ensures Consistent(ReleaseOne(st, id, now).state)
  {
    var r := st.reservations[id];
    var st' := ReleaseOne(st, id, now).state;
    var r' := r.(releasedAt := Some(now), status := RELEASED);
    assert st'.reservations == st.reservations[id := r'];
    HeldCovers(st.reservations, id, r.inventory, st.nextReservationId);
    forall q | q in st'.inventories
      ensures Accounted(st', q)
    {
      assert Accounted(st, q);
      HeldUpdate(st.reservations, id, r', q, st.nextReservationId);
    }
  }

  /**
   * Releasing a CONFIRMED reservation succeeds and takes its quantity off the
   * reserved counter a second time, although it no longer holds anything, so
   * the counter falls below what the open reservations hold and the ledger
   * invariant is lost.
   */
  lemma ReleaseConfirmedDoubleCounts(st: DbState, id: ReservationId, now: int)
    requires Consistent(st) && id in st.reservations && st.reservations[id].status == CONFIRMED
    ensures var p := st.reservations[id].inventory;
      var st' := ReleaseOne(st, id, now).state;
      && ReleaseOne(st, id, now).result.Ok?
      && Held(st', p) == Held(st, p)
      && st'.inventories[p].reservedQuantity == Held(st', p) - st.reservations[id].quantity
      && !Consistent(st')
  {
    var r := st.reservations[id];
    var p := r.inventory;
    var st' := ReleaseOne(st, id, now).state;
    var r' := r.(releasedAt := Some(now), status := RELEASED);
    assert Accounted(st, p);
    HeldUpdate(st.reservations, id, r', p, st.nextReservationId);
    assert !Accounted(st', p);
  }

  /** A one-id release is that id's release. */
  lemma ReleaseSingleton(st: DbState, id: ReservationId, now: int)
    requires WellFormed(st)
    ensures var e := ReleaseOne(st, id, now);
      Release(st, [id], now) == match e.result
        case Ok(r) => Effect(e.state, Ok([r]))
        case Err(err) => Effect(e.state, Err(err))
  {
    var e := ReleaseOne(st, id, now);
    if e.result.Ok? {
      assert [] + [e.result.value] == [e.result.value];
      assert ReleaseFrom(e.state, [id], 1, now, [e.result.value]) == Effect(e.state, Ok([e.result.value]));
    }
  }

  /**
   * Releasing a list of distinct RESERVED reservations succeeds for every id,
   * returns one released row per id, and keeps the ledger invariant.
   */
  lemma {:induction false} ReleaseFromPreservesConsistent(st: DbState, ids: seq<ReservationId>, i: nat, now: int,
                                                          acc: seq<Reservation>)
    requires Consistent(st) && i <= |ids|
    requires forall j, k :: i <= j < k < |ids| ==> ids[j] != ids[k]
    requires forall k :: i <= k < |ids| ==> ids[k] in st.reservations && st.reservations[ids[k]].status == RESERVED
    ensures ReleaseFrom(st, ids, i, now, acc).result.Ok?
    ensures |ReleaseFrom(st, ids, i, now, acc).result.value| == |acc| + |ids| - i
    ensures Consistent(ReleaseFrom(st, ids, i, now, acc).state)
    decreases |ids| - i
  {
    if i < |ids| {
      var e := ReleaseOne(st, ids[i], now);
      ReleaseOneOutcomes(st, ids[i], now);
      ReleaseReservedPreservesConsistent(st, ids[i], now);
      assert forall k :: i + 1 <= k < |ids| ==> ids[k] != ids[i];
      ReleaseFromPreservesConsistent(e.state, ids, i + 1, now, acc + [e.result.value]);
    }
  }

  /** The release call over distinct RESERVED ids succeeds and keeps the ledger invariant. */
  lemma ReleasePreservesConsistent(st: DbState, ids: seq<ReservationId>, now: int)
    requires Consistent(st)
    requires forall j, k :: 0 <= j < k < |ids| ==> ids[j] != ids[k]
    requires forall k :: 0 <= k < |ids| ==> ids[k] in st.reservations && st.reservations[ids[k]].status == RESERVED
    ensures Release(st, ids, now).result.Ok? && |Release(st, ids, now).result.value| == |ids|
    ensures Consistent(Release(st, ids, now).state)
  {
    ReleaseFromPreservesConsistent(st, ids, 0, now, []);
  }

  /**
   * Reserving one item and releasing the id it returns puts the inventory's
   * counters back as they were; only the key stamped by reserve remains, and
   * the reservation stays on record as RELEASED.
   */
  lemma ReserveThenRelease(st: DbState, key: IdempotencyKey, orderId: OrderId, item: ReserveItem, expiresAt: int,
                           now: int)
    requires WellFormed(st)
    requires ReserveOne(st, key, orderId, item, expiresAt).result.Ok?
    requires ReserveOne(st, key, orderId, item, expiresAt).result.value.Some?
    ensures var e1 := ReserveOne(st, key, orderId, item, expiresAt);
      var id := e1.result.value.value;
      var e2 := Release(e1.state, [id], now);
      && e2.result.Ok?
      && item.productId in e2.state.inventories && id in e2.state.reservations
      && e2.state.inventories[item.productId]
         == FindOrCreate(st.inventories, item.productId).(idempotencyKey := Some(key))
      && e2.state.reservations[id].status == RELEASED
  {
    var e1 := ReserveOne(st, key, orderId, item, expiresAt);
    ReserveOneOutcomes(st, key, orderId, item, expiresAt);
    var id := e1.result.value.value;
    ReleaseSingleton(e1.state, id, now);
    ReleaseOneOutcomes(e1.state, id, now);
  }

  // ---------------------------------------------------------------- confirm

  /**
   * Confirmation of one id: an unknown id raises ReservationNotFound; past
   * its deadline the reservation goes through release and the call raises
   * ReservationExpired (or release's own error); otherwise a status other than
   * RESERVED raises IllegalState without change, and a RESERVED reservation
   * becomes CONFIRMED for the order while its quantity leaves both the total
   * and the reserved counter, so what is available does not move.
   */
  lemma ConfirmOneOutcomes(st: DbState, id: ReservationId, orderId: OrderId, now: int)
    requires WellFormed(st)
    ensures var e := ConfirmOne(st, id, orderId, now);
      && (id !in st.reservations ==> e == Effect(st, Err(ReservationNotFound(id))))
      && (id in st.reservations && st.reservations[id].expiresAt < now ==>
            var rel := ReleaseOne(st, id, now);
            && e.state == rel.state
            && e.result == Err(if rel.result.Ok? then ReservationExpired(id) else rel.result.error))
      && (id in st.reservations && now <= st.reservations[id].expiresAt && st.reservations[id].status != RESERVED ==>
            e == Effect(st, Err(IllegalState)))
      && (id in st.reservations && now <= st.reservations[id].expiresAt && st.reservations[id].status == RESERVED ==>
            var r := st.reservations[id];
            var inv := st.inventories[r.inventory];
            var inv' := e.state.inventories[r.inventory];
            && e.result == Ok(r.(orderId := orderId, status := CONFIRMED))
            && e.state.reservations == st.reservations[id := r.(orderId := orderId, status := CONFIRMED)]
            && inv'.totalQuantity == inv.totalQuantity - r.quantity
            && inv'.reservedQuantity == inv.reservedQuantity - r.quantity
            && inv'.Available() == inv.Available()
            && e.state.inventories == st.inventories[r.inventory := inv']
            && e.state.nextReservationId == st.nextReservationId && e.state.outbox == st.outbox)
  {
  }

  /** Confirming a RESERVED reservation before its deadline keeps the ledger invariant. */
  lemma ConfirmReservedPreservesConsistent(st: DbState, id: ReservationId, orderId: OrderId, now: int)
    requires Consistent(st) && id in st.reservations && st.reservations[id].status == RESERVED
    requires now <= st.reservations[id].expiresAt
    ensures ConfirmOne(st, id, orderId, now).result.Ok?
    ensures Consistent(ConfirmOne(st, id, orderId, now).state)
  {
    var r := st.reservations[id];
    var st' := ConfirmOne(st, id, orderId, now).state;
    var r' := r.(orderId := orderId, status := CONFIRMED);
    assert st'.reservations == st.reservations[id := r'];
    HeldCovers(st.reservations, id, r.inventory, st.nextReservationId);
    forall q | q in st'.inventories
      ensures Accounted(st', q)
    {
      assert Accounted(st, q);
      HeldUpdate(st.reservations, id, r', q, st.nextReservationId);
    }
  }

  /**
   * Confirming a RESERVED reservation after its deadline releases it (the
   * counters are corrected and the invariant kept) and then raises
   * ReservationExpired.
   */
  lemma ExpiredConfirmReleases(st: DbState, id: ReservationId, orderId: OrderId, now: int)
    requires Consistent(st) && id in st.reservations && st.reservations[id].status == RESERVED
    requires st.reservations[id].expiresAt < now
    ensures var e := ConfirmOne(st, id, orderId, now);
      && e.result == Err(ReservationExpired(id))
      && e.state == ReleaseOne(st, id, now).state
      && e.state.reservations[id].status == RELEASED
      && e.state.reservations[id].releasedAt == Some(now)
      && Consistent(e.state)
  {
    ReleaseReservedPreservesConsistent(st, id, now);
  }

  /**
   * Reserving one item and confirming the id before its deadline takes the
   * quantity out of the total and leaves the reserved counter as it was before
   * the reserve; the total stays at or above the reserved counter.
   */
  lemma ReserveThenConfirm(st: DbState, key: IdempotencyKey, orderId: OrderId, item: ReserveItem, expiresAt: int,
                           orderId': OrderId, now: int)
    requires WellFormed(st) && now <= expiresAt
    requires ReserveOne(st, key, orderId, item, expiresAt).result.Ok?
    requires ReserveOne(st, key, orderId, item, expiresAt).result.value.Some?
    ensures var inv := FindOrCreate(st.inventories, item.productId);
      var e1 := ReserveOne(st, key, orderId, item, expiresAt);
      var id := e1.result.value.value;
      var e2 := Confirm(e1.state, [id], orderId', now);
      && e2.result.Ok?
      && item.productId in e2.state.inventories && id in e2.state.reservations
      && var inv' := e2.state.inventories[item.productId];
      && inv'.totalQuantity == inv.totalQuantity - item.quantity
      && inv'.reservedQuantity == inv.reservedQuantity
      && inv'.reservedQuantity <= inv'.totalQuantity
      && e2.state.reservations[id].status == CONFIRMED
      && e2.state.reservations[id].orderId == orderId'
  {
    var e1 := ReserveOne(st, key, orderId, item, expiresAt);
    ReserveOneOutcomes(st, key, orderId, item, expiresAt);
    var id := e1.result.value.value;
    ConfirmOneOutcomes(e1.state, id, orderId', now);
    ConfirmSingleton(e1.state, id, orderId', now);
  }

  /** A one-id confirmation is that id's confirmation. */
  lemma ConfirmSingleton(st: DbState, id: ReservationId, orderId: OrderId, now: int)
    requires WellFormed(st)
    ensures var e := ConfirmOne(st, id, orderId, now);
      Confirm(st, [id], orderId, now) == match e.result
        case Ok(r) => Effect(e.state, Ok([r]))
        case Err(err) => Effect(e.state, Err(err))
  {
    var e := ConfirmOne(st, id, orderId, now);
    if e.result.Ok? {
      assert [] + [e.result.value] == [e.result.value];
      assert ConfirmFrom(e.state, [id], orderId, 1, now, [e.result.value]) == Effect(e.state, Ok([e.result.value]));
    }
  }

  /**
   * Confirming a list of distinct RESERVED reservations keeps the ledger
   * invariant however it ends: it succeeds exactly when no id is past its
   * deadline, and otherwise stops at the first expired id, which it has
   * released, with ReservationExpired.
   */
  lemma {:induction false} ConfirmFromPreservesConsistent(st: DbState, ids: seq<ReservationId>, orderId: OrderId,
                                                          i: nat, now: int, acc: seq<Reservation>)
    requires Consistent(st) && i <= |ids|
    requires forall j, k :: i <= j < k < |ids| ==> ids[j] != ids[k]
    requires forall k :: i <= k < |ids| ==> ids[k] in st.reservations && st.reservations[ids[k]].status == RESERVED
    ensures var e := ConfirmFrom(st, ids, orderId, i, now, acc);
      && Consistent(e.state)
      && (e.result.Ok? <==> forall k :: i <= k < |ids| ==> now <= st.reservations[ids[k]].expiresAt)
      && (e.result.Err? ==> e.result.error.ReservationExpired?)
    decreases |ids| - i
  {
    if i < |ids| {
      var id := ids[i];
      if st.reservations[id].expiresAt < now {
        ExpiredConfirmReleases(st, id, orderId, now);
      } else {
        var e := ConfirmOne(st, id, orderId, now);
        ConfirmOneOutcomes(st, id, orderId, now);
        ConfirmReservedPreservesConsistent(st, id, orderId, now);
        assert forall k :: i + 1 <= k < |ids| ==> ids[k] != id;
        ConfirmFromPreservesConsistent(e.state, ids, orderId, i + 1, now, acc + [e.result.value]);
      }
    }
  }

  /** The confirm call over distinct RESERVED ids keeps the ledger invariant and succeeds exactly when none has expired. */
  lemma ConfirmPreservesConsistent(st: DbState, ids: seq<ReservationId>, orderId: OrderId, now: int)
    requires Consistent(st)
    requires forall j, k :: 0 <= j < k < |ids| ==> ids[j] != ids[k]
    requires forall k :: 0 <= k < |ids| ==> ids[k] in st.reservations && st.reservations[ids[k]].status == RESERVED
    ensures Consistent(Confirm(st, ids, orderId, now).state)
    ensures Confirm(st, ids, orderId, now).result.Ok? <==> forall k :: 0 <= k < |ids| ==> now <= st.reservations[ids[k]].expiresAt
  {
    ConfirmFromPreservesConsistent(st, ids, orderId, 0, now, []);
  }

  /** The reservation service over the shared tables and the ledger service. */
  class ReservationService {
    const db: Database
    const inventoryService: InventoryService
    /** How long a new hold lasts, in the clock's minutes. */
    const reservationTimeoutMinutes: int

    /** `configuredTimeout` is the configured hold time, `None` when the setting is absent. */
    constructor (db: Database, inventoryService: InventoryService, configuredTimeout: Option<int>)
      requires inventoryService.db == db
      ensures this.db == db && this.inventoryService == inventoryService
      ensures configuredTimeout.Some? ==> reservationTimeoutMinutes == configuredTimeout.value
      ensures configuredTimeout.None? ==> reservationTimeoutMinutes == DefaultTimeoutMinutes
    {
      this.db := db;
      this.inventoryService := inventoryService;
      this.reservationTimeoutMinutes := if configuredTimeout.Some? then configuredTimeout.value else DefaultTimeoutMinutes;
    }

    /** `Ok(None)` is the null a replay returns. */
    method ReserveInventory(idempotencyKey: IdempotencyKey, orderId: OrderId, items: seq<ReserveItem>, now: int)
      returns (r: Result<Option<seq<ReservationId>>>)
      requires db.Valid() && inventoryService.db == db
      modifies db
      ensures db.Valid()
      ensures Effect(db.State(), r)
              == Reserve(old(db.State()), idempotencyKey, orderId, items, now + reservationTimeoutMinutes)
    {
      var expiresAt := now + reservationTimeoutMinutes;
      var reservations: seq<ReservationId> := [];
      var i := 0;
      while i < |items|
        invariant i <= |items|
        invariant db.Valid()
        invariant ReserveFrom(db.State(), idempotencyKey, orderId, items, i, expiresAt, reservations)
                  == Reserve(old(db.State()), idempotencyKey, orderId, items, expiresAt)
        decreases |items| - i
      {
        var step := ReserveOneItem(idempotencyKey, orderId, items[i], expiresAt);
        match step {
          case Err(e) =>
            return Err(e);
          case Ok(None) =>
            return Ok(None);
          case Ok(Some(id)) =>
            reservations := reservations + [id];
        }
        i := i + 1;
      }
      r := Ok(Some(reservations));
    }

    /** The body of reserve's loop for one item: replay check, stock check, then the hold. */
    method ReserveOneItem(idempotencyKey: IdempotencyKey, orderId: OrderId, item: ReserveItem, expiresAt: int)
      returns (r: Result<Option<ReservationId>>)
      requires db.Valid() && inventoryService.db == db
      modifies db
      ensures db.Valid()
      ensures Effect(db.State(), r) == ReserveOne(old(db.State()), idempotencyKey, orderId, item, expiresAt)
    {
      var existing := db.FindReservationByProductAndKey(item.productId, idempotencyKey);
      if existing.Some? {
        return Ok(None);
      }
      var inventory := inventoryService.FindOrCreateInventory(item.productId);
      var availableQuantity := inventory.totalQuantity - inventory.reservedQuantity;
      if availableQuantity < item.quantity {
        return Err(NotEnoughInventory(inventory.productId, item.quantity, availableQuantity));
      }
      inventory.idempotencyKey := Some(idempotencyKey);
      inventory.reservedQuantity := inventory.reservedQuantity + item.quantity;
      db.SaveInventory(inventory.Row());
      var reservation := new InventoryReservation.Build(inventory.productId, item.quantity, orderId,
                                                        idempotencyKey, expiresAt);
      var id := db.SaveNewReservation(reservation.Row());
      r := Ok(Some(id));
    }

    /** Returns the released reservations, in the order given. */
    method ReleaseReservation(reservationIds: seq<ReservationId>, now: int) returns (r: Result<seq<Reservation>>)
      requires db.Valid()
      modifies db
      ensures db.Valid()
      ensures Effect(db.State(), r) == Release(old(db.State()), reservationIds, now)
    {
      var releasedReservations: seq<Reservation> := [];
      var i := 0;
      while i < |reservationIds|
        invariant i <= |reservationIds|
        invariant db.Valid()
        invariant ReleaseFrom(db.State(), reservationIds, i, now, releasedReservations)
                  == Release(old(db.State()), reservationIds, now)
        decreases |reservationIds| - i
      {
        var step := ReleaseOneReservation(reservationIds[i], now);
        if step.Err? {
          return Err(step.error);
        }
        releasedReservations := releasedReservations + [step.value];
        i := i + 1;
      }
      r := Ok(releasedReservations);
    }

    /** The body of release's loop for one id: the entity's guard, then the counter. */
    method ReleaseOneReservation(id: ReservationId, now: int) returns (r: Result<Reservation>)
      requires db.Valid()
      modifies db
      ensures db.Valid()
      ensures Effect(db.State(), r) == ReleaseOne(old(db.State()), id, now)
    {
      ghost var before := db.State();
      if id !in db.reservations {
        return Err(ReservationNotFound(id));
      }
      var reservation := new InventoryReservation.Load(db.reservations[id]);
      var out := reservation.Release(now);
      if out.Fail? {
        assert ReleaseOne(before, id, now) == Effect(before, Err(IllegalState));
        return Err(out.error);
      }
      var inventory := new Inventory.Load(db.inventories[reservation.inventory]);
      inventory.reservedQuantity := inventory.reservedQuantity - reservation.quantity;
      db.SaveInventory(inventory.Row());
      db.SaveReservation(id, reservation.Row());
      r := Ok(reservation.Row());
      assert ReleaseOne(before, id, now) == Effect(db.State(), r);
    }

    /** Returns the confirmed reservations, in the order given. */
    method ConfirmReservation(reservationIds: seq<ReservationId>, orderId: OrderId, now: int)
      returns (r: Result<seq<Reservation>>)
      requires db.Valid()
      modifies db
      ensures db.Valid()
      ensures Effect(db.State(), r) == Confirm(old(db.State()), reservationIds, orderId, now)
    {
      var confirmedReservations: seq<Reservation> := [];
      var i := 0;
      while i < |reservationIds|
        invariant i <= |reservationIds|
        invariant db.Valid()
        invariant ConfirmFrom(db.State(), reservationIds, orderId, i, now, confirmedReservations)
                  == Confirm(old(db.State()), reservationIds, orderId, now)
        decreases |reservationIds| - i
      {
        var step := ConfirmOneReservation(reservationIds[i], orderId, now);
        if step.Err? {
          return Err(step.error);
        }
        confirmedReservations := confirmedReservations + [step.value];
        i := i + 1;
      }
      r := Ok(confirmedReservations);
    }

    /** The body of confirm's loop for one id: not found, then the deadline, then the confirmation. */
    method ConfirmOneReservation(id: ReservationId, orderId: OrderId, now: int) returns (r: Result<Reservation>)
      requires db.Valid()
      modifies db
      ensures db.Valid()
      ensures Effect(db.State(), r) == ConfirmOne(old(db.State()), id, orderId, now)
    {
      if id !in db.reservations {
        return Err(ReservationNotFound(id));
      }
      var reservation := new InventoryReservation.Load(db.reservations[id]);
      if reservation.expiresAt < now {
        ghost var before := db.State();
        var released := ReleaseReservation([id], now);
        ReleaseSingleton(before, id, now);
        if released.Err? {
          return Err(released.error);
        }
        return Err(ReservationExpired(id));
      }
      r := ConfirmLoaded(id, reservation, orderId, now);
    }

    /** The loaded reservation within its deadline: the entity's guard, then both counters. */
    method ConfirmLoaded(id: ReservationId, reservation: InventoryReservation, orderId: OrderId, now: int)
      returns (r: Result<Reservation>)
      requires db.Valid() && id in db.reservations && reservation.Row() == db.reservations[id]
      modifies db, reservation
      ensures db.Valid()
      ensures Effect(db.State(), r) == ConfirmLive(old(db.State()), id, orderId, now)
    {
      ghost var before := db.State();
      var out := reservation.Confirm(orderId);
      if out.Fail? {
        return Err(out.error);
      }
      var confirmed := reservation.Row();
      var inventory := new Inventory.Load(db.inventories[reservation.inventory]);
      inventory.totalQuantity := inventory.totalQuantity - reservation.quantity;
      inventory.reservedQuantity := inventory.reservedQuantity - reservation.quantity;
      var counted := inventory.Row();
      assert ConfirmLive(before, id, orderId, now)
             == Effect(before.(inventories := before.inventories[counted.productId := counted],
                               reservations := before.reservations[id := confirmed]), Ok(confirmed));
      db.SaveInventory(counted);
      db.SaveReservation(id, confirmed);
      r := Ok(confirmed);
    }

    method GetReservation(reservationId: ReservationId) returns (r: Result<Reservation>)
      ensures r.Ok? <==> reservationId in db.reservations
      ensures r.Ok? ==> r.value == db.reservations[reservationId]
      ensures r.Err? ==> r.error == ReservationNotFound(reservationId)
    {
      if reservationId !in db.reservations {
        return Err(ReservationNotFound(reservationId));
      }
      r := Ok(db.reservations[reservationId]);
    }
  }
}
