/**
 * The persistent state the services share: the inventory, reservation and
 * outbox tables, the schema's integrity rules, and the ledger invariant that
 * ties each inventory's reserved counter to its open reservations.
 */
module Database {
  import opened Types
  import opened Reservations
  import opened Inventories

  /** The serialized body of an outbox event, kept symbolic: an InventoryDeletedEvent carries the product id. */
  datatype Payload = InventoryDeletedPayload(productId: ProductId)

  datatype OutboxEvent = OutboxEvent(aggregateType: string, eventType: string, payload: Payload, published: bool)

  /** The event written when an inventory is soft-deleted; the entity's constructor leaves it unpublished. */
  function DeletedEvent(productId: ProductId): OutboxEvent {
    OutboxEvent("Inventory", "InventoryDeleted", InventoryDeletedPayload(productId), false)
  }

  /**
   * The three tables. Inventories are found by product id; reservation ids are
   * allocated from a counter; an outbox event's id is its position.
   */
  datatype DbState = DbState(
    inventories: map<ProductId, InventoryRow>,
    reservations: map<ReservationId, Reservation>,
    nextReservationId: nat,
    outbox: seq<OutboxEvent>)

  /** The state an operation leaves behind together with what it returned or raised. */
  datatype Effect<T> = Effect(state: DbState, result: Result<T>)

  /** Schema integrity: rows are stored under their own product id, and every reservation's inventory exists. */
  ghost predicate WellFormed(st: DbState) {
    && (forall p :: p in st.inventories ==> st.inventories[p].productId == p)
    && (forall id :: id in st.reservations ==>
          id.n < st.nextReservationId && st.reservations[id].inventory in st.inventories)
  }

  /** How much of product `p` reservation `id` holds: its quantity while it is RESERVED, otherwise nothing. */
  function Holding(rs: map<ReservationId, Reservation>, id: ReservationId, p: ProductId): int {
    if id in rs && rs[id].inventory == p && rs[id].status == RESERVED then rs[id].quantity else 0
  }

  /** The total held of product `p` by the reservations with ids below `n`. */
  ghost function HeldBelow(rs: map<ReservationId, Reservation>, p: ProductId, n: nat): int
    decreases n
  {
    if n == 0 then 0 else HeldBelow(rs, p, n - 1) + Holding(rs, ReservationId(n - 1), p)
  }

  /** The quantity of product `p` under open holds: the sum over its RESERVED reservations. */
  ghost function Held(st: DbState, p: ProductId): int {
    HeldBelow(st.reservations, p, st.nextReservationId)
  }

  /** Product `p`'s counters are in range and its reserved counter equals what its reservations hold. */
  ghost predicate Accounted(st: DbState, p: ProductId)
    requires p in st.inventories
  {
    && 0 <= st.inventories[p].reservedQuantity <= st.inventories[p].totalQuantity
    && st.inventories[p].reservedQuantity == Held(st, p)
  }

  /** The ledger invariant, with the entity's @Min(1) on reservation quantities. */
  ghost predicate Consistent(st: DbState) {
    && WellFormed(st)
    && (forall id :: id in st.reservations ==> st.reservations[id].quantity >= 1)
    && (forall p :: p in st.inventories ==> Accounted(st, p))
  }

  /** Changing reservations at ids n and above does not change the sum below n. */
  lemma {:induction false} HeldFrame(rs: map<ReservationId, Reservation>, rs': map<ReservationId, Reservation>,
                                     p: ProductId, n: nat)
    requires forall i: nat :: i < n ==> Holding(rs, ReservationId(i), p) == Holding(rs', ReservationId(i), p)
    ensures HeldBelow(rs, p, n) == HeldBelow(rs', p, n)
    decreases n
  {
    if n > 0 {
      HeldFrame(rs, rs', p, n - 1);
    }
  }

  /** Replacing one reservation changes the sum by the difference of its two holdings. */
  lemma {:induction false} HeldUpdate(rs: map<ReservationId, Reservation>, id: ReservationId, r: Reservation,
                                      p: ProductId, n: nat)
    requires id.n < n
    ensures HeldBelow(rs[id := r], p, n) == HeldBelow(rs, p, n) - Holding(rs, id, p) + Holding(rs[id := r], id, p)
    decreases n
  {
    if id.n < n - 1 {
      HeldUpdate(rs, id, r, p, n - 1);
    } else {
      HeldFrame(rs, rs[id := r], p, n - 1);
    }
  }

  /** With non-negative quantities, every holding is part of the sum. */
  lemma {:induction false} HeldCovers(rs: map<ReservationId, Reservation>, id: ReservationId, p: ProductId, n: nat)
    requires forall i :: i in rs ==> rs[i].quantity >= 0
    requires id.n < n
    ensures 0 <= Holding(rs, id, p) <= HeldBelow(rs, p, n)
    decreases n
  {
    HeldNonNegative(rs, p, n - 1);
    if id.n < n - 1 {
      HeldCovers(rs, id, p, n - 1);
    }
  }

  lemma {:induction false} HeldNonNegative(rs: map<ReservationId, Reservation>, p: ProductId, n: nat)
    requires forall i :: i in rs ==> rs[i].quantity >= 0
    ensures HeldBelow(rs, p, n) >= 0
    decreases n
  {
    if n > 0 {
      HeldNonNegative(rs, p, n - 1);
    }
  }

  /** The reservation table after an inventory's reservation list is cleared with orphan removal. */
  function OrphansRemoved(rs: map<ReservationId, Reservation>, p: ProductId): (rs': map<ReservationId, Reservation>)
    ensures forall id :: id in rs' <==> id in rs && rs[id].inventory != p
    ensures forall id :: id in rs' ==> rs'[id] == rs[id]
  {
    map id | id in rs && rs[id].inventory != p :: rs[id]
  }

  /** After orphan removal nothing holds product `p`, and every other product's holds are as before. */
  lemma {:induction false} HeldWithoutOrphans(rs: map<ReservationId, Reservation>, p: ProductId, q: ProductId, n: nat)
    ensures HeldBelow(OrphansRemoved(rs, p), q, n) == if q == p then 0 else HeldBelow(rs, q, n)
    decreases n
  {
    if n > 0 {
      HeldWithoutOrphans(rs, p, q, n - 1);
    }
  }

  /** The lookup by (inventory product id, idempotency key) that reserve uses to detect a replay. */
  predicate HasReservationFor(rs: map<ReservationId, Reservation>, p: ProductId, key: IdempotencyKey) {
    exists id :: id in rs && rs[id].inventory == p && rs[id].idempotencyKey == key
  }

  /** The lookup by idempotency key that add-stock uses to detect a replay. */
  predicate KeyRecorded(inventories: map<ProductId, InventoryRow>, key: IdempotencyKey) {
    exists p :: p in inventories && inventories[p].idempotencyKey == Some(key)
  }

  /** The expiry query's filter. */
  predicate IsExpired(r: Reservation, now: int) {
    r.status == RESERVED && r.expiresAt < now
  }

  /** The expiry query's answer over the ids below `n`, in id order. */
  function ExpiredBelow(rs: map<ReservationId, Reservation>, now: int, n: nat): seq<ReservationId>
    decreases n
  {
    if n == 0 then []
    else
      var id := ReservationId(n - 1);
      ExpiredBelow(rs, now, n - 1) + if id in rs && IsExpired(rs[id], now) then [id] else []
  }

  /** The query selects exactly the expired RESERVED rows below `n`, each once, in ascending id order. */
  lemma {:induction false} ExpiredBelowSelects(rs: map<ReservationId, Reservation>, now: int, n: nat)
    ensures var ids := ExpiredBelow(rs, now, n);
      && (forall id :: id in ids <==> id in rs && IsExpired(rs[id], now) && id.n < n)
      && (forall j, k :: 0 <= j < k < |ids| ==> ids[j].n < ids[k].n)
      && (forall j :: 0 <= j < |ids| ==> ids[j].n < n)
    decreases n
  {
    if n > 0 {
      ExpiredBelowSelects(rs, now, n - 1);
    }
  }

  /** The tables, with repository operations over them. */
  class Database {
    var inventories: map<ProductId, InventoryRow>
    var reservations: map<ReservationId, Reservation>
    var nextReservationId: nat
    var outbox: seq<OutboxEvent>

    function State(): DbState
      reads this
    {
      DbState(inventories, reservations, nextReservationId, outbox)
    }

    ghost predicate Valid()
      reads this
    {
      WellFormed(State())
    }

    constructor ()
      ensures State() == DbState(map[], map[], 0, [])
      ensures Valid() && Consistent(State())
    {
      inventories, reservations, nextReservationId, outbox := map[], map[], 0, [];
    }

    /** Saves an inventory row under its product id. */
    method SaveInventory(row: InventoryRow)
      modifies this
      ensures State() == old(State()).(inventories := old(inventories)[row.productId := row])
    {
      inventories := inventories[row.productId := row];
    }

    /** Saves an existing reservation row back under its id. */
    method SaveReservation(id: ReservationId, r: Reservation)
      modifies this
      ensures State() == old(State()).(reservations := old(reservations)[id := r])
    {
      reservations := reservations[id := r];
    }

    /** Saves a new reservation row under a freshly generated id. */
    method SaveNewReservation(r: Reservation) returns (id: ReservationId)
      modifies this
      ensures id == ReservationId(old(nextReservationId))
      ensures State() == old(State()).(reservations := old(reservations)[id := r],
                                       nextReservationId := old(nextReservationId) + 1)
    {
      id := ReservationId(nextReservationId);
      reservations := reservations[id := r];
      nextReservationId := nextReservationId + 1;
    }

    /** Deletes the reservations of one inventory, as orphan removal does when its list is cleared. */
    method RemoveReservationsOf(p: ProductId)
      modifies this
      ensures State() == old(State()).(reservations := OrphansRemoved(old(reservations), p))
    {
      reservations := map id | id in reservations && reservations[id].inventory != p :: reservations[id];
    }

    method SaveOutboxEvent(e: OutboxEvent)
      modifies this
      ensures State() == old(State()).(outbox := old(outbox) + [e])
    {
      outbox := outbox + [e];
    }

    /** Marks the outbox event at position `i` as saved with new contents. */
    method SaveOutboxEventAt(i: nat, e: OutboxEvent)
      requires i < |outbox|
      modifies this
      ensures State() == old(State()).(outbox := old(outbox)[i := e])
    {
      outbox := outbox[i := e];
    }

    /** The reservation of a product made under an idempotency key, if there is one. */
    method FindReservationByProductAndKey(p: ProductId, key: IdempotencyKey) returns (found: Option<Reservation>)
      ensures found.Some? <==> HasReservationFor(reservations, p, key)
      ensures found.Some? ==> found.value in reservations.Values
                              && found.value.inventory == p && found.value.idempotencyKey == key
    {
      if HasReservationFor(reservations, p, key) {
        var id :| id in reservations && reservations[id].inventory == p && reservations[id].idempotencyKey == key;
        found := Some(reservations[id]);
      } else {
        found := None;
      }
    }

    /** The inventory carrying an idempotency key, if any does. */
    method FindByIdempotencyKey(key: IdempotencyKey) returns (found: Option<InventoryRow>)
      ensures found.Some? <==> KeyRecorded(inventories, key)
      ensures found.Some? ==> found.value in inventories.Values && found.value.idempotencyKey == Some(key)
    {
      if KeyRecorded(inventories, key) {
        var p :| p in inventories && inventories[p].idempotencyKey == Some(key);
        found := Some(inventories[p]);
      } else {
        found := None;
      }
    }

    /** The ids of the RESERVED reservations whose deadline is before `now`, in id order. */
    method FindExpiredReservations(now: int) returns (ids: seq<ReservationId>)
      requires Valid()
      ensures ids == ExpiredBelow(reservations, now, nextReservationId)
    {
      ids := [];
      var n := 0;
      while n < nextReservationId
        invariant n <= nextReservationId
        invariant ids == ExpiredBelow(reservations, now, n)
      {
        var id := ReservationId(n);
        if id in reservations && IsExpired(reservations[id], now) {
          ids := ids + [id];
        }
        n := n + 1;
      }
    }
  }
}
