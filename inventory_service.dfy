/**
 * The inventory ledger: find-or-create, idempotent add-stock with reactivation
 * of a soft-deleted row, reduce, set-quantity, soft-delete with an outbox
 * event, and restore.
 */
module Ledger {
  import opened Types
  import opened Reservations
  import opened Inventories
  import opened Database

  /** The stored row for a product, or the unsaved row createNewInventory builds for it. */
  function FindOrCreate(inventories: map<ProductId, InventoryRow>, p: ProductId): (row: InventoryRow)
    ensures p in inventories ==> row == inventories[p]
    ensures p !in inventories ==> row.productId == p && row.totalQuantity == 0 && row.reservedQuantity == 0
                                  && row.idempotencyKey.None? && !row.deleted
  {
    if p in inventories then inventories[p] else InventoryRow(p, 0, 0, None, false)
  }

  /** Add-stock past the replay check: reactivate a deleted row, then add and stamp the key. */
  ghost function Restock(st: DbState, key: IdempotencyKey, p: ProductId, quantity: int): (st': DbState)
    ensures p in st'.inventories && st'.inventories[p].idempotencyKey == Some(key) && !st'.inventories[p].deleted
    ensures st'.nextReservationId == st.nextReservationId && st'.outbox == st.outbox
  {
    var found := FindOrCreate(st.inventories, p);
    var live := if found.deleted then found.(deleted := false, totalQuantity := 0, reservedQuantity := 0) else found;
    var reservations := if found.deleted then OrphansRemoved(st.reservations, p) else st.reservations;
    st.(inventories := st.inventories[p := live.(totalQuantity := live.totalQuantity + quantity,
                                                 idempotencyKey := Some(key))],
        reservations := reservations)
  }

  /** Add-stock: a key already recorded on any inventory makes the call a replay that changes nothing. */
  ghost function AddStock(st: DbState, key: IdempotencyKey, p: ProductId, quantity: int): (st': DbState)
    ensures KeyRecorded(st'.inventories, key)
  {
    if KeyRecorded(st.inventories, key) then st else Restock(st, key, p, quantity)
  }

  ghost function ReduceStock(st: DbState, p: ProductId, quantity: int): (e: Effect<InventoryRow>)
    ensures e.result.Ok? <==> p in st.inventories && quantity <= st.inventories[p].totalQuantity
    ensures e.result.Err? ==> e.state == st
  {
    if p !in st.inventories then Effect(st, Err(InventoryNotFound(p)))
    else match Reduced(st.inventories[p], quantity)
      case Err(e) => Effect(st, Err(e))
      case Ok(row) => Effect(st.(inventories := st.inventories[p := row]), Ok(row))
  }

  ghost function SoftDelete(st: DbState, p: ProductId): (e: Effect<()>)
    ensures e.result.Ok? <==> p in st.inventories
    ensures e.result.Err? ==> e.state == st
  {
    if p !in st.inventories then Effect(st, Err(InventoryNotFound(p)))
    else Effect(st.(inventories := st.inventories[p := st.inventories[p].(deleted := true)],
                    outbox := st.outbox + [DeletedEvent(p)]), Ok(()))
  }

  ghost function Restore(st: DbState, p: ProductId): (e: Effect<()>)
    ensures e.result.Ok? <==> p in st.inventories
    ensures e.result.Err? ==> e.state == st
  {
    if p !in st.inventories then Effect(st, Err(InventoryNotFound(p)))
    else Effect(st.(inventories := st.inventories[p := st.inventories[p].(deleted := false)]), Ok(()))
  }

  ghost function SetQuantity(st: DbState, p: ProductId, quantity: int): (e: Effect<InventoryRow>)
    ensures e.result.Ok? <==> p in st.inventories && quantity >= st.inventories[p].reservedQuantity
    ensures e.result.Err? ==> e.state == st
  {
    if p !in st.inventories then Effect(st, Err(InventoryNotFound(p)))
    else
      var row := st.inventories[p];
      if quantity < row.reservedQuantity then
        Effect(st, Err(NotEnoughInventory(row.productId, quantity, row.Available())))
      else
        Effect(st.(inventories := st.inventories[p := row.(totalQuantity := quantity)]), Ok(row.(totalQuantity := quantity)))
  }

  /** A product no inventory row names is held by no reservation. */
  lemma {:induction false} HeldByNone(rs: map<ReservationId, Reservation>, p: ProductId, n: nat)
    requires forall id :: id in rs ==> rs[id].inventory != p
    ensures HeldBelow(rs, p, n) == 0
    decreases n
  {
    if n > 0 {
      HeldByNone(rs, p, n - 1);
    }
  }

  /** Replaying add-stock with the same key, for any product and quantity, changes nothing. */
  lemma AddStockIsIdempotent(st: DbState, key: IdempotencyKey, p: ProductId, quantity: int,
                             p': ProductId, quantity': int)
    ensures AddStock(AddStock(st, key, p, quantity), key, p', quantity') == AddStock(st, key, p, quantity)
  {
    if !KeyRecorded(st.inventories, key) {
      var st' := Restock(st, key, p, quantity);
      assert p in st'.inventories && st'.inventories[p].idempotencyKey == Some(key);
    }
  }

  /** On a live row, add-stock adds the quantity, stamps the key, and leaves reservations alone. */
  lemma RestockLiveRow(st: DbState, key: IdempotencyKey, p: ProductId, quantity: int)
    requires p in st.inventories && !st.inventories[p].deleted
    ensures var st' := Restock(st, key, p, quantity);
      && st'.inventories[p] == st.inventories[p].(totalQuantity := st.inventories[p].totalQuantity + quantity,
                                                  idempotencyKey := Some(key))
      && st'.reservations == st.reservations
  {
  }

  /**
   * On a soft-deleted row, add-stock starts over: the row is live again with
   * total equal to the quantity added, nothing reserved, and no reservation of
   * the product left; other products' reservations are kept.
   */
  lemma RestockDeletedRow(st: DbState, key: IdempotencyKey, p: ProductId, quantity: int)
    requires p in st.inventories && st.inventories[p].deleted
    ensures var st' := Restock(st, key, p, quantity);
      && st'.inventories[p] == InventoryRow(st.inventories[p].productId, quantity, 0, Some(key), false)
      && Held(st', p) == 0
      && (forall id :: id in st'.reservations ==> st'.reservations[id].inventory != p)
      && (forall q :: q != p ==> Held(st', q) == Held(st, q))
  {
    var st' := Restock(st, key, p, quantity);
    HeldWithoutOrphans(st.reservations, p, p, st.nextReservationId);
    forall q | q != p
      ensures Held(st', q) == Held(st, q)
    {
      HeldWithoutOrphans(st.reservations, p, q, st.nextReservationId);
    }
  }

  /** Adding a non-negative quantity keeps the ledger invariant, whether the row is new, live or reactivated. */
  lemma RestockPreservesConsistent(st: DbState, key: IdempotencyKey, p: ProductId, quantity: int)
    requires Consistent(st) && quantity >= 0
    ensures Consistent(Restock(st, key, p, quantity))
  {
    var st' := Restock(st, key, p, quantity);
    if p !in st.inventories {
      HeldByNone(st.reservations, p, st.nextReservationId);
      assert Held(st', p) == 0;
    } else if st.inventories[p].deleted {
      RestockDeletedRow(st, key, p, quantity);
    }
    forall q | q in st'.inventories
      ensures Accounted(st', q)
    {
      if q != p {
        assert Accounted(st, q);
        if p in st.inventories && st.inventories[p].deleted {
          RestockDeletedRow(st, key, p, quantity);
        }
      } else if p in st.inventories && !st.inventories[p].deleted {
        assert Accounted(st, p);
      }
    }
  }

  /**
   * Reducing stock on a consistent ledger keeps it consistent exactly when the
   * quantity is within what is available; a larger quantity that the total
   * still covers is accepted and leaves fewer units than are reserved.
   */
  lemma ReduceStockBreaksHoldsBeyondAvailable(st: DbState, p: ProductId, quantity: int)
    requires Consistent(st) && p in st.inventories && 0 <= quantity <= st.inventories[p].totalQuantity
    ensures ReduceStock(st, p, quantity).result.Ok?
    ensures Consistent(ReduceStock(st, p, quantity).state) <==> quantity <= st.inventories[p].Available()
  {
    var st' := ReduceStock(st, p, quantity).state;
    assert Accounted(st, p);
    assert Held(st', p) == Held(st, p);
    if quantity <= st.inventories[p].Available() {
      forall q | q in st'.inventories
        ensures Accounted(st', q)
      {
        if q != p {
          assert Accounted(st, q);
        }
      }
    } else {
      assert !Accounted(st', p);
    }
  }

  /**
   * Soft-delete raises the flag, appends exactly one unpublished
   * InventoryDeleted event for the product, and leaves the counters and the
   * ledger invariant as they were.
   */
  lemma SoftDeleteEnqueuesOneEvent(st: DbState, p: ProductId)
    requires Consistent(st) && p in st.inventories
    ensures var e := SoftDelete(st, p);
      && e.result == Ok(())
      && e.state.inventories[p] == st.inventories[p].(deleted := true)
      && |e.state.outbox| == |st.outbox| + 1 && e.state.outbox[..|st.outbox|] == st.outbox
      && e.state.outbox[|st.outbox|].aggregateType == "Inventory"
      && e.state.outbox[|st.outbox|].eventType == "InventoryDeleted"
      && e.state.outbox[|st.outbox|].payload == InventoryDeletedPayload(p)
      && !e.state.outbox[|st.outbox|].published
      && Consistent(e.state)
  {
    var st' := SoftDelete(st, p).state;
    forall q | q in st'.inventories
      ensures Accounted(st', q)
    {
      assert Accounted(st, q);
    }
  }

  /** Restoring a row that soft-delete flagged gives back the original row; only the outbox event remains. */
  lemma DeleteThenRestore(st: DbState, p: ProductId)
    requires p in st.inventories && !st.inventories[p].deleted
    ensures Restore(SoftDelete(st, p).state, p) == Effect(st.(outbox := st.outbox + [DeletedEvent(p)]), Ok(()))
  {
    assert st.inventories[p := st.inventories[p].(deleted := true)][p := st.inventories[p]] == st.inventories;
  }

  /** Setting the total is refused exactly when it would go below the reserved amount; otherwise the invariant holds after it. */
  lemma SetQuantityKeepsHoldsCovered(st: DbState, p: ProductId, quantity: int)
    requires Consistent(st) && p in st.inventories
    ensures SetQuantity(st, p, quantity).result.Err? <==> quantity < st.inventories[p].reservedQuantity
    ensures SetQuantity(st, p, quantity).result.Err? ==>
      SetQuantity(st, p, quantity).state == st
      && SetQuantity(st, p, quantity).result.error
         == NotEnoughInventory(p, quantity, st.inventories[p].totalQuantity - st.inventories[p].reservedQuantity)
    ensures SetQuantity(st, p, quantity).result.Ok? ==>
      SetQuantity(st, p, quantity).state.inventories[p].totalQuantity == quantity
      && Consistent(SetQuantity(st, p, quantity).state)
  {
    var st' := SetQuantity(st, p, quantity).state;
    assert Accounted(st, p);
    forall q | q in st'.inventories
      ensures Accounted(st', q)
    {
      assert Accounted(st, q);
    }
  }

  /** Reduce, soft-delete, restore and set-quantity on an unknown product raise InventoryNotFound and change nothing. */
  lemma UnknownProductIsNotFound(st: DbState, p: ProductId, quantity: int)
    requires p !in st.inventories
    ensures ReduceStock(st, p, quantity) == Effect(st, Err(InventoryNotFound(p)))
    ensures SoftDelete(st, p) == Effect(st, Err(InventoryNotFound(p)))
    ensures Restore(st, p) == Effect(st, Err(InventoryNotFound(p)))
    ensures SetQuantity(st, p, quantity) == Effect(st, Err(InventoryNotFound(p)))
  {
  }

  /** Restore clears the flag and changes nothing else. */
  lemma RestoreOnlyClearsFlag(st: DbState, p: ProductId)
    requires Consistent(st) && p in st.inventories
    ensures Restore(st, p).result == Ok(())
    ensures Restore(st, p).state == st.(inventories := st.inventories[p := st.inventories[p].(deleted := false)])
    ensures Consistent(Restore(st, p).state)
  {
    var st' := Restore(st, p).state;
    forall q | q in st'.inventories
      ensures Accounted(st', q)
    {
      assert Accounted(st, q);
    }
  }

  /** The ledger service over the shared tables. */
  class InventoryService {
    const db: Database

    constructor (db: Database)
      ensures this.db == db
    {
      this.db := db;
    }

    method FindInventoryByProductId(productId: ProductId) returns (r: Result<InventoryRow>)
      ensures r.Ok? <==> productId in db.inventories
      ensures r.Ok? ==> r.value == db.inventories[productId]
      ensures r.Err? ==> r.error == InventoryNotFound(productId)
    {
      if productId !in db.inventories {
        return Err(InventoryNotFound(productId));
      }
      r := Ok(db.inventories[productId]);
    }

    /** Whether a live (not soft-deleted) inventory exists for the product. */
    method ExistsByProductId(productId: ProductId) returns (b: bool)
      ensures b <==> productId in db.inventories && !db.inventories[productId].deleted
    {
      b := productId in db.inventories && !db.inventories[productId].deleted;
    }

    /** Loads the product's row as an entity, or builds an unsaved one with zero counters; stores nothing. */
    method FindOrCreateInventory(productId: ProductId) returns (inventory: Inventory)
      ensures fresh(inventory)
      ensures inventory.Row() == FindOrCreate(db.inventories, productId)
      ensures productId !in db.inventories ==>
        inventory.Row() == InventoryRow(productId, 0, 0, None, false)
    {
      if productId in db.inventories {
        inventory := new Inventory.Load(db.inventories[productId]);
      } else {
        inventory := CreateNewInventory(productId);
      }
    }

    method CreateNewInventory(productId: ProductId) returns (inventory: Inventory)
      ensures fresh(inventory)
      ensures inventory.Row() == InventoryRow(productId, 0, 0, None, false)
    {
      inventory := new Inventory(productId);
      inventory.totalQuantity := 0;
      inventory.reservedQuantity := 0;
    }

    /** Returns the row carrying the key on a replay, otherwise the row after the addition. */
    method AddInventory(idempotencyKey: IdempotencyKey, productId: ProductId, quantity: int) returns (dto: InventoryRow)
      requires db.Valid()
      modifies db
      ensures db.Valid()
      ensures db.State() == AddStock(old(db.State()), idempotencyKey, productId, quantity)
      ensures KeyRecorded(old(db.inventories), idempotencyKey) ==>
        dto in db.inventories.Values && dto.idempotencyKey == Some(idempotencyKey)
      ensures !KeyRecorded(old(db.inventories), idempotencyKey) ==> dto == db.inventories[productId]
    {
      var existing := db.FindByIdempotencyKey(idempotencyKey);
      if existing.Some? {
        return existing.value;
      }
      var inventory := FindOrCreateInventory(productId);
      if inventory.deleted {
        inventory.deleted := false;
        inventory.totalQuantity := 0;
        db.RemoveReservationsOf(productId);
        inventory.reservedQuantity := 0;
      }
      inventory.totalQuantity := inventory.totalQuantity + quantity;
      inventory.idempotencyKey := Some(idempotencyKey);
      db.SaveInventory(inventory.Row());
      dto := inventory.Row();
    }

    method ReduceQuantity(productId: ProductId, quantity: int) returns (r: Result<InventoryRow>)
      requires db.Valid()
      modifies db
      ensures db.Valid()
      ensures Effect(db.State(), r) == ReduceStock(old(db.State()), productId, quantity)
    {
      if productId !in db.inventories {
        return Err(InventoryNotFound(productId));
      }
      var inventory := new Inventory.Load(db.inventories[productId]);
      var out := inventory.ReduceQuantity(quantity);
      if out.Fail? {
        return Err(out.error);
      }
      db.SaveInventory(inventory.Row());
      r := Ok(inventory.Row());
    }

    method DeleteInventory(productId: ProductId) returns (r: Result<()>)
      requires db.Valid()
      modifies db
      ensures db.Valid()
      ensures Effect(db.State(), r) == SoftDelete(old(db.State()), productId)
    {
      if productId !in db.inventories {
        return Err(InventoryNotFound(productId));
      }
      var inventory := new Inventory.Load(db.inventories[productId]);
      inventory.deleted := true;
      db.SaveOutboxEvent(DeletedEvent(productId));
      db.SaveInventory(inventory.Row());
      r := Ok(());
    }

    method RestoreInventory(productId: ProductId) returns (r: Result<()>)
      requires db.Valid()
      modifies db
      ensures db.Valid()
      ensures Effect(db.State(), r) == Restore(old(db.State()), productId)
    {
      if productId !in db.inventories {
        return Err(InventoryNotFound(productId));
      }
      var inventory := new Inventory.Load(db.inventories[productId]);
      inventory.deleted := false;
      db.SaveInventory(inventory.Row());
      r := Ok(());
    }

    method UpdateInventory(productId: ProductId, quantity: int) returns (r: Result<InventoryRow>)
      requires db.Valid()
      modifies db
      ensures db.Valid()
      ensures Effect(db.State(), r) == SetQuantity(old(db.State()), productId, quantity)
    {
      if productId !in db.inventories {
        return Err(InventoryNotFound(productId));
      }
      var inventory := new Inventory.Load(db.inventories[productId]);
      var availableQuantity := inventory.totalQuantity - inventory.reservedQuantity;
      if quantity < inventory.reservedQuantity {
        return Err(NotEnoughInventory(inventory.productId, quantity, availableQuantity));
      }
      inventory.totalQuantity := quantity;
      db.SaveInventory(inventory.Row());
      r := Ok(inventory.Row());
    }
  }
}
