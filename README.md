# Inventory service: stock ledger and reservation lifecycle

This project models the stock ledger of the Mazadak inventory service.
- The ledger keeps one row per product: a total quantity, a reserved quantity, the last idempotency key and a soft-delete flag.
- Orders place time-limited holds on stock. These holds are reservations that move through the lifecycle RESERVED, CONFIRMED, COMPLETED, RELEASED, EXPIRED and FAILED.
- A scheduled job releases the holds that pass their deadline.
- A soft delete writes an `InventoryDeleted` event to an outbox table. A relay later publishes that event to a message broker.

The model is in Dafny and has these modules:

- `Types`: identifiers, the exceptions the services raise (`Error`), `Result`, and `Outcome`, the result of a void call that may throw.
- `Reservations`: the reservation row (`Reservation`) and its lifecycle as a function (`Apply`).
  - The entity class `InventoryReservation` has the guarded transitions confirm, complete, release, expire and fail. They update its fields in place.
- `Inventories`: the inventory row (`InventoryRow`) and the entity class `Inventory`, with its `reduceQuantity`.
- `Database`: the three tables as fields of a `Database` class, with the repository operations the services call.
  - It also holds the ledger invariant `Consistent`. For each product, `0 <= reserved <= total`, and the reserved counter equals the sum of the quantities of the product's RESERVED reservations (`Held`).
- `Ledger`: the inventory service. It covers find-or-create, idempotent add-stock, reduce, set-quantity, soft-delete with its outbox event, and restore.
- `Reserving`: the reservation service. It covers reserve (a batch of items under one idempotency key), release, confirm and lookup.
- `Expiration`: the expiry sweep.
- `Outbox`: the outbox relay. The broker is an oracle: the set of event ids whose send succeeds in a cycle.

Each service operation has two parts:
- a method on the service class, which loads entities, mutates them and saves them back;
- a ghost function over the whole database state, which returns the new state and what the call returned or raised (`Effect`).

Each method's `ensures` ties it to its function. The lemmas then state the service's promises about those functions:
- replays are no-ops;
- the ledger invariant is preserved;
- reserve followed by release or confirm has the expected effect;
- the sweep releases exactly the expired holds;
- published events are not resent.

Some lemmas show behaviour of the code that its design evidently does not intend. The model keeps the code's behaviour and states each consequence outright:

- `ReleaseConfirmedDoubleCounts`: releasing a CONFIRMED reservation subtracts its quantity from the reserved counter a second time. Confirm has already removed it, so the ledger invariant breaks.
- `ReduceStockBreaksHoldsBeyondAvailable`: `reduceQuantity` only checks against the total, so it can leave fewer units than are reserved.
- `ReplayMidBatchKeepsPrefix`: a retried batch with new items placed before one already reserved under the key holds and records those new items, then returns null, so the caller never learns their ids.
- `RepeatedProductLeaksHold`: when a reserve batch names a product twice, the second item finds the first one's hold under the same key. It is then treated as a replay, so the call returns null while the first hold stays on record.
- `MultiProductReserveSharesKey`: a multi-product reserve stamps the same key on several inventory rows, although that column is declared unique. The lemma describes the writes the code requests; a store that enforces the constraint would refuse them.
- `ReserveForgetsAddStockKey`: reserve overwrites the key that add-stock recorded, so a retried add-stock adds the stock twice.

The model follows the code in these places:
- `fail` is accepted from every status.
- Reserve does not look at the soft-delete flag.
- The confirm request carries only an order id, so the reservation ids are a parameter of the model's confirm.
- Existence is checked with a query on live rows (`existsByProductIdAndDeletedFalse`), which `InventoryRepository` does not declare. The model reads it as "a row exists and is not deleted".

## Model

| member | source | states |
|---|---|---|
| Reservations.Apply | src/main/java/com/mazadak/inventory_service/model/InventoryReservation.java:64-98 | a transition is accepted exactly when the lifecycle graph has an edge from the row's status to the transition's target status, and then lands on that target keeping product, quantity, key and deadline; a refusal is IllegalState, and `fail` is never refused; each entity method is proved to agree with it |
| Reservations.EveryEdgeIsTaken | src/main/java/com/mazadak/inventory_service/model/InventoryReservation.java:64-98 | every edge of the lifecycle graph is taken by some transition from any row in its source status |
| Reservations.ClosedStatusesOnlyFail | src/main/java/com/mazadak/inventory_service/model/InventoryReservation.java:64-98 | COMPLETED, RELEASED and EXPIRED accept `fail` (to FAILED) and reject every other transition |
| Reservations.RunFollowsLifecycle | src/main/java/com/mazadak/inventory_service/model/InventoryReservation.java:64-98 | any sequence of attempted transitions only reaches statuses the lifecycle allows, never changes what is held, and never overwrites a completion or release time once set |
| Reservations.InventoryReservation.Load | src/main/java/com/mazadak/inventory_service/model/InventoryReservation.java:24-59 | the loaded entity has exactly the stored row's fields |
| Reservations.InventoryReservation.Build | src/main/java/com/mazadak/inventory_service/service/Impl/InventoryReservationServiceImpl.java:83-90 | a built reservation is RESERVED with the given product, quantity, order, key and deadline and no completion, release or failure time |
| Reservations.InventoryReservation.Confirm | src/main/java/com/mazadak/inventory_service/model/InventoryReservation.java:64-70 | succeeds exactly from RESERVED, then records the order and is CONFIRMED; otherwise IllegalState and the entity is unchanged; agrees with `Apply` for the confirm transition |
| Reservations.InventoryReservation.Complete | src/main/java/com/mazadak/inventory_service/model/InventoryReservation.java:72-78 | succeeds exactly from CONFIRMED, then stamps the completion time and is COMPLETED; otherwise IllegalState and unchanged; agrees with `Apply` |
| Reservations.InventoryReservation.Release | src/main/java/com/mazadak/inventory_service/model/InventoryReservation.java:80-86 | succeeds exactly from RESERVED or CONFIRMED, then stamps the release time and is RELEASED; otherwise IllegalState and unchanged; agrees with `Apply` |
| Reservations.InventoryReservation.Expire | src/main/java/com/mazadak/inventory_service/model/InventoryReservation.java:88-93 | succeeds exactly from RESERVED, then is EXPIRED with no timestamp; otherwise IllegalState and unchanged; agrees with `Apply` |
| Reservations.InventoryReservation.Fail | src/main/java/com/mazadak/inventory_service/model/InventoryReservation.java:95-98 | from any status, stamps the failure time and is FAILED; nothing else changes and the reason is not kept; agrees with `Apply` |
| Inventories.Reduced | src/main/java/com/mazadak/inventory_service/model/Inventory.java:43-48 | a reduction is refused with IllegalArgument exactly when it exceeds the total |
| Inventories.ReducedKeepsHoldsOnlyWithinAvailable | src/main/java/com/mazadak/inventory_service/model/Inventory.java:43-48 | an accepted reduction lowers the total by the quantity and touches nothing else; the reserved amount stays covered exactly when the quantity is within what is available |
| Inventories.Inventory.constructor | src/main/java/com/mazadak/inventory_service/model/Inventory.java:26-41 | a new inventory has no stock, nothing reserved, no key and is not deleted |
| Inventories.Inventory.Load | src/main/java/com/mazadak/inventory_service/model/Inventory.java:26-41 | the loaded entity has exactly the stored row's fields |
| Inventories.Inventory.ReduceQuantity | src/main/java/com/mazadak/inventory_service/model/Inventory.java:43-48 | fails with IllegalArgument, leaving the entity unchanged, exactly when the quantity exceeds the total; otherwise only the total drops by the quantity |
| Database.OrphansRemoved | src/main/java/com/mazadak/inventory_service/model/Inventory.java:35-36 | clearing an inventory's reservation list deletes exactly the reservations of that product and keeps every other one as it was |
| Database.HeldWithoutOrphans | src/main/java/com/mazadak/inventory_service/model/Inventory.java:35-36 | after orphan removal nothing holds the product, and every other product's held amount is unchanged |
| Database.ExpiredBelowSelects | src/main/java/com/mazadak/inventory_service/repository/InventoryReservationRepository.java:17-21 | the expiry query returns exactly the RESERVED reservations whose deadline is before now, each once (listed in id order, a modelling choice) |
| Database.Database.SaveInventory | src/main/java/com/mazadak/inventory_service/service/Impl/InventoryServiceImpl.java:134 | saving an inventory writes its row under its product id and changes no other table |
| Database.Database.SaveReservation | src/main/java/com/mazadak/inventory_service/service/Impl/InventoryReservationServiceImpl.java:122 | saving a reservation writes its row under its id and changes no other table |
| Database.Database.SaveNewReservation | src/main/java/com/mazadak/inventory_service/service/Impl/InventoryReservationServiceImpl.java:92 | a new reservation gets the next fresh id, under which its row is stored |
| Database.Database.RemoveReservationsOf | src/main/java/com/mazadak/inventory_service/service/Impl/InventoryServiceImpl.java:74 | clearing the list removes the product's reservations (orphan removal) and nothing else |
| Database.Database.SaveOutboxEvent | src/main/java/com/mazadak/inventory_service/service/Impl/InventoryServiceImpl.java:129 | a saved event is appended to the outbox and nothing else changes |
| Database.Database.SaveOutboxEventAt | src/main/java/com/mazadak/inventory_service/event/publisher/OutboxPublisher.java:37 | saving an existing event replaces that one event and nothing else |
| Database.Database.FindReservationByProductAndKey | src/main/java/com/mazadak/inventory_service/repository/InventoryReservationRepository.java:22 | finds a reservation exactly when one of that product carries that key, and what it finds is one |
| Database.Database.FindByIdempotencyKey | src/main/java/com/mazadak/inventory_service/repository/InventoryRepository.java:15 | finds an inventory exactly when one carries that key, and what it finds is one |
| Database.Database.FindExpiredReservations | src/main/java/com/mazadak/inventory_service/repository/InventoryReservationRepository.java:17-21 | the scan returns the expiry query's answer, which ExpiredBelowSelects characterises |
| Ledger.AddStockIsIdempotent | src/main/java/com/mazadak/inventory_service/service/Impl/InventoryServiceImpl.java:61-86 | a second add-stock with the same key, for any product and quantity, changes nothing |
| Ledger.RestockLiveRow | src/main/java/com/mazadak/inventory_service/service/Impl/InventoryServiceImpl.java:79-82 | on a live row, add-stock adds the quantity to the total, stamps the key and leaves reservations alone |
| Ledger.RestockDeletedRow | src/main/java/com/mazadak/inventory_service/service/Impl/InventoryServiceImpl.java:71-76 | on a soft-deleted row, add-stock starts over: live, total equal to the quantity, nothing reserved, none of its reservations left, other products' holds unchanged |
| Ledger.RestockPreservesConsistent | src/main/java/com/mazadak/inventory_service/service/Impl/InventoryServiceImpl.java:69-85 | adding a non-negative quantity to a new, live or reactivated row keeps the ledger invariant |
| Ledger.ReduceStockBreaksHoldsBeyondAvailable | src/main/java/com/mazadak/inventory_service/service/Impl/InventoryServiceImpl.java:96-110 | a reduction the total covers is accepted, and the ledger stays consistent exactly when it is within what is available |
| Ledger.SoftDeleteEnqueuesOneEvent | src/main/java/com/mazadak/inventory_service/service/Impl/InventoryServiceImpl.java:114-135 | soft-delete raises the flag, appends exactly one unpublished InventoryDeleted event for the product, and keeps counters and the invariant |
| Ledger.DeleteThenRestore | src/main/java/com/mazadak/inventory_service/service/Impl/InventoryServiceImpl.java:144-150 | restoring a row that was live before soft-delete gives it back unchanged; only the outbox event remains |
| Ledger.SetQuantityKeepsHoldsCovered | src/main/java/com/mazadak/inventory_service/service/Impl/InventoryServiceImpl.java:153-175 | setting the total is refused with NotEnoughInventory(product, quantity, available), changing nothing, exactly when it is below the reserved amount; otherwise the total is the quantity and the invariant holds |
| Ledger.UnknownProductIsNotFound | src/main/java/com/mazadak/inventory_service/service/Impl/InventoryServiceImpl.java:96-175 | reduce, soft-delete, restore and set-quantity on an unknown product raise InventoryNotFound and change nothing |
| Ledger.RestoreOnlyClearsFlag | src/main/java/com/mazadak/inventory_service/service/Impl/InventoryServiceImpl.java:144-150 | restore clears the flag, changes nothing else and keeps the invariant |
| Ledger.InventoryService.FindInventoryByProductId | src/main/java/com/mazadak/inventory_service/service/Impl/InventoryServiceImpl.java:38-42 | returns the product's row when there is one, otherwise raises InventoryNotFound |
| Ledger.InventoryService.ExistsByProductId | src/main/java/com/mazadak/inventory_service/service/Impl/InventoryServiceImpl.java:138-141 | true exactly when a row exists for the product and is not soft-deleted |
| Ledger.InventoryService.FindOrCreateInventory | src/main/java/com/mazadak/inventory_service/service/Impl/InventoryServiceImpl.java:44-48 | returns the stored row as a new entity, or for an unknown product an unsaved empty one; stores nothing |
| Ledger.InventoryService.CreateNewInventory | src/main/java/com/mazadak/inventory_service/service/Impl/InventoryServiceImpl.java:50-57 | a fresh entity for the product with zero counters, no key, not deleted |
| Ledger.InventoryService.AddInventory | src/main/java/com/mazadak/inventory_service/service/Impl/InventoryServiceImpl.java:61-86 | the tables become the add-stock state; on a replay the row carrying the key is returned, otherwise the saved row |
| Ledger.InventoryService.ReduceQuantity | src/main/java/com/mazadak/inventory_service/service/Impl/InventoryServiceImpl.java:96-110 | state and result are those of the reduce specification, whose properties the Ledger lemmas prove |
| Ledger.InventoryService.DeleteInventory | src/main/java/com/mazadak/inventory_service/service/Impl/InventoryServiceImpl.java:114-135 | state and result are those of the soft-delete specification |
| Ledger.InventoryService.RestoreInventory | src/main/java/com/mazadak/inventory_service/service/Impl/InventoryServiceImpl.java:144-150 | state and result are those of the restore specification |
| Ledger.InventoryService.UpdateInventory | src/main/java/com/mazadak/inventory_service/service/Impl/InventoryServiceImpl.java:153-175 | state and result are those of the set-quantity specification |
| Ledger.FindOrCreate | src/main/java/com/mazadak/inventory_service/service/Impl/InventoryServiceImpl.java:44-57 | the stored row when the product has one, otherwise a new live row for that product with no stock, no holds and no key (the unsaved row createNewInventory builds) |
| Ledger.Restock | src/main/java/com/mazadak/inventory_service/service/Impl/InventoryServiceImpl.java:69-85 | add-stock past the replay check leaves the product live and carrying the key, and touches neither the id counter nor the outbox |
| Ledger.AddStock | src/main/java/com/mazadak/inventory_service/service/Impl/InventoryServiceImpl.java:61-86 | after add-stock the key is recorded on some inventory, which is what makes the next call with it a replay |
| Ledger.ReduceStock | src/main/java/com/mazadak/inventory_service/service/Impl/InventoryServiceImpl.java:96-110 | reduce succeeds exactly when the product exists and the quantity is within its total; a failure changes nothing |
| Ledger.SoftDelete | src/main/java/com/mazadak/inventory_service/service/Impl/InventoryServiceImpl.java:114-135 | soft-delete succeeds exactly when the product exists; a failure changes nothing |
| Ledger.Restore | src/main/java/com/mazadak/inventory_service/service/Impl/InventoryServiceImpl.java:144-150 | restore succeeds exactly when the product exists; a failure changes nothing |
| Ledger.SetQuantity | src/main/java/com/mazadak/inventory_service/service/Impl/InventoryServiceImpl.java:153-175 | set-quantity succeeds exactly when the product exists and the new total is at least what is reserved; a failure changes nothing |
| Reserving.ReleaseOne | src/main/java/com/mazadak/inventory_service/service/Impl/InventoryReservationServiceImpl.java:106-122 | releasing one reservation keeps the schema rules |
| Reserving.ConfirmOne | src/main/java/com/mazadak/inventory_service/service/Impl/InventoryReservationServiceImpl.java:137-166 | confirming one reservation keeps the schema rules |
| Reserving.ReserveOne | src/main/java/com/mazadak/inventory_service/service/Impl/InventoryReservationServiceImpl.java:52-94 | one item is a replay exactly when its product already has a reservation under the key, and anything but a new hold changes nothing |
| Reserving.ReserveFrom | src/main/java/com/mazadak/inventory_service/service/Impl/InventoryReservationServiceImpl.java:48-95 | the reserve loop from one item on; stated by ReserveFromCreates, ReserveFromStampsKey, ReserveFromPrefix and ReserveFromPreservesConsistent |
| Reserving.Reserve | src/main/java/com/mazadak/inventory_service/service/Impl/InventoryReservationServiceImpl.java:43-97 | the whole reserve call; stated by ReserveCreatesOneHoldPerItem, ReplayIsNoOp, ReplayMidBatchKeepsPrefix and ReservePreservesConsistent |
| Reserving.ReleaseFrom | src/main/java/com/mazadak/inventory_service/service/Impl/InventoryReservationServiceImpl.java:103-125 | the release loop from one id on keeps the schema rules |
| Reserving.Release | src/main/java/com/mazadak/inventory_service/service/Impl/InventoryReservationServiceImpl.java:101-127 | the release call keeps the schema rules; stated by ReleaseSingleton and ReleasePreservesConsistent |
| Reserving.ConfirmLive | src/main/java/com/mazadak/inventory_service/service/Impl/InventoryReservationServiceImpl.java:151-166 | confirming a reservation within its deadline keeps the schema rules |
| Reserving.ConfirmFrom | src/main/java/com/mazadak/inventory_service/service/Impl/InventoryReservationServiceImpl.java:135-168 | the confirm loop from one id on keeps the schema rules |
| Reserving.Confirm | src/main/java/com/mazadak/inventory_service/service/Impl/InventoryReservationServiceImpl.java:131-170 | the confirm call keeps the schema rules; stated by ConfirmSingleton and ConfirmPreservesConsistent |
| Reserving.ReserveOneOutcomes | src/main/java/com/mazadak/inventory_service/service/Impl/InventoryReservationServiceImpl.java:52-94 | one item is a replay exactly when its product already has a reservation under the key; it is refused with NotEnoughInventory(product, requested, available) exactly when not a replay and beyond what is available, changing nothing; otherwise the counter grows by the quantity, the key is stamped and a new RESERVED hold with a fresh id is recorded |
| Reserving.ReserveOnePreservesConsistent | src/main/java/com/mazadak/inventory_service/service/Impl/InventoryReservationServiceImpl.java:52-94 | reserving one item of positive quantity keeps the ledger invariant |
| Reserving.ReserveFromPreservesConsistent | src/main/java/com/mazadak/inventory_service/service/Impl/InventoryReservationServiceImpl.java:48-95 | the reserve loop from any position keeps the ledger invariant |
| Reserving.ReservePreservesConsistent | src/main/java/com/mazadak/inventory_service/service/Impl/InventoryReservationServiceImpl.java:43-97 | reserve keeps the ledger invariant however it ends |
| Reserving.ReserveFromCreates | src/main/java/com/mazadak/inventory_service/service/Impl/InventoryReservationServiceImpl.java:48-96 | a reserve loop that completes returns one new consecutive id per remaining item, each holding that item, and keeps every earlier reservation |
| Reserving.ReserveFromStampsKey | src/main/java/com/mazadak/inventory_service/service/Impl/InventoryReservationServiceImpl.java:76-80 | a completed reserve loop leaves the key on every product it reserved, and on every product that already had it |
| Reserving.ReserveCreatesOneHoldPerItem | src/main/java/com/mazadak/inventory_service/service/Impl/InventoryReservationServiceImpl.java:43-97 | a completed reserve returns exactly one fresh id per item, in order, each a RESERVED hold of that item's product and quantity under the key, and keeps all earlier reservations |
| Reserving.MultiProductReserveSharesKey | src/main/java/com/mazadak/inventory_service/service/Impl/InventoryReservationServiceImpl.java:76 | after a completed reserve of two different products, both inventory rows carry the same key |
| Reserving.ReplayIsNoOp | src/main/java/com/mazadak/inventory_service/service/Impl/InventoryReservationServiceImpl.java:52-59 | when the first item's product already has a reservation under the key, reserve returns null and changes nothing |
| Reserving.ReserveFromPrefix | src/main/java/com/mazadak/inventory_service/service/Impl/InventoryReservationServiceImpl.java:48-95 | when the items before position n all reserve, the loop runs them and then carries on from n with the state and ids they leave |
| Reserving.ReplayMidBatchKeepsPrefix | src/main/java/com/mazadak/inventory_service/service/Impl/InventoryReservationServiceImpl.java:48-59 | when item n is already reserved under the key after n new items, the call returns null while those n holds stay recorded under fresh ids |
| Reserving.ReserveTwiceIsReplay | src/main/java/com/mazadak/inventory_service/service/Impl/InventoryReservationServiceImpl.java:52-59 | after a completed reserve, a second reserve with the same key starting with one of its products returns null and changes nothing |
| Reserving.RepeatedProductLeaksHold | src/main/java/com/mazadak/inventory_service/service/Impl/InventoryReservationServiceImpl.java:48-59 | a batch naming one product twice returns null after the first item's hold is recorded and left RESERVED |
| Reserving.ReserveForgetsAddStockKey | src/main/java/com/mazadak/inventory_service/service/Impl/InventoryReservationServiceImpl.java:76 | after add-stock then reserve on the same product, the add-stock key is gone and repeating that add-stock adds the stock again |
| Reserving.ReleaseOneOutcomes | src/main/java/com/mazadak/inventory_service/service/Impl/InventoryReservationServiceImpl.java:106-122 | an unknown id raises ReservationNotFound and a status other than RESERVED or CONFIRMED raises IllegalState, both changing nothing; otherwise the reservation is RELEASED at now and its product's reserved counter drops by its quantity |
| Reserving.ReleaseReservedPreservesConsistent | src/main/java/com/mazadak/inventory_service/service/Impl/InventoryReservationServiceImpl.java:106-122 | releasing a RESERVED hold succeeds and keeps the ledger invariant |
| Reserving.ReleaseConfirmedDoubleCounts | src/main/java/com/mazadak/inventory_service/service/Impl/InventoryReservationServiceImpl.java:112-117 | releasing a CONFIRMED reservation succeeds but leaves the reserved counter below the held amount by its quantity, breaking the invariant |
| Reserving.ReleaseSingleton | src/main/java/com/mazadak/inventory_service/service/Impl/InventoryReservationServiceImpl.java:101-127 | releasing a one-id list is releasing that id, with the result wrapped in a list |
| Reserving.ReleaseFromPreservesConsistent | src/main/java/com/mazadak/inventory_service/service/Impl/InventoryReservationServiceImpl.java:103-125 | releasing distinct RESERVED ids one by one succeeds for each, returns one row per id, and keeps the ledger invariant |
| Reserving.ReleasePreservesConsistent | src/main/java/com/mazadak/inventory_service/service/Impl/InventoryReservationServiceImpl.java:101-127 | the release call over distinct RESERVED ids succeeds, returns one row per id, and keeps the ledger invariant |
| Reserving.ReserveThenRelease | src/main/java/com/mazadak/inventory_service/service/Impl/InventoryReservationServiceImpl.java:43-127 | reserving one item and releasing its id restores the inventory's counters and leaves the reservation RELEASED |
| Reserving.ConfirmOneOutcomes | src/main/java/com/mazadak/inventory_service/service/Impl/InventoryReservationServiceImpl.java:135-166 | an unknown id raises ReservationNotFound; a past deadline releases the reservation and raises ReservationExpired (or the release's error); a non-RESERVED live one raises IllegalState; otherwise it is CONFIRMED for the order and its quantity leaves both the total and the reserved counter |
| Reserving.ConfirmReservedPreservesConsistent | src/main/java/com/mazadak/inventory_service/service/Impl/InventoryReservationServiceImpl.java:151-166 | confirming a RESERVED hold within its deadline succeeds and keeps the ledger invariant |
| Reserving.ExpiredConfirmReleases | src/main/java/com/mazadak/inventory_service/service/Impl/InventoryReservationServiceImpl.java:144-148 | confirming an expired RESERVED hold raises ReservationExpired, leaves it RELEASED at now, and keeps the invariant |
| Reserving.ReserveThenConfirm | src/main/java/com/mazadak/inventory_service/service/Impl/InventoryReservationServiceImpl.java:43-170 | reserving one item and confirming its id in time lowers the total by the quantity and restores the reserved counter |
| Reserving.ConfirmSingleton | src/main/java/com/mazadak/inventory_service/service/Impl/InventoryReservationServiceImpl.java:131-170 | confirming a one-id list is confirming that id, with the result wrapped in a list |
| Reserving.ConfirmFromPreservesConsistent | src/main/java/com/mazadak/inventory_service/service/Impl/InventoryReservationServiceImpl.java:135-168 | confirming distinct RESERVED ids keeps the ledger invariant however it ends, succeeds exactly when none is past its deadline, and otherwise fails with ReservationExpired |
| Reserving.ConfirmPreservesConsistent | src/main/java/com/mazadak/inventory_service/service/Impl/InventoryReservationServiceImpl.java:131-170 | the confirm call over distinct RESERVED ids keeps the ledger invariant and succeeds exactly when none has expired |
| Reserving.ReservationService.constructor | src/main/java/com/mazadak/inventory_service/service/Impl/InventoryReservationServiceImpl.java:38-39 | the service holds the shared tables and the ledger service; the hold time is the configured one, or 15 minutes when none is configured |
| Reserving.ReservationService.ReserveInventory | src/main/java/com/mazadak/inventory_service/service/Impl/InventoryReservationServiceImpl.java:43-97 | state and result are those of the reserve specification with deadline now plus the hold time |
| Reserving.ReservationService.ReserveOneItem | src/main/java/com/mazadak/inventory_service/service/Impl/InventoryReservationServiceImpl.java:52-94 | state and result are those of the one-item reserve specification |
| Reserving.ReservationService.ReleaseReservation | src/main/java/com/mazadak/inventory_service/service/Impl/InventoryReservationServiceImpl.java:101-127 | state and result are those of the release specification, which stops at the first error |
| Reserving.ReservationService.ReleaseOneReservation | src/main/java/com/mazadak/inventory_service/service/Impl/InventoryReservationServiceImpl.java:106-124 | state and result are those of releasing one id |
| Reserving.ReservationService.ConfirmReservation | src/main/java/com/mazadak/inventory_service/service/Impl/InventoryReservationServiceImpl.java:131-170 | state and result are those of the confirm specification, which stops at the first error |
| Reserving.ReservationService.ConfirmOneReservation | src/main/java/com/mazadak/inventory_service/service/Impl/InventoryReservationServiceImpl.java:137-167 | state and result are those of confirming one id, including the release on expiry |
| Reserving.ReservationService.ConfirmLoaded | src/main/java/com/mazadak/inventory_service/service/Impl/InventoryReservationServiceImpl.java:151-166 | for a loaded reservation within its deadline, state and result are those of the entity's confirm followed by the two counter updates |
| Reserving.ReservationService.GetReservation | src/main/java/com/mazadak/inventory_service/service/Impl/InventoryReservationServiceImpl.java:173-181 | returns the stored reservation when the id exists, otherwise raises ReservationNotFound |
| Expiration.ReleaseHoldShape | src/main/java/com/mazadak/inventory_service/scheduler/ReservationExpirationScheduler.java:45 | releasing one RESERVED hold succeeds, marks that reservation RELEASED at now, lowers its product's reserved counter by its quantity, and changes no other reservation, inventory row, id counter or outbox event |
| Expiration.ReleaseHoldKeepsConsistent | src/main/java/com/mazadak/inventory_service/scheduler/ReservationExpirationScheduler.java:45 | releasing one RESERVED hold keeps the ledger invariant |
| Expiration.SweepFromReleases | src/main/java/com/mazadak/inventory_service/scheduler/ReservationExpirationScheduler.java:39-50 | releasing distinct RESERVED holds one by one fails for none, marks each RELEASED at now, and touches no other reservation, no total, no id counter and no outbox |
| Expiration.SweepFromKeepsConsistent | src/main/java/com/mazadak/inventory_service/scheduler/ReservationExpirationScheduler.java:39-50 | releasing distinct RESERVED holds one by one keeps the ledger invariant |
| Expiration.SweepStepCounters | src/main/java/com/mazadak/inventory_service/scheduler/ReservationExpirationScheduler.java:45 | one release in the sweep lowers a product's counter by what that hold held of it, and leaves the holds still to come as they were |
| Expiration.SweepFromCounters | src/main/java/com/mazadak/inventory_service/scheduler/ReservationExpirationScheduler.java:39-50 | releasing distinct RESERVED holds one by one lowers each product's reserved counter by exactly what they held of it and changes nothing else in its row |
| Expiration.SweepDropsExpiredHolds | src/main/java/com/mazadak/inventory_service/scheduler/ReservationExpirationScheduler.java:29-51 | one sweep lowers each product's reserved counter by exactly the quantities of its expired holds and changes nothing else in its row |
| Expiration.ExpiredIdsAreDistinctHolds | src/main/java/com/mazadak/inventory_service/scheduler/ReservationExpirationScheduler.java:32-35 | the selected ids are distinct RESERVED reservations and are exactly the expired ones |
| Expiration.SweepMarksExactlyTheExpired | src/main/java/com/mazadak/inventory_service/scheduler/ReservationExpirationScheduler.java:29-51 | after a sweep every expired hold is RELEASED at now, every other reservation is unchanged, no release fails, and no total moves |
| Expiration.SweepKeepsLedgerConsistent | src/main/java/com/mazadak/inventory_service/scheduler/ReservationExpirationScheduler.java:29-51 | a sweep keeps the ledger invariant |
| Expiration.ReservationExpirationScheduler.ReleaseExpiredReservations | src/main/java/com/mazadak/inventory_service/scheduler/ReservationExpirationScheduler.java:29-51 | state and logged failures are those of the sweep specification |
| Expiration.SweepFrom | src/main/java/com/mazadak/inventory_service/scheduler/ReservationExpirationScheduler.java:39-50 | the sweep loop from one id on keeps the schema rules and only appends to the list of failed ids |
| Expiration.Sweep | src/main/java/com/mazadak/inventory_service/scheduler/ReservationExpirationScheduler.java:29-51 | the whole sweep keeps the schema rules; stated by SweepMarksExactlyTheExpired, SweepDropsExpiredHolds and SweepKeepsLedgerConsistent |
| Outbox.ResolveBindingForEventType | src/main/java/com/mazadak/inventory_service/event/publisher/OutboxPublisher.java:44-49 | an event type has a binding exactly when it is InventoryDeleted |
| Outbox.PublishCycle | src/main/java/com/mazadak/inventory_service/event/publisher/OutboxPublisher.java:22-42 | a cycle keeps the outbox's length and treats each event on its own |
| Outbox.AfterCycle | src/main/java/com/mazadak/inventory_service/event/publisher/OutboxPublisher.java:33-40 | after a cycle an event is published exactly when it already was, or it was sendable and the broker accepted its send; nothing but the flag changes |
| Outbox.SentBelow | src/main/java/com/mazadak/inventory_service/event/publisher/OutboxPublisher.java:23-35 | the ids a cycle hands to the broker are among the first n events and there are at most n of them; SentBelowSelects says which |
| Outbox.SentBelowSelects | src/main/java/com/mazadak/inventory_service/event/publisher/OutboxPublisher.java:23-35 | a cycle sends exactly the unpublished events whose type has a binding, each once, in order |
| Outbox.NothingSendableSendsNothing | src/main/java/com/mazadak/inventory_service/event/publisher/OutboxPublisher.java:23-31 | with no unpublished routed event, a cycle sends nothing |
| Outbox.PublishCycles | src/main/java/com/mazadak/inventory_service/event/publisher/OutboxPublisher.java:22-42 | repeated cycles keep the outbox's length |
| Outbox.CyclePublishesAcceptedSends | src/main/java/com/mazadak/inventory_service/event/publisher/OutboxPublisher.java:25-41 | a cycle keeps every event's aggregate, type and payload, and an event ends published exactly when it was, or it is an InventoryDeleted event whose send succeeded |
| Outbox.PublishedIsNotResent | src/main/java/com/mazadak/inventory_service/event/publisher/OutboxPublisher.java:23-37 | an event sent and published in one cycle is not sent in the next |
| Outbox.CyclesNeverUnpublish | src/main/java/com/mazadak/inventory_service/event/publisher/OutboxPublisher.java:22-42 | across any cycles events keep their contents, published events stay published, and unrouted pending events are never published |
| Outbox.AcceptedCycleDrainsOutbox | src/main/java/com/mazadak/inventory_service/event/publisher/OutboxPublisher.java:22-42 | when every send succeeds, one cycle publishes every InventoryDeleted event and the next sends nothing and changes nothing |
| Outbox.DeletionReachesBroker | src/main/java/com/mazadak/inventory_service/service/Impl/InventoryServiceImpl.java:122-132 | the event a soft-delete writes is sent by the next cycle and, when the send succeeds, published with the product in its payload |
| Outbox.OutboxPublisher.PublishPendingEvents | src/main/java/com/mazadak/inventory_service/event/publisher/OutboxPublisher.java:22-42 | the outbox becomes the cycle's result, and the ids sent are the cycle's selection |

## Left out

- Transactions: `@Transactional` rollback is not modelled. A call that raises keeps the effects of the items before the failing one. So inside an expired confirm, the release is kept even though the exception would roll it back.
- Concurrency, locking and the scheduling intervals are not modelled. Every operation runs alone.
- Time: the clock is an integer parameter (`now`) on every operation that reads it, and deadlines are `now` plus the hold time in minutes.
- Ids: UUID and Long ids are opaque values compared only for equality. Database-generated reservation ids come from a counter, and an outbox event's id is its position.
- Payloads: the JSON serialisation of `InventoryDeletedEvent` is a symbolic payload. The serialisation-failure branch of delete, which logs and skips the event, is not modelled.
- Broker: the broker is an oracle, the set of event ids whose send does not throw. The binding's name, `InventoryMessagingConstants`, is not part of this model.
- Outbox query: `findByPublishedFalse` is a scan of the outbox in id order.
- Expiry query: `findExpiredReservations` has no ORDER BY and reservation ids are UUIDs, so the source promises no order. The model lists the expired ids in id order; the sweep's outcome does not depend on that order, since it releases distinct holds that do not interact.
- Unique key: the `unique = true` constraint on the inventory idempotency key column is not enforced by the model's tables. Where the schema carries it, a reserve that stamps one key on two products would fail at flush and roll back; `MultiProductReserveSharesKey` and `ReserveCreatesOneHoldPerItem` describe the writes the code requests.
- Logging, controllers, mappers, DTOs and `BaseEntity` are not modelled. `getInventory` is `FindInventoryByProductId` followed by a mapping to a DTO.
- Release and confirm take an idempotency key that they never read, so the model drops that parameter. The scheduler's random key for each release is dropped too.
- Lookups by key: when several rows carry one key, the repository would raise a "non-unique result" error. The model returns any one of them instead.
- Integers: Java's 32-bit `int` is an unbounded integer here, so counter overflow is not modelled.
- Validation: the `@Min(1)` bean validation on reservation quantities is not an operation. It is part of the ledger invariant `Consistent`, and reserve lemmas require item quantities of at least 1.
- Reservations.InventoryReservation.Expire: no service calls `expire`. The scheduler releases expired holds, so no EXPIRED row is ever produced by the services.
- Reserving.ReleaseOne: its own contract states only the schema rules. The outcomes are stated by `ReleaseOneOutcomes`.
- Reserving.ConfirmOne: its own contract states only the schema rules. The outcomes are stated by `ConfirmOneOutcomes`.
