/** Identifiers, error taxonomy and result wrappers shared by the inventory service model. */
module Types {

  /** Opaque identifiers: the service only ever compares them for equality. */
  type ProductId(==)
  type OrderId(==)
  type IdempotencyKey(==)

  /** Reservation ids are generated by the store when a reservation row is first saved. */
  datatype ReservationId = ReservationId(n: nat)

  datatype Option<+T> = None | Some(value: T)

  /** The exceptions the core raises, one constructor per exception class. */
  datatype Error =
    | InventoryNotFound(productId: ProductId)
    | NotEnoughInventory(productId: ProductId, requested: int, available: int)
    | ReservationNotFound(reservationId: ReservationId)
    | ReservationExpired(reservationId: ReservationId)
    /** IllegalStateException from a reservation transition whose guard fails */
    | IllegalState
    /** IllegalArgumentException from Inventory.reduceQuantity */
    | IllegalArgument

  datatype Result<+T> = Ok(value: T) | Err(error: Error)

  /** A void operation that either returns or throws. */
  datatype Outcome = Pass | Fail(error: Error)
}
