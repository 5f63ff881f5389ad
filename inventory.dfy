/** The inventory entity: per-product stock counters, the last idempotency key, and the soft-delete flag. */
module Inventories {
  import opened Types

  /**
   * The value of one inventory row. The entity's list of reservations is not
   * stored here: a reservation names its inventory, so the list is the set of
   * reservation rows that point at this product.
   */
  datatype InventoryRow = InventoryRow(
    productId: ProductId,
    totalQuantity: int,
    reservedQuantity: int,
    idempotencyKey: Option<IdempotencyKey>,
    deleted: bool)
  {
    function Available(): int { totalQuantity - reservedQuantity }
  }

  /** `reduceQuantity` on a row: refuses to take more than the total, and looks at nothing else. */
  function Reduced(row: InventoryRow, quantity: int): (res: Result<InventoryRow>)
    ensures res.Err? <==> quantity > row.totalQuantity
    ensures res.Err? ==> res.error == IllegalArgument
  {
    if quantity > row.totalQuantity then Err(IllegalArgument)
    else Ok(row.(totalQuantity := row.totalQuantity - quantity))
  }

  /**
   * A successful reduction lowers the total by exactly the quantity, keeps the
   * total non-negative, and leaves the reservation counter, the key and the
   * delete flag alone; the holds stay covered exactly when the quantity does not
   * exceed what is available, so any larger reduction breaks `reserved <= total`.
   */
  lemma ReducedKeepsHoldsOnlyWithinAvailable(row: InventoryRow, quantity: int)
    requires 0 <= quantity <= row.totalQuantity
    ensures Reduced(row, quantity).Ok?
    ensures Reduced(row, quantity).value.totalQuantity == row.totalQuantity - quantity >= 0
    ensures Reduced(row, quantity).value.reservedQuantity == row.reservedQuantity
    ensures Reduced(row, quantity).value.idempotencyKey == row.idempotencyKey
    ensures Reduced(row, quantity).value.deleted == row.deleted
    ensures Reduced(row, quantity).value.reservedQuantity <= Reduced(row, quantity).value.totalQuantity
            <==> quantity <= row.Available()
  {
  }

  /** The entity, updated in place through its fields and `reduceQuantity`. */
  class Inventory {
    var productId: ProductId
    var totalQuantity: int
    var reservedQuantity: int
    var idempotencyKey: Option<IdempotencyKey>
    var deleted: bool

    function Row(): InventoryRow
      reads this
    {
      InventoryRow(productId, totalQuantity, reservedQuantity, idempotencyKey, deleted)
    }

    /** A new entity for a product: no stock, no holds, no key, not deleted. */
    constructor (productId: ProductId)
      ensures Row() == InventoryRow(productId, 0, 0, None, false)
      ensures Row().Available() == 0
    {
      this.productId := productId;
      totalQuantity, reservedQuantity := 0, 0;
      idempotencyKey, deleted := None, false;
    }

    /** Materialises a stored row as an entity. */
    constructor Load(row: InventoryRow)
      ensures Row() == row
    {
      productId, totalQuantity, reservedQuantity := row.productId, row.totalQuantity, row.reservedQuantity;
      idempotencyKey, deleted := row.idempotencyKey, row.deleted;
    }

    method ReduceQuantity(quantity: int) returns (out: Outcome)
      modifies this
      ensures out.Fail? <==> quantity > old(totalQuantity)
      ensures out.Fail? ==> out.error == IllegalArgument && Row() == old(Row())
      ensures out.Pass? ==> Row() == old(Row()).(totalQuantity := old(totalQuantity) - quantity)
      ensures Reduced(old(Row()), quantity) == if out.Pass? then Ok(Row()) else Err(out.error)
    {
      if quantity > totalQuantity {
        return Fail(IllegalArgument);
      }
      totalQuantity := totalQuantity - quantity;
      out := Pass;
    }
  }
}
