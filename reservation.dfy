/**
 * The reservation entity and its lifecycle: six statuses and the five guarded
 * transitions confirm, complete, release, expire and fail.
 */
module Reservations {
  import opened Types

  datatype ReservationStatus = RESERVED | CONFIRMED | COMPLETED | RELEASED | EXPIRED | FAILED

  /**
   * The value of one reservation row. The owning inventory is referenced by its
   * product id, which identifies at most one inventory. Timestamps are integers
   * on the caller's clock; `None` is a column left null.
   */
  datatype Reservation = Reservation(
    inventory: ProductId,
    quantity: int,
    status: ReservationStatus,
    orderId: OrderId,
    idempotencyKey: IdempotencyKey,
    expiresAt: int,
    completedAt: Option<int>,
    releasedAt: Option<int>,
    failedAt: Option<int>)

  datatype Transition = ConfirmFor(orderId: OrderId) | CompleteNow | ReleaseNow | ExpireNow | FailNow

  /** The lifecycle graph: RESERVED -> {CONFIRMED, RELEASED, EXPIRED}, CONFIRMED -> {COMPLETED, RELEASED}, anything -> FAILED. */
  predicate LifecycleEdge(from: ReservationStatus, to: ReservationStatus) {
    match to
    case RESERVED => false
    case CONFIRMED => from == RESERVED
    case COMPLETED => from == CONFIRMED
    case RELEASED => from == RESERVED || from == CONFIRMED
    case EXPIRED => from == RESERVED
    case FAILED => true
  }

  /** The reflexive-transitive closure of LifecycleEdge, written out as a table. */
  predicate Reaches(from: ReservationStatus, to: ReservationStatus) {
    from == to || to == FAILED
    || (from == RESERVED && to != RESERVED)
    || (from == CONFIRMED && (to == COMPLETED || to == RELEASED))
  }

  /** The part of a reservation that no transition may touch: what is held, where, under which key, until when. */
  predicate SameHold(r: Reservation, r': Reservation) {
    r'.inventory == r.inventory && r'.quantity == r.quantity
    && r'.idempotencyKey == r.idempotencyKey && r'.expiresAt == r.expiresAt
  }

  /** A status from which no transition but `fail` is accepted. */
  predicate Closed(s: ReservationStatus) {
    s == COMPLETED || s == RELEASED || s == EXPIRED
  }

  /** The status a transition leads to when its guard holds. */
  function Target(t: Transition): ReservationStatus {
    match t
    case ConfirmFor(_) => CONFIRMED
    case CompleteNow => COMPLETED
    case ReleaseNow => RELEASED
    case ExpireNow => EXPIRED
    case FailNow => FAILED
  }

  /**
   * The effect of one transition on a row, taken at time `now`: it is accepted
   * exactly when the lifecycle graph has an edge from the row's status to the
   * transition's target, and then lands on that target; a failed guard is
   * IllegalState. The entity methods below are proved to agree with it.
   */
  function Apply(r: Reservation, t: Transition, now: int): (res: Result<Reservation>)
    ensures res.Ok? <==> LifecycleEdge(r.status, Target(t))
    ensures res.Ok? ==> res.value.status == Target(t) && SameHold(r, res.value)
    ensures res.Err? ==> res.error == IllegalState && t != FailNow
  {
    match t
    case ConfirmFor(o) =>
      if r.status != RESERVED then Err(IllegalState)
      else Ok(r.(orderId := o, status := CONFIRMED))
    case CompleteNow =>
      if r.status != CONFIRMED then Err(IllegalState)
      else Ok(r.(completedAt := Some(now), status := COMPLETED))
    case ReleaseNow =>
      if r.status != RESERVED && r.status != CONFIRMED then Err(IllegalState)
      else Ok(r.(releasedAt := Some(now), status := RELEASED))
    case ExpireNow =>
      if r.status != RESERVED then Err(IllegalState)
      else Ok(r.(status := EXPIRED))
    case FailNow =>
      Ok(r.(failedAt := Some(now), status := FAILED))
  }

  /** Every edge of the lifecycle graph is taken by some transition, from any row in its source status. */
  lemma EveryEdgeIsTaken(r: Reservation, to: ReservationStatus, orderId: OrderId, now: int)
    requires LifecycleEdge(r.status, to)
    ensures exists t :: Apply(r, t, now).Ok? && Apply(r, t, now).value.status == to
  {
    var t := match to
      case CONFIRMED => ConfirmFor(orderId)
      case COMPLETED => CompleteNow
      case RELEASED => ReleaseNow
      case EXPIRED => ExpireNow
      case _ => FailNow;
    assert Apply(r, t, now).Ok? && Apply(r, t, now).value.status == to;
  }

  /** COMPLETED, RELEASED and EXPIRED reject every transition except `fail`, which leads to FAILED. */
  lemma ClosedStatusesOnlyFail(r: Reservation, t: Transition, now: int)
    requires Closed(r.status)
    ensures Apply(r, t, now).Ok? <==> t == FailNow
    ensures Apply(r, t, now).Ok? ==> Apply(r, t, now).value.status == FAILED
  {
  }

  /** One attempted transition: a rejected one leaves the row as it was. */
  function Step(r: Reservation, t: Transition, now: int): Reservation {
    match Apply(r, t, now)
    case Ok(r') => r'
    case Err(_) => r
  }

  /** A sequence of attempted transitions with the time each is made. */
  function Run(r: Reservation, steps: seq<(Transition, int)>): Reservation
    decreases |steps|
  {
    if steps == [] then r else Run(Step(r, steps[0].0, steps[0].1), steps[1..])
  }

  /** Completion and release timestamps are absent while the hold is still open. */
  predicate WellStamped(r: Reservation) {
    (r.status == RESERVED || r.status == CONFIRMED) ==> r.completedAt == None && r.releasedAt == None
  }

  /**
   * Any run of transitions moves the status only along the lifecycle graph,
   * never changes what is held, and never overwrites a completion or release
   * timestamp once it is set.
   */
  lemma {:induction false} RunFollowsLifecycle(r: Reservation, steps: seq<(Transition, int)>)
    requires WellStamped(r)
    ensures Reaches(r.status, Run(r, steps).status)
    ensures SameHold(r, Run(r, steps))
    ensures WellStamped(Run(r, steps))
    ensures r.completedAt.Some? ==> Run(r, steps).completedAt == r.completedAt
    ensures r.releasedAt.Some? ==> Run(r, steps).releasedAt == r.releasedAt
    decreases |steps|
  {
    if steps != [] {
      var r1 := Step(r, steps[0].0, steps[0].1);
      RunFollowsLifecycle(r1, steps[1..]);
    }
  }

  /** The reservation entity, whose transition methods check the status and update fields in place. */
  class InventoryReservation {
    var inventory: ProductId
    var quantity: int
    var status: ReservationStatus
    var orderId: OrderId
    var idempotencyKey: IdempotencyKey
    var expiresAt: int
    var completedAt: Option<int>
    var releasedAt: Option<int>
    var failedAt: Option<int>

    function Row(): Reservation
      reads this
    {
      Reservation(inventory, quantity, status, orderId, idempotencyKey, expiresAt,
                  completedAt, releasedAt, failedAt)
    }

    /** Materialises a stored row as an entity. */
    constructor Load(r: Reservation)
      ensures Row() == r
    {
      inventory, quantity, status, orderId := r.inventory, r.quantity, r.status, r.orderId;
      idempotencyKey, expiresAt := r.idempotencyKey, r.expiresAt;
      completedAt, releasedAt, failedAt := r.completedAt, r.releasedAt, r.failedAt;
    }

    /** The builder used by reserve: a new hold, RESERVED, with no timestamp but its deadline. */
    constructor Build(inventory: ProductId, quantity: int, orderId: OrderId,
                      idempotencyKey: IdempotencyKey, expiresAt: int)
      ensures Row() == Reservation(inventory, quantity, RESERVED, orderId, idempotencyKey,
                                   expiresAt, None, None, None)
      ensures WellStamped(Row())
    {
      this.inventory, this.quantity, this.status := inventory, quantity, RESERVED;
      this.orderId, this.idempotencyKey, this.expiresAt := orderId, idempotencyKey, expiresAt;
      completedAt, releasedAt, failedAt := None, None, None;
    }

    method Confirm(orderId: OrderId) returns (out: Outcome)
      modifies this
      ensures out.Pass? <==> old(status) == RESERVED
      ensures out.Pass? ==> Row() == old(Row()).(orderId := orderId, status := CONFIRMED)
      ensures out.Fail? ==> out.error == IllegalState && Row() == old(Row())
      ensures forall now :: Apply(old(Row()), ConfirmFor(orderId), now) == if out.Pass? then Ok(Row()) else Err(IllegalState)
    {
      if status != RESERVED {
        out := Outcome.Fail(IllegalState);
        return;
      }
      this.orderId := orderId;
      status := CONFIRMED;
      out := Pass;
    }

    method Complete(now: int) returns (out: Outcome)
      modifies this
      ensures out.Pass? <==> old(status) == CONFIRMED
      ensures out.Pass? ==> Row() == old(Row()).(completedAt := Some(now), status := COMPLETED)
      ensures out.Fail? ==> out.error == IllegalState && Row() == old(Row())
      ensures Apply(old(Row()), CompleteNow, now) == if out.Pass? then Ok(Row()) else Err(IllegalState)
    {
      if status != CONFIRMED {
        out := Outcome.Fail(IllegalState);
        return;
      }
      completedAt := Some(now);
      status := COMPLETED;
      out := Pass;
    }

    method Release(now: int) returns (out: Outcome)
      modifies this
      ensures out.Pass? <==> old(status) == RESERVED || old(status) == CONFIRMED
      ensures out.Pass? ==> Row() == old(Row()).(releasedAt := Some(now), status := RELEASED)
      ensures out.Fail? ==> out.error == IllegalState && Row() == old(Row())
      ensures Apply(old(Row()), ReleaseNow, now) == if out.Pass? then Ok(Row()) else Err(IllegalState)
    {
      if status != RESERVED && status != CONFIRMED {
        out := Outcome.Fail(IllegalState);
        return;
      }
      releasedAt := Some(now);
      status := RELEASED;
      out := Pass;
    }

    method Expire() returns (out: Outcome)
      modifies this
      ensures out.Pass? <==> old(status) == RESERVED
      ensures out.Pass? ==> Row() == old(Row()).(status := EXPIRED)
      ensures out.Fail? ==> out.error == IllegalState && Row() == old(Row())
      ensures forall now :: Apply(old(Row()), ExpireNow, now) == if out.Pass? then Ok(Row()) else Err(IllegalState)
    {
      if status != RESERVED {
        out := Outcome.Fail(IllegalState);
        return;
      }
      status := EXPIRED;
      out := Pass;
    }

    /** No guard: the reason is accepted and not stored. */
    method Fail(reason: string, now: int)
      modifies this
      ensures Row() == old(Row()).(failedAt := Some(now), status := FAILED)
      ensures Apply(old(Row()), FailNow, now) == Ok(Row())
    {
      failedAt := Some(now);
      status := FAILED;
    }
  }
}
