/**
 * The outbox relay: every cycle it walks the unpublished events, sends each
 * one whose type has a broker binding, and marks it published when the send
 * is accepted. The broker is an oracle: the set of event ids whose send it
 * accepts in this cycle.
 */
module Outbox {
  import opened Types
  import opened Database
  import opened Ledger

  /** The only broker binding the relay knows. */
  datatype Binding = InventoryDeletedBinding

  /** The routing table: InventoryDeleted has a binding, every other type has none. */
  function ResolveBindingForEventType(eventType: string): (b: Option<Binding>)
    ensures b.Some? <==> eventType == "InventoryDeleted"
    ensures b.Some? ==> b.value == InventoryDeletedBinding
  {
    if eventType == "InventoryDeleted" then Some(InventoryDeletedBinding) else None
  }

  /** Whether a cycle sends this event: it is still unpublished and its type is routed. */
  predicate Sendable(e: OutboxEvent) {
    !e.published && ResolveBindingForEventType(e.eventType).Some?
  }

  /** Event number `i` after a cycle in which the broker accepts the sends in `accepts`. */
  function AfterCycle(e: OutboxEvent, i: nat, accepts: set<nat>): (e': OutboxEvent)
    ensures e'.published <==> e.published || (Sendable(e) && i in accepts)
    ensures e'.(published := e.published) == e
  {
    if Sendable(e) && i in accepts then e.(published := true) else e
  }

  /** The outbox after one cycle. */
  function PublishCycle(outbox: seq<OutboxEvent>, accepts: set<nat>): (outbox': seq<OutboxEvent>)
    ensures |outbox'| == |outbox|
    ensures forall i :: 0 <= i < |outbox| ==> outbox'[i] == AfterCycle(outbox[i], i, accepts)
  {
    seq(|outbox|, i requires 0 <= i < |outbox| => AfterCycle(outbox[i], i, accepts))
  }

  /** The ids among the first `n` events that a cycle sends, in order. */
  function SentBelow(outbox: seq<OutboxEvent>, n: nat): (sent: seq<nat>)
    requires n <= |outbox|
    ensures |sent| <= n
    ensures forall k :: 0 <= k < |sent| ==> sent[k] < n
  {
    if n == 0 then []
    else SentBelow(outbox, n - 1) + if Sendable(outbox[n - 1]) then [n - 1] else []
  }

  /** A cycle sends exactly the sendable events among the first `n`, each once, in ascending order. */
  lemma {:induction false} SentBelowSelects(outbox: seq<OutboxEvent>, n: nat, sent: seq<nat>)
    requires n <= |outbox| && sent == SentBelow(outbox, n)
    ensures forall i: nat :: i in sent <==> i < n && Sendable(outbox[i])
    ensures forall j, k :: 0 <= j < k < |sent| ==> sent[j] < sent[k]
    ensures forall j :: 0 <= j < |sent| ==> sent[j] < n
    decreases n
  {
    if n > 0 {
      SentBelowSelects(outbox, n - 1, SentBelow(outbox, n - 1));
    }
  }

  /** The outbox after several cycles, each with its own accepted sends. */
  function PublishCycles(outbox: seq<OutboxEvent>, cycles: seq<set<nat>>): (outbox': seq<OutboxEvent>)
    ensures |outbox'| == |outbox|
    decreases |cycles|
  {
    if cycles == [] then outbox else PublishCycles(PublishCycle(outbox, cycles[0]), cycles[1..])
  }

  /**
   * A cycle changes no event's aggregate, type or payload, never marks a
   * published event unpublished, and publishes exactly the routed pending
   * events whose send is accepted; an event with no binding, or whose send
   * fails, stays pending.
   */
  lemma CyclePublishesAcceptedSends(outbox: seq<OutboxEvent>, accepts: set<nat>, i: nat)
    requires i < |outbox|
    ensures var e := PublishCycle(outbox, accepts)[i];
      && e.aggregateType == outbox[i].aggregateType
      && e.eventType == outbox[i].eventType
      && e.payload == outbox[i].payload
      && (e.published <==> outbox[i].published
                           || (outbox[i].eventType == "InventoryDeleted" && i in accepts))
  {
  }

  /** An event published in one cycle is never sent again by the next. */
  lemma PublishedIsNotResent(outbox: seq<OutboxEvent>, accepts: set<nat>, i: nat)
    requires i < |outbox| && Sendable(outbox[i]) && i in accepts
    ensures var outbox' := PublishCycle(outbox, accepts);
      i in SentBelow(outbox, |outbox|) && i !in SentBelow(outbox', |outbox'|)
  {
    var outbox' := PublishCycle(outbox, accepts);
    SentBelowSelects(outbox, |outbox|, SentBelow(outbox, |outbox|));
    SentBelowSelects(outbox', |outbox'|, SentBelow(outbox', |outbox'|));
  }

  /** With no sendable event, a cycle sends nothing. */
  lemma {:induction false} NothingSendableSendsNothing(outbox: seq<OutboxEvent>, n: nat)
    requires n <= |outbox| && forall i :: 0 <= i < |outbox| ==> !Sendable(outbox[i])
    ensures SentBelow(outbox, n) == []
    decreases n
  {
    if n > 0 {
      NothingSendableSendsNothing(outbox, n - 1);
    }
  }

  /**
   * Across any number of cycles, events keep their contents, published events
   * stay published, and an unpublished event whose type has no binding is
   * never published.
   */
  lemma {:induction false} CyclesNeverUnpublish(outbox: seq<OutboxEvent>, cycles: seq<set<nat>>, i: nat)
    requires i < |outbox|
    ensures var e := PublishCycles(outbox, cycles)[i];
      && e.aggregateType == outbox[i].aggregateType && e.eventType == outbox[i].eventType
      && e.payload == outbox[i].payload
      && (outbox[i].published ==> e.published)
      && (!outbox[i].published && outbox[i].eventType != "InventoryDeleted" ==> !e.published)
    decreases |cycles|
  {
    if cycles != [] {
      CyclesNeverUnpublish(PublishCycle(outbox, cycles[0]), cycles[1..], i);
    }
  }

  /**
   * When the broker accepts every send, one cycle publishes every routed
   * event, and a second cycle finds nothing to send and changes nothing.
   */
  lemma AcceptedCycleDrainsOutbox(outbox: seq<OutboxEvent>, accepts: set<nat>)
    requires forall i :: 0 <= i < |outbox| ==> i in accepts
    ensures var outbox' := PublishCycle(outbox, accepts);
      && (forall i :: 0 <= i < |outbox'| && outbox'[i].eventType == "InventoryDeleted" ==> outbox'[i].published)
      && SentBelow(outbox', |outbox'|) == []
      && PublishCycle(outbox', accepts) == outbox'
  {
    var outbox' := PublishCycle(outbox, accepts);
    NothingSendableSendsNothing(outbox', |outbox'|);
  }

  /**
   * Soft-deleting an inventory and then running a cycle in which the broker
   * accepts the new event publishes it, with the product in its payload.
   */
  lemma DeletionReachesBroker(st: DbState, p: ProductId, accepts: set<nat>)
    requires p in st.inventories && |st.outbox| in accepts
    ensures var outbox := SoftDelete(st, p).state.outbox;
      && |st.outbox| in SentBelow(outbox, |outbox|)
      && PublishCycle(outbox, accepts)[|st.outbox|].published
      && PublishCycle(outbox, accepts)[|st.outbox|].payload == InventoryDeletedPayload(p)
  {
    var outbox := SoftDelete(st, p).state.outbox;
    assert outbox[|st.outbox|] == DeletedEvent(p);
    SentBelowSelects(outbox, |outbox|, SentBelow(outbox, |outbox|));
  }

  /** The relay over the outbox table. */
  class OutboxPublisher {
    const db: Database

    constructor (db: Database)
      ensures this.db == db
    {
      this.db := db;
    }

    /** Returns the ids of the events handed to the broker, in order. */
    method PublishPendingEvents(accepts: set<nat>) returns (sent: seq<nat>)
      modifies db
      ensures db.State() == old(db.State()).(outbox := PublishCycle(old(db.outbox), accepts))
      ensures sent == SentBelow(old(db.outbox), |old(db.outbox)|)
    {
      sent := [];
      var i := 0;
      while i < |db.outbox|
        invariant i <= |db.outbox| == |old(db.outbox)|
        invariant db.State() == old(db.State()).(outbox := db.outbox)
        invariant forall j :: 0 <= j < i ==> db.outbox[j] == AfterCycle(old(db.outbox)[j], j, accepts)
        invariant forall j :: i <= j < |db.outbox| ==> db.outbox[j] == old(db.outbox)[j]
        invariant sent == SentBelow(old(db.outbox), i)
        decreases |db.outbox| - i
      {
        var event := db.outbox[i];
        if !event.published {
          var bindingName := ResolveBindingForEventType(event.eventType);
          if bindingName.Some? {
            sent := sent + [i];
            if i in accepts {
              db.SaveOutboxEventAt(i, event.(published := true));
            }
          }
        }
        i := i + 1;
      }
    }
  }
}
