/**
  The per-subscriber conflating mailbox (PriceProcessorHelper in PriceThrottler.java) as an
  object updated in place: the pending list, the on-duty flag, and the subscriber's received
  deliveries. Each method is proved against the steps of MailboxSteps.
*/
module Mailboxes {
  import opened Wrappers
  import opened RateSlots
  import opened MailboxSteps

  class Mailbox<R> {
    /** The pending list (values). */
    var slots: seq<Slot<R>>
    /** Whether a worker is responsible for draining the list (isOnDuty). */
    var active: bool
    /** Every (pair, rate) handed to the subscriber's onPrice so far, in order. */
    var received: seq<Slot<R>>

    /** The abstract value of this mailbox. */
    function State(): MailboxState<R>
      reads this
    {
      MailboxState(slots, active, received)
    }

    ghost predicate Valid()
      reads this
    {
      Inv(State())
    }

    /** The helper subscribe creates: nothing pending, nothing delivered, no worker. */
    constructor ()
      ensures Valid() && State() == Fresh()
    {
      slots, active, received := [], false, [];
    }

    /**
      addRate: overwrite the pending rate of `pair` where it stands, or append a slot for
      it; then, if no worker is on duty, put one on duty and report that it was started.
    */
    method Offer(pair: Pair, rate: R) returns (started: bool)
      requires Valid()
      modifies this
      ensures Valid()
      ensures State() == OfferStep(old(State()), pair, rate)
      ensures started == !old(active)
    {
      OfferKeepsInv(State(), pair, rate);
      match FindPair(slots, pair) {
        case Some(i) =>
          slots := slots[i := slots[i].WithRate(rate)];
        case None =>
          slots := slots + [Slot(pair, rate)];
      }
      started := false;
      if !active {
        active := true;
        started := true;
      }
    }

    /**
      One turn of the worker's loop: take the oldest pending slot and hand it to the
      subscriber. On an empty list nothing is taken.
    */
    method DrainStep() returns (head: Option<Slot<R>>)
      requires Valid()
      modifies this
      ensures Valid() && active == old(active)
      ensures old(slots) == [] ==> head == None && slots == [] && received == old(received)
      ensures old(slots) != [] ==>
        && head == Some(old(slots)[0])
        && slots == old(slots)[1..]
        && received == old(received) + [old(slots)[0]]
    {
      if slots == [] {
        head := None;
      } else {
        var item := slots[0];
        slots := slots[1..];
        received := received + [item];
        head := Some(item);
      }
    }

    /**
      The worker's run: drain the list from the front until it is seen empty, then go off
      duty. Returns what was delivered: the list exactly as it stood when the run began.
    */
    method DrainAll() returns (batch: seq<Slot<R>>)
      requires Valid()
      modifies this
      ensures Valid()
      ensures State() == Drained(old(State()))
      ensures batch == old(slots)
    {
      batch := [];
      while slots != []
        invariant Valid()
        invariant old(slots) == batch + slots
        invariant received == old(received) + batch
        invariant active == old(active)
        decreases |slots|
      {
        ghost var pending := slots;
        var head := DrainStep();
        assert batch + pending == (batch + [head.value]) + slots;
        batch := batch + [head.value];
      }
      active := false;
    }
  }
}
