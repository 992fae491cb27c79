/**
  The subscription registry and price fan-out (PriceThrottler in PriceThrottler.java): a
  mapping from each subscriber to its own mailbox, and onPrice offering every incoming price
  to every registered mailbox. The parallel stream is modelled as a sequential pass in an
  unspecified order; the mailboxes are distinct, so the order does not matter.
*/
module Throttler {
  import opened RateSlots
  import opened Mailboxes
  import opened MailboxSteps

  /** `S` is the identity of a subscriber (the PriceProcessor used as the map key). */
  class PriceThrottler<S(==), R> {
    /** listeners */
    var listeners: map<S, Mailbox<R>>

    /** Every registered mailbox is valid, and no two subscribers share one. */
    ghost predicate Valid()
      reads this, listeners.Values
    {
      && (forall s :: s in listeners ==> listeners[s].Valid())
      && (forall s, t :: s in listeners && t in listeners && s != t ==> listeners[s] != listeners[t])
    }

    constructor ()
      ensures Valid() && listeners == map[]
    {
      listeners := map[];
    }

    /**
      subscribe: register a fresh, empty mailbox for `s`. A mailbox already registered for
      `s` is replaced by the fresh one and is no longer reachable from the registry; the
      registry still holds one entry for `s`.
    */
    method Subscribe(s: S)
      requires Valid()
      modifies this
      ensures Valid()
      ensures listeners.Keys == old(listeners.Keys) + {s}
      ensures |listeners| == if s in old(listeners) then old(|listeners|) else old(|listeners|) + 1
      ensures fresh(listeners[s])
      ensures listeners[s].State() == Fresh()
      ensures forall t :: t in old(listeners) && t != s ==> listeners[t] == old(listeners[t])
    {
      var m := new Mailbox();
      listeners := listeners[s := m];
    }

    /** unsubscribe: forget the mailbox of `s`; forgetting an absent subscriber changes nothing. */
    method Unsubscribe(s: S)
      requires Valid()
      modifies this
      ensures Valid()
      ensures listeners.Keys == old(listeners.Keys) - {s}
      ensures |listeners| == if s in old(listeners) then old(|listeners|) - 1 else old(|listeners|)
      ensures s !in old(listeners) ==> listeners == old(listeners)
      ensures forall t :: t in listeners ==> listeners[t] == old(listeners[t])
    {
      listeners := listeners - {s};
    }

    /**
      onPrice: offer (pair, rate) to every registered mailbox, each as addRate would. The
      registry itself is not changed.
    */
    method OnPrice(pair: Pair, rate: R)
      requires Valid()
      modifies listeners.Values
      ensures Valid() && listeners == old(listeners)
      ensures forall s :: s in listeners ==>
        listeners[s].State() == OfferStep(old(listeners[s].State()), pair, rate)
    {
      // What each mailbox becomes once offered the price.
      ghost var after := map t | t in listeners :: OfferStep(listeners[t].State(), pair, rate);
      var pending := listeners.Keys;
      while pending != {}
        invariant pending <= listeners.Keys
        invariant Valid()
        invariant forall s :: s in listeners && s !in pending ==> listeners[s].State() == after[s]
        invariant forall s :: s in pending ==> unchanged(listeners[s])
        decreases pending
      {
        var s :| s in pending;
        var started := listeners[s].Offer(pair, rate);
        pending := pending - {s};
      }
    }
  }
}
