/**
  The mailbox as a sequential state machine (PriceProcessorHelper in PriceThrottler.java).
  An offer (addRate) and a complete drain (one run of the Updater worker) are atomic steps;
  thread interleavings are not modelled. The class Mailboxes.Mailbox is proved against these
  steps, and the lemmas here say what any schedule of them delivers.
*/
module MailboxSteps {
  import opened RateSlots
  import opened Conflation

  /**
    The pending list, the on-duty flag, and every (pair, rate) handed to the subscriber so
    far, in delivery order.
  */
  datatype MailboxState<R> = MailboxState(slots: seq<Slot<R>>, active: bool, received: seq<Slot<R>>)

  /** A helper as subscribe creates it: nothing pending, nothing delivered, no worker. */
  function Fresh<R>(): MailboxState<R> {
    MailboxState([], false, [])
  }

  /** The invariant: no pair pending twice, and a mailbox with no worker on duty is empty. */
  ghost predicate Inv<R>(st: MailboxState<R>) {
    NoDuplicatePairs(st.slots) && (!st.active ==> st.slots == [])
  }

  /** addRate: find-or-append the rate, and make sure a worker is on duty. */
  function OfferStep<R>(st: MailboxState<R>, pair: Pair, rate: R): (st': MailboxState<R>)
    ensures st'.active && st'.received == st.received
  {
    st.(slots := AddRate(st.slots, pair, rate), active := true)
  }

  /**
    One run of the worker: hand every pending slot to the subscriber, oldest first, and go
    off duty once the list is seen empty.
  */
  function Drained<R>(st: MailboxState<R>): (st': MailboxState<R>)
    ensures st'.slots == [] && !st'.active
  {
    MailboxState([], false, st.received + st.slots)
  }

  /** An offer keeps the invariant; afterwards a worker is on duty and the list is non-empty. */
  lemma OfferKeepsInv<R>(st: MailboxState<R>, pair: Pair, rate: R)
    requires Inv(st)
    ensures Inv(OfferStep(st, pair, rate)) && OfferStep(st, pair, rate).slots != []
  {
    AddRateKeepsPairsUnique(st.slots, pair, rate);
  }

  /** One event of a schedule: a price offered to this mailbox, or a complete worker run. */
  datatype Event<R> = Publish(pair: Pair, rate: R) | Drain

  /** The state after the events, in order, starting from `st`. */
  function Run<R>(st: MailboxState<R>, events: seq<Event<R>>): MailboxState<R>
    decreases |events|
  {
    if events == [] then st
    else
      var n := |events| - 1;
      match events[n]
      case Publish(p, r) => OfferStep(Run(st, events[..n]), p, r)
      case Drain => Drained(Run(st, events[..n]))
  }

  /** The prices offered by the events, in order. */
  function Published<R>(events: seq<Event<R>>): (offers: seq<Slot<R>>)
    ensures |offers| <= |events|
    decreases |events|
  {
    if events == [] then []
    else
      var n := |events| - 1;
      match events[n]
      case Publish(p, r) => Published(events[..n]) + [Slot(p, r)]
      case Drain => Published(events[..n])
  }

  /**
    Activation: from a fresh mailbox, after any schedule of offers and complete drains, no
    pair is pending twice and a mailbox with no worker on duty has nothing pending.
  */
  lemma {:induction false} RunKeepsInv<R>(events: seq<Event<R>>)
    ensures Inv(Run(Fresh(), events))
    decreases |events|
  {
    if events != [] {
      var n := |events| - 1;
      RunKeepsInv(events[..n]);
      if events[n].Publish? {
        OfferKeepsInv(Run(Fresh(), events[..n]), events[n].pair, events[n].rate);
      }
    }
  }

  /** An offer keeps "received, then pending" in step with the published prices. */
  lemma OfferLosesNothing<R>(st: MailboxState<R>, pub: seq<Slot<R>>, p: Pair, r: R)
    requires Inv(st)
    requires Latest(st.received) + Latest(st.slots) == Latest(pub)
    ensures var st' := OfferStep(st, p, r);
      Latest(st'.received) + Latest(st'.slots) == Latest(pub + [Slot(p, r)])
  {
    LatestAfterOffer(st.received, st.slots, p, r);
    assert (pub + [Slot(p, r)])[..|pub|] == pub;
  }

  /** A complete drain keeps "received, then pending" in step with the published prices. */
  lemma DrainLosesNothing<R>(st: MailboxState<R>, pub: seq<Slot<R>>)
    requires Latest(st.received) + Latest(st.slots) == Latest(pub)
    ensures var st' := Drained(st);
      Latest(st'.received) + Latest(st'.slots) == Latest(pub)
  {
    LatestAppend(st.received, st.slots);
    assert Latest<R>([]) == map[];
  }

  /**
    Nothing published is lost: after any schedule, the latest rates the subscriber received,
    overridden by those still pending, are exactly the latest rates published.
  */
  lemma {:induction false} RunLosesNothing<R>(events: seq<Event<R>>)
    ensures var st := Run(Fresh(), events);
      Latest(st.received) + Latest(st.slots) == Latest(Published(events))
    decreases |events|
  {
    if events != [] {
      var n := |events| - 1;
      var st := Run(Fresh(), events[..n]);
      RunLosesNothing(events[..n]);
      match events[n]
      case Publish(p, r) =>
        RunKeepsInv(events[..n]);
        OfferLosesNothing(st, Published(events[..n]), p, r);
      case Drain =>
        DrainLosesNothing(st, Published(events[..n]));
    }
  }

  /**
    Eventual full coverage: once a schedule ends with a complete drain, the subscriber holds
    the last published rate of every pair ever published to it, and nothing is pending.
  */
  lemma DrainedScheduleDeliversLatest<R>(events: seq<Event<R>>)
    requires events != [] && events[|events| - 1] == Drain
    ensures Run(Fresh(), events).slots == [] && !Run(Fresh(), events).active
    ensures Latest(Run(Fresh(), events).received) == Latest(Published(events))
  {
    RunLosesNothing(events);
  }

  /** The events that publish `offers` in order. */
  function Publishes<R>(offers: seq<Slot<R>>): (events: seq<Event<R>>)
    ensures |events| == |offers|
    ensures forall i :: 0 <= i < |offers| ==> events[i] == Publish(offers[i].pair, offers[i].rate)
  {
    seq(|offers|, i requires 0 <= i < |offers| => Publish(offers[i].pair, offers[i].rate))
  }

  lemma {:induction false} BurstIsOfferAll<R>(offers: seq<Slot<R>>)
    ensures Run(Fresh(), Publishes(offers)).slots == OfferAll([], offers)
    ensures Run(Fresh(), Publishes(offers)).received == []
    decreases |offers|
  {
    if offers != [] {
      var n := |offers| - 1;
      BurstIsOfferAll(offers[..n]);
      assert Publishes(offers)[..n] == Publishes(offers[..n]);
    }
  }

  /**
    Drain order: a burst offered to a fresh mailbox and then drained is delivered as its
    conflation: each distinct pair once, in order of first arrival, with its last rate.
  */
  lemma BurstThenDrainDeliversConflation<R>(offers: seq<Slot<R>>)
    ensures IsConflationOf(Run(Fresh(), Publishes(offers) + [Drain]).received, offers)
  {
    var events := Publishes(offers) + [Drain];
    assert events[..|events| - 1] == Publishes(offers);
    BurstIsOfferAll(offers);
    assert Run(Fresh(), events).received == OfferAll([], offers);
    OfferAllConflates(offers);
  }
}
