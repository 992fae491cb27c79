# priceProcessor price throttler, modelled in Dafny

`PriceThrottler` sits between a fast price feed and a set of subscribers of uneven speed.
`onPrice(ccyPair, rate)` hands every price to a per-subscriber helper.

Each helper (`PriceProcessorHelper`) keeps an ordered list of pending `RateValue` slots, at most one per currency pair:
- a new rate for a pair already pending overwrites that slot's rate in place;
- a new pair is appended at the back.

When no worker is on duty, the helper raises its `isOnDuty` flag and starts one. The worker removes slot 0 and delivers it to the subscriber, over and over, until it sees the list empty. Then it clears the flag. In the sequential model, a slow subscriber therefore receives every pair, in order of first arrival, with the latest rate. It never receives a backlog of stale rates.

`subscribe` puts a fresh helper into the `listeners` map, and `unsubscribe` removes it.

The model has these modules:

- `RateSlots` (`rate_slots.dfy`):
  - the slot record (`RateValue`), with `isPair` and `setRate`;
  - the pending list as a sequence of slots, with its no-duplicate-pairs invariant;
  - the find-or-append update of `addRate`.
- `Conflation` (`conflation.dfy`):
  - what a pending list means, independently of how `addRate` builds it: `IsConflationOf(r, offers)` says `r` holds each offered pair once, ordered by first arrival, each with its last offered rate;
  - `Latest`, the subscriber's view of a delivered stream. It is the pair-to-rate map that `TestPriceProcessor.onPrice` fills in.
- `MailboxSteps` (`mailbox_steps.dfy`): the helper as a sequential state machine.
  - Its steps are an offer (`addRate`) and a complete worker run (`Updater.run`).
  - It has lemmas about any schedule of these steps.
- `Mailboxes` (`mailbox.dfy`): the helper as an object updated in place.
  - Its methods are `Offer`, `DrainStep` (one turn of the worker's loop) and `DrainAll` (the worker's whole run, a `while` loop).
  - `Offer` and `DrainAll` are proved against the step functions of `MailboxSteps` (`OfferStep` and `Drained`). `DrainStep` is specified directly.
- `Throttler` (`throttler.dfy`): the `listeners` registry as a map from subscriber to mailbox, with `Subscribe`, `Unsubscribe` and the `OnPrice` fan-out.

The subscriber's `onPrice` callback is modelled as appending the delivered `(pair, rate)` to the mailbox's `received` sequence. The rate is a type parameter, because it is only stored and copied.

A repeated `subscribe` is not a no-op. `listeners.put` installs a fresh, empty helper in place of the old one, and the entry count stays at one (the `incorrectSubscribe` test, `PriceThrottlerTest.java:37-46`). `Throttler.PriceThrottler.Subscribe` states this.

## Model

| member | source | states |
|---|---|---|
| RateSlots.Slot.IsPair | src/main/java/com/price/processor/PriceThrottler.java:84-86 | isPair holds exactly when the slot's pair equals the argument, i.e. the slot is (argument, its own rate) |
| RateSlots.Slot.WithRate | src/main/java/com/price/processor/PriceThrottler.java:80-82 | setRate replaces the rate and keeps the slot's pair |
| RateSlots.FindPair | src/main/java/com/price/processor/PriceThrottler.java:39 | the lookup finds a slot for the pair exactly when the pair is pending, and the slot found carries that pair (the first such slot) |
| RateSlots.AddRate | src/main/java/com/price/processor/PriceThrottler.java:38-44 | after addRate, the pending pairs are the old ones, plus the new pair at the back if it was absent; slots of other pairs are untouched; a slot (pair, rate) is pending |
| RateSlots.AddRateOverwritesInPlace | src/main/java/com/price/processor/PriceThrottler.java:39-41 | for a pair already pending, addRate keeps the length, puts (pair, rate) at that pair's position and leaves every other slot as it was |
| RateSlots.AddRateAppendsNew | src/main/java/com/price/processor/PriceThrottler.java:42-43 | for a pair not pending, addRate appends exactly the slot (pair, rate) after the unchanged old list |
| RateSlots.AddRateKeepsPairsUnique | src/main/java/com/price/processor/PriceThrottler.java:39-44 | addRate never creates a second slot for a pair |
| Conflation.ConflationHasNoDuplicatePairs | src/main/java/com/price/processor/PriceThrottler.java:39-44 | a list ordered by first arrival holds no pair twice |
| Conflation.ConflationSnoc | src/main/java/com/price/processor/PriceThrottler.java:38-44 | if the list is the conflation of the earlier offers, one more addRate makes it the conflation of all offers |
| Conflation.OfferAllConflates | src/main/java/com/price/processor/PriceThrottler.java:38-44 | after any run of offers with no drain between them, starting from an empty list, the list holds each offered pair once, in order of first arrival, with its last offered rate |
| Conflation.BurstCollapsesToLastRate | src/main/java/com/price/processor/PriceThrottler.java:39-41 | offering (P, r1), (P, r2), (P, r3) leaves the single slot (P, r3) |
| Conflation.PositionFixedAtFirstArrival | src/main/java/com/price/processor/PriceThrottler.java:39-44 | offering (A, x), (B, y), (A, z) leaves [(A, z), (B, y)]: a pair keeps the position of its first arrival |
| Conflation.LatestIsLastDelivery | src/test/java/com/price/processor/TestPriceProcessor.java:19-26 | the subscriber's map holds exactly the delivered pairs, each with the rate of its last delivery |
| Conflation.LatestAppend | src/test/java/com/price/processor/TestPriceProcessor.java:19-26 | receiving one stream after another leaves the second's rates over the first's |
| Conflation.LatestAddRate | src/main/java/com/price/processor/PriceThrottler.java:38-44 | when no pair is pending twice, addRate changes the latest-rate view of the pending list by putting the new rate for the pair and nothing else |
| Conflation.LatestAfterOffer | src/main/java/com/price/processor/PriceThrottler.java:38-44 | an offer changes "delivered, overridden by pending" exactly by putting the new rate for the pair |
| Conflation.ConflationKeepsLatest | src/main/java/com/price/processor/PriceThrottler.java:54-57 | delivering the conflation of some offers gives the subscriber the same latest rates as delivering every offer would |
| MailboxSteps.OfferStep | src/main/java/com/price/processor/PriceThrottler.java:38-50 | an offer leaves a worker on duty and delivers nothing |
| MailboxSteps.Drained | src/main/java/com/price/processor/PriceThrottler.java:53-60 | a worker run ends with nothing pending and the flag cleared |
| MailboxSteps.OfferKeepsInv | src/main/java/com/price/processor/PriceThrottler.java:38-50 | an offer keeps pairs unique and "not on duty implies nothing pending", and leaves something pending |
| MailboxSteps.RunKeepsInv | src/main/java/com/price/processor/PriceThrottler.java:46-59 | from a fresh helper, after any schedule of offers and complete worker runs, no pair is pending twice and a helper with no worker on duty has nothing pending |
| MailboxSteps.OfferLosesNothing | src/main/java/com/price/processor/PriceThrottler.java:38-44 | an offer keeps "latest delivered, overridden by latest pending" equal to the latest published rates |
| MailboxSteps.DrainLosesNothing | src/main/java/com/price/processor/PriceThrottler.java:53-60 | a worker run keeps "latest delivered, overridden by latest pending" equal to the latest published rates |
| MailboxSteps.RunLosesNothing | src/main/java/com/price/processor/PriceThrottler.java:38-60 | after any schedule, the latest delivered rates, overridden by those still pending, are exactly the latest published rates |
| MailboxSteps.DrainedScheduleDeliversLatest | src/test/java/com/price/processor/PriceThrottlerTest.java:116-130 | once a schedule ends with a worker run, nothing is pending, no worker is on duty, and the subscriber holds the last published rate of every pair published to it |
| MailboxSteps.BurstIsOfferAll | src/main/java/com/price/processor/PriceThrottler.java:38-44 | a burst of offers to a fresh helper with no worker run in between leaves the list built by offering them in order, and delivers nothing |
| MailboxSteps.BurstThenDrainDeliversConflation | src/main/java/com/price/processor/PriceThrottler.java:54-57 | a burst offered to a fresh helper and then drained is delivered as its conflation: each pair once, in first-arrival order, with its last rate |
| Mailboxes.Mailbox.constructor | src/main/java/com/price/processor/PriceThrottler.java:30-36 | a new helper has nothing pending, nothing delivered and no worker on duty |
| Mailboxes.Mailbox.Offer | src/main/java/com/price/processor/PriceThrottler.java:38-50 | addRate in place is the offer step; it reports starting a worker exactly when none was on duty |
| Mailboxes.Mailbox.DrainStep | src/main/java/com/price/processor/PriceThrottler.java:54-56 | one turn removes the head slot, delivers it and keeps the invariant (pairs stay unique); on an empty list nothing is taken |
| Mailboxes.Mailbox.DrainAll | src/main/java/com/price/processor/PriceThrottler.java:53-60 | the worker's loop is the drain step; it delivers exactly the list as it stood when the run began, in order, and clears the flag |
| Throttler.PriceThrottler.constructor | src/main/java/com/price/processor/PriceThrottler.java:9 | the registry starts empty |
| Throttler.PriceThrottler.Subscribe | src/main/java/com/price/processor/PriceThrottler.java:20-22 | subscribe registers one entry for the subscriber, adding to the count only if it was absent, with a fresh empty helper that replaces any old one; other entries are unchanged |
| Throttler.PriceThrottler.Unsubscribe | src/main/java/com/price/processor/PriceThrottler.java:25-27 | unsubscribe removes the subscriber's entry and lowers the count only if it was present; an absent subscriber changes nothing; other entries are unchanged |
| Throttler.PriceThrottler.OnPrice | src/main/java/com/price/processor/PriceThrottler.java:12-17 | onPrice applies the offer step to every registered helper and leaves the registry itself unchanged |

## Left out

- Threads are not modelled. This covers the `Updater` thread (`new Updater().start()`), the `parallel()` stream in `onPrice`, `volatile`, `Collections.synchronizedList` and `ConcurrentHashMap`. An offer and a complete worker run are atomic steps in any order. A started worker is only reported, as the `started` result of `Mailboxes.Mailbox.Offer`.
- The race between the worker's last emptiness check and its clearing of `isOnDuty`, against a concurrent `addRate` that sees the flag still set, is a concurrency property. The model does not capture it. The invariant "not on duty implies nothing pending" is proved only for the sequential model, not for the original under threads.
- Throttler.PriceThrottler.OnPrice: the parallel fan-out is a sequential pass in an unspecified order. The mailboxes are distinct objects, so the result does not depend on the order.
- The subscriber's `onPrice` is modelled as appending to `received`. Its own work and any exception it throws are not modelled. The logging, sleeping and timing of the test subscriber are not modelled either.
- Rates are a type parameter, so floating-point behaviour is not modelled. The source only stores and copies rates.
- `MAX_PAIRS_COUNT` is only the initial capacity of the list, not a limit, so it is not modelled.
- RateSlots.FindPair: `findAny` may return any matching slot; the model returns the first. Under the no-duplicate-pairs invariant there is only one.
- Mailboxes.Mailbox.DrainStep: `values.remove(0)` on an empty list throws in the source. The model returns `None` and changes nothing. The worker's loop never calls it on an empty list.
- `RateValue.setRate` mutates a shared object in place. The model replaces the slot value in the sequence. No other reference to a slot exists in the source.
- Throttler.PriceThrottler.Subscribe: when a helper is replaced, the source does not stop its worker. A helper with pending slots has a worker on duty, and that `Updater` (an inner class bound to the old helper) keeps delivering the old helper's pending slots to the same subscriber. The model only forgets the old helper and does not show those deliveries.
- Throttler.PriceThrottler.Unsubscribe: a worker already running for the removed helper would finish its run in the source; the model only forgets the helper.
- The monkey test in the test file, with its random prices and sleeps, is not modelled.
- Null arguments are not modelled, because pairs are strings and subscribers are values here. In the source, `subscribe(null)` and `unsubscribe(null)` throw `NullPointerException` because `ConcurrentHashMap` rejects null keys. `onPrice(null, rate)` appends a slot with a null pair. After that, any later `addRate` whose scan reaches that slot throws `NullPointerException` in `isPair`, and the exception leaves `onPrice`.
