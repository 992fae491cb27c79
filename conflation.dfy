/**
  What a subscriber's pending list means, stated independently of how addRate builds it:
  after a run of offers with no drain in between, the list holds every offered pair once,
  in order of first arrival, each with its last offered rate. Also the subscriber's view
  of a delivered stream: the latest rate per pair.
*/
module Conflation {
  import opened Wrappers
  import opened RateSlots

  /** The position of the last offer for pair `p`. */
  function LastIndex<R>(offers: seq<Slot<R>>, p: Pair): (k: nat)
    requires p in Pairs(offers)
    ensures k < |offers| && offers[k].pair == p
    ensures forall j :: k < j < |offers| ==> offers[j].pair != p
    decreases |offers|
  {
    var n := |offers| - 1;
    if offers[n].IsPair(p) then n
    else
      assert p in Pairs(offers[..n]) by {
        var i :| 0 <= i < |offers| && Pairs(offers)[i] == p;
        assert Pairs(offers[..n])[i] == p;
      }
      LastIndex(offers[..n], p)
  }

  /** The position of the first offer for pair `p`. */
  function FirstArrival<R>(offers: seq<Slot<R>>, p: Pair): (k: nat)
    requires p in Pairs(offers)
    ensures k < |offers| && offers[k].pair == p
    ensures forall j :: 0 <= j < k ==> offers[j].pair != p
  {
    FindPair(offers, p).value
  }

  /**
    `r` is the conflation of `offers`: it holds exactly the offered pairs, each with the rate
    of its last offer, ordered by first arrival.
  */
  ghost predicate IsConflationOf<R>(r: seq<Slot<R>>, offers: seq<Slot<R>>) {
    && (forall i :: 0 <= i < |r| ==>
          r[i].pair in Pairs(offers) && r[i].rate == offers[LastIndex(offers, r[i].pair)].rate)
    && (forall p :: p in Pairs(offers) ==> p in Pairs(r))
    && (forall i, j :: 0 <= i < j < |r| ==>
          FirstArrival(offers, r[i].pair) < FirstArrival(offers, r[j].pair))
  }

  /** A conflation never holds two slots for one pair. */
  lemma ConflationHasNoDuplicatePairs<R>(r: seq<Slot<R>>, offers: seq<Slot<R>>)
    requires IsConflationOf(r, offers)
    ensures NoDuplicatePairs(r)
  {
  }

  /** The pending list after offering `offers`, in order, to the list `s` with no drain. */
  function OfferAll<R>(s: seq<Slot<R>>, offers: seq<Slot<R>>): seq<Slot<R>>
    decreases |offers|
  {
    if offers == [] then s
    else
      var n := |offers| - 1;
      AddRate(OfferAll(s, offers[..n]), offers[n].pair, offers[n].rate)
  }

  lemma PairsSnoc<R>(xs: seq<Slot<R>>, o: Slot<R>)
    ensures Pairs(xs + [o]) == Pairs(xs) + [o.pair]
  {
    PairsAppend(xs, [o]);
  }

  /** A later offer for another pair does not move a pair's last offer. */
  lemma LastIndexSnoc<R>(xs: seq<Slot<R>>, o: Slot<R>, q: Pair)
    requires q in Pairs(xs) && q != o.pair
    ensures q in Pairs(xs + [o]) && LastIndex(xs + [o], q) == LastIndex(xs, q)
  {
    PairsSnoc(xs, o);
    assert (xs + [o])[..|xs|] == xs;
  }

  /** A later offer does not move a pair's first arrival. */
  lemma FirstArrivalSnoc<R>(xs: seq<Slot<R>>, o: Slot<R>, q: Pair)
    requires q in Pairs(xs)
    ensures q in Pairs(xs + [o]) && FirstArrival(xs + [o], q) == FirstArrival(xs, q)
  {
    PairsSnoc(xs, o);
    var a, b := FirstArrival(xs + [o], q), FirstArrival(xs, q);
    assert (xs + [o])[b] == xs[b];
  }

  /** The rates part of ConflationSnoc, for slot `i`. */
  lemma SnocRateAt<R>(s: seq<Slot<R>>, xs: seq<Slot<R>>, o: Slot<R>, i: nat)
    requires IsConflationOf(s, xs)
    requires i < |AddRate(s, o.pair, o.rate)|
    ensures var r := AddRate(s, o.pair, o.rate);
      r[i].pair in Pairs(xs + [o]) && r[i].rate == (xs + [o])[LastIndex(xs + [o], r[i].pair)].rate
  {
    var offers, n := xs + [o], |xs|;
    var r := AddRate(s, o.pair, o.rate);
    PairsSnoc(xs, o);
    if i < |s| && s[i].pair != o.pair {
      assert r[i] == s[i];
      LastIndexSnoc(xs, o, s[i].pair);
    } else {
      assert o.pair in Pairs(offers) && LastIndex(offers, o.pair) == n;
      assert Pairs(r)[i] == o.pair;
      ConflationHasNoDuplicatePairs(s, xs);
      if i < |s| {
        AddRateOverwritesInPlace(s, o.pair, o.rate, i);
      } else {
        AddRateAppendsNew(s, o.pair, o.rate);
      }
    }
  }

  /** The rates part of ConflationSnoc. */
  lemma SnocRates<R>(s: seq<Slot<R>>, xs: seq<Slot<R>>, o: Slot<R>)
    requires IsConflationOf(s, xs)
    ensures forall i :: 0 <= i < |AddRate(s, o.pair, o.rate)| ==>
      var r := AddRate(s, o.pair, o.rate);
      r[i].pair in Pairs(xs + [o]) && r[i].rate == (xs + [o])[LastIndex(xs + [o], r[i].pair)].rate
  {
    forall i | 0 <= i < |AddRate(s, o.pair, o.rate)|
      ensures var r := AddRate(s, o.pair, o.rate);
        r[i].pair in Pairs(xs + [o]) && r[i].rate == (xs + [o])[LastIndex(xs + [o], r[i].pair)].rate
    {
      SnocRateAt(s, xs, o, i);
    }
  }

  /** The coverage part of ConflationSnoc. */
  lemma SnocCoverage<R>(s: seq<Slot<R>>, xs: seq<Slot<R>>, o: Slot<R>)
    requires IsConflationOf(s, xs)
    ensures forall p :: p in Pairs(xs + [o]) ==> p in Pairs(AddRate(s, o.pair, o.rate))
  {
    PairsSnoc(xs, o);
  }

  /** Every pending pair has been offered. */
  lemma SnocPairsOffered<R>(s: seq<Slot<R>>, xs: seq<Slot<R>>, o: Slot<R>)
    requires IsConflationOf(s, xs)
    ensures forall p :: p in Pairs(AddRate(s, o.pair, o.rate)) ==> p in Pairs(xs + [o])
  {
    PairsSnoc(xs, o);
    forall i | 0 <= i < |s| ensures Pairs(s)[i] in Pairs(xs) {
      assert Pairs(s)[i] == s[i].pair;
    }
  }

  /** The ordering part of ConflationSnoc, for slots `i` before `j`. */
  lemma SnocOrderAt<R>(s: seq<Slot<R>>, xs: seq<Slot<R>>, o: Slot<R>, i: nat, j: nat)
    requires IsConflationOf(s, xs)
    requires i < j < |AddRate(s, o.pair, o.rate)|
    ensures var r := AddRate(s, o.pair, o.rate);
      && r[i].pair in Pairs(xs + [o]) && r[j].pair in Pairs(xs + [o])
      && FirstArrival(xs + [o], r[i].pair) < FirstArrival(xs + [o], r[j].pair)
  {
    var offers, n := xs + [o], |xs|;
    var r := AddRate(s, o.pair, o.rate);
    PairsSnoc(xs, o);
    assert Pairs(r)[i] == r[i].pair && Pairs(r)[j] == r[j].pair;
    assert Pairs(s)[i] == s[i].pair && s[i].pair in Pairs(xs);
    FirstArrivalSnoc(xs, o, s[i].pair);
    if j < |s| {
      assert Pairs(s)[j] == s[j].pair && s[j].pair in Pairs(xs);
      FirstArrivalSnoc(xs, o, s[j].pair);
    } else {
      // r[j] is the newly appended slot for o.pair, which no earlier offer carried.
      assert r[j].pair == o.pair && o.pair !in Pairs(xs);
      assert FirstArrival(offers, o.pair) == n by {
        forall k | 0 <= k < n ensures offers[k].pair != o.pair {
          assert Pairs(xs)[k] == offers[k].pair;
        }
      }
    }
  }

  /** The ordering part of ConflationSnoc. */
  lemma SnocOrder<R>(s: seq<Slot<R>>, xs: seq<Slot<R>>, o: Slot<R>)
    requires IsConflationOf(s, xs)
    ensures forall p :: p in Pairs(AddRate(s, o.pair, o.rate)) ==> p in Pairs(xs + [o])
    ensures forall i, j :: 0 <= i < j < |AddRate(s, o.pair, o.rate)| ==>
      var r := AddRate(s, o.pair, o.rate);
      FirstArrival(xs + [o], r[i].pair) < FirstArrival(xs + [o], r[j].pair)
  {
    SnocPairsOffered(s, xs, o);
    forall i, j | 0 <= i < j < |AddRate(s, o.pair, o.rate)|
      ensures var r := AddRate(s, o.pair, o.rate);
        FirstArrival(xs + [o], r[i].pair) < FirstArrival(xs + [o], r[j].pair)
    {
      SnocOrderAt(s, xs, o, i, j);
    }
  }

  /** One more offer turns the conflation of a burst into the conflation of the longer burst. */
  lemma ConflationSnoc<R>(s: seq<Slot<R>>, xs: seq<Slot<R>>, o: Slot<R>)
    requires IsConflationOf(s, xs)
    ensures IsConflationOf(AddRate(s, o.pair, o.rate), xs + [o])
  {
    SnocRates(s, xs, o);
    SnocCoverage(s, xs, o);
    SnocOrder(s, xs, o);
  }

  /**
    Conflation: a burst of offers with no drain in between leaves exactly the conflation of
    the burst pending, whatever the burst.
  */
  lemma {:induction false} OfferAllConflates<R>(offers: seq<Slot<R>>)
    ensures IsConflationOf(OfferAll([], offers), offers)
    decreases |offers|
  {
    if offers != [] {
      var n := |offers| - 1;
      var xs, o := offers[..n], offers[n];
      var s := OfferAll([], xs);
      assert xs + [o] == offers && OfferAll([], offers) == AddRate(s, o.pair, o.rate);
      OfferAllConflates(xs);
      ConflationSnoc(s, xs, o);
    }
  }

  /** Three rates for one pair offered back to back leave one slot, with the last rate. */
  lemma BurstCollapsesToLastRate<R>(p: Pair, r1: R, r2: R, r3: R)
    ensures OfferAll([], [Slot(p, r1), Slot(p, r2), Slot(p, r3)]) == [Slot(p, r3)]
  {
    var offers := [Slot(p, r1), Slot(p, r2), Slot(p, r3)];
    assert offers[..2][..1] == [Slot(p, r1)] && offers[..2][..1][..0] == [];
    assert OfferAll([], offers[..2][..1]) == [Slot(p, r1)];
    assert FindPair([Slot(p, r1)], p) == Some(0);
    assert OfferAll([], offers[..2]) == [Slot(p, r2)];
    assert FindPair([Slot(p, r2)], p) == Some(0);
  }

  /**
    A pair keeps the position of its first arrival: (a, x), (b, y), (a, z) leave a before b,
    with a's last rate.
  */
  lemma PositionFixedAtFirstArrival<R>(a: Pair, b: Pair, x: R, y: R, z: R)
    requires a != b
    ensures OfferAll([], [Slot(a, x), Slot(b, y), Slot(a, z)]) == [Slot(a, z), Slot(b, y)]
  {
    var offers := [Slot(a, x), Slot(b, y), Slot(a, z)];
    assert offers[..2][..1] == [Slot(a, x)] && offers[..2][..1][..0] == [];
    assert OfferAll([], offers[..2][..1]) == [Slot(a, x)];
    assert FindPair([Slot(a, x)], b) == None;
    assert OfferAll([], offers[..2]) == [Slot(a, x), Slot(b, y)];
    assert FindPair([Slot(a, x), Slot(b, y)], a) == Some(0);
  }

  /**
    What a subscriber holds after receiving the slots `s` in order, each delivery
    overwriting the previous rate of its pair: for every pair received, the rate it
    received last.
  */
  function Latest<R>(s: seq<Slot<R>>): map<Pair, R>
    decreases |s|
  {
    if s == [] then map[]
    else
      var n := |s| - 1;
      Latest(s[..n])[s[n].pair := s[n].rate]
  }

  /** Latest holds exactly the received pairs, each with the rate of its last delivery. */
  lemma {:induction false} LatestIsLastDelivery<R>(s: seq<Slot<R>>)
    ensures forall p :: p in Latest(s) <==> p in Pairs(s)
    ensures forall p :: p in Latest(s) ==> Latest(s)[p] == s[LastIndex(s, p)].rate
    decreases |s|
  {
    if s != [] {
      var n := |s| - 1;
      LatestIsLastDelivery(s[..n]);
      assert forall i :: 0 <= i < n ==> Pairs(s[..n])[i] == Pairs(s)[i];
      forall p | p in Pairs(s) && p != s[n].pair ensures p in Pairs(s[..n]) {
        var i :| 0 <= i < |s| && Pairs(s)[i] == p;
      }
    }
  }

  /** Receiving `a` then `b` leaves `b`'s rates over `a`'s. */
  lemma {:induction false} LatestAppend<R>(a: seq<Slot<R>>, b: seq<Slot<R>>)
    ensures Latest(a + b) == Latest(a) + Latest(b)
    decreases |b|
  {
    if b == [] {
      assert a + b == a;
    } else {
      var n := |b| - 1;
      var x := b[n];
      LatestAppend(a, b[..n]);
      assert (a + b)[..|a + b| - 1] == a + b[..n] && (a + b)[|a + b| - 1] == x;
      calc {
        Latest(a + b);
        Latest(a + b[..n])[x.pair := x.rate];
        (Latest(a) + Latest(b[..n]))[x.pair := x.rate];
        { UnionThenPut(Latest(a), Latest(b[..n]), x.pair, x.rate); }
        Latest(a) + Latest(b[..n])[x.pair := x.rate];
        Latest(a) + Latest(b);
      }
    }
  }

  lemma UnionThenPut<K, V>(m: map<K, V>, m': map<K, V>, k: K, v: V)
    ensures (m + m')[k := v] == m + m'[k := v]
  {
  }

  /** In a list without duplicate pairs, each slot's rate is the latest for its pair. */
  lemma LatestAt<R>(s: seq<Slot<R>>, i: nat)
    requires NoDuplicatePairs(s) && i < |s|
    ensures s[i].pair in Latest(s) && Latest(s)[s[i].pair] == s[i].rate
  {
    LatestIsLastDelivery(s);
    assert Pairs(s)[i] == s[i].pair;
  }

  lemma PutUnderUnion<K, V>(m: map<K, V>, m': map<K, V>, k: K, v: V, w: V)
    requires k !in m'
    ensures (m[k := w] + m')[k := v] == m[k := v] + m'
  {
  }

  /** Replacing one slot whose pair occurs nowhere after it is one put of the new rate. */
  lemma LatestReplace<R>(pre: seq<Slot<R>>, x: Slot<R>, post: seq<Slot<R>>, rate: R)
    requires x.pair !in Latest(post)
    ensures Latest(pre + [Slot(x.pair, rate)] + post) == Latest(pre + [x] + post)[x.pair := rate]
  {
    var y := Slot(x.pair, rate);
    LatestAppend(pre + [x], post);
    LatestAppend(pre + [y], post);
    assert (pre + [x])[..|pre|] == pre && (pre + [y])[..|pre|] == pre;
    PutUnderUnion(Latest(pre), Latest(post), x.pair, rate, x.rate);
  }

  /** Under unique pairs, the pair of slot `i` is absent from everything after it. */
  lemma LatestAfterOmits<R>(s: seq<Slot<R>>, i: nat)
    requires NoDuplicatePairs(s) && i < |s|
    ensures s[i].pair !in Latest(s[i + 1..])
  {
    var post := s[i + 1..];
    forall k | 0 <= k < |post| ensures Pairs(post)[k] != s[i].pair {
      assert post[k] == s[i + 1 + k];
    }
    LatestIsLastDelivery(post);
  }

  /** Replacing slot `i` is splicing the new slot in between the slots around it. */
  lemma UpdateIsSplice<R>(s: seq<Slot<R>>, i: nat, x: Slot<R>)
    requires i < |s|
    ensures s == s[..i] + [s[i]] + s[i + 1..]
    ensures s[i := x] == s[..i] + [x] + s[i + 1..]
  {
  }

  /** addRate, read through Latest, is a single put of the new rate. */
  lemma LatestAddRate<R>(s: seq<Slot<R>>, p: Pair, rate: R)
    requires NoDuplicatePairs(s)
    ensures Latest(AddRate(s, p, rate)) == Latest(s)[p := rate]
  {
    match FindPair(s, p)
    case None =>
      var r := AddRate(s, p, rate);
      assert r == s + [Slot(p, rate)] && r[..|s|] == s;
    case Some(i) =>
      LatestAfterOmits(s, i);
      assert AddRate(s, p, rate) == s[i := Slot(p, rate)] by {
        assert s[i].WithRate(rate) == Slot(p, rate);
      }
      UpdateIsSplice(s, i, Slot(p, rate));
      LatestReplace(s[..i], s[i], s[i + 1..], rate);
  }

  /**
    An offer, read through Latest, is one put on what the subscriber would hold once the
    pending list is delivered.
  */
  lemma LatestAfterOffer<R>(received: seq<Slot<R>>, s: seq<Slot<R>>, p: Pair, rate: R)
    requires NoDuplicatePairs(s)
    ensures Latest(received) + Latest(AddRate(s, p, rate)) == (Latest(received) + Latest(s))[p := rate]
  {
    LatestAddRate(s, p, rate);
    UnionThenPut(Latest(received), Latest(s), p, rate);
  }

  /** A conflation holds exactly the offered pairs. */
  lemma ConflationSameKeys<R>(r: seq<Slot<R>>, offers: seq<Slot<R>>)
    requires IsConflationOf(r, offers)
    ensures Latest(r).Keys == Latest(offers).Keys
  {
    LatestIsLastDelivery(r);
    LatestIsLastDelivery(offers);
    forall q | q in Pairs(r) ensures q in Pairs(offers) {
      var k :| 0 <= k < |r| && Pairs(r)[k] == q;
    }
  }

  /** Slot `k` of a conflation carries the latest offered rate of its pair. */
  lemma ConflationSameRate<R>(r: seq<Slot<R>>, offers: seq<Slot<R>>, k: nat)
    requires IsConflationOf(r, offers) && k < |r|
    ensures r[k].pair in Latest(offers) && Latest(offers)[r[k].pair] == r[k].rate
  {
    LatestIsLastDelivery(offers);
  }

  /**
    Conflation loses no latest value: a subscriber that receives only the conflation of a
    burst ends up holding the same rate per pair as one that received every offer.
  */
  lemma ConflationKeepsLatest<R>(r: seq<Slot<R>>, offers: seq<Slot<R>>)
    requires IsConflationOf(r, offers)
    ensures Latest(r) == Latest(offers)
  {
    ConflationSameKeys(r, offers);
    ConflationHasNoDuplicatePairs(r, offers);
    LatestIsLastDelivery(r);
    forall q | q in Latest(r) ensures Latest(r)[q] == Latest(offers)[q] {
      var k :| 0 <= k < |r| && Pairs(r)[k] == q;
      ConflationSameRate(r, offers, k);
      LatestAt(r, k);
    }
  }
}
