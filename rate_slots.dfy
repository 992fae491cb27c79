/**
  The pending list of one subscriber: an ordered sequence of rate slots, at most one per
  currency pair, and the find-or-append update that a new price applies to it
  (PriceProcessorHelper.addRate and its RateValue records in PriceThrottler.java).
*/
module RateSlots {
  import opened Wrappers

  /** A currency pair such as "EURUSD". */
  type Pair = string

  /**
    A RateValue: a pair and the rate pending for it. The rate is only stored and copied,
    never computed on, so its type is a parameter.
  */
  datatype Slot<R> = Slot(pair: Pair, rate: R) {
    /**
      RateValue.isPair: this slot is the one for pair `p` exactly when it is the slot
      (p, its rate).
    */
    predicate IsPair(p: Pair): (b: bool)
      ensures b <==> this == Slot(p, rate)
    {
      pair == p
    }

    /** RateValue.setRate: the pair is final, only the rate is replaced. */
    function WithRate(r: R): (s: Slot<R>)
      ensures s.pair == pair && s.rate == r
    {
      this.(rate := r)
    }
  }

  /** The pairs of a slot list, in list order. */
  function Pairs<R>(s: seq<Slot<R>>): (ps: seq<Pair>)
    ensures |ps| == |s|
    ensures forall i :: 0 <= i < |s| ==> ps[i] == s[i].pair
  {
    seq(|s|, i requires 0 <= i < |s| => s[i].pair)
  }

  lemma PairsAppend<R>(a: seq<Slot<R>>, b: seq<Slot<R>>)
    ensures Pairs(a + b) == Pairs(a) + Pairs(b)
  {
  }

  /** The invariant of the pending list: no two slots carry the same pair. */
  ghost predicate NoDuplicatePairs<R>(s: seq<Slot<R>>) {
    forall i, j :: 0 <= i < j < |s| ==> s[i].pair != s[j].pair
  }

  /**
    The lookup of addRate: the position of the slot holding pair `p`, if any. The source
    asks for any matching slot; this returns the first, which under NoDuplicatePairs is the
    only one.
  */
  function FindPair<R>(s: seq<Slot<R>>, p: Pair): (r: Option<nat>)
    ensures r.Some? ==> r.value < |s| && s[r.value].pair == p
    ensures r.Some? ==> forall j :: 0 <= j < r.value ==> s[j].pair != p
    ensures r.None? <==> p !in Pairs(s)
  {
    if s == [] then None
    else if s[0].IsPair(p) then Some(0)
    else match FindPair(s[1..], p)
      case None => None
      case Some(i) => Some(i + 1)
  }

  /**
    addRate's effect on the list: overwrite the rate of the slot holding `p` where it
    stands, or append a new slot for `p` at the back.
  */
  function AddRate<R>(s: seq<Slot<R>>, p: Pair, rate: R): (r: seq<Slot<R>>)
    ensures Pairs(r) == if p in Pairs(s) then Pairs(s) else Pairs(s) + [p]
    ensures forall i :: 0 <= i < |s| && s[i].pair != p ==> r[i] == s[i]
    ensures Slot(p, rate) in r
  {
    match FindPair(s, p)
    case Some(i) => s[i := s[i].WithRate(rate)]
    case None => s + [Slot(p, rate)]
  }

  /** A pair already pending keeps its position; only its rate changes. */
  lemma AddRateOverwritesInPlace<R>(s: seq<Slot<R>>, p: Pair, rate: R, i: nat)
    requires NoDuplicatePairs(s)
    requires i < |s| && s[i].pair == p
    ensures |AddRate(s, p, rate)| == |s|
    ensures AddRate(s, p, rate)[i] == Slot(p, rate)
    ensures forall j :: 0 <= j < |s| && j != i ==> AddRate(s, p, rate)[j] == s[j]
  {
    var r := AddRate(s, p, rate);
    assert p in Pairs(s);
    assert |r| == |Pairs(r)| == |s|;
    forall j | 0 <= j < |s| && j != i
      ensures r[j] == s[j]
    {
      assert s[j].pair != p;
    }
    var k :| 0 <= k < |r| && r[k] == Slot(p, rate);
    assert Pairs(s)[k] == Pairs(r)[k] == p;
  }

  /** A pair not pending is appended as one new slot; the slots before it are untouched. */
  lemma AddRateAppendsNew<R>(s: seq<Slot<R>>, p: Pair, rate: R)
    requires p !in Pairs(s)
    ensures AddRate(s, p, rate) == s + [Slot(p, rate)]
  {
    var r := AddRate(s, p, rate);
    assert |r| == |Pairs(r)| == |s| + 1;
    forall j | 0 <= j < |s|
      ensures r[j] == s[j]
    {
      assert Pairs(s)[j] != p;
    }
    var k :| 0 <= k < |r| && r[k] == Slot(p, rate);
    if k < |s| {
      assert Pairs(s)[k] != p;
    }
  }

  /** addRate keeps the list free of duplicate pairs. */
  lemma AddRateKeepsPairsUnique<R>(s: seq<Slot<R>>, p: Pair, rate: R)
    requires NoDuplicatePairs(s)
    ensures NoDuplicatePairs(AddRate(s, p, rate))
  {
    var r := AddRate(s, p, rate);
    forall i, j | 0 <= i < j < |r|
      ensures r[i].pair != r[j].pair
    {
      assert Pairs(r)[i] == r[i].pair && Pairs(r)[j] == r[j].pair;
      if j < |s| {
        assert Pairs(s)[i] == s[i].pair && Pairs(s)[j] == s[j].pair;
      } else {
        assert p !in Pairs(s);
        assert Pairs(s)[i] == s[i].pair;
      }
    }
  }
}
