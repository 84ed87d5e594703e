/** price-feed/src/source.rs and reduce.rs: observations, their validation, and their median. */
module Reducing {
  import opened Prelude
  import opened Sorting
  import opened FeedRegistries
  import opened PriceData
  import opened CrossPrices

  datatype SourceObservation = SourceObservation(price: nat, decimals: nat, observedAt: nat, receivedAt: nat,
      validUntil: nat)

  datatype RejectionReason = InvalidPrice | Expired | ClockSkewExceeded | StaleObservation

  function NewObservation(price: nat, decimals: nat, observedAt: nat, receivedAt: nat): SourceObservation {
    SourceObservation(price, decimals, observedAt, receivedAt, SaturatingAdd(receivedAt, VALIDITY_WINDOW))
  }

  /** `PriceSource::validate`. */
  function ValidateObservation(obs: SourceObservation, lastObservedAt: Option<nat>): Result<Unit, RejectionReason> {
    if obs.price == 0 then Err(InvalidPrice)
    else if SaturatingSub(obs.receivedAt, obs.observedAt) > SOURCE_DATA_VALIDITY_DURATION then Err(Expired)
    else if SaturatingSub(obs.observedAt, obs.receivedAt) > MAX_CLOCK_SKEW then Err(ClockSkewExceeded)
    else if lastObservedAt.Some? && obs.observedAt <= lastObservedAt.value then Err(StaleObservation)
    else Ok(Unit)
  }

  // ----- The median -----

  function Prices(observations: seq<SourceObservation>): seq<nat> {
    seq(|observations|, i requires 0 <= i < |observations| => observations[i].price)
  }

  /** The middle price, or the two middle ones averaged with an exact half to the even. */
  function Median(prices: seq<nat>): nat
    requires prices != []
  {
    var sorted := SortKeys(prices);
    var middle := |sorted| / 2;
    if |sorted| % 2 == 1 then sorted[middle]
    else
      var sum := sorted[middle - 1] + sorted[middle];
      var half := sum / 2;
      if sum % 2 == 1 && half % 2 == 1 then half + 1 else half
  }

  /** Nodes that list the same prices in different orders agree on the median. */
  lemma MedianForgetsOrder(a: seq<nat>, b: seq<nat>)
    requires a != [] && multiset(a) == multiset(b)
    ensures b != [] && Median(a) == Median(b)
  {
    SameElements(a, b);
    SortKeysForgetsOrder(a, b);
  }

  /** Between two middle prices the median is their mean to the nearest, ties to even; it fits where they do. */
  lemma MedianIsRoundedMean(prices: seq<nat>)
    requires prices != [] && |prices| % 2 == 0
    ensures var sorted, middle := SortKeys(prices), |prices| / 2;
            Median(prices) == RoundHalfEven(sorted[middle - 1] + sorted[middle], 2)
    ensures (forall price | price in prices :: price <= U64_MAX) ==> Median(prices) <= U64_MAX
  {
    var sorted, middle := SortKeys(prices), |prices| / 2;
    assert sorted[middle - 1] in prices && sorted[middle] in prices;
  }

  function CountWithin(prices: seq<nat>, low: nat, high: nat): nat {
    if prices == [] then 0
    else (if low <= prices[0] <= high then 1 else 0) + CountWithin(prices[1..], low, high)
  }

  lemma {:induction false} CountInserted(x: nat, s: seq<nat>, low: nat, high: nat)
    ensures CountWithin(InsertBy(x, s, KeyLe), low, high) == CountWithin(s, low, high) + if low <= x <= high then 1
            else 0
  {
    if s != [] && !KeyLe(x, s[0]) {
      CountInserted(x, s[1..], low, high);
      var rest := InsertBy(x, s[1..], KeyLe);
      assert ([s[0]] + rest)[1..] == rest;
    } else if s != [] {
      assert ([x] + s)[1..] == s;
    }
  }

  lemma {:induction false} CountSorted(prices: seq<nat>, low: nat, high: nat)
    ensures CountWithin(SortBy(prices, KeyLe), low, high) == CountWithin(prices, low, high)
  {
    if prices != [] {
      CountSorted(prices[1..], low, high);
      CountInserted(prices[0], SortBy(prices[1..], KeyLe), low, high);
    }
  }

  lemma {:induction false} CountAtMost(s: seq<nat>, low: nat, high: nat)
    ensures CountWithin(s, low, high) <= |s|
  {
    if s != [] {
      CountAtMost(s[1..], low, high);
    }
  }

  /** In sorted prices, those below `low` up to position `i` do not count. */
  lemma {:induction false} BelowDoNotCount(s: seq<nat>, i: nat, low: nat, high: nat)
    requires SortedBy(s, KeyLe) && i < |s| && s[i] < low
    ensures CountWithin(s, low, high) < |s| - i
  {
    assert KeyLe(s[0], s[i]) || i == 0;
    if i == 0 {
      CountAtMost(s[1..], low, high);
    } else {
      BelowDoNotCount(s[1..], i - 1, low, high);
    }
  }

  lemma {:induction false} AboveDoNotCount(s: seq<nat>, i: nat, low: nat, high: nat)
    requires SortedBy(s, KeyLe) && i < |s| && s[i] > high
    ensures CountWithin(s, low, high) <= i
  {
    if i == 0 {
      if |s| > 1 {
        assert KeyLe(s[0], s[1]);
        AboveDoNotCount(s[1..], 0, low, high);
      }
    } else {
      AboveDoNotCount(s[1..], i - 1, low, high);
    }
  }

  /** Whatever the other sources report, a majority of prices inside an interval keeps the median inside it. */
  lemma MajorityBoundsMedian(prices: seq<nat>, low: nat, high: nat)
    requires prices != [] && 2 * CountWithin(prices, low, high) > |prices|
    ensures low <= Median(prices) <= high
  {
    var sorted := SortKeys(prices);
    var middle := |sorted| / 2;
    CountSorted(prices, low, high);
    var first := if |sorted| % 2 == 1 then middle else middle - 1;
    if sorted[first] < low {
      BelowDoNotCount(sorted, first, low, high);
    }
    if sorted[middle] > high {
      AboveDoNotCount(sorted, middle, low, high);
    }
    MiddlesInside(prices, low, high, sorted[first], sorted[middle]);
  }

  lemma MiddlesInside(prices: seq<nat>, low: nat, high: nat, first: nat, second: nat)
    requires prices != []
    requires var sorted := SortKeys(prices);
             && second == sorted[|sorted| / 2]
             && first == if |sorted| % 2 == 1 then second else sorted[|sorted| / 2 - 1]
    requires low <= first && second <= high
    ensures low <= Median(prices) <= high
  {
    var sorted := SortKeys(prices);
    assert |sorted| % 2 == 0 ==> KeyLe(sorted[|sorted| / 2 - 1], sorted[|sorted| / 2]);
  }

  // ----- reduce -----

  function EarliestReceipt(observations: seq<SourceObservation>): nat
    requires observations != []
  {
    if |observations| == 1 then observations[0].receivedAt
    else Min(observations[0].receivedAt, EarliestReceipt(observations[1..]))
  }

  function EarliestValidity(observations: seq<SourceObservation>): nat
    requires observations != []
  {
    if |observations| == 1 then observations[0].validUntil
    else Min(observations[0].validUntil, EarliestValidity(observations[1..]))
  }

  /** `MedianReducer::reduce`. */
  function Reduce(registry: FeedRegistry, feed: FeedId, observations: seq<SourceObservation>): Option<PriceFeedData> {
    var definition :- registry.Get(feed);
    if observations == [] || exists i :: 0 <= i < |observations| && observations[i].decimals != definition.decimals
        then None
    else Some(PriceFeedData(feed, Median(Prices(observations)), definition.decimals,
                            EarliestReceipt(observations), EarliestValidity(observations)))
  }

  /** When every observation is valid for the window from its receipt, so is the reduced value. */
  lemma {:induction false} ReducedStamps(observations: seq<SourceObservation>, now: nat)
    requires observations != []
    requires forall i | 0 <= i < |observations| ::
               && observations[i].validUntil == SaturatingAdd(observations[i].receivedAt, VALIDITY_WINDOW)
               && observations[i].receivedAt <= now <= observations[i].validUntil
    ensures EarliestValidity(observations) == SaturatingAdd(EarliestReceipt(observations), VALIDITY_WINDOW)
    ensures EarliestReceipt(observations) <= now <= EarliestValidity(observations)
  {
    if |observations| > 1 {
      ReducedStamps(observations[1..], now);
    }
  }

  lemma {:induction false} StampsBoundObservations(observations: seq<SourceObservation>)
    requires observations != []
    ensures forall o | o in observations ::
              EarliestReceipt(observations) <= o.receivedAt && EarliestValidity(observations) <= o.validUntil
    ensures exists o :: o in observations && o.receivedAt == EarliestReceipt(observations)
    ensures exists o :: o in observations && o.validUntil == EarliestValidity(observations)
  {
    if |observations| == 1 {
      assert observations[0] in observations;
    } else {
      StampsBoundObservations(observations[1..]);
      assert observations == [observations[0]] + observations[1..];
      assert observations[0] in observations;
    }
  }

  /** The value says no more than its sources: as old as the oldest of them, and valid only while all of them are. */
  ghost predicate Summarises(value: PriceFeedData, observations: seq<SourceObservation>) {
    && (forall o | o in observations :: value.receivedAt <= o.receivedAt && value.validUntil <= o.validUntil)
    && (exists o :: o in observations && o.receivedAt == value.receivedAt)
    && (exists o :: o in observations && o.validUntil == value.validUntil)
  }

  /** A feed's observations are reduced exactly when there are some and all have the feed's decimals. */
  lemma ReductionIsExact(registry: FeedRegistry, definition: FeedDefinition, observations: seq<SourceObservation>)
    requires registry.UniqueIds() && definition in registry.feeds
    ensures var r := Reduce(registry, definition.id, observations);
            && (r.Some? <==> observations != [] && forall o | o in observations :: o.decimals == definition.decimals)
            && (r.Some? ==>
                  && r.value.feedId == definition.id && r.value.decimals == definition.decimals
                  && r.value.price == Median(Prices(observations)) && Summarises(r.value, observations))
  {
    FirstFinds(registry.feeds, definition.id, definition);
    if observations != [] {
      StampsBoundObservations(observations);
    }
  }

  /** A source passes a positive price, observed at most 300 seconds ago or 5 ahead, and newer than its last one. */
  lemma ValidationIsExact(obs: SourceObservation, last: Option<nat>)
    ensures ValidateObservation(obs, last).Ok? <==>
              && obs.price > 0 && obs.receivedAt - 300 <= obs.observedAt <= obs.receivedAt + 5
              && (last.Some? ==> last.value < obs.observedAt)
  {
  }
}
