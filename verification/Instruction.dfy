/** price-feed/src/instruction.rs: the test a rate has to pass before a node signs it, and how close two quorums are. */
module Instructions {
  import opened Bytes
  import opened Prelude
  import opened FeedRegistries
  import opened PriceData
  import opened StormTrees

  const BASIS_POINTS: nat := 10_000

  datatype ValidationError =
    | UnknownFeed
    | NoLocalPrice
    | Stale
    | ImplausibleTimestamp
    | StretchedValidity
    | WrongDecimals
    | DeviationExceeded

  predicate WithinDeviation(instructed: nat, own: nat) {
    AbsDiff(instructed, own) * BASIS_POINTS < instructed * MAX_ACCEPT_DEVIATION_FEED_BPS
  }

  function Validate(instructed: PriceFeedData, registry: FeedRegistry, own: Option<PriceFeedData>,
                    now: nat): Result<Unit, ValidationError> {
    var definition := registry.Get(instructed.feedId);
    if definition.None? then Err(UnknownFeed)
    else if own.None? then Err(NoLocalPrice)
    else if now >= instructed.validUntil then Err(Stale)
    else if instructed.StampedAhead(now) then Err(ImplausibleTimestamp)
    else if instructed.ValidityStretched() then Err(StretchedValidity)
    else if instructed.decimals != definition.value.decimals then Err(WrongDecimals)
    else if !WithinDeviation(instructed.price, own.value.price) then Err(DeviationExceeded)
    else Ok(Unit)
  }

  /** The bound multiplied out: the signer's own price lies strictly within one percent of the instructed one. */
  lemma DeviationIsOnePercent(instructed: nat, own: nat)
    ensures WithinDeviation(instructed, own) <==> 99 * instructed < 100 * own < 101 * instructed
  {
  }

  /**
   * What a signer accepts: a rate of a registered feed at its decimals, not expired, stamped at most five seconds
   * ahead, valid for at most 300 seconds from its stamp, and strictly within one percent of the signer's own.
   */
  lemma AcceptanceIsExact(rate: PriceFeedData, registry: FeedRegistry, own: Option<PriceFeedData>, now: nat)
    requires rate.InRange() && registry.UniqueIds() && now <= U64_MAX
    ensures Validate(rate, registry, own, now).Ok? <==>
              && (exists feed :: feed in registry.feeds && feed.id == rate.feedId && feed.decimals == rate.decimals)
              && own.Some? && 99 * rate.price < 100 * own.value.price < 101 * rate.price
              && now < rate.validUntil <= rate.receivedAt + 300 && rate.receivedAt <= now + 5
  {
    EightBytes();
    if feed :| feed in registry.feeds && feed.id == rate.feedId && feed.decimals == rate.decimals {
      FirstFinds(registry.feeds, rate.feedId, feed);
    }
    if registry.Get(rate.feedId).Some? {
      FirstFinds(registry.feeds, rate.feedId, registry.Get(rate.feedId).value);
    }
    if own.Some? {
      DeviationIsOnePercent(rate.price, own.value.price);
    }
  }

  lemma EightBytes()
    ensures Pow256(8) == U64_MAX + 1
  {
    assert Pow256(4) == U32_MAX + 1;
  }

  /** So whatever a node signs has expired 305 seconds later, by the same clock. */
  lemma SignedRateExpires(rate: PriceFeedData, registry: FeedRegistry, own: Option<PriceFeedData>, now: nat,
                          later: nat, held: Option<PriceFeedData>)
    requires rate.InRange() && registry.UniqueIds() && now <= U64_MAX && now + 305 <= later
    requires Validate(rate, registry, own, now).Ok?
    ensures Validate(rate, registry, held, later).Err?
  {
    AcceptanceIsExact(rate, registry, own, now);
  }

  /**
   * Two rates that each passed at every honest member of some threshold set, against the same local values, are
   * close.
   */
  lemma QuorumsAgreeOnPrice(nodes: set<Key>, faulty: set<Key>, a: set<Key>, b: set<Key>, registry: FeedRegistry,
                            own: map<Key, Option<PriceFeedData>>, r1: PriceFeedData, r2: PriceFeedData,
                            clockA: map<Key, nat>, clockB: map<Key, nat>)
    requires nodes != {} && a <= nodes && b <= nodes && |faulty| <= (|nodes| - 1) / 3
    requires |a| >= MinimumThreshold(|nodes|) && |b| >= MinimumThreshold(|nodes|)
    requires own.Keys == clockA.Keys == clockB.Keys == nodes
    requires forall node | node in a - faulty :: Validate(r1, registry, own[node], clockA[node]).Ok?
    requires forall node | node in b - faulty :: Validate(r2, registry, own[node], clockB[node]).Ok?
    ensures 99 * r1.price < 101 * r2.price && 99 * r2.price < 101 * r1.price
  {
    QuorumsShareAnHonestNode(nodes, a, b, faulty);
    var node :| node in a && node in b && node !in faulty;
    DeviationIsOnePercent(r1.price, own[node].value.price);
    DeviationIsOnePercent(r2.price, own[node].value.price);
  }
}
