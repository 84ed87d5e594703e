/** price-feed/src/feed_state.rs: what a node holds of each feed's sources, and the values it derives from it. */
module FeedStateMachine {
  import opened Prelude
  import opened Sorting
  import opened FeedRegistries
  import opened PriceData
  import opened CrossRoutes
  import opened CrossPrices
  import opened Reducing
  import opened Instructions

  datatype SourceState = Active | Dropped | Frozen

  datatype SourceRecord = SourceRecord(state: SourceState, failures: nat, observation: Option<SourceObservation>,
      retryAt: Option<nat>)

  const FRESH := SourceRecord(Active, 0, None, None)

  type Sources = map<nat, SourceRecord>

  function RecordOf(sources: Sources, source: nat): SourceRecord {
    if source in sources then sources[source] else FRESH
  }

  // ----- The transitions -----

  datatype Event =
    | Freeze(source: nat)
    | Unfreeze(source: nat)
    | PollFailed(source: nat, now: nat)
    | PollSucceeded(source: nat, obs: SourceObservation)

  /** The record of the event's source after the event. */
  function Next(record: SourceRecord, event: Event): SourceRecord {
    match event
    case Freeze(_) => record.(state := Frozen, retryAt := None)
    case Unfreeze(_) => record.(state := Active, failures := 0, retryAt := None)
    case PollFailed(_, now) =>
      if record.state.Frozen? then record
      else
        var failures := Min(record.failures + 1, U32_MAX);
        if failures >= MAX_POLLING_ERROR_NUM
        then SourceRecord(Dropped, failures, None, Some(SaturatingAdd(now, POLLING_RETRY_TIME)))
        else record.(failures := failures)
    case PollSucceeded(_, obs) =>
      if record.state.Frozen? then record else SourceRecord(Active, 0, Some(obs), None)
  }

  function Apply(sources: Sources, event: Event): Sources {
    sources[event.source := Next(RecordOf(sources, event.source), event)]
  }

  function Run(events: seq<Event>): Sources {
    if events == [] then map[] else Apply(Run(events[..|events| - 1]), events[|events| - 1])
  }

  /** The operator's last word on the source was to freeze it. */
  predicate FrozenAfter(events: seq<Event>, source: nat) {
    if events == [] then false
    else
      var last, before := events[|events| - 1], events[..|events| - 1];
      if last.source != source then FrozenAfter(before, source)
      else match last
        case Freeze(_) => true
        case Unfreeze(_) => false
        case _ => FrozenAfter(before, source)
  }

  /** Failures counted since the last success or unfreeze; nothing counts while frozen. */
  function FailuresAfter(events: seq<Event>, source: nat): nat {
    if events == [] then 0
    else
      var last, before := events[|events| - 1], events[..|events| - 1];
      if last.source != source then FailuresAfter(before, source)
      else match last
        case Freeze(_) => FailuresAfter(before, source)
        case Unfreeze(_) => 0
        case PollFailed(_, _) => FailuresAfter(before, source) + if FrozenAfter(before, source) then 0 else 1
        case PollSucceeded(_, _) => if FrozenAfter(before, source) then FailuresAfter(before, source) else 0
  }

  /**
   * In every run a source is Frozen exactly when last frozen, and otherwise Dropped exactly at five failures in a
   * row.
   */
  lemma {:induction false} StateFollowsHistory(events: seq<Event>, source: nat)
    ensures var record := RecordOf(Run(events), source);
            && record.state == (if FrozenAfter(events, source) then Frozen
                                else if FailuresAfter(events, source) >= MAX_POLLING_ERROR_NUM then Dropped
                                else Active)
            && record.failures == Min(FailuresAfter(events, source), U32_MAX)
            && (record.state.Dropped? <==> record.retryAt.Some?)
            && (record.state.Dropped? ==> record.observation.None?)
  {
    if events != [] {
      StateFollowsHistory(events[..|events| - 1], source);
    }
  }

  predicate IsPollable(sources: Sources, source: nat, now: nat) {
    var record := RecordOf(sources, source);
    match record.state
    case Active => true
    case Dropped => record.retryAt.Some? && now >= record.retryAt.value
    case Frozen => false
  }

  /** When the last counted failure happened. */
  function LastFailureAt(events: seq<Event>, source: nat): nat {
    if events == [] then 0
    else
      var last, before := events[|events| - 1], events[..|events| - 1];
      if last.source == source && last.PollFailed? && !FrozenAfter(before, source) then last.now
      else LastFailureAt(before, source)
  }

  lemma {:induction false} RetryFollowsHistory(events: seq<Event>, source: nat)
    ensures var record := RecordOf(Run(events), source);
            record.state.Dropped? ==>
              record.retryAt == Some(SaturatingAdd(LastFailureAt(events, source), POLLING_RETRY_TIME))
  {
    if events != [] {
      RetryFollowsHistory(events[..|events| - 1], source);
      StateFollowsHistory(events[..|events| - 1], source);
    }
  }

  /**
   * In every run a source is polled unless frozen, but after five failures in a row only a minute after the last one.
   */
  lemma PollingFollowsHistory(events: seq<Event>, source: nat, now: nat)
    ensures IsPollable(Run(events), source, now) <==>
              && !FrozenAfter(events, source)
              && (FailuresAfter(events, source) < MAX_POLLING_ERROR_NUM
                  || now >= SaturatingAdd(LastFailureAt(events, source), POLLING_RETRY_TIME))
  {
    StateFollowsHistory(events, source);
    RetryFollowsHistory(events, source);
  }

  /** The last success that counted: the one not reported while the source was frozen. */
  function LastSuccess(events: seq<Event>, source: nat): Option<nat> {
    if events == [] then None
    else
      var last, before := events[|events| - 1], events[..|events| - 1];
      if last.source == source && last.PollSucceeded? && !FrozenAfter(before, source) then Some(|before|)
      else LastSuccess(before, source)
  }

  /** The n-th event is a failure that counts, and at least the fifth in a row. */
  predicate DropsAt(events: seq<Event>, source: nat, n: int) {
    && 0 < n <= |events| && events[n - 1].source == source && events[n - 1].PollFailed?
    && !FrozenAfter(events[..n - 1], source) && FailuresAfter(events[..n], source) >= MAX_POLLING_ERROR_NUM
  }

  /** The source has been dropped after the first events of the run. */
  ghost predicate DroppedSince(events: seq<Event>, source: nat, from: nat) {
    exists n :: from < n <= |events| && DropsAt(events, source, n)
  }

  lemma {:induction false} LastSuccessIsOne(events: seq<Event>, source: nat)
    requires LastSuccess(events, source).Some?
    ensures var i := LastSuccess(events, source).value;
            i < |events| && events[i].PollSucceeded? && events[i].source == source
  {
    var before := events[..|events| - 1];
    if LastSuccess(events, source) == LastSuccess(before, source) {
      LastSuccessIsOne(before, source);
    }
  }

  lemma DroppedByLast(events: seq<Event>, source: nat, from: nat)
    requires events != [] && from <= |events| - 1
    ensures DroppedSince(events, source, from) <==>
              DroppedSince(events[..|events| - 1], source, from) || DropsAt(events, source, |events|)
  {
    var before := events[..|events| - 1];
    forall n | from < n <= |before| ensures DropsAt(before, source, n) <==> DropsAt(events, source, n) {
      assert before[..n] == events[..n] && before[..n - 1] == events[..n - 1];
    }
    if n :| from < n <= |before| && DropsAt(before, source, n) {
      assert DropsAt(events, source, n);
    }
  }

  /** In every run a source holds its last counted observation, unless it has been dropped since: freezing keeps it. */
  lemma {:induction false} ObservationFollowsHistory(events: seq<Event>, source: nat)
    ensures var held, last := RecordOf(Run(events), source).observation, LastSuccess(events, source);
            if last.Some? && !DroppedSince(events, source, last.value + 1)
            then last.value < |events| && events[last.value].PollSucceeded? && held == Some(events[last.value].obs)
            else held.None?
  {
    if events != [] {
      var last, before := events[|events| - 1], events[..|events| - 1];
      ObservationFollowsHistory(before, source);
      StateFollowsHistory(before, source);
      assert events[..|events|] == events;
      var at := LastSuccess(events, source);
      if at.Some? && at.value < |before| {
        LastSuccessIsOne(before, source);
        DroppedByLast(events, source, at.value + 1);
      }
    }
  }

  // ----- Values -----

  function LeastKey(keys: set<nat>): (least: nat)
    requires keys != {}
    ensures least in keys && forall k | k in keys :: least <= k
  {
    LeastExists(keys);
    var k :| k in keys && forall j | j in keys :: k <= j;
    k
  }

  lemma LeastExists(keys: set<nat>)
    requires keys != {}
    ensures exists k :: k in keys && forall j | j in keys :: k <= j
  {
    var least := LeastOf(keys);
  }

  lemma {:induction false} LeastOf(keys: set<nat>) returns (least: nat)
    requires keys != {}
    ensures least in keys && forall j | j in keys :: least <= j
  {
    var picked :| picked in keys;
    least := picked;
    if keys != {picked} {
      var other := LeastOf(keys - {picked});
      least := if other < picked then other else picked;
      forall j | j in keys ensures least <= j {
        if j != picked {
          assert j in keys - {picked};
        }
      }
    }
  }

  /** The observations still valid at `now`, in source order. */
  function ValidObservations(sources: Sources, now: nat): seq<SourceObservation>
    decreases |sources.Keys|
  {
    if sources == map[] then []
    else
      var first := LeastKey(sources.Keys);
      RemovingShrinks(sources, first);
      var observation := sources[first].observation;
      (if observation.Some? && observation.value.validUntil >= now then [observation.value] else [])
      + ValidObservations(sources - {first}, now)
  }

  lemma RemovingShrinks(sources: Sources, key: nat)
    requires key in sources
    ensures |(sources - {key}).Keys| < |sources.Keys|
  {
    assert (sources - {key}).Keys == sources.Keys - {key};
  }

  lemma {:induction false} ValidObservationsAreHeld(sources: Sources, now: nat)
    ensures forall observation | observation in ValidObservations(sources, now) ::
              observation.validUntil >= now && exists s :: s in sources && sources[s].observation == Some(observation)
    decreases |sources.Keys|
  {
    if sources != map[] {
      var first := LeastKey(sources.Keys);
      RemovingShrinks(sources, first);
      ValidObservationsAreHeld(sources - {first}, now);
    }
  }

  /** The source holds an observation that is still valid. */
  predicate Holds(sources: Sources, source: nat, now: nat) {
    source in sources && sources[source].observation.Some? && sources[source].observation.value.validUntil >= now
  }

  /** The sources with a valid observation, in order. */
  ghost predicate AreHolding(ids: seq<nat>, sources: Sources, now: nat) {
    && StrictlyAscending(ids) && (forall id | id in ids :: Holds(sources, id, now))
    && forall source | Holds(sources, source, now) :: source in ids
  }

  function HeldIn(sources: Sources, ids: seq<nat>): (held: seq<SourceObservation>)
    requires forall id | id in ids :: id in sources && sources[id].observation.Some?
    ensures |held| == |ids| && forall i | 0 <= i < |ids| :: held[i] == sources[ids[i]].observation.value
  {
    seq(|ids|, i requires 0 <= i < |ids| => assert ids[i] in ids; sources[ids[i]].observation.value)
  }

  /** Each valid observation once, in the order of the sources. */
  lemma {:induction false} ValidObservationsInOrder(sources: Sources, now: nat) returns (ids: seq<nat>)
    ensures AreHolding(ids, sources, now)
    ensures ValidObservations(sources, now) == HeldIn(sources, ids)
    decreases |sources.Keys|
  {
    if sources == map[] {
      ids := [];
    } else {
      var first := LeastKey(sources.Keys);
      RemovingShrinks(sources, first);
      var rest := ValidObservationsInOrder(sources - {first}, now);
      ids := if Holds(sources, first, now) then [first] + rest else rest;
      FirstHolds(sources, first, rest, now);
    }
  }

  lemma FirstHolds(sources: Sources, first: nat, rest: seq<nat>, now: nat)
    requires first in sources && (forall source | source in sources :: first <= source)
    requires AreHolding(rest, sources - {first}, now)
    ensures var ids := if Holds(sources, first, now) then [first] + rest else rest;
            && AreHolding(ids, sources, now)
            && HeldIn(sources, ids) == (if Holds(sources, first, now) then [sources[first].observation.value] else [])
               + HeldIn(sources - {first}, rest)
  {
    FirstIsHolding(sources, first, rest, now);
    assert forall id | id in rest :: Holds(sources - {first}, id, now);
    RestIsHeld(sources, first, rest);
    if Holds(sources, first, now) {
      OneMoreHeld(sources, first, rest);
    } else {
      assert [] + HeldIn(sources, rest) == HeldIn(sources, rest);
    }
  }

  lemma FirstIsHolding(sources: Sources, first: nat, rest: seq<nat>, now: nat)
    requires first in sources && (forall source | source in sources :: first <= source)
    requires AreHolding(rest, sources - {first}, now)
    ensures AreHolding(if Holds(sources, first, now) then [first] + rest else rest, sources, now)
  {
    var ids := if Holds(sources, first, now) then [first] + rest else rest;
    forall id | id in rest ensures id > first && Holds(sources, id, now) {
      assert Holds(sources - {first}, id, now);
    }
    forall id | id in ids ensures Holds(sources, id, now) {
      assert id == first || id in rest;
    }
    forall source | Holds(sources, source, now) ensures source in ids {
      assert source != first ==> Holds(sources - {first}, source, now) && source in rest;
      assert source == first ==> ids == [first] + rest;
    }
    forall i, j | 0 <= i < j < |ids| ensures ids[i] < ids[j] {
      if Holds(sources, first, now) {
        assert ids[j] == rest[j - 1] && rest[j - 1] in rest;
        assert i > 0 ==> ids[i] == rest[i - 1];
      }
    }
  }

  lemma RestIsHeld(sources: Sources, first: nat, rest: seq<nat>)
    requires forall id | id in rest :: id in sources - {first} && sources[id].observation.Some?
    ensures HeldIn(sources - {first}, rest) == HeldIn(sources, rest)
  {
    forall i | 0 <= i < |rest| ensures HeldIn(sources - {first}, rest)[i] == HeldIn(sources, rest)[i] {
      assert rest[i] in rest;
    }
  }

  lemma OneMoreHeld(sources: Sources, first: nat, rest: seq<nat>)
    requires first in sources && sources[first].observation.Some?
    requires forall id | id in rest :: id in sources && sources[id].observation.Some?
    ensures forall id | id in [first] + rest :: id in sources && sources[id].observation.Some?
    ensures HeldIn(sources, [first] + rest) == [sources[first].observation.value] + HeldIn(sources, rest)
  {
  }

  predicate IsAvailable(sources: Sources, now: nat) {
    (exists s :: s in sources && sources[s].state.Active?) && ValidObservations(sources, now) != []
  }

  function DirectValue(registry: FeedRegistry, definition: FeedDefinition, sources: Sources,
                       now: nat): Option<PriceFeedData> {
    if !IsAvailable(sources, now) then None
    else Reduce(registry, definition.id, ValidObservations(sources, now))
  }

  /**
   * A Direct feed has a value exactly while some source is Active, some hold valid observations, frozen ones included,
   * and all of these have the feed's decimals; it is then the median of exactly those observations.
   */
  lemma DirectValueIsMedian(registry: FeedRegistry, definition: FeedDefinition, sources: Sources, now: nat)
      returns (ids: seq<nat>)
    requires registry.UniqueIds() && definition in registry.feeds
    ensures AreHolding(ids, sources, now)
    ensures DirectValue(registry, definition, sources, now).Some? <==>
              && (exists s :: s in sources && sources[s].state.Active?) && ids != []
              && forall s | s in ids :: Holds(sources, s, now)
                  && sources[s].observation.value.decimals == definition.decimals
    ensures DirectValue(registry, definition, sources, now).Some? ==>
              var value := DirectValue(registry, definition, sources, now).value;
              && value.feedId == definition.id && value.decimals == definition.decimals
              && value.price == Median(Prices(HeldIn(sources, ids))) && Summarises(value, HeldIn(sources, ids))
  {
    ids := ValidObservationsInOrder(sources, now);
    var held := HeldIn(sources, ids);
    ReductionIsExact(registry, definition, held);
    assert forall i | 0 <= i < |ids| :: held[i] in held && ids[i] in ids;
  }

  /** A Direct feed's sources. */
  class FeedState {
    const registry: FeedRegistry
    const definition: FeedDefinition
    var sources: Sources

    constructor (registry: FeedRegistry, definition: FeedDefinition)
      ensures this.registry == registry && this.definition == definition && sources == Run([])
    {
      this.registry := registry;
      this.definition := definition;
      sources := map[];
    }

    method Freeze(source: nat)
      modifies this
      ensures sources == Apply(old(sources), Event.Freeze(source))
    {
      var record := RecordOf(sources, source);
      record := record.(state := Frozen);
      record := record.(retryAt := None);
      sources := sources[source := record];
    }

    method Unfreeze(source: nat)
      modifies this
      ensures sources == Apply(old(sources), Event.Unfreeze(source))
    {
      var record := RecordOf(sources, source);
      record := record.(state := Active);
      record := record.(failures := 0);
      record := record.(retryAt := None);
      sources := sources[source := record];
    }

    method RecordPollFailure(source: nat, now: nat)
      modifies this
      ensures sources == Apply(old(sources), PollFailed(source, now))
    {
      var record := RecordOf(sources, source);
      sources := sources[source := record];
      if record.state.Frozen? {
        return;
      }
      record := record.(failures := Min(record.failures + 1, U32_MAX));
      if record.failures >= MAX_POLLING_ERROR_NUM {
        record := record.(state := Dropped);
        record := record.(observation := None);
        record := record.(retryAt := Some(SaturatingAdd(now, POLLING_RETRY_TIME)));
      }
      sources := sources[source := record];
    }

    method RecordPollSuccess(source: nat, obs: SourceObservation)
      modifies this
      ensures sources == Apply(old(sources), PollSucceeded(source, obs))
    {
      var record := RecordOf(sources, source);
      sources := sources[source := record];
      if record.state.Frozen? {
        return;
      }
      sources := sources[source := SourceRecord(Active, 0, Some(obs), None)];
    }

    function Value(now: nat): Option<PriceFeedData>
      reads this
    {
      DirectValue(registry, definition, sources, now)
    }
  }

  // ----- All feeds -----

  datatype CrossPair = CrossPair(definition: FeedDefinition, routes: seq<Route>)

  function Priced(route: Route, quotes: map<FeedId, PriceFeedData>): seq<PricedLeg>
    requires forall i | 0 <= i < |route| :: route[i].feed in quotes
  {
    seq(|route|, i requires 0 <= i < |route| => (route[i], quotes[route[i].feed]))
  }

  /** The legs of a route with their current values, if all are available. */
  function PricedRoute(route: Route, values: map<FeedId, PriceFeedData>): Option<seq<PricedLeg>> {
    if forall i | 0 <= i < |route| :: route[i].feed in values then Some(Priced(route, values)) else None
  }

  /** The earliest route in order that has a value for each of its legs. */
  function FirstAvailable(routes: seq<Route>, values: map<FeedId, PriceFeedData>): Option<seq<PricedLeg>> {
    if routes == [] then None
    else if PricedRoute(routes[0], values).Some? then PricedRoute(routes[0], values)
    else FirstAvailable(routes[1..], values)
  }

  function CrossValue(pair: CrossPair, values: map<FeedId, PriceFeedData>): Option<PriceFeedData> {
    var legs :- FirstAvailable(pair.routes, values);
    ComputeOf(pair.definition, legs)
  }

  /** Every leg of the route has a value. */
  predicate AllPriced(route: Route, values: map<FeedId, PriceFeedData>) {
    forall i | 0 <= i < |route| :: route[i].feed in values
  }

  lemma {:induction false} FirstAvailableIsFirst(routes: seq<Route>, values: map<FeedId, PriceFeedData>)
      returns (k: nat)
    ensures k <= |routes| && forall i | 0 <= i < k :: !AllPriced(routes[i], values)
    ensures k == |routes| ==> FirstAvailable(routes, values).None?
    ensures k < |routes| ==>
              AllPriced(routes[k], values) && FirstAvailable(routes, values) == Some(Priced(routes[k], values))
  {
    if routes == [] || AllPriced(routes[0], values) {
      k := 0;
    } else {
      k := FirstAvailableIsFirst(routes[1..], values);
      forall i | 0 <= i < k + 1 ensures !AllPriced(routes[i], values) {
        assert i > 0 ==> routes[i] == routes[1..][i - 1];
      }
      k := k + 1;
    }
  }

  /** A simple route between the pair's assets whose every leg has a value. */
  ghost predicate Usable(registry: FeedRegistry, definition: FeedDefinition, route: Route,
                         values: map<FeedId, PriceFeedData>) {
    IsSimpleRoute(DirectFeeds(registry.feeds), definition.base, definition.quote, route) && AllPriced(route, values)
  }

  /**
   * A Cross pair is priced from the one usable route that comes before all others, fewest legs first; without a usable
   * route, or where that route gives no price, it has no value.
   */
  lemma CrossPairUsesTheFirstRoute(registry: FeedRegistry, pair: CrossPair, values: map<FeedId, PriceFeedData>)
      returns (used: Option<Route>)
    requires registry.UniqueIds() && CandidatesOf(registry, pair.definition) == Ok(pair.routes)
    ensures used.None? ==> forall route :: !Usable(registry, pair.definition, route, values)
    ensures used.Some? ==>
              && Usable(registry, pair.definition, used.value, values)
              && forall route | Usable(registry, pair.definition, route, values) && route != used.value ::
                   Precedes(used.value, route)
    ensures CrossValue(pair, values) == if used.None? then None
            else ComputeOf(pair.definition, Priced(used.value, values))
  {
    var k := FirstAvailableIsFirst(pair.routes, values);
    used := if k < |pair.routes| then Some(pair.routes[k]) else None;
    CandidatesComeShortestFirst(registry, pair.definition);
    if used.Some? {
      assert pair.routes[k] in pair.routes;
      CandidatesAreExact(registry, pair.definition, pair.routes[k]);
    }
    forall route | Usable(registry, pair.definition, route, values)
      ensures used.Some? && (route != used.value ==> Precedes(used.value, route))
    {
      CandidatesAreExact(registry, pair.definition, route);
      var i :| 0 <= i < |pair.routes| && pair.routes[i] == route;
    }
  }

  class FeedStates {
    const registry: FeedRegistry
    const states: map<FeedId, FeedState>
    const crossPairs: map<FeedId, CrossPair>

    constructor (registry: FeedRegistry, states: map<FeedId, FeedState>, crossPairs: map<FeedId, CrossPair>)
      ensures this.registry == registry && this.states == states && this.crossPairs == crossPairs
    {
      this.registry := registry;
      this.states := states;
      this.crossPairs := crossPairs;
    }

    /** Each Direct definition has its own state, each Cross definition its candidate routes. */
    ghost predicate Valid() {
      && registry.UniqueIds()
      && (forall feed | feed in states :: states[feed].registry == registry && states[feed].definition.id == feed)
      && (forall definition | definition in registry.feeds ::
            if definition.kind.Direct? then definition.id in states && definition.id !in crossPairs
            else definition.id in crossPairs && definition.id !in states)
      && (forall feed | feed in states ::
          states[feed].definition in registry.feeds && states[feed].definition.kind.Direct?)
      && (forall feed | feed in crossPairs ::
            && crossPairs[feed].definition in registry.feeds && crossPairs[feed].definition.id == feed
            && CandidatesOf(registry, crossPairs[feed].definition) == Ok(crossPairs[feed].routes))
    }

    /** Fails for a Cross pair that no route of Direct feeds can price. */
    static method New(registry: FeedRegistry) returns (r: Result<FeedStates, CrossPairError>)
      ensures r.Ok? <==> forall definition | definition in registry.feeds && definition.kind.Cross? ::
              CandidatesOf(registry, definition).Ok?
      ensures r.Ok? ==> r.value.registry == registry && (registry.UniqueIds() ==> r.value.Valid())
      ensures r.Ok? ==> forall feed | feed in r.value.states :: r.value.states[feed].sources == Run([])
    {
      var states: map<FeedId, FeedState> := map[];
      var crossPairs: map<FeedId, CrossPair> := map[];
      for i := 0 to |registry.feeds|
        invariant forall j | 0 <= j < i && registry.feeds[j].kind.Cross? ::
                  CandidatesOf(registry, registry.feeds[j]).Ok?
        invariant forall feed | feed in states ::
                    && states[feed].registry == registry && states[feed].definition.id == feed
                    && states[feed].definition.kind.Direct? && states[feed].definition in registry.feeds
                    && states[feed].sources == Run([])
        invariant forall feed | feed in crossPairs ::
                    && crossPairs[feed].definition in registry.feeds && crossPairs[feed].definition.id == feed
                    && crossPairs[feed].definition.kind.Cross?
                    && CandidatesOf(registry, crossPairs[feed].definition) == Ok(crossPairs[feed].routes)
        invariant forall j | 0 <= j < i ::
                    if registry.feeds[j].kind.Direct? then registry.feeds[j].id in states
                        else registry.feeds[j].id in crossPairs
      {
        var definition := registry.feeds[i];
        if definition.kind.Cross? {
          var routes := Candidates(registry, definition);
          if routes.Err? {
            return Err(routes.error);
          }
          crossPairs := crossPairs[definition.id := CrossPair(definition, routes.value)];
        } else {
          var state := new FeedState(registry, definition);
          states := states[definition.id := state];
        }
      }
      var all := new FeedStates(registry, states, crossPairs);
      return Ok(all);
    }

    /** The current values of the Direct feeds. */
    function DirectValues(now: nat): map<FeedId, PriceFeedData>
      reads set feed | feed in states :: states[feed]
    {
      map feed | feed in states && states[feed].Value(now).Some? :: states[feed].Value(now).value
    }

    function Value(feed: FeedId, now: nat): Option<PriceFeedData>
      reads set direct | direct in states :: states[direct]
    {
      if feed in crossPairs then CrossValue(crossPairs[feed], DirectValues(now))
      else if feed in states then states[feed].Value(now)
      else None
    }

    /** Whose value a feed has: a Direct feed its own sources', a Cross pair its legs', anything else none. */
    lemma ValueFollowsKind(feed: FeedId, now: nat)
      requires Valid()
      ensures Value(feed, now).Some? ==> exists definition :: definition in registry.feeds && definition.id == feed
      ensures forall definition | definition in registry.feeds && definition.id == feed ::
                if definition.kind.Direct?
                then feed in states && Value(feed, now)
                    == DirectValue(registry, definition, states[feed].sources, now)
                else feed in crossPairs && Value(feed, now) == CrossValue(crossPairs[feed], DirectValues(now))
      ensures forall direct :: direct in DirectValues(now) <==> direct in states && Value(direct, now).Some?
      ensures forall direct | direct in DirectValues(now) :: Value(direct, now) == Some(DirectValues(now)[direct])
    {
      forall direct | direct in states ensures direct !in crossPairs {
        assert states[direct].definition in registry.feeds;
      }
      forall definition | definition in registry.feeds && definition.id == feed && definition.kind.Direct?
        ensures feed in states && states[feed].definition == definition
      {
        SameIdSameFeed(registry, states[feed].definition, definition);
      }
    }

    /** A node's life after start-up: operators and pollers change its sources one at a time, through `get_mut`. */
    method Drive(events: seq<(FeedId, Event)>)
      requires Valid() && forall feed | feed in states :: states[feed].sources == Run([])
      modifies set feed | feed in states :: states[feed]
      ensures Follows(events)
    {
      for i := 0 to |events|
        invariant Follows(events[..i])
      {
        var (feed, event) := events[i];
        assert events[..i + 1][..i] == events[..i];
        ghost var before := EventsOf(events[..i], feed);
        if feed in states {
          assert forall other | other in states && other != feed :: states[other] != states[feed];
          assert (before + [event])[..|before|] == before;
          match event {
            case Freeze(source) => states[feed].Freeze(source);
            case Unfreeze(source) => states[feed].Unfreeze(source);
            case PollFailed(source, now) => states[feed].RecordPollFailure(source, now);
            case PollSucceeded(source, obs) => states[feed].RecordPollSuccess(source, obs);
          }
          assert states[feed].sources == Run(before + [event]);
        }
      }
      assert events[..|events|] == events;
    }

    /** Every feed's sources are where its own events took them. */
    ghost predicate Follows(events: seq<(FeedId, Event)>)
      reads set feed | feed in states :: states[feed]
    {
      forall feed | feed in states :: states[feed].sources == Run(EventsOf(events, feed))
    }

    /**
     * In every reachable state the value a node holds itself is one it would sign, until its expiry second: the
     * observations were stamped and validated by their sources and received by now, and nothing else is assumed.
     */
    lemma OwnValueIsAccepted(events: seq<(FeedId, Event)>, feed: FeedId, now: nat)
      requires Valid() && Follows(events) && now <= U64_MAX
      requires forall e | e in events :: Genuine(e.1, now)
      requires Value(feed, now).Some?
      ensures var value := Value(feed, now).value;
              && value.validUntil >= now
              && Validate(value, registry, Some(value), now) == if value.validUntil == now then Err(Stale) else Ok(Unit)
    {
      forall direct | direct in states && states[direct].Value(now).Some?
        ensures IsSignable(registry, states[direct].Value(now).value, now)
      {
        EventsAreOf(events, direct);
        RunsAreSound(EventsOf(events, direct), now);
        DirectValueIsSignable(registry, states[direct].definition, states[direct].sources, now);
      }
      if feed in crossPairs {
        CrossValueIsSignable(registry, crossPairs[feed], DirectValues(now), now);
      }
      SignableIsAccepted(registry, Value(feed, now).value, now);
    }
  }

  lemma SameIdSameFeed(registry: FeedRegistry, a: FeedDefinition, b: FeedDefinition)
    requires registry.UniqueIds() && a in registry.feeds && b in registry.feeds && a.id == b.id
    ensures a == b
  {
    FirstFinds(registry.feeds, a.id, a);
    FirstFinds(registry.feeds, b.id, b);
  }

  /** The events of one feed. */
  function EventsOf(events: seq<(FeedId, Event)>, feed: FeedId): seq<Event> {
    if events == [] then []
    else
      var before, last := EventsOf(events[..|events| - 1], feed), events[|events| - 1];
      if last.0 == feed then before + [last.1] else before
  }

  lemma {:induction false} EventsAreOf(events: seq<(FeedId, Event)>, feed: FeedId)
    ensures forall e | e in EventsOf(events, feed) :: (feed, e) in events
  {
    if events != [] {
      EventsAreOf(events[..|events| - 1], feed);
    }
  }

  // ----- A node accepts its own values -----

  /** The observation was stamped on receipt, passed validation, and was received by `now`. */
  predicate IsSound(obs: SourceObservation, now: nat) {
    obs.price > 0 && obs.validUntil == SaturatingAdd(obs.receivedAt, VALIDITY_WINDOW) && obs.receivedAt <= now
  }

  ghost predicate SourcesAreSound(sources: Sources, now: nat) {
    forall s | s in sources && sources[s].observation.Some? :: IsSound(sources[s].observation.value, now)
  }

  /** A successful poll brings an observation built by its constructor, passed by its source, and received by `now`. */
  ghost predicate Genuine(event: Event, now: nat) {
    event.PollSucceeded? ==>
      var obs := event.obs;
      && obs == NewObservation(obs.price, obs.decimals, obs.observedAt, obs.receivedAt)
      && (exists last :: ValidateObservation(obs, last).Ok?)
      && obs.receivedAt <= now
  }

  /** Every state reached by genuine polls holds only sound observations. */
  lemma {:induction false} RunsAreSound(events: seq<Event>, now: nat)
    requires forall e | e in events :: Genuine(e, now)
    ensures SourcesAreSound(Run(events), now)
  {
    if events != [] {
      var before, last := events[..|events| - 1], events[|events| - 1];
      assert forall e | e in before :: e in events;
      RunsAreSound(before, now);
      assert last in events;
    }
  }

  /** What makes a value pass its own signer, its expiry second aside. */
  ghost predicate IsSignable(registry: FeedRegistry, value: PriceFeedData, now: nat) {
    && registry.Get(value.feedId).Some? && registry.Get(value.feedId).value.decimals == value.decimals
    && value.price > 0 && value.receivedAt <= now <= value.validUntil
    && value.validUntil <= SaturatingAdd(value.receivedAt, VALIDITY_WINDOW)
  }

  lemma SignableIsAccepted(registry: FeedRegistry, value: PriceFeedData, now: nat)
    requires IsSignable(registry, value, now) && now <= U64_MAX
    ensures Validate(value, registry, Some(value), now) == if value.validUntil == now then Err(Stale) else Ok(Unit)
  {
  }

  lemma DirectValueIsSignable(registry: FeedRegistry, definition: FeedDefinition, sources: Sources, now: nat)
    requires SourcesAreSound(sources, now) && DirectValue(registry, definition, sources, now).Some?
    ensures IsSignable(registry, DirectValue(registry, definition, sources, now).value, now)
  {
    var observations := ValidObservations(sources, now);
    ValidObservationsAreHeld(sources, now);
    forall i | 0 <= i < |observations| ensures IsSound(observations[i], now) && observations[i].validUntil >= now {
      assert observations[i] in observations;
    }
    ReducedStamps(observations, now);
    MedianIsPositive(Prices(observations));
  }

  lemma MedianIsPositive(prices: seq<nat>)
    requires prices != [] && forall i | 0 <= i < |prices| :: prices[i] > 0
    ensures Median(prices) > 0
  {
    var sorted := SortKeys(prices);
    forall i | 0 <= i < |sorted| ensures sorted[i] > 0 {
      assert sorted[i] in prices;
    }
  }

  lemma {:induction false} FirstAvailableIsPriced(routes: seq<Route>, values: map<FeedId, PriceFeedData>)
    requires FirstAvailable(routes, values).Some?
    ensures var legs := FirstAvailable(routes, values).value;
            && RouteOf(legs) in routes
            && forall i | 0 <= i < |legs| :: legs[i].0.feed in values && legs[i].1 == values[legs[i].0.feed]
  {
    if PricedRoute(routes[0], values).None? {
      FirstAvailableIsPriced(routes[1..], values);
    } else {
      assert RouteOf(FirstAvailable(routes, values).value) == routes[0];
    }
  }

  /** Whatever Direct feeds a node holds, if those it holds quote one valuation its Cross value is the pair's worth. */
  lemma CrossValueIsPairWorth(registry: FeedRegistry, pair: CrossPair, values: map<FeedId, PriceFeedData>,
                              worth: Valuation)
    requires CandidatesOf(registry, pair.definition) == Ok(pair.routes) && Positive(worth)
    requires forall feed | feed in DirectFeeds(registry.feeds) && feed.id in values ::
             QuotesWorth(feed, values[feed.id], worth)
    requires CrossValue(pair, values).Some?
    ensures CrossValue(pair, values).value.price
         == RoundHalfEven(Pow10(pair.definition.decimals) * worth(pair.definition.base), worth(pair.definition.quote))
  {
    FirstAvailableIsPriced(pair.routes, values);
    CandidatePriceIsPairWorth(registry, pair.definition, FirstAvailable(pair.routes, values).value, worth);
  }

  lemma CrossValueIsSignable(registry: FeedRegistry, pair: CrossPair, values: map<FeedId, PriceFeedData>, now: nat)
    requires registry.UniqueIds() && pair.definition in registry.feeds
    requires forall feed | feed in values :: IsSignable(registry, values[feed], now)
    requires CrossValue(pair, values).Some?
    ensures IsSignable(registry, CrossValue(pair, values).value, now)
  {
    var legs := FirstAvailable(pair.routes, values).value;
    FirstAvailableIsPriced(pair.routes, values);
    var oldest, newest := StampsBoundLegs(legs);
    FirstFinds(registry.feeds, pair.definition.id, pair.definition);
    assert legs[oldest].1.validUntil >= now && legs[newest].1.receivedAt <= now;
    assert legs[newest].1.validUntil >= EarliestExpiry(legs);
  }
}
