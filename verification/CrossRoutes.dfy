/** price-feed/src/cross.rs, routes: backtracking enumeration of the simple routes of Direct feeds. */
module CrossRoutes {
  import opened Prelude
  import opened Sorting
  import opened FeedRegistries

  /** One leg of a route: a Direct feed walked forwards or backwards. */
  datatype Leg = Leg(feed: FeedId, invert: bool)

  type Route = seq<Leg>

  datatype CrossPairError = SameAsset(feed: FeedId) | NoRoute(feed: FeedId)

  // ----- What a route is -----

  predicate Traverses(feed: FeedDefinition, leg: Leg, from: Asset, to: Asset) {
    && feed.id == leg.feed
    && if leg.invert then feed.quote == from && feed.base == to else feed.base == from && feed.quote == to
  }

  ghost predicate LegJoins(direct: seq<FeedDefinition>, leg: Leg, from: Asset, to: Asset) {
    exists feed :: feed in direct && Traverses(feed, leg, from, to)
  }

  /** `route` walks Direct feeds through the pairwise different assets `stops`, from `base` to `quote`. */
  ghost predicate SimpleRoute(direct: seq<FeedDefinition>, base: Asset, quote: Asset, route: Route, stops: seq<Asset>) {
    && |stops| == |route| + 1
    && stops[0] == base && stops[|route|] == quote
    && NoDuplicates(stops)
    && forall i | 0 <= i < |route| :: LegJoins(direct, route[i], stops[i], stops[i + 1])
  }

  ghost predicate IsSimpleRoute(direct: seq<FeedDefinition>, base: Asset, quote: Asset, route: Route) {
    exists stops :: SimpleRoute(direct, base, quote, route, stops)
  }

  // ----- The enumeration as a function -----

  const ALL_ASSETS: set<Asset> := {Lbtc, Usd, Usdt, Eurx, DePix, Usdc}

  /** Where a feed leads from `at`, and whether it is traversed as its reciprocal. */
  function Hop(feed: FeedDefinition, at: Asset): Option<(Asset, bool)> {
    if feed.base == at then Some((feed.quote, false))
    else if feed.quote == at then Some((feed.base, true))
    else None
  }

  function PrefixAll(prefix: Route, routes: seq<Route>): (r: seq<Route>)
    ensures |r| == |routes|
    ensures forall i | 0 <= i < |r| :: r[i] == prefix + routes[i]
  {
    seq(|routes|, i requires 0 <= i < |routes| => prefix + routes[i])
  }

  /** Every continuation from `at` to `quote` that stays clear of `visited`, in traversal order. */
  function Walks(direct: seq<FeedDefinition>, at: Asset, quote: Asset, visited: set<Asset>): seq<Route>
    decreases |ALL_ASSETS - visited|, |direct| + 1
  {
    if at == quote then [[]] else WalksFrom(direct, 0, at, quote, visited)
  }

  function WalksFrom(direct: seq<FeedDefinition>, from: nat, at: Asset, quote: Asset, visited: set<Asset>): seq<Route>
    requires from <= |direct|
    decreases |ALL_ASSETS - visited|, |direct| - from
  {
    if from == |direct| then []
    else WalksVia(direct, direct[from], at, quote, visited) + WalksFrom(direct, from + 1, at, quote, visited)
  }

  function WalksVia(direct: seq<FeedDefinition>, feed: FeedDefinition, at: Asset, quote: Asset,
                    visited: set<Asset>): seq<Route>
    decreases |ALL_ASSETS - visited|, 0
  {
    match Hop(feed, at)
    case None => []
    case Some((next, invert)) =>
      if next in visited then []
      else
        VisitShrinks(visited, next);
        PrefixAll([Leg(feed.id, invert)], Walks(direct, next, quote, visited + {next}))
  }

  lemma VisitShrinks(visited: set<Asset>, next: Asset)
    requires next !in visited
    ensures |ALL_ASSETS - (visited + {next})| < |ALL_ASSETS - visited|
  {
    assert next in ALL_ASSETS;
    assert ALL_ASSETS - (visited + {next}) == (ALL_ASSETS - visited) - {next};
  }

  lemma {:induction false} InWalksFrom(direct: seq<FeedDefinition>, from: nat, at: Asset, quote: Asset,
                                       visited: set<Asset>, route: Route)
    requires from <= |direct|
    ensures route in WalksFrom(direct, from, at, quote, visited)
       <==> exists j :: from <= j < |direct| && route in WalksVia(direct, direct[j], at, quote, visited)
    decreases |direct| - from
  {
    if from < |direct| {
      InWalksFrom(direct, from + 1, at, quote, visited, route);
    }
  }

  lemma InWalksVia(direct: seq<FeedDefinition>, feed: FeedDefinition, at: Asset, quote: Asset, visited: set<Asset>,
                   route: Route)
    ensures route in WalksVia(direct, feed, at, quote, visited) <==>
              && Hop(feed, at).Some? && Hop(feed, at).value.0 !in visited
              && |route| > 0 && route[0] == Leg(feed.id, Hop(feed, at).value.1)
              && route[1..] in Walks(direct, Hop(feed, at).value.0, quote, visited + {Hop(feed, at).value.0})
  {
    if Hop(feed, at).Some? && Hop(feed, at).value.0 !in visited {
      var (next, invert) := Hop(feed, at).value;
      VisitShrinks(visited, next);
      var tails := Walks(direct, next, quote, visited + {next});
      var all := PrefixAll([Leg(feed.id, invert)], tails);
      if route in all {
        var i :| 0 <= i < |all| && all[i] == route;
        assert route[1..] == tails[i];
      }
      if |route| > 0 && route[0] == Leg(feed.id, invert) && route[1..] in tails {
        var i :| 0 <= i < |tails| && tails[i] == route[1..];
        assert all[i] == route;
      }
    }
  }

  /** A walk that is not over leaves `at` through some feed. */
  lemma FirstHop(direct: seq<FeedDefinition>, at: Asset, quote: Asset, visited: set<Asset>, route: Route)
      returns (j: nat, next: Asset)
    requires at != quote && route in Walks(direct, at, quote, visited)
    ensures j < |direct| && |route| > 0
    ensures Hop(direct[j], at) == Some((next, route[0].invert)) && route[0].feed == direct[j].id
    ensures next !in visited && route[1..] in Walks(direct, next, quote, visited + {next})
  {
    InWalksFrom(direct, 0, at, quote, visited, route);
    j :| 0 <= j < |direct| && route in WalksVia(direct, direct[j], at, quote, visited);
    InWalksVia(direct, direct[j], at, quote, visited, route);
    next := Hop(direct[j], at).value.0;
  }

  // ----- The enumeration is exact -----

  /** Every enumerated walk is a simple route clear of `visited`. */
  lemma {:induction false} WalkIsSimple(direct: seq<FeedDefinition>, at: Asset, quote: Asset, visited: set<Asset>,
                                        route: Route)
    returns (stops: seq<Asset>)
    requires at in visited && route in Walks(direct, at, quote, visited)
    ensures SimpleRoute(direct, at, quote, route, stops)
    ensures forall i | 1 <= i < |stops| :: stops[i] !in visited
    decreases |route|
  {
    if at == quote {
      stops := [at];
    } else {
      var j, next := FirstHop(direct, at, quote, visited, route);
      var rest := WalkIsSimple(direct, next, quote, visited + {next}, route[1..]);
      stops := [at] + rest;
      assert Traverses(direct[j], route[0], at, next);
      forall i | 0 <= i < |route| ensures LegJoins(direct, route[i], stops[i], stops[i + 1]) {
        if i > 0 {
          assert route[i] == route[1..][i - 1];
        }
      }
    }
  }

  /** Every simple route clear of `visited` is enumerated. */
  lemma {:induction false} SimpleIsWalk(direct: seq<FeedDefinition>, at: Asset, quote: Asset, visited: set<Asset>,
                                        route: Route, stops: seq<Asset>)
    requires at in visited && SimpleRoute(direct, at, quote, route, stops)
    requires forall i | 1 <= i < |stops| :: stops[i] !in visited
    ensures route in Walks(direct, at, quote, visited)
    decreases |route|
  {
    if at == quote {
      assert |stops| == 1;
    } else {
      var next := stops[1];
      assert LegJoins(direct, route[0], stops[0], stops[1]);
      var feed :| feed in direct && Traverses(feed, route[0], at, next);
      var j :| 0 <= j < |direct| && direct[j] == feed;
      forall i | 0 <= i < |route| - 1 ensures LegJoins(direct, route[1..][i], stops[1..][i], stops[1..][i + 1]) {
        assert LegJoins(direct, route[i + 1], stops[i + 1], stops[i + 2]);
      }
      SimpleIsWalk(direct, next, quote, visited + {next}, route[1..], stops[1..]);
      InWalksVia(direct, feed, at, quote, visited, route);
      InWalksFrom(direct, 0, at, quote, visited, route);
    }
  }

  ghost predicate UniqueFeeds(direct: seq<FeedDefinition>) {
    forall i, j | 0 <= i < j < |direct| :: direct[i].id != direct[j].id
  }

  /** With unique ids, a walk is determined by the ids of its feeds. */
  lemma {:induction false} FeedsDetermineWalk(direct: seq<FeedDefinition>, at: Asset, quote: Asset, visited: set<Asset>,
                                              a: Route, b: Route)
    requires UniqueFeeds(direct)
    requires a in Walks(direct, at, quote, visited) && b in Walks(direct, at, quote, visited)
    requires |a| == |b| && forall i | 0 <= i < |a| :: a[i].feed == b[i].feed
    ensures a == b
    decreases |a|
  {
    if at != quote {
      var i, next := FirstHop(direct, at, quote, visited, a);
      var j, other := FirstHop(direct, at, quote, visited, b);
      assert a[0].feed == b[0].feed && i == j;
      FeedsDetermineWalk(direct, next, quote, visited + {next}, a[1..], b[1..]);
      assert a == [a[0]] + a[1..] && b == [b[0]] + b[1..];
    }
  }

  /** With unique ids, no walk is enumerated twice. */
  lemma {:induction false} WalksAreDistinct(direct: seq<FeedDefinition>, at: Asset, quote: Asset, visited: set<Asset>)
    requires UniqueFeeds(direct)
    ensures NoDuplicates(Walks(direct, at, quote, visited))
    decreases |ALL_ASSETS - visited|, |direct| + 1
  {
    if at != quote {
      WalksFromDistinct(direct, 0, at, quote, visited);
    }
  }

  lemma {:induction false} WalksFromDistinct(direct: seq<FeedDefinition>, from: nat, at: Asset, quote: Asset,
                                             visited: set<Asset>)
    requires UniqueFeeds(direct) && from <= |direct|
    ensures NoDuplicates(WalksFrom(direct, from, at, quote, visited))
    decreases |ALL_ASSETS - visited|, |direct| - from
  {
    if from < |direct| {
      var here, later := WalksVia(direct, direct[from], at, quote, visited),
          WalksFrom(direct, from + 1, at, quote, visited);
      WalksViaDistinct(direct, direct[from], at, quote, visited);
      WalksFromDistinct(direct, from + 1, at, quote, visited);
      forall i, j | 0 <= i < |here| && 0 <= j < |later| ensures here[i] != later[j] {
        InWalksVia(direct, direct[from], at, quote, visited, here[i]);
        InWalksFrom(direct, from + 1, at, quote, visited, later[j]);
        var k :| from + 1 <= k < |direct| && later[j] in WalksVia(direct, direct[k], at, quote, visited);
        InWalksVia(direct, direct[k], at, quote, visited, later[j]);
      }
    }
  }

  lemma {:induction false} WalksViaDistinct(direct: seq<FeedDefinition>, feed: FeedDefinition, at: Asset, quote: Asset,
                                            visited: set<Asset>)
    requires UniqueFeeds(direct)
    ensures NoDuplicates(WalksVia(direct, feed, at, quote, visited))
    decreases |ALL_ASSETS - visited|, 0
  {
    if Hop(feed, at).Some? && Hop(feed, at).value.0 !in visited {
      var (next, invert) := Hop(feed, at).value;
      VisitShrinks(visited, next);
      WalksAreDistinct(direct, next, quote, visited + {next});
      var tails := Walks(direct, next, quote, visited + {next});
      var all := WalksVia(direct, feed, at, quote, visited);
      forall i, j | 0 <= i < j < |all| ensures all[i] != all[j] {
        assert all[i][1..] == tails[i] && all[j][1..] == tails[j];
      }
    }
  }

  // ----- The order routes are tried in -----

  predicate LexLe(a: Route, b: Route) {
    a == [] || (b != [] && (a[0].feed < b[0].feed || (a[0].feed == b[0].feed && LexLe(a[1..], b[1..]))))
  }

  /** Shorter routes come first; the feed ids settle a tie, leg by leg. */
  predicate RouteLe(a: Route, b: Route) {
    |a| < |b| || (|a| == |b| && LexLe(a, b))
  }

  lemma {:induction false} LexTotal(a: Route, b: Route)
    ensures LexLe(a, b) || LexLe(b, a)
    ensures LexLe(a, b) && LexLe(b, a) ==> |a| == |b| && forall i | 0 <= i < |a| :: a[i].feed == b[i].feed
  {
    if a != [] && b != [] && a[0].feed == b[0].feed {
      LexTotal(a[1..], b[1..]);
      if LexLe(a, b) && LexLe(b, a) {
        forall i | 0 <= i < |a| ensures a[i].feed == b[i].feed {
          if i > 0 {
            assert a[i] == a[1..][i - 1] && b[i] == b[1..][i - 1];
          }
        }
      }
    }
  }

  lemma {:induction false} LexTransitive(a: Route, b: Route, c: Route)
    requires LexLe(a, b) && LexLe(b, c)
    ensures LexLe(a, c)
  {
    if a != [] && a[0].feed == b[0].feed == c[0].feed {
      LexTransitive(a[1..], b[1..], c[1..]);
    }
  }

  lemma RouteOrder()
    ensures TotalPreorder(RouteLe)
  {
    forall a, b ensures RouteLe(a, b) || RouteLe(b, a) {
      LexTotal(a, b);
    }
    forall a, b, c | RouteLe(a, b) && RouteLe(b, c) ensures RouteLe(a, c) {
      if |a| == |b| == |c| {
        LexTransitive(a, b, c);
      }
    }
  }

  // ----- candidates -----

  function DirectFeeds(feeds: seq<FeedDefinition>): seq<FeedDefinition> {
    if feeds == [] then []
    else if feeds[0].kind.Direct? then [feeds[0]] + DirectFeeds(feeds[1..])
    else DirectFeeds(feeds[1..])
  }

  lemma {:induction false} DirectFeedsFilter(feeds: seq<FeedDefinition>)
    ensures forall feed :: feed in DirectFeeds(feeds) <==> feed in feeds && feed.kind.Direct?
    ensures UniqueFeeds(feeds) ==> UniqueFeeds(DirectFeeds(feeds))
  {
    if feeds != [] {
      DirectFeedsFilter(feeds[1..]);
      assert feeds == [feeds[0]] + feeds[1..];
      if UniqueFeeds(feeds) {
        assert forall feed | feed in feeds[1..] :: feed.id != feeds[0].id;
      }
    }
  }

  function CandidatesOf(registry: FeedRegistry, pair: FeedDefinition): Result<seq<Route>, CrossPairError> {
    if pair.base == pair.quote then Err(SameAsset(pair.id))
    else
      var walks := Walks(DirectFeeds(registry.feeds), pair.base, pair.quote, {pair.base});
      if walks == [] then Err(NoRoute(pair.id)) else Ok(SortBy(walks, RouteLe))
  }

  /** A route is a candidate if and only if it is a simple route of Direct feeds from the pair's base to its quote. */
  lemma CandidatesAreExact(registry: FeedRegistry, pair: FeedDefinition, route: Route)
    requires CandidatesOf(registry, pair).Ok?
    ensures route in CandidatesOf(registry, pair).value <==>
            IsSimpleRoute(DirectFeeds(registry.feeds), pair.base, pair.quote, route)
  {
    RouteOrder();
    SortByCorrect(Walks(DirectFeeds(registry.feeds), pair.base, pair.quote, {pair.base}), RouteLe);
    WalksAreExact(DirectFeeds(registry.feeds), pair.base, pair.quote, route);
  }

  lemma WalksAreExact(direct: seq<FeedDefinition>, base: Asset, quote: Asset, route: Route)
    ensures route in Walks(direct, base, quote, {base}) <==> IsSimpleRoute(direct, base, quote, route)
  {
    if route in Walks(direct, base, quote, {base}) {
      var stops := WalkIsSimple(direct, base, quote, {base}, route);
    }
    if IsSimpleRoute(direct, base, quote, route) {
      var stops :| SimpleRoute(direct, base, quote, route, stops);
      SimpleIsWalk(direct, base, quote, {base}, route, stops);
    }
  }

  ghost predicate HasNoSimpleRoute(direct: seq<FeedDefinition>, base: Asset, quote: Asset) {
    forall route :: !IsSimpleRoute(direct, base, quote, route)
  }

  /** A pair of one asset is refused as such, and any other exactly when no simple route exists. */
  lemma NoRouteIsExact(registry: FeedRegistry, pair: FeedDefinition)
    ensures CandidatesOf(registry, pair) == Err(SameAsset(pair.id)) <==> pair.base == pair.quote
    ensures CandidatesOf(registry, pair) == Err(NoRoute(pair.id)) <==>
              pair.base != pair.quote && HasNoSimpleRoute(DirectFeeds(registry.feeds), pair.base, pair.quote)
    ensures CandidatesOf(registry, pair).Ok? <==>
              pair.base != pair.quote && !HasNoSimpleRoute(DirectFeeds(registry.feeds), pair.base, pair.quote)
  {
    SomeWalkIsSomeRoute(DirectFeeds(registry.feeds), pair.base, pair.quote);
  }

  lemma SomeWalkIsSomeRoute(direct: seq<FeedDefinition>, base: Asset, quote: Asset)
    ensures Walks(direct, base, quote, {base}) == [] <==> HasNoSimpleRoute(direct, base, quote)
  {
    if Walks(direct, base, quote, {base}) != [] {
      var first: Route := Walks(direct, base, quote, {base})[0];
      WalksAreExact(direct, base, quote, first);
      assert IsSimpleRoute(direct, base, quote, first);
    } else {
      forall route ensures !IsSimpleRoute(direct, base, quote, route) {
        WalksAreExact(direct, base, quote, route);
      }
    }
  }

  lemma SimpleRouteIsCandidate(registry: FeedRegistry, pair: FeedDefinition, route: Route, stops: seq<Asset>)
    requires pair.base != pair.quote && SimpleRoute(DirectFeeds(registry.feeds), pair.base, pair.quote, route, stops)
    ensures CandidatesOf(registry, pair).Ok? && route in CandidatesOf(registry, pair).value
  {
    assert IsSimpleRoute(DirectFeeds(registry.feeds), pair.base, pair.quote, route);
    WalksAreExact(DirectFeeds(registry.feeds), pair.base, pair.quote, route);
    assert Walks(DirectFeeds(registry.feeds), pair.base, pair.quote, {pair.base}) != [];
    CandidatesAreExact(registry, pair, route);
  }

  /** With unique ids, each route appears once, in an order that leaves no ties. */
  lemma CandidatesAreStrictlyOrdered(registry: FeedRegistry, pair: FeedDefinition)
    requires registry.UniqueIds() && CandidatesOf(registry, pair).Ok?
    ensures var routes := CandidatesOf(registry, pair).value;
            forall i, j | 0 <= i < j < |routes| :: RouteLe(routes[i], routes[j]) && !RouteLe(routes[j], routes[i])
  {
    var direct := DirectFeeds(registry.feeds);
    var walks := Walks(direct, pair.base, pair.quote, {pair.base});
    var routes := SortBy(walks, RouteLe);
    DirectFeedsFilter(registry.feeds);
    WalksAreDistinct(direct, pair.base, pair.quote, {pair.base});
    RouteOrder();
    SortByCorrect(walks, RouteLe);
    DuplicatesFollowMultiset(walks, routes);
    forall i, j | 0 <= i < j < |routes| ensures RouteLe(routes[i], routes[j]) && !RouteLe(routes[j], routes[i]) {
      if RouteLe(routes[j], routes[i]) {
        LexTotal(routes[i], routes[j]);
        assert routes[i] in walks && routes[j] in walks;
        FeedsDetermineWalk(direct, pair.base, pair.quote, {pair.base}, routes[i], routes[j]);
      }
    }
  }

  /** Fewer legs, or as many and the lesser feed at the first leg where they differ. */
  ghost predicate Precedes(a: Route, b: Route) {
    |a| < |b| || (|a| == |b| && LesserFeedFirst(a, b))
  }

  ghost predicate LesserFeedFirst(a: Route, b: Route)
    requires |a| == |b|
  {
    exists k :: 0 <= k < |a| && a[k].feed < b[k].feed && forall l | 0 <= l < k :: a[l].feed == b[l].feed
  }

  lemma {:induction false} LexFindsDifference(a: Route, b: Route)
    requires |a| == |b| && LexLe(a, b) && !LexLe(b, a)
    ensures LesserFeedFirst(a, b)
  {
    if a[0].feed == b[0].feed {
      LexFindsDifference(a[1..], b[1..]);
      var k :| 0 <= k < |a[1..]| && a[1..][k].feed < b[1..][k].feed
          && forall l | 0 <= l < k :: a[1..][l].feed == b[1..][l].feed;
      forall l | 0 <= l < k + 1 ensures a[l].feed == b[l].feed {
        assert l > 0 ==> a[l] == a[1..][l - 1] && b[l] == b[1..][l - 1];
      }
      assert a[k + 1].feed < b[k + 1].feed;
    } else {
      assert a[0].feed < b[0].feed;
    }
  }

  /** Routes are tried with the fewest legs first, and among as many legs by the feed ids in traversal order. */
  lemma CandidatesComeShortestFirst(registry: FeedRegistry, pair: FeedDefinition)
    requires registry.UniqueIds() && CandidatesOf(registry, pair).Ok?
    ensures var routes := CandidatesOf(registry, pair).value;
            forall i, j | 0 <= i < j < |routes| :: Precedes(routes[i], routes[j])
  {
    CandidatesAreStrictlyOrdered(registry, pair);
    var routes := CandidatesOf(registry, pair).value;
    forall i, j | 0 <= i < j < |routes| ensures Precedes(routes[i], routes[j]) {
      if |routes[i]| == |routes[j]| {
        LexFindsDifference(routes[i], routes[j]);
      }
    }
  }

  /**
   * Nodes that registered the same feeds in different orders try the same routes in the same order: the simple routes
   * over what was registered, each once.
   */
  lemma CandidatesForgetRegistrationOrder(a: seq<FeedDefinition>, b: seq<FeedDefinition>, pair: FeedDefinition)
    requires UniqueFeeds(a) && multiset(a) == multiset(b)
    ensures CandidatesOf(NewRegistry(a), pair) == CandidatesOf(NewRegistry(b), pair)
    ensures var candidates := CandidatesOf(NewRegistry(a), pair);
            candidates.Ok? ==>
              && NoDuplicates(candidates.value)
              && forall route :: route in candidates.value <==>
                  IsSimpleRoute(DirectFeeds(a), pair.base, pair.quote, route)
  {
    RegistryForgetsOrder(a, b);
    if CandidatesOf(NewRegistry(a), pair).Ok? {
      NewRegistryIsFaithful(a);
      CandidatesAreStrictlyOrdered(NewRegistry(a), pair);
      forall route ensures route in CandidatesOf(NewRegistry(a), pair).value
                      <==> IsSimpleRoute(DirectFeeds(a), pair.base, pair.quote, route) {
        CandidatesAreExact(NewRegistry(a), pair, route);
        DirectFeedsFilter(a);
        DirectFeedsFilter(NewRegistry(a).feeds);
        SameFeedsSameRoutes(DirectFeeds(a), DirectFeeds(NewRegistry(a).feeds), pair.base, pair.quote, route);
      }
    }
  }

  /** Which routes are simple depends only on which feeds there are. */
  lemma SameFeedsSameRoutes(a: seq<FeedDefinition>, b: seq<FeedDefinition>, base: Asset, quote: Asset, route: Route)
    requires forall feed :: feed in a <==> feed in b
    ensures IsSimpleRoute(a, base, quote, route) <==> IsSimpleRoute(b, base, quote, route)
  {
    forall leg: Leg, from, to ensures LegJoins(a, leg, from, to) <==> LegJoins(b, leg, from, to) {
    }
    forall stops ensures SimpleRoute(a, base, quote, route, stops) <==> SimpleRoute(b, base, quote, route, stops) {
    }
  }

  // ----- The backtracking search -----

  class RouteSearch {
    const direct: seq<FeedDefinition>
    const quote: Asset
    var visited: seq<Asset>
    var route: Route
    var routes: seq<Route>

    constructor (direct: seq<FeedDefinition>, base: Asset, quote: Asset)
      ensures this.direct == direct && this.quote == quote && visited == [base] && route == [] && routes == []
    {
      this.direct := direct;
      this.quote := quote;
      visited := [base];
      route := [];
      routes := [];
    }

    /** Walks on from `at`, never back to a visited asset; the stacks come back as they were. */
    method Extend(at: Asset)
      modifies this
      ensures visited == old(visited) && route == old(route)
      ensures routes == old(routes) + PrefixAll(old(route), Walks(direct, at, quote, ToSet(old(visited))))
      decreases |ALL_ASSETS - ToSet(visited)|, 1
    {
      ghost var seen, prefix, before := ToSet(visited), route, routes;
      if at == quote {
        assert prefix + [] == prefix;
        routes := routes + [route];
        return;
      }
      ghost var done: seq<Route> := [];
      for j := 0 to |direct|
        invariant visited == old(visited) && route == prefix
        invariant done + WalksFrom(direct, j, at, quote, seen) == WalksFrom(direct, 0, at, quote, seen)
        invariant routes == before + PrefixAll(prefix, done)
      {
        ghost var via := WalksVia(direct, direct[j], at, quote, seen);
        AppendStep(prefix, before, done, via, WalksFrom(direct, j + 1, at, quote, seen));
        done := done + via;
        var hop := Hop(direct[j], at);
        if hop.None? {
          continue;
        }
        var (next, invert) := hop.value;
        if next in visited {
          continue;
        }
        ExtendThrough(next, Leg(direct[j].id, invert));
      }
    }

    /** The search below one leg, between putting it on the stacks and taking it off again. */
    method ExtendThrough(next: Asset, leg: Leg)
      requires next !in visited
      modifies this
      ensures visited == old(visited) && route == old(route)
      ensures routes == old(routes)
              + PrefixAll(old(route), PrefixAll([leg], Walks(direct, next, quote, ToSet(old(visited)) + {next})))
      decreases |ALL_ASSETS - ToSet(visited)|, 0
    {
      ghost var seen := ToSet(visited);
      VisitShrinks(seen, next);
      visited := visited + [next];
      route := route + [leg];
      assert ToSet(visited) == seen + {next};
      Extend(next);
      PrefixPrefix(old(route), [leg], Walks(direct, next, quote, seen + {next}));
      route := route[..|route| - 1];
      visited := visited[..|visited| - 1];
    }
  }

  lemma AppendStep(prefix: Route, before: seq<Route>, done: seq<Route>, via: seq<Route>, later: seq<Route>)
    ensures before + PrefixAll(prefix, done + via) == before + PrefixAll(prefix, done) + PrefixAll(prefix, via)
    ensures (done + via) + later == done + (via + later)
    ensures PrefixAll(prefix, []) == []
  {
    PrefixAppend(prefix, done, via);
  }

  lemma PrefixAppend(prefix: Route, a: seq<Route>, b: seq<Route>)
    ensures PrefixAll(prefix, a + b) == PrefixAll(prefix, a) + PrefixAll(prefix, b)
  {
  }

  lemma PrefixPrefix(prefix: Route, leg: Route, routes: seq<Route>)
    ensures PrefixAll(prefix + leg, routes) == PrefixAll(prefix, PrefixAll(leg, routes))
  {
    forall i | 0 <= i < |routes| ensures (prefix + leg) + routes[i] == prefix + (leg + routes[i]) {
    }
  }

  lemma PrefixEmpty(routes: seq<Route>)
    ensures PrefixAll([], routes) == routes
  {
    forall i | 0 <= i < |routes| ensures [] + routes[i] == routes[i] {
    }
  }

  method Candidates(registry: FeedRegistry, pair: FeedDefinition) returns (r: Result<seq<Route>, CrossPairError>)
    ensures r == CandidatesOf(registry, pair)
  {
    if pair.base == pair.quote {
      return Err(SameAsset(pair.id));
    }
    var search := new RouteSearch(DirectFeeds(registry.feeds), pair.base, pair.quote);
    search.Extend(pair.base);
    assert ToSet([pair.base]) == {pair.base};
    ghost var walks := Walks(search.direct, pair.base, pair.quote, {pair.base});
    PrefixEmpty(walks);
    assert search.routes == [] + walks == walks;
    if search.routes == [] {
      return Err(NoRoute(pair.id));
    }
    return Ok(SortBy(search.routes, RouteLe));
  }
}
