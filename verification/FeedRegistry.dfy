/** price-feed/src/registry.rs: the feeds every node enumerates alike. */
module FeedRegistries {
  import opened Prelude
  import opened Sorting

  type FeedId = nat

  datatype Asset = Lbtc | Usd | Usdt | Eurx | DePix | Usdc

  datatype FeedKind = Direct | Cross

  datatype FeedDefinition = FeedDefinition(id: FeedId, base: Asset, quote: Asset, kind: FeedKind, decimals: nat)

  datatype FeedRegistry = FeedRegistry(feeds: seq<FeedDefinition>) {
    /** The first definition with the id, if any. */
    function Get(feed: FeedId): Option<FeedDefinition> {
      First(feeds, feed)
    }

    ghost predicate UniqueIds() {
      forall i, j | 0 <= i < j < |feeds| :: feeds[i].id != feeds[j].id
    }
  }

  function First(feeds: seq<FeedDefinition>, feed: FeedId): Option<FeedDefinition> {
    if feeds == [] then None
    else if feeds[0].id == feed then Some(feeds[0])
    else First(feeds[1..], feed)
  }

  lemma {:induction false} FirstFinds(feeds: seq<FeedDefinition>, feed: FeedId, definition: FeedDefinition)
    requires forall i, j | 0 <= i < j < |feeds| :: feeds[i].id != feeds[j].id
    ensures First(feeds, feed) == Some(definition) <==> definition in feeds && definition.id == feed
  {
    if feeds != [] {
      FirstFinds(feeds[1..], feed, definition);
      assert feeds == [feeds[0]] + feeds[1..];
    }
  }

  predicate IdLe(a: FeedDefinition, b: FeedDefinition) {
    a.id <= b.id
  }

  /** `FeedRegistry::new`: sorted by id with a stable sort. */
  function NewRegistry(feeds: seq<FeedDefinition>): FeedRegistry {
    FeedRegistry(SortBy(feeds, IdLe))
  }

  lemma NewRegistryIsFaithful(feeds: seq<FeedDefinition>)
    requires forall i, j | 0 <= i < j < |feeds| :: feeds[i].id != feeds[j].id
    ensures NewRegistry(feeds).UniqueIds()
    ensures forall definition :: definition in NewRegistry(feeds).feeds <==> definition in feeds
  {
    SortByCorrect(feeds, IdLe);
    var sorted := SortBy(feeds, IdLe);
    DuplicatesFollowMultiset(feeds, sorted);
    forall i, j | 0 <= i < j < |sorted| ensures sorted[i].id != sorted[j].id {
      assert sorted[i] in feeds && sorted[j] in feeds;
    }
  }

  /** With unique ids the registry does not depend on the order of registration. */
  lemma RegistryForgetsOrder(a: seq<FeedDefinition>, b: seq<FeedDefinition>)
    requires forall i, j | 0 <= i < j < |a| :: a[i].id != a[j].id
    requires multiset(a) == multiset(b)
    ensures NewRegistry(a) == NewRegistry(b)
  {
    SortForgetsOrder(a, b, IdLe);
  }
}
