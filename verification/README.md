# Price oracle: verified model

This Dafny project models the parts of the price oracle node that its users have to rely on without being able to
watch them: the Storm Tree of signer subsets, the price engine, the peer protocol of `storm`, and the Treasury ledger
and request queue of `high-storm`. Code that updates state in place is modelled by classes and loops proved against
specification functions; the laws of each component are lemmas about those functions, over every input, run or
interleaving.

`dafny verify dfyconfig.toml` checks the whole project.

## How it is organised

| file | models |
|---|---|
| `Prelude`, `Arithmetic`, `Sorting`, `Bytes`, `Sums` | results and integer widths, division, the standard sort, big-endian bytes, totals over tables |
| `MerkleTree`, `Combinations`, `StormTree` | `storm-tree`, and the covenant's witness of `contracts/src/auth/storm_tree.rs` |
| `FeedRegistry`, `CrossRoutes`, `CrossPrice`, `PriceData`, `Reduce`, `FeedState`, `Instruction` | `price-feed` |
| `Message`, `Inbox`, `Membership` | `storm`: framing, replay and rate limits, staged membership |
| `MembershipLaws` | who may connect, what connecting leaves behind, and whose address counts, over every run |
| `Ledger`, `LedgerBooks`, `LedgerLaws` | Treasury coins, Droplets, locks, recovery; the signed-balance reference they refine; who is credited, debited and locked |
| `Requests`, `FeeReservations`, `RequestLaws` | user requests, the paged walk of their queue, the fee coins they hold, and what becomes of them over every run |
| `MemberMarkers`, `Exchange`, `ExchangeBuilder`, `ExchangeLedger`, `IndexerLaws` | member markers; building, validating and accounting an exchange; whom the indexer names |

## Conventions

- Hashes are terms: `Zero`, the hash of a leaf, the hash of two hashes. Equal terms are equal hashes, so freedom from
  collisions is part of the term algebra and not an assumption.
- 32-byte keys are naturals, ordered as their big-endian values, which is the order of the byte strings.
- Key aggregation, the wire codec and the signing hash are parameters. Laws that need a property of one state it.
- Clocks are arguments. A run is a list of events, so a statement about every run is about every interleaving of the
  sections that the original performs under a lock or inside one database transaction.
- Tables are maps; a failed transaction restores what it had read at its start. Stored integers are limited to signed
  64 bits. An addition inside a SQL update that leaves that range is a failure, as PostgreSQL has it.
- An asset valuation is a whole number in one common unit; a leg quotes it when its price times the quote's worth is
  the base's worth times its power of ten.

## What the proofs found

- A price that fits 64 bits is lost exactly when a product of leg prices, the scaling of the denominator, or a carried
  remainder leaves the 128-bit range (`AccumulateIsExact`, `ComputeIsExact`). It happens along candidate routes at
  ordinary 64-bit prices, by a carry (`CarryOverflowLosesAPrice`) and by a product (`ProductOverflowLosesAPrice`), and
  never while the products fit and the scaled denominator is at most a tenth of that range (`ComputeIsComplete`).
- A message stamped ahead of the receiver's clock can be accepted twice, once its first receipt has left the window;
  this happens exactly for such stamps (`ReplayableIffStampedAhead`).
- Good messages that share a record with a frame that fails are lost, so what arrives before an error depends on how the
  stream was cut (`CutDecidesWhatArrives`): exactly what the records before the failing one complete
  (`DeliveryStopsAtRecord`).
- A connection that uses the other key of a staged identity makes the staged table invalid; nothing else a claim does
  can (`ClaimKeepsIdentitiesDistinct`). Two steps after a start, such a connection ends a migration: activation is
  refused, and so is staging the same target again after a cancellation (`OtherKeyBlocksMigration`).
- A node that still waits for a coordinator's table lets a former staged member back in after the staging has been
  cancelled without marking it in the staged table, which goes on showing it Inactive; no other start ever shows a
  connected peer as anything but Active (`ConnectedAreShownExactly`).
- A table that bans a key by a later entry, where another entry of that key comes first, does not hold the ban: the key
  connects with one claim. Every other start holds its bans in every run (`BansHoldExactly`).
- Of all addresses only the Treasury's own makes the builder build an exchange that validation refuses
  (`BuiltValidatesForAddresses`).
- Validation looks at exchange markers, the indexer at migration markers too: a valid exchange that also carries the
  migration marker of somebody else is not attributed to its member (`IndexerNamesTheMember`), and the block that
  confirms it is refused for want of a marker (`ValidExchangeStopsTheLedger`).

## Model

| member | source | states |
|---|---|---|
| MerkleTrees.HeapCellIsMerkleRoot | storm-tree/src/smt.rs:94-106 | the array refines the recursive tree: each cell is the Merkle root of the leaf slots under it, and zero exactly when they are empty |
| MerkleTrees.MerkleTree.RootIsMerkleRoot | storm-tree/src/smt.rs:181-183 | after any appends the incremental root is the from-scratch root of the held leaves |
| MerkleTrees.MerkleTree.New | storm-tree/src/smt.rs:108-124 | depths 1 to 20 give an empty tree, others name their error |
| MerkleTrees.MerkleTree.Add | storm-tree/src/smt.rs:159-178 | an append succeeds exactly in order and with room, keeps every cell exact, and on an error changes nothing |
| MerkleTrees.MerkleTree.RehashPath | storm-tree/src/smt.rs:216-222 | rewriting one root path makes the whole array exact again |
| MerkleTrees.AppendKeepsOffPath | storm-tree/src/smt.rs:216-222 | cells off the new leaf's path do not change, so one path is enough |
| MerkleTrees.MerkleTree.FromLeaves | storm-tree/src/smt.rs:139-149 | succeeds exactly for distinct leaves that fit, on the sorted leaves and the least depth |
| MerkleTrees.DepthForIsLeast | storm-tree/src/smt.rs:128-132 | the depth is the least that holds the leaves, and exists exactly up to 2^20 of them |
| MerkleTrees.MerkleTree.Prove | storm-tree/src/smt.rs:189-203 | exactly held leaves have a proof; it is the true path, one sibling a level, and verifies |
| MerkleTrees.ProcessProof | storm-tree/src/smt.rs:233-245 | the loop computes the fold of the siblings |
| MerkleTrees.TruePathFolds | storm-tree/src/smt.rs:189-203 | completeness: the true path of every held leaf folds to the root |
| MerkleTrees.FoldNamesALeaf | storm-tree/src/smt.rs:227-245 | soundness at any length: what folds to the root is a held leaf with its true path |
| MerkleTrees.MembershipIsExact | storm-tree/src/smt.rs:227-230 | a proof verifies if and only if it is a held leaf's true path |
| MerkleTrees.RootBindsLeaves | storm-tree/src/smt.rs:139-149 | equal roots mean equal leaf lists and, when not empty, equal depths |
| MerkleTrees.RootOfBindsTheLeafSet | storm-tree/src/smt.rs:139-149 | two inputs give one root if and only if they hold the same leaves |
| Combinations.CombinationCount | storm-tree/src/lib.rs:216-230 | the checked loop with its early exit gives C(n, k) exactly when that is within the limit |
| Combinations.CounterStep | storm-tree/src/lib.rs:216-230 | every division of the loop is exact |
| Combinations.DiagonalGrows | storm-tree/src/lib.rs:216-230 | partial counts only grow, so leaving early loses no count within the limit |
| Combinations.SubsetCount | storm-tree/src/lib.rs:113-149 | the enumeration has C(n, k) entries |
| Combinations.SubsetsAreExact | storm-tree/src/lib.rs:113-149 | it lists exactly the ascending size-k choices of the keys |
| Combinations.SubsetsAreDistinct | storm-tree/src/lib.rs:113-149 | it lists none twice |
| StormTrees.StormTree.New | storm-tree/src/lib.rs:94-149 | construction succeeds exactly for enough valid distinct keys, few enough branches and no aggregate collision, with the least depth; each error is told apart |
| StormTrees.RootForgetsInputOrder | storm-tree/src/lib.rs:91-94 | trees over the same nodes have one root and the same branches, whatever the input order |
| StormTrees.RootBindsNodes | storm-tree/src/lib.rs:94-149 | under aggregation that separates key lists two trees share a root exactly when they have the same nodes |
| StormTrees.StormTree.Prove | storm-tree/src/lib.rs:193-203 | exactly the branches have proofs; they verify and fit the covenant's depth |
| StormTrees.TwentyNodesAtMost | storm-tree/src/lib.rs:25-33 | the branch limit admits exactly up to twenty nodes |
| StormTrees.BranchLimitBoundsDepth | storm-tree/src/lib.rs:25-33 | a tree within the branch limit is at most 17 deep |
| StormTrees.QuorumsShareAnHonestNode | storm-tree/src/lib.rs:152-154 | any two threshold sets share a node outside any third of faulty ones |
| StormTrees.ThresholdIsLeast | storm-tree/src/lib.rs:152-154 | no smaller threshold would do: two such sets may share faulty nodes only |
| StormTrees.InjectiveAggregationSuffices | storm-tree/src/lib.rs:119-135 | aggregation that separates key lists never trips the collision check |
| StormTrees.PaddingFoldsAway | contracts/src/auth/storm_tree.rs:53-100 | padding to a fixed depth does not change the fold |
| StormTrees.WitnessProof | contracts/src/auth/storm_tree.rs:53-86 | refuses exactly trees deeper than the covenant, else gives steps of the fixed length that fold to the root |
| StormTrees.WitnessOfConstructedTree | contracts/src/auth/storm_tree.rs:53-86 | on a constructible tree it never reports a proof too deep |
| StormTrees.WitnessIsExact | contracts/src/auth/storm_tree.rs:88-100 | packed steps, padded anywhere, fold to the root exactly for a held leaf and its true path |
| StormTrees.WitnessNamesABranch | contracts/src/auth/storm_tree.rs:88-100 | the covenant accepts no witness for anything but a branch of the tree |
| FeedRegistries.RegistryForgetsOrder | price-feed/src/registry.rs:87-91 | with unique ids the registry is independent of registration order |
| FeedRegistries.NewRegistryIsFaithful | price-feed/src/registry.rs:87-91 | sorting neither loses nor invents a feed and keeps ids unique |
| FeedRegistries.FirstFinds | price-feed/src/registry.rs:93-95 | a lookup finds exactly the feed with the id |
| CrossRoutes.CandidatesAreExact | price-feed/src/cross.rs:27-95 | the candidates are exactly the simple routes of Direct feeds from base to quote, inversion flags included |
| CrossRoutes.NoRouteIsExact | price-feed/src/cross.rs:27-60 | `SameAsset` is reported exactly for a pair of one asset, `NoRoute` exactly when no simple route joins two |
| CrossRoutes.CandidatesAreStrictlyOrdered | price-feed/src/cross.rs:27-60 | each route once, in an order without ties |
| CrossRoutes.CandidatesComeShortestFirst | price-feed/src/cross.rs:23-60 | fewest legs first, and among as many legs by the feed ids in traversal order, which decides the route that prices a pair |
| CrossRoutes.CandidatesForgetRegistrationOrder | price-feed/src/cross.rs:27-60 | nodes that registered feeds in different orders get the same list: the simple routes over what was registered, each once |
| CrossRoutes.WalksAreDistinct | price-feed/src/cross.rs:62-95 | the search never finds a route twice |
| CrossRoutes.RouteSearch.Extend | price-feed/src/cross.rs:62-95 | the backtracking search appends exactly the walks from its asset and restores its stacks |
| CrossRoutes.Candidates | price-feed/src/cross.rs:27-60 | the imperative search and sort give the list whose members and order the rows above state |
| CrossPrices.ScaledPrice | price-feed/src/cross.rs:133-161 | the checked loop computes the specified price |
| CrossPrices.RoundHalfEvenIsNearest | price-feed/src/cross.rs:150-161 | the settled price is the nearest integer, ties to even, and the only one |
| CrossPrices.DigitsAreExact | price-feed/src/cross.rs:133-149 | after i digits the loop holds the exact quotient and remainder of N times 10^i |
| CrossPrices.DigitLoop | price-feed/src/cross.rs:133-149 | leaving early means a carry overflowed or the price cannot fit |
| CrossPrices.CarriesInClosedForm | price-feed/src/cross.rs:146-149 | the carries of the loop are ten times N * 10^i mod D |
| CrossPrices.ScaledPriceIsExact | price-feed/src/cross.rs:133-161 | a price is given exactly when the scaling fits, no carry overflows and the rounded value fits 64 bits, and it is that value |
| CrossPrices.ScaledPriceIsComplete | price-feed/src/cross.rs:133-161 | with a divisor of at most a tenth of the range a price is given exactly when the rounded value fits 64 bits |
| CrossPrices.Compute | price-feed/src/cross.rs:101-131 | the checked products and stamps compute the specified rate |
| CrossPrices.AccumulateIsExact | price-feed/src/cross.rs:101-121 | the checked loop over the legs ends with the products of direct and of inverted prices, exactly when each product on the way fits |
| CrossPrices.ComputeIsExact | price-feed/src/cross.rs:101-131 | for the legs of any route: a rate is given exactly when no price is divided by zero, every product, the scaling and the carries fit 128 bits, and the rounded price is positive and fits 64 bits; it is that price |
| CrossPrices.ComputeIsComplete | price-feed/src/cross.rs:101-161 | where the products fit and the scaled denominator is at most a tenth of the range, a rate is given exactly when its price is positive and fits |
| CrossPrices.CarryOverflowLosesAPrice | price-feed/src/cross.rs:101-161 | a candidate route at 64-bit prices whose products and scaling fit and whose exact price is 2, and no rate is given |
| CrossPrices.ProductOverflowLosesAPrice | price-feed/src/cross.rs:101-121 | a candidate route at 64-bit prices where scaling and carries would fit and the exact price is 10^13, and no rate is given because a product overflows |
| CrossPrices.StampsBoundLegs | price-feed/src/cross.rs:101-131 | the rate's stamps are the newest receipt and earliest expiry of its legs |
| CrossPrices.RateCarriesLegStamps | price-feed/src/cross.rs:101-131 | a rate is the pair's own, as new as its freshest leg and valid as long as its stalest |
| CrossPrices.RoutePriceIsPairWorth | price-feed/src/cross.rs:101-131 | legs that quote one valuation give the half-even rounding of the pair's worth |
| CrossPrices.RoutesAgree | price-feed/src/cross.rs:27-131 | any two candidate routes whose own legs quote one valuation and that give a price give the same price, whatever other feeds hold |
| CrossPrices.EqualFractionsRoundAlike | price-feed/src/cross.rs:133-161 | rounding depends on the fraction, not on its terms |
| PriceData.PayloadRoundTrips | price-feed/src/price_data.rs:30-55 | decoding an encoded payload gives it back |
| PriceData.PayloadIsCanonical | price-feed/src/price_data.rs:40-55 | an accepted payload is the encoding of what it decodes to |
| PriceData.PayloadLayout | price-feed/src/price_data.rs:30-38 | where each field lies in the payload |
| Bytes.BigEndianOrder | price-feed/src/price_data.rs:30-38 | the most significant byte comes first, so values of one width compare as their bytes do |
| Reducing.MedianForgetsOrder | price-feed/src/reduce.rs:50-70 | the median is independent of the order of sources |
| Reducing.MedianIsRoundedMean | price-feed/src/reduce.rs:50-70 | between two middle prices it is their mean, half to even, and within 64 bits when the prices are |
| Reducing.MajorityBoundsMedian | price-feed/src/reduce.rs:50-70 | a majority of prices in an interval keeps the median there whatever the rest say |
| Reducing.ReducedStamps | price-feed/src/reduce.rs:24-48 | the reduced value is valid for exactly the window from its receipt |
| Reducing.ReductionIsExact | price-feed/src/reduce.rs:24-48 | observations are reduced exactly when there are some and all have the feed's decimals; to their median, the earliest receipt and the earliest expiry |
| Reducing.ValidationIsExact | price-feed/src/source.rs:76-96 | a source passes a positive price observed at most 300 seconds ago or 5 ahead, and newer than its last |
| FeedStateMachine.StateFollowsHistory | price-feed/src/feed_state.rs:83-140 | in every run a source is Frozen exactly when last frozen, and otherwise Dropped exactly from five failures in a row |
| FeedStateMachine.PollingFollowsHistory | price-feed/src/feed_state.rs:71-80 | in every run a source is polled unless frozen, and from five failures in a row on only a minute after the last |
| FeedStateMachine.ObservationFollowsHistory | price-feed/src/feed_state.rs:83-140 | in every run a source holds its last counted success unless dropped since, frozen or not |
| FeedStateMachine.FeedState.RecordPollFailure | price-feed/src/feed_state.rs:116-129 | a failure counts once, drops the source at the fifth with its observation and a retry time, and leaves a frozen source alone |
| FeedStateMachine.FeedState.RecordPollSuccess | price-feed/src/feed_state.rs:131-140 | a success revives any source but a frozen one and holds its observation |
| FeedStateMachine.FeedState.Freeze | price-feed/src/feed_state.rs:83-87 | freezing overrides any state and cancels retries |
| FeedStateMachine.FeedState.Unfreeze | price-feed/src/feed_state.rs:89-94 | unfreezing forgets past failures |
| FeedStateMachine.FeedStates.New | price-feed/src/feed_state.rs:166-196 | construction fails exactly when a Cross pair has no route; with unique ids each feed gets its one place |
| FeedStateMachine.FeedStates.Drive | price-feed/src/feed_state.rs:202-204 | events on a started node leave every feed where its own events take it |
| FeedStateMachine.RunsAreSound | price-feed/src/feed_state.rs:131-148 | runs of polls that passed source validation hold only sound observations |
| FeedStateMachine.DirectValueIsMedian | price-feed/src/feed_state.rs:96-148 | a Direct value exists exactly while a source is Active, some observations are valid and all of these have the feed's decimals; it is the median of exactly those, frozen sources' included |
| FeedStateMachine.CrossPairUsesTheFirstRoute | price-feed/src/feed_state.rs:206-220 | a Cross pair is priced from the one route that comes before every other whose legs all have values, and from nothing else |
| FeedStateMachine.FeedStates.ValueFollowsKind | price-feed/src/feed_state.rs:206-220 | a Direct feed has its own sources' value, a Cross pair that of its legs, anything unregistered none |
| FeedStateMachine.DirectValueIsSignable | price-feed/src/feed_state.rs:142-148 | a Direct value is positive, known, unexpired and neither ahead nor stretched |
| FeedStateMachine.CrossValueIsSignable | price-feed/src/feed_state.rs:209-220 | so is a Cross value over such legs |
| FeedStateMachine.CrossValueIsPairWorth | price-feed/src/feed_state.rs:209-220 | whichever Direct feeds a node holds, if those quote one valuation its Cross value is the rounded worth of the pair |
| FeedStateMachine.FeedStates.OwnValueIsAccepted | price-feed/src/feed_state.rs:209-220 | in every reachable state a node's own value passes its own acceptance test until the second it expires |
| Instructions.DeviationIsOnePercent | price-feed/src/instruction.rs:61-65 | the basis-point bound is 99r < 100p < 101r |
| Instructions.AcceptanceIsExact | price-feed/src/instruction.rs:27-65 | a rate is accepted exactly for a registered feed at its decimals, unexpired, stamped at most 5 seconds ahead, valid at most 300 from its stamp, and within one percent of the own value |
| Instructions.SignedRateExpires | price-feed/src/price_data.rs:57-65 | whatever was accepted is refused 305 seconds later |
| Instructions.QuorumsAgreeOnPrice | price-feed/src/instruction.rs:27-65 | two rates signed by quorums that saw the same local values differ by less than about two percent |
| Messages.MessageDecoder.Push | storm/src/message.rs:97-132 | the streaming decoder delivers what scanning the buffered bytes and the input gives, and buffers the unconsumed suffix; on an error it delivers nothing and stays on the frame that failed |
| Messages.MessageDecoder.Consume | storm/src/message.rs:97-132 | each turn consumes at least one byte and completes at most one message |
| Messages.ScanResumes | storm/src/message.rs:97-132 | what was left over scans on with what comes next |
| Messages.SendFrame | storm/src/network.rs:338-347 | the sender's loop cuts a frame into non-empty records of at most the transport's size, losing nothing |
| Messages.ReceiveLoop | storm/src/network.rs:296-313 | the receive loop handles the delivered messages in order until one is refused, and ends with that refusal or the decoding error |
| Messages.HandleAppends | storm/src/network.rs:311-313 | handling record by record is handling the messages in one go |
| Messages.DeliveryForgetsChunking | storm/src/network.rs:296-313 | however a stream is cut the same error ends delivery, and without one the same messages arrive |
| Messages.DeliveryStopsAtRecord | storm/src/network.rs:296-313 | before an error exactly the messages completed by earlier records arrive |
| Messages.CutDecidesWhatArrives | storm/src/message.rs:97-132 | for any good and any bad body up to the size limit: both frames in one record deliver nothing, in two records the good message, with the same error |
| Messages.RecordsScanBack | storm/src/message.rs:55-65 | the framed stream of encodable messages scans back to exactly them |
| Messages.SentIsDelivered | storm/src/network.rs:296-347 | end to end: what is sent is received, in order, under any splitting |
| Inboxes.PeerQueues.RegisterMessage | storm/src/state.rs:226-280 | one registration is the specified step on its peer's queues and touches no other peer's |
| Inboxes.AcceptanceIsExact | storm/src/state.rs:226-280 | in every run a message is accepted exactly with a stamp within 300 seconds and, for control, fewer than 64 accepted in 10 seconds or, for others, no repeat and fewer than 256 in 300 |
| Inboxes.VerdictFollowsHistory | storm/src/state.rs:226-280 | and the reason of a refusal follows from the accepted history alone |
| Inboxes.FingerprintBinds | storm/src/state.rs:253-259 | the fingerprint's fields determine the message |
| Inboxes.RunTracks | storm/src/state.rs:226-280 | in every run the queues are the unexpired suffix of what was accepted |
| Inboxes.ReacceptanceIsLate | storm/src/state.rs:261-278 | two acceptances of one ordinary message are more than 300 seconds apart |
| Inboxes.NoReplayOfThePast | storm/src/state.rs:226-280 | a message stamped no later than its first receipt is never accepted again |
| Inboxes.ReplayableIffStampedAhead | storm/src/state.rs:226-280 | a second acceptance is possible exactly for stamps ahead of the first receipt |
| Inboxes.AtMost256InFiveMinutes | storm/src/state.rs:270-272 | at most 256 ordinary messages in any span of 300 seconds |
| Inboxes.AtMost64ControlInTenSeconds | storm/src/state.rs:236-250 | at most 64 control messages in any span below 10 seconds |
| Inboxes.PeersAreIndependent | storm/src/state.rs:226-280 | under any interleaving each peer's queues depend on its own messages alone |
| Membership.CandidatesAreExact | storm/src/handle.rs:51-69 | the staged table has one entry a key, the active one where there is one, for exactly the target identities |
| Membership.StagingIsExact | storm/src/handle.rs:51-69 | a target is refused exactly when two known keys belong to one of its identities |
| MembershipLaws.StagingAnswers | storm/src/handle.rs:41-74 | with a target staged only the same one is accepted, and only over a valid table; a new staging installs the sorted candidates and nothing else; refusals change nothing |
| MembershipLaws.RestagingKeepsEntries | storm/src/handle.rs:148-151 | after a cancellation the same target gets back the entries it had |
| Membership.StormState.BeginMemberMigration | storm/src/handle.rs:41-74 | staging refuses another target while one is staged and any table with two keys for one identity, and leaves the active table alone |
| Membership.StormState.MemberMigrationPeers | storm/src/handle.rs:96-114 | answers what an activation at that moment would, changing nothing |
| Membership.StormState.ActivateMemberMigration | storm/src/handle.rs:117-145 | refuses, with the same error as the step relation, unless the staged table may replace the active one, which it then does whole |
| Membership.StormState.CancelMemberMigration | storm/src/handle.rs:148-151 | only the target is forgotten; staged entries stay for the next staging |
| Membership.StormState.ClaimConnection | storm/src/network.rs:175-256 | refuses connected, banned and unwelcome keys and full provisional room in that order, else activates the key in both tables: whom exactly, and what is left, is stated by the next rows |
| MembershipLaws.ClaimIsExact | storm/src/network.rs:175-229 | a claim succeeds exactly for an unconnected key whose first entry is neither Banned nor Active, or without an entry for a staged identity or while a table is awaited, with fewer than 16 unlisted connections; each refusal has its condition and changes nothing |
| MembershipLaws.ClaimMarksTheKey | storm/src/network.rs:203-253 | entry by entry: the key's first entries turn Active and take the seen address unless they name a host, a staged member without an entry gets one, operators' addresses win, and nothing else changes |
| MembershipLaws.NoStrangerIsConnected | storm/src/network.rs:214-229 | in every run of a node that does not await a coordinator, whoever is connected is in the active table or in a set that was staged |
| MembershipLaws.RestartConnectsItsTableOnly | storm/src/state.rs:218-224 | a node restarted from a table that stages nothing connects only keys of its table |
| MembershipLaws.OnlyDiscoverableWaits | storm/src/storm.rs:49-123 | a restart and a coordinator never await a table, a node that knows only its coordinator does |
| MembershipLaws.ConnectedAreShownExactly | storm/src/network.rs:175-280 | every run shows connected peers as Active in both tables, exactly from starts that do not await a coordinator |
| MembershipLaws.OperatorsHaveTheLastWord | storm/src/state.rs:183-189 | in every run the last address an operator gave for a key is in every entry of it |
| Membership.StormState.ReleaseConnection | storm/src/network.rs:258-280 | the connection goes, and an Active entry turns Inactive in both tables |
| MembershipLaws.ReleaseFreesTheKey | storm/src/network.rs:258-280 | ends that connection and no other, shows the key Inactive where it was Active, and lets it connect again unless banned |
| Membership.StormState.SetPeerAddress | storm/src/handle.rs:18-31 | refuses an invalid key or address unchanged; else the override reaches both tables and every later claim |
| Membership.StormState.FromPeers | storm/src/storm.rs:97-123 | a restart keeps the known entries in order with addresses and bans, adds the local one if missing, makes it alone Controlled and the rest Inactive, and connects, stages and marks nobody |
| Membership.RestartIsExact | storm/src/storm.rs:97-138 | that description fixes the restarted state completely |
| Membership.StormState.Discovery | storm/src/storm.rs:49-62 | the same for a coordinator, whose own entry alone carries the discovery mark |
| Membership.StormState.Discoverable | storm/src/storm.rs:68-94 | refuses exactly itself and a coordinator without an address; else knows the Controlled local node and the Inactive coordinator, marked and with its address |
| Membership.RunKeepsInv | storm/src/network.rs:175-280 | over every interleaving: staged keys are unique, bans agree in both tables, at most 16 provisional connections |
| Membership.InvOnEntries | storm/src/network.rs:175-280 | an Active entry has a connection, a key banned by its first entry never does, nor any Banned entry where bans lead |
| Membership.EveryReachableStateIsSafe | storm/src/network.rs:175-280 | from every start, repeated keys included, and over every interleaving: an Active entry is connected, a key whose first entry is Banned is not, and at most 16 connections are provisional |
| Membership.BansHoldExactly | storm/src/network.rs:196-201 | no Banned entry is connected in any run from a start, exactly when its bans come first among the entries of their keys |
| Membership.BansLeadAtRestart | storm/src/storm.rs:97-123 | the same condition read off the table a restart is given |
| Membership.OnlyActivationChangesTheTable | storm/src/handle.rs:41-151 | no other step changes who is in the active table |
| Membership.ActivationIsExact | storm/src/handle.rs:117-133 | activation succeeds exactly when one key a member is staged, all connected or (local node leaving) all with addresses |
| MembershipLaws.ActivationAnswers | storm/src/handle.rs:117-145 | which of the three refusals is given when, without any change |
| Membership.ActivationInstallsTheStagedSet | storm/src/handle.rs:135-145 | it installs the staged table with the bans that claims look at (with unique keys, all bans) and keeps no connection outside it |
| Membership.ClaimKeepsIdentitiesDistinct | storm/src/network.rs:233-250 | a claim leaves the staged identities valid unless it adds the other key of a staged one |
| Membership.OtherKeyBlocksMigration | storm/src/network.rs:233-250 | two steps after a start: a member's other key connects, and the migration can neither activate nor be staged again |
| Ledgers.DropletStore.ApplyBlock | high-storm/src/db/droplet.rs:313-445 | the loops over transactions, inputs and outputs compute the ledger whose rows and coins `LedgerLaws` states; a rejected block changes nothing |
| Ledgers.DropletStore.CreditMembers | high-storm/src/db/droplet.rs:484-521 | the deposit loop credits whom `LedgerLaws.CreditDepositIsShared` says |
| LedgerLaws.DepositReachesItsMembers | high-storm/src/db/droplet.rs:362-521 | a transaction that spends no Treasury value: the tagged current member gets all of it, or each member amount / n and one more for the amount % n least; no other row changes; it is refused exactly when something cannot be stored |
| LedgerLaws.CreditDepositIsShared | high-storm/src/db/droplet.rs:484-521 | the same for the deposit alone, held locks untouched |
| LedgerLaws.ExchangeDebitsItsMember | high-storm/src/db/droplet.rs:388-441 | a transaction that spends Treasury value costs the marked member what leaves the Treasury and ends that member's lock; no other row changes; accepted exactly for one current member, no gain, and what can be stored |
| LedgerLaws.TreasuryHoldsExactly | high-storm/src/db/droplet.rs:341-378 | afterwards the coins are those not named as inputs, and the outputs at their amounts |
| Ledgers.DropletStore.LockExchange | high-storm/src/db/droplet.rs:273-295 | locks exactly a covered amount of an unlocked member, or repeats the same lock, as the next rows state |
| LedgerLaws.LockIsGrantedExactly | high-storm/src/db/droplet.rs:273-295 | granted exactly when covered and nothing is locked, or when it repeats the lock held; otherwise nothing changes |
| LedgerLaws.LockFollowsEvents | high-storm/src/db/droplet.rs:273-481 | each event moves a member's lock as told: only a confirmed exchange, an unlock or a reset ends it, only a replacement changes its transaction |
| LedgerLaws.HeldLockIsKept | high-storm/src/db/droplet.rs:273-295 | over every run in which nothing ends or replaces it a lock keeps transaction and amount: no second exchange starts |
| Ledgers.DropletStore.UnlockExchange | high-storm/src/db/droplet.rs:447-462 | clears the lock and nothing of the balance |
| Ledgers.DropletStore.UpdateLockedTransaction | high-storm/src/db/droplet.rs:464-481 | replaces exactly the expected transaction of a held lock |
| LedgerLaws.LocksAreReleasedAndReplaced | high-storm/src/db/droplet.rs:447-481 | unlocking and replacing touch nothing but that member's lock, and answer whether they did |
| Ledgers.DropletStore.ResetProjections | high-storm/src/db/chain.rs:247-340 | sets held locks aside, empties accounts and coins, and lists every lock set aside |
| LedgerLaws.ResetListsInOrder | high-storm/src/db/chain.rs:257-275 | in every run the list names each lock set aside once, by ascending member |
| Ledgers.DropletStore.FinishRecovery | high-storm/src/db/chain.rs:234-245 | ends a recovery by forgetting the locks set aside |
| LedgerBooks.InputsCountOnce | high-storm/src/db/droplet.rs:341-360 | inputs consume each known coin once, and overflow is refused exactly for totals beyond 64 bits |
| LedgerBooks.CreditMovesBalance | high-storm/src/db/droplet.rs:6-12 | a credit moves the signed balance by its amount, deficits repaid first |
| LedgerBooks.DebitMovesBalance | high-storm/src/db/droplet.rs:400-441 | a debit moves the signed balance down by its amount, overdraws included |
| LedgerBooks.BlockKeepsBooks | high-storm/src/db/droplet.rs:327-445 | a block is accepted exactly when the signed-balance books accept it, with their result |
| LedgerBooks.LedgerFollowsBooks | high-storm/src/db/droplet.rs:327-481 | in every run each row is told by the member's signed balance: balance or deficit, never both, and locks covered |
| LedgerBooks.TreasuryIsConserved | high-storm/src/db/droplet.rs:327-445 | in every run Treasury coins total the members' balances less their deficits |
| LedgerBooks.SharesAreFair | high-storm/src/db/droplet.rs:494-510 | shares add up to the deposit and differ by at most one |
| LedgerBooks.BlockForgetsMemberOrder | high-storm/src/db/droplet.rs:333-338 | member order and repeats do not matter |
| LedgerBooks.LocksNeverDisturbAccounting | high-storm/src/db/droplet.rs:273-295 | accounting is that of the blocks alone under any interleaving of lock operations, also after a reset and replay |
| LedgerBooks.LocksStaySetAside | high-storm/src/db/chain.rs:234-275 | a lock set aside by a reset is returned unchanged by later ones until recovery finishes |
| LedgerBooks.ResetCapturesLocks | high-storm/src/db/chain.rs:249-256 | in every run a reset sets aside exactly the locks held, with amounts and transactions, beside those set aside before |
| UserRequests.UserRequestStore.InsertPending | high-storm/src/db/user_request.rs:44-89 | the loop reserves every coin or none: a taken coin rolls back the row and the coins before it |
| UserRequests.UserRequestStore.ObserveProcessing | high-storm/src/db/user_request.rs:159-182 | a request first seen in processing is stored without fee coins; a known one is left alone |
| UserRequests.UserRequestStore.MarkExecuted | high-storm/src/db/user_request.rs:236-257 | only an included request is executed, and its coins are released with it |
| UserRequests.UserRequestStore.MarkFailed | high-storm/src/db/user_request.rs:259-281 | only a pending request fails, and its coins are released with it |
| UserRequests.UserRequestStore.MarkIncluded | high-storm/src/db/user_request.rs:203-223 | only a processing or included request is included, at the latest block named |
| RequestLaws.StatusFollowsGraph | high-storm/src/db/user_request.rs:184-281 | each event moves its request exactly along the status graph and leaves every other request alone |
| RequestLaws.InclusionIsTheLast | high-storm/src/db/user_request.rs:203-234 | in every run exactly included and executed requests have an inclusion: the one named last, neither undone since nor changed after execution |
| RequestLaws.IssuedIsFrozen | high-storm/src/db/user_request.rs:184-281 | text and height of a request never change, nor payload and transaction once it is issued or closed |
| RequestLaws.ContentsFollowEvents | high-storm/src/db/user_request.rs:184-281 | leaving the queue stores exactly the payload and transaction, or the reason, that the event brings |
| RequestLaws.AnswersFollowStatus | high-storm/src/db/user_request.rs:184-281 | each operation answers whether the request had the status it needs |
| RequestLaws.InsertStoresOrNothing | high-storm/src/db/user_request.rs:44-89 | an accepted request is stored as given with its coins and nothing else changes; a refused one leaves no trace |
| UserRequests.UserRequestStore.WalkPending | high-storm/src/high_storm/user_requests.rs:339-515 | the paged walk reads every pending row once, in order, failing rows and freeing their coins as it goes, until the queue ends, the round stops at a row, or the scan bound |
| UserRequests.QueueResumes | high-storm/src/db/user_request.rs:109-143 | resuming after a row leaves the rest of the queue, whatever became of that row |
| RequestLaws.QueueIsInIssuanceOrder | high-storm/src/db/user_request.rs:109-143 | the queue holds each pending request after the cursor once, by height and then by hash |
| RequestLaws.PageIsExact | high-storm/src/db/user_request.rs:109-143 | a page is the front of the queue, as long as asked for or all of it |
| UserRequests.PagesAreTheQueue | high-storm/src/db/user_request.rs:109-143 | pages of any size are together the whole queue, each pending row once and in order, however long |
| FeeReservations.InsertIsExact | high-storm/src/db/user_request.rs:44-89 | an insert is accepted exactly for a new request with free and distinct coins; a refusal names a taken or repeated one |
| RequestLaws.RefusalsAreExact | high-storm/src/db/user_request.rs:44-89 | a height that cannot be stored, a known hash, or a taken or repeated coin, in this order |
| FeeReservations.ReservationsAreExact | high-storm/src/db/user_request.rs:44-281 | in every reachable state an accepted request holds exactly its coins while open and none once closed |
| FeeReservations.OpenRequestsShareNoCoin | high-storm/src/db/user_request.rs:67-84 | no coin pays for two open requests |
| FeeReservations.StatusesMove | high-storm/src/db/user_request.rs:184-281 | every event moves a request along the status graph or not at all, chain resets included |
| FeeReservations.ClosedIsTerminal | high-storm/src/db/user_request.rs:236-281 | executed and failed are final, and such a hash is never accepted again |
| FeeReservations.HeightsAreStored | high-storm/src/db/user_request.rs:51-52 | stored heights always fit the column |
| FeeReservations.WalkReachable | high-storm/src/high_storm/user_requests.rs:339-515 | in every reachable state: the rows read are the front of the queue with no stop among them, exactly the hopeless ones of them fail, and with room under the bound and no stop it is the whole queue |
| MemberMarkers.MembersScript | high-storm/src/high_storm/assets.rs:108-135 | the buffer loop prints the marker of the sorted list without repeats |
| MemberMarkers.InitialRoundTrips | high-storm/src/high_storm/assets.rs:97-173 | printing succeeds exactly for 1 to 65535 distinct keys, and parsing gives the sorted list |
| MemberMarkers.InitialIsCanonical | high-storm/src/high_storm/assets.rs:137-173 | an accepted marker is byte for byte the printing of what it returned |
| MemberMarkers.MigratedRoundTrips | high-storm/src/high_storm/assets.rs:101-207 | the migrated marker returns its proposer |
| MemberMarkers.MigratedIsCanonical | high-storm/src/high_storm/assets.rs:175-207 | an accepted migrated marker is a printing with that proposer |
| MemberMarkers.MarkersAreApart | high-storm/src/high_storm/assets.rs:137-207 | neither parser accepts the other's version, nor an exchange marker |
| MemberMarkers.MemberMarkerIsExact | high-storm/src/high_storm/droplets.rs:658-695 | a script names a member exactly when it is that member's marker |
| Exchanges.ValidateLayout | high-storm/src/high_storm/droplets.rs:722-822 | the counting loops accept exactly the valid layouts with the requested hash, for what leaves the Treasury |
| Exchanges.ExchangePaysRecipientsAndFees | high-storm/src/high_storm/droplets.rs:796-816 | the amount taken is recipients plus fees |
| Exchanges.ExchangeConservesAssets | high-storm/src/high_storm/droplets.rs:722-822 | every input shows asset and value, and of every asset exactly what comes in goes out |
| Exchanges.OnlyTheTreasuryPays | high-storm/src/high_storm/droplets.rs:722-822 | every input but the covenant's is the Treasury's, the covenant's output is kept, and exactly the leader is named, at no amount |
| Exchanges.ExchangeRecipientAmount | high-storm/src/high_storm/droplets.rs:697-720 | answers exactly when input 1 shows a script and recipients have amounts that total a positive 64-bit value, with that total |
| Exchanges.ValidLayoutNamesRecipients | high-storm/src/high_storm/droplets.rs:697-822 | on a valid layout it always answers, under the Treasury script |
| ExchangeBuilder.SelectFunding | high-storm/src/high_storm/droplets.rs:244-273 | succeeds exactly when a prefix of the index matches Elements and covers what is required; selects unspent coins in order, none needless |
| ExchangeBuilder.PrepareExchange | high-storm/src/high_storm/droplets.rs:179-340 | builds exactly when amount, destination address and leader are in order and a prefix of the index covers amount and fee |
| ExchangeBuilder.BuiltValidatesForRecipients | high-storm/src/high_storm/droplets.rs:277-340 | what is built validates exactly for ordinary recipient scripts, with amount asked plus fee |
| ExchangeBuilder.BuiltValidatesForAddresses | high-storm/src/high_storm/droplets.rs:277-340 | for addresses: exactly for every one but the Treasury's own, and the recipient amount is the amount asked |
| ExchangeLedger.DebitIsValidatedAmount | high-storm/src/db/droplet.rs:380-441 | the confirmed exchange is recorded exactly when it can be, moving its member's signed balance by the validated amount and nobody else's |
| IndexerLaws.ConfirmedDepositIsCredited | high-storm/src/high_storm/indexer/mod.rs:767-826 | from chain to ledger: a deposit is credited to the member whose marker follows its first marked Treasury output, or to all in shares |
| IndexerLaws.TreasuryOutputsAreExact | high-storm/src/high_storm/indexer/mod.rs:833-845 | the indexer takes each explicit policy-asset output to the Treasury once, at its position |
| IndexerLaws.ExchangeMemberIsExact | high-storm/src/high_storm/indexer/mod.rs:795-805 | a transaction is a member's exchange exactly when all its markers name that member |
| ExchangeLedger.IndexerNamesTheMember | high-storm/src/high_storm/indexer/mod.rs:767-823 | the indexer attributes a valid exchange to its member exactly when no output names anyone else |
| ExchangeLedger.BuiltIsAttributed | high-storm/src/high_storm/indexer/mod.rs:767-823 | every exchange the node builds to an address other than the Treasury's own is attributed to its member |
| ExchangeLedger.BuiltExchangeIsDebited | high-storm/src/db/droplet.rs:380-441 | once confirmed it costs its member exactly the amount asked plus the fee |
| ExchangeLedger.ForeignMarkerStopsTheLedger | high-storm/src/db/droplet.rs:392-394 | a confirmed valid exchange is refused for want of a marker exactly when an output names somebody else |
| ExchangeLedger.ValidExchangeStopsTheLedger | high-storm/src/db/droplet.rs:392-394 | such an exchange over a ledger that one deposit has reached: it spends that deposit, passes validation, and its block is refused |

## Left out

- Sockets, name resolution, timeouts, Noise handshakes, tasks, HTTP, IPC, command line, metrics and consoles.
- Hash functions, Schnorr and MuSig2 signatures, blinding, Simplicity programs: abstract hashes, keys and parameters.
- Elements RPC: a coin lookup is a map, and a failing call is not modelled.
- SQL text and drivers: where SQLite turns an integer sum beyond 64 bits into a floating-point number, the model follows PostgreSQL and fails.
- The postcard codec: a parameter with decoding inverse to encoding and non-empty encodings.
- The peer-table message handler, `last_seen`, the listener and shutdown in `storm`; a node's discovery flag is part of its starting state.
- The `credit` call on its own: it adds value with no deposit, so it is not an event of ledger runs.
- The height stored with a Treasury coin, which orders listings only, and the block cursor recorded with a block.
- Droplet exchange request history, voting, monitored coins, network assets, attestations and the round schedule: single guarded updates.
- Ledgers.DropletStore.ResetProjections: does not undo asset transitions or clear the monitored coins, cursors and canonical blocks, because those tables are not modelled.
- The text form of addresses: the builder receives the parsed address, or none.
- Output positions beyond 32 bits, which the indexer refuses.
- Exchanges.ValidateLayout: does not tell the reasons of refusal apart, because all carry one error kind with a message.
- CrossPrices.RoutesAgree: states valuations in whole units, which any rational valuation can be scaled to.
