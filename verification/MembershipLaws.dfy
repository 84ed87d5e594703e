/** Who may connect, what connecting leaves in the tables, and whose address counts, over every run of a node. */
module MembershipLaws {
  import opened Prelude
  import opened Sorting
  import opened Membership

  // ----- Entries -----

  predicate Listed(peers: seq<Peer>, key: PeerKey) {
    exists p :: p in peers && p.key == key
  }

  /** The first entry of the key is at this position. */
  predicate FirstAt(peers: seq<Peer>, key: PeerKey, i: int) {
    0 <= i < |peers| && peers[i].key == key && forall j | 0 <= j < i :: peers[j].key != key
  }

  lemma {:induction false} LookupIsFirst(peers: seq<Peer>, key: PeerKey)
    ensures Lookup(peers, key).None? ==> !Listed(peers, key)
    ensures Lookup(peers, key).Some? ==> exists i :: FirstAt(peers, key, i) && Lookup(peers, key) == Some(peers[i])
  {
    if peers != [] && peers[0].key != key {
      var rest := peers[1..];
      LookupIsFirst(rest, key);
      if Lookup(rest, key).Some? {
        var i :| FirstAt(rest, key, i) && Lookup(rest, key) == Some(rest[i]);
        forall j | 0 <= j < i + 1 ensures peers[j].key != key {
          assert j > 0 ==> peers[j] == rest[j - 1];
        }
        assert FirstAt(peers, key, i + 1);
      }
      assert peers == [peers[0]] + rest;
    } else if peers != [] {
      assert FirstAt(peers, key, 0);
    }
  }

  lemma OneIsFirst(peers: seq<Peer>, key: PeerKey, i: int, j: int)
    requires FirstAt(peers, key, i) && FirstAt(peers, key, j)
    ensures i == j
  {
  }

  lemma FirstIsLookup(peers: seq<Peer>, key: PeerKey, i: int)
    requires FirstAt(peers, key, i)
    ensures Lookup(peers, key) == Some(peers[i])
  {
    LookupIsFirst(peers, key);
    assert peers[i] in peers && Listed(peers, key);
    if Lookup(peers, key).Some? {
      var j :| FirstAt(peers, key, j) && Lookup(peers, key) == Some(peers[j]);
      OneIsFirst(peers, key, i, j);
    }
  }

  lemma ListedIsKnown(peers: seq<Peer>, key: PeerKey)
    ensures Listed(peers, key) <==> key in Statuses(peers)
  {
    EntriesHaveStatuses(peers);
  }

  // ----- Who may connect -----

  /** The status of the key's first entry, the one that claims look at. */
  ghost predicate FirstHas(peers: seq<Peer>, key: PeerKey, statuses: set<PeerStatus>) {
    exists i :: FirstAt(peers, key, i) && peers[i].status in statuses
  }

  ghost function Unlisted(s: Node): set<PeerKey> {
    set key | key in s.connections && !Listed(s.peers, key)
  }

  /** The node still waits for the table of a coordinator other than itself. */
  ghost predicate Discovers(s: Node) {
    !s.discoveryTableReceived && exists p :: p in s.peers && p.key != s.local && p.discovery
  }

  /** A key without an entry is welcome as a staged member, or while the node waits for the table. */
  ghost predicate Welcome(s: Node, key: PeerKey) {
    (s.members.Some? && key.x in s.members.value) || Discovers(s)
  }

  /** Who is let in. */
  ghost predicate Admits(s: Node, key: PeerKey) {
    && key !in s.connections
    && if Listed(s.peers, key) then FirstHas(s.peers, key, {Controlled, Inactive})
       else Welcome(s, key) && |Unlisted(s)| < MAX_PROVISIONAL_CONNECTIONS
  }

  lemma FirstStatus(peers: seq<Peer>, key: PeerKey, statuses: set<PeerStatus>)
    ensures FirstHas(peers, key, statuses) <==>
              Lookup(peers, key).Some? && Lookup(peers, key).value.status in statuses
  {
    LookupIsFirst(peers, key);
    if i :| FirstAt(peers, key, i) && peers[i].status in statuses {
      FirstIsLookup(peers, key, i);
    }
  }

  lemma UnlistedIsProvisional(s: Node)
    ensures Unlisted(s) == s.Provisional()
  {
    forall key ensures key in Unlisted(s) <==> key in s.Provisional() {
      ListedIsKnown(s.peers, key);
    }
  }

  /**
   * A claim succeeds exactly for whom the node admits; a refusal says whether the key is connected or shown so, there
   * is no room left, or it is not authorised, and changes nothing.
   */
  lemma ClaimIsExact(s: Node, key: PeerKey, seen: Option<Address>)
    ensures var (after, r) := ClaimStep(s, key, seen);
            && (r.Ok? <==> Admits(s, key))
            && (r == Err(PeerAlreadyConnected) <==> key in s.connections || FirstHas(s.peers, key, {Active}))
            && (r == Err(ProvisionalConnectionLimit) <==>
                  key !in s.connections && !Listed(s.peers, key) && Welcome(s, key)
                  && |Unlisted(s)| >= MAX_PROVISIONAL_CONNECTIONS)
            && (r.Err? ==> after == s && r.error in {PeerAlreadyConnected, UnauthorizedConnection,
                ProvisionalConnectionLimit})
  {
    FirstStatus(s.peers, key, {Controlled, Inactive});
    FirstStatus(s.peers, key, {Active});
    ListedIsKnown(s.peers, key);
    StatusIsLookup(s.peers, key);
    UnlistedIsProvisional(s);
  }

  // ----- What a claim leaves -----

  /** An operator's address counts first; then what was seen, unless the entry names a host. */
  function AddressAfter(key: PeerKey, address: Option<Address>, seen: Option<Address>,
                        overrides: map<PeerKey, Address>): Option<Address> {
    if key in overrides then Some(overrides[key])
    else if seen.None? || (address.Some? && address.value.HostName?) then address
    else seen
  }

  /** Entry by entry: the first of the claimed key, if any is claimed, is Active and may take the address seen. */
  ghost predicate MarkedFor(before: seq<Peer>, after: seq<Peer>, claimed: Option<PeerKey>, seen: Option<Address>,
                            overrides: map<PeerKey, Address>) {
    && |after| == |before|
    && forall i | 0 <= i < |before| ::
         var first := claimed.Some? && FirstAt(before, claimed.value, i);
         && after[i].key == before[i].key && after[i].discovery == before[i].discovery
         && after[i].status == (if first then Active else before[i].status)
         && after[i].address == AddressAfter(before[i].key, before[i].address, if first then seen else None, overrides)
  }

  lemma {:induction false} ReplaceAt(peers: seq<Peer>, key: PeerKey, entry: Peer)
    ensures |Replace(peers, key, entry)| == |peers|
    ensures forall i | 0 <= i < |peers| ::
              Replace(peers, key, entry)[i] == if FirstAt(peers, key, i) then entry else peers[i]
  {
    if peers != [] && peers[0].key != key {
      var rest := peers[1..];
      ReplaceAt(rest, key, entry);
      forall i | 0 < i < |peers|
        ensures FirstAt(peers, key, i) <==> FirstAt(rest, key, i - 1)
      {
        assert forall j | 0 < j < i :: peers[j] == rest[j - 1];
        if FirstAt(peers, key, i) {
          assert forall j | 0 <= j < i - 1 :: rest[j] == peers[j + 1];
        }
      }
    }
  }

  lemma MarkActiveMarks(peers: seq<Peer>, key: PeerKey, seen: Option<Address>, overrides: map<PeerKey, Address>)
    ensures MarkedFor(peers, ApplyOverrides(MarkActive(peers, key, seen), overrides), Some(key), seen, overrides)
  {
    LookupIsFirst(peers, key);
    if Lookup(peers, key).Some? {
      var i :| FirstAt(peers, key, i) && Lookup(peers, key) == Some(peers[i]);
      ReplaceAt(peers, key, Lookup(peers, key).value.(status := Active).Observed(seen));
      forall j | 0 <= j < |peers| && FirstAt(peers, key, j) ensures j == i {
        OneIsFirst(peers, key, i, j);
      }
    } else {
      forall j | 0 <= j < |peers| ensures !FirstAt(peers, key, j) {
        assert peers[j] in peers;
      }
    }
  }

  lemma OverridesMark(peers: seq<Peer>, overrides: map<PeerKey, Address>)
    ensures MarkedFor(peers, ApplyOverrides(peers, overrides), None, None, overrides)
  {
  }

  /** The staged table gains an entry for a staged member without one. */
  ghost predicate Joins(s: Node, key: PeerKey) {
    !Listed(s.peers, key) && s.members.Some? && key.x in s.members.value && !Listed(s.staged, key)
  }

  /** The claim concerns the staged table: the key is in the active one, or belongs to a staged member. */
  ghost predicate ConcernsStaged(s: Node, key: PeerKey) {
    Listed(s.peers, key) || (s.members.Some? && key.x in s.members.value)
  }

  lemma NoneIsFirst(peers: seq<Peer>, key: PeerKey)
    requires !Listed(peers, key)
    ensures forall i | 0 <= i < |peers| :: !FirstAt(peers, key, i)
  {
    forall i | 0 <= i < |peers| ensures !FirstAt(peers, key, i) {
      assert peers[i] in peers;
    }
  }

  lemma JoinedLast(staged: seq<Peer>, joined: Peer, overrides: map<PeerKey, Address>)
    ensures ApplyOverrides(staged + [joined], overrides)
         == ApplyOverrides(staged, overrides) + [Override(joined, overrides)]
  {
  }

  lemma ClaimedStaged(s: Node, key: PeerKey, seen: Option<Address>)
    requires ClaimStep(s, key, seen).1.Ok?
    ensures ClaimStep(s, key, seen).0.staged
         == ApplyOverrides(if Joins(s, key) then s.staged + [Peer(key, seen, Active, false)]
                           else if ConcernsStaged(s, key) then MarkActive(s.staged, key, seen) else s.staged,
                           s.overrides)
  {
    ListedIsKnown(s.peers, key);
    ListedIsKnown(s.staged, key);
    StatusIsLookup(s.peers, key);
    StatusIsLookup(s.staged, key);
  }

  /** The staged table before and after: the marked entries, and perhaps one more. */
  ghost predicate StagedMarked(before: seq<Peer>, after: seq<Peer>, claimed: Option<PeerKey>, joined: Option<Peer>,
                               seen: Option<Address>, overrides: map<PeerKey, Address>) {
    && |after| >= |before| && MarkedFor(before, after[..|before|], claimed, seen, overrides)
    && after[|before|..] == if joined.Some? then [joined.value] else []
  }

  lemma ClaimMarksStaged(s: Node, key: PeerKey, seen: Option<Address>)
    requires ClaimStep(s, key, seen).1.Ok?
    ensures StagedMarked(s.staged, ClaimStep(s, key, seen).0.staged,
                         if ConcernsStaged(s, key) then Some(key) else None,
                         if Joins(s, key)
                         then Some(Peer(key, AddressAfter(key, None, seen, s.overrides), Active, false)) else None,
                         seen, s.overrides)
  {
    var after := ClaimStep(s, key, seen).0.staged;
    ClaimedStaged(s, key, seen);
    if Joins(s, key) {
      JoinedLast(s.staged, Peer(key, seen, Active, false), s.overrides);
      NoneIsFirst(s.staged, key);
      OverridesMark(s.staged, s.overrides);
      assert after[..|s.staged|] == ApplyOverrides(s.staged, s.overrides);
    } else {
      MarkActiveMarks(s.staged, key, seen, s.overrides);
      OverridesMark(s.staged, s.overrides);
      assert after[..|after|] == after;
    }
  }

  /** A successful claim connects the key and marks its first entries, and nothing else but operators' addresses. */
  lemma ClaimMarksTheKey(s: Node, key: PeerKey, seen: Option<Address>)
    requires ClaimStep(s, key, seen).1.Ok?
    ensures var after := ClaimStep(s, key, seen).0;
            && after == s.(peers := after.peers, staged := after.staged, connections := s.connections + {key})
            && MarkedFor(s.peers, after.peers, Some(key), seen, s.overrides)
            && StagedMarked(s.staged, after.staged, if ConcernsStaged(s, key) then Some(key) else None,
                            if Joins(s, key)
                            then Some(Peer(key, AddressAfter(key, None, seen, s.overrides), Active, false)) else None,
                            seen, s.overrides)
  {
    ClaimedPeers(s, key, seen);
    MarkActiveMarks(s.peers, key, seen, s.overrides);
    ClaimMarksStaged(s, key, seen);
  }

  // ----- Connections end -----

  /** Statuses after a connection of the key has ended. */
  ghost predicate EndedFor(before: map<PeerKey, PeerStatus>, after: map<PeerKey, PeerStatus>, key: PeerKey) {
    && after.Keys == before.Keys
    && forall k | k in before :: after[k] == if k == key && before[k] == Active then Inactive else before[k]
  }

  /**
   * A release ends the key's connection and no other, shows it Inactive where it was Active, and lets it connect again
   * unless it is banned.
   */
  lemma ReleaseFreesTheKey(s: Node, key: PeerKey)
    ensures var after := ReleaseStep(s, key);
            && (forall k :: k in after.connections <==> k in s.connections && k != key)
            && EndedFor(Statuses(s.peers), Statuses(after.peers), key)
            && EndedFor(Statuses(s.staged), Statuses(after.staged), key)
            && (Listed(s.peers, key) && !FirstHas(s.peers, key, {Banned}) ==> Admits(after, key))
  {
    var after := ReleaseStep(s, key);
    MarkInactiveEffect(s.peers, key);
    MarkInactiveEffect(s.staged, key);
    ListedIsKnown(s.peers, key);
    ListedIsKnown(after.peers, key);
    StatusIsLookup(s.peers, key);
    StatusIsLookup(after.peers, key);
    FirstStatus(s.peers, key, {Banned});
    FirstStatus(after.peers, key, {Controlled, Inactive});
  }

  // ----- Staging and activation, refusals included -----

  /** A request to stage is answered by the target already staged, if any, and otherwise by the known keys. */
  lemma StagingAnswers(s: Node, target: set<nat>)
    ensures var (after, r) := BeginStep(s, target);
            && (r == Err(MigrationAlreadyStaged) <==> s.members.Some? && s.members.value != target)
            && (s.members == Some(target) ==>
                  (r.Ok? <==> DistinctIdentities(s.staged) && forall p | p in s.staged :: p.key.x in target))
            && (s.members.None? && r.Ok? ==>
                  && after == s.(members := Some(target), staged := after.staged)
                  && UniqueKeys(after.staged) && SortedBy(after.staged, KeyBefore)
                  && forall key :: Lookup(after.staged, key) == if key.x !in target then None
                      else if Lookup(s.peers, key).Some? then Lookup(s.peers, key) else Lookup(s.staged, key))
            && (s.members.Some? || r.Err? ==> after == s)
            && (r.Err? ==> r.error in {MigrationAlreadyStaged, InvalidMigrationPeerTable})
  {
    if s.members.Some? {
      IdentitiesAreValid(s);
    } else {
      CandidatesAreExact(s.peers, s.staged, target);
      CandidatesAreSorted(s.peers, s.staged, target);
    }
  }

  lemma IdentitiesAreValid(s: Node)
    requires s.members.Some?
    ensures s.IdentitiesValid() <==>
              DistinctIdentities(s.staged) && forall p | p in s.staged :: p.key.x in s.members.value
  {
    CountTellsDistinct(s.staged);
    if s.IdentitiesValid() {
      forall p | p in s.staged ensures p.key.x in s.members.value {
        assert p.key.x in s.Identities();
      }
    }
  }

  lemma CandidatesAreSorted(peers: seq<Peer>, staged: seq<Peer>, members: set<nat>)
    ensures SortedBy(Candidates(peers, staged, members), KeyBefore)
  {
    KeyOrder();
    SortByCorrect(StagedFrom(peers + staged, members), KeyBefore);
    DedupKeepsSorted(SortBy(StagedFrom(peers + staged, members), KeyBefore));
  }

  lemma {:induction false} DedupKeepsSorted(peers: seq<Peer>)
    requires SortedBy(peers, KeyBefore)
    ensures SortedBy(DedupByKey(peers), KeyBefore)
    ensures forall p | p in DedupByKey(peers) :: p in peers
    decreases |peers|
  {
    if |peers| > 1 {
      if peers[0].key == peers[1].key {
        DedupKeepsSorted([peers[0]] + peers[2..]);
      } else {
        DedupKeepsSorted(peers[1..]);
        forall p | p in peers[1..] ensures KeyBefore(peers[0], p) {
          var i :| 0 <= i < |peers[1..]| && peers[1..][i] == p;
          assert KeyBefore(peers[0], peers[i + 1]);
        }
      }
    }
  }

  /** Why an activation is refused, in the order of its checks; a refusal changes nothing. */
  lemma ActivationAnswers(s: Node)
    ensures var (after, r) := ActivateStep(s);
            var valid := s.members.Some? && DistinctIdentities(s.staged)
                && forall p | p in s.staged :: p.key.x in s.members.value;
            && (r == Err(MigrationNotStaged) <==> s.members.None?)
            && (r == Err(InvalidMigrationPeerTable) <==> s.members.Some? && !valid)
            && (r == Err(MigrationNotReady) <==> valid && r.Err?)
            && (r.Err? ==> after == s)
            && (r.Ok? ==>
                  r.value == s.staged == after.peers && after.local == s.local && after.overrides == s.overrides)
  {
    if s.members.Some? {
      IdentitiesAreValid(s);
      ReadyIsConnected(s);
      CompleteIsAddressed(s);
      MatchesIsOnce(s);
    }
  }

  /** After a cancellation the same target is staged with the entries it had, save those the active table now has. */
  lemma RestagingKeepsEntries(s: Node, key: PeerKey)
    requires s.members.Some? && BeginStep(CancelStep(s), s.members.value).1.Ok?
    requires Listed(s.staged, key) && key.x in s.members.value
    ensures var again := BeginStep(CancelStep(s), s.members.value).0;
            && CancelStep(s).members.None? && CancelStep(s).peers == s.peers
            && CancelStep(s).connections == s.connections
            && Lookup(again.staged, key) == if Listed(s.peers, key) then Lookup(s.peers, key) else Lookup(s.staged, key)
  {
    StagingAnswers(CancelStep(s), s.members.value);
    LookupIsFirst(s.peers, key);
    ListedIsKnown(s.peers, key);
    StatusIsLookup(s.peers, key);
  }

  // ----- Discovery marks -----

  /** The same keys and discovery marks, position by position. */
  ghost predicate SameMarks(before: seq<Peer>, after: seq<Peer>) {
    && |after| == |before|
    && forall i | 0 <= i < |before| :: after[i].key == before[i].key && after[i].discovery == before[i].discovery
  }

  lemma MarkInactiveKeepsMarks(peers: seq<Peer>, key: PeerKey)
    ensures SameMarks(peers, MarkInactive(peers, key))
  {
    LookupIsFirst(peers, key);
    if Lookup(peers, key).Some? {
      var i :| FirstAt(peers, key, i) && Lookup(peers, key) == Some(peers[i]);
      ReplaceAt(peers, key, Lookup(peers, key).value.(status := Inactive));
      forall j | 0 <= j < |peers| && FirstAt(peers, key, j) ensures j == i {
        OneIsFirst(peers, key, i, j);
      }
    }
  }

  lemma StepKeepsMarks(s: Node, event: Event)
    requires !event.Activate?
    ensures SameMarks(s.peers, Step(s, event).peers)
  {
    match event
    case Begin(_) =>
    case Cancel =>
    case Claim(key, seen) =>
      if ClaimStep(s, key, seen).1.Ok? {
        ClaimMarksTheKey(s, key, seen);
      }
    case Release(key) => MarkInactiveKeepsMarks(s.peers, key);
    case SetAddress(key, address) => OverridesMark(s.peers, s.overrides[key := address]);
  }

  /** Nobody but the local node carries the discovery mark. */
  ghost predicate Unmarked(peers: seq<Peer>, local: PeerKey) {
    forall p | p in peers && p.discovery :: p.key == local
  }

  lemma SameMarksUnmarked(before: seq<Peer>, after: seq<Peer>, local: PeerKey)
    requires SameMarks(before, after)
    ensures Unmarked(before, local) <==> Unmarked(after, local)
  {
    if Unmarked(before, local) {
      forall p | p in after && p.discovery ensures p.key == local {
        var i :| 0 <= i < |after| && after[i] == p;
        assert before[i] in before;
      }
    }
    if Unmarked(after, local) {
      forall p | p in before && p.discovery ensures p.key == local {
        var i :| 0 <= i < |before| && before[i] == p;
        assert after[i] in after;
      }
    }
  }

  lemma {:induction false} StagedFromIsPart(peers: seq<Peer>, members: set<nat>)
    ensures forall p | p in StagedFrom(peers, members) :: p in peers
  {
    if peers != [] {
      StagedFromIsPart(peers[1..], members);
    }
  }

  /** Staging invents no entries. */
  lemma CandidatesArePart(peers: seq<Peer>, staged: seq<Peer>, members: set<nat>)
    ensures forall p | p in Candidates(peers, staged, members) :: p in peers || p in staged
  {
    var chosen := StagedFrom(peers + staged, members);
    KeyOrder();
    StagedFromIsPart(peers + staged, members);
    SortByCorrect(chosen, KeyBefore);
    DedupKeepsSorted(SortBy(chosen, KeyBefore));
  }

  lemma JoinedUnmarked(before: seq<Peer>, after: seq<Peer>, claimed: Option<PeerKey>, joined: Option<Peer>,
                       seen: Option<Address>, overrides: map<PeerKey, Address>, local: PeerKey)
    requires StagedMarked(before, after, claimed, joined, seen, overrides) && Unmarked(before, local)
    requires joined.Some? ==> !joined.value.discovery
    ensures Unmarked(after, local)
  {
    SameMarksUnmarked(before, after[..|before|], local);
    assert after == after[..|before|] + after[|before|..];
  }

  lemma StepKeepsUnmarked(s: Node, event: Event)
    requires Unmarked(s.peers, s.local) && Unmarked(s.staged, s.local)
    ensures Unmarked(Step(s, event).peers, s.local) && Unmarked(Step(s, event).staged, s.local)
  {
    if !event.Activate? {
      StepKeepsMarks(s, event);
      SameMarksUnmarked(s.peers, Step(s, event).peers, s.local);
    }
    match event
    case Begin(target) => CandidatesArePart(s.peers, s.staged, target);
    case Cancel =>
    case Activate =>
    case Claim(key, seen) =>
      if ClaimStep(s, key, seen).1.Ok? {
        ClaimMarksStaged(s, key, seen);
        JoinedUnmarked(s.staged, Step(s, event).staged, if ConcernsStaged(s, key) then Some(key) else None,
            if Joins(s, key) then Some(Peer(key, AddressAfter(key, None, seen, s.overrides), Active, false)) else None,
            seen, s.overrides, s.local);
      }
    case Release(key) =>
      MarkInactiveKeepsMarks(s.staged, key);
      SameMarksUnmarked(s.staged, Step(s, event).staged, s.local);
    case SetAddress(key, address) =>
      OverridesMark(s.staged, s.overrides[key := address]);
      SameMarksUnmarked(s.staged, Step(s, event).staged, s.local);
  }

  lemma UnmarkedDoesNotDiscover(s: Node)
    requires !s.discoveryTableReceived
    ensures Discovers(s) <==> !Unmarked(s.peers, s.local)
  {
  }

  /** What no step touches: who the node is, and whether it has received the table; addresses only by an operator. */
  ghost predicate SameSelf(before: Node, after: Node) {
    after.local == before.local && after.discoveryTableReceived == before.discoveryTableReceived
  }

  lemma ClaimKeepsSelf(s: Node, key: PeerKey, seen: Option<Address>)
    ensures SameSelf(s, ClaimStep(s, key, seen).0)
    ensures ClaimStep(s, key, seen).0.overrides == s.overrides && ClaimStep(s, key, seen).0.members == s.members
    ensures ClaimStep(s, key, seen).0.connections
         == if ClaimStep(s, key, seen).1.Ok? then s.connections + {key} else s.connections
  {
  }

  lemma BeginKeepsSelf(s: Node, target: set<nat>)
    ensures var after := BeginStep(s, target).0;
            && SameSelf(s, after) && after.overrides == s.overrides && after.connections == s.connections
            && after.peers == s.peers
            && (after.members == s.members || after.members == Some(target))
  {
  }

  lemma ActivateKeepsSelf(s: Node)
    ensures var after := ActivateStep(s).0;
            && SameSelf(s, after) && after.overrides == s.overrides
            && (after == s
                || (after.peers == s.staged && after.staged == [] && after.members.None?
                    && after.connections == s.connections * Statuses(s.staged).Keys))
  {
  }

  lemma StepKeepsSelf(s: Node, event: Event)
    ensures SameSelf(s, Step(s, event))
    ensures Step(s, event).overrides
         == if event.SetAddress? then s.overrides[event.named := event.address] else s.overrides
  {
    match event
    case Begin(target) => BeginKeepsSelf(s, target);
    case Cancel =>
    case Activate => ActivateKeepsSelf(s);
    case Claim(key, seen) => ClaimKeepsSelf(s, key, seen);
    case Release(key) =>
    case SetAddress(key, address) =>
  }

  // ----- No strangers -----

  /** The run has asked to stage a set with this identity. */
  ghost predicate Wanted(events: seq<Event>, x: nat) {
    exists target :: Begin(target) in events && x in target
  }

  /** Whoever is connected has an entry in the active table or belongs to a set that was asked for. */
  ghost predicate NoStrangers(s: Node, events: seq<Event>) {
    && Unmarked(s.peers, s.local) && Unmarked(s.staged, s.local)
    && (s.members.Some? ==> Begin(s.members.value) in events)
    && forall key | key in s.connections :: Listed(s.peers, key) || Wanted(events, key.x)
  }

  lemma SameKeysListed(a: seq<Peer>, b: seq<Peer>, key: PeerKey)
    requires KeysOf(a) == KeysOf(b)
    ensures Listed(a, key) <==> Listed(b, key)
  {
    ListedIsKnown(a, key);
    ListedIsKnown(b, key);
    KeysOfStatuses(a, key);
    KeysOfStatuses(b, key);
  }

  lemma WantedGrows(events: seq<Event>, event: Event, x: nat)
    ensures Wanted(events, x) ==> Wanted(events + [event], x)
  {
    if target :| Begin(target) in events && x in target {
      assert Begin(target) in events + [event];
    }
  }

  lemma StepAdmitsNoStrangers(s: Node, events: seq<Event>, event: Event)
    requires NoStrangers(s, events)
    ensures NoStrangers(Step(s, event), events + [event])
  {
    var after := Step(s, event);
    StepKeepsUnmarked(s, event);
    StepKeepsSelf(s, event);
    assert event in events + [event];
    assert forall e | e in events :: e in events + [event];
    assert event.Claim? && ClaimStep(s, event.key, event.seen).1.Ok? ==>
        Listed(s.peers, event.key) || Wanted(events, event.key.x) by {
      if event.Claim? {
        ClaimIsExact(s, event.key, event.seen);
        assert !Discovers(s);
      }
    }
    forall key | key in after.connections ensures Listed(after.peers, key) || Wanted(events + [event], key.x) {
      WantedGrows(events, event, key.x);
      if event.Activate? {
        ListedIsKnown(after.peers, key);
      } else {
        OnlyActivationChangesTheTable(s, event);
        SameKeysListed(s.peers, after.peers, key);
        assert key in s.connections || (event.Claim? && ClaimStep(s, event.key, event.seen).1.Ok? && key == event.key);
      }
    }
  }

  lemma {:induction false} RunAdmitsNoStrangers(start: Node, events: seq<Event>)
    requires NoStrangers(start, [])
    ensures NoStrangers(Run(start, events), events)
  {
    if events != [] {
      var before := events[..|events| - 1];
      RunAdmitsNoStrangers(start, before);
      StepAdmitsNoStrangers(Run(start, before), before, events[|events| - 1]);
      assert before + [events[|events| - 1]] == events;
    }
  }

  /**
   * From any start but one that waits for a coordinator, and in whatever order the sections run, every connected key
   * has an entry in the active table or belongs to a set the node was asked to stage.
   */
  lemma NoStrangerIsConnected(start: Node, events: seq<Event>)
    requires IsFresh(start) && !Discovers(start)
    ensures forall key | key in Run(start, events).connections ::
              Listed(Run(start, events).peers, key) || Wanted(events, key.x)
  {
    FreshIsSafe(start);
    RunAdmitsNoStrangers(start, events);
  }

  /** Which starts those are: a restart and a coordinator never wait, a node that only knows its coordinator does. */
  lemma OnlyDiscoverableWaits(local: PeerKey, peers: seq<Peer>, coordinator: Peer)
    ensures !Discovers(StartFromPeers(local, peers)) && !Discovers(StartDiscovery(local, peers))
    ensures StartDiscoverable(local, coordinator).Ok? ==> Discovers(StartDiscoverable(local, coordinator).value)
  {
    RestartedEntries(local, peers, None);
    RestartedEntries(local, peers, Some(local));
    if StartDiscoverable(local, coordinator).Ok? {
      var s := StartDiscoverable(local, coordinator).value;
      assert s.peers[1].key != local && s.peers[1].discovery;
    }
  }

  /** In particular, a node that restarts from a table and stages nothing connects nobody outside its table. */
  lemma RestartConnectsItsTableOnly(local: PeerKey, peers: seq<Peer>, events: seq<Event>)
    requires forall event | event in events :: !event.Begin?
    ensures var s := Run(StartFromPeers(local, peers), events);
            s.connections <= ToSet(KeysOf(s.peers))
  {
    var start := StartFromPeers(local, peers);
    var s := Run(start, events);
    OnlyDiscoverableWaits(local, peers, Peer(local, None, Inactive, false));
    assert start == StartFromPeers(start.local, peers);
    NoStrangerIsConnected(start, events);
    forall key | key in s.connections ensures key in KeysOf(s.peers) {
      ListedIsKnown(s.peers, key);
      KeysOfStatuses(s.peers, key);
    }
  }

  // ----- A connected peer is shown as such -----

  /** Where a table lists a connected key, its first entry is Active. */
  ghost predicate ShowsConnected(statuses: map<PeerKey, PeerStatus>, connections: set<PeerKey>) {
    forall key | key in connections && key in statuses :: statuses[key] == Active
  }

  ghost predicate ConnectedAreActive(s: Node) {
    ShowsConnected(Statuses(s.peers), s.connections) && ShowsConnected(Statuses(s.staged), s.connections)
  }

  lemma BeginShowsConnected(s: Node, target: set<nat>)
    requires ConnectedAreActive(s)
    ensures ConnectedAreActive(BeginStep(s, target).0)
  {
    var staged := BeginStep(s, target).0.staged;
    if s.members.None? && BeginStep(s, target).1.Ok? {
      CandidatesAreExact(s.peers, s.staged, target);
      forall key | key in s.connections && key in Statuses(staged) ensures Statuses(staged)[key] == Active {
        StatusIsLookup(staged, key);
        StatusIsLookup(s.peers, key);
        StatusIsLookup(s.staged, key);
      }
    }
  }

  lemma ClaimShowsConnected(s: Node, key: PeerKey, seen: Option<Address>)
    requires ConnectedAreActive(s) && !Discovers(s)
    ensures ConnectedAreActive(ClaimStep(s, key, seen).0)
  {
    if ClaimStep(s, key, seen).1.Ok? {
      ClaimEffect(s, key, seen);
      ClaimIsExact(s, key, seen);
      ListedIsKnown(s.peers, key);
    }
  }

  lemma ReleaseShowsConnected(s: Node, key: PeerKey)
    requires ConnectedAreActive(s)
    ensures ConnectedAreActive(ReleaseStep(s, key))
  {
    ReleaseFreesTheKey(s, key);
  }

  lemma StepShowsConnected(s: Node, event: Event)
    requires ConnectedAreActive(s) && !Discovers(s)
    ensures ConnectedAreActive(Step(s, event))
  {
    match event
    case Begin(target) => BeginShowsConnected(s, target);
    case Cancel =>
    case Activate =>
    case Claim(key, seen) => ClaimShowsConnected(s, key, seen);
    case Release(key) => ReleaseShowsConnected(s, key);
    case SetAddress(key, address) =>
      OverridesEffect(s.peers, s.overrides[key := address]);
      OverridesEffect(s.staged, s.overrides[key := address]);
  }

  lemma {:induction false} RunShowsConnected(start: Node, events: seq<Event>)
    requires ConnectedAreActive(start) && NoStrangers(start, [])
    requires !start.discoveryTableReceived
    ensures ConnectedAreActive(Run(start, events)) && !Run(start, events).discoveryTableReceived
  {
    if events != [] {
      var before, last := events[..|events| - 1], events[|events| - 1];
      RunShowsConnected(start, before);
      RunAdmitsNoStrangers(start, before);
      UnmarkedDoesNotDiscover(Run(start, before));
      StepShowsConnected(Run(start, before), last);
      StepKeepsSelf(Run(start, before), last);
    }
  }

  /** An identity that no known key has. */
  lemma SomeUnknownIdentity(peers: seq<Peer>) returns (x: nat)
    ensures forall p | p in peers :: p.key.x != x
  {
    x := 0;
    for i := 0 to |peers|
      invariant forall j | 0 <= j < i :: peers[j].key.x < x
    {
      x := if peers[i].key.x < x then x else peers[i].key.x + 1;
    }
  }

  /** The key connects as a staged member, leaves, and comes back once the staging has been cancelled. */
  function BackAfterCancel(key: PeerKey): seq<Event> {
    [Begin({key.x}), Claim(key, None), Release(key), Cancel, Claim(key, None)]
  }

  lemma RunUpTo(s: Node, events: seq<Event>, n: nat)
    requires n < |events|
    ensures Run(s, events[..n + 1]) == Step(Run(s, events[..n]), events[n])
  {
    assert events[..n + 1][..n] == events[..n];
  }

  lemma UnrollFive(s: Node, events: seq<Event>)
    requires |events| == 5
    ensures Run(s, events) == Step(Step(Step(Step(Step(s, events[0]), events[1]), events[2]), events[3]), events[4])
  {
    RunUpTo(s, events, 0);
    RunUpTo(s, events, 1);
    RunUpTo(s, events, 2);
    RunUpTo(s, events, 3);
    RunUpTo(s, events, 4);
    assert events[..5] == events && Run(s, events[..0]) == s;
  }

  /** The staging of an identity that no key has: nobody is staged yet. */
  lemma UnknownIsStaged(s: Node, key: PeerKey)
    requires s.members.None? && s.staged == [] && forall p | p in s.peers :: p.key.x != key.x
    ensures var after := Step(s, Begin({key.x}));
            after == s.(members := Some({key.x}), staged := after.staged) && Statuses(after.staged) == map[]
  {
    StagingIsExact(s, {key.x});
    forall k | Known(s, k) ensures k.x != key.x {
      ListedIsKnown(s.peers, k);
    }
    var staged := Step(s, Begin({key.x})).staged;
    forall k ensures k !in Statuses(staged) {
      CandidateKeys(s, {key.x}, k);
      KeysOfStatuses(staged, k);
    }
  }

  lemma MemberIsAdmitted(s: Node, key: PeerKey)
    requires s.members == Some({key.x}) && s.connections == {} && !Listed(s.peers, key)
    ensures ClaimStep(s, key, None).1.Ok?
  {
    ClaimIsExact(s, key, None);
    assert Unlisted(s) == {};
  }

  lemma WaiterAdmits(s: Node, key: PeerKey)
    requires Discovers(s) && s.connections == {} && !Listed(s.peers, key)
    ensures ClaimStep(s, key, None).1.Ok?
  {
    ClaimIsExact(s, key, None);
    assert Unlisted(s) == {};
  }

  lemma StillDiscovers(s: Node, event: Event)
    requires Discovers(s) && !event.Activate?
    ensures Discovers(Step(s, event))
  {
    var p :| p in s.peers && p.key != s.local && p.discovery;
    var i :| 0 <= i < |s.peers| && s.peers[i] == p;
    StepKeepsMarks(s, event);
    StepKeepsSelf(s, event);
    var q := Step(s, event).peers[i];
    assert q in Step(s, event).peers && q.key != s.local && q.discovery;
  }

  lemma MemberConnects(s: Node, key: PeerKey)
    requires s.members == Some({key.x}) && s.connections == {} && Statuses(s.staged) == map[] && !Listed(s.peers, key)
    ensures Step(s, Claim(key, None)).connections == {key} && !Listed(Step(s, Claim(key, None)).peers, key)
    ensures Statuses(Step(s, Claim(key, None)).staged) == map[key := Active]
  {
    MemberIsAdmitted(s, key);
    ClaimEffect(s, key, None);
    ClaimedPeers(s, key, None);
    ListedIsKnown(s.peers, key);
    SameKeysListed(s.peers, Step(s, Claim(key, None)).peers, key);
  }

  lemma MemberLeaves(s: Node, key: PeerKey)
    requires s.connections == {key} && Statuses(s.staged) == map[key := Active] && !Listed(s.peers, key)
    ensures Step(s, Release(key)).connections == {} && !Listed(Step(s, Release(key)).peers, key)
    ensures Statuses(Step(s, Release(key)).staged) == map[key := Inactive]
  {
    ReleaseFreesTheKey(s, key);
    OnlyActivationChangesTheTable(s, Release(key));
    SameKeysListed(s.peers, Step(s, Release(key)).peers, key);
  }

  /** The member connects and leaves again, which the staged table remembers. */
  lemma MemberComesAndGoes(s: Node, key: PeerKey)
    requires Discovers(s) && s.members == Some({key.x}) && s.connections == {} && Statuses(s.staged) == map[]
    requires !Listed(s.peers, key)
    ensures var after := Step(Step(s, Claim(key, None)), Release(key));
            && Discovers(after) && after.connections == {} && !Listed(after.peers, key)
            && Statuses(after.staged) == map[key := Inactive]
  {
    StillDiscovers(s, Claim(key, None));
    StillDiscovers(Step(s, Claim(key, None)), Release(key));
    MemberConnects(s, key);
    MemberLeaves(Step(s, Claim(key, None)), key);
  }

  /** Back without a staging, it is connected while the staged table still shows it Inactive. */
  lemma BackButInactive(s: Node, key: PeerKey)
    requires Discovers(s) && s.connections == {} && s.members.None? && !Listed(s.peers, key)
    requires Statuses(s.staged) == map[key := Inactive]
    ensures !ConnectedAreActive(Step(s, Claim(key, None)))
  {
    WaiterAdmits(s, key);
    ClaimEffect(s, key, None);
    ClaimMarksTheKey(s, key, None);
    ListedIsKnown(s.peers, key);
  }

  lemma WaiterHidesAConnection(start: Node, key: PeerKey)
    requires Discovers(start) && start.members.None? && start.staged == [] && start.connections == {}
    requires forall p | p in start.peers :: p.key.x != key.x
    ensures !ConnectedAreActive(Run(start, BackAfterCancel(key)))
  {
    UnrollFive(start, BackAfterCancel(key));
    UnknownIsStaged(start, key);
    StillDiscovers(start, Begin({key.x}));
    MemberComesAndGoes(Step(start, Begin({key.x})), key);
    var left := Step(Step(Step(start, Begin({key.x})), Claim(key, None)), Release(key));
    StillDiscovers(left, Cancel);
    BackButInactive(Step(left, Cancel), key);
  }

  /**
   * In every run both tables show a connected peer as Active, exactly when the node does not start waiting for a
   * coordinator: one that waits lets a former staged member back in without telling the staged table.
   */
  lemma ConnectedAreShownExactly(start: Node)
    requires IsFresh(start)
    ensures (forall events :: ConnectedAreActive(Run(start, events))) <==> !Discovers(start)
  {
    FreshIsSafe(start);
    if Discovers(start) {
      var x := SomeUnknownIdentity(start.peers);
      WaiterHidesAConnection(start, PeerKey(false, x));
    } else {
      forall events ensures ConnectedAreActive(Run(start, events)) {
        RunShowsConnected(start, events);
      }
    }
  }

  // ----- Addresses -----

  /** The last address an operator gave for the key in a run. */
  function Named(events: seq<Event>, key: PeerKey): Option<Address> {
    if events == [] then None
    else
      var last := events[|events| - 1];
      if last.SetAddress? && last.named == key then Some(last.address) else Named(events[..|events| - 1], key)
  }

  ghost predicate CarriesAddresses(peers: seq<Peer>, overrides: map<PeerKey, Address>) {
    forall p | p in peers && p.key in overrides :: p.address == Some(overrides[p.key])
  }

  lemma MarkedCarry(before: seq<Peer>, after: seq<Peer>, claimed: Option<PeerKey>, seen: Option<Address>,
                    overrides: map<PeerKey, Address>)
    requires MarkedFor(before, after, claimed, seen, overrides)
    ensures CarriesAddresses(after, overrides)
  {
    forall p | p in after && p.key in overrides ensures p.address == Some(overrides[p.key]) {
      var i :| 0 <= i < |after| && after[i] == p;
    }
  }

  lemma MarkInactiveCarries(peers: seq<Peer>, key: PeerKey, overrides: map<PeerKey, Address>)
    requires CarriesAddresses(peers, overrides)
    ensures CarriesAddresses(MarkInactive(peers, key), overrides)
  {
    StatusIsLookup(peers, key);
    if Lookup(peers, key).Some? {
      var entry := Lookup(peers, key).value.(status := Inactive);
      ReplaceAt(peers, key, entry);
      forall p | p in Replace(peers, key, entry) ensures p in peers || p == entry {
        var i :| 0 <= i < |peers| && Replace(peers, key, entry)[i] == p;
      }
    }
  }

  lemma StepCarries(s: Node, event: Event)
    requires CarriesAddresses(s.peers, s.overrides) && CarriesAddresses(s.staged, s.overrides)
    ensures var after := Step(s, event);
            CarriesAddresses(after.peers, after.overrides) && CarriesAddresses(after.staged, after.overrides)
  {
    match event
    case Begin(target) => CandidatesArePart(s.peers, s.staged, target);
    case Cancel =>
    case Activate =>
    case Claim(key, seen) =>
      if ClaimStep(s, key, seen).1.Ok? {
        ClaimCarries(s, key, seen);
      }
    case Release(key) =>
      MarkInactiveCarries(s.peers, key, s.overrides);
      MarkInactiveCarries(s.staged, key, s.overrides);
    case SetAddress(key, address) =>
      OverridesMark(s.peers, s.overrides[key := address]);
      MarkedCarry(s.peers, Step(s, event).peers, None, None, s.overrides[key := address]);
      OverridesMark(s.staged, s.overrides[key := address]);
      MarkedCarry(s.staged, Step(s, event).staged, None, None, s.overrides[key := address]);
  }

  lemma ClaimCarries(s: Node, key: PeerKey, seen: Option<Address>)
    requires ClaimStep(s, key, seen).1.Ok?
    ensures var after := ClaimStep(s, key, seen).0;
            && after.overrides == s.overrides
            && CarriesAddresses(after.peers, s.overrides) && CarriesAddresses(after.staged, s.overrides)
  {
    var after := ClaimStep(s, key, seen).0;
    ClaimMarksTheKey(s, key, seen);
    MarkedCarry(s.peers, after.peers, Some(key), seen, s.overrides);
    MarkedCarry(s.staged, after.staged[..|s.staged|], if ConcernsStaged(s, key) then Some(key) else None, seen,
        s.overrides);
    assert after.staged == after.staged[..|s.staged|] + after.staged[|s.staged|..];
  }

  ghost predicate NamesFollow(s: Node, events: seq<Event>) {
    forall key ::
      (key in s.overrides <==> Named(events, key).Some?)
      && (key in s.overrides ==> Named(events, key) == Some(s.overrides[key]))
  }

  lemma {:induction false} RunCarries(start: Node, events: seq<Event>)
    requires start.overrides == map[]
    ensures var s := Run(start, events);
            && NamesFollow(s, events)
            && CarriesAddresses(s.peers, s.overrides) && CarriesAddresses(s.staged, s.overrides)
  {
    if events != [] {
      var before, last := events[..|events| - 1], events[|events| - 1];
      RunCarries(start, before);
      StepCarries(Run(start, before), last);
      StepKeepsSelf(Run(start, before), last);
    }
  }

  /** In every run the last address an operator gave for a key is the one in every entry of it, in both tables. */
  lemma OperatorsHaveTheLastWord(start: Node, events: seq<Event>, p: Peer)
    requires IsFresh(start) && Named(events, p.key).Some?
    requires p in Run(start, events).peers || p in Run(start, events).staged
    ensures p.address == Named(events, p.key)
  {
    RunCarries(start, events);
  }
}
