/** storm/src/handle.rs, network.rs and state.rs: the peer table, its connections, and staged changes of membership. */
module Membership {
  import opened Prelude
  import opened Sorting

  const MAX_PROVISIONAL_CONNECTIONS: nat := 16

  /** A compressed public key: the parity of y and the x-only identity. */
  datatype PeerKey = PeerKey(odd: bool, x: nat)

  /** A socket address, or a host name to be resolved. */
  datatype Address = Socket(endpoint: nat) | HostName(host: nat)

  datatype PeerStatus = Controlled | Active | Inactive | Banned

  datatype Peer = Peer(key: PeerKey, address: Option<Address>, status: PeerStatus, discovery: bool) {
    /** `update_observed_address`: a host name is never replaced by an observed socket address. */
    function Observed(seen: Option<Address>): Peer {
      if seen.Some? && (address.None? || address.value.Socket?) then this.(address := seen) else this
    }
  }

  datatype Error =
    | MigrationAlreadyStaged
    | InvalidMigrationPeerTable
    | MigrationNotStaged
    | MigrationNotReady
    | PeerAlreadyConnected
    | UnauthorizedConnection
    | ProvisionalConnectionLimit
    | InvalidPeerAddress
    | DiscoveryPeerIsLocal
    | DiscoveryPeerAddressMissing

  // ----- Peer tables -----

  function KeysOf(peers: seq<Peer>): seq<PeerKey> {
    seq(|peers|, i requires 0 <= i < |peers| => peers[i].key)
  }

  predicate UniqueKeys(peers: seq<Peer>) {
    NoDuplicates(KeysOf(peers))
  }

  /** The first entry with the key. */
  function Lookup(peers: seq<Peer>, key: PeerKey): Option<Peer> {
    if peers == [] then None
    else if peers[0].key == key then Some(peers[0])
    else Lookup(peers[1..], key)
  }

  /** The status of each known key. */
  function Statuses(peers: seq<Peer>): map<PeerKey, PeerStatus> {
    if peers == [] then map[] else Statuses(peers[1..])[peers[0].key := peers[0].status]
  }

  lemma {:induction false} StatusIsLookup(peers: seq<Peer>, key: PeerKey)
    ensures key in Statuses(peers) <==> Lookup(peers, key).Some?
    ensures Lookup(peers, key).Some? ==>
              && Lookup(peers, key).value in peers && Lookup(peers, key).value.key == key
              && Statuses(peers)[key] == Lookup(peers, key).value.status
  {
    if peers != [] {
      StatusIsLookup(peers[1..], key);
    }
  }

  /** With unique keys, the statuses are those of the entries. */
  lemma {:induction false} EntriesHaveStatuses(peers: seq<Peer>)
    ensures forall p | p in peers :: p.key in Statuses(peers)
    ensures forall key | key in Statuses(peers) ::
            exists p :: p in peers && p.key == key && p.status == Statuses(peers)[key]
    ensures UniqueKeys(peers) ==> forall p | p in peers :: Statuses(peers)[p.key] == p.status
  {
    if peers != [] {
      var rest := peers[1..];
      EntriesHaveStatuses(rest);
      assert peers == [peers[0]] + rest;
      if UniqueKeys(peers) {
        assert KeysOf(rest) == KeysOf(peers)[1..];
        forall p | p in rest ensures p.key != peers[0].key {
          var i :| 0 <= i < |rest| && rest[i] == p;
          assert KeysOf(peers)[i + 1] == p.key && KeysOf(peers)[0] == peers[0].key;
        }
      }
    }
  }

  /** Replaces the first entry with the key. */
  function Replace(peers: seq<Peer>, key: PeerKey, entry: Peer): seq<Peer> {
    if peers == [] then []
    else if peers[0].key == key then [entry] + peers[1..]
    else [peers[0]] + Replace(peers[1..], key, entry)
  }

  lemma {:induction false} ReplaceEffect(peers: seq<Peer>, key: PeerKey, entry: Peer)
    requires entry.key == key && key in Statuses(peers)
    ensures KeysOf(Replace(peers, key, entry)) == KeysOf(peers)
    ensures Statuses(Replace(peers, key, entry)) == Statuses(peers)[key := entry.status]
  {
    var rest := peers[1..];
    HeadEffect(peers[0], rest);
    assert peers == [peers[0]] + rest;
    if peers[0].key == key {
      HeadEffect(entry, rest);
    } else {
      ReplaceEffect(rest, key, entry);
      HeadEffect(peers[0], Replace(rest, key, entry));
    }
  }

  lemma HeadEffect(head: Peer, rest: seq<Peer>)
    ensures KeysOf([head] + rest) == [head.key] + KeysOf(rest)
    ensures Statuses([head] + rest) == Statuses(rest)[head.key := head.status]
  {
    assert ([head] + rest)[1..] == rest;
  }

  function MarkActive(peers: seq<Peer>, key: PeerKey, seen: Option<Address>): seq<Peer> {
    var entry := Lookup(peers, key);
    if entry.None? then peers else Replace(peers, key, entry.value.(status := Active).Observed(seen))
  }

  function MarkInactive(peers: seq<Peer>, key: PeerKey): seq<Peer> {
    var entry := Lookup(peers, key);
    if entry.Some? && entry.value.status.Active? then Replace(peers, key, entry.value.(status := Inactive)) else peers
  }

  function Ended(statuses: map<PeerKey, PeerStatus>, key: PeerKey): map<PeerKey, PeerStatus> {
    if key in statuses && statuses[key] == Active then statuses[key := Inactive] else statuses
  }

  function Override(peer: Peer, overrides: map<PeerKey, Address>): Peer {
    if peer.key in overrides then peer.(address := Some(overrides[peer.key])) else peer
  }

  function ApplyOverrides(peers: seq<Peer>, overrides: map<PeerKey, Address>): seq<Peer> {
    seq(|peers|, i requires 0 <= i < |peers| => Override(peers[i], overrides))
  }

  lemma MarkActiveEffect(peers: seq<Peer>, key: PeerKey, seen: Option<Address>)
    ensures KeysOf(MarkActive(peers, key, seen)) == KeysOf(peers)
    ensures Statuses(MarkActive(peers, key, seen)) == if key in Statuses(peers) then Statuses(peers)[key := Active]
            else Statuses(peers)
  {
    StatusIsLookup(peers, key);
    if Lookup(peers, key).Some? {
      ReplaceEffect(peers, key, Lookup(peers, key).value.(status := Active).Observed(seen));
    }
  }

  lemma MarkInactiveEffect(peers: seq<Peer>, key: PeerKey)
    ensures KeysOf(MarkInactive(peers, key)) == KeysOf(peers)
    ensures Statuses(MarkInactive(peers, key)) == Ended(Statuses(peers), key)
  {
    StatusIsLookup(peers, key);
    if Lookup(peers, key).Some? && Lookup(peers, key).value.status.Active? {
      ReplaceEffect(peers, key, Lookup(peers, key).value.(status := Inactive));
    }
  }

  lemma {:induction false} OverridesEffect(peers: seq<Peer>, overrides: map<PeerKey, Address>)
    ensures KeysOf(ApplyOverrides(peers, overrides)) == KeysOf(peers)
    ensures Statuses(ApplyOverrides(peers, overrides)) == Statuses(peers)
  {
    if peers != [] {
      OverridesEffect(peers[1..], overrides);
      assert ApplyOverrides(peers, overrides)[1..] == ApplyOverrides(peers[1..], overrides);
    }
  }

  lemma {:induction false} AppendEffect(peers: seq<Peer>, peer: Peer)
    requires peer.key !in Statuses(peers)
    ensures KeysOf(peers + [peer]) == KeysOf(peers) + [peer.key]
    ensures Statuses(peers + [peer]) == Statuses(peers)[peer.key := peer.status]
  {
    if peers == [] {
      assert [] + [peer] == [peer];
    } else {
      AppendEffect(peers[1..], peer);
      assert (peers + [peer])[1..] == peers[1..] + [peer];
    }
  }

  // ----- Tables with repeated keys -----

  /** Only the first entry of a key can be Active. */
  predicate Quiet(peers: seq<Peer>) {
    peers != [] ==> Quiet(peers[1..]) && forall p | p in peers[1..] && p.key == peers[0].key :: p.status != Active
  }

  lemma {:induction false} QuietEntries(peers: seq<Peer>)
    requires Quiet(peers)
    ensures forall p | p in peers && p.status == Active :: p.key in Statuses(peers) && Statuses(peers)[p.key] == Active
  {
    if peers != [] {
      QuietEntries(peers[1..]);
      assert peers == [peers[0]] + peers[1..];
    }
  }

  lemma {:induction false} InactiveIsQuiet(peers: seq<Peer>)
    requires forall p | p in peers :: p.status != Active
    ensures Quiet(peers)
  {
    if peers != [] {
      InactiveIsQuiet(peers[1..]);
    }
  }

  lemma {:induction false} UniqueIsQuiet(peers: seq<Peer>)
    requires UniqueKeys(peers)
    ensures Quiet(peers)
  {
    if peers != [] {
      var rest := peers[1..];
      assert KeysOf(rest) == KeysOf(peers)[1..];
      UniqueIsQuiet(rest);
      forall p | p in rest ensures p.key != peers[0].key {
        var i :| 0 <= i < |rest| && rest[i] == p;
        assert KeysOf(peers)[i + 1] == p.key && KeysOf(peers)[0] == peers[0].key;
      }
    }
  }

  lemma {:induction false} ReplaceKeepsQuiet(peers: seq<Peer>, key: PeerKey, entry: Peer)
    requires Quiet(peers) && entry.key == key
    ensures Quiet(Replace(peers, key, entry))
    ensures forall p | p in Replace(peers, key, entry) :: p in peers || p == entry
  {
    if peers != [] {
      var rest := peers[1..];
      if peers[0].key == key {
        assert ([entry] + rest)[1..] == rest;
      } else {
        ReplaceKeepsQuiet(rest, key, entry);
        assert ([peers[0]] + Replace(rest, key, entry))[1..] == Replace(rest, key, entry);
      }
    }
  }

  lemma {:induction false} OverridesKeepQuiet(peers: seq<Peer>, overrides: map<PeerKey, Address>)
    requires Quiet(peers)
    ensures Quiet(ApplyOverrides(peers, overrides))
  {
    if peers != [] {
      var rest := ApplyOverrides(peers[1..], overrides);
      OverridesKeepQuiet(peers[1..], overrides);
      assert ApplyOverrides(peers, overrides)[1..] == rest;
      forall p | p in rest && p.key == peers[0].key ensures p.status != Active {
        var i :| 0 <= i < |rest| && rest[i] == p;
        assert p == Override(peers[1..][i], overrides) && peers[1..][i] in peers[1..];
      }
    }
  }

  lemma MarkActiveKeepsQuiet(peers: seq<Peer>, key: PeerKey, seen: Option<Address>)
    requires Quiet(peers)
    ensures Quiet(MarkActive(peers, key, seen))
  {
    StatusIsLookup(peers, key);
    if Lookup(peers, key).Some? {
      ReplaceKeepsQuiet(peers, key, Lookup(peers, key).value.(status := Active).Observed(seen));
    }
  }

  lemma MarkInactiveKeepsQuiet(peers: seq<Peer>, key: PeerKey)
    requires Quiet(peers)
    ensures Quiet(MarkInactive(peers, key))
  {
    StatusIsLookup(peers, key);
    if Lookup(peers, key).Some? && Lookup(peers, key).value.status.Active? {
      ReplaceKeepsQuiet(peers, key, Lookup(peers, key).value.(status := Inactive));
    }
  }

  predicate BannedIn(peers: seq<Peer>, key: PeerKey) {
    exists p :: p in peers && p.key == key && p.status == Banned
  }

  predicate BannedFirst(peers: seq<Peer>, key: PeerKey) {
    key in Statuses(peers) && Statuses(peers)[key] == Banned
  }

  /** Every banned key is banned by its first entry, the one that claims look at. */
  ghost predicate BansLead(peers: seq<Peer>) {
    forall p | p in peers && p.status == Banned :: BannedFirst(peers, p.key)
  }

  lemma UniqueBansLead(peers: seq<Peer>)
    requires UniqueKeys(peers)
    ensures BansLead(peers)
  {
    EntriesHaveStatuses(peers);
  }

  lemma BannedIsEntry(peers: seq<Peer>, key: PeerKey)
    ensures BannedFirst(peers, key) ==> BannedIn(peers, key)
    ensures BansLead(peers) ==> (BannedFirst(peers, key) <==> BannedIn(peers, key))
  {
    EntriesHaveStatuses(peers);
  }

  /** Replacing an entry that is not banned by another that is not keeps every ban, wherever it stands. */
  lemma {:induction false} ReplaceKeepsBans(peers: seq<Peer>, key: PeerKey, entry: Peer)
    requires entry.key == key && entry.status != Banned && !BannedFirst(peers, key)
    ensures forall p: Peer | p.status == Banned :: p in Replace(peers, key, entry) <==> p in peers
  {
    if peers != [] {
      assert peers == [peers[0]] + peers[1..];
      if peers[0].key != key {
        ReplaceKeepsBans(peers[1..], key, entry);
      }
    }
  }

  // ----- Staging -----

  function StagedFrom(peers: seq<Peer>, members: set<nat>): seq<Peer> {
    if peers == [] then []
    else (if peers[0].key.x in members then [peers[0]] else []) + StagedFrom(peers[1..], members)
  }

  /** Compressed keys compare by their prefix byte, then by x. */
  predicate KeyBefore(a: Peer, b: Peer) {
    if a.key.odd == b.key.odd then a.key.x <= b.key.x else b.key.odd
  }

  /** `dedup_by_key` on sorted entries keeps the first of each key. */
  function DedupByKey(peers: seq<Peer>): seq<Peer>
    decreases |peers|
  {
    if |peers| <= 1 then peers
    else if peers[0].key == peers[1].key then DedupByKey([peers[0]] + peers[2..])
    else [peers[0]] + DedupByKey(peers[1..])
  }

  function Candidates(peers: seq<Peer>, staged: seq<Peer>, members: set<nat>): seq<Peer> {
    DedupByKey(SortBy(StagedFrom(peers + staged, members), KeyBefore))
  }

  lemma {:induction false} StagedFromFilters(peers: seq<Peer>, members: set<nat>, key: PeerKey)
    ensures Lookup(StagedFrom(peers, members), key) == if key.x in members then Lookup(peers, key) else None
  {
    if peers != [] {
      StagedFromFilters(peers[1..], members, key);
      if peers[0].key.x in members {
        assert ([peers[0]] + StagedFrom(peers[1..], members))[1..] == StagedFrom(peers[1..], members);
      } else {
        assert [] + StagedFrom(peers[1..], members) == StagedFrom(peers[1..], members);
      }
    }
  }

  lemma {:induction false} InsertKeepsFirst(peer: Peer, peers: seq<Peer>, key: PeerKey)
    ensures Lookup(InsertBy(peer, peers, KeyBefore), key) == if peer.key == key then Some(peer) else Lookup(peers, key)
  {
    if peers != [] && !KeyBefore(peer, peers[0]) {
      InsertKeepsFirst(peer, peers[1..], key);
      var rest := InsertBy(peer, peers[1..], KeyBefore);
      assert ([peers[0]] + rest)[1..] == rest;
    } else {
      assert ([peer] + peers)[1..] == peers;
    }
  }

  /** The sort is stable: the first entry of each key stays first. */
  lemma {:induction false} SortKeepsFirst(peers: seq<Peer>, key: PeerKey)
    ensures Lookup(SortBy(peers, KeyBefore), key) == Lookup(peers, key)
  {
    if peers != [] {
      SortKeepsFirst(peers[1..], key);
      InsertKeepsFirst(peers[0], SortBy(peers[1..], KeyBefore), key);
    }
  }

  lemma {:induction false} DedupKeepsFirst(peers: seq<Peer>, key: PeerKey)
    ensures Lookup(DedupByKey(peers), key) == Lookup(peers, key)
    ensures forall p | p in DedupByKey(peers) :: p in peers
    decreases |peers|
  {
    if |peers| > 1 {
      if peers[0].key == peers[1].key {
        var shorter := [peers[0]] + peers[2..];
        DedupKeepsFirst(shorter, key);
        assert shorter[1..] == peers[2..] && peers[1..][1..] == peers[2..];
      } else {
        DedupKeepsFirst(peers[1..], key);
        var rest := DedupByKey(peers[1..]);
        assert ([peers[0]] + rest)[1..] == rest;
      }
    }
  }

  lemma {:induction false} DedupIsUnique(peers: seq<Peer>)
    requires SortedBy(peers, KeyBefore)
    ensures UniqueKeys(DedupByKey(peers))
    decreases |peers|
  {
    if |peers| > 1 {
      if peers[0].key == peers[1].key {
        DedupIsUnique([peers[0]] + peers[2..]);
      } else {
        DedupIsUnique(peers[1..]);
        DedupKeepsFirst(peers[1..], peers[0].key);
        assert KeyBefore(peers[0], peers[1]);
        forall p | p in peers[1..] ensures p.key != peers[0].key {
          var i :| 0 <= i < |peers[1..]| && peers[1..][i] == p;
          assert i > 0 ==> KeyBefore(peers[1], peers[i + 1]);
        }
        PrependUnique(peers[0], DedupByKey(peers[1..]));
      }
    }
  }

  lemma PrependUnique(peer: Peer, rest: seq<Peer>)
    requires UniqueKeys(rest) && forall p | p in rest :: p.key != peer.key
    ensures UniqueKeys([peer] + rest)
  {
    var keys := KeysOf([peer] + rest);
    forall j | 0 < j < |keys| ensures keys[j] == KeysOf(rest)[j - 1] && keys[j] != keys[0] {
      assert rest[j - 1] in rest;
    }
  }

  lemma KeyOrder()
    ensures TotalPreorder(KeyBefore)
  {
  }

  lemma {:induction false} LookupAppended(a: seq<Peer>, b: seq<Peer>, key: PeerKey)
    ensures Lookup(a + b, key) == if Lookup(a, key).Some? then Lookup(a, key) else Lookup(b, key)
  {
    if a == [] {
      assert a + b == b;
    } else {
      LookupAppended(a[1..], b, key);
      assert (a + b)[1..] == a[1..] + b;
    }
  }

  /** The staged table has one entry a key: the active table's where it has one, else the one staged before. */
  lemma CandidatesAreExact(peers: seq<Peer>, staged: seq<Peer>, members: set<nat>)
    ensures UniqueKeys(Candidates(peers, staged, members))
    ensures forall key :: Lookup(Candidates(peers, staged, members), key)
                       == if key.x !in members then None
                          else if Lookup(peers, key).Some? then Lookup(peers, key) else Lookup(staged, key)
  {
    KeyOrder();
    var filtered := StagedFrom(peers + staged, members);
    SortByCorrect(filtered, KeyBefore);
    DedupIsUnique(SortBy(filtered, KeyBefore));
    forall key ensures Lookup(Candidates(peers, staged, members), key)
                    == if key.x !in members then None
                       else if Lookup(peers, key).Some? then Lookup(peers, key) else Lookup(staged, key)
    {
      DedupKeepsFirst(SortBy(filtered, KeyBefore), key);
      SortKeepsFirst(filtered, key);
      StagedFromFilters(peers + staged, members, key);
      LookupAppended(peers, staged, key);
    }
  }

  // ----- The shared state and its steps -----

  /** The x-only identities of some peers. */
  function IdentitiesIn(peers: set<Peer>): set<nat> {
    set p | p in peers :: p.key.x
  }

  datatype Node = Node(
    local: PeerKey,
    peers: seq<Peer>,
    overrides: map<PeerKey, Address>,
    connections: set<PeerKey>,
    discoveryTableReceived: bool,
    members: Option<set<nat>>,
    staged: seq<Peer>) {

    predicate MigrationContains(key: PeerKey) {
      members.Some? && key.x in members.value
    }

    function Identities(): set<nat> {
      IdentitiesIn(ToSet(staged))
    }

    predicate IdentitiesUnique() {
      |Identities()| == |staged|
    }

    predicate IdentitiesValid() {
      members.Some? && IdentitiesUnique() && Identities() <= members.value
    }

    predicate TableMatchesMembers() {
      members.Some? && IdentitiesUnique() && Identities() == members.value
    }

    predicate Ready() {
      TableMatchesMembers() && IdentitiesIn(set p | p in staged && (p.key == local || p.status == Active))
          == members.value
    }

    predicate TableComplete() {
      TableMatchesMembers() && IdentitiesIn(set p | p in staged && p.address.Some?) == members.value
    }

    predicate AcceptsUnregistered(key: PeerKey) {
      MigrationContains(key) || (!discoveryTableReceived && exists p :: p in peers && p.key != local && p.discovery)
    }

    function Provisional(): set<PeerKey> {
      connections - Statuses(peers).Keys
    }
  }

  function CountUnique(staged: seq<Peer>): nat {
    |IdentitiesIn(ToSet(staged))|
  }

  function BeginStep(s: Node, members: set<nat>): (Node, Result<Unit, Error>) {
    if s.members.Some? then
      if s.members.value != members then (s, Err(MigrationAlreadyStaged))
      else if !s.IdentitiesValid() then (s, Err(InvalidMigrationPeerTable))
      else (s, Ok(Unit))
    else
      var candidates := Candidates(s.peers, s.staged, members);
      if CountUnique(candidates) != |candidates| then (s, Err(InvalidMigrationPeerTable))
      else (s.(staged := candidates, members := Some(members)), Ok(Unit))
  }

  function CancelStep(s: Node): Node {
    s.(members := None)
  }

  function ActivateStep(s: Node): (Node, Result<seq<Peer>, Error>) {
    if s.members.None? then (s, Err(MigrationNotStaged))
    else if !s.IdentitiesValid() then (s, Err(InvalidMigrationPeerTable))
    else if !s.Ready() && (s.MigrationContains(s.local) || !s.TableComplete()) then (s, Err(MigrationNotReady))
    else if !s.TableMatchesMembers() then (s, Err(InvalidMigrationPeerTable))
    else (s.(peers := s.staged, staged := [], members := None, connections := s.connections * Statuses(s.staged).Keys),
        Ok(s.staged))
  }

  /** Whether a claim is refused, and why. */
  function ClaimVerdict(s: Node, key: PeerKey): Result<Unit, Error> {
    if key in s.connections then Err(PeerAlreadyConnected)
    else
      match Lookup(s.peers, key)
      case Some(peer) =>
        if peer.status == Banned then Err(UnauthorizedConnection)
        else if peer.status == Active then Err(PeerAlreadyConnected)
        else Ok(Unit)
      case None =>
        if !s.AcceptsUnregistered(key) then Err(UnauthorizedConnection)
        else if |s.Provisional()| >= MAX_PROVISIONAL_CONNECTIONS then Err(ProvisionalConnectionLimit)
        else Ok(Unit)
  }

  /** A staged member without an entry gets one; a known key is marked where it is staged. */
  function ClaimStaged(s: Node, key: PeerKey, seen: Option<Address>): seq<Peer> {
    if Lookup(s.peers, key).None? && !s.MigrationContains(key) then s.staged
    else if Lookup(s.peers, key).None? && Lookup(s.staged, key).None? then s.staged + [Peer(key, seen, Active, false)]
    else MarkActive(s.staged, key, seen)
  }

  function ClaimStep(s: Node, key: PeerKey, seen: Option<Address>): (Node, Result<Unit, Error>) {
    if ClaimVerdict(s, key).Err? then (s, ClaimVerdict(s, key))
    else
      (s.(peers := ApplyOverrides(MarkActive(s.peers, key, seen), s.overrides),
          staged := ApplyOverrides(ClaimStaged(s, key, seen), s.overrides), connections := s.connections + {key}),
       Ok(Unit))
  }

  function ReleaseStep(s: Node, key: PeerKey): Node {
    s.(connections := s.connections - {key}, peers := MarkInactive(s.peers, key), staged := MarkInactive(s.staged, key))
  }

  function SetAddressStep(s: Node, key: PeerKey, address: Address): Node {
    var overrides := s.overrides[key := address];
    s.(overrides := overrides, peers := ApplyOverrides(s.peers, overrides),
        staged := ApplyOverrides(s.staged, overrides))
  }

  // ----- Starting -----

  function WithLocalPeer(local: PeerKey, peers: seq<Peer>): seq<Peer> {
    if Lookup(peers, local).Some? then peers else [Peer(local, None, Inactive, false)] + peers
  }

  /** Nobody is connected at the start; only bans survive it. */
  function Restarted(peer: Peer, local: PeerKey, discovery: bool): Peer {
    peer.(status := if peer.key == local then Controlled else if peer.status.Banned? then Banned
        else Inactive, discovery := discovery)
  }

  function Restart(local: PeerKey, peers: seq<Peer>, coordinator: Option<PeerKey>): seq<Peer> {
    seq(|peers|, i requires 0 <= i < |peers| => Restarted(peers[i], local, Some(peers[i].key) == coordinator))
  }

  function Start(local: PeerKey, peers: seq<Peer>): Node {
    Node(local, peers, map[], {}, false, None, [])
  }

  function StartFromPeers(local: PeerKey, peers: seq<Peer>): Node {
    Start(local, Restart(local, WithLocalPeer(local, peers), None))
  }

  function StartDiscovery(local: PeerKey, peers: seq<Peer>): Node {
    Start(local, Restart(local, WithLocalPeer(local, peers), Some(local)))
  }

  /**
   * What a restart means: nobody is connected and nothing is staged; the known entries follow in order with their
   * addresses, after one for the local node if they lack it; the local node is Controlled, everyone else Inactive
   * unless banned, and the discovery mark is on the coordinator alone.
   */
  ghost predicate IsRestart(s: Node, local: PeerKey, known: seq<Peer>, coordinator: Option<PeerKey>) {
    && s.local == local && s.overrides == map[] && s.connections == {} && !s.discoveryTableReceived
    && s.members.None? && s.staged == []
    && KeepsKnown(s.peers, local, known) && MarksEntries(s.peers, local, coordinator)
  }

  /** The known entries in order, after one for the local node if they lack it. */
  ghost predicate KeepsKnown(peers: seq<Peer>, local: PeerKey, known: seq<Peer>) {
    var added := |peers| - |known|;
    && added == (if local in KeysOf(known) then 0 else 1)
    && (added == 1 ==> peers[0].key == local && peers[0].address.None?)
    && forall i | 0 <= i < |known| ::
         && peers[added + i].key == known[i].key && peers[added + i].address == known[i].address
         && (peers[added + i].status == Banned <==> known[i].status == Banned && known[i].key != local)
  }

  ghost predicate MarksEntries(peers: seq<Peer>, local: PeerKey, coordinator: Option<PeerKey>) {
    forall p | p in peers ::
      && p.status != Active && (p.status == Controlled <==> p.key == local)
      && (p.discovery <==> coordinator == Some(p.key))
  }

  /** The meaning fixes the whole state. */
  lemma RestartIsExact(s: Node, local: PeerKey, known: seq<Peer>, coordinator: Option<PeerKey>)
    ensures IsRestart(s, local, known, coordinator)
       <==> s == Start(local, Restart(local, WithLocalPeer(local, known), coordinator))
  {
    if IsRestart(s, local, known, coordinator) {
      MeaningFixesEntries(s, local, known, coordinator);
    }
    RestartMeans(local, known, coordinator);
  }

  lemma RestartMeans(local: PeerKey, known: seq<Peer>, coordinator: Option<PeerKey>)
    ensures IsRestart(Start(local, Restart(local, WithLocalPeer(local, known), coordinator)), local, known, coordinator)
  {
    RestartedEntries(local, known, coordinator);
    RestartedKnown(local, known, coordinator);
  }

  lemma LocalIsKnown(local: PeerKey, known: seq<Peer>)
    ensures WithLocalPeer(local, known)
         == if local in KeysOf(known) then known else [Peer(local, None, Inactive, false)] + known
  {
    KeysOfStatuses(known, local);
    StatusIsLookup(known, local);
  }

  lemma MeaningFixesEntries(s: Node, local: PeerKey, known: seq<Peer>, coordinator: Option<PeerKey>)
    requires IsRestart(s, local, known, coordinator)
    ensures s.peers == Restart(local, WithLocalPeer(local, known), coordinator)
  {
    LocalIsKnown(local, known);
    forall k | 0 <= k < |known|
      ensures s.peers[|s.peers| - |known| + k] == Restarted(known[k], local, Some(known[k].key) == coordinator)
    {
      MeaningFixesKnown(s, local, known, coordinator, k);
    }
    if local !in KeysOf(known) {
      var own := Peer(local, None, Inactive, false);
      MeaningFixesEntry(s.peers[0], own, local, coordinator);
      RestartedAfter(s.peers, own, local, known, coordinator);
    }
  }

  lemma RestartedAfter(peers: seq<Peer>, own: Peer, local: PeerKey, known: seq<Peer>, coordinator: Option<PeerKey>)
    requires |peers| == |known| + 1 && peers[0] == Restarted(own, local, Some(own.key) == coordinator)
    requires forall k | 0 <= k < |known| ::
               peers[1 + k] == Restarted(known[k], local, Some(known[k].key) == coordinator)
    ensures peers == Restart(local, [own] + known, coordinator)
  {
    forall i | 0 < i < |peers|
      ensures peers[i] == Restarted(known[i - 1], local, Some(known[i - 1].key) == coordinator)
    {
      assert peers[1 + (i - 1)] == peers[i];
    }
  }

  lemma MeaningFixesKnown(s: Node, local: PeerKey, known: seq<Peer>, coordinator: Option<PeerKey>, k: nat)
    requires IsRestart(s, local, known, coordinator) && k < |known|
    ensures s.peers[|s.peers| - |known| + k] == Restarted(known[k], local, Some(known[k].key) == coordinator)
  {
    MeaningFixesEntry(s.peers[|s.peers| - |known| + k], known[k], local, coordinator);
  }

  lemma MeaningFixesEntry(p: Peer, known: Peer, local: PeerKey, coordinator: Option<PeerKey>)
    requires p.key == known.key && p.address == known.address
    requires p.status == Banned <==> known.status == Banned && known.key != local
    requires p.status != Active && (p.status == Controlled <==> p.key == local)
    requires p.discovery <==> coordinator == Some(p.key)
    ensures p == Restarted(known, local, Some(known.key) == coordinator)
  {
  }

  lemma RestartedKnown(local: PeerKey, known: seq<Peer>, coordinator: Option<PeerKey>)
    ensures KeepsKnown(Restart(local, WithLocalPeer(local, known), coordinator), local, known)
  {
    LocalIsKnown(local, known);
    var all := WithLocalPeer(local, known);
    var peers := Restart(local, all, coordinator);
    var added := |peers| - |known|;
    forall i | 0 <= i < |known|
      ensures peers[added + i] == Restarted(known[i], local, Some(known[i].key) == coordinator)
    {
      assert all[added + i] == known[i];
    }
  }

  lemma RestartedEntries(local: PeerKey, known: seq<Peer>, coordinator: Option<PeerKey>)
    ensures MarksEntries(Restart(local, WithLocalPeer(local, known), coordinator), local, coordinator)
  {
  }

  function StartDiscoverable(local: PeerKey, coordinator: Peer): Result<Node, Error> {
    if coordinator.key == local then Err(DiscoveryPeerIsLocal)
    else if coordinator.address.None? then Err(DiscoveryPeerAddressMissing)
    else
      Ok(Start(local, [Peer(local, None, Controlled, false), coordinator.(status := Inactive, discovery := true)]))
  }

  /** The state behind the write lock; each method is one locked section. */
  class StormState {
    const local: PeerKey
    var peers: seq<Peer>
    var overrides: map<PeerKey, Address>
    var connections: set<PeerKey>
    var discoveryTableReceived: bool
    var members: Option<set<nat>>
    var staged: seq<Peer>

    constructor (start: Node)
      ensures Snapshot() == start
    {
      local := start.local;
      peers := start.peers;
      overrides := start.overrides;
      connections := start.connections;
      discoveryTableReceived := start.discoveryTableReceived;
      members := start.members;
      staged := start.staged;
    }

    /** A node that restarts from a known peer table. */
    static method FromPeers(local: PeerKey, known: seq<Peer>) returns (state: StormState)
      ensures fresh(state) && state.Snapshot() == StartFromPeers(local, known)
      ensures IsRestart(state.Snapshot(), local, known, None)
    {
      var all := WithLocalPeer(local, known);
      var peers := all;
      for i := 0 to |peers|
        invariant |peers| == |all|
        invariant forall j | 0 <= j < |peers| :: peers[j] == if j < i then Restarted(all[j], local, false) else all[j]
      {
        peers := peers[i := peers[i].(discovery := false)];
        if peers[i].key == local {
          peers := peers[i := peers[i].(status := Controlled)];
        } else if peers[i].status != Banned {
          peers := peers[i := peers[i].(status := Inactive)];
        }
      }
      assert peers == Restart(local, all, None);
      RestartIsExact(Start(local, peers), local, known, None);
      state := new StormState(Start(local, peers));
    }

    /** The coordinator that hands out the peer table. */
    static method Discovery(local: PeerKey, registered: seq<Peer>) returns (state: StormState)
      ensures fresh(state) && state.Snapshot() == StartDiscovery(local, registered)
      ensures IsRestart(state.Snapshot(), local, registered, Some(local))
    {
      var all := WithLocalPeer(local, registered);
      var peers := all;
      for i := 0 to |peers|
        invariant |peers| == |all|
        invariant forall j | 0 <= j < |peers| ::
                    peers[j] == if j < i then Restarted(all[j], local, all[j].key == local) else all[j]
      {
        if peers[i].key == local {
          peers := peers[i := peers[i].(status := Controlled)];
        } else if peers[i].status != Banned {
          peers := peers[i := peers[i].(status := Inactive)];
        }
        peers := peers[i := peers[i].(discovery := peers[i].key == local)];
      }
      assert peers == Restart(local, all, Some(local));
      RestartIsExact(Start(local, peers), local, registered, Some(local));
      state := new StormState(Start(local, peers));
    }

    /** A node that knows only whom to ask for the table. */
    static method Discoverable(local: PeerKey, coordinator: Peer) returns (r: Result<StormState, Error>)
      ensures r.Ok? <==> coordinator.key != local && coordinator.address.Some?
      ensures r.Err? ==> r.error == if coordinator.key == local then DiscoveryPeerIsLocal
                                    else DiscoveryPeerAddressMissing
      ensures r.Ok? ==> fresh(r.value) && StartDiscoverable(local, coordinator) == Ok(r.value.Snapshot())
      ensures r.Ok? ==>
                && r.value.connections == {} && r.value.members.None? && r.value.staged == []
                && KeysOf(r.value.peers) == [local, coordinator.key]
                && Statuses(r.value.peers) == map[local := Controlled, coordinator.key := Inactive]
                && forall p | p in r.value.peers ::
                     && (p.discovery <==> p.key == coordinator.key)
                     && p.address == if p.key == local then None else coordinator.address
    {
      if coordinator.key == local {
        return Err(DiscoveryPeerIsLocal);
      }
      if coordinator.address.None? {
        return Err(DiscoveryPeerAddressMissing);
      }
      var asked := coordinator.(status := Inactive, discovery := true);
      LocalIsKnown(local, [asked]);
      var peers := WithLocalPeer(local, [asked]);
      assert peers == [Peer(local, None, Inactive, false), asked];
      var own := Lookup(peers, local);
      peers := Replace(peers, local, own.value.(status := Controlled, discovery := false));
      assert peers == [Peer(local, None, Controlled, false), asked];
      var state := new StormState(Start(local, peers));
      HeadEffect(peers[0], [peers[1]]);
      HeadEffect(peers[1], []);
      return Ok(state);
    }

    function Snapshot(): Node
      reads this
    {
      Node(local, peers, overrides, connections, discoveryTableReceived, members, staged)
    }

    method BeginMemberMigration(target: set<nat>) returns (r: Result<Unit, Error>)
      modifies this
      ensures (Snapshot(), r) == BeginStep(old(Snapshot()), target)
    {
      if members.Some? {
        if members.value != target {
          return Err(MigrationAlreadyStaged);
        }
        if !Snapshot().IdentitiesValid() {
          return Err(InvalidMigrationPeerTable);
        }
        return Ok(Unit);
      }
      var candidates := Candidates(peers, staged, target);
      if CountUnique(candidates) != |candidates| {
        return Err(InvalidMigrationPeerTable);
      }
      staged := candidates;
      members := Some(target);
      return Ok(Unit);
    }

    method CancelMemberMigration()
      modifies this
      ensures Snapshot() == CancelStep(old(Snapshot()))
    {
      members := None;
    }

    /** Reads, without changing anything, what an activation at this moment would answer. */
    method MemberMigrationPeers() returns (r: Result<seq<Peer>, Error>)
      ensures r == ActivateStep(Snapshot()).1
    {
      var s := Snapshot();
      if members.None? {
        return Err(MigrationNotStaged);
      }
      if !s.IdentitiesValid() {
        return Err(InvalidMigrationPeerTable);
      }
      if !s.Ready() && (s.MigrationContains(local) || !s.TableComplete()) {
        return Err(MigrationNotReady);
      }
      if !s.TableMatchesMembers() {
        return Err(InvalidMigrationPeerTable);
      }
      return Ok(staged);
    }

    method ActivateMemberMigration() returns (r: Result<seq<Peer>, Error>)
      modifies this
      ensures (Snapshot(), r) == ActivateStep(old(Snapshot()))
    {
      var s := Snapshot();
      if members.None? {
        return Err(MigrationNotStaged);
      }
      if !s.IdentitiesValid() {
        return Err(InvalidMigrationPeerTable);
      }
      if !s.Ready() && (s.MigrationContains(local) || !s.TableComplete()) {
        return Err(MigrationNotReady);
      }
      if !s.TableMatchesMembers() {
        return Err(InvalidMigrationPeerTable);
      }
      peers := staged;
      staged := [];
      members := None;
      connections := connections * Statuses(peers).Keys;
      return Ok(peers);
    }

    method ClaimConnection(key: PeerKey, seen: Option<Address>) returns (r: Result<Unit, Error>)
      modifies this
      ensures (Snapshot(), r) == ClaimStep(old(Snapshot()), key, seen)
    {
      var known := Lookup(peers, key);
      if key in connections {
        return Err(PeerAlreadyConnected);
      }
      if known.Some? {
        if known.value.status == Banned {
          return Err(UnauthorizedConnection);
        }
        if known.value.status == Active {
          return Err(PeerAlreadyConnected);
        }
        peers := MarkActive(peers, key, seen);
        staged := MarkActive(staged, key, seen);
      } else {
        if !Snapshot().AcceptsUnregistered(key) {
          return Err(UnauthorizedConnection);
        }
        if |connections - Statuses(peers).Keys| >= MAX_PROVISIONAL_CONNECTIONS {
          return Err(ProvisionalConnectionLimit);
        }
        if Snapshot().MigrationContains(key) {
          if Lookup(staged, key).Some? {
            staged := MarkActive(staged, key, seen);
          } else {
            staged := staged + [Peer(key, seen, Active, false)];
          }
        }
      }
      peers := ApplyOverrides(peers, overrides);
      staged := ApplyOverrides(staged, overrides);
      connections := connections + {key};
      return Ok(Unit);
    }

    method ReleaseConnection(key: PeerKey)
      modifies this
      ensures Snapshot() == ReleaseStep(old(Snapshot()), key)
    {
      connections := connections - {key};
      peers := MarkInactive(peers, key);
      staged := MarkInactive(staged, key);
    }

    /** `keyValid` and `addressValid` are the checks on the two arguments before the lock is taken. */
    method SetPeerAddress(key: PeerKey, address: Address, keyValid: PeerKey -> bool, addressValid: Address -> bool)
      returns (r: Result<Unit, Error>)
      modifies this
      ensures r == if !keyValid(key) then Err(UnauthorizedConnection)
                   else if !addressValid(address) then Err(InvalidPeerAddress) else Ok(Unit)
      ensures Snapshot() == if r.Ok? then SetAddressStep(old(Snapshot()), key, address) else old(Snapshot())
    {
      if !keyValid(key) {
        return Err(UnauthorizedConnection);
      }
      if !addressValid(address) {
        return Err(InvalidPeerAddress);
      }
      overrides := overrides[key := address];
      peers := ApplyOverrides(peers, overrides);
      staged := ApplyOverrides(staged, overrides);
      return Ok(Unit);
    }
  }

  // ----- Every interleaving -----

  datatype Event =
    | Begin(target: set<nat>)
    | Cancel
    | Activate
    | Claim(key: PeerKey, seen: Option<Address>)
    | Release(released: PeerKey)
    | SetAddress(named: PeerKey, address: Address)

  function Step(s: Node, event: Event): Node {
    match event
    case Begin(target) => BeginStep(s, target).0
    case Cancel => CancelStep(s)
    case Activate => ActivateStep(s).0
    case Claim(key, seen) => ClaimStep(s, key, seen).0
    case Release(key) => ReleaseStep(s, key)
    case SetAddress(key, address) => SetAddressStep(s, key, address)
  }

  function Run(s: Node, events: seq<Event>): Node {
    if events == [] then s else Step(Run(s, events[..|events| - 1]), events[|events| - 1])
  }

  /** What the two tables and the connections keep of each other, in terms of statuses. */
  ghost predicate Consistent(active: map<PeerKey, PeerStatus>, staged: map<PeerKey, PeerStatus>,
                             connections: set<PeerKey>) {
    && (forall key | key in active && active[key] == Active :: key in connections)
    && (forall key | key in staged && staged[key] == Active :: key in connections)
    && (forall key | key in active && active[key] == Banned :: key !in connections)
    && (forall key | key in staged && staged[key] == Banned :: key in active && active[key] == Banned)
    && (forall key | key in staged && key in active && active[key] == Banned :: staged[key] == Banned)
    && |connections - active.Keys| <= MAX_PROVISIONAL_CONNECTIONS
  }

  /** Holds from the start and after every step, in whatever order the locked sections run. */
  ghost predicate Inv(s: Node) {
    && Quiet(s.peers) && UniqueKeys(s.staged)
    && Consistent(Statuses(s.peers), Statuses(s.staged), s.connections)
  }

  /** The invariant read off the entries themselves. */
  lemma InvOnEntries(s: Node)
    requires Inv(s)
    ensures forall p | p in s.peers && p.status == Active :: p.key in s.connections
    ensures forall p | p in s.staged && p.status == Active :: p.key in s.connections
    ensures forall key | BannedFirst(s.peers, key) :: key !in s.connections
    ensures BansLead(s.peers) ==> forall p | p in s.peers && p.status == Banned :: p.key !in s.connections
    ensures |s.Provisional()| <= MAX_PROVISIONAL_CONNECTIONS
  {
    QuietEntries(s.peers);
    UniqueIsQuiet(s.staged);
    QuietEntries(s.staged);
  }

  lemma StartsSafe(local: PeerKey, peers: seq<Peer>)
    requires forall p | p in peers :: p.status != Active
    ensures Inv(Start(local, peers))
  {
    InactiveIsQuiet(peers);
    EntriesHaveStatuses(peers);
    assert {} - Statuses(peers).Keys == {};
  }

  /** A node as any of its constructors leaves it, from whatever table. */
  ghost predicate IsFresh(s: Node) {
    || (exists peers :: s == StartFromPeers(s.local, peers))
    || (exists peers :: s == StartDiscovery(s.local, peers))
    || (exists coordinator :: StartDiscoverable(s.local, coordinator) == Ok(s))
  }

  lemma FreshIsSafe(s: Node)
    requires IsFresh(s)
    ensures Inv(s) && s.connections == {} && forall p | p in s.peers :: p.status != Active
  {
    if peers :| s == StartFromPeers(s.local, peers) {
      RestartedEntries(s.local, peers, None);
    } else if peers :| s == StartDiscovery(s.local, peers) {
      RestartedEntries(s.local, peers, Some(s.local));
    }
    StartsSafe(s.local, s.peers);
  }

  lemma BeginKeepsInv(s: Node, target: set<nat>)
    requires Inv(s)
    ensures Inv(BeginStep(s, target).0)
  {
    if s.members.None? && BeginStep(s, target).1.Ok? {
      var staged := BeginStep(s, target).0.staged;
      CandidatesAreExact(s.peers, s.staged, target);
      forall key
        ensures key in Statuses(staged) <==> key.x in target && (key in Statuses(s.peers) || key in Statuses(s.staged))
        ensures key in Statuses(staged) ==> Statuses(staged)[key] == if key in Statuses(s.peers)
                then Statuses(s.peers)[key] else Statuses(s.staged)[key]
      {
        StatusIsLookup(staged, key);
        StatusIsLookup(s.peers, key);
        StatusIsLookup(s.staged, key);
      }
    }
  }

  lemma ActivateKeepsInv(s: Node)
    requires Inv(s)
    ensures Inv(ActivateStep(s).0)
  {
    if ActivateStep(s).1.Ok? {
      UniqueIsQuiet(s.staged);
      ActivatedConsistent(Statuses(s.peers), Statuses(s.staged), s.connections);
    }
  }

  lemma ActivatedConsistent(active: map<PeerKey, PeerStatus>, staged: map<PeerKey, PeerStatus>,
                            connections: set<PeerKey>)
    requires Consistent(active, staged, connections)
    ensures Consistent(staged, map[], connections * staged.Keys)
  {
    assert connections * staged.Keys - staged.Keys == {};
  }

  /** The statuses a successful claim leaves. */
  lemma ClaimEffect(s: Node, key: PeerKey, seen: Option<Address>)
    requires ClaimStep(s, key, seen).1.Ok?
    ensures var after := ClaimStep(s, key, seen).0;
            && KeysOf(after.peers) == KeysOf(s.peers)
            && Statuses(after.peers) == (if key in Statuses(s.peers) then Statuses(s.peers)[key := Active]
                else Statuses(s.peers))
            && var stages := key in Statuses(s.peers) || s.MigrationContains(key);
               var adds := key !in Statuses(s.peers) && s.MigrationContains(key) && key !in Statuses(s.staged);
            && KeysOf(after.staged) == (if adds then KeysOf(s.staged) + [key] else KeysOf(s.staged))
            && Statuses(after.staged)
                == (if adds || (stages && key in Statuses(s.staged)) then Statuses(s.staged)[key := Active]
                else Statuses(s.staged))
  {
    StatusIsLookup(s.peers, key);
    StatusIsLookup(s.staged, key);
    MarkActiveEffect(s.peers, key, seen);
    MarkActiveEffect(s.staged, key, seen);
    ClaimedPeers(s, key, seen);
    OverridesEffect(s.staged, s.overrides);
    OverridesEffect(MarkActive(s.peers, key, seen), s.overrides);
    OverridesEffect(MarkActive(s.staged, key, seen), s.overrides);
    if key !in Statuses(s.staged) {
      AppendEffect(s.staged, Peer(key, seen, Active, false));
      OverridesEffect(s.staged + [Peer(key, seen, Active, false)], s.overrides);
    }
  }

  lemma KnownClaimConsistent(active: map<PeerKey, PeerStatus>, staged: map<PeerKey, PeerStatus>,
                             connections: set<PeerKey>, key: PeerKey)
    requires Consistent(active, staged, connections) && key in active && active[key] != Banned
    ensures Consistent(active[key := Active], if key in staged then staged[key := Active]
            else staged, connections + {key})
  {
    assert (connections + {key}) - active[key := Active].Keys == connections - active.Keys;
  }

  lemma OneMore<T>(connections: set<T>, known: set<T>, key: T)
    requires key !in known && key !in connections
    ensures |(connections + {key}) - known| == |connections - known| + 1
  {
    assert (connections + {key}) - known == (connections - known) + {key};
  }

  lemma ProvisionalClaimConsistent(active: map<PeerKey, PeerStatus>, staged: map<PeerKey, PeerStatus>,
                                   connections: set<PeerKey>, key: PeerKey,
                                   staged': map<PeerKey, PeerStatus>)
    requires Consistent(active, staged, connections) && key !in active && key !in connections
    requires |connections - active.Keys| < MAX_PROVISIONAL_CONNECTIONS
    requires staged' == staged || staged' == staged[key := Active]
    ensures Consistent(active, staged', connections + {key})
  {
    OneMore(connections, active.Keys, key);
  }

  lemma ClaimedPeers(s: Node, key: PeerKey, seen: Option<Address>)
    requires ClaimStep(s, key, seen).1.Ok?
    ensures ClaimStep(s, key, seen).0.peers == ApplyOverrides(MarkActive(s.peers, key, seen), s.overrides)
    ensures ClaimStep(s, key, seen).0.connections == s.connections + {key}
    ensures key !in s.connections && !BannedFirst(s.peers, key)
    ensures Lookup(s.peers, key).None? ==> |s.Provisional()| < MAX_PROVISIONAL_CONNECTIONS
  {
    StatusIsLookup(s.peers, key);
  }

  lemma ClaimKeepsQuiet(s: Node, key: PeerKey, seen: Option<Address>)
    requires Quiet(s.peers) && ClaimStep(s, key, seen).1.Ok?
    ensures Quiet(ClaimStep(s, key, seen).0.peers)
  {
    ClaimedPeers(s, key, seen);
    MarkActiveKeepsQuiet(s.peers, key, seen);
    OverridesKeepQuiet(MarkActive(s.peers, key, seen), s.overrides);
  }

  lemma ClaimKeepsInv(s: Node, key: PeerKey, seen: Option<Address>)
    requires Inv(s)
    ensures Inv(ClaimStep(s, key, seen).0)
  {
    if ClaimStep(s, key, seen).1.Ok? {
      ClaimKeepsQuiet(s, key, seen);
      ClaimKeepsUnique(s, key, seen);
      ClaimKeepsConsistent(s, key, seen);
    }
  }

  lemma ClaimKeepsConsistent(s: Node, key: PeerKey, seen: Option<Address>)
    requires Consistent(Statuses(s.peers), Statuses(s.staged), s.connections) && ClaimStep(s, key, seen).1.Ok?
    ensures var after := ClaimStep(s, key, seen).0;
            Consistent(Statuses(after.peers), Statuses(after.staged), after.connections)
  {
    ClaimEffect(s, key, seen);
    ClaimedPeers(s, key, seen);
    StatusIsLookup(s.peers, key);
    if key in Statuses(s.peers) {
      KnownClaimConsistent(Statuses(s.peers), Statuses(s.staged), s.connections, key);
    } else {
      ProvisionalClaimConsistent(Statuses(s.peers), Statuses(s.staged), s.connections, key,
          Statuses(ClaimStep(s, key, seen).0.staged));
    }
  }

  lemma ClaimKeepsUnique(s: Node, key: PeerKey, seen: Option<Address>)
    requires UniqueKeys(s.staged) && ClaimStep(s, key, seen).1.Ok?
    ensures UniqueKeys(ClaimStep(s, key, seen).0.staged)
  {
    ClaimedKeys(s, key, seen);
    if key !in Statuses(s.staged) {
      AppendKeepsUnique(s.staged, key);
    }
  }

  lemma AppendKeepsUnique(peers: seq<Peer>, key: PeerKey)
    requires UniqueKeys(peers) && key !in Statuses(peers)
    ensures NoDuplicates(KeysOf(peers) + [key])
  {
    KeysOfStatuses(peers, key);
  }

  lemma KeysOfStatuses(peers: seq<Peer>, key: PeerKey)
    ensures key in KeysOf(peers) <==> key in Statuses(peers)
  {
    EntriesHaveStatuses(peers);
    if p :| p in peers && p.key == key {
      var i :| 0 <= i < |peers| && peers[i] == p;
      assert KeysOf(peers)[i] == key;
    }
    if key in KeysOf(peers) {
      var i :| 0 <= i < |peers| && KeysOf(peers)[i] == key;
      assert peers[i] in peers;
    }
  }

  lemma ReleaseKeepsInv(s: Node, key: PeerKey)
    requires Inv(s)
    ensures Inv(ReleaseStep(s, key))
  {
    MarkInactiveKeepsQuiet(s.peers, key);
    MarkInactiveEffect(s.peers, key);
    MarkInactiveEffect(s.staged, key);
    ReleaseConsistent(Statuses(s.peers), Statuses(s.staged), s.connections, key);
  }

  lemma ReleaseConsistent(active: map<PeerKey, PeerStatus>, staged: map<PeerKey, PeerStatus>, connections: set<PeerKey>,
                          key: PeerKey)
    requires Consistent(active, staged, connections)
    ensures Consistent(Ended(active, key), Ended(staged, key), connections - {key})
  {
    EndedEffect(active, key);
    EndedEffect(staged, key);
    SubsetSize((connections - {key}) - active.Keys, connections - active.Keys);
  }

  lemma EndedEffect(statuses: map<PeerKey, PeerStatus>, key: PeerKey)
    ensures Ended(statuses, key).Keys == statuses.Keys
    ensures forall k | k in statuses :: Ended(statuses, key)[k] == Active <==> k != key && statuses[k] == Active
    ensures forall k | k in statuses :: Ended(statuses, key)[k] == Banned <==> statuses[k] == Banned
  {
  }

  lemma SetAddressKeepsInv(s: Node, key: PeerKey, address: Address)
    requires Inv(s)
    ensures Inv(SetAddressStep(s, key, address))
  {
    OverridesEffect(s.peers, s.overrides[key := address]);
    OverridesEffect(s.staged, s.overrides[key := address]);
    OverridesKeepQuiet(s.peers, s.overrides[key := address]);
  }

  lemma CancelKeepsInv(s: Node)
    requires Inv(s)
    ensures Inv(CancelStep(s))
  {
  }

  lemma StepKeepsInv(s: Node, event: Event)
    requires Inv(s)
    ensures Inv(Step(s, event))
  {
    match event
    case Begin(target) => BeginKeepsInv(s, target);
    case Cancel => CancelKeepsInv(s);
    case Activate => ActivateKeepsInv(s);
    case Claim(key, seen) => ClaimKeepsInv(s, key, seen);
    case Release(key) => ReleaseKeepsInv(s, key);
    case SetAddress(key, address) => SetAddressKeepsInv(s, key, address);
  }

  lemma {:induction false} RunKeepsInv(s: Node, events: seq<Event>)
    requires Inv(s)
    ensures Inv(Run(s, events))
  {
    if events != [] {
      RunKeepsInv(s, events[..|events| - 1]);
      StepKeepsInv(Run(s, events[..|events| - 1]), events[|events| - 1]);
    }
  }

  /**
   * From any start, in whatever order the locked sections run: an Active entry has a connection, a key whose first
   * entry is Banned has none, at most sixteen connections are outside the active table, and a table that starts with
   * one entry a key keeps one.
   */
  lemma EveryReachableStateIsSafe(start: Node, events: seq<Event>)
    requires IsFresh(start)
    ensures var s := Run(start, events);
            && (forall p | p in s.peers + s.staged && p.status == Active :: p.key in s.connections)
            && (forall key | BannedFirst(s.peers, key) :: key !in s.connections)
            && |s.Provisional()| <= MAX_PROVISIONAL_CONNECTIONS
            && UniqueKeys(s.staged) && (UniqueKeys(start.peers) ==> UniqueKeys(s.peers))
  {
    FreshIsSafe(start);
    RunKeepsInv(start, events);
    InvOnEntries(Run(start, events));
    if UniqueKeys(start.peers) {
      RunKeepsUnique(start, events);
    }
  }

  lemma {:induction false} RunKeepsUnique(s: Node, events: seq<Event>)
    requires Inv(s) && UniqueKeys(s.peers)
    ensures UniqueKeys(Run(s, events).peers)
  {
    if events != [] {
      RunKeepsInv(s, events[..|events| - 1]);
      RunKeepsUnique(s, events[..|events| - 1]);
      StepKeepsUnique(Run(s, events[..|events| - 1]), events[|events| - 1]);
    }
  }

  lemma StepKeepsUnique(s: Node, event: Event)
    requires UniqueKeys(s.staged) && UniqueKeys(s.peers)
    ensures UniqueKeys(Step(s, event).peers)
  {
    if !event.Activate? {
      OnlyActivationChangesTheTable(s, event);
    }
  }

  /** Every step but an activation keeps the bans. */
  lemma StepKeepsBans(s: Node, event: Event)
    requires !event.Activate?
    ensures SameBans(s.peers, Step(s, event).peers)
  {
    match event
    case Begin(_) =>
    case Cancel =>
    case Claim(key, seen) =>
      if ClaimStep(s, key, seen).1.Ok? {
        ClaimKeepsBans(s, key, seen);
      }
    case Release(key) => MarkInactiveKeepsBans(s.peers, key);
    case SetAddress(key, address) => OverridesKeepBans(s.peers, s.overrides[key := address]);
  }

  lemma StepKeepsBansLeading(s: Node, event: Event)
    requires UniqueKeys(s.staged) && BansLead(s.peers)
    ensures BansLead(Step(s, event).peers)
  {
    if event.Activate? {
      UniqueBansLead(s.staged);
    } else {
      StepKeepsBans(s, event);
      SameBansLead(s.peers, Step(s, event).peers);
    }
  }

  ghost predicate SameBans(a: seq<Peer>, b: seq<Peer>) {
    forall key :: (BannedIn(a, key) <==> BannedIn(b, key)) && (BannedFirst(a, key) <==> BannedFirst(b, key))
  }

  lemma SameBansLead(a: seq<Peer>, b: seq<Peer>)
    requires SameBans(a, b)
    ensures BansLead(a) <==> BansLead(b)
  {
    LeadByKey(a);
    LeadByKey(b);
  }

  lemma LeadByKey(peers: seq<Peer>)
    ensures BansLead(peers) <==> forall key | BannedIn(peers, key) :: BannedFirst(peers, key)
  {
    if forall key | BannedIn(peers, key) :: BannedFirst(peers, key) {
      forall p | p in peers && p.status == Banned ensures BannedFirst(peers, p.key) {
        assert BannedIn(peers, p.key);
      }
    }
  }

  lemma OverridesKeepBans(peers: seq<Peer>, overrides: map<PeerKey, Address>)
    ensures SameBans(peers, ApplyOverrides(peers, overrides))
  {
    var after := ApplyOverrides(peers, overrides);
    OverridesEffect(peers, overrides);
    forall key ensures BannedIn(peers, key) <==> BannedIn(after, key) {
      if p :| p in peers && p.key == key && p.status == Banned {
        var i :| 0 <= i < |peers| && peers[i] == p;
        assert after[i] in after && after[i].key == key && after[i].status == Banned;
      }
      if p :| p in after && p.key == key && p.status == Banned {
        var i :| 0 <= i < |after| && after[i] == p;
        assert peers[i] in peers && peers[i].key == key && peers[i].status == Banned;
      }
    }
  }

  lemma MarkInactiveKeepsBans(peers: seq<Peer>, key: PeerKey)
    ensures SameBans(peers, MarkInactive(peers, key))
  {
    StatusIsLookup(peers, key);
    MarkInactiveEffect(peers, key);
    if Lookup(peers, key).Some? && Lookup(peers, key).value.status.Active? {
      ReplaceKeepsBans(peers, key, Lookup(peers, key).value.(status := Inactive));
    }
  }

  lemma MarkActiveKeepsBans(peers: seq<Peer>, key: PeerKey, seen: Option<Address>)
    requires !BannedFirst(peers, key)
    ensures SameBans(peers, MarkActive(peers, key, seen))
  {
    StatusIsLookup(peers, key);
    MarkActiveEffect(peers, key, seen);
    if Lookup(peers, key).Some? {
      ReplaceKeepsBans(peers, key, Lookup(peers, key).value.(status := Active).Observed(seen));
    }
  }

  lemma ClaimKeepsBans(s: Node, key: PeerKey, seen: Option<Address>)
    requires ClaimStep(s, key, seen).1.Ok?
    ensures SameBans(s.peers, ClaimStep(s, key, seen).0.peers)
  {
    ClaimedPeers(s, key, seen);
    MarkActiveKeepsBans(s.peers, key, seen);
    OverridesKeepBans(MarkActive(s.peers, key, seen), s.overrides);
  }

  lemma {:induction false} RunKeepsBansLeading(s: Node, events: seq<Event>)
    requires Inv(s) && BansLead(s.peers)
    ensures BansLead(Run(s, events).peers)
  {
    if events != [] {
      RunKeepsInv(s, events[..|events| - 1]);
      RunKeepsBansLeading(s, events[..|events| - 1]);
      StepKeepsBansLeading(Run(s, events[..|events| - 1]), events[|events| - 1]);
    }
  }

  /**
   * In every run no Banned entry has a connection, exactly when the table starts with its bans leading: where another
   * entry of a banned key comes first, one claim connects the key.
   */
  lemma BansHoldExactly(start: Node)
    requires IsFresh(start)
    ensures (forall events :: NoBannedConnected(Run(start, events))) <==> BansLead(start.peers)
  {
    FreshIsSafe(start);
    if BansLead(start.peers) {
      forall events ensures NoBannedConnected(Run(start, events)) {
        LeadingBansHold(start, events);
      }
    } else {
      var p :| p in start.peers && p.status == Banned && !BannedFirst(start.peers, p.key);
      HiddenBanConnects(start, p);
    }
  }

  /** Told from the table a restart is given: every banned key but the local one is banned by its first entry. */
  lemma BansLeadAtRestart(local: PeerKey, known: seq<Peer>, coordinator: Option<PeerKey>)
    ensures BansLead(Restart(local, WithLocalPeer(local, known), coordinator)) <==>
              forall p | p in known && p.status == Banned && p.key != local :: BannedFirst(known, p.key)
  {
    var all := WithLocalPeer(local, known);
    LocalIsKnown(local, known);
    RestartedBans(local, all, coordinator);
    forall p | p in known && p.key != local
      ensures p in all && (BannedFirst(all, p.key) <==> BannedFirst(known, p.key))
    {
      if all != known {
        HeadEffect(all[0], known);
      }
    }
    LeadByOthers(local, all, Restart(local, all, coordinator));
  }

  lemma LeadByOthers(local: PeerKey, all: seq<Peer>, restarted: seq<Peer>)
    requires forall key :: BannedFirst(restarted, key) <==> key != local && BannedFirst(all, key)
    requires forall key :: BannedIn(restarted, key) <==> key != local && BannedIn(all, key)
    ensures BansLead(restarted) <==>
              forall p | p in all && p.status == Banned && p.key != local :: BannedFirst(all, p.key)
  {
    LeadByKey(restarted);
    if BansLead(restarted) {
      forall p | p in all && p.status == Banned && p.key != local ensures BannedFirst(all, p.key) {
        assert BannedIn(all, p.key);
      }
    }
  }

  lemma {:induction false} RestartedBans(local: PeerKey, peers: seq<Peer>, coordinator: Option<PeerKey>)
    ensures forall key ::
              BannedFirst(Restart(local, peers, coordinator), key) <==> key != local && BannedFirst(peers, key)
    ensures forall key :: BannedIn(Restart(local, peers, coordinator), key) <==> key != local && BannedIn(peers, key)
  {
    if peers != [] {
      var head, rest := Restarted(peers[0], local, Some(peers[0].key) == coordinator), peers[1..];
      RestartedBans(local, rest, coordinator);
      assert Restart(local, peers, coordinator) == [head] + Restart(local, rest, coordinator);
      BansOfHead(head, Restart(local, rest, coordinator));
      BansOfHead(peers[0], rest);
      assert peers == [peers[0]] + rest;
    }
  }

  lemma BansOfHead(head: Peer, rest: seq<Peer>)
    ensures forall key ::
              BannedIn([head] + rest, key) <==> (head.key == key && head.status == Banned) || BannedIn(rest, key)
    ensures forall key :: BannedFirst([head] + rest, key) <==>
              if head.key == key then head.status == Banned else BannedFirst(rest, key)
  {
    HeadEffect(head, rest);
    assert forall p :: p in [head] + rest <==> p == head || p in rest;
  }

  lemma LeadingBansHold(s: Node, events: seq<Event>)
    requires Inv(s) && BansLead(s.peers)
    ensures NoBannedConnected(Run(s, events))
  {
    RunKeepsInv(s, events);
    RunKeepsBansLeading(s, events);
    InvOnEntries(Run(s, events));
  }

  ghost predicate NoBannedConnected(s: Node) {
    forall p | p in s.peers && p.status == Banned :: p.key !in s.connections
  }

  lemma HiddenBanConnects(s: Node, p: Peer)
    requires s.connections == {} && forall q | q in s.peers :: q.status != Active
    requires p in s.peers && p.status == Banned && !BannedFirst(s.peers, p.key)
    ensures !NoBannedConnected(Run(s, [Claim(p.key, None)]))
  {
    StatusIsLookup(s.peers, p.key);
    EntriesHaveStatuses(s.peers);
    assert ClaimStep(s, p.key, None).1.Ok?;
    ClaimKeepsBans(s, p.key, None);
    assert [Claim(p.key, None)][..0] == [] && Run(s, [Claim(p.key, None)]) == ClaimStep(s, p.key, None).0;
    assert BannedIn(s.peers, p.key);
  }

  /** Only an activation changes who is in the active table. */
  lemma OnlyActivationChangesTheTable(s: Node, event: Event)
    requires !event.Activate?
    ensures KeysOf(Step(s, event).peers) == KeysOf(s.peers)
  {
    match event
    case Begin(_) =>
    case Cancel =>
    case Claim(key, seen) =>
      if ClaimStep(s, key, seen).1.Ok? {
        ClaimEffect(s, key, seen);
      }
    case Release(key) => MarkInactiveEffect(s.peers, key);
    case SetAddress(key, address) => OverridesEffect(s.peers, s.overrides[key := address]);
  }

  // ----- Activation -----

  predicate DistinctIdentities(staged: seq<Peer>) {
    forall i, j | 0 <= i < j < |staged| :: staged[i].key.x != staged[j].key.x
  }

  /** Counting identities tells whether they are pairwise different. */
  lemma {:induction false} CountTellsDistinct(staged: seq<Peer>)
    ensures CountUnique(staged) == |staged| <==> DistinctIdentities(staged)
    ensures CountUnique(staged) <= |staged|
  {
    if staged != [] {
      var rest := staged[1..];
      CountTellsDistinct(rest);
      assert staged == [staged[0]] + rest;
      assert ToSet(staged) == ToSet(rest) + {staged[0]};
      assert IdentitiesIn(ToSet(staged)) == IdentitiesIn(ToSet(rest)) + {staged[0].key.x};
      HeadDistinct(staged);
    }
  }

  lemma HeadDistinct(staged: seq<Peer>)
    requires staged != []
    ensures DistinctIdentities(staged) <==>
            DistinctIdentities(staged[1..]) && staged[0].key.x !in IdentitiesIn(ToSet(staged[1..]))
  {
    var rest := staged[1..];
    if staged[0].key.x in IdentitiesIn(ToSet(rest)) {
      var p :| p in rest && p.key.x == staged[0].key.x;
      var j :| 0 <= j < |rest| && rest[j] == p;
      assert staged[j + 1].key.x == staged[0].key.x;
    } else {
      forall j | 0 < j < |staged| ensures staged[j].key.x != staged[0].key.x {
        assert staged[j] in rest;
      }
    }
  }

  /** With distinct identities, the chosen entries cover every identity only if all entries are chosen. */
  lemma CoverAll(staged: seq<Peer>, chosen: set<Peer>)
    requires DistinctIdentities(staged) && forall p | p in chosen :: p in staged
    ensures IdentitiesIn(chosen) == IdentitiesIn(ToSet(staged)) <==> forall p | p in staged :: p in chosen
  {
    if IdentitiesIn(chosen) == IdentitiesIn(ToSet(staged)) {
      forall p | p in staged ensures p in chosen {
        assert p.key.x in IdentitiesIn(ToSet(staged));
        var q :| q in chosen && q.key.x == p.key.x;
        SameIdentitySameEntry(staged, p, q);
      }
    }
    if forall p | p in staged :: p in chosen {
      assert chosen == ToSet(staged);
    }
  }

  lemma SameIdentitySameEntry(staged: seq<Peer>, p: Peer, q: Peer)
    requires DistinctIdentities(staged) && p in staged && q in staged && p.key.x == q.key.x
    ensures p == q
  {
    var i :| 0 <= i < |staged| && staged[i] == p;
    var j :| 0 <= j < |staged| && staged[j] == q;
  }

  /** The staged table names each member once, by whatever key. */
  ghost predicate NamesEachMemberOnce(s: Node) {
    && s.members.Some? && DistinctIdentities(s.staged)
    && forall x :: x in s.members.value <==> exists p :: p in s.staged && p.key.x == x
  }

  lemma MatchesIsOnce(s: Node)
    ensures s.TableMatchesMembers() <==> NamesEachMemberOnce(s)
  {
    CountTellsDistinct(s.staged);
    if NamesEachMemberOnce(s) {
      assert s.Identities() == s.members.value;
    }
  }

  lemma ReadyIsConnected(s: Node)
    ensures s.Ready() <==> NamesEachMemberOnce(s) && forall p | p in s.staged :: p.key == s.local || p.status == Active
  {
    MatchesIsOnce(s);
    if NamesEachMemberOnce(s) {
      var chosen := set p | p in s.staged && (p.key == s.local || p.status == Active);
      CoverAll(s.staged, chosen);
    }
  }

  lemma CompleteIsAddressed(s: Node)
    ensures s.TableComplete() <==> NamesEachMemberOnce(s) && forall p | p in s.staged :: p.address.Some?
  {
    MatchesIsOnce(s);
    if NamesEachMemberOnce(s) {
      var chosen := set p | p in s.staged && p.address.Some?;
      CoverAll(s.staged, chosen);
    }
  }

  /**
   * An activation succeeds exactly when one key per member is staged, all connected or (local node leaving) all with
   * addresses.
   */
  lemma ActivationIsExact(s: Node)
    ensures ActivateStep(s).1.Ok? <==>
              && NamesEachMemberOnce(s)
              && ((forall p | p in s.staged :: p.key == s.local || p.status == Active)
                  || (s.local.x !in s.members.value && forall p | p in s.staged :: p.address.Some?))
  {
    MatchesIsOnce(s);
    ReadyIsConnected(s);
    CompleteIsAddressed(s);
  }

  /** What it installs: the staged table, its bans unchanged, with no connection outside it. */
  lemma ActivationInstallsTheStagedSet(s: Node)
    requires Inv(s) && ActivateStep(s).1.Ok?
    ensures var after := ActivateStep(s).0;
            && after.peers == s.staged && after.members.None? && after.staged == []
            && after.connections == s.connections * Statuses(after.peers).Keys
            && (forall p | p in after.peers && p.status == Active :: p.key in after.connections)
            && (forall p | p in after.peers :: p.status == Banned <==> BannedFirst(s.peers, p.key))
            && (BansLead(s.peers) ==> forall p | p in after.peers :: p.status == Banned <==> BannedIn(s.peers, p.key))
  {
    ActivatedAreConnected(s);
    forall p | p in s.staged
      ensures p.status == Banned <==> BannedFirst(s.peers, p.key)
      ensures BansLead(s.peers) ==> (p.status == Banned <==> BannedIn(s.peers, p.key))
    {
      StagedBansAreBans(s, p);
      BannedIsEntry(s.peers, p.key);
    }
  }

  lemma ActivatedAreConnected(s: Node)
    requires Inv(s) && ActivateStep(s).1.Ok?
    ensures forall p | p in s.staged && p.status == Active :: p.key in ActivateStep(s).0.connections
  {
    ActivateKeepsInv(s);
    InvOnEntries(ActivateStep(s).0);
  }

  lemma StagedBansAreBans(s: Node, p: Peer)
    requires Inv(s) && p in s.staged
    ensures p.status == Banned <==> BannedFirst(s.peers, p.key)
  {
    EntriesHaveStatuses(s.staged);
  }

  /** A claim keeps the staged identities distinct unless it adds the other key of one already staged. */
  lemma ClaimKeepsIdentitiesDistinct(s: Node, key: PeerKey, seen: Option<Address>)
    requires s.IdentitiesValid() && ClaimStep(s, key, seen).1.Ok?
    ensures ClaimStep(s, key, seen).0.IdentitiesValid() <==>
              !(key !in Statuses(s.peers) && key !in Statuses(s.staged) && key.x in s.Identities())
  {
    ClaimedKeys(s, key, seen);
    ValidByKeys(s);
    ValidByKeys(ClaimStep(s, key, seen).0);
    if s.MigrationContains(key) {
      GrownKeysValid(KeysOf(s.staged), key, s.members.value);
    }
  }

  lemma ClaimedKeys(s: Node, key: PeerKey, seen: Option<Address>)
    requires ClaimStep(s, key, seen).1.Ok?
    ensures ClaimStep(s, key, seen).0.members == s.members
    ensures KeysOf(ClaimStep(s, key, seen).0.staged)
         == if key !in Statuses(s.peers) && s.MigrationContains(key) && key !in Statuses(s.staged)
             then KeysOf(s.staged) + [key] else KeysOf(s.staged)
  {
    ClaimEffect(s, key, seen);
  }

  lemma GrownKeysValid(keys: seq<PeerKey>, key: PeerKey, members: set<nat>)
    requires ValidKeys(keys, members) && key.x in members
    ensures ValidKeys(keys + [key], members) <==> key.x !in XSet(keys)
  {
    AppendedIdentities(keys, key);
  }

  predicate ValidKeys(keys: seq<PeerKey>, members: set<nat>) {
    |XSet(keys)| == |keys| && XSet(keys) <= members
  }

  lemma ValidByKeys(s: Node)
    ensures s.Identities() == XSet(KeysOf(s.staged))
    ensures s.IdentitiesValid() <==> s.members.Some? && ValidKeys(KeysOf(s.staged), s.members.value)
  {
    IdentitiesOfKeys(s.staged);
  }

  function XSet(keys: seq<PeerKey>): set<nat> {
    set k | k in keys :: k.x
  }

  lemma AppendedIdentities(keys: seq<PeerKey>, key: PeerKey)
    ensures XSet(keys + [key]) == XSet(keys) + {key.x}
  {
    assert forall k :: k in keys + [key] <==> k in keys || k == key;
  }

  lemma IdentitiesOfKeys(peers: seq<Peer>)
    ensures |KeysOf(peers)| == |peers|
    ensures IdentitiesIn(ToSet(peers)) == XSet(KeysOf(peers))
  {
    forall p | p in peers ensures p.key in KeysOf(peers) {
      var i :| 0 <= i < |peers| && peers[i] == p;
      assert KeysOf(peers)[i] == p.key;
    }
    forall k | k in KeysOf(peers) ensures exists p :: p in peers && p.key == k {
      var i :| 0 <= i < |peers| && KeysOf(peers)[i] == k;
      assert peers[i] in peers && peers[i].key == k;
    }
  }

  // ----- Two keys of one identity -----

  predicate Known(s: Node, key: PeerKey) {
    key in Statuses(s.peers) || key in Statuses(s.staged)
  }

  /** With nothing staged, a target is refused exactly when two known keys belong to one of its identities. */
  lemma StagingIsExact(s: Node, target: set<nat>)
    requires s.members.None?
    ensures BeginStep(s, target).1.Ok? <==>
              forall a, b | Known(s, a) && Known(s, b) && a.x == b.x && a.x in target :: a == b
  {
    var candidates := Candidates(s.peers, s.staged, target);
    CountTellsDistinct(candidates);
    forall key ensures key in KeysOf(candidates) <==> key.x in target && Known(s, key) {
      CandidateKeys(s, target, key);
    }
    if DistinctIdentities(candidates) {
      forall a, b | Known(s, a) && Known(s, b) && a.x == b.x && a.x in target ensures a == b {
        assert a in KeysOf(candidates) && b in KeysOf(candidates);
        var i :| 0 <= i < |candidates| && KeysOf(candidates)[i] == a;
        var j :| 0 <= j < |candidates| && KeysOf(candidates)[j] == b;
      }
    } else {
      CandidatesAreExact(s.peers, s.staged, target);
      var i, j :| 0 <= i < j < |candidates| && candidates[i].key.x == candidates[j].key.x;
      assert KeysOf(candidates)[i] in KeysOf(candidates) && KeysOf(candidates)[j] in KeysOf(candidates);
      assert KeysOf(candidates)[i] != KeysOf(candidates)[j];
    }
  }

  lemma CandidateKeys(s: Node, target: set<nat>, key: PeerKey)
    ensures key in KeysOf(Candidates(s.peers, s.staged, target)) <==> key.x in target && Known(s, key)
  {
    var candidates := Candidates(s.peers, s.staged, target);
    CandidatesAreExact(s.peers, s.staged, target);
    KeysOfStatuses(candidates, key);
    StatusIsLookup(candidates, key);
    StatusIsLookup(s.peers, key);
    StatusIsLookup(s.staged, key);
  }

  /** Staging leaves a valid table for its target. */
  lemma StagedIsValid(s: Node, target: set<nat>)
    requires s.members.None? && BeginStep(s, target).1.Ok?
    ensures BeginStep(s, target).0.IdentitiesValid()
  {
    var after := BeginStep(s, target).0;
    ValidByKeys(after);
    IdentitiesOfKeys(after.staged);
    forall x | x in XSet(KeysOf(after.staged)) ensures x in target {
      var key :| key in KeysOf(after.staged) && key.x == x;
      CandidateKeys(s, target, key);
    }
  }

  /** A node that knows itself and one peer stages a migration to that peer alone. */
  function TwoPeers(local: PeerKey, key: PeerKey): Node {
    StartFromPeers(local, [Peer(local, None, Inactive, false), Peer(key, None, Inactive, false)])
  }

  function Staged(local: PeerKey, key: PeerKey): Node {
    Step(TwoPeers(local, key), Begin({key.x}))
  }

  lemma TwoPeersStart(local: PeerKey, key: PeerKey)
    requires local.x != key.x
    ensures IsFresh(TwoPeers(local, key)) && TwoPeers(local, key).members.None?
            && TwoPeers(local, key).connections == {}
    ensures Statuses(TwoPeers(local, key).peers).Keys == {local, key} && Statuses(TwoPeers(local, key).staged) == map[]
  {
    var peers := [Peer(local, None, Inactive, false), Peer(key, None, Inactive, false)];
    var start := TwoPeers(local, key);
    assert KeysOf(peers) == [local, key] && WithLocalPeer(local, peers) == peers;
    assert start == StartFromPeers(start.local, peers);
    assert start.peers == [Peer(local, None, Controlled, false)] + [Peer(key, None, Inactive, false)];
    HeadEffect(start.peers[0], [start.peers[1]]);
    HeadEffect(start.peers[1], []);
  }

  lemma TwoPeersStage(local: PeerKey, key: PeerKey)
    requires local.x != key.x
    ensures Inv(Staged(local, key)) && Staged(local, key).IdentitiesValid()
    ensures Staged(local, key).members == Some({key.x}) && Staged(local, key).connections == {}
    ensures Statuses(Staged(local, key).peers).Keys == {local, key} && Statuses(Staged(local, key).staged).Keys == {key}
  {
    TwoPeersStart(local, key);
    FreshIsSafe(TwoPeers(local, key));
    OneIsStaged(TwoPeers(local, key), local, key);
  }

  lemma OneIsStaged(s: Node, local: PeerKey, key: PeerKey)
    requires local.x != key.x && s.members.None? && Inv(s)
    requires Statuses(s.peers).Keys == {local, key} && Statuses(s.staged) == map[]
    ensures var after := Step(s, Begin({key.x}));
            && Inv(after) && after.IdentitiesValid()
            && after.members == Some({key.x}) && after.connections == s.connections && after.peers == s.peers
            && Statuses(after.staged).Keys == {key}
  {
    var after := Step(s, Begin({key.x}));
    TwoPeersCanStage(s, local, key);
    StagingEffect(s, {key.x});
    StagingTouches(s, {key.x});
    forall k ensures k in Statuses(after.staged) <==> k == key {
      assert k in Statuses(after.staged) <==> k.x == key.x && Known(s, k);
    }
    assert Statuses(after.staged).Keys == {key};
  }

  lemma StagingTouches(s: Node, target: set<nat>)
    requires s.members.None? && BeginStep(s, target).1.Ok?
    ensures Step(s, Begin(target)) == s.(staged := Step(s, Begin(target)).staged, members := Some(target))
  {
  }

  lemma TwoPeersCanStage(s: Node, local: PeerKey, key: PeerKey)
    requires local.x != key.x && s.members.None?
    requires Statuses(s.peers).Keys == {local, key} && Statuses(s.staged) == map[]
    ensures BeginStep(s, {key.x}).1.Ok?
  {
    StagingIsExact(s, {key.x});
  }

  lemma StagingEffect(s: Node, target: set<nat>)
    requires Inv(s) && s.members.None? && BeginStep(s, target).1.Ok?
    ensures Inv(Step(s, Begin(target))) && Step(s, Begin(target)).IdentitiesValid()
    ensures forall key :: key in Statuses(Step(s, Begin(target)).staged) <==> key.x in target && Known(s, key)
  {
    BeginKeepsInv(s, target);
    StagedIsValid(s, target);
    forall key ensures key in Statuses(BeginStep(s, target).0.staged) <==> key.x in target && Known(s, key) {
      CandidateKeys(s, target, key);
      KeysOfStatuses(BeginStep(s, target).0.staged, key);
    }
  }

  lemma IsIdentity(s: Node, key: PeerKey)
    requires key in Statuses(s.staged)
    ensures key.x in s.Identities()
  {
    KeysOfStatuses(s.staged, key);
    IdentitiesOfKeys(s.staged);
  }

  /** What a claim by the other key of a staged identity leaves behind. */
  lemma OtherKeyInvalidates(s: Node, key: PeerKey, other: PeerKey, seen: Option<Address>)
    requires s.members == Some({key.x}) && s.IdentitiesValid() && key in Statuses(s.staged)
    requires other.x == key.x && other != key && !Known(s, other) && ClaimStep(s, other, seen).1.Ok?
    ensures var after := ClaimStep(s, other, seen).0;
            && !after.IdentitiesValid()
            && ActivateStep(after).1 == Err(InvalidMigrationPeerTable)
            && BeginStep(CancelStep(after), {key.x}).1 == Err(InvalidMigrationPeerTable)
  {
    OtherKeyAdds(s, key, other, seen);
    InvalidIsRefused(ClaimStep(s, other, seen).0);
    BothKeysKnown(s, key, other, seen);
    TwinsCannotBeStaged(CancelStep(ClaimStep(s, other, seen).0), key, other, {key.x});
  }

  lemma OtherKeyAdds(s: Node, key: PeerKey, other: PeerKey, seen: Option<Address>)
    requires s.IdentitiesValid() && key in Statuses(s.staged)
    requires other.x == key.x && !Known(s, other) && ClaimStep(s, other, seen).1.Ok?
    ensures !ClaimStep(s, other, seen).0.IdentitiesValid() && ClaimStep(s, other, seen).0.members == s.members
  {
    IsIdentity(s, key);
    ClaimKeepsIdentitiesDistinct(s, other, seen);
  }

  lemma InvalidIsRefused(s: Node)
    requires s.members.Some? && !s.IdentitiesValid()
    ensures ActivateStep(s).1 == Err(InvalidMigrationPeerTable)
  {
  }

  lemma TwinsCannotBeStaged(s: Node, key: PeerKey, other: PeerKey, target: set<nat>)
    requires s.members.None? && Known(s, key) && Known(s, other) && key != other && key.x == other.x && key.x in target
    ensures BeginStep(s, target).1 == Err(InvalidMigrationPeerTable)
  {
    StagingIsExact(s, target);
  }

  /**
   * In a reachable state, a member's other key connects to a staged migration: the staged table is then invalid,
   * activation is refused, and so is staging the same target again after a cancellation.
   */
  lemma OtherKeyBlocksMigration(local: PeerKey, key: PeerKey, seen: Option<Address>)
    requires local.x != key.x
    ensures var staged, other := Run(TwoPeers(local, key), [Begin({key.x})]), PeerKey(!key.odd, key.x);
            var claim := ClaimStep(staged, other, seen);
            && IsFresh(TwoPeers(local, key)) && Inv(staged) && staged.IdentitiesValid()
            && claim.1.Ok? && !claim.0.IdentitiesValid()
            && ActivateStep(claim.0).1 == Err(InvalidMigrationPeerTable)
            && BeginStep(CancelStep(claim.0), {key.x}).1 == Err(InvalidMigrationPeerTable)
  {
    var staged, other := Staged(local, key), PeerKey(!key.odd, key.x);
    TwoPeersStart(local, key);
    TwoPeersStage(local, key);
    assert [Begin({key.x})][..0] == [] && Run(TwoPeers(local, key), [Begin({key.x})]) == staged;
    StatusIsLookup(staged.peers, other);
    StatusIsLookup(staged.staged, other);
    assert staged.Provisional() == {};
    OtherKeyInvalidates(staged, key, other, seen);
  }

  lemma BothKeysKnown(s: Node, key: PeerKey, other: PeerKey, seen: Option<Address>)
    requires ClaimStep(s, other, seen).1.Ok? && s.MigrationContains(other) && key in Statuses(s.staged)
    ensures Known(CancelStep(ClaimStep(s, other, seen).0), key) && Known(CancelStep(ClaimStep(s, other, seen).0), other)
  {
    ClaimEffect(s, other, seen);
  }
}
