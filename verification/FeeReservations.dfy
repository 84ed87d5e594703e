/** Which fee coins are held for which request, over every run of the request queue. */
module FeeReservations {
  import opened Bytes
  import opened Prelude
  import opened UserRequests

  datatype Event =
    | Insert(hash: nat, request: seq<Byte>, height: nat, utxos: seq<FeeUtxo>)
    | Observe(seen: nat, request: seq<Byte>, height: nat, payload: seq<Byte>)
    | MarkProcessing(issued: nat, payload: seq<Byte>, executionTx: seq<Byte>)
    | MarkIncluded(confirmed: nat, height: nat, blockHash: nat)
    | MarkOrphaned(orphan: nat)
    | MarkExecuted(done: nat)
    | MarkFailed(refused: nat, reason: seq<Byte>)
    | ResetChain

  function Step(s: Store, event: Event): Store {
    match event
    case Insert(hash, request, height, utxos) => InsertStep(s, hash, request, height, utxos).0
    case Observe(hash, request, height, payload) => ObserveStep(s, hash, request, height, payload).0
    case MarkProcessing(hash, payload, executionTx) => ProcessingStep(s, hash, payload, executionTx).0
    case MarkIncluded(hash, height, blockHash) => IncludedStep(s, hash, height, blockHash).0
    case MarkOrphaned(hash) => OrphanedStep(s, hash).0
    case MarkExecuted(hash) => ExecutedStep(s, hash).0
    case MarkFailed(hash, reason) => FailedStep(s, hash, reason).0
    case ResetChain => ResetStep(s)
  }

  /** The coins each accepted request named. */
  type Accepted = map<nat, set<FeeUtxo>>

  function Note(accepted: Accepted, s: Store, event: Event): Accepted {
    if event.Insert? && InsertStep(s, event.hash, event.request, event.height, event.utxos).1 == Ok(Inserted)
    then accepted[event.hash := ToSet(event.utxos)] else accepted
  }

  /** The store after a run, and what the run accepted. */
  function Run(events: seq<Event>): (Store, Accepted) {
    if events == [] then (Store(map[], map[]), map[])
    else
      var (s, accepted) := Run(events[..|events| - 1]);
      (Step(s, events[|events| - 1]), Note(accepted, s, events[|events| - 1]))
  }

  /** An insert is accepted exactly for a new request whose coins are all free and all different. */
  lemma {:induction false} InsertIsExact(s: Store, hash: nat, request: seq<Byte>, height: nat, utxos: seq<FeeUtxo>)
    ensures InsertStep(s, hash, request, height, utxos).1 == Ok(Inserted) <==>
              height <= I64_MAX && hash !in s.requests && NoDuplicates(utxos) && forall utxo | utxo in utxos ::
                  utxo !in s.fees
    ensures forall utxo :: InsertStep(s, hash, request, height, utxos).1 == Ok(FeeUtxoReserved(utxo)) ==>
              utxo in s.fees || exists i, j :: 0 <= i < j < |utxos| && utxos[i] == utxos[j] == utxo
  {
    ReserveIsExact(s.fees, hash, utxos);
    if Reserve(s.fees, hash, utxos).Err? && Reserve(s.fees, hash, utxos).error !in s.fees {
      RepeatedCoin(s.fees, hash, utxos);
    }
  }

  lemma {:induction false} ReserveIsExact(fees: Reservations, hash: nat, utxos: seq<FeeUtxo>)
    ensures Reserve(fees, hash, utxos).Ok? <==> NoDuplicates(utxos) && forall utxo | utxo in utxos :: utxo !in fees
    ensures var r := Reserve(fees, hash, utxos);
            r.Ok? ==>
              && r.value.Keys == fees.Keys + ToSet(utxos)
              && forall utxo | utxo in r.value :: r.value[utxo] == if utxo in utxos then hash else fees[utxo]
    decreases |utxos|
  {
    if utxos != [] && utxos[0] !in fees {
      var rest := utxos[1..];
      ReserveIsExact(fees[utxos[0] := hash], hash, rest);
      assert utxos == [utxos[0]] + rest;
      if Reserve(fees, hash, utxos).Ok? {
        assert utxos[0] !in rest;
      }
    }
  }

  lemma {:induction false} RepeatedCoin(fees: Reservations, hash: nat, utxos: seq<FeeUtxo>)
    requires Reserve(fees, hash, utxos).Err? && Reserve(fees, hash, utxos).error !in fees
    ensures exists i, j :: 0 <= i < j < |utxos| && utxos[i] == utxos[j] == Reserve(fees, hash, utxos).error
    decreases |utxos|
  {
    var taken := Reserve(fees, hash, utxos).error;
    var rest := utxos[1..];
    var grown := fees[utxos[0] := hash];
    if taken == utxos[0] {
      TakenIsNamed(grown, hash, rest);
      var j :| 0 <= j < |rest| && rest[j] == taken;
      assert utxos[0] == utxos[j + 1] == taken;
    } else {
      RepeatedCoin(grown, hash, rest);
      var i, j :| 0 <= i < j < |rest| && rest[i] == rest[j] == taken;
      assert utxos[i + 1] == utxos[j + 1] == taken;
    }
  }

  lemma {:induction false} TakenIsNamed(fees: Reservations, hash: nat, utxos: seq<FeeUtxo>)
    requires Reserve(fees, hash, utxos).Err?
    ensures Reserve(fees, hash, utxos).error in utxos
    decreases |utxos|
  {
    if utxos[0] !in fees {
      TakenIsNamed(fees[utxos[0] := hash], hash, utxos[1..]);
    }
  }

  // ----- The invariant -----

  function Holdings(s: Store, hash: nat): set<FeeUtxo> {
    set utxo | utxo in s.fees && s.fees[utxo] == hash
  }

  /** While a request is open it holds exactly the coins it named; once executed or failed it holds none. */
  predicate HoldsItsFees(s: Store, accepted: Accepted, hash: nat) {
    hash in accepted ==>
      && hash in s.requests
      && Holdings(s, hash) == if s.requests[hash].status.Open() then accepted[hash] else {}
  }

  ghost predicate Inv(s: Store, accepted: Accepted) {
    && (forall hash :: HoldsItsFees(s, accepted, hash))
    && forall utxo | utxo in s.fees :: s.fees[utxo] in accepted
  }

  lemma ReleaseEffect(s: Store, hash: nat, other: nat)
    ensures Holdings(Store(s.requests, Released(s.fees, hash)), other) == if other == hash then {}
            else Holdings(s, other)
  {
  }

  lemma InsertKeepsInv(s: Store, accepted: Accepted, event: Event)
    requires Inv(s, accepted) && event.Insert?
    ensures Inv(Step(s, event), Note(accepted, s, event))
  {
    if InsertStep(s, event.hash, event.request, event.height, event.utxos).1 == Ok(Inserted) {
      ReserveIsExact(s.fees, event.hash, event.utxos);
      var after := Step(s, event);
      forall hash ensures HoldsItsFees(after, Note(accepted, s, event), hash) {
        assert HoldsItsFees(s, accepted, hash);
        assert HoldsItsFees(s, accepted, event.hash);
        if hash == event.hash {
          assert Holdings(after, hash) == ToSet(event.utxos);
        } else {
          assert Holdings(after, hash) == Holdings(s, hash);
        }
      }
    }
  }

  /** The events that drop a request's reservations. */
  function Dropped(s: Store, event: Event): Option<nat> {
    match event
    case MarkExecuted(hash) => if ExecutedStep(s, hash).1 then Some(hash) else None
    case MarkFailed(hash, reason) => if FailedStep(s, hash, reason).1 then Some(hash) else None
    case _ => None
  }

  /** What any other event does to one request: its coins stay unless it closes, and it never reopens. */
  lemma EventEffect(s: Store, event: Event, hash: nat)
    requires !event.Insert? && hash in s.requests
    ensures hash in Step(s, event).requests
    ensures StatusMoves(s.requests[hash].status, Step(s, event).requests[hash].status)
    ensures Holdings(Step(s, event), hash) == if Dropped(s, event) == Some(hash) then {} else Holdings(s, hash)
    ensures Dropped(s, event) == Some(hash) <==>
            s.requests[hash].status.Open() && !Step(s, event).requests[hash].status.Open()
  {
    if Dropped(s, event).Some? {
      ReleaseEffect(s, Dropped(s, event).value, hash);
    }
  }

  lemma EventKeepsInv(s: Store, accepted: Accepted, event: Event)
    requires Inv(s, accepted) && !event.Insert?
    ensures Inv(Step(s, event), accepted)
  {
    forall hash ensures HoldsItsFees(Step(s, event), accepted, hash) {
      assert HoldsItsFees(s, accepted, hash);
      if hash in accepted {
        EventEffect(s, event, hash);
      }
    }
  }

  /** In every reachable state an accepted request holds exactly its fee coins while open, and none afterwards. */
  lemma {:induction false} ReservationsAreExact(events: seq<Event>)
    ensures Inv(Run(events).0, Run(events).1)
  {
    if events == [] {
      assert forall hash :: HoldsItsFees(Run(events).0, Run(events).1, hash);
    } else {
      ReservationsAreExact(events[..|events| - 1]);
      var (s, accepted) := Run(events[..|events| - 1]);
      var event := events[|events| - 1];
      if event.Insert? {
        InsertKeepsInv(s, accepted, event);
      } else {
        EventKeepsInv(s, accepted, event);
      }
    }
  }

  /** No coin pays for two open requests. */
  lemma OpenRequestsShareNoCoin(events: seq<Event>, a: nat, b: nat)
    requires var (s, accepted) := Run(events);
             && a in accepted && b in accepted && a != b && a in s.requests && b in s.requests
             && s.requests[a].status.Open() && s.requests[b].status.Open()
    ensures Run(events).1[a] * Run(events).1[b] == {}
  {
    ReservationsAreExact(events);
    var (s, accepted) := Run(events);
    assert HoldsItsFees(s, accepted, a) && HoldsItsFees(s, accepted, b);
    forall utxo | utxo in accepted[a] ensures utxo !in accepted[b] {
      assert utxo in Holdings(s, a) && utxo !in Holdings(s, b);
    }
  }

  // ----- The life of a request -----

  predicate StatusMoves(from: Status, to: Status) {
    match from
    case Pending => to.Pending? || to.Processing? || to.Failed?
    case Processing => to.Processing? || to.Included?
    case Included => to.Included? || to.Processing? || to.Executed?
    case _ => to == from
  }

  lemma StatusesMove(s: Store, event: Event, hash: nat)
    requires hash in s.requests
    ensures hash in Step(s, event).requests
    ensures StatusMoves(s.requests[hash].status, Step(s, event).requests[hash].status)
  {
    if !event.Insert? {
      EventEffect(s, event, hash);
    }
  }

  function RunFrom(s: Store, events: seq<Event>): Store
    decreases |events|
  {
    if events == [] then s else RunFrom(Step(s, events[0]), events[1..])
  }

  /** An executed or failed request stays so, and its hash is never accepted again. */
  lemma {:induction false} ClosedIsTerminal(s: Store, events: seq<Event>, hash: nat)
    requires hash in s.requests && !s.requests[hash].status.Open()
    ensures hash in RunFrom(s, events).requests && RunFrom(s, events).requests[hash].status == s.requests[hash].status
    ensures forall request, height, utxos ::
            InsertStep(RunFrom(s, events), hash, request, height, utxos).1 != Ok(Inserted)
    decreases |events|
  {
    if events != [] {
      StatusesMove(s, events[0], hash);
      ClosedIsTerminal(Step(s, events[0]), events[1..], hash);
    }
  }

  /** Every stored height fits the column, so a walk over a reachable queue never fails on its cursor. */
  lemma {:induction false} HeightsAreStored(events: seq<Event>)
    ensures StoredHeights(Run(events).0.requests)
  {
    if events != [] {
      HeightsAreStored(events[..|events| - 1]);
    }
  }

  /** The paged walk over a reachable queue, with no assumption left; without a stop or a bound it reads it all. */
  method WalkReachable(store: UserRequestStore, ghost events: seq<Event>, limit: nat, hopeless: set<nat>,
                       reason: seq<Byte>, stops: (seq<Key>, Key) -> bool, bound: nat := MAX_PENDING_SCAN)
    returns (visited: seq<Key>)
    requires limit >= 1 && store.Contents() == Run(events).0
    modifies store
    ensures visited <= Queue(old(store.requests), None) && Clear(visited, stops)
    ensures var queue := Queue(old(store.requests), None);
            visited == queue || |visited| >= bound || StopsAt(queue, visited, stops)
    ensures |Queue(old(store.requests), None)| < bound && (forall seen, key :: !stops(seen, key)) ==>
              visited == Queue(old(store.requests), None)
    ensures store.requests == Failing(old(store.requests), visited, hopeless, reason)
    ensures store.fees == Freed(old(store.fees), visited, hopeless)
  {
    HeightsAreStored(events);
    visited := store.WalkPending(limit, hopeless, reason, stops, bound);
  }
}
