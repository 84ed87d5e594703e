/** What becomes of a user request over every run: its status graph, its contents, and its place in the queue. */
module RequestLaws {
  import opened Bytes
  import opened Prelude
  import opened Sorting
  import opened UserRequests
  import opened FeeReservations

  // ----- The status graph -----

  /** The request an event is about; a chain reset is about all. */
  function About(event: Event): Option<nat> {
    match event
    case Insert(hash, _, _, _) => Some(hash)
    case Observe(hash, _, _, _) => Some(hash)
    case MarkProcessing(hash, _, _) => Some(hash)
    case MarkIncluded(hash, _, _) => Some(hash)
    case MarkOrphaned(hash) => Some(hash)
    case MarkExecuted(hash) => Some(hash)
    case MarkFailed(hash, _) => Some(hash)
    case ResetChain => None
  }

  /** Where the event takes a stored request of the given status. */
  function Target(from: Status, event: Event): Status {
    match (from, event)
    case (Pending, MarkProcessing(_, _, _)) => Processing
    case (Pending, MarkFailed(_, _)) => Failed
    case (Processing, MarkIncluded(_, height, _)) => if height <= I64_MAX then Included else Processing
    case (Included, MarkOrphaned(_)) => Processing
    case (Included, ResetChain) => Processing
    case (Included, MarkExecuted(_)) => Executed
    case _ => from
  }

  predicate Concerns(event: Event, hash: nat) {
    About(event).None? || About(event) == Some(hash)
  }

  /** Every event moves a stored request along the graph, and leaves the others alone: no request is forgotten. */
  lemma StatusFollowsGraph(s: Store, event: Event, hash: nat)
    requires hash in s.requests
    ensures hash in Step(s, event).requests
    ensures !Concerns(event, hash) ==> Step(s, event).requests[hash] == s.requests[hash]
    ensures Concerns(event, hash) ==>
              Step(s, event).requests[hash].status == Target(s.requests[hash].status, event)
  {
  }

  /** A stored request changes in nothing but what the event says: the text and height it came with never do. */
  lemma ContentsFollowEvents(s: Store, event: Event, hash: nat)
    requires hash in s.requests
    ensures hash in Step(s, event).requests
    ensures var before, after := s.requests[hash], Step(s, event).requests[hash];
            && after.request == before.request && after.height == before.height
            && (before.status == after.status || before.status != Pending ==>
                  after.payload == before.payload && after.executionTx == before.executionTx)
            && (before.status == Pending && after.status == Processing ==>
                  event == MarkProcessing(hash, event.payload, event.executionTx)
                  && after.payload == Some(event.payload) && after.executionTx == Some(event.executionTx))
            && (before.status == Pending && after.status == Failed ==>
                  event == MarkFailed(hash, event.reason)
                  && after.payload == Some(event.reason) && after.executionTx == before.executionTx)
  {
  }

  /** What an operation on a stored request answers: whether it moved it, or named the block of one already included. */
  lemma AnswersFollowStatus(s: Store, hash: nat, height: nat, block: nat, payload: seq<Byte>, tx: seq<Byte>)
    ensures ProcessingStep(s, hash, payload, tx).1 <==> hash in s.requests && s.requests[hash].status == Pending
    ensures FailedStep(s, hash, payload).1 <==> hash in s.requests && s.requests[hash].status == Pending
    ensures OrphanedStep(s, hash).1 <==> hash in s.requests && s.requests[hash].status == Included
    ensures ExecutedStep(s, hash).1 <==> hash in s.requests && s.requests[hash].status == Included
    ensures IncludedStep(s, hash, height, block).1
         == if height > I64_MAX then Err(Encode)
            else Ok(hash in s.requests && s.requests[hash].status in {Processing, Included})
  {
  }

  // ----- Arrivals -----

  /** A refused request leaves no trace; an accepted one is stored as given, pending, with nothing else disturbed. */
  lemma InsertStoresOrNothing(s: Store, event: Event)
    requires event.Insert?
    ensures var after := Step(s, event);
            if InsertStep(s, event.hash, event.request, event.height, event.utxos).1 == Ok(Inserted)
            then after.requests == s.requests[event.hash := Request(event.request, event.height, Pending, None, None,
                  None)]
              && (forall utxo :: utxo in after.fees <==> utxo in s.fees || utxo in event.utxos)
              && forall utxo | utxo in after.fees ::
                   after.fees[utxo] == if utxo in event.utxos then event.hash else s.fees[utxo]
            else after == s
  {
    ReserveIsExact(s.fees, event.hash, event.utxos);
  }

  /** Why an insert is refused: the height, the hash, or a coin, looked at in this order. */
  lemma RefusalsAreExact(s: Store, event: Event)
    requires event.Insert?
    ensures var r := InsertStep(s, event.hash, event.request, event.height, event.utxos).1;
            && (r.Err? <==> event.height > I64_MAX)
            && (r == Ok(RequestExists) <==> event.height <= I64_MAX && event.hash in s.requests)
            && (r.Ok? && r.value.FeeUtxoReserved? <==>
                  event.height <= I64_MAX && event.hash !in s.requests
                  && (!NoDuplicates(event.utxos) || exists utxo :: utxo in event.utxos && utxo in s.fees))
  {
    ReserveIsExact(s.fees, event.hash, event.utxos);
  }

  /** A request first seen in processing is stored as such, without coins; a known one is left alone. */
  lemma ObserveStoresOnce(s: Store, event: Event)
    requires event.Observe?
    ensures Step(s, event)
         == if event.height <= I64_MAX && event.seen !in s.requests
            then s.(requests := s.requests[event.seen := Request(event.request, event.height, Processing,
                  Some(event.payload), None, None)])
            else s
    ensures ObserveStep(s, event.seen, event.request, event.height, event.payload).1.Ok? <==> event.height <= I64_MAX
  {
  }

  // ----- Whole runs -----

  /** The text and height of a request never change, and once it is issued or closed neither does what was issued. */
  lemma {:induction false} IssuedIsFrozen(s: Store, events: seq<Event>, hash: nat)
    requires hash in s.requests
    ensures hash in RunFrom(s, events).requests
    ensures var before, after := s.requests[hash], RunFrom(s, events).requests[hash];
            && after.request == before.request && after.height == before.height
            && (before.status != Pending ==>
                  && after.status != Pending
                  && after.payload == before.payload && after.executionTx == before.executionTx)
    decreases |events|
  {
    if events != [] {
      StatusFollowsGraph(s, events[0], hash);
      ContentsFollowEvents(s, events[0], hash);
      IssuedIsFrozen(Step(s, events[0]), events[1..], hash);
    }
  }

  /** The event says in which block the request is, or that it is in none. */
  predicate AboutInclusion(event: Event, hash: nat) {
    || (event.MarkIncluded? && event.confirmed == hash && event.height <= I64_MAX)
    || (event.MarkOrphaned? && event.orphan == hash)
    || event.ResetChain?
  }

  /** The inclusion was named at position `i`, and nothing said otherwise later unless the request was executed. */
  ghost predicate NamedLastAt(events: seq<Event>, hash: nat, inclusion: Inclusion, i: int) {
    && 0 <= i < |events| && events[i] == MarkIncluded(hash, inclusion.height, inclusion.hash)
    && forall j | i < j < |events| && AboutInclusion(events[j], hash) ::
         hash in Run(events[..j]).0.requests && Run(events[..j]).0.requests[hash].status == Executed
  }

  lemma NamedStill(events: seq<Event>, event: Event, hash: nat, inclusion: Inclusion, i: int)
    requires NamedLastAt(events, hash, inclusion, i)
    requires AboutInclusion(event, hash) ==>
               hash in Run(events).0.requests && Run(events).0.requests[hash].status == Executed
    ensures NamedLastAt(events + [event], hash, inclusion, i)
  {
    var longer := events + [event];
    forall j | i < j < |longer| && AboutInclusion(longer[j], hash)
      ensures hash in Run(longer[..j]).0.requests && Run(longer[..j]).0.requests[hash].status == Executed
    {
      assert longer[..j] == if j < |events| then events[..j] else events;
    }
  }

  lemma NamedNow(events: seq<Event>, hash: nat, inclusion: Inclusion)
    ensures NamedLastAt(events + [MarkIncluded(hash, inclusion.height, inclusion.hash)], hash, inclusion, |events|)
  {
  }

  /** The row's inclusion after an event, where it has one: named by the event, or the one before. */
  lemma InclusionStep(s: Store, event: Event, hash: nat)
    requires hash in s.requests
    requires s.requests[hash].inclusion.Some? <==> s.requests[hash].status in {Included, Executed}
    ensures var after := Step(s, event).requests[hash];
            && (after.inclusion.Some? <==> after.status in {Included, Executed})
            && (after.inclusion.Some? && (!AboutInclusion(event, hash) || s.requests[hash].status == Executed) ==>
                  after.inclusion == s.requests[hash].inclusion)
            && (after.inclusion.Some? && AboutInclusion(event, hash) && s.requests[hash].status != Executed ==>
                  event == MarkIncluded(hash, after.inclusion.value.height, after.inclusion.value.hash))
  {
  }

  lemma FirstRowHasNoInclusion(s: Store, event: Event, hash: nat)
    requires hash !in s.requests && hash in Step(s, event).requests
    ensures Step(s, event).requests[hash].inclusion.None?
    ensures Step(s, event).requests[hash].status in {Pending, Processing}
  {
  }

  /**
   * In every run exactly the included and executed requests have an inclusion, and it is the one named last: neither
   * undone by an orphaned block or a chain reset since, nor changed after execution.
   */
  lemma {:induction false} InclusionIsTheLast(events: seq<Event>, hash: nat)
    requires hash in Run(events).0.requests
    ensures var row := Run(events).0.requests[hash];
            && (row.inclusion.Some? <==> row.status in {Included, Executed})
            && (row.inclusion.Some? ==> exists i :: NamedLastAt(events, hash, row.inclusion.value, i))
  {
    if events != [] {
      var before, last := events[..|events| - 1], events[|events| - 1];
      var s := Run(before).0;
      assert events == before + [last];
      if hash in s.requests {
        InclusionIsTheLast(before, hash);
        InclusionStep(s, last, hash);
        var row := Step(s, last).requests[hash];
        if row.inclusion.Some? {
          if AboutInclusion(last, hash) && s.requests[hash].status != Executed {
            NamedNow(before, hash, row.inclusion.value);
          } else {
            var i :| NamedLastAt(before, hash, row.inclusion.value, i);
            NamedStill(before, last, hash, row.inclusion.value, i);
          }
        }
      } else {
        FirstRowHasNoInclusion(s, last, hash);
      }
    }
  }

  // ----- The queue -----

  /** The queue holds each pending request after the cursor once, the oldest first and at one height by hash. */
  lemma QueueIsInIssuanceOrder(requests: Requests, after: Option<Key>)
    ensures var queue := Queue(requests, after);
            && (forall i, j | 0 <= i < j < |queue| ::
                  queue[i].height < queue[j].height
                  || (queue[i].height == queue[j].height && queue[i].hash < queue[j].hash))
            && forall key :: key in queue <==>
                 && key.hash in requests && requests[key.hash].status == Pending
                 && requests[key.hash].height == key.height
                 && (after.None? || after.value.height < key.height
                     || (after.value.height == key.height && after.value.hash < key.hash))
  {
    KeyOrder();
    var queue := Queue(requests, after);
    forall key ensures key in queue <==> Waiting(requests, after, key) {
      InQueue(requests, after, key);
    }
    forall i, j | 0 <= i < j < |queue| ensures KeyBefore(queue[i], queue[j]) && queue[i] != queue[j] {
    }
  }

  /** A page is the front of the queue, as long as asked for or all of it; only a height that cannot be stored fails. */
  lemma PageIsExact(requests: Requests, limit: nat, after: Option<Key>)
    ensures var r, queue := Page(requests, limit, after), Queue(requests, after);
            && (r.Err? <==> after.Some? && after.value.height > I64_MAX)
            && (r.Ok? ==> r.value <= queue && |r.value| == Min(limit, |queue|))
  {
  }
}
