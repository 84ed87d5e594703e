/**
 * high-storm/src/db/user_request.rs: user requests, the fee coins they reserve, and the paged walk of the pending
 * queue.
 */
module UserRequests {
  import opened Bytes
  import opened Prelude
  import opened Sorting

  datatype FeeUtxo = FeeUtxo(txid: nat, outputIndex: nat)

  datatype Status = Pending | Processing | Included | Executed | Failed {
    predicate Open() {
      Pending? || Processing? || Included?
    }
  }

  datatype Inclusion = Inclusion(height: nat, hash: nat)

  /** A `network_user_requests` row; its key is the request hash. */
  datatype Request = Request(
    request: seq<Byte>, height: nat, status: Status, payload: Option<seq<Byte>>, executionTx: Option<seq<Byte>>,
        inclusion: Option<Inclusion>)

  datatype InsertPendingResult = Inserted | RequestExists | FeeUtxoReserved(utxo: FeeUtxo)

  datatype Error = Encode

  type Requests = map<nat, Request>
  type Reservations = map<FeeUtxo, nat>

  datatype Store = Store(requests: Requests, fees: Reservations)

  // ----- The operations -----

  /** Reserves each coin in turn, up to the first one already taken. */
  function Reserve(fees: Reservations, hash: nat, utxos: seq<FeeUtxo>): Result<Reservations, FeeUtxo>
    decreases |utxos|
  {
    if utxos == [] then Ok(fees)
    else if utxos[0] in fees then Err(utxos[0])
    else Reserve(fees[utxos[0] := hash], hash, utxos[1..])
  }

  function InsertStep(s: Store, hash: nat, request: seq<Byte>, height: nat, utxos: seq<FeeUtxo>): (Store,
                      Result<InsertPendingResult, Error>) {
    if height > I64_MAX then (s, Err(Encode))
    else if hash in s.requests then (s, Ok(RequestExists))
    else
      match Reserve(s.fees, hash, utxos)
      case Err(utxo) => (s, Ok(FeeUtxoReserved(utxo)))
      case Ok(fees) => (Store(s.requests[hash := Request(request, height, Pending, None, None, None)], fees),
          Ok(Inserted))
  }

  function ObserveStep(s: Store, hash: nat, request: seq<Byte>, height: nat, payload: seq<Byte>): (Store, Result<Unit,
                       Error>) {
    if height > I64_MAX then (s, Err(Encode))
    else if hash in s.requests then (s, Ok(Unit))
    else (s.(requests := s.requests[hash := Request(request, height, Processing, Some(payload), None, None)]), Ok(Unit))
  }

  predicate HasStatus(s: Store, hash: nat, statuses: set<Status>) {
    hash in s.requests && s.requests[hash].status in statuses
  }

  /** `DELETE ... WHERE request_hash = $1` */
  function Released(fees: Reservations, hash: nat): Reservations {
    map utxo | utxo in fees && fees[utxo] != hash :: fees[utxo]
  }

  function ProcessingStep(s: Store, hash: nat, payload: seq<Byte>, executionTx: seq<Byte>): (Store, bool) {
    if !HasStatus(s, hash, {Pending}) then (s, false)
    else (s.(requests := s.requests[hash := s.requests[hash].(status := Processing, payload := Some(payload),
        executionTx := Some(executionTx))]), true)
  }

  function IncludedStep(s: Store, hash: nat, height: nat, blockHash: nat): (Store, Result<bool, Error>) {
    if height > I64_MAX then (s, Err(Encode))
    else if !HasStatus(s, hash, {Processing, Included}) then (s, Ok(false))
    else (s.(requests := s.requests[hash := s.requests[hash].(status := Included,
        inclusion := Some(Inclusion(height, blockHash)))]), Ok(true))
  }

  function OrphanedStep(s: Store, hash: nat): (Store, bool) {
    if !HasStatus(s, hash, {Included}) then (s, false)
    else (s.(requests := s.requests[hash := s.requests[hash].(status := Processing, inclusion := None)]), true)
  }

  function ExecutedStep(s: Store, hash: nat): (Store, bool) {
    if !HasStatus(s, hash, {Included}) then (s, false)
    else (Store(s.requests[hash := s.requests[hash].(status := Executed)], Released(s.fees, hash)), true)
  }

  function FailedStep(s: Store, hash: nat, reason: seq<Byte>): (Store, bool) {
    if !HasStatus(s, hash, {Pending}) then (s, false)
    else (Store(s.requests[hash := s.requests[hash].(status := Failed, payload := Some(reason))],
        Released(s.fees, hash)), true)
  }

  function Reprocessed(row: Request): Request {
    if row.status.Included? then row.(status := Processing, inclusion := None) else row
  }

  /** `reset_projections`: whatever a block had included is waiting for one again. */
  function ResetStep(s: Store): Store {
    s.(requests := map hash | hash in s.requests :: Reprocessed(s.requests[hash]))
  }

  // ----- The pending queue -----

  /** Issuance order: by height, then by hash. */
  datatype Key = Key(height: nat, hash: nat)

  predicate KeyBefore(a: Key, b: Key) {
    a.height < b.height || (a.height == b.height && a.hash <= b.hash)
  }

  lemma KeyOrder()
    ensures TotalOrder(KeyBefore)
  {
  }

  predicate Waiting(requests: Requests, after: Option<Key>, key: Key) {
    && key.hash in requests && requests[key.hash].height == key.height && requests[key.hash].status.Pending?
    && (after.None? || after.value.height < key.height
        || (after.value.height == key.height && after.value.hash < key.hash))
  }

  function PendingAfter(requests: Requests, after: Option<Key>): set<Key> {
    set hash | hash in requests && Waiting(requests, after, Key(requests[hash].height, hash)) ::
        Key(requests[hash].height, hash)
  }

  /** The rest of the queue, in issuance order. */
  function Queue(requests: Requests, after: Option<Key>): seq<Key> {
    KeyOrder();
    Ordered(PendingAfter(requests, after), KeyBefore)
  }

  function Page(requests: Requests, limit: nat, after: Option<Key>): Result<seq<Key>, Error> {
    if after.Some? && after.value.height > I64_MAX then Err(Encode)
    else
      var queue := Queue(requests, after);
      Ok(if |queue| <= limit then queue else queue[..limit])
  }

  const MAX_PENDING_SCAN: nat := 1000

  /** The tables behind one connection. */
  class UserRequestStore {
    var requests: Requests
    var fees: Reservations

    constructor ()
      ensures Contents() == Store(map[], map[])
    {
      requests := map[];
      fees := map[];
    }

    function Contents(): Store
      reads this
    {
      Store(requests, fees)
    }

    /** One database transaction: a taken coin rolls back the row and every coin reserved before it. */
    method InsertPending(hash: nat, request: seq<Byte>, height: nat, utxos: seq<FeeUtxo>)
        returns (r: Result<InsertPendingResult, Error>)
      modifies this
      ensures (Contents(), r) == InsertStep(old(Contents()), hash, request, height, utxos)
    {
      if height > I64_MAX {
        return Err(Encode);
      }
      var savedRequests, savedFees := requests, fees;
      if hash in requests {
        return Ok(RequestExists);
      }
      requests := requests[hash := Request(request, height, Pending, None, None, None)];
      for i := 0 to |utxos|
        invariant requests == savedRequests[hash := Request(request, height, Pending, None, None, None)]
        invariant Reserve(savedFees, hash, utxos) == Reserve(fees, hash, utxos[i..])
      {
        assert utxos[i..][1..] == utxos[i + 1..];
        if utxos[i] in fees {
          requests, fees := savedRequests, savedFees;
          return Ok(FeeUtxoReserved(utxos[i]));
        }
        fees := fees[utxos[i] := hash];
      }
      return Ok(Inserted);
    }

    method ObserveProcessing(hash: nat, request: seq<Byte>, height: nat, payload: seq<Byte>)
        returns (r: Result<Unit, Error>)
      modifies this`requests
      ensures (Contents(), r) == ObserveStep(old(Contents()), hash, request, height, payload)
    {
      if height > I64_MAX {
        return Err(Encode);
      }
      if hash !in requests {
        requests := requests[hash := Request(request, height, Processing, Some(payload), None, None)];
      }
      return Ok(Unit);
    }

    method MarkProcessing(hash: nat, payload: seq<Byte>, executionTx: seq<Byte>) returns (changed: bool)
      modifies this`requests
      ensures (Contents(), changed) == ProcessingStep(old(Contents()), hash, payload, executionTx)
    {
      changed := hash in requests && requests[hash].status.Pending?;
      if changed {
        requests := requests[hash := requests[hash].(status := Processing, payload := Some(payload),
            executionTx := Some(executionTx))];
      }
    }

    method MarkIncluded(hash: nat, height: nat, blockHash: nat) returns (r: Result<bool, Error>)
      modifies this`requests
      ensures (Contents(), r) == IncludedStep(old(Contents()), hash, height, blockHash)
    {
      if height > I64_MAX {
        return Err(Encode);
      }
      var changed := hash in requests && (requests[hash].status.Processing? || requests[hash].status.Included?);
      if changed {
        requests := requests[hash := requests[hash].(status := Included,
            inclusion := Some(Inclusion(height, blockHash)))];
      }
      return Ok(changed);
    }

    method MarkOrphaned(hash: nat) returns (changed: bool)
      modifies this`requests
      ensures (Contents(), changed) == OrphanedStep(old(Contents()), hash)
    {
      changed := hash in requests && requests[hash].status.Included?;
      if changed {
        requests := requests[hash := requests[hash].(status := Processing, inclusion := None)];
      }
    }

    method MarkExecuted(hash: nat) returns (changed: bool)
      modifies this
      ensures (Contents(), changed) == ExecutedStep(old(Contents()), hash)
    {
      if hash !in requests || !requests[hash].status.Included? {
        return false;
      }
      requests := requests[hash := requests[hash].(status := Executed)];
      fees := Released(fees, hash);
      return true;
    }

    method MarkFailed(hash: nat, reason: seq<Byte>) returns (changed: bool)
      modifies this
      ensures (Contents(), changed) == FailedStep(old(Contents()), hash, reason)
    {
      if hash !in requests || !requests[hash].status.Pending? {
        return false;
      }
      requests := requests[hash := requests[hash].(status := Failed, payload := Some(reason))];
      fees := Released(fees, hash);
      return true;
    }

    /** A row that cannot be issued is failed on the spot. */
    method ReadRow(key: Key, hopeless: set<nat>, reason: seq<Byte>)
      requires key.hash in requests && requests[key.hash].status.Pending?
      modifies this
      ensures requests == AfterRow(old(requests), key, hopeless, reason)
      ensures fees == if key.hash in hopeless then Released(old(fees), key.hash) else old(fees)
    {
      if key.hash in hopeless {
        var _ := MarkFailed(key.hash, reason);
      }
    }

    /** Reads a page row by row, up to the first row the round stops at, if any. */
    method ScanPage(rows: seq<Key>, after: Option<Key>, seen: seq<Key>, hopeless: set<nat>, reason: seq<Byte>,
                    stops: (seq<Key>, Key) -> bool, ghost start: Requests, ghost held: Reservations)
      returns (visited: seq<Key>, cursor: Option<Key>, stopped: bool)
      requires rows <= Queue(requests, after) && fees == Freed(held, seen, hopeless)
      requires Walked(start, seen, hopeless, reason, requests, after) && Clear(seen, stops)
      modifies this
      ensures Walked(start, visited, hopeless, reason, requests, cursor) && Clear(visited, stops)
      ensures fees == Freed(held, visited, hopeless)
      ensures stopped ==> StopsAt(Queue(start, None), visited, stops)
      ensures !stopped ==> |visited| == |seen| + |rows|
    {
      visited, cursor := seen, after;
      var rest := rows;
      while rest != []
        invariant rest <= Queue(requests, cursor) && |visited| + |rest| == |seen| + |rows|
        invariant fees == Freed(held, visited, hopeless)
        invariant Walked(start, visited, hopeless, reason, requests, cursor) && Clear(visited, stops)
        decreases |rest|
      {
        var key := rest[0];
        if stops(visited, key) {
          return visited, cursor, true;
        }
        WalkNext(start, visited, hopeless, reason, requests, cursor);
        ClearNext(visited, key, stops);
        FreedNext(held, visited, key, hopeless);
        ReadRow(key, hopeless, reason);
        visited, cursor, rest := visited + [key], Some(key), rest[1..];
      }
      return visited, cursor, false;
    }

    /**
     * The issuance round's walk: pages of the queue, each resumed after the last row read, failing the rows that
     * cannot be issued. Every pending row is read once, in order, until the round stops at a row (it is full, or the
     * stored request does not decode) or has read as many as it may.
     */
    method WalkPending(limit: nat, hopeless: set<nat>, reason: seq<Byte>, stops: (seq<Key>, Key) -> bool,
                       bound: nat := MAX_PENDING_SCAN)
      returns (visited: seq<Key>)
      requires limit >= 1 && StoredHeights(requests)
      modifies this
      ensures visited <= Queue(old(requests), None) && Clear(visited, stops)
      ensures var queue := Queue(old(requests), None);
              visited == queue || |visited| >= bound || StopsAt(queue, visited, stops)
      ensures requests == Failing(old(requests), visited, hopeless, reason)
      ensures fees == Freed(old(fees), visited, hopeless)
    {
      var cursor: Option<Key> := None;
      visited := [];
      NothingFailed(requests, hopeless, reason);
      PageIsPrefix(requests, limit, cursor);
      var page := Page(requests, limit, cursor);
      while page.value != []
        invariant Walked(old(requests), visited, hopeless, reason, requests, cursor) && Clear(visited, stops)
        invariant fees == Freed(old(fees), visited, hopeless)
        invariant page.Ok? && page.value <= Queue(requests, cursor)
        invariant page.value == [] ==> Queue(requests, cursor) == []
        decreases |Queue(old(requests), None)| - |visited|
      {
        var stopped;
        visited, cursor, stopped := ScanPage(page.value, cursor, visited, hopeless, reason, stops, old(requests),
            old(fees));
        if stopped || |visited| >= bound {
          return;
        }
        PageIsPrefix(requests, limit, cursor);
        page := Page(requests, limit, cursor);
      }
    }
  }

  // ----- What the walk relies on -----

  predicate StoredHeights(requests: Requests) {
    forall hash | hash in requests :: requests[hash].height <= I64_MAX
  }

  /** The listed rows that cannot be issued have failed; no other row has changed. */
  function Failing(requests: Requests, keys: seq<Key>, hopeless: set<nat>, reason: seq<Byte>): Requests {
    map hash | hash in requests ::
      if hash in hopeless && Key(requests[hash].height, hash) in keys
      then requests[hash].(status := Failed, payload := Some(reason)) else requests[hash]
  }

  lemma NothingFailed(requests: Requests, hopeless: set<nat>, reason: seq<Byte>)
    ensures Failing(requests, [], hopeless, reason) == requests
  {
  }

  predicate Lists(keys: seq<Key>, hash: nat) {
    exists i :: 0 <= i < |keys| && keys[i].hash == hash
  }

  /** The coins of the listed rows that cannot be issued are free again; every other coin is held as before. */
  function Freed(fees: Reservations, keys: seq<Key>, hopeless: set<nat>): Reservations {
    map utxo | utxo in fees && !(fees[utxo] in hopeless && Lists(keys, fees[utxo])) :: fees[utxo]
  }

  lemma FreedNext(fees: Reservations, keys: seq<Key>, key: Key, hopeless: set<nat>)
    ensures Freed(fees, keys + [key], hopeless)
         == if key.hash in hopeless then Released(Freed(fees, keys, hopeless), key.hash)
            else Freed(fees, keys, hopeless)
  {
    forall hash ensures Lists(keys + [key], hash) <==> Lists(keys, hash) || key.hash == hash {
      if i :| 0 <= i < |keys| && keys[i].hash == hash {
        assert (keys + [key])[i] == keys[i];
      }
      assert (keys + [key])[|keys|] == key;
    }
  }

  function AfterRow(requests: Requests, key: Key, hopeless: set<nat>, reason: seq<Byte>): Requests
    requires key.hash in requests
  {
    if key.hash in hopeless then requests[key.hash := requests[key.hash].(status := Failed, payload := Some(reason))]
    else requests
  }

  lemma RowFails(start: Requests, keys: seq<Key>, key: Key, hopeless: set<nat>, reason: seq<Byte>)
    requires key.hash in start && start[key.hash].height == key.height
    requires Failing(start, keys, hopeless, reason)[key.hash].status.Pending?
    ensures Failing(start, keys + [key], hopeless, reason)
            == AfterRow(Failing(start, keys, hopeless, reason), key, hopeless, reason)
  {
  }

  /** What was visited and what follows the cursor are together the queue the walk began with. */
  ghost predicate Walked(start: Requests, visited: seq<Key>, hopeless: set<nat>, reason: seq<Byte>,
                         requests: Requests, cursor: Option<Key>) {
    && Queue(start, None) == visited + Queue(requests, cursor)
    && requests == Failing(start, visited, hopeless, reason)
    && (cursor.Some? ==> cursor.value.height <= I64_MAX)
    && StoredHeights(start)
  }

  lemma WalkNext(start: Requests, visited: seq<Key>, hopeless: set<nat>, reason: seq<Byte>, requests: Requests,
                 cursor: Option<Key>)
    requires Walked(start, visited, hopeless, reason, requests, cursor) && Queue(requests, cursor) != []
    ensures var queue := Queue(requests, cursor);
            var key := queue[0];
            && key.hash in requests && requests[key.hash].status.Pending?
            && Queue(AfterRow(requests, key, hopeless, reason), Some(key)) == queue[1..]
            && Walked(start, visited + [key], hopeless, reason, AfterRow(requests, key, hopeless, reason), Some(key))
  {
    var queue := Queue(requests, cursor);
    var key := queue[0];
    InQueue(requests, cursor, key);
    QueueResumes(requests, cursor, AfterRow(requests, key, hopeless, reason));
    RowFails(start, visited, key, hopeless, reason);
    assert visited + queue == (visited + [key]) + queue[1..];
  }

  /** The round stopped at none of the rows visited. */
  predicate Clear(visited: seq<Key>, stops: (seq<Key>, Key) -> bool) {
    forall i | 0 <= i < |visited| :: !stops(visited[..i], visited[i])
  }

  lemma ClearNext(visited: seq<Key>, key: Key, stops: (seq<Key>, Key) -> bool)
    requires Clear(visited, stops) && !stops(visited, key)
    ensures Clear(visited + [key], stops)
  {
    forall i | 0 <= i < |visited| + 1 ensures (visited + [key])[..i] == visited[..i] {
    }
    assert visited[..|visited|] == visited;
  }

  /** The round stops at the row after those visited. */
  predicate StopsAt(queue: seq<Key>, visited: seq<Key>, stops: (seq<Key>, Key) -> bool) {
    |visited| < |queue| && stops(visited, queue[|visited|])
  }

  lemma InPendingAfter(requests: Requests, after: Option<Key>, key: Key)
    ensures key in PendingAfter(requests, after) <==> Waiting(requests, after, key)
  {
    if Waiting(requests, after, key) {
      assert key == Key(requests[key.hash].height, key.hash);
    }
  }

  lemma InQueue(requests: Requests, after: Option<Key>, key: Key)
    ensures key in Queue(requests, after) <==> Waiting(requests, after, key)
  {
    KeyOrder();
    InPendingAfter(requests, after, key);
  }

  lemma PageIsPrefix(requests: Requests, limit: nat, after: Option<Key>)
    requires limit >= 1 && (after.Some? ==> after.value.height <= I64_MAX)
    ensures Page(requests, limit, after).Ok?
    ensures Page(requests, limit, after).value <= Queue(requests, after)
    ensures Page(requests, limit, after).value == [] ==> Queue(requests, after) == []
  {
  }

  /** Resuming after the first row, whatever became of that row, leaves the rest of the queue. */
  lemma QueueResumes(requests: Requests, after: Option<Key>, requests': Requests)
    requires Queue(requests, after) != []
    requires var key := Queue(requests, after)[0];
             && requests'.Keys == requests.Keys
             && forall hash | hash in requests ::
                 requests'[hash].height == requests[hash].height
                 && (hash != key.hash ==> requests'[hash] == requests[hash])
    ensures Queue(requests', Some(Queue(requests, after)[0])) == Queue(requests, after)[1..]
  {
    var queue := Queue(requests, after);
    var key := queue[0];
    KeyOrder();
    forall k ensures k in queue[1..] <==> k in PendingAfter(requests', Some(key)) {
      InQueue(requests, after, k);
      InQueue(requests, after, key);
      InPendingAfter(requests', Some(key), k);
      RestOf(queue, k);
    }
    OrderedIsCanonical(queue[1..], PendingAfter(requests', Some(key)), KeyBefore);
  }

  // ----- Paging an unchanged queue -----

  /** The queue as pages, each asked for after the last row of the one before, until an empty one. */
  function Pages(requests: Requests, limit: nat, after: Option<Key>): seq<Key>
    requires limit >= 1 && StoredHeights(requests) && (after.Some? ==> after.value.height <= I64_MAX)
    decreases |Queue(requests, after)|
  {
    PageIsPrefix(requests, limit, after);
    var page := Page(requests, limit, after).value;
    if page == [] then []
    else
      PageResumes(requests, after, |page|);
      page + Pages(requests, limit, Some(page[|page| - 1]))
  }

  /** Pages of any size are the queue: every pending row once, in issuance order, however long it is. */
  lemma {:induction false} PagesAreTheQueue(requests: Requests, limit: nat, after: Option<Key>)
    requires limit >= 1 && StoredHeights(requests) && (after.Some? ==> after.value.height <= I64_MAX)
    ensures Pages(requests, limit, after) == Queue(requests, after)
    decreases |Queue(requests, after)|
  {
    PageIsPrefix(requests, limit, after);
    var page, queue := Page(requests, limit, after).value, Queue(requests, after);
    if page != [] {
      var next := Some(page[|page| - 1]);
      PageLeads(requests, limit, after, page, next);
      PagesAreTheQueue(requests, limit, next);
      assert page + queue[|page|..] == queue;
    }
  }

  lemma PageLeads(requests: Requests, limit: nat, after: Option<Key>, page: seq<Key>, next: Option<Key>)
    requires limit >= 1 && StoredHeights(requests) && (after.Some? ==> after.value.height <= I64_MAX)
    requires Page(requests, limit, after) == Ok(page) && page != [] && next == Some(page[|page| - 1])
    ensures page <= Queue(requests, after) && next.value.height <= I64_MAX
    ensures Queue(requests, next) == Queue(requests, after)[|page|..]
    ensures Pages(requests, limit, after) == page + Pages(requests, limit, next)
  {
    PageIsPrefix(requests, limit, after);
    PageResumes(requests, after, |page|);
  }

  /** After the n-th row comes the rest of the queue. */
  lemma {:induction false} PageResumes(requests: Requests, after: Option<Key>, n: nat)
    requires 1 <= n <= |Queue(requests, after)| && StoredHeights(requests)
    ensures Queue(requests, Some(Queue(requests, after)[n - 1])) == Queue(requests, after)[n..]
    ensures Queue(requests, after)[n - 1].height <= I64_MAX
  {
    var queue := Queue(requests, after);
    InQueue(requests, after, queue[n - 1]);
    if n == 1 {
      QueueResumes(requests, after, requests);
    } else {
      PageResumes(requests, after, n - 1);
      QueueResumes(requests, Some(queue[n - 2]), requests);
      assert queue[n - 1..][0] == queue[n - 1] && queue[n - 1..][1..] == queue[n..];
    }
  }

  lemma RestOf(queue: seq<Key>, k: Key)
    requires queue != [] && SortedBy(queue, KeyBefore) && NoDuplicates(queue)
    ensures k in queue[1..] <==> k in queue && k != queue[0]
    ensures k in queue[1..] ==> KeyBefore(queue[0], k)
  {
    if k in queue[1..] {
      var i :| 0 <= i < |queue[1..]| && queue[1..][i] == k;
      assert queue[i + 1] == k && KeyBefore(queue[0], queue[i + 1]);
    }
  }
}
