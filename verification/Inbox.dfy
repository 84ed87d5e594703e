/** storm/src/state.rs, `register_message`: the replay filter and rate limits of each peer. */
module Inboxes {
  import opened Prelude
  import opened Bytes

  const MESSAGE_CLOCK_SKEW: nat := 300
  const REPLAY_CACHE_CAPACITY: nat := 256
  const CONTROL_MESSAGE_RATE_WINDOW: nat := 10
  const CONTROL_MESSAGE_RATE_CAPACITY: nat := 64

  type PeerKey = nat

  datatype StormMessage = StormMessage(payloadId: nat, timestamp: nat, protocolVersion: nat, payload: seq<Byte>) {
    predicate InRange() {
      payloadId < Pow256(4) && timestamp < Pow256(8) && protocolVersion < Pow256(4)
    }

    predicate IsControl() {
      payloadId <= 3
    }
  }

  datatype RegisterError = MessageTimestampOutsideWindow | ReplayedMessage | MessageRateLimit

  /** The hashed preimage after its fixed tag; a free hash makes fingerprints equal exactly when preimages are. */
  function Fingerprint(m: StormMessage): seq<Byte>
    requires m.InRange()
  {
    ToBigEndian(m.payloadId, 4) + ToBigEndian(m.timestamp, 8) + ToBigEndian(m.protocolVersion, 4) + m.payload
  }

  lemma FingerprintBinds(a: StormMessage, b: StormMessage)
    requires a.InRange() && b.InRange()
    ensures Fingerprint(a) == Fingerprint(b) <==> a == b
  {
    if Fingerprint(a) == Fingerprint(b) {
      FieldsOf(a);
      FieldsOf(b);
    }
  }

  lemma FieldsOf(m: StormMessage)
    requires m.InRange()
    ensures var bytes := Fingerprint(m);
            && |bytes| >= 16 && bytes[16..] == m.payload
            && FromBigEndian(bytes[..4]) == m.payloadId && FromBigEndian(bytes[4..12]) == m.timestamp
            && FromBigEndian(bytes[12..16]) == m.protocolVersion
  {
    var bytes := Fingerprint(m);
    assert bytes[..4] == ToBigEndian(m.payloadId, 4) && bytes[4..12] == ToBigEndian(m.timestamp, 8);
    assert bytes[12..16] == ToBigEndian(m.protocolVersion, 4);
    DecodeEncoded(m.payloadId, 4);
    DecodeEncoded(m.timestamp, 8);
    DecodeEncoded(m.protocolVersion, 4);
  }

  // ----- One registration -----

  datatype Receipt = Receipt(fingerprint: seq<Byte>, receivedAt: nat)

  datatype Inbox = Inbox(messages: seq<Receipt>, control: seq<nat>)

  const EMPTY := Inbox([], [])

  /** `retain` of the receipts still inside the replay window. */
  function RetainReceipts(receipts: seq<Receipt>, now: nat): seq<Receipt> {
    if receipts == [] then []
    else if SaturatingSub(now, receipts[0].receivedAt) <= MESSAGE_CLOCK_SKEW
        then [receipts[0]] + RetainReceipts(receipts[1..], now)
    else RetainReceipts(receipts[1..], now)
  }

  function RetainTimes(times: seq<nat>, now: nat): seq<nat> {
    if times == [] then []
    else if SaturatingSub(now, times[0]) < CONTROL_MESSAGE_RATE_WINDOW then [times[0]] + RetainTimes(times[1..], now)
    else RetainTimes(times[1..], now)
  }

  /** The inbox after a message, and whether the message was accepted. */
  function Register(inbox: Inbox, m: StormMessage, now: nat): (Inbox, Result<Unit, RegisterError>)
    requires m.InRange()
  {
    if AbsDiff(m.timestamp, now) > MESSAGE_CLOCK_SKEW then (inbox, Err(MessageTimestampOutsideWindow))
    else if m.IsControl() then
      var recent := RetainTimes(inbox.control, now);
      if |recent| >= CONTROL_MESSAGE_RATE_CAPACITY then (inbox.(control := recent), Err(MessageRateLimit))
      else (inbox.(control := recent + [now]), Ok(Unit))
    else
      var recent := RetainReceipts(inbox.messages, now);
      if exists i :: 0 <= i < |recent| && recent[i].fingerprint == Fingerprint(m)
          then (inbox.(messages := recent), Err(ReplayedMessage))
      else if |recent| >= REPLAY_CACHE_CAPACITY then (inbox.(messages := recent), Err(MessageRateLimit))
      else (inbox.(messages := recent + [Receipt(Fingerprint(m), now)]), Ok(Unit))
  }

  /** The queues of every peer, as the shared state keeps them. */
  class PeerQueues {
    var recentMessages: map<PeerKey, seq<Receipt>>
    var recentControlMessages: map<PeerKey, seq<nat>>

    constructor ()
      ensures forall peer :: InboxOf(peer) == EMPTY
    {
      recentMessages := map[];
      recentControlMessages := map[];
    }

    function InboxOf(peer: PeerKey): Inbox
      reads this
    {
      Inbox(if peer in recentMessages then recentMessages[peer] else [],
            if peer in recentControlMessages then recentControlMessages[peer] else [])
    }

    method RegisterMessage(peer: PeerKey, m: StormMessage, receivedAt: nat) returns (r: Result<Unit, RegisterError>)
      requires m.InRange()
      modifies this
      ensures (InboxOf(peer), r) == Register(old(InboxOf(peer)), m, receivedAt)
      ensures forall other | other != peer :: InboxOf(other) == old(InboxOf(other))
    {
      if AbsDiff(m.timestamp, receivedAt) > MESSAGE_CLOCK_SKEW {
        return Err(MessageTimestampOutsideWindow);
      }
      if m.IsControl() {
        var recent := RetainTimes(InboxOf(peer).control, receivedAt);
        recentControlMessages := recentControlMessages[peer := recent];
        if |recent| >= CONTROL_MESSAGE_RATE_CAPACITY {
          return Err(MessageRateLimit);
        }
        recentControlMessages := recentControlMessages[peer := recent + [receivedAt]];
        return Ok(Unit);
      }
      var fingerprint := Fingerprint(m);
      var recent := RetainReceipts(InboxOf(peer).messages, receivedAt);
      recentMessages := recentMessages[peer := recent];
      for i := 0 to |recent|
        invariant forall j | 0 <= j < i :: recent[j].fingerprint != fingerprint
      {
        if recent[i].fingerprint == fingerprint {
          return Err(ReplayedMessage);
        }
      }
      if |recent| >= REPLAY_CACHE_CAPACITY {
        return Err(MessageRateLimit);
      }
      recentMessages := recentMessages[peer := recent + [Receipt(fingerprint, receivedAt)]];
      return Ok(Unit);
    }
  }

  // ----- Runs of one peer -----

  datatype Arrival = Arrival(message: StormMessage, at: nat)

  /** The messages are well-formed and the clock never goes back. */
  predicate IsRun(arrivals: seq<Arrival>) {
    && (forall i | 0 <= i < |arrivals| :: arrivals[i].message.InRange())
    && forall i, j | 0 <= i < j < |arrivals| :: arrivals[i].at <= arrivals[j].at
  }

  lemma RunPrefix(arrivals: seq<Arrival>, n: nat)
    requires IsRun(arrivals) && n <= |arrivals|
    ensures IsRun(arrivals[..n])
  {
  }

  function AfterRun(arrivals: seq<Arrival>): Inbox
    requires IsRun(arrivals)
  {
    if arrivals == [] then EMPTY
    else
      var last := |arrivals| - 1;
      RunPrefix(arrivals, last);
      Register(AfterRun(arrivals[..last]), arrivals[last].message, arrivals[last].at).0
  }

  /** Whether the message at position `i` of the run was accepted. */
  predicate Accepted(arrivals: seq<Arrival>, i: nat)
    requires IsRun(arrivals) && i < |arrivals|
  {
    RunPrefix(arrivals, i);
    Register(AfterRun(arrivals[..i]), arrivals[i].message, arrivals[i].at).1.Ok?
  }

  /** The receipts of all accepted ordinary messages of the run, in order. */
  function History(arrivals: seq<Arrival>): seq<Receipt>
    requires IsRun(arrivals)
  {
    if arrivals == [] then []
    else
      var last := |arrivals| - 1;
      RunPrefix(arrivals, last);
      History(arrivals[..last])
      + if Accepted(arrivals, last) && !arrivals[last].message.IsControl()
        then [Receipt(Fingerprint(arrivals[last].message), arrivals[last].at)] else []
  }

  /** The times of all accepted control messages of the run, in order. */
  function ControlHistory(arrivals: seq<Arrival>): seq<nat>
    requires IsRun(arrivals)
  {
    if arrivals == [] then []
    else
      var last := |arrivals| - 1;
      RunPrefix(arrivals, last);
      ControlHistory(arrivals[..last])
      + if Accepted(arrivals, last) && arrivals[last].message.IsControl() then [arrivals[last].at] else []
  }

  predicate Ascending(receipts: seq<Receipt>, now: nat) {
    && (forall i | 0 <= i < |receipts| :: receipts[i].receivedAt <= now)
    && forall i, j | 0 <= i < j < |receipts| :: receipts[i].receivedAt <= receipts[j].receivedAt
  }

  predicate AscendingTimes(times: seq<nat>, now: nat) {
    && (forall i | 0 <= i < |times| :: times[i] <= now)
    && forall i, j | 0 <= i < j < |times| :: times[i] <= times[j]
  }

  /** On ascending receipts, `retain` drops exactly an expired prefix. */
  lemma {:induction false} RetainDropsPrefix(receipts: seq<Receipt>, now: nat) returns (k: nat)
    requires Ascending(receipts, now)
    ensures k <= |receipts| && RetainReceipts(receipts, now) == receipts[k..]
    ensures forall i | 0 <= i < k :: receipts[i].receivedAt + MESSAGE_CLOCK_SKEW < now
  {
    if receipts == [] || receipts[0].receivedAt + MESSAGE_CLOCK_SKEW >= now {
      k := 0;
      RetainKeepsAll(receipts, now);
    } else {
      k := RetainDropsPrefix(receipts[1..], now);
      assert receipts[1..][k..] == receipts[k + 1..];
      forall i | 0 <= i < k + 1 ensures receipts[i].receivedAt + MESSAGE_CLOCK_SKEW < now {
        assert i > 0 ==> receipts[i] == receipts[1..][i - 1];
      }
      k := k + 1;
    }
  }

  lemma {:induction false} RetainKeepsAll(receipts: seq<Receipt>, now: nat)
    requires forall i | 0 <= i < |receipts| :: receipts[i].receivedAt + MESSAGE_CLOCK_SKEW >= now
    ensures RetainReceipts(receipts, now) == receipts
  {
    if receipts != [] {
      RetainKeepsAll(receipts[1..], now);
    }
  }

  lemma {:induction false} RetainTimesDropsPrefix(times: seq<nat>, now: nat) returns (k: nat)
    requires AscendingTimes(times, now)
    ensures k <= |times| && RetainTimes(times, now) == times[k..]
    ensures forall i | 0 <= i < k :: times[i] + CONTROL_MESSAGE_RATE_WINDOW <= now
  {
    if times == [] || times[0] + CONTROL_MESSAGE_RATE_WINDOW > now {
      k := 0;
      RetainTimesKeepsAll(times, now);
    } else {
      k := RetainTimesDropsPrefix(times[1..], now);
      assert times[1..][k..] == times[k + 1..];
      forall i | 0 <= i < k + 1 ensures times[i] + CONTROL_MESSAGE_RATE_WINDOW <= now {
        assert i > 0 ==> times[i] == times[1..][i - 1];
      }
      k := k + 1;
    }
  }

  lemma {:induction false} RetainTimesKeepsAll(times: seq<nat>, now: nat)
    requires forall i | 0 <= i < |times| :: times[i] + CONTROL_MESSAGE_RATE_WINDOW > now
    ensures RetainTimes(times, now) == times
  {
    if times != [] {
      RetainTimesKeepsAll(times[1..], now);
    }
  }

  /**
   * What the queues hold after a run: a suffix of the history, the rest of which has expired; and the spread this
   * enforces.
   */
  ghost predicate Spread(history: seq<Receipt>) {
    forall i, j | 0 <= i < j < |history|
        && (j - i >= REPLAY_CACHE_CAPACITY || history[i].fingerprint == history[j].fingerprint) ::
      history[j].receivedAt > history[i].receivedAt + MESSAGE_CLOCK_SKEW
  }

  ghost predicate ControlSpread(history: seq<nat>) {
    forall i, j | 0 <= i < j < |history| && j - i >= CONTROL_MESSAGE_RATE_CAPACITY ::
      history[j] >= history[i] + CONTROL_MESSAGE_RATE_WINDOW
  }

  ghost predicate Tracks(queue: seq<Receipt>, history: seq<Receipt>, now: nat) {
    && Ascending(history, now) && Spread(history)
    && |queue| <= |history| && queue == history[|history| - |queue|..]
    && forall i | 0 <= i < |history| - |queue| :: history[i].receivedAt + MESSAGE_CLOCK_SKEW < now
  }

  ghost predicate TracksControl(queue: seq<nat>, history: seq<nat>, now: nat) {
    && AscendingTimes(history, now) && ControlSpread(history)
    && |queue| <= |history| && queue == history[|history| - |queue|..]
    && forall i | 0 <= i < |history| - |queue| :: history[i] + CONTROL_MESSAGE_RATE_WINDOW <= now
  }

  lemma SuffixOfSuffix<T>(s: seq<T>, m: nat, n: nat)
    requires m + n <= |s|
    ensures s[m..][n..] == s[m + n..]
  {
  }

  lemma RetainTracks(queue: seq<Receipt>, history: seq<Receipt>, before: nat, now: nat)
    requires Tracks(queue, history, before) && before <= now
    ensures Tracks(RetainReceipts(queue, now), history, now)
  {
    var k := RetainDropsPrefix(queue, now);
    var dropped := |history| - |queue|;
    SuffixOfSuffix(history, dropped, k);
    forall i | 0 <= i < dropped + k ensures history[i].receivedAt + MESSAGE_CLOCK_SKEW < now {
      if i >= dropped {
        assert history[i] == queue[i - dropped];
      }
    }
  }

  lemma RetainTracksControl(queue: seq<nat>, history: seq<nat>, before: nat, now: nat)
    requires TracksControl(queue, history, before) && before <= now
    ensures TracksControl(RetainTimes(queue, now), history, now)
  {
    var dropped := |history| - |queue|;
    TimesSuffixAscends(history, dropped, before, now);
    var k := RetainTimesDropsPrefix(queue, now);
    SuffixOfSuffix(history, dropped, k);
    MoreExpired(history, dropped, k, now);
  }

  lemma TimesSuffixAscends(history: seq<nat>, from: nat, before: nat, now: nat)
    requires AscendingTimes(history, before) && from <= |history| && before <= now
    ensures AscendingTimes(history, now) && AscendingTimes(history[from..], now)
  {
  }

  lemma MoreExpired(history: seq<nat>, dropped: nat, k: nat, now: nat)
    requires dropped + k <= |history|
    requires forall i | 0 <= i < dropped :: history[i] + CONTROL_MESSAGE_RATE_WINDOW <= now
    requires forall i | 0 <= i < k :: history[dropped..][i] + CONTROL_MESSAGE_RATE_WINDOW <= now
    ensures forall i | 0 <= i < dropped + k :: history[i] + CONTROL_MESSAGE_RATE_WINDOW <= now
  {
    forall i | dropped <= i < dropped + k ensures history[i] + CONTROL_MESSAGE_RATE_WINDOW <= now {
      assert history[i] == history[dropped..][i - dropped];
    }
  }

  lemma AcceptTracks(queue: seq<Receipt>, history: seq<Receipt>, now: nat, fingerprint: seq<Byte>)
    requires Tracks(queue, history, now) && |queue| < REPLAY_CACHE_CAPACITY
    requires forall i | 0 <= i < |queue| :: queue[i].fingerprint != fingerprint
    ensures Tracks(queue + [Receipt(fingerprint, now)], history + [Receipt(fingerprint, now)], now)
  {
    var dropped := |history| - |queue|;
    forall i | dropped <= i < |history| ensures history[i].fingerprint != fingerprint {
      assert history[i] == queue[i - dropped];
    }
  }

  lemma AcceptTracksControl(queue: seq<nat>, history: seq<nat>, now: nat)
    requires TracksControl(queue, history, now) && |queue| < CONTROL_MESSAGE_RATE_CAPACITY
    ensures TracksControl(queue + [now], history + [now], now)
  {
  }

  lemma LaterTracks(queue: seq<Receipt>, history: seq<Receipt>, control: seq<nat>, controlHistory: seq<nat>,
                    before: nat, now: nat)
    requires Tracks(queue, history, before) && TracksControl(control, controlHistory, before) && before <= now
    ensures Tracks(queue, history, now) && TracksControl(control, controlHistory, now)
  {
  }

  function Clock(arrivals: seq<Arrival>): nat {
    if arrivals == [] then 0 else arrivals[|arrivals| - 1].at
  }

  /** One registration keeps both queues in step with what has been accepted. */
  lemma StepTracks(inbox: Inbox, history: seq<Receipt>, controlHistory: seq<nat>, was: nat, m: StormMessage, now: nat)
    requires m.InRange() && was <= now
    requires Tracks(inbox.messages, history, was) && TracksControl(inbox.control, controlHistory, was)
    ensures var (after, r) := Register(inbox, m, now);
            && Tracks(after.messages, history
                + (if r.Ok? && !m.IsControl() then [Receipt(Fingerprint(m), now)] else []), now)
            && TracksControl(after.control, controlHistory + (if r.Ok? && m.IsControl() then [now] else []), now)
  {
    assert history + [] == history && controlHistory + [] == controlHistory;
    LaterTracks(inbox.messages, history, inbox.control, controlHistory, was, now);
    var (after, r) := Register(inbox, m, now);
    if AbsDiff(m.timestamp, now) <= MESSAGE_CLOCK_SKEW {
      if m.IsControl() {
        RetainTracksControl(inbox.control, controlHistory, was, now);
        if r.Ok? {
          AcceptTracksControl(RetainTimes(inbox.control, now), controlHistory, now);
        }
      } else {
        RetainTracks(inbox.messages, history, was, now);
        if r.Ok? {
          AcceptTracks(RetainReceipts(inbox.messages, now), history, now, Fingerprint(m));
        }
      }
    }
  }

  /** The invariant of every run. */
  lemma {:induction false} RunTracks(arrivals: seq<Arrival>)
    requires IsRun(arrivals)
    ensures Tracks(AfterRun(arrivals).messages, History(arrivals), Clock(arrivals))
    ensures TracksControl(AfterRun(arrivals).control, ControlHistory(arrivals), Clock(arrivals))
  {
    if arrivals != [] {
      var last := |arrivals| - 1;
      var before := arrivals[..last];
      RunPrefix(arrivals, last);
      RunTracks(before);
      assert Clock(before) <= Clock(arrivals);
      StepTracks(AfterRun(before), History(before), ControlHistory(before), Clock(before), arrivals[last].message,
          arrivals[last].at);
    }
  }

  // ----- What a peer can get through -----

  ghost predicate ReceivedSince(receipts: seq<Receipt>, from: nat, time: nat) {
    forall k | from <= k < |receipts| :: time <= receipts[k].receivedAt
  }

  ghost predicate Since(times: seq<nat>, from: nat, time: nat) {
    forall k | from <= k < |times| :: time <= times[k]
  }

  lemma LastArrivalExtends(arrivals: seq<Arrival>)
    requires IsRun(arrivals) && arrivals != []
    ensures var last := |arrivals| - 1;
            var front := arrivals[..last];
            && IsRun(front)
            && History(front) <= History(arrivals)
                && ReceivedSince(History(arrivals), |History(front)|, arrivals[last].at)
            && ControlHistory(front) <= ControlHistory(arrivals)
                && Since(ControlHistory(arrivals), |ControlHistory(front)|, arrivals[last].at)
  {
    RunPrefix(arrivals, |arrivals| - 1);
  }

  /** Later arrivals only extend the histories. */
  lemma {:induction false} HistoriesExtend(arrivals: seq<Arrival>, n: nat)
    requires IsRun(arrivals) && n <= |arrivals|
    ensures IsRun(arrivals[..n])
    ensures History(arrivals[..n]) <= History(arrivals) && ControlHistory(arrivals[..n]) <= ControlHistory(arrivals)
    decreases |arrivals|
  {
    RunPrefix(arrivals, n);
    if n == |arrivals| {
      assert arrivals[..n] == arrivals;
    } else {
      var front := arrivals[..|arrivals| - 1];
      LastArrivalExtends(arrivals);
      HistoriesExtend(front, n);
      assert front[..n] == arrivals[..n];
    }
  }

  /** What they add was received no earlier than the arrival they start at. */
  lemma {:induction false} HistoriesAddSince(arrivals: seq<Arrival>, n: nat)
    requires IsRun(arrivals) && n < |arrivals|
    ensures IsRun(arrivals[..n])
    ensures ReceivedSince(History(arrivals), |History(arrivals[..n])|, arrivals[n].at)
    ensures Since(ControlHistory(arrivals), |ControlHistory(arrivals[..n])|, arrivals[n].at)
    decreases |arrivals|
  {
    RunPrefix(arrivals, n);
    var last := |arrivals| - 1;
    if n < last {
      RunPrefix(arrivals, last);
      HistoriesAddSince(arrivals[..last], n);
      assert arrivals[..last][..n] == arrivals[..n] && arrivals[..last][n] == arrivals[n];
      SinceStep(arrivals, n, |History(arrivals[..n])|, |ControlHistory(arrivals[..n])|);
    } else {
      LastArrivalExtends(arrivals);
    }
  }

  lemma SinceStep(arrivals: seq<Arrival>, n: nat, from: nat, controlFrom: nat)
    requires IsRun(arrivals) && n < |arrivals| - 1 && IsRun(arrivals[..|arrivals| - 1])
    requires ReceivedSince(History(arrivals[..|arrivals| - 1]), from, arrivals[n].at)
    requires Since(ControlHistory(arrivals[..|arrivals| - 1]), controlFrom, arrivals[n].at)
    ensures ReceivedSince(History(arrivals), from, arrivals[n].at)
    ensures Since(ControlHistory(arrivals), controlFrom, arrivals[n].at)
  {
    var last := |arrivals| - 1;
    LastArrivalExtends(arrivals);
    assert arrivals[n].at <= arrivals[last].at;
    SinceExtends(History(arrivals[..last]), History(arrivals), from, arrivals[n].at, arrivals[last].at);
    TimesSinceExtends(ControlHistory(arrivals[..last]), ControlHistory(arrivals), controlFrom, arrivals[n].at,
        arrivals[last].at);
  }

  lemma SinceExtends(front: seq<Receipt>, whole: seq<Receipt>, from: nat, time: nat, last: nat)
    requires ReceivedSince(front, from, time) && front <= whole && ReceivedSince(whole, |front|, last) && time <= last
    ensures ReceivedSince(whole, from, time)
  {
    forall k | from <= k < |whole| ensures time <= whole[k].receivedAt {
      assert k < |front| ==> whole[k] == front[k];
    }
  }

  lemma TimesSinceExtends(front: seq<nat>, whole: seq<nat>, from: nat, time: nat, last: nat)
    requires Since(front, from, time) && front <= whole && Since(whole, |front|, last) && time <= last
    ensures Since(whole, from, time)
  {
    forall k | from <= k < |whole| ensures time <= whole[k] {
      assert k < |front| ==> whole[k] == front[k];
    }
  }

  /** An accepted arrival is the entry of the history at its own position. */
  lemma AcceptedEntry(arrivals: seq<Arrival>, i: nat)
    requires IsRun(arrivals) && i < |arrivals| && Accepted(arrivals, i) && !arrivals[i].message.IsControl()
    ensures IsRun(arrivals[..i]) && IsRun(arrivals[..i + 1])
    ensures var k := |History(arrivals[..i])|;
            && |History(arrivals[..i + 1])| == k + 1 && k < |History(arrivals)|
            && History(arrivals)[k] == Receipt(Fingerprint(arrivals[i].message), arrivals[i].at)
  {
    RunPrefix(arrivals, i);
    RunPrefix(arrivals, i + 1);
    var upTo := arrivals[..i + 1];
    assert upTo[..i] == arrivals[..i];
    assert Accepted(upTo, i);
    HistoriesExtend(arrivals, i + 1);
  }

  /** Two acceptances of the same ordinary message are more than five minutes apart. */
  lemma ReacceptanceIsLate(arrivals: seq<Arrival>, i: nat, j: nat)
    requires IsRun(arrivals) && i < j < |arrivals| && Accepted(arrivals, i) && Accepted(arrivals, j)
    requires arrivals[i].message == arrivals[j].message && !arrivals[i].message.IsControl()
    ensures arrivals[j].at > arrivals[i].at + MESSAGE_CLOCK_SKEW
  {
    AcceptedEntry(arrivals, i);
    AcceptedEntry(arrivals, j);
    RunPrefix(arrivals, j);
    HistoriesExtend(arrivals[..j], i + 1);
    assert arrivals[..j][..i + 1] == arrivals[..i + 1];
    RunTracks(arrivals);
  }

  /** A message stamped no later than its first receipt is never accepted again. */
  lemma NoReplayOfThePast(arrivals: seq<Arrival>, i: nat, j: nat)
    requires IsRun(arrivals) && i < j < |arrivals| && Accepted(arrivals, i)
    requires arrivals[i].message == arrivals[j].message && !arrivals[i].message.IsControl()
    requires arrivals[i].message.timestamp <= arrivals[i].at
    ensures !Accepted(arrivals, j)
  {
    if Accepted(arrivals, j) {
      ReacceptanceIsLate(arrivals, i, j);
    }
  }

  /** The replay window has a gap exactly for future stamps: such a message can be accepted a second time. */
  lemma ReplayableIffStampedAhead(m: StormMessage, first: nat)
    requires m.InRange() && !m.IsControl() && AbsDiff(m.timestamp, first) <= MESSAGE_CLOCK_SKEW
    ensures m.timestamp > first <==>
              exists again :: first <= again && Accepted([Arrival(m, first), Arrival(m, again)], 0)
                  && Accepted([Arrival(m, first), Arrival(m, again)], 1)
  {
    if m.timestamp > first {
      var again := first + MESSAGE_CLOCK_SKEW + 1;
      SecondAcceptance(m, first, again);
    }
    forall again | first <= again && Accepted([Arrival(m, first), Arrival(m, again)], 0)
        && Accepted([Arrival(m, first), Arrival(m, again)], 1)
      ensures m.timestamp > first
    {
      if m.timestamp <= first {
        NoReplayOfThePast([Arrival(m, first), Arrival(m, again)], 0, 1);
      }
    }
  }

  lemma SecondAcceptance(m: StormMessage, first: nat, again: nat)
    requires m.InRange() && !m.IsControl() && again == first + MESSAGE_CLOCK_SKEW + 1
    requires first < m.timestamp <= first + MESSAGE_CLOCK_SKEW
    ensures Accepted([Arrival(m, first), Arrival(m, again)], 0) && Accepted([Arrival(m, first), Arrival(m, again)], 1)
  {
    var run := [Arrival(m, first), Arrival(m, again)];
    assert run[..0] == [] && run[..1] == [Arrival(m, first)];
    assert run[..1][..0] == [];
    assert AfterRun(run[..0]) == EMPTY;
    assert AfterRun(run[..1]) == Inbox([Receipt(Fingerprint(m), first)], []);
    assert RetainReceipts([Receipt(Fingerprint(m), first)], again) == [];
  }

  lemma SpreadBounds(history: seq<Receipt>, from: nat)
    requires Spread(history) && from < |history|
    requires history[|history| - 1].receivedAt <= history[from].receivedAt + MESSAGE_CLOCK_SKEW
    ensures |history| - from <= REPLAY_CACHE_CAPACITY
  {
  }

  lemma ControlSpreadBounds(history: seq<nat>, from: nat)
    requires ControlSpread(history) && from < |history|
    requires history[|history| - 1] < history[from] + CONTROL_MESSAGE_RATE_WINDOW
    ensures |history| - from <= CONTROL_MESSAGE_RATE_CAPACITY
  {
  }

  /** At most 256 ordinary messages are accepted in any stretch of arrivals spanning at most five minutes. */
  lemma AtMost256InFiveMinutes(arrivals: seq<Arrival>, i: nat, j: nat)
    requires IsRun(arrivals) && i < j <= |arrivals| && arrivals[j - 1].at <= arrivals[i].at + MESSAGE_CLOCK_SKEW
    ensures IsRun(arrivals[..i]) && IsRun(arrivals[..j])
    ensures |History(arrivals[..j])| - |History(arrivals[..i])| <= REPLAY_CACHE_CAPACITY
  {
    RunPrefix(arrivals, j);
    var stretch := arrivals[..j];
    HistoriesAddSince(stretch, i);
    HistoriesExtend(stretch, i);
    assert stretch[..i] == arrivals[..i];
    RunTracks(stretch);
    if |History(arrivals[..i])| < |History(stretch)| {
      SpreadBounds(History(stretch), |History(arrivals[..i])|);
    }
  }

  /** At most 64 control messages are accepted in any stretch of arrivals spanning less than ten seconds. */
  lemma AtMost64ControlInTenSeconds(arrivals: seq<Arrival>, i: nat, j: nat)
    requires IsRun(arrivals) && i < j <= |arrivals| && arrivals[j - 1].at < arrivals[i].at + CONTROL_MESSAGE_RATE_WINDOW
    ensures IsRun(arrivals[..i]) && IsRun(arrivals[..j])
    ensures |ControlHistory(arrivals[..j])| - |ControlHistory(arrivals[..i])| <= CONTROL_MESSAGE_RATE_CAPACITY
  {
    RunPrefix(arrivals, j);
    var stretch := arrivals[..j];
    HistoriesAddSince(stretch, i);
    HistoriesExtend(stretch, i);
    assert stretch[..i] == arrivals[..i];
    RunTracks(stretch);
    if |ControlHistory(arrivals[..i])| < |ControlHistory(stretch)| {
      ControlSpreadBounds(ControlHistory(stretch), |ControlHistory(arrivals[..i])|);
    }
  }

  // ----- Exactly what is accepted -----

  /** The entries of the history received at most 300 seconds ago. */
  function Recent(history: seq<Receipt>, now: nat): set<int> {
    set k | 0 <= k < |history| && now - history[k].receivedAt <= 300
  }

  /** The entries of the control history less than ten seconds old. */
  function RecentControl(history: seq<nat>, now: nat): set<int> {
    set k | 0 <= k < |history| && now - history[k] < 10
  }

  /** The answer to the message at position `i` of the run. */
  function Verdict(arrivals: seq<Arrival>, i: nat): Result<Unit, RegisterError>
    requires IsRun(arrivals) && i < |arrivals|
  {
    RunPrefix(arrivals, i);
    Register(AfterRun(arrivals[..i]), arrivals[i].message, arrivals[i].at).1
  }

  lemma {:induction false} RetainedAreRecent(receipts: seq<Receipt>, now: nat)
    ensures forall r | r in RetainReceipts(receipts, now) :: now - r.receivedAt <= 300
  {
    if receipts != [] {
      RetainedAreRecent(receipts[1..], now);
    }
  }

  lemma {:induction false} RetainedTimesAreRecent(times: seq<nat>, now: nat)
    ensures forall t | t in RetainTimes(times, now) :: now - t < 10
  {
    if times != [] {
      RetainedTimesAreRecent(times[1..], now);
    }
  }

  /** The positions from `low` up to `high`. */
  function Positions(low: int, high: int): (s: set<int>)
    requires low <= high
    ensures |s| == high - low
    ensures forall k :: k in s <==> low <= k < high
    decreases high - low
  {
    if low == high then {} else Positions(low, high - 1) + {high - 1}
  }

  /** The queue is what is left of the history once its expired part is dropped. */
  ghost predicate IsLeft(queue: seq<Receipt>, history: seq<Receipt>, now: nat) {
    && |queue| <= |history| && queue == history[|history| - |queue|..]
    && (forall i | 0 <= i < |history| - |queue| :: history[i].receivedAt + MESSAGE_CLOCK_SKEW < now)
    && forall r | r in queue :: now - r.receivedAt <= 300
  }

  lemma QueueIsRecent(queue: seq<Receipt>, history: seq<Receipt>, now: nat)
    requires IsLeft(queue, history, now)
    ensures Recent(history, now) == Positions(|history| - |queue|, |history|)
  {
    var dropped := |history| - |queue|;
    forall k | dropped <= k < |history| ensures now - history[k].receivedAt <= 300 {
      assert history[k] == queue[k - dropped] && queue[k - dropped] in queue;
    }
  }

  lemma QueueHolds(queue: seq<Receipt>, history: seq<Receipt>, now: nat, fingerprint: seq<Byte>)
    requires IsLeft(queue, history, now)
    ensures (exists i :: 0 <= i < |queue| && queue[i].fingerprint == fingerprint)
       <==> exists k :: k in Recent(history, now) && history[k].fingerprint == fingerprint
  {
    var dropped := |history| - |queue|;
    QueueIsRecent(queue, history, now);
    if i :| 0 <= i < |queue| && queue[i].fingerprint == fingerprint {
      assert history[dropped + i] == queue[i] && dropped + i in Recent(history, now);
    }
    if k :| k in Recent(history, now) && history[k].fingerprint == fingerprint {
      assert queue[k - dropped] == history[k];
    }
  }

  lemma ControlQueueIsRecent(queue: seq<nat>, history: seq<nat>, now: nat)
    requires TracksControl(queue, history, now) && forall t | t in queue :: now - t < 10
    ensures |RecentControl(history, now)| == |queue|
  {
    var dropped := |history| - |queue|;
    var s := Positions(dropped, |history|);
    forall k ensures k in s <==> k in RecentControl(history, now) {
      if dropped <= k < |history| {
        assert history[k] == queue[k - dropped] && queue[k - dropped] in queue;
      }
    }
    assert s == RecentControl(history, now);
  }

  /** What decides about a message: its stamp, and what was accepted of its kind a short while ago. */
  function Judged(m: StormMessage, now: nat, history: seq<Receipt>, control: seq<nat>): Result<Unit, RegisterError>
    requires m.InRange()
  {
    if m.timestamp > now + 300 || now > m.timestamp + 300 then Err(MessageTimestampOutsideWindow)
    else if m.IsControl() then if |RecentControl(control, now)| < 64 then Ok(Unit) else Err(MessageRateLimit)
    else if exists k :: k in Recent(history, now) && history[k].fingerprint == Fingerprint(m) then Err(ReplayedMessage)
    else if |Recent(history, now)| < 256 then Ok(Unit)
    else Err(MessageRateLimit)
  }

  lemma ControlIsJudged(queue: seq<nat>, history: seq<nat>, was: nat, now: nat)
    requires TracksControl(queue, history, was) && was <= now
    ensures |RetainTimes(queue, now)| == |RecentControl(history, now)|
  {
    RetainTracksControl(queue, history, was, now);
    RetainedTimesAreRecent(queue, now);
    ControlQueueIsRecent(RetainTimes(queue, now), history, now);
  }

  lemma OrdinaryIsJudged(queue: seq<Receipt>, history: seq<Receipt>, was: nat, now: nat, fingerprint: seq<Byte>)
    requires Tracks(queue, history, was) && was <= now
    ensures |RetainReceipts(queue, now)| == |Recent(history, now)|
    ensures (exists i :: 0 <= i < |RetainReceipts(queue, now)| && RetainReceipts(queue, now)[i].fingerprint
                == fingerprint)
       <==> exists k :: k in Recent(history, now) && history[k].fingerprint == fingerprint
  {
    RetainTracks(queue, history, was, now);
    RetainedAreRecent(queue, now);
    QueueIsRecent(RetainReceipts(queue, now), history, now);
    QueueHolds(RetainReceipts(queue, now), history, now, fingerprint);
  }

  lemma RegisterJudges(inbox: Inbox, history: seq<Receipt>, control: seq<nat>, was: nat, m: StormMessage, now: nat)
    requires m.InRange() && was <= now
    requires Tracks(inbox.messages, history, was) && TracksControl(inbox.control, control, was)
    ensures Register(inbox, m, now).1 == Judged(m, now, history, control)
  {
    if m.IsControl() {
      ControlIsJudged(inbox.control, control, was, now);
    } else {
      OrdinaryIsJudged(inbox.messages, history, was, now, Fingerprint(m));
    }
  }

  /** In every run each message is answered by its stamp and the accepted history alone: nothing else is refused. */
  lemma VerdictFollowsHistory(arrivals: seq<Arrival>, i: nat)
    requires IsRun(arrivals) && i < |arrivals|
    ensures IsRun(arrivals[..i])
    ensures Verdict(arrivals, i) == Judged(arrivals[i].message, arrivals[i].at, History(arrivals[..i]),
                ControlHistory(arrivals[..i]))
  {
    RunPrefix(arrivals, i);
    var before := arrivals[..i];
    RunTracks(before);
    assert Clock(before) <= arrivals[i].at;
    RegisterJudges(AfterRun(before), History(before), ControlHistory(before), Clock(before), arrivals[i].message,
        arrivals[i].at);
  }

  /**
   * Acceptance, exactly: a stamp within 300 seconds, and fewer than 64 control messages in ten seconds or, for others,
   * no repeat and fewer than 256 in 300 seconds.
   */
  lemma AcceptanceIsExact(arrivals: seq<Arrival>, i: nat)
    requires IsRun(arrivals) && i < |arrivals|
    ensures IsRun(arrivals[..i])
    ensures var m, now := arrivals[i].message, arrivals[i].at;
            var history, control := History(arrivals[..i]), ControlHistory(arrivals[..i]);
            Accepted(arrivals, i) <==>
              && m.timestamp <= now + 300 && now <= m.timestamp + 300
              && (m.IsControl() ==> |RecentControl(control, now)| < 64)
              && (!m.IsControl() ==>
                    && |Recent(history, now)| < 256
                    && forall k | k in Recent(history, now) :: history[k].fingerprint != Fingerprint(m))
  {
    VerdictFollowsHistory(arrivals, i);
  }

  // ----- Peers do not interfere -----

  function Project(events: seq<(PeerKey, Arrival)>, peer: PeerKey): seq<Arrival> {
    if events == [] then []
    else
      Project(events[..|events| - 1], peer)
      + if events[|events| - 1].0 == peer then [events[|events| - 1].1] else []
  }

  /** The shared queues after the events of all peers, in the order they took the lock. */
  function AfterAll(events: seq<(PeerKey, Arrival)>): map<PeerKey, Inbox>
    requires forall i | 0 <= i < |events| :: events[i].1.message.InRange()
  {
    if events == [] then map[]
    else
      var before := AfterAll(events[..|events| - 1]);
      var (peer, arrival) := events[|events| - 1];
      var inbox := if peer in before then before[peer] else EMPTY;
      before[peer := Register(inbox, arrival.message, arrival.at).0]
  }

  /** In any interleaving each peer's queues are those of its own arrivals alone. */
  lemma {:induction false} PeersAreIndependent(events: seq<(PeerKey, Arrival)>, peer: PeerKey)
    requires forall i | 0 <= i < |events| :: events[i].1.message.InRange()
    requires forall i, j | 0 <= i < j < |events| :: events[i].1.at <= events[j].1.at
    ensures IsRun(Project(events, peer))
    ensures forall k | 0 <= k < |Project(events, peer)| :: Arrived(events, peer, Project(events, peer)[k])
    ensures (if peer in AfterAll(events) then AfterAll(events)[peer] else EMPTY) == AfterRun(Project(events, peer))
  {
    ProjectionIsOwn(events, peer);
    ProjectionIsRun(events, peer);
    if events != [] {
      var before, own := events[..|events| - 1], Project(events[..|events| - 1], peer);
      PeersAreIndependent(before, peer);
      assert Project(events, peer)[..|own|] == own;
      assert events[|events| - 1].0 != peer ==> Project(events, peer) == own;
    }
  }

  predicate Arrived(events: seq<(PeerKey, Arrival)>, peer: PeerKey, arrival: Arrival) {
    exists i :: 0 <= i < |events| && events[i] == (peer, arrival)
  }

  lemma {:induction false} ProjectionIsOwn(events: seq<(PeerKey, Arrival)>, peer: PeerKey)
    ensures forall k | 0 <= k < |Project(events, peer)| :: Arrived(events, peer, Project(events, peer)[k])
  {
    if events != [] {
      var last := |events| - 1;
      var before, own := events[..last], Project(events[..last], peer);
      ProjectionIsOwn(before, peer);
      forall k | 0 <= k < |Project(events, peer)| ensures Arrived(events, peer, Project(events, peer)[k]) {
        if k < |own| {
          assert Arrived(before, peer, own[k]) && Project(events, peer)[k] == own[k];
          var i :| 0 <= i < |before| && before[i] == (peer, own[k]);
          assert events[i] == before[i];
        } else {
          assert events[last] == (peer, Project(events, peer)[k]);
        }
      }
    }
  }

  lemma {:induction false} ProjectionIsRun(events: seq<(PeerKey, Arrival)>, peer: PeerKey)
    requires forall i | 0 <= i < |events| :: events[i].1.message.InRange()
    requires forall i, j | 0 <= i < j < |events| :: events[i].1.at <= events[j].1.at
    ensures IsRun(Project(events, peer))
  {
    if events != [] {
      var last := |events| - 1;
      var before, own := events[..last], Project(events[..last], peer);
      ProjectionIsRun(before, peer);
      ProjectionIsOwn(before, peer);
      forall k | 0 <= k < |own| ensures own[k].at <= events[last].1.at {
        assert Arrived(before, peer, own[k]);
        var i :| 0 <= i < |before| && before[i] == (peer, own[k]);
        assert events[i] == before[i];
      }
    }
  }
}
