/** storm/src/message.rs and the record loops of storm/src/network.rs: length-prefixed framing over a byte stream. */
module Messages {
  import opened Prelude
  import opened Bytes

  const MAX_MESSAGE_SIZE: nat := 10 * 1024 * 1024
  const MESSAGE_LENGTH_SIZE: nat := 4
  const NOISE_MAX_PLAINTEXT_SIZE: nat := 65_535 - 16

  datatype MessageError = TooLarge(size: nat) | Malformed

  /** The message codec: decoding inverts encoding. */
  datatype Codec<!M> = Codec(encode: M -> seq<Byte>, decode: seq<Byte> -> Option<M>) {
    ghost predicate RoundTrips(m: M) {
      decode(encode(m)) == Some(m)
    }

    predicate Encodable(m: M) {
      |encode(m)| <= MAX_MESSAGE_SIZE
    }

    /** A four-byte big-endian length, then the encoding. */
    function Framed(m: M): Result<seq<Byte>, MessageError> {
      if |encode(m)| > MAX_MESSAGE_SIZE then Err(TooLarge(|encode(m)|))
      else
        SizeFitsPrefix();
        Ok(ToBigEndian(|encode(m)|, MESSAGE_LENGTH_SIZE) + encode(m))
    }
  }

  lemma SizeFitsPrefix()
    ensures MAX_MESSAGE_SIZE < Pow256(MESSAGE_LENGTH_SIZE)
  {
    assert Pow256(2) == 65_536;
  }

  // ----- Scanning a stream of frames -----

  /** The complete messages at the head of a stream, what is left over, and whether the stream went wrong there. */
  datatype Scan<M> = Scan(messages: seq<M>, rest: seq<Byte>, error: Option<MessageError>)

  function ScanFrames<M>(decode: seq<Byte> -> Option<M>, stream: seq<Byte>): Scan<M>
    decreases |stream|
  {
    if |stream| < MESSAGE_LENGTH_SIZE then Scan([], stream, None)
    else
      var length := FromBigEndian(stream[..MESSAGE_LENGTH_SIZE]);
      var end := MESSAGE_LENGTH_SIZE + length;
      if length > MAX_MESSAGE_SIZE then Scan([], stream, Some(TooLarge(length)))
      else if |stream| < end then Scan([], stream, None)
      else match decode(stream[MESSAGE_LENGTH_SIZE..end])
        case None => Scan([], stream, Some(Malformed))
        case Some(m) => After([m], ScanFrames(decode, stream[end..]))
  }

  function After<M>(messages: seq<M>, scan: Scan<M>): Scan<M> {
    scan.(messages := messages + scan.messages)
  }

  /** What has been left over is scanned again together with what comes next. */
  lemma {:induction false} ScanResumes<M>(decode: seq<Byte> -> Option<M>, a: seq<Byte>, b: seq<Byte>)
    ensures var head := ScanFrames(decode, a);
            if head.error.Some?
            then ScanFrames(decode, a + b).error == head.error && ScanFrames(decode, a + b).messages == head.messages
            else ScanFrames(decode, a + b) == After(head.messages, ScanFrames(decode, head.rest + b))
    decreases |a|
  {
    if |a| >= MESSAGE_LENGTH_SIZE {
      var length := FromBigEndian(a[..MESSAGE_LENGTH_SIZE]);
      var end := MESSAGE_LENGTH_SIZE + length;
      assert (a + b)[..MESSAGE_LENGTH_SIZE] == a[..MESSAGE_LENGTH_SIZE];
      if length <= MAX_MESSAGE_SIZE && |a| >= end {
        assert (a + b)[MESSAGE_LENGTH_SIZE..end] == a[MESSAGE_LENGTH_SIZE..end];
        assert (a + b)[end..] == a[end..] + b;
        if decode(a[MESSAGE_LENGTH_SIZE..end]).Some? {
          ScanResumes(decode, a[end..], b);
          AfterAssociates([decode(a[MESSAGE_LENGTH_SIZE..end]).value], ScanFrames(decode, a[end..]).messages,
                          ScanFrames(decode, ScanFrames(decode, a[end..]).rest + b));
        }
      }
    }
  }

  function ToList<M>(m: Option<M>): seq<M> {
    if m.Some? then [m.value] else []
  }

  lemma AfterAssociates<M>(a: seq<M>, b: seq<M>, scan: Scan<M>)
    ensures After(a + b, scan) == After(a, After(b, scan))
    ensures After([], scan) == scan
  {
    assert (a + b) + scan.messages == a + (b + scan.messages);
    assert [] + scan.messages == scan.messages;
  }

  // ----- Senders -----

  /** `slice::chunks`. */
  function Chunks(bytes: seq<Byte>, size: nat): seq<seq<Byte>>
    requires size > 0
    decreases |bytes|
  {
    if bytes == [] then []
    else if |bytes| <= size then [bytes]
    else [bytes[..size]] + Chunks(bytes[size..], size)
  }

  function Flatten(chunks: seq<seq<Byte>>): seq<Byte> {
    if chunks == [] then [] else chunks[0] + Flatten(chunks[1..])
  }

  lemma {:induction false} FlattenAppends(a: seq<seq<Byte>>, b: seq<seq<Byte>>)
    ensures Flatten(a + b) == Flatten(a) + Flatten(b)
  {
    if a == [] {
      assert a + b == b;
    } else {
      FlattenAppends(a[1..], b);
      assert (a + b)[0] == a[0] && (a + b)[1..] == a[1..] + b;
      assert a[0] + (Flatten(a[1..]) + Flatten(b)) == (a[0] + Flatten(a[1..])) + Flatten(b);
    }
  }

  lemma {:induction false} ChunksFlatten(bytes: seq<Byte>, size: nat)
    requires size > 0
    ensures Flatten(Chunks(bytes, size)) == bytes
    ensures forall chunk | chunk in Chunks(bytes, size) :: 0 < |chunk| <= size
    decreases |bytes|
  {
    if |bytes| > size {
      ChunksFlatten(bytes[size..], size);
      assert Chunks(bytes, size)[1..] == Chunks(bytes[size..], size);
    }
  }

  lemma ChunkNext(bytes: seq<Byte>, size: nat)
    requires size > 0 && bytes != []
    ensures var length := if |bytes| <= size then |bytes| else size;
            Chunks(bytes, size) == [bytes[..length]] + Chunks(bytes[length..], size)
  {
    if |bytes| <= size {
      assert bytes[..|bytes|] == bytes;
    }
  }

  /** The sender's inner loop: writes one framed message as records of at most `size` bytes. */
  method SendFrame(frame: seq<Byte>, size: nat) returns (records: seq<seq<Byte>>)
    requires size > 0
    ensures records == Chunks(frame, size)
    ensures Flatten(records) == frame && forall record | record in records :: 0 < |record| <= size
  {
    ChunksFlatten(frame, size);
    records := [];
    var rest := frame;
    while rest != []
      invariant records + Chunks(rest, size) == Chunks(frame, size)
      decreases |rest|
    {
      ChunkNext(rest, size);
      var length := if |rest| <= size then |rest| else size;
      records := records + [rest[..length]];
      rest := rest[length..];
    }
  }

  /** The records a sender writes: each framed message, cut to the transport's plaintext size. */
  function Records<M(!new)>(codec: Codec<M>, messages: seq<M>): seq<seq<Byte>>
    requires forall m | m in messages :: codec.Encodable(m)
  {
    if messages == [] then []
    else
      assert messages[0] in messages && codec.Encodable(messages[0]);
      Chunks(codec.Framed(messages[0]).value, NOISE_MAX_PLAINTEXT_SIZE) + Records(codec, messages[1..])
  }

  /** The stream of any encodable messages scans back to exactly them, with nothing left over. */
  lemma {:induction false} RecordsScanBack<M(!new)>(codec: Codec<M>, messages: seq<M>)
    requires forall m | m in messages :: codec.Encodable(m) && codec.RoundTrips(m)
    ensures ScanFrames(codec.decode, Flatten(Records(codec, messages))) == Scan(messages, [], None)
  {
    if messages != [] {
      var m := messages[0];
      assert m in messages;
      var frame := codec.Framed(m).value;
      var records := Records(codec, messages[1..]);
      RecordsScanBack(codec, messages[1..]);
      ChunksFlatten(frame, NOISE_MAX_PLAINTEXT_SIZE);
      FlattenAppends(Chunks(frame, NOISE_MAX_PLAINTEXT_SIZE), records);
      FrameScans(codec, m, Flatten(records));
      assert [m] + messages[1..] == messages;
    }
  }

  lemma FrameScans<M(!new)>(codec: Codec<M>, m: M, later: seq<Byte>)
    requires codec.Encodable(m) && codec.RoundTrips(m)
    ensures ScanFrames(codec.decode, codec.Framed(m).value + later) == After([m], ScanFrames(codec.decode, later))
  {
    var body := codec.encode(m);
    SizeFitsPrefix();
    var prefix := ToBigEndian(|body|, MESSAGE_LENGTH_SIZE);
    var stream := codec.Framed(m).value + later;
    DecodeEncoded(|body|, MESSAGE_LENGTH_SIZE);
    assert stream == prefix + (body + later);
    assert stream[..MESSAGE_LENGTH_SIZE] == prefix;
    assert stream[MESSAGE_LENGTH_SIZE..MESSAGE_LENGTH_SIZE + |body|] == body;
    assert stream[MESSAGE_LENGTH_SIZE + |body|..] == later;
  }

  // ----- The decoder -----

  class MessageDecoder<!M(!new)> {
    const decode: seq<Byte> -> Option<M>
    const lengthBytes: array<Byte>
    var lengthBytesRead: nat
    var expectedLength: Option<nat>
    var messageBytes: seq<Byte>

    constructor (decode: seq<Byte> -> Option<M>)
      ensures Valid() && Buffered() == [] && this.decode == decode && fresh(lengthBytes)
    {
      this.decode := decode;
      lengthBytes := new Byte[MESSAGE_LENGTH_SIZE](_ => 0);
      lengthBytesRead := 0;
      expectedLength := None;
      messageBytes := [];
    }

    /** Between records: part of a length, or a whole length and part of the message it announces. */
    ghost predicate Valid()
      reads this, lengthBytes
    {
      && lengthBytes.Length == MESSAGE_LENGTH_SIZE && lengthBytesRead <= MESSAGE_LENGTH_SIZE
      && match expectedLength
         case None => lengthBytesRead < MESSAGE_LENGTH_SIZE && messageBytes == []
         case Some(expected) =>
           && lengthBytesRead == MESSAGE_LENGTH_SIZE && expected == FromBigEndian(lengthBytes[..])
           && |messageBytes| < expected <= MAX_MESSAGE_SIZE
    }

    /** The bytes received and not yet delivered as a message. */
    ghost function Buffered(): seq<Byte>
      requires lengthBytes.Length == MESSAGE_LENGTH_SIZE && lengthBytesRead <= MESSAGE_LENGTH_SIZE
      reads this, lengthBytes
    {
      lengthBytes[..lengthBytesRead] + messageBytes
    }

    /** What is held is a frame that fails. */
    ghost predicate StuckOn(error: MessageError)
      requires lengthBytes.Length == MESSAGE_LENGTH_SIZE && lengthBytesRead <= MESSAGE_LENGTH_SIZE
      reads this, lengthBytes
    {
      ScanFrames(decode, Buffered()) == Scan([], Buffered(), Some(error))
    }

    /** On an error the messages completed in this record are lost, and the decoder stays on the frame that failed. */
    method Push(input: seq<Byte>) returns (r: Result<seq<M>, MessageError>)
      requires Valid()
      modifies this, lengthBytes
      ensures lengthBytesRead <= MESSAGE_LENGTH_SIZE
      ensures var scan := ScanFrames(decode, old(Buffered()) + input);
              if scan.error.Some? then r == Err(scan.error.value) && Buffered() <= scan.rest
                  && StuckOn(scan.error.value)
              else r == Ok(scan.messages) && Valid() && Buffered() == scan.rest
    {
      var bytes := input;
      var messages: seq<M> := [];
      ghost var whole := ScanFrames(decode, Buffered() + input);
      AfterAssociates([], [], whole);
      while bytes != []
        invariant Valid()
        invariant whole == After(messages, ScanFrames(decode, Buffered() + bytes))
        decreases |bytes|
      {
        var decoded;
        bytes, decoded := Consume(bytes);
        if decoded.Err? {
          return Err(decoded.error);
        }
        AfterAssociates(messages, ToList(decoded.value), ScanFrames(decode, Buffered() + bytes));
        messages := messages + ToList(decoded.value);
      }
      assert Buffered() + [] == Buffered();
      IncompleteScans();
      assert messages + [] == messages;
      return Ok(messages);
    }

    /** One turn of the loop: consumes at least a byte, and completes at most one message. */
    method Consume(bytes: seq<Byte>) returns (rest: seq<Byte>, decoded: Result<Option<M>, MessageError>)
      requires Valid() && bytes != []
      modifies this, lengthBytes
      ensures |rest| < |bytes| && lengthBytesRead <= MESSAGE_LENGTH_SIZE
      ensures var scan := ScanFrames(decode, old(Buffered()) + bytes);
              match decoded
              case Err(e) => scan.messages == [] && scan.error == Some(e) && scan.rest == Buffered() + rest
                  && StuckOn(e)
              case Ok(m) => Valid() && scan == After(ToList(m), ScanFrames(decode, Buffered() + rest))
    {
      ghost var pending := Buffered() + bytes;
      rest := bytes;
      if expectedLength.None? {
        rest := FillLength(bytes);
        if lengthBytesRead < MESSAGE_LENGTH_SIZE {
          AfterAssociates([], [], ScanFrames(decode, Buffered() + rest));
          return rest, Ok(None);
        }
        assert lengthBytes[..lengthBytesRead] == lengthBytes[..];
        var expected := FromBigEndian(lengthBytes[..]);
        if expected > MAX_MESSAGE_SIZE {
          assert pending[..MESSAGE_LENGTH_SIZE] == lengthBytes[..];
          assert Buffered() == lengthBytes[..] == lengthBytes[..][..MESSAGE_LENGTH_SIZE];
          return rest, Err(TooLarge(expected));
        }
        expectedLength := Some(expected);
        messageBytes := [];
      }
      rest := FillMessage(rest);
      assert pending == lengthBytes[..] + messageBytes + rest;
      if |messageBytes| < expectedLength.value {
        assert Buffered() == lengthBytes[..] + messageBytes;
        AfterAssociates([], [], ScanFrames(decode, Buffered() + rest));
        return rest, Ok(None);
      }
      CompleteFrame(decode, pending, lengthBytes[..], messageBytes, rest);
      var message := decode(messageBytes);
      if message.None? {
        assert Buffered() == lengthBytes[..] + messageBytes == lengthBytes[..] + messageBytes + [];
        CompleteFrame(decode, Buffered(), lengthBytes[..], messageBytes, []);
        return rest, Err(Malformed);
      }
      Reset();
      assert Buffered() + rest == rest;
      return rest, Ok(Some(message.value));
    }

    /** Fills the length prefix as far as the bytes go. */
    method FillLength(bytes: seq<Byte>) returns (rest: seq<Byte>)
      requires Valid() && expectedLength.None? && bytes != []
      modifies this`lengthBytesRead, lengthBytes
      ensures lengthBytesRead <= MESSAGE_LENGTH_SIZE && |rest| < |bytes|
      ensures Buffered() + rest == old(Buffered()) + bytes
      ensures lengthBytesRead < MESSAGE_LENGTH_SIZE ==> rest == []
    {
      var copied := Min(MESSAGE_LENGTH_SIZE - lengthBytesRead, |bytes|);
      ghost var before := lengthBytes[..lengthBytesRead];
      forall i | 0 <= i < copied {
        lengthBytes[lengthBytesRead + i] := bytes[i];
      }
      lengthBytesRead := lengthBytesRead + copied;
      assert lengthBytes[..lengthBytesRead] == before + bytes[..copied];
      rest := bytes[copied..];
      assert bytes == bytes[..copied] + rest;
    }

    /** Fills the announced message as far as the bytes go. */
    method FillMessage(bytes: seq<Byte>) returns (rest: seq<Byte>)
      requires expectedLength.Some? && |messageBytes| <= expectedLength.value
      modifies this`messageBytes
      ensures |messageBytes| <= expectedLength.value && |rest| <= |bytes|
      ensures lengthBytes[..] + messageBytes + rest == old(lengthBytes[..] + messageBytes) + bytes
      ensures |messageBytes| < expectedLength.value ==> rest == []
      ensures old(|messageBytes|) < expectedLength.value && bytes != [] ==> |rest| < |bytes|
    {
      var copied := Min(expectedLength.value - |messageBytes|, |bytes|);
      messageBytes := messageBytes + bytes[..copied];
      rest := bytes[copied..];
      assert bytes == bytes[..copied] + rest;
    }

    method Reset()
      requires lengthBytes.Length == MESSAGE_LENGTH_SIZE
      modifies this, lengthBytes
      ensures Valid() && Buffered() == []
    {
      forall i | 0 <= i < MESSAGE_LENGTH_SIZE {
        lengthBytes[i] := 0;
      }
      lengthBytesRead := 0;
      expectedLength := None;
      messageBytes := [];
    }

    /** What the decoder holds between records is not yet a message. */
    lemma IncompleteScans()
      requires Valid()
      ensures ScanFrames(decode, Buffered()) == Scan([], Buffered(), None)
    {
      if expectedLength.Some? {
        assert Buffered()[..MESSAGE_LENGTH_SIZE] == lengthBytes[..];
      }
    }
  }

  lemma CompleteFrame<M>(decode: seq<Byte> -> Option<M>, pending: seq<Byte>, prefix: seq<Byte>, body: seq<Byte>,
                         later: seq<Byte>)
    requires pending == prefix + body + later && |prefix| == MESSAGE_LENGTH_SIZE
    requires FromBigEndian(prefix) == |body| <= MAX_MESSAGE_SIZE
    ensures ScanFrames(decode, pending) == match decode(body)
                                           case None => Scan([], pending, Some(Malformed))
                                           case Some(m) => After([m], ScanFrames(decode, later))
  {
    assert pending[..MESSAGE_LENGTH_SIZE] == prefix;
    assert pending[MESSAGE_LENGTH_SIZE..MESSAGE_LENGTH_SIZE + |body|] == body;
    assert pending[MESSAGE_LENGTH_SIZE + |body|..] == later;
  }

  // ----- The receive loop -----

  /** The messages delivered from successive records, and the error that ended the loop, if any. */
  function Deliver<M>(decode: seq<Byte> -> Option<M>, pending: seq<Byte>, records: seq<seq<Byte>>): (seq<M>,
                      Option<MessageError>)
    decreases |records|
  {
    if records == [] then ([], None)
    else
      var scan := ScanFrames(decode, pending + records[0]);
      if scan.error.Some? then ([], scan.error)
      else
        var (later, error) := Deliver(decode, scan.rest, records[1..]);
        (scan.messages + later, error)
  }

  /**
   * What has been handled once a handler has been given `messages`, up to the first it refuses, and whether none was.
   */
  function HandleOn<M>(accepts: (seq<M>, M) -> bool, done: seq<M>, messages: seq<M>): (r: (seq<M>, bool))
    ensures r.1 ==> r.0 == done + messages
    ensures !r.1 ==> done <= r.0 < done + messages
    decreases |messages|
  {
    if messages == [] then (done, true)
    else if !accepts(done, messages[0]) then (done, false)
    else
      assert done + messages == (done + [messages[0]]) + messages[1..];
      HandleOn(accepts, done + [messages[0]], messages[1..])
  }

  datatype LoopError = Decoding(error: MessageError) | Refused

  /** Handles the messages of a record in turn; what the handler thinks of one may depend on those before. */
  method HandleAll<M(!new)>(accepts: (seq<M>, M) -> bool, done: seq<M>, messages: seq<M>)
      returns (handled: seq<M>, ok: bool)
    ensures (handled, ok) == HandleOn(accepts, done, messages)
  {
    handled := done;
    for i := 0 to |messages|
      invariant HandleOn(accepts, done, messages) == HandleOn(accepts, handled, messages[i..])
    {
      assert messages[i..][1..] == messages[i + 1..];
      if !accepts(handled, messages[i]) {
        return handled, false;
      }
      handled := handled + [messages[i]];
    }
    return handled, true;
  }

  lemma {:induction false} HandleAppends<M>(accepts: (seq<M>, M) -> bool, done: seq<M>, a: seq<M>, b: seq<M>)
    ensures var first := HandleOn(accepts, done, a);
            HandleOn(accepts, done, a + b) == if first.1 then HandleOn(accepts, first.0, b) else first
    decreases |a|
  {
    if a == [] {
      assert a + b == b;
    } else {
      assert (a + b)[1..] == a[1..] + b;
      if accepts(done, a[0]) {
        HandleAppends(accepts, done + [a[0]], a[1..], b);
      }
    }
  }

  /** Receives records until one fails to decode or a message is refused, handling messages as they come. */
  method ReceiveLoop<M(!new)>(decoder: MessageDecoder<M>, records: seq<seq<Byte>>, accepts: (seq<M>, M) -> bool)
    returns (handled: seq<M>, error: Option<LoopError>)
    requires decoder.Valid()
    modifies decoder, decoder.lengthBytes
    ensures var (delivered, failure) := Deliver(decoder.decode, old(decoder.Buffered()), records);
            var (taken, all) := HandleOn(accepts, [], delivered);
            && handled == taken
            && error == if !all then Some(Refused) else if failure.Some? then Some(Decoding(failure.value)) else None
  {
    handled := [];
    ghost var whole := Deliver(decoder.decode, decoder.Buffered(), records);
    assert records[0..] == records;
    for i := 0 to |records|
      invariant decoder.Valid()
      invariant var later := Deliver(decoder.decode, decoder.Buffered(), records[i..]);
                HandleOn(accepts, [], whole.0) == HandleOn(accepts, handled, later.0) && whole.1 == later.1
    {
      assert records[i..][0] == records[i] && records[i..][1..] == records[i + 1..];
      var pushed := decoder.Push(records[i]);
      if pushed.Err? {
        return handled, Some(Decoding(pushed.error));
      }
      HandleAppends(accepts, handled, pushed.value, Deliver(decoder.decode, decoder.Buffered(), records[i + 1..]).0);
      var ok;
      handled, ok := HandleAll(accepts, handled, pushed.value);
      if !ok {
        return handled, Some(Refused);
      }
    }
    return handled, None;
  }

  /**
   * However a stream is cut into records, delivery fails exactly when scanning it whole does, with the same error;
   * without an error the same messages arrive. With one, how many arrive depends on the cut.
   */
  lemma {:induction false} DeliveryForgetsChunking<M>(decode: seq<Byte> -> Option<M>, pending: seq<Byte>,
                                                      records: seq<seq<Byte>>)
    requires ScanFrames(decode, pending) == Scan([], pending, None)
    ensures var scan := ScanFrames(decode, pending + Flatten(records));
            var (delivered, error) := Deliver(decode, pending, records);
            && error == scan.error
            && delivered <= scan.messages
            && (error.None? ==> delivered == scan.messages)
    decreases |records|
  {
    if records == [] {
      assert pending + [] == pending;
    } else {
      var head := ScanFrames(decode, pending + records[0]);
      assert pending + Flatten(records) == (pending + records[0]) + Flatten(records[1..]);
      ScanResumes(decode, pending + records[0], Flatten(records[1..]));
      if head.error.None? {
        RestIsIncomplete(decode, pending + records[0]);
        DeliveryForgetsChunking(decode, head.rest, records[1..]);
      }
    }
  }

  /** With an error, what arrives is exactly what the records before the failing one complete. */
  lemma {:induction false} DeliveryStopsAtRecord<M>(decode: seq<Byte> -> Option<M>, pending: seq<Byte>,
                                                    records: seq<seq<Byte>>)
    returns (k: nat)
    requires ScanFrames(decode, pending) == Scan([], pending, None)
    requires Deliver(decode, pending, records).1.Some?
    ensures k < |records|
    ensures var (delivered, error) := Deliver(decode, pending, records);
            && ScanFrames(decode, pending + Flatten(records[..k])).messages == delivered
            && ScanFrames(decode, pending + Flatten(records[..k])).error == None
            && ScanFrames(decode, pending + Flatten(records[..k + 1])).error == error
    decreases |records|
  {
    var head := ScanFrames(decode, pending + records[0]);
    if head.error.Some? {
      k := 0;
      assert pending + Flatten(records[..0]) == pending;
      assert Flatten(records[..1]) == records[0] + Flatten(records[..1][1..]) == records[0];
    } else {
      RestIsIncomplete(decode, pending + records[0]);
      var tail := DeliveryStopsAtRecord(decode, head.rest, records[1..]);
      k := tail + 1;
      SplitFirst(pending, records, k);
      SplitFirst(pending, records, k + 1);
      ScanResumes(decode, pending + records[0], Flatten(records[1..][..tail]));
      ScanResumes(decode, pending + records[0], Flatten(records[1..][..tail + 1]));
    }
  }

  lemma SplitFirst(pending: seq<Byte>, records: seq<seq<Byte>>, k: nat)
    requires 1 <= k <= |records|
    ensures pending + Flatten(records[..k]) == (pending + records[0]) + Flatten(records[1..][..k - 1])
  {
    assert records[..k][1..] == records[1..][..k - 1];
    assert Flatten(records[..k]) == records[0] + Flatten(records[..k][1..]);
  }

  /** A frame around any encoding that fits. */
  function Frame(body: seq<Byte>): (frame: seq<Byte>)
    requires |body| <= MAX_MESSAGE_SIZE
    ensures |frame| == MESSAGE_LENGTH_SIZE + |body|
  {
    SizeFitsPrefix();
    ToBigEndian(|body|, MESSAGE_LENGTH_SIZE) + body
  }

  lemma FrameScansAlone<M>(decode: seq<Byte> -> Option<M>, body: seq<Byte>, later: seq<Byte>)
    requires |body| <= MAX_MESSAGE_SIZE
    ensures ScanFrames(decode, Frame(body) + later)
         == match decode(body)
            case None => Scan([], Frame(body) + later, Some(Malformed))
            case Some(m) => After([m], ScanFrames(decode, later))
  {
    SizeFitsPrefix();
    DecodeEncoded(|body|, MESSAGE_LENGTH_SIZE);
    CompleteFrame(decode, Frame(body) + later, ToBigEndian(|body|, MESSAGE_LENGTH_SIZE), body, later);
  }

  /**
   * A frame that decodes before one that does not, of any messages and sizes: in one record neither arrives, in two
   * the good one does, with the same error.
   */
  lemma CutDecidesWhatArrives<M>(decode: seq<Byte> -> Option<M>, good: seq<Byte>, bad: seq<Byte>)
    requires |good| <= MAX_MESSAGE_SIZE && |bad| <= MAX_MESSAGE_SIZE
    requires decode(good).Some? && decode(bad) == None
    ensures Deliver(decode, [], [Frame(good) + Frame(bad)]) == ([], Some(Malformed))
    ensures Deliver(decode, [], [Frame(good), Frame(bad)]) == ([decode(good).value], Some(Malformed))
  {
    GoodThenBadFails(decode, good, bad);
    OneFrame(decode, good);
    OneFrame(decode, bad);
    assert [] + (Frame(good) + Frame(bad)) == Frame(good) + Frame(bad);
    assert [] + Frame(good) == Frame(good) && [] + Frame(bad) == Frame(bad);
    var second, both := [Frame(bad)], [Frame(good), Frame(bad)];
    assert second[0] == Frame(bad) && Deliver(decode, [], second) == ([], Some(Malformed));
    assert both[0] == Frame(good) && both[1..] == second;
    assert ScanFrames(decode, [] + both[0]) == Scan([decode(good).value], [], None);
    assert [decode(good).value] + [] == [decode(good).value];
  }

  lemma OneFrame<M>(decode: seq<Byte> -> Option<M>, body: seq<Byte>)
    requires |body| <= MAX_MESSAGE_SIZE
    ensures ScanFrames(decode, Frame(body))
         == match decode(body) case None => Scan([], Frame(body), Some(Malformed)) case Some(m) => Scan([m], [], None)
  {
    FrameScansAlone(decode, body, []);
    assert Frame(body) + [] == Frame(body);
  }

  lemma GoodThenBadFails<M>(decode: seq<Byte> -> Option<M>, good: seq<Byte>, bad: seq<Byte>)
    requires |good| <= MAX_MESSAGE_SIZE && |bad| <= MAX_MESSAGE_SIZE
    requires decode(good).Some? && decode(bad) == None
    ensures ScanFrames(decode, Frame(good) + Frame(bad)).error == Some(Malformed)
  {
    FrameScansAlone(decode, good, Frame(bad));
    OneFrame(decode, bad);
  }

  lemma {:induction false} RestIsIncomplete<M>(decode: seq<Byte> -> Option<M>, stream: seq<Byte>)
    requires ScanFrames(decode, stream).error.None?
    ensures var rest := ScanFrames(decode, stream).rest;
            ScanFrames(decode, rest) == Scan([], rest, None)
    decreases |stream|
  {
    if |stream| >= MESSAGE_LENGTH_SIZE {
      var end := MESSAGE_LENGTH_SIZE + FromBigEndian(stream[..MESSAGE_LENGTH_SIZE]);
      if |stream| >= end {
        RestIsIncomplete(decode, stream[end..]);
      }
    }
  }

  /** End to end: what a sender queues is what the receiver is handed, however the records are split on the way. */
  lemma SentIsDelivered<M(!new)>(codec: Codec<M>, messages: seq<M>, records: seq<seq<Byte>>)
    requires forall m | m in messages :: codec.Encodable(m) && codec.RoundTrips(m)
    requires Flatten(records) == Flatten(Records(codec, messages))
    ensures Deliver(codec.decode, [], records) == (messages, None)
  {
    RecordsScanBack(codec, messages);
    DeliveryForgetsChunking(codec.decode, [], records);
    assert [] + Flatten(records) == Flatten(records);
  }
}
