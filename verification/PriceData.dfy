/** price-feed/src/price_data.rs and constants.rs: the signed price payload. */
module PriceData {
  import opened Prelude
  import opened Bytes
  import opened FeedRegistries

  const VALIDITY_WINDOW: nat := 300
  const SOURCE_DATA_VALIDITY_DURATION: nat := 300
  const MAX_CLOCK_SKEW: nat := 5
  const MAX_POLLING_ERROR_NUM: nat := 5
  const POLLING_RETRY_TIME: nat := 60
  const MAX_ACCEPT_DEVIATION_FEED_BPS: nat := 100

  const PRICE_FEED_DATA_LEN: nat := 32

  datatype PriceFeedData = PriceFeedData(feedId: FeedId, price: nat, decimals: nat, receivedAt: nat, validUntil: nat) {
    /** The widths of the fields: two 32-bit and three 64-bit integers. */
    predicate InRange() {
      && feedId < Pow256(4) && decimals < Pow256(4)
      && price < Pow256(8) && receivedAt < Pow256(8) && validUntil < Pow256(8)
    }

    function ToBytes(): (bytes: seq<Byte>)
      requires InRange()
      ensures |bytes| == PRICE_FEED_DATA_LEN
    {
      ToBigEndian(feedId, 4) + ToBigEndian(decimals, 4) + ToBigEndian(price, 8)
      + ToBigEndian(receivedAt, 8) + ToBigEndian(validUntil, 8)
    }

    predicate StampedAhead(now: nat) {
      receivedAt > SaturatingAdd(now, MAX_CLOCK_SKEW)
    }

    predicate ValidityStretched() {
      validUntil > SaturatingAdd(receivedAt, VALIDITY_WINDOW)
    }
  }

  datatype DecodeError = InvalidLength(length: nat)

  function FromBytes(bytes: seq<Byte>): Result<PriceFeedData, DecodeError> {
    if |bytes| != PRICE_FEED_DATA_LEN then Err(InvalidLength(|bytes|))
    else
      Ok(PriceFeedData(
           FromBigEndian(bytes[0..4]),
           FromBigEndian(bytes[8..16]),
           FromBigEndian(bytes[4..8]),
           FromBigEndian(bytes[16..24]),
           FromBigEndian(bytes[24..32])))
  }

  /** The payload is canonical: bytes and values of the right length and range correspond one to one. */
  lemma PayloadRoundTrips(data: PriceFeedData)
    requires data.InRange()
    ensures FromBytes(data.ToBytes()) == Ok(data)
  {
    var bytes := data.ToBytes();
    var feed, decimals := ToBigEndian(data.feedId, 4), ToBigEndian(data.decimals, 4);
    var price, received, expiry := ToBigEndian(data.price, 8), ToBigEndian(data.receivedAt, 8),
        ToBigEndian(data.validUntil, 8);
    assert bytes == feed + decimals + price + received + expiry;
    assert bytes[0..4] == feed && bytes[4..8] == decimals && bytes[8..16] == price;
    assert bytes[16..24] == received && bytes[24..] == expiry && bytes[24..] == bytes[24..32];
    DecodeEncoded(data.feedId, 4);
    DecodeEncoded(data.decimals, 4);
    DecodeEncoded(data.price, 8);
    DecodeEncoded(data.receivedAt, 8);
    DecodeEncoded(data.validUntil, 8);
  }

  lemma PayloadIsCanonical(bytes: seq<Byte>)
    requires FromBytes(bytes).Ok?
    ensures FromBytes(bytes).value.InRange() && FromBytes(bytes).value.ToBytes() == bytes
  {
    EncodeDecoded(bytes[0..4]);
    EncodeDecoded(bytes[4..8]);
    EncodeDecoded(bytes[8..16]);
    EncodeDecoded(bytes[16..24]);
    EncodeDecoded(bytes[24..32]);
    assert bytes == bytes[0..4] + bytes[4..8] + bytes[8..16] + bytes[16..24] + bytes[24..32];
  }

  /** Where each field lies: id, decimals, price, receipt and expiry, as the covenant rebuilds the message. */
  lemma PayloadLayout(data: PriceFeedData)
    requires data.InRange()
    ensures var bytes := data.ToBytes();
            && bytes[..4] == ToBigEndian(data.feedId, 4) && bytes[4..8] == ToBigEndian(data.decimals, 4)
            && bytes[8..16] == ToBigEndian(data.price, 8) && bytes[16..24] == ToBigEndian(data.receivedAt, 8)
            && bytes[24..] == ToBigEndian(data.validUntil, 8)
  {
    var bytes := data.ToBytes();
    assert bytes[..4] == ToBigEndian(data.feedId, 4);
    assert bytes[4..8] == ToBigEndian(data.decimals, 4);
    assert bytes[8..16] == ToBigEndian(data.price, 8);
    assert bytes[16..24] == ToBigEndian(data.receivedAt, 8);
  }
}
