/** Big-endian byte strings, as `to_be_bytes` and `from_be_bytes` use them. */
module Bytes {
  type Byte = b: nat | b < 256

  function Pow256(n: nat): (p: nat)
    ensures p >= 1
  {
    if n == 0 then 1 else 256 * Pow256(n - 1)
  }

  function ToBigEndian(value: nat, width: nat): (bytes: seq<Byte>)
    requires value < Pow256(width)
    ensures |bytes| == width
  {
    if width == 0 then []
    else ToBigEndian(value / 256, width - 1) + [value % 256]
  }

  function FromBigEndian(bytes: seq<Byte>): (value: nat)
    ensures value < Pow256(|bytes|)
  {
    if bytes == [] then 0
    else 256 * FromBigEndian(bytes[..|bytes| - 1]) + bytes[|bytes| - 1]
  }

  lemma {:induction false} DecodeEncoded(value: nat, width: nat)
    requires value < Pow256(width)
    ensures FromBigEndian(ToBigEndian(value, width)) == value
  {
    if width > 0 {
      DecodeEncoded(value / 256, width - 1);
      var bytes := ToBigEndian(value, width);
      assert bytes[..width - 1] == ToBigEndian(value / 256, width - 1);
    }
  }

  lemma {:induction false} EncodeDecoded(bytes: seq<Byte>)
    ensures ToBigEndian(FromBigEndian(bytes), |bytes|) == bytes
  {
    if bytes != [] {
      EncodeDecoded(bytes[..|bytes| - 1]);
    }
  }

  /** Byte strings compare at the first byte where they differ. */
  ghost predicate LexLess(a: seq<Byte>, b: seq<Byte>) {
    exists i :: 0 <= i < |a| == |b| && a[i] < b[i] && a[..i] == b[..i]
  }

  lemma ByteThenRest(a: nat, b: nat)
    ensures a < b <==> a / 256 < b / 256 || (a / 256 == b / 256 && a % 256 < b % 256)
  {
  }

  lemma LexByLast(a: seq<Byte>, b: seq<Byte>, x: Byte, y: Byte)
    requires |a| == |b|
    ensures LexLess(a + [x], b + [y]) <==> LexLess(a, b) || (a == b && x < y)
  {
    var longA, longB := a + [x], b + [y];
    if LexLess(a, b) {
      var i :| 0 <= i < |a| == |b| && a[i] < b[i] && a[..i] == b[..i];
      assert longA[i] < longB[i] && longA[..i] == a[..i] && longB[..i] == b[..i];
    }
    if a == b && x < y {
      assert longA[|a|] < longB[|a|] && longA[..|a|] == a && longB[..|a|] == b;
    }
    if LexLess(longA, longB) {
      var i :| 0 <= i < |longA| == |longB| && longA[i] < longB[i] && longA[..i] == longB[..i];
      if i < |a| {
        assert longA[..i] == a[..i] && longB[..i] == b[..i] && a[i] < b[i];
      } else {
        assert longA[..i] == a && longB[..i] == b;
      }
    }
  }

  /** The most significant byte comes first: values of one width compare as their byte strings do. */
  lemma {:induction false} BigEndianOrder(a: nat, b: nat, width: nat)
    requires a < Pow256(width) && b < Pow256(width)
    ensures a < b <==> LexLess(ToBigEndian(a, width), ToBigEndian(b, width))
  {
    if width > 0 {
      BigEndianOrder(a / 256, b / 256, width - 1);
      ByteThenRest(a, b);
      DecodeEncoded(a / 256, width - 1);
      DecodeEncoded(b / 256, width - 1);
      LexByLast(ToBigEndian(a / 256, width - 1), ToBigEndian(b / 256, width - 1), a % 256, b % 256);
    }
  }
}
