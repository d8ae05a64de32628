/**
 * The 64-byte public-key layout (src/crypto/format.go): X then Y, each a
 * 32-byte big-endian, zero-padded unsigned integer. Parsing always yields a
 * P-256 key.
 */
module PublicKeyFormat {
  import opened Wrappers
  import opened Primitives

  const CoordinateSize: nat := 32

  /** The curves an `ecdsa.PublicKey` may name. */
  datatype Curve = P224 | P256 | P384 | P521

  /** An `ecdsa.PublicKey`: a curve and the two affine coordinates. */
  datatype EcPoint = EcPoint(curve: Curve, x: nat, y: nat)

  /** A coordinate fits its 32-byte half of the buffer. */
  predicate FitsCoordinate(n: nat)
  {
    n < Pow256(CoordinateSize)
  }

  function FormatPublicKey(key: EcPoint): (r: Result<seq<byte>, Panic>)
    // FillBytes panics when the value needs more bytes than the buffer has
    ensures r.Success? <==> FitsCoordinate(key.x) && FitsCoordinate(key.y)
    ensures r.Success? ==> |r.value| == 2 * CoordinateSize
  {
    if !FitsCoordinate(key.x) || !FitsCoordinate(key.y) then Failure(BufferTooSmall)
    else Success(BeBytes(key.x, CoordinateSize) + BeBytes(key.y, CoordinateSize))
  }

  function ParsePublicKey(key: seq<byte>): (r: Result<EcPoint, Panic>)
    ensures r.Success? <==> |key| >= CoordinateSize
    ensures r.Success? ==> r.value.curve == P256 && FitsCoordinate(r.value.x)
    ensures r.Success? ==> r.value.x == BeValue(key[..CoordinateSize]) && r.value.y == BeValue(key[CoordinateSize..])
  {
    if |key| < CoordinateSize then Failure(SliceBoundsOutOfRange)
    else
      BeValueBound(key[..CoordinateSize]);
      Success(EcPoint(P256, BeValue(key[..CoordinateSize]), BeValue(key[CoordinateSize..])))
  }

  /** Parsing a formatted P-256 key gives back the key. */
  lemma ParseFormatRoundTrip(key: EcPoint)
    requires key.curve == P256 && FitsCoordinate(key.x) && FitsCoordinate(key.y)
    ensures ParsePublicKey(FormatPublicKey(key).value) == Success(key)
  {
    var b := FormatPublicKey(key).value;
    assert b[..CoordinateSize] == BeBytes(key.x, CoordinateSize);
    assert b[CoordinateSize..] == BeBytes(key.y, CoordinateSize);
    BeValueOfBeBytes(key.x, CoordinateSize);
    BeValueOfBeBytes(key.y, CoordinateSize);
  }

  /** Formatting a parsed 64-byte buffer gives back the buffer. */
  lemma FormatParseRoundTrip(b: seq<byte>)
    requires |b| == 2 * CoordinateSize
    ensures FormatPublicKey(ParsePublicKey(b).value) == Success(b)
  {
    BeBytesOfBeValue(b[..CoordinateSize]);
    BeBytesOfBeValue(b[CoordinateSize..]);
    assert b == b[..CoordinateSize] + b[CoordinateSize..];
  }

  /** X sits in bytes 0-31 and Y in bytes 32-63, each as its big-endian value. */
  lemma FormatLayout(key: EcPoint)
    requires FitsCoordinate(key.x) && FitsCoordinate(key.y)
    ensures BeValue(FormatPublicKey(key).value[..CoordinateSize]) == key.x
    ensures BeValue(FormatPublicKey(key).value[CoordinateSize..]) == key.y
  {
    var b := FormatPublicKey(key).value;
    assert b[..CoordinateSize] == BeBytes(key.x, CoordinateSize);
    assert b[CoordinateSize..] == BeBytes(key.y, CoordinateSize);
    BeValueOfBeBytes(key.x, CoordinateSize);
    BeValueOfBeBytes(key.y, CoordinateSize);
  }
}
