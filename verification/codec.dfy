/**
 * The current wire codec (src/udp/format.go), as the code computes it,
 * defects included: the high length byte is always written as 0, the body
 * is written at offset 7 but read from offset 8, the Hello name keeps the
 * extension bytes and loses its last byte, and the Datum value loses its
 * last 32 bytes. No signature is written or read.
 */
module Codec {
  import opened Wrappers
  import opened Primitives
  import opened WireTypes

  /** The big-endian id in bytes 0-3 (`uint32(b[0])<<24 + ...`). */
  function HeaderId(b: seq<byte>): (r: uint32)
    requires |b| >= 4
  {
    BeBytesOfBeValue(b[..4]);
    BeValue(b[..4])
  }

  /** The big-endian declared length in bytes 5-6. */
  function HeaderLength(b: seq<byte>): (r: uint16)
    requires |b| >= 7
    ensures r == (b[5] as int) * 256 + b[6]
  {
    (b[5] as int) * 256 + b[6]
  }

  function MessageToBytes(m: Message): (r: Result<seq<byte>, Panic>)
    // make([]byte, 7+Length) wraps in uint16, and the body loop reads Length bytes
    ensures r.Success? <==> m.length + HeaderSize < 0x1_0000 && m.length <= |m.body|
    ensures r.Success? ==> |r.value| == HeaderSize + m.length
    ensures r.Success? ==> r.value[5] == 0 && r.value[HeaderSize..] == m.body[..m.length]
  {
    var size := (HeaderSize + m.length) % 0x1_0000;
    if size < HeaderSize then Failure(IndexOutOfRange)
    else if |m.body| < m.length then Failure(IndexOutOfRange)
    else
      // byte(Length * 256) keeps the low byte of a product that is a multiple of 256
      Success(BeBytes(m.id, 4) + [m.msgType, (m.length * 256) % 0x100, m.length % 0x100]
              + m.body[..m.length])
  }

  function BytesToMessage(b: seq<byte>): (r: Result<Message, Panic>)
    ensures r.Success? <==> |b| >= HeaderSize && (HeaderLength(b) == 0 || |b| >= HeaderLength(b) + 8)
    ensures r.Success? ==> Framed(r.value) && r.value.signature == []
  {
    if |b| < HeaderSize then Failure(IndexOutOfRange)
    else
      var length := HeaderLength(b);
      if length > 0 && |b| < length + 8 then Failure(IndexOutOfRange)
      else
        var body := if length == 0 then [] else b[8..8 + length];
        Success(Message(HeaderId(b), b[4], length, body, []))
  }

  function HelloBodyToBytes(h: HelloBody): (r: seq<byte>)
    ensures |r| == 4 + |h.name|
  {
    BeBytes(h.extensions % 0x1_0000_0000, 4) + h.name
  }

  function BytesToHelloBody(b: seq<byte>): (r: Result<HelloBody, Panic>)
    ensures r.Success? <==> |b| >= 4
    ensures r.Success? ==> |r.value.name| == |b| - 1
  {
    if |b| < 4 then Failure(IndexOutOfRange)
    else Success(HelloBody(ToInt32(HeaderId(b)), b[..|b| - 1]))
  }

  function DatumBodyToBytes(d: DatumBody): (r: seq<byte>)
    ensures |r| == 32 + |d.value|
  {
    d.hash + d.value
  }

  function BytesToDatumBody(b: seq<byte>): (r: Result<DatumBody, Panic>)
    // b[:32] needs 32 bytes; b[32:len-32] needs len-32 >= 32
    ensures r.Success? <==> |b| >= 64
    ensures r.Success? ==> |r.value.value| == |b| - 64
  {
    if |b| < 32 then Failure(SliceBoundsOutOfRange)
    else if |b| - 32 < 32 then Failure(SliceBoundsOutOfRange)
    else Success(DatumBody(b[..32], b[32..|b| - 32]))
  }

  // ---------------------------------------------------------------------
  // Round trips that hold, and the ones that do not.

  /** The receive path decodes a buffer larger than the datagram; `trailing` is what follows it. */
  lemma HeaderRoundTrip(m: Message, trailing: seq<byte>)
    requires MessageToBytes(m).Success?
    requires |trailing| >= 1
    ensures var d := BytesToMessage(MessageToBytes(m).value + trailing);
            && d.Success?
            && d.value.id == m.id
            && d.value.msgType == m.msgType
            && d.value.length == m.length % 256
            && d.value.signature == []
  {
    var e := MessageToBytes(m).value;
    var b := e + trailing;
    assert b[..4] == BeBytes(m.id, 4);
    BeValueOfBeBytes(m.id, 4);
    assert b[5] == 0 && b[6] == m.length % 256;
  }

  /** The declared length survives encoding exactly when it fits in the low byte. */
  lemma LengthRoundTripIff(m: Message, trailing: seq<byte>)
    requires MessageToBytes(m).Success?
    requires |trailing| >= 1
    ensures BytesToMessage(MessageToBytes(m).value + trailing).Success?
    ensures BytesToMessage(MessageToBytes(m).value + trailing).value.length == m.length
            <==> m.length < 256
  {
    HeaderRoundTrip(m, trailing);
  }

  /** Decoding reads the body one byte late: it loses the first body byte and gains the next one. */
  lemma BodyReadShiftedByOne(m: Message, trailing: seq<byte>)
    requires MessageToBytes(m).Success?
    requires 0 < m.length < 256 && |trailing| >= 1
    ensures BytesToMessage(MessageToBytes(m).value + trailing).value.body
            == m.body[1..m.length] + trailing[..1]
  {
    var e := MessageToBytes(m).value;
    var b := e + trailing;
    HeaderRoundTrip(m, trailing);
    assert b[8..8 + m.length] == m.body[1..m.length] + trailing[..1];
  }

  /** A datagram decoded on its own, without a byte after it, fails exactly when 0 < Length < 256. */
  lemma ExactDecodeFailsIff(m: Message)
    requires MessageToBytes(m).Success?
    ensures BytesToMessage(MessageToBytes(m).value).Failure? <==> 0 < m.length < 256
  {
    var e := MessageToBytes(m).value;
    assert e[5] == 0 && e[6] == m.length % 256;
  }

  /** Nothing after the declared body is read: a signature appended to a datagram is ignored. */
  lemma TrailingBytesIgnored(b: seq<byte>, extra: seq<byte>)
    requires BytesToMessage(b).Success?
    ensures BytesToMessage(b + extra) == BytesToMessage(b)
  {
    var c := b + extra;
    assert c[..4] == b[..4];
    assert HeaderLength(c) == HeaderLength(b);
    var n := HeaderLength(b);
    if n > 0 {
      assert c[8..8 + n] == b[8..8 + n];
    }
  }

  /** Extensions survive a Hello round trip, under 32-bit two's complement. */
  lemma HelloExtensionsRoundTrip(h: HelloBody)
    ensures BytesToHelloBody(HelloBodyToBytes(h)).Success?
    ensures BytesToHelloBody(HelloBodyToBytes(h)).value.extensions == h.extensions
  {
    var e := HelloBodyToBytes(h);
    assert e[..4] == BeBytes(h.extensions % 0x1_0000_0000, 4);
    BeValueOfBeBytes(h.extensions % 0x1_0000_0000, 4);
  }

  /** The decoded name is the encoding minus its last byte: the four extension bytes, then the name less its last byte. */
  lemma HelloNameIsShiftedEncoding(h: HelloBody)
    requires |h.name| > 0
    ensures var e := HelloBodyToBytes(h);
            BytesToHelloBody(e).value.name == e[..4] + h.name[..|h.name| - 1]
  {
    var e := HelloBodyToBytes(h);
    assert e[..|e| - 1] == e[..4] + h.name[..|h.name| - 1];
  }

  /** No Hello name survives a round trip: the decoded one is always three bytes longer. */
  lemma HelloNameNeverRoundTrips(h: HelloBody)
    ensures |BytesToHelloBody(HelloBodyToBytes(h)).value.name| == |h.name| + 3
    ensures BytesToHelloBody(HelloBodyToBytes(h)).value.name != h.name
  {
  }

  /** A Datum body decodes only when its value has at least 32 bytes, and then loses the last 32. */
  lemma DatumRoundTripLosesTail(d: DatumBody)
    ensures BytesToDatumBody(DatumBodyToBytes(d)).Success? <==> |d.value| >= 32
    ensures BytesToDatumBody(DatumBodyToBytes(d)).Success? ==>
              && BytesToDatumBody(DatumBodyToBytes(d)).value.hash == d.hash
              && BytesToDatumBody(DatumBodyToBytes(d)).value.value == d.value[..|d.value| - 32]
  {
    var e := DatumBodyToBytes(d);
    assert e[..32] == d.hash;
    if |d.value| >= 32 {
      assert e[32..|e| - 32] == d.value[..|d.value| - 32];
    }
  }

  /** Consequently no Datum body round-trips. */
  lemma DatumNeverRoundTrips(d: DatumBody)
    ensures BytesToDatumBody(DatumBodyToBytes(d)) != Success(d)
  {
    DatumRoundTripLosesTail(d);
  }
}
