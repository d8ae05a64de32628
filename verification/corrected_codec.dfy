/**
 * The wire codec as its layout intends it: the length written as two
 * big-endian bytes, the body read back from offset 7, the Hello name taken
 * after the four extension bytes, and the Datum value running to the end of
 * the body. The Hello and Datum encoders of the current codec are already
 * right and are reused. Each decoder here inverts its encoder exactly.
 */
module CorrectedCodec {
  import opened Wrappers
  import opened Primitives
  import opened WireTypes
  import Codec

  function MessageToBytes(m: Message): (r: Result<seq<byte>, Panic>)
    ensures r.Success? <==> m.length + HeaderSize < 0x1_0000 && m.length <= |m.body|
    ensures r.Success? ==> |r.value| == HeaderSize + m.length
  {
    if m.length + HeaderSize >= 0x1_0000 || |m.body| < m.length then Failure(IndexOutOfRange)
    else Success(BeBytes(m.id, 4) + [m.msgType] + BeBytes(m.length, 2) + m.body[..m.length])
  }

  function BytesToMessage(b: seq<byte>): (r: Result<Message, Panic>)
    ensures r.Success? <==> |b| >= HeaderSize && |b| >= HeaderSize + Codec.HeaderLength(b)
    ensures r.Success? ==> Framed(r.value) && r.value.signature == []
  {
    if |b| < HeaderSize then Failure(IndexOutOfRange)
    else
      var length := Codec.HeaderLength(b);
      if |b| < HeaderSize + length then Failure(IndexOutOfRange)
      else Success(Message(Codec.HeaderId(b), b[4], length, b[HeaderSize..HeaderSize + length], []))
  }

  /** Every framed, unsigned message that fits the 16-bit length decodes back to itself. */
  lemma MessageRoundTrip(m: Message)
    requires Framed(m) && m.signature == [] && m.length + HeaderSize < 0x1_0000
    ensures BytesToMessage(MessageToBytes(m).value) == Success(m)
  {
    var e := MessageToBytes(m).value;
    assert e[..4] == BeBytes(m.id, 4);
    BeValueOfBeBytes(m.id, 4);
    assert e[5..7] == BeBytes(m.length, 2);
    BeValueOfBeBytes(m.length, 2);
    var l := e[5..7];
    assert l[..1][..0] == [];
    assert BeValue(l[..1]) == e[5];
    assert BeValue(l) == (e[5] as int) * 256 + e[6];
    assert Codec.HeaderLength(e) == m.length;
    assert Codec.HeaderId(e) == m.id;
    assert e[HeaderSize..HeaderSize + m.length] == m.body;
  }

  function BytesToHelloBody(b: seq<byte>): (r: Result<HelloBody, Panic>)
    ensures r.Success? <==> |b| >= 4
    ensures r.Success? ==> |r.value.name| == |b| - 4
  {
    if |b| < 4 then Failure(IndexOutOfRange)
    else Success(HelloBody(ToInt32(Codec.HeaderId(b)), b[4..]))
  }

  lemma HelloRoundTrip(h: HelloBody)
    ensures BytesToHelloBody(Codec.HelloBodyToBytes(h)) == Success(h)
  {
    var e := Codec.HelloBodyToBytes(h);
    Codec.HelloExtensionsRoundTrip(h);
    assert e[4..] == h.name;
  }

  function BytesToDatumBody(b: seq<byte>): (r: Result<DatumBody, Panic>)
    ensures r.Success? <==> |b| >= 32
    ensures r.Success? ==> |r.value.value| == |b| - 32
  {
    if |b| < 32 then Failure(SliceBoundsOutOfRange)
    else Success(DatumBody(b[..32], b[32..]))
  }

  lemma DatumRoundTrip(d: DatumBody)
    ensures BytesToDatumBody(Codec.DatumBodyToBytes(d)) == Success(d)
  {
    var e := Codec.DatumBodyToBytes(d);
    assert e[..32] == d.hash && e[32..] == d.value;
  }
}
