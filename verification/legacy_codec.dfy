/**
 * The older codec snapshot (src/udptypes/format.go) with its signed field
 * widths (src/udptypes/types.go). It reads the body from offset 7, so framed
 * messages with a one-byte length round-trip; it still writes the high length
 * byte as 0, builds Hello names and Datum hashes one `string(byte)` at a time
 * (which UTF-8-encodes every byte from 0x80 on), and writes Datum values into
 * a slice it never allocated.
 */
module LegacyCodec {
  import opened Wrappers
  import opened Primitives

  datatype Message = Message(
    id: int32,
    msgType: int8,
    length: int16,
    body: seq<byte>,
    signature: seq<byte>)

  datatype HelloBody = HelloBody(extensions: int32, name: seq<byte>)

  /** The hash is a Go string here, so it can have any length. */
  datatype DatumBody = DatumBody(hash: seq<byte>, value: seq<byte>)

  /** The four bytes of `byte(x >> 24), byte(x >> 16), byte(x >> 8), byte(x)` for a signed 32-bit x. */
  function Int32Bytes(x: int32): (r: seq<byte>)
    ensures |r| == 4
  {
    BeBytes(x % 0x1_0000_0000, 4)
  }

  /** `int32(b[0])*(1<<24) + ... + int32(b[3])`, evaluated with 32-bit wrap-around. */
  function Int32Value(b: seq<byte>): (r: int32)
    requires |b| >= 4
  {
    BeValueBound(b[..4]);
    ToInt32(BeValue(b[..4]))
  }

  lemma Int32RoundTrip(x: int32, rest: seq<byte>)
    ensures Int32Value(Int32Bytes(x) + rest) == x
  {
    var b := Int32Bytes(x) + rest;
    assert b[..4] == Int32Bytes(x);
    BeValueOfBeBytes(x % 0x1_0000_0000, 4);
  }

  function MessageToBytes(m: Message): (r: Result<seq<byte>, Panic>)
    // make([]byte, 7+Length) with 7+Length computed in int16
    ensures r.Success? <==> 0 <= m.length <= 0x7FFF - 7 && m.length <= |m.body|
    ensures r.Success? ==> |r.value| == 7 + m.length && r.value[5] == 0
  {
    var size := ToInt16((7 + m.length) % 0x1_0000);
    if size < 0 then Failure(NegativeMakeLength)
    else if size < 7 then Failure(IndexOutOfRange)
    else if |m.body| < m.length then Failure(IndexOutOfRange)
    else
      Success(Int32Bytes(m.id) + [m.msgType % 0x100, (m.length * 256) % 0x100, m.length % 0x100]
              + m.body[..m.length])
  }

  function BytesToMessage(b: seq<byte>): (r: Result<Message, Panic>)
    ensures r.Success? ==> |r.value.body| == r.value.length && r.value.signature == []
    ensures |b| >= 7 && b[5] >= 0x80 ==> r.Failure?
  {
    if |b| < 7 then Failure(IndexOutOfRange)
    else
      var length := ToInt16((b[5] as int) * 256 + b[6]);
      if length < 0 then Failure(NegativeMakeLength)
      else if |b| < 7 + length then Failure(IndexOutOfRange)
      else Success(Message(Int32Value(b), ToInt8(b[4]), length, b[7..7 + length], []))
  }

  /** With a one-byte length, every framed unsigned message decodes back to itself. */
  lemma MessageRoundTrip(m: Message)
    requires 0 <= m.length < 256 && |m.body| == m.length && m.signature == []
    ensures BytesToMessage(MessageToBytes(m).value) == Success(m)
  {
    var e := MessageToBytes(m).value;
    Int32RoundTrip(m.id, e[4..]);
    assert e == Int32Bytes(m.id) + e[4..];
    assert e[5] == 0 && e[6] == m.length;
    assert e[7..7 + m.length] == m.body;
  }

  /** Longer messages come back with only the low byte of their length. */
  lemma LengthKeepsLowByte(m: Message)
    requires MessageToBytes(m).Success?
    ensures BytesToMessage(MessageToBytes(m).value).Success?
    ensures BytesToMessage(MessageToBytes(m).value).value.length == m.length % 256
    ensures BytesToMessage(MessageToBytes(m).value).value.length == m.length <==> m.length < 256
  {
    var e := MessageToBytes(m).value;
    assert e[5] == 0 && e[6] == m.length % 256;
  }

  function HelloBodyToBytes(h: HelloBody): (r: seq<byte>)
    ensures |r| == 4 + |h.name|
  {
    Int32Bytes(h.extensions) + h.name
  }

  function BytesToHelloBody(b: seq<byte>): (r: Result<HelloBody, Panic>)
    ensures r.Success? <==> |b| >= 4
    ensures r.Success? ==> |r.value.name| >= |b| - 4
  {
    if |b| < 4 then Failure(IndexOutOfRange)
    else
      RuneExpandLength(b[..|b| - 4]);
      Success(HelloBody(Int32Value(b), RuneExpand(b[..|b| - 4])))
  }

  lemma HelloExtensionsRoundTrip(h: HelloBody)
    ensures BytesToHelloBody(HelloBodyToBytes(h)).Success?
    ensures BytesToHelloBody(HelloBodyToBytes(h)).value.extensions == h.extensions
  {
    Int32RoundTrip(h.extensions, h.name);
  }

  /** The decoded name is built from the first |name| bytes of the encoding, extension bytes first. */
  lemma HelloNameFromOffsetZero(h: HelloBody)
    ensures var e := HelloBodyToBytes(h);
            BytesToHelloBody(e).value.name == RuneExpand(e[..|h.name|])
  {
  }

  /** A one-letter name with zero extensions comes back as a single NUL byte. */
  lemma HelloNameCounterexample()
    ensures BytesToHelloBody(HelloBodyToBytes(HelloBody(0, [0x61]))).value.name == [0]
  {
    var e := HelloBodyToBytes(HelloBody(0, [0x61]));
    assert e[..4] == BeBytes(0, 4);
    assert e[..1] == [0];
    assert RuneExpand(e[..1][..0]) == [];
  }

  /** The encoder pads a short hash with NULs, lets the value overwrite a long one, and panics when the hash overruns the buffer. */
  function DatumBodyToBytes(d: DatumBody): (r: Result<seq<byte>, Panic>)
    ensures r.Success? <==> |d.hash| <= 32 + |d.value|
    ensures r.Success? ==> |r.value| == 32 + |d.value| && r.value[32..] == d.value
    ensures r.Success? && |d.hash| == 32 ==> r.value[..32] == d.hash
  {
    if |d.hash| > 32 + |d.value| then Failure(IndexOutOfRange)
    else if |d.hash| <= 32 then Success(d.hash + Nuls(32 - |d.hash|) + d.value)
    else Success(d.hash[..32] + d.value)
  }

  /** Decoding succeeds only for exactly 32 bytes: any value byte is written into the nil `Value` slice. */
  function BytesToDatumBody(b: seq<byte>): (r: Result<DatumBody, Panic>)
    ensures r.Success? <==> |b| == 32
    ensures r.Success? ==> r.value.value == [] && |r.value.hash| >= 32
  {
    // under 32 bytes the hash loop reads past the end; over 32 the value loop indexes a nil slice
    if |b| != 32 then Failure(IndexOutOfRange)
    else
      RuneExpandLength(b);
      Success(DatumBody(RuneExpand(b), []))
  }

  /** A Datum with a 32-byte hash decodes only when its value is empty, and its hash survives only when every byte is ASCII. */
  lemma DatumRoundTrip(d: DatumBody)
    requires |d.hash| == 32
    ensures BytesToDatumBody(DatumBodyToBytes(d).value).Success? <==> d.value == []
    ensures BytesToDatumBody(DatumBodyToBytes(d).value) == Success(d) <==> d.value == [] && IsAscii(d.hash)
  {
    if d.value == [] {
      assert DatumBodyToBytes(d).value == d.hash;
      RuneExpandIdentityIffAscii(d.hash);
    }
  }

  // ---------------------------------------------------------------------
  // The older snapshot as evidently intended: the high length byte written,
  // the Hello name read from offset 4, the Datum value allocated before it
  // is filled. Each keeps the snapshot's signed widths and its per-byte
  // `string(byte)` conversion, so names and hashes still survive only when
  // they are ASCII.

  /** `bytes[5] = byte(udpMsg.Length >> 8)`; everything else as written. */
  function CorrectedMessageToBytes(m: Message): (r: Result<seq<byte>, Panic>)
    ensures r.Success? <==> MessageToBytes(m).Success?
    ensures r.Success? ==> |r.value| == 7 + m.length && r.value[5] == m.length / 256
  {
    var size := ToInt16((7 + m.length) % 0x1_0000);
    if size < 0 then Failure(NegativeMakeLength)
    else if size < 7 then Failure(IndexOutOfRange)
    else if |m.body| < m.length then Failure(IndexOutOfRange)
    else
      Success(Int32Bytes(m.id) + [m.msgType % 0x100, (m.length / 256) % 0x100, m.length % 0x100]
              + m.body[..m.length])
  }

  /** Every framed unsigned message the encoder accepts decodes back to itself, whatever its length. */
  lemma CorrectedMessageRoundTrip(m: Message)
    requires 0 <= m.length <= 0x7FFF - 7 && |m.body| == m.length && m.signature == []
    ensures BytesToMessage(CorrectedMessageToBytes(m).value) == Success(m)
  {
    var e := CorrectedMessageToBytes(m).value;
    Int32RoundTrip(m.id, e[4..]);
    assert e == Int32Bytes(m.id) + e[4..];
    assert e[5] as int * 256 + e[6] == m.length;
    assert e[7..7 + m.length] == m.body;
  }

  /** `body.Name += string(bytes[i+4])`: the name read from offset 4, one rune per byte. */
  function CorrectedBytesToHelloBody(b: seq<byte>): (r: Result<HelloBody, Panic>)
    ensures r.Success? <==> |b| >= 4
    ensures r.Success? ==> |r.value.name| >= |b| - 4
  {
    if |b| < 4 then Failure(IndexOutOfRange)
    else
      RuneExpandLength(b[4..]);
      Success(HelloBody(Int32Value(b), RuneExpand(b[4..])))
  }

  /** A Hello body decodes back to itself exactly when its name is ASCII. */
  lemma CorrectedHelloRoundTrip(h: HelloBody)
    ensures CorrectedBytesToHelloBody(HelloBodyToBytes(h)).Success?
    ensures CorrectedBytesToHelloBody(HelloBodyToBytes(h)) == Success(h) <==> IsAscii(h.name)
  {
    var e := HelloBodyToBytes(h);
    Int32RoundTrip(h.extensions, h.name);
    assert e[4..] == h.name;
    RuneExpandIdentityIffAscii(h.name);
  }

  /** `body.Value = make([]byte, len(bytes)-32)` before the copy; the hash still one rune per byte. */
  function CorrectedBytesToDatumBody(b: seq<byte>): (r: Result<DatumBody, Panic>)
    ensures r.Success? <==> |b| >= 32
    ensures r.Success? ==> r.value.value == b[32..] && |r.value.hash| >= 32
  {
    if |b| < 32 then Failure(IndexOutOfRange)
    else
      RuneExpandLength(b[..32]);
      Success(DatumBody(RuneExpand(b[..32]), b[32..]))
  }

  /** Every value survives; the whole Datum survives exactly when its 32-byte hash is ASCII. */
  lemma CorrectedDatumRoundTrip(d: DatumBody)
    requires |d.hash| == 32
    ensures CorrectedBytesToDatumBody(DatumBodyToBytes(d).value).Success?
    ensures CorrectedBytesToDatumBody(DatumBodyToBytes(d).value).value.value == d.value
    ensures CorrectedBytesToDatumBody(DatumBodyToBytes(d).value) == Success(d) <==> IsAscii(d.hash)
  {
    var e := DatumBodyToBytes(d).value;
    assert e == d.hash + d.value;
    assert e[..32] == d.hash;
    RuneExpandIdentityIffAscii(d.hash);
  }
}
