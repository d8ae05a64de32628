/**
 * The outgoing message builders (src/udp/messages.go). Requests get a fresh
 * id, `uint32(rand.Int31())`, passed in here as a nonce, and are sent
 * through the scheduler, which waits for the matching reply; replies reuse
 * the request's id and go straight to the socket. The client name, the
 * exported root hash and the public key are parameters.
 */
module Messages {
  import opened Wrappers
  import opened Primitives
  import opened WireTypes
  import Codec
  import CorrectedCodec
  import PublicKeyFormat

  /** A non-negative 31-bit random value. */
  type Nonce = n: nat | n < 0x8000_0000

  datatype Delivery = Direct | AwaitReply

  datatype Outgoing = Outgoing(msg: Message, delivery: Delivery)

  /** `uint16(n)`: the length field keeps the low 16 bits. */
  function Uint16(n: nat): (r: uint16)
    ensures n < 0x1_0000 ==> r == n
  {
    n % 0x1_0000
  }

  function NoOpMessage(nonce: Nonce): Outgoing
  {
    Outgoing(Message(nonce, NoOp, 0, [], []), Direct)
  }

  /** The Hello body for this client: no extensions, then the name. */
  function ClientHello(clientName: seq<byte>): seq<byte>
  {
    Codec.HelloBodyToBytes(HelloBody(0, clientName))
  }

  function HelloMessage(nonce: Nonce, clientName: seq<byte>): (r: Outgoing)
    ensures r.msg.msgType == Hello && r.msg.id == nonce && r.delivery == AwaitReply
    ensures Framed(r.msg) <==> 4 + |clientName| < 0x1_0000
  {
    var body := ClientHello(clientName);
    Outgoing(Message(nonce, Hello, Uint16(|body|), body, []), AwaitReply)
  }

  function HelloReplyMessage(id: uint32, clientName: seq<byte>): (r: Outgoing)
    ensures r.msg.msgType == HelloReply && r.msg.id == id && r.delivery == Direct
    ensures Framed(r.msg) <==> 4 + |clientName| < 0x1_0000
  {
    var body := ClientHello(clientName);
    Outgoing(Message(id, HelloReply, Uint16(|body|), body, []), Direct)
  }

  function PublicKeyMessage(nonce: Nonce, key: PublicKeyFormat.EcPoint): (r: Result<Outgoing, Panic>)
    ensures r.Success? <==> PublicKeyFormat.FitsCoordinate(key.x) && PublicKeyFormat.FitsCoordinate(key.y)
    ensures r.Success? ==> r.value.msg.msgType == PublicKey && r.value.msg.id == nonce
                           && r.value.delivery == AwaitReply && Framed(r.value.msg) && r.value.msg.length == 64
  {
    var body :- PublicKeyFormat.FormatPublicKey(key);
    Success(Outgoing(Message(nonce, PublicKey, 64, body, []), AwaitReply))
  }

  function PublicKeyReplyMessage(id: uint32, key: PublicKeyFormat.EcPoint): (r: Result<Outgoing, Panic>)
    ensures r.Success? <==> PublicKeyFormat.FitsCoordinate(key.x) && PublicKeyFormat.FitsCoordinate(key.y)
    ensures r.Success? ==> r.value.msg.msgType == PublicKeyReply && r.value.msg.id == id
                           && r.value.delivery == Direct && Framed(r.value.msg) && r.value.msg.length == 64
  {
    var body :- PublicKeyFormat.FormatPublicKey(key);
    Success(Outgoing(Message(id, PublicKeyReply, 64, body, []), Direct))
  }

  function RootMessage(nonce: Nonce, root: Hash): Outgoing
  {
    Outgoing(Message(nonce, Root, 32, root, []), AwaitReply)
  }

  function RootReplyMessage(id: uint32, root: Hash): Outgoing
  {
    Outgoing(Message(id, RootReply, 32, root, []), Direct)
  }

  // ---------------------------------------------------------------------
  // Properties.

  /** Each reply builder answers its request builder: the reply code, the same id, sent directly. */
  lemma RepliesAnswerRequests(nonce: Nonce, name: seq<byte>, key: PublicKeyFormat.EcPoint, root: Hash)
    requires PublicKeyFormat.FitsCoordinate(key.x) && PublicKeyFormat.FitsCoordinate(key.y)
    ensures var q := HelloMessage(nonce, name).msg;
            ReplyCodeOf(q.msgType) == Some(HelloReplyMessage(q.id, name).msg.msgType)
    ensures var q := PublicKeyMessage(nonce, key).value.msg;
            ReplyCodeOf(q.msgType) == Some(PublicKeyReplyMessage(q.id, key).value.msg.msgType)
    ensures var q := RootMessage(nonce, root).msg;
            ReplyCodeOf(q.msgType) == Some(RootReplyMessage(q.id, root).msg.msgType)
  {
  }

  /** A Hello that fits the length field reaches a peer with the client name intact, under the intended codec. */
  lemma HelloCarriesName(nonce: Nonce, name: seq<byte>)
    requires 4 + |name| + HeaderSize < 0x1_0000
    ensures var m := HelloMessage(nonce, name).msg;
            && CorrectedCodec.BytesToMessage(CorrectedCodec.MessageToBytes(m).value) == Success(m)
            && CorrectedCodec.BytesToHelloBody(m.body) == Success(HelloBody(0, name))
  {
    var m := HelloMessage(nonce, name).msg;
    CorrectedCodec.MessageRoundTrip(m);
    CorrectedCodec.HelloRoundTrip(HelloBody(0, name));
  }

  /** A name too long for the length field is sent cut to the wrapped length, without any error. */
  lemma LongHelloIsCut(nonce: Nonce, name: seq<byte>)
    requires 4 + |name| >= 0x1_0000 && (4 + |name|) % 0x1_0000 + HeaderSize < 0x1_0000
    ensures var m := HelloMessage(nonce, name).msg;
            && Codec.MessageToBytes(m).Success?
            && |Codec.MessageToBytes(m).value| == HeaderSize + (4 + |name|) % 0x1_0000
            && Codec.MessageToBytes(m).value[HeaderSize..] == m.body[..(4 + |name|) % 0x1_0000]
  {
  }

  /** The PublicKey body parses back to the key for a P-256 key. */
  lemma PublicKeyCarriesKey(nonce: Nonce, key: PublicKeyFormat.EcPoint)
    requires key.curve == PublicKeyFormat.P256
    requires PublicKeyFormat.FitsCoordinate(key.x) && PublicKeyFormat.FitsCoordinate(key.y)
    ensures PublicKeyFormat.ParsePublicKey(PublicKeyMessage(nonce, key).value.msg.body) == Success(key)
    ensures PublicKeyFormat.ParsePublicKey(PublicKeyReplyMessage(nonce, key).value.msg.body) == Success(key)
  {
    PublicKeyFormat.ParseFormatRoundTrip(key);
  }

  /** A NoOp is a bare 7-byte header, the one request the current codec delivers unchanged. */
  lemma NoOpRoundTrips(nonce: Nonce)
    ensures var m := NoOpMessage(nonce).msg;
            && Codec.MessageToBytes(m).Success?
            && |Codec.MessageToBytes(m).value| == HeaderSize
            && Codec.BytesToMessage(Codec.MessageToBytes(m).value) == Success(m)
  {
    var m := NoOpMessage(nonce).msg;
    Codec.HeaderRoundTrip(m, [0]);
    Codec.TrailingBytesIgnored(Codec.MessageToBytes(m).value, [0]);
  }

  /**
   * A Root or RootReply under the current codec: decoded on its own it
   * fails; followed by a byte t it arrives with the root shifted by one
   * byte, t last. Under the intended codec it arrives intact.
   */
  lemma RootOnTheWire(nonce: Nonce, id: uint32, root: Hash, t: byte)
    ensures forall m :: m == RootMessage(nonce, root).msg || m == RootReplyMessage(id, root).msg ==>
              && Codec.MessageToBytes(m).Success?
              && Codec.BytesToMessage(Codec.MessageToBytes(m).value).Failure?
              && Codec.BytesToMessage(Codec.MessageToBytes(m).value + [t])
                 == Success(Message(m.id, m.msgType, 32, root[1..] + [t], []))
              && CorrectedCodec.BytesToMessage(CorrectedCodec.MessageToBytes(m).value) == Success(m)
  {
    forall m | m == RootMessage(nonce, root).msg || m == RootReplyMessage(id, root).msg
      ensures && Codec.MessageToBytes(m).Success?
              && Codec.BytesToMessage(Codec.MessageToBytes(m).value).Failure?
              && Codec.BytesToMessage(Codec.MessageToBytes(m).value + [t])
                 == Success(Message(m.id, m.msgType, 32, root[1..] + [t], []))
              && CorrectedCodec.BytesToMessage(CorrectedCodec.MessageToBytes(m).value) == Success(m)
    {
      Codec.ExactDecodeFailsIff(m);
      Codec.HeaderRoundTrip(m, [t]);
      Codec.BodyReadShiftedByOne(m, [t]);
      assert m.body[1..m.length] + [t][..1] == root[1..] + [t];
      CorrectedCodec.MessageRoundTrip(m);
    }
  }
}
