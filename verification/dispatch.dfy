/**
 * The receive-side state machine (`HandleReceive`,
 * src/udp/scheduler.go:141-378): one decoded message from one address
 * turns the registry into a new registry, the replies to send straight
 * back, and possibly an entry handed to the request in flight (the
 * correlation channel).
 *
 * Handshake first: a Hello or HelloReply registers an unknown sender under
 * its decoded name; any message from a sender still unknown is dropped.
 * Then, when both the stored key and the signature are present, a message
 * whose signature does not verify is dropped. Then the message type picks
 * the branch. A Go panic on the way is a `Failure`.
 *
 * The codec used is the current one, as written. SHA-256, `ExpandString`
 * and ECDSA verification are parameters; the scheduler's own client name,
 * key and exported tree are `Local`.
 */
module Dispatch {
  import opened Wrappers
  import opened Primitives
  import opened WireTypes
  import opened PeerRegistry
  import opened FileTree
  import opened DatumValue
  import Codec
  import Messages
  import PublicKeyFormat

  datatype Entry = Entry(from: Addr, packet: Message)

  datatype Reply = Reply(dest: Addr, msg: Message)

  datatype Step = Step(registry: Registry, replies: seq<Reply>, forwarded: Option<Entry>)

  datatype Local = Local(clientName: seq<byte>, key: PublicKeyFormat.EcPoint, exported: Node)

  datatype Oracles = Oracles(
    sha: seq<byte> -> Hash,
    expand: seq<byte> -> Hash,
    verify: (seq<byte>, seq<byte>, PublicKeyFormat.EcPoint) -> bool)

  predicate IsHandshake(t: byte)
  {
    t == Hello || t == HelloReply
  }

  /** The types handed to the request in flight. */
  predicate IsForwarded(t: byte)
  {
    t == HelloReply || t == PublicKeyReply || t == RootReply || t == Datum || t == NoDatum
  }

  /** The types answered with a reply. */
  predicate IsAnswered(t: byte)
  {
    t == Hello || t == PublicKey || t == Root || t == GetDatum
  }

  /** A handshake always decodes its Hello body; it registers the sender only when unknown. */
  function Admit(reg: Registry, m: Message, from: Addr): (r: Result<Registry, Panic>)
    ensures IsHandshake(m.msgType) ==> (r.Success? <==> |m.body| >= 4)
    ensures !IsHandshake(m.msgType) ==> r == Success(reg)
    ensures r.Success? ==> from in r.value || from !in reg
    ensures r.Success? ==> forall a :: a in reg ==> a in r.value && r.value[a] == reg[a]
    ensures r.Success? ==> forall a :: a in r.value ==> a in reg || a == from
  {
    if IsHandshake(m.msgType) then
      var body :- Codec.BytesToHelloBody(m.body);
      if from in reg then Success(reg) else Success(reg[from := NewPeer(body.name)])
    else Success(reg)
  }

  /**
   * The signature gate. With a stored key and a signature, the key is
   * parsed, the message re-encoded and the signature split at byte 32;
   * each step panics as in Go. The first 7 + Length bytes are then the
   * whole encoding, since encoding fails whenever 7 + Length wraps. The
   * `verify` parameter stands for the hashing and the ECDSA check.
   */
  function SignatureAccepts(peer: PeerInfo, m: Message, verify: (seq<byte>, seq<byte>, PublicKeyFormat.EcPoint) -> bool)
    : (r: Result<bool, Panic>)
    ensures |peer.publicKey| == 0 || |m.signature| == 0 ==> r == Success(true)
    ensures |peer.publicKey| > 0 && |m.signature| > 0 ==>
              (r.Success? <==> |peer.publicKey| >= PublicKeyFormat.CoordinateSize
                               && Codec.MessageToBytes(m).Success? && |m.signature| >= 32)
    ensures |peer.publicKey| > 0 && |m.signature| > 0 && r.Success? ==>
              r.value == verify(Codec.MessageToBytes(m).value[..HeaderSize + m.length], m.signature,
                                PublicKeyFormat.ParsePublicKey(peer.publicKey).value)
  {
    if |peer.publicKey| > 0 && |m.signature| > 0 then
      var key :- PublicKeyFormat.ParsePublicKey(peer.publicKey);
      var bytes :- Codec.MessageToBytes(m);
      // VerifyMessage slices signature[:32]
      if |m.signature| < 32 then Failure(SliceBoundsOutOfRange)
      else Success(verify(bytes[..HeaderSize + m.length], m.signature, key))
    else Success(true)
  }

  /**
   * The signed data is the message's whole encoding without its signature,
   * and the key is the stored key's two big-endian halves.
   */
  lemma SignedDataIsEncoding(peer: PeerInfo, m: Message, verify: (seq<byte>, seq<byte>, PublicKeyFormat.EcPoint) -> bool)
    requires |peer.publicKey| >= PublicKeyFormat.CoordinateSize && |m.signature| >= 32
    requires Codec.MessageToBytes(m).Success?
    ensures Codec.MessageToBytes(m.(signature := [])).Success?
    ensures SignatureAccepts(peer, m, verify)
            == Success(verify(Codec.MessageToBytes(m.(signature := [])).value, m.signature,
                              PublicKeyFormat.EcPoint(PublicKeyFormat.P256,
                                                      BeValue(peer.publicKey[..PublicKeyFormat.CoordinateSize]),
                                                      BeValue(peer.publicKey[PublicKeyFormat.CoordinateSize..]))))
  {
    var bytes := Codec.MessageToBytes(m).value;
    assert bytes[..HeaderSize + m.length] == bytes;
  }

  /** The key a PublicKey or PublicKeyReply leaves stored: the body, or nothing when Length is 0. */
  function StoredKey(m: Message): seq<byte>
  {
    if m.length != 0 then m.body else []
  }

  /** The reply to a GetDatum for `target`: the chunk's Datum, or NoDatum when the lookup finds nothing. */
  function DatumReply(id: uint32, exported: Node, target: Hash, o: Oracles): (r: Message)
    ensures r.id == id
    ensures GetNode(exported, target).None? <==> r.msgType == NoDatum
    ensures r.msgType == NoDatum ==> r.length == 0 && r.body == []
  {
    match GetNode(exported, target)
    case Some(f) =>
      var nodeBytes := DatumReplyBody(f, o.sha, o.expand);
      Message(id, Datum, Messages.Uint16(|nodeBytes|), nodeBytes, [])
    case None => Message(id, NoDatum, 0, [], [])
  }

  /** The branch taken for an admitted message whose signature is accepted. */
  function Respond(reg: Registry, m: Message, from: Addr, local: Local, o: Oracles): (r: Result<Step, Panic>)
    requires from in reg
    ensures r.Success? ==> forall a :: a in r.value.registry <==> a in reg
    ensures r.Success? ==> forall a :: a in reg && a != from ==> r.value.registry[a] == reg[a]
    ensures r.Success? ==> r.value.registry[from].name == reg[from].name
  {
    var peer := reg[from];
    var t := m.msgType;
    var back := Some(Entry(from, m));
    if t == Hello then
      Success(Step(reg, [Reply(from, Messages.HelloReplyMessage(m.id, local.clientName).msg)], None))
    else if t == PublicKey then
      var out :- Messages.PublicKeyReplyMessage(m.id, local.key);
      Success(Step(reg[from := peer.(publicKey := StoredKey(m))], [Reply(from, out.msg)], None))
    else if t == Root then
      if |m.body| < 32 then Failure(ArrayConversion)
      else
        var reply := Messages.RootReplyMessage(m.id, local.exported.hash).msg;
        Success(Step(reg[from := peer.(root := m.body[..32])], [Reply(from, reply)], None))
    else if t == GetDatum then
      if |m.body| < 32 then Failure(ArrayConversion)
      else Success(Step(reg, [Reply(from, DatumReply(m.id, local.exported, m.body[..32], o))], None))
    else if t == HelloReply then
      Success(Step(reg, [], back))
    else if t == PublicKeyReply then
      Success(Step(reg[from := peer.(publicKey := StoredKey(m))], [], back))
    else if t == RootReply then
      if |m.body| < 32 then Failure(ArrayConversion)
      else Success(Step(reg[from := peer.(root := m.body[..32])], [], back))
    else if t == Datum then
      // the hash check's verdict is only printed; a body too short to split panics
      var _ :- Codec.BytesToDatumBody(m.body);
      Success(Step(reg, [], back))
    else if t == NoDatum then
      Success(Step(reg, [], back))
    else
      // NoOp, Error, ErrorReply and every other code: nothing to do
      Success(Step(reg, [], None))
  }

  function HandleReceive(reg: Registry, m: Message, from: Addr, local: Local, o: Oracles): (r: Result<Step, Panic>)
    // only the sender's entry can appear or change
    ensures r.Success? ==> forall a :: a != from ==> (a in r.value.registry <==> a in reg)
    ensures r.Success? ==> forall a :: a in reg && a != from ==> r.value.registry[a] == reg[a]
    // an entry, once there, keeps its name
    ensures r.Success? && from in reg ==> from in r.value.registry && r.value.registry[from].name == reg[from].name
    // what is forwarded is the message itself, and only the reply types are
    ensures r.Success? && r.value.forwarded.Some? ==>
              IsForwarded(m.msgType) && r.value.forwarded.value == Entry(from, m)
    // replies go back to the sender, echo its id, and answer only the request types
    ensures r.Success? ==> |r.value.replies| <= 1
    ensures r.Success? && |r.value.replies| == 1 ==>
              && IsAnswered(m.msgType)
              && r.value.replies[0].dest == from
              && r.value.replies[0].msg.id == m.id
  {
    var reg1 :- Admit(reg, m, from);
    if from !in reg1 then Success(Step(reg1, [], None))
    else
      var ok :- SignatureAccepts(reg1[from], m, o.verify);
      if !ok then Success(Step(reg1, [], None))
      else Respond(reg1, m, from, local, o)
  }

  // ---------------------------------------------------------------------
  // Properties.

  /** Before the handshake, nothing but a Hello or HelloReply has any effect. */
  lemma AdmissionGate(reg: Registry, m: Message, from: Addr, local: Local, o: Oracles)
    requires from !in reg && !IsHandshake(m.msgType)
    ensures HandleReceive(reg, m, from, local, o) == Success(Step(reg, [], None))
  {
  }

  /**
   * A handshake whose body decodes registers an unknown sender under the
   * decoded name and leaves a known sender's entry as it was; a body under
   * four bytes panics, known sender or not.
   */
  lemma HandshakeRegisters(reg: Registry, m: Message, from: Addr, local: Local, o: Oracles)
    requires IsHandshake(m.msgType)
    ensures |m.body| < 4 ==> HandleReceive(reg, m, from, local, o) == Failure(IndexOutOfRange)
    ensures |m.body| >= 4 && (m.signature == [] || from !in reg || reg[from].publicKey == []) ==>
              && HandleReceive(reg, m, from, local, o).Success?
              && var reg' := HandleReceive(reg, m, from, local, o).value.registry;
                 && from in reg'
                 && reg'[from] == (if from in reg then reg[from] else NewPeer(Codec.BytesToHelloBody(m.body).value.name))
  {
  }

  /** A message failing its signature check changes nothing but the handshake registration. */
  lemma BadSignatureDropped(reg: Registry, m: Message, from: Addr, local: Local, o: Oracles)
    requires Admit(reg, m, from).Success? && from in Admit(reg, m, from).value
    requires SignatureAccepts(Admit(reg, m, from).value[from], m, o.verify) == Success(false)
    ensures HandleReceive(reg, m, from, local, o) == Success(Step(Admit(reg, m, from).value, [], None))
  {
  }

  /**
   * The codec never decodes a signature, so for decoded messages the
   * verdict of signature verification never matters.
   */
  lemma DecodedMessagesSkipVerification(reg: Registry, b: seq<byte>, from: Addr, local: Local,
                                        o: Oracles, verify: (seq<byte>, seq<byte>, PublicKeyFormat.EcPoint) -> bool)
    requires Codec.BytesToMessage(b).Success?
    ensures var m := Codec.BytesToMessage(b).value;
            HandleReceive(reg, m, from, local, o) == HandleReceive(reg, m, from, local, o.(verify := verify))
  {
  }

  /** Each request type an admitted peer sends is answered with its reply type. */
  lemma RequestsAnswered(reg: Registry, m: Message, from: Addr, local: Local, o: Oracles)
    requires from in reg && SignatureAccepts(reg[from], m, o.verify) == Success(true)
    requires IsAnswered(m.msgType)
    requires m.msgType == Root || m.msgType == GetDatum ==> |m.body| >= 32
    requires PublicKeyFormat.FitsCoordinate(local.key.x) && PublicKeyFormat.FitsCoordinate(local.key.y)
    requires m.msgType == Hello ==> |m.body| >= 4
    ensures var r := HandleReceive(reg, m, from, local, o);
            && r.Success? && |r.value.replies| == 1 && r.value.forwarded.None?
            && var t := r.value.replies[0].msg.msgType;
               (t == NoDatum && m.msgType == GetDatum) || ReplyCodeOf(m.msgType) == Some(t)
  {
    assert Admit(reg, m, from).Success?;
  }

  /** Each reply type from an admitted peer is forwarded, unless its body is too short to read. */
  lemma RepliesForwarded(reg: Registry, m: Message, from: Addr, local: Local, o: Oracles)
    requires from in reg && SignatureAccepts(reg[from], m, o.verify) == Success(true)
    requires IsForwarded(m.msgType)
    requires m.msgType == HelloReply ==> |m.body| >= 4
    requires m.msgType == RootReply ==> |m.body| >= 32
    requires m.msgType == Datum ==> |m.body| >= 64
    ensures HandleReceive(reg, m, from, local, o).Success?
    ensures HandleReceive(reg, m, from, local, o).value.forwarded == Some(Entry(from, m))
    ensures HandleReceive(reg, m, from, local, o).value.replies == []
  {
    assert Admit(reg, m, from) == Success(reg);
    assert HandleReceive(reg, m, from, local, o) == Respond(reg, m, from, local, o);
    if m.msgType == Datum {
      assert Codec.BytesToDatumBody(m.body).Success?;
    }
  }

  /** A Datum is forwarded whether or not its hash matches its value. */
  lemma DatumForwardedUnverified(reg: Registry, m: Message, from: Addr, local: Local, o: Oracles)
    requires from in reg && SignatureAccepts(reg[from], m, o.verify) == Success(true)
    requires m.msgType == Datum && |m.body| >= 64
    requires !VerifyDatumHash(Codec.BytesToDatumBody(m.body).value, o.sha)
    ensures HandleReceive(reg, m, from, local, o) == Success(Step(reg, [], Some(Entry(from, m))))
  {
  }

  /** PublicKey and PublicKeyReply store the key, or clear it when Length is 0; Root and RootReply store 32 bytes of root. */
  lemma KeyAndRootStored(reg: Registry, m: Message, from: Addr, local: Local, o: Oracles)
    requires from in reg && SignatureAccepts(reg[from], m, o.verify) == Success(true)
    requires HandleReceive(reg, m, from, local, o).Success?
    ensures var reg' := HandleReceive(reg, m, from, local, o).value.registry;
            && (m.msgType == PublicKey || m.msgType == PublicKeyReply ==>
                  reg'[from] == reg[from].(publicKey := if m.length != 0 then m.body else []))
            && (m.msgType == Root || m.msgType == RootReply ==>
                  |m.body| >= 32 && reg'[from] == reg[from].(root := m.body[..32]))
            && (!(m.msgType in {PublicKey, PublicKeyReply, Root, RootReply}) ==> reg' == reg)
  {
    assert Admit(reg, m, from) == Success(reg);
  }

  /**
   * A Datum reply carries a chunk: the lookup returns only chunks, so the
   * value starts with the chunk tag and its hash field is the SHA-256 of
   * the value, under the intended Datum layout.
   */
  lemma DatumRepliesAreChunks(id: uint32, exported: Node, target: Hash, o: Oracles)
    requires DatumReply(id, exported, target, o).msgType == Datum
    ensures var b := DatumReply(id, exported, target, o).body;
            && |b| >= 33 && b[32] == ChunkTag
            && VerifyDatumHash(DatumBody(b[..32], b[32..]), o.sha)
            && GetNode(exported, target).value.bytes == b[33..]
  {
    var f := GetNode(exported, target).value;
    var b := DatumReplyBody(f, o.sha, o.expand);
    assert b[32..] == [ChunkTag] + f.bytes;
  }
}
