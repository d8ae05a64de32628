/**
 * Message type codes and the record shapes of the current wire format
 * (src/udp/types.go): a 32-bit id, an 8-bit type, a 16-bit body length,
 * the body, and an optional signature.
 */
module WireTypes {
  import opened Wrappers
  import opened Primitives

  const NoOp: byte := 0
  const Error: byte := 1
  const Hello: byte := 2
  const PublicKey: byte := 3
  const Root: byte := 4
  const GetDatum: byte := 5
  const NatTraversalRequest: byte := 6
  const NatTraversal: byte := 7
  const ErrorReply: byte := 128
  const HelloReply: byte := 129
  const PublicKeyReply: byte := 130
  const RootReply: byte := 131
  const Datum: byte := 132
  /** Used by the dispatcher but missing from the constant block; 133 follows Datum. */
  const NoDatum: byte := 133

  /** Size of the fixed header: 4 bytes of id, 1 of type, 2 of length. */
  const HeaderSize: nat := 7

  predicate IsRequestCode(t: byte)
  {
    t in {NoOp, Error, Hello, PublicKey, Root, GetDatum, NatTraversalRequest, NatTraversal}
  }

  predicate IsReplyCode(t: byte)
  {
    t in {ErrorReply, HelloReply, PublicKeyReply, RootReply, Datum}
  }

  /** The reply code paired with each request code that has one. */
  function ReplyCodeOf(request: byte): (r: Option<byte>)
    ensures r.Some? <==> 1 <= request <= 5
    ensures r.Some? ==> IsReplyCode(r.value) && r.value == request + 127
  {
    if request == Error then Some(ErrorReply)
    else if request == Hello then Some(HelloReply)
    else if request == PublicKey then Some(PublicKeyReply)
    else if request == Root then Some(RootReply)
    else if request == GetDatum then Some(Datum)
    else None
  }

  /** The declared codes split into requests 0..7 and replies 128..132. */
  lemma CodeRanges(t: byte)
    ensures IsRequestCode(t) <==> t <= 7
    ensures IsReplyCode(t) <==> 128 <= t <= 132
    ensures !(IsRequestCode(t) && IsReplyCode(t))
  {
  }

  /** A decoded or constructed message; Go field `Type` is `msgType` here. */
  datatype Message = Message(
    id: uint32,
    msgType: byte,
    length: uint16,
    body: seq<byte>,
    signature: seq<byte>)

  /** A message whose declared length is its body's length. */
  predicate Framed(m: Message)
  {
    m.length == |m.body|
  }

  datatype HelloBody = HelloBody(extensions: int32, name: seq<byte>)

  datatype DatumBody = DatumBody(hash: Hash, value: seq<byte>)
}
