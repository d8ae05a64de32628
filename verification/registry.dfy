/**
 * The peer registry: the scheduler's map from a remote address (its
 * `String()` form) to what is known about that peer, and the lookup by name
 * (src/udp/peer.go). The `PeerInfo` record itself is declared outside the
 * modelled files; its fields here are the ones the scheduler reads and
 * writes.
 */
module PeerRegistry {
  import opened Wrappers
  import opened Primitives

  type Addr = seq<char>

  datatype PeerInfo = PeerInfo(name: seq<byte>, publicKey: seq<byte>, root: Hash, rttMillis: int)

  type Registry = map<Addr, PeerInfo>

  /** The entry created at first contact: only the name is known. */
  function NewPeer(name: seq<byte>): PeerInfo
  {
    PeerInfo(name, [], ZeroHash, 0)
  }

  predicate HasName(reg: Registry, name: seq<byte>)
  {
    exists a :: a in reg && reg[a].name == name
  }

  datatype LookupError = NoPeerWithName

  /**
   * Any address whose entry carries the name. Map iteration order is
   * unspecified, so when several entries share the name any of them may
   * be returned.
   */
  method GetPeerIPFromName(reg: Registry, name: seq<byte>) returns (r: Result<Addr, LookupError>)
    ensures r.Success? ==> r.value in reg && reg[r.value].name == name
    ensures r.Failure? <==> forall a :: a in reg ==> reg[a].name != name
  {
    if HasName(reg, name) {
      var a :| a in reg && reg[a].name == name;
      r := Success(a);
    } else {
      r := Failure(NoPeerWithName);
    }
  }
}
