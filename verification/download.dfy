/**
 * Recursive download of a node (`DownloadNode`, src/udp/scheduler.go:41-139).
 *
 * The node arrives with a manifest (`children`) and possibly some data
 * already. Each manifest entry is requested in turn; each answer becomes a
 * chunk, bigfile or directory appended to the data; then every directory and
 * bigfile in the data is downloaded the same way. The request-and-wait step
 * (`SendPacket`) is the `fetch` parameter: the body of the reply that
 * matched, or None when the exchange failed. SHA-256 is the `sha` parameter.
 * `fuel` bounds the recursion depth, which in the source only the remote
 * peer's answers bound.
 */
module Download {
  import opened Wrappers
  import opened Primitives
  import opened FileTree
  import opened DatumValue

  datatype DownloadError =
    | MerkleCheck
    | FetchFailed
    | ChildDirectoryFailed
    | ChildBigfileFailed
    | Crash(panic: Panic)
    | OutOfFuel

  datatype Network = Network(fetch: Hash -> Option<seq<byte>>, sha: seq<byte> -> Hash)

  /**
   * The hash check on entry. It refuses the node when the SHA-256 of its
   * concatenated child hashes EQUALS its hash, the reverse of a Merkle check.
   */
  predicate MerkleRejects(node: Node, sha: seq<byte> -> Hash)
  {
    sha(HashConcat(node.children)) == node.hash
  }

  /** A child failure is reported as the generic error of its kind; a panic or exhausted fuel goes through as it is. */
  function Wrap(e: DownloadError, generic: DownloadError): DownloadError
  {
    if e.Crash? || e.OutOfFuel? then e else generic
  }

  /**
   * What one manifest entry yields on its own: the node its answer decodes
   * to (none for an unknown tag), or why it yields nothing.
   */
  function Answer(c: Child, net: Network): Result<Option<File>, DownloadError>
  {
    match net.fetch(c.hash)
    case None => Failure(FetchFailed)
    case Some(body) =>
      match DecodeDatum(c, body)
      case Failure(p) => Failure(Crash(p))
      case Success(o) => Success(o)
  }

  /** The node an entry contributes, if any. */
  function Contribution(c: Child, net: Network): Option<File>
  {
    match Answer(c, net)
    case Success(Some(f)) => Some(f)
    case _ => None
  }

  /** The present values of a sequence of options, in order. */
  function Present<T>(os: seq<Option<T>>): (r: seq<T>)
    ensures |r| <= |os|
  {
    if os == [] then []
    else (if os[0].Some? then [os[0].value] else []) + Present(os[1..])
  }

  /** Each entry's contribution, in manifest order. */
  function Contributions(cs: seq<Child>, net: Network): (r: seq<Option<File>>)
    ensures |r| == |cs| && forall i :: 0 <= i < |cs| ==> r[i] == Contribution(cs[i], net)
  {
    seq(|cs|, i requires 0 <= i < |cs| => Contribution(cs[i], net))
  }

  /**
   * Request every manifest entry in order; stop at the first failed
   * exchange or decoding panic. On success the result is what each entry
   * contributes, in order; on failure the error is that of the first
   * entry that yields one.
   */
  function FetchChildren(cs: seq<Child>, net: Network): (r: Result<seq<File>, DownloadError>)
    ensures r.Success? <==> forall i :: 0 <= i < |cs| ==> Answer(cs[i], net).Success?
    ensures r.Success? ==> r.value == Present(Contributions(cs, net))
    ensures r.Failure? ==>
              exists k :: 0 <= k < |cs| && Answer(cs[k], net) == Failure(r.error)
                          && forall i :: 0 <= i < k ==> Answer(cs[i], net).Success?
    ensures r.Failure? ==> r.error == FetchFailed || r.error.Crash?
  {
    if cs == [] then Success([])
    else
      match net.fetch(cs[0].hash)
      case None => Failure(FetchFailed)
      case Some(body) =>
        match DecodeDatum(cs[0], body)
        case Failure(p) => Failure(Crash(p))
        case Success(o) =>
          ContributionsCons(cs, net);
          var rest := FetchChildren(cs[1..], net);
          FailureShifts(cs, net, rest);
          if rest.Failure? then Failure(rest.error)
          else Success((if o.Some? then [o.value] else []) + rest.value)
  }

  lemma ContributionsCons(cs: seq<Child>, net: Network)
    requires cs != []
    ensures Contributions(cs, net) == [Contribution(cs[0], net)] + Contributions(cs[1..], net)
  {
    assert Contributions(cs, net)[1..] == Contributions(cs[1..], net);
  }

  /** The first failing entry of the tail is the first failing entry of the whole list when the head succeeds. */
  lemma FailureShifts(cs: seq<Child>, net: Network, rest: Result<seq<File>, DownloadError>)
    requires cs != [] && Answer(cs[0], net).Success?
    requires rest.Failure? ==>
               exists k :: 0 <= k < |cs| - 1 && Answer(cs[1..][k], net) == Failure(rest.error)
                           && forall i :: 0 <= i < k ==> Answer(cs[1..][i], net).Success?
    ensures rest.Failure? ==>
              exists k :: 0 <= k < |cs| && Answer(cs[k], net) == Failure(rest.error)
                          && forall i :: 0 <= i < k ==> Answer(cs[i], net).Success?
  {
    if rest.Failure? {
      var k :| 0 <= k < |cs| - 1 && Answer(cs[1..][k], net) == Failure(rest.error)
               && forall i :: 0 <= i < k ==> Answer(cs[1..][i], net).Success?;
      assert Answer(cs[k + 1], net) == Failure(rest.error);
      forall i | 0 <= i < k + 1 ensures Answer(cs[i], net).Success? {
        if i > 0 { assert cs[i] == cs[1..][i - 1]; }
      }
    }
  }

  /** A file before download and after: same kind, name, hash and manifest; a chunk unchanged. */
  predicate Refines(before: File, after: File)
  {
    match before
    case Bigfile(n) =>
      after.Bigfile? && after.node.name == n.name && after.node.hash == n.hash
      && after.node.children == n.children
    case Directory(n) =>
      after.Directory? && after.node.name == n.name && after.node.hash == n.hash
      && after.node.children == n.children
    case _ => after == before
  }

  function DownloadNode(node: Node, net: Network, fuel: nat): (r: Result<Node, DownloadError>)
    ensures fuel > 0 ==> (r == Failure(MerkleCheck) <==> MerkleRejects(node, net.sha))
    ensures r.Success? ==>
              && r.value.name == node.name && r.value.hash == node.hash
              && r.value.children == node.children
              && |r.value.data| >= |node.data|
              && forall i :: 0 <= i < |node.data| ==> Refines(node.data[i], r.value.data[i])
    decreases fuel, 0, 0
  {
    if fuel == 0 then Failure(OutOfFuel)
    else if MerkleRejects(node, net.sha) then Failure(MerkleCheck)
    else
      var fetched :- FetchChildren(node.children, net);
      var data :- DownloadAll(node.data + fetched, net, fuel - 1);
      Success(node.(data := data))
  }

  /** Download every directory and bigfile of the data in order; keep everything else. */
  function DownloadAll(data: seq<File>, net: Network, fuel: nat): (r: Result<seq<File>, DownloadError>)
    ensures r.Success? ==> |r.value| == |data|
    ensures r.Success? ==> forall i :: 0 <= i < |data| ==> Refines(data[i], r.value[i])
    ensures r.Success? ==>
              forall i :: 0 <= i < |data| && (data[i].Directory? || data[i].Bigfile?) ==>
                && (r.value[i].Directory? || r.value[i].Bigfile?)
                && DownloadNode(data[i].node, net, fuel) == Success(r.value[i].node)
    ensures r.Failure? ==> r.error != MerkleCheck
    decreases fuel, 1, |data|
  {
    if data == [] then Success([])
    else
      var head :- match data[0]
        case Directory(n) =>
          (match DownloadNode(n, net, fuel)
           case Success(m) => Success(Directory(m))
           case Failure(e) => Failure(Wrap(e, ChildDirectoryFailed)))
        case Bigfile(n) =>
          (match DownloadNode(n, net, fuel)
           case Success(m) => Success(Bigfile(m))
           case Failure(e) => Failure(Wrap(e, ChildBigfileFailed)))
        case _ => Success(data[0]);
      var tail :- DownloadAll(data[1..], net, fuel);
      Success([head] + tail)
  }

  // ---------------------------------------------------------------------
  // Properties.

  /** More fuel never changes a download that finished. */
  lemma {:induction false} DownloadNodeFuelMonotone(node: Node, net: Network, fuel: nat, more: nat)
    requires more >= fuel && DownloadNode(node, net, fuel).Success?
    ensures DownloadNode(node, net, more) == DownloadNode(node, net, fuel)
    decreases fuel, 0, 0
  {
    var fetched := FetchChildren(node.children, net).value;
    DownloadAllFuelMonotone(node.data + fetched, net, fuel - 1, more - 1);
  }

  lemma {:induction false} DownloadAllFuelMonotone(data: seq<File>, net: Network, fuel: nat, more: nat)
    requires more >= fuel && DownloadAll(data, net, fuel).Success?
    ensures DownloadAll(data, net, more) == DownloadAll(data, net, fuel)
    decreases fuel, 1, |data|
  {
    if data != [] {
      match data[0]
      case Directory(n) => DownloadNodeFuelMonotone(n, net, fuel, more);
      case Bigfile(n) => DownloadNodeFuelMonotone(n, net, fuel, more);
      case _ =>
    }
    if data != [] {
      DownloadAllFuelMonotone(data[1..], net, fuel, more);
    }
  }

  /**
   * A finished download holds the node's own data followed by one node per
   * contribution of the manifest, in order: chunks exactly as decoded,
   * directories and bigfiles downloaded in turn one level deeper.
   */
  lemma DownloadAppendsFetched(node: Node, net: Network, fuel: nat)
    requires DownloadNode(node, net, fuel).Success?
    ensures fuel > 0 && FetchChildren(node.children, net).Success?
    ensures var fetched := FetchChildren(node.children, net).value;
            var all := node.data + fetched;
            var got := DownloadNode(node, net, fuel).value.data;
            && fetched == Present(Contributions(node.children, net))
            && |got| == |node.data| + |fetched|
            && (forall k :: 0 <= k < |fetched| ==> Refines(fetched[k], got[|node.data| + k]))
            && (forall i :: 0 <= i < |all| && (all[i].Directory? || all[i].Bigfile?) ==>
                  && (got[i].Directory? || got[i].Bigfile?)
                  && DownloadNode(all[i].node, net, fuel - 1) == Success(got[i].node))
  {
    var fetched := FetchChildren(node.children, net).value;
    var all := node.data + fetched;
    var got := DownloadNode(node, net, fuel).value.data;
    assert got == DownloadAll(all, net, fuel - 1).value;
    forall k | 0 <= k < |fetched| ensures Refines(fetched[k], got[|node.data| + k]) {
      assert all[|node.data| + k] == fetched[k];
    }
  }

  /** A node with nothing to fetch and no data comes back as it is, unless its hash matches the empty concatenation. */
  lemma EmptyNodeDownload(node: Node, net: Network, fuel: nat)
    requires fuel > 0 && node.children == [] && node.data == []
    ensures DownloadNode(node, net, fuel).Success? <==> net.sha([]) != node.hash
    ensures DownloadNode(node, net, fuel).Success? ==> DownloadNode(node, net, fuel).value == node
  {
    assert HashConcat(node.children) == [];
    assert node.data + [] == [];
  }

  /** An empty answer to the first request, as a NoDatum reply has, crashes the download. */
  lemma EmptyReplyCrashes(node: Node, net: Network, fuel: nat)
    requires fuel > 0 && !MerkleRejects(node, net.sha)
    requires |node.children| >= 1 && net.fetch(node.children[0].hash) == Some([])
    ensures DownloadNode(node, net, fuel) == Failure(Crash(SliceBoundsOutOfRange))
  {
  }

  /**
   * A first child served as a chunk of fewer than 32 bytes crashes the
   * download: the trimmed value cannot be sliced or is empty.
   */
  lemma ShortChunkCrashes(node: Node, net: Network, fuel: nat, served: File, expand: seq<byte> -> Hash)
    requires fuel > 0 && !MerkleRejects(node, net.sha)
    requires served.Chunk? && |served.bytes| < 32
    requires |node.children| >= 1
    requires net.fetch(node.children[0].hash) == Some(DatumReplyBody(served, net.sha, expand))
    ensures DownloadNode(node, net, fuel).Failure? && DownloadNode(node, net, fuel).error.Crash?
  {
    ServedChunkLosesTail(node.children[0], served.name, served.hash, served.bytes, net.sha, expand);
  }
}
