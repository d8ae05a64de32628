/**
 * The file tree (src/filestructure/types.go) and its chunk lookup
 * (src/filestructure/manipulate.go).
 *
 * `Bigfile` and `Directory` are both defined as `Node`, so here they are two
 * tags over one `Node` record: converting between them and `Node` loses
 * nothing. A `Node` keeps its unfetched manifest (`children`, hash and
 * possibly empty name) apart from its materialised contents (`data`). `File`
 * is an empty interface in the source; `Foreign` stands for any value of
 * another dynamic type, which every consumer rejects or skips.
 */
module FileTree {
  import opened Wrappers
  import opened Primitives

  datatype Child = Child(hash: Hash, name: seq<byte>)

  datatype Node = Node(name: seq<byte>, hash: Hash, data: seq<File>, children: seq<Child>)

  datatype File =
    | Chunk(name: seq<byte>, hash: Hash, bytes: seq<byte>)
    | Bigfile(node: Node)
    | Directory(node: Node)
    | Foreign

  /** Number of nodes in a file, used as the termination measure of tree walks. */
  function Size(f: File): (r: nat)
    ensures r >= 1
    ensures f.Bigfile? || f.Directory? ==> r > DataSize(f.node.data)
  {
    match f
    case Bigfile(n) => 1 + DataSize(n.data)
    case Directory(n) => 1 + DataSize(n.data)
    case _ => 1
  }

  function DataSize(data: seq<File>): (r: nat)
    ensures data != [] ==> r > DataSize(data[1..])
    ensures data != [] ==> r >= Size(data[0])
  {
    if data == [] then 0 else Size(data[0]) + DataSize(data[1..])
  }

  function NameOf(f: File): seq<byte>
  {
    match f
    case Chunk(name, _, _) => name
    case Bigfile(n) => n.name
    case Directory(n) => n.name
    case Foreign => []
  }

  // ---------------------------------------------------------------------
  // Chunk lookup. `Directory.GetNode` and `Bigfile.GetNode` have the same
  // body: scan the node's own data in order, return the first chunk with
  // the target hash, but hand the whole search to the first bigfile met.

  function GetNode(n: Node, target: Hash): (r: Option<File>)
    ensures r.Some? ==> r.value.Chunk? && r.value.hash == target
  {
    Scan(n.data, target)
  }

  function Scan(data: seq<File>, target: Hash): (r: Option<File>)
    ensures r.Some? ==> r.value.Chunk? && r.value.hash == target
    decreases DataSize(data)
  {
    if data == [] then None
    else
      match data[0]
      case Chunk(_, h, _) => if h == target then Some(data[0]) else Scan(data[1..], target)
      case Bigfile(b) => Scan(b.data, target)
      case _ => Scan(data[1..], target)
  }

  /**
   * The chunks a search can see, in the order it sees them: the chunks
   * before the first bigfile, then those the bigfile's own search sees.
   * Directories are skipped; nothing after the first bigfile is visible.
   */
  function SearchPath(data: seq<File>): (r: seq<File>)
    ensures forall i :: 0 <= i < |r| ==> r[i].Chunk?
    decreases DataSize(data)
  {
    if data == [] then []
    else
      match data[0]
      case Chunk(_, _, _) => [data[0]] + SearchPath(data[1..])
      case Bigfile(b) => SearchPath(b.data)
      case _ => SearchPath(data[1..])
  }

  /** Position of the first chunk in s with the target hash, if any. */
  predicate IsFirstMatch(s: seq<File>, target: Hash, i: int)
  {
    && 0 <= i < |s|
    && s[i].Chunk? && s[i].hash == target
    && forall j :: 0 <= j < i ==> !(s[j].Chunk? && s[j].hash == target)
  }

  /** The lookup returns exactly the first chunk with the target hash on the search path. */
  lemma {:induction false} GetNodeIsFirstOnSearchPath(data: seq<File>, target: Hash)
    ensures Scan(data, target).Some? <==> exists i :: IsFirstMatch(SearchPath(data), target, i)
    ensures forall i :: IsFirstMatch(SearchPath(data), target, i) ==>
              Scan(data, target) == Some(SearchPath(data)[i])
    decreases DataSize(data)
  {
    if data != [] {
      match data[0]
      case Chunk(_, h, _) =>
        var rest := data[1..];
        GetNodeIsFirstOnSearchPath(rest, target);
        var p := SearchPath(data);
        assert p == [data[0]] + SearchPath(rest);
        if h == target {
          assert p[0] == data[0];
          assert Scan(data, target) == Some(data[0]);
          assert IsFirstMatch(SearchPath(data), target, 0);
          forall i | IsFirstMatch(p, target, i) ensures Scan(data, target) == Some(p[i]) {
          }
        } else {
          forall i | IsFirstMatch(p, target, i)
            ensures i > 0 && IsFirstMatch(SearchPath(rest), target, i - 1)
          {
            assert p[0] == data[0];
            assert i > 0;
            forall j | 0 <= j < i - 1
              ensures !(SearchPath(rest)[j].Chunk? && SearchPath(rest)[j].hash == target)
            {
              assert p[j + 1] == SearchPath(rest)[j];
            }
          }
          forall i | IsFirstMatch(SearchPath(rest), target, i)
            ensures IsFirstMatch(p, target, i + 1)
          {
          }
        }
      case Bigfile(b) =>
        GetNodeIsFirstOnSearchPath(b.data, target);
        assert SearchPath(data) == SearchPath(b.data);
        assert Scan(data, target) == Scan(b.data, target);
      case Directory(_) =>
        GetNodeIsFirstOnSearchPath(data[1..], target);
        assert SearchPath(data) == SearchPath(data[1..]);
        assert Scan(data, target) == Scan(data[1..], target);
      case Foreign =>
        GetNodeIsFirstOnSearchPath(data[1..], target);
        assert SearchPath(data) == SearchPath(data[1..]);
        assert Scan(data, target) == Scan(data[1..], target);
    }
  }

  /** The first bigfile met before any match decides the result; later siblings are never examined. */
  lemma {:induction false} FirstBigfileDecides(data: seq<File>, target: Hash, k: nat)
    requires k < |data| && data[k].Bigfile?
    requires forall j :: 0 <= j < k ==> !data[j].Bigfile? && !(data[j].Chunk? && data[j].hash == target)
    ensures Scan(data, target) == Scan(data[k].node.data, target)
  {
    if k > 0 {
      FirstBigfileDecides(data[1..], target, k - 1);
    }
  }

  /** Subdirectories are never searched: what a directory entry holds does not matter. */
  lemma {:induction false} DirectoriesNotSearched(data: seq<File>, target: Hash, k: nat, other: Node)
    requires k < |data| && data[k].Directory?
    ensures Scan(data[k := Directory(other)], target) == Scan(data, target)
  {
    if k > 0 {
      match data[0]
      case Bigfile(_) =>
      case _ =>
        assert data[k := Directory(other)][1..] == data[1..][k - 1 := Directory(other)];
        DirectoriesNotSearched(data[1..], target, k - 1, other);
    } else {
      assert data[k := Directory(other)][1..] == data[1..];
    }
  }

  /** A directory whose matching chunk follows a bigfile that lacks it answers "not found". */
  lemma BigfileHidesLaterSiblings(h: Hash, other: Hash)
    requires h != other
    ensures var big := Bigfile(Node([], other, [], []));
            var dir := Node([], other, [big, Chunk([], h, [])], []);
            GetNode(dir, h) == None
  {
    var big := Bigfile(Node([], other, [], []));
    var data := [big, Chunk([], h, [])];
    assert data[0] == big;
    assert Scan(data, h) == Scan([], h);
  }
}
