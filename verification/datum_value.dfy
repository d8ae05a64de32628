/**
 * The tagged Datum value: how the GetDatum branch of the scheduler encodes
 * a node (src/udp/scheduler.go:216-260) and how DownloadNode decodes a
 * received Datum body back into a node whose children are still to be
 * fetched (src/udp/scheduler.go:74-117).
 *
 * Value layouts: tag 0 then the chunk bytes; tag 1 then the 32-byte hashes
 * of the bigfile's chunk and bigfile children; tag 2 then, per child, the
 * 32-byte expanded name and the 32-byte hash.
 *
 * Decoding works on the slice `BytesToDatumBody` returns, `b[32:len(b)-32]`.
 * Its length stops 32 bytes short of the body, but its capacity still
 * reaches the end, and Go allows re-slicing up to the capacity; the
 * bigfile and directory loops re-slice past the length. `full` below is
 * the slice up to its capacity and `len` its length.
 */
module DatumValue {
  import opened Wrappers
  import opened Primitives
  import opened FileTree
  import opened WireTypes
  import Codec

  const ChunkTag: byte := 0
  const BigfileTag: byte := 1
  const DirectoryTag: byte := 2

  // ---------------------------------------------------------------------
  // Encoding (server side).

  /** The hashes of the chunk and bigfile children, in order; other children are skipped. */
  function ChildHashes(data: seq<File>): seq<byte>
  {
    if data == [] then []
    else
      (match data[0]
       case Chunk(_, h, _) => h
       case Bigfile(n) => n.hash
       case _ => []) + ChildHashes(data[1..])
  }

  /** Expanded name then hash for each directory, chunk or bigfile child, in order. */
  function DirectoryEntries(data: seq<File>, expand: seq<byte> -> Hash): seq<byte>
  {
    if data == [] then []
    else
      (match data[0]
       case Directory(n) => expand(n.name) + n.hash
       case Chunk(name, h, _) => expand(name) + h
       case Bigfile(n) => expand(n.name) + n.hash
       case Foreign => []) + DirectoryEntries(data[1..], expand)
  }

  /** The Datum value the server builds for a node; another dynamic type gets none. */
  function EncodeValue(f: File, expand: seq<byte> -> Hash): seq<byte>
  {
    match f
    case Chunk(_, _, bytes) => [ChunkTag] + bytes
    case Bigfile(n) => [BigfileTag] + ChildHashes(n.data)
    case Directory(n) => [DirectoryTag] + DirectoryEntries(n.data, expand)
    case Foreign => []
  }

  /** The Datum reply body: SHA-256 of the value, then the value; empty for another dynamic type. */
  function DatumReplyBody(f: File, sha: seq<byte> -> Hash, expand: seq<byte> -> Hash): (r: seq<byte>)
    ensures f.Foreign? ==> r == []
    ensures !f.Foreign? ==> |r| >= 33 && r[..32] == sha(EncodeValue(f, expand))
                            && r[32..] == EncodeValue(f, expand)
  {
    if f.Foreign? then []
    else
      var v := EncodeValue(f, expand);
      Codec.DatumBodyToBytes(DatumBody(sha(v), v))
  }

  /** The children a bigfile value advertises: the hash of each chunk or bigfile child, unnamed. */
  function BigfileManifest(data: seq<File>): (r: seq<Child>)
    ensures forall i :: 0 <= i < |r| ==> r[i].name == []
  {
    if data == [] then []
    else
      (match data[0]
       case Chunk(_, h, _) => [Child(h, [])]
       case Bigfile(n) => [Child(n.hash, [])]
       case _ => []) + BigfileManifest(data[1..])
  }

  /** The children a directory value advertises: expanded name and hash of each known child. */
  function DirectoryManifest(data: seq<File>, expand: seq<byte> -> Hash): seq<Child>
  {
    if data == [] then []
    else
      (match data[0]
       case Directory(n) => [Child(n.hash, expand(n.name))]
       case Chunk(name, h, _) => [Child(h, expand(name))]
       case Bigfile(n) => [Child(n.hash, expand(n.name))]
       case Foreign => []) + DirectoryManifest(data[1..], expand)
  }

  function HashConcat(cs: seq<Child>): (r: seq<byte>)
    ensures |r| == 32 * |cs|
  {
    if cs == [] then [] else cs[0].hash + HashConcat(cs[1..])
  }

  /** Name and hash of each child, each 32 bytes; a name of another length is not an entry. */
  function EntryConcat(cs: seq<Child>): (r: seq<byte>)
  {
    if cs == [] then [] else cs[0].name + cs[0].hash + EntryConcat(cs[1..])
  }

  predicate NamesAre32(cs: seq<Child>)
  {
    forall i :: 0 <= i < |cs| ==> |cs[i].name| == 32
  }

  lemma {:induction false} ChildHashesIsManifest(data: seq<File>)
    ensures ChildHashes(data) == HashConcat(BigfileManifest(data))
  {
    if data != [] {
      ChildHashesIsManifest(data[1..]);
      var m := BigfileManifest(data);
      match data[0]
      case Chunk(_, _, _) =>
        assert m[1..] == BigfileManifest(data[1..]);
      case Bigfile(_) =>
        assert m[1..] == BigfileManifest(data[1..]);
      case _ =>
        assert m == BigfileManifest(data[1..]);
        assert ChildHashes(data) == ChildHashes(data[1..]);
    }
  }

  lemma {:induction false} DirectoryEntriesIsManifest(data: seq<File>, expand: seq<byte> -> Hash)
    ensures DirectoryEntries(data, expand) == EntryConcat(DirectoryManifest(data, expand))
    ensures NamesAre32(DirectoryManifest(data, expand))
  {
    if data != [] {
      DirectoryEntriesIsManifest(data[1..], expand);
      var m := DirectoryManifest(data, expand);
      var rest := DirectoryManifest(data[1..], expand);
      if data[0].Foreign? {
        assert m == rest;
        assert DirectoryEntries(data, expand) == DirectoryEntries(data[1..], expand);
      } else {
        assert m == [m[0]] + rest;
        assert |m[0].name| == 32;
        assert EntryConcat(m) == m[0].name + m[0].hash + EntryConcat(rest);
        assert m[0].name + m[0].hash + EntryConcat(rest) == DirectoryEntries(data, expand);
        forall i | 0 <= i < |m| ensures |m[i].name| == 32 {
          if i > 0 { assert m[i] == rest[i - 1]; }
        }
      }
    }
  }

  lemma {:induction false} HashConcatAt(cs: seq<Child>, k: nat)
    requires k < |cs|
    ensures HashConcat(cs)[32 * k..32 * k + 32] == cs[k].hash
  {
    if k > 0 {
      HashConcatAt(cs[1..], k - 1);
      assert HashConcat(cs) == cs[0].hash + HashConcat(cs[1..]);
    }
  }

  lemma {:induction false} EntryConcatAt(cs: seq<Child>, k: nat)
    requires k < |cs| && NamesAre32(cs)
    ensures |EntryConcat(cs)| == 64 * |cs|
    ensures EntryConcat(cs)[64 * k..64 * k + 32] == cs[k].name
    ensures EntryConcat(cs)[64 * k + 32..64 * k + 64] == cs[k].hash
  {
    EntryConcatLength(cs);
    assert EntryConcat(cs) == cs[0].name + cs[0].hash + EntryConcat(cs[1..]);
    if k > 0 {
      EntryConcatAt(cs[1..], k - 1);
    }
  }

  lemma {:induction false} EntryConcatLength(cs: seq<Child>)
    requires NamesAre32(cs)
    ensures |EntryConcat(cs)| == 64 * |cs|
  {
    if cs != [] {
      EntryConcatLength(cs[1..]);
    }
  }

  // ---------------------------------------------------------------------
  // Decoding (DownloadNode side).

  /** The bigfile loop: a child hash at each offset 1 + 32j below `len`. */
  function HashesFrom(full: seq<byte>, len: nat, j: nat): (r: Result<seq<Child>, Panic>)
    decreases len - j
  {
    var i := 1 + 32 * j;
    if i >= len then Success([])
    else if i + 32 > |full| then Failure(SliceBoundsOutOfRange)
    else
      var rest :- HashesFrom(full, len, j + 1);
      Success([Child(full[i..i + 32], [])] + rest)
  }

  /** The directory loop: a name and a hash at each offset 1 + 64j below `len`. */
  function EntriesFrom(full: seq<byte>, len: nat, j: nat): (r: Result<seq<Child>, Panic>)
    decreases len - j
  {
    var i := 1 + 64 * j;
    if i >= len then Success([])
    else if i + 64 > |full| then Failure(SliceBoundsOutOfRange)
    else
      var rest :- EntriesFrom(full, len, j + 1);
      Success([Child(full[i + 32..i + 64], full[i..i + 32])] + rest)
  }

  /**
   * One child's Datum reply body turned into a node, named after the
   * manifest entry; its own children are left as an unfetched manifest.
   * An unknown tag yields nothing.
   */
  function DecodeDatum(child: Child, b: seq<byte>): (r: Result<Option<File>, Panic>)
    ensures |b| < 64 ==> r.Failure?
    ensures r.Success? && r.value.Some? ==>
              var f := r.value.value;
              && !f.Foreign?
              && NameOf(f) == child.name
              && (f.Chunk? ==> |b| > 64 && f.hash == b[..32] && f.bytes == b[33..|b| - 32])
              && (!f.Chunk? ==> f.node.hash == b[..32] && f.node.data == [])
  {
    var d :- Codec.BytesToDatumBody(b);
    var full := b[32..];
    var len := |d.value|;
    if len == 0 then Failure(IndexOutOfRange)
    else if full[0] == ChunkTag then
      Success(Some(Chunk(child.name, d.hash, full[1..len])))
    else if full[0] == BigfileTag then
      var cs :- HashesFrom(full, len, 0);
      Success(Some(Bigfile(Node(child.name, d.hash, [], cs))))
    else if full[0] == DirectoryTag then
      var cs :- EntriesFrom(full, len, 0);
      Success(Some(Directory(Node(child.name, d.hash, [], cs))))
    else Success(None)
  }

  /** `verifyDatumHash`: the hash field is the SHA-256 of the value. */
  predicate VerifyDatumHash(d: DatumBody, sha: seq<byte> -> Hash)
  {
    sha(d.value) == d.hash
  }

  // ---------------------------------------------------------------------
  // What a downloader makes of what a server sends.

  lemma {:induction false} HashesFromManifest(full: seq<byte>, cs: seq<Child>, j: nat)
    requires |cs| >= 1 && |full| == 1 + 32 * |cs| && full[1..] == HashConcat(cs)
    requires forall i :: 0 <= i < |cs| ==> cs[i].name == []
    requires j <= |cs| - 1
    ensures HashesFrom(full, |full| - 32, j) == Success(cs[j..|cs| - 1])
    decreases |cs| - j
  {
    var i := 1 + 32 * j;
    if j < |cs| - 1 {
      HashesFromManifest(full, cs, j + 1);
      HashConcatAt(cs, j);
      assert full[i..i + 32] == HashConcat(cs)[32 * j..32 * j + 32];
      assert cs[j] == Child(cs[j].hash, []);
      assert cs[j..|cs| - 1] == [cs[j]] + cs[j + 1..|cs| - 1];
    }
  }

  lemma {:induction false} EntriesFromManifest(full: seq<byte>, cs: seq<Child>, j: nat)
    requires NamesAre32(cs) && |cs| >= 1
    requires |full| == 1 + 64 * |cs| && full[1..] == EntryConcat(cs)
    requires j <= |cs|
    ensures EntriesFrom(full, |full| - 32, j) == Success(cs[j..])
    decreases |cs| - j
  {
    var i := 1 + 64 * j;
    if j < |cs| {
      EntriesFromManifest(full, cs, j + 1);
      EntryConcatAt(cs, j);
      assert full[i..i + 32] == EntryConcat(cs)[64 * j..64 * j + 32];
      assert full[i + 32..i + 64] == EntryConcat(cs)[64 * j + 32..64 * j + 64];
      assert cs[j..] == [cs[j]] + cs[j + 1..];
    } else {
      assert i >= |full| - 32;
      assert cs[j..] == [];
    }
  }

  /** A served chunk arrives only when it has at least 32 bytes, and then without its last 32. */
  lemma ServedChunkLosesTail(child: Child, name: seq<byte>, h: Hash, bytes: seq<byte>,
                             sha: seq<byte> -> Hash, expand: seq<byte> -> Hash)
    ensures var body := DatumReplyBody(Chunk(name, h, bytes), sha, expand);
            && (DecodeDatum(child, body).Success? <==> |bytes| >= 32)
            && (|bytes| >= 32 ==>
                  DecodeDatum(child, body)
                  == Success(Some(Chunk(child.name, sha([ChunkTag] + bytes), bytes[..|bytes| - 32]))))
  {
    var body := DatumReplyBody(Chunk(name, h, bytes), sha, expand);
    var v := [ChunkTag] + bytes;
    assert body == sha(v) + v;
    if |bytes| >= 32 {
      assert body[32..][1..|bytes| - 31] == bytes[..|bytes| - 32];
    }
  }

  /** A served bigfile arrives without the last child hash it lists, and one listing none does not arrive. */
  lemma ServedBigfileLosesLastChild(child: Child, n: Node, sha: seq<byte> -> Hash, expand: seq<byte> -> Hash)
    ensures var body := DatumReplyBody(Bigfile(n), sha, expand);
            var m := BigfileManifest(n.data);
            && (DecodeDatum(child, body).Success? <==> |m| >= 1)
            && (|m| >= 1 ==>
                  DecodeDatum(child, body)
                  == Success(Some(Bigfile(Node(child.name, body[..32], [], m[..|m| - 1])))))
  {
    var body := DatumReplyBody(Bigfile(n), sha, expand);
    var m := BigfileManifest(n.data);
    ChildHashesIsManifest(n.data);
    var full := body[32..];
    assert full == [BigfileTag] + HashConcat(m);
    if |m| >= 1 {
      assert full[1..] == HashConcat(m);
      HashesFromManifest(full, m, 0);
    }
  }

  /** A served directory with at least one entry arrives with its whole manifest. */
  lemma ServedDirectoryKeepsManifest(child: Child, n: Node, sha: seq<byte> -> Hash, expand: seq<byte> -> Hash)
    ensures var body := DatumReplyBody(Directory(n), sha, expand);
            var m := DirectoryManifest(n.data, expand);
            && (DecodeDatum(child, body).Success? <==> |m| >= 1)
            && (|m| >= 1 ==>
                  DecodeDatum(child, body)
                  == Success(Some(Directory(Node(child.name, body[..32], [], m)))))
  {
    var body := DatumReplyBody(Directory(n), sha, expand);
    var m := DirectoryManifest(n.data, expand);
    DirectoryEntriesIsManifest(n.data, expand);
    var full := body[32..];
    assert full == [DirectoryTag] + EntryConcat(m);
    if |m| >= 1 {
      EntryConcatLength(m);
      assert full[1..] == EntryConcat(m);
      EntriesFromManifest(full, m, 0);
    } else {
      assert EntryConcat(m) == [];
    }
  }
}
