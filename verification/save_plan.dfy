/**
 * Saving a downloaded tree (src/filestructure/save.go) as a write plan:
 * the directory creations and file writes `SaveFileStructure` would perform,
 * in order, and the error that stopped it, if any. Actions performed before
 * an error stay in the plan, as they stay on disk.
 */
module SavePlan {
  import opened Wrappers
  import opened Primitives
  import opened FileTree

  /** A path as its list of components; `Join(p, name)` appends one. */
  type Path = seq<seq<byte>>

  datatype Action = Mkdir(path: Path) | Write(path: Path, contents: seq<byte>)

  datatype SaveError = UnexpectedType

  datatype Plan = Plan(actions: seq<Action>, error: Option<SaveError>)

  // ---------------------------------------------------------------------
  // Flattening a bigfile.

  /** The content a bigfile stands for: all chunks and nested bigfiles, nothing else. */
  predicate PureContent(data: seq<File>)
    decreases DataSize(data)
  {
    if data == [] then true
    else
      (match data[0]
       case Chunk(_, _, _) => true
       case Bigfile(b) => PureContent(b.data)
       case _ => false)
      && PureContent(data[1..])
  }

  /** Total number of chunk bytes under the data, through nested bigfiles. */
  function ContentSize(data: seq<File>): nat
    decreases DataSize(data)
  {
    if data == [] then 0
    else
      (match data[0]
       case Chunk(_, _, bytes) => |bytes|
       case Bigfile(b) => ContentSize(b.data)
       case _ => 0) + ContentSize(data[1..])
  }

  function HandleBigfile(b: Node): (r: Result<seq<byte>, SaveError>)
  {
    Flatten(b.data)
  }

  function Flatten(data: seq<File>): (r: Result<seq<byte>, SaveError>)
    decreases DataSize(data)
  {
    if data == [] then Success([])
    else
      var head :- match data[0]
                  case Chunk(_, _, bytes) => Success(bytes)
                  case Bigfile(b) => Flatten(b.data)
                  case _ => Failure(UnexpectedType);
      var tail :- Flatten(data[1..]);
      Success(head + tail)
  }

  /** Flattening succeeds exactly on pure content, and yields every chunk byte. */
  lemma {:induction false} FlattenSucceedsIff(data: seq<File>)
    ensures Flatten(data).Success? <==> PureContent(data)
    ensures Flatten(data).Success? ==> |Flatten(data).value| == ContentSize(data)
    decreases DataSize(data)
  {
    if data != [] {
      FlattenSucceedsIff(data[1..]);
      match data[0]
      case Bigfile(b) => FlattenSucceedsIff(b.data);
      case _ =>
    }
  }

  /** Flattening distributes over concatenation: children are laid out one after another. */
  lemma {:induction false} FlattenAppend(a: seq<File>, b: seq<File>)
    requires PureContent(a) && PureContent(b)
    ensures Flatten(a).Success? && Flatten(b).Success?
    ensures Flatten(a + b) == Success(Flatten(a).value + Flatten(b).value)
    decreases |a|
  {
    FlattenSucceedsIff(a);
    FlattenSucceedsIff(b);
    if a == [] {
      assert a + b == b;
      assert Flatten(a).value == [];
      assert [] + Flatten(b).value == Flatten(b).value;
    } else {
      assert (a + b)[0] == a[0];
      assert (a + b)[1..] == a[1..] + b;
      FlattenAppend(a[1..], b);
      var head: seq<byte> := match a[0]
        case Chunk(_, _, bytes) => bytes
        case Bigfile(n) => Flatten(n.data).value
        case _ => [];
      assert Flatten(a) == Success(head + Flatten(a[1..]).value);
      assert Flatten(a + b) == Success(head + Flatten(a[1..] + b).value);
      assert head + (Flatten(a[1..]).value + Flatten(b).value)
          == (head + Flatten(a[1..]).value) + Flatten(b).value;
    }
  }

  // ---------------------------------------------------------------------
  // Trimming NUL padding from names.

  function TrimLeadingNuls(s: seq<byte>): (r: seq<byte>)
    ensures r == [] || r[0] != 0
    ensures |r| <= |s|
    ensures s == Nuls(|s| - |r|) + r
  {
    if s == [] || s[0] != 0 then s
    else
      var r := TrimLeadingNuls(s[1..]);
      NulsSplit(|s| - |r|);
      assert s == [0] + s[1..];
      r
  }

  function TrimTrailingNuls(s: seq<byte>): (r: seq<byte>)
    ensures r == [] || r[|r| - 1] != 0
    ensures |r| <= |s|
    ensures s == r + Nuls(|s| - |r|)
  {
    if s == [] || s[|s| - 1] != 0 then s
    else
      var r := TrimTrailingNuls(s[..|s| - 1]);
      NulsSplit(|s| - |r|);
      assert s == s[..|s| - 1] + [0];
      r
  }

  lemma NulsSplit(n: nat)
    requires n > 0
    ensures Nuls(n) == [0] + Nuls(n - 1) == Nuls(n - 1) + [0]
  {
  }

  /** `bytes.Trim(name, "\x00")`: the name without NUL padding on either side. */
  function TrimNuls(s: seq<byte>): (r: seq<byte>)
    ensures r == [] || (r[0] != 0 && r[|r| - 1] != 0)
  {
    TrimTrailingNuls(TrimLeadingNuls(s))
  }

  /** The trimmed name is the original with some NULs removed from each end. */
  lemma TrimNulsSplits(s: seq<byte>) returns (lead: nat, trail: nat)
    ensures s == Nuls(lead) + TrimNuls(s) + Nuls(trail)
  {
    var l := TrimLeadingNuls(s);
    lead := |s| - |l|;
    trail := |l| - |TrimNuls(s)|;
  }

  /** Trimming a name that has no padding left changes nothing. */
  lemma TrimNulsIdempotent(s: seq<byte>)
    ensures TrimNuls(TrimNuls(s)) == TrimNuls(s)
  {
  }

  // ---------------------------------------------------------------------
  // The write plan.

  function SaveFileStructure(path: Path, f: File): (p: Plan)
    ensures f.Directory? ==> |p.actions| >= 1 && p.actions[0] == Mkdir(path)
    decreases Size(f), 0
  {
    match f
    case Chunk(_, _, bytes) => Plan([Write(path, bytes)], None)
    case Bigfile(b) =>
      (match HandleBigfile(b)
       case Failure(e) => Plan([], Some(e))
       case Success(contents) => Plan([Write(path, contents)], None))
    case Directory(d) =>
      var rest := SaveChildren(path, d.data);
      Plan([Mkdir(path)] + rest.actions, rest.error)
    case Foreign => Plan([], Some(UnexpectedType))
  }

  /** Saves each child at `Join(path, trimmed name)`, stopping at the first error. */
  function SaveChildren(path: Path, data: seq<File>): (p: Plan)
    decreases DataSize(data), 1
  {
    if data == [] then Plan([], None)
    else if data[0].Foreign? then Plan([], Some(UnexpectedType))
    else
      var first := SaveFileStructure(path + [TrimNuls(NameOf(data[0]))], data[0]);
      if first.error.Some? then first
      else
        var rest := SaveChildren(path, data[1..]);
        Plan(first.actions + rest.actions, rest.error)
  }

  /** What can be saved without error: every leaf a chunk or a pure bigfile, every inner node a directory. */
  predicate Saveable(f: File)
    decreases Size(f), 0
  {
    match f
    case Chunk(_, _, _) => true
    case Bigfile(b) => PureContent(b.data)
    case Directory(d) => AllSaveable(d.data)
    case Foreign => false
  }

  predicate AllSaveable(data: seq<File>)
    decreases DataSize(data), 1
  {
    data == [] || (Saveable(data[0]) && AllSaveable(data[1..]))
  }

  /** Number of actions a complete save takes: one per chunk, bigfile and directory. */
  function ActionCount(f: File): nat
    decreases Size(f), 0
  {
    match f
    case Directory(d) => 1 + ActionCountAll(d.data)
    case _ => 1
  }

  function ActionCountAll(data: seq<File>): nat
    decreases DataSize(data), 1
  {
    if data == [] then 0 else ActionCount(data[0]) + ActionCountAll(data[1..])
  }

  predicate Under(prefix: Path, a: Action)
  {
    |a.path| >= |prefix| && a.path[..|prefix|] == prefix
  }

  /**
   * A save ends without error exactly when the tree is saveable; then it
   * takes one action per node; and every action stays under the start path.
   */
  lemma {:induction false} SaveOutcome(path: Path, f: File)
    ensures SaveFileStructure(path, f).error.None? <==> Saveable(f)
    ensures Saveable(f) ==> |SaveFileStructure(path, f).actions| == ActionCount(f)
    ensures forall a :: a in SaveFileStructure(path, f).actions ==> Under(path, a)
    decreases Size(f), 0
  {
    match f
    case Bigfile(b) => FlattenSucceedsIff(b.data);
    case Directory(d) => SaveChildrenOutcome(path, d.data);
    case _ =>
  }

  lemma {:induction false} SaveChildrenOutcome(path: Path, data: seq<File>)
    ensures SaveChildren(path, data).error.None? <==> AllSaveable(data)
    ensures AllSaveable(data) ==> |SaveChildren(path, data).actions| == ActionCountAll(data)
    ensures forall a :: a in SaveChildren(path, data).actions ==> Under(path, a)
    decreases DataSize(data), 1
  {
    if data != [] && !data[0].Foreign? {
      var sub := path + [TrimNuls(NameOf(data[0]))];
      SaveOutcome(sub, data[0]);
      SaveChildrenOutcome(path, data[1..]);
      forall a | a in SaveFileStructure(sub, data[0]).actions ensures Under(path, a) {
        assert Under(sub, a);
        assert a.path[..|path|] == sub[..|path|];
      }
    }
  }

  /** Where a child of the directory at `path` is saved: `Join(path, trimmed name)`. */
  function ChildPath(path: Path, f: File): Path
  {
    path + [TrimNuls(NameOf(f))]
  }

  /** The action that saves a saveable file at `path`: its first one, and its only one unless it is a directory. */
  function SavedAs(path: Path, f: File): Action
    requires Saveable(f)
  {
    match f
    case Chunk(_, _, bytes) => Write(path, bytes)
    case Bigfile(b) =>
      FlattenSucceedsIff(b.data);
      Write(path, Flatten(b.data).value)
    case _ => Mkdir(path)
  }

  /** A saveable tree saved at `path` starts with its own action there; a chunk or bigfile takes no other. */
  lemma TopSaved(path: Path, f: File)
    requires Saveable(f)
    ensures |SaveFileStructure(path, f).actions| >= 1
    ensures SaveFileStructure(path, f).actions[0] == SavedAs(path, f)
    ensures !f.Directory? ==> SaveFileStructure(path, f).actions == [SavedAs(path, f)]
  {
    if f.Bigfile? {
      FlattenSucceedsIff(f.node.data);
    }
  }

  /** Every child of a saveable list is saveable. */
  lemma {:induction false} SaveableAt(data: seq<File>, i: nat)
    requires AllSaveable(data) && i < |data|
    ensures Saveable(data[i])
    decreases i
  {
    if i > 0 {
      assert data[1..][i - 1] == data[i];
      SaveableAt(data[1..], i - 1);
    }
  }

  /** A child list saved without error contains every action of every child's own plan. */
  lemma {:induction false} CleanChildIncluded(path: Path, data: seq<File>, i: nat, a: Action)
    requires SaveChildren(path, data).error.None? && i < |data|
    requires a in SaveFileStructure(ChildPath(path, data[i]), data[i]).actions
    ensures a in SaveChildren(path, data).actions
    decreases i
  {
    var first := SaveFileStructure(ChildPath(path, data[0]), data[0]).actions;
    var rest := data[1..];
    CleanSplit(path, data);
    if i == 0 {
      InAppend(a, first, SaveChildren(path, rest).actions);
    } else {
      assert rest[i - 1] == data[i];
      CleanChildIncluded(path, rest, i - 1, a);
      InAppend(a, first, SaveChildren(path, rest).actions);
    }
  }

  lemma InAppend<T>(x: T, a: seq<T>, b: seq<T>)
    ensures x in a + b <==> x in a || x in b
  {
  }

  /** A child list saved without error: its first child's plan, then the rest's, which is clean too. */
  lemma CleanSplit(path: Path, data: seq<File>)
    requires SaveChildren(path, data).error.None? && data != []
    ensures SaveChildren(path, data[1..]).error.None?
    ensures SaveChildren(path, data).actions
            == SaveFileStructure(ChildPath(path, data[0]), data[0]).actions + SaveChildren(path, data[1..]).actions
  {
  }

  /** A child of a saveable list is saved by its own action at its child path. */
  lemma ChildSavedAs(path: Path, data: seq<File>, i: nat)
    requires AllSaveable(data) && i < |data|
    ensures Saveable(data[i]) && SavedAs(ChildPath(path, data[i]), data[i]) in SaveChildren(path, data).actions
  {
    SaveableAt(data, i);
    SaveChildrenOutcome(path, data);
    TopSaved(ChildPath(path, data[i]), data[i]);
    CleanChildIncluded(path, data, i, SavedAs(ChildPath(path, data[i]), data[i]));
  }

  /**
   * Saving a saveable child list writes every chunk as its bytes and every
   * bigfile as its flattened content, and creates every directory, each at
   * its own child path.
   */
  lemma ChildrenSaved(path: Path, data: seq<File>, i: nat)
    requires AllSaveable(data) && i < |data|
    ensures data[i].Chunk? ==> Write(ChildPath(path, data[i]), data[i].bytes) in SaveChildren(path, data).actions
    ensures data[i].Bigfile? ==>
              && Flatten(data[i].node.data).Success?
              && Write(ChildPath(path, data[i]), Flatten(data[i].node.data).value) in SaveChildren(path, data).actions
    ensures data[i].Directory? ==> Mkdir(ChildPath(path, data[i])) in SaveChildren(path, data).actions
  {
    ChildSavedAs(path, data, i);
    if data[i].Bigfile? {
      FlattenSucceedsIff(data[i].node.data);
    }
  }

  /** What saving a child achieves before any error: nothing for an unexpected type, its own plan otherwise. */
  function ChildActions(path: Path, f: File): seq<Action>
  {
    if f.Foreign? then [] else SaveFileStructure(ChildPath(path, f), f).actions
  }

  /**
   * Saving a child list stops at the first child that cannot be saved: the
   * plan ends with an error, holds everything saved before that child and
   * whatever that child got done, and nothing for the children after it.
   */
  lemma SaveChildrenStopsAtFirstError(path: Path, pre: seq<File>, bad: File, post: seq<File>)
    requires AllSaveable(pre) && !Saveable(bad)
    ensures SaveChildren(path, pre + [bad] + post).error.Some?
    ensures SaveChildren(path, pre + [bad] + post).actions == SaveChildren(path, pre).actions + ChildActions(path, bad)
  {
    SaveChildrenOutcome(path, pre);
    SaveChildrenOutcome(path, [bad]);
    assert [bad][1..] == [];
    StopsAfterCleanPrefix(path, pre, bad, post);
  }

  /** The same, with "saveable" read off the plans: `pre` saves cleanly on its own and `[bad]` does not. */
  lemma {:induction false} StopsAfterCleanPrefix(path: Path, pre: seq<File>, bad: File, post: seq<File>)
    requires SaveChildren(path, pre).error.None? && SaveChildren(path, [bad]).error.Some?
    ensures SaveChildren(path, pre + [bad] + post).error.Some?
    ensures SaveChildren(path, pre + [bad] + post).actions == SaveChildren(path, pre).actions + ChildActions(path, bad)
    decreases |pre|
  {
    var data := pre + [bad] + post;
    if pre == [] {
      assert data[0] == bad && [bad][0] == bad && [bad][1..] == [];
    } else {
      ConsSplit(pre, bad, post);
      StopsAfterCleanPrefix(path, pre[1..], bad, post);
      var first := SaveFileStructure(ChildPath(path, pre[0]), pre[0]).actions;
      AppendAssoc(first, SaveChildren(path, pre[1..]).actions, ChildActions(path, bad));
    }
  }

  lemma ConsSplit(pre: seq<File>, bad: File, post: seq<File>)
    requires pre != []
    ensures (pre + [bad] + post)[0] == pre[0] && (pre + [bad] + post)[1..] == pre[1..] + [bad] + post
  {
  }

  lemma AppendAssoc<T>(a: seq<T>, b: seq<T>, c: seq<T>)
    ensures a + (b + c) == (a + b) + c
  {
  }
}
