/** Building the directory tree from the file system (file_system.go).

    The file system is an input value: a directory is the list of entries that
    `os.ReadDir` would return for it. A directory whose listing fails is the empty
    list, because the walk discards the `ReadDir` error. */
module FileSystem {
  import opened Types
  import opened Tree

  /** One entry of a directory listing, by what `entry.Type()` reports. */
  datatype Entry =
    | Dir(name: Bytes, entries: seq<Entry>)
    | Symlink(name: Bytes)
      /** Any other entry (regular file, device, socket, ...). `size` is what
          `entry.Info()` reports, or `None` when `Info()` fails. */
    | Other(name: Bytes, size: Option<int>)

  /** The path separator that the walk puts between a directory and an entry. */
  const Slash: byte := 47

  // ---------------------------------------------------------------------------
  // What a listing contains, counted over the whole sub-hierarchy
  // ---------------------------------------------------------------------------

  /** Number of non-directory, non-symlink entries, at every depth. */
  function FileCount(es: seq<Entry>): nat
    decreases es
  {
    if es == [] then 0
    else
      FileCount(es[..|es| - 1]) +
      match es[|es| - 1]
      case Dir(_, sub) => FileCount(sub)
      case Symlink(_) => 0
      case Other(_, _) => 1
  }

  /** Number of directory entries, at every depth. */
  function DirCount(es: seq<Entry>): nat
    decreases es
  {
    if es == [] then 0
    else
      DirCount(es[..|es| - 1]) +
      match es[|es| - 1]
      case Dir(_, sub) => 1 + DirCount(sub)
      case Symlink(_) => 0
      case Other(_, _) => 0
  }

  /** Total size of the non-directory, non-symlink entries whose `Info()`
      succeeds, at every depth. */
  function ByteCount(es: seq<Entry>): int
    decreases es
  {
    if es == [] then 0
    else
      ByteCount(es[..|es| - 1]) +
      match es[|es| - 1]
      case Dir(_, sub) => ByteCount(sub)
      case Symlink(_) => 0
      case Other(_, size) => if size.Some? then size.value else 0
  }

  /** Names of the files directly in this directory, in listing order. */
  function LocalFiles(es: seq<Entry>): seq<Bytes>
  {
    if es == [] then []
    else
      LocalFiles(es[..|es| - 1]) +
      match es[|es| - 1]
      case Other(name, _) => [name]
      case _ => []
  }

  /** Paths `dirPath + "/" + name` of the directories directly in this one, in
      listing order. */
  function SubdirPaths(dirPath: Bytes, es: seq<Entry>): seq<Bytes>
  {
    if es == [] then []
    else
      SubdirPaths(dirPath, es[..|es| - 1]) +
      match es[|es| - 1]
      case Dir(name, _) => [dirPath + [Slash] + name]
      case _ => []
  }

  lemma {:induction false} FileCountAppend(a: seq<Entry>, b: seq<Entry>)
    ensures FileCount(a + b) == FileCount(a) + FileCount(b)
    decreases |b|
  {
    if b != [] {
      assert (a + b)[..|a + b| - 1] == a + b[..|b| - 1];
      assert (a + b)[|a + b| - 1] == b[|b| - 1];
      FileCountAppend(a, b[..|b| - 1]);
    } else {
      assert a + b == a;
    }
  }

  lemma {:induction false} DirCountAppend(a: seq<Entry>, b: seq<Entry>)
    ensures DirCount(a + b) == DirCount(a) + DirCount(b)
    decreases |b|
  {
    if b != [] {
      assert (a + b)[..|a + b| - 1] == a + b[..|b| - 1];
      assert (a + b)[|a + b| - 1] == b[|b| - 1];
      DirCountAppend(a, b[..|b| - 1]);
    } else {
      assert a + b == a;
    }
  }

  lemma {:induction false} ByteCountAppend(a: seq<Entry>, b: seq<Entry>)
    ensures ByteCount(a + b) == ByteCount(a) + ByteCount(b)
    decreases |b|
  {
    if b != [] {
      assert (a + b)[..|a + b| - 1] == a + b[..|b| - 1];
      assert (a + b)[|a + b| - 1] == b[|b| - 1];
      ByteCountAppend(a, b[..|b| - 1]);
    } else {
      assert a + b == a;
    }
  }

  /** The files below the directories directly in this one, at every depth. */
  function SubdirFiles(es: seq<Entry>): nat
  {
    if es == [] then 0
    else
      SubdirFiles(es[..|es| - 1]) +
      match es[|es| - 1]
      case Dir(_, sub) => FileCount(sub)
      case _ => 0
  }

  /** The directories below the directories directly in this one, at every depth. */
  function SubdirDirs(es: seq<Entry>): nat
  {
    if es == [] then 0
    else
      SubdirDirs(es[..|es| - 1]) +
      match es[|es| - 1]
      case Dir(_, sub) => DirCount(sub)
      case _ => 0
  }

  /** The files of a hierarchy are the files directly in its top directory plus
      the files of each subdirectory's hierarchy, the same split as a node's
      weight: its own files plus its children's weights. */
  lemma {:induction false} FileCountSplit(es: seq<Entry>)
    ensures FileCount(es) == |LocalFiles(es)| + SubdirFiles(es)
    decreases |es|
  {
    if es != [] {
      FileCountSplit(es[..|es| - 1]);
    }
  }

  /** The directories of a hierarchy are those directly in its top directory,
      one per child node, plus the directories of each subdirectory's hierarchy. */
  lemma {:induction false} DirCountSplit(dirPath: Bytes, es: seq<Entry>)
    ensures DirCount(es) == |SubdirPaths(dirPath, es)| + SubdirDirs(es)
    decreases |es|
  {
    if es != [] {
      DirCountSplit(dirPath, es[..|es| - 1]);
    }
  }

  /** A symbolic link contributes nothing, wherever it appears in a listing. */
  lemma SymlinkIgnored(a: seq<Entry>, b: seq<Entry>, name: Bytes)
    ensures FileCount(a + [Symlink(name)] + b) == FileCount(a + b)
    ensures DirCount(a + [Symlink(name)] + b) == DirCount(a + b)
    ensures ByteCount(a + [Symlink(name)] + b) == ByteCount(a + b)
  {
    FileCountAppend(a, [Symlink(name)]);
    FileCountAppend(a + [Symlink(name)], b);
    FileCountAppend(a, b);
    DirCountAppend(a, [Symlink(name)]);
    DirCountAppend(a + [Symlink(name)], b);
    DirCountAppend(a, b);
    ByteCountAppend(a, [Symlink(name)]);
    ByteCountAppend(a + [Symlink(name)], b);
    ByteCountAppend(a, b);
    assert [Symlink(name)][..0] == [];
  }

  /** A file whose `Info()` fails is still counted as a file; only its size is
      missing from the byte total. */
  lemma InfoFailureCounted(a: seq<Entry>, name: Bytes, size: int)
    ensures FileCount(a + [Other(name, None)]) == FileCount(a + [Other(name, Some(size))]) == FileCount(a) + 1
    ensures ByteCount(a + [Other(name, None)]) == ByteCount(a)
    ensures ByteCount(a + [Other(name, Some(size))]) == ByteCount(a) + size
  {
    assert (a + [Other(name, None)])[..|a|] == a;
    assert (a + [Other(name, Some(size))])[..|a|] == a;
  }

  // ---------------------------------------------------------------------------
  // What one call of the walk does to the arena
  // ---------------------------------------------------------------------------

  /** The fields of an arena at one moment. */
  datatype Snapshot = Snapshot(parent: seq<Option<nat>>, children: seq<seq<nat>>, weight: seq<int>,
                               name: seq<Bytes>, elements: seq<seq<Bytes>>)

  ghost function SnapOf(a: NodeArena): Snapshot
    reads a
  {
    Snapshot(a.parent, a.children, a.weight, a.name, a.elements)
  }

  /** What the walk's bookkeeping needs of an arena: parents come first, every
      field has one entry per node, and child lists name existing nodes. */
  ghost predicate Sized(s: Snapshot)
  {
    && ParentsOk(s.parent)
    && |s.children| == |s.parent| && |s.weight| == |s.parent|
    && |s.name| == |s.parent| && |s.elements| == |s.parent|
    && (forall p :: 0 <= p < |s.parent| ==> AllBelow(s.children[p], |s.parent|))
  }

  /** The names of the nodes `cs`, in order. */
  function NamesAt(names: seq<Bytes>, cs: seq<nat>): seq<Bytes>
    requires AllBelow(cs, |names|)
  {
    if cs == [] then [] else NamesAt(names, cs[..|cs| - 1]) + [names[cs[|cs| - 1]]]
  }

  /** The ancestors that a directory created under `node` will have. */
  ghost function Above(parent: seq<Option<nat>>, node: Option<nat>): seq<nat>
    requires ParentsOk(parent) && (node.Some? ==> node.value < |parent|)
  {
    if node.Some? then PathToRoot(parent, node.value) else []
  }

  /** Node `v` of `s` mirrors the directory `dirPath` whose listing is `es`: the
      node is named by the path, holds the listing's file names in order, and its
      children mirror the listing's subdirectories one to one, in listing order,
      each under the path `dirPath + "/" + name`. */
  ghost predicate Mirrors(s: Snapshot, v: nat, dirPath: Bytes, es: seq<Entry>)
    decreases es, 1
  {
    && v < |s.name| && v < |s.elements| && v < |s.children|
    && s.name[v] == dirPath
    && s.elements[v] == LocalFiles(es)
    && MirrorsList(s, v, s.children[v], dirPath, es)
  }

  /** The nodes `cs`, created after `v`, mirror the subdirectories of the
      listing `es` of directory `dirPath`, one to one and in order. */
  ghost predicate MirrorsList(s: Snapshot, v: nat, cs: seq<nat>, dirPath: Bytes, es: seq<Entry>)
    decreases es, 0
  {
    if es == [] then cs == []
    else
      match es[|es| - 1]
      case Dir(name, sub) =>
        && cs != []
        && v < cs[|cs| - 1]
        && MirrorsList(s, v, cs[..|cs| - 1], dirPath, es[..|es| - 1])
        && Mirrors(s, cs[|cs| - 1], dirPath + [Slash] + name, sub)
      case _ => MirrorsList(s, v, cs, dirPath, es[..|es| - 1])
  }

  /** `s'` agrees with `s` on the names, file lists and child lists of the nodes
      of `s` from `lo` on. */
  ghost predicate SameFrom(s: Snapshot, s': Snapshot, lo: nat)
  {
    && |s.name| <= |s'.name| && |s.elements| <= |s'.elements| && |s.children| <= |s'.children|
    && (forall j :: lo <= j < |s.name| ==> s'.name[j] == s.name[j])
    && (forall j :: lo <= j < |s.elements| ==> s'.elements[j] == s.elements[j])
    && (forall j :: lo <= j < |s.children| ==> s'.children[j] == s.children[j])
  }

  /** A mirror survives every change to nodes created before its top node, and
      every node appended after it. */
  lemma {:induction false} MirrorsFrame(s: Snapshot, s': Snapshot, lo: nat, v: nat, dirPath: Bytes, es: seq<Entry>)
    requires SameFrom(s, s', lo) && lo <= v && Mirrors(s, v, dirPath, es)
    ensures Mirrors(s', v, dirPath, es)
    decreases es, 1
  {
    MirrorsListFrame(s, s', lo, v, s.children[v], dirPath, es);
  }

  lemma {:induction false} MirrorsListFrame(s: Snapshot, s': Snapshot, lo: nat, v: nat, cs: seq<nat>,
                                            dirPath: Bytes, es: seq<Entry>)
    requires SameFrom(s, s', lo) && lo <= v + 1 && MirrorsList(s, v, cs, dirPath, es)
    ensures MirrorsList(s', v, cs, dirPath, es)
    decreases es, 0
  {
    if es != [] {
      match es[|es| - 1] {
        case Dir(name, sub) =>
          MirrorsListFrame(s, s', lo, v, cs[..|cs| - 1], dirPath, es[..|es| - 1]);
          MirrorsFrame(s, s', lo, cs[|cs| - 1], dirPath + [Slash] + name, sub);
        case Symlink(_) =>
          MirrorsListFrame(s, s', lo, v, cs, dirPath, es[..|es| - 1]);
        case Other(_, _) =>
          MirrorsListFrame(s, s', lo, v, cs, dirPath, es[..|es| - 1]);
      }
    }
  }

  /** `s` is `s0` after one call of the walk for the directory `dirPath` with
      listing `es`, attached under `node`: the call created node `|s0.parent|`
      for the directory and one node per directory below it (all in its subtree);
      the directory's node has the listing's file names and one child per
      subdirectory, named by its path, in listing order, and the whole new
      subtree mirrors the listing (`Mirrors`); its weight is the number
      of files in the sub-hierarchy, and every ancestor gained that much weight;
      nothing else about the existing nodes changed except that `node` gained
      the new child. */
  ghost predicate Walked(s0: Snapshot, s: Snapshot, node: Option<nat>, dirPath: Bytes, es: seq<Entry>)
    requires Sized(s0) && (node.Some? ==> node.value < |s0.parent|)
  {
    var n0 := |s0.parent|;
    && Sized(s)
    && |s.parent| == n0 + 1 + DirCount(es)
    && s.parent[..n0] == s0.parent && s.parent[n0] == node
    && s.name[..n0] == s0.name && s.name[n0] == dirPath
    && s.elements[..n0] == s0.elements && s.elements[n0] == LocalFiles(es)
    && (forall j :: 0 <= j < n0 ==> s.children[j] == s0.children[j] + (if node == Some(j) then [n0] else []))
    && NamesAt(s.name, s.children[n0]) == SubdirPaths(dirPath, es)
    && Mirrors(s, n0, dirPath, es)
    && s.weight[n0] == FileCount(es)
    && (forall j :: 0 <= j < n0 ==>
          s.weight[j] == s0.weight[j] + (if j in Above(s0.parent, node) then FileCount(es) else 0))
    && (forall j :: n0 <= j < |s.parent| ==> InSubtree(s.parent, n0, j))
  }

  /** Names of nodes that already existed are not affected by appending nodes. */
  lemma {:induction false} NamesAtFrame(names: seq<Bytes>, names': seq<Bytes>, cs: seq<nat>)
    requires AllBelow(cs, |names|) && |names| <= |names'| && names'[..|names|] == names
    ensures AllBelow(cs, |names'|) && NamesAt(names', cs) == NamesAt(names, cs)
    decreases |cs|
  {
    if cs != [] {
      NamesAtFrame(names, names', cs[..|cs| - 1]);
      assert names'[cs[|cs| - 1]] == names'[..|names|][cs[|cs| - 1]];
    }
  }

  /** Below the new directory's node, an ancestor of the node is exactly an
      ancestor that `Above` lists. */
  lemma AboveNew(s0: Snapshot, s: Snapshot, node: Option<nat>, j: nat)
    requires Sized(s0) && Sized(s) && (node.Some? ==> node.value < |s0.parent|)
    requires |s.parent| > |s0.parent| && s.parent[..|s0.parent|] == s0.parent && s.parent[|s0.parent|] == node
    requires j < |s0.parent|
    ensures j in PathToRoot(s.parent, |s0.parent|) <==> j in Above(s0.parent, node)
  {
    var n0 := |s0.parent|;
    assert s0.parent <= s.parent;
    if node.Some? {
      PathPrefix(s0.parent, s.parent, node.value);
      assert PathToRoot(s.parent, n0) == [n0] + PathToRoot(s.parent, node.value);
    } else {
      assert PathToRoot(s.parent, n0) == [n0];
    }
  }

  /** The walk's first step: the directory's node, created by `NewNode` or by
      `Insert` under `node`, with nothing listed yet. */
  lemma WalkStart(s0: Snapshot, s: Snapshot, node: Option<nat>, dirPath: Bytes)
    requires Sized(s0) && (node.Some? ==> node.value < |s0.parent|)
    requires s.parent == s0.parent + [node]
    requires s.children == (if node.Some? then s0.children[node.value := s0.children[node.value] + [|s0.parent|]]
                            else s0.children) + [[]]
    requires s.weight == s0.weight + [0] && s.name == s0.name + [dirPath] && s.elements == s0.elements + [[]]
    ensures Walked(s0, s, node, dirPath, [])
  {
    var n0 := |s0.parent|;
    assert s.parent[..n0] == s0.parent && s.name[..n0] == s0.name && s.elements[..n0] == s0.elements;
    assert PathToRoot(s.parent, n0)[0] == n0;
  }

  /** A symbolic link changes nothing. */
  lemma WalkSymlink(s0: Snapshot, s: Snapshot, node: Option<nat>, dirPath: Bytes, es: seq<Entry>, i: nat)
    requires Sized(s0) && (node.Some? ==> node.value < |s0.parent|)
    requires i < |es| && es[i].Symlink?
    requires Walked(s0, s, node, dirPath, es[..i])
    ensures Walked(s0, s, node, dirPath, es[..i + 1])
    ensures FileCount(es[..i + 1]) == FileCount(es[..i])
    ensures DirCount(es[..i + 1]) == DirCount(es[..i])
    ensures ByteCount(es[..i + 1]) == ByteCount(es[..i])
  {
    assert es[..i + 1][..i] == es[..i];
  }

  /** A file entry: `AddWeightElem` on the directory's node. */
  lemma WalkFile(s0: Snapshot, s: Snapshot, s': Snapshot, node: Option<nat>, dirPath: Bytes, es: seq<Entry>, i: nat)
    requires Sized(s0) && (node.Some? ==> node.value < |s0.parent|)
    requires i < |es| && es[i].Other?
    requires Walked(s0, s, node, dirPath, es[..i])
    requires s'.parent == s.parent && s'.children == s.children && s'.name == s.name
    requires s'.elements == s.elements[|s0.parent| := s.elements[|s0.parent|] + [es[i].name]]
    requires |s'.weight| == |s.weight|
    requires forall w :: 0 <= w < |s'.weight| ==>
      s'.weight[w] == s.weight[w] + (if w in PathToRoot(s.parent, |s0.parent|) then 1 else 0)
    ensures Walked(s0, s', node, dirPath, es[..i + 1])
    ensures FileCount(es[..i + 1]) == FileCount(es[..i]) + 1
    ensures DirCount(es[..i + 1]) == DirCount(es[..i])
    ensures ByteCount(es[..i + 1]) == ByteCount(es[..i]) + (if es[i].size.Some? then es[i].size.value else 0)
  {
    var n0 := |s0.parent|;
    assert es[..i + 1][..i] == es[..i];
    assert s'.elements[..n0] == s.elements[..n0];
    assert n0 in PathToRoot(s.parent, n0) by {
      assert PathToRoot(s.parent, n0)[0] == n0;
    }
    forall j | 0 <= j < n0
      ensures s'.weight[j] == s0.weight[j] + (if j in Above(s0.parent, node) then FileCount(es[..i + 1]) else 0)
    {
      AboveNew(s0, s, node, j);
    }
    // the node's earlier subdirectories are untouched
    MirrorsListFrame(s, s', n0 + 1, n0, s.children[n0], dirPath, es[..i]);
  }

  /** A directory entry: the recursive call for `dirPath + "/" + name` attached
      under the directory's node. */
  lemma WalkDir(s0: Snapshot, s: Snapshot, s': Snapshot, node: Option<nat>, dirPath: Bytes, es: seq<Entry>, i: nat)
    requires Sized(s0) && (node.Some? ==> node.value < |s0.parent|)
    requires i < |es| && es[i].Dir?
    requires Walked(s0, s, node, dirPath, es[..i])
    requires Walked(s, s', Some(|s0.parent|), dirPath + [Slash] + es[i].name, es[i].entries)
    ensures Walked(s0, s', node, dirPath, es[..i + 1])
    ensures FileCount(es[..i + 1]) == FileCount(es[..i]) + FileCount(es[i].entries)
    ensures DirCount(es[..i + 1]) == DirCount(es[..i]) + 1 + DirCount(es[i].entries)
    ensures ByteCount(es[..i + 1]) == ByteCount(es[..i]) + ByteCount(es[i].entries)
  {
    var n0, n1 := |s0.parent|, |s.parent|;
    var sub := es[i].entries;
    assert es[..i + 1][..i] == es[..i];
    // prefixes carry over
    assert s'.parent[..n0] == s'.parent[..n1][..n0];
    assert s'.name[..n0] == s'.name[..n1][..n0];
    assert s'.elements[..n0] == s'.elements[..n1][..n0];
    // the directory's own children gained the new child, named by its path
    assert s'.children[n0] == s.children[n0] + [n1];
    NamesAtFrame(s.name, s'.name, s.children[n0]);
    assert NamesAt(s'.name, s.children[n0] + [n1]) == NamesAt(s'.name, s.children[n0]) + [s'.name[n1]] by {
      assert (s.children[n0] + [n1])[..|s.children[n0]|] == s.children[n0];
    }
    // the earlier subdirectories' mirrors survive, and the new child mirrors its listing
    assert SameFrom(s, s', n0 + 1) by {
      forall j | n0 + 1 <= j < n1 ensures s'.children[j] == s.children[j] { }
    }
    MirrorsListFrame(s, s', n0 + 1, n0, s.children[n0], dirPath, es[..i]);
    assert (s.children[n0] + [n1])[..|s.children[n0]|] == s.children[n0];
    // weights
    assert n0 in PathToRoot(s.parent, n0) by {
      assert PathToRoot(s.parent, n0)[0] == n0;
    }
    forall j | 0 <= j < n0
      ensures s'.weight[j] == s0.weight[j] + (if j in Above(s0.parent, node) then FileCount(es[..i + 1]) else 0)
    {
      AboveNew(s0, s, node, j);
    }
    // everything created lies below the directory's node
    assert s.parent <= s'.parent;
    forall j | n0 <= j < |s'.parent|
      ensures InSubtree(s'.parent, n0, j)
    {
      if j < n1 {
        assert InSubtree(s.parent, n0, j);
        PathPrefix(s.parent, s'.parent, j);
      } else {
        assert s'.parent[n1] == Some(n0);
        assert PathToRoot(s'.parent, n1) == [n1] + PathToRoot(s'.parent, n0);
        assert PathToRoot(s'.parent, n0)[0] == n0;
        assert InSubtree(s'.parent, n0, n1);
        assert InSubtree(s'.parent, n1, j);
        SubtreeTransitive(s'.parent, n0, n1, j);
      }
    }
  }

  // ---------------------------------------------------------------------------
  // The walk
  // ---------------------------------------------------------------------------

  /** The three totals that the walk increments through pointers. */
  class Counters {
    var countEdges: int
    var countFiles: int
    var countBytes: int

    constructor ()
      ensures countEdges == 0 && countFiles == 0 && countBytes == 0
    {
      countEdges, countFiles, countBytes := 0, 0, 0;
    }
  }

  /** How one listing entry changes the arena when it is handled for the
      directory whose node is `n0`. */
  ghost predicate EntryAdded(s: Snapshot, s': Snapshot, n0: nat, dirPath: Bytes, e: Entry)
    requires Sized(s) && n0 < |s.parent|
  {
    match e
    case Dir(name, sub) => Walked(s, s', Some(n0), dirPath + [Slash] + name, sub)
    case Symlink(_) => s' == s
    case Other(name, _) =>
      && s'.parent == s.parent && s'.children == s.children && s'.name == s.name
      && s'.elements == s.elements[n0 := s.elements[n0] + [name]]
      && |s'.weight| == |s.weight|
      && (forall w :: 0 <= w < |s'.weight| ==>
            s'.weight[w] == s.weight[w] + (if w in PathToRoot(s.parent, n0) then 1 else 0))
  }

  /** The counters have grown by the totals of `es`, from the given start. */
  ghost predicate Tally(counts: Counters, edges: int, files: int, bytes: int, es: seq<Entry>)
    reads counts
  {
    && counts.countEdges == edges + DirCount(es)
    && counts.countFiles == files + FileCount(es)
    && counts.countBytes == bytes + ByteCount(es)
  }

  /** One more entry of the listing handled: the walk covers one entry more. */
  lemma WalkStep(s0: Snapshot, s: Snapshot, s': Snapshot, node: Option<nat>, dirPath: Bytes, es: seq<Entry>, i: nat)
    requires Sized(s0) && (node.Some? ==> node.value < |s0.parent|)
    requires i < |es|
    requires Walked(s0, s, node, dirPath, es[..i])
    requires EntryAdded(s, s', |s0.parent|, dirPath, es[i])
    ensures Walked(s0, s', node, dirPath, es[..i + 1])
    ensures FileCount(es[..i + 1]) == FileCount(es[..i]) + FileCount([es[i]])
    ensures DirCount(es[..i + 1]) == DirCount(es[..i]) + DirCount([es[i]])
    ensures ByteCount(es[..i + 1]) == ByteCount(es[..i]) + ByteCount([es[i]])
  {
    assert [es[i]][..0] == [];
    match es[i] {
      case Dir(_, _) => WalkDir(s0, s, s', node, dirPath, es, i);
      case Symlink(_) => WalkSymlink(s0, s, node, dirPath, es, i);
      case Other(_, _) => WalkFile(s0, s, s', node, dirPath, es, i);
    }
  }

  /** The totals of a listing made of one entry. */
  lemma SingleEntryCounts(e: Entry)
    ensures DirCount([e]) == (if e.Dir? then 1 + DirCount(e.entries) else 0)
    ensures FileCount([e]) == (if e.Dir? then FileCount(e.entries) else if e.Other? then 1 else 0)
    ensures ByteCount([e]) == (if e.Other? && e.size.Some? then e.size.value
                               else if e.Dir? then ByteCount(e.entries) else 0)
  {
    assert [e][..0] == [];
  }

  /** The body of the listing loop for one entry: a subdirectory is walked
      recursively under the name `dirPath + "/" + name`, a symbolic link is
      skipped, and any other entry becomes a file of node `newDir` and is
      counted, with its size when `Info()` succeeds. */
  method AddEntry(a: NodeArena, counts: Counters, dirPath: Bytes, newDir: nat, entry: Entry)
    requires a.Valid() && newDir < |a.parent|
    modifies a, counts
    ensures a.Valid()
    ensures EntryAdded(old(SnapOf(a)), SnapOf(a), newDir, dirPath, entry)
    ensures Tally(counts, old(counts.countEdges), old(counts.countFiles), old(counts.countBytes), [entry])
    decreases entry
  {
    SingleEntryCounts(entry);
    match entry {
      case Dir(elemName, sub) =>
        var dirName := dirPath + [Slash] + elemName;
        var _ := FillRecursiveDirectoriesTree(a, counts, dirName, Some(newDir), sub);
      case Symlink(_) =>
      case Other(elemName, size) =>
        a.AddWeightElem(newDir, elemName);
        counts.countFiles := counts.countFiles + 1;
        if size.Some? {
          counts.countBytes := counts.countBytes + size.value;
        }
        // when `Info()` fails the failure is logged and the file still counts
    }
  }

  /** What the listing loop of `fillRecursiveDirectoriesTree` keeps after
      handling `entries[..i]` for the directory whose node is `newDir`: the
      arena is valid, it holds the walk of those entries, and the counters
      have grown by their totals. */
  ghost predicate ListingDone(a: NodeArena, counts: Counters, s0: Snapshot, node: Option<nat>, dirPath: Bytes,
                              entries: seq<Entry>, i: nat, edges: int, files: int, bytes: int)
    reads a, counts
  {
    && i <= |entries| && Sized(s0) && (node.Some? ==> node.value < |s0.parent|)
    && a.Valid() && |s0.parent| < |a.parent|
    && Walked(s0, SnapOf(a), node, dirPath, entries[..i])
    && Tally(counts, edges, files, bytes, entries[..i])
  }

  /** One round of the listing loop: handles `entries[i]` and moves on to the
      next entry. */
  method HandleNext(a: NodeArena, counts: Counters, ghost s0: Snapshot, node: Option<nat>, dirPath: Bytes,
                    newDir: nat, entries: seq<Entry>, i: nat, ghost edges: int, ghost files: int, ghost bytes: int)
    returns (next: nat)
    requires i < |entries| && newDir == |s0.parent|
    requires ListingDone(a, counts, s0, node, dirPath, entries, i, edges, files, bytes)
    modifies a, counts
    ensures next == i + 1
    ensures ListingDone(a, counts, s0, node, dirPath, entries, next, edges, files, bytes)
    decreases entries, 0
  {
    next := i + 1;
    ghost var s := SnapOf(a);
    AddEntry(a, counts, dirPath, newDir, entries[i]);
    WalkStep(s0, s, SnapOf(a), node, dirPath, entries, i);
  }

  /** `fillRecursiveDirectoriesTree`: adds a node for directory `dirPath` (a new
      root when `node` is `None`, otherwise a child of `node`, counted as an
      edge), then handles its listing entry by entry, in order (`AddEntry`).
      Returns the new node for a top-level call and `None` for a nested one. */
  method FillRecursiveDirectoriesTree(a: NodeArena, counts: Counters, dirPath: Bytes, node: Option<nat>,
                                      entries: seq<Entry>)
    returns (root: Option<nat>)
    requires a.Valid() && (node.Some? ==> node.value < |a.parent|)
    modifies a, counts
    ensures a.Valid()
    ensures Walked(old(SnapOf(a)), SnapOf(a), node, dirPath, entries)
    ensures Mirrors(SnapOf(a), old(|a.parent|), dirPath, entries)
    ensures root == if node.None? then Some(old(|a.parent|)) else None
    ensures counts.countEdges == old(counts.countEdges) + (if node.Some? then 1 else 0) + DirCount(entries)
    ensures counts.countFiles == old(counts.countFiles) + FileCount(entries)
    ensures counts.countBytes == old(counts.countBytes) + ByteCount(entries)
    decreases entries
  {
    ghost var s0 := SnapOf(a);
    ghost var files0, bytes0 := counts.countFiles, counts.countBytes;
    var newDir: nat;
    if node.None? {
      newDir := a.NewNode(dirPath);
    } else {
      counts.countEdges := counts.countEdges + 1;
      newDir := a.Insert(node.value, dirPath);
    }
    WalkStart(s0, SnapOf(a), node, dirPath);
    ghost var edges1 := counts.countEdges;
    assert entries[..0] == [];
    var i := 0;
    while i < |entries|
      invariant 0 <= i <= |entries| && newDir == |s0.parent|
      invariant ListingDone(a, counts, s0, node, dirPath, entries, i, edges1, files0, bytes0)
    {
      i := HandleNext(a, counts, s0, node, dirPath, newDir, entries, i, edges1, files0, bytes0);
    }
    assert entries[..i] == entries;
    if node.None? {
      root := Some(newDir);
    } else {
      root := None;
    }
  }

  /** `createDirectoriesTree`: runs the walk with fresh counters and returns the
      root it created (for a top-level call) and the three totals. */
  method CreateDirectoriesTree(a: NodeArena, dirPath: Bytes, node: Option<nat>, entries: seq<Entry>)
    returns (root: Option<nat>, countEdges: int, countFiles: int, countBytes: int)
    requires a.Valid() && (node.Some? ==> node.value < |a.parent|)
    modifies a
    ensures a.Valid()
    ensures Walked(old(SnapOf(a)), SnapOf(a), node, dirPath, entries)
    ensures Mirrors(SnapOf(a), old(|a.parent|), dirPath, entries)
    ensures root == if node.None? then Some(old(|a.parent|)) else None
    ensures countEdges == (if node.Some? then 1 else 0) + DirCount(entries)
    ensures countFiles == FileCount(entries)
    ensures countBytes == ByteCount(entries)
    // the totals describe the tree: the new directory's weight is the file count,
    // and a top-level walk adds one node more than it counts edges
    ensures a.weight[old(|a.parent|)] == countFiles
    ensures node.None? ==> |a.parent| == old(|a.parent|) + 1 + countEdges
  {
    var counts := new Counters();
    root := FillRecursiveDirectoriesTree(a, counts, dirPath, node, entries);
    countEdges, countFiles, countBytes := counts.countEdges, counts.countFiles, counts.countBytes;
  }

  // ---------------------------------------------------------------------------
  // A walk followed by the enumeration
  // ---------------------------------------------------------------------------

  /** The listing of a directory holding the file `a` and the directory `s`,
      which holds the file `b`. */
  const ExampleListing: seq<Entry> := [Other([97], Some(1)), Dir([115], [Other([98], Some(2))])]

  /** An arena in which node 0 mirrors `r/{a, s/{b}}` holds exactly that
      hierarchy in nodes 0 and 1. */
  lemma ExampleMirrored(s: Snapshot)
    requires Sized(s) && |s.parent| == 2 && Mirrors(s, 0, [114], ExampleListing)
    ensures s.name[0] == [114] && s.elements[0] == [[97]] && s.children[0] == [1]
    ensures s.name[1] == [114, Slash, 115] && s.elements[1] == [[98]] && s.children[1] == []
  {
    var cs := s.children[0];
    assert ExampleListing[..1] == [Other([97], Some(1))];
    assert [Other([97], Some(1))][..0] == [];
    assert cs[..|cs| - 1] == [];
    assert cs == [cs[0]];
    assert Mirrors(s, 1, [114, Slash, 115], [Other([98], Some(2))]);
    assert [Other([98], Some(2))][..0] == [];
  }

  /** In the arena `0 -> 1`, the only level order from 0 is `[0, 1]`. */
  lemma ExampleOrder(children: seq<seq<nat>>, order: seq<nat>)
    requires children == [[1], []]
    requires Distinct(order) && |order| >= 1 && order[0] == 0 && AllBelow(order, 2)
    requires order == [0] + Enqueued(children, order)
    ensures order == [0, 1]
  {
    DistinctLength(order, 2);
  }

  /** Enumerating nodes 0 and 1 of the example gives (r, a) and then (r/s, b). */
  lemma ExampleFiles(name: seq<Bytes>, elements: seq<seq<Bytes>>)
    requires |name| == 2 && |elements| == 2
    requires name[0] == [114] && elements[0] == [[97]] && name[1] == [114, Slash, 115] && elements[1] == [[98]]
    ensures FilesOf(name, elements, [0, 1]) == [File([114], [97]), File([114, Slash, 115], [98])]
  {
    assert [0, 1][..1] == [0] && [0][..0] == [];
    assert FilesOf(name, elements, [0]) == [File([114], [97])];
    assert ElementsWithPath(name[1], elements[1]) == [File([114, Slash, 115], [98])];
  }

  /** Building the tree of `r/{a, s/{b}}` into an empty arena and enumerating it
      from the root gives (r, a) and then (r/s, b). */
  method BuildAndEnumerate() returns (files: seq<File>)
    ensures files == [File([114], [97]), File([114, Slash, 115], [98])]
  {
    var a := new NodeArena();
    var root, _, _, _ := CreateDirectoriesTree(a, [114], None, ExampleListing);
    ExampleMirrored(SnapOf(a));
    ghost var order;
    files, order := a.GetAllWeightElementsWithPath(root.value);
    ExampleOrder(a.children, order);
    ExampleFiles(a.name, a.elements);
  }
}
