/** The in-memory directory tree (tree.go).

    Go's `Node` values reference each other through pointers: `head` points up to
    the parent and `childs` lists the children. Here all nodes live in one arena,
    `NodeArena`, and a node is identified by its index in it; the arena holds the
    fields of every node as parallel sequences. */
module Tree {
  import opened Types

  // ---------------------------------------------------------------------------
  // Parent chains
  // ---------------------------------------------------------------------------

  /** Every parent link points to a node allocated earlier. A child is only ever
      created by `Insert` on an existing node, so this holds of every arena. */
  ghost predicate ParentsOk(parent: seq<Option<nat>>)
  {
    forall j :: 0 <= j < |parent| && parent[j].Some? ==> parent[j].value < j
  }

  /** The nodes that `updateWeight` visits from `x`: `x`, its parent, its
      grandparent, ..., up to a node without a parent. */
  ghost function PathToRoot(parent: seq<Option<nat>>, x: nat): (p: seq<nat>)
    requires ParentsOk(parent) && x < |parent|
    ensures |p| >= 1 && p[0] == x
    ensures forall q :: 0 <= q < |p| ==> p[q] <= x
    decreases x
  {
    match parent[x]
    case None => [x]
    case Some(up) => [x] + PathToRoot(parent, up)
  }

  /** The chain follows parent links, strictly downwards in index, and ends at a
      node without a parent. */
  lemma {:induction false} PathLinks(parent: seq<Option<nat>>, x: nat)
    requires ParentsOk(parent) && x < |parent|
    ensures var p := PathToRoot(parent, x);
      && (forall q1, q2 :: 0 <= q1 < q2 < |p| ==> p[q2] < p[q1])
      && (forall q :: 0 <= q < |p| - 1 ==> parent[p[q]] == Some(p[q + 1]))
      && parent[p[|p| - 1]].None?
    decreases x
  {
    if parent[x].Some? {
      PathLinks(parent, parent[x].value);
    }
  }

  /** `j` lies in the subtree rooted at `n`: `n` is `j` or one of its ancestors. */
  ghost predicate InSubtree(parent: seq<Option<nat>>, n: nat, j: nat)
    requires ParentsOk(parent) && j < |parent|
  {
    n in PathToRoot(parent, j)
  }

  /** The chain from any node on `x`'s chain is the rest of `x`'s chain. */
  lemma {:induction false} PathFrom(parent: seq<Option<nat>>, x: nat, q: nat)
    requires ParentsOk(parent) && x < |parent|
    requires q < |PathToRoot(parent, x)|
    ensures PathToRoot(parent, PathToRoot(parent, x)[q]) == PathToRoot(parent, x)[q..]
    decreases x
  {
    if q > 0 {
      var up := parent[x].value;
      PathFrom(parent, up, q - 1);
    }
  }

  /** Appending nodes to the arena does not change the chain of an existing node. */
  lemma {:induction false} PathPrefix(parent: seq<Option<nat>>, parent': seq<Option<nat>>, x: nat)
    requires ParentsOk(parent) && ParentsOk(parent') && parent <= parent'
    requires x < |parent|
    ensures PathToRoot(parent', x) == PathToRoot(parent, x)
    decreases x
  {
    assert parent'[x] == parent[x];
    if parent[x].Some? {
      PathPrefix(parent, parent', parent[x].value);
    }
  }

  /** A node in the subtree of `y`, itself in the subtree of `n`, is in the
      subtree of `n`. */
  lemma SubtreeTransitive(parent: seq<Option<nat>>, n: nat, y: nat, j: nat)
    requires ParentsOk(parent) && y < |parent| && j < |parent|
    requires InSubtree(parent, y, j) && InSubtree(parent, n, y)
    ensures InSubtree(parent, n, j)
  {
    var p := PathToRoot(parent, j);
    var q :| 0 <= q < |p| && p[q] == y;
    PathFrom(parent, j, q);
    assert PathToRoot(parent, y) == p[q..];
  }

  /** If a node on `x`'s chain has parent `i`, then `i` is on the chain too,
      strictly above `x`. */
  lemma ParentOnPath(parent: seq<Option<nat>>, x: nat, c: nat, i: nat)
    requires ParentsOk(parent) && x < |parent|
    requires c in PathToRoot(parent, x) && parent[c] == Some(i)
    ensures i in PathToRoot(parent, x) && i != x
  {
    var p := PathToRoot(parent, x);
    PathLinks(parent, x);
    var q :| 0 <= q < |p| && p[q] == c;
    assert q < |p| - 1;
    assert p[q + 1] == i;
  }

  /** At most one node on a chain has a given parent. */
  lemma UniqueChildOnPath(parent: seq<Option<nat>>, x: nat, c1: nat, c2: nat)
    requires ParentsOk(parent) && x < |parent|
    requires c1 in PathToRoot(parent, x) && c2 in PathToRoot(parent, x)
    requires parent[c1].Some? && parent[c1] == parent[c2]
    ensures c1 == c2
  {
    var p := PathToRoot(parent, x);
    PathLinks(parent, x);
    var q1 :| 0 <= q1 < |p| && p[q1] == c1;
    var q2 :| 0 <= q2 < |p| && p[q2] == c2;
    assert q1 < |p| - 1 && q2 < |p| - 1;
    assert p[q1 + 1] == p[q2 + 1];
  }

  /** Every node strictly above `x` on its chain has a child on the chain. */
  lemma ChildOnPath(parent: seq<Option<nat>>, x: nat, i: nat) returns (c: nat)
    requires ParentsOk(parent) && x < |parent|
    requires i in PathToRoot(parent, x) && i != x
    ensures c in PathToRoot(parent, x) && parent[c] == Some(i)
  {
    var p := PathToRoot(parent, x);
    PathLinks(parent, x);
    var q :| 0 <= q < |p| && p[q] == i;
    c := p[q - 1];
  }

  // ---------------------------------------------------------------------------
  // Sums of weights over child lists
  // ---------------------------------------------------------------------------

  /** `cs` is strictly increasing; stated one neighbour pair at a time so that
      it unfolds only as far as a proof asks. */
  predicate Increasing(cs: seq<nat>)
    decreases |cs|
  {
    |cs| < 2 || (cs[0] < cs[1] && Increasing(cs[1..]))
  }

  lemma {:induction false} IncreasingPairs(cs: seq<nat>)
    requires Increasing(cs)
    ensures forall k1, k2 :: 0 <= k1 < k2 < |cs| ==> cs[k1] < cs[k2]
    decreases |cs|
  {
    if |cs| >= 2 {
      IncreasingPairs(cs[1..]);
      forall k1, k2 | 0 <= k1 < k2 < |cs|
        ensures cs[k1] < cs[k2]
      {
        if k1 > 0 {
          assert cs[k1] == cs[1..][k1 - 1] && cs[k2] == cs[1..][k2 - 1];
        } else if k2 > 1 {
          assert cs[k2] == cs[1..][k2 - 1] && cs[1] == cs[1..][0];
        }
      }
    }
  }

  lemma {:induction false} IncreasingSnoc(cs: seq<nat>, c: nat)
    requires Increasing(cs)
    requires forall k :: 0 <= k < |cs| ==> cs[k] < c
    ensures Increasing(cs + [c])
    decreases |cs|
  {
    if |cs| >= 2 {
      assert (cs + [c])[1..] == cs[1..] + [c];
      IncreasingSnoc(cs[1..], c);
    }
  }

  predicate Distinct(s: seq<nat>)
  {
    forall k1, k2 :: 0 <= k1 < k2 < |s| ==> s[k1] != s[k2]
  }

  predicate AllBelow(cs: seq<nat>, bound: nat)
  {
    forall k :: 0 <= k < |cs| ==> cs[k] < bound
  }

  /** The sum of the weights of the nodes listed in `cs`. */
  function SumAt(ws: seq<int>, cs: seq<nat>): int
    requires AllBelow(cs, |ws|)
  {
    if cs == [] then 0 else ws[cs[0]] + SumAt(ws, cs[1..])
  }

  /** How many nodes of `cs` lie on the chain `p`. */
  function CountIn(cs: seq<nat>, p: seq<nat>): nat
  {
    if cs == [] then 0 else (if cs[0] in p then 1 else 0) + CountIn(cs[1..], p)
  }

  lemma {:induction false} SumAtAppend(ws: seq<int>, a: seq<nat>, b: seq<nat>)
    requires AllBelow(a, |ws|) && AllBelow(b, |ws|)
    ensures AllBelow(a + b, |ws|)
    ensures SumAt(ws, a + b) == SumAt(ws, a) + SumAt(ws, b)
  {
    if a == [] {
      assert a + b == b;
    } else {
      assert (a + b)[0] == a[0];
      assert (a + b)[1..] == a[1..] + b;
      SumAtAppend(ws, a[1..], b);
    }
  }

  /** The sum only depends on the weights of the listed nodes. */
  lemma {:induction false} SumAtFrame(ws: seq<int>, ws': seq<int>, cs: seq<nat>)
    requires AllBelow(cs, |ws|) && AllBelow(cs, |ws'|)
    requires forall k :: 0 <= k < |cs| ==> ws[cs[k]] == ws'[cs[k]]
    ensures SumAt(ws, cs) == SumAt(ws', cs)
  {
    if cs != [] {
      SumAtFrame(ws, ws', cs[1..]);
    }
  }

  /** Adding `d` to the weight of every node on a chain adds `d` to a sum once per
      listed node on that chain. */
  lemma {:induction false} SumAtShift(ws: seq<int>, ws': seq<int>, cs: seq<nat>, p: seq<nat>, d: int)
    requires AllBelow(cs, |ws|) && |ws'| == |ws|
    requires forall k :: 0 <= k < |cs| ==> ws'[cs[k]] == ws[cs[k]] + (if cs[k] in p then d else 0)
    ensures SumAt(ws', cs) == SumAt(ws, cs) + d * CountIn(cs, p)
  {
    if cs != [] {
      SumAtShift(ws, ws', cs[1..], p, d);
      assert d * CountIn(cs, p) == (if cs[0] in p then d else 0) + d * CountIn(cs[1..], p);
    }
  }

  lemma {:induction false} CountInNone(cs: seq<nat>, p: seq<nat>)
    requires forall k :: 0 <= k < |cs| ==> cs[k] !in p
    ensures CountIn(cs, p) == 0
  {
    if cs != [] {
      CountInNone(cs[1..], p);
    }
  }

  lemma {:induction false} CountInOne(cs: seq<nat>, p: seq<nat>, c: nat)
    requires Increasing(cs) && c in cs && c in p
    requires forall k :: 0 <= k < |cs| && cs[k] in p ==> cs[k] == c
    ensures CountIn(cs, p) == 1
  {
    IncreasingPairs(cs);
    if cs[0] == c {
      CountInNone(cs[1..], p);
    } else {
      CountInOne(cs[1..], p, c);
    }
  }

  // ---------------------------------------------------------------------------
  // Shape and weight invariants of the arena
  // ---------------------------------------------------------------------------

  /** The child lists and the parent links describe the same forest: each child
      list holds, in creation order, exactly the nodes whose parent is that node. */
  ghost predicate Linked(parent: seq<Option<nat>>, children: seq<seq<nat>>)
  {
    && |children| == |parent|
    && ParentsOk(parent)
    && (forall p :: 0 <= p < |parent| ==> AllBelow(children[p], |parent|) && Increasing(children[p]))
    && (forall p, k :: 0 <= p < |parent| && 0 <= k < |children[p]| ==> parent[children[p][k]] == Some(p))
    && (forall j :: 0 <= j < |parent| && parent[j].Some? ==> j in children[parent[j].value])
  }

  /** Every node's weight is its own file count plus the weights of its children. */
  ghost predicate WeightsOk(parent: seq<Option<nat>>, children: seq<seq<nat>>, weight: seq<int>, elements: seq<seq<Bytes>>)
    requires Linked(parent, children) && |weight| == |parent| && |elements| == |parent|
  {
    forall p :: 0 <= p < |parent| ==> weight[p] == |elements[p]| + SumAt(weight, children[p])
  }

  /** Adding one file to `x` and one to the weight of every node on `x`'s chain
      preserves the weight invariant at node `i`: the child sum of `i` grows by
      one exactly when `i` is a strict ancestor of `x`. */
  lemma ChildSumAfterAdd(parent: seq<Option<nat>>, children: seq<seq<nat>>, ws: seq<int>, ws': seq<int>, x: nat, i: nat)
    requires Linked(parent, children) && |ws| == |parent| && |ws'| == |parent|
    requires x < |parent| && i < |parent|
    requires forall w :: 0 <= w < |ws| ==> ws'[w] == ws[w] + (if w in PathToRoot(parent, x) then 1 else 0)
    ensures SumAt(ws', children[i]) == SumAt(ws, children[i]) + (if i in PathToRoot(parent, x) && i != x then 1 else 0)
  {
    var p := PathToRoot(parent, x);
    var cs := children[i];
    SumAtShift(ws, ws', cs, p, 1);
    if i in p && i != x {
      var c := ChildOnPath(parent, x, i);
      forall k | 0 <= k < |cs| && cs[k] in p
        ensures cs[k] == c
      {
        UniqueChildOnPath(parent, x, cs[k], c);
      }
      CountInOne(cs, p, c);
    } else {
      forall k | 0 <= k < |cs|
        ensures cs[k] !in p
      {
        if cs[k] in p {
          ParentOnPath(parent, x, cs[k], i);
        }
      }
      CountInNone(cs, p);
    }
  }

  /** Allocating a parentless node keeps the forest well linked and weighted. */
  lemma AddRootKeeps(parent: seq<Option<nat>>, children: seq<seq<nat>>, weight: seq<int>, elements: seq<seq<Bytes>>)
    requires Linked(parent, children) && |weight| == |parent| && |elements| == |parent|
    requires WeightsOk(parent, children, weight, elements)
    ensures Linked(parent + [None], children + [[]])
    ensures WeightsOk(parent + [None], children + [[]], weight + [0], elements + [[]])
  {
    var parent', children', weight' := parent + [None], children + [[]], weight + [0];
    assert ParentsOk(parent');
    forall j | 0 <= j < |parent'| && parent'[j].Some?
      ensures j in children'[parent'[j].value]
    {
      assert j < |parent|;
    }
    assert Linked(parent', children');
    forall p | 0 <= p < |parent'|
      ensures weight'[p] == |(elements + [[]])[p]| + SumAt(weight', children'[p])
    {
      if p < |parent| {
        SumAtFrame(weight, weight', children[p]);
      }
    }
  }

  /** Allocating a child of `p` and appending it to `p`'s children keeps the
      forest well linked and weighted. */
  lemma AddChildKeeps(parent: seq<Option<nat>>, children: seq<seq<nat>>, weight: seq<int>, elements: seq<seq<Bytes>>, p: nat)
    requires Linked(parent, children) && |weight| == |parent| && |elements| == |parent|
    requires WeightsOk(parent, children, weight, elements)
    requires p < |parent|
    ensures Linked(parent + [Some(p)], children[p := children[p] + [|parent|]] + [[]])
    ensures WeightsOk(parent + [Some(p)], children[p := children[p] + [|parent|]] + [[]], weight + [0], elements + [[]])
  {
    var c := |parent|;
    var parent', children', weight' := parent + [Some(p)], children[p := children[p] + [c]] + [[]], weight + [0];
    assert ParentsOk(parent');
    forall i | 0 <= i < |parent'|
      ensures AllBelow(children'[i], |parent'|) && Increasing(children'[i])
    {
      if i == p {
        assert children'[i] == children[p] + [c];
        IncreasingSnoc(children[p], c);
      }
    }
    forall i, k | 0 <= i < |parent'| && 0 <= k < |children'[i]|
      ensures parent'[children'[i][k]] == Some(i)
    {
      if i == p && k == |children[p]| {
        assert children'[i][k] == c;
      } else {
        assert children'[i][k] == children[i][k];
      }
    }
    forall j | 0 <= j < |parent'| && parent'[j].Some?
      ensures j in children'[parent'[j].value]
    {
      if j == c {
        assert children'[p] == children[p] + [c];
      } else {
        assert j in children[parent[j].value];
      }
    }
    assert Linked(parent', children');
    forall i | 0 <= i < |parent'|
      ensures weight'[i] == |(elements + [[]])[i]| + SumAt(weight', children'[i])
    {
      if i < c {
        SumAtFrame(weight, weight', children[i]);
        if i == p {
          SumAtAppend(weight', children[p], [c]);
        }
      }
    }
  }

  // ---------------------------------------------------------------------------
  // Enumeration helpers
  // ---------------------------------------------------------------------------

  /** The records emitted for one node: its files, in stored order, each paired
      with the node's name. */
  function ElementsWithPath(path: Bytes, elems: seq<Bytes>): (r: seq<File>)
    ensures |r| == |elems|
    ensures forall k :: 0 <= k < |elems| ==> r[k] == File(path, elems[k])
  {
    if elems == [] then [] else ElementsWithPath(path, elems[..|elems| - 1]) + [File(path, elems[|elems| - 1])]
  }

  /** The children of the nodes `vs`, list after list, in that order: what a FIFO
      queue receives when the nodes `vs` are dequeued one after another. */
  ghost function Enqueued(children: seq<seq<nat>>, vs: seq<nat>): seq<nat>
    requires AllBelow(vs, |children|)
  {
    if vs == [] then [] else Enqueued(children, vs[..|vs| - 1]) + children[vs[|vs| - 1]]
  }

  /** Dequeuing `order[k]` enqueues its children behind everything enqueued so far. */
  lemma EnqueuedStep(children: seq<seq<nat>>, order: seq<nat>, k: nat, n: nat)
    requires 0 <= k < |order| && AllBelow(order, |children|)
    requires order == [n] + Enqueued(children, order[..k])
    ensures AllBelow((order + children[order[k]])[..k + 1], |children|)
    ensures order + children[order[k]] == [n] + Enqueued(children, (order + children[order[k]])[..k + 1])
  {
    var cs := children[order[k]];
    var o' := (order + cs)[..k + 1];
    assert o' == order[..k + 1];
    assert AllBelow(o', |children|) by {
      forall q | 0 <= q < |o'| ensures o'[q] < |children| {
        assert o'[q] == order[q];
      }
    }
    assert o'[..|o'| - 1] == order[..k];
    assert Enqueued(children, o') == Enqueued(children, order[..k]) + cs;
    assert [n] + Enqueued(children, o') == ([n] + Enqueued(children, order[..k])) + cs;
  }

  /** The records emitted for the nodes `vs`, visited in that order. */
  ghost function FilesOf(name: seq<Bytes>, elements: seq<seq<Bytes>>, vs: seq<nat>): seq<File>
    requires |name| == |elements| && AllBelow(vs, |name|)
  {
    if vs == [] then []
    else FilesOf(name, elements, vs[..|vs| - 1]) + ElementsWithPath(name[vs[|vs| - 1]], elements[vs[|vs| - 1]])
  }

  /** A traversal that starts at `n` and lists the children of every listed node
      reaches every node of the subtree of `n`. */
  lemma {:induction false} SubtreeCovered(parent: seq<Option<nat>>, children: seq<seq<nat>>, order: seq<nat>, n: nat, j: nat)
    requires Linked(parent, children)
    requires |order| >= 1 && order[0] == n && AllBelow(order, |parent|)
    requires forall q, c :: 0 <= q < |order| && c in children[order[q]] ==> c in order
    requires j < |parent| && InSubtree(parent, n, j)
    ensures j in order
    decreases j
  {
    if j != n {
      var up := parent[j].value;
      assert PathToRoot(parent, j) == [j] + PathToRoot(parent, up);
      SubtreeCovered(parent, children, order, n, up);
      var q :| 0 <= q < |order| && order[q] == up;
      assert j in children[order[q]];
    }
  }

  /** Appending a repetition-free list of new nodes keeps a list repetition-free. */
  lemma AppendDistinct(order: seq<nat>, cs: seq<nat>)
    requires Distinct(order) && Increasing(cs)
    requires forall q :: 0 <= q < |cs| ==> cs[q] !in order
    ensures Distinct(order + cs)
  {
    IncreasingPairs(cs);
    var o' := order + cs;
    forall q1, q2 | 0 <= q1 < q2 < |o'|
      ensures o'[q1] != o'[q2]
    {
      if q2 >= |order| && q1 < |order| {
        assert o'[q2] == cs[q2 - |order|];
      } else if q1 >= |order| {
        assert o'[q1] == cs[q1 - |order|] && o'[q2] == cs[q2 - |order|];
      }
    }
  }

  /** The children of the node dequeued at step `k` of the breadth-first
      traversal from `n` lie in the subtree of `n` and are not listed yet. */
  lemma ChildrenAreNew(parent: seq<Option<nat>>, n: nat, order: seq<nat>, k: nat, cs: seq<nat>)
    requires ParentsOk(parent) && n < |parent|
    requires 0 <= k < |order| && order[0] == n && AllBelow(order, |parent|)
    requires forall q :: 0 <= q < |order| ==> InSubtree(parent, n, order[q])
    requires Distinct(order)
    requires forall q :: 0 < q < |order| ==> parent[order[q]].Some? && parent[order[q]].value in order[..k]
    requires AllBelow(cs, |parent|) && forall q :: 0 <= q < |cs| ==> parent[cs[q]] == Some(order[k])
    ensures forall q :: 0 <= q < |cs| ==> cs[q] !in order
    ensures AllBelow(order + cs, |parent|)
    ensures forall q :: 0 <= q < |order + cs| ==> InSubtree(parent, n, (order + cs)[q])
  {
    var cur := order[k];
    forall q | 0 <= q < |cs|
      ensures InSubtree(parent, n, cs[q]) && cs[q] !in order
    {
      var c := cs[q];
      assert PathToRoot(parent, c) == [c] + PathToRoot(parent, cur);
      assert n <= cur < c;
    }
    forall q | 0 <= q < |order + cs|
      ensures (order + cs)[q] < |parent| && InSubtree(parent, n, (order + cs)[q])
    {
      if q >= |order| {
        assert (order + cs)[q] == cs[q - |order|];
      } else {
        assert (order + cs)[q] == order[q];
      }
    }
  }

  /** After step `k`, every listed node other than `n` has its parent among the
      first `k + 1` listed nodes. */
  lemma AppendParents(parent: seq<Option<nat>>, order: seq<nat>, k: nat, cs: seq<nat>)
    requires 0 <= k < |order| && AllBelow(order, |parent|) && AllBelow(cs, |parent|)
    requires forall q :: 0 < q < |order| ==> parent[order[q]].Some? && parent[order[q]].value in order[..k]
    requires forall q :: 0 <= q < |cs| ==> parent[cs[q]] == Some(order[k])
    ensures forall q :: 0 < q < |order + cs| ==>
      parent[(order + cs)[q]].Some? && parent[(order + cs)[q]].value in (order + cs)[..k + 1]
  {
    var o' := order + cs;
    assert o'[..k + 1] == order[..k] + [order[k]];
    forall q | 0 < q < |o'|
      ensures parent[o'[q]].Some? && parent[o'[q]].value in o'[..k + 1]
    {
      if q >= |order| {
        assert o'[q] == cs[q - |order|];
      } else {
        assert o'[q] == order[q];
      }
    }
  }

  /** After step `k`, the children of every dequeued node are listed after it. */
  lemma ChildrenListedAfter(children: seq<seq<nat>>, order: seq<nat>, k: nat)
    requires 0 <= k < |order| && AllBelow(order, |children|)
    requires forall q, c :: 0 <= q < k && c in children[order[q]] ==> c in order[q + 1..]
    ensures forall q, c :: 0 <= q < k + 1 && c in children[(order + children[order[k]])[q]] ==>
      c in (order + children[order[k]])[q + 1..]
  {
    var o' := order + children[order[k]];
    forall q, c | 0 <= q < k + 1 && c in children[o'[q]]
      ensures c in o'[q + 1..]
    {
      assert o'[q] == order[q];
      assert o'[q + 1..] == order[q + 1..] + children[order[k]];
    }
  }

  /** The records emitted once the node `order[k]` is dequeued. */
  lemma FilesOfStep(name: seq<Bytes>, elements: seq<seq<Bytes>>, order: seq<nat>, k: nat, cs: seq<nat>)
    requires |name| == |elements| && 0 <= k < |order| && AllBelow(order, |name|) && AllBelow(cs, |name|)
    ensures AllBelow((order + cs)[..k + 1], |name|)
    ensures FilesOf(name, elements, (order + cs)[..k + 1])
      == FilesOf(name, elements, order[..k]) + ElementsWithPath(name[order[k]], elements[order[k]])
  {
    var o' := (order + cs)[..k + 1];
    assert o' == order[..k] + [order[k]];
    assert o'[..|o'| - 1] == order[..k];
  }

  /** A list of distinct indices below `bound` has at most `bound` entries. */
  lemma {:induction false} DistinctLength(s: seq<nat>, bound: nat)
    requires Distinct(s) && AllBelow(s, bound)
    ensures |s| <= bound
    decreases bound
  {
    if |s| > 0 {
      assert s[0] < bound;
      if bound - 1 in s {
        var rest := RemoveOne(s, bound - 1);
        assert AllBelow(rest, bound - 1) by {
          forall k | 0 <= k < |rest| ensures rest[k] < bound - 1 {
            assert rest[k] in s;
          }
        }
        DistinctLength(rest, bound - 1);
      } else {
        assert AllBelow(s, bound - 1) by {
          forall k | 0 <= k < |s| ensures s[k] < bound - 1 {
            assert s[k] != bound - 1;
          }
        }
        DistinctLength(s, bound - 1);
      }
    }
  }

  /** `s` without its one occurrence of `x`. */
  function RemoveOne(s: seq<nat>, x: nat): (r: seq<nat>)
    requires Distinct(s) && x in s
    ensures |r| == |s| - 1 && Distinct(r)
    ensures forall k :: 0 <= k < |r| ==> r[k] in s && r[k] != x
  {
    if s[0] == x then
      assert forall k :: 0 <= k < |s| - 1 ==> s[1..][k] == s[k + 1] && s[k + 1] != s[0];
      s[1..]
    else
      assert Distinct(s[1..]) by {
        forall k1, k2 | 0 <= k1 < k2 < |s| - 1 ensures s[1..][k1] != s[1..][k2] {
          assert s[1..][k1] == s[k1 + 1] && s[1..][k2] == s[k2 + 1];
        }
      }
      var r := [s[0]] + RemoveOne(s[1..], x);
      assert forall k :: 0 < k < |r| ==> r[k] in s[1..];
      assert forall k :: 0 < k < |r| ==> r[k] != s[0];
      r
  }

  /** The weight still to be emitted is preserved by a dequeue: the weight of the
      dequeued node is its own file count plus the weights of its children. */
  lemma SumStep(weight: seq<int>, order: seq<nat>, k: nat, cs: seq<nat>, result: seq<File>, emitted: seq<File>, total: int)
    requires k < |order| && AllBelow(order, |weight|) && AllBelow(cs, |weight|)
    requires |result| + SumAt(weight, order[k..]) == total
    requires weight[order[k]] == |emitted| + SumAt(weight, cs)
    ensures |result + emitted| + SumAt(weight, (order + cs)[k + 1..]) == total
  {
    assert order[k..] == [order[k]] + order[k + 1..];
    assert (order + cs)[k + 1..] == order[k + 1..] + cs;
    SumAtAppend(weight, order[k + 1..], cs);
  }

  /** The state of the breadth-first traversal from `n` after `k` dequeues:
      `order` lists every node ever enqueued, its first `k` entries were dequeued
      and the rest is the queue. */
  ghost predicate BfsState(parent: seq<Option<nat>>, children: seq<seq<nat>>, weight: seq<int>,
                           name: seq<Bytes>, elements: seq<seq<Bytes>>,
                           n: nat, order: seq<nat>, k: nat, result: seq<File>)
    requires ParentsOk(parent) && |children| == |parent| && |weight| == |parent| && |name| == |parent| && |elements| == |parent|
  {
    && 0 <= k <= |order|
    && |order| >= 1 && order[0] == n && AllBelow(order, |parent|)
    && (forall q :: 0 <= q < |order| ==> InSubtree(parent, n, order[q]))
    && Distinct(order)
    && (forall q :: 0 < q < |order| ==> parent[order[q]].Some? && parent[order[q]].value in order[..k])
    && (forall q, c :: 0 <= q < k && c in children[order[q]] ==> c in order[q + 1..])
    && order == [n] + Enqueued(children, order[..k])
    && result == FilesOf(name, elements, order[..k])
    && |result| + SumAt(weight, order[k..]) == weight[n]
  }

  /** Before the first dequeue the queue holds `n` alone. */
  lemma BfsStart(parent: seq<Option<nat>>, children: seq<seq<nat>>, weight: seq<int>,
                 name: seq<Bytes>, elements: seq<seq<Bytes>>, n: nat)
    requires Linked(parent, children) && |weight| == |parent| && |name| == |parent| && |elements| == |parent|
    requires n < |parent|
    ensures BfsState(parent, children, weight, name, elements, n, [n], 0, [])
  {
    assert [n][..0] == [] && [n][0..] == [n];
    assert SumAt(weight, [n][1..]) == 0;
    assert Enqueued(children, [n][..0]) == [];
  }

  /** One iteration of the traversal: dequeue `order[k]`, enqueue its children
      and emit its files. */
  lemma BfsStep(parent: seq<Option<nat>>, children: seq<seq<nat>>, weight: seq<int>,
                name: seq<Bytes>, elements: seq<seq<Bytes>>,
                n: nat, order: seq<nat>, k: nat, result: seq<File>, queue: seq<nat>)
    requires Linked(parent, children) && |weight| == |parent| && |name| == |parent| && |elements| == |parent|
    requires WeightsOk(parent, children, weight, elements)
    requires BfsState(parent, children, weight, name, elements, n, order, k, result)
    requires queue == order[k..] && |queue| > 0
    ensures k < |parent| && queue[0] < |parent|
    ensures BfsState(parent, children, weight, name, elements, n, order + children[queue[0]], k + 1,
                     result + ElementsWithPath(name[queue[0]], elements[queue[0]]))
    ensures queue[1..] + children[queue[0]] == (order + children[queue[0]])[k + 1..]
  {
    DistinctLength(order, |parent|);
    var cur := order[k];
    var cs := children[cur];
    ChildrenAreNew(parent, n, order, k, cs);
    AppendDistinct(order, cs);
    AppendParents(parent, order, k, cs);
    ChildrenListedAfter(children, order, k);
    EnqueuedStep(children, order, k, n);
    FilesOfStep(name, elements, order, k, cs);
    SumStep(weight, order, k, cs, result, ElementsWithPath(name[cur], elements[cur]), weight[n]);
    QueueStep(order, k, cs, queue);
  }

  /** The queue is the unvisited suffix of `order`: dequeuing its head and
      enqueuing `cs` leaves the suffix of `order + cs` after position `k + 1`. */
  lemma QueueStep(order: seq<nat>, k: nat, cs: seq<nat>, queue: seq<nat>)
    requires k < |order| && queue == order[k..]
    ensures queue[1..] + cs == (order + cs)[k + 1..]
  {
  }

  /** When the queue is empty the traversal has listed exactly the subtree of `n`. */
  lemma BfsDone(parent: seq<Option<nat>>, children: seq<seq<nat>>, weight: seq<int>,
                name: seq<Bytes>, elements: seq<seq<Bytes>>,
                n: nat, order: seq<nat>, result: seq<File>)
    requires Linked(parent, children) && |weight| == |parent| && |name| == |parent| && |elements| == |parent|
    requires BfsState(parent, children, weight, name, elements, n, order, |order|, result)
    ensures |result| == weight[n]
    ensures forall j :: 0 <= j < |parent| ==> (j in order <==> InSubtree(parent, n, j))
    ensures forall q, c :: 0 <= q < |order| && c in children[order[q]] ==> c in order[q + 1..]
    ensures order == [n] + Enqueued(children, order)
    ensures result == FilesOf(name, elements, order)
  {
    assert order[..|order|] == order;
    assert order[|order|..] == [];
    forall q, c | 0 <= q < |order| && c in children[order[q]]
      ensures c in order
    {
      assert c in order[q + 1..];
    }
    forall j | 0 <= j < |parent|
      ensures j in order <==> InSubtree(parent, n, j)
    {
      if InSubtree(parent, n, j) {
        SubtreeCovered(parent, children, order, n, j);
      }
    }
  }

  /** The inner loop of `GetAllWeightElementsWithPath`: appends one record per
      file of a node, in the node's order. */
  method AppendElements(result: seq<File>, path: Bytes, files: seq<Bytes>) returns (r: seq<File>)
    ensures r == result + ElementsWithPath(path, files)
  {
    r := result;
    var i := 0;
    while i < |files|
      invariant 0 <= i <= |files|
      invariant |r| == |result| + i && r[..|result|] == result
      invariant forall j :: 0 <= j < i ==> r[|result| + j] == File(path, files[j])
    {
      r := r + [File(path, files[i])];
      i := i + 1;
    }
  }

  /** The breadth-first walk of `GetAllWeightElementsWithPath` over the arena's
      fields (which the walk only reads): a FIFO queue seeded with `n`; each
      dequeued node enqueues its children and emits its files. */
  method CollectSubtree(parent: seq<Option<nat>>, children: seq<seq<nat>>, weight: seq<int>,
                        name: seq<Bytes>, elements: seq<seq<Bytes>>, n: nat)
    returns (result: seq<File>, ghost order: seq<nat>)
    requires Linked(parent, children) && |weight| == |parent| && |name| == |parent| && |elements| == |parent|
    requires WeightsOk(parent, children, weight, elements) && n < |parent|
    ensures |result| == weight[n]
    ensures Distinct(order) && |order| >= 1 && order[0] == n && AllBelow(order, |parent|)
    ensures forall j :: 0 <= j < |parent| ==> (j in order <==> InSubtree(parent, n, j))
    ensures forall q, c :: 0 <= q < |order| && c in children[order[q]] ==> c in order[q + 1..]
    ensures order == [n] + Enqueued(children, order)
    ensures result == FilesOf(name, elements, order)
  {
    var queue: seq<nat> := [n];
    result := [];
    order := [n];
    ghost var k := 0;
    BfsStart(parent, children, weight, name, elements, n);
    while |queue| > 0
      invariant BfsState(parent, children, weight, name, elements, n, order, k, result)
      invariant queue == order[k..]
      decreases |parent| - k
    {
      BfsStep(parent, children, weight, name, elements, n, order, k, result, queue);
      var current := queue[0];
      queue := queue[1..];
      queue := queue + children[current];
      order := order + children[current];
      k := k + 1;
      result := AppendElements(result, name[current], elements[current]);
    }
    assert k == |order|;
    BfsDone(parent, children, weight, name, elements, n, order, result);
  }

  // ---------------------------------------------------------------------------
  // The arena
  // ---------------------------------------------------------------------------

  /** All `Node`s of the program. Node `i` has parent `parent[i]` (Go: `head`),
      children `children[i]` (`childs`), weight `weight[i]`, directory name
      `name[i]` and file names `elements[i]` (`nodeElements`). */
  class NodeArena {
    var parent: seq<Option<nat>>
    var children: seq<seq<nat>>
    var weight: seq<int>
    var name: seq<Bytes>
    var elements: seq<seq<Bytes>>

    ghost predicate Shaped()
      reads this
    {
      && Linked(parent, children)
      && |weight| == |parent| && |name| == |parent| && |elements| == |parent|
    }

    ghost predicate Valid()
      reads this
    {
      Shaped() && WeightsOk(parent, children, weight, elements)
    }

    /** An arena holding no node yet. */
    constructor ()
      ensures Valid()
      ensures parent == [] && children == [] && weight == [] && name == [] && elements == []
    {
      parent, children, weight, name, elements := [], [], [], [], [];
    }

    /** `NewNode(name, nil)`: a new node with no parent, no children, no files and
        weight 0. (`NewNode` with a parent occurs only inside `Insert`.) */
    method NewNode(nodeName: Bytes) returns (n: nat)
      requires Valid()
      modifies this
      ensures Valid()
      ensures n == old(|parent|)
      ensures parent == old(parent) + [None] && children == old(children) + [[]]
      ensures weight == old(weight) + [0] && name == old(name) + [nodeName] && elements == old(elements) + [[]]
    {
      n := |parent|;
      AddRootKeeps(parent, children, weight, elements);
      parent, children := parent + [None], children + [[]];
      weight, name, elements := weight + [0], name + [nodeName], elements + [[]];
    }

    /** `Insert`: appends to the children of `p` a new node named `nodeName` whose
        parent is `p`, and returns it; nothing else changes. */
    method Insert(p: nat, nodeName: Bytes) returns (c: nat)
      requires Valid() && p < |parent|
      modifies this
      ensures Valid()
      ensures c == old(|parent|)
      ensures parent == old(parent) + [Some(p)]
      ensures children == old(children)[p := old(children[p]) + [c]] + [[]]
      ensures weight == old(weight) + [0] && name == old(name) + [nodeName] && elements == old(elements) + [[]]
    {
      c := |parent|;
      AddChildKeeps(parent, children, weight, elements, p);
      parent := parent + [Some(p)];
      children := children[p := children[p] + [c]] + [[]];
      weight, name, elements := weight + [0], name + [nodeName], elements + [[]];
    }

    /** `updateWeight`: adds `delta` to the weight of `x` and of every ancestor of
        `x`, and changes no other weight. */
    method UpdateWeight(x: nat, delta: int)
      requires ParentsOk(parent) && |weight| == |parent| && x < |parent|
      modifies this`weight
      ensures |weight| == |old(weight)|
      ensures forall w :: 0 <= w < |weight| ==>
        weight[w] == old(weight[w]) + (if w in PathToRoot(parent, x) then delta else 0)
    {
      ghost var path := PathToRoot(parent, x);
      PathLinks(parent, x);
      var current: Option<nat> := Some(x);
      ghost var t, done := 0, [];
      while current.Some?
        invariant |weight| == |parent|
        invariant 0 <= t <= |path| && done == path[..t]
        invariant current.Some? <==> t < |path|
        invariant current.Some? ==> current.value == path[t]
        invariant forall w :: 0 <= w < |weight| ==>
          weight[w] == old(weight[w]) + (if w in done then delta else 0)
        decreases |path| - t
      {
        var node := current.value;
        assert t + 1 < |path| ==> parent[path[t]] == Some(path[t + 1]);
        assert t + 1 == |path| ==> parent[path[|path| - 1]].None?;
        if delta > 0 {
          weight := weight[node := weight[node] + delta];
        } else {
          weight := weight[node := weight[node] - -delta];
        }
        current := parent[node];
        assert path[..t + 1] == done + [node];
        t, done := t + 1, done + [node];
      }
      assert done == path;
    }

    /** `AddWeightElem`: appends a file name to node `x` (duplicates are kept) and
        raises the weight of `x` and of every ancestor by one. */
    method AddWeightElem(x: nat, newElement: Bytes)
      requires Valid() && x < |parent|
      modifies this`elements, this`weight
      ensures Valid()
      ensures elements == old(elements)[x := old(elements[x]) + [newElement]]
      ensures |weight| == |old(weight)|
      ensures forall w :: 0 <= w < |weight| ==>
        weight[w] == old(weight[w]) + (if w in PathToRoot(parent, x) then 1 else 0)
    {
      ghost var ws := weight;
      elements := elements[x := elements[x] + [newElement]];
      UpdateWeight(x, 1);
      forall i | 0 <= i < |parent|
        ensures weight[i] == |elements[i]| + SumAt(weight, children[i])
      {
        ChildSumAfterAdd(parent, children, ws, weight, x, i);
      }
    }

    /** `GetAllWeightElementsWithPath`: breadth-first from `n`, emits a record
        (node name, file name) for every file of every node in the subtree of
        `n`. `order` is the order in which nodes are visited: every node of the
        subtree exactly once, `n` first, then the children of the visited nodes
        list after list in visiting order (level order). */
    method GetAllWeightElementsWithPath(n: nat) returns (result: seq<File>, ghost order: seq<nat>)
      requires Valid() && n < |parent|
      ensures |result| == weight[n]
      ensures Distinct(order) && |order| >= 1 && order[0] == n && AllBelow(order, |parent|)
      ensures forall j :: 0 <= j < |parent| ==> (j in order <==> InSubtree(parent, n, j))
      ensures forall q, c :: 0 <= q < |order| && c in children[order[q]] ==> c in order[q + 1..]
      ensures order == [n] + Enqueued(children, order)
      ensures result == FilesOf(name, elements, order)
    {
      result, order := CollectSubtree(parent, children, weight, name, elements, n);
    }
  }
}
