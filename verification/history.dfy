/** The merge history: a binary forest kept as an arena of nodes addressed by
    index. Every merge creates a parent whose left child is the absorbed
    cluster's node and whose right child is the survivor's node; a phrase's
    code is the path from the root of its tree down to its leaf, '0' for a
    left step and '1' for a right step. */
module History {
  import opened Wrappers

  /** ClusterHistoryNode: links to a parent and to two children, by index. */
  datatype Node = Node(parent: Option<int>, left: Option<int>, right: Option<int>)

  type Arena = seq<Node>

  /** A node without a parent and without children. */
  const Fresh: Node := Node(None, None, None)

  predicate Childless(n: Node)
  {
    n.left.None? && n.right.None?
  }

  /** Parent and child links agree, a parent is created after its children
      (so it has a larger index), and the two children of a node differ. */
  predicate ArenaWellFormed(a: Arena)
  {
    && (forall i :: 0 <= i < |a| && a[i].parent.Some? ==>
          i < a[i].parent.value < |a|
          && (a[a[i].parent.value].left == Some(i) || a[a[i].parent.value].right == Some(i)))
    && (forall i :: 0 <= i < |a| && a[i].left.Some? ==>
          0 <= a[i].left.value < i && a[a[i].left.value].parent == Some(i))
    && (forall i :: 0 <= i < |a| && a[i].right.Some? ==>
          0 <= a[i].right.value < i && a[a[i].right.value].parent == Some(i))
    && (forall i :: 0 <= i < |a| && a[i].left.Some? ==> a[i].left != a[i].right)
  }

  /** The root of the tree holding node `i`. */
  function Root(a: Arena, i: int): (r: int)
    requires ArenaWellFormed(a) && 0 <= i < |a|
    ensures i <= r < |a| && a[r].parent.None?
    decreases |a| - i
  {
    if a[i].parent.Some? then Root(a, a[i].parent.value) else i
  }

  /** The path from the root of node `i`'s tree down to `i`. */
  function Code(a: Arena, i: int): (r: string)
    requires ArenaWellFormed(a) && 0 <= i < |a|
    ensures forall k :: 0 <= k < |r| ==> r[k] == '0' || r[k] == '1'
    decreases |a| - i
  {
    match a[i].parent
    case None => []
    case Some(p) => Code(a, p) + [if a[p].left == Some(i) then '0' else '1']
  }

  /** The node reached from node `n` by following `code`, if any. */
  function Descend(a: Arena, n: int, code: string): (r: Option<int>)
    ensures r.Some? ==> 0 <= r.value < |a|
    decreases |code|
  {
    if !(0 <= n < |a|) then None
    else if code == [] then Some(n)
    else
      var child := if code[0] == '0' then a[n].left else a[n].right;
      if child.None? then None else Descend(a, child.value, code[1..])
  }

  /** Following a concatenation follows its halves one after the other. */
  lemma {:induction false} DescendConcat(a: Arena, n: int, u: string, v: string)
    ensures Descend(a, n, u + v)
            == match Descend(a, n, u) case None => None case Some(m) => Descend(a, m, v)
    decreases |u|
  {
    if u == [] {
      assert u + v == v;
    } else if 0 <= n < |a| {
      assert (u + v)[0] == u[0];
      assert (u + v)[1..] == u[1..] + v;
      var child := if u[0] == '0' then a[n].left else a[n].right;
      if child.Some? {
        DescendConcat(a, child.value, u[1..], v);
      }
    }
  }

  /** A node's code leads from its root back to the node. */
  lemma {:induction false} CodeLeadsToNode(a: Arena, i: int)
    requires ArenaWellFormed(a) && 0 <= i < |a|
    ensures Descend(a, Root(a, i), Code(a, i)) == Some(i)
    decreases |a| - i
  {
    if a[i].parent.Some? {
      var p := a[i].parent.value;
      var bit := if a[p].left == Some(i) then '0' else '1';
      CodeLeadsToNode(a, p);
      DescendConcat(a, Root(a, p), Code(a, p), [bit]);
      assert [bit][1..] == [];
    }
  }

  /** Codes of distinct childless nodes of one tree are prefix-free: no code
      is a prefix of (or equal to) the other's. */
  lemma LeafCodesPrefixFree(a: Arena, i: int, j: int)
    requires ArenaWellFormed(a) && 0 <= i < |a| && 0 <= j < |a| && i != j
    requires Childless(a[i]) && Root(a, i) == Root(a, j)
    ensures !(Code(a, i) <= Code(a, j))
  {
    var u := Code(a, i);
    var w := Code(a, j);
    if u <= w {
      var rest := w[|u|..];
      assert w == u + rest;
      CodeLeadsToNode(a, i);
      CodeLeadsToNode(a, j);
      DescendConcat(a, Root(a, i), u, rest);
      DescendFromChildless(a, i, rest);
      assert false;
    }
  }

  /** Nothing but the empty code leads anywhere from a childless node. */
  lemma DescendFromChildless(a: Arena, i: int, code: string)
    requires 0 <= i < |a| && Childless(a[i])
    ensures Descend(a, i, code) == if code == [] then Some(i) else None
  {
  }

  /** The working map from cluster ids to the nodes of their current trees,
      with the arena those nodes live in. */
  datatype Forest = Forest(arena: Arena, nodes: map<int, int>)

  function Lookup(m: map<int, int>, k: int): (r: Option<int>)
    ensures r.Some? <==> k in m
    ensures r.Some? ==> r.value == m[k]
  {
    if k in m then Some(m[k]) else None
  }

  /** The node `c` (when present and in the arena) gets parent `p`. */
  function SetParent(a: Arena, c: Option<int>, p: int): (r: Arena)
    ensures |r| == |a|
    ensures forall i :: 0 <= i < |a| ==> r[i].left == a[i].left && r[i].right == a[i].right
    ensures forall i :: 0 <= i < |a| ==> r[i].parent == if c == Some(i) then Some(p) else a[i].parent
  {
    if c.Some? && 0 <= c.value < |a| then a[c.value := a[c.value].(parent := Some(p))] else a
  }

  /** updateClusterNodes: a new node, appended to the arena, takes the node
      removed for `small` as its left child and the node then held by
      `large` as its right child, and becomes `large`'s node. */
  function UpdateClusterNodes(f: Forest, small: int, large: int): (r: Forest)
    ensures |r.arena| == |f.arena| + 1
    ensures r.nodes.Keys == f.nodes.Keys - {small} + {large}
    ensures r.nodes[large] == |f.arena|
    ensures forall c :: c in r.nodes && c != large ==> r.nodes[c] == f.nodes[c]
    ensures r.arena[|f.arena|] == Node(None, Lookup(f.nodes, small), Lookup(f.nodes - {small}, large))
    ensures forall i :: 0 <= i < |f.arena| ==> r.arena[i].left == f.arena[i].left && r.arena[i].right == f.arena[i].right
    ensures forall i :: 0 <= i < |f.arena| ==>
              r.arena[i].parent
              == if Lookup(f.nodes, small) == Some(i) || Lookup(f.nodes - {small}, large) == Some(i)
                 then Some(|f.arena|) else f.arena[i].parent
  {
    var k := |f.arena|;
    var left := Lookup(f.nodes, small);
    var rest := f.nodes - {small};
    var right := Lookup(rest, large);
    var a := SetParent(SetParent(f.arena, left, k), right, k);
    Forest(a + [Node(None, left, right)], rest[large := k])
  }

  /** The invariant of the working map: a well-formed arena, every cluster
      mapped to a root of the arena, and no two clusters to the same node. */
  predicate ForestWellFormed(f: Forest)
  {
    && ArenaWellFormed(f.arena)
    && (forall c :: c in f.nodes ==> 0 <= f.nodes[c] < |f.arena| && f.arena[f.nodes[c]].parent.None?)
    && (forall c, d :: c in f.nodes && d in f.nodes && f.nodes[c] == f.nodes[d] ==> c == d)
  }

  /** `r` is `a` with one node appended that has no parent and the roots
      `left` and `right` as its children, and those two roots pointing to it. */
  ghost predicate Grafted(a: Arena, r: Arena, left: int, right: int)
  {
    && |r| == |a| + 1
    && r[|a|] == Node(None, Some(left), Some(right))
    && (forall i :: 0 <= i < |a| ==> r[i].left == a[i].left && r[i].right == a[i].right)
    && (forall i :: 0 <= i < |a| ==> r[i].parent == if i == left || i == right then Some(|a|) else a[i].parent)
  }

  /** Joining two distinct roots under a new node keeps the arena well formed. */
  lemma GraftedWellFormed(a: Arena, r: Arena, left: int, right: int)
    requires ArenaWellFormed(a) && Grafted(a, r, left, right)
    requires 0 <= left < |a| && 0 <= right < |a| && left != right
    requires a[left].parent.None? && a[right].parent.None?
    ensures ArenaWellFormed(r)
  {
    GraftedParents(a, r, left, right);
    GraftedChildren(a, r, left, right);
  }

  lemma GraftedParents(a: Arena, r: Arena, left: int, right: int)
    requires ArenaWellFormed(a) && Grafted(a, r, left, right)
    requires 0 <= left < |a| && 0 <= right < |a| && left != right
    ensures forall i :: 0 <= i < |r| && r[i].parent.Some? ==>
              i < r[i].parent.value < |r|
              && (r[r[i].parent.value].left == Some(i) || r[r[i].parent.value].right == Some(i))
  {
    var k := |a|;
    forall i | 0 <= i < |r| && r[i].parent.Some?
      ensures i < r[i].parent.value < |r|
      ensures r[r[i].parent.value].left == Some(i) || r[r[i].parent.value].right == Some(i)
    {
      if i != left && i != right {
        assert i < k && r[i].parent == a[i].parent;
      }
    }
  }

  lemma GraftedChildren(a: Arena, r: Arena, left: int, right: int)
    requires ArenaWellFormed(a) && Grafted(a, r, left, right)
    requires 0 <= left < |a| && 0 <= right < |a| && left != right
    requires a[left].parent.None? && a[right].parent.None?
    ensures forall i :: 0 <= i < |r| && r[i].left.Some? ==>
              0 <= r[i].left.value < i && r[r[i].left.value].parent == Some(i)
    ensures forall i :: 0 <= i < |r| && r[i].right.Some? ==>
              0 <= r[i].right.value < i && r[r[i].right.value].parent == Some(i)
    ensures forall i :: 0 <= i < |r| && r[i].left.Some? ==> r[i].left != r[i].right
  {
    var k := |a|;
    forall i | 0 <= i < |r| && r[i].left.Some?
      ensures 0 <= r[i].left.value < i && r[r[i].left.value].parent == Some(i)
    {
      if i < k {
        var c := a[i].left.value;
        assert c != left && c != right;
      }
    }
    forall i | 0 <= i < |r| && r[i].right.Some?
      ensures 0 <= r[i].right.value < i && r[r[i].right.value].parent == Some(i)
    {
      if i < k {
        var c := a[i].right.value;
        assert c != left && c != right;
      }
    }
  }

  /** updateClusterNodes on two distinct clusters of a well-formed working
      map: the new node joins the two clusters' roots, the absorbed cluster
      leaves the map and the survivor moves to the new node. */
  lemma UpdateShape(f: Forest, small: int, large: int)
    requires ForestWellFormed(f)
    requires small in f.nodes && large in f.nodes && small != large
    ensures var r := UpdateClusterNodes(f, small, large);
            && Grafted(f.arena, r.arena, f.nodes[small], f.nodes[large])
            && r.nodes == (f.nodes - {small})[large := |f.arena|]
  {
    var r := UpdateClusterNodes(f, small, large);
    assert Lookup(f.nodes - {small}, large) == Some(f.nodes[large]);
    assert r.nodes == (f.nodes - {small})[large := |f.arena|];
  }

  /** Merging two distinct clusters keeps the working map's invariant. */
  lemma UpdateKeepsForest(f: Forest, small: int, large: int)
    requires ForestWellFormed(f)
    requires small in f.nodes && large in f.nodes && small != large
    ensures ForestWellFormed(UpdateClusterNodes(f, small, large))
  {
    var r := UpdateClusterNodes(f, small, large);
    var k := |f.arena|;
    UpdateShape(f, small, large);
    GraftedWellFormed(f.arena, r.arena, f.nodes[small], f.nodes[large]);
    forall c | c in r.nodes
      ensures 0 <= r.nodes[c] < |r.arena| && r.arena[r.nodes[c]].parent.None?
    {
      if c != large {
        var n := f.nodes[c];
        assert n != f.nodes[small] && n != f.nodes[large];
      }
    }
  }

  /** Joining two roots: nodes under either root now have the new node as
      root, all other nodes keep theirs. */
  lemma {:induction false} GraftedRoot(a: Arena, r: Arena, left: int, right: int, i: int)
    requires ArenaWellFormed(a) && Grafted(a, r, left, right) && ArenaWellFormed(r)
    requires 0 <= left < |a| && 0 <= right < |a| && left != right
    requires 0 <= i < |a|
    ensures var root := Root(a, i);
            Root(r, i) == if root == left || root == right then |a| else root
    decreases |a| - i
  {
    match a[i].parent
    case None =>
      if i == left || i == right {
        assert r[|a|].parent.None?;
      }
    case Some(p) =>
      GraftedRoot(a, r, left, right, p);
  }

  /** Joining two roots: nodes under the left root gain a leading '0' and
      nodes under the right root a leading '1'. */
  lemma {:induction false} GraftedCodeUnder(a: Arena, r: Arena, left: int, right: int, i: int)
    requires ArenaWellFormed(a) && Grafted(a, r, left, right) && ArenaWellFormed(r)
    requires 0 <= left < |a| && 0 <= right < |a| && left != right
    requires 0 <= i < |a| && (Root(a, i) == left || Root(a, i) == right)
    ensures Code(r, i) == [if Root(a, i) == left then '0' else '1'] + Code(a, i)
    decreases |a| - i
  {
    var k := |a|;
    match a[i].parent
    case None =>
      assert r[i].parent == Some(k) && r[k].parent.None?;
      var top := if r[k].left == Some(i) then '0' else '1';
      assert Code(r, k) == [] && Code(a, i) == [] && Root(a, i) == i;
      assert Code(r, i) == [] + [top];
      assert [] + [top] == [top] + [];
    case Some(p) =>
      GraftedCodeUnder(a, r, left, right, p);
      assert r[i].parent == Some(p) && r[p].left == a[p].left;
      var bit := if a[p].left == Some(i) then '0' else '1';
      var top := if Root(a, p) == left then '0' else '1';
      assert Code(r, i) == ([top] + Code(a, p)) + [bit];
      Associative([top], Code(a, p), [bit]);
      assert Code(a, i) == Code(a, p) + [bit];
      assert Root(a, i) == Root(a, p);
  }

  lemma Associative(x: string, y: string, z: string)
    ensures (x + y) + z == x + (y + z)
  {
  }

  /** Joining two roots leaves the codes of all other trees unchanged. */
  lemma {:induction false} GraftedCodeElsewhere(a: Arena, r: Arena, left: int, right: int, i: int)
    requires ArenaWellFormed(a) && Grafted(a, r, left, right) && ArenaWellFormed(r)
    requires 0 <= i < |a| && Root(a, i) != left && Root(a, i) != right
    ensures Code(r, i) == Code(a, i)
    decreases |a| - i
  {
    match a[i].parent
    case None =>
      assert r[i].parent.None?;
    case Some(p) =>
      GraftedCodeElsewhere(a, r, left, right, p);
      assert r[i].parent == Some(p) && r[p].left == a[p].left;
  }

  /** The effect of joining two roots on the trees: nodes under the left root
      gain a leading '0', nodes under the right root a leading '1', both now
      have the new node as root, and all other nodes are where they were. */
  lemma GraftedCodes(a: Arena, r: Arena, left: int, right: int, i: int)
    requires ArenaWellFormed(a) && Grafted(a, r, left, right)
    requires 0 <= left < |a| && 0 <= right < |a| && left != right
    requires a[left].parent.None? && a[right].parent.None?
    requires 0 <= i < |a|
    ensures ArenaWellFormed(r)
    ensures var root := Root(a, i);
            && Root(r, i) == (if root == left || root == right then |a| else root)
            && Code(r, i) == (if root == left then "0" + Code(a, i)
                              else if root == right then "1" + Code(a, i)
                              else Code(a, i))
  {
    GraftedWellFormed(a, r, left, right);
    GraftedRoot(a, r, left, right, i);
    if Root(a, i) == left || Root(a, i) == right {
      GraftedCodeUnder(a, r, left, right, i);
    } else {
      GraftedCodeElsewhere(a, r, left, right, i);
    }
  }

  /** The effect of one updateClusterNodes on the codes: nodes under the
      absorbed cluster's root gain a leading '0', nodes under the survivor's
      root a leading '1', and all other nodes keep their code. */
  lemma UpdateCodes(f: Forest, small: int, large: int, i: int)
    requires ForestWellFormed(f)
    requires small in f.nodes && large in f.nodes && small != large
    requires 0 <= i < |f.arena|
    ensures ForestWellFormed(UpdateClusterNodes(f, small, large))
    ensures var r := UpdateClusterNodes(f, small, large);
            var root := Root(f.arena, i);
            && Root(r.arena, i) == (if root == f.nodes[small] || root == f.nodes[large] then |f.arena| else root)
            && Code(r.arena, i) == (if root == f.nodes[small] then "0" + Code(f.arena, i)
                                    else if root == f.nodes[large] then "1" + Code(f.arena, i)
                                    else Code(f.arena, i))
  {
    UpdateKeepsForest(f, small, large);
    UpdateShape(f, small, large);
    GraftedCodes(f.arena, UpdateClusterNodes(f, small, large).arena, f.nodes[small], f.nodes[large], i);
  }

  /** Some cluster of the map holds node `v`. */
  ghost predicate Holds(nodes: map<int, int>, v: int)
  {
    exists k :: k in nodes && nodes[k] == v
  }

  /** The leaves of `leaves` (cluster to leaf node) are childless nodes of
      the arena whose trees are all held by the working map. */
  ghost predicate LeavesRooted(leaves: map<int, int>, f: Forest)
  {
    && ForestWellFormed(f)
    && forall c :: c in leaves ==>
         && 0 <= leaves[c] < |f.arena| && Childless(f.arena[leaves[c]])
         && Holds(f.nodes, Root(f.arena, leaves[c]))
  }

  /** A merge keeps every leaf's tree in the working map. */
  lemma UpdateKeepsLeaves(leaves: map<int, int>, f: Forest, small: int, large: int)
    requires LeavesRooted(leaves, f)
    requires small in f.nodes && large in f.nodes && small != large
    ensures LeavesRooted(leaves, UpdateClusterNodes(f, small, large))
  {
    var r := UpdateClusterNodes(f, small, large);
    UpdateKeepsForest(f, small, large);
    forall c | c in leaves
      ensures 0 <= leaves[c] < |r.arena| && Childless(r.arena[leaves[c]])
      ensures Holds(r.nodes, Root(r.arena, leaves[c]))
    {
      var i := leaves[c];
      UpdateCodes(f, small, large, i);
      var root := Root(f.arena, i);
      var owner :| owner in f.nodes && f.nodes[owner] == root;
      if root == f.nodes[small] || root == f.nodes[large] {
        assert r.nodes[large] == Root(r.arena, i);
      } else {
        assert owner != small && owner != large;
        assert r.nodes[owner] == Root(r.arena, i);
      }
    }
  }

  /** initializeHistoryNodes over the cluster of every phrase, in the order
      listed: each occurrence puts a fresh leaf for its cluster, a later
      occurrence replacing the earlier leaf in the map. */
  function InitializeHistoryNodes(clusters: seq<int>): (r: Forest)
    ensures |r.arena| == |clusters|
    ensures forall i :: 0 <= i < |r.arena| ==> r.arena[i] == Fresh
    ensures forall c :: c in r.nodes <==> c in clusters
    ensures forall c :: c in r.nodes ==> 0 <= r.nodes[c] < |r.arena|
    ensures forall c, d :: c in r.nodes && d in r.nodes && r.nodes[c] == r.nodes[d] ==> c == d
    ensures ForestWellFormed(r)
  {
    if clusters == [] then Forest([], map[])
    else
      var f := InitializeHistoryNodes(clusters[..|clusters| - 1]);
      var last := clusters[|clusters| - 1];
      assert clusters == clusters[..|clusters| - 1] + [last];
      Forest(f.arena + [Fresh], f.nodes[last := |f.arena|])
  }

  /** The code loop of writeOutput: walks from a leaf up through its parents,
      prepending '0' when the node is its parent's left child and '1'
      otherwise. The result is the node's root-to-node path; a node that was
      never merged gets the empty code. */
  method WalkToRoot(a: Arena, leaf: int) returns (output: string)
    requires ArenaWellFormed(a) && 0 <= leaf < |a|
    ensures output == Code(a, leaf)
    ensures Descend(a, Root(a, leaf), output) == Some(leaf)
    ensures a[leaf].parent.None? ==> output == []
  {
    output := [];
    var node: Option<int> := Some(leaf);
    while node.Some?
      invariant node.Some? ==> 0 <= node.value < |a| && Code(a, leaf) == Code(a, node.value) + output
      invariant node.None? ==> output == Code(a, leaf)
      decreases if node.Some? then |a| + 1 - node.value else 0
    {
      var n := node.value;
      var parent := a[n].parent;
      if parent.Some? {
        output := [if a[parent.value].left == Some(n) then '0' else '1'] + output;
      }
      node := parent;
    }
    CodeLeadsToNode(a, leaf);
  }
}
