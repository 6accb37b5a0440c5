/** doClustering: every phrase starts in its own cluster, infrequent phrases
    are absorbed into the clusters of the frequent ones, each remaining
    cluster gets a leaf in the merge history, the clusters are merged until
    one is left, and every phrase is written with the path to its cluster's
    leaf. */
module Clustering {
  import opened Wrappers
  import opened Sums
  import opened IntKeys
  import opened Sorting
  import opened Counts
  import opened Candidates
  import opened History
  import opened Agglomeration
  import opened Output

  /** What the clustering leaves behind: the phrase-to-cluster map, the leaf
      node of every cluster, and the final merge state whose forest holds
      the history. */
  datatype Outcome = Outcome(phraseToCluster: map<int, int>, leaves: map<int, int>, history: MergeState)

  /** The cluster of every phrase, in ascending phrase order (the values of
      the phrase-to-cluster map). */
  function ClusterValues(p2c: map<int, int>): (r: seq<int>)
    ensures forall c :: c in r <==> exists x :: x in p2c && p2c[x] == c
  {
    var keys := SortedKeys(p2c.Keys);
    forall x | x in p2c
      ensures x in keys
    {
      EnumeratedMember(keys, p2c.Keys, x);
    }
    var r := seq(|keys|, k requires 0 <= k < |keys| => p2c[keys[k]]);
    assert forall c :: c in r ==> exists x :: x in p2c && p2c[x] == c by {
      forall c | c in r
        ensures exists x :: x in p2c && p2c[x] == c
      {
        var k :| 0 <= k < |r| && r[k] == c;
        assert keys[k] in p2c && p2c[keys[k]] == c;
      }
    }
    assert forall x :: x in p2c ==> p2c[x] in r by {
      forall x | x in p2c
        ensures p2c[x] in r
      {
        var k :| 0 <= k < |keys| && keys[k] == x;
        assert r[k] == p2c[x];
      }
    }
    r
  }

  /** The state the absorb pass leaves: phrase ids [0, n), the active
      clusters are the ids below maxClusters, every phrase is mapped to an
      active cluster and every frequent phrase to itself. */
  ghost predicate Absorbed(n: int, maxClusters: int, p2c: map<int, int>, counts: ContextCounts)
  {
    && WellFormed(counts)
    && (forall x :: x in Clusters(counts) <==> 0 <= x < n && x < maxClusters)
    && (forall x :: x in p2c <==> 0 <= x < n)
    && (forall x :: x in p2c ==> p2c[x] in Clusters(counts))
    && (forall x :: x in p2c && x < maxClusters ==> p2c[x] == x)
  }

  /** The rest of doClustering after the absorb pass: a leaf for every
      cluster, then the unrestricted merge phase. */
  function Grow(score: PairScore, n: int, maxClusters: int, p2c: map<int, int>, counts: ContextCounts): (o: Outcome)
    requires Absorbed(n, maxClusters, p2c, counts)
    ensures o.phraseToCluster == p2c
    ensures forall x :: x in p2c ==> p2c[x] in o.leaves
    ensures LeavesRooted(o.leaves, o.history.forest)
    ensures Mass(o.history.counts.next) == Mass(counts.next) && Mass(o.history.counts.prev) == Mass(counts.prev)
    ensures Symmetric(counts) ==> Symmetric(o.history.counts)
  {
    var leafForest := InitializeHistoryNodes(ClusterValues(p2c));
    assert leafForest.nodes.Keys == Clusters(counts) by {
      forall x | x in Clusters(counts)
        ensures x in leafForest.nodes
      {
        assert x in p2c && p2c[x] == x;
      }
    }
    assert LeavesRooted(leafForest.nodes, IterativelyMergeClusters(score, Unrestricted, counts, leafForest).forest) by {
      FreshLeavesRooted(ClusterValues(p2c));
      IterativelyMergeKeepsLeaves(score, Unrestricted, counts, leafForest, leafForest.nodes);
    }
    Outcome(p2c, leafForest.nodes, IterativelyMergeClusters(score, Unrestricted, counts, leafForest))
  }

  /** After the merges, distinct clusters have distinct leaves and, when
      every id is below Integer.MAX_VALUE, at most one cluster is left. */
  lemma GrowShape(score: PairScore, n: int, maxClusters: int, p2c: map<int, int>, counts: ContextCounts)
    requires Absorbed(n, maxClusters, p2c, counts)
    ensures var o := Grow(score, n, maxClusters, p2c, counts);
            forall a, b :: a in o.leaves && b in o.leaves && o.leaves[a] == o.leaves[b] ==> a == b
    ensures var o := Grow(score, n, maxClusters, p2c, counts);
            n <= MaxInt ==> forall a, b :: a in o.history.forest.nodes && b in o.history.forest.nodes ==> a == b
  {
    var o := Grow(score, n, maxClusters, p2c, counts);
    if n <= MaxInt {
      assert Clusters(o.history.counts) <= Clusters(counts);
      UnrestrictedLeavesOneCluster(Clusters(o.history.counts));
    }
  }

  /** The clustering of doClustering for `n` phrases (phraseMap.size()),
      without the output file. */
  function Cluster(absorb: PairScore, score: PairScore, maxClusters: int, n: int, c: ContextCounts)
    : (r: Result<Outcome>)
    requires WellFormed(c) && forall x :: x in Clusters(c) <==> 0 <= x < n
    ensures r.Success? ==>
              && (forall x :: x in r.value.phraseToCluster <==> 0 <= x < n)
              && (forall x :: x in r.value.phraseToCluster ==> r.value.phraseToCluster[x] in r.value.leaves)
              && (forall x :: x in r.value.phraseToCluster && x < maxClusters ==> r.value.phraseToCluster[x] == x)
              && Mass(r.value.history.counts.next) == Mass(c.next)
              && Mass(r.value.history.counts.prev) == Mass(c.prev)
              && (Symmetric(c) ==> Symmetric(r.value.history.counts))
              && LeavesRooted(r.value.leaves, r.value.history.forest)
    ensures n <= maxClusters ==> r.Success? && r.value.phraseToCluster == InitializeClusters(n)
    ensures maxClusters < n && maxClusters <= 0 ==> r.Failure?
  {
    var absorbed := MergeInfrequentPhrasesWithFrequentPhraseClusters(absorb, n, maxClusters, InitializeClusters(n), c);
    if absorbed.Failure? then Failure(absorbed.error)
    else Success(Grow(score, n, maxClusters, absorbed.value.0, absorbed.value.1))
  }

  /** After the clustering, distinct clusters have distinct leaves and, when
      every id is below Integer.MAX_VALUE, one tree holds every leaf. */
  lemma ClusterShape(absorb: PairScore, score: PairScore, maxClusters: int, n: int, c: ContextCounts)
    requires WellFormed(c) && forall x :: x in Clusters(c) <==> 0 <= x < n
    requires Cluster(absorb, score, maxClusters, n, c).Success?
    ensures var o := Cluster(absorb, score, maxClusters, n, c).value;
            forall a, b :: a in o.leaves && b in o.leaves && o.leaves[a] == o.leaves[b] ==> a == b
    ensures var o := Cluster(absorb, score, maxClusters, n, c).value;
            n <= MaxInt ==> forall a, b :: a in o.history.forest.nodes && b in o.history.forest.nodes ==> a == b
  {
    var absorbed := MergeInfrequentPhrasesWithFrequentPhraseClusters(absorb, n, maxClusters, InitializeClusters(n), c);
    GrowShape(score, n, maxClusters, absorbed.value.0, absorbed.value.1);
  }

  /** Right after initializeHistoryNodes every leaf is the root of its own
      tree. */
  lemma FreshLeavesRooted(clusters: seq<int>)
    ensures LeavesRooted(InitializeHistoryNodes(clusters).nodes, InitializeHistoryNodes(clusters))
  {
    var f := InitializeHistoryNodes(clusters);
    forall c | c in f.nodes
      ensures Holds(f.nodes, Root(f.arena, f.nodes[c]))
    {
      assert f.arena[f.nodes[c]].parent.None?;
      assert Root(f.arena, f.nodes[c]) == f.nodes[c];
    }
  }

  /** Distinct leaves whose trees are all held by a working map with at most
      one cluster get codes neither of which is a prefix of the other. */
  lemma OneTreePrefixFree(leaves: map<int, int>, f: Forest, cx: int, cy: int)
    requires LeavesRooted(leaves, f)
    requires forall a, b :: a in f.nodes && b in f.nodes ==> a == b
    requires cx in leaves && cy in leaves && leaves[cx] != leaves[cy]
    ensures ArenaWellFormed(f.arena)
    ensures !(Code(f.arena, leaves[cx]) <= Code(f.arena, leaves[cy]))
  {
    var rx := Root(f.arena, leaves[cx]);
    var ry := Root(f.arena, leaves[cy]);
    var kx :| kx in f.nodes && f.nodes[kx] == rx;
    var ky :| ky in f.nodes && f.nodes[ky] == ry;
    LeafCodesPrefixFree(f.arena, leaves[cx], leaves[cy]);
  }

  /** The codes written for phrases of different clusters are prefix free:
      neither is a prefix of the other, so each names its own leaf of the
      single history tree the merges leave behind. */
  lemma CodesPrefixFree(absorb: PairScore, score: PairScore, maxClusters: int, n: int, c: ContextCounts,
                        x: int, y: int)
    requires WellFormed(c) && forall z :: z in Clusters(c) <==> 0 <= z < n
    requires n <= MaxInt
    requires Cluster(absorb, score, maxClusters, n, c).Success?
    requires 0 <= x < n && 0 <= y < n
    requires Cluster(absorb, score, maxClusters, n, c).value.phraseToCluster[x]
             != Cluster(absorb, score, maxClusters, n, c).value.phraseToCluster[y]
    ensures var o := Cluster(absorb, score, maxClusters, n, c).value;
            && ArenaWellFormed(o.history.forest.arena) && LeavesInArena(o.leaves, o.history.forest.arena)
            && !(PhraseCode(o.phraseToCluster, o.leaves, o.history.forest.arena, x)
                 <= PhraseCode(o.phraseToCluster, o.leaves, o.history.forest.arena, y))
  {
    var o := Cluster(absorb, score, maxClusters, n, c).value;
    ClusterShape(absorb, score, maxClusters, n, c);
    OneTreePrefixFree(o.leaves, o.history.forest, o.phraseToCluster[x], o.phraseToCluster[y]);
  }

  /** doClustering: the clustering followed by writeOutput. */
  method DoClustering(absorb: PairScore, score: PairScore, maxClusters: int, pm: map<int, string>, c: ContextCounts)
    returns (r: Result<seq<string>>)
    requires WellFormed(c) && forall x :: x in Clusters(c) <==> 0 <= x < |pm|
    ensures r.Failure? <==> Cluster(absorb, score, maxClusters, |pm|, c).Failure?
    ensures r.Success? ==> Sorted(r.value, ByText()) && Distinct(r.value)
    ensures r.Success? ==>
              var o := Cluster(absorb, score, maxClusters, |pm|, c).value;
              var arena := o.history.forest.arena;
              && ArenaWellFormed(arena) && LeavesInArena(o.leaves, arena)
              && (forall x :: 0 <= x < |pm| ==> PhraseLine(pm, o.phraseToCluster, o.leaves, arena, x) in r.value)
              && (forall l :: l in r.value ==>
                    exists x :: 0 <= x < |pm| && l == PhraseLine(pm, o.phraseToCluster, o.leaves, arena, x))
  {
    var clustered := Cluster(absorb, score, maxClusters, |pm|, c);
    if clustered.Failure? {
      return Failure(clustered.error);
    }
    var o := clustered.value;
    var lines := WriteOutput(pm, o.phraseToCluster, o.leaves, o.history.forest.arena);
    r := Success(lines);
  }
}
