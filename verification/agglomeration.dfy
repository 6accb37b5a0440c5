/** The greedy agglomeration: every phrase starts in its own cluster, the
    phrases ranked at or beyond the cluster budget are absorbed one by one
    into the best of the first clusters, and then the best-scoring pair of
    clusters is merged until no candidate pair is left. */
module Agglomeration {
  import opened Wrappers
  import opened Sums
  import opened Sorting
  import opened Counts
  import opened Candidates
  import opened History

  /** Integer.MAX_VALUE, the open upper end of the unrestricted ranges. */
  const MaxInt: int := 0x7fff_ffff

  /** initializeClusters: phrase `i` starts in cluster `i`, for every phrase id. */
  function InitializeClusters(n: int): (r: map<int, int>)
    ensures forall x :: x in r <==> 0 <= x < n
    ensures forall x :: x in r ==> r[x] == x
    decreases n
  {
    if n <= 0 then map[] else InitializeClusters(n - 1)[n - 1 := n - 1]
  }

  /** The state of the absorb pass before it handles `phrase`: the phrases
      before it and at or beyond the budget are mapped to an active cluster
      below the budget and are no longer clusters themselves; every other
      phrase is still its own cluster. */
  ghost predicate Absorbing(n: int, maxClusters: int, phrase: int, p2c: map<int, int>, c: ContextCounts)
  {
    && WellFormed(c)
    && maxClusters <= phrase
    && (forall x :: x in p2c <==> 0 <= x < n)
    && (forall x :: x in Clusters(c) <==> 0 <= x < n && (x < maxClusters || phrase <= x))
    && (forall x :: x in p2c && (x < maxClusters || phrase <= x) ==> p2c[x] == x)
    && (forall x :: x in p2c && maxClusters <= x < phrase ==> 0 <= p2c[x] < maxClusters && p2c[x] in Clusters(c))
  }

  /** The absorb pass from `phrase` on. A phrase for which no cluster below
      the budget scores above -Double.MAX_VALUE makes the program fail: the
      search answers -1, the name of cluster -1 is null, and mergeClusters
      throws when it asks for that name's length. */
  function AbsorbFrom(absorb: PairScore, n: int, maxClusters: int, phrase: int, p2c: map<int, int>, c: ContextCounts)
    : (r: Result<(map<int, int>, ContextCounts)>)
    requires Absorbing(n, maxClusters, phrase, p2c, c)
    ensures r.Success? ==> Absorbing(n, maxClusters, if phrase < n then n else phrase, r.value.0, r.value.1)
    ensures r.Success? ==> Mass(r.value.1.next) == Mass(c.next) && Mass(r.value.1.prev) == Mass(c.prev)
    ensures r.Success? && Symmetric(c) ==> Symmetric(r.value.1)
    ensures phrase < n && maxClusters <= 0 ==> r.Failure?
    decreases n - phrase
  {
    if phrase >= n then Success((p2c, c))
    else
      var best := FindBestClusterToMerge(c, absorb, phrase, 0, maxClusters);
      if best.0 == -1 then Failure("no cluster to absorb the phrase into")
      else
        var target := best.0;
        assert 0 <= target < maxClusters && target in Clusters(c);
        assert phrase in Clusters(c);
        var d := MergeClusters(c, phrase, target);
        var q := p2c[phrase := target];
        AbsorbStep(n, maxClusters, phrase, p2c, c, target, d);
        var r := AbsorbFrom(absorb, n, maxClusters, phrase + 1, q, d);
        assert (if phrase + 1 < n then n else phrase + 1) == n;
        r
  }

  /** Absorbing one phrase into an active cluster below the budget moves the
      absorb state on by one phrase. */
  lemma AbsorbStep(n: int, maxClusters: int, phrase: int, p2c: map<int, int>, c: ContextCounts, target: int,
                   d: ContextCounts)
    requires Absorbing(n, maxClusters, phrase, p2c, c)
    requires phrase < n && 0 <= target < maxClusters && target in Clusters(c)
    requires WellFormed(d) && Clusters(d) == Clusters(c) - {phrase}
    ensures Absorbing(n, maxClusters, phrase + 1, p2c[phrase := target], d)
  {
    var q := p2c[phrase := target];
    assert Clusters(d) == Clusters(c) - {phrase};
    assert WellFormed(d);
    assert phrase in p2c;
    assert q.Keys == p2c.Keys;
    forall x
      ensures x in Clusters(d) <==> 0 <= x < n && (x < maxClusters || phrase + 1 <= x)
    {
      assert x in Clusters(d) <==> x in Clusters(c) && x != phrase;
    }
    forall x | x in q && (x < maxClusters || phrase + 1 <= x)
      ensures q[x] == x
    {
      assert x != phrase;
    }
    forall x | x in q && maxClusters <= x < phrase + 1
      ensures 0 <= q[x] < maxClusters && q[x] in Clusters(d)
    {
      if x != phrase {
        assert q[x] == p2c[x] && p2c[x] in Clusters(c) && p2c[x] < maxClusters;
      }
    }
  }

  /** mergeInfrequentPhrasesWithFrequentPhraseClusters: starting from every
      phrase in its own cluster, each phrase id at or beyond `maxClusters` is
      merged into the best-scoring cluster below `maxClusters`. Afterwards the
      clusters are exactly the ids below the budget and every phrase maps to
      one of them. `n` is the number of phrases, the size of the map. */
  function MergeInfrequentPhrasesWithFrequentPhraseClusters(absorb: PairScore, n: int, maxClusters: int,
                                                             p2c: map<int, int>, c: ContextCounts)
    : (r: Result<(map<int, int>, ContextCounts)>)
    requires p2c == InitializeClusters(n)
    requires WellFormed(c) && forall x :: x in Clusters(c) <==> 0 <= x < n
    ensures r.Success? ==>
              && WellFormed(r.value.1)
              && (forall x :: x in Clusters(r.value.1) <==> 0 <= x < n && x < maxClusters)
              && (forall x :: x in r.value.0 <==> 0 <= x < n)
              && (forall x :: x in r.value.0 ==> r.value.0[x] in Clusters(r.value.1))
              && (forall x :: x in r.value.0 && x < maxClusters ==> r.value.0[x] == x)
              && Mass(r.value.1.next) == Mass(c.next) && Mass(r.value.1.prev) == Mass(c.prev)
              && (Symmetric(c) ==> Symmetric(r.value.1))
    ensures n <= maxClusters ==> r == Success((p2c, c))
    ensures maxClusters < n && maxClusters <= 0 ==> r.Failure?
  {
    var r := AbsorbFrom(absorb, n, maxClusters, maxClusters, p2c, c);
    if r.Success? then
      AbsorbDone(n, maxClusters, if maxClusters < n then n else maxClusters, r.value.0, r.value.1);
      r
    else
      r
  }

  /** Once the absorb pass has passed the last phrase, the clusters are the
      ids below the budget and every phrase maps to one of them. */
  lemma AbsorbDone(n: int, maxClusters: int, phrase: int, p2c: map<int, int>, c: ContextCounts)
    requires Absorbing(n, maxClusters, phrase, p2c, c) && n <= phrase
    ensures WellFormed(c)
    ensures forall x :: x in Clusters(c) <==> 0 <= x < n && x < maxClusters
    ensures forall x :: x in p2c <==> 0 <= x < n
    ensures forall x :: x in p2c ==> p2c[x] in Clusters(c)
    ensures forall x :: x in p2c && x < maxClusters ==> p2c[x] == x
  {
    forall x | x in p2c
      ensures p2c[x] in Clusters(c)
    {
      if x < maxClusters {
        assert p2c[x] == x;
      }
    }
  }

  /** The merge loop's state: the cluster counts, the working history map
      and the candidate list. */
  datatype MergeState = MergeState(counts: ContextCounts, forest: Forest, candidates: seq<Candidate>)

  /** The candidate list holds every eligible pair of active clusters once. */
  ghost predicate CandidatesCover(rg: Ranges, active: set<int>, cs: seq<Candidate>)
  {
    forall p :: multiset(Pairs(cs))[p] == if Eligible(active, rg, p) then 1 else 0
  }

  /** The merge loop's invariant: well-formed counts and history, one history
      node per active cluster, and a sorted candidate list covering every
      eligible pair once. */
  ghost predicate Tracked(rg: Ranges, s: MergeState)
  {
    && WellFormed(s.counts)
    && ForestWellFormed(s.forest)
    && s.forest.nodes.Keys == Clusters(s.counts)
    && Sorted(s.candidates, ByScore())
    && CandidatesCover(rg, Clusters(s.counts), s.candidates)
  }

  /** A candidate's pair occurs in the pairs of its list. */
  lemma PairListed(cs: seq<Candidate>, k: int)
    requires 0 <= k < |cs|
    ensures multiset(Pairs(cs))[PairOf(cs[k])] > 0
  {
    assert Pairs(cs)[k] == PairOf(cs[k]);
  }

  /** Popping the last candidate, dropping every candidate that mentions its
      absorbed cluster and retiring that cluster leaves a list that covers
      the remaining active clusters. */
  lemma RetirePairs(rg: Ranges, active: set<int>, cs: seq<Candidate>, kept: seq<Candidate>)
    requires cs != [] && CandidatesCover(rg, active, cs)
    requires forall p :: multiset(Pairs(kept))[p]
                         == if p.0 == cs[|cs| - 1].cluster1 || p.1 == cs[|cs| - 1].cluster1 then 0
                            else multiset(Pairs(cs[..|cs| - 1]))[p]
    ensures Eligible(active, rg, PairOf(cs[|cs| - 1]))
    ensures CandidatesCover(rg, active - {cs[|cs| - 1].cluster1}, kept)
  {
    var last := cs[|cs| - 1];
    PairListed(cs, |cs| - 1);
    assert multiset(Pairs(cs))[PairOf(last)] > 0;
    PopPairs(cs);
    forall p
      ensures multiset(Pairs(kept))[p] == if Eligible(active - {last.cluster1}, rg, p) then 1 else 0
    {
      RetireOnePair(rg, active, last.cluster1, multiset(Pairs(cs))[p], multiset(Pairs(cs[..|cs| - 1]))[p],
                    multiset(Pairs(kept))[p], p, p == PairOf(last));
    }
  }

  /** The count of one pair through a pop and a removal, as plain numbers. */
  lemma RetireOnePair(rg: Ranges, active: set<int>, retired: int, before: nat, popped: nat, after: nat,
                      p: (int, int), isLast: bool)
    requires before == if Eligible(active, rg, p) then 1 else 0
    requires before == popped + (if isLast then 1 else 0)
    requires isLast ==> p.0 == retired
    requires after == if p.0 == retired || p.1 == retired then 0 else popped
    ensures after == if Eligible(active - {retired}, rg, p) then 1 else 0
  {
  }

  /** Popping the last candidate removes one copy of its pair. */
  lemma PopPairs(cs: seq<Candidate>)
    requires cs != []
    ensures forall p :: multiset(Pairs(cs))[p]
                        == multiset(Pairs(cs[..|cs| - 1]))[p] + (if p == PairOf(cs[|cs| - 1]) then 1 else 0)
  {
    var last := cs[|cs| - 1];
    assert cs == cs[..|cs| - 1] + [last];
    ProjectConcat(cs[..|cs| - 1], [last], PairOf);
  }

  /** The pieces one iteration produces re-establish the loop invariant. */
  lemma StepTracked(rg: Ranges, s: MergeState, c1: int, c2: int, counts: ContextCounts, forest: Forest,
                    kept: seq<Candidate>, cands: seq<Candidate>)
    requires Tracked(rg, s)
    requires c1 in Clusters(s.counts) && c2 in Clusters(s.counts) && c1 != c2
    requires WellFormed(counts) && Clusters(counts) == Clusters(s.counts) - {c1}
    requires ForestWellFormed(forest) && forest.nodes.Keys == s.forest.nodes.Keys - {c1} + {c2}
    requires CandidatesCover(rg, Clusters(s.counts) - {c1}, kept)
    requires Sorted(cands, ByScore()) && multiset(Pairs(cands)) == multiset(Pairs(kept))
    ensures Tracked(rg, MergeState(counts, forest, cands))
  {
    assert forest.nodes.Keys == Clusters(counts);
  }

  /** One iteration of iterativelyMergeClusters: the last (best-scoring)
      candidate is popped, its first cluster is merged into its second in the
      counts and in the history, the candidates mentioning the absorbed
      cluster are dropped and those whose destination is the survivor are
      rescored. The iteration keeps the loop invariant, retires the absorbed
      cluster and shortens the candidate list. */
  function MergeStep(score: PairScore, rg: Ranges, s: MergeState): (r: MergeState)
    requires Tracked(rg, s) && s.candidates != []
    ensures Tracked(rg, r)
    ensures |r.candidates| < |s.candidates|
    ensures Clusters(r.counts) == Clusters(s.counts) - {s.candidates[|s.candidates| - 1].cluster1}
  {
    var n := |s.candidates|;
    var next := s.candidates[n - 1];
    var c1 := next.cluster1;
    var c2 := next.cluster2;
    var kept := RemoveMergeCandidates(s.candidates[..n - 1], c1);
    RemovedPairs(s.candidates[..n - 1], c1);
    RetirePairs(rg, Clusters(s.counts), s.candidates, kept);
    var counts := MergeClusters(s.counts, c1, c2);
    var forest := UpdateClusterNodes(s.forest, c1, c2);
    UpdateKeepsForest(s.forest, c1, c2);
    var cands := UpdateMergeCandidateScores(counts, score, c2, kept);
    StepTracked(rg, s, c1, c2, counts, forest, kept, cands);
    MergeState(counts, forest, cands)
  }

  /** What one iteration merges: the popped pair is an eligible pair of
      active clusters, and the iteration applies mergeClusters and
      updateClusterNodes to it. */
  lemma MergeStepMerges(score: PairScore, rg: Ranges, s: MergeState)
    requires Tracked(rg, s) && s.candidates != []
    ensures var next := s.candidates[|s.candidates| - 1];
            var r := MergeStep(score, rg, s);
            && Eligible(Clusters(s.counts), rg, PairOf(next))
            && r.forest == UpdateClusterNodes(s.forest, next.cluster1, next.cluster2)
            && r.counts == MergeClusters(s.counts, next.cluster1, next.cluster2)
  {
    PairListed(s.candidates, |s.candidates| - 1);
  }

  /** After one iteration no candidate mentions the absorbed cluster. */
  lemma MergeStepDropsRetired(score: PairScore, rg: Ranges, s: MergeState)
    requires Tracked(rg, s) && s.candidates != []
    ensures var r := MergeStep(score, rg, s);
            forall k :: 0 <= k < |r.candidates| ==> !Mentions(r.candidates[k], s.candidates[|s.candidates| - 1].cluster1)
  {
    var n := |s.candidates|;
    var kept := RemoveMergeCandidates(s.candidates[..n - 1], s.candidates[n - 1].cluster1);
    RemovedPairs(s.candidates[..n - 1], s.candidates[n - 1].cluster1);
    RemovedStayRemoved(kept, MergeStep(score, rg, s).candidates, s.candidates[n - 1].cluster1);
  }

  /** After one iteration every candidate whose destination is the survivor
      carries its score in the merged counts. */
  lemma MergeStepRescores(score: PairScore, rg: Ranges, s: MergeState)
    requires Tracked(rg, s) && s.candidates != []
    ensures var r := MergeStep(score, rg, s);
            forall k :: 0 <= k < |r.candidates| && r.candidates[k].cluster2 == s.candidates[|s.candidates| - 1].cluster2
                        ==> r.candidates[k].score == score(r.counts, r.candidates[k].cluster1, r.candidates[k].cluster2)
  {
  }

  /** The while loop of iterativelyMergeClusters: merges until the candidate
      list is empty, at which point no eligible pair of active clusters is
      left. The total counts and their symmetry are kept. */
  function MergeLoop(score: PairScore, rg: Ranges, s: MergeState): (r: MergeState)
    requires Tracked(rg, s)
    ensures Tracked(rg, r) && r.candidates == []
    ensures Clusters(r.counts) <= Clusters(s.counts)
    ensures forall p :: !Eligible(Clusters(r.counts), rg, p)
    ensures Mass(r.counts.next) == Mass(s.counts.next) && Mass(r.counts.prev) == Mass(s.counts.prev)
    ensures Symmetric(s.counts) ==> Symmetric(r.counts)
    decreases |s.candidates|
  {
    if s.candidates == [] then
      assert Pairs(s.candidates) == [];
      s
    else
      MergeStepMerges(score, rg, s);
      MergeLoop(score, rg, MergeStep(score, rg, s))
  }

  /** The merge loop keeps every leaf's tree in the working map. */
  lemma {:induction false} MergeLoopKeepsLeaves(score: PairScore, rg: Ranges, s: MergeState, leaves: map<int, int>)
    requires Tracked(rg, s) && LeavesRooted(leaves, s.forest)
    ensures LeavesRooted(leaves, MergeLoop(score, rg, s).forest)
    decreases |s.candidates|
  {
    if s.candidates != [] {
      var next := s.candidates[|s.candidates| - 1];
      MergeStepMerges(score, rg, s);
      UpdateKeepsLeaves(leaves, s.forest, next.cluster1, next.cluster2);
      MergeLoopKeepsLeaves(score, rg, MergeStep(score, rg, s), leaves);
    }
  }

  /** iterativelyMergeClusters: scores every eligible pair, then merges the
      best pair until none is left. */
  function IterativelyMergeClusters(score: PairScore, rg: Ranges, c: ContextCounts, f: Forest): (r: MergeState)
    requires WellFormed(c) && ForestWellFormed(f) && f.nodes.Keys == Clusters(c)
    ensures Tracked(rg, r) && r.candidates == []
    ensures Clusters(r.counts) <= Clusters(c)
    ensures forall p :: !Eligible(Clusters(r.counts), rg, p)
    ensures Mass(r.counts.next) == Mass(c.next) && Mass(r.counts.prev) == Mass(c.prev)
    ensures Symmetric(c) ==> Symmetric(r.counts)
  {
    var cands := ComputeAllScores(c, score, rg);
    MergeLoop(score, rg, MergeState(c, f, cands))
  }

  /** iterativelyMergeClusters keeps every leaf's tree in the working map. */
  lemma IterativelyMergeKeepsLeaves(score: PairScore, rg: Ranges, c: ContextCounts, f: Forest, leaves: map<int, int>)
    requires WellFormed(c) && ForestWellFormed(f) && f.nodes.Keys == Clusters(c)
    requires LeavesRooted(leaves, f)
    ensures LeavesRooted(leaves, IterativelyMergeClusters(score, rg, c, f).forest)
  {
    MergeLoopKeepsLeaves(score, rg, MergeState(c, f, ComputeAllScores(c, score, rg)), leaves);
  }

  /** The ranges of the second merge phase: every cluster id is a candidate
      and a destination. */
  const Unrestricted: Ranges := Ranges(0, MaxInt, 0, MaxInt)

  /** When no unrestricted pair is eligible, at most one cluster is active. */
  lemma UnrestrictedLeavesOneCluster(active: set<int>)
    requires forall x :: x in active ==> 0 <= x < MaxInt
    requires forall p :: !Eligible(active, Unrestricted, p)
    ensures forall x, y :: x in active && y in active ==> x == y
  {
    forall x, y | x in active && y in active
      ensures x == y
    {
      if x < y {
        assert Eligible(active, Unrestricted, (y, x));
      } else if y < x {
        assert Eligible(active, Unrestricted, (x, y));
      }
    }
  }
}
