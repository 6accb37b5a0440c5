/** The merge candidate list: every pair of active clusters within the
    configured ranges, scored and kept sorted by ascending score, so that the
    best candidate is the last one. Scores come from an oracle standing for
    the mutual-information arithmetic. */
module Candidates {
  import opened Sums
  import opened Sorting
  import opened IntKeys
  import opened Counts

  /** A merge proposal: `cluster1` would be absorbed into `cluster2`. */
  datatype Candidate = Candidate(cluster1: int, cluster2: int, score: real)

  /** computeMergeScore for a pair of clusters in the given counts. */
  type PairScore = (ContextCounts, int, int) -> real

  /** The candidate and destination id ranges, each half-open. */
  datatype Ranges = Ranges(candidateStart: int, candidateEnd: int, destinationStart: int, destinationEnd: int)

  /** MergeCandidate ordering: ascending by score. */
  function ByScore(): (Candidate, Candidate) -> bool
  {
    (a: Candidate, b: Candidate) => a.score <= b.score
  }

  lemma ByScoreIsPreorder()
    ensures TotalPreorder(ByScore())
  {
  }

  function PairOf(c: Candidate): (int, int)
  {
    (c.cluster1, c.cluster2)
  }

  /** The cluster pairs of a candidate list, in order. */
  function Pairs(cs: seq<Candidate>): seq<(int, int)>
  {
    Project(cs, PairOf)
  }

  predicate InCandidateRange(rg: Ranges, c1: int)
  {
    rg.candidateStart <= c1 < rg.candidateEnd
  }

  predicate InDestinationRange(rg: Ranges, c2: int)
  {
    rg.destinationStart <= c2 < rg.destinationEnd
  }

  /** Pair `(c1, c2)` deserves a candidate: both clusters active, each in its
      range, and the destination the smaller id. */
  predicate Eligible(active: set<int>, rg: Ranges, p: (int, int))
  {
    && p.0 in active && p.1 in active
    && InCandidateRange(rg, p.0) && InDestinationRange(rg, p.1) && p.1 < p.0
  }

  /** The candidates of `c1` against each cluster listed in `others`. */
  function InnerLoop(c: ContextCounts, score: PairScore, rg: Ranges, c1: int, others: seq<int>): (r: seq<Candidate>)
    ensures forall k :: 0 <= k < |r| ==> r[k].score == score(c, r[k].cluster1, r[k].cluster2)
  {
    if others == [] then []
    else
      var c2 := others[0];
      var head := if InDestinationRange(rg, c2) && c2 < c1 then [Candidate(c1, c2, score(c, c1, c2))] else [];
      head + InnerLoop(c, score, rg, c1, others[1..])
  }

  /** The inner loop lists `c1` against every listed destination below it,
      once per listing. */
  lemma InnerLoopPairs(c: ContextCounts, score: PairScore, rg: Ranges, c1: int, others: seq<int>)
    ensures forall p :: multiset(Pairs(InnerLoop(c, score, rg, c1, others)))[p]
                        == if p.0 == c1 && InDestinationRange(rg, p.1) && p.1 < c1 then multiset(others)[p.1] else 0
  {
    forall p
      ensures multiset(Pairs(InnerLoop(c, score, rg, c1, others)))[p]
              == if p.0 == c1 && InDestinationRange(rg, p.1) && p.1 < c1 then multiset(others)[p.1] else 0
    {
      InnerLoopPairAt(c, score, rg, c1, others, p);
    }
  }

  /** InnerLoopPairs for one pair `p`, by induction on the listed clusters. */
  lemma {:induction false} InnerLoopPairAt(c: ContextCounts, score: PairScore, rg: Ranges, c1: int, others: seq<int>,
                                           p: (int, int))
    ensures multiset(Pairs(InnerLoop(c, score, rg, c1, others)))[p]
            == if p.0 == c1 && InDestinationRange(rg, p.1) && p.1 < c1 then multiset(others)[p.1] else 0
    decreases |others|
  {
    if others != [] {
      InnerLoopPairAt(c, score, rg, c1, others[1..], p);
      InnerLoopHead(c, score, rg, c1, others, p);
      HeadCount(others, p.1);
      InnerCountStep(rg, p, c1, others[0], multiset(Pairs(InnerLoop(c, score, rg, c1, others)))[p],
                     if InDestinationRange(rg, others[0]) && others[0] < c1 && p.0 == c1 && p.1 == others[0] then 1 else 0,
                     multiset(Pairs(InnerLoop(c, score, rg, c1, others[1..])))[p],
                     multiset(others)[p.1], multiset(others[1..])[p.1]);
    }
  }

  /** One unfolding of the inner loop, counted at `p`: the candidate for the
      first listed cluster, if kept, and the rest. */
  lemma InnerLoopHead(c: ContextCounts, score: PairScore, rg: Ranges, c1: int, others: seq<int>, p: (int, int))
    requires others != []
    ensures multiset(Pairs(InnerLoop(c, score, rg, c1, others)))[p]
            == (if InDestinationRange(rg, others[0]) && others[0] < c1 && p.0 == c1 && p.1 == others[0] then 1 else 0)
               + multiset(Pairs(InnerLoop(c, score, rg, c1, others[1..])))[p]
  {
    var c2 := others[0];
    var head := if InDestinationRange(rg, c2) && c2 < c1 then [Candidate(c1, c2, score(c, c1, c2))] else [];
    PairsConcatCount(head, InnerLoop(c, score, rg, c1, others[1..]), p);
    if head != [] {
      assert Pairs(head) == [(c1, c2)];
    }
  }

  /** Counting pairs distributes over concatenation. */
  lemma PairsConcatCount(a: seq<Candidate>, b: seq<Candidate>, p: (int, int))
    ensures multiset(Pairs(a + b))[p] == multiset(Pairs(a))[p] + multiset(Pairs(b))[p]
  {
    ProjectConcat(a, b, PairOf);
    assert Pairs(a + b) == Pairs(a) + Pairs(b);
  }

  /** The count of `x` in a non-empty list: one for the head, if it is `x`,
      plus its count in the tail. */
  lemma HeadCount(xs: seq<int>, x: int)
    requires xs != []
    ensures multiset(xs)[x] == (if xs[0] == x then 1 else 0) + multiset(xs[1..])[x]
  {
    assert xs == [xs[0]] + xs[1..];
  }

  /** One step of InnerLoopPairs on plain counts: the count of `p` in the
      whole list is its count in the head (the candidate for `c2`, if kept)
      plus its count in the rest. */
  lemma InnerCountStep(rg: Ranges, p: (int, int), c1: int, c2: int,
                       whole: nat, headN: nat, restN: nat, othersN: nat, tailN: nat)
    requires whole == headN + restN
    requires othersN == (if p.1 == c2 then 1 else 0) + tailN
    requires headN == if InDestinationRange(rg, c2) && c2 < c1 && p.0 == c1 && p.1 == c2 then 1 else 0
    requires restN == if p.0 == c1 && InDestinationRange(rg, p.1) && p.1 < c1 then tailN else 0
    ensures whole == if p.0 == c1 && InDestinationRange(rg, p.1) && p.1 < c1 then othersN else 0
  {
  }

  /** The candidates of every cluster listed in `firsts` that lies in the
      candidate range, against every cluster listed in `all`. */
  function OuterLoop(c: ContextCounts, score: PairScore, rg: Ranges, firsts: seq<int>, all: seq<int>)
    : (r: seq<Candidate>)
    ensures forall k :: 0 <= k < |r| ==> r[k].score == score(c, r[k].cluster1, r[k].cluster2)
  {
    if firsts == [] then []
    else
      var c1 := firsts[0];
      var head := if InCandidateRange(rg, c1) then InnerLoop(c, score, rg, c1, all) else [];
      head + OuterLoop(c, score, rg, firsts[1..], all)
  }

  /** With distinct first clusters, the outer loop lists every pair of a
      listed first cluster in the candidate range and a listed destination
      below it, once per listing of the destination. */
  lemma OuterLoopPairs(c: ContextCounts, score: PairScore, rg: Ranges, firsts: seq<int>, all: seq<int>)
    requires Distinct(firsts)
    ensures forall p :: multiset(Pairs(OuterLoop(c, score, rg, firsts, all)))[p]
                        == if p.0 in firsts && InCandidateRange(rg, p.0) && InDestinationRange(rg, p.1) && p.1 < p.0
                           then multiset(all)[p.1] else 0
  {
    forall p
      ensures multiset(Pairs(OuterLoop(c, score, rg, firsts, all)))[p]
              == if p.0 in firsts && InCandidateRange(rg, p.0) && InDestinationRange(rg, p.1) && p.1 < p.0
                 then multiset(all)[p.1] else 0
    {
      OuterLoopPairAt(c, score, rg, firsts, all, p);
    }
  }

  /** OuterLoopPairs for one pair `p`, by induction on the first clusters. */
  lemma {:induction false} OuterLoopPairAt(c: ContextCounts, score: PairScore, rg: Ranges, firsts: seq<int>,
                                           all: seq<int>, p: (int, int))
    requires Distinct(firsts)
    ensures multiset(Pairs(OuterLoop(c, score, rg, firsts, all)))[p]
            == if p.0 in firsts && InCandidateRange(rg, p.0) && InDestinationRange(rg, p.1) && p.1 < p.0
               then multiset(all)[p.1] else 0
    decreases |firsts|
  {
    if firsts != [] {
      var c1 := firsts[0];
      OuterLoopHead(c, score, rg, firsts, all, p);
      InnerLoopPairAt(c, score, rg, c1, all, p);
      DistinctTail(firsts);
      OuterLoopPairAt(c, score, rg, firsts[1..], all, p);
      assert p.0 in firsts <==> p.0 == c1 || p.0 in firsts[1..] by {
        assert firsts == [c1] + firsts[1..];
      }
      OuterCountStep(rg, p, c1, p.0 in firsts, p.0 in firsts[1..], multiset(all)[p.1],
                     multiset(Pairs(OuterLoop(c, score, rg, firsts, all)))[p],
                     multiset(Pairs(InnerLoop(c, score, rg, c1, all)))[p],
                     multiset(Pairs(OuterLoop(c, score, rg, firsts[1..], all)))[p]);
    }
  }

  /** One unfolding of the outer loop, counted at `p`: the inner loop of the
      first listed cluster, if it is a candidate, and the rest. */
  lemma OuterLoopHead(c: ContextCounts, score: PairScore, rg: Ranges, firsts: seq<int>, all: seq<int>, p: (int, int))
    requires firsts != []
    ensures multiset(Pairs(OuterLoop(c, score, rg, firsts, all)))[p]
            == (if InCandidateRange(rg, firsts[0]) then multiset(Pairs(InnerLoop(c, score, rg, firsts[0], all)))[p] else 0)
               + multiset(Pairs(OuterLoop(c, score, rg, firsts[1..], all)))[p]
  {
    var head := if InCandidateRange(rg, firsts[0]) then InnerLoop(c, score, rg, firsts[0], all) else [];
    PairsConcatCount(head, OuterLoop(c, score, rg, firsts[1..], all), p);
  }

  /** One step of OuterLoopPairs on plain counts. */
  lemma OuterCountStep(rg: Ranges, p: (int, int), c1: int, inFirsts: bool, inRest: bool, allN: nat,
                       whole: nat, innerN: nat, restN: nat)
    requires inFirsts <==> p.0 == c1 || inRest
    requires !inRest || p.0 != c1
    requires whole == (if InCandidateRange(rg, c1) then innerN else 0) + restN
    requires innerN == if p.0 == c1 && InDestinationRange(rg, p.1) && p.1 < c1 then allN else 0
    requires restN == if inRest && InCandidateRange(rg, p.0) && InDestinationRange(rg, p.1) && p.1 < p.0 then allN else 0
    ensures whole == if inFirsts && InCandidateRange(rg, p.0) && InDestinationRange(rg, p.1) && p.1 < p.0 then allN else 0
  {
  }

  /** The tail of a distinct list is distinct and misses the head. */
  lemma DistinctTail(xs: seq<int>)
    requires Distinct(xs) && xs != []
    ensures Distinct(xs[1..]) && xs[0] !in xs[1..]
  {
  }

  /** Sorting a candidate list keeps its pairs. */
  lemma SortKeepsPairs(cs: seq<Candidate>, r: seq<Candidate>)
    requires multiset(r) == multiset(cs)
    ensures multiset(Pairs(r)) == multiset(Pairs(cs))
  {
    ProjectPermutation(r, cs, PairOf);
  }

  /** computeAllScores: one candidate for every eligible pair of active
      clusters, scored in the given counts, sorted by ascending score. */
  function ComputeAllScores(c: ContextCounts, score: PairScore, rg: Ranges): (r: seq<Candidate>)
    ensures Sorted(r, ByScore())
    ensures forall p :: multiset(Pairs(r))[p] == if Eligible(Clusters(c), rg, p) then 1 else 0
    ensures forall k :: 0 <= k < |r| ==> r[k].score == score(c, r[k].cluster1, r[k].cluster2)
  {
    var keys := SortedKeys(Clusters(c));
    var all := OuterLoop(c, score, rg, keys, keys);
    OuterLoopPairs(c, score, rg, keys, keys);
    ByScoreIsPreorder();
    var r := Sort(all, ByScore());
    SortKeepsPairs(all, r);
    forall p
      ensures multiset(Pairs(r))[p] == if Eligible(Clusters(c), rg, p) then 1 else 0
    {
      KeysMultiset(keys, Clusters(c), p.0);
      KeysMultiset(keys, Clusters(c), p.1);
    }
    forall k | 0 <= k < |r|
      ensures r[k].score == score(c, r[k].cluster1, r[k].cluster2)
    {
      assert r[k] in multiset(all);
    }
    r
  }

  /** An enumeration of a set holds each member once. */
  lemma KeysMultiset(keys: seq<int>, s: set<int>, x: int)
    requires Enumerates(keys, s)
    ensures multiset(keys)[x] == if x in s then 1 else 0
  {
    assert Distinct(keys);
    DistinctMultiset(keys, x);
    EnumeratedMember(keys, s, x);
  }

  /** The candidate names the cluster in either position. */
  predicate Mentions(c: Candidate, cluster: int)
  {
    c.cluster1 == cluster || c.cluster2 == cluster
  }

  /** removeMergeCandidates: drops every candidate that names the retired
      cluster, keeping the order of the others. */
  function RemoveMergeCandidates(cs: seq<Candidate>, retired: int): (r: seq<Candidate>)
    ensures forall x :: multiset(r)[x] == if Mentions(x, retired) then 0 else multiset(cs)[x]
    ensures |r| <= |cs|
  {
    if cs == [] then []
    else
      var rest := RemoveMergeCandidates(cs[1..], retired);
      var head := if Mentions(cs[0], retired) then [] else [cs[0]];
      assert cs == [cs[0]] + cs[1..];
      head + rest
  }

  /** Removal drops exactly the pairs that name the retired cluster. */
  lemma {:induction false} RemovedPairs(cs: seq<Candidate>, retired: int)
    ensures forall p :: multiset(Pairs(RemoveMergeCandidates(cs, retired)))[p]
                        == if p.0 == retired || p.1 == retired then 0 else multiset(Pairs(cs))[p]
    decreases |cs|
  {
    if cs != [] {
      var rest := RemoveMergeCandidates(cs[1..], retired);
      var head := if Mentions(cs[0], retired) then [] else [cs[0]];
      RemovedPairs(cs[1..], retired);
      assert cs == [cs[0]] + cs[1..];
      ProjectConcat(head, rest, PairOf);
      ProjectConcat([cs[0]], cs[1..], PairOf);
    }
  }

  /** The candidate with its score recomputed when its destination is `survivor`. */
  function Rescore(c: ContextCounts, score: PairScore, survivor: int, x: Candidate): Candidate
  {
    if x.cluster2 == survivor then Candidate(x.cluster1, x.cluster2, score(c, x.cluster1, x.cluster2)) else x
  }

  /** updateMergeCandidateScores: rescores the candidates whose destination is
      the surviving cluster, leaves the others as they are, and sorts again. */
  function UpdateMergeCandidateScores(c: ContextCounts, score: PairScore, survivor: int, cs: seq<Candidate>)
    : (r: seq<Candidate>)
    ensures Sorted(r, ByScore())
    ensures multiset(Pairs(r)) == multiset(Pairs(cs))
    ensures |r| == |cs|
    ensures forall k :: 0 <= k < |r| && r[k].cluster2 == survivor ==> r[k].score == score(c, r[k].cluster1, r[k].cluster2)
    ensures forall k :: 0 <= k < |r| && r[k].cluster2 != survivor ==> r[k] in cs
  {
    var rescored := Project(cs, x => Rescore(c, score, survivor, x));
    assert Pairs(rescored) == Pairs(cs);
    ByScoreIsPreorder();
    var r := Sort(rescored, ByScore());
    SortKeepsPairs(rescored, r);
    forall k | 0 <= k < |r|
      ensures r[k].cluster2 == survivor ==> r[k].score == score(c, r[k].cluster1, r[k].cluster2)
      ensures r[k].cluster2 != survivor ==> r[k] in cs
    {
      assert r[k] in multiset(rescored);
      var j :| 0 <= j < |rescored| && rescored[j] == r[k];
    }
    r
  }

  /** The largest finite double, 2^1024 - 2^971. */
  const MaxDouble: real := 179769313486231570814527423731704356798070567525844996598917476803157260780028538760589558632766878171540458953514382464234321326889464182768467546703537516986049910576551282076245490090389328944075868508455133942304583236903222948165808559332123348274797826204144723168738177180919299881250404026184124858368.0

  /** A cluster that `orig` may be merged into: in [minCluster, maxCluster) and not `orig`. */
  predicate Target(orig: int, minCluster: int, maxCluster: int, x: int)
  {
    minCluster <= x < maxCluster && x != orig
  }

  /** The search over the clusters listed in `keys`, starting from the best
      (cluster, score) so far; only a strictly higher score replaces it. */
  function BestAt(c: ContextCounts, score: PairScore, orig: int, minCluster: int, maxCluster: int,
                  keys: seq<int>, best: int, bestScore: real): (r: (int, real))
    ensures r.1 >= bestScore
    ensures r == (best, bestScore)
            || (r.0 in keys && Target(orig, minCluster, maxCluster, r.0)
                && r.1 == score(c, orig, r.0) && r.1 > bestScore)
    ensures forall k :: 0 <= k < |keys| && Target(orig, minCluster, maxCluster, keys[k])
                        ==> score(c, orig, keys[k]) <= r.1
  {
    if keys == [] then (best, bestScore)
    else
      var x := keys[0];
      var s := score(c, orig, x);
      var r := if Target(orig, minCluster, maxCluster, x) && s > bestScore
               then BestAt(c, score, orig, minCluster, maxCluster, keys[1..], x, s)
               else BestAt(c, score, orig, minCluster, maxCluster, keys[1..], best, bestScore);
      assert forall k :: 1 <= k < |keys| ==> keys[k] == keys[1..][k - 1];
      r
  }

  /** findBestClusterToMerge: the active cluster in [minCluster, maxCluster),
      other than `orig`, that scores highest against `orig`; (-1, -MaxDouble)
      when no such cluster scores above -MaxDouble. */
  function FindBestClusterToMerge(c: ContextCounts, score: PairScore, orig: int, minCluster: int, maxCluster: int)
    : (r: (int, real))
    ensures forall x :: x in Clusters(c) && Target(orig, minCluster, maxCluster, x) ==> score(c, orig, x) <= r.1
    ensures r != (-1, -MaxDouble)
            ==> r.0 in Clusters(c) && Target(orig, minCluster, maxCluster, r.0)
                && r.1 == score(c, orig, r.0) && r.1 > -MaxDouble
    ensures r == (-1, -MaxDouble)
            <==> forall x :: x in Clusters(c) && Target(orig, minCluster, maxCluster, x) ==> score(c, orig, x) <= -MaxDouble
  {
    var keys := SortedKeys(Clusters(c));
    var r := BestAt(c, score, orig, minCluster, maxCluster, keys, -1, -MaxDouble);
    forall x | x in Clusters(c)
      ensures x in keys
    {
      EnumeratedMember(keys, Clusters(c), x);
    }
    if r != (-1, -MaxDouble) then
      EnumeratedMember(keys, Clusters(c), r.0);
      r
    else
      r
  }

  /** In a list sorted by ascending score the last candidate scores highest. */
  lemma SortedLastIsBest(cs: seq<Candidate>)
    requires cs != [] && Sorted(cs, ByScore())
    ensures forall k :: 0 <= k < |cs| ==> cs[k].score <= cs[|cs| - 1].score
  {
    forall k | 0 <= k < |cs| - 1
      ensures cs[k].score <= cs[|cs| - 1].score
    {
      assert ByScore()(cs[k], cs[|cs| - 1]);
    }
  }

  /** A list with the same pairs as one in which no pair mentions `retired`
      has no candidate mentioning `retired`. */
  lemma RemovedStayRemoved(kept: seq<Candidate>, cs: seq<Candidate>, retired: int)
    requires multiset(Pairs(cs)) == multiset(Pairs(kept))
    requires forall p: (int, int) :: p.0 == retired || p.1 == retired ==> multiset(Pairs(kept))[p] == 0
    ensures forall k :: 0 <= k < |cs| ==> !Mentions(cs[k], retired)
  {
    forall k | 0 <= k < |cs|
      ensures !Mentions(cs[k], retired)
    {
      assert Pairs(cs)[k] == PairOf(cs[k]);
      assert multiset(Pairs(cs))[PairOf(cs[k])] > 0;
    }
  }
}
