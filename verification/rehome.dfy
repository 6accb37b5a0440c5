/** mapPhraseCountsToClusterCounts and addCounts: the context counts of a
    single phrase, re-expressed in cluster space as if the phrase formed a
    cluster `nc` of its own. Each neighbour is relabelled by its cluster; the
    phrase itself becomes `nc`, and its pairing with itself is taken from the
    preceding counts only. */
module Rehome {
  import opened Sums
  import opened IntKeys
  import opened Counts

  /** phraseToClusterMap.get: the hash map answers 0 for an absent key. */
  function ClusterOf(p2c: map<int, int>, o: int): int
  {
    if o in p2c then p2c[o] else 0
  }

  /** The cluster under which neighbour `o` is counted. */
  function Label(p2c: map<int, int>, phrase: int, nc: int, o: int): int
  {
    if o == phrase then nc else ClusterOf(p2c, o)
  }

  /** The entries of a neighbour row that one call of addCounts counts: all of
      them, or all but the phrase's own when identity counts are excluded. */
  function Kept(row: Row, phrase: int, includeIdentity: bool): Row
  {
    if includeIdentity then row else row - {phrase}
  }

  /** Order-free reference: the counted entries whose neighbour is labelled `y`. */
  ghost function Fibre(row: Row, p2c: map<int, int>, phrase: int, includeIdentity: bool, nc: int, y: int): Row
  {
    var kept := Kept(row, phrase, includeIdentity);
    map o | o in kept && Label(p2c, phrase, nc, o) == y :: kept[o]
  }

  /** The summed counted entries, among the neighbours listed in `keys`, whose label is `y`. */
  function LabelledSum(row: Row, keys: seq<int>, p2c: map<int, int>, phrase: int, includeIdentity: bool, nc: int, y: int): nat
  {
    if keys == [] then 0
    else
      var o := keys[0];
      (if Label(p2c, phrase, nc, o) == y then Get(Kept(row, phrase, includeIdentity), o) else 0)
      + LabelledSum(row, keys[1..], p2c, phrase, includeIdentity, nc, y)
  }

  /** `r` is (`prev`, `next`) with the counted entries of `row` listed in
      `keys` added under row `nc` of the first view and column `nc` of the second. */
  ghost predicate Added(r: (CountMap, CountMap), prev: CountMap, next: CountMap, row: Row, keys: seq<int>,
                        p2c: map<int, int>, phrase: int, includeIdentity: bool, nc: int)
  {
    && (forall x, y :: Count(r.0, x, y) == Count(prev, x, y)
          + (if x == nc then LabelledSum(row, keys, p2c, phrase, includeIdentity, nc, y) else 0))
    && (forall x, y :: Count(r.1, x, y) == Count(next, x, y)
          + (if y == nc then LabelledSum(row, keys, p2c, phrase, includeIdentity, nc, x) else 0))
    && prev.Keys <= r.0.Keys && next.Keys <= r.1.Keys
  }

  /** Both views of `r` carry `total` more mass than (`prev`, `next`). */
  ghost predicate AddedMass(r: (CountMap, CountMap), prev: CountMap, next: CountMap, total: nat)
  {
    Mass(r.0) == Mass(prev) + total && Mass(r.1) == Mass(next) + total
  }

  lemma AddedMassStep(r: (CountMap, CountMap), prev: CountMap, next: CountMap, a: int, b: int, v: nat, total: nat)
    requires AddedMass(r, AddTo(prev, a, b, v), AddTo(next, b, a, v), total)
    ensures AddedMass(r, prev, next, v + total)
  {
    AddToMass(prev, a, b, v);
    AddToMass(next, b, a, v);
  }

  lemma AddedStep(r: (CountMap, CountMap), prev: CountMap, next: CountMap, row: Row, keys: seq<int>,
                  p2c: map<int, int>, phrase: int, includeIdentity: bool, nc: int)
    requires keys != []
    requires var o := keys[0];
             var v := Get(Kept(row, phrase, includeIdentity), o);
             var co := Label(p2c, phrase, nc, o);
             Added(r, AddTo(prev, nc, co, v), AddTo(next, co, nc, v), row, keys[1..], p2c, phrase, includeIdentity, nc)
    ensures Added(r, prev, next, row, keys, p2c, phrase, includeIdentity, nc)
  {
    var o := keys[0];
    var v := Get(Kept(row, phrase, includeIdentity), o);
    var co := Label(p2c, phrase, nc, o);
    var m := AddTo(prev, nc, co, v);
    var n := AddTo(next, co, nc, v);
    forall x, y
      ensures Count(r.0, x, y) == Count(prev, x, y)
                + (if x == nc then LabelledSum(row, keys, p2c, phrase, includeIdentity, nc, y) else 0)
    {
      assert Count(r.0, x, y) == Count(m, x, y)
               + (if x == nc then LabelledSum(row, keys[1..], p2c, phrase, includeIdentity, nc, y) else 0);
      assert LabelledSum(row, keys, p2c, phrase, includeIdentity, nc, y)
             == (if co == y then v else 0) + LabelledSum(row, keys[1..], p2c, phrase, includeIdentity, nc, y);
    }
    forall x, y
      ensures Count(r.1, x, y) == Count(next, x, y)
                + (if y == nc then LabelledSum(row, keys, p2c, phrase, includeIdentity, nc, x) else 0)
    {
      assert Count(r.1, x, y) == Count(n, x, y)
               + (if y == nc then LabelledSum(row, keys[1..], p2c, phrase, includeIdentity, nc, x) else 0);
      assert LabelledSum(row, keys, p2c, phrase, includeIdentity, nc, x)
             == (if co == x then v else 0) + LabelledSum(row, keys[1..], p2c, phrase, includeIdentity, nc, x);
    }
  }

  lemma AddedSkip(r: (CountMap, CountMap), prev: CountMap, next: CountMap, row: Row, keys: seq<int>,
                  p2c: map<int, int>, phrase: int, includeIdentity: bool, nc: int)
    requires keys != [] && keys[0] == phrase && !includeIdentity
    requires Added(r, prev, next, row, keys[1..], p2c, phrase, includeIdentity, nc)
    ensures Added(r, prev, next, row, keys, p2c, phrase, includeIdentity, nc)
  {
    assert Get(Kept(row, phrase, includeIdentity), phrase) == 0;
    forall y
      ensures LabelledSum(row, keys, p2c, phrase, includeIdentity, nc, y)
              == LabelledSum(row, keys[1..], p2c, phrase, includeIdentity, nc, y)
    {
    }
  }

  /** The loop of addCounts over the neighbours listed in `keys`: the entry of
      each counted neighbour `o` goes to `prev[nc][label(o)]` and to
      `next[label(o)][nc]`. */
  function AddCountsAt(p2c: map<int, int>, row: Row, keys: seq<int>, prev: CountMap, next: CountMap,
                       phrase: int, includeIdentity: bool, nc: int): (r: (CountMap, CountMap))
  {
    if keys == [] then
      (prev, next)
    else
      var o := keys[0];
      var v := Get(Kept(row, phrase, includeIdentity), o);
      if o != phrase || includeIdentity then
        var co := Label(p2c, phrase, nc, o);
        AddCountsAt(p2c, row, keys[1..], AddTo(prev, nc, co, v), AddTo(next, co, nc, v), phrase, includeIdentity, nc)
      else
        AddCountsAt(p2c, row, keys[1..], prev, next, phrase, includeIdentity, nc)
  }

  /** The loop adds each counted entry under its neighbour's label. */
  lemma {:induction false} AddCountsAtAdded(p2c: map<int, int>, row: Row, keys: seq<int>, prev: CountMap, next: CountMap,
                                            phrase: int, includeIdentity: bool, nc: int)
    ensures Added(AddCountsAt(p2c, row, keys, prev, next, phrase, includeIdentity, nc),
                  prev, next, row, keys, p2c, phrase, includeIdentity, nc)
    decreases |keys|
  {
    var r := AddCountsAt(p2c, row, keys, prev, next, phrase, includeIdentity, nc);
    if keys != [] {
      var o := keys[0];
      var v := Get(Kept(row, phrase, includeIdentity), o);
      if o != phrase || includeIdentity {
        var co := Label(p2c, phrase, nc, o);
        AddCountsAtAdded(p2c, row, keys[1..], AddTo(prev, nc, co, v), AddTo(next, co, nc, v), phrase, includeIdentity, nc);
        AddedStep(r, prev, next, row, keys, p2c, phrase, includeIdentity, nc);
      } else {
        AddCountsAtAdded(p2c, row, keys[1..], prev, next, phrase, includeIdentity, nc);
        AddedSkip(r, prev, next, row, keys, p2c, phrase, includeIdentity, nc);
      }
    }
  }

  /** The loop adds the counted entries' total to the mass of both views. */
  lemma {:induction false} AddCountsAtMass(p2c: map<int, int>, row: Row, keys: seq<int>, prev: CountMap, next: CountMap,
                                           phrase: int, includeIdentity: bool, nc: int)
    ensures AddedMass(AddCountsAt(p2c, row, keys, prev, next, phrase, includeIdentity, nc),
                      prev, next, SumAt(Kept(row, phrase, includeIdentity), keys))
    decreases |keys|
  {
    var r := AddCountsAt(p2c, row, keys, prev, next, phrase, includeIdentity, nc);
    if keys != [] {
      var o := keys[0];
      var v := Get(Kept(row, phrase, includeIdentity), o);
      if o != phrase || includeIdentity {
        var co := Label(p2c, phrase, nc, o);
        AddCountsAtMass(p2c, row, keys[1..], AddTo(prev, nc, co, v), AddTo(next, co, nc, v), phrase, includeIdentity, nc);
        AddedMassStep(r, prev, next, nc, co, v, SumAt(Kept(row, phrase, includeIdentity), keys[1..]));
      } else {
        AddCountsAtMass(p2c, row, keys[1..], prev, next, phrase, includeIdentity, nc);
        assert Get(Kept(row, phrase, includeIdentity), phrase) == 0;
      }
    }
  }

  /** addCounts: makes sure `prev` has a row for `nc`, then runs the loop over
      the neighbours of the row in ascending order. */
  function AddCounts(p2c: map<int, int>, row: Row, prev: CountMap, next: CountMap,
                     phrase: int, includeIdentity: bool, nc: int): (r: (CountMap, CountMap))
    ensures nc in r.0 && next.Keys <= r.1.Keys
    ensures forall x, y :: Count(r.0, x, y) == Count(prev, x, y)
              + (if x == nc then Sum(Fibre(row, p2c, phrase, includeIdentity, nc, y)) else 0)
    ensures forall x, y :: Count(r.1, x, y) == Count(next, x, y)
              + (if y == nc then Sum(Fibre(row, p2c, phrase, includeIdentity, nc, x)) else 0)
    ensures Mass(r.0) == Mass(prev) + Sum(Kept(row, phrase, includeIdentity))
    ensures Mass(r.1) == Mass(next) + Sum(Kept(row, phrase, includeIdentity))
  {
    var empty: Row := map[];
    var prev' := if nc in prev then prev else prev[nc := empty];
    assert forall x, y :: Count(prev', x, y) == Count(prev, x, y);
    assert Mass(prev') == Mass(prev) by {
      if nc !in prev {
        MassUpdate(prev, nc, empty);
        SumEmpty(empty);
      }
    }
    var keys := SortedKeys(row.Keys);
    forall y
      ensures LabelledSum(row, keys, p2c, phrase, includeIdentity, nc, y)
              == Sum(Fibre(row, p2c, phrase, includeIdentity, nc, y))
    {
      LabelledSumIsFibre(row, keys, p2c, phrase, includeIdentity, nc, y);
    }
    KeptSum(row, keys, phrase, includeIdentity);
    AddCountsAtAdded(p2c, row, keys, prev', next, phrase, includeIdentity, nc);
    AddCountsAtMass(p2c, row, keys, prev', next, phrase, includeIdentity, nc);
    AddCountsAt(p2c, row, keys, prev', next, phrase, includeIdentity, nc)
  }

  lemma {:induction false} LabelledSumAt(row: Row, keys: seq<int>, p2c: map<int, int>, phrase: int, includeIdentity: bool, nc: int, y: int)
    ensures LabelledSum(row, keys, p2c, phrase, includeIdentity, nc, y)
            == SumAt(Fibre(row, p2c, phrase, includeIdentity, nc, y), keys)
  {
    if keys != [] {
      LabelledSumAt(row, keys[1..], p2c, phrase, includeIdentity, nc, y);
    }
  }

  /** The fold over the ascending neighbours equals the order-free reference. */
  lemma LabelledSumIsFibre(row: Row, keys: seq<int>, p2c: map<int, int>, phrase: int, includeIdentity: bool, nc: int, y: int)
    requires Enumerates(keys, row.Keys)
    ensures LabelledSum(row, keys, p2c, phrase, includeIdentity, nc, y)
            == Sum(Fibre(row, p2c, phrase, includeIdentity, nc, y))
  {
    var f := Fibre(row, p2c, phrase, includeIdentity, nc, y);
    forall o | o in f
      ensures o in keys
    {
      EnumeratedMember(keys, row.Keys, o);
    }
    LabelledSumAt(row, keys, p2c, phrase, includeIdentity, nc, y);
    SumAtCovers(f, keys);
  }

  lemma KeptSum(row: Row, keys: seq<int>, phrase: int, includeIdentity: bool)
    requires Enumerates(keys, row.Keys)
    ensures SumAt(Kept(row, phrase, includeIdentity), keys) == Sum(Kept(row, phrase, includeIdentity))
  {
    var kept := Kept(row, phrase, includeIdentity);
    forall o | o in kept
      ensures o in keys
    {
      EnumeratedMember(keys, row.Keys, o);
    }
    SumAtCovers(kept, keys);
  }

  /** mapPhraseCountsToClusterCounts: the phrase's preceding neighbours with
      identity counts included, then its following neighbours without them,
      the second call writing into the two views the other way round. */
  function MapPhraseCountsToClusterCounts(phrase: int, p2c: map<int, int>, pc: ContextCounts, nc: int)
    : (r: ContextCounts)
    ensures nc in r.prev
    ensures forall x, y :: Count(r.prev, x, y)
              == (if x == nc then Sum(Fibre(RowOf(pc.prev, phrase), p2c, phrase, true, nc, y)) else 0)
                 + (if y == nc then Sum(Fibre(RowOf(pc.next, phrase), p2c, phrase, false, nc, x)) else 0)
    ensures forall x, y :: Count(r.next, x, y)
              == (if y == nc then Sum(Fibre(RowOf(pc.prev, phrase), p2c, phrase, true, nc, x)) else 0)
                 + (if x == nc then Sum(Fibre(RowOf(pc.next, phrase), p2c, phrase, false, nc, y)) else 0)
  {
    var empty: CountMap := map[];
    var first := AddCounts(p2c, RowOf(pc.prev, phrase), empty, empty, phrase, true, nc);
    var second := AddCounts(p2c, RowOf(pc.next, phrase), first.1, first.0, phrase, false, nc);
    ContextCounts(second.1, second.0)
  }

  /** The rehomed counts describe each pair the same way in both views. */
  lemma RehomedSymmetric(phrase: int, p2c: map<int, int>, pc: ContextCounts, nc: int)
    ensures Symmetric(MapPhraseCountsToClusterCounts(phrase, p2c, pc, nc))
  {
    MirroredSymmetric(MapPhraseCountsToClusterCounts(phrase, p2c, pc, nc), RowOf(pc.prev, phrase),
                      RowOf(pc.next, phrase), p2c, phrase, nc);
  }

  /** Counts laid out as the rehoming lays them out are symmetric. */
  lemma MirroredSymmetric(r: ContextCounts, before: Row, after: Row, p2c: map<int, int>, phrase: int, nc: int)
    requires forall x, y :: Count(r.prev, x, y)
               == (if x == nc then Sum(Fibre(before, p2c, phrase, true, nc, y)) else 0)
                  + (if y == nc then Sum(Fibre(after, p2c, phrase, false, nc, x)) else 0)
    requires forall x, y :: Count(r.next, x, y)
               == (if y == nc then Sum(Fibre(before, p2c, phrase, true, nc, x)) else 0)
                  + (if x == nc then Sum(Fibre(after, p2c, phrase, false, nc, y)) else 0)
    ensures Symmetric(r)
  {
    forall x, y
      ensures Count(r.next, x, y) == Count(r.prev, y, x)
    {
    }
  }

  /** Both views of the rehomed counts hold every preceding count of the
      phrase and every following count except its pairing with itself. */
  lemma RehomedMass(phrase: int, p2c: map<int, int>, pc: ContextCounts, nc: int)
    ensures var r := MapPhraseCountsToClusterCounts(phrase, p2c, pc, nc);
            && Mass(r.prev) == Sum(RowOf(pc.prev, phrase)) + Sum(RowOf(pc.next, phrase) - {phrase})
            && Mass(r.next) == Mass(r.prev)
  {
    var empty: CountMap := map[];
    EmptyMass(empty);
    var first := AddCounts(p2c, RowOf(pc.prev, phrase), empty, empty, phrase, true, nc);
    var second := AddCounts(p2c, RowOf(pc.next, phrase), first.1, first.0, phrase, false, nc);
    assert MapPhraseCountsToClusterCounts(phrase, p2c, pc, nc) == ContextCounts(second.1, second.0);
  }

  lemma EmptyMass(m: CountMap)
    requires m == map[]
    ensures Mass(m) == 0
  {
    SumEmpty(RowSums(m));
  }

  /** When only the phrase itself is labelled `nc`, the entries counted under
      `nc` are the phrase's own entry, and only when identity counts are included. */
  lemma FibreOfFreshCluster(row: Row, p2c: map<int, int>, phrase: int, includeIdentity: bool, nc: int)
    requires forall o :: o != phrase ==> ClusterOf(p2c, o) != nc
    ensures Sum(Fibre(row, p2c, phrase, includeIdentity, nc, nc)) == if includeIdentity then Get(row, phrase) else 0
  {
    var f := Fibre(row, p2c, phrase, includeIdentity, nc, nc);
    if includeIdentity && phrase in row {
      assert f == map[phrase := row[phrase]];
      SumRemove(f, phrase);
      SumEmpty(f - {phrase});
    } else {
      assert f == map[];
      SumEmpty(f);
    }
  }

  /** With a cluster id that no neighbour maps to (the role of the dummy
      cluster), the phrase's pairing with itself is counted exactly once. */
  lemma SelfPairOnce(phrase: int, p2c: map<int, int>, pc: ContextCounts, nc: int)
    requires forall o :: o != phrase ==> ClusterOf(p2c, o) != nc
    ensures var r := MapPhraseCountsToClusterCounts(phrase, p2c, pc, nc);
            && Count(r.prev, nc, nc) == Count(pc.prev, phrase, phrase)
            && Count(r.next, nc, nc) == Count(pc.prev, phrase, phrase)
  {
    var r := MapPhraseCountsToClusterCounts(phrase, p2c, pc, nc);
    var before, after := RowOf(pc.prev, phrase), RowOf(pc.next, phrase);
    FibreOfFreshCluster(before, p2c, phrase, true, nc);
    FibreOfFreshCluster(after, p2c, phrase, false, nc);
    assert Count(r.prev, nc, nc)
           == Sum(Fibre(before, p2c, phrase, true, nc, nc)) + Sum(Fibre(after, p2c, phrase, false, nc, nc));
    assert Count(r.next, nc, nc)
           == Sum(Fibre(before, p2c, phrase, true, nc, nc)) + Sum(Fibre(after, p2c, phrase, false, nc, nc));
  }
}
