/** Bigram context counts (ContextCountsImpl as BrownCluster uses it): for
    every id `x`, `prev[x][y]` counts how often `y` immediately precedes `x`
    and `next[x][y]` how often `y` immediately follows `x`. The ids of the
    rows are the active clusters. */
module Counts {
  import opened Sums
  import opened Wrappers

  type Row = map<int, nat>
  type CountMap = map<int, Row>

  datatype ContextCounts = ContextCounts(prev: CountMap, next: CountMap)

  /** The row of `a`, empty when `a` has none. */
  function RowOf(m: CountMap, a: int): Row
  {
    if a in m then m[a] else map[]
  }

  /** The count of `b` in the row of `a`; absent entries count 0. */
  function Count(m: CountMap, a: int, b: int): nat
  {
    Get(RowOf(m, a), b)
  }

  /** The ids that own a row (getAllClusters). */
  function Clusters(c: ContextCounts): set<int>
  {
    c.prev.Keys
  }

  /** Both views have a row for the same ids. */
  predicate WellFormed(c: ContextCounts)
  {
    c.prev.Keys == c.next.Keys
  }

  /** The two views describe the same pairs: `b` follows `a` exactly as often
      as `a` precedes `b`. */
  ghost predicate Symmetric(c: ContextCounts)
  {
    forall a, b :: Count(c.next, a, b) == Count(c.prev, b, a)
  }

  /** Adds `k` to the count of `b` in the row of `a`, creating the row when
      it is absent (Int2IntOpenHashMap.addTo). */
  function AddTo(m: CountMap, a: int, b: int, k: nat): (r: CountMap)
    ensures r.Keys == m.Keys + {a}
    ensures forall x, y :: Count(r, x, y) == Count(m, x, y) + (if x == a && y == b then k else 0)
  {
    var row := RowOf(m, a);
    m[a := row[b := Get(row, b) + k]]
  }

  /** Every `AddTo` adds its amount to the total mass. */
  lemma AddToMass(m: CountMap, a: int, b: int, k: nat)
    ensures Mass(AddTo(m, a, b, k)) == Mass(m) + k
  {
    var row := RowOf(m, a);
    var updated := row[b := Get(row, b) + k];
    assert AddTo(m, a, b, k) == m[a := updated];
    SumUpdate(row, b, Get(row, b) + k);
    assert Sum(updated) == Sum(row) + k;
    MassUpdate(m, a, updated);
    if a !in m {
      SumEmpty(row);
    }
    assert (if a in m then Sum(m[a]) else 0) == Sum(row);
  }

  /** One empty row per id (createEmptyCounts). */
  function EmptyCounts(ids: set<int>): (r: CountMap)
    ensures r.Keys == ids
    ensures forall x, y :: Count(r, x, y) == 0
    ensures Mass(r) == 0
  {
    var empty: Row := map[];
    var r := map x | x in ids :: empty;
    forall x | x in r
      ensures RowSums(r)[x] == 0
    {
      SumEmpty(r[x]);
    }
    SumZero(RowSums(r));
    r
  }

  /** The pairs of consecutive elements of one line. */
  function LinePairs(ids: seq<int>): (r: seq<(int, int)>)
    ensures |r| == if ids == [] then 0 else |ids| - 1
    ensures forall k :: 0 <= k < |r| ==> r[k] == (ids[k], ids[k + 1])
  {
    if |ids| < 2 then [] else [(ids[0], ids[1])] + LinePairs(ids[1..])
  }

  /** The bigrams of a corpus: the consecutive pairs of each line, line after line. */
  function Bigrams(corpus: seq<seq<int>>): seq<(int, int)>
  {
    if corpus == [] then [] else LinePairs(corpus[0]) + Bigrams(corpus[1..])
  }

  /** The number of bigrams a corpus holds: each line of `n > 0` phrases gives `n - 1`. */
  function PairCount(corpus: seq<seq<int>>): nat
  {
    if corpus == [] then 0
    else (if corpus[0] == [] then 0 else |corpus[0]| - 1) + PairCount(corpus[1..])
  }

  /** No bigram spans two lines: stacking two corpora stacks their bigrams. */
  lemma {:induction false} BigramsConcat(c1: seq<seq<int>>, c2: seq<seq<int>>)
    ensures Bigrams(c1 + c2) == Bigrams(c1) + Bigrams(c2)
  {
    if c1 != [] {
      assert (c1 + c2)[0] == c1[0];
      assert (c1 + c2)[1..] == c1[1..] + c2;
      BigramsConcat(c1[1..], c2);
    } else {
      assert c1 + c2 == c2;
    }
  }

  lemma {:induction false} BigramsLength(corpus: seq<seq<int>>)
    ensures |Bigrams(corpus)| == PairCount(corpus)
  {
    if corpus != [] {
      BigramsLength(corpus[1..]);
    }
  }

  /** The line seen so far, as far as the loop remembers it: the previous phrase. */
  function Remembered(prev: Option<int>): seq<int>
  {
    if prev.Some? then [prev.value] else []
  }

  /** Every id of a line, and the remembered one, owns a row in both views. */
  predicate HasRows(c: ContextCounts, prev: Option<int>, ids: seq<int>)
  {
    && (prev.Some? ==> prev.value in c.prev && prev.value in c.next)
    && (forall k :: 0 <= k < |ids| ==> ids[k] in c.prev && ids[k] in c.next)
  }

  /** `r` is `c` with every pair of `pairs` counted once more, in both views. */
  ghost predicate Extends(r: ContextCounts, c: ContextCounts, pairs: seq<(int, int)>)
  {
    && (forall a, b :: Count(r.next, a, b) == Count(c.next, a, b) + multiset(pairs)[(a, b)])
    && (forall a, b :: Count(r.prev, b, a) == Count(c.prev, b, a) + multiset(pairs)[(a, b)])
    && Mass(r.next) == Mass(c.next) + |pairs|
    && Mass(r.prev) == Mass(c.prev) + |pairs|
  }

  lemma ExtendsNothing(c: ContextCounts)
    ensures Extends(c, c, [])
  {
  }

  lemma ExtendsChain(c: ContextCounts, m: ContextCounts, r: ContextCounts, p1: seq<(int, int)>, p2: seq<(int, int)>)
    requires Extends(m, c, p1)
    requires Extends(r, m, p2)
    ensures Extends(r, c, p1 + p2)
  {
    assert multiset(p1 + p2) == multiset(p1) + multiset(p2);
  }

  /** Counting pairs from nothing gives symmetric counts that are the pairs' multiplicities. */
  lemma ExtendsEmpty(r: ContextCounts, c: ContextCounts, pairs: seq<(int, int)>)
    requires Extends(r, c, pairs)
    requires forall x, y :: Count(c.prev, x, y) == 0 && Count(c.next, x, y) == 0
    requires Mass(c.prev) == 0 && Mass(c.next) == 0
    ensures Symmetric(r)
    ensures forall a, b :: Count(r.next, a, b) == multiset(pairs)[(a, b)]
    ensures Mass(r.next) == |pairs| && Mass(r.prev) == |pairs|
  {
    forall a, b
      ensures Count(r.next, a, b) == Count(r.prev, b, a)
    {
      assert Count(c.next, a, b) == 0 && Count(c.prev, b, a) == 0;
    }
  }

  /** Counts one bigram `(a, b)`: `b` follows `a` and `a` precedes `b`. */
  function AddPair(c: ContextCounts, a: int, b: int): (r: ContextCounts)
    ensures r.prev.Keys == c.prev.Keys + {b} && r.next.Keys == c.next.Keys + {a}
    ensures Extends(r, c, [(a, b)])
  {
    AddToMass(c.prev, b, a, 1);
    AddToMass(c.next, a, b, 1);
    ContextCounts(AddTo(c.prev, b, a, 1), AddTo(c.next, a, b, 1))
  }

  lemma LinePairsCons(p: int, ids: seq<int>)
    requires ids != []
    ensures LinePairs([p] + ids) == [(p, ids[0])] + LinePairs(Remembered(Some(ids[0])) + ids[1..])
  {
    assert ([p] + ids)[1..] == ids;
    assert ids == [ids[0]] + ids[1..];
  }

  /** The inner loop of extractContextCounts over one line: each phrase after
      the first adds one to next[previous][current] and to prev[current][previous]. */
  function CountLine(c: ContextCounts, prev: Option<int>, ids: seq<int>): (r: ContextCounts)
    requires HasRows(c, prev, ids)
    ensures r.prev.Keys == c.prev.Keys && r.next.Keys == c.next.Keys
    ensures Extends(r, c, LinePairs(Remembered(prev) + ids))
    decreases |ids|
  {
    if ids == [] then
      ExtendsNothing(c);
      c
    else
      var cur := ids[0];
      assert ids == [cur] + ids[1..];
      if prev.Some? then
        var p := prev.value;
        var m := AddPair(c, p, cur);
        assert m.prev.Keys == c.prev.Keys && m.next.Keys == c.next.Keys;
        var r := CountLine(m, Some(cur), ids[1..]);
        LinePairsCons(p, ids);
        ExtendsChain(c, m, r, [(p, cur)], LinePairs(Remembered(Some(cur)) + ids[1..]));
        r
      else
        assert Remembered(prev) + ids == Remembered(Some(cur)) + ids[1..];
        CountLine(c, Some(cur), ids[1..])
  }

  /** The outer loop: every line starts with nothing remembered. */
  function CountCorpus(c: ContextCounts, corpus: seq<seq<int>>): (r: ContextCounts)
    requires forall i, k :: 0 <= i < |corpus| && 0 <= k < |corpus[i]| ==> corpus[i][k] in c.prev && corpus[i][k] in c.next
    ensures r.prev.Keys == c.prev.Keys && r.next.Keys == c.next.Keys
    ensures Extends(r, c, Bigrams(corpus))
    decreases |corpus|
  {
    if corpus == [] then
      ExtendsNothing(c);
      c
    else
      assert HasRows(c, None, corpus[0]);
      var m := CountLine(c, None, corpus[0]);
      assert Remembered(None) + corpus[0] == corpus[0];
      var r := CountCorpus(m, corpus[1..]);
      ExtendsChain(c, m, r, LinePairs(corpus[0]), Bigrams(corpus[1..]));
      r
  }

  /** Two rows added entry by entry. */
  function AddRows(r1: Row, r2: Row): (r: Row)
    ensures forall y :: Get(r, y) == Get(r1, y) + Get(r2, y)
  {
    map y | y in r1.Keys + r2.Keys :: Get(r1, y) + Get(r2, y)
  }

  lemma AddRowsNothing(r1: Row, r2: Row)
    requires r2.Keys == {}
    ensures AddRows(r1, r2) == r1
  {
    var sum := AddRows(r1, r2);
    assert sum.Keys == r1.Keys;
    assert forall y :: y in sum ==> sum[y] == Get(sum, y);
  }

  /** Adding a row is adding all but one of its entries, then that one. */
  lemma AddRowsStep(r1: Row, r2: Row, k: int, v: nat)
    requires k in r2
    requires v == Get(AddRows(r1, r2 - {k}), k) + r2[k]
    ensures AddRows(r1, r2) == AddRows(r1, r2 - {k})[k := v]
  {
    var sum := AddRows(r1, r2);
    var rest := r2 - {k};
    var x' := AddRows(r1, rest)[k := v];
    assert sum.Keys == x'.Keys;
    forall y | y in sum
      ensures sum[y] == x'[y]
    {
      assert Get(rest, y) == if y == k then 0 else Get(r2, y);
      assert sum[y] == Get(sum, y) && x'[y] == Get(x', y);
    }
  }

  lemma {:induction false} SumAddRows(r1: Row, r2: Row)
    ensures Sum(AddRows(r1, r2)) == Sum(r1) + Sum(r2)
    decreases |r2.Keys|
  {
    if r2.Keys == {} {
      AddRowsNothing(r1, r2);
      SumEmpty(r2);
    } else {
      var k := Pick(r2.Keys);
      var rest := r2 - {k};
      assert rest.Keys < r2.Keys;
      SumAddRows(r1, rest);
      var x := AddRows(r1, rest);
      var v: nat := Get(x, k) + r2[k];
      AddRowsStep(r1, r2, k, v);
      SumUpdate(x, k, v);
      SumRemove(r2, k);
    }
  }

  /** A row with the entry of column `a` moved onto column `s`. */
  function RelabelRow(row: Row, a: int, s: int): (r: Row)
    requires a != s
    ensures forall y :: Get(r, y) == (if y == a then 0 else Get(row, y)) + (if y == s then Get(row, a) else 0)
    ensures Sum(r) == Sum(row)
  {
    var moved: Row := if a in row then map[s := row[a]] else map[];
    SumAddRows(row - {a}, moved);
    if a in row then
      SumRemove(moved, s);
      SumEmpty(moved - {s});
      SumRemove(row, a);
      AddRows(row - {a}, moved)
    else
      assert row - {a} == row;
      SumEmpty(moved);
      AddRows(row - {a}, moved)
  }

  /** The count of `(x, y)` once `a` is renamed `s`: the sum of the counts of
      every pair that the renaming sends to `(x, y)`; nothing is left at `a`. */
  ghost function Merged(m: CountMap, a: int, s: int, x: int, y: int): nat
  {
    if x == a || y == a then 0
    else
      Count(m, x, y)
      + (if y == s then Count(m, x, a) else 0)
      + (if x == s then Count(m, a, y) + (if y == s then Count(m, a, a) else 0) else 0)
  }

  /** One view with cluster `a` merged into cluster `s`. */
  function MergeCountMap(m: CountMap, a: int, s: int): (r: CountMap)
    requires a != s && a in m && s in m
    ensures r.Keys == m.Keys - {a}
    ensures forall x, y :: Count(r, x, y) == Merged(m, a, s, x, y)
    ensures Mass(r) == Mass(m)
  {
    var rows := map x | x in m :: RelabelRow(m[x], a, s);
    var r := (rows - {a})[s := AddRows(rows[s], rows[a])];
    MergeMass(m, a, s, rows);
    r
  }

  lemma MergeMass(m: CountMap, a: int, s: int, rows: CountMap)
    requires a != s && a in m && s in m
    requires rows == map x | x in m :: RelabelRow(m[x], a, s)
    ensures Mass((rows - {a})[s := AddRows(rows[s], rows[a])]) == Mass(m)
  {
    assert RowSums(rows) == RowSums(m);
    MassRemove(rows, a);
    MassUpdate(rows - {a}, s, AddRows(rows[s], rows[a]));
    SumAddRows(rows[s], rows[a]);
  }

  /** Renaming preserves symmetry: both views rename the same pairs. */
  lemma MergedSymmetric(c: ContextCounts, a: int, s: int)
    requires Symmetric(c)
    ensures forall x, y :: Merged(c.next, a, s, x, y) == Merged(c.prev, a, s, y, x)
  {
    forall x, y
      ensures Merged(c.next, a, s, x, y) == Merged(c.prev, a, s, y, x)
    {
      assert Count(c.next, x, a) == Count(c.prev, a, x);
      assert Count(c.next, a, y) == Count(c.prev, y, a);
      assert Count(c.next, a, a) == Count(c.prev, a, a);
      assert Count(c.next, x, y) == Count(c.prev, y, x);
    }
  }

  /** mergeClusters(absorbed, survivor): every count that involves the
      absorbed cluster is added to the survivor's, in both views, and the
      absorbed cluster's rows are removed. */
  function MergeClusters(c: ContextCounts, a: int, s: int): (r: ContextCounts)
    requires WellFormed(c)
    requires a in Clusters(c) && s in Clusters(c) && a != s
    ensures WellFormed(r) && Clusters(r) == Clusters(c) - {a}
    ensures forall x, y :: Count(r.next, x, y) == Merged(c.next, a, s, x, y)
    ensures forall x, y :: Count(r.prev, x, y) == Merged(c.prev, a, s, x, y)
    ensures Symmetric(c) ==> Symmetric(r)
    ensures Mass(r.next) == Mass(c.next) && Mass(r.prev) == Mass(c.prev)
  {
    var r := ContextCounts(MergeCountMap(c.prev, a, s), MergeCountMap(c.next, a, s));
    forall x, y | Symmetric(c)
      ensures Count(r.next, x, y) == Count(r.prev, y, x)
    {
      MergedSymmetric(c, a, s);
    }
    r
  }
}
