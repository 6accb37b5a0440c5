/** Finite sums over maps, used to state that relabelling bigram counts
    neither creates nor destroys co-occurrence mass. */
module Sums {

  /** The value stored under `k`, or 0 when `k` is absent (a sparse count). */
  function Get<K>(m: map<K, nat>, k: K): nat
  {
    if k in m then m[k] else 0
  }

  /** Some element of a non-empty set. */
  lemma Pick<K>(s: set<K>) returns (x: K)
    requires s != {}
    ensures x in s
  {
    x :| x in s;
  }

  /** The sum of all values of a finite map. */
  ghost function Sum<K>(m: map<K, nat>): nat
    decreases |m.Keys|
  {
    if m.Keys == {} then 0
    else
      var k :| k in m.Keys;
      assert m.Keys - {k} < m.Keys;
      m[k] + Sum(m - {k})
  }

  /** Any key may be taken out first: the sum does not depend on the choice. */
  lemma {:induction false} SumRemove<K>(m: map<K, nat>, k: K)
    requires k in m
    ensures Sum(m) == m[k] + Sum(m - {k})
    decreases |m.Keys|
  {
    var j :| j in m.Keys && Sum(m) == m[j] + Sum(m - {j});
    if j != k {
      assert (m - {j}).Keys < m.Keys;
      assert (m - {k}).Keys < m.Keys;
      SumRemove(m - {j}, k);
      SumRemove(m - {k}, j);
      assert m - {j} - {k} == m - {k} - {j};
    }
  }

  lemma SumEmpty<K>(m: map<K, nat>)
    requires m.Keys == {}
    ensures Sum(m) == 0
  {
  }

  lemma {:induction false} SumZero<K>(m: map<K, nat>)
    requires forall k :: k in m ==> m[k] == 0
    ensures Sum(m) == 0
    decreases |m.Keys|
  {
    if m.Keys != {} {
      var k := Pick(m.Keys);
      SumRemove(m, k);
      assert (m - {k}).Keys < m.Keys;
      SumZero(m - {k});
    }
  }

  /** Overwriting one entry changes the sum by the difference of the values. */
  lemma SumUpdate<K>(m: map<K, nat>, k: K, v: nat)
    ensures Sum(m[k := v]) + Get(m, k) == Sum(m) + v
  {
    SumRemove(m[k := v], k);
    assert m[k := v] - {k} == m - {k};
    if k in m {
      SumRemove(m, k);
    } else {
      assert m - {k} == m;
    }
  }

  /** The sum of `m` over the keys listed in `keys`, in that order. */
  function SumAt<K>(m: map<K, nat>, keys: seq<K>): nat
  {
    if keys == [] then 0 else Get(m, keys[0]) + SumAt(m, keys[1..])
  }

  /** `keys` lists every key of `m` exactly once. */
  predicate Enumerates<K>(keys: seq<K>, s: set<K>)
  {
    && (forall i, j :: 0 <= i < j < |keys| ==> keys[i] != keys[j])
    && (set i | 0 <= i < |keys| :: keys[i]) == s
  }

  lemma EnumeratesIntro<K>(keys: seq<K>, s: set<K>)
    requires forall i, j :: 0 <= i < j < |keys| ==> keys[i] != keys[j]
    requires forall i :: 0 <= i < |keys| ==> keys[i] in s
    requires forall k :: k in s ==> k in keys
    ensures Enumerates(keys, s)
  {
    forall k | k in s
      ensures k in (set i | 0 <= i < |keys| :: keys[i])
    {
      var i :| 0 <= i < |keys| && keys[i] == k;
    }
  }

  lemma {:induction false} SumAtAgree<K>(m: map<K, nat>, m': map<K, nat>, keys: seq<K>)
    requires forall k :: k in keys ==> Get(m, k) == Get(m', k)
    ensures SumAt(m, keys) == SumAt(m', keys)
  {
    if keys != [] {
      SumAtAgree(m, m', keys[1..]);
    }
  }

  /** Folding a map along a repetition-free list of keys that covers all
      its keys gives its sum. */
  lemma {:induction false} SumAtCovers<K>(m: map<K, nat>, keys: seq<K>)
    requires forall i, j :: 0 <= i < j < |keys| ==> keys[i] != keys[j]
    requires forall k :: k in m ==> k in keys
    ensures SumAt(m, keys) == Sum(m)
    decreases |keys|
  {
    if keys == [] {
      SumEmpty(m);
    } else {
      var k := keys[0];
      var rest := m - {k};
      forall x | x in rest
        ensures x in keys[1..]
      {
        var i :| 0 <= i < |keys| && keys[i] == x;
        assert i != 0;
        assert keys[1..][i - 1] == x;
      }
      forall x | x in keys[1..]
        ensures Get(m, x) == Get(rest, x)
      {
        var i :| 0 <= i < |keys[1..]| && keys[1..][i] == x;
        assert keys[i + 1] != keys[0];
      }
      SumAtCovers(rest, keys[1..]);
      SumAtAgree(m, rest, keys[1..]);
      if k in m {
        SumRemove(m, k);
      } else {
        assert rest == m;
      }
    }
  }

  /** Folding a map along any enumeration of its keys gives its sum. */
  lemma SumAtEnumeration<K>(m: map<K, nat>, keys: seq<K>)
    requires Enumerates(keys, m.Keys)
    ensures SumAt(m, keys) == Sum(m)
  {
    forall k | k in m
      ensures k in keys
    {
      assert k in (set i | 0 <= i < |keys| :: keys[i]);
    }
    SumAtCovers(m, keys);
  }

  /** Total mass of a map of rows: the sum of all row sums. */
  ghost function RowSums<K, L>(c: map<K, map<L, nat>>): map<K, nat>
  {
    map a | a in c :: Sum(c[a])
  }

  ghost function Mass<K, L>(c: map<K, map<L, nat>>): nat
  {
    Sum(RowSums(c))
  }

  /** Dropping one row takes its row sum off the mass. */
  lemma MassRemove<K, L>(c: map<K, map<L, nat>>, a: K)
    requires a in c
    ensures Mass(c - {a}) + Sum(c[a]) == Mass(c)
  {
    assert RowSums(c - {a}) == RowSums(c) - {a};
    SumRemove(RowSums(c), a);
  }

  /** Replacing one row changes the mass by the difference of the row sums. */
  lemma MassUpdate<K, L>(c: map<K, map<L, nat>>, a: K, row: map<L, nat>)
    ensures Mass(c[a := row]) + (if a in c then Sum(c[a]) else 0) == Mass(c) + Sum(row)
  {
    assert RowSums(c[a := row]) == RowSums(c)[a := Sum(row)];
    SumUpdate(RowSums(c), a, Sum(row));
  }
}
