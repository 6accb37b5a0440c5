/** Deterministic enumeration of a finite set of integer ids. Java's hash maps
    iterate their keys in an implementation-defined order; the model iterates
    them in ascending order, and every fold built on this is proved equal to an
    order-free reference. */
module IntKeys {
  import opened Sums

  lemma {:induction false} MinExists(s: set<int>)
    requires s != {}
    ensures exists m :: m in s && forall y :: y in s ==> m <= y
    decreases |s|
  {
    var x := Pick(s);
    if s != {x} {
      var rest := s - {x};
      assert |rest| < |s|;
      MinExists(rest);
      var m :| m in rest && forall y :: y in rest ==> m <= y;
      assert s == rest + {x};
      if x < m {
        assert forall y :: y in s ==> x <= y;
      } else {
        assert forall y :: y in s ==> m <= y;
      }
    } else {
      assert forall y :: y in s ==> x <= y;
    }
  }

  /** The least element of a non-empty set. */
  function Min(s: set<int>): (m: int)
    requires s != {}
    ensures m in s
    ensures forall y :: y in s ==> m <= y
  {
    MinExists(s);
    var m :| m in s && forall y :: y in s ==> m <= y;
    m
  }

  predicate StrictlyIncreasing(r: seq<int>)
  {
    forall i, j :: 0 <= i < j < |r| ==> r[i] < r[j]
  }

  lemma ConsEnumerates(m: int, tail: seq<int>, s: set<int>)
    requires m in s
    requires Enumerates(tail, s - {m})
    ensures Enumerates([m] + tail, s)
  {
    var r := [m] + tail;
    forall i | 0 < i < |r|
      ensures r[i] != m
    {
      assert r[i] == tail[i - 1];
      assert tail[i - 1] in (set k | 0 <= k < |tail| :: tail[k]);
    }
    forall x | x in s
      ensures x in (set i | 0 <= i < |r| :: r[i])
    {
      if x != m {
        assert x in s - {m};
        assert x in (set k | 0 <= k < |tail| :: tail[k]);
        var k :| 0 <= k < |tail| && tail[k] == x;
        assert r[k + 1] == x;
      } else {
        assert r[0] == x;
      }
    }
    forall i | 0 <= i < |r|
      ensures r[i] in s
    {
      if i > 0 {
        assert r[i] == tail[i - 1];
        assert tail[i - 1] in (set k | 0 <= k < |tail| :: tail[k]);
        assert tail[i - 1] in s - {m};
      }
    }
  }

  /** The elements of `s` in ascending order. */
  function SortedKeys(s: set<int>): (r: seq<int>)
    ensures StrictlyIncreasing(r)
    ensures Enumerates(r, s)
    decreases |s|
  {
    if s == {} then []
    else
      var m := Min(s);
      assert |s - {m}| < |s|;
      var tail := SortedKeys(s - {m});
      ConsEnumerates(m, tail, s);
      assert forall i :: 0 <= i < |tail| ==> m < tail[i] by {
        forall i | 0 <= i < |tail|
          ensures m < tail[i]
        {
          assert tail[i] in (set k | 0 <= k < |tail| :: tail[k]);
        }
      }
      [m] + tail
  }

  /** Membership in an enumeration is membership in the enumerated set. */
  lemma EnumeratedMember(r: seq<int>, s: set<int>, x: int)
    requires Enumerates(r, s)
    ensures x in r <==> x in s
  {
    if x in r {
      var i :| 0 <= i < |r| && r[i] == x;
      assert r[i] in (set k | 0 <= k < |r| :: r[k]);
    }
    if x in s {
      assert x in (set k | 0 <= k < |r| :: r[k]);
    }
  }
}
