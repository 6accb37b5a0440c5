/** A stable insertion sort over a caller-supplied total preorder. Java's
    `Collections.sort` is a stable merge sort; on a total preorder every stable
    sort produces the same sequence, so this one stands for it. */
module Sorting {

  /** `le` is total and transitive (ties are allowed). */
  ghost predicate TotalPreorder<T(!new)>(le: (T, T) -> bool)
  {
    && (forall a, b :: le(a, b) || le(b, a))
    && (forall a, b, c :: le(a, b) && le(b, c) ==> le(a, c))
  }

  predicate Sorted<T>(s: seq<T>, le: (T, T) -> bool)
  {
    forall i, j :: 0 <= i < j < |s| ==> le(s[i], s[j])
  }

  /** The elements of `s` that tie with `y`, in their order in `s`. */
  function Ties<T>(s: seq<T>, le: (T, T) -> bool, y: T): seq<T>
  {
    if s == [] then []
    else (if le(s[0], y) && le(y, s[0]) then [s[0]] else []) + Ties(s[1..], le, y)
  }

  /** Puts `x` in front of the first element it does not exceed. */
  function Insert<T>(x: T, s: seq<T>, le: (T, T) -> bool): seq<T>
  {
    if s == [] || le(x, s[0]) then [x] + s
    else [s[0]] + Insert(x, s[1..], le)
  }

  lemma {:induction false} InsertMultiset<T>(x: T, s: seq<T>, le: (T, T) -> bool)
    ensures multiset(Insert(x, s, le)) == multiset(s) + multiset{x}
  {
    if s != [] && !le(x, s[0]) {
      InsertMultiset(x, s[1..], le);
      assert s == [s[0]] + s[1..];
    }
  }

  lemma {:induction false} InsertTies<T(!new)>(x: T, s: seq<T>, le: (T, T) -> bool, y: T)
    requires TotalPreorder(le)
    ensures Ties(Insert(x, s, le), le, y)
            == (if le(x, y) && le(y, x) then [x] else []) + Ties(s, le, y)
  {
    if s == [] || le(x, s[0]) {
      TiesCons(x, s, le, y);
    } else {
      InsertTies(x, s[1..], le, y);
      TiesCons(s[0], Insert(x, s[1..], le), le, y);
      TiesCons(s[0], s[1..], le, y);
      assert s == [s[0]] + s[1..];
      if le(x, y) && le(y, x) {
        assert !(le(s[0], y) && le(y, s[0]));
      }
    }
  }

  lemma TiesCons<T>(h: T, t: seq<T>, le: (T, T) -> bool, y: T)
    ensures Ties([h] + t, le, y) == (if le(h, y) && le(y, h) then [h] else []) + Ties(t, le, y)
  {
    assert ([h] + t)[1..] == t;
  }

  lemma {:induction false} InsertSorted<T(!new)>(x: T, s: seq<T>, le: (T, T) -> bool)
    requires TotalPreorder(le)
    requires Sorted(s, le)
    ensures Sorted(Insert(x, s, le), le)
  {
    if s == [] || le(x, s[0]) {
      var r := [x] + s;
      forall i, j | 0 <= i < j < |r|
        ensures le(r[i], r[j])
      {
        if i > 0 {
          assert r[i] == s[i - 1] && r[j] == s[j - 1];
        } else if j > 1 {
          assert le(s[0], s[j - 1]);
        }
      }
    } else {
      assert le(s[0], x);
      InsertSorted(x, s[1..], le);
      InsertMultiset(x, s[1..], le);
      var t := Insert(x, s[1..], le);
      var r := [s[0]] + t;
      forall j | 0 <= j < |t|
        ensures le(s[0], t[j])
      {
        assert t[j] in multiset(t);
        if t[j] != x {
          assert t[j] in multiset(s[1..]);
          var k :| 0 <= k < |s[1..]| && s[1..][k] == t[j];
          assert le(s[0], s[k + 1]);
        }
      }
      forall i, j | 0 <= i < j < |r|
        ensures le(r[i], r[j])
      {
        if i == 0 {
          assert r[j] == t[j - 1];
        } else {
          assert r[i] == t[i - 1] && r[j] == t[j - 1];
        }
      }
    }
  }

  /** The stable sort of `s` by `le`. */
  function Sort<T(!new)>(s: seq<T>, le: (T, T) -> bool): (r: seq<T>)
    requires TotalPreorder(le)
    ensures Sorted(r, le)
    ensures multiset(r) == multiset(s)
    ensures |r| == |s|
    ensures forall y :: Ties(r, le, y) == Ties(s, le, y)
  {
    if s == [] then []
    else
      var t := Sort(s[1..], le);
      InsertSorted(s[0], t, le);
      InsertMultiset(s[0], t, le);
      forall y
        ensures Ties(Insert(s[0], t, le), le, y) == Ties(s, le, y)
      {
        InsertTies(s[0], t, le, y);
      }
      assert s == [s[0]] + s[1..];
      assert multiset(s) == multiset{s[0]} + multiset(s[1..]);
      assert |multiset(Insert(s[0], t, le))| == |multiset(s)|;
      Insert(s[0], t, le)
  }

  /** A sequence without repeated elements. */
  predicate Distinct<T(==)>(s: seq<T>)
  {
    forall i, j :: 0 <= i < j < |s| ==> s[i] != s[j]
  }

  lemma {:induction false} DistinctMultiset<T>(s: seq<T>, x: T)
    requires Distinct(s)
    ensures multiset(s)[x] == if x in s then 1 else 0
  {
    if s != [] {
      assert s == [s[0]] + s[1..];
      assert Distinct(s[1..]);
      DistinctMultiset(s[1..], x);
      if x == s[0] {
        assert x !in s[1..];
      }
    }
  }

  /** Two positions holding the same value make it occur at least twice. */
  lemma CountAtLeast<T>(s: seq<T>, i: int, j: int)
    requires 0 <= i < j < |s|
    ensures multiset(s)[s[i]] >= if s[i] == s[j] then 2 else 1
  {
    var a, b, c := s[..i], s[i + 1..j], s[j + 1..];
    assert s == a + [s[i]] + b + [s[j]] + c;
  }

  /** A permutation of a sequence without repeats has none either. */
  lemma PermutationDistinct<T>(s: seq<T>, t: seq<T>)
    requires Distinct(s)
    requires multiset(s) == multiset(t)
    ensures Distinct(t)
  {
    forall i, j | 0 <= i < j < |t|
      ensures t[i] != t[j]
    {
      CountAtLeast(t, i, j);
      DistinctMultiset(s, t[i]);
    }
  }

  /** `f` applied to every element, in order. */
  function Project<T, U>(s: seq<T>, f: T -> U): (r: seq<U>)
    ensures |r| == |s|
    ensures forall i :: 0 <= i < |s| ==> r[i] == f(s[i])
  {
    if s == [] then [] else [f(s[0])] + Project(s[1..], f)
  }

  lemma {:induction false} ProjectConcat<T, U>(a: seq<T>, b: seq<T>, f: T -> U)
    ensures Project(a + b, f) == Project(a, f) + Project(b, f)
  {
    if a != [] {
      assert (a + b)[1..] == a[1..] + b;
      ProjectConcat(a[1..], b, f);
    }
  }

  /** Removing the element at `k` from a sequence removes one copy from its multiset. */
  lemma RemoveAt<T>(t: seq<T>, k: int)
    requires 0 <= k < |t|
    ensures multiset(t[..k] + t[k + 1..]) == multiset(t) - multiset{t[k]}
  {
    assert t == t[..k] + [t[k]] + t[k + 1..];
  }

  lemma ProjectRemoveAt<T, U>(t: seq<T>, k: int, f: T -> U)
    requires 0 <= k < |t|
    ensures multiset(Project(t, f))
            == multiset(Project(t[..k] + t[k + 1..], f)) + multiset{f(t[k])}
  {
    SplitAt(t, k);
    var a, b := Project(t[..k], f), Project(t[k + 1..], f);
    ProjectConcat(t[..k], [t[k]] + t[k + 1..], f);
    ProjectConcat([t[k]], t[k + 1..], f);
    ProjectConcat(t[..k], t[k + 1..], f);
    assert Project(t, f) == a + ([f(t[k])] + b);
    MultisetOfThree(a, f(t[k]), b);
  }

  lemma SplitAt<T>(t: seq<T>, k: int)
    requires 0 <= k < |t|
    ensures t == t[..k] + ([t[k]] + t[k + 1..])
  {
  }

  lemma MultisetOfThree<U>(a: seq<U>, y: U, b: seq<U>)
    ensures multiset(a + ([y] + b)) == multiset(a + b) + multiset{y}
  {
  }

  /** Permuting the elements permutes their images. */
  lemma {:induction false} ProjectPermutation<T, U>(s: seq<T>, t: seq<T>, f: T -> U)
    requires multiset(s) == multiset(t)
    ensures multiset(Project(s, f)) == multiset(Project(t, f))
    decreases |s|
  {
    if s != [] {
      var x := s[0];
      assert x in multiset(t);
      var k :| 0 <= k < |t| && t[k] == x;
      var t' := t[..k] + t[k + 1..];
      RemoveAt(t, k);
      ConsMultiset(s);
      ProjectPermutation(s[1..], t', f);
      ProjectRemoveAt(t, k, f);
      ProjectCons(s, f);
    }
  }

  lemma ConsMultiset<T>(s: seq<T>)
    requires s != []
    ensures multiset(s[1..]) == multiset(s) - multiset{s[0]}
  {
    assert s == [s[0]] + s[1..];
  }

  lemma ProjectCons<T, U>(s: seq<T>, f: T -> U)
    requires s != []
    ensures multiset(Project(s, f)) == multiset(Project(s[1..], f)) + multiset{f(s[0])}
  {
    assert Project(s, f) == [f(s[0])] + Project(s[1..], f);
  }
}
