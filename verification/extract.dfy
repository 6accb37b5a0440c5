/** extractContextCounts: the corpus lines are turned into phrase ids through
    the phrase table (a phrase missing from it is the unknown phrase) and
    every pair of consecutive phrases on a line is counted in both views. */
module Extract {
  import opened Sums
  import opened IntKeys
  import opened Phrases
  import opened Counts

  /** A phrase table: the ids are exactly 0..n-1 and no phrase has two ids. */
  predicate IsPhraseTable(pm: map<int, string>)
  {
    && (forall i :: i in pm ==> 0 <= i < |pm|)
    && (forall i :: 0 <= i < |pm| ==> i in pm)
    && (forall i, j :: i in pm && j in pm && pm[i] == pm[j] ==> i == j)
  }

  /** The phrase a corpus phrase is counted as: itself when the table has it,
      the unknown phrase otherwise. */
  function Resolve(pm: map<int, string>, w: string): string
  {
    if w in pm.Values then w else UnknownPhrase
  }

  /** Every phrase of the corpus resolves to a phrase of the table. */
  predicate Resolvable(pm: map<int, string>, corpus: seq<seq<string>>)
  {
    forall i, k :: 0 <= i < |corpus| && 0 <= k < |corpus[i]| ==> Resolve(pm, corpus[i][k]) in pm.Values
  }

  /** Puts the entries of `pm` listed in `keys` into a phrase-to-id map, in
      the listed order, so a later entry for the same phrase replaces an
      earlier one. */
  function InvertAt(pm: map<int, string>, keys: seq<int>): (r: map<string, int>)
    requires forall i :: 0 <= i < |keys| ==> keys[i] in pm
    ensures forall w :: w in r ==> r[w] in pm && r[w] in keys && pm[r[w]] == w
    ensures forall i :: 0 <= i < |keys| ==> pm[keys[i]] in r
    decreases |keys|
  {
    if keys == [] then map[]
    else
      var rest := InvertAt(pm, keys[1..]);
      if pm[keys[0]] in rest then rest else rest[pm[keys[0]] := keys[0]]
  }

  /** An entry listed after every other entry with its phrase is the one
      the map keeps. */
  lemma {:induction false} InvertAtKeepsLast(pm: map<int, string>, keys: seq<int>, i: int)
    requires forall i :: 0 <= i < |keys| ==> keys[i] in pm
    requires 0 <= i < |keys|
    requires forall j :: i < j < |keys| ==> pm[keys[j]] != pm[keys[i]]
    ensures InvertAt(pm, keys)[pm[keys[i]]] == keys[i]
    decreases |keys|
  {
    var rest := InvertAt(pm, keys[1..]);
    if i == 0 {
      assert forall j :: 0 <= j < |keys[1..]| ==> pm[keys[1..][j]] != pm[keys[0]];
    } else {
      InvertAtKeepsLast(pm, keys[1..], i - 1);
    }
  }

  /** invert: the phrase-to-id map of a phrase table, with the entries put
      in ascending id order. */
  function Invert(pm: map<int, string>): (r: map<string, int>)
    ensures forall w :: w in r <==> w in pm.Values
    ensures forall w :: w in r ==> r[w] in pm && pm[r[w]] == w
  {
    var keys := SortedKeys(pm.Keys);
    forall i | 0 <= i < |keys|
      ensures keys[i] in pm
    {
      EnumeratedMember(keys, pm.Keys, keys[i]);
    }
    var r := InvertAt(pm, keys);
    forall k | k in pm
      ensures pm[k] in r
    {
      EnumeratedMember(keys, pm.Keys, k);
    }
    r
  }

  /** As with the repeated puts of invert, when two ids carry the same
      phrase the one put last, the larger, is kept. */
  lemma InvertKeepsLast(pm: map<int, string>, k: int)
    requires k in pm
    requires forall j :: j in pm && j > k ==> pm[j] != pm[k]
    ensures Invert(pm)[pm[k]] == k
  {
    var keys := SortedKeys(pm.Keys);
    forall i | 0 <= i < |keys|
      ensures keys[i] in pm
    {
      EnumeratedMember(keys, pm.Keys, keys[i]);
    }
    EnumeratedMember(keys, pm.Keys, k);
    var i :| 0 <= i < |keys| && keys[i] == k;
    forall j | i < j < |keys|
      ensures pm[keys[j]] != pm[keys[i]]
    {
      assert keys[j] > k;
    }
    InvertAtKeepsLast(pm, keys, i);
  }

  /** `inv` maps exactly the phrases of the table to ids carrying them, as
      the result of invert does. */
  ghost predicate Inverts(inv: map<string, int>, pm: map<int, string>)
  {
    && (forall w :: w in inv <==> w in pm.Values)
    && (forall w :: w in inv ==> inv[w] in pm && pm[inv[w]] == w)
  }

  /** The id of one corpus phrase (the lookup with its unknown fallback). */
  function IdOf(pm: map<int, string>, inv: map<string, int>, w: string): (r: int)
    requires Inverts(inv, pm)
    requires Resolve(pm, w) in pm.Values
    ensures r in pm && pm[r] == Resolve(pm, w)
  {
    if w in inv then inv[w] else inv[UnknownPhrase]
  }

  function LineIds(pm: map<int, string>, inv: map<string, int>, line: seq<string>): (r: seq<int>)
    requires Inverts(inv, pm)
    requires forall k :: 0 <= k < |line| ==> Resolve(pm, line[k]) in pm.Values
    ensures |r| == |line|
    ensures forall k :: 0 <= k < |line| ==> r[k] in pm && pm[r[k]] == Resolve(pm, line[k])
  {
    seq(|line|, k requires 0 <= k < |line| => IdOf(pm, inv, line[k]))
  }

  /** The corpus written in phrase ids. */
  function CorpusIds(pm: map<int, string>, corpus: seq<seq<string>>): (r: seq<seq<int>>)
    requires Resolvable(pm, corpus)
    ensures |r| == |corpus|
    ensures forall i :: 0 <= i < |corpus| ==> |r[i]| == |corpus[i]|
    ensures forall i, k :: 0 <= i < |corpus| && 0 <= k < |corpus[i]|
                           ==> r[i][k] in pm && pm[r[i][k]] == Resolve(pm, corpus[i][k])
  {
    var inv := Invert(pm);
    seq(|corpus|, i requires 0 <= i < |corpus| => LineIds(pm, inv, corpus[i]))
  }

  /** In a phrase table an id is determined by its phrase, so the ids of the
      corpus are determined by its phrases. */
  lemma CorpusIdsUnique(pm: map<int, string>, corpus: seq<seq<string>>, ids: seq<seq<int>>)
    requires IsPhraseTable(pm)
    requires Resolvable(pm, corpus)
    requires |ids| == |corpus|
    requires forall i :: 0 <= i < |corpus| ==> |ids[i]| == |corpus[i]|
    requires forall i, k :: 0 <= i < |corpus| && 0 <= k < |corpus[i]|
                            ==> ids[i][k] in pm && pm[ids[i][k]] == Resolve(pm, corpus[i][k])
    ensures ids == CorpusIds(pm, corpus)
  {
    var r := CorpusIds(pm, corpus);
    forall i | 0 <= i < |corpus|
      ensures ids[i] == r[i]
    {
      forall k | 0 <= k < |corpus[i]|
        ensures ids[i][k] == r[i][k]
      {
      }
    }
  }

  lemma {:induction false} PairCountIds(pm: map<int, string>, corpus: seq<seq<string>>, ids: seq<seq<int>>)
    requires |ids| == |corpus|
    requires forall i :: 0 <= i < |corpus| ==> |ids[i]| == |corpus[i]|
    ensures PairCount(ids) == PhrasePairCount(corpus)
  {
    if corpus != [] {
      PairCountIds(pm, corpus[1..], ids[1..]);
    }
  }

  /** The number of consecutive phrase pairs on the lines of a corpus. */
  function PhrasePairCount(corpus: seq<seq<string>>): nat
  {
    if corpus == [] then 0
    else (if corpus[0] == [] then 0 else |corpus[0]| - 1) + PhrasePairCount(corpus[1..])
  }

  /** The bigram counts of a corpus of ids, starting from empty rows for
      `ids` in both views. */
  function CountIds(keys: set<int>, ids: seq<seq<int>>): (r: ContextCounts)
    requires forall i, k :: 0 <= i < |ids| && 0 <= k < |ids[i]| ==> ids[i][k] in keys
    ensures WellFormed(r) && Clusters(r) == keys
    ensures Symmetric(r)
    ensures forall a, b :: Count(r.next, a, b) == multiset(Bigrams(ids))[(a, b)]
    ensures Mass(r.next) == PairCount(ids) && Mass(r.prev) == PairCount(ids)
  {
    var empty := ContextCounts(EmptyCounts(keys), EmptyCounts(keys));
    assert empty.prev.Keys == keys && empty.next.Keys == keys;
    var r := CountCorpus(empty, ids);
    ExtendsEmpty(r, empty, Bigrams(ids));
    BigramsLength(ids);
    r
  }

  /** extractContextCounts: one row per phrase id in each view; `next[a][b]`
      and `prev[b][a]` both count the places where phrase `b` immediately
      follows phrase `a` on one line. */
  function ExtractContextCounts(pm: map<int, string>, corpus: seq<seq<string>>): (r: ContextCounts)
    requires IsPhraseTable(pm)
    requires Resolvable(pm, corpus)
    ensures WellFormed(r) && Clusters(r) == pm.Keys
    ensures Symmetric(r)
    ensures forall a, b :: Count(r.next, a, b) == multiset(Bigrams(CorpusIds(pm, corpus)))[(a, b)]
    ensures Mass(r.next) == PhrasePairCount(corpus) && Mass(r.prev) == PhrasePairCount(corpus)
  {
    var ids := CorpusIds(pm, corpus);
    PairCountIds(pm, corpus, ids);
    CountIds(pm.Keys, ids)
  }
}
