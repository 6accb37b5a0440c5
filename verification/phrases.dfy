/** The corpus front end of BrownCluster: counting phrases, selecting the
    frequent ones (folding the rest into the reserved unknown phrase) and
    numbering them by descending frequency. The corpus is given as its lines,
    each already split into phrases. */
module Phrases {
  import opened Sums
  import opened Sorting
  import opened Text

  /** The reserved phrase that stands for every infrequent phrase. */
  const UnknownPhrase: string := "_UNKNOWN_"

  /** All phrases of the corpus, line after line. */
  function Tokens(corpus: seq<seq<string>>): seq<string>
  {
    if corpus == [] then [] else corpus[0] + Tokens(corpus[1..])
  }

  /** The corpus of a text: every line split into its phrases. */
  function Tokenize(lines: seq<string>): (r: seq<seq<string>>)
    ensures |r| == |lines|
    ensures forall i :: 0 <= i < |lines| ==> r[i] == SplitLineInPhrases(lines[i])
  {
    if lines == [] then [] else [SplitLineInPhrases(lines[0])] + Tokenize(lines[1..])
  }

  /** Adds one to the count of every phrase of `line`. */
  function CountLine(counts: map<string, nat>, line: seq<string>): (r: map<string, nat>)
    ensures forall w :: w in r <==> w in counts || w in line
    ensures forall w :: Get(r, w) == Get(counts, w) + multiset(line)[w]
    decreases |line|
  {
    if line == [] then counts
    else
      var w := line[0];
      assert line == [w] + line[1..];
      CountLine(counts[w := Get(counts, w) + 1], line[1..])
  }

  function CountLines(counts: map<string, nat>, corpus: seq<seq<string>>): (r: map<string, nat>)
    ensures forall w :: w in r <==> w in counts || w in Tokens(corpus)
    ensures forall w :: Get(r, w) == Get(counts, w) + multiset(Tokens(corpus))[w]
    decreases |corpus|
  {
    if corpus == [] then counts
    else
      assert Tokens(corpus) == corpus[0] + Tokens(corpus[1..]);
      CountLines(CountLine(counts, corpus[0]), corpus[1..])
  }

  /** How often every phrase occurs in the corpus (countPhrases). */
  function CountPhrases(corpus: seq<seq<string>>): (r: map<string, nat>)
    ensures forall w :: w in r <==> w in Tokens(corpus)
    ensures forall w :: w in r ==> r[w] == multiset(Tokens(corpus))[w] && r[w] >= 1
  {
    var r := CountLines(map[], corpus);
    assert forall w :: w in r ==> Get(r, w) == r[w];
    r
  }

  /** The phrase table before numbering: the selected phrases and their counts. */
  datatype Selection = Selection(phrases: seq<string>, counts: map<string, nat>)

  /** Splits `order` into the phrases `keep` accepts and the summed count of
      the others, keeping the order of the accepted ones. */
  function Partition(counts: map<string, nat>, order: seq<string>, keep: string -> bool)
    : (r: (seq<string>, nat))
    ensures forall w :: w in r.0 <==> w in order && keep(w)
    ensures Distinct(order) ==> Distinct(r.0)
    ensures r.1 == SumAt(Restrict(counts, keep, false), order)
  {
    if order == [] then ([], 0)
    else
      var rest := Partition(counts, order[1..], keep);
      var w := order[0];
      assert Distinct(order) ==> Distinct(order[1..]) && w !in order[1..];
      if keep(w) then ([w] + rest.0, rest.1) else (rest.0, rest.1 + Get(counts, w))
  }

  /** The entries of `counts` on which `keep` answers `answer`. */
  function Restrict(counts: map<string, nat>, keep: string -> bool, answer: bool): map<string, nat>
  {
    map w | w in counts && keep(w) == answer :: counts[w]
  }

  /** The selection rule as written: at least `minFrequency` occurrences. */
  function KeepAtLeast(counts: map<string, nat>, minFrequency: int): string -> bool
  {
    w => Get(counts, w) >= minFrequency
  }

  /** The corrected selection rule: frequent, and not the reserved phrase. */
  function KeepFrequent(counts: map<string, nat>, minFrequency: int): string -> bool
  {
    w => Get(counts, w) >= minFrequency && w != UnknownPhrase
  }

  /** Summed count of the phrases a selection rule drops. */
  ghost function DroppedMass(counts: map<string, nat>, keep: string -> bool): nat
  {
    Sum(Restrict(counts, keep, false))
  }

  lemma EnumeratesMembers(order: seq<string>, keys: set<string>)
    requires Enumerates(order, keys)
    ensures forall w :: w in order <==> w in keys
  {
    forall w | w in keys
      ensures w in order
    {
      assert w in (set i | 0 <= i < |order| :: order[i]);
    }
  }

  /** readAllPhrases as written: keeps every phrase counted at least
      `minFrequency` times and appends the unknown phrase, recording the
      dropped count under it, when something was dropped. `order` is the
      iteration order of the count map. */
  function ReadAllPhrasesAsWritten(counts: map<string, nat>, order: seq<string>, minFrequency: int)
    : (r: Selection)
    requires Enumerates(order, counts.Keys)
    ensures forall w :: w in r.phrases ==> w in r.counts
    ensures forall w :: w in counts && counts[w] >= minFrequency ==> w in r.phrases
    ensures forall w :: w in r.phrases && w != UnknownPhrase
                        ==> w in counts && counts[w] >= minFrequency && w in r.counts && r.counts[w] == counts[w]
    ensures DroppedMass(counts, KeepAtLeast(counts, minFrequency)) > 0
            ==> |r.phrases| > 0 && r.phrases[|r.phrases| - 1] == UnknownPhrase
                && UnknownPhrase in r.counts && r.counts[UnknownPhrase] == DroppedMass(counts, KeepAtLeast(counts, minFrequency))
    ensures r.phrases == Partition(counts, order, KeepAtLeast(counts, minFrequency)).0
                         + (if DroppedMass(counts, KeepAtLeast(counts, minFrequency)) > 0 then [UnknownPhrase] else [])
    ensures r.counts == if DroppedMass(counts, KeepAtLeast(counts, minFrequency)) > 0
                        then counts[UnknownPhrase := DroppedMass(counts, KeepAtLeast(counts, minFrequency))]
                        else counts
  {
    var keep := KeepAtLeast(counts, minFrequency);
    var p := Partition(counts, order, keep);
    EnumeratesMembers(order, counts.Keys);
    SumAtCovers(Restrict(counts, keep, false), order);
    if p.1 > 0 then Selection(p.0 + [UnknownPhrase], counts[UnknownPhrase := p.1])
    else Selection(p.0, counts)
  }

  /** readAllPhrases with the unknown phrase reserved: a corpus phrase spelled
      like it is counted in the unknown bucket instead of being kept. */
  function ReadAllPhrases(counts: map<string, nat>, order: seq<string>, minFrequency: int)
    : (r: Selection)
    requires Enumerates(order, counts.Keys)
    ensures forall w :: w in r.phrases ==> w in r.counts
    ensures Distinct(r.phrases)
    ensures forall w :: w in r.phrases && w != UnknownPhrase
                        <==> w in counts && counts[w] >= minFrequency && w != UnknownPhrase
    ensures forall w :: w in r.phrases && w != UnknownPhrase ==> w in r.counts && r.counts[w] == counts[w]
    ensures UnknownPhrase in r.phrases <==> DroppedMass(counts, KeepFrequent(counts, minFrequency)) > 0
    ensures UnknownPhrase in r.phrases
            ==> UnknownPhrase in r.counts
                && r.counts[UnknownPhrase] == DroppedMass(counts, KeepFrequent(counts, minFrequency))
    ensures r.phrases == Partition(counts, order, KeepFrequent(counts, minFrequency)).0
                         + (if DroppedMass(counts, KeepFrequent(counts, minFrequency)) > 0 then [UnknownPhrase] else [])
  {
    var keep := KeepFrequent(counts, minFrequency);
    var p := Partition(counts, order, keep);
    EnumeratesMembers(order, counts.Keys);
    SumAtCovers(Restrict(counts, keep, false), order);
    if p.1 > 0 then
      assert UnknownPhrase !in p.0;
      Selection(p.0 + [UnknownPhrase], counts[UnknownPhrase := p.1])
    else
      Selection(p.0, counts)
  }

  /** Two selection rules that agree on every listed phrase partition the
      listing alike. */
  lemma {:induction false} PartitionAgree(counts: map<string, nat>, order: seq<string>,
                                          keep1: string -> bool, keep2: string -> bool)
    requires forall i :: 0 <= i < |order| ==> keep1(order[i]) == keep2(order[i])
    ensures Partition(counts, order, keep1) == Partition(counts, order, keep2)
    decreases |order|
  {
    if order != [] {
      PartitionAgree(counts, order[1..], keep1, keep2);
    }
  }

  /** On a corpus that never spells the reserved phrase, the selection as
      written and the corrected one are the same table. */
  lemma AsWrittenWithoutReservedToken(counts: map<string, nat>, order: seq<string>, minFrequency: int)
    requires Enumerates(order, counts.Keys)
    requires UnknownPhrase !in counts
    ensures ReadAllPhrasesAsWritten(counts, order, minFrequency) == ReadAllPhrases(counts, order, minFrequency)
  {
    EnumeratesMembers(order, counts.Keys);
    var keep1 := KeepAtLeast(counts, minFrequency);
    var keep2 := KeepFrequent(counts, minFrequency);
    forall i | 0 <= i < |order|
      ensures keep1(order[i]) == keep2(order[i])
    {
      assert order[i] in counts;
    }
    PartitionAgree(counts, order, keep1, keep2);
  }

  lemma CollisionCounts()
    ensures CountPhrases([[UnknownPhrase, UnknownPhrase, "a"]]) == map[UnknownPhrase := 2, "a" := 1]
  {
    var corpus := [[UnknownPhrase, UnknownPhrase, "a"]];
    var counts := CountPhrases(corpus);
    var tokens := [UnknownPhrase, UnknownPhrase, "a"];
    assert Tokens(corpus) == tokens;
    assert UnknownPhrase != "a";
    assert multiset(tokens) == multiset{UnknownPhrase, UnknownPhrase, "a"};
    assert counts.Keys == {UnknownPhrase, "a"};
  }

  lemma CollisionOrder()
    ensures Enumerates([UnknownPhrase, "a"], {UnknownPhrase, "a"})
  {
    assert UnknownPhrase != "a";
    EnumeratesIntro([UnknownPhrase, "a"], {UnknownPhrase, "a"});
  }

  /** A collision the selection as written lets through: a corpus that
      contains the reserved phrase itself keeps it twice, and records for it a
      count below the threshold. */
  lemma ReservedPhraseCollision()
    ensures var counts := CountPhrases([[UnknownPhrase, UnknownPhrase, "a"]]);
            && Enumerates([UnknownPhrase, "a"], counts.Keys)
            && var r := ReadAllPhrasesAsWritten(counts, [UnknownPhrase, "a"], 2);
            && r.phrases == [UnknownPhrase, UnknownPhrase]
            && r.counts[UnknownPhrase] == 1
  {
    CollisionCounts();
    CollisionOrder();
    CollisionAsWritten(map[UnknownPhrase := 2, "a" := 1], [UnknownPhrase, "a"]);
  }

  lemma CollisionAsWritten(counts: map<string, nat>, order: seq<string>)
    requires counts == map[UnknownPhrase := 2, "a" := 1]
    requires order == [UnknownPhrase, "a"]
    requires Enumerates(order, counts.Keys)
    ensures ReadAllPhrasesAsWritten(counts, order, 2)
            == Selection([UnknownPhrase, UnknownPhrase], counts[UnknownPhrase := 1])
  {
    var keep := KeepAtLeast(counts, 2);
    assert keep(UnknownPhrase) && !keep("a");
    assert order[1..] == ["a"] && ["a"][1..] == [];
    assert Partition(counts, ["a"], keep) == ([], 1);
    assert [UnknownPhrase] + [] == [UnknownPhrase];
    assert Partition(counts, order, keep) == ([UnknownPhrase], 1);
  }

  /** The corrected selection on the same corpus: one unknown entry that
      carries every occurrence below the threshold or spelled like it. */
  lemma ReservedPhraseKeptOnce()
    ensures var counts := CountPhrases([[UnknownPhrase, UnknownPhrase, "a"]]);
            && Enumerates([UnknownPhrase, "a"], counts.Keys)
            && var r := ReadAllPhrases(counts, [UnknownPhrase, "a"], 2);
            && r.phrases == [UnknownPhrase]
            && r.counts[UnknownPhrase] == 3
  {
    CollisionCounts();
    CollisionOrder();
    CollisionCorrected(map[UnknownPhrase := 2, "a" := 1], [UnknownPhrase, "a"]);
  }

  lemma CollisionCorrected(counts: map<string, nat>, order: seq<string>)
    requires counts == map[UnknownPhrase := 2, "a" := 1]
    requires order == [UnknownPhrase, "a"]
    requires Enumerates(order, counts.Keys)
    ensures ReadAllPhrases(counts, order, 2) == Selection([UnknownPhrase], counts[UnknownPhrase := 3])
  {
    var keep := KeepFrequent(counts, 2);
    assert !keep(UnknownPhrase) && !keep("a");
    assert order[1..] == ["a"] && ["a"][1..] == [];
    assert Partition(counts, [], keep) == ([], 0);
    assert Partition(counts, ["a"], keep) == ([], 1);
    assert Partition(counts, order, keep) == ([], 3);
  }

  /** Phrase `a` is ranked no later than `b` when it is at least as frequent. */
  function ByFrequency(counts: map<string, nat>): (string, string) -> bool
  {
    (a, b) => Get(counts, a) >= Get(counts, b)
  }

  lemma ByFrequencyIsPreorder(counts: map<string, nat>)
    ensures TotalPreorder(ByFrequency(counts))
  {
  }

  /** The phrases of a dense id map, in id order. */
  function Listing(m: map<int, string>, n: nat): (r: seq<string>)
    requires forall i :: 0 <= i < n ==> i in m
    ensures |r| == n
    ensures forall i :: 0 <= i < n ==> r[i] == m[i]
  {
    seq(n, i requires 0 <= i < n && i in m => m[i])
  }

  /** assignWordsToIndexBasedOnFrequency: the phrases, stably sorted by
      descending count, numbered from 0. */
  function AssignWordsToIndexBasedOnFrequency(words: seq<string>, counts: map<string, nat>)
    : (r: map<int, string>)
    requires forall w :: w in words ==> w in counts
    ensures forall i :: i in r <==> 0 <= i < |words|
    ensures forall i :: i in r ==> r[i] in counts
    ensures forall i, j :: 0 <= i < j < |words| ==> counts[r[i]] >= counts[r[j]]
    ensures multiset(Listing(r, |words|)) == multiset(words)
    ensures forall w :: Ties(Listing(r, |words|), ByFrequency(counts), w) == Ties(words, ByFrequency(counts), w)
    ensures Distinct(words) ==> forall i, j :: i in r && j in r && i != j ==> r[i] != r[j]
  {
    ByFrequencyIsPreorder(counts);
    var sorted := Sort(words, ByFrequency(counts));
    var r := Numbering(sorted);
    RankedByCount(words, counts, sorted);
    assert Distinct(words) ==> Distinct(sorted) by {
      if Distinct(words) {
        PermutationDistinct(words, sorted);
      }
    }
    r
  }

  /** The ids 0, 1, ... given to the phrases of `s` in order. */
  function Numbering(s: seq<string>): (r: map<int, string>)
    ensures forall i :: i in r <==> 0 <= i < |s|
    ensures forall i :: 0 <= i < |s| ==> r[i] == s[i]
    ensures Listing(r, |s|) == s
  {
    var r := map i | 0 <= i < |s| :: s[i];
    assert Listing(r, |s|) == s;
    r
  }

  /** A permutation of counted phrases sorted by frequency lists counted
      phrases, most frequent first. */
  lemma RankedByCount(words: seq<string>, counts: map<string, nat>, sorted: seq<string>)
    requires forall w :: w in words ==> w in counts
    requires multiset(sorted) == multiset(words)
    requires Sorted(sorted, ByFrequency(counts))
    ensures forall i :: 0 <= i < |sorted| ==> sorted[i] in counts
    ensures forall i, j :: 0 <= i < j < |sorted| ==> counts[sorted[i]] >= counts[sorted[j]]
  {
    forall i | 0 <= i < |sorted|
      ensures sorted[i] in counts
    {
      assert sorted[i] in multiset(words);
    }
    forall i, j | 0 <= i < j < |sorted|
      ensures counts[sorted[i]] >= counts[sorted[j]]
    {
      assert ByFrequency(counts)(sorted[i], sorted[j]);
    }
  }
}
