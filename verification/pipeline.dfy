/** run: the phrases of the text are counted and selected, numbered by
    frequency, their context counts extracted, and the clustering run on
    them. The front end always hands the clustering a phrase table that
    covers the whole corpus. */
module Pipeline {
  import opened Wrappers
  import opened Sums
  import opened Sorting
  import opened Phrases
  import opened Counts
  import opened Extract
  import opened Candidates
  import opened Output
  import opened Clustering

  /** A map whose keys are exactly 0..n-1 has n entries. */
  lemma {:induction false} RangeMapSize(m: map<int, string>, n: nat)
    requires forall i :: i in m <==> 0 <= i < n
    ensures |m| == n
    decreases n
  {
    if n == 0 {
      if m.Keys != {} {
        var i := Pick(m.Keys);
        assert false;
      }
    } else {
      var rest := m - {n - 1};
      RangeMapSize(rest, n - 1);
      assert m.Keys == rest.Keys + {n - 1};
    }
  }

  /** Every phrase of a line of the corpus is one of its tokens. */
  lemma {:induction false} TokenOfCorpus(corpus: seq<seq<string>>, i: int, k: int)
    requires 0 <= i < |corpus| && 0 <= k < |corpus[i]|
    ensures corpus[i][k] in Tokens(corpus)
    decreases i
  {
    if i == 0 {
      assert Tokens(corpus) == corpus[0] + Tokens(corpus[1..]);
    } else {
      TokenOfCorpus(corpus[1..], i - 1, k);
      assert Tokens(corpus) == corpus[0] + Tokens(corpus[1..]);
    }
  }

  /** The phrase table of readAllPhrases: its selected phrases numbered by
      assignWordsToIndexBasedOnFrequency. */
  function PhraseTable(corpus: seq<seq<string>>, order: seq<string>, minFrequency: int): (pm: map<int, string>)
    requires Enumerates(order, CountPhrases(corpus).Keys)
    ensures IsPhraseTable(pm)
  {
    var sel := ReadAllPhrases(CountPhrases(corpus), order, minFrequency);
    NumberedIsPhraseTable(sel.phrases, sel.counts);
    NumberSelection(sel)
  }

  /** When no token of the corpus is spelled like the reserved phrase, the
      selection as written and the corrected selection agree. */
  lemma SelectionAsWritten(corpus: seq<seq<string>>, order: seq<string>, minFrequency: int)
    requires Enumerates(order, CountPhrases(corpus).Keys)
    requires UnknownPhrase !in Tokens(corpus)
    ensures ReadAllPhrasesAsWritten(CountPhrases(corpus), order, minFrequency)
            == ReadAllPhrases(CountPhrases(corpus), order, minFrequency)
  {
    var counts := CountPhrases(corpus);
    assert UnknownPhrase !in counts;
    AsWrittenWithoutReservedToken(counts, order, minFrequency);
  }

  /** When no token of the corpus is spelled like the reserved phrase, the
      table is the one the selection as written numbers. */
  lemma PhraseTableAsWritten(corpus: seq<seq<string>>, order: seq<string>, minFrequency: int)
    requires Enumerates(order, CountPhrases(corpus).Keys)
    requires UnknownPhrase !in Tokens(corpus)
    ensures var sel := ReadAllPhrasesAsWritten(CountPhrases(corpus), order, minFrequency);
            && (forall w :: w in sel.phrases ==> w in sel.counts)
            && PhraseTable(corpus, order, minFrequency) == NumberSelection(sel)
  {
    SelectionAsWritten(corpus, order, minFrequency);
  }

  /** The table of a selection: its phrases numbered by descending count. */
  function NumberSelection(sel: Selection): map<int, string>
    requires forall w :: w in sel.phrases ==> w in sel.counts
  {
    AssignWordsToIndexBasedOnFrequency(sel.phrases, sel.counts)
  }

  /** Numbering distinct phrases gives a phrase table. */
  lemma NumberedIsPhraseTable(words: seq<string>, counts: map<string, nat>)
    requires forall w :: w in words ==> w in counts
    requires Distinct(words)
    ensures IsPhraseTable(AssignWordsToIndexBasedOnFrequency(words, counts))
  {
    RangeMapSize(AssignWordsToIndexBasedOnFrequency(words, counts), |words|);
  }

  /** A phrase the selection keeps is in the table. */
  lemma ListedInTable(words: seq<string>, counts: map<string, nat>, w: string)
    requires forall u :: u in words ==> u in counts
    requires w in words
    ensures w in AssignWordsToIndexBasedOnFrequency(words, counts).Values
  {
    var pm := AssignWordsToIndexBasedOnFrequency(words, counts);
    var listing := Listing(pm, |words|);
    assert w in multiset(listing);
    var i :| 0 <= i < |listing| && listing[i] == w;
    assert i in pm && pm[i] == w;
  }

  /** Every phrase of the corpus resolves in the table: a phrase that was not
      selected was dropped, so the dropped mass is positive and the unknown
      phrase was selected. */
  lemma PhraseTableCoversCorpus(corpus: seq<seq<string>>, order: seq<string>, minFrequency: int)
    requires Enumerates(order, CountPhrases(corpus).Keys)
    ensures Resolvable(PhraseTable(corpus, order, minFrequency), corpus)
  {
    var counts := CountPhrases(corpus);
    var sel := ReadAllPhrases(counts, order, minFrequency);
    var pm := PhraseTable(corpus, order, minFrequency);
    assert pm == AssignWordsToIndexBasedOnFrequency(sel.phrases, sel.counts);
    forall i, k | 0 <= i < |corpus| && 0 <= k < |corpus[i]|
      ensures Resolve(pm, corpus[i][k]) in pm.Values
    {
      var w := corpus[i][k];
      if w !in pm.Values {
        TokenOfCorpus(corpus, i, k);
        assert w in counts && counts[w] >= 1;
        if w in sel.phrases {
          ListedInTable(sel.phrases, sel.counts, w);
        }
        var keep := KeepFrequent(counts, minFrequency);
        var dropped := Restrict(counts, keep, false);
        assert w in dropped;
        SumRemove(dropped, w);
        assert UnknownPhrase in sel.phrases;
        ListedInTable(sel.phrases, sel.counts, UnknownPhrase);
      }
    }
  }

  /** Every line ends in the id of a phrase of the table. */
  ghost predicate IdsOfTable(lines: seq<string>, pm: map<int, string>)
  {
    forall l :: l in lines ==> exists x :: x in pm && AfterLastSpace(l) == IntToString(x)
  }

  /** doClustering on a phrase table: every written line ends in the id of
      one of its phrases. */
  method ClusterTable(absorb: PairScore, score: PairScore, maxClusters: int, pm: map<int, string>, counts: ContextCounts)
    returns (r: Result<seq<string>>)
    requires IsPhraseTable(pm)
    requires WellFormed(counts) && Clusters(counts) == pm.Keys
    ensures r.Success? ==>
              && Sorted(r.value, ByText()) && Distinct(r.value)
              && IdsOfTable(r.value, pm)
  {
    r := DoClustering(absorb, score, maxClusters, pm, counts);
    if r.Success? {
      var o := Cluster(absorb, score, maxClusters, |pm|, counts).value;
      var arena := o.history.forest.arena;
      forall l | l in r.value
        ensures exists x :: x in pm && AfterLastSpace(l) == IntToString(x)
      {
        var x :| 0 <= x < |pm| && l == PhraseLine(pm, o.phraseToCluster, o.leaves, arena, x);
        OutputLineFields(PhraseCode(o.phraseToCluster, o.leaves, arena, x), PhraseName(pm, x), x);
      }
    }
  }

  /** run: clusters the phrases of a text given as its lines; `order` is the
      iteration order of the phrase count map. */
  method Run(absorb: PairScore, score: PairScore, maxClusters: int, minFrequency: int,
             lines: seq<string>, order: seq<string>)
    returns (r: Result<seq<string>>)
    requires Enumerates(order, CountPhrases(Tokenize(lines)).Keys)
    ensures var pm := PhraseTable(Tokenize(lines), order, minFrequency);
            r.Success? ==>
              && Sorted(r.value, ByText()) && Distinct(r.value)
              && IdsOfTable(r.value, pm)
  {
    var corpus := Tokenize(lines);
    var pm := PhraseTable(corpus, order, minFrequency);
    PhraseTableCoversCorpus(corpus, order, minFrequency);
    var counts := ExtractContextCounts(pm, corpus);
    r := ClusterTable(absorb, score, maxClusters, pm, counts);
  }
}
