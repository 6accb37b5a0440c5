/** Tokenisation of one corpus line (BrownCluster.splitLineInPhrases): the
    line is split at every whitespace character and empty pieces are
    dropped, so the phrases are the maximal runs of non-whitespace. */
module Text {

  /** The characters matched by the regular expression class `\s`. */
  predicate IsWhitespace(c: char)
  {
    c == ' ' || c == '\t' || c == '\n' || c == '\U{000B}' || c == '\U{000C}' || c == '\r'
  }

  predicate NoWhitespace(s: string)
  {
    forall i :: 0 <= i < |s| ==> !IsWhitespace(s[i])
  }

  /** A phrase as the tokeniser produces it: non-empty, without whitespace. */
  predicate IsPhrase(s: string)
  {
    |s| > 0 && NoWhitespace(s)
  }

  /** The characters of `s` that are not whitespace, in order. */
  function StripWhitespace(s: string): string
  {
    if s == [] then []
    else (if IsWhitespace(s[0]) then [] else [s[0]]) + StripWhitespace(s[1..])
  }

  /** The concatenation of all phrases. */
  function Concat(ps: seq<string>): string
  {
    if ps == [] then [] else ps[0] + Concat(ps[1..])
  }

  /** The phrases joined by single spaces. */
  function Join(ps: seq<string>): string
  {
    if ps == [] then []
    else if |ps| == 1 then ps[0]
    else ps[0] + " " + Join(ps[1..])
  }

  /** Length of the leading run of non-whitespace characters. */
  function RunLength(s: string): (n: nat)
    ensures n <= |s|
    ensures NoWhitespace(s[..n])
    ensures n < |s| ==> IsWhitespace(s[n])
  {
    if s == [] || IsWhitespace(s[0]) then 0
    else
      var n := RunLength(s[1..]);
      assert s[..n + 1] == [s[0]] + s[1..][..n];
      n + 1
  }

  lemma {:induction false} StripConcat(a: string, b: string)
    ensures StripWhitespace(a + b) == StripWhitespace(a) + StripWhitespace(b)
  {
    if a != [] {
      assert (a + b)[0] == a[0];
      assert (a + b)[1..] == a[1..] + b;
      StripConcat(a[1..], b);
    } else {
      assert a + b == b;
    }
  }

  lemma {:induction false} StripNoWhitespace(s: string)
    requires NoWhitespace(s)
    ensures StripWhitespace(s) == s
  {
    if s != [] {
      StripNoWhitespace(s[1..]);
    }
  }

  /** The phrases of one line, in order. */
  function SplitLineInPhrases(line: string): (r: seq<string>)
    ensures forall i :: 0 <= i < |r| ==> IsPhrase(r[i])
    ensures Concat(r) == StripWhitespace(line)
    decreases |line|
  {
    if line == [] then []
    else if IsWhitespace(line[0]) then
      SplitLineInPhrases(line[1..])
    else
      var n := RunLength(line);
      assert line == line[..n] + line[n..];
      StripConcat(line[..n], line[n..]);
      StripNoWhitespace(line[..n]);
      var rest := SplitLineInPhrases(line[n..]);
      assert ([line[..n]] + rest)[1..] == rest;
      [line[..n]] + rest
  }

  lemma {:induction false} RunLengthOfPhrase(p: string, rest: string)
    requires IsPhrase(p)
    requires rest == [] || IsWhitespace(rest[0])
    ensures RunLength(p + rest) == |p|
  {
    var s := p + rest;
    assert s[0] == p[0];
    if |p| == 1 {
      assert s[1..] == rest;
    } else {
      assert s[1..] == p[1..] + rest;
      RunLengthOfPhrase(p[1..], rest);
    }
  }

  /** Splitting the space-joined phrases gives the phrases back. */
  lemma {:induction false} SplitJoin(ps: seq<string>)
    requires forall i :: 0 <= i < |ps| ==> IsPhrase(ps[i])
    ensures SplitLineInPhrases(Join(ps)) == ps
  {
    if |ps| == 1 {
      var line := ps[0];
      RunLengthOfPhrase(ps[0], []);
      assert line[..|line|] == line;
      assert line[|line|..] == [];
    } else if |ps| > 1 {
      var rest := Join(ps[1..]);
      var line := ps[0] + (" " + rest);
      assert Join(ps) == line;
      RunLengthOfPhrase(ps[0], " " + rest);
      assert line[0] == ps[0][0];
      assert line[..|ps[0]|] == ps[0];
      assert line[|ps[0]|..] == " " + rest;
      assert (" " + rest)[1..] == rest;
      SplitJoin(ps[1..]);
      assert ps == [ps[0]] + ps[1..];
    }
  }

  /** Only whitespace. */
  predicate AllWhitespace(s: string)
  {
    forall i :: 0 <= i < |s| ==> IsWhitespace(s[i])
  }

  /** The gaps around n phrases: n + 1 whitespace-only strings, the ones
      between two phrases non-empty; the leading and trailing ones may be
      empty. */
  predicate GapsFit(gaps: seq<string>, n: nat)
  {
    && |gaps| == n + 1
    && (forall i :: 0 <= i < |gaps| ==> AllWhitespace(gaps[i]))
    && (forall i :: 0 < i < n ==> gaps[i] != [])
  }

  /** The line made of the phrases with the gaps around them:
      gaps[0] + ps[0] + gaps[1] + ... + ps[n-1] + gaps[n]. */
  function Layout(ps: seq<string>, gaps: seq<string>): string
    requires |gaps| == |ps| + 1
    decreases |ps|
  {
    if ps == [] then gaps[0] else gaps[0] + ps[0] + Layout(ps[1..], gaps[1..])
  }

  lemma {:induction false} SkipWhitespace(w: string, s: string)
    requires AllWhitespace(w)
    ensures SplitLineInPhrases(w + s) == SplitLineInPhrases(s)
    decreases |w|
  {
    if w != [] {
      assert (w + s)[0] == w[0];
      assert (w + s)[1..] == w[1..] + s;
      SkipWhitespace(w[1..], s);
    } else {
      assert w + s == s;
    }
  }

  /** A phrase followed by the empty string or by whitespace splits off
      whole. */
  lemma SplitAfterPhrase(p: string, rest: string)
    requires IsPhrase(p)
    requires rest == [] || IsWhitespace(rest[0])
    ensures SplitLineInPhrases(p + rest) == [p] + SplitLineInPhrases(rest)
  {
    var line := p + rest;
    RunLengthOfPhrase(p, rest);
    assert line[0] == p[0];
    assert line[..|p|] == p;
    assert line[|p|..] == rest;
  }

  /** Phrases laid out with any whitespace between them, and any whitespace
      before and after, split back into exactly those phrases. */
  lemma {:induction false} SplitLayout(ps: seq<string>, gaps: seq<string>)
    requires forall i :: 0 <= i < |ps| ==> IsPhrase(ps[i])
    requires GapsFit(gaps, |ps|)
    ensures SplitLineInPhrases(Layout(ps, gaps)) == ps
    decreases |ps|
  {
    if ps == [] {
      SkipWhitespace(gaps[0], []);
      assert gaps[0] + [] == gaps[0];
    } else {
      var rest := Layout(ps[1..], gaps[1..]);
      assert GapsFit(gaps[1..], |ps[1..]|) by {
        forall i | 0 < i < |ps[1..]|
          ensures gaps[1..][i] != []
        {
          assert gaps[1..][i] == gaps[i + 1];
        }
      }
      SplitLayout(ps[1..], gaps[1..]);
      assert rest == [] || IsWhitespace(rest[0]) by {
        if |ps| == 1 {
          assert rest == gaps[1];
        } else {
          assert gaps[1] != [];
          assert rest == gaps[1] + (ps[1] + Layout(ps[2..], gaps[2..]));
          assert rest[0] == gaps[1][0];
        }
      }
      SplitAfterPhrase(ps[0], rest);
      assert Layout(ps, gaps) == gaps[0] + (ps[0] + rest);
      SkipWhitespace(gaps[0], ps[0] + rest);
      assert ps == [ps[0]] + ps[1..];
    }
  }

  lemma LayoutHead(ps: seq<string>, x: string, y: string, rest: seq<string>)
    requires |rest| == |ps|
    ensures Layout(ps, [x + y] + rest) == x + Layout(ps, [y] + rest)
  {
    assert ([x + y] + rest)[1..] == rest == ([y] + rest)[1..];
  }

  /** The whitespace around the phrases of a line: the leading run, the
      runs between phrases and the trailing run. */
  function Gaps(line: string): (g: seq<string>)
    ensures |g| >= 1
    decreases |line|
  {
    if line == [] then [""]
    else if IsWhitespace(line[0]) then
      var t := Gaps(line[1..]);
      [[line[0]] + t[0]] + t[1..]
    else
      [""] + Gaps(line[RunLength(line)..])
  }

  /** Every line is the layout of its phrases with its gaps: together with
      SplitLayout, the phrases are exactly the maximal non-whitespace runs. */
  lemma {:induction false} LineLayout(line: string)
    ensures GapsFit(Gaps(line), |SplitLineInPhrases(line)|)
    ensures Layout(SplitLineInPhrases(line), Gaps(line)) == line
    ensures line != [] && IsWhitespace(line[0]) ==> Gaps(line)[0] != []
    decreases |line|
  {
    if line == [] {
    } else if IsWhitespace(line[0]) {
      LineLayout(line[1..]);
      LayoutWhitespaceStep(line);
    } else {
      var n := RunLength(line);
      LineLayout(line[n..]);
      LayoutPhraseStep(line);
    }
  }

  /** One more whitespace character before the first gap keeps the gaps
      fitting and puts that character in front of the layout. */
  lemma GapsPrepend(ps: seq<string>, t: seq<string>, c: char)
    requires GapsFit(t, |ps|) && IsWhitespace(c)
    ensures GapsFit([[c] + t[0]] + t[1..], |ps|)
    ensures Layout(ps, [[c] + t[0]] + t[1..]) == [c] + Layout(ps, t)
  {
    var g := [[c] + t[0]] + t[1..];
    assert forall i :: 1 <= i < |g| ==> g[i] == t[i];
    forall i | 0 <= i < |g[0]|
      ensures IsWhitespace(g[0][i])
    {
      if i > 0 { assert g[0][i] == t[0][i - 1]; }
    }
    LayoutHead(ps, [c], t[0], t[1..]);
    assert [t[0]] + t[1..] == t;
  }

  /** A phrase in front, with an empty leading gap: the gaps keep fitting
      when the old leading gap, now between two phrases, is non-empty. */
  lemma GapsAfterPhrase(qs: seq<string>, t: seq<string>)
    requires GapsFit(t, |qs|)
    requires qs != [] ==> t[0] != []
    ensures GapsFit([""] + t, |qs| + 1)
  {
    var g := [""] + t;
    forall i | 0 <= i < |g|
      ensures AllWhitespace(g[i])
    {
      if i > 0 { assert g[i] == t[i - 1]; }
    }
    forall i | 0 < i < |qs| + 1
      ensures g[i] != []
    {
      assert g[i] == t[i - 1];
    }
  }

  /** A phrase in front, with an empty leading gap, lays out as that phrase
      in front of the rest. */
  lemma LayoutAfterPhrase(p: string, qs: seq<string>, t: seq<string>)
    requires |t| == |qs| + 1
    ensures Layout([p] + qs, [""] + t) == p + Layout(qs, t)
  {
    assert ([p] + qs)[1..] == qs;
    assert ([""] + t)[1..] == t;
  }

  lemma LayoutWhitespaceStep(line: string)
    requires line != [] && IsWhitespace(line[0])
    requires GapsFit(Gaps(line[1..]), |SplitLineInPhrases(line[1..])|)
    requires Layout(SplitLineInPhrases(line[1..]), Gaps(line[1..])) == line[1..]
    ensures GapsFit(Gaps(line), |SplitLineInPhrases(line)|)
    ensures Layout(SplitLineInPhrases(line), Gaps(line)) == line
    ensures Gaps(line)[0] != []
  {
    var t := Gaps(line[1..]);
    var ps := SplitLineInPhrases(line[1..]);
    assert SplitLineInPhrases(line) == ps;
    assert Gaps(line) == [[line[0]] + t[0]] + t[1..];
    GapsPrepend(ps, t, line[0]);
    assert line == [line[0]] + line[1..];
  }

  lemma LayoutPhraseStep(line: string)
    requires line != [] && !IsWhitespace(line[0])
    requires var n := RunLength(line);
             && GapsFit(Gaps(line[n..]), |SplitLineInPhrases(line[n..])|)
             && Layout(SplitLineInPhrases(line[n..]), Gaps(line[n..])) == line[n..]
             && (line[n..] != [] && IsWhitespace(line[n..][0]) ==> Gaps(line[n..])[0] != [])
    ensures GapsFit(Gaps(line), |SplitLineInPhrases(line)|)
    ensures Layout(SplitLineInPhrases(line), Gaps(line)) == line
  {
    var n := RunLength(line);
    var t := Gaps(line[n..]);
    var qs := SplitLineInPhrases(line[n..]);
    assert SplitLineInPhrases(line) == [line[..n]] + qs;
    assert Gaps(line) == [""] + t;
    assert qs != [] ==> t[0] != [] by {
      if qs != [] {
        assert line[n..] != [] && line[n..][0] == line[n];
      }
    }
    GapsAfterPhrase(qs, t);
    LayoutAfterPhrase(line[..n], qs, t);
    assert line == line[..n] + line[n..];
  }

  /** Normalising a line's whitespace to single spaces keeps its phrases. */
  lemma SplitIsCanonical(line: string)
    ensures SplitLineInPhrases(Join(SplitLineInPhrases(line))) == SplitLineInPhrases(line)
  {
    SplitJoin(SplitLineInPhrases(line));
  }
}
