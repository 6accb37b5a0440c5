/** writeOutput: one line per phrase id, `code TAB phrase SPACE id`, where the
    code is the path to the phrase's cluster leaf in the merge history; the
    lines are sorted by String.compareTo before they are written. */
module Output {
  import opened Wrappers
  import opened Sums
  import opened IntKeys
  import opened Sorting
  import opened History

  /** String.compareTo(a, b) <= 0: character by character, a proper prefix
      first. */
  predicate LexLe(a: string, b: string)
    decreases |a|
  {
    a == [] || (b != [] && (a[0] < b[0] || (a[0] == b[0] && LexLe(a[1..], b[1..]))))
  }

  function ByText(): (string, string) -> bool
  {
    (a: string, b: string) => LexLe(a, b)
  }

  lemma {:induction false} LexLeTotal(a: string, b: string)
    ensures LexLe(a, b) || LexLe(b, a)
    decreases |a|
  {
    if a != [] && b != [] && a[0] == b[0] {
      LexLeTotal(a[1..], b[1..]);
    }
  }

  lemma {:induction false} LexLeTransitive(a: string, b: string, c: string)
    requires LexLe(a, b) && LexLe(b, c)
    ensures LexLe(a, c)
    decreases |a|
  {
    if a != [] && b != [] && c != [] && a[0] == b[0] && b[0] == c[0] {
      LexLeTransitive(a[1..], b[1..], c[1..]);
    }
  }

  lemma {:induction false} LexLeAntisymmetric(a: string, b: string)
    requires LexLe(a, b) && LexLe(b, a)
    ensures a == b
    decreases |a|
  {
    if a != [] && b != [] {
      LexLeAntisymmetric(a[1..], b[1..]);
      assert a == [a[0]] + a[1..] && b == [b[0]] + b[1..];
    }
  }

  lemma ByTextIsPreorder()
    ensures TotalPreorder(ByText())
  {
    forall a, b
      ensures LexLe(a, b) || LexLe(b, a)
    {
      LexLeTotal(a, b);
    }
    forall a, b, c | LexLe(a, b) && LexLe(b, c)
      ensures LexLe(a, c)
    {
      LexLeTransitive(a, b, c);
    }
  }

  lemma SortedTail(s: seq<string>)
    requires s != [] && Sorted(s, ByText())
    ensures Sorted(s[1..], ByText())
  {
    forall p, q | 0 <= p < q < |s[1..]|
      ensures ByText()(s[1..][p], s[1..][q])
    {
      assert s[1..][p] == s[p + 1] && s[1..][q] == s[q + 1];
    }
  }

  /** The first line of a sorted sequence is at most every line in it. */
  lemma SortedHeadIsLeast(s: seq<string>, x: string)
    requires s != [] && Sorted(s, ByText()) && x in s
    ensures LexLe(s[0], x)
  {
    var j :| 0 <= j < |s| && s[j] == x;
    if j > 0 {
      assert ByText()(s[0], s[j]);
    } else {
      LexLeTotal(x, x);
    }
  }

  lemma SameHeads(a: seq<string>, b: seq<string>)
    requires a != [] && Sorted(a, ByText()) && Sorted(b, ByText())
    requires multiset(a) == multiset(b)
    ensures b != [] && a[0] == b[0]
    ensures multiset(a[1..]) == multiset(b[1..])
  {
    assert a[0] in multiset(b);
    assert b[0] in multiset(a);
    SortedHeadIsLeast(b, a[0]);
    SortedHeadIsLeast(a, b[0]);
    LexLeAntisymmetric(a[0], b[0]);
    ConsMultiset(a);
    ConsMultiset(b);
  }

  /** Two sorted arrangements of the same lines are the same sequence, so the
      written file does not depend on the order the phrase map is visited in. */
  lemma {:induction false} SortedLinesUnique(a: seq<string>, b: seq<string>)
    requires Sorted(a, ByText()) && Sorted(b, ByText())
    requires multiset(a) == multiset(b)
    ensures a == b
    decreases |a|
  {
    if a != [] {
      SameHeads(a, b);
      SortedTail(a);
      SortedTail(b);
      SortedLinesUnique(a[1..], b[1..]);
      assert a == [a[0]] + a[1..] && b == [b[0]] + b[1..];
    } else {
      assert |b| == |multiset(b)|;
    }
  }

  function Digit(d: int): (r: char)
    requires 0 <= d < 10
    ensures '0' <= r <= '9' && r as int - '0' as int == d
  {
    (d + '0' as int) as char
  }

  /** The decimal digits of `n`, without leading zeros. */
  function Decimal(n: nat): (r: string)
    ensures |r| >= 1 && (r[0] == '0' ==> n == 0)
    ensures forall k :: 0 <= k < |r| ==> '0' <= r[k] <= '9'
    decreases n
  {
    if n < 10 then [Digit(n)] else Decimal(n / 10) + [Digit(n % 10)]
  }

  /** A string Integer.parseInt reads: digits, perhaps after a minus sign. */
  predicate IsNumeral(s: string)
  {
    forall k :: 0 <= k < |s| ==> ('0' <= s[k] <= '9' || (k == 0 && s[k] == '-'))
  }

  /** Integer.toString (the id at the end of an output line). */
  function IntToString(i: int): (r: string)
    ensures IsNumeral(r) && r != []
  {
    if i < 0 then "-" + Decimal(-i) else Decimal(i)
  }

  /** The value of a string of decimal digits. */
  function ParseDecimal(s: string): int
    requires forall k :: 0 <= k < |s| ==> '0' <= s[k] <= '9'
  {
    if s == [] then 0 else ParseDecimal(s[..|s| - 1]) * 10 + (s[|s| - 1] as int - '0' as int)
  }

  /** Integer.parseInt on an optional minus sign followed by digits. */
  function ParseInt(s: string): int
    requires IsNumeral(s)
  {
    if s != [] && s[0] == '-' then -ParseDecimal(s[1..]) else ParseDecimal(s)
  }

  lemma {:induction false} ParseDecimalOfDecimal(n: nat)
    ensures ParseDecimal(Decimal(n)) == n
    decreases n
  {
    if n >= 10 {
      var s := Decimal(n);
      assert s[..|s| - 1] == Decimal(n / 10);
      ParseDecimalOfDecimal(n / 10);
    }
  }

  /** Reading the written id back gives the id. */
  lemma ParseIntOfIntToString(i: int)
    ensures ParseInt(IntToString(i)) == i
  {
    var s := IntToString(i);
    if i < 0 {
      assert s[1..] == Decimal(-i);
      ParseDecimalOfDecimal(-i);
    } else {
      assert s[0] != '-';
      ParseDecimalOfDecimal(i);
    }
  }

  /** One output line: the code, a tab, the phrase, a space and the id. */
  function OutputLine(code: string, phrase: string, id: int): string
  {
    code + ['\t'] + phrase + [' '] + IntToString(id)
  }

  /** The text before the first tab of a line. */
  function BeforeTab(s: string): (r: string)
    ensures |r| <= |s|
  {
    if s == [] || s[0] == '\t' then [] else [s[0]] + BeforeTab(s[1..])
  }

  /** The text after the last space of a line. */
  function AfterLastSpace(s: string): (r: string)
  {
    if s == [] || s[|s| - 1] == ' ' then [] else AfterLastSpace(s[..|s| - 1]) + [s[|s| - 1]]
  }

  lemma {:induction false} BeforeTabOf(code: string, rest: string)
    requires forall k :: 0 <= k < |code| ==> code[k] != '\t'
    ensures BeforeTab(code + ['\t'] + rest) == code
    decreases |code|
  {
    if code != [] {
      assert (code + ['\t'] + rest)[1..] == code[1..] + ['\t'] + rest;
      BeforeTabOf(code[1..], rest);
      assert code == [code[0]] + code[1..];
    }
  }

  lemma {:induction false} AfterLastSpaceOf(front: string, tail: string)
    requires forall k :: 0 <= k < |tail| ==> tail[k] != ' '
    ensures AfterLastSpace(front + [' '] + tail) == tail
    decreases |tail|
  {
    var s := front + [' '] + tail;
    if tail != [] {
      var t := tail[..|tail| - 1];
      assert s[..|s| - 1] == front + [' '] + t;
      AfterLastSpaceOf(front, t);
      assert tail == t + [tail[|tail| - 1]];
    } else {
      assert s[|s| - 1] == ' ';
    }
  }

  /** An output line gives back its code (before the first tab, since codes
      are made of '0' and '1') and its id (after the last space). */
  lemma OutputLineFields(code: string, phrase: string, id: int)
    requires forall k :: 0 <= k < |code| ==> code[k] == '0' || code[k] == '1'
    ensures BeforeTab(OutputLine(code, phrase, id)) == code
    ensures AfterLastSpace(OutputLine(code, phrase, id)) == IntToString(id)
    ensures ParseInt(IntToString(id)) == id
  {
    assert OutputLine(code, phrase, id) == code + ['\t'] + (phrase + [' '] + IntToString(id));
    BeforeTabOf(code, phrase + [' '] + IntToString(id));
    AfterLastSpaceOf(code + ['\t'] + phrase, IntToString(id));
    ParseIntOfIntToString(id);
  }

  /** The phrase of an id as Java concatenates it: "null" when the phrase
      map has no entry. */
  function PhraseName(pm: map<int, string>, id: int): string
  {
    if id in pm then pm[id] else "null"
  }

  /** The history nodes of the leaves all lie in the arena. */
  predicate LeavesInArena(leaves: map<int, int>, arena: Arena)
  {
    forall c :: c in leaves ==> 0 <= leaves[c] < |arena|
  }

  /** The code of a phrase: the path to its cluster's leaf, empty when its
      cluster has no leaf (the walk starts from null). */
  function PhraseCode(p2c: map<int, int>, leaves: map<int, int>, arena: Arena, id: int): (r: string)
    requires ArenaWellFormed(arena) && LeavesInArena(leaves, arena) && id in p2c
    ensures forall k :: 0 <= k < |r| ==> r[k] == '0' || r[k] == '1'
  {
    var cluster := p2c[id];
    if cluster in leaves then Code(arena, leaves[cluster]) else []
  }

  /** The output line of one phrase id. */
  function PhraseLine(pm: map<int, string>, p2c: map<int, int>, leaves: map<int, int>, arena: Arena, id: int): string
    requires ArenaWellFormed(arena) && LeavesInArena(leaves, arena) && id in p2c
  {
    OutputLine(PhraseCode(p2c, leaves, arena, id), PhraseName(pm, id), id)
  }

  /** The lines of distinct ids are distinct: each line ends in its id. */
  lemma PhraseLinesDistinct(pm: map<int, string>, p2c: map<int, int>, leaves: map<int, int>, arena: Arena,
                            keys: seq<int>, lines: seq<string>)
    requires ArenaWellFormed(arena) && LeavesInArena(leaves, arena)
    requires Distinct(keys) && |lines| == |keys|
    requires forall k :: 0 <= k < |keys| ==> keys[k] in p2c && lines[k] == PhraseLine(pm, p2c, leaves, arena, keys[k])
    ensures Distinct(lines)
  {
    forall i, j | 0 <= i < j < |lines|
      ensures lines[i] != lines[j]
    {
      OutputLineFields(PhraseCode(p2c, leaves, arena, keys[i]), PhraseName(pm, keys[i]), keys[i]);
      OutputLineFields(PhraseCode(p2c, leaves, arena, keys[j]), PhraseName(pm, keys[j]), keys[j]);
    }
  }

  /** A rearrangement of the lines of all ids holds exactly the phrase lines. */
  lemma PhraseLinesRearranged(pm: map<int, string>, p2c: map<int, int>, leaves: map<int, int>, arena: Arena,
                              keys: seq<int>, unsorted: seq<string>, lines: seq<string>)
    requires ArenaWellFormed(arena) && LeavesInArena(leaves, arena)
    requires Enumerates(keys, p2c.Keys) && |unsorted| == |keys|
    requires forall k :: 0 <= k < |keys| ==> keys[k] in p2c && unsorted[k] == PhraseLine(pm, p2c, leaves, arena, keys[k])
    requires multiset(lines) == multiset(unsorted)
    ensures forall id :: id in p2c ==> PhraseLine(pm, p2c, leaves, arena, id) in lines
    ensures forall l :: l in lines ==> exists id :: id in p2c && l == PhraseLine(pm, p2c, leaves, arena, id)
  {
    forall id | id in p2c
      ensures PhraseLine(pm, p2c, leaves, arena, id) in lines
    {
      EnumeratedMember(keys, p2c.Keys, id);
      var k :| 0 <= k < |keys| && keys[k] == id;
      assert unsorted[k] in multiset(lines);
    }
    forall l | l in lines
      ensures exists id :: id in p2c && l == PhraseLine(pm, p2c, leaves, arena, id)
    {
      assert l in multiset(unsorted);
      var k :| 0 <= k < |unsorted| && unsorted[k] == l;
      assert keys[k] in p2c && l == PhraseLine(pm, p2c, leaves, arena, keys[k]);
    }
  }

  /** writeOutput without the file: builds one line per phrase id of the
      phrase-to-cluster map, walking up from the leaf of the phrase's
      cluster, and sorts the lines. */
  method WriteOutput(pm: map<int, string>, p2c: map<int, int>, leaves: map<int, int>, arena: Arena)
    returns (lines: seq<string>)
    requires ArenaWellFormed(arena) && LeavesInArena(leaves, arena)
    ensures Sorted(lines, ByText())
    ensures Distinct(lines)
    ensures forall id :: id in p2c ==> PhraseLine(pm, p2c, leaves, arena, id) in lines
    ensures forall l :: l in lines ==> exists id :: id in p2c && l == PhraseLine(pm, p2c, leaves, arena, id)
  {
    var keys := SortedKeys(p2c.Keys);
    var unsorted: seq<string> := [];
    for i := 0 to |keys|
      invariant |unsorted| == i
      invariant forall k :: 0 <= k < i ==> keys[k] in p2c && unsorted[k] == PhraseLine(pm, p2c, leaves, arena, keys[k])
    {
      var id := keys[i];
      EnumeratedMember(keys, p2c.Keys, id);
      var code: string := [];
      var cluster := p2c[id];
      if cluster in leaves {
        code := WalkToRoot(arena, leaves[cluster]);
      }
      unsorted := unsorted + [OutputLine(code, PhraseName(pm, id), id)];
    }
    ByTextIsPreorder();
    lines := Sort(unsorted, ByText());
    PhraseLinesDistinct(pm, p2c, leaves, arena, keys, unsorted);
    PermutationDistinct(unsorted, lines);
    PhraseLinesRearranged(pm, p2c, leaves, arena, keys, unsorted, lines);
  }
}
