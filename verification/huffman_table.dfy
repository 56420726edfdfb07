/** The frequency table and the tree-building half of the Huffman coder of
    CS232_Proj4 (Encoding.cpp, with the `info` node of Encoding.h).

    An `info` node holds a letter, a count and two child links; a null link
    is `Null`. Internal nodes carry the letter '*'. The frequency table,
    an STL list of node pointers, is a sequence of nodes, and the input
    file is a sequence of characters. */
module HuffmanTable {

  /** The info node of Encoding.h: letter, count, 0-subtree, 1-subtree. */
  datatype Info = Null | Node(letter: char, count: int, lLink: Info, rLink: Info)

  /** The letter of an internal node, and the default letter of info(). */
  const Star: char := '*'

  /** isalpha in the C locale. */
  predicate IsAlpha(c: char)
  {
    ('A' <= c <= 'Z') || ('a' <= c <= 'z')
  }

  predicate IsUpper(c: char)
  {
    'A' <= c <= 'Z'
  }

  /** toupper in the C locale. */
  function ToUpper(c: char): (u: char)
    ensures IsAlpha(c) ==> IsUpper(u)
    ensures IsUpper(c) ==> u == c
    ensures !IsAlpha(c) ==> u == c
    ensures 'a' <= c <= 'z' ==> u as int == c as int - 32
  {
    if 'a' <= c <= 'z' then (c as int - 32) as char else c
  }

  /** A fresh leaf for a letter seen for the first time. */
  function Leaf(letter: char, count: int): Info
  {
    Node(letter, count, Null, Null)
  }

  // ---------------------------------------------------------------------
  // addOrIncrease and the counting of buildFreqTable
  // ---------------------------------------------------------------------

  predicate AllNodes(t: seq<Info>)
  {
    forall i :: 0 <= i < |t| ==> t[i].Node?
  }

  /** The position of the first entry holding `letter`, or |t| if none. */
  function Find(t: seq<Info>, letter: char): (i: nat)
    requires AllNodes(t)
    ensures i <= |t|
    ensures i < |t| ==> t[i].letter == letter
    ensures forall j :: 0 <= j < i ==> t[j].letter != letter
  {
    if t == [] then 0
    else if t[0].letter == letter then 0
    else 1 + Find(t[1..], letter)
  }

  /** addOrIncrease: the first entry with the letter counts one more, or a
      new entry with count 1 is appended; nothing else changes. */
  function AddOrIncrease(t: seq<Info>, letter: char): (r: seq<Info>)
    requires AllNodes(t)
    ensures AllNodes(r)
    ensures Find(t, letter) < |t| ==>
      |r| == |t|
      && r[Find(t, letter)] == t[Find(t, letter)].(count := t[Find(t, letter)].count + 1)
      && forall j :: 0 <= j < |t| && j != Find(t, letter) ==> r[j] == t[j]
    ensures Find(t, letter) == |t| ==> r == t + [Leaf(letter, 1)]
  {
    if t == [] then [Leaf(letter, 1)]
    else if t[0].letter == letter then [t[0].(count := t[0].count + 1)] + t[1..]
    else [t[0]] + AddOrIncrease(t[1..], letter)
  }

  /** The text up to, not including, the first '*'. The source reads until
      it meets '*' and does not stop at the end of the file; here the whole
      input counts when it has no '*'. */
  function UntilStar(s: seq<char>): (r: seq<char>)
    ensures r <= s && Star !in r
    ensures |r| < |s| ==> s[|r|] == Star
  {
    if s == [] || s[0] == Star then [] else [s[0]] + UntilStar(s[1..])
  }

  /** The letters kept as text data: the alphabetic characters, as read. */
  function Letters(s: seq<char>): (r: seq<char>)
    ensures forall i :: 0 <= i < |r| ==> IsAlpha(r[i])
  {
    if s == [] then []
    else (if IsAlpha(s[0]) then [s[0]] else []) + Letters(s[1..])
  }

  /** The table built from s, one character at a time. */
  function Counts(s: seq<char>): (r: seq<Info>)
    ensures AllNodes(r)
  {
    if s == [] then []
    else
      var t := Counts(s[..|s| - 1]);
      var c := s[|s| - 1];
      if IsAlpha(c) then AddOrIncrease(t, ToUpper(c)) else t
  }

  /** How often the upper-case letter u occurs in s, either case counted. */
  function Occurrences(s: seq<char>, u: char): nat
  {
    if s == [] then 0
    else Occurrences(s[..|s| - 1], u)
         + (if IsAlpha(s[|s| - 1]) && ToUpper(s[|s| - 1]) == u then 1 else 0)
  }

  /** What one entry contributes to the count of letter u. */
  function CountOf(t: seq<Info>, u: char): int
  {
    if t == [] then 0
    else (if t[0].Node? && t[0].letter == u then t[0].count else 0) + CountOf(t[1..], u)
  }

  /** A frequency-table entry: a leaf for an upper-case letter seen at least
      once. */
  predicate LetterLeaf(e: Info)
  {
    e.Node? && e.lLink == Null && e.rLink == Null && IsUpper(e.letter) && e.count >= 1
  }

  predicate DistinctLetters(t: seq<Info>)
    requires AllNodes(t)
  {
    forall i, j :: 0 <= i < j < |t| ==> t[i].letter != t[j].letter
  }

  lemma {:induction false} CountOfAddOrIncrease(t: seq<Info>, letter: char, u: char)
    requires AllNodes(t)
    ensures CountOf(AddOrIncrease(t, letter), u) == CountOf(t, u) + (if u == letter then 1 else 0)
  {
    if t != [] && t[0].letter != letter {
      CountOfAddOrIncrease(t[1..], letter, u);
    } else if t != [] {
      assert AddOrIncrease(t, letter)[1..] == t[1..];
    }
  }

  /** The table built from s holds one leaf per distinct letter. */
  lemma {:induction false} CountsFacts(s: seq<char>)
    ensures AllNodes(Counts(s)) && DistinctLetters(Counts(s))
    ensures forall i :: 0 <= i < |Counts(s)| ==> LetterLeaf(Counts(s)[i])
  {
    if s != [] {
      var p := s[..|s| - 1];
      var c := s[|s| - 1];
      CountsFacts(p);
      if IsAlpha(c) {
        AddOrIncreaseFacts(Counts(p), ToUpper(c));
      }
    }
  }

  /** addOrIncrease of an upper-case letter keeps a table of letter leaves
      with distinct letters. */
  lemma AddOrIncreaseFacts(t: seq<Info>, u: char)
    requires AllNodes(t) && DistinctLetters(t) && IsUpper(u)
    requires forall i :: 0 <= i < |t| ==> LetterLeaf(t[i])
    ensures DistinctLetters(AddOrIncrease(t, u))
    ensures forall i :: 0 <= i < |AddOrIncrease(t, u)| ==> LetterLeaf(AddOrIncrease(t, u)[i])
  {
    var r := AddOrIncrease(t, u);
    forall i, j | 0 <= i < j < |r|
      ensures r[i].letter != r[j].letter
    {
      assert r[i].letter == t[i].letter;
      if j < |t| {
        assert r[j].letter == t[j].letter;
      }
    }
    forall i | 0 <= i < |r|
      ensures LetterLeaf(r[i])
    {
      if i < |t| {
        assert LetterLeaf(t[i]);
      }
    }
  }

  /** Each letter's count is its number of occurrences in either case. */
  lemma {:induction false} CountsCount(s: seq<char>, u: char)
    ensures CountOf(Counts(s), u) == Occurrences(s, u)
  {
    if s != [] {
      var p := s[..|s| - 1];
      CountsCount(p, u);
      CountsFacts(p);
      if IsAlpha(s[|s| - 1]) {
        CountOfAddOrIncrease(Counts(p), ToUpper(s[|s| - 1]), u);
      }
    }
  }

  // ---------------------------------------------------------------------
  // comp and list::sort
  // ---------------------------------------------------------------------

  /** comp: at equal counts a letter precedes a '*' node (through the
      character comparisons, since '*' is below every upper-case letter);
      otherwise equal counts compare letters and different counts compare
      counts. */
  function Comp(lhs: Info, rhs: Info): bool
    requires lhs.Node? && rhs.Node?
  {
    if lhs.count == rhs.count && lhs.letter == Star && rhs.letter != Star then
      lhs.letter > rhs.letter
    else if lhs.count == rhs.count && rhs.letter == Star && lhs.letter != Star then
      lhs.letter > rhs.letter
    else if lhs.count == rhs.count then
      lhs.letter < rhs.letter
    else
      lhs.count < rhs.count
  }

  /** A table entry: a node whose letter is '*' or upper case. */
  predicate Ok(e: Info)
  {
    e.Node? && (e.letter == Star || IsUpper(e.letter))
  }

  predicate AllOk(t: seq<Info>)
  {
    forall i :: 0 <= i < |t| ==> Ok(t[i])
  }

  /** The tie-break position of a letter: '*' after every letter. */
  function Rank(c: char): int
  {
    if c == Star then 256 else c as int
  }

  /** Reference order: by count, then by rank. */
  predicate KeyLess(a: Info, b: Info)
    requires a.Node? && b.Node?
  {
    a.count < b.count || (a.count == b.count && Rank(a.letter) < Rank(b.letter))
  }

  /** comp is the reference order on table entries, so it is a strict weak
      order: letters alphabetically, then '*' nodes, within one count. */
  lemma CompIsKeyLess(a: Info, b: Info)
    requires Ok(a) && Ok(b)
    ensures Comp(a, b) <==> KeyLess(a, b)
  {
  }

  /** Two '*' nodes of equal count are unordered, so the stable sort keeps
      the older one first. */
  lemma StarTiesUnordered(a: Info, b: Info)
    requires a.Node? && b.Node? && a.letter == Star && b.letter == Star && a.count == b.count
    ensures !Comp(a, b) && !Comp(b, a)
  {
  }

  /** Sorted by comp: no later entry precedes an earlier one. */
  predicate SortedByComp(t: seq<Info>)
    requires AllNodes(t)
  {
    forall i, j :: 0 <= i < j < |t| ==> !Comp(t[j], t[i])
  }

  /** The stable insertion used for list::sort: x goes after every entry it
      does not precede. */
  function Insert(x: Info, t: seq<Info>): (r: seq<Info>)
    requires x.Node? && AllNodes(t)
    ensures AllNodes(r) && multiset(r) == multiset(t) + multiset{x}
  {
    if t == [] then [x]
    else if Comp(x, t[0]) then [x] + t
    else
      assert t == [t[0]] + t[1..];
      [t[0]] + Insert(x, t[1..])
  }

  /** list::sort(comp), a stable sort: each entry in turn is inserted
      behind the entries before it that it does not precede. */
  function Sort(t: seq<Info>): (r: seq<Info>)
    requires AllNodes(t)
    ensures AllNodes(r) && multiset(r) == multiset(t)
  {
    if t == [] then []
    else
      assert t == t[..|t| - 1] + [t[|t| - 1]];
      Insert(t[|t| - 1], Sort(t[..|t| - 1]))
  }

  lemma {:induction false} InsertSorted(x: Info, t: seq<Info>)
    requires Ok(x) && AllOk(t) && AllNodes(t) && SortedByComp(t)
    ensures SortedByComp(Insert(x, t))
  {
    if t != [] && !Comp(x, t[0]) {
      InsertSorted(x, t[1..]);
      InsertKeepsLower(x, t[1..], t[0]);
      ConsSortedByComp(t[0], Insert(x, t[1..]));
    } else if t != [] {
      forall i | 0 < i < |t|
        ensures !Comp(t[i], x)
      {
        CompIsKeyLess(t[i], t[0]);
        CompIsKeyLess(x, t[0]);
        CompIsKeyLess(t[i], x);
      }
    }
  }

  /** An entry that nothing in t nor x precedes is preceded by nothing in
      the insertion of x into t. */
  lemma {:induction false} InsertKeepsLower(x: Info, t: seq<Info>, b: Info)
    requires x.Node? && AllNodes(t) && b.Node?
    requires !Comp(x, b) && forall i :: 0 <= i < |t| ==> !Comp(t[i], b)
    ensures forall i :: 0 <= i < |Insert(x, t)| ==> !Comp(Insert(x, t)[i], b)
  {
    if t == [] {
    } else if !Comp(x, t[0]) {
      InsertKeepsLower(x, t[1..], b);
      ConsLower(t[0], Insert(x, t[1..]), b);
    } else {
      ConsLower(x, t, b);
    }
  }

  /** One more entry in front that b's bound also covers. */
  lemma ConsLower(a: Info, r: seq<Info>, b: Info)
    requires a.Node? && AllNodes(r) && b.Node?
    requires !Comp(a, b) && forall i :: 0 <= i < |r| ==> !Comp(r[i], b)
    ensures forall i :: 0 <= i < |[a] + r| ==> !Comp(([a] + r)[i], b)
  {
    forall i | 0 < i < |[a] + r|
      ensures !Comp(([a] + r)[i], b)
    {
      assert ([a] + r)[i] == r[i - 1];
    }
  }

  /** A sorted table stays sorted with an entry in front that no entry of
      it precedes. */
  lemma ConsSortedByComp(a: Info, r: seq<Info>)
    requires a.Node? && AllNodes(r) && SortedByComp(r)
    requires forall i :: 0 <= i < |r| ==> !Comp(r[i], a)
    ensures SortedByComp([a] + r)
  {
    var s := [a] + r;
    forall i, j | 0 <= i < j < |s|
      ensures !Comp(s[j], s[i])
    {
      assert s[j] == r[j - 1];
      if i > 0 {
        assert s[i] == r[i - 1];
      }
    }
  }

  lemma {:induction false} SortSorted(t: seq<Info>)
    requires AllOk(t) && AllNodes(t)
    ensures SortedByComp(Sort(t))
  {
    if t != [] {
      SortSorted(t[..|t| - 1]);
      var s := Sort(t[..|t| - 1]);
      forall i | 0 <= i < |s|
        ensures Ok(s[i])
      {
        assert s[i] in multiset(t[..|t| - 1]);
      }
      InsertSorted(t[|t| - 1], s);
    }
  }

  /** Inserting an entry that precedes nothing appends it. */
  lemma {:induction false} InsertLast(x: Info, t: seq<Info>)
    requires x.Node? && AllNodes(t)
    requires forall i :: 0 <= i < |t| ==> !Comp(x, t[i])
    ensures Insert(x, t) == t + [x]
  {
    if t != [] {
      InsertLast(x, t[1..]);
      assert t == [t[0]] + t[1..];
    }
  }

  /** Sorting an already sorted table leaves it as it is. */
  lemma {:induction false} SortOfSorted(t: seq<Info>)
    requires AllNodes(t) && SortedByComp(t)
    ensures Sort(t) == t
  {
    if t != [] {
      var p := t[..|t| - 1];
      SortOfSorted(p);
      InsertLast(t[|t| - 1], p);
      assert p + [t[|t| - 1]] == t;
    }
  }

  // ---------------------------------------------------------------------
  // buildFreqTable
  // ---------------------------------------------------------------------

  /** buildFreqTable: the sorted table of the letters before the first '*',
      and those letters as read. */
  function BuildFreqTable(text: seq<char>): (r: (seq<Info>, seq<char>))
    ensures AllNodes(r.0)
  {
    var s := UntilStar(text);
    CountsFacts(s);
    (Sort(Counts(s)), Letters(s))
  }

  /** Sums of a per-entry quantity over a table. */
  function SumOf(f: Info -> int, t: seq<Info>): int
  {
    if t == [] then 0 else f(t[0]) + SumOf(f, t[1..])
  }

  lemma {:induction false} SumOfAppend(f: Info -> int, a: seq<Info>, b: seq<Info>)
    ensures SumOf(f, a + b) == SumOf(f, a) + SumOf(f, b)
  {
    if a != [] {
      assert (a + b)[1..] == a[1..] + b;
      SumOfAppend(f, a[1..], b);
    } else {
      assert a + b == b;
    }
  }

  lemma {:induction false} SumOfInsert(f: Info -> int, x: Info, t: seq<Info>)
    requires x.Node? && AllNodes(t)
    ensures SumOf(f, Insert(x, t)) == f(x) + SumOf(f, t)
  {
    if t != [] && !Comp(x, t[0]) {
      SumOfInsert(f, x, t[1..]);
    }
  }

  /** Any per-entry sum is the same after sorting. */
  lemma {:induction false} SumOfSort(f: Info -> int, t: seq<Info>)
    requires AllNodes(t)
    ensures SumOf(f, Sort(t)) == SumOf(f, t)
  {
    if t != [] {
      var p := t[..|t| - 1];
      SumOfSort(f, p);
      SumOfInsert(f, t[|t| - 1], Sort(p));
      SumOfAppend(f, p, [t[|t| - 1]]);
      SumOfOne(f, t[|t| - 1]);
      assert p + [t[|t| - 1]] == t;
    }
  }

  function CountField(e: Info): int
  {
    if e.Node? then e.count else 0
  }

  function LetterCount(u: char): Info -> int
  {
    (e: Info) => if e.Node? && e.letter == u then e.count else 0
  }

  lemma {:induction false} CountOfIsSum(t: seq<Info>, u: char)
    ensures CountOf(t, u) == SumOf(LetterCount(u), t)
  {
    if t != [] {
      CountOfIsSum(t[1..], u);
    }
  }

  /** The number of letters, in either case, in s. */
  lemma {:induction false} CountsTotal(s: seq<char>)
    ensures SumOf(CountField, Counts(s)) == |Letters(s)|
  {
    if s != [] {
      var p := s[..|s| - 1];
      CountsTotal(p);
      CountsFacts(p);
      LettersSnoc(p, s[|s| - 1]);
      assert p + [s[|s| - 1]] == s;
      if IsAlpha(s[|s| - 1]) {
        AddOrIncreaseTotal(Counts(p), ToUpper(s[|s| - 1]));
      }
    }
  }

  lemma {:induction false} LettersSnoc(p: seq<char>, c: char)
    ensures Letters(p + [c]) == Letters(p) + (if IsAlpha(c) then [c] else [])
  {
    if p != [] {
      assert (p + [c])[1..] == p[1..] + [c];
      LettersSnoc(p[1..], c);
    } else {
      assert p + [c] == [c];
    }
  }

  lemma {:induction false} AddOrIncreaseTotal(t: seq<Info>, u: char)
    requires AllNodes(t)
    ensures SumOf(CountField, AddOrIncrease(t, u)) == SumOf(CountField, t) + 1
  {
    if t != [] && t[0].letter != u {
      AddOrIncreaseTotal(t[1..], u);
    } else if t != [] {
      assert AddOrIncrease(t, u)[1..] == t[1..];
    }
  }

  /** The frequency table: one entry per distinct letter before the first
      '*', upper-cased, counted in either case, sorted by comp; and its
      counts add up to the number of letters read. */
  lemma FreqTableFacts(text: seq<char>)
    ensures var (t, data) := BuildFreqTable(text);
      && AllOk(t) && DistinctLetters(t) && SortedByComp(t)
      && (forall i :: 0 <= i < |t| ==> LetterLeaf(t[i]))
      && (forall u :: CountOf(t, u) == Occurrences(UntilStar(text), u))
      && SumOf(CountField, t) == |data|
      && data == Letters(UntilStar(text))
  {
    var s := UntilStar(text);
    CountsFacts(s);
    var c := Counts(s);
    var t := Sort(c);
    forall i | 0 <= i < |t|
      ensures LetterLeaf(t[i])
    {
      assert t[i] in multiset(c);
    }
    forall i, j | 0 <= i < j < |t|
      ensures t[i].letter != t[j].letter
    {
      SortKeepsDistinct(c, i, j);
    }
    SortSorted(c);
    forall u
      ensures CountOf(t, u) == Occurrences(s, u)
    {
      CountsCount(s, u);
      CountOfIsSum(c, u);
      CountOfIsSum(t, u);
      SumOfSort(LetterCount(u), c);
    }
    CountsTotal(s);
    SumOfSort(CountField, c);
  }

  /** Sorting a table with distinct letters keeps them distinct. */
  lemma SortKeepsDistinct(c: seq<Info>, i: int, j: int)
    requires AllNodes(c) && DistinctLetters(c)
    requires 0 <= i < j < |Sort(c)|
    ensures Sort(c)[i].letter != Sort(c)[j].letter
  {
    var t := Sort(c);
    if t[i].letter == t[j].letter {
      assert t[i] in multiset(c) && t[j] in multiset(c);
      var a :| 0 <= a < |c| && c[a] == t[i];
      var b :| 0 <= b < |c| && c[b] == t[j];
      assert a == b;
      TwoPositions(t, i, j);
      Unique(c, a);
      assert false;
    }
  }

  /** An element at two positions occurs at least twice. */
  lemma TwoPositions<T>(t: seq<T>, i: int, j: int)
    requires 0 <= i < j < |t| && t[i] == t[j]
    ensures multiset(t)[t[i]] >= 2
  {
    assert t == t[..j] + [t[j]] + t[j + 1..];
    assert t[..j][i] == t[i];
    assert t[i] in multiset(t[..j]);
  }

  /** An entry of a table with distinct letters occurs once in it. */
  lemma {:induction false} Unique(c: seq<Info>, a: int)
    requires AllNodes(c) && DistinctLetters(c) && 0 <= a < |c|
    ensures multiset(c)[c[a]] == 1
  {
    assert c == c[..a] + [c[a]] + c[a + 1..];
    assert c[a] !in c[..a] by {
      forall k | 0 <= k < a
        ensures c[..a][k] != c[a]
      {
        assert c[k].letter != c[a].letter;
      }
    }
    var tail := c[a + 1..];
    assert c[a] !in tail by {
      forall k | 0 <= k < |tail|
        ensures tail[k] != c[a]
      {
        assert tail[k] == c[a + 1 + k];
        assert c[a].letter != c[a + 1 + k].letter;
      }
    }
  }

  // ---------------------------------------------------------------------
  // HuffTree_from_FreqTable
  // ---------------------------------------------------------------------

  /** A Huffman tree: a letter leaf, or a '*' node with two such subtrees. */
  predicate Full(n: Info)
  {
    n.Node? &&
    if n.lLink == Null && n.rLink == Null then IsUpper(n.letter)
    else n.lLink != Null && n.rLink != Null && n.letter == Star && Full(n.lLink) && Full(n.rLink)
  }

  /** The letters at the alphabetic nodes of a tree. */
  function AlphaLetters(n: Info): set<char>
  {
    match n
    case Null => {}
    case Node(c, _, l, r) => (if IsAlpha(c) then {c} else {}) + AlphaLetters(l) + AlphaLetters(r)
  }

  /** The letters of all trees in a table. */
  function TableLetters(t: seq<Info>): set<char>
  {
    set e, c | e in t && c in AlphaLetters(e) :: c
  }

  /** The merged node of the two front entries. */
  function Merged(t: seq<Info>): (m: Info)
    requires |t| >= 2
    ensures m.Node? && m.letter == Star && m.lLink == t[0] && m.rLink == t[1]
    ensures CountField(m) == CountField(t[0]) + CountField(t[1])
  {
    Node(Star, CountField(t[0]) + CountField(t[1]), t[0], t[1])
  }

  /** One merge step: the front two entries leave the table, and a '*'
      node with them as its 0 and 1 subtrees and the sum of their counts
      joins it, after which the table is sorted again. */
  function MergeStep(t: seq<Info>): (r: seq<Info>)
    requires |t| >= 2 && AllNodes(t)
    ensures AllNodes(r) && |r| == |t| - 1
    ensures multiset(r) == multiset(t[2..]) + multiset{Merged(t)}
  {
    Sort(t[2..] + [Merged(t)])
  }

  /** On a sorted table, the merged node goes behind every entry it does
      not precede, so it follows the letters and older trees of its count,
      and the table stays sorted. */
  lemma MergeStepPlacement(t: seq<Info>)
    requires |t| >= 2 && AllNodes(t) && AllOk(t) && SortedByComp(t)
    ensures MergeStep(t) == Insert(Merged(t), t[2..])
    ensures SortedByComp(MergeStep(t))
  {
    var rest := t[2..];
    assert (rest + [Merged(t)])[..|rest|] == rest;
    SortOfSorted(rest);
    InsertSorted(Merged(t), rest);
  }

  /** The count of a table survives a merge step. */
  lemma MergeStepSum(t: seq<Info>)
    requires |t| >= 2 && AllNodes(t)
    ensures SumOf(CountField, MergeStep(t)) == SumOf(CountField, t)
  {
    var m := Merged(t);
    var rest := t[2..];
    var f := CountField;
    SumOfSort(f, rest + [m]);
    SumOfAppend(f, rest, [m]);
    SumOfOne(f, m);
    SumOfFront(f, t);
    assert f(m) == f(t[0]) + f(t[1]);
  }

  /** The sum over a table is that of its two front entries and the rest. */
  lemma SumOfFront(f: Info -> int, t: seq<Info>)
    requires |t| >= 2
    ensures SumOf(f, t) == f(t[0]) + f(t[1]) + SumOf(f, t[2..])
  {
    assert t[1..][1..] == t[2..];
  }

  lemma SumOfOne(f: Info -> int, e: Info)
    ensures SumOf(f, [e]) == f(e)
  {
    assert [e][1..] == [];
  }

  /** The entries after a merge step are the untouched ones and the merged
      node. */
  lemma MergeStepMembers(t: seq<Info>)
    requires |t| >= 2 && AllNodes(t)
    ensures forall e :: e in MergeStep(t) <==> e in t[2..] || e == Merged(t)
  {
    var r := MergeStep(t);
    forall e
      ensures e in r <==> e in t[2..] || e == Merged(t)
    {
      assert e in r <==> e in multiset(r);
    }
  }

  /** The letters of a table survive a merge step. */
  lemma MergeStepLetters(t: seq<Info>)
    requires |t| >= 2 && AllNodes(t)
    ensures TableLetters(MergeStep(t)) == TableLetters(t)
  {
    MergeStepMembers(t);
    var m := Merged(t);
    TableLettersOfMembers(MergeStep(t), t[2..], m);
    TableLettersOfFront(t);
    assert AlphaLetters(m) == AlphaLetters(t[0]) + AlphaLetters(t[1]);
  }

  /** The letters of a table whose entries are those of `rest` and m. */
  lemma TableLettersOfMembers(r: seq<Info>, rest: seq<Info>, m: Info)
    requires forall e :: e in r <==> e in rest || e == m
    ensures TableLetters(r) == TableLetters(rest) + AlphaLetters(m)
  {
    forall c | c in TableLetters(rest) + AlphaLetters(m)
      ensures c in TableLetters(r)
    {
      if c in AlphaLetters(m) {
        assert m in r;
      } else {
        var e :| e in rest && c in AlphaLetters(e);
        assert e in r;
      }
    }
  }

  /** The letters of a table are those of its two front entries and of the
      rest. */
  lemma TableLettersOfFront(t: seq<Info>)
    requires |t| >= 2
    ensures TableLetters(t) == AlphaLetters(t[0]) + AlphaLetters(t[1]) + TableLetters(t[2..])
  {
    assert forall e :: e in t <==> e == t[0] || e == t[1] || e in t[2..] by {
      assert t == [t[0], t[1]] + t[2..];
    }
    forall c | c in AlphaLetters(t[0]) + AlphaLetters(t[1]) + TableLetters(t[2..])
      ensures c in TableLetters(t)
    {
      if c in AlphaLetters(t[0]) {
        assert t[0] in t;
      } else if c in AlphaLetters(t[1]) {
        assert t[1] in t;
      } else {
        var e :| e in t[2..] && c in AlphaLetters(e);
        assert e in t;
      }
    }
  }

  /** A merge step of Huffman trees gives Huffman trees, and keeps the
      letters upper case or '*'. */
  lemma MergeStepFull(t: seq<Info>)
    requires |t| >= 2 && AllNodes(t)
    ensures (forall i :: 0 <= i < |t| ==> Full(t[i])) ==>
              forall i :: 0 <= i < |MergeStep(t)| ==> Full(MergeStep(t)[i])
    ensures AllOk(t) ==> AllOk(MergeStep(t))
  {
    MergeStepMembers(t);
    var r := MergeStep(t);
    forall i | 0 <= i < |r|
      ensures (exists k :: 2 <= k < |t| && r[i] == t[k]) || r[i] == Merged(t)
    {
      assert r[i] in r;
      if r[i] != Merged(t) {
        assert r[i] in t[2..];
      }
    }
  }

  /** HuffTree_from_FreqTable: merge until one entry is left. An empty
      table is not allowed: the source takes the front of the empty list. */
  function HuffTreeFromFreqTable(t: seq<Info>): (root: Info)
    requires |t| >= 1 && AllNodes(t)
    ensures root.Node?
    decreases |t|
  {
    if |t| == 1 then t[0] else HuffTreeFromFreqTable(MergeStep(t))
  }

  /** The tree holds the whole table: its count is the sum of the table's
      counts, it has the table's letters, and built from letter leaves it
      is a Huffman tree. */
  lemma {:induction false} HuffTreeFacts(t: seq<Info>)
    requires |t| >= 1 && AllNodes(t)
    ensures var root := HuffTreeFromFreqTable(t);
      && CountField(root) == SumOf(CountField, t)
      && AlphaLetters(root) == TableLetters(t)
      && ((forall i :: 0 <= i < |t| ==> Full(t[i])) ==> Full(root))
    decreases |t|
  {
    if |t| == 1 {
      assert forall e :: e in t <==> e == t[0];
    } else {
      MergeStepSum(t);
      MergeStepLetters(t);
      MergeStepFull(t);
      HuffTreeFacts(MergeStep(t));
    }
  }

  /** The leaves of the table are Huffman trees. */
  lemma LetterLeafFull(e: Info)
    requires LetterLeaf(e)
    ensures Full(e) && AlphaLetters(e) == {e.letter}
  {
  }
}
