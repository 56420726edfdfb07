/** The bottom-up 2-3 tree of cs232_Lab6_2020 over integer keys ordered by
    `precedes` (the driver's int_less, that is `<`).

    The source marks an empty key slot with a NULL key and walks back up
    through parent pointers while splitting. Here a node with one key is a
    `Two`, one with two keys a `Three`, and the walk up is the return path of
    the recursive insertion: each level reports either that the key was
    already there, that the change fitted, or that the node split into
    itself, a promoted middle key and a new sibling. */
module TwoThreeTree {
  import opened OrderedKeys
  import opened Wrappers

  datatype Tree =
    | Nil
    | Two(first: Tree, firstInfo: int, second: Tree)
    | Three(first: Tree, firstInfo: int, second: Tree, secondInfo: int, third: Tree)

  // ---------------------------------------------------------------------
  // Contents and invariants
  // ---------------------------------------------------------------------

  /** The keys held in the node itself. */
  function NodeKeys(t: Tree): seq<int>
  {
    match t
    case Nil => []
    case Two(_, k1, _) => [k1]
    case Three(_, k1, _, k2, _) => [k1, k2]
  }

  function Keys(t: Tree): set<int>
  {
    match t
    case Nil => {}
    case Two(a, k1, b) => Keys(a) + {k1} + Keys(b)
    case Three(a, k1, b, k2, c) => Keys(a) + {k1} + Keys(b) + {k2} + Keys(c)
  }

  /** The keys in symmetric order. */
  function InOrder(t: Tree): seq<int>
  {
    match t
    case Nil => []
    case Two(a, k1, b) => InOrder(a) + [k1] + InOrder(b)
    case Three(a, k1, b, k2, c) => InOrder(a) + [k1] + InOrder(b) + [k2] + InOrder(c)
  }

  function Height(t: Tree): nat
  {
    match t
    case Nil => 0
    case Two(a, _, _) => 1 + Height(a)
    case Three(a, _, _, _, _) => 1 + Height(a)
  }

  /** All leaves at one depth. */
  predicate Balanced(t: Tree)
  {
    match t
    case Nil => true
    case Two(a, _, b) => Balanced(a) && Balanced(b) && Height(a) == Height(b)
    case Three(a, _, b, _, c) =>
      Balanced(a) && Balanced(b) && Balanced(c) && Height(a) == Height(b) == Height(c)
  }

  /** The search-tree order under `precedes`. */
  predicate Ordered(t: Tree)
  {
    match t
    case Nil => true
    case Two(a, k1, b) =>
      Ordered(a) && Ordered(b) && AllBelow(Keys(a), k1) && AllAbove(Keys(b), k1)
    case Three(a, k1, b, k2, c) =>
      Ordered(a) && Ordered(b) && Ordered(c) && k1 < k2
      && AllBelow(Keys(a), k1) && AllAbove(Keys(b), k1) && AllBelow(Keys(b), k2)
      && AllAbove(Keys(c), k2)
  }

  predicate Valid(t: Tree)
  {
    Balanced(t) && Ordered(t)
  }

  /** leafNode: all three child pointers are NULL. */
  predicate IsLeaf(t: Tree)
  {
    match t
    case Nil => false
    case Two(a, _, b) => a == Nil && b == Nil
    case Three(a, _, b, _, c) => a == Nil && b == Nil && c == Nil
  }

  /** s occurs somewhere in t (t itself included). */
  predicate IsSubtree(s: Tree, t: Tree)
  {
    s == t ||
    match t
    case Nil => false
    case Two(a, _, b) => IsSubtree(s, a) || IsSubtree(s, b)
    case Three(a, _, b, _, c) => IsSubtree(s, a) || IsSubtree(s, b) || IsSubtree(s, c)
  }

  // ---------------------------------------------------------------------
  // Search
  // ---------------------------------------------------------------------

  /** What privSearch reports: whether the target was found, and `where`,
      the node holding it, or else the leaf where the search ended, or
      nothing for an empty tree. */
  datatype SearchResult = SearchResult(found: bool, where: Option<Tree>)

  /** The child privSearch follows from an interior node. */
  function Route(t: Tree, x: int): int
    requires t != Nil
  {
    match t
    case Two(_, k1, _) => if x < k1 then 1 else 2
    case Three(_, k1, _, k2, _) => if x < k1 then 1 else if x < k2 then 2 else 3
  }

  predicate HasSlot(t: Tree, i: int)
  {
    match t
    case Nil => false
    case Two(_, _, _) => i == 1 || i == 2
    case Three(_, _, _, _, _) => 1 <= i <= 3
  }

  function Child(t: Tree, i: int): Tree
    requires HasSlot(t, i)
  {
    match t
    case Two(a, _, b) => if i == 1 then a else b
    case Three(a, _, b, _, c) => if i == 1 then a else if i == 2 then b else c
  }

  function WithChild(t: Tree, i: int, n: Tree): Tree
    requires HasSlot(t, i)
  {
    match t
    case Two(a, k1, b) => if i == 1 then Two(n, k1, b) else Two(a, k1, n)
    case Three(a, k1, b, k2, c) =>
      if i == 1 then Three(n, k1, b, k2, c)
      else if i == 2 then Three(a, k1, n, k2, c)
      else Three(a, k1, b, k2, n)
  }

  /** x lies strictly between the node keys around child slot i. */
  predicate InRange(t: Tree, i: int, x: int)
  {
    match t
    case Nil => false
    case Two(_, k1, _) => (i == 1 && x < k1) || (i == 2 && k1 < x)
    case Three(_, k1, _, k2, _) => (i == 1 && x < k1) || (i == 2 && k1 < x < k2) || (i == 3 && k2 < x)
  }

  lemma RouteInRange(t: Tree, x: int)
    requires t != Nil && x !in NodeKeys(t)
    ensures HasSlot(t, Route(t, x)) && InRange(t, Route(t, x), x)
  {
  }

  /** privSearch: checks the node's keys with ==, stops at a leaf, and
      otherwise descends by `precedes`. */
  function PrivSearch(t: Tree, x: int): (r: SearchResult)
    ensures Balanced(t) ==> (r.where.None? <==> t == Nil)
    ensures r.found ==> r.where.Some? && x in NodeKeys(r.where.value)
    ensures Balanced(t) && t != Nil && !r.found ==> IsLeaf(r.where.value)
    ensures r.where.Some? ==> IsSubtree(r.where.value, t)
    ensures Ordered(t) ==> (r.found <==> x in Keys(t))
  {
    match t
    case Nil => SearchResult(false, None)
    case Two(a, k1, b) =>
      if k1 == x then SearchResult(true, Some(t))
      else if IsLeaf(t) then SearchResult(false, Some(t))
      else if x < k1 then PrivSearch(a, x)
      else PrivSearch(b, x)
    case Three(a, k1, b, k2, c) =>
      if k1 == x || k2 == x then SearchResult(true, Some(t))
      else if IsLeaf(t) then SearchResult(false, Some(t))
      else if x < k1 then PrivSearch(a, x)
      else if x < k2 then PrivSearch(b, x)
      else PrivSearch(c, x)
  }

  /** search */
  function Search(t: Tree, x: int): (found: bool)
    ensures Ordered(t) ==> (found <==> x in Keys(t))
  {
    PrivSearch(t, x).found
  }

  // ---------------------------------------------------------------------
  // Split
  // ---------------------------------------------------------------------

  /** The key part of split: of the node's two keys and `data`, the smallest
      stays in the node, the largest goes to the new sibling, and the middle
      is promoted. */
  function SplitKeys(k1: int, k2: int, data: int): (r: (int, int, int))
    ensures multiset{r.0, r.1, r.2} == multiset{k1, k2, data}
    ensures k1 < k2 && data != k1 && data != k2 ==> r.0 < r.1 < r.2
  {
    if data < k1 then (data, k1, k2)
    else if data < k2 then (k1, data, k2)
    else (k1, k2, data)
  }

  /** The ADD BRANCH part of split: the new branch is placed among the three
      children by comparing its first key with theirs (cases 1 to 4). */
  function PlaceBranch(c1: Tree, c2: Tree, c3: Tree, branch: Tree): (r: seq<Tree>)
    requires c1 != Nil && c2 != Nil && c3 != Nil && branch != Nil
    ensures exists j :: 0 <= j <= 3 && r == [c1, c2, c3][..j] + [branch] + [c1, c2, c3][j..]
  {
    var key := branch.firstInfo;
    var cs := [c1, c2, c3];
    if key < c1.firstInfo then
      assert [branch] + cs == cs[..0] + [branch] + cs[0..];
      [branch] + cs
    else if key < c2.firstInfo then
      assert [c1, branch, c2, c3] == cs[..1] + [branch] + cs[1..];
      [c1, branch, c2, c3]
    else if key < c3.firstInfo then
      assert [c1, c2, branch, c3] == cs[..2] + [branch] + cs[2..];
      [c1, c2, branch, c3]
    else
      assert cs + [branch] == cs[..3] + [branch] + cs[3..];
      cs + [branch]
  }

  /** The result of inserting into a subtree. */
  datatype Outcome =
    | AlreadyThere
    | Fit(t: Tree)
    | Split(tree: Tree, middle: int, sibling: Tree)

  /** `l`, `m`, `s` is a valid split of c after x was added to it: two
      subtrees of c's height on either side of the promoted key, holding
      together c's keys and x. */
  predicate SplitOf(c: Tree, x: int, l: Tree, m: int, s: Tree)
  {
    && Valid(l) && Valid(s) && l != Nil && s != Nil
    && Height(l) == Height(c) && Height(s) == Height(c)
    && AllBelow(Keys(l), m) && AllAbove(Keys(s), m)
    && Keys(l) + {m} + Keys(s) == Keys(c) + {x}
  }

  /** The first key of a node is one of its keys. */
  lemma FirstInfoIsKey(t: Tree)
    requires t != Nil
    ensures t.firstInfo in Keys(t)
  {
  }

  /** In a valid situation the comparisons of PlaceBranch put the branch
      right after the child it split from. */
  lemma PlaceBranchAfterSplitChild(p: Tree, i: int, x: int, l: Tree, m: int, s: Tree)
    requires p.Three? && Valid(p) && !IsLeaf(p) && HasSlot(p, i) && InRange(p, i, x)
    requires SplitOf(Child(p, i), x, l, m, s)
    ensures var q := WithChild(p, i, l);
      PlaceBranch(q.first, q.second, q.third, s)
      == (if i == 1 then [l, s, p.second, p.third]
          else if i == 2 then [p.first, l, s, p.third]
          else [p.first, p.second, l, s])
  {
    FirstInfoIsKey(l);
    FirstInfoIsKey(s);
    FirstInfoIsKey(p.first);
    FirstInfoIsKey(p.second);
    FirstInfoIsKey(p.third);
  }

  /** Promoting into a one-key parent: case C (the middle follows the
      parent's key; the sibling becomes the third child) or case D (the
      middle precedes it; the parent's keys and children shift right). The
      split child has already been replaced by its left part. */
  function PromoteIntoTwo(p: Tree, i: int, l: Tree, m: int, s: Tree): (r: Tree)
    requires p.Two? && HasSlot(p, i)
  {
    var q := WithChild(p, i, l);
    if p.firstInfo < m then Three(q.first, q.firstInfo, q.second, m, s)     // case C
    else Three(q.first, m, s, q.firstInfo, q.second)                          // case D
  }

  /** Case C and D keep the tree valid and add exactly the split child's
      new key. */
  lemma PromoteIntoTwoValid(p: Tree, i: int, x: int, l: Tree, m: int, s: Tree)
    requires p.Two? && Valid(p) && HasSlot(p, i) && InRange(p, i, x)
    requires SplitOf(Child(p, i), x, l, m, s)
    ensures var r := PromoteIntoTwo(p, i, l, m, s);
      r.Three? && Valid(r) && Height(r) == Height(p) && Keys(r) == Keys(p) + {x}
  {
    var Two(a, k1, b) := p;
    if i == 1 {
      PromoteFirst(a, k1, b, x, l, m, s);
    } else {
      PromoteSecond(a, k1, b, x, l, m, s);
    }
  }

  /** Case D: the split first child's parts shift the parent's key right. */
  lemma PromoteFirst(a: Tree, k1: int, b: Tree, x: int, l: Tree, m: int, s: Tree)
    requires Valid(Two(a, k1, b)) && x < k1 && SplitOf(a, x, l, m, s)
    ensures m < k1
    ensures Valid(Three(l, m, s, k1, b)) && Height(Three(l, m, s, k1, b)) == Height(Two(a, k1, b))
    ensures Keys(Three(l, m, s, k1, b)) == Keys(Two(a, k1, b)) + {x}
  {
    PartsBelow(a, x, l, m, s, k1);
    ThreeOfParts(l, m, s, k1, b);
    KeysRegroupFirst(Keys(a), {k1} + Keys(b), x, Keys(l), m, Keys(s));
  }

  /** Case C: the split second child's parts follow the parent's key. */
  lemma PromoteSecond(a: Tree, k1: int, b: Tree, x: int, l: Tree, m: int, s: Tree)
    requires Valid(Two(a, k1, b)) && k1 < x && SplitOf(b, x, l, m, s)
    ensures k1 < m
    ensures Valid(Three(a, k1, l, m, s)) && Height(Three(a, k1, l, m, s)) == Height(Two(a, k1, b))
    ensures Keys(Three(a, k1, l, m, s)) == Keys(Two(a, k1, b)) + {x}
  {
    PartsAbove(b, x, l, m, s, k1);
    ThreeOfParts(a, k1, l, m, s);
    KeysRegroupLast(Keys(a) + {k1}, Keys(b), x, Keys(l), m, Keys(s));
  }

  /** Three subtrees of one height, separated by two ascending keys, form a
      valid 3-node. */
  lemma ThreeOfParts(t1: Tree, a: int, t2: Tree, b: int, t3: Tree)
    requires Valid(t1) && Valid(t2) && Valid(t3)
    requires Height(t1) == Height(t2) == Height(t3)
    requires AllBelow(Keys(t1), a) && AllAbove(Keys(t2), a) && AllBelow(Keys(t2), b)
    requires AllAbove(Keys(t3), b) && a < b
    ensures Valid(Three(t1, a, t2, b, t3)) && Height(Three(t1, a, t2, b, t3)) == Height(t1) + 1
  {
  }

  /** Case B: the parent already holds two keys, so it is split in turn with
      the sibling as the branch to add. */
  function SplitInterior(p: Tree, i: int, l: Tree, m: int, s: Tree): (r: Outcome)
    requires p.Three? && HasSlot(p, i) && !IsLeaf(p) && l != Nil && s != Nil
    requires p.first != Nil && p.second != Nil && p.third != Nil
    ensures r.Split?
  {
    var q := WithChild(p, i, l);
    var (small, middle, large) := SplitKeys(q.firstInfo, q.secondInfo, m);
    var cs := PlaceBranch(q.first, q.second, q.third, s);
    Split(Two(cs[0], small, cs[1]), middle, Two(cs[2], large, cs[3]))
  }

  /** Case B yields a valid split of the parent. */
  lemma SplitInteriorValid(p: Tree, i: int, x: int, l: Tree, m: int, s: Tree)
    requires p.Three? && Valid(p) && !IsLeaf(p) && HasSlot(p, i) && InRange(p, i, x)
    requires SplitOf(Child(p, i), x, l, m, s)
    ensures p.first != Nil && p.second != Nil && p.third != Nil
    ensures var r := SplitInterior(p, i, l, m, s);
      SplitOf(p, x, r.tree, r.middle, r.sibling)
  {
    PlaceBranchAfterSplitChild(p, i, x, l, m, s);
    assert m in Keys(Child(p, i)) + {x};
    if i == 1 {
      SplitFirst(p, x, l, m, s);
    } else if i == 2 {
      SplitSecond(p, x, l, m, s);
    } else {
      SplitThird(p, x, l, m, s);
    }
  }

  lemma SplitInteriorCase1(p: Tree, l: Tree, m: int, s: Tree)
    requires p.Three? && p.first != Nil && p.second != Nil && p.third != Nil && l != Nil && s != Nil
    requires m < p.firstInfo
    requires var q := WithChild(p, 1, l);
      PlaceBranch(q.first, q.second, q.third, s) == [l, s, p.second, p.third]
    ensures SplitInterior(p, 1, l, m, s) == Split(Two(l, m, s), p.firstInfo, Two(p.second, p.secondInfo, p.third))
  {
  }

  lemma SplitFirst(p: Tree, x: int, l: Tree, m: int, s: Tree)
    requires p.Three? && Valid(p) && InRange(p, 1, x) && SplitOf(p.first, x, l, m, s)
    requires m in Keys(p.first) + {x}
    requires var q := WithChild(p, 1, l);
      PlaceBranch(q.first, q.second, q.third, s) == [l, s, p.second, p.third]
    ensures var r := SplitInterior(p, 1, l, m, s);
      SplitOf(p, x, r.tree, r.middle, r.sibling)
  {
    PartsBelow(p.first, x, l, m, s, p.firstInfo);
    RegroupSplit(Keys(p.first), p.firstInfo, Keys(p.second), p.secondInfo, Keys(p.third), x, Keys(l), m, Keys(s), 1);
    SplitInteriorCase1(p, l, m, s);
    SplitOfParts(p, x, l, m, s, p.firstInfo, p.second, p.secondInfo, p.third);
  }

  lemma SplitInteriorCase2(p: Tree, l: Tree, m: int, s: Tree)
    requires p.Three? && p.first != Nil && p.second != Nil && p.third != Nil && l != Nil && s != Nil
    requires p.firstInfo < m < p.secondInfo
    requires var q := WithChild(p, 2, l);
      PlaceBranch(q.first, q.second, q.third, s) == [p.first, l, s, p.third]
    ensures SplitInterior(p, 2, l, m, s) == Split(Two(p.first, p.firstInfo, l), m, Two(s, p.secondInfo, p.third))
  {
  }

  lemma SplitSecond(p: Tree, x: int, l: Tree, m: int, s: Tree)
    requires p.Three? && Valid(p) && InRange(p, 2, x) && SplitOf(p.second, x, l, m, s)
    requires m in Keys(p.second) + {x}
    requires var q := WithChild(p, 2, l);
      PlaceBranch(q.first, q.second, q.third, s) == [p.first, l, s, p.third]
    ensures var r := SplitInterior(p, 2, l, m, s);
      SplitOf(p, x, r.tree, r.middle, r.sibling)
  {
    PartsAbove(p.second, x, l, m, s, p.firstInfo);
    PartsBelow(p.second, x, l, m, s, p.secondInfo);
    RegroupSplit(Keys(p.first), p.firstInfo, Keys(p.second), p.secondInfo, Keys(p.third), x, Keys(l), m, Keys(s), 2);
    SplitInteriorCase2(p, l, m, s);
    SplitOfParts(p, x, p.first, p.firstInfo, l, m, s, p.secondInfo, p.third);
  }

  lemma SplitInteriorCase3(p: Tree, l: Tree, m: int, s: Tree)
    requires p.Three? && p.first != Nil && p.second != Nil && p.third != Nil && l != Nil && s != Nil
    requires p.firstInfo < p.secondInfo < m
    requires var q := WithChild(p, 3, l);
      PlaceBranch(q.first, q.second, q.third, s) == [p.first, p.second, l, s]
    ensures SplitInterior(p, 3, l, m, s) == Split(Two(p.first, p.firstInfo, p.second), p.secondInfo, Two(l, m, s))
  {
  }

  lemma SplitThird(p: Tree, x: int, l: Tree, m: int, s: Tree)
    requires p.Three? && Valid(p) && InRange(p, 3, x) && SplitOf(p.third, x, l, m, s)
    requires m in Keys(p.third) + {x}
    requires var q := WithChild(p, 3, l);
      PlaceBranch(q.first, q.second, q.third, s) == [p.first, p.second, l, s]
    ensures var r := SplitInterior(p, 3, l, m, s);
      SplitOf(p, x, r.tree, r.middle, r.sibling)
  {
    PartsAbove(p.third, x, l, m, s, p.secondInfo);
    RegroupSplit(Keys(p.first), p.firstInfo, Keys(p.second), p.secondInfo, Keys(p.third), x, Keys(l), m, Keys(s), 3);
    SplitInteriorCase3(p, l, m, s);
    SplitOfParts(p, x, p.first, p.firstInfo, p.second, p.secondInfo, l, m, s);
  }

  /** The parts of a split stay above any bound the split child and the
      added key were above. */
  lemma PartsAbove(c: Tree, x: int, l: Tree, m: int, s: Tree, lo: int)
    requires SplitOf(c, x, l, m, s) && AllAbove(Keys(c), lo) && lo < x
    ensures AllAbove(Keys(l), lo) && lo < m && AllAbove(Keys(s), lo)
  {
    assert m in Keys(c) + {x};
  }

  /** The parts of a split stay below any bound the split child and the
      added key were below. */
  lemma PartsBelow(c: Tree, x: int, l: Tree, m: int, s: Tree, hi: int)
    requires SplitOf(c, x, l, m, s) && AllBelow(Keys(c), hi) && x < hi
    ensures AllBelow(Keys(l), hi) && m < hi && AllBelow(Keys(s), hi)
  {
    assert m in Keys(c) + {x};
  }

  /** Replacing a child's keys and the added key by the keys of its split
      parts leaves the whole key set unchanged. */
  lemma RegroupSplit(ka: set<int>, k1: int, kb: set<int>, k2: int, kc: set<int>,
                     x: int, l: set<int>, m: int, s: set<int>, i: int)
    requires i == 1 ==> ka + {x} == l + {m} + s
    requires i == 2 ==> kb + {x} == l + {m} + s
    requires i == 3 ==> kc + {x} == l + {m} + s
    ensures i == 1 ==> l + {m} + s + {k1} + kb + {k2} + kc == ka + {k1} + kb + {k2} + kc + {x}
    ensures i == 2 ==> ka + {k1} + l + {m} + s + {k2} + kc == ka + {k1} + kb + {k2} + kc + {x}
    ensures i == 3 ==> ka + {k1} + kb + {k2} + l + {m} + s == ka + {k1} + kb + {k2} + kc + {x}
  {
  }

  /** KeysRegroup for the first child. */
  lemma KeysRegroupFirst(k: set<int>, c: set<int>, x: int, l: set<int>, m: int, s: set<int>)
    requires k + {x} == l + {m} + s
    ensures k + c + {x} == l + {m} + s + c
  {
  }

  /** KeysRegroup for the last child. */
  lemma KeysRegroupLast(a: set<int>, k: set<int>, x: int, l: set<int>, m: int, s: set<int>)
    requires k + {x} == l + {m} + s
    ensures a + k + {x} == a + l + {m} + s
  {
  }

  /** Two subtrees of one height around a key form a valid 2-node. */
  lemma TwoOfParts(t1: Tree, a: int, t2: Tree)
    requires Valid(t1) && Valid(t2) && Height(t1) == Height(t2)
    requires AllBelow(Keys(t1), a) && AllAbove(Keys(t2), a)
    ensures Valid(Two(t1, a, t2)) && Height(Two(t1, a, t2)) == Height(t1) + 1
  {
  }

  /** Four subtrees of one height, separated by three keys, form a valid
      split around the middle key. */
  lemma SplitOfParts(p: Tree, x: int, t1: Tree, a: int, t2: Tree, b: int, t3: Tree, c: int, t4: Tree)
    requires Valid(t1) && Valid(t2) && Valid(t3) && Valid(t4)
    requires Height(t1) == Height(t2) == Height(t3) == Height(t4) == Height(p) - 1
    requires AllBelow(Keys(t1), a) && AllAbove(Keys(t2), a) && AllBelow(Keys(t2), b)
    requires AllAbove(Keys(t3), b) && AllBelow(Keys(t3), c) && AllAbove(Keys(t4), c)
    requires a < b < c
    requires Keys(t1) + {a} + Keys(t2) + {b} + Keys(t3) + {c} + Keys(t4) == Keys(p) + {x}
    ensures SplitOf(p, x, Two(t1, a, t2), b, Two(t3, c, t4))
  {
    TwoOfParts(t1, a, t2);
    TwoOfParts(t3, c, t4);
    BelowJoin(Keys(t1), a, Keys(t2), b);
    AboveJoin(Keys(t3), c, Keys(t4), b);
    KeysOfParts(Keys(t1), a, Keys(t2), b, Keys(t3), c, Keys(t4));
  }

  /** Regrouping the seven parts of a split into its two halves. */
  lemma KeysOfParts(s1: set<int>, a: int, s2: set<int>, b: int, s3: set<int>, c: int, s4: set<int>)
    ensures (s1 + {a} + s2) + {b} + (s3 + {c} + s4) == s1 + {a} + s2 + {b} + s3 + {c} + s4
  {
  }

  // ---------------------------------------------------------------------
  // Insertion
  // ---------------------------------------------------------------------

  /** Adding x below t: found on the route (case 2), put into a leaf, or
      added below a child, whose outcome the node then absorbs. */
  function Ins(t: Tree, x: int): (r: Outcome)
    requires t != Nil && Balanced(t)
    ensures r.Split? ==> r.tree != Nil && r.sibling != Nil
  {
    if x in NodeKeys(t) then AlreadyThere
    else if IsLeaf(t) then LeafAdd(t, x)
    else
      var i := Route(t, x);
      InteriorChildren(t);
      Absorb(t, i, x, Ins(Child(t, i), x))
  }

  /** What adding x to t must achieve: report a present key, or return a
      valid tree of the same height holding one more key, or a valid split. */
  predicate InsSpec(t: Tree, x: int, r: Outcome)
  {
    && (r.AlreadyThere? <==> x in Keys(t))
    && (r.Fit? ==> Valid(r.t) && r.t != Nil && Height(r.t) == Height(t) && Keys(r.t) == Keys(t) + {x})
    && (r.Split? ==> SplitOf(t, x, r.tree, r.middle, r.sibling))
  }

  /** Insertion below a valid tree meets InsSpec. */
  lemma {:induction false} InsCorrect(t: Tree, x: int)
    requires t != Nil && Valid(t)
    ensures InsSpec(t, x, Ins(t, x))
  {
    if x !in NodeKeys(t) && !IsLeaf(t) {
      var i := Route(t, x);
      InteriorChildren(t);
      RouteInRange(t, x);
      InsCorrect(Child(t, i), x);
      AbsorbCorrect(t, i, x, Ins(Child(t, i), x));
    }
  }

  /** A balanced interior node has all its children. */
  lemma InteriorChildren(t: Tree)
    requires t != Nil && Balanced(t) && !IsLeaf(t)
    ensures forall i :: HasSlot(t, i) ==> Child(t, i) != Nil && Balanced(Child(t, i))
  {
  }

  /** In an ordered node, a key on the route to child i is in the tree
      exactly when it is in that child. */
  lemma RouteMembership(t: Tree, i: int, x: int)
    requires Ordered(t) && HasSlot(t, i) && InRange(t, i, x)
    ensures x in Keys(t) <==> x in Keys(Child(t, i))
  {
  }

  /** A leaf with one key takes x in order (cases 4 and 5); a leaf with two
      keys is split (case 3). */
  function LeafAdd(t: Tree, x: int): (r: Outcome)
    requires IsLeaf(t)
    ensures Valid(t) && x !in NodeKeys(t) ==> InsSpec(t, x, r)
    ensures r.Split? ==> r.tree != Nil && r.sibling != Nil
  {
    match t
    case Two(_, k1, _) =>
      LeafTwoAdd(k1, x);
      if k1 < x then Fit(Three(Nil, k1, Nil, x, Nil))          // case 4
      else Fit(Three(Nil, x, Nil, k1, Nil))                    // case 5
    case Three(_, k1, _, k2, _) =>                             // case 3
      LeafThreeAdd(k1, k2, x);
      var (small, middle, large) := SplitKeys(k1, k2, x);
      Split(Two(Nil, small, Nil), middle, Two(Nil, large, Nil))
  }

  /** Cases 4 and 5 meet the insertion contract. */
  lemma LeafTwoAdd(k1: int, x: int)
    ensures var r := if k1 < x then Three(Nil, k1, Nil, x, Nil) else Three(Nil, x, Nil, k1, Nil);
      x != k1 ==> InsSpec(Two(Nil, k1, Nil), x, Fit(r))
  {
  }

  /** Case 3 meets the insertion contract. */
  lemma LeafThreeAdd(k1: int, k2: int, x: int)
    ensures var (small, middle, large) := SplitKeys(k1, k2, x);
      k1 < k2 && x != k1 && x != k2 ==>
      InsSpec(Three(Nil, k1, Nil, k2, Nil), x, Split(Two(Nil, small, Nil), middle, Two(Nil, large, Nil)))
  {
    if k1 < k2 && x != k1 && x != k2 {
      var leaf := Three(Nil, k1, Nil, k2, Nil);
      if x < k1 {
        LeafSplitValid(leaf, x, x, k1, k2);
      } else if x < k2 {
        LeafSplitValid(leaf, x, k1, x, k2);
      } else {
        LeafSplitValid(leaf, x, k1, k2, x);
      }
    }
  }

  /** Splitting a two-key leaf into three ascending keys a, b, c, which are
      its keys and x, is a valid split. */
  lemma LeafSplitValid(leaf: Tree, x: int, a: int, b: int, c: int)
    requires leaf.Three? && IsLeaf(leaf) && a < b < c
    requires {a, b, c} == {leaf.firstInfo, leaf.secondInfo, x}
    requires x != leaf.firstInfo && x != leaf.secondInfo
    ensures InsSpec(leaf, x, Split(Two(Nil, a, Nil), b, Two(Nil, c, Nil)))
  {
  }

  /** A node absorbs the outcome of adding x below its child i: an unchanged
      outcome is passed up, a fitted child is put back, and a split child is
      promoted into the node (cases C and D) or splits it (case B). */
  function Absorb(t: Tree, i: int, x: int, o: Outcome): (r: Outcome)
    requires t != Nil && Balanced(t) && !IsLeaf(t) && HasSlot(t, i)
    requires o.Split? ==> o.tree != Nil && o.sibling != Nil
    ensures r.Split? ==> r.tree != Nil && r.sibling != Nil
  {
    match o
    case AlreadyThere => AlreadyThere
    case Fit(c') => Fit(WithChild(t, i, c'))
    case Split(l, m, s) =>
      if t.Two? then Fit(PromoteIntoTwo(t, i, l, m, s))
      else
        InteriorChildren(t);
        SplitInterior(t, i, l, m, s)
  }

  /** Absorbing a correct outcome of the child on x's route gives a correct
      outcome for the node. */
  lemma AbsorbCorrect(t: Tree, i: int, x: int, o: Outcome)
    requires Valid(t) && t != Nil && !IsLeaf(t) && HasSlot(t, i) && InRange(t, i, x)
    requires InsSpec(Child(t, i), x, o)
    requires o.Split? ==> o.tree != Nil && o.sibling != Nil
    ensures InsSpec(t, x, Absorb(t, i, x, o))
  {
    RouteMembership(t, i, x);
    match o
    case AlreadyThere =>
    case Fit(c') =>
      FitValid(t, i, x, c');
    case Split(l, m, s) =>
      if t.Two? {
        PromoteIntoTwoValid(t, i, x, l, m, s);
      } else {
        SplitInteriorValid(t, i, x, l, m, s);
      }
  }

  /** Putting back a child that took x keeps the node valid. */
  lemma FitValid(t: Tree, i: int, x: int, n: Tree)
    requires Valid(t) && HasSlot(t, i) && InRange(t, i, x)
    requires Valid(n) && Height(n) == Height(Child(t, i)) && Keys(n) == Keys(Child(t, i)) + {x}
    ensures Valid(WithChild(t, i, n)) && Height(WithChild(t, i, n)) == Height(t)
    ensures Keys(WithChild(t, i, n)) == Keys(t) + {x}
  {
    if t.Two? {
      FitTwo(t, i, x, n);
    } else {
      FitThree(t, i, x, n);
    }
  }

  lemma FitTwo(t: Tree, i: int, x: int, n: Tree)
    requires t.Two? && Valid(t) && HasSlot(t, i) && InRange(t, i, x)
    requires Valid(n) && Height(n) == Height(Child(t, i)) && Keys(n) == Keys(Child(t, i)) + {x}
    ensures Valid(WithChild(t, i, n)) && Height(WithChild(t, i, n)) == Height(t)
    ensures Keys(WithChild(t, i, n)) == Keys(t) + {x}
  {
    var k1 := t.firstInfo;
    GrowBounds(Keys(Child(t, i)), x, k1, k1, i == 1, i == 2);
  }

  lemma FitThree(t: Tree, i: int, x: int, n: Tree)
    requires t.Three? && Valid(t) && HasSlot(t, i) && InRange(t, i, x)
    requires Valid(n) && Height(n) == Height(Child(t, i)) && Keys(n) == Keys(Child(t, i)) + {x}
    ensures Valid(WithChild(t, i, n)) && Height(WithChild(t, i, n)) == Height(t)
    ensures Keys(WithChild(t, i, n)) == Keys(t) + {x}
  {
    var lo := if i == 3 then t.secondInfo else t.firstInfo;
    var hi := if i == 1 then t.firstInfo else t.secondInfo;
    GrowBounds(Keys(Child(t, i)), x, lo, hi, i != 3, i != 1);
  }

  /** add: a one-key root for an empty tree (case 1); false and no change
      for a key already present (case 2); otherwise the key is added, and a
      split that reaches the root makes a new root above it (case A). */
  function Add(t: Tree, x: int): (r: (Tree, bool))
    requires Valid(t)
    ensures Valid(r.0)
    ensures r.1 <==> x !in Keys(t)
    ensures !r.1 ==> r.0 == t
    ensures Keys(r.0) == Keys(t) + {x}
    ensures t == Nil ==> r.0 == Two(Nil, x, Nil)
    ensures r.1 && t != Nil ==> Height(r.0) == Height(t) || Height(r.0) == Height(t) + 1
  {
    if t == Nil then (Two(Nil, x, Nil), true)
    else
      InsCorrect(t, x);
      match Ins(t, x)
      case AlreadyThere => (t, false)
      case Fit(t') => (t', true)
      case Split(l, m, s) => (Two(l, m, s), true)
  }

  /** A split that reaches the root grows the tree by one level, and only
      then does the height change. */
  lemma RootSplitGrows(t: Tree, x: int)
    requires Valid(t) && t != Nil
    ensures Ins(t, x).Split? ==>
      (Add(t, x).0 == Two(Ins(t, x).tree, Ins(t, x).middle, Ins(t, x).sibling)
       && Height(Add(t, x).0) == Height(t) + 1)
    ensures !Ins(t, x).Split? ==> Height(Add(t, x).0) == Height(t)
  {
    InsCorrect(t, x);
  }

  /** The tree built by adding the keys in order to an empty tree. */
  function Build(xs: seq<int>): (t: Tree)
    ensures Valid(t)
  {
    if xs == [] then Nil else Add(Build(xs[..|xs| - 1]), xs[|xs| - 1]).0
  }

  /** The built tree holds exactly the keys added. */
  lemma {:induction false} BuildKeys(xs: seq<int>)
    ensures Keys(Build(xs)) == AddedKeys(xs)
    ensures forall k :: k in Keys(Build(xs)) <==> k in xs
  {
    if xs != [] {
      BuildKeys(xs[..|xs| - 1]);
    }
    AddedKeysMembers(xs);
  }

  // ---------------------------------------------------------------------
  // Traversal
  // ---------------------------------------------------------------------

  /** RecInOrderTrFtn: both info fields of every node are processed, so a
      one-key node also yields its empty second slot (printed as 0 by the
      driver); here an empty slot is None. */
  function Traversal(t: Tree): seq<Option<int>>
  {
    match t
    case Nil => []
    case Two(a, k1, b) => Traversal(a) + [Some(k1)] + Traversal(b) + [None]
    case Three(a, k1, b, k2, c) => Traversal(a) + [Some(k1)] + Traversal(b) + [Some(k2)] + Traversal(c)
  }

  /** The filled slots of a traversal, in order. */
  function Present(s: seq<Option<int>>): seq<int>
  {
    if s == [] then []
    else (if s[0].Some? then [s[0].value] else []) + Present(s[1..])
  }

  lemma {:induction false} PresentAppend(s: seq<Option<int>>, u: seq<Option<int>>)
    ensures Present(s + u) == Present(s) + Present(u)
  {
    if s == [] {
      assert s + u == u;
    } else {
      assert (s + u)[0] == s[0];
      assert (s + u)[1..] == s[1..] + u;
      PresentAppend(s[1..], u);
    }
  }

  lemma PresentOne(o: Option<int>)
    ensures Present([o]) == if o.Some? then [o.value] else []
  {
    assert [o][1..] == [];
  }

  /** Skipping the empty slots, the traversal is the in-order key sequence. */
  lemma {:induction false} TraversalPresent(t: Tree)
    ensures Present(Traversal(t)) == InOrder(t)
  {
    match t
    case Nil =>
    case Two(a, k1, b) =>
      TraversalPresent(a); TraversalPresent(b);
      PresentOne(Some(k1)); PresentOne(None);
      var s1 := Traversal(a) + [Some(k1)];
      var s2 := s1 + Traversal(b);
      PresentAppend(Traversal(a), [Some(k1)]);
      PresentAppend(s1, Traversal(b));
      PresentAppend(s2, [None]);
    case Three(a, k1, b, k2, c) =>
      TraversalPresent(a); TraversalPresent(b); TraversalPresent(c);
      PresentOne(Some(k1)); PresentOne(Some(k2));
      var s1 := Traversal(a) + [Some(k1)];
      var s2 := s1 + Traversal(b);
      var s3 := s2 + [Some(k2)];
      PresentAppend(Traversal(a), [Some(k1)]);
      PresentAppend(s1, Traversal(b));
      PresentAppend(s2, [Some(k2)]);
      PresentAppend(s3, Traversal(c));
  }

  /** The in-order key sequence lists exactly the keys, ascending. */
  lemma {:induction false} InOrderSorted(t: Tree)
    requires Ordered(t)
    ensures StrictlySorted(InOrder(t))
    ensures forall y :: y in InOrder(t) <==> y in Keys(t)
  {
    match t
    case Nil =>
    case Two(a, k1, b) =>
      InOrderSorted(a); InOrderSorted(b);
      JoinTraversals(InOrder(a), Keys(a), k1, InOrder(b), Keys(b));
    case Three(a, k1, b, k2, c) =>
      InOrderSorted(a); InOrderSorted(b); InOrderSorted(c);
      JoinTraversals(InOrder(a), Keys(a), k1, InOrder(b), Keys(b));
      BelowJoin(Keys(a), k1, Keys(b), k2);
      JoinTraversals(InOrder(a) + [k1] + InOrder(b), Keys(a) + {k1} + Keys(b), k2, InOrder(c), Keys(c));
  }

  // ---------------------------------------------------------------------
  // The driver's first additions
  // ---------------------------------------------------------------------

  /** Adding 190 and then 30 gives the leaf root [30 190] (case 5). */
  lemma FirstTwoAdds()
    ensures Build([190, 30]) == Three(Nil, 30, Nil, 190, Nil)
  {
    assert [190, 30][..1] == [190];
    assert [190][..0] == [];
    assert Build([190]) == Two(Nil, 190, Nil);
  }

  /** Adding 100 to the full leaf root [30 190] splits it (case 3) and makes
      a new root 100 above the halves (case A). */
  lemma ThirdAdd()
    ensures Add(Build([190, 30]), 100).0 == Two(Two(Nil, 30, Nil), 100, Two(Nil, 190, Nil))
  {
    FirstTwoAdds();
    var t2 := Build([190, 30]);
    assert Ins(t2, 100) == LeafAdd(t2, 100);
  }

  /** The traversal of the three-key tree shows each empty second slot. */
  lemma ThreeAddsTraversal(t: Tree)
    requires t == Two(Two(Nil, 30, Nil), 100, Two(Nil, 190, Nil))
    ensures Traversal(t) == [Some(30), None, Some(100), Some(190), None, None]
  {
    assert Traversal(t.first) == [Some(30), None];
    assert Traversal(t.second) == [Some(190), None];
  }

  /** Adding 190, 30, 100 splits the leaf [30 190] and makes root 100; the
      traversal shows each empty second slot. */
  lemma FirstThreeAdds()
    ensures Build([190, 30, 100]) == Two(Two(Nil, 30, Nil), 100, Two(Nil, 190, Nil))
    ensures Traversal(Build([190, 30, 100]))
         == [Some(30), None, Some(100), Some(190), None, None]
  {
    assert [190, 30, 100][..2] == [190, 30];
    ThirdAdd();
    ThreeAddsTraversal(Build([190, 30, 100]));
  }
}
