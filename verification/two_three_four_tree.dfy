/** The top-down 2-3-4 tree of cs232_Lab8_2020 over integer keys.

    The source marks empty key slots with a NULL key and uses an unusual
    child layout: a 2-node keeps its children in firstChild and fourthChild,
    a 3-node in firstChild, secondChild and fourthChild. Here each arity is
    its own constructor and the child fields keep the source's slot names,
    so "slot 4" is always the last child. Insertion descends from the root,
    splitting every 4-node it meets into its parent, and lands in a leaf. */
module TwoThreeFourTree {
  import opened OrderedKeys

  datatype Tree =
    | Nil
    | Two(first: Tree, firstInfo: int, fourth: Tree)
    | Three(first: Tree, firstInfo: int, second: Tree, secondInfo: int, fourth: Tree)
    | Four(first: Tree, firstInfo: int, second: Tree, secondInfo: int, third: Tree, thirdInfo: int,
           fourth: Tree)

  // ---------------------------------------------------------------------
  // Contents and invariants
  // ---------------------------------------------------------------------

  /** The keys held in the node itself, in slot order. */
  function NodeKeys(t: Tree): seq<int>
  {
    match t
    case Nil => []
    case Two(_, k1, _) => [k1]
    case Three(_, k1, _, k2, _) => [k1, k2]
    case Four(_, k1, _, k2, _, k3, _) => [k1, k2, k3]
  }

  /** Every key of the tree. */
  function Keys(t: Tree): set<int>
  {
    match t
    case Nil => {}
    case Two(a, k1, d) => Keys(a) + {k1} + Keys(d)
    case Three(a, k1, b, k2, d) => Keys(a) + {k1} + Keys(b) + {k2} + Keys(d)
    case Four(a, k1, b, k2, c, k3, d) => Keys(a) + {k1} + Keys(b) + {k2} + Keys(c) + {k3} + Keys(d)
  }

  /** inord / inOrderTrav: the keys in symmetric order. */
  function InOrder(t: Tree): seq<int>
  {
    match t
    case Nil => []
    case Two(a, k1, d) => InOrder(a) + [k1] + InOrder(d)
    case Three(a, k1, b, k2, d) => InOrder(a) + [k1] + InOrder(b) + [k2] + InOrder(d)
    case Four(a, k1, b, k2, c, k3, d) =>
      InOrder(a) + [k1] + InOrder(b) + [k2] + InOrder(c) + [k3] + InOrder(d)
  }

  /** Height along the first child (every path, in a balanced tree). */
  function Height(t: Tree): nat
  {
    match t
    case Nil => 0
    case Two(a, _, _) => 1 + Height(a)
    case Three(a, _, _, _, _) => 1 + Height(a)
    case Four(a, _, _, _, _, _, _) => 1 + Height(a)
  }

  /** All leaves at one depth; hence a node's children are all empty or all
      present. */
  predicate Balanced(t: Tree)
  {
    match t
    case Nil => true
    case Two(a, _, d) => Balanced(a) && Balanced(d) && Height(a) == Height(d)
    case Three(a, _, b, _, d) =>
      Balanced(a) && Balanced(b) && Balanced(d) && Height(a) == Height(b) == Height(d)
    case Four(a, _, b, _, c, _, d) =>
      Balanced(a) && Balanced(b) && Balanced(c) && Balanced(d)
      && Height(a) == Height(b) == Height(c) == Height(d)
  }

  /** Number of key slots in use; the descent's termination measure. */
  function Size(t: Tree): nat
  {
    match t
    case Nil => 0
    case Two(a, _, d) => 1 + Size(a) + Size(d)
    case Three(a, _, b, _, d) => 2 + Size(a) + Size(b) + Size(d)
    case Four(a, _, b, _, c, _, d) => 3 + Size(a) + Size(b) + Size(c) + Size(d)
  }

  /** The search-tree order: each key separates the subtrees around it. */
  predicate Ordered(t: Tree)
  {
    match t
    case Nil => true
    case Two(a, k1, d) =>
      Ordered(a) && Ordered(d) && AllBelow(Keys(a), k1) && AllAbove(Keys(d), k1)
    case Three(a, k1, b, k2, d) =>
      Ordered(a) && Ordered(b) && Ordered(d) && k1 < k2
      && AllBelow(Keys(a), k1) && AllAbove(Keys(b), k1) && AllBelow(Keys(b), k2)
      && AllAbove(Keys(d), k2)
    case Four(a, k1, b, k2, c, k3, d) =>
      Ordered(a) && Ordered(b) && Ordered(c) && Ordered(d) && k1 < k2 < k3
      && AllBelow(Keys(a), k1) && AllAbove(Keys(b), k1) && AllBelow(Keys(b), k2)
      && AllAbove(Keys(c), k2) && AllBelow(Keys(c), k3) && AllAbove(Keys(d), k3)
  }

  predicate Valid(t: Tree)
  {
    Balanced(t) && Ordered(t)
  }

  // ---------------------------------------------------------------------
  // Node helpers
  // ---------------------------------------------------------------------

  /** nodeType: 2, 3 or 4 by the number of filled key slots. */
  function NodeType(t: Tree): (n: int)
    requires t != Nil
    ensures n == |NodeKeys(t)| + 1
  {
    match t
    case Two(_, _, _) => 2
    case Three(_, _, _, _, _) => 3
    case Four(_, _, _, _, _, _, _) => 4
  }

  /** leafNode: a node whose four child slots are all empty; false for NULL. */
  predicate IsLeaf(t: Tree)
  {
    match t
    case Nil => false
    case Two(a, _, d) => a == Nil && d == Nil
    case Three(a, _, b, _, d) => a == Nil && b == Nil && d == Nil
    case Four(a, _, b, _, c, _, d) => a == Nil && b == Nil && c == Nil && d == Nil
  }

  /** The child slot numbers a node of this arity uses. */
  predicate HasSlot(t: Tree, w: int)
  {
    match t
    case Nil => false
    case Two(_, _, _) => w == 1 || w == 4
    case Three(_, _, _, _, _) => w == 1 || w == 2 || w == 4
    case Four(_, _, _, _, _, _, _) => 1 <= w <= 4
  }

  /** The child in slot w. */
  function Child(t: Tree, w: int): Tree
    requires HasSlot(t, w)
  {
    match t
    case Two(a, _, d) => if w == 1 then a else d
    case Three(a, _, b, _, d) => if w == 1 then a else if w == 2 then b else d
    case Four(a, _, b, _, c, _, d) => if w == 1 then a else if w == 2 then b else if w == 3 then c else d
  }

  lemma ChildSmaller(t: Tree, w: int)
    requires HasSlot(t, w)
    ensures Size(Child(t, w)) < Size(t)
  {
  }

  /** The node with the child in slot w replaced. */
  function WithChild(t: Tree, w: int, n: Tree): Tree
    requires HasSlot(t, w)
  {
    match t
    case Two(a, k1, d) => if w == 1 then Two(n, k1, d) else Two(a, k1, n)
    case Three(a, k1, b, k2, d) =>
      if w == 1 then Three(n, k1, b, k2, d)
      else if w == 2 then Three(a, k1, n, k2, d)
      else Three(a, k1, b, k2, n)
    case Four(a, k1, b, k2, c, k3, d) =>
      if w == 1 then Four(n, k1, b, k2, c, k3, d)
      else if w == 2 then Four(a, k1, n, k2, c, k3, d)
      else if w == 3 then Four(a, k1, b, k2, n, k3, d)
      else Four(a, k1, b, k2, c, k3, n)
  }

  /** x lies strictly between the node keys that bound slot w. */
  predicate InRange(t: Tree, w: int, x: int)
  {
    match t
    case Nil => false
    case Two(_, k1, _) => (w == 1 && x < k1) || (w == 4 && k1 < x)
    case Three(_, k1, _, k2, _) =>
      (w == 1 && x < k1) || (w == 2 && k1 < x < k2) || (w == 4 && k2 < x)
    case Four(_, k1, _, k2, _, k3, _) =>
      (w == 1 && x < k1) || (w == 2 && k1 < x < k2) || (w == 3 && k2 < x < k3) || (w == 4 && k3 < x)
  }

  /** whichChild: -1 when x equals a key of the node, 0 when the node is a
      leaf, otherwise the slot of the child whose key range holds x. */
  function WhichChild(t: Tree, x: int): (w: int)
    requires t != Nil
    ensures w == -1 <==> x in NodeKeys(t)
    ensures w == 0 <==> x !in NodeKeys(t) && IsLeaf(t)
    ensures w >= 1 <==> x !in NodeKeys(t) && !IsLeaf(t)
    ensures w >= 1 ==> HasSlot(t, w) && InRange(t, w, x)
  {
    match t
    case Two(_, k1, _) =>
      if x == k1 then -1
      else if IsLeaf(t) then 0
      else if x < k1 then 1
      else 4
    case Three(_, k1, _, k2, _) =>
      if k1 == x then -1
      else if k2 == x then -1
      else if IsLeaf(t) then 0
      else if x < k1 then 1
      else if x < k2 then 2
      else 4
    case Four(_, k1, _, k2, _, k3, _) =>
      if k1 == x then -1
      else if k2 == x then -1
      else if k3 == x then -1
      else if IsLeaf(t) then 0
      else if x < k1 then 1
      else if x < k2 then 2
      else if x < k3 then 3
      else 4
  }

  /** Ordered insertion into a sequence: before the first larger element. */
  function InsertSorted(s: seq<int>, x: int): seq<int>
  {
    if s == [] || x < s[0] then [x] + s else [s[0]] + InsertSorted(s[1..], x)
  }

  /** Insertion adds exactly the one key. */
  lemma {:induction false} InsertSortedElements(s: seq<int>, x: int)
    ensures multiset(InsertSorted(s, x)) == multiset(s) + multiset{x}
  {
    if s != [] && !(x < s[0]) {
      InsertSortedElements(s[1..], x);
      assert s == [s[0]] + s[1..];
    }
  }

  /** A key below the head of an ascending sequence extends it. */
  lemma ConsSorted(a: int, t: seq<int>)
    requires StrictlySorted(t) && (t == [] || a < t[0])
    ensures StrictlySorted([a] + t)
  {
    forall i, j | 0 <= i < j < |[a] + t| ensures ([a] + t)[i] < ([a] + t)[j] {
      if i > 0 {
        assert ([a] + t)[i] == t[i - 1];
      }
      assert ([a] + t)[j] == t[j - 1];
    }
  }

  /** Inserting a new key into an ascending sequence keeps it ascending. */
  lemma {:induction false} InsertSortedSorted(s: seq<int>, x: int)
    requires StrictlySorted(s) && x !in s
    ensures StrictlySorted(InsertSorted(s, x))
  {
    if s == [] || x < s[0] {
      ConsSorted(x, s);
    } else {
      var rest := s[1..];
      assert x !in rest;
      InsertSortedSorted(rest, x);
      var tail := InsertSorted(rest, x);
      assert tail[0] == x || tail[0] == rest[0];
      ConsSorted(s[0], tail);
    }
  }

  /** insertData: puts x among the keys of a 2- or 3-node, in order; the
      children are untouched. */
  function InsertData(t: Tree, x: int): (r: Tree)
    requires t.Two? || t.Three?
    ensures NodeKeys(r) == InsertSorted(NodeKeys(t), x)
    ensures IsLeaf(t) ==> IsLeaf(r) && Keys(r) == Keys(t) + {x}
  {
    match t
    case Two(a, k1, d) =>
      if x < k1 then Three(a, x, Nil, k1, d) else Three(a, k1, Nil, x, d)
    case Three(a, k1, b, k2, d) =>
      assert [k1, k2][1..] == [k2];
      if x < k1 then Four(a, x, b, k1, Nil, k2, d)
      else if x < k2 then Four(a, k1, b, x, Nil, k2, d)
      else
        assert [k2][1..] == [];
        assert InsertSorted([k2], x) == [k2, x];
        assert InsertSorted([k1, k2], x) == [k1] + InsertSorted([k2], x);
        Four(a, k1, b, k2, Nil, x, d)
  }

  // ---------------------------------------------------------------------
  // Splits
  // ---------------------------------------------------------------------

  /** splitRoot (case A): the middle key stays in the root, the first and
      third keys become its first and fourth children. */
  function SplitRoot(t: Tree): (r: Tree)
    requires t.Four?
    ensures r.Two? && r.first.Two? && r.fourth.Two?
    ensures NodeKeys(r) == [t.secondInfo]
    ensures NodeKeys(r.first) == [t.firstInfo] && NodeKeys(r.fourth) == [t.thirdInfo]
    ensures Keys(r) == Keys(t) && InOrder(r) == InOrder(t)
    ensures Valid(t) ==> Valid(r) && Height(r) == Height(t) + 1
  {
    Two(Two(t.first, t.firstInfo, t.second), t.secondInfo, Two(t.third, t.thirdInfo, t.fourth))
  }

  /** The split of a 4-node child in slot w of a 2- or 3-node parent: the
      child gives its middle key to the parent and becomes two 2-nodes on
      either side of it. */
  function SplitChild(p: Tree, w: int): (r: Tree)
    requires p.Two? || p.Three?
    requires HasSlot(p, w) && Child(p, w).Four?
    ensures r != Nil && NodeType(r) == NodeType(p) + 1
    ensures Keys(r) == Keys(p) && InOrder(r) == InOrder(p) && Size(r) == Size(p)
  {
    if p.Two? then SplitChildOf2(p, w) else SplitChildOf3(p, w)
  }

  /** The two halves a 4-node splits into. */
  function LeftHalf(q: Tree): Tree
    requires q.Four?
  {
    Two(q.first, q.firstInfo, q.second)
  }

  function RightHalf(q: Tree): Tree
    requires q.Four?
  {
    Two(q.third, q.thirdInfo, q.fourth)
  }

  lemma HalvesCover(q: Tree)
    requires q.Four?
    ensures Size(LeftHalf(q)) < Size(q) && Size(RightHalf(q)) < Size(q)
    ensures Keys(q) == Keys(LeftHalf(q)) + {q.secondInfo} + Keys(RightHalf(q))
    ensures InOrder(q) == InOrder(LeftHalf(q)) + [q.secondInfo] + InOrder(RightHalf(q))
  {
  }

  /** Concatenation regrouped: a 4-node's traversal spliced into its
      parent's. */
  lemma Regroup(x: seq<int>, l: seq<int>, m: seq<int>, h: seq<int>)
    ensures x + (l + m + h) == x + l + m + h
  {
  }

  /** splitChildOf2: case B1 (the first child splits) or B2 (the fourth). */
  function SplitChildOf2(p: Tree, w: int): (r: Tree)
    requires p.Two? && HasSlot(p, w) && Child(p, w).Four?
    ensures r.Three?
    ensures Keys(r) == Keys(p) && InOrder(r) == InOrder(p) && Size(r) == Size(p)
  {
    var q := Child(p, w);
    HalvesCover(q);
    if w == 1 then Three(LeftHalf(q), q.secondInfo, RightHalf(q), p.firstInfo, p.fourth)
    else Three(p.first, p.firstInfo, LeftHalf(q), q.secondInfo, RightHalf(q))
  }

  /** splitChildOf3: case C1 (first child), C2 (second) or C3 (fourth). */
  function SplitChildOf3(p: Tree, w: int): (r: Tree)
    requires p.Three? && HasSlot(p, w) && Child(p, w).Four?
    ensures r.Four?
    ensures Keys(r) == Keys(p) && InOrder(r) == InOrder(p) && Size(r) == Size(p)
  {
    var q := Child(p, w);
    HalvesCover(q);
    var Three(a, k1, b, k2, d) := p;
    if w == 1 then Four(LeftHalf(q), q.secondInfo, RightHalf(q), k1, b, k2, d)
    else if w == 2 then
      Regroup(InOrder(a) + [k1], InOrder(LeftHalf(q)), [q.secondInfo], InOrder(RightHalf(q)));
      Four(a, k1, LeftHalf(q), q.secondInfo, RightHalf(q), k2, d)
    else
      Regroup(InOrder(a) + [k1] + InOrder(b) + [k2], InOrder(LeftHalf(q)), [q.secondInfo],
              InOrder(RightHalf(q)));
      Four(a, k1, b, k2, LeftHalf(q), q.secondInfo, RightHalf(q))
  }

  /** The two halves of a valid 4-node are valid, as tall as the node, and
      lie on either side of its middle key. */
  lemma HalvesValid(q: Tree)
    requires q.Four? && Valid(q)
    ensures Valid(LeftHalf(q)) && Valid(RightHalf(q))
    ensures Height(LeftHalf(q)) == Height(q) && Height(RightHalf(q)) == Height(q)
    ensures AllBelow(Keys(LeftHalf(q)), q.secondInfo) && AllAbove(Keys(RightHalf(q)), q.secondInfo)
    ensures Keys(LeftHalf(q)) <= Keys(q) && Keys(RightHalf(q)) <= Keys(q) && q.secondInfo in Keys(q)
  {
  }

  /** Cases B1 and B2 keep the tree valid and its height. */
  lemma SplitChildOf2Valid(p: Tree, w: int)
    requires p.Two? && HasSlot(p, w) && Child(p, w).Four? && Valid(p)
    ensures Valid(SplitChildOf2(p, w)) && Height(SplitChildOf2(p, w)) == Height(p)
  {
    HalvesValid(Child(p, w));
  }

  /** Cases C1, C2 and C3 keep the tree valid and its height. */
  lemma SplitChildOf3Valid(p: Tree, w: int)
    requires p.Three? && HasSlot(p, w) && Child(p, w).Four? && Valid(p)
    ensures Valid(SplitChildOf3(p, w)) && Height(SplitChildOf3(p, w)) == Height(p)
  {
    HalvesValid(Child(p, w));
  }

  /** A split keeps the tree valid and its height. */
  lemma SplitChildValid(p: Tree, w: int)
    requires p.Two? || p.Three?
    requires HasSlot(p, w) && Child(p, w).Four?
    requires Valid(p)
    ensures Valid(SplitChild(p, w)) && Height(SplitChild(p, w)) == Height(p)
  {
    if p.Two? {
      SplitChildOf2Valid(p, w);
    } else {
      SplitChildOf3Valid(p, w);
    }
  }

  /** After a split, the key that chose slot w is either the promoted key or
      routed into one of the two new 2-nodes. */
  lemma SplitRoutesIntoHalf(p: Tree, w: int, x: int)
    requires p.Two? || p.Three?
    requires HasSlot(p, w) && Child(p, w).Four?
    requires Ordered(p) && InRange(p, w, x)
    ensures WhichChild(SplitChild(p, w), x) != 0
    ensures WhichChild(SplitChild(p, w), x) == -1 <==> x == Child(p, w).secondInfo
    ensures WhichChild(SplitChild(p, w), x) >= 1 ==>
      var c := Child(SplitChild(p, w), WhichChild(SplitChild(p, w), x));
      c == LeftHalf(Child(p, w)) || c == RightHalf(Child(p, w))
  {
    var q := Child(p, w);
    var r := SplitChild(p, w);
    assert !IsLeaf(r);
    match p
    case Two(a, k1, d) =>
      if w == 1 {
        assert NodeKeys(r) == [q.secondInfo, k1];
      } else {
        assert NodeKeys(r) == [k1, q.secondInfo];
      }
    case Three(a, k1, b, k2, d) =>
      if w == 1 {
        assert NodeKeys(r) == [q.secondInfo, k1, k2];
      } else if w == 2 {
        assert NodeKeys(r) == [k1, q.secondInfo, k2];
      } else {
        assert NodeKeys(r) == [k1, k2, q.secondInfo];
        assert r == Four(a, k1, b, k2, LeftHalf(q), q.secondInfo, RightHalf(q));
        assert x < q.secondInfo ==> WhichChild(r, x) == 3;
        assert q.secondInfo < x ==> WhichChild(r, x) == 4;
      }
  }

  // ---------------------------------------------------------------------
  // Insertion
  // ---------------------------------------------------------------------

  /** Replacing the child on x's route by one that holds x as well. */
  lemma WithChildValid(p: Tree, w: int, n: Tree, x: int)
    requires p != Nil && Valid(p) && HasSlot(p, w) && InRange(p, w, x)
    requires Valid(n) && Height(n) == Height(Child(p, w)) && Keys(n) == Keys(Child(p, w)) + {x}
    ensures Valid(WithChild(p, w, n)) && Height(WithChild(p, w, n)) == Height(p)
    ensures Keys(WithChild(p, w, n)) == Keys(p) + {x}
  {
    match p
    case Two(_, _, _) => WithChildOf2Valid(p, w, n, x);
    case Three(_, _, _, _, _) => WithChildOf3Valid(p, w, n, x);
    case Four(_, _, _, _, _, _, _) => WithChildOf4Valid(p, w, n, x);
  }

  lemma WithChildOf2Valid(p: Tree, w: int, n: Tree, x: int)
    requires p.Two? && Valid(p) && HasSlot(p, w) && InRange(p, w, x)
    requires Valid(n) && Height(n) == Height(Child(p, w)) && Keys(n) == Keys(Child(p, w)) + {x}
    ensures Valid(WithChild(p, w, n)) && Height(WithChild(p, w, n)) == Height(p)
    ensures Keys(WithChild(p, w, n)) == Keys(p) + {x}
  {
    var Two(a, k1, d) := p;
    GrowBounds(Keys(Child(p, w)), x, k1, k1, w == 1, w == 4);
  }

  lemma WithChildOf3Valid(p: Tree, w: int, n: Tree, x: int)
    requires p.Three? && Valid(p) && HasSlot(p, w) && InRange(p, w, x)
    requires Valid(n) && Height(n) == Height(Child(p, w)) && Keys(n) == Keys(Child(p, w)) + {x}
    ensures Valid(WithChild(p, w, n)) && Height(WithChild(p, w, n)) == Height(p)
    ensures Keys(WithChild(p, w, n)) == Keys(p) + {x}
  {
    var Three(a, k1, b, k2, d) := p;
    var lo := if w == 4 then k2 else k1;
    var hi := if w == 1 then k1 else k2;
    GrowBounds(Keys(Child(p, w)), x, lo, hi, w != 4, w != 1);
  }

  lemma WithChildOf4Valid(p: Tree, w: int, n: Tree, x: int)
    requires p.Four? && Valid(p) && HasSlot(p, w) && InRange(p, w, x)
    requires Valid(n) && Height(n) == Height(Child(p, w)) && Keys(n) == Keys(Child(p, w)) + {x}
    ensures Valid(WithChild(p, w, n)) && Height(WithChild(p, w, n)) == Height(p)
    ensures Keys(WithChild(p, w, n)) == Keys(p) + {x}
  {
    var Four(a, k1, b, k2, c, k3, d) := p;
    var lo := if w == 2 then k1 else if w == 3 then k2 else k3;
    var hi := if w == 1 then k1 else if w == 2 then k2 else k3;
    GrowBounds(Keys(Child(p, w)), x, lo, hi, w != 4, w != 1);
  }

  /** In an ordered node, a key that routes to slot w is in the tree exactly
      when it is in that child. */
  lemma RouteMembership(p: Tree, w: int, x: int)
    requires Ordered(p) && HasSlot(p, w) && InRange(p, w, x)
    ensures x in Keys(p) <==> x in Keys(Child(p, w))
  {
  }

  /** Three keys ascend exactly when each is below the next. */
  lemma SortedTriple(a: int, b: int, c: int)
    ensures StrictlySorted([a, b, c]) <==> a < b < c
  {
    var ks := [a, b, c];
    if a < b < c {
      forall i, j | 0 <= i < j < 3 ensures ks[i] < ks[j] {
      }
    } else {
      assert !(ks[0] < ks[1]) || !(ks[1] < ks[2]);
    }
  }

  /** A leaf is ordered exactly when its keys ascend. */
  lemma LeafOrdered(t: Tree)
    requires IsLeaf(t)
    ensures Ordered(t) <==> StrictlySorted(NodeKeys(t))
  {
    match t
    case Two(_, _, _) =>
    case Three(_, k1, _, k2, _) =>
      assert StrictlySorted([k1, k2]) <==> [k1, k2][0] < [k1, k2][1];
    case Four(_, k1, _, k2, _, k3, _) =>
      SortedTriple(k1, k2, k3);
  }

  /** insertData on a leaf on x's route keeps the tree valid. */
  lemma InsertDataValid(p: Tree, x: int)
    requires (p.Two? || p.Three?) && IsLeaf(p) && Valid(p) && x !in NodeKeys(p)
    ensures Valid(InsertData(p, x)) && Height(InsertData(p, x)) == Height(p)
  {
    LeafOrdered(p);
    InsertSortedSorted(NodeKeys(p), x);
    LeafOrdered(InsertData(p, x));
  }

  /** The descent loop of add from a node p that is not a 4-node: the route
      is chosen by whichChild; the key is put into the leaf the route ends
      in, or reported present. */
  function Descend(p: Tree, x: int): (r: (Tree, bool))
    requires p.Two? || p.Three?
    requires Valid(p)
    ensures Valid(r.0) && r.0 != Nil && Height(r.0) == Height(p)
    ensures r.1 <==> x !in Keys(p)
    ensures Keys(r.0) == Keys(p) + {x}
    decreases Size(p), 2
  {
    var w := WhichChild(p, x);
    if w == -1 then (p, false)
    else if w == 0 then
      InsertDataValid(p, x);
      (InsertData(p, x), true)
    else if Child(p, w).Four? then DescendSplitting(p, w, x)
    else DescendInto(p, w, x)
  }

  /** A 4-node child on the route is split into p first (cases B and C), and
      the route is chosen again in the grown parent. */
  function DescendSplitting(p: Tree, w: int, x: int): (r: (Tree, bool))
    requires p.Two? || p.Three?
    requires Valid(p) && HasSlot(p, w) && InRange(p, w, x) && Child(p, w).Four?
    ensures Valid(r.0) && r.0 != Nil && Height(r.0) == Height(p)
    ensures r.1 <==> x !in Keys(p)
    ensures Keys(r.0) == Keys(p) + {x}
    decreases Size(p), 1
  {
    var p' := SplitChild(p, w);
    SplitChildValid(p, w);
    SplitRoutesIntoHalf(p, w, x);
    var w' := WhichChild(p', x);
    if w' == -1 then (p', false)
    else
      HalvesCover(Child(p, w));
      DescendInto(p', w', x)
  }

  /** Following the route into a 2- or 3-node child and putting the result
      back into its slot. */
  function DescendInto(p: Tree, w: int, x: int): (r: (Tree, bool))
    requires Valid(p) && HasSlot(p, w) && InRange(p, w, x)
    requires Child(p, w).Two? || Child(p, w).Three?
    ensures Valid(r.0) && r.0 != Nil && Height(r.0) == Height(p)
    ensures r.1 <==> x !in Keys(p)
    ensures Keys(r.0) == Keys(p) + {x}
    decreases Size(p), 0
  {
    RouteMembership(p, w, x);
    ChildSmaller(p, w);
    var (n, added) := Descend(Child(p, w), x);
    WithChildValid(p, w, n, x);
    (WithChild(p, w, n), added)
  }

  /** add: a new root for an empty tree; otherwise a 4-node root is split
      and the descent follows. Returns false, adding nothing, when an equal
      key is present. */
  function Add(t: Tree, x: int): (r: (Tree, bool))
    requires Valid(t)
    ensures Valid(r.0)
    ensures r.1 <==> x !in Keys(t)
    ensures Keys(r.0) == Keys(t) + {x}
    ensures t == Nil ==> r == (Two(Nil, x, Nil), true)
    ensures t != Nil && !t.Four? ==> Height(r.0) == Height(t)
    ensures t.Four? ==> Height(r.0) == Height(t) + 1
  {
    if t == Nil then (Two(Nil, x, Nil), true)
    else if t.Four? then Descend(SplitRoot(t), x)
    else Descend(t, x)
  }

  /** The tree built by adding the keys in order to an empty tree. */
  function Build(xs: seq<int>): (t: Tree)
    ensures Valid(t)
  {
    if xs == [] then Nil else Add(Build(xs[..|xs| - 1]), xs[|xs| - 1]).0
  }

  /** The built tree holds exactly the keys added. */
  lemma {:induction false} BuildKeys(xs: seq<int>)
    ensures Keys(Build(xs)) == AddedKeys(xs)
    ensures forall k :: k in Keys(Build(xs)) <==> k in xs
  {
    if xs != [] {
      BuildKeys(xs[..|xs| - 1]);
    }
    AddedKeysMembers(xs);
  }

  // ---------------------------------------------------------------------
  // Search and traversal
  // ---------------------------------------------------------------------

  /** privSearch / search. */
  function Search(t: Tree, x: int): (found: bool)
    ensures Ordered(t) ==> (found <==> x in Keys(t))
  {
    match t
    case Nil => false
    case Two(a, k1, d) =>
      if x == k1 then true
      else if x < k1 then Search(a, x)
      else Search(d, x)
    case Three(a, k1, b, k2, d) =>
      if x == k1 then true
      else if x < k1 then Search(a, x)
      else if x == k2 then true
      else if x < k2 then Search(b, x)
      else Search(d, x)
    case Four(a, k1, b, k2, c, k3, d) =>
      if x == k1 then true
      else if x < k1 then Search(a, x)
      else if x == k2 then true
      else if x < k2 then Search(b, x)
      else if x == k3 then true
      else if x < k3 then Search(c, x)
      else Search(d, x)
  }

  /** The in-order traversal lists exactly the keys, ascending. */
  lemma {:induction false} InOrderSorted(t: Tree)
    requires Ordered(t)
    ensures StrictlySorted(InOrder(t))
    ensures forall y :: y in InOrder(t) <==> y in Keys(t)
  {
    match t
    case Nil =>
    case Two(a, k1, d) =>
      InOrderSorted(a); InOrderSorted(d);
      JoinTraversals(InOrder(a), Keys(a), k1, InOrder(d), Keys(d));
    case Three(a, k1, b, k2, d) =>
      InOrderSorted(a); InOrderSorted(b); InOrderSorted(d);
      ThreeJoin(t);
    case Four(a, k1, b, k2, c, k3, d) =>
      InOrderSorted(a); InOrderSorted(b); InOrderSorted(c); InOrderSorted(d);
      FourJoin(t);
  }

  /** Three ascending traversals separated by k1 < k2 join into one. */
  lemma JoinThreeTraversals(sa: seq<int>, ka: set<int>, k1: int, sb: seq<int>, kb: set<int>,
                            k2: int, sc: seq<int>, kc: set<int>)
    requires StrictlySorted(sa) && StrictlySorted(sb) && StrictlySorted(sc)
    requires forall y :: y in sa <==> y in ka
    requires forall y :: y in sb <==> y in kb
    requires forall y :: y in sc <==> y in kc
    requires k1 < k2 && AllBelow(ka, k1) && AllAbove(kb, k1) && AllBelow(kb, k2) && AllAbove(kc, k2)
    ensures StrictlySorted(sa + [k1] + sb + [k2] + sc)
    ensures forall y :: y in sa + [k1] + sb + [k2] + sc <==> y in ka + {k1} + kb + {k2} + kc
    ensures forall y :: y in sa + [k1] + sb + [k2] + sc ==> y < k2 || y == k2 || y in kc
  {
    JoinTraversals(sa, ka, k1, sb, kb);
    assert AllBelow(ka + {k1} + kb, k2);
    JoinTraversals(sa + [k1] + sb, ka + {k1} + kb, k2, sc, kc);
  }

  /** The Three case of InOrderSorted, once the children's traversals are
      known to be sorted and complete. */
  lemma ThreeJoin(t: Tree)
    requires t.Three? && Ordered(t)
    requires StrictlySorted(InOrder(t.first)) && StrictlySorted(InOrder(t.second))
    requires StrictlySorted(InOrder(t.fourth))
    requires forall y :: y in InOrder(t.first) <==> y in Keys(t.first)
    requires forall y :: y in InOrder(t.second) <==> y in Keys(t.second)
    requires forall y :: y in InOrder(t.fourth) <==> y in Keys(t.fourth)
    ensures StrictlySorted(InOrder(t))
    ensures forall y :: y in InOrder(t) <==> y in Keys(t)
  {
    var Three(a, k1, b, k2, d) := t;
    JoinThreeTraversals(InOrder(a), Keys(a), k1, InOrder(b), Keys(b), k2, InOrder(d), Keys(d));
  }

  /** The Four case of InOrderSorted, once the children's traversals are
      known to be sorted and complete. */
  lemma FourJoin(t: Tree)
    requires t.Four? && Ordered(t)
    requires StrictlySorted(InOrder(t.first)) && StrictlySorted(InOrder(t.second))
    requires StrictlySorted(InOrder(t.third)) && StrictlySorted(InOrder(t.fourth))
    requires forall y :: y in InOrder(t.first) <==> y in Keys(t.first)
    requires forall y :: y in InOrder(t.second) <==> y in Keys(t.second)
    requires forall y :: y in InOrder(t.third) <==> y in Keys(t.third)
    requires forall y :: y in InOrder(t.fourth) <==> y in Keys(t.fourth)
    ensures StrictlySorted(InOrder(t))
    ensures forall y :: y in InOrder(t) <==> y in Keys(t)
  {
    var Four(a, k1, b, k2, c, k3, d) := t;
    var sabc := InOrder(a) + [k1] + InOrder(b) + [k2] + InOrder(c);
    var kabc := Keys(a) + {k1} + Keys(b) + {k2} + Keys(c);
    JoinThreeTraversals(InOrder(a), Keys(a), k1, InOrder(b), Keys(b), k2, InOrder(c), Keys(c));
    assert AllBelow(kabc, k3) by {
      forall y | y in kabc ensures y < k3 {
        assert y in sabc;
      }
    }
    JoinTraversals(sabc, kabc, k3, InOrder(d), Keys(d));
  }

  // ---------------------------------------------------------------------
  // Consequences
  // ---------------------------------------------------------------------

  /** A duplicate add reports false and keeps the key set, but the root
      split it performs first stays: the shape can change. */
  lemma DuplicateAddMayReshape()
    ensures Add(Four(Nil, 50, Nil, 60, Nil, 70, Nil), 60)
         == (Two(Two(Nil, 50, Nil), 60, Two(Nil, 70, Nil)), false)
  {
  }

  /** A leaf lists its own keys. */
  lemma LeafInOrder(t: Tree)
    requires IsLeaf(t)
    ensures InOrder(t) == NodeKeys(t)
  {
  }

  /** Adding 60 and 50 to an empty tree gives the 3-node [50 60]. */
  lemma FirstTwoAdds()
    ensures Build([60, 50]) == Three(Nil, 50, Nil, 60, Nil)
  {
    assert [60, 50][..1] == [60];
    assert [60][..0] == [];
    assert Build([60]) == Two(Nil, 60, Nil);
  }

  /** Adding 70 next fills the root to the 4-node [50 60 70]. */
  lemma FirstThreeAdds()
    ensures Build([60, 50, 70]) == Four(Nil, 50, Nil, 60, Nil, 70, Nil)
  {
    assert [60, 50, 70][..2] == [60, 50];
    FirstTwoAdds();
  }

  /** Adding 40 to the full root [50 60 70] splits it first; 40 then lands
      in the leaf [50]. */
  lemma FourthAdd()
    ensures Add(Build([60, 50, 70]), 40).0 == Two(Three(Nil, 40, Nil, 50, Nil), 60, Two(Nil, 70, Nil))
  {
    FirstThreeAdds();
    var t3 := Build([60, 50, 70]);
    var root := SplitRoot(t3);
    assert root == Two(Two(Nil, 50, Nil), 60, Two(Nil, 70, Nil));
    assert WhichChild(root, 40) == 1;
    var leaf := Child(root, 1);
    assert WhichChild(leaf, 40) == 0;
  }

  /** The tree of the four adds lists its keys in ascending order. */
  lemma FourAddsInOrder(t: Tree)
    requires t == Two(Three(Nil, 40, Nil, 50, Nil), 60, Two(Nil, 70, Nil))
    ensures InOrder(t) == [40, 50, 60, 70]
  {
    LeafInOrder(t.first);
    LeafInOrder(t.fourth);
    assert InOrder(t) == [40, 50] + [60] + [70];
  }

  /** Adding 60, 50, 70, 40 gives root 60 with children [40 50] and [70]. */
  lemma FirstFourAdds()
    ensures Build([60, 50, 70, 40]) == Two(Three(Nil, 40, Nil, 50, Nil), 60, Two(Nil, 70, Nil))
    ensures InOrder(Build([60, 50, 70, 40])) == [40, 50, 60, 70]
  {
    assert [60, 50, 70, 40][..3] == [60, 50, 70];
    FourthAdd();
    FourAddsInOrder(Build([60, 50, 70, 40]));
  }
}
