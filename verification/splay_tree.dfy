/** The bottom-up splay tree of cs232_Lab7_2020 over integer keys.

    The source keeps parent pointers and rotates a node `p` above its
    parent. Here a node is addressed by its path from the root, and the
    rotation that lifts the node at `P + [d]` into position `P` rewrites
    the subtree at `P`; continueRotation's re-linking of the grandparent
    (or of the root) is the `Replace` of that subtree. */
module SplayTree {
  import opened Wrappers

  datatype Tree = Leaf | Node(left: Tree, key: int, right: Tree)

  /** A step from a node to its left or right child. */
  datatype Dir = Left | Right

  /** InOrder: the keys in symmetric order. */
  function InOrder(t: Tree): seq<int>
  {
    match t
    case Leaf => []
    case Node(a, k, b) => InOrder(a) + [k] + InOrder(b)
  }

  /** Non-decreasing: equal keys are allowed, since insert sends a
      duplicate to the right. */
  predicate Sorted(s: seq<int>)
  {
    forall i, j :: 0 <= i < j < |s| ==> s[i] <= s[j]
  }

  // ---------------------------------------------------------------------
  // Paths
  // ---------------------------------------------------------------------

  function Child(t: Tree, d: Dir): Tree
    requires t.Node?
  {
    if d == Left then t.left else t.right
  }

  predicate ValidPath(t: Tree, p: seq<Dir>)
  {
    p == [] || (t.Node? && ValidPath(Child(t, p[0]), p[1..]))
  }

  /** The subtree at the end of a path. */
  function At(t: Tree, p: seq<Dir>): Tree
    requires ValidPath(t, p)
  {
    if p == [] then t else At(Child(t, p[0]), p[1..])
  }

  /** t with the subtree at the end of p replaced by s. */
  function Replace(t: Tree, p: seq<Dir>, s: Tree): Tree
    requires ValidPath(t, p)
  {
    if p == [] then s
    else if p[0] == Left then Node(Replace(t.left, p[1..], s), t.key, t.right)
    else Node(t.left, t.key, Replace(t.right, p[1..], s))
  }

  /** Following p then q is following p + q. */
  lemma {:induction false} AtAppend(t: Tree, p: seq<Dir>, q: seq<Dir>)
    ensures ValidPath(t, p + q) <==> ValidPath(t, p) && ValidPath(At(t, p), q)
    ensures ValidPath(t, p + q) ==> At(t, p + q) == At(At(t, p), q)
    decreases |p|
  {
    if p != [] {
      assert (p + q)[0] == p[0] && (p + q)[1..] == p[1..] + q;
      if t.Node? {
        AtAppend(Child(t, p[0]), p[1..], q);
      }
    } else {
      assert p + q == q;
    }
  }

  /** After a replacement the path still leads to the new subtree. */
  lemma {:induction false} ReplaceAt(t: Tree, p: seq<Dir>, s: Tree)
    requires ValidPath(t, p)
    ensures ValidPath(Replace(t, p, s), p) && At(Replace(t, p, s), p) == s
    decreases |p|
  {
    if p != [] {
      ReplaceAt(Child(t, p[0]), p[1..], s);
    }
  }

  /** Replacing the subtree at p + q is replacing, inside the subtree at p,
      the subtree at q. */
  lemma {:induction false} ReplaceBelow(t: Tree, p: seq<Dir>, q: seq<Dir>, s: Tree)
    requires ValidPath(t, p + q)
    ensures ValidPath(t, p) && ValidPath(At(t, p), q)
    ensures ValidPath(Replace(t, p + q, s), p)
    ensures At(Replace(t, p + q, s), p) == Replace(At(t, p), q, s)
    decreases |p|
  {
    AtAppend(t, p, q);
    if p != [] {
      assert (p + q)[0] == p[0] && (p + q)[1..] == p[1..] + q;
      ReplaceBelow(Child(t, p[0]), p[1..], q, s);
    } else {
      assert p + q == q;
    }
  }

  /** A replacement by a subtree with the same symmetric order keeps the
      symmetric order of the whole tree. */
  lemma {:induction false} ReplaceInOrder(t: Tree, p: seq<Dir>, s: Tree)
    requires ValidPath(t, p)
    requires InOrder(s) == InOrder(At(t, p))
    ensures InOrder(Replace(t, p, s)) == InOrder(t)
    decreases |p|
  {
    if p != [] {
      ReplaceInOrder(Child(t, p[0]), p[1..], s);
    }
  }

  /** The key of the node at the end of a path is one of the tree's keys. */
  lemma {:induction false} AtKeyInOrder(t: Tree, p: seq<Dir>)
    requires ValidPath(t, p) && At(t, p).Node?
    ensures At(t, p).key in InOrder(t)
    decreases |p|
  {
    if p != [] {
      AtKeyInOrder(Child(t, p[0]), p[1..]);
    }
  }

  // ---------------------------------------------------------------------
  // Rotations
  // ---------------------------------------------------------------------

  /** rotateR applied to the left child of t's root: that child becomes the
      root and t's root its right child, taking over the child's right
      subtree as its left. */
  function RotateR(t: Tree): (r: Tree)
    requires t.Node? && t.left.Node?
    ensures r.Node? && r.right.Node?
    ensures r.key == t.left.key && r.left == t.left.left
    ensures InOrder(r) == InOrder(t)
  {
    var Node(Node(a, pk, b), gk, c) := t;
    Node(a, pk, Node(b, gk, c))
  }

  /** rotateL applied to the right child of t's root, the mirror image. */
  function RotateL(t: Tree): (r: Tree)
    requires t.Node? && t.right.Node?
    ensures r.Node? && r.left.Node?
    ensures r.key == t.right.key && r.right == t.right.right
    ensures InOrder(r) == InOrder(t)
  {
    var Node(a, gk, Node(b, pk, c)) := t;
    Node(Node(a, gk, b), pk, c)
  }

  /** The two rotations undo each other. */
  lemma RotationsInverse(t: Tree)
    ensures t.Node? && t.left.Node? ==> RotateL(RotateR(t)) == t
    ensures t.Node? && t.right.Node? ==> RotateR(RotateL(t)) == t
  {
  }

  /** The rotation that lifts the node at the end of `path` one level, into
      its parent's position: rotateR when it is a left child, rotateL when
      it is a right child. */
  function Lift(t: Tree, path: seq<Dir>): (r: Tree)
    requires |path| >= 1 && ValidPath(t, path) && At(t, path).Node?
    ensures ValidPath(r, path[..|path| - 1])
    ensures At(r, path[..|path| - 1]).Node?
    ensures At(r, path[..|path| - 1]).key == At(t, path).key
    ensures InOrder(r) == InOrder(t)
  {
    var up := path[..|path| - 1];
    var d := path[|path| - 1];
    assert path == up + [d];
    AtAppend(t, up, [d]);
    var sub := At(t, up);
    var rotated := if d == Left then RotateR(sub) else RotateL(sub);
    ReplaceAt(t, up, rotated);
    ReplaceInOrder(t, up, rotated);
    Replace(t, up, rotated)
  }

  /** In a zig-zig configuration, lifting the parent leaves the node where
      it was relative to the parent: still its `d` child. */
  lemma LiftParentKeepsChild(t: Tree, up: seq<Dir>, d: Dir)
    requires ValidPath(t, up + [d, d]) && At(t, up + [d, d]).Node?
    ensures ValidPath(t, up + [d]) && At(t, up + [d]).Node?
    ensures ValidPath(Lift(t, up + [d]), up + [d])
    ensures At(Lift(t, up + [d]), up + [d]) == At(t, up + [d, d])
  {
    assert up + [d, d] == (up + [d]) + [d];
    AtAppend(t, up + [d], [d]);
    AtAppend(t, up, [d]);
    AtAppend(t, up, [d, d]);
    assert (up + [d])[..|up + [d]| - 1] == up;
    var g := At(t, up);
    assert At(g, [d, d]) == Child(Child(g, d), d);
    var rotated := if d == Left then RotateR(g) else RotateL(g);
    var t1 := Lift(t, up + [d]);
    assert t1 == Replace(t, up, rotated);
    ReplaceAt(t, up, rotated);
    AtAppend(t1, up, [d]);
    assert At(t1, up + [d]) == Child(rotated, d);
  }

  // ---------------------------------------------------------------------
  // Splaying
  // ---------------------------------------------------------------------

  /** The parts of a path of length at least two: the grandparent's path,
      the step to the parent and the step to the node. */
  lemma PathShape(path: seq<Dir>)
    requires |path| >= 2
    ensures path == path[..|path| - 2] + [path[|path| - 2], path[|path| - 1]]
    ensures path[..|path| - 1] == path[..|path| - 2] + [path[|path| - 2]]
  {
  }

  /** fullsplay: zig when the parent is the root; zig-zig rotates the parent
      and then the node; zig-zag rotates the node twice. Each step moves
      the node into its grandparent's position. */
  function FullSplay(t: Tree, path: seq<Dir>): (r: Tree)
    requires ValidPath(t, path) && At(t, path).Node?
    ensures r.Node? && r.key == At(t, path).key
    ensures InOrder(r) == InOrder(t)
    decreases |path|
  {
    if |path| == 0 then t
    else if |path| == 1 then
      assert path[..0] == [];
      Lift(t, path)
    else
      var up := path[..|path| - 2];
      var d1, d2 := path[|path| - 2], path[|path| - 1];
      PathShape(path);
      if d1 == d2 then
        LiftParentKeepsChild(t, up, d1);
        var t1 := Lift(t, up + [d1]);
        assert (up + [d1])[..|up + [d1]| - 1] == up;
        var t2 := Lift(t1, up + [d1]);
        FullSplay(t2, up)
      else
        var t1 := Lift(t, path);
        assert (up + [d1])[..|up + [d1]| - 1] == up;
        var t2 := Lift(t1, up + [d1]);
        FullSplay(t2, up)
  }

  /** No two consecutive steps of the path go the same way. */
  predicate Alternating(path: seq<Dir>)
  {
    forall i :: 1 <= i < |path| ==> path[i - 1] != path[i]
  }

  /** semisplay: as fullsplay, except that zig-zig rotates only the parent
      and then continues splaying from the parent, so the node itself stops
      short of the root. On a zig-zag path it still arrives there. */
  function SemiSplay(t: Tree, path: seq<Dir>): (r: Tree)
    requires ValidPath(t, path) && At(t, path).Node?
    ensures r.Node?
    ensures InOrder(r) == InOrder(t)
    ensures Alternating(path) ==> r.key == At(t, path).key
    decreases |path|
  {
    if |path| == 0 then t
    else if |path| == 1 then
      assert path[..0] == [];
      Lift(t, path)
    else
      var up := path[..|path| - 2];
      var d1, d2 := path[|path| - 2], path[|path| - 1];
      PathShape(path);
      if d1 == d2 then
        LiftParentKeepsChild(t, up, d1);
        assert (up + [d1])[..|up + [d1]| - 1] == up;
        var t1 := Lift(t, up + [d1]);
        SemiSplay(t1, up)
      else
        var t1 := Lift(t, path);
        assert (up + [d1])[..|up + [d1]| - 1] == up;
        var t2 := Lift(t1, up + [d1]);
        assert Alternating(path) ==> Alternating(up);
        SemiSplay(t2, up)
  }

  /** On a path without zig-zig steps the two splays agree. */
  lemma {:induction false} SemiSplayAlternatingIsFull(t: Tree, path: seq<Dir>)
    requires ValidPath(t, path) && At(t, path).Node? && Alternating(path)
    ensures SemiSplay(t, path) == FullSplay(t, path)
    decreases |path|
  {
    if |path| >= 2 {
      var up := path[..|path| - 2];
      PathShape(path);
      assert path[|path| - 2] != path[|path| - 1];
      var t1 := Lift(t, path);
      assert (up + [path[|path| - 2]])[..|up|] == up;
      var t2 := Lift(t1, up + [path[|path| - 2]]);
      assert Alternating(up);
      SemiSplayAlternatingIsFull(t2, up);
    }
  }

  // ---------------------------------------------------------------------
  // Insert
  // ---------------------------------------------------------------------

  /** The descent of insert: smaller keys go left, all others (duplicates
      included) go right, and the new node hangs where the descent fell off
      the tree. Returns the new tree and the path to the new node. */
  function BstInsert(t: Tree, k: int): (r: (Tree, seq<Dir>))
    ensures ValidPath(r.0, r.1) && At(r.0, r.1) == Node(Leaf, k, Leaf)
    ensures multiset(InOrder(r.0)) == multiset(InOrder(t)) + multiset{k}
  {
    match t
    case Leaf => (Node(Leaf, k, Leaf), [])
    case Node(a, x, b) =>
      if k < x then
        var (a', p) := BstInsert(a, k);
        StepDown(Node(a', x, b), Left, p);
        (Node(a', x, b), [Left] + p)
      else
        var (b', p) := BstInsert(b, k);
        StepDown(Node(a, x, b'), Right, p);
        (Node(a, x, b'), [Right] + p)
  }

  /** A path one step longer: first d, then p in that child. */
  lemma StepDown(t: Tree, d: Dir, p: seq<Dir>)
    requires t.Node? && ValidPath(Child(t, d), p)
    ensures ValidPath(t, [d] + p) && At(t, [d] + p) == At(Child(t, d), p)
  {
    assert ([d] + p)[0] == d && ([d] + p)[1..] == p;
  }

  /** p is the route an insertion of k takes through t: at every node on
      the way it goes left exactly when k is smaller than the node's key,
      and it ends at an empty slot. */
  predicate InsertRoute(t: Tree, p: seq<Dir>, k: int)
  {
    && ValidPath(t, p) && At(t, p) == Leaf
    && forall i :: 0 <= i < |p| ==>
         ValidPath(t, p[..i]) && At(t, p[..i]).Node?
         && (p[i] == Left <==> k < At(t, p[..i]).key)
  }

  /** The route BstInsert takes is the insertion route of k. */
  lemma {:induction false} BstInsertRoute(t: Tree, k: int)
    ensures InsertRoute(t, BstInsert(t, k).1, k)
  {
    match t
    case Leaf =>
    case Node(a, x, b) =>
      var c := if k < x then a else b;
      var d := if k < x then Left else Right;
      BstInsertRoute(c, k);
      var q := BstInsert(c, k).1;
      assert BstInsert(t, k).1 == [d] + q;
      RouteStep(t, d, q, k);
  }

  /** One level of BstInsertRoute: the route [d] + q through t, where d is
      the step insert takes at t's root and q the route below it. */
  lemma RouteStep(t: Tree, d: Dir, q: seq<Dir>, k: int)
    requires t.Node? && (d == Left <==> k < t.key)
    requires InsertRoute(Child(t, d), q, k)
    ensures InsertRoute(t, [d] + q, k)
  {
    var p := [d] + q;
    assert p[0] == d && p[1..] == q;
    forall i | 0 <= i < |p|
      ensures ValidPath(t, p[..i]) && At(t, p[..i]).Node?
      ensures p[i] == Left <==> k < At(t, p[..i]).key
    {
      if i == 0 {
        assert p[..i] == [];
      } else {
        assert p[..i][0] == d && p[..i][1..] == q[..i - 1];
        assert p[i] == q[i - 1];
      }
    }
  }

  /** Reference definition: put k into a sorted sequence after every element
      not greater than it. */
  function SortedInsert(s: seq<int>, k: int): (r: seq<int>)
  {
    if s == [] then [k]
    else if k < s[0] then [k] + s
    else [s[0]] + SortedInsert(s[1..], k)
  }

  lemma SortedInsertKeepsSorted(s: seq<int>, k: int)
    requires Sorted(s)
    ensures Sorted(SortedInsert(s, k))
    ensures multiset(SortedInsert(s, k)) == multiset(s) + multiset{k}
  {
    SortedInsertSorted(s, k);
    SortedInsertElements(s, k);
  }

  /** The reference insertion adds exactly the one key. */
  lemma {:induction false} SortedInsertElements(s: seq<int>, k: int)
    ensures multiset(SortedInsert(s, k)) == multiset(s) + multiset{k}
  {
    if s != [] && !(k < s[0]) {
      assert s == [s[0]] + s[1..];
      SortedInsertElements(s[1..], k);
    }
  }

  /** The reference insertion keeps a sorted sequence sorted. */
  lemma {:induction false} SortedInsertSorted(s: seq<int>, k: int)
    requires Sorted(s)
    ensures Sorted(SortedInsert(s, k))
  {
    if s == [] {
    } else if k < s[0] {
      SortedCons(k, s);
    } else {
      var rest := s[1..];
      assert Sorted(rest);
      SortedInsertSorted(rest, k);
      var r := SortedInsert(rest, k);
      assert r[0] == k || r[0] == rest[0];
      SortedCons(s[0], r);
    }
  }

  /** Putting a key no larger than the head of a sorted sequence in front
      keeps it sorted. */
  lemma SortedCons(a: int, r: seq<int>)
    requires Sorted(r) && (r == [] || a <= r[0])
    ensures Sorted([a] + r)
  {
    forall i, j | 0 <= i < j < |[a] + r|
      ensures ([a] + r)[i] <= ([a] + r)[j]
    {
      if i == 0 {
        assert r[0] <= r[j - 1];
      }
    }
  }

  /** A key smaller than x goes into the part before x. */
  lemma {:induction false} SortedInsertBefore(a: seq<int>, x: int, b: seq<int>, k: int)
    requires k < x
    ensures SortedInsert(a + [x] + b, k) == SortedInsert(a, k) + [x] + b
  {
    if a == [] {
      assert a + [x] + b == [x] + b;
    } else {
      assert (a + [x] + b)[1..] == a[1..] + [x] + b;
      SortedInsertBefore(a[1..], x, b, k);
    }
  }

  /** A key not smaller than x, nor than anything before it, goes into the
      part after x. */
  lemma {:induction false} SortedInsertAfter(a: seq<int>, x: int, b: seq<int>, k: int)
    requires x <= k && forall y :: y in a ==> y <= k
    ensures SortedInsert(a + [x] + b, k) == a + [x] + SortedInsert(b, k)
  {
    if a == [] {
      assert a + [x] + b == [x] + b;
      assert ([x] + b)[0] == x && ([x] + b)[1..] == b;
    } else {
      assert (a + [x] + b)[0] == a[0] && a[0] in a;
      assert (a + [x] + b)[1..] == a[1..] + [x] + b;
      assert forall y :: y in a[1..] ==> y in a;
      SortedInsertAfter(a[1..], x, b, k);
    }
  }

  /** A sorted sequence around x: the part before x is sorted and below it,
      the part after is sorted and above it. */
  lemma SortedSplit(l: seq<int>, x: int, r: seq<int>)
    requires Sorted(l + [x] + r)
    ensures Sorted(l) && Sorted(r)
    ensures forall y :: y in l ==> y <= x
    ensures forall y :: y in r ==> x <= y
  {
    var s := l + [x] + r;
    forall i, j | 0 <= i < j < |l| ensures l[i] <= l[j] {
      assert s[i] == l[i] && s[j] == l[j];
    }
    forall i, j | 0 <= i < j < |r| ensures r[i] <= r[j] {
      assert s[|l| + 1 + i] == r[i] && s[|l| + 1 + j] == r[j];
    }
    forall y | y in l ensures y <= x {
      var i :| 0 <= i < |l| && l[i] == y;
      assert s[i] == y && s[|l|] == x;
    }
    forall y | y in r ensures x <= y {
      var i :| 0 <= i < |r| && r[i] == y;
      assert s[|l| + 1 + i] == y && s[|l|] == x;
    }
  }

  /** In a sorted symmetric order, the left part is below the root and the
      right part above it. */
  lemma SortedParts(a: Tree, x: int, b: Tree)
    requires Sorted(InOrder(Node(a, x, b)))
    ensures Sorted(InOrder(a)) && Sorted(InOrder(b))
    ensures forall y :: y in InOrder(a) ==> y <= x
    ensures forall y :: y in InOrder(b) ==> x <= y
  {
    SortedSplit(InOrder(a), x, InOrder(b));
  }

  /** On a sorted tree the descent of insert places the key exactly where
      the reference insertion does. */
  lemma {:induction false} BstInsertInOrder(t: Tree, k: int)
    requires Sorted(InOrder(t))
    ensures InOrder(BstInsert(t, k).0) == SortedInsert(InOrder(t), k)
  {
    match t
    case Leaf =>
    case Node(a, x, b) =>
      SortedParts(a, x, b);
      if k < x {
        BstInsertInOrder(a, k);
        SortedInsertBefore(InOrder(a), x, InOrder(b), k);
      } else {
        BstInsertInOrder(b, k);
        SortedInsertAfter(InOrder(a), x, InOrder(b), k);
      }
  }

  /** insert: the descent, then fullsplay of the new node. */
  function Insert(t: Tree, k: int): (r: Tree)
    ensures r.Node? && r.key == k
    ensures multiset(InOrder(r)) == multiset(InOrder(t)) + multiset{k}
  {
    var (t1, p) := BstInsert(t, k);
    FullSplay(t1, p)
  }

  /** Insert keeps the symmetric order sorted and puts k where the reference
      insertion puts it. */
  lemma InsertInOrder(t: Tree, k: int)
    requires Sorted(InOrder(t))
    ensures InOrder(Insert(t, k)) == SortedInsert(InOrder(t), k)
    ensures Sorted(InOrder(Insert(t, k)))
  {
    BstInsertInOrder(t, k);
    SortedInsertKeepsSorted(InOrder(t), k);
  }

  // ---------------------------------------------------------------------
  // Search
  // ---------------------------------------------------------------------

  /** The descent of search: stop at the first node whose key equals k,
      go left when k is smaller, right otherwise. */
  function FindPath(t: Tree, k: int): (r: Option<seq<Dir>>)
    ensures r.Some? ==> ValidPath(t, r.value) && At(t, r.value).Node? && At(t, r.value).key == k
  {
    match t
    case Leaf => None
    case Node(a, x, b) =>
      if x == k then Some([])
      else if k < x then
        match FindPath(a, k)
        case None => None
        case Some(p) => Some([Left] + p)
      else
        match FindPath(b, k)
        case None => None
        case Some(p) => Some([Right] + p)
  }

  /** On a sorted tree the descent finds every key that is there. */
  lemma {:induction false} FindPathComplete(t: Tree, k: int)
    requires Sorted(InOrder(t))
    ensures FindPath(t, k).Some? <==> k in InOrder(t)
  {
    match t
    case Leaf =>
    case Node(a, x, b) =>
      SortedParts(a, x, b);
      if x != k {
        if k < x {
          FindPathComplete(a, k);
        } else {
          FindPathComplete(b, k);
        }
      }
  }

  /** search: the found key and the tree after semisplaying its node, or
      nothing and the tree unchanged. */
  function Search(t: Tree, k: int): (r: (Option<int>, Tree))
    ensures r.0.Some? ==> r.0.value == k && k in InOrder(t)
    ensures r.0.Some? ==> r.1.Node? && InOrder(r.1) == InOrder(t)
    ensures r.0.None? ==> r.1 == t
  {
    match FindPath(t, k)
    case None => (None, t)
    case Some(p) =>
      AtKeyInOrder(t, p);
      (Some(k), SemiSplay(t, p))
  }

  /** On a sorted tree, search succeeds exactly for the keys present. */
  lemma SearchFindsPresentKeys(t: Tree, k: int)
    requires Sorted(InOrder(t))
    ensures Search(t, k).0.Some? <==> k in InOrder(t)
  {
    FindPathComplete(t, k);
  }

  // ---------------------------------------------------------------------
  // Examples from the driver
  // ---------------------------------------------------------------------

  function Single(k: int): Tree { Node(Leaf, k, Leaf) }

  /** Inserting 60, 80, 30 into an empty tree gives 30 at the root with the
      right chain 60, 80. */
  lemma FirstThreeInserts()
    ensures Insert(Insert(Insert(Leaf, 60), 80), 30)
            == Node(Leaf, 30, Node(Leaf, 60, Single(80)))
  {
    InsertSixty();
    InsertEighty();
    InsertThirty();
  }

  lemma InsertSixty()
    ensures Insert(Leaf, 60) == Single(60)
  {
  }

  /** 80 goes right of 60, and a zig lifts it to the root. */
  lemma InsertEighty()
    ensures Insert(Single(60), 80) == Node(Single(60), 80, Leaf)
  {
    var t := Node(Leaf, 60, Single(80));
    assert BstInsert(Leaf, 80) == (Single(80), []);
    assert [Right] + [] == [Right];
    assert BstInsert(Single(60), 80) == (t, [Right]);
    assert [Right][..0] == [];
    assert Lift(t, [Right]) == Replace(t, [], RotateL(t));
  }

  /** 30 goes left twice, and a zig-zig lifts it to the root. */
  lemma InsertThirty()
    ensures Insert(Node(Single(60), 80, Leaf), 30) == Node(Leaf, 30, Node(Leaf, 60, Single(80)))
  {
    var t := Node(Node(Single(30), 60, Leaf), 80, Leaf);
    assert BstInsert(Leaf, 30) == (Single(30), []);
    assert [Left] + [] == [Left] && [Left] + [Left] == [Left, Left];
    assert BstInsert(Single(60), 30) == (Node(Single(30), 60, Leaf), [Left]);
    assert BstInsert(Node(Single(60), 80, Leaf), 30) == (t, [Left, Left]);
    var path := [Left, Left];
    assert path[..0] == [] && path[..1] == [Left] && [Left][..0] == [];
    var t1 := Lift(t, [Left]);
    assert t1 == Replace(t, [], RotateR(t));
    assert t1 == Node(Single(30), 60, Single(80));
    var t2 := Lift(t1, [Left]);
    assert t2 == Replace(t1, [], RotateR(t1));
    assert FullSplay(t, path) == FullSplay(t2, []);
  }

  /** The tree the driver records after its ten inserts and the search for
      30 (lab7Driver.cpp:176-189), written out as given there rather than
      derived from Insert and Search. */
  function AfterSearch30(): Tree
  {
    Node(Node(Leaf, 10, Single(20)), 30,
         Node(Single(40), 50,
              Node(Node(Leaf, 60, Node(Leaf, 70, Node(Single(80), 90, Leaf))), 100, Leaf)))
  }

  /** Searching 100 then is a zig-zig: only 100's parent 50 is rotated up,
      so 50 ends at the root with 100 as its right child. */
  lemma SearchHundred()
    ensures Search(AfterSearch30(), 100)
            == (Some(100),
                Node(Node(Node(Leaf, 10, Single(20)), 30, Single(40)), 50,
                     Node(Node(Leaf, 60, Node(Leaf, 70, Node(Single(80), 90, Leaf))), 100, Leaf)))
  {
    var t := AfterSearch30();
    var h := Node(Node(Leaf, 60, Node(Leaf, 70, Node(Single(80), 90, Leaf))), 100, Leaf);
    assert FindPath(h, 100) == Some([]);
    assert [Right] + [] == [Right] && [Right] + [Right] == [Right, Right];
    assert FindPath(t.right, 100) == Some([Right]);
    assert FindPath(t, 100) == Some([Right, Right]);
    var path := [Right, Right];
    assert path[..0] == [] && path[..1] == [Right] && [Right][..0] == [];
    assert Lift(t, [Right]) == Replace(t, [], RotateL(t));
    assert SemiSplay(t, path) == SemiSplay(RotateL(t), []);
  }
}
