/** Integer key sets and ascending key sequences, shared by the two balanced
    search trees (the 2-3 tree of cs232_Lab6_2020 and the 2-3-4 tree of
    cs232_Lab8_2020): bounds of a key set, strict ascending order, and how
    both survive joining the parts of a node around its keys. */
module OrderedKeys {

  /** Ascending without repeats. */
  predicate StrictlySorted(s: seq<int>)
  {
    forall i, j :: 0 <= i < j < |s| ==> s[i] < s[j]
  }

  /** Every key of s is below, or above, k. */
  predicate AllBelow(s: set<int>, k: int) { forall y :: y in s ==> y < k }
  predicate AllAbove(s: set<int>, k: int) { forall y :: y in s ==> k < y }

  /** A key set grown by one key on the right side of a bound stays there. */
  lemma GrowBounds(s: set<int>, x: int, lo: int, hi: int, below: bool, above: bool)
    requires below ==> AllBelow(s, hi) && x < hi
    requires above ==> AllAbove(s, lo) && lo < x
    ensures below ==> AllBelow(s + {x}, hi)
    ensures above ==> AllAbove(s + {x}, lo)
  {
  }

  /** Two key sets on either side of a, both below b, join below b. */
  lemma BelowJoin(s1: set<int>, a: int, s2: set<int>, b: int)
    requires AllBelow(s1, a) && a < b && AllBelow(s2, b)
    ensures AllBelow(s1 + {a} + s2, b)
  {
  }

  /** Two key sets on either side of c, both above b, join above b. */
  lemma AboveJoin(s3: set<int>, c: int, s4: set<int>, b: int)
    requires AllAbove(s3, b) && b < c && AllAbove(s4, c)
    ensures AllAbove(s3 + {c} + s4, b)
  {
  }

  /** Joining two ascending runs around a separating key. */
  lemma SortedJoin(a: seq<int>, k: int, b: seq<int>)
    requires StrictlySorted(a) && StrictlySorted(b)
    requires forall y :: y in a ==> y < k
    requires forall y :: y in b ==> k < y
    ensures StrictlySorted(a + [k] + b)
  {
    var s := a + [k] + b;
    forall i, j | 0 <= i < j < |s| ensures s[i] < s[j] {
      if j < |a| {
      } else if i < |a| {
        assert s[i] in a;
        if j > |a| { assert s[j] in b; }
      } else if i == |a| {
        assert s[j] in b;
      }
    }
  }

  /** Two ascending traversals of key sets on either side of k join, around
      k, into an ascending traversal of the union. */
  lemma JoinTraversals(sa: seq<int>, ka: set<int>, k: int, sb: seq<int>, kb: set<int>)
    requires StrictlySorted(sa) && StrictlySorted(sb)
    requires forall y :: y in sa <==> y in ka
    requires forall y :: y in sb <==> y in kb
    requires AllBelow(ka, k) && AllAbove(kb, k)
    ensures StrictlySorted(sa + [k] + sb)
    ensures forall y :: y in sa + [k] + sb <==> y in ka + {k} + kb
  {
    SortedJoin(sa, k, sb);
  }

  /** The keys of xs, collected in the order they are added. */
  function AddedKeys(xs: seq<int>): set<int>
  {
    if xs == [] then {} else AddedKeys(xs[..|xs| - 1]) + {xs[|xs| - 1]}
  }

  /** AddedKeys collects exactly the members of the sequence. */
  lemma {:induction false} AddedKeysMembers(xs: seq<int>)
    ensures forall k :: k in AddedKeys(xs) <==> k in xs
  {
    if xs != [] {
      var init, x := xs[..|xs| - 1], xs[|xs| - 1];
      AddedKeysMembers(init);
      assert xs == init + [x];
    }
  }
}
