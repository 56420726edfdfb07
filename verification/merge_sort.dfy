/** The in-memory merge sort of cs232_Lab1_2020: `merge2`, the ping-pong
    `mergesort2` that alternates the roles of two buffers, and `msSort`, which
    sorts one block through a copy. The C++ arrays are modelled as sequence
    values threaded through the methods: a method receives the buffers and
    returns their new contents. */
module MergeSort {

  /** Non-decreasing order. */
  predicate Sorted(s: seq<int>)
  {
    forall i, j :: 0 <= i < j < |s| ==> s[i] <= s[j]
  }

  /** Reference merge: repeatedly take the smaller front element; on equal
      fronts the element of the second run is taken (the `else` of merge2). */
  function MergeRef(a: seq<int>, b: seq<int>): seq<int>
    decreases |a| + |b|
  {
    if a == [] then b
    else if b == [] then a
    else if a[0] < b[0] then [a[0]] + MergeRef(a[1..], b)
    else [b[0]] + MergeRef(a, b[1..])
  }

  /** On equal front elements the merge emits the second run's element first. */
  lemma MergeRefTieTakesSecond(a: seq<int>, b: seq<int>)
    requires a != [] && b != [] && a[0] == b[0]
    ensures MergeRef(a, b) == [b[0]] + MergeRef(a, b[1..])
  {
  }

  lemma {:induction false} MergeRefLength(a: seq<int>, b: seq<int>)
    ensures |MergeRef(a, b)| == |a| + |b|
    decreases |a| + |b|
  {
    if a == [] || b == [] {
    } else if a[0] < b[0] {
      MergeRefLength(a[1..], b);
    } else {
      MergeRefLength(a, b[1..]);
    }
  }

  /** The merge is a permutation of the two runs together. */
  lemma {:induction false} MergeRefPermutes(a: seq<int>, b: seq<int>)
    ensures multiset(MergeRef(a, b)) == multiset(a) + multiset(b)
    decreases |a| + |b|
  {
    if a == [] || b == [] {
    } else if a[0] < b[0] {
      MergeRefPermutes(a[1..], b);
      ConsMultiset(a);
      assert MergeRef(a, b) == [a[0]] + MergeRef(a[1..], b);
    } else {
      MergeRefPermutes(a, b[1..]);
      ConsMultiset(b);
      assert MergeRef(a, b) == [b[0]] + MergeRef(a, b[1..]);
    }
  }

  /** A non-empty sequence holds its head and the elements of its tail. */
  lemma ConsMultiset(s: seq<int>)
    requires s != []
    ensures multiset(s) == multiset{s[0]} + multiset(s[1..])
  {
    assert s == [s[0]] + s[1..];
  }

  /** Every element of the merge is bounded below by a lower bound of both runs. */
  lemma MergeRefLowerBound(a: seq<int>, b: seq<int>, x: int)
    requires forall k :: 0 <= k < |a| ==> x <= a[k]
    requires forall k :: 0 <= k < |b| ==> x <= b[k]
    ensures forall k :: 0 <= k < |MergeRef(a, b)| ==> x <= MergeRef(a, b)[k]
  {
    MergeRefPermutes(a, b);
    forall k | 0 <= k < |MergeRef(a, b)|
      ensures x <= MergeRef(a, b)[k]
    {
      var m := MergeRef(a, b);
      assert m[k] in multiset(m);
      assert m[k] in multiset(a) || m[k] in multiset(b);
    }
  }

  /** The merge of two sorted runs is sorted. */
  lemma {:induction false} MergeRefSorted(a: seq<int>, b: seq<int>)
    requires Sorted(a) && Sorted(b)
    ensures Sorted(MergeRef(a, b))
    decreases |a| + |b|
  {
    if a == [] || b == [] {
    } else if a[0] < b[0] {
      MergeRefSorted(a[1..], b);
      MergeRefLowerBound(a[1..], b, a[0]);
    } else {
      MergeRefSorted(a, b[1..]);
      MergeRefLowerBound(a, b[1..], b[0]);
    }
  }

  /** Writing x at position k extends the slice d[l..k] by x and leaves
      everything outside position k alone. */
  lemma WriteExtends(d: seq<int>, l: int, k: int, r: int, x: int)
    requires 0 <= l <= k <= r < |d|
    ensures d[k := x][l..k + 1] == d[l..k] + [x]
    ensures d[k := x][..l] == d[..l]
    ensures d[k := x][r + 1..] == d[r + 1..]
  {
  }

  /** One step of the merge loop: the smaller front element (the second run's
      on a tie) is the first element of the merge of the remaining runs. */
  lemma MergeStep(source: seq<int>, i: int, mid: int, j: int, r: int)
    requires 0 <= i <= mid < j <= r < |source|
    ensures source[i] < source[j] ==>
      MergeRef(source[i..mid + 1], source[j..r + 1])
      == [source[i]] + MergeRef(source[i + 1..mid + 1], source[j..r + 1])
    ensures !(source[i] < source[j]) ==>
      MergeRef(source[i..mid + 1], source[j..r + 1])
      == [source[j]] + MergeRef(source[i..mid + 1], source[j + 1..r + 1])
  {
    var a, b := source[i..mid + 1], source[j..r + 1];
    assert a[0] == source[i] && a[1..] == source[i + 1..mid + 1];
    assert b[0] == source[j] && b[1..] == source[j + 1..r + 1];
  }

  /** The copy loops at the end of merge2: copies source[from..to] (inclusive)
      to d[k..], keeping d[l..k] and everything outside l..r. */
  method CopyRest(source: seq<int>, d: seq<int>, from: int, to: int, l: int, k: int, r: int,
                  ghost whole: seq<int>) returns (d': seq<int>)
    requires |source| == |d|
    requires 0 <= from <= to + 1 <= |source| && 0 <= l <= k <= r + 1 <= |d|
    requires k + (to + 1 - from) == r + 1
    requires d[l..k] + source[from..to + 1] == whole
    ensures |d'| == |d|
    ensures d'[..l] == d[..l] && d'[r + 1..] == d[r + 1..]
    ensures d'[l..r + 1] == whole
  {
    var i, k' := from, k;
    d' := d;
    while i <= to
      invariant from <= i <= to + 1
      invariant k' == k + i - from
      invariant |d'| == |d|
      invariant d'[..l] == d[..l] && d'[r + 1..] == d[r + 1..]
      invariant d'[l..k'] + source[i..to + 1] == whole
    {
      assert source[i..to + 1] == [source[i]] + source[i + 1..to + 1];
      WriteExtends(d', l, k', r, source[i]);
      d' := d'[k' := source[i]];
      i, k' := i + 1, k' + 1;
    }
  }

  /** The state of merge2's main loop: d[l..k] holds the first k - l
      elements of the whole merge, the rest of which is the merge of what is
      left of the two runs; nothing outside l..k has been written. */
  ghost predicate MergeInv(source: seq<int>, dest: seq<int>, d: seq<int>, l: int, mid: int, r: int,
                           i: int, j: int, k: int, whole: seq<int>)
  {
    && |source| == |dest| == |d| && 0 <= l && r < |source|
    && l <= i <= mid + 1 <= j <= r + 1
    && k == i + j - mid - 1
    && |whole| == r + 1 - l
    && (forall p :: 0 <= p < |d| && !(l <= p < k) ==> d[p] == dest[p])
    && (forall p :: l <= p < k ==> d[p] == whole[p - l])
    && whole[k - l..] == MergeRef(source[i..mid + 1], source[j..r + 1])
  }

  /** Writing the next element of the merge at k extends the written part
      by one. */
  lemma WriteNext(source: seq<int>, dest: seq<int>, d: seq<int>, l: int, mid: int, r: int,
                  i: int, j: int, k: int, whole: seq<int>, x: int, rest: seq<int>, d': seq<int>)
    requires MergeInv(source, dest, d, l, mid, r, i, j, k, whole) && i <= mid && j <= r
    requires MergeRef(source[i..mid + 1], source[j..r + 1]) == [x] + rest
    requires d' == d[k := x]
    ensures forall p :: 0 <= p < |d'| && !(l <= p < k + 1) ==> d'[p] == dest[p]
    ensures forall p :: l <= p < k + 1 ==> d'[p] == whole[p - l]
    ensures whole[k + 1 - l..] == rest
  {
    assert whole[k - l] == x;
    assert whole[k + 1 - l..] == whole[k - l..][1..];
  }

  /** An iteration of the main loop that takes the first run's element
      keeps MergeInv. */
  lemma AdvanceFirst(source: seq<int>, dest: seq<int>, d: seq<int>, l: int, mid: int, r: int,
                     i: int, j: int, k: int, whole: seq<int>)
    requires MergeInv(source, dest, d, l, mid, r, i, j, k, whole) && i <= mid && j <= r
    requires source[i] < source[j]
    ensures MergeInv(source, dest, d[k := source[i]], l, mid, r, i + 1, j, k + 1, whole)
  {
    MergeStep(source, i, mid, j, r);
    WriteNext(source, dest, d, l, mid, r, i, j, k, whole, source[i], MergeRef(source[i + 1..mid + 1], source[j..r + 1]), d[k := source[i]]);
  }

  /** An iteration of the main loop that takes the second run's element
      (also on a tie) keeps MergeInv. */
  lemma AdvanceSecond(source: seq<int>, dest: seq<int>, d: seq<int>, l: int, mid: int, r: int,
                      i: int, j: int, k: int, whole: seq<int>)
    requires MergeInv(source, dest, d, l, mid, r, i, j, k, whole) && i <= mid && j <= r
    requires !(source[i] < source[j])
    ensures MergeInv(source, dest, d[k := source[j]], l, mid, r, i, j + 1, k + 1, whole)
  {
    MergeStep(source, i, mid, j, r);
    WriteNext(source, dest, d, l, mid, r, i, j, k, whole, source[j], MergeRef(source[i..mid + 1], source[j + 1..r + 1]), d[k := source[j]]);
  }

  /** MergeInv in terms of slices, the form CopyRest continues from. */
  lemma InvSlices(source: seq<int>, dest: seq<int>, d: seq<int>, l: int, mid: int, r: int,
                  i: int, j: int, k: int, whole: seq<int>)
    requires MergeInv(source, dest, d, l, mid, r, i, j, k, whole)
    ensures d[..l] == dest[..l] && d[r + 1..] == dest[r + 1..]
    ensures d[l..k] + MergeRef(source[i..mid + 1], source[j..r + 1]) == whole
  {
    assert d[l..k] == whole[..k - l];
    assert whole == whole[..k - l] + whole[k - l..];
  }

  /** The main loop of merge2: while both runs have elements, the smaller
      front element (the second run's on a tie) is written at k. Stops when
      one run is used up, with d[l..k] followed by the merge of what is left
      making up the whole merge. */
  method MergeFronts(source: seq<int>, dest: seq<int>, l: int, mid: int, r: int, ghost whole: seq<int>)
    returns (d: seq<int>, i: int, j: int, k: int)
    requires |source| == |dest|
    requires 0 <= l <= mid + 1 <= r + 1 <= |source|
    requires whole == MergeRef(source[l..mid + 1], source[mid + 1..r + 1])
    ensures MergeInv(source, dest, d, l, mid, r, i, j, k, whole) && (i > mid || j > r)
  {
    i, j, k := l, mid + 1, l;
    d := dest;
    MergeRefLength(source[l..mid + 1], source[mid + 1..r + 1]);
    assert whole[0..] == whole;
    while i <= mid && j <= r
      invariant MergeInv(source, dest, d, l, mid, r, i, j, k, whole)
      decreases mid + r - i - j
    {
      d, i, j, k := MergeOne(source, dest, d, l, mid, r, i, j, k, whole);
    }
  }

  /** One iteration of merge2's main loop: the smaller front element (the
      second run's on a tie) is written at k. */
  method MergeOne(source: seq<int>, dest: seq<int>, d: seq<int>, l: int, mid: int, r: int,
                  i: int, j: int, k: int, ghost whole: seq<int>)
    returns (d': seq<int>, i': int, j': int, k': int)
    requires MergeInv(source, dest, d, l, mid, r, i, j, k, whole) && i <= mid && j <= r
    ensures MergeInv(source, dest, d', l, mid, r, i', j', k', whole)
    ensures i' + j' == i + j + 1
  {
    if source[i] < source[j] {
      AdvanceFirst(source, dest, d, l, mid, r, i, j, k, whole);
      d', i', j', k' := d[k := source[i]], i + 1, j, k + 1;
    } else {
      AdvanceSecond(source, dest, d, l, mid, r, i, j, k, whole);
      d', i', j', k' := d[k := source[j]], i, j + 1, k + 1;
    }
  }

  /** merge2(source, dest, l, mid, r): merges the runs source[l..mid] and
      source[mid+1..r] (inclusive bounds) into dest[l..r]. Only positions
      l..r of dest are written; source is read only. */
  method Merge2(source: seq<int>, dest: seq<int>, l: int, mid: int, r: int) returns (d: seq<int>)
    requires |source| == |dest|
    requires 0 <= l <= mid + 1 <= r + 1 <= |source|
    ensures |d| == |dest|
    ensures d[..l] == dest[..l] && d[r + 1..] == dest[r + 1..]
    ensures d[l..r + 1] == MergeRef(source[l..mid + 1], source[mid + 1..r + 1])
  {
    ghost var whole := MergeRef(source[l..mid + 1], source[mid + 1..r + 1]);
    var i, j, k;
    d, i, j, k := MergeFronts(source, dest, l, mid, r, whole);
    InvSlices(source, dest, d, l, mid, r, i, j, k, whole);
    if i > mid {
      assert MergeRef(source[i..mid + 1], source[j..r + 1]) == source[j..r + 1];
      d := CopyRest(source, d, j, r, l, k, r, whole);
    } else {
      assert MergeRef(source[i..mid + 1], source[j..r + 1]) == source[i..mid + 1];
      d := CopyRest(source, d, i, mid, l, k, r, whole);
    }
  }

  /** mergesort2(source, dest, l, r): sorts dest[l..r] (inclusive), using
      source as scratch. Both buffers must agree on l..r beforehand; the
      recursive calls swap the roles of the two buffers. Returns the new
      contents of (source, dest). */
  method MergeSort2(source: seq<int>, dest: seq<int>, l: int, r: int) returns (s: seq<int>, d: seq<int>)
    requires |source| == |dest|
    requires 0 <= l <= r < |source|
    requires source[l..r + 1] == dest[l..r + 1]
    ensures |s| == |source| && |d| == |dest|
    ensures s[..l] == source[..l] && s[r + 1..] == source[r + 1..]
    ensures d[..l] == dest[..l] && d[r + 1..] == dest[r + 1..]
    ensures Sorted(d[l..r + 1])
    ensures multiset(d[l..r + 1]) == multiset(dest[l..r + 1])
    decreases r - l
  {
    if l != r {
      var mid := (l + r) / 2;
      SliceAgree(source, dest, l, mid + 1, r);
      // sort source[l..mid] with dest as scratch
      var dest1, source1 := MergeSort2(dest, source, l, mid);
      FrameAbove(dest, dest1, mid, r);
      FrameAbove(source, source1, mid, r);
      // sort source[mid+1..r] with dest as scratch
      var dest2, source2 := MergeSort2(dest1, source1, mid + 1, r);
      FrameBelow(source1, source2, l, mid + 1);
      // merge back into dest, which the recursive calls used as scratch
      d := Merge2(source2, dest2, l, mid, r);
      s := source2;
      MergeResult(source, source2, d, l, mid, r);
      OuterFrame(source, source1, source2, l, mid, r);
      OuterFrame(dest, dest1, dest2, l, mid, r);
    } else {
      s, d := source, dest;
    }
  }

  /** The two recursive calls together leave the buffer alone outside l..r. */
  lemma OuterFrame(source: seq<int>, source1: seq<int>, source2: seq<int>, l: int, mid: int, r: int)
    requires 0 <= l <= mid < r < |source| == |source1| == |source2|
    requires source1[..l] == source[..l] && source1[mid + 1..] == source[mid + 1..]
    requires source2[..mid + 1] == source1[..mid + 1] && source2[r + 1..] == source1[r + 1..]
    ensures source2[..l] == source[..l] && source2[r + 1..] == source[r + 1..]
  {
    assert source2[..l] == source2[..mid + 1][..l] && source1[..l] == source1[..mid + 1][..l];
    assert source1[r + 1..] == source1[mid + 1..][r - mid..] && source[r + 1..] == source[mid + 1..][r - mid..];
  }

  /** Two buffers that agree on l..r agree on both parts of it. */
  lemma SliceAgree(a: seq<int>, b: seq<int>, l: int, m: int, r: int)
    requires 0 <= l <= m <= r + 1 <= |a| && |a| == |b|
    requires a[l..r + 1] == b[l..r + 1]
    ensures a[l..m] == b[l..m] && a[m..r + 1] == b[m..r + 1]
  {
    assert a[l..m] == a[l..r + 1][..m - l] && b[l..m] == b[l..r + 1][..m - l];
    assert a[m..r + 1] == a[l..r + 1][m - l..] && b[m..r + 1] == b[l..r + 1][m - l..];
  }

  /** A buffer left alone above mid is left alone on mid+1..r. */
  lemma FrameAbove(x: seq<int>, y: seq<int>, mid: int, r: int)
    requires 0 <= mid + 1 <= r + 1 <= |x| == |y| && y[mid + 1..] == x[mid + 1..]
    ensures y[mid + 1..r + 1] == x[mid + 1..r + 1]
  {
    assert y[mid + 1..r + 1] == y[mid + 1..][..r - mid];
    assert x[mid + 1..r + 1] == x[mid + 1..][..r - mid];
  }

  /** A buffer left alone below m is left alone on l..m-1. */
  lemma FrameBelow(x: seq<int>, y: seq<int>, l: int, m: int)
    requires 0 <= l <= m <= |x| == |y| && y[..m] == x[..m]
    ensures y[l..m] == x[l..m]
  {
    assert y[l..m] == y[..m][l..];
    assert x[l..m] == x[..m][l..];
  }

  /** The merge of the two sorted halves is sorted and holds the block's
      original elements. */
  lemma MergeResult(source: seq<int>, source2: seq<int>, d: seq<int>, l: int, mid: int, r: int)
    requires 0 <= l <= mid < r < |source| == |source2| == |d|
    requires Sorted(source2[l..mid + 1]) && Sorted(source2[mid + 1..r + 1])
    requires multiset(source2[l..mid + 1]) == multiset(source[l..mid + 1])
    requires multiset(source2[mid + 1..r + 1]) == multiset(source[mid + 1..r + 1])
    requires d[l..r + 1] == MergeRef(source2[l..mid + 1], source2[mid + 1..r + 1])
    ensures Sorted(d[l..r + 1])
    ensures multiset(d[l..r + 1]) == multiset(source[l..r + 1])
  {
    MergeRefSorted(source2[l..mid + 1], source2[mid + 1..r + 1]);
    MergeRefPermutes(source2[l..mid + 1], source2[mid + 1..r + 1]);
    assert source[l..r + 1] == source[l..mid + 1] + source[mid + 1..r + 1];
  }

  /** msSort as written: copies the block and calls mergesort2(copy, a, 0, n - 1).
      Only blocks of at least one element are accepted (see MergeRanges). */
  method MsSortAsWritten(a: seq<int>) returns (sorted: seq<int>)
    requires |a| >= 1
    ensures Sorted(sorted)
    ensures multiset(sorted) == multiset(a)
  {
    var copy := a;
    var _, d := MergeSort2(copy, a, 0, |a| - 1);
    assert d[0..|a|] == d && a[0..|a|] == a;
    sorted := d;
  }

  /** msSort with the guard the original lacks: a block of fewer than two
      elements is already sorted. */
  method MsSort(a: seq<int>) returns (sorted: seq<int>)
    ensures Sorted(sorted)
    ensures multiset(sorted) == multiset(a)
  {
    if |a| < 2 {
      sorted := a;
    } else {
      sorted := MsSortAsWritten(a);
    }
  }

  /** C++ integer division truncates toward zero: the remainder x - q * y
      has the sign of x and is smaller than y in magnitude. */
  function CDiv(x: int, y: int): (q: int)
    requires y > 0
    ensures x >= 0 ==> 0 <= x - q * y < y
    ensures x < 0 ==> -y < x - q * y <= 0
  {
    if x >= 0 then x / y else -((-x) / y)
  }

  /** The (l, r) argument pairs of the two recursive calls mergesort2(l, r)
      makes, with the midpoint computed by C++ truncating division. */
  function MergeRanges(l: int, r: int): seq<(int, int)>
  {
    if l == r then []
    else
      var mid := CDiv(l + r, 2);
      [(l, mid), (mid + 1, r)]
  }

  /** On a non-empty range both recursive ranges are non-empty and strictly
      shorter: the recursion of the guarded msSort terminates. */
  lemma MergeRangesShrink(l: int, r: int)
    requires 0 <= l < r
    ensures forall k :: 0 <= k < |MergeRanges(l, r)| ==>
      l <= MergeRanges(l, r)[k].0 <= MergeRanges(l, r)[k].1 <= r &&
      MergeRanges(l, r)[k].1 - MergeRanges(l, r)[k].0 < r - l
  {
  }

  /** msSort on an empty block calls mergesort2(copy, a, 0, -1), which calls
      itself on (1, -1), which calls itself on (1, 0), which calls itself on
      (1, 0) again: the recursion never reaches its base case. */
  lemma EmptyBlockRecursesForever()
    ensures (1, -1) in MergeRanges(0, -1)
    ensures (1, 0) in MergeRanges(1, -1)
    ensures (1, 0) in MergeRanges(1, 0)
  {
  }
}
