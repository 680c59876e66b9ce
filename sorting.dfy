/** The sorting routines of src/lib/commons/sorting/sorting.c: an insertion
    sort, and a top-down merge sort that hands short ranges to the insertion
    sort. Elements are compared with a qsort-style comparator `cmp`
    (negative, zero or positive). The algorithms work in place on an array;
    each is specified by a function on sequences that follows the same
    steps, and the lemmas state what those functions achieve. */
module Sorting {

  // ---------------------------------------------------------------------
  // Comparators
  // ---------------------------------------------------------------------

  /** A comparator never calls both `a > b` and `b > a`. */
  ghost predicate Asymmetric<T(!new)>(cmp: (T, T) -> int)
  {
    forall a, b :: cmp(a, b) > 0 ==> cmp(b, a) <= 0
  }

  /** "Not greater than" chains. */
  ghost predicate Transitive<T(!new)>(cmp: (T, T) -> int)
  {
    forall a, b, c :: cmp(a, b) <= 0 && cmp(b, c) <= 0 ==> cmp(a, c) <= 0
  }

  /** Every neighbour pair is in order: what both sorts establish. */
  ghost predicate Sorted<T>(s: seq<T>, cmp: (T, T) -> int)
  {
    forall i :: 0 < i < |s| ==> cmp(s[i - 1], s[i]) <= 0
  }

  /** Every pair is in order. */
  ghost predicate SortedAll<T>(s: seq<T>, cmp: (T, T) -> int)
  {
    forall i, j :: 0 <= i < j < |s| ==> cmp(s[i], s[j]) <= 0
  }

  /** Neighbour order gives order of every pair once "not greater" chains. */
  lemma {:induction false} SortedIsSortedAll<T(!new)>(s: seq<T>, cmp: (T, T) -> int)
    requires Transitive(cmp) && Sorted(s, cmp)
    ensures SortedAll(s, cmp)
  {
    forall i, j | 0 <= i < j < |s|
      ensures cmp(s[i], s[j]) <= 0
    {
      var m := i + 1;
      while m < j
        invariant i < m <= j && cmp(s[i], s[m]) <= 0
      {
        assert cmp(s[m], s[m + 1]) <= 0;
        m := m + 1;
      }
    }
  }

  /** The comparator of the unit tests, `(a > b) - (a < b)`. */
  function CompareInt(a: int, b: int): (r: int)
    ensures r < 0 <==> a < b
    ensures r == 0 <==> a == b
    ensures r > 0 <==> a > b
  {
    (if a > b then 1 else 0) - (if a < b then 1 else 0)
  }

  /** The descending comparator of the unit tests, `(b > a) - (b < a)`. */
  function CompareIntDesc(a: int, b: int): (r: int)
    ensures r < 0 <==> a > b
    ensures r == 0 <==> a == b
    ensures r > 0 <==> a < b
  {
    (if b > a then 1 else 0) - (if b < a then 1 else 0)
  }

  lemma CompareIntIsOrder()
    ensures Asymmetric(CompareInt) && Transitive(CompareInt)
    ensures Asymmetric(CompareIntDesc) && Transitive(CompareIntDesc)
  {
  }

  // ---------------------------------------------------------------------
  // Insertion sort
  // ---------------------------------------------------------------------

  /** The inner loop of the insertion sort: `key` enters the sorted prefix
      `t` from the right, passing every element that compares greater. */
  function Inserted<T>(t: seq<T>, key: T, cmp: (T, T) -> int): seq<T>
    decreases |t|
  {
    if t == [] then [key]
    else if cmp(t[|t| - 1], key) > 0 then Inserted(t[..|t| - 1], key, cmp) + [t[|t| - 1]]
    else t + [key]
  }

  /** The insertion sort: each element in turn enters the sorted prefix. */
  function InsSort<T>(s: seq<T>, cmp: (T, T) -> int): seq<T>
    decreases |s|
  {
    if s == [] then [] else Inserted(InsSort(s[..|s| - 1], cmp), s[|s| - 1], cmp)
  }

  /** Where the inner loop stops, at `j`, the key lands. */
  lemma {:induction false} InsertedAt<T>(t: seq<T>, key: T, j: nat, cmp: (T, T) -> int)
    requires j <= |t|
    requires forall m :: j <= m < |t| ==> cmp(t[m], key) > 0
    requires j == 0 || cmp(t[j - 1], key) <= 0
    ensures Inserted(t, key, cmp) == t[..j] + [key] + t[j..]
    decreases |t|
  {
    if j < |t| {
      var u, last := t[..|t| - 1], t[|t| - 1];
      assert cmp(last, key) > 0;
      assert Inserted(t, key, cmp) == Inserted(u, key, cmp) + [last];
      assert forall m :: 0 <= m < |u| ==> u[m] == t[m];
      assert u[..j] == t[..j];
      InsertedAt(u, key, j, cmp);
      assert t[j..] == u[j..] + [last];
    } else if t != [] {
      assert t[..j] == t;
    }
  }

  lemma {:induction false} InsertedPermutes<T>(t: seq<T>, key: T, cmp: (T, T) -> int)
    ensures multiset(Inserted(t, key, cmp)) == multiset(t) + multiset{key}
    decreases |t|
  {
    if t != [] && cmp(t[|t| - 1], key) > 0 {
      InsertedPermutes(t[..|t| - 1], key, cmp);
      assert t == t[..|t| - 1] + [t[|t| - 1]];
    }
  }

  /** The insertion sort rearranges its input. */
  lemma {:induction false} InsSortPermutes<T>(s: seq<T>, cmp: (T, T) -> int)
    ensures multiset(InsSort(s, cmp)) == multiset(s)
    decreases |s|
  {
    if s != [] {
      InsSortPermutes(s[..|s| - 1], cmp);
      InsertedPermutes(InsSort(s[..|s| - 1], cmp), s[|s| - 1], cmp);
      assert s == s[..|s| - 1] + [s[|s| - 1]];
    }
  }

  lemma {:induction false} InsertedSorted<T(!new)>(t: seq<T>, key: T, cmp: (T, T) -> int)
    requires Asymmetric(cmp) && Sorted(t, cmp)
    ensures Sorted(Inserted(t, key, cmp), cmp)
    ensures |Inserted(t, key, cmp)| == |t| + 1
    decreases |t|
  {
    if t != [] && cmp(t[|t| - 1], key) > 0 {
      var u := t[..|t| - 1];
      InsertedSorted(u, key, cmp);
      var w := Inserted(u, key, cmp);
      var last := t[|t| - 1];
      // The element before the passed `last` is either `key` or an
      // element of `t` that stood before `last`.
      assert cmp(key, last) <= 0;
      if u != [] {
        assert w[|w| - 1] == Inserted(u, key, cmp)[|w| - 1];
        InsertedLast(u, key, cmp);
      }
    }
  }

  /** The last element after inserting is `key` or the old last element. */
  lemma {:induction false} InsertedLast<T>(t: seq<T>, key: T, cmp: (T, T) -> int)
    requires t != []
    ensures |Inserted(t, key, cmp)| == |t| + 1
    ensures var w := Inserted(t, key, cmp);
      w[|w| - 1] == if cmp(t[|t| - 1], key) > 0 then t[|t| - 1] else key
    decreases |t|
  {
    if cmp(t[|t| - 1], key) > 0 {
      InsertedLength(t[..|t| - 1], key, cmp);
    }
  }

  lemma {:induction false} InsertedLength<T>(t: seq<T>, key: T, cmp: (T, T) -> int)
    ensures |Inserted(t, key, cmp)| == |t| + 1
    decreases |t|
  {
    if t != [] && cmp(t[|t| - 1], key) > 0 {
      InsertedLength(t[..|t| - 1], key, cmp);
    }
  }

  /** The insertion sort puts neighbours in order. */
  lemma {:induction false} InsSortSorted<T(!new)>(s: seq<T>, cmp: (T, T) -> int)
    requires Asymmetric(cmp)
    ensures Sorted(InsSort(s, cmp), cmp)
    decreases |s|
  {
    if s != [] {
      InsSortSorted(s[..|s| - 1], cmp);
      InsertedSorted(InsSort(s[..|s| - 1], cmp), s[|s| - 1], cmp);
    }
  }

  /** One pass of the outer loop of sorting_insertionsort: the element at
      `lo + i`, `key`, enters the prefix `a[lo..lo+i]`, which holds `t`,
      by shifting every greater element one place to the right. */
  method InsertKey<T>(a: array<T>, lo: nat, i: nat, cmp: (T, T) -> int, ghost t: seq<T>, ghost key: T)
    requires lo + i < a.Length && |t| == i && a[lo + i] == key
    requires forall m :: 0 <= m < i ==> a[lo + m] == t[m]
    modifies a
    ensures |Inserted(t, key, cmp)| == i + 1
    ensures forall m :: 0 <= m <= i ==> a[lo + m] == Inserted(t, key, cmp)[m]
    ensures forall m :: 0 <= m < a.Length && !(lo <= m <= lo + i) ==> a[m] == old(a[m])
  {
    var x := a[lo + i];
    var j := i;
    while j > 0 && cmp(a[lo + j - 1], x) > 0
      invariant 0 <= j <= i
      invariant forall m :: 0 <= m < j ==> a[lo + m] == t[m]
      invariant forall m :: j <= m < i ==> a[lo + m + 1] == t[m]
      invariant forall m :: j <= m < i ==> cmp(t[m], key) > 0
      invariant forall m :: 0 <= m < a.Length && !(lo <= m <= lo + i) ==> a[m] == old(a[m])
    {
      a[lo + j] := a[lo + j - 1];
      j := j - 1;
    }
    a[lo + j] := x;
    InsertedAt(t, key, j, cmp);
    forall m | 0 <= m <= i
      ensures a[lo + m] == Inserted(t, key, cmp)[m]
    {
      if m < j {
        assert a[lo + m] == t[m];
      } else if m > j {
        assert a[lo + m] == t[m - 1];
      }
    }
  }

  /** sorting_insertionsort on the `nmemb` elements starting at `lo`
      (the source receives a pointer into the middle of the array). */
  method InsertionSort<T>(a: array<T>, lo: nat, nmemb: nat, cmp: (T, T) -> int)
    requires lo + nmemb <= a.Length
    modifies a
    ensures a[lo..lo + nmemb] == InsSort(old(a[lo..lo + nmemb]), cmp)
    ensures forall m :: 0 <= m < a.Length && !(lo <= m < lo + nmemb) ==> a[m] == old(a[m])
  {
    ghost var s := a[lo..lo + nmemb];
    if nmemb <= 1 {
      assert nmemb == 1 ==> s == s[..0] + [s[0]];
      return;
    }
    assert s[..1] == [s[0]];
    ghost var sorted := InsSort(s[..1], cmp);
    var i := 1;
    while i < nmemb
      invariant 1 <= i <= nmemb
      invariant sorted == InsSort(s[..i], cmp) && |sorted| == i
      invariant forall m :: 0 <= m < i ==> a[lo + m] == sorted[m]
      invariant forall m :: i <= m < nmemb ==> a[lo + m] == s[m]
      invariant forall m :: 0 <= m < a.Length && !(lo <= m < lo + nmemb) ==> a[m] == old(a[m])
    {
      InsSortStep(s, i, cmp);
      InsertKey(a, lo, i, cmp, sorted, s[i]);
      sorted := Inserted(sorted, s[i], cmp);
      i := i + 1;
    }
    assert s[..nmemb] == s;
    assert a[lo..lo + nmemb] == sorted;
  }

  /** The insertion sort of a prefix one longer inserts the next key. */
  lemma InsSortStep<T>(s: seq<T>, i: nat, cmp: (T, T) -> int)
    requires i < |s|
    ensures InsSort(s[..i + 1], cmp) == Inserted(InsSort(s[..i], cmp), s[i], cmp)
  {
    assert s[..i + 1][..i] == s[..i];
  }

  // ---------------------------------------------------------------------
  // Merge sort
  // ---------------------------------------------------------------------

  /** The merge step: the smaller head goes first, and on a tie the left
      run's head (taken when `cmp` is not positive). */
  function Merged<T>(l: seq<T>, r: seq<T>, cmp: (T, T) -> int): seq<T>
    decreases |l| + |r|
  {
    if l == [] then r
    else if r == [] then l
    else if cmp(l[0], r[0]) <= 0 then [l[0]] + Merged(l[1..], r, cmp)
    else [r[0]] + Merged(l, r[1..], cmp)
  }

  lemma {:induction false} MergedPermutes<T>(l: seq<T>, r: seq<T>, cmp: (T, T) -> int)
    ensures multiset(Merged(l, r, cmp)) == multiset(l) + multiset(r)
    decreases |l| + |r|
  {
    if l != [] && r != [] {
      if cmp(l[0], r[0]) <= 0 {
        var w := Merged(l[1..], r, cmp);
        MergedPermutes(l[1..], r, cmp);
        assert Merged(l, r, cmp) == [l[0]] + w;
        assert l == [l[0]] + l[1..];
        assert multiset(l) == multiset{l[0]} + multiset(l[1..]);
      } else {
        var w := Merged(l, r[1..], cmp);
        MergedPermutes(l, r[1..], cmp);
        assert Merged(l, r, cmp) == [r[0]] + w;
        assert r == [r[0]] + r[1..];
        assert multiset(r) == multiset{r[0]} + multiset(r[1..]);
      }
    }
  }

  /** Merging two runs whose neighbours are in order gives such a run, which
      starts with one of the two heads. */
  lemma {:induction false} MergedSorted<T(!new)>(l: seq<T>, r: seq<T>, cmp: (T, T) -> int)
    requires Asymmetric(cmp) && Sorted(l, cmp) && Sorted(r, cmp)
    ensures Sorted(Merged(l, r, cmp), cmp)
    ensures |Merged(l, r, cmp)| == |l| + |r|
    ensures l != [] && r != [] ==>
      Merged(l, r, cmp)[0] == if cmp(l[0], r[0]) <= 0 then l[0] else r[0]
    decreases |l| + |r|
  {
    if l != [] && r != [] {
      if cmp(l[0], r[0]) <= 0 {
        MergedSorted(l[1..], r, cmp);
      } else {
        MergedSorted(l, r[1..], cmp);
      }
    }
  }

  /** The length of the left half, `mid - left + 1` with
      `mid = left + (right - left) / 2`, of a range of `n` elements. */
  function LeftHalf(n: nat): (m: nat)
    requires n >= 2
    ensures 0 < m < n
  {
    (n - 1) / 2 + 1
  }

  /** mergesort_recursive on a range of the elements `s`: one element stays;
      a range no longer than the threshold `th` is insertion sorted;
      otherwise both halves are sorted and merged. */
  function MSort<T>(s: seq<T>, th: int, cmp: (T, T) -> int): seq<T>
    decreases |s|
  {
    if |s| <= 1 then s
    else if |s| <= th then InsSort(s, cmp)
    else
      var m := LeftHalf(|s|);
      Merged(MSort(s[..m], th, cmp), MSort(s[m..], th, cmp), cmp)
  }

  /** A range longer than one element and than the threshold is merged from
      its sorted halves. */
  lemma MSortSplit<T>(s: seq<T>, th: int, cmp: (T, T) -> int)
    requires |s| > 1 && |s| > th
    ensures MSort(s, th, cmp) ==
      Merged(MSort(s[..LeftHalf(|s|)], th, cmp), MSort(s[LeftHalf(|s|)..], th, cmp), cmp)
  {
  }

  /** The merge sort rearranges its input. */
  lemma {:induction false} MSortPermutes<T>(s: seq<T>, th: int, cmp: (T, T) -> int)
    ensures multiset(MSort(s, th, cmp)) == multiset(s)
    decreases |s|
  {
    if |s| > 1 {
      if |s| <= th {
        InsSortPermutes(s, cmp);
      } else {
        var m := LeftHalf(|s|);
        var l, r := MSort(s[..m], th, cmp), MSort(s[m..], th, cmp);
        MSortPermutes(s[..m], th, cmp);
        MSortPermutes(s[m..], th, cmp);
        MergedPermutes(l, r, cmp);
        assert MSort(s, th, cmp) == Merged(l, r, cmp);
        SplitMultiset(s, m);
      }
    }
  }

  lemma SplitMultiset<T>(s: seq<T>, m: nat)
    requires m <= |s|
    ensures multiset(s) == multiset(s[..m]) + multiset(s[m..])
  {
    assert s == s[..m] + s[m..];
  }

  /** The merge sort puts neighbours in order. */
  lemma {:induction false} MSortSorted<T(!new)>(s: seq<T>, th: int, cmp: (T, T) -> int)
    requires Asymmetric(cmp)
    ensures Sorted(MSort(s, th, cmp), cmp)
    decreases |s|
  {
    if |s| > 1 {
      if |s| <= th {
        InsSortSorted(s, cmp);
      } else {
        var m := LeftHalf(|s|);
        MSortSorted(s[..m], th, cmp);
        MSortSorted(s[m..], th, cmp);
        MergedSorted(MSort(s[..m], th, cmp), MSort(s[m..], th, cmp), cmp);
      }
    }
  }

  /** One step of the merge loop, from positions `i` and `j` of the runs. */
  lemma MergedStep<T>(l: seq<T>, r: seq<T>, i: nat, j: nat, cmp: (T, T) -> int)
    requires i <= |l| && j <= |r| && (i < |l| || j < |r|)
    ensures i < |l| && (j == |r| || cmp(l[i], r[j]) <= 0) ==>
      Merged(l[i..], r[j..], cmp) == [l[i]] + Merged(l[i + 1..], r[j..], cmp)
    ensures j < |r| && (i == |l| || cmp(l[i], r[j]) > 0) ==>
      Merged(l[i..], r[j..], cmp) == [r[j]] + Merged(l[i..], r[j + 1..], cmp)
  {
    if i < |l| && j < |r| {
      assert l[i..][0] == l[i] && l[i..][1..] == l[i + 1..];
      assert r[j..][0] == r[j] && r[j..][1..] == r[j + 1..];
    } else if i < |l| {
      assert l[i..] == [l[i]] + l[i + 1..];
    } else {
      assert r[j..] == [r[j]] + r[j + 1..];
    }
  }

  /** Moving the smaller head of the pending runs onto the finished part. */
  lemma MergeTake<T>(l: seq<T>, r: seq<T>, i: nat, j: nat, cmp: (T, T) -> int, done: seq<T>, whole: seq<T>)
    requires i < |l| && j < |r| && done + MergeFrom(l, r, i, j, cmp) == whole
    ensures cmp(l[i], r[j]) <= 0 ==> (done + [l[i]]) + MergeFrom(l, r, i + 1, j, cmp) == whole
    ensures cmp(l[i], r[j]) > 0 ==> (done + [r[j]]) + MergeFrom(l, r, i, j + 1, cmp) == whole
  {
  }

  /** Once one run is used up, the merge is the rest of both runs. */
  lemma MergeFromExhausted<T>(l: seq<T>, r: seq<T>, i: nat, j: nat, cmp: (T, T) -> int)
    requires i <= |l| && j <= |r| && (i == |l| || j == |r|)
    ensures MergeFrom(l, r, i, j, cmp) == l[i..] + r[j..]
  {
  }

  /** The copies of merge (memcpy and its tail loops): `count` elements of
      `src` from `from`, which hold `run`, are copied into `dst` from `at`. */
  method CopyRun<T>(dst: array<T>, at: nat, src: array<T>, from: nat, count: nat, ghost run: seq<T>)
    requires at + count <= dst.Length && from + count <= src.Length && src != dst
    requires |run| == count && forall t :: 0 <= t < count ==> src[from + t] == run[t]
    modifies dst
    ensures forall t :: 0 <= t < count ==> dst[at + t] == run[t]
    ensures forall m :: 0 <= m < dst.Length && !(at <= m < at + count) ==> dst[m] == old(dst[m])
  {
    var t := 0;
    while t < count
      invariant 0 <= t <= count
      invariant forall u :: 0 <= u < t ==> dst[at + u] == run[u]
      invariant forall m :: 0 <= m < dst.Length && !(at <= m < at + count) ==> dst[m] == old(dst[m])
    {
      dst[at + t] := src[from + t];
      t := t + 1;
    }
  }

  /** `Merged` of the runs from positions `i` and `j` on, by positions. */
  function MergeFrom<T>(l: seq<T>, r: seq<T>, i: nat, j: nat, cmp: (T, T) -> int): seq<T>
    requires i <= |l| && j <= |r|
    decreases |l| - i + |r| - j
  {
    if i == |l| then r[j..]
    else if j == |r| then l[i..]
    else if cmp(l[i], r[j]) <= 0 then [l[i]] + MergeFrom(l, r, i + 1, j, cmp)
    else [r[j]] + MergeFrom(l, r, i, j + 1, cmp)
  }

  lemma {:induction false} MergeFromIsMerged<T>(l: seq<T>, r: seq<T>, i: nat, j: nat, cmp: (T, T) -> int)
    requires i <= |l| && j <= |r|
    ensures MergeFrom(l, r, i, j, cmp) == Merged(l[i..], r[j..], cmp)
    decreases |l| - i + |r| - j
  {
    if i < |l| && j < |r| {
      MergedStep(l, r, i, j, cmp);
      if cmp(l[i], r[j]) <= 0 {
        MergeFromIsMerged(l, r, i + 1, j, cmp);
      } else {
        MergeFromIsMerged(l, r, i, j + 1, cmp);
      }
    }
  }

  /** One pass of the first loop of merge: the smaller head of the runs
      held in `tmp`, the left one's on a tie, is written to `a` after the
      `i + j` elements taken so far. */
  method TakeHead<T>(a: array<T>, left: nat, tmp: array<T>, leftSize: nat, ghost l: seq<T>, ghost r: seq<T>,
                     i: nat, j: nat, cmp: (T, T) -> int)
    returns (x: T, i': nat, j': nat)
    requires |l| == leftSize && i < |l| && j < |r|
    requires left + |l| + |r| <= a.Length && |l| + |r| <= tmp.Length && tmp != a
    requires forall t :: 0 <= t < |l| ==> tmp[t] == l[t]
    requires forall t :: 0 <= t < |r| ==> tmp[|l| + t] == r[t]
    modifies a
    ensures cmp(l[i], r[j]) <= 0 ==> x == l[i] && i' == i + 1 && j' == j
    ensures cmp(l[i], r[j]) > 0 ==> x == r[j] && i' == i && j' == j + 1
    ensures a[..] == old(a[..])[left + i + j := x]
  {
    assert tmp[i] == l[i] && tmp[leftSize + j] == r[j];
    if cmp(tmp[i], tmp[leftSize + j]) <= 0 {
      x, i', j' := tmp[i], i + 1, j;
    } else {
      x, i', j' := tmp[leftSize + j], i, j + 1;
    }
    a[left + i + j] := x;
  }

  /** The first loop of merge: while both runs held in `tmp` (the left one,
      `l`, then the right one, `r`) have elements, the smaller head goes to
      `a`, from `left` on. What is written, `done`, and the parts of the
      runs not yet taken make up the merge. */
  method MergeRuns<T>(a: array<T>, left: nat, tmp: array<T>, leftSize: nat, rightSize: nat,
                      ghost l: seq<T>, ghost r: seq<T>, cmp: (T, T) -> int)
    returns (i: nat, j: nat, ghost done: seq<T>)
    requires |l| == leftSize && |r| == rightSize
    requires left + |l| + |r| <= a.Length && |l| + |r| <= tmp.Length && tmp != a
    requires forall t :: 0 <= t < |l| ==> tmp[t] == l[t]
    requires forall t :: 0 <= t < |r| ==> tmp[|l| + t] == r[t]
    modifies a
    ensures i <= |l| && j <= |r| && (i == |l| || j == |r|)
    ensures |done| == i + j && forall t :: 0 <= t < i + j ==> a[left + t] == done[t]
    ensures done + l[i..] + r[j..] == Merged(l, r, cmp)
    ensures forall m :: 0 <= m < a.Length && !(left <= m < left + i + j) ==> a[m] == old(a[m])
  {
    ghost var merged := MergeFrom(l, r, 0, 0, cmp);
    done := [];
    i, j := 0, 0;
    while i < leftSize && j < rightSize
      invariant 0 <= i <= leftSize && 0 <= j <= rightSize
      invariant |done| == i + j && forall t :: 0 <= t < i + j ==> a[left + t] == done[t]
      invariant done + MergeFrom(l, r, i, j, cmp) == merged
      invariant forall m :: 0 <= m < a.Length && !(left <= m < left + i + j) ==> a[m] == old(a[m])
    {
      MergeTake(l, r, i, j, cmp, done, merged);
      var x;
      x, i, j := TakeHead(a, left, tmp, leftSize, l, r, i, j, cmp);
      done := done + [x];
    }
    MergeFromExhausted(l, r, i, j, cmp);
    MergeFromIsMerged(l, r, 0, 0, cmp);
    assert l[0..] == l && r[0..] == r;
  }

  /** The tail loops of merge: what is left of each run after the first
      loop is copied back after what that loop wrote. */
  method CopyBack<T>(a: array<T>, left: nat, tmp: array<T>, leftSize: nat, rightSize: nat,
                     i: nat, j: nat, ghost l: seq<T>, ghost r: seq<T>, ghost done: seq<T>)
    requires |l| == leftSize && |r| == rightSize && i <= |l| && j <= |r| && |done| == i + j
    requires left + |l| + |r| <= a.Length && |l| + |r| <= tmp.Length && tmp != a
    requires forall t :: 0 <= t < |l| ==> tmp[t] == l[t]
    requires forall t :: 0 <= t < |r| ==> tmp[|l| + t] == r[t]
    requires forall t :: 0 <= t < i + j ==> a[left + t] == done[t]
    modifies a
    ensures forall t :: 0 <= t < |l| + |r| ==> a[left + t] == (done + l[i..] + r[j..])[t]
    ensures forall m :: 0 <= m < a.Length && !(left <= m < left + |l| + |r|) ==> a[m] == old(a[m])
  {
    var k := left + i + j;
    var k' := k + leftSize - i;
    CopyRun(a, k, tmp, i, leftSize - i, l[i..]);
    CopyRun(a, k', tmp, leftSize + j, rightSize - j, r[j..]);
    forall t | 0 <= t < |l| + |r|
      ensures a[left + t] == (done + l[i..] + r[j..])[t]
    {
      if t < i + j {
        assert a[left + t] == done[t];
      } else if t < k' - left {
        assert a[left + t] == l[i..][t - i - j];
      } else {
        assert a[left + t] == r[j..][t - (k' - left)];
      }
    }
  }

  /** merge: the runs `a[left..mid]` and `a[mid+1..right]` are copied to the
      scratch buffer `tmp` and merged back into `a[left..right]`. */
  method Merge<T>(a: array<T>, left: nat, mid: nat, right: nat, cmp: (T, T) -> int, tmp: array<T>)
    requires left <= mid < right < a.Length
    requires right - left + 1 <= tmp.Length && tmp != a
    modifies a, tmp
    ensures a[left..right + 1] == Merged(old(a[left..mid + 1]), old(a[mid + 1..right + 1]), cmp)
    ensures forall m :: 0 <= m < a.Length && !(left <= m <= right) ==> a[m] == old(a[m])
  {
    ghost var l, r := a[left..mid + 1], a[mid + 1..right + 1];
    var leftSize := mid - left + 1;
    var rightSize := right - mid;
    CopyRun(tmp, 0, a, left, leftSize, l);
    CopyRun(tmp, leftSize, a, mid + 1, rightSize, r);
    var i, j, done := MergeRuns(a, left, tmp, leftSize, rightSize, l, r, cmp);
    CopyBack(a, left, tmp, leftSize, rightSize, i, j, l, r, done);
    assert a[left..right + 1] == done + l[i..] + r[j..];
  }

  /** mergesort_recursive on `a[left..right]`: a range no longer than the
      threshold is insertion sorted in place; a longer one is split at
      `mid = left + (right - left) / 2`, both halves are sorted and merged. */
  method MergeSortRec<T>(a: array<T>, left: nat, right: nat, th: int, cmp: (T, T) -> int, tmp: array<T>)
    requires left <= right < a.Length && th > 0
    requires right - left + 1 <= tmp.Length && tmp != a
    modifies a, tmp
    ensures a[left..right + 1] == MSort(old(a[left..right + 1]), th, cmp)
    ensures forall m :: 0 <= m < a.Length && !(left <= m <= right) ==> a[m] == old(a[m])
    decreases right - left, 1
  {
    if left >= right {
      return;
    }
    var n := right - left + 1;
    if n <= th {
      InsertionSort(a, left, n, cmp);
      return;
    }
    var mid := left + (right - left) / 2;
    ghost var s := a[left..right + 1];
    ghost var h := LeftHalf(n);
    assert h == mid - left + 1 && |s| == n;
    assert s[..h] == a[left..mid + 1] && s[h..] == a[mid + 1..right + 1];
    SortHalves(a, left, mid, right, th, cmp, tmp);
    Merge(a, left, mid, right, cmp, tmp);
    MSortSplit(s, th, cmp);
  }

  /** The two recursive calls of mergesort_recursive, one per half. */
  method SortHalves<T>(a: array<T>, left: nat, mid: nat, right: nat, th: int, cmp: (T, T) -> int, tmp: array<T>)
    requires left <= mid < right < a.Length && th > 0
    requires right - left + 1 <= tmp.Length && tmp != a
    modifies a, tmp
    ensures a[left..mid + 1] == MSort(old(a[left..mid + 1]), th, cmp)
    ensures a[mid + 1..right + 1] == MSort(old(a[mid + 1..right + 1]), th, cmp)
    ensures forall m :: 0 <= m < a.Length && !(left <= m <= right) ==> a[m] == old(a[m])
    decreases right - left, 0
  {
    ghost var sr := a[mid + 1..right + 1];
    MergeSortRec(a, left, mid, th, cmp, tmp);
    ghost var sl := a[left..mid + 1];
    assert a[mid + 1..right + 1] == sr;
    MergeSortRec(a, mid + 1, right, th, cmp, tmp);
    assert a[left..mid + 1] == sl;
  }

  /** The threshold sorting_mergesort uses: a non-positive one means 10. */
  const DefaultThreshold: int := 10

  function EffectiveThreshold(threshold: int): (th: int)
    ensures th > 0
    ensures threshold > 0 ==> th == threshold
    ensures threshold <= 0 ==> th == DefaultThreshold
  {
    if threshold <= 0 then DefaultThreshold else threshold
  }

  /** sorting_mergesort on the first `nmemb` elements of `a`, with a scratch
      buffer of `nmemb` elements. */
  method SortingMergesort<T>(a: array<T>, nmemb: nat, cmp: (T, T) -> int, threshold: int)
    requires nmemb <= a.Length
    modifies a
    ensures a[..nmemb] == MSort(old(a[..nmemb]), EffectiveThreshold(threshold), cmp)
    ensures forall m :: nmemb <= m < a.Length ==> a[m] == old(a[m])
  {
    if nmemb <= 1 {
      return;
    }
    var th := EffectiveThreshold(threshold);
    var x := a[0];
    var tmp := new T[nmemb](_ => x);
    assert a[0..nmemb - 1 + 1] == a[..nmemb];
    MergeSortRec(a, 0, nmemb - 1, th, cmp, tmp);
    assert a[0..nmemb - 1 + 1] == a[..nmemb];
  }

  /** The two algorithms sorting_sort selects between. */
  datatype SortType = QSort | MergeSort

  /** sorting_sort: a merge sort with the given threshold, or the C library's
      qsort, which promises only an ordered rearrangement and is realized
      here by the merge sort with the default threshold. */
  method SortingSort<T(!new)>(a: array<T>, nmemb: nat, cmp: (T, T) -> int, sortType: SortType, threshold: int)
    requires nmemb <= a.Length
    modifies a
    ensures multiset(a[..nmemb]) == multiset(old(a[..nmemb]))
    ensures Asymmetric(cmp) ==> Sorted(a[..nmemb], cmp)
    ensures sortType == MergeSort ==>
      a[..nmemb] == MSort(old(a[..nmemb]), EffectiveThreshold(threshold), cmp)
    ensures forall m :: nmemb <= m < a.Length ==> a[m] == old(a[m])
  {
    ghost var s := a[..nmemb];
    var th := if sortType == MergeSort then threshold else DefaultThreshold;
    SortingMergesort(a, nmemb, cmp, th);
    MSortPermutes(s, EffectiveThreshold(th), cmp);
    if Asymmetric(cmp) {
      MSortSorted(s, EffectiveThreshold(th), cmp);
    }
  }

  /** The insertion sort on a strictly decreasing input: each key passes
      the whole sorted prefix, so the result is the reversal. */
  lemma {:induction false} InsSortDecreasing(s: seq<int>)
    requires forall m :: 0 < m < |s| ==> s[m - 1] > s[m]
    ensures InsSort(s, CompareInt) == Reverse(s)
    decreases |s|
  {
    if s != [] {
      var u, key := s[..|s| - 1], s[|s| - 1];
      InsSortDecreasing(u);
      ReverseLast(s);
      var t := Reverse(u);
      AboveLast(s, t);
      InsertedAt(t, key, 0, CompareInt);
      assert InsSort(s, CompareInt) == Inserted(t, key, CompareInt);
      assert t[..0] + [key] + t[0..] == [key] + t;
    }
  }

  /** In a strictly decreasing sequence every earlier key compares above
      the last one. */
  lemma AboveLast(s: seq<int>, t: seq<int>)
    requires s != [] && forall m :: 0 < m < |s| ==> s[m - 1] > s[m]
    requires t == Reverse(s[..|s| - 1])
    ensures forall m :: 0 <= m < |t| ==> CompareInt(t[m], s[|s| - 1]) > 0
  {
    var u := s[..|s| - 1];
    forall m | 0 <= m < |t|
      ensures CompareInt(t[m], s[|s| - 1]) > 0
    {
      ReverseAt(u, m);
      DecreasingBelow(s, |u| - 1 - m, |s| - 1);
    }
  }

  function Reverse<T>(s: seq<T>): (r: seq<T>)
    ensures |r| == |s|
    decreases |s|
  {
    if s == [] then [] else [s[|s| - 1]] + Reverse(s[..|s| - 1])
  }

  lemma ReverseLast<T>(s: seq<T>)
    requires s != []
    ensures Reverse(s) == [s[|s| - 1]] + Reverse(s[..|s| - 1])
  {
  }

  lemma {:induction false} ReverseAt<T>(s: seq<T>, m: nat)
    requires m < |s|
    ensures Reverse(s)[m] == s[|s| - 1 - m]
    decreases |s|
  {
    if m > 0 {
      ReverseAt(s[..|s| - 1], m - 1);
    }
  }

  lemma {:induction false} DecreasingBelow(s: seq<int>, p: nat, q: nat)
    requires forall m :: 0 < m < |s| ==> s[m - 1] > s[m]
    requires p < q < |s|
    ensures s[p] > s[q]
    decreases q - p
  {
    if p + 1 < q {
      DecreasingBelow(s, p + 1, q);
    }
  }

  /** When every element of the left run comes no later than the right
      run's head, the merge puts the left run first. */
  lemma {:induction false} MergedAllBefore<T>(l: seq<T>, r: seq<T>, cmp: (T, T) -> int)
    requires r != [] && forall m :: 0 <= m < |l| ==> cmp(l[m], r[0]) <= 0
    ensures Merged(l, r, cmp) == l + r
    decreases |l|
  {
    if l != [] {
      assert cmp(l[0], r[0]) <= 0;
      assert Merged(l, r, cmp) == [l[0]] + Merged(l[1..], r, cmp);
      MergedAllBefore(l[1..], r, cmp);
      assert l + r == [l[0]] + (l[1..] + r);
    }
  }

  lemma ReverseFive<T>(x: seq<T>)
    requires |x| == 5
    ensures Reverse(x) == [x[4], x[3], x[2], x[1], x[0]]
  {
    forall m | 0 <= m < 5
      ensures Reverse(x)[m] == x[4 - m]
    {
      ReverseAt(x, m);
    }
  }

  /** The merge sort with threshold 5 on two reversed runs of five, the
      first below the second (as `5 4 3 2 1 10 9 8 7 6`), gives both
      runs turned around: the threshold makes each half an insertion sort
      and the merge then takes the whole left half first. */
  lemma MergeSortThresholdExample(d: seq<int>, e: seq<int>)
    requires |d| == 5 && d[0] > d[1] > d[2] > d[3] > d[4]
    requires |e| == 5 && e[0] > e[1] > e[2] > e[3] > e[4]
    requires d[0] < e[4]
    ensures MSort(d + e, 5, CompareInt) == [d[4], d[3], d[2], d[1], d[0], e[4], e[3], e[2], e[1], e[0]]
  {
    var s := d + e;
    assert LeftHalf(10) == 5 && s[..5] == d && s[5..] == e;
    InsSortDecreasing(d);
    ReverseFive(d);
    InsSortDecreasing(e);
    ReverseFive(e);
    MergedAllBefore(Reverse(d), Reverse(e), CompareInt);
    MSortSplit(s, 5, CompareInt);
  }
}
