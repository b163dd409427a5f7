/** heap.h: the macros on a zero-based array, for any strict total order as LESS. The heap has
  its largest element first; sorting leaves the smallest first. */
module Heaps {

  ghost predicate StrictTotalOrder<T(!new)>(less: (T, T) -> bool) {
    && (forall x :: !less(x, x))
    && (forall x, y :: x == y || less(x, y) || less(y, x))
    && (forall x, y, z :: less(x, y) && less(y, z) ==> less(x, z))
  }

  function Parent(i: nat): nat
    requires i > 0
  {
    (i - 1) / 2
  }

  /** No element below n is larger than its parent, as far as the parent is not below lo. */
  ghost predicate HeapFrom<T(!new)>(s: seq<T>, lo: nat, n: nat, less: (T, T) -> bool)
    requires n <= |s|
  {
    forall i {:trigger Parent(i)} :: 0 < i < n && lo <= Parent(i) ==> !less(s[Parent(i)], s[i])
  }

  ghost predicate IsHeap<T(!new)>(s: seq<T>, n: nat, less: (T, T) -> bool)
    requires n <= |s|
  {
    HeapFrom(s, 0, n, less)
  }

  /** The first element of a heap is the largest. */
  lemma {:induction false} RootIsLargest<T(!new)>(s: seq<T>, n: nat, less: (T, T) -> bool, i: nat)
    requires i < n <= |s| && StrictTotalOrder(less) && IsHeap(s, n, less)
    ensures !less(s[0], s[i])
    decreases i
  {
    if i > 0 {
      RootIsLargest(s, n, less, Parent(i));
      assert !less(s[Parent(i)], s[i]);
    }
  }

  lemma SwapKeepsMultiset<T>(s: seq<T>, i: nat, j: nat)
    requires i < |s| && j < |s|
    ensures multiset(s[i := s[j]][j := s[i]]) == multiset(s)
  {
  }

  /** SWAP. */
  method Swap<T>(a: array<T>, i: nat, j: nat)
    requires i < a.Length && j < a.Length
    modifies a
    ensures a[..] == old(a[..])[i := old(a[j])][j := old(a[i])]
  {
    a[i], a[j] := a[j], a[i];
  }

  /** Only the elements from lo up to n were permuted. */
  ghost predicate Permuted<T>(before: seq<T>, s: seq<T>, lo: nat, n: nat) {
    && lo <= n <= |s| == |before|
    && multiset(s) == multiset(before)
    && s[..lo] == before[..lo] && s[n..] == before[n..]
  }

  lemma PermutedSame<T>(s: seq<T>, lo: nat, n: nat)
    requires lo <= n <= |s|
    ensures Permuted(s, s, lo, n)
  {
  }

  lemma PermutedSwap<T>(before: seq<T>, s: seq<T>, lo: nat, n: nat, i: nat, j: nat)
    requires Permuted(before, s, lo, n) && lo <= i < n && lo <= j < n
    ensures Permuted(before, s[i := s[j]][j := s[i]], lo, n)
  {
    SwapKeepsMultiset(s, i, j);
  }

  /** A heap on the first k + 1 elements, but for element j and its parent. */
  ghost predicate Rising<T(!new)>(s: seq<T>, k: nat, j: nat, less: (T, T) -> bool)
    requires j <= k < |s|
  {
    && (forall i {:trigger Parent(i)} :: 0 < i <= k && i != j ==> !less(s[Parent(i)], s[i]))
    && (j > 0 ==> forall i {:trigger Parent(i)} :: 0 < i <= k && Parent(i) == j ==> !less(s[Parent(j)], s[i]))
  }

  lemma RiseStep<T(!new)>(s: seq<T>, k: nat, j: nat, less: (T, T) -> bool)
    requires 0 < j <= k < |s| && StrictTotalOrder(less) && Rising(s, k, j, less) && less(s[Parent(j)], s[j])
    ensures Rising(s[j := s[Parent(j)]][Parent(j) := s[j]], k, Parent(j), less)
  {
    var p := Parent(j);
    var t := s[j := s[p]][p := s[j]];
    forall i {:trigger Parent(i)} | 0 < i <= k && i != p ensures !less(t[Parent(i)], t[i]) {
      assert i != j ==> !less(s[Parent(i)], s[i]);
    }
    if p > 0 {
      assert !less(s[Parent(p)], s[p]);
    }
  }

  method FixUp<T(!new)>(a: array<T>, k: nat, less: (T, T) -> bool)
    requires k < a.Length && StrictTotalOrder(less) && IsHeap(a[..], k, less)
    modifies a
    ensures IsHeap(a[..], k + 1, less) && Permuted(old(a[..]), a[..], 0, k + 1)
  {
    hide Permuted;
    PermutedSame(a[..], 0, k + 1);
    var j := k;
    while j > 0 && less(a[(j - 1) / 2], a[j])
      invariant 0 <= j <= k
      invariant Permuted(old(a[..]), a[..], 0, k + 1)
      invariant Rising(a[..], k, j, less)
    {
      var i := (j - 1) / 2;
      RiseStep(a[..], k, j, less);
      PermutedSwap(old(a[..]), a[..], 0, k + 1, j, i);
      Swap(a, j, i);
      j := i;
    }
  }

  /** A heap from k on, but for element j and its children. */
  ghost predicate Sinking<T(!new)>(s: seq<T>, k: nat, n: nat, j: nat, less: (T, T) -> bool)
    requires k <= j < n <= |s|
  {
    && (forall i {:trigger Parent(i)} :: 0 < i < n && k <= Parent(i) && Parent(i) != j ==> !less(s[Parent(i)], s[i]))
    && (j > 0 && k <= Parent(j) ==>
          forall i {:trigger Parent(i)} :: 0 < i < n && Parent(i) == j ==> !less(s[Parent(j)], s[i]))
  }

  /** The larger child. */
  ghost predicate IsLargerChild<T(!new)>(s: seq<T>, n: nat, j: nat, c: nat, less: (T, T) -> bool)
    requires n <= |s|
  {
    0 < c < n && Parent(c) == j && forall i {:trigger Parent(i)} :: 0 < i < n && Parent(i) == j ==> !less(s[c], s[i])
  }

  lemma SinkStep<T(!new)>(s: seq<T>, k: nat, n: nat, j: nat, c: nat, less: (T, T) -> bool)
    requires k <= j < n <= |s| && StrictTotalOrder(less) && Sinking(s, k, n, j, less)
    requires IsLargerChild(s, n, j, c, less) && less(s[j], s[c])
    ensures Sinking(s[j := s[c]][c := s[j]], k, n, c, less)
  {
    var t := s[j := s[c]][c := s[j]];
    forall i {:trigger Parent(i)} | 0 < i < n && k <= Parent(i) && Parent(i) != c ensures !less(t[Parent(i)], t[i]) {
      assert Parent(i) != j ==> !less(s[Parent(i)], s[i]);
    }
    forall i {:trigger Parent(i)} | 0 < i < n && Parent(i) == c ensures !less(t[Parent(c)], t[i]) {
      assert !less(s[c], s[i]);
    }
  }

  lemma SinkStarts<T(!new)>(s: seq<T>, k: nat, n: nat, less: (T, T) -> bool)
    requires k < n <= |s| && HeapFrom(s, k + 1, n, less)
    ensures Sinking(s, k, n, k, less)
  {
  }

  lemma SinkEnds<T(!new)>(s: seq<T>, k: nat, n: nat, j: nat, less: (T, T) -> bool)
    requires k <= j < n <= |s| && StrictTotalOrder(less) && Sinking(s, k, n, j, less)
    requires 2 * j + 1 < n ==> exists c: nat :: IsLargerChild(s, n, j, c, less) && !less(s[j], s[c])
    ensures HeapFrom(s, k, n, less)
  {
    forall i {:trigger Parent(i)} | 0 < i < n && Parent(i) == j ensures !less(s[j], s[i]) {
      var c: nat :| IsLargerChild(s, n, j, c, less) && !less(s[j], s[c]);
      assert !less(s[c], s[i]);
    }
  }

  method FixDown<T(!new)>(a: array<T>, k: nat, n: nat, less: (T, T) -> bool)
    requires k < n <= a.Length && StrictTotalOrder(less) && HeapFrom(a[..], k + 1, n, less)
    modifies a
    ensures HeapFrom(a[..], k, n, less) && Permuted(old(a[..]), a[..], k, n)
  {
    hide HeapFrom;
    hide Permuted;
    hide Sinking;
    hide IsLargerChild;
    hide StrictTotalOrder;
    PermutedSame(a[..], k, n);
    SinkStarts(a[..], k, n, less);
    var j := k;
    while 2 * j + 1 < n
      invariant k <= j < n
      invariant Permuted(old(a[..]), a[..], k, n)
      invariant Sinking(a[..], k, n, j, less)
    {
      var i := 2 * j + 1;
      if i < n - 1 && less(a[i], a[i + 1]) {
        i := i + 1;
      }
      LargerChild(a[..], n, j, i, less);
      if !less(a[j], a[i]) {
        break;
      }
      SinkStep(a[..], k, n, j, i, less);
      PermutedSwap(old(a[..]), a[..], k, n, j, i);
      Swap(a, j, i);
      j := i;
    }
    SinkEnds(a[..], k, n, j, less);
  }

  lemma LargerChild<T(!new)>(s: seq<T>, n: nat, j: nat, c: nat, less: (T, T) -> bool)
    requires n <= |s| && StrictTotalOrder(less) && 2 * j + 1 < n
    requires c == if 2 * j + 1 < n - 1 && less(s[2 * j + 1], s[2 * j + 2]) then 2 * j + 2 else 2 * j + 1
    ensures IsLargerChild(s, n, j, c, less)
  {
    forall i {:trigger Parent(i)} | 0 < i < n && Parent(i) == j ensures !less(s[c], s[i]) {
      assert i == 2 * j + 1 || i == 2 * j + 2;
    }
  }

  /** HEAPIFY. */
  method Heapify<T(!new)>(a: array<T>, less: (T, T) -> bool)
    requires StrictTotalOrder(less)
    modifies a
    ensures IsHeap(a[..], a.Length, less) && multiset(a[..]) == old(multiset(a[..]))
  {
    // (n - 2) / 2 truncates towards zero in C: -1 for no element, 0 for one.
    var k := if a.Length >= 2 then (a.Length - 2) / 2 else if a.Length == 0 then -1 else 0;
    while k >= 0
      invariant -1 <= k < a.Length
      invariant HeapFrom(a[..], k + 1, a.Length, less)
      invariant multiset(a[..]) == old(multiset(a[..]))
    {
      FixDown(a, k, a.Length, less);
      k := k - 1;
    }
  }

  /** From n on the elements are in descending order of LESS reversed: sorted, and none below n
      is smaller than one from n on. */
  ghost predicate SortedFrom<T(!new)>(s: seq<T>, n: nat, less: (T, T) -> bool) {
    forall i, j :: 0 <= i < j < |s| && n <= j ==> !less(s[j], s[i])
  }

  /** Permuting the elements below n disturbs nothing behind them. */
  lemma SortedFromPermuted<T(!new)>(before: seq<T>, s: seq<T>, n: nat, less: (T, T) -> bool)
    requires n <= |before| && SortedFrom(before, n, less) && Permuted(before, s, 0, n)
    ensures SortedFrom(s, n, less)
  {
    forall i, j | 0 <= i < j < |s| && n <= j ensures !less(s[j], s[i]) {
      assert s[j] == s[n..][j - n] == before[j];
      if i >= n {
        assert s[i] == s[n..][i - n] == before[i];
      } else {
        PermutedPrefix(before, s, n);
        assert s[..n][i] in multiset(before[..n]);
        var k :| 0 <= k < n && before[..n][k] == s[i];
        assert before[k] == s[i];
      }
    }
  }

  lemma PermutedPrefix<T>(before: seq<T>, s: seq<T>, n: nat)
    requires Permuted(before, s, 0, n)
    ensures multiset(s[..n]) == multiset(before[..n])
  {
    assert s == s[..n] + s[n..] && before == before[..n] + before[n..];
    assert multiset(s[..n]) == multiset(s) - multiset(s[n..]);
    assert multiset(before[..n]) == multiset(before) - multiset(before[n..]);
  }

  /** Moving the root behind the heap extends the sorted part. */
  lemma SortStep<T(!new)>(s: seq<T>, n: nat, less: (T, T) -> bool)
    requires 0 < n < |s| && StrictTotalOrder(less) && IsHeap(s, n + 1, less) && SortedFrom(s, n + 1, less)
    ensures var t := s[0 := s[n]][n := s[0]]; SortedFrom(t, n, less) && HeapFrom(t, 1, n, less)
  {
    var t := s[0 := s[n]][n := s[0]];
    forall i, j | 0 <= i < j < |t| && n <= j ensures !less(t[j], t[i]) {
      if j == n {
        RootIsLargest(s, n + 1, less, if i == 0 then n else i);
      }
    }
    forall i {:trigger Parent(i)} | 0 < i < n && 1 <= Parent(i) ensures !less(t[Parent(i)], t[i]) {
      assert !less(s[Parent(i)], s[i]);
    }
  }

  ghost predicate Sorted<T(!new)>(s: seq<T>, less: (T, T) -> bool) {
    forall i, j :: 0 <= i < j < |s| ==> !less(s[j], s[i])
  }

  /** HEAP_SORT. */
  method HeapSort<T(!new)>(a: array<T>, less: (T, T) -> bool)
    requires StrictTotalOrder(less) && IsHeap(a[..], a.Length, less)
    modifies a
    ensures Sorted(a[..], less) && multiset(a[..]) == old(multiset(a[..]))
  {
    hide Permuted;
    var n := a.Length;
    while n > 1
      invariant 0 <= n <= a.Length && (n == 0 ==> a.Length == 0)
      invariant IsHeap(a[..], n, less) && SortedFrom(a[..], n, less)
      invariant multiset(a[..]) == old(multiset(a[..]))
    {
      n := n - 1;
      SortStep(a[..], n, less);
      SwapKeepsMultiset(a[..], 0, n);
      Swap(a, 0, n);
      ghost var swapped := a[..];
      FixDown(a, 0, n, less);
      SortedFromPermuted(swapped, a[..], n, less);
      PermutedMultiset(swapped, a[..], 0, n);
    }
  }

  lemma PermutedMultiset<T>(before: seq<T>, s: seq<T>, lo: nat, n: nat)
    requires Permuted(before, s, lo, n)
    ensures multiset(s) == multiset(before)
  {
  }
}
