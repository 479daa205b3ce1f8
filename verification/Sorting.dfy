/** `qsort` and `bsearch` over an array of bytes holding elements of any one size. */
module Sorting {
  import opened Words

  datatype Option<T> = None | Some(value: T)

  type Element = seq<byte>
  type Compare = (Element, Element) -> int

  /** A comparison that a caller may pass: consistent, and ordering everything. */
  ghost predicate TotalPreorder(cmp: Compare) {
    && (forall x, y :: cmp(x, y) < 0 <==> cmp(y, x) > 0)
    && (forall x, y, z :: cmp(x, y) <= 0 && cmp(y, z) <= 0 ==> cmp(x, z) <= 0)
  }

  // ---- Elements ----

  /** Where element i starts. */
  function Off(i: nat, size: nat): nat {
    MulMonotone(0, i, size);
    i * size
  }

  /** Elements follow one another without overlap. */
  lemma OffApart(i: nat, j: nat, size: nat)
    requires i < j
    ensures Off(i, size) + size <= Off(j, size)
    ensures Off(i + 1, size) == Off(i, size) + size
  {
    MulDistributes(i, 1, size);
    MulMonotone(i + 1, j, size);
  }

  function Elem(s: seq<byte>, i: nat, size: nat): (e: Element)
    requires Off(i, size) + size <= |s|
  {
    s[Off(i, size)..Off(i, size) + size]
  }

  ghost predicate Holds(s: seq<byte>, n: nat, size: nat) {
    Off(n, size) <= |s|
  }

  lemma ElemFits(s: seq<byte>, i: nat, n: nat, size: nat)
    requires Holds(s, n, size) && i < n
    ensures Off(i, size) + size <= Off(n, size) <= |s|
  {
    hide Off;
    OffApart(i, n, size);
  }

  /** The n elements at the front of the array. */
  ghost function Elems(s: seq<byte>, n: nat, size: nat): (es: seq<Element>)
    requires Holds(s, n, size)
    ensures |es| == n
    decreases n
  {
    if n == 0 then []
    else
      ElemFits(s, n - 1, n, size);
      Elems(s, n - 1, size) + [Elem(s, n - 1, size)]
  }

  lemma {:induction false} ElemsAt(s: seq<byte>, n: nat, size: nat, i: nat)
    requires Holds(s, n, size) && i < n
    ensures Off(i, size) + size <= |s| && Elems(s, n, size)[i] == Elem(s, i, size)
    decreases n
  {
    hide Off;
    ElemFits(s, i, n, size);
    ElemFits(s, n - 1, n, size);
    if i < n - 1 { ElemsAt(s, n - 1, size, i); }
  }

  function Swapped(es: seq<Element>, i: nat, j: nat): seq<Element>
    requires i < |es| && j < |es|
  {
    es[i := es[j]][j := es[i]]
  }

  /** Two stretches of bytes have changed places and nothing else moved. */
  ghost predicate BytesSwapped(s: seq<byte>, s': seq<byte>, p: nat, q: nat, n: nat) {
    && |s'| == |s| && p + n <= |s| && q + n <= |s|
    && s'[p..p + n] == s[q..q + n] && s'[q..q + n] == s[p..p + n]
    && forall k :: 0 <= k < |s| && !(p <= k < p + n) && !(q <= k < q + n) ==> s'[k] == s[k]
  }

  /** Swapping the bytes of two elements swaps the elements, whole. */
  lemma SwapMovesWhole(s: seq<byte>, s': seq<byte>, n: nat, size: nat, i: nat, j: nat)
    requires Holds(s, n, size) && i < n && j < n
    requires BytesSwapped(s, s', Off(i, size), Off(j, size), size)
    ensures Holds(s', n, size)
    ensures Elems(s', n, size) == Swapped(Elems(s, n, size), i, j)
    ensures s'[Off(n, size)..] == s[Off(n, size)..]
  {
    hide Off;
    var es, es' := Elems(s, n, size), Elems(s', n, size);
    ElemFits(s, i, n, size);
    ElemFits(s, j, n, size);
    forall k | 0 <= k < n
      ensures es'[k] == Swapped(es, i, j)[k]
    {
      SwapAtElement(s, s', n, size, i, j, k);
    }
  }

  lemma SwapAtElement(s: seq<byte>, s': seq<byte>, n: nat, size: nat, i: nat, j: nat, k: nat)
    requires Holds(s, n, size) && Holds(s', n, size) && i < n && j < n && k < n
    requires BytesSwapped(s, s', Off(i, size), Off(j, size), size)
    ensures Elems(s', n, size)[k] == Swapped(Elems(s, n, size), i, j)[k]
  {
    hide Off, Elems;
    ElemsAt(s', n, size, k);
    ElemsAt(s, n, size, k);
    ElemsAt(s, n, size, i);
    ElemsAt(s, n, size, j);
    if k != i && k != j {
      if k < i { OffApart(k, i, size); } else { OffApart(i, k, size); }
      if k < j { OffApart(k, j, size); } else { OffApart(j, k, size); }
      assert Elem(s', k, size) == Elem(s, k, size);
    }
  }

  // ---- Order and permutation ----

  ghost predicate Sorted(es: seq<Element>, cmp: Compare) {
    forall i, j :: 0 <= i < j < |es| ==> cmp(es[i], es[j]) <= 0
  }

  ghost predicate Permuted(es: seq<Element>, es': seq<Element>) {
    multiset(es) == multiset(es')
  }

  /** Only the stretch from lo up to hi was rearranged. */
  ghost predicate PermutedIn(es: seq<Element>, es': seq<Element>, lo: nat, hi: nat) {
    && lo <= hi <= |es| == |es'|
    && es'[..lo] == es[..lo] && es'[hi..] == es[hi..]
    && Permuted(es[lo..hi], es'[lo..hi])
  }

  lemma SwapPermutes(es: seq<Element>, lo: nat, hi: nat, i: nat, j: nat)
    requires lo <= i < hi <= |es| && lo <= j < hi
    ensures PermutedIn(es, Swapped(es, i, j), lo, hi)
  {
    SwapInPart(es, lo, hi, i, j);
    SwapSameBag(es[lo..hi], i - lo, j - lo);
  }

  lemma SwapInPart(es: seq<Element>, lo: nat, hi: nat, i: nat, j: nat)
    requires lo <= i < hi <= |es| && lo <= j < hi
    ensures var es' := Swapped(es, i, j);
            && |es'| == |es| && es'[lo..hi] == Swapped(es[lo..hi], i - lo, j - lo)
            && es'[..lo] == es[..lo] && es'[hi..] == es[hi..]
  {
  }

  lemma SwapSameBag(es: seq<Element>, i: nat, j: nat)
    requires i < |es| && j < |es|
    ensures multiset(Swapped(es, i, j)) == multiset(es)
  {
  }

  lemma PermutedTrans(es: seq<Element>, es1: seq<Element>, es2: seq<Element>, lo: nat, hi: nat)
    requires PermutedIn(es, es1, lo, hi) && PermutedIn(es1, es2, lo, hi)
    ensures PermutedIn(es, es2, lo, hi)
  {
  }

  /** Rearranging part of a stretch rearranges the stretch. */
  lemma PermutedWiden(es: seq<Element>, es': seq<Element>, lo: nat, hi: nat, from: nat, to: nat)
    requires PermutedIn(es, es', lo, hi) && from <= lo && hi <= to <= |es|
    ensures PermutedIn(es, es', from, to)
  {
    assert es[from..to] == es[from..lo] + es[lo..hi] + es[hi..to];
    assert es'[from..to] == es'[from..lo] + es'[lo..hi] + es'[hi..to];
    assert es'[from..lo] == es'[..lo][from..] == es[from..lo];
    assert es'[hi..to] == es'[hi..][..to - hi] == es[hi..to];
    assert es'[..from] == es'[..lo][..from] == es[..from];
    assert es'[to..] == es'[hi..][to - hi..] == es[to..];
  }

  /** What holds of every element of a stretch holds after it is rearranged. */
  lemma PermutedMember(es: seq<Element>, es': seq<Element>, lo: nat, hi: nat, k: nat) returns (m: nat)
    requires PermutedIn(es, es', lo, hi) && lo <= k < hi
    ensures lo <= m < hi && es[m] == es'[k]
  {
    assert es'[k] == es'[lo..hi][k - lo];
    assert es'[k] in multiset(es'[lo..hi]);
    assert es'[k] in es[lo..hi];
    var i :| 0 <= i < hi - lo && es[lo..hi][i] == es'[k];
    m := lo + i;
  }

  // ---- Quicksort ----

  /** A pivot at `last`, smaller elements before it and the rest behind. */
  ghost predicate Partitioned(es: seq<Element>, cmp: Compare, left: nat, last: nat, right: nat) {
    && left <= last <= right < |es|
    && (forall k :: left <= k < last ==> cmp(es[k], es[last]) < 0)
    && (forall k :: last < k <= right ==> cmp(es[k], es[last]) >= 0)
  }

  /** Sorting both sides of a partition sorts the whole. */
  lemma SidesSorted(es1: seq<Element>, es2: seq<Element>, es3: seq<Element>, cmp: Compare,
                    left: nat, last: nat, right: nat)
    requires TotalPreorder(cmp) && Partitioned(es1, cmp, left, last, right)
    requires PermutedIn(es1, es2, left, last) && Sorted(es2[left..last], cmp)
    requires PermutedIn(es2, es3, last + 1, right + 1) && Sorted(es3[last + 1..right + 1], cmp)
    ensures PermutedIn(es1, es3, left, right + 1) && Sorted(es3[left..right + 1], cmp)
  {
    assert |es1| == |es2| == |es3| && left <= last <= right < |es1|;
    hide PermutedIn, TotalPreorder, Partitioned;
    PermutedWiden(es1, es2, left, last, left, right + 1);
    PermutedWiden(es2, es3, last + 1, right + 1, left, right + 1);
    PermutedTrans(es1, es2, es3, left, right + 1);
    forall i, j | left <= i < j <= right
      ensures cmp(es3[i], es3[j]) <= 0
    {
      PairSorted(es1, es2, es3, cmp, left, last, right, i, j);
    }
  }

  lemma PermutedFits(es: seq<Element>, es': seq<Element>, lo: nat, hi: nat)
    requires PermutedIn(es, es', lo, hi)
    ensures lo <= hi <= |es| == |es'|
  {
  }

  lemma SortedAt(es: seq<Element>, cmp: Compare, lo: nat, hi: nat, i: nat, j: nat)
    requires hi <= |es| && lo <= i < j < hi && Sorted(es[lo..hi], cmp)
    ensures cmp(es[i], es[j]) <= 0
  {
    assert es[i] == es[lo..hi][i - lo] && es[j] == es[lo..hi][j - lo];
  }

  lemma PairSorted(es1: seq<Element>, es2: seq<Element>, es3: seq<Element>, cmp: Compare,
                   left: nat, last: nat, right: nat, i: nat, j: nat)
    requires TotalPreorder(cmp) && Partitioned(es1, cmp, left, last, right)
    requires PermutedIn(es1, es2, left, last) && Sorted(es2[left..last], cmp)
    requires PermutedIn(es2, es3, last + 1, right + 1) && Sorted(es3[last + 1..right + 1], cmp)
    requires left <= i < j <= right
    ensures cmp(es3[i], es3[j]) <= 0
  {
    hide Sorted, PermutedIn, Partitioned;
    PermutedFits(es1, es2, left, last);
    PermutedFits(es2, es3, last + 1, right + 1);
    if j < last {
      FrontUntouched(es2, es3, last + 1, right + 1, i);
      FrontUntouched(es2, es3, last + 1, right + 1, j);
      SortedAt(es2, cmp, left, last, i, j);
    } else if i > last {
      SortedAt(es3, cmp, last + 1, right + 1, i, j);
    } else {
      BeforePivot(es1, es2, es3, cmp, left, last, right, i);
      BehindPivot(es1, es2, es3, cmp, left, last, right, j);
      Transitive(cmp, es3[i], es1[last], es3[j]);
    }
  }

  lemma Transitive(cmp: Compare, x: Element, y: Element, z: Element)
    requires TotalPreorder(cmp) && cmp(x, y) <= 0 && cmp(y, z) <= 0
    ensures cmp(x, z) <= 0
  {
  }

  lemma FrontUntouched(es: seq<Element>, es': seq<Element>, lo: nat, hi: nat, i: nat)
    requires PermutedIn(es, es', lo, hi) && i < lo
    ensures es'[i] == es[i]
  {
    assert es'[i] == es'[..lo][i] && es[i] == es[..lo][i];
  }

  lemma BackUntouched(es: seq<Element>, es': seq<Element>, lo: nat, hi: nat, i: nat)
    requires PermutedIn(es, es', lo, hi) && hi <= i < |es|
    ensures es'[i] == es[i]
  {
    assert es'[i] == es'[hi..][i - hi] && es[i] == es[hi..][i - hi];
  }

  lemma BeforePivot(es1: seq<Element>, es2: seq<Element>, es3: seq<Element>, cmp: Compare,
                    left: nat, last: nat, right: nat, i: nat)
    requires TotalPreorder(cmp) && Partitioned(es1, cmp, left, last, right)
    requires PermutedIn(es1, es2, left, last) && PermutedIn(es2, es3, last + 1, right + 1)
    requires left <= i <= last
    ensures cmp(es3[i], es1[last]) <= 0
  {
    hide PermutedIn;
    FrontUntouched(es2, es3, last + 1, right + 1, i);
    if i < last {
      var m := PermutedMember(es1, es2, left, last, i);
    } else {
      BackUntouched(es1, es2, left, last, last);
      assert cmp(es1[last], es1[last]) == 0;
    }
  }

  lemma BehindPivot(es1: seq<Element>, es2: seq<Element>, es3: seq<Element>, cmp: Compare,
                    left: nat, last: nat, right: nat, j: nat)
    requires TotalPreorder(cmp) && Partitioned(es1, cmp, left, last, right)
    requires PermutedIn(es1, es2, left, last) && PermutedIn(es2, es3, last + 1, right + 1)
    requires last <= j <= right
    ensures cmp(es1[last], es3[j]) <= 0
  {
    if j > last {
      var m := PermutedMember(es2, es3, last + 1, right + 1, j);
      BackUntouched(es1, es2, left, last, m);
      assert cmp(es1[m], es1[last]) >= 0;
    } else {
      FrontUntouched(es2, es3, last + 1, right + 1, last);
      BackUntouched(es1, es2, left, last, last);
      assert cmp(es1[last], es1[last]) == 0;
    }
  }

  /** `qsort_swap`: byte by byte, also when both stretches are the same one. */
  method SwapBytes(a: array<byte>, p: nat, q: nat, n: nat)
    requires p + n <= a.Length && q + n <= a.Length
    requires p == q || p + n <= q || q + n <= p
    modifies a
    ensures BytesSwapped(old(a[..]), a[..], p, q, n)
  {
    ghost var s := a[..];
    for k := 0 to n
      invariant forall i :: p <= i < p + k ==> a[i] == s[i - p + q]
      invariant forall i :: q <= i < q + k ==> a[i] == s[i - q + p]
      invariant forall i :: 0 <= i < a.Length && !(p <= i < p + k) && !(q <= i < q + k) ==> a[i] == s[i]
    {
      var t := a[p + k];
      a[p + k] := a[q + k];
      a[q + k] := t;
    }
    assert a[..][p..p + n] == s[q..q + n] && a[..][q..q + n] == s[p..p + n];
  }

  method SwapElems(a: array<byte>, i: nat, j: nat, size: nat, ghost n: nat)
    requires Holds(a[..], n, size) && i < n && j < n
    modifies a
    ensures Holds(a[..], n, size) && Elems(a[..], n, size) == Swapped(old(Elems(a[..], n, size)), i, j)
    ensures a[..][Off(n, size)..] == old(a[..])[Off(n, size)..]
  {
    hide Off, Elems, BytesSwapped;
    ghost var s := a[..];
    ElemFits(s, i, n, size);
    ElemFits(s, j, n, size);
    if i < j { OffApart(i, j, size); }
    if j < i { OffApart(j, i, size); }
    SwapBytes(a, Off(i, size), Off(j, size), size);
    SwapMovesWhole(s, a[..], n, size, i, j);
  }

  /** A swap within a stretch that has only been rearranged so far. */
  method SwapIn(a: array<byte>, i: nat, j: nat, size: nat, ghost n: nat, ghost es0: seq<Element>, ghost lo: nat, ghost hi: nat)
    requires Holds(a[..], n, size) && lo <= i < hi <= n && lo <= j < hi
    requires PermutedIn(es0, Elems(a[..], n, size), lo, hi)
    modifies a
    ensures Holds(a[..], n, size) && Elems(a[..], n, size) == Swapped(old(Elems(a[..], n, size)), i, j)
    ensures a[..][Off(n, size)..] == old(a[..])[Off(n, size)..]
    ensures PermutedIn(es0, Elems(a[..], n, size), lo, hi)
  {
    hide Off, Elems, PermutedIn, Swapped;
    ghost var es := Elems(a[..], n, size);
    SwapPermutes(es, lo, hi, i, j);
    SwapElems(a, i, j, size, n);
    PermutedTrans(es0, es, Elems(a[..], n, size), lo, hi);
  }

  lemma PermutedSelf(es: seq<Element>, lo: nat, hi: nat)
    requires lo <= hi <= |es|
    ensures PermutedIn(es, es, lo, hi)
  {
  }

  /** What the partitioning loop has established before it looks at element i. */
  ghost predicate Scanned(es: seq<Element>, cmp: Compare, left: nat, last: nat, i: nat) {
    && left <= last < i <= |es|
    && (forall k :: left < k <= last ==> cmp(es[k], es[left]) < 0)
    && (forall k :: last < k < i ==> cmp(es[k], es[left]) >= 0)
  }

  lemma ScanStep(es: seq<Element>, cmp: Compare, left: nat, last: nat, i: nat)
    requires Scanned(es, cmp, left, last, i) && i < |es|
    ensures cmp(es[i], es[left]) >= 0 ==> Scanned(es, cmp, left, last, i + 1)
    ensures cmp(es[i], es[left]) < 0 ==> Scanned(Swapped(es, last + 1, i), cmp, left, last + 1, i + 1)
  {
  }

  lemma ScanEnds(es: seq<Element>, cmp: Compare, left: nat, last: nat, right: nat)
    requires TotalPreorder(cmp) && Scanned(es, cmp, left, last, right + 1)
    ensures Partitioned(Swapped(es, left, last), cmp, left, last, right)
  {
    if left < last { assert cmp(es[last], es[left]) < 0; }
  }

  /** The first half of `qsort_rec`: lines 1272-1280. */
  method Partition(a: array<byte>, left: nat, right: nat, size: nat, cmp: Compare, ghost n: nat) returns (last: int)
    requires left < right < n <= 0x4000_0000 && Holds(a[..], n, size) && TotalPreorder(cmp)
    modifies a
    ensures Holds(a[..], n, size) && a[..][Off(n, size)..] == old(a[..])[Off(n, size)..]
    ensures PermutedIn(old(Elems(a[..], n, size)), Elems(a[..], n, size), left, right + 1)
    ensures 0 <= last && Partitioned(Elems(a[..], n, size), cmp, left, last, right)
    ensures left <= last <= right
  {
    hide Off, Elems, PermutedIn, Scanned, Swapped, Partitioned, TotalPreorder;
    ghost var es0 := Elems(a[..], n, size);
    PermutedSelf(es0, left, right + 1);
    SwapIn(a, left, (left + right) / 2, size, n, es0, left, right + 1);
    last := left;
    ghost var es := Elems(a[..], n, size);
    ScanStarts(es, cmp, left);
    var i := left + 1;
    while i <= right
      invariant left <= last < i <= right + 1
      invariant Holds(a[..], n, size) && a[..][Off(n, size)..] == old(a[..])[Off(n, size)..]
      invariant es == Elems(a[..], n, size)
      invariant PermutedIn(es0, es, left, right + 1) && Scanned(es, cmp, left, last, i)
    {
      ElemsAt(a[..], n, size, i);
      ElemsAt(a[..], n, size, left);
      ScanStep(es, cmp, left, last, i);
      if cmp(Elem(a[..], i, size), Elem(a[..], left, size)) < 0 {
        last := last + 1;
        SwapIn(a, last, i, size, n, es0, left, right + 1);
        es := Elems(a[..], n, size);
      }
      i := i + 1;
    }
    ScanEnds(es, cmp, left, last, right);
    SwapIn(a, left, last, size, n, es0, left, right + 1);
  }

  lemma ScanStarts(es: seq<Element>, cmp: Compare, left: nat)
    requires left < |es|
    ensures Scanned(es, cmp, left, left, left + 1)
  {
  }

  /** `qsort_rec` */
  method SortRange(a: array<byte>, left: nat, right: int, size: nat, cmp: Compare, ghost n: nat)
    requires left <= right + 1 <= n <= 0x4000_0000 && Holds(a[..], n, size) && TotalPreorder(cmp)
    modifies a
    ensures Holds(a[..], n, size) && a[..][Off(n, size)..] == old(a[..])[Off(n, size)..]
    ensures PermutedIn(old(Elems(a[..], n, size)), Elems(a[..], n, size), left, right + 1)
    ensures Sorted(Elems(a[..], n, size)[left..right + 1], cmp)
    decreases right + 1 - left
  {
    hide Off, Elems, PermutedIn, Sorted, Partitioned;
    ghost var es0 := Elems(a[..], n, size);
    if left >= right {
      AtMostOne(es0, cmp, left, right + 1);
      return;
    }
    var last := Partition(a, left, right, size, cmp, n);
    ghost var es1 := Elems(a[..], n, size);
    SortRange(a, left, last - 1, size, cmp, n);
    ghost var es2 := Elems(a[..], n, size);
    SortRange(a, last + 1, right, size, cmp, n);
    ghost var es3 := Elems(a[..], n, size);
    SidesSorted(es1, es2, es3, cmp, left, last, right);
    PermutedTrans(es0, es1, es3, left, right + 1);
  }

  lemma AtMostOne(es: seq<Element>, cmp: Compare, lo: nat, hi: nat)
    requires lo <= hi <= |es| && hi <= lo + 1
    ensures PermutedIn(es, es, lo, hi) && Sorted(es[lo..hi], cmp)
  {
  }

  /** `qsort`: a sorted permutation of the elements, none of them torn, and not a byte
      beyond them touched. The address space bounds the array at 2^30 bytes, so the
      index arithmetic stays within an int. */
  method QSort(a: array<byte>, nmemb: nat, size: nat, cmp: Compare)
    requires Holds(a[..], nmemb, size) && a.Length <= 0x4000_0000 && TotalPreorder(cmp)
    modifies a
    ensures Holds(a[..], nmemb, size) && a[..][Off(nmemb, size)..] == old(a[..])[Off(nmemb, size)..]
    ensures Permuted(old(Elems(a[..], nmemb, size)), Elems(a[..], nmemb, size))
    ensures size > 0 ==> Sorted(Elems(a[..], nmemb, size), cmp)
  {
    if nmemb < 2 || size == 0 {
      return;
    }
    CountFits(nmemb, size, a.Length);
    hide Off, Elems;
    ghost var es := Elems(a[..], nmemb, size);
    assert es[0..nmemb] == es;
    SortRange(a, 0, nmemb - 1, size, cmp, nmemb);
    assert Elems(a[..], nmemb, size)[0..nmemb] == Elems(a[..], nmemb, size);
  }

  lemma CountFits(n: nat, size: nat, len: nat)
    requires size > 0 && Off(n, size) <= len
    ensures n <= len
  {
    MulMonotone(1, size, n);
  }

  // ---- Binary search ----

  /** The key against each element: after, equal, before, in that order. */
  ghost predicate KeyMonotone(es: seq<Element>, key: Element -> int) {
    forall i, j :: 0 <= i < j < |es| ==>
                     (key(es[i]) < 0 ==> key(es[j]) < 0) && (key(es[j]) > 0 ==> key(es[i]) > 0)
  }

  /** A sorted array is one a binary search can use, for any key. */
  lemma SortedIsSearchable(es: seq<Element>, cmp: Compare, k: Element)
    requires TotalPreorder(cmp) && Sorted(es, cmp)
    ensures KeyMonotone(es, e => cmp(k, e))
  {
    forall i, j | 0 <= i < j < |es|
      ensures cmp(k, es[i]) < 0 ==> cmp(k, es[j]) < 0
      ensures cmp(k, es[j]) > 0 ==> cmp(k, es[i]) > 0
    {
      SearchOrder(cmp, k, es[i], es[j]);
    }
  }

  lemma SearchOrder(cmp: Compare, k: Element, x: Element, y: Element)
    requires TotalPreorder(cmp) && cmp(x, y) <= 0
    ensures cmp(k, x) < 0 ==> cmp(k, y) < 0
    ensures cmp(k, y) > 0 ==> cmp(k, x) > 0
  {
    assert cmp(k, y) >= 0 <==> cmp(y, k) <= 0;
    if cmp(k, x) < 0 && cmp(k, y) >= 0 {
      Transitive(cmp, x, y, k);
    }
    if cmp(k, y) > 0 && cmp(k, x) <= 0 {
      Transitive(cmp, k, x, y);
    }
  }

  /** `bsearch`: an element equal to the key, exactly when there is one. `lo` and `hi`
      are byte offsets, as the code has pointers. */
  method BSearch(s: seq<byte>, nmemb: nat, size: nat, key: Element -> int) returns (found: Option<nat>, ghost index: nat)
    requires Holds(s, nmemb, size)
    requires KeyMonotone(Elems(s, nmemb, size), key)
    ensures size == 0 ==> found.None?
    ensures found.Some? ==>
              index < nmemb && found.value == Off(index, size) && key(Elems(s, nmemb, size)[index]) == 0
    ensures size > 0 && found.None? ==> forall i :: 0 <= i < nmemb ==> key(Elems(s, nmemb, size)[i]) != 0
  {
    hide Off, Elems, KeyMonotone;
    ghost var es := Elems(s, nmemb, size);
    var lo, hi := 0, Off(nmemb, size);
    ghost var l, h := 0, nmemb;
    OffZero(size);
    while lo < hi
      invariant 0 <= l <= h <= nmemb && lo == Off(l, size) && hi == Off(h, size)
      invariant forall i :: 0 <= i < l ==> key(es[i]) > 0
      invariant forall i :: h <= i < nmemb ==> key(es[i]) < 0
      decreases h - l
    {
      ghost var m := l + (h - l) / 2;
      var midp := Middle(lo, hi, size, l, h);
      ElemsAt(s, nmemb, size, m);
      KeyNarrows(es, key, m);
      var c := key(s[midp..midp + size]);
      if c == 0 {
        return Some(midp), m;
      }
      if c < 0 {
        hi := midp;
        h := m;
      } else {
        OffApart(m, m + 1, size);
        lo := midp + size;
        l := m + 1;
      }
    }
    if l < h { OffApart(l, h, size); }
    found, index := None, 0;
  }

  /** What one comparison rules out. */
  lemma KeyNarrows(es: seq<Element>, key: Element -> int, m: nat)
    requires KeyMonotone(es, key) && m < |es|
    ensures key(es[m]) < 0 ==> forall i :: m <= i < |es| ==> key(es[i]) < 0
    ensures key(es[m]) > 0 ==> forall i :: 0 <= i <= m ==> key(es[i]) > 0
  {
  }

  lemma OffZero(size: nat)
    ensures Off(0, size) == 0 && (size == 0 ==> forall n :: Off(n, size) == 0)
  {
  }

  /** Halving the distance in bytes and then dividing by the size halves it in elements. */
  lemma OffGap(l: nat, h: nat, size: nat)
    requires l <= h && Off(l, size) < Off(h, size)
    ensures size > 0 && l < h
    ensures (Off(h, size) - Off(l, size)) / 2 / size == (h - l) / 2
  {
    var n := h - l;
    MulDistributes(h, l, size);
    if size == 0 { assert false; }
    var q, r := n / 2, n % 2;
    assert n == 2 * q + r;
    MulDistributes(2 * q, r, size);
    MulAssociative(2, q, size);
    assert (n * size) / 2 == q * size + (r * size) / 2;
    MulMonotone(r, 1, size);
    DivModUnique((n * size) / 2, size, q, (r * size) / 2);
  }

  lemma OffSum(l: nat, k: nat, size: nat)
    ensures Off(l, size) + k * size == Off(l + k, size)
  {
    MulDistributes(l, k, size);
  }

  /** Lines 2183-2184: the start of the element in the middle. */
  method Middle(lo: nat, hi: nat, size: nat, ghost l: nat, ghost h: nat) returns (midp: nat)
    requires l <= h && lo == Off(l, size) < Off(h, size) == hi
    ensures size > 0 && l < h && midp == Off(l + (h - l) / 2, size)
  {
    hide Off;
    OffGap(l, h, size);
    OffSum(l, (h - l) / 2, size);
    var mid := (hi - lo) / 2 / size;
    midp := lo + mid * size;
  }
}
