/** Sorting a part of an array in place: quicksort that falls back to heapsort and insertion sort. */
module Sorting {
  /** less is a strict weak order: what sorts by a key, with ties allowed, is one. */
  ghost predicate StrictWeakOrder<T(!new)>(less: (T, T) -> bool) {
    && (forall x :: !less(x, x))
    && (forall x, y, z :: less(x, y) && less(y, z) ==> less(x, z))
    && (forall x, y, z :: less(x, z) ==> less(x, y) || less(y, z))
  }

  /** Comparing by a key is one, with ties or without. */
  lemma ByKey<T(!new)>(key: T -> int)
    ensures StrictWeakOrder((x, y) => key(x) < key(y))
  {}

  /** x may stand before y. */
  predicate Leq<T>(less: (T, T) -> bool, x: T, y: T) { !less(y, x) }

  lemma LeqTransitive<T(!new)>(less: (T, T) -> bool, x: T, y: T, z: T)
    requires StrictWeakOrder(less) && Leq(less, x, y) && Leq(less, y, z)
    ensures Leq(less, x, z)
  {}

  lemma LeqFromLess<T(!new)>(less: (T, T) -> bool, x: T, y: T)
    requires StrictWeakOrder(less)
    ensures less(x, y) ==> Leq(less, x, y)
    ensures Leq(less, x, x)
  {
    assert less(x, y) && less(y, x) ==> less(x, x);
  }

  /** No element of s[lo..hi] may not stand before a later one. */
  ghost predicate Sorted<T(!new)>(less: (T, T) -> bool, s: seq<T>, lo: nat, hi: nat) {
    hi <= |s| && forall i, j :: lo <= i < j < hi ==> Leq(less, s[i], s[j])
  }

  /** Every element of s[lo..hi] may stand before every element of s[lo2..hi2]. */
  ghost predicate Before<T(!new)>(less: (T, T) -> bool, s: seq<T>, lo: nat, hi: nat, lo2: nat, hi2: nat) {
    hi <= |s| && hi2 <= |s| && forall i, j :: lo <= i < hi && lo2 <= j < hi2 ==> Leq(less, s[i], s[j])
  }

  // ---- rearrangements ----------------------------------------------------------------------------

  /** after is before with s[lo..hi] permuted and all else untouched. */
  ghost predicate Rearranged<T>(before: seq<T>, after: seq<T>, lo: nat, hi: nat) {
    && |before| == |after| && lo <= hi <= |before|
    && before[..lo] == after[..lo] && before[hi..] == after[hi..]
    && multiset(before[lo..hi]) == multiset(after[lo..hi])
  }

  /** What sorting a part of an array comes to. */
  lemma InOrder<T(!new)>(less: (T, T) -> bool, before: seq<T>, after: seq<T>, lo: nat, hi: nat)
    requires Sorted(less, after, lo, hi) && Rearranged(before, after, lo, hi)
    ensures |before| == |after| && hi <= |after|
    ensures forall i, j :: lo <= i < j < hi ==> !less(after[j], after[i])
    ensures multiset(after) == multiset(before)
    ensures forall k :: 0 <= k < |after| && (k < lo || hi <= k) ==> after[k] == before[k]
  {
    assert before == before[..lo] + before[lo..hi] + before[hi..];
    assert after == after[..lo] + after[lo..hi] + after[hi..];
    forall k | 0 <= k < |after| && (k < lo || hi <= k) ensures after[k] == before[k] {
      assert k < lo ==> after[..lo][k] == before[..lo][k];
      assert hi <= k ==> after[hi..][k - hi] == before[hi..][k - hi];
    }
  }

  lemma RearrangedSame<T>(s: seq<T>, lo: nat, hi: nat)
    requires lo <= hi <= |s|
    ensures Rearranged(s, s, lo, hi)
  {}

  lemma RearrangedTwice<T>(a: seq<T>, b: seq<T>, c: seq<T>, lo: nat, hi: nat)
    requires Rearranged(a, b, lo, hi) && Rearranged(b, c, lo, hi)
    ensures Rearranged(a, c, lo, hi)
  {}

  /** A part of the range rearranged is the range rearranged. */
  lemma RearrangedWider<T>(a: seq<T>, b: seq<T>, lo: nat, hi: nat, lo2: nat, hi2: nat)
    requires Rearranged(a, b, lo, hi) && lo2 <= lo && hi <= hi2 <= |a|
    ensures Rearranged(a, b, lo2, hi2)
  {
    assert a[..lo2] == a[..lo][..lo2] && b[..lo2] == b[..lo][..lo2];
    assert a[hi2..] == a[hi..][hi2 - hi..] && b[hi2..] == b[hi..][hi2 - hi..];
    assert a[lo2..lo] == a[..lo][lo2..] && b[lo2..lo] == b[..lo][lo2..];
    assert a[hi..hi2] == a[hi..][..hi2 - hi] && b[hi..hi2] == b[hi..][..hi2 - hi];
    assert a[lo2..hi2] == a[lo2..lo] + a[lo..hi] + a[hi..hi2];
    assert b[lo2..hi2] == b[lo2..lo] + b[lo..hi] + b[hi..hi2];
  }

  function Swapped<T>(s: seq<T>, i: nat, j: nat): seq<T>
    requires i < |s| && j < |s|
  {
    s[i := s[j]][j := s[i]]
  }

  lemma SwapRearranges<T>(s: seq<T>, i: nat, j: nat, lo: nat, hi: nat)
    requires lo <= i < hi && lo <= j < hi && hi <= |s|
    ensures Rearranged(s, Swapped(s, i, j), lo, hi)
  {
    var t := Swapped(s, i, j);
    assert t[lo..hi] == s[lo..hi][i - lo := s[j]][j - lo := s[i]];
    assert t[..lo] == s[..lo] && t[hi..] == s[hi..];
  }

  /** What is in the range after was in it before. */
  lemma RearrangedFrom<T>(before: seq<T>, after: seq<T>, lo: nat, hi: nat, k: nat) returns (m: nat)
    requires Rearranged(before, after, lo, hi) && lo <= k < hi
    ensures lo <= m < hi && before[m] == after[k]
  {
    assert after[k] == after[lo..hi][k - lo];
    assert after[k] in multiset(after[lo..hi]);
    assert after[k] in before[lo..hi];
    var n :| 0 <= n < |before[lo..hi]| && before[lo..hi][n] == after[k];
    m := lo + n;
  }

  lemma RearrangedOutside<T>(before: seq<T>, after: seq<T>, lo: nat, hi: nat, k: nat)
    requires Rearranged(before, after, lo, hi) && k < |before| && !(lo <= k < hi)
    ensures after[k] == before[k]
  {
    if k < lo {
      assert before[..lo][k] == after[..lo][k];
    } else {
      assert before[hi..][k - hi] == after[hi..][k - hi];
    }
  }

  /** Sorting a part cannot spoil what all of the part satisfies. */
  lemma BeforeStays<T(!new)>(less: (T, T) -> bool, a: seq<T>, b: seq<T>, lo: nat, mid: nat, hi: nat, from: nat, to: nat)
    requires Rearranged(a, b, from, to) && lo <= mid <= hi <= |a|
    requires Before(less, a, lo, mid, mid, hi)
    requires (from <= to <= lo) || (lo <= from && to <= mid) || (mid <= from && to <= hi) || (hi <= from)
    ensures Before(less, b, lo, mid, mid, hi)
  {
    forall i, j | lo <= i < mid && mid <= j < hi ensures Leq(less, b[i], b[j]) {
      var i', j' := i, j;
      if from <= i < to { i' := RearrangedFrom(a, b, from, to, i); } else { RearrangedOutside(a, b, from, to, i); }
      if from <= j < to { j' := RearrangedFrom(a, b, from, to, j); } else { RearrangedOutside(a, b, from, to, j); }
      assert Leq(less, a[i'], a[j']);
    }
  }

  /** Swapping two elements of the array. */
  method Exchange<T>(a: array<T>, i: nat, j: nat)
    requires i < a.Length && j < a.Length
    modifies a
    ensures a[..] == Swapped(old(a[..]), i, j)
  {
    a[i], a[j] := a[j], a[i];
  }

  // ---- insertion sort ----------------------------------------------------------------------------

  /** s[lo..hi] is sorted but for the element at pos, which belongs at pos or further left. */
  ghost predicate Inserting<T(!new)>(less: (T, T) -> bool, s: seq<T>, lo: nat, hi: nat, pos: nat) {
    && lo <= pos < hi <= |s|
    && forall i, j :: lo <= i < j < hi && j != pos ==> Leq(less, s[i], s[j])
  }

  lemma InsertingStart<T(!new)>(less: (T, T) -> bool, s: seq<T>, lo: nat, i: nat)
    requires Sorted(less, s, lo, i) && lo <= i < |s|
    ensures Inserting(less, s, lo, i + 1, i)
  {}

  lemma InsertingStep<T(!new)>(less: (T, T) -> bool, s: seq<T>, lo: nat, hi: nat, pos: nat)
    requires StrictWeakOrder(less) && Inserting(less, s, lo, hi, pos) && lo < pos && less(s[pos], s[pos - 1])
    ensures Inserting(less, Swapped(s, pos, pos - 1), lo, hi, pos - 1)
  {
    var t := Swapped(s, pos, pos - 1);
    LeqFromLess(less, s[pos], s[pos - 1]);
    forall i, j | lo <= i < j < hi && j != pos - 1 ensures Leq(less, t[i], t[j]) {
      if j == pos {
        if i < pos - 1 { assert Leq(less, s[i], s[pos - 1]); }
      } else if i == pos {
        assert Leq(less, s[pos - 1], s[j]);
      } else if i == pos - 1 {
        assert Leq(less, s[pos], s[j]);
      } else {
        assert Leq(less, s[i], s[j]);
      }
    }
  }

  lemma InsertingDone<T(!new)>(less: (T, T) -> bool, s: seq<T>, lo: nat, hi: nat, pos: nat)
    requires StrictWeakOrder(less) && Inserting(less, s, lo, hi, pos)
    requires pos == lo || !less(s[pos], s[pos - 1])
    ensures Sorted(less, s, lo, hi)
  {
    forall i, j | lo <= i < j < hi ensures Leq(less, s[i], s[j]) {
      if j == pos && i < pos - 1 {
        LeqTransitive(less, s[i], s[pos - 1], s[pos]);
      }
    }
  }

  /** isort_array. */
  method InsertionSort<T(!new)>(a: array<T>, left: nat, right: nat, less: (T, T) -> bool)
    requires StrictWeakOrder(less) && left <= right < a.Length
    modifies a
    ensures Sorted(less, a[..], left, right + 1)
    ensures Rearranged(old(a[..]), a[..], left, right + 1)
    ensures forall i, j :: left <= i < j <= right ==> !less(a[j], a[i])
    ensures multiset(a[..]) == multiset(old(a[..]))
    ensures forall k :: 0 <= k < a.Length && (k < left || right < k) ==> a[k] == old(a[k])
  {
    hide Sorted, Rearranged, Inserting, StrictWeakOrder, Swapped;
    ghost var s := a[..];
    RearrangedSame(s, left, right + 1);
    OneIsSorted(less, s, left);
    var i := left + 1;
    while i <= right
      invariant left < i <= right + 1
      invariant Sorted(less, a[..], left, i) && Rearranged(s, a[..], left, right + 1)
    {
      var pos := i;
      InsertingStart(less, a[..], left, i);
      var j := i - 1;
      while less(a[pos], a[j])
        invariant left <= j == pos - 1 && pos <= i
        invariant Inserting(less, a[..], left, i + 1, pos) && Rearranged(s, a[..], left, right + 1)
        decreases j
      {
        ghost var before := a[..];
        InsertingStep(less, before, left, i + 1, pos);
        SwapRearranges(before, pos, j, left, right + 1);
        Exchange(a, pos, j);
        RearrangedTwice(s, before, a[..], left, right + 1);
        pos := j;
        if j == left {
          break;
        }
        j := j - 1;
      }
      InsertingDone(less, a[..], left, i + 1, pos);
      i := i + 1;
    }
    InOrder(less, s, a[..], left, right + 1);
  }

  lemma OneIsSorted<T(!new)>(less: (T, T) -> bool, s: seq<T>, left: nat)
    requires left < |s|
    ensures Sorted(less, s, left, left + 1)
  {}
}
