/** Quicksort on a part of an array, with a budget of levels after which heapsort takes over. */
module QuickSorting {
  import opened Sorting
  import opened HeapSorting

  // ---- partition ---------------------------------------------------------------------------------

  /** Up to i less than the pivot, from i to j not; the pivot is at right. */
  ghost predicate Partitioning<T(!new)>(less: (T, T) -> bool, s: seq<T>, left: nat, right: nat, i: nat, j: nat) {
    && left <= i <= j <= right < |s|
    && (forall k :: left <= k < i ==> less(s[k], s[right]))
    && (forall k :: i <= k < j ==> !less(s[k], s[right]))
  }

  /** Everything left of p is less than s[p], nothing right of it is. */
  ghost predicate Partitioned<T(!new)>(less: (T, T) -> bool, s: seq<T>, left: nat, right: nat, p: nat) {
    && left <= p <= right < |s|
    && (forall k :: left <= k < p ==> less(s[k], s[p]))
    && (forall k :: p < k <= right ==> !less(s[k], s[p]))
  }

  lemma PartitioningStart<T(!new)>(less: (T, T) -> bool, s: seq<T>, left: nat, right: nat)
    requires left < right < |s|
    ensures Partitioning(less, s, left, right, left, left)
  {}

  lemma PartitioningStep<T(!new)>(less: (T, T) -> bool, s: seq<T>, left: nat, right: nat, i: nat, j: nat)
    requires Partitioning(less, s, left, right, i, j) && j < right
    ensures less(s[j], s[right]) ==> Partitioning(less, Swapped(s, i, j), left, right, i + 1, j + 1)
    ensures !less(s[j], s[right]) ==> Partitioning(less, s, left, right, i, j + 1)
  {}

  lemma PartitioningDone<T(!new)>(less: (T, T) -> bool, s: seq<T>, left: nat, right: nat, i: nat)
    requires StrictWeakOrder(less) && Partitioning(less, s, left, right, i, right)
    ensures Partitioned(less, Swapped(s, i, right), left, right, i)
  {
    LeqFromLess(less, s[right], s[right]);
  }

  /** s has become now, partitioned as far as j. */
  ghost predicate Parting<T(!new)>(less: (T, T) -> bool, s: seq<T>, now: seq<T>, left: nat, right: nat, i: nat, j: nat) {
    Rearranged(s, now, left, right + 1) && Partitioning(less, now, left, right, i, j)
  }

  lemma PartingStart<T(!new)>(less: (T, T) -> bool, s: seq<T>, left: nat, right: nat, mid: nat)
    requires left <= mid <= right < |s| && left < right
    ensures Parting(less, s, Swapped(s, mid, right), left, right, left, left)
  {
    SwapRearranges(s, mid, right, left, right + 1);
    PartitioningStart(less, Swapped(s, mid, right), left, right);
  }

  lemma PartingStep<T(!new)>(less: (T, T) -> bool, s: seq<T>, now: seq<T>, left: nat, right: nat, i: nat, j: nat)
    requires left <= i <= j < right < |now| && Parting(less, s, now, left, right, i, j)
    ensures less(now[j], now[right]) ==> Parting(less, s, Swapped(now, i, j), left, right, i + 1, j + 1)
    ensures !less(now[j], now[right]) ==> Parting(less, s, now, left, right, i, j + 1)
  {
    hide Partitioning, Swapped, Rearranged;
    PartitioningStep(less, now, left, right, i, j);
    SwapRearranges(now, i, j, left, right + 1);
    RearrangedTwice(s, now, Swapped(now, i, j), left, right + 1);
  }

  lemma PartingDone<T(!new)>(less: (T, T) -> bool, s: seq<T>, now: seq<T>, left: nat, right: nat, i: nat)
    requires StrictWeakOrder(less) && left <= i <= right < |now| && Parting(less, s, now, left, right, i, right)
    ensures Partitioned(less, Swapped(now, i, right), left, right, i)
    ensures Rearranged(s, Swapped(now, i, right), left, right + 1)
  {
    PartitioningDone(less, now, left, right, i);
    SwapRearranges(now, i, right, left, right + 1);
    hide Partitioning, Swapped, Rearranged;
    RearrangedTwice(s, now, Swapped(now, i, right), left, right + 1);
  }

  /** qsort_partition around the middle element. */
  method Partition<T(!new)>(a: array<T>, left: nat, right: nat, less: (T, T) -> bool) returns (p: nat)
    requires StrictWeakOrder(less) && left < right < a.Length
    modifies a
    ensures Partitioned(less, a[..], left, right, p)
    ensures Rearranged(old(a[..]), a[..], left, right + 1)
  {
    hide Parting, Partitioned, Rearranged, StrictWeakOrder, Swapped;
    ghost var s := a[..];
    PartingStart(less, s, left, right, (right - left) / 2 + left);
    Exchange(a, (right - left) / 2 + left, right);
    var i := left;
    var j := left;
    while j < right
      invariant left <= i <= j <= right
      invariant Parting(less, s, a[..], left, right, i, j)
    {
      PartingStep(less, s, a[..], left, right, i, j);
      if less(a[j], a[right]) {
        Exchange(a, i, j);
        i := i + 1;
      }
      j := j + 1;
    }
    PartingDone(less, s, a[..], left, right, i);
    Exchange(a, i, right);
    p := i;
  }

  // ---- the budget --------------------------------------------------------------------------------

  /** depth_check for the next level: half of it, and a sixteenth of that half. */
  function NextBudget(d: nat): nat { d / 2 + d / 2 / 16 }

  /** Of 32 levels 17 are left, and of what is over a half. */
  lemma BudgetLeft(k: nat, r: nat)
    requires r < 32
    ensures NextBudget(32 * k + r) == 17 * k + r / 2
  {}

  /** How many levels of quicksort a budget allows. */
  function Levels(d: nat): nat {
    if d == 0 then 0 else 1 + Levels(NextBudget(d))
  }

  function Pow(b: nat, n: nat): (r: nat)
    ensures b > 0 ==> r > 0
  {
    if n == 0 then 1 else b * Pow(b, n - 1)
  }

  lemma PowIs(b: nat, n: nat)
    ensures Pow(b, 0) == 1 && Pow(b, n + 1) == b * Pow(b, n)
  {}

  /** Each level leaves at most 17/32 of the budget, so the number of levels is logarithmic. */
  lemma {:induction false} LevelsLogarithmic(d: nat)
    requires d > 0
    ensures Pow(32, Levels(d) - 1) <= Pow(17, Levels(d) - 1) * d
  {
    var next := NextBudget(d);
    var l := Levels(next);
    assert 32 * next <= 17 * d && Levels(d) == 1 + l;
    if next > 0 {
      LevelsLogarithmic(next);
      LogStep(Pow(32, l - 1), Pow(17, l - 1), next, d);
      assert Pow(32, l) == 32 * Pow(32, l - 1) && Pow(17, l) == 17 * Pow(17, l - 1);
    }
    hide Levels, NextBudget, Pow;
  }

  lemma LogStep(a: nat, b: nat, next: nat, d: nat)
    requires a <= b * next && 32 * next <= 17 * d
    ensures 32 * a <= 17 * b * d
  {
    assert 32 * (b * next) == b * (32 * next);
    assert b * (32 * next) <= b * (17 * d);
  }

  // ---- the sort ----------------------------------------------------------------------------------

  /** Both sides sorted around the pivot: all is sorted. */
  lemma SidesSorted<T(!new)>(less: (T, T) -> bool, s: seq<T>, left: nat, right: nat, p: nat)
    requires StrictWeakOrder(less) && left <= p <= right < |s|
    requires Sorted(less, s, left, p) && Sorted(less, s, p + 1, right + 1)
    requires Before(less, s, left, p, p, right + 1) && Before(less, s, left, p + 1, p + 1, right + 1)
    ensures Sorted(less, s, left, right + 1)
  {
    forall i, j | left <= i < j < right + 1 ensures Leq(less, s[i], s[j]) {
      if j < p || p < i {
      } else if i < p {
        assert Leq(less, s[i], s[j]);
      } else {
        assert Leq(less, s[p], s[j]);
      }
    }
  }

  lemma PartitionedBefore<T(!new)>(less: (T, T) -> bool, s: seq<T>, left: nat, right: nat, p: nat)
    requires StrictWeakOrder(less) && Partitioned(less, s, left, right, p)
    ensures left <= p <= right < |s|
    ensures Before(less, s, left, p, p, right + 1) && Before(less, s, left, p + 1, p + 1, right + 1)
  {
    LeqFromLess(less, s[p], s[p]);
    forall i, j | left <= i < p && p <= j < right + 1 ensures Leq(less, s[i], s[j]) {
      LeqFromLess(less, s[i], s[p]);
      if j > p { LeqTransitive(less, s[i], s[p], s[j]); }
    }
  }

  lemma SortedStays<T(!new)>(less: (T, T) -> bool, a: seq<T>, b: seq<T>, lo: nat, hi: nat, from: nat, to: nat)
    requires Sorted(less, a, lo, hi) && Rearranged(a, b, from, to) && (hi <= from || to <= lo)
    ensures Sorted(less, b, lo, hi)
  {
    forall k | lo <= k < hi ensures b[k] == a[k] { RearrangedOutside(a, b, from, to, k); }
  }

  lemma EmptyIsSorted<T(!new)>(less: (T, T) -> bool, s: seq<T>, lo: nat)
    requires lo <= |s|
    ensures Sorted(less, s, lo, lo) && (lo < |s| ==> Sorted(less, s, lo, lo + 1))
  {}

  /** What sorting the left side and then the right side of a partitioned range gives. */
  lemma BothSides<T(!new)>(less: (T, T) -> bool, s: seq<T>, parted: seq<T>, half: seq<T>, done: seq<T>, left: nat, right: nat, p: nat)
    requires StrictWeakOrder(less) && Partitioned(less, parted, left, right, p)
    requires Rearranged(s, parted, left, right + 1)
    requires Rearranged(parted, half, left, p) && Sorted(less, half, left, p)
    requires Rearranged(half, done, p + 1, right + 1) && Sorted(less, done, p + 1, right + 1)
    ensures Sorted(less, done, left, right + 1) && Rearranged(s, done, left, right + 1)
  {
    PartitionedBefore(less, parted, left, right, p);
    hide StrictWeakOrder, Partitioned, Sorted, Before, Rearranged;
    StillBefore(less, parted, half, done, left, right, p, p);
    StillBefore(less, parted, half, done, left, right, p, p + 1);
    SortedStays(less, half, done, left, p, p + 1, right + 1);
    HeapSorting.SameLength(parted, half, left, p);
    HeapSorting.SameLength(half, done, p + 1, right + 1);
    SidesSorted(less, done, left, right, p);
    RearrangedWider(parted, half, left, p, left, right + 1);
    RearrangedWider(half, done, p + 1, right + 1, left, right + 1);
    RearrangedTwice(s, parted, half, left, right + 1);
    RearrangedTwice(s, half, done, left, right + 1);
  }

  lemma StillBefore<T(!new)>(less: (T, T) -> bool, parted: seq<T>, half: seq<T>, done: seq<T>, left: nat, right: nat, p: nat, mid: nat)
    requires left <= p <= mid <= p + 1 <= right + 1 <= |parted| && Before(less, parted, left, mid, mid, right + 1)
    requires Rearranged(parted, half, left, p) && Rearranged(half, done, p + 1, right + 1)
    ensures Before(less, done, left, mid, mid, right + 1)
  {
    hide Before, Rearranged;
    HeapSorting.SameLength(parted, half, left, p);
    BeforeStays(less, parted, half, left, mid, right + 1, left, p);
    BeforeStays(less, half, done, left, mid, right + 1, p + 1, right + 1);
  }

  /** qsort_array_main; `nested` counts the levels of quicksort that were nested in each other. */
  method QuickSortMain<T(!new)>(a: array<T>, left: nat, right: int, depthCheck: nat, less: (T, T) -> bool) returns (ghost nested: nat)
    requires StrictWeakOrder(less) && left <= right + 1 <= a.Length
    modifies a
    ensures Sorted(less, a[..], left, right + 1)
    ensures Rearranged(old(a[..]), a[..], left, right + 1)
    ensures nested <= Levels(depthCheck)
    decreases right + 1 - left
  {
    hide StrictWeakOrder, Partitioned, Sorted, Rearranged;
    ghost var s := a[..];
    nested := 0;
    RearrangedSame(s, left, right + 1);
    EmptyIsSorted(less, s, left);
    if left < right {
      if right - left < 30 || depthCheck == 0 {
        HeapSort(a, left, right, less);
      } else {
        var next := NextBudget(depthCheck);
        var p := Partition(a, left, right, less);
        ghost var parted := a[..];
        PartitionedBefore(less, parted, left, right, p);
        RearrangedSame(parted, left, p);
        EmptyIsSorted(less, parted, left);
        ghost var n, m := 0, 0;
        if p > 0 {
          n := QuickSortMain(a, left, p - 1, next, less);
        }
        ghost var half := a[..];
        m := QuickSortMain(a, p + 1, right, next, less);
        BothSides(less, s, parted, half, a[..], left, right, p);
        nested := 1 + if n < m then m else n;
      }
    }
  }

  /** qsort_array: sorted, a permutation, nothing outside touched, few levels nested. */
  method QuickSort<T(!new)>(a: array<T>, left: nat, right: nat, less: (T, T) -> bool) returns (ghost nested: nat)
    requires StrictWeakOrder(less) && left <= right < a.Length
    modifies a
    ensures Sorted(less, a[..], left, right + 1)
    ensures Rearranged(old(a[..]), a[..], left, right + 1)
    ensures forall i, j :: left <= i < j <= right ==> !less(a[j], a[i])
    ensures multiset(a[..]) == multiset(old(a[..]))
    ensures forall k :: 0 <= k < a.Length && (k < left || right < k) ==> a[k] == old(a[k])
    ensures nested <= Levels(right - left)
  {
    hide StrictWeakOrder, Sorted, Rearranged;
    nested := QuickSortMain(a, left, right, right - left, less);
    InOrder(less, old(a[..]), a[..], left, right + 1);
  }
}
