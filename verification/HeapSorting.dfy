/** Heapsort on a part of an array. */
module HeapSorting {
  import opened Sorting

  /** The first child of i in the heap that begins at start. */
  function LeftChild(start: nat, i: nat): nat
    requires start <= i
  {
    2 * i + 1 - start
  }

  /** c is a child of i. */
  predicate Child(start: nat, i: nat, c: nat) {
    start <= i && (c == LeftChild(start, i) || c == LeftChild(start, i) + 1)
  }

  /** Every node from `from` on is no smaller than its children; the heap is s[start..end]. */
  ghost predicate Heap<T(!new)>(less: (T, T) -> bool, s: seq<T>, start: nat, end: nat, from: nat) {
    end <= |s| && forall i: nat, c: nat :: from <= i < end && c < end && Child(start, i, c) ==> Leq(less, s[c], s[i])
  }

  /** A heap but for the element at `at`; its children are below its parent. */
  ghost predicate Sifting<T(!new)>(less: (T, T) -> bool, s: seq<T>, start: nat, end: nat, from: nat, at: nat) {
    && start <= from <= at < end <= |s|
    && (forall i: nat, c: nat :: from <= i < end && i != at && c < end && Child(start, i, c) ==> Leq(less, s[c], s[i]))
    && (forall p: nat, c: nat :: from <= p && Child(start, p, at) && c < end && Child(start, at, c) ==> Leq(less, s[c], s[p]))
  }

  lemma SiftingStart<T(!new)>(less: (T, T) -> bool, s: seq<T>, start: nat, end: nat, at: nat)
    requires start <= at < end && Heap(less, s, start, end, at + 1)
    ensures Sifting(less, s, start, end, at, at)
  {}

  /** The larger child moves up. */
  lemma SiftingStep<T(!new)>(less: (T, T) -> bool, s: seq<T>, start: nat, end: nat, from: nat, at: nat, largest: nat)
    requires StrictWeakOrder(less) && Sifting(less, s, start, end, from, at)
    requires largest < end && Child(start, at, largest) && less(s[at], s[largest])
    requires forall c: nat :: c < end && Child(start, at, c) ==> Leq(less, s[c], s[largest])
    ensures Sifting(less, Swapped(s, at, largest), start, end, from, largest)
  {
    var t := Swapped(s, at, largest);
    LeqFromLess(less, s[at], s[largest]);
    forall i: nat, c: nat | from <= i < end && i != largest && c < end && Child(start, i, c) ensures Leq(less, t[c], t[i]) {
      if i == at {
        assert Leq(less, s[c], s[largest]);
      } else if c == at {
        assert Leq(less, s[largest], s[i]);
      } else {
        assert c != largest;
        assert Leq(less, s[c], s[i]);
      }
    }
    forall p: nat, c: nat | from <= p && Child(start, p, largest) && c < end && Child(start, largest, c) ensures Leq(less, t[c], t[p]) {
      assert p == at;
      assert Leq(less, s[c], s[largest]);
    }
  }

  lemma SiftingDone<T(!new)>(less: (T, T) -> bool, s: seq<T>, start: nat, end: nat, from: nat, at: nat)
    requires Sifting(less, s, start, end, from, at)
    requires forall c: nat :: c < end && Child(start, at, c) ==> Leq(less, s[c], s[at])
    ensures Heap(less, s, start, end, from)
  {}

  /** The comparisons of one round name a largest of the element and its children. */
  lemma LargestOfThree<T(!new)>(less: (T, T) -> bool, s: seq<T>, start: nat, end: nat, i: nat, largest: nat)
    requires StrictWeakOrder(less) && start <= i < end <= |s|
    requires var left, right := LeftChild(start, i), LeftChild(start, i) + 1;
      var first := if left < end && less(s[i], s[left]) then left else i;
      largest == if right < end && less(s[first], s[right]) then right else first
    ensures largest < end && (largest == i || (Child(start, i, largest) && less(s[i], s[largest])))
    ensures forall c: nat :: c < end && Child(start, i, c) ==> Leq(less, s[c], s[largest])
  {
    var left, right := LeftChild(start, i), LeftChild(start, i) + 1;
    if left < end { LeqFromLess(less, s[i], s[left]); LeqFromLess(less, s[left], s[left]); }
    if right < end { LeqFromLess(less, s[right], s[right]); }
    if left < end && right < end { LeqFromLess(less, s[left], s[right]); LeqFromLess(less, s[i], s[right]); }
  }

  /** One round of comparisons: the largest of the element at i and its children. */
  method LargestHere<T(!new)>(a: array<T>, start: nat, last: nat, i: nat, less: (T, T) -> bool) returns (largest: nat)
    requires StrictWeakOrder(less) && start <= i <= last < a.Length
    ensures largest <= last && (largest == i || (Child(start, i, largest) && less(a[i], a[largest])))
    ensures forall c: nat :: c < last + 1 && Child(start, i, c) ==> Leq(less, a[c], a[largest])
  {
    hide StrictWeakOrder;
    var left := 2 * i + 1 - start;
    var right := left + 1;
    if left <= last && less(a[i], a[left]) {
      largest := left;
    } else {
      largest := i;
    }
    if right <= last && less(a[largest], a[right]) {
      largest := right;
    }
    LargestOfThree(less, a[..], start, last + 1, i, largest);
  }

  /** heapify: the element at i0 sinks to its place; `last` is the last index of the heap. */
  method Heapify<T(!new)>(a: array<T>, start: nat, last: nat, i0: nat, less: (T, T) -> bool)
    requires StrictWeakOrder(less) && start <= i0 <= last < a.Length
    requires Heap(less, a[..], start, last + 1, i0 + 1)
    modifies a
    ensures Heap(less, a[..], start, last + 1, i0)
    ensures Rearranged(old(a[..]), a[..], start, last + 1)
  {
    hide Heap, Sifting, Rearranged, StrictWeakOrder, Swapped, Child;
    ghost var s := a[..];
    var i := i0;
    var keepGoing := true;
    SiftingStart(less, s, start, last + 1, i0);
    RearrangedSame(s, start, last + 1);
    while keepGoing
      invariant i0 <= i <= last && Rearranged(s, a[..], start, last + 1)
      invariant keepGoing ==> Sifting(less, a[..], start, last + 1, i0, i)
      invariant !keepGoing ==> Heap(less, a[..], start, last + 1, i0)
      decreases keepGoing, last - i
    {
      keepGoing := false;
      var largest := LargestHere(a, start, last, i, less);
      if largest != i {
        ghost var before := a[..];
        ChildIsFurther(start, i, largest);
        SiftingStep(less, before, start, last + 1, i0, i, largest);
        SwapRearranges(before, i, largest, start, last + 1);
        Exchange(a, i, largest);
        RearrangedTwice(s, before, a[..], start, last + 1);
        i := largest;
        keepGoing := true;
      } else {
        SiftingDone(less, a[..], start, last + 1, i0, i);
      }
    }
  }

  lemma ChildIsFurther(start: nat, i: nat, c: nat)
    requires Child(start, i, c)
    ensures i < c
  {}

  /** The root of a heap may stand after all others. */
  lemma {:induction false} RootIsLargest<T(!new)>(less: (T, T) -> bool, s: seq<T>, start: nat, end: nat, k: nat)
    requires StrictWeakOrder(less) && Heap(less, s, start, end, start) && start <= k < end
    ensures Leq(less, s[k], s[start])
    decreases k
  {
    if k == start {
      LeqFromLess(less, s[k], s[k]);
    } else {
      var p := start + (k - start - 1) / 2;
      assert Child(start, p, k);
      RootIsLargest(less, s, start, end, p);
      LeqTransitive(less, s[k], s[p], s[start]);
    }
  }

  /** From the middle on there are no children. */
  lemma LeavesAreHeap<T(!new)>(less: (T, T) -> bool, s: seq<T>, left: nat, right: nat)
    requires left <= right < |s|
    ensures Heap(less, s, left, right + 1, left + (right - left) / 2 + 1)
  {}

  /** The largest goes behind the heap, and what is left is a heap but for its root. */
  lemma RootRemoved<T(!new)>(less: (T, T) -> bool, s: seq<T>, left: nat, right: nat, i: nat)
    requires StrictWeakOrder(less) && left < i <= right < |s| && Heap(less, s, left, i + 1, left)
    requires Sorted(less, s, i + 1, right + 1) && Before(less, s, left, i + 1, i + 1, right + 1)
    ensures var t := Swapped(s, i, left);
      && Heap(less, t, left, i, left + 1)
      && Sorted(less, t, i, right + 1) && Before(less, t, left, i, i, right + 1)
  {
    var t := Swapped(s, i, left);
    forall k | left <= k < i ensures Leq(less, t[k], t[i]) {
      RootIsLargest(less, s, left, i + 1, if k == left then i else k);
    }
    hide StrictWeakOrder;
    forall j | i < j < right + 1 ensures Leq(less, t[i], t[j]) && t[j] == s[j] { assert Leq(less, s[left], s[j]); }
    forall k, j | left <= k < i && i <= j < right + 1 ensures Leq(less, t[k], t[j]) {
      if j > i { assert Leq(less, s[if k == left then i else k], s[j]); }
    }
  }

  /** Rearranging the heap leaves what is behind it. */
  lemma BehindStays<T(!new)>(less: (T, T) -> bool, a: seq<T>, b: seq<T>, left: nat, i: nat, hi: nat)
    requires Rearranged(a, b, left, i) && i <= hi <= |a|
    requires Sorted(less, a, i, hi) && Before(less, a, left, i, i, hi)
    ensures Sorted(less, b, i, hi) && Before(less, b, left, i, i, hi)
  {
    BeforeStays(less, a, b, left, i, hi, left, i);
    forall k | i <= k < hi ensures b[k] == a[k] { RearrangedOutside(a, b, left, i, k); }
  }

  /** hsort_array. */
  method HeapSort<T(!new)>(a: array<T>, left: nat, right: nat, less: (T, T) -> bool)
    requires StrictWeakOrder(less) && left <= right < a.Length
    modifies a
    ensures Sorted(less, a[..], left, right + 1)
    ensures Rearranged(old(a[..]), a[..], left, right + 1)
    ensures forall i, j :: left <= i < j <= right ==> !less(a[j], a[i])
    ensures multiset(a[..]) == multiset(old(a[..]))
    ensures forall k :: 0 <= k < a.Length && (k < left || right < k) ==> a[k] == old(a[k])
  {
    hide Heap, Rearranged, StrictWeakOrder, Swapped, Sorted, Before;
    if right - left < 30 {
      InsertionSort(a, left, right, less);
      return;
    }
    ghost var s := a[..];
    BuildHeap(a, left, right, less);
    ghost var heap := a[..];
    DrainHeap(a, left, right, less);
    RearrangedTwice(s, heap, a[..], left, right + 1);
    InOrder(less, s, a[..], left, right + 1);
  }

  /** Turning the range into a heap, from the middle down to its beginning. */
  method BuildHeap<T(!new)>(a: array<T>, left: nat, right: nat, less: (T, T) -> bool)
    requires StrictWeakOrder(less) && left <= right < a.Length
    modifies a
    ensures Heap(less, a[..], left, right + 1, left) && Rearranged(old(a[..]), a[..], left, right + 1)
  {
    hide Heap, Rearranged, StrictWeakOrder;
    ghost var s := a[..];
    RearrangedSame(s, left, right + 1);
    LeavesAreHeap(less, s, left, right);
    var i := left + (right - left) / 2;
    while true
      invariant left <= i <= right
      invariant Heap(less, a[..], left, right + 1, i + 1) && Rearranged(s, a[..], left, right + 1)
      decreases i
    {
      ghost var before := a[..];
      Heapify(a, left, right, i, less);
      RearrangedTwice(s, before, a[..], left, right + 1);
      if i == left {
        break;
      }
      i := i - 1;
    }
  }

  /** s has become now: a heap up to i, and behind it, sorted, what is no smaller. */
  ghost predicate Draining<T(!new)>(less: (T, T) -> bool, s: seq<T>, now: seq<T>, left: nat, right: nat, i: nat) {
    && Rearranged(s, now, left, right + 1) && Heap(less, now, left, i + 1, left)
    && Sorted(less, now, i + 1, right + 1) && Before(less, now, left, i + 1, i + 1, right + 1)
  }

  lemma DrainStep<T(!new)>(less: (T, T) -> bool, s: seq<T>, before: seq<T>, after: seq<T>, left: nat, right: nat, i: nat)
    requires StrictWeakOrder(less) && left < i <= right < |before| && Draining(less, s, before, left, right, i)
    requires Rearranged(Swapped(before, i, left), after, left, i) && Heap(less, after, left, i, left)
    ensures Draining(less, s, after, left, right, i - 1)
  {
    hide Heap, Rearranged, StrictWeakOrder, Swapped, Sorted, Before;
    var middle := Swapped(before, i, left);
    RootRemoved(less, before, left, right, i);
    SwapRearranges(before, i, left, left, right + 1);
    SameLength(middle, after, left, i);
    SameLength(before, middle, left, right + 1);
    RearrangedTwice(s, before, middle, left, right + 1);
    RearrangedWider(middle, after, left, i, left, right + 1);
    RearrangedTwice(s, middle, after, left, right + 1);
    BehindStays(less, middle, after, left, i, right + 1);
  }

  lemma SameLength<T>(a: seq<T>, b: seq<T>, lo: nat, hi: nat)
    requires Rearranged(a, b, lo, hi)
    ensures |a| == |b|
  {}

  lemma DrainRoot<T(!new)>(less: (T, T) -> bool, s: seq<T>, before: seq<T>, left: nat, right: nat, i: nat)
    requires StrictWeakOrder(less) && left < i <= right < |before| && Draining(less, s, before, left, right, i)
    ensures Heap(less, Swapped(before, i, left), left, i, left + 1)
  {
    hide Heap, Rearranged, StrictWeakOrder, Swapped, Sorted, Before;
    RootRemoved(less, before, left, right, i);
  }

  lemma DrainEnds<T(!new)>(less: (T, T) -> bool, s: seq<T>, now: seq<T>, left: nat, right: nat)
    requires left <= right < |s|
    ensures Heap(less, s, left, right + 1, left) ==> Draining(less, s, s, left, right, right)
    ensures Draining(less, s, now, left, right, left) ==>
      Sorted(less, now, left, right + 1) && Rearranged(s, now, left, right + 1)
  {
    RearrangedSame(s, left, right + 1);
    NothingBehind(less, s, left, right);
    if Draining(less, s, now, left, right, left) { AllBehind(less, now, left, right); }
  }

  /** Sorting the heap: its root goes behind it, again and again. */
  method DrainHeap<T(!new)>(a: array<T>, left: nat, right: nat, less: (T, T) -> bool)
    requires StrictWeakOrder(less) && left <= right < a.Length
    requires Heap(less, a[..], left, right + 1, left)
    modifies a
    ensures Sorted(less, a[..], left, right + 1)
    ensures Rearranged(old(a[..]), a[..], left, right + 1)
  {
    hide Heap, Rearranged, StrictWeakOrder, Swapped, Sorted, Before, Draining;
    ghost var s := a[..];
    DrainEnds(less, s, s, left, right);
    var i := right;
    while i > left
      invariant left <= i <= right
      invariant Draining(less, s, a[..], left, right, i)
    {
      ghost var before := a[..];
      DrainRoot(less, s, before, left, right, i);
      Exchange(a, i, left);
      i := i - 1;
      Heapify(a, left, i, left, less);
      DrainStep(less, s, before, a[..], left, right, i + 1);
    }
    DrainEnds(less, s, a[..], left, right);
  }

  lemma NothingBehind<T(!new)>(less: (T, T) -> bool, s: seq<T>, left: nat, right: nat)
    requires left <= right < |s|
    ensures Sorted(less, s, right + 1, right + 1) && Before(less, s, left, right + 1, right + 1, right + 1)
  {}

  lemma AllBehind<T(!new)>(less: (T, T) -> bool, s: seq<T>, left: nat, right: nat)
    requires left <= right < |s| && Sorted(less, s, left + 1, right + 1) && Before(less, s, left, left + 1, left + 1, right + 1)
    ensures Sorted(less, s, left, right + 1)
  {}
}
