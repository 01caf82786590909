/** The three in-place quicksorts of src/lib.rs:113-182. They are one algorithm
    (Hoare-style partition around the slot at `left`, then recursion on both
    sides) differing only in the comparison, so `QuickSort` takes the strategy
    and compares by `FreeList.Key`; the three named methods fix the strategy. */
module QuickSorts {
  import opened Wrappers
  import opened Blocks
  import opened FreeList

  /** `s` and `t` agree on every slot outside `lo..hi` (both included). */
  ghost predicate SameOutside(s: Book, t: Book, lo: nat, hi: nat)
  {
    |s| == |t| && forall i :: 0 <= i < |s| && (i < lo || hi < i) ==> s[i] == t[i]
  }

  /** `t` is `s` with only the slots `lo..hi` rearranged. */
  ghost predicate Permutes(s: Book, t: Book, lo: nat, hi: nat)
  {
    multiset(s) == multiset(t) && SameOutside(s, t, lo, hi)
  }

  /** What one `QuickSort(a, lo, hi, st)` call does to the book: it only
      rearranges `lo..hi`; when that range is all present it ends up ordered by
      the strategy's key, and otherwise nothing moves. */
  ghost predicate SortsRange(st: AllocType, s: Book, t: Book, lo: nat, hi: nat)
    requires hi < |s|
  {
    && Permutes(s, t, lo, hi)
    && (AllPresent(s, lo, hi) ==> AllPresent(t, lo, hi) && Ordered(st, t, lo, hi))
    && (!AllPresent(s, lo, hi) ==> t == s)
  }

  ghost predicate KeyAtMost(st: AllocType, slot: Option<Block>, k: int)
  {
    slot.Some? && Key(st, slot.value) <= k
  }

  ghost predicate KeyAtLeast(st: AllocType, slot: Option<Block>, k: int)
  {
    slot.Some? && Key(st, slot.value) >= k
  }

  /** Every slot in `lo..hi-1` holds a block whose key is at most `k`. */
  ghost predicate AllAtMost(st: AllocType, s: Book, lo: nat, hi: nat, k: int)
    requires hi <= |s|
  {
    forall i :: lo <= i < hi ==> KeyAtMost(st, s[i], k)
  }

  /** Every slot in `lo..hi-1` holds a block whose key is at least `k`. */
  ghost predicate AllAtLeast(st: AllocType, s: Book, lo: nat, hi: nat, k: int)
    requires hi <= |s|
  {
    forall i :: lo <= i < hi ==> KeyAtLeast(st, s[i], k)
  }

  /** `slice::swap`: exchange two slots (possibly the same one). */
  method Swap(a: array<Option<Block>>, i: nat, j: nat)
    requires i < a.Length && j < a.Length
    modifies a
    ensures a[..] == old(a[..])[i := old(a[j])][j := old(a[i])]
    ensures multiset(a[..]) == multiset(old(a[..]))
  {
    var t := a[i];
    a[i] := a[j];
    a[j] := t;
  }

  lemma SliceMultiset(s: Book, lo: nat, hi: nat)
    requires lo <= hi + 1 <= |s|
    ensures multiset(s) == multiset(s[..lo]) + multiset(s[lo..hi + 1]) + multiset(s[hi + 1..])
  {
    assert s == s[..lo] + s[lo..hi + 1] + s[hi + 1..];
  }

  lemma CancelOuter(x: multiset<Option<Block>>, y: multiset<Option<Block>>, y': multiset<Option<Block>>,
                    z: multiset<Option<Block>>)
    requires x + y + z == x + y' + z
    ensures y == y'
  {
    assert y == x + y + z - x - z;
    assert y' == x + y' + z - x - z;
  }

  /** A permutation of `s` that agrees with it outside `lo..hi` permutes that
      range: every slot of `t` inside it holds a value found in `s` inside it. */
  lemma PermutedSegment(s: Book, t: Book, lo: nat, hi: nat)
    requires lo <= hi + 1 <= |s| && Permutes(s, t, lo, hi)
    ensures forall i :: lo <= i <= hi ==> exists j :: lo <= j <= hi && s[j] == t[i]
  {
    SliceMultiset(s, lo, hi);
    SliceMultiset(t, lo, hi);
    assert s[..lo] == t[..lo];
    assert s[hi + 1..] == t[hi + 1..];
    var inside := multiset(s[lo..hi + 1]);
    CancelOuter(multiset(s[..lo]), inside, multiset(t[lo..hi + 1]), multiset(s[hi + 1..]));
    forall i | lo <= i <= hi
      ensures exists j :: lo <= j <= hi && s[j] == t[i]
    {
      assert t[i] == t[lo..hi + 1][i - lo];
      assert t[i] in t[lo..hi + 1];
      assert t[i] in inside;
      assert t[i] in s[lo..hi + 1];
      var k :| 0 <= k < hi + 1 - lo && s[lo..hi + 1][k] == t[i];
      assert s[lo + k] == t[i];
    }
  }

  /** An upper bound on the keys of a range survives a permutation of that range. */
  lemma AtMostSurvives(st: AllocType, s: Book, t: Book, lo: nat, hi: nat, k: int)
    requires lo <= hi + 1 <= |s| && Permutes(s, t, lo, hi) && AllAtMost(st, s, lo, hi + 1, k)
    ensures AllAtMost(st, t, lo, hi + 1, k)
  {
    PermutedSegment(s, t, lo, hi);
  }

  /** A lower bound on the keys of a range survives a permutation of that range. */
  lemma AtLeastSurvives(st: AllocType, s: Book, t: Book, lo: nat, hi: nat, k: int)
    requires lo <= hi + 1 <= |s| && Permutes(s, t, lo, hi) && AllAtLeast(st, s, lo, hi + 1, k)
    ensures AllAtLeast(st, t, lo, hi + 1, k)
  {
    PermutedSegment(s, t, lo, hi);
  }

  /** The state partitioning leaves when `lo..hi` is all present: the pivot
      sits at `mid`, keys before it are at most the pivot's and keys after it
      at least the pivot's. */
  ghost predicate PivotAt(st: AllocType, s: Book, lo: nat, mid: nat, hi: nat)
    requires lo <= mid <= hi < |s|
  {
    && AllPresent(s, lo, hi)
    && AllAtMost(st, s, lo, mid, Key(st, s[mid].value))
    && AllAtLeast(st, s, mid + 1, hi + 1, Key(st, s[mid].value))
  }

  /** Two ordered ranges around a pivot slot, the left one bounded above and the
      right one bounded below by the pivot's key, make one ordered range. */
  lemma JoinOrdered(st: AllocType, s: Book, lo: nat, mid: nat, hi: nat)
    requires lo <= mid <= hi < |s| && s[mid].Some?
    requires mid > lo ==> Ordered(st, s, lo, mid - 1)
    requires Ordered(st, s, mid + 1, hi)
    requires AllAtMost(st, s, lo, mid, Key(st, s[mid].value))
    requires AllAtLeast(st, s, mid + 1, hi + 1, Key(st, s[mid].value))
    ensures Ordered(st, s, lo, hi)
  {
  }

  /** The partition loop's invariant over an all-present range: the pivot (the
      block at `lo`) is unmoved, keys up to `l` are at most its key and keys
      after `r` at least its key. */
  ghost predicate Partitioning(st: AllocType, s: Book, lo: nat, l: nat, r: nat, hi: nat, pivot: Option<Block>)
    requires lo <= l <= r <= hi < |s|
  {
    && AllPresent(s, lo, hi) && s[lo] == pivot && pivot.Some?
    && AllAtMost(st, s, lo, l + 1, Key(st, pivot.value))
    && AllAtLeast(st, s, r + 1, hi + 1, Key(st, pivot.value))
  }

  /** The first inner loop of the partition (src/lib.rs:121-123): move `r`
      down, not past `l`, over blocks whose key is at least the pivot's. */
  method ScanDown(a: array<Option<Block>>, left: nat, l: nat, r: nat, right: nat, st: AllocType)
    returns (r': nat)
    requires left <= l <= r <= right < a.Length && AllPresent(a[..], left, right)
    ensures l <= r' <= r
    ensures AllAtLeast(st, a[..], r' + 1, r + 1, Key(st, a[left].value))
    ensures l < r' ==> Key(st, a[r'].value) < Key(st, a[left].value)
  {
    r' := r;
    while l < r' && Key(st, a[r'].value) >= Key(st, a[left].value)
      invariant l <= r' <= r
      invariant AllAtLeast(st, a[..], r' + 1, r + 1, Key(st, a[left].value))
    {
      r' := r' - 1;
    }
  }

  /** The second inner loop of the partition (src/lib.rs:124-126): move `l` up,
      not past `r`, over blocks whose key is at most the pivot's. */
  method ScanUp(a: array<Option<Block>>, left: nat, l: nat, r: nat, right: nat, st: AllocType)
    returns (l': nat)
    requires left <= l <= r <= right < a.Length && AllPresent(a[..], left, right)
    ensures l <= l' <= r
    ensures AllAtMost(st, a[..], l, l', Key(st, a[left].value))
    ensures l' < r ==> Key(st, a[l'].value) > Key(st, a[left].value)
  {
    l' := l;
    while l' < r && Key(st, a[l'].value) <= Key(st, a[left].value)
      invariant l <= l' <= r
      invariant AllAtMost(st, a[..], l, l', Key(st, a[left].value))
    {
      l' := l' + 1;
    }
  }

  /** One round of the partition loop, both scans and the swap of the slots
      where they stopped, keeps `Partitioning` and brings `l` and `r` closer. */
  lemma StepKept(st: AllocType, s0: Book, before: Book, after: Book, lo: nat, l0: nat, r0: nat,
                 l: nat, r: nat, hi: nat, pivot: Option<Block>)
    requires lo <= l0 < r0 <= hi < |before| && Partitioning(st, before, lo, l0, r0, hi, pivot)
    requires Permutes(s0, before, lo, hi)
    requires l0 <= l <= r <= r0
    requires AllAtLeast(st, before, r + 1, r0 + 1, Key(st, before[lo].value))
    requires l0 < r ==> Key(st, before[r].value) < Key(st, before[lo].value)
    requires AllAtMost(st, before, l0, l, Key(st, before[lo].value))
    requires l < r ==> Key(st, before[l].value) > Key(st, before[lo].value)
    requires after == before[l := before[r]][r := before[l]] && multiset(after) == multiset(before)
    ensures Partitioning(st, after, lo, l, r, hi, pivot)
    ensures Permutes(s0, after, lo, hi)
    ensures r - l < r0 - l0
  {
  }

  /** Partitioning of `quick_sort_for_*` (src/lib.rs:118-129): `r` walks down
      over keys at or above the pivot's (the block at `left`), `l` walks up over
      keys at or below it, and the two stopping slots are swapped, until `l`
      meets `r`; then the pivot is swapped into slot `l`. The loop runs only
      while the slots at `l` and `r` are present. */
  method Partition(a: array<Option<Block>>, left: nat, right: nat, st: AllocType)
    returns (l: nat, r: nat)
    requires left < right < a.Length
    requires a[left].Some? && a[right].Some? ==> AllPresent(a[..], left, right)
    modifies a
    ensures left <= l <= r <= right
    ensures Permutes(old(a[..]), a[..], left, right)
    ensures !AllPresent(old(a[..]), left, right) ==> l == left && r == right && a[..] == old(a[..])
    ensures AllPresent(old(a[..]), left, right) ==>
      l == r && a[l] == old(a[left]) && PivotAt(st, a[..], left, l, right)
  {
    l, r := left, right;
    ghost var present := AllPresent(a[..], left, right);
    ghost var pivot := a[left];
    while l < r && a[l].Some? && a[r].Some?
      invariant left <= l <= r <= right
      invariant Permutes(old(a[..]), a[..], left, right)
      invariant !present ==> l == left && r == right && a[..] == old(a[..])
      invariant present ==> Partitioning(st, a[..], left, l, r, right, pivot)
      decreases r - l
    {
      ghost var before, l0, r0 := a[..], l, r;
      r := ScanDown(a, left, l, r, right, st);
      l := ScanUp(a, left, l, r, right, st);
      Swap(a, l, r);
      StepKept(st, old(a[..]), before, a[..], left, l0, r0, l, r, right, pivot);
    }
    ghost var parted := a[..];
    Swap(a, left, l);
    PivotPlaced(st, old(a[..]), parted, a[..], left, l, r, right, pivot);
  }

  /** Where the partition loop stops, swapping the pivot from `lo` into slot
      `l` finishes partitioning: with an all-present range the pivot lands
      where `PivotAt` wants it, and otherwise nothing has moved. */
  lemma PivotPlaced(st: AllocType, s0: Book, parted: Book, split: Book, lo: nat, l: nat, r: nat, hi: nat,
                    pivot: Option<Block>)
    requires lo <= l <= r <= hi < |s0| && pivot == s0[lo]
    requires Permutes(s0, parted, lo, hi)
    requires !AllPresent(s0, lo, hi) ==> l == lo && r == hi && parted == s0
    requires AllPresent(s0, lo, hi) ==> Partitioning(st, parted, lo, l, r, hi, pivot)
    requires AllPresent(s0, lo, hi) ==> !(l < r && parted[l].Some? && parted[r].Some?)
    requires split == parted[lo := parted[l]][l := parted[lo]] && multiset(split) == multiset(parted)
    ensures Permutes(s0, split, lo, hi)
    ensures !AllPresent(s0, lo, hi) ==> l == lo && r == hi && split == s0
    ensures AllPresent(s0, lo, hi) ==> l == r && split[l] == s0[lo] && PivotAt(st, split, lo, l, hi)
  {
  }

  /** Rearranging inside a range, then inside a sub-range, rearranges inside the range. */
  lemma PermutesWithin(s: Book, t: Book, u: Book, lo: nat, hi: nat, lo': nat, hi': nat)
    requires lo <= lo' && hi' <= hi
    requires Permutes(s, t, lo, hi) && Permutes(t, u, lo', hi')
    ensures Permutes(s, u, lo, hi)
  {
  }

  /** Sorting `lo..mid-1` (when it is sorted at all) keeps its keys at most the
      pivot's and leaves it ordered, without touching `mid` onwards. */
  lemma LeftHalfSorted(st: AllocType, split: Book, leftDone: Book, lo: nat, mid: nat, hi: nat)
    requires lo <= mid <= hi < |split| && PivotAt(st, split, lo, mid, hi)
    requires mid > 1 ==> SortsRange(st, split, leftDone, lo, mid - 1)
    requires mid <= 1 ==> leftDone == split
    ensures Permutes(split, leftDone, lo, mid) && leftDone[mid] == split[mid]
    ensures AllAtMost(st, leftDone, lo, mid, Key(st, split[mid].value))
    ensures mid > lo ==> Ordered(st, leftDone, lo, mid - 1)
    ensures AllAtLeast(st, leftDone, mid + 1, hi + 1, Key(st, split[mid].value))
  {
    if mid > 1 {
      AtMostSurvives(st, split, leftDone, lo, mid - 1, Key(st, split[mid].value));
    }
  }

  /** Sorting `mid+1..hi` keeps its keys at least the pivot's and leaves it
      ordered, without touching anything up to `mid`. */
  lemma RightHalfSorted(st: AllocType, leftDone: Book, sorted: Book, lo: nat, mid: nat, hi: nat)
    requires lo <= mid <= hi < |leftDone| && leftDone[mid].Some?
    requires AllAtMost(st, leftDone, lo, mid, Key(st, leftDone[mid].value))
    requires mid > lo ==> Ordered(st, leftDone, lo, mid - 1)
    requires AllAtLeast(st, leftDone, mid + 1, hi + 1, Key(st, leftDone[mid].value))
    requires SortsRange(st, leftDone, sorted, mid + 1, hi)
    ensures sorted[mid] == leftDone[mid]
    ensures AllAtMost(st, sorted, lo, mid, Key(st, sorted[mid].value))
    ensures mid > lo ==> Ordered(st, sorted, lo, mid - 1)
    ensures AllAtLeast(st, sorted, mid + 1, hi + 1, Key(st, sorted[mid].value))
    ensures Ordered(st, sorted, mid + 1, hi)
  {
    AtLeastSurvives(st, leftDone, sorted, mid + 1, hi, Key(st, leftDone[mid].value));
  }

  /** After the left recursive call, the right one is given a range it may sort. */
  lemma RightReady(st: AllocType, s0: Book, split: Book, leftDone: Book, lo: nat, l: nat, r: nat, hi: nat)
    requires lo <= l <= r <= hi < |s0| == |split|
    requires AllPresent(s0, lo, hi) ==> r == l && PivotAt(st, split, lo, l, hi)
    requires !AllPresent(s0, lo, hi) ==> l == lo && r == hi
    requires l > 1 ==> SortsRange(st, split, leftDone, lo, l - 1)
    requires l <= 1 ==> leftDone == split
    ensures r + 1 < hi && leftDone[r + 1].Some? && leftDone[hi].Some? ==> AllPresent(leftDone, r + 1, hi)
  {
    if r + 1 < hi {
      assert forall i :: r + 1 <= i <= hi ==> leftDone[i] == split[i];
    }
  }

  /** The whole of one `QuickSort` call: partitioning and the two recursive
      sorts together sort `lo..hi`; with an absent slot in the range nothing
      moves at all. */
  lemma Combine(st: AllocType, s0: Book, split: Book, leftDone: Book, sorted: Book,
                lo: nat, l: nat, r: nat, hi: nat)
    requires lo <= l <= r <= hi < |s0|
    requires Permutes(s0, split, lo, hi)
    requires AllPresent(s0, lo, hi) ==> r == l && PivotAt(st, split, lo, l, hi)
    requires !AllPresent(s0, lo, hi) ==> l == lo && r == hi && split == s0
    requires l > 1 ==> SortsRange(st, split, leftDone, lo, l - 1)
    requires l <= 1 ==> leftDone == split
    requires SortsRange(st, leftDone, sorted, r + 1, hi)
    ensures SortsRange(st, s0, sorted, lo, hi)
  {
    if AllPresent(s0, lo, hi) {
      LeftHalfSorted(st, split, leftDone, lo, l, hi);
      RightHalfSorted(st, leftDone, sorted, lo, l, hi);
      JoinOrdered(st, sorted, lo, l, hi);
      PermutesWithin(s0, split, leftDone, lo, hi, lo, l);
      PermutesWithin(s0, leftDone, sorted, lo, hi, l + 1, hi);
    }
  }

  /** The shared body of `quick_sort_for_first/best/worst` (src/lib.rs:113-135).
      The requires is what keeps the source from unwrapping an absent slot: once
      the partition loop starts (both ends present), every slot it may touch is
      present. */
  method QuickSort(a: array<Option<Block>>, left: nat, right: nat, st: AllocType)
    requires right < a.Length
    requires left < right && a[left].Some? && a[right].Some? ==> AllPresent(a[..], left, right)
    modifies a
    ensures SortsRange(st, old(a[..]), a[..], left, right)
    decreases right + 1 - left
  {
    if left >= right {
      return;
    }
    ghost var s0 := a[..];
    var l, r := Partition(a, left, right, st);
    ghost var split := a[..];
    if l > 1 {
      QuickSort(a, left, l - 1, st);
    }
    ghost var leftDone := a[..];
    RightReady(st, s0, split, leftDone, left, l, r, right);
    QuickSort(a, r + 1, right, st);
    Combine(st, s0, split, leftDone, a[..], left, l, r, right);
  }

  /** `quick_sort_for_first` (src/lib.rs:113-135): orders an all-present range
      by ascending start address and leaves any other range as it was. */
  method QuickSortForFirst(a: array<Option<Block>>, left: nat, right: nat)
    requires right < a.Length
    requires left < right && a[left].Some? && a[right].Some? ==> AllPresent(a[..], left, right)
    modifies a
    ensures multiset(a[..]) == multiset(old(a[..])) && SameOutside(old(a[..]), a[..], left, right)
    ensures AllPresent(old(a[..]), left, right) ==>
      && AllPresent(a[..], left, right)
      && (forall i, j :: left <= i < j <= right ==> a[i].value.start <= a[j].value.start)
    ensures !AllPresent(old(a[..]), left, right) ==> a[..] == old(a[..])
  {
    QuickSort(a, left, right, First);
    if AllPresent(a[..], left, right) {
      OrderedMeans(First, a[..], left, right);
    }
  }

  /** `quick_sort_for_best` (src/lib.rs:137-159): orders an all-present range
      by ascending size and leaves any other range as it was. */
  method QuickSortForBest(a: array<Option<Block>>, left: nat, right: nat)
    requires right < a.Length
    requires left < right && a[left].Some? && a[right].Some? ==> AllPresent(a[..], left, right)
    modifies a
    ensures multiset(a[..]) == multiset(old(a[..])) && SameOutside(old(a[..]), a[..], left, right)
    ensures AllPresent(old(a[..]), left, right) ==>
      && AllPresent(a[..], left, right)
      && (forall i, j :: left <= i < j <= right ==> a[i].value.size <= a[j].value.size)
    ensures !AllPresent(old(a[..]), left, right) ==> a[..] == old(a[..])
  {
    QuickSort(a, left, right, Best);
    if AllPresent(a[..], left, right) {
      OrderedMeans(Best, a[..], left, right);
    }
  }

  /** `quick_sort_for_worst` (src/lib.rs:160-182): orders an all-present range
      by descending size and leaves any other range as it was. */
  method QuickSortForWorst(a: array<Option<Block>>, left: nat, right: nat)
    requires right < a.Length
    requires left < right && a[left].Some? && a[right].Some? ==> AllPresent(a[..], left, right)
    modifies a
    ensures multiset(a[..]) == multiset(old(a[..])) && SameOutside(old(a[..]), a[..], left, right)
    ensures AllPresent(old(a[..]), left, right) ==>
      && AllPresent(a[..], left, right)
      && (forall i, j :: left <= i < j <= right ==> a[i].value.size >= a[j].value.size)
    ensures !AllPresent(old(a[..]), left, right) ==> a[..] == old(a[..])
  {
    QuickSort(a, left, right, Worst);
    if AllPresent(a[..], left, right) {
      OrderedMeans(Worst, a[..], left, right);
    }
  }
}
