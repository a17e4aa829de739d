// Merge sort on arrays, in which source and destination change roles at each level.
module Arrays {
  import opened StableOrder

  const InsertionSortThreshold: nat := 7

  method Swap<T>(a: array<T>, i: nat, j: nat)
    requires i < a.Length && j < a.Length
    modifies a
    ensures a[..] == old(a[..])[i := old(a[j])][j := old(a[i])]
  {
    a[i], a[j] := a[j], a[i];
  }

  // `a` and its old contents differ only between `low` and `high`.
  twostate predicate OnlyWithin<T>(a: array<T>, low: nat, high: nat)
    reads a
  {
    low <= high <= a.Length && a[..low] == old(a[..low]) && a[high..] == old(a[high..])
  }

  lemma SameAround<T>(le: (T, T) -> bool, x: T, s: seq<T>, c: T, d: T, t: seq<T>)
    ensures Same(le, x, s + [c, d] + t) ==
            Same(le, x, s) + (if Equal(le, x, c) then [c] else [])
            + (if Equal(le, x, d) then [d] else []) + Same(le, x, t)
  {
    assert s + [c, d] + t == ((s + [c]) + [d]) + t;
    hide Same;
    SameConcat(le, x, (s + [c]) + [d], t);
    SameConcat(le, x, s + [c], [d]);
    SameConcat(le, x, s, [c]);
    SameOne(le, x, c);
    SameOne(le, x, d);
  }

  // Swapping neighbours that are out of order does not change the order of equal elements.
  lemma SwapKeepsSame<T>(le: (T, T) -> bool, x: T, s: seq<T>, a: T, b: T, t: seq<T>)
    requires !(Equal(le, x, a) && Equal(le, x, b))
    ensures Same(le, x, s + [a, b] + t) == Same(le, x, s + [b, a] + t)
  {
    hide Same, Equal;
    SameAround(le, x, s, a, b, t);
    SameAround(le, x, s, b, a, t);
  }

  // Swapping inside a part of the array.
  lemma SwapWithin<T(!new)>(le: (T, T) -> bool, whole: seq<T>, after: seq<T>, low: nat, j: nat, high: nat)
    requires TotalPreorder(le) && low < j < high <= |whole| && after == whole[j := whole[j - 1]][j - 1 := whole[j]]
    requires !le(whole[j - 1], whole[j])
    ensures Rearranged(le, whole[low..high], after[low..high])
  {
    var a, b := whole[j - 1], whole[j];
    var s, t := whole[low..j - 1], whole[j + 1..high];
    assert whole[low..high] == s + [a, b] + t;
    assert after[low..high] == s + [b, a] + t;
    hide Same;
    forall x: T
      ensures Same(le, x, s + [b, a] + t) == Same(le, x, s + [a, b] + t)
    {
      assert Equal(le, x, a) && Equal(le, x, b) ==> le(a, b);
      SwapKeepsSame(le, x, s, a, b, t);
    }
  }

  // Everything in order but for the element at `j`, which is less than all that follow it.
  ghost predicate Sifting<T>(le: (T, T) -> bool, s: seq<T>, j: nat) {
    && j < |s|
    && (forall p, q :: 0 <= p < q < |s| && p != j && q != j ==> le(s[p], s[q]))
    && (forall q :: j < q < |s| ==> !le(s[q], s[j]))
  }

  lemma SiftOn<T(!new)>(le: (T, T) -> bool, s: seq<T>, j: nat)
    requires TotalPreorder(le) && Sifting(le, s, j) && j > 0 && !le(s[j - 1], s[j])
    ensures Sifting(le, s[j := s[j - 1]][j - 1 := s[j]], j - 1)
  {
  }

  lemma SiftDone<T(!new)>(le: (T, T) -> bool, s: seq<T>, j: nat)
    requires TotalPreorder(le) && Sifting(le, s, j) && (j == 0 || le(s[j - 1], s[j]))
    ensures Ordered(le, s)
  {
    forall p, q | 0 <= p < q < |s|
      ensures le(s[p], s[q])
    {
      if q == j && p < j - 1 {
        assert le(s[p], s[j - 1]);
      }
    }
  }

  lemma SwapSlice<T>(whole: seq<T>, after: seq<T>, low: nat, j: nat, high: nat)
    requires low < j < high <= |whole| && after == whole[j := whole[j - 1]][j - 1 := whole[j]]
    ensures var part, k := whole[low..high], j - low; after[low..high] == part[k := part[k - 1]][k - 1 := part[k]]
    ensures after[..low] == whole[..low] && after[high..] == whole[high..]
  {
  }

  lemma SiftStart<T>(le: (T, T) -> bool, whole: seq<T>, low: nat, i: nat)
    requires low <= i < |whole| && Ordered(le, whole[low..i])
    ensures Sifting(le, whole[low..i + 1], i - low)
  {
    var part := whole[low..i + 1];
    forall p, q | 0 <= p < q < |part| && q != i - low
      ensures le(part[p], part[q])
    {
      assert part[p] == whole[low..i][p] && part[q] == whole[low..i][q];
    }
  }

  // Swap the element at `j` with the one before it, which is greater.
  method SiftOne<T(!new)>(a: array<T>, low: nat, j: nat, ghost high: nat, le: (T, T) -> bool)
    requires TotalPreorder(le) && low < j < high <= a.Length && !le(a[j - 1], a[j])
    requires Sifting(le, a[low..high], j - low)
    modifies a
    ensures OnlyWithin(a, low, high)
    ensures Sifting(le, a[low..high], j - 1 - low) && Rearranged(le, old(a[low..high]), a[low..high])
  {
    hide Same, TotalPreorder, Sifting, Ordered, Rearranged;
    ghost var was := a[..];
    assert was[low..high] == a[low..high];
    SiftOn(le, was[low..high], j - low);
    Swap(a, j, j - 1);
    assert a[..][low..high] == a[low..high];
    SwapSlice(was, a[..], low, j, high);
    SwapWithin(le, was, a[..], low, j, high);
  }

  // Insert the element at `i` into the ordered part before it.
  method Insert<T(!new)>(a: array<T>, low: nat, i: nat, le: (T, T) -> bool)
    requires TotalPreorder(le) && low <= i < a.Length && Ordered(le, a[low..i])
    modifies a
    ensures OnlyWithin(a, low, i + 1) && StablySorted(le, old(a[low..i + 1]), a[low..i + 1])
  {
    SiftStart(le, a[..], low, i);
    assert a[..][low..i + 1] == a[low..i + 1];
    hide Same, TotalPreorder, Sifting, Ordered, Rearranged;
    ghost var start := a[low..i + 1];
    assert Rearranged(le, start, start) by {
      RearrangedSelf(le, start);
    }
    var j := i;
    while j > low && !le(a[j - 1], a[j])
      invariant low <= j <= i && OnlyWithin(a, low, i + 1)
      invariant Sifting(le, a[low..i + 1], j - low) && Rearranged(le, start, a[low..i + 1])
    {
      ghost var was := a[low..i + 1];
      SiftOne(a, low, j, i + 1, le);
      RearrangedTwice(le, start, was, a[low..i + 1]);
      j := j - 1;
    }
    SiftDone(le, a[low..i + 1], j - low);
  }

  method InsertionSort<T(!new)>(a: array<T>, low: nat, high: nat, le: (T, T) -> bool)
    requires TotalPreorder(le) && low <= high <= a.Length
    modifies a
    ensures OnlyWithin(a, low, high) && StablySorted(le, old(a[low..high]), a[low..high])
  {
    for i := low to high
      invariant OnlyWithin(a, low, high) && a[i..] == old(a[i..])
      invariant StablySorted(le, old(a[low..i]), a[low..i])
    {
      hide Same, TotalPreorder, Ordered;
      ghost var was := a[..];
      Insert(a, low, i, le);
      RearrangedParts(le, old(a[low..i]), [old(a[i])], was[low..i], [was[i]]);
      assert old(a[low..i + 1]) == old(a[low..i]) + [old(a[i])];
      assert was[low..i + 1] == was[low..i] + [was[i]];
      RearrangedTwice(le, old(a[low..i + 1]), was[low..i + 1], a[low..i + 1]);
    }
  }

  // ----- merging -------------------------------------------------------------

  // `out` is what merging has made of the first `p` elements of `s` and `q` of `t`.
  ghost predicate Merged<T(!new)>(le: (T, T) -> bool, s: seq<T>, t: seq<T>, p: nat, q: nat, out: seq<T>) {
    && p <= |s| && q <= |t| && |out| == p + q && Ordered(le, s) && Ordered(le, t)
    && StablySorted(le, s[..p] + t[..q], out)
    && (forall i, k :: 0 <= i < |out| && p <= k < |s| ==> le(out[i], s[k]))
    && (forall i, k :: 0 <= i < |out| && q <= k < |t| ==> le(out[i], t[k]))
    && (p < |s| ==> forall k :: 0 <= k < q ==> !le(s[p], t[k]))
  }

  lemma MergeStart<T(!new)>(le: (T, T) -> bool, s: seq<T>, t: seq<T>)
    requires Ordered(le, s) && Ordered(le, t)
    ensures Merged(le, s, t, 0, 0, [])
  {
    assert s[..0] + t[..0] == [];
    RearrangedSelf(le, []);
  }

  // The next element is from the left: it is not greater than any on the right.
  lemma TakeLeft<T(!new)>(le: (T, T) -> bool, s: seq<T>, t: seq<T>, p: nat, q: nat, out: seq<T>)
    requires TotalPreorder(le) && Merged(le, s, t, p, q, out) && p < |s| && (q == |t| || le(s[p], t[q]))
    ensures Merged(le, s, t, p + 1, q, out + [s[p]])
  {
    TakeLeftSame(le, s, t, p, q, out);
    TakenOrder(le, s, t, p, q, out, s[p]);
    hide Same, Rearranged;
  }

  lemma TakeLeftSame<T(!new)>(le: (T, T) -> bool, s: seq<T>, t: seq<T>, p: nat, q: nat, out: seq<T>)
    requires p < |s| && q <= |t| && Rearranged(le, s[..p] + t[..q], out) && TotalPreorder(le)
    requires forall k :: 0 <= k < q ==> !le(s[p], t[k])
    ensures Rearranged(le, s[..p + 1] + t[..q], out + [s[p]])
  {
    var x0, l, r := s[p], s[..p], t[..q];
    assert s[..p + 1] + r == l + ([x0] + r);
    forall x: T
      ensures Same(le, x, out + [x0]) == Same(le, x, l + ([x0] + r))
    {
      assert Same(le, x, out) == Same(le, x, l + r);
      SameConcat(le, x, out, [x0]);
      SameConcat(le, x, l, r);
      SameConcat(le, x, l, [x0] + r);
      SameConcat(le, x, [x0], r);
      SameOne(le, x, x0);
      if Equal(le, x, x0) {
        NoneEqual(le, x, x0, r);
      }
      hide Same;
    }
  }

  lemma NoneEqual<T(!new)>(le: (T, T) -> bool, x: T, x0: T, r: seq<T>)
    requires TotalPreorder(le) && Equal(le, x, x0) && forall k :: 0 <= k < |r| ==> !le(x0, r[k])
    ensures Same(le, x, r) == []
  {
    forall k | 0 <= k < |r|
      ensures !Equal(le, x, r[k])
    {
      assert !le(x0, r[k]);
    }
    SameNone(le, x, r);
  }

  lemma TakenOrder<T(!new)>(le: (T, T) -> bool, s: seq<T>, t: seq<T>, p: nat, q: nat, out: seq<T>, x: T)
    requires TotalPreorder(le) && Merged(le, s, t, p, q, out)
    requires (p < |s| && x == s[p] && (q == |t| || le(x, t[q]))) || (q < |t| && x == t[q] && (p == |s| || le(x, s[p])))
    ensures Ordered(le, out + [x])
    ensures forall k :: p <= k < |s| ==> le(x, s[k]) || k == p
    ensures forall k :: q <= k < |t| ==> le(x, t[k]) || k == q
    ensures le(x, x)
  {
    hide Same;
    assert le(x, x) || le(x, x);
  }

  // The next element is from the right: it is less than all that are left on the left.
  lemma TakeRight<T(!new)>(le: (T, T) -> bool, s: seq<T>, t: seq<T>, p: nat, q: nat, out: seq<T>)
    requires TotalPreorder(le) && Merged(le, s, t, p, q, out) && q < |t| && (p == |s| || !le(s[p], t[q]))
    ensures Merged(le, s, t, p, q + 1, out + [t[q]])
  {
    var x0 := t[q];
    assert s[..p] + t[..q + 1] == (s[..p] + t[..q]) + [x0];
    forall x: T
      ensures Same(le, x, out + [x0]) == Same(le, x, s[..p] + t[..q + 1])
    {
      assert Same(le, x, out) == Same(le, x, s[..p] + t[..q]);
      SameConcat(le, x, out, [x0]);
      SameConcat(le, x, s[..p] + t[..q], [x0]);
    }
    assert p < |s| ==> le(x0, s[p]);
    TakenOrder(le, s, t, p, q, out, x0);
    hide Same, Rearranged;
  }

  // Outside of the range from `low` to `high`, `s` and `t` are the same.
  ghost predicate SameOutside<T>(s: seq<T>, t: seq<T>, low: nat, high: nat) {
    |s| == |t| && low <= high <= |s| && s[..low] == t[..low] && s[high..] == t[high..]
  }

  // What the loop of the merge keeps: the halves of `all` below and above `mid` have been
  // merged, up to `p` and `q`, into `now`, from `destLow` on.
  ghost predicate Merging<T(!new)>(le: (T, T) -> bool, all: seq<T>, low: nat, mid: nat, high: nat, p: nat, q: nat,
                                   was: seq<T>, now: seq<T>, destLow: nat, i: nat)
  {
    && low <= p <= mid <= q <= high <= |all| && i - destLow == (p - low) + (q - mid)
    && destLow <= i <= destLow + (high - low) <= |now|
    && SameOutside(now, was, destLow, destLow + (high - low))
    && Merged(le, all[low..mid], all[mid..high], p - low, q - mid, now[destLow..i])
  }

  lemma MergingStarts<T(!new)>(le: (T, T) -> bool, all: seq<T>, low: nat, mid: nat, high: nat, was: seq<T>,
                               destLow: nat)
    requires low <= mid <= high <= |all| && destLow + (high - low) <= |was|
    requires Ordered(le, all[low..mid]) && Ordered(le, all[mid..high])
    ensures Merging(le, all, low, mid, high, low, mid, was, was, destLow, destLow)
  {
    MergeStart(le, all[low..mid], all[mid..high]);
    assert was[destLow..destLow] == [];
  }

  // One round of the merge: move the next element of the left half ...
  lemma MergingLeft<T(!new)>(le: (T, T) -> bool, all: seq<T>, low: nat, mid: nat, high: nat, p: nat, q: nat,
                             was: seq<T>, now: seq<T>, destLow: nat, i: nat)
    requires TotalPreorder(le) && Merging(le, all, low, mid, high, p, q, was, now, destLow, i)
    requires i < destLow + (high - low) && (q >= high || (p < mid && le(all[p], all[q])))
    ensures p < mid && Merging(le, all, low, mid, high, p + 1, q, was, now[i := all[p]], destLow, i + 1)
  {
    var s, t, out := all[low..mid], all[mid..high], now[destLow..i];
    PutNext(now, was, all[p], destLow, i, destLow + (high - low));
    assert s[p - low] == all[p] && (q < high ==> t[q - mid] == all[q]);
    hide Merged, TotalPreorder, SameOutside;
    TakeLeft(le, s, t, p - low, q - mid, out);
  }

  // ... or of the right one.
  lemma MergingRight<T(!new)>(le: (T, T) -> bool, all: seq<T>, low: nat, mid: nat, high: nat, p: nat, q: nat,
                              was: seq<T>, now: seq<T>, destLow: nat, i: nat)
    requires TotalPreorder(le) && Merging(le, all, low, mid, high, p, q, was, now, destLow, i)
    requires i < destLow + (high - low) && q < high && (p >= mid || !le(all[p], all[q]))
    ensures Merging(le, all, low, mid, high, p, q + 1, was, now[i := all[q]], destLow, i + 1)
  {
    var s, t, out := all[low..mid], all[mid..high], now[destLow..i];
    PutNext(now, was, all[q], destLow, i, destLow + (high - low));
    assert t[q - mid] == all[q] && (p < mid ==> s[p - low] == all[p]);
    hide Merged, TotalPreorder, SameOutside;
    TakeRight(le, s, t, p - low, q - mid, out);
  }

  lemma PutNext<T>(now: seq<T>, was: seq<T>, x: T, low: nat, i: nat, high: nat)
    requires low <= i < high && SameOutside(now, was, low, high)
    ensures SameOutside(now[i := x], was, low, high) && now[i := x][low..i + 1] == now[low..i] + [x]
  {
  }

  lemma MergingEnds<T(!new)>(le: (T, T) -> bool, all: seq<T>, low: nat, mid: nat, high: nat, p: nat, q: nat,
                             was: seq<T>, now: seq<T>, destLow: nat)
    requires low <= high && Merging(le, all, low, mid, high, p, q, was, now, destLow, destLow + (high - low))
    ensures SameOutside(now, was, destLow, destLow + (high - low))
    ensures StablySorted(le, all[low..high], now[destLow..destLow + (high - low)])
  {
    var s, t := all[low..mid], all[mid..high];
    assert s[..|s|] + t[..|t|] == all[low..high];
  }

  method MergeOne<T(!new)>(src: array<T>, dest: array<T>, mid: nat, high: nat, p: nat, q: nat, i: nat,
                           le: (T, T) -> bool, ghost low: nat, ghost was: seq<T>, ghost destLow: nat)
    returns (p': nat, q': nat)
    requires TotalPreorder(le) && src != dest && low <= p <= mid <= q <= high <= src.Length
    requires i < destLow + (high - low) <= dest.Length && i - destLow == (p - low) + (q - mid)
    requires Merging(le, src[..], low, mid, high, p, q, was, dest[..], destLow, i)
    modifies dest
    ensures low <= p' <= mid <= q' <= high && p' + q' == p + q + 1
    ensures Merging(le, src[..], low, mid, high, p', q', was, dest[..], destLow, i + 1)
  {
    hide Same, TotalPreorder, Ordered, Rearranged, Merging, Merged, SameOutside;
    ghost var now := dest[..];
    p', q' := p, q;
    if q >= high || (p < mid && le(src[p], src[q])) {
      MergingLeft(le, src[..], low, mid, high, p, q, was, now, destLow, i);
      dest[i] := src[p];
      p' := p + 1;
      assert dest[..] == now[i := src[p]];
    } else {
      MergingRight(le, src[..], low, mid, high, p, q, was, now, destLow, i);
      dest[i] := src[q];
      q' := q + 1;
      assert dest[..] == now[i := src[q]];
    }
  }

  method Merge<T(!new)>(src: array<T>, dest: array<T>, low: nat, mid: nat, high: nat, destLow: nat, le: (T, T) -> bool)
    requires TotalPreorder(le) && src != dest
    requires low <= mid <= high <= src.Length && destLow + (high - low) <= dest.Length
    requires Ordered(le, src[..][low..mid]) && Ordered(le, src[..][mid..high])
    modifies dest
    ensures var destHigh := destLow + (high - low);
            && SameOutside(dest[..], old(dest[..]), destLow, destHigh)
            && StablySorted(le, src[..][low..high], dest[..][destLow..destHigh])
  {
    ghost var all, was := src[..], dest[..];
    MergingStarts(le, all, low, mid, high, was, destLow);
    hide Same, TotalPreorder, Ordered, Rearranged, Merging, Merged, SameOutside;
    var p, q := low, mid;
    for i := destLow to destLow + (high - low)
      invariant low <= p <= mid <= q <= high && i - destLow == (p - low) + (q - mid) && src[..] == all
      invariant Merging(le, all, low, mid, high, p, q, was, dest[..], destLow, i)
    {
      p, q := MergeOne(src, dest, mid, high, p, q, i, le, low, was, destLow);
    }
    MergingEnds(le, all, low, mid, high, p, q, was, dest[..], destLow);
  }

  // ----- the sort ------------------------------------------------------------

  method ArrayCopy<T>(src: array<T>, from: nat, dest: array<T>, to: nat, count: nat)
    requires src != dest && from + count <= src.Length && to + count <= dest.Length
    modifies dest
    ensures OnlyWithin(dest, to, to + count) && dest[to..to + count] == src[from..from + count]
  {
    for i := 0 to count
      invariant dest[..to] == old(dest[..to]) && dest[to + count..] == old(dest[to + count..])
      invariant dest[to..to + i] == src[from..from + i]
    {
      dest[to + i] := src[from + i];
    }
  }

  // Two ordered parts, the last of the first not greater than the first of the second.
  lemma OrderedParts<T(!new)>(le: (T, T) -> bool, s: seq<T>, t: seq<T>)
    requires TotalPreorder(le) && Ordered(le, s) && Ordered(le, t) && s != [] && t != [] && le(s[|s| - 1], t[0])
    ensures Ordered(le, s + t)
  {
    forall i, j | 0 <= i < |s| && 0 <= j < |t|
      ensures le(s[i], t[j])
    {
      assert le(s[i], s[|s| - 1]) || i == |s| - 1;
      assert le(t[0], t[j]) || j == 0;
    }
  }

  // Sort the part of `dest` between `low` and `high`; `src` has the same elements there,
  // moved by `offset`, and is used for the halves.
  method MergeSort<T(!new)>(src: array<T>, dest: array<T>, low: nat, high: nat, offset: int, le: (T, T) -> bool)
    requires TotalPreorder(le) && src != dest && low <= high <= dest.Length
    requires 0 <= low + offset && high + offset <= src.Length
    requires src[..][low + offset..high + offset] == dest[..][low..high]
    modifies src, dest
    ensures SameOutside(dest[..], old(dest[..]), low, high)
    ensures SameOutside(src[..], old(src[..]), low + offset, high + offset)
    ensures StablySorted(le, old(dest[..])[low..high], dest[..][low..high])
    decreases high - low
  {
    var length := high - low;
    ghost var was := dest[..];
    if length < InsertionSortThreshold {
      InsertionSort(dest, low, high, le);
      WholeSlices(was, dest[..], low, high);
      assert old(dest[low..high]) == was[low..high] && dest[..][low..high] == dest[low..high];
      return;
    }
    var srcLow, srcHigh := low + offset, high + offset;
    var mid := (srcLow + srcHigh) / 2;
    SortHalves(src, dest, srcLow, mid, srcHigh, -offset, le);
    hide Same, TotalPreorder, Ordered, Rearranged, SameOutside;
    ghost var halves, between := src[..][srcLow..srcHigh], dest[..];
    MergeHalves(src, dest, srcLow, mid, srcHigh, low, le);
    SameOutsideTwice(was, between, dest[..], low, high);
    RearrangedTwice(le, was[low..high], halves, dest[..][low..high]);
  }

  lemma WholeSlices<T>(was: seq<T>, now: seq<T>, low: nat, high: nat)
    requires |was| == |now| && low <= high <= |now| && now[..low] == was[..low] && now[high..] == was[high..]
    ensures SameOutside(now, was, low, high)
  {
  }

  lemma SameOutsideTwice<T>(s: seq<T>, t: seq<T>, u: seq<T>, low: nat, high: nat)
    requires SameOutside(t, s, low, high) && SameOutside(u, t, low, high)
    ensures SameOutside(u, s, low, high)
  {
  }

  // If the halves are in order already it is enough to copy them.
  method MergeHalves<T(!new)>(src: array<T>, dest: array<T>, low: nat, mid: nat, high: nat, destLow: nat,
                              le: (T, T) -> bool)
    requires TotalPreorder(le) && src != dest
    requires low < mid < high <= src.Length && destLow + (high - low) <= dest.Length
    requires Ordered(le, src[..][low..mid]) && Ordered(le, src[..][mid..high])
    modifies dest
    ensures var destHigh := destLow + (high - low);
            && SameOutside(dest[..], old(dest[..]), destLow, destHigh)
            && StablySorted(le, src[..][low..high], dest[..][destLow..destHigh])
  {
    hide Same, TotalPreorder, Ordered, Rearranged;
    if le(src[mid - 1], src[mid]) {
      ghost var all := src[..];
      OrderedParts(le, all[low..mid], all[mid..high]);
      assert all[low..high] == all[low..mid] + all[mid..high];
      ArrayCopy(src, low, dest, destLow, high - low);
      assert dest[..][destLow..destLow + (high - low)] == all[low..high];
      RearrangedSelf(le, all[low..high]);
    } else {
      Merge(src, dest, low, mid, high, destLow, le);
    }
  }

  // Sort both halves of `dest`, using `src` for their halves.
  method SortHalves<T(!new)>(dest: array<T>, src: array<T>, low: nat, mid: nat, high: nat, offset: int,
                             le: (T, T) -> bool)
    requires TotalPreorder(le) && src != dest && low < mid < high <= dest.Length
    requires 0 <= low + offset && high + offset <= src.Length
    requires src[..][low + offset..high + offset] == dest[..][low..high]
    modifies src, dest
    ensures SameOutside(dest[..], old(dest[..]), low, high)
    ensures SameOutside(src[..], old(src[..]), low + offset, high + offset)
    ensures Ordered(le, dest[..][low..mid]) && Ordered(le, dest[..][mid..high])
    ensures Rearranged(le, old(dest[..])[low..high], dest[..][low..high])
    decreases high - low, 0
  {
    ghost var d0, s0 := dest[..], src[..];
    SubSlices(s0, d0, low + offset, low, mid - low, high - low);
    MergeSort(src, dest, low, mid, offset, le);
    ghost var d1, s1 := dest[..], src[..];
    SecondHalf(d0, d1, low, mid, high);
    SecondHalf(s0, s1, low + offset, mid + offset, high + offset);
    hide Same, TotalPreorder, Ordered, Rearranged, SameOutside;
    MergeSort(src, dest, mid, high, offset, le);
    FirstHalf(d0, d1, dest[..], low, mid, high);
    FirstHalf(s0, s1, src[..], low + offset, mid + offset, high + offset);
    RearrangedParts(le, d0[low..mid], d0[mid..high], dest[..][low..mid], dest[..][mid..high]);
  }

  lemma SubSlices<T>(s: seq<T>, t: seq<T>, from: nat, low: nat, half: nat, length: nat)
    requires half <= length && from + length <= |s| && low + length <= |t|
             && s[from..from + length] == t[low..low + length]
    ensures s[from..from + half] == t[low..low + half] && s[from + half..from + length] == t[low + half..low + length]
  {
    assert s[from..from + length][..half] == s[from..from + half] && t[low..low + length][..half] == t[low..low + half];
    assert s[from..from + length][half..] == s[from + half..from + length];
    assert t[low..low + length][half..] == t[low + half..low + length];
  }

  // While the first half is sorted, the second stays as it was.
  lemma SecondHalf<T>(was: seq<T>, now: seq<T>, low: nat, mid: nat, high: nat)
    requires SameOutside(now, was, low, mid) && mid <= high <= |now|
    ensures now[mid..high] == was[mid..high] && SameOutside(now, was, low, high)
  {
    assert now[mid..][..high - mid] == now[mid..high] && was[mid..][..high - mid] == was[mid..high];
    assert now[mid..][high - mid..] == now[high..] && was[mid..][high - mid..] == was[high..];
  }

  // While the second half is sorted, the first stays as it was.
  lemma FirstHalf<T>(was: seq<T>, between: seq<T>, now: seq<T>, low: nat, mid: nat, high: nat)
    requires SameOutside(between, was, low, mid) && SameOutside(now, between, mid, high) && low <= mid <= high <= |now|
    ensures now[low..mid] == between[low..mid] && SameOutside(now, was, low, high)
    ensures was[low..mid] + was[mid..high] == was[low..high] && now[low..mid] + now[mid..high] == now[low..high]
  {
    assert now[..mid][low..] == now[low..mid] && between[..mid][low..] == between[low..mid];
    assert now[..mid][..low] == now[..low] && between[..mid][..low] == between[..low];
    assert between[mid..][high - mid..] == between[high..] && was[mid..][high - mid..] == was[high..];
  }

  // The array is sorted stably, whatever the order is: any total preorder will do.
  method Sort<T(!new)>(a: array<T>, le: (T, T) -> bool)
    requires TotalPreorder(le)
    modifies a
    ensures StablySorted(le, old(a[..]), a[..]) && multiset(a[..]) == multiset(old(a[..]))
  {
    var aux := new T[a.Length](i requires 0 <= i < a.Length reads a => a[i]);
    assert aux[..] == a[..];
    MergeSort(aux, a, 0, a.Length, 0, le);
    assert a[..][0..a.Length] == a[..] && old(a[..])[0..a.Length] == old(a[..]);
    StablePermutes(le, old(a[..]), a[..]);
  }
}
