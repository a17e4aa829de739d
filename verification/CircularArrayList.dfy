// A list kept in an array used as a ring: the elements may go past its end and on from its
// beginning.  At least one slot is always free, so that a full ring is not taken for an
// empty one.
module CircularArrayList {
  import opened ObjectArray

  // ----- the ring ------------------------------------------------------------

  // Where the element at `i` is, in a ring of `n` slots that begins at `first`.
  function Slot(first: nat, i: nat, n: nat): nat {
    if first + i < n then first + i else first + i - n
  }

  function Wrap(i: nat, n: nat): nat
    requires n > 0
  {
    i % n
  }

  lemma SlotIs(first: nat, i: nat, n: nat)
    requires first < n && i < n
    ensures Wrap(first + i, n) == Slot(first, i, n) && 0 <= Slot(first, i, n) < n
  {
    WrapIs(first + i, n);
    hide Wrap;
  }

  lemma WrapIs(i: nat, n: nat)
    requires i < 2 * n
    ensures Wrap(i, n) == if i < n then i else i - n
  {
    assert i / n == if i < n then 0 else 1;
  }

  lemma Back(first: nat, m: nat, n: nat)
    requires first < n && m <= n
    ensures Wrap(first - m + n, n) == if m <= first then first - m else first - m + n
    ensures Slot(first, n - m, n) == if m <= first then first - m else first - m + n
  {
    WrapIs(first - m + n, n);
    hide Wrap;
  }

  lemma Ahead(last: nat, m: nat, n: nat)
    requires last < n
    ensures last + m <= n ==> Wrap(last + m, n) == if last + m == n then 0 else last + m
  {
    if last + m <= n {
      WrapIs(last + m, n);
    }
    hide Wrap;
  }

  ghost function Ring(d: seq<object?>, first: nat, count: nat): (r: seq<object?>)
    requires count <= |d| && (count > 0 ==> first < |d|)
    ensures |r| == count
  {
    seq(count, i requires 0 <= i < count => d[Slot(first, i, |d|)])
  }

  ghost predicate Used(first: nat, count: nat, n: nat, j: nat) {
    first <= j < first + count || j + n < first + count
  }

  // `s` with `n` of its elements copied from `from` on to `to` on.
  ghost function Moved(s: seq<object?>, from: nat, to: nat, n: nat): (t: seq<object?>)
    ensures |t| == |s|
  {
    if from + n <= |s| && to + n <= |s| then Pasted(s, to, s[from..from + n]) else s
  }

  lemma MovedAt(s: seq<object?>, from: nat, to: nat, n: nat)
    requires from + n <= |s| && to + n <= |s|
    ensures forall j :: 0 <= j < |s| && !(to <= j < to + n) ==> Moved(s, from, to, n)[j] == s[j]
    ensures forall j :: to <= j < to + n ==> Moved(s, from, to, n)[j] == s[j - to + from]
  {
    PastedAt(s, to, s[from..from + n]);
    hide Pasted;
  }

  // The slots that hold no element hold nothing.
  ghost predicate Clean(d: seq<object?>, first: nat, count: nat) {
    forall j :: 0 <= j < |d| && !Used(first, count, |d|, j) ==> d[j] == null
  }

  // `t` is the ring `s`, moved to `first'`, with `m` more slots before the element at `k`.
  ghost predicate Opened(s: seq<object?>, first: nat, count: nat, k: nat, m: nat, t: seq<object?>, first': nat)
    requires count + m < |s| == |t| && first < |s| && first' < |t| && k <= count
  {
    && Clean(t, first', count + m)
    && (forall i :: 0 <= i < k ==> t[Slot(first', i, |t|)] == s[Slot(first, i, |s|)])
    && (forall i :: k <= i < count ==> t[Slot(first', i + m, |t|)] == s[Slot(first, i, |s|)])
  }

  // Shifting the elements before `k` to the left; they do not go past the end.
  lemma ShiftHead(s: seq<object?>, first: nat, count: nat, k: nat, m: nat)
    requires count + m < |s| && m <= first < |s| && k <= count && first + k <= |s| && Clean(s, first, count)
    requires first + count <= |s| || first + count - |s| < first - m
    ensures Opened(s, first, count, k, m, Moved(s, first, first - m, k), first - m)
  {
    hide Opened, Clean, Slot;
    MovedAt(s, first, first - m, k);
    hide Moved;
    HeadMoved(s, first, count, k, m, Moved(s, first, first - m, k));
    HeadCleared(s, first, count, k, m, Moved(s, first, first - m, k));
    OpenedBy(s, first, count, k, m, Moved(s, first, first - m, k), first - m);
  }

  lemma HeadMoved(s: seq<object?>, first: nat, count: nat, k: nat, m: nat, t: seq<object?>)
    requires count + m < |s| == |t| && m <= first < |s| && k <= count && first + k <= |s|
    requires first + count <= |s| || first + count - |s| < first - m
    requires forall j :: 0 <= j < |s| && !(first - m <= j < first - m + k) ==> t[j] == s[j]
    requires forall j :: first - m <= j < first - m + k ==> t[j] == s[j - (first - m) + first]
    ensures forall i :: 0 <= i < k ==> t[Slot(first - m, i, |t|)] == s[Slot(first, i, |s|)]
    ensures forall i :: k <= i < count ==> t[Slot(first - m, i + m, |t|)] == s[Slot(first, i, |s|)]
  {
  }

  lemma HeadCleared(s: seq<object?>, first: nat, count: nat, k: nat, m: nat, t: seq<object?>)
    requires count + m < |s| == |t| && m <= first < |s| && k <= count && first + k <= |s| && Clean(s, first, count)
    requires first + count <= |s| || first + count - |s| < first - m
    requires forall j :: 0 <= j < |s| && !(first - m <= j < first - m + k) ==> t[j] == s[j]
    ensures Clean(t, first - m, count + m)
  {
    forall j | 0 <= j < |t| && !Used(first - m, count + m, |t|, j)
      ensures t[j] == null
    {
      assert !Used(first, count, |s|, j);
    }
  }

  lemma OpenedBy(s: seq<object?>, first: nat, count: nat, k: nat, m: nat, t: seq<object?>, first': nat)
    requires count + m < |s| == |t| && first < |s| && first' < |t| && k <= count
    requires Clean(t, first', count + m)
    requires forall i :: 0 <= i < k ==> t[Slot(first', i, |t|)] == s[Slot(first, i, |s|)]
    requires forall i :: k <= i < count ==> t[Slot(first', i + m, |t|)] == s[Slot(first, i, |s|)]
    ensures Opened(s, first, count, k, m, t, first')
  {
  }

  // Shifting the elements from `k` on to the right: they are all after the beginning, or all before it.
  lemma ShiftTail(s: seq<object?>, first: nat, count: nat, k: nat, m: nat, at: nat)
    requires count + m < |s| && first < |s| && k <= count && Clean(s, first, count) && at == Slot(first, k, |s|)
    requires (first + count <= |s| && first + count + m <= |s|) || first + k >= |s|
    ensures Opened(s, first, count, k, m, Moved(s, at, at + m, count - k), first)
  {
    var t := Moved(s, at, at + m, count - k);
    hide Opened, Clean, Slot;
    MovedAt(s, at, at + m, count - k);
    hide Moved;
    TailMoved(s, first, count, k, m, at, t);
    TailCleared(s, first, count, k, m, at, t);
    OpenedBy(s, first, count, k, m, t, first);
  }

  lemma TailMoved(s: seq<object?>, first: nat, count: nat, k: nat, m: nat, at: nat, t: seq<object?>)
    requires count + m < |s| == |t| && first < |s| && k <= count && at == Slot(first, k, |s|)
    requires (first + count <= |s| && first + count + m <= |s|) || first + k >= |s|
    requires forall j :: 0 <= j < |s| && !(at + m <= j < at + m + (count - k)) ==> t[j] == s[j]
    requires forall j :: at + m <= j < at + m + (count - k) ==> t[j] == s[j - (at + m) + at]
    ensures forall i :: 0 <= i < k ==> t[Slot(first, i, |t|)] == s[Slot(first, i, |s|)]
    ensures forall i :: k <= i < count ==> t[Slot(first, i + m, |t|)] == s[Slot(first, i, |s|)]
  {
  }

  lemma TailCleared(s: seq<object?>, first: nat, count: nat, k: nat, m: nat, at: nat, t: seq<object?>)
    requires count + m < |s| == |t| && first < |s| && k <= count && at == Slot(first, k, |s|) && Clean(s, first, count)
    requires (first + count <= |s| && first + count + m <= |s|) || first + k >= |s|
    requires forall j :: 0 <= j < |s| && !(at + m <= j < at + m + (count - k)) ==> t[j] == s[j]
    ensures Clean(t, first, count + m)
  {
    forall j | 0 <= j < |t| && !Used(first, count + m, |t|, j)
      ensures t[j] == null
    {
      assert !Used(first, count, |s|, j);
    }
  }

  // Shifting both ways, so that the elements fill the ring from its first slot.
  lemma ShiftBoth(s: seq<object?>, first: nat, count: nat, k: nat, m: nat)
    requires count + m < |s| && first <= m && k <= count && Clean(s, first, count) && first + count <= |s|
    ensures Opened(s, first, count, k, m, Moved(Moved(s, first, 0, k), first + k, k + m, count - k), 0)
  {
    hide Opened, Clean, Slot;
    var t := Moved(Moved(s, first, 0, k), first + k, k + m, count - k);
    MovedTwice(s, first, count, k, m);
    hide Moved;
    BothMoved(s, first, count, k, m, t);
    BothCleared(s, first, count, k, m, t);
    OpenedBy(s, first, count, k, m, t, 0);
  }

  lemma MovedTwice(s: seq<object?>, first: nat, count: nat, k: nat, m: nat)
    requires count + m < |s| && first <= m && k <= count && first + count <= |s|
    ensures var t := Moved(Moved(s, first, 0, k), first + k, k + m, count - k);
            && (forall j :: 0 <= j < k ==> t[j] == s[j + first])
            && (forall j :: k + m <= j < count + m ==> t[j] == s[j - m + first])
            && (forall j :: count + m <= j < |s| ==> t[j] == s[j])
  {
    var left := Moved(s, first, 0, k);
    var t := Moved(left, first + k, k + m, count - k);
    forall j | 0 <= j < |s|
      ensures j < k ==> t[j] == s[j + first]
      ensures k + m <= j < count + m ==> t[j] == s[j - m + first]
      ensures count + m <= j ==> t[j] == s[j]
    {
      hide Moved;
      MovedOne(left, first + k, k + m, count - k, j);
      MovedOne(s, first, 0, k, j);
      if k + m <= j < count + m {
        MovedOne(s, first, 0, k, j - m + first);
      }
    }
    hide Moved;
  }

  lemma MovedOne(s: seq<object?>, from: nat, to: nat, n: nat, j: nat)
    requires from + n <= |s| && to + n <= |s| && j < |s|
    ensures Moved(s, from, to, n)[j] == if to <= j < to + n then s[j - to + from] else s[j]
  {
    MovedAt(s, from, to, n);
    hide Moved;
  }

  lemma BothMoved(s: seq<object?>, first: nat, count: nat, k: nat, m: nat, t: seq<object?>)
    requires count + m < |s| == |t| && first < |s| && k <= count && first + count <= |s|
    requires forall j :: 0 <= j < k ==> t[j] == s[j + first]
    requires forall j :: k + m <= j < count + m ==> t[j] == s[j - m + first]
    ensures forall i :: 0 <= i < k ==> t[Slot(0, i, |t|)] == s[Slot(first, i, |s|)]
    ensures forall i :: k <= i < count ==> t[Slot(0, i + m, |t|)] == s[Slot(first, i, |s|)]
  {
  }

  lemma BothCleared(s: seq<object?>, first: nat, count: nat, k: nat, m: nat, t: seq<object?>)
    requires count + m < |s| == |t| && first <= m && Clean(s, first, count)
    requires forall j :: count + m <= j < |s| ==> t[j] == s[j]
    ensures Clean(t, 0, count + m)
  {
    forall j | 0 <= j < |t| && !Used(0, count + m, |t|, j)
      ensures t[j] == null
    {
      assert !Used(first, count, |s|, j);
    }
  }

  // No shift is needed before the first element.
  lemma ShiftNone(s: seq<object?>, first: nat, count: nat, m: nat)
    requires count + m < |s| && first < |s| && Clean(s, first, count)
    ensures Opened(s, first, count, 0, m, s, Slot(first, |s| - m, |s|))
  {
  }

  // One of the `m` slots from `from` on, in a ring of `n`.
  ghost predicate InHole(from: nat, m: nat, n: nat, j: nat) {
    from <= j < from + m || from <= j + n < from + m
  }

  // The ring once the new slots have been filled.
  lemma FilledRing(s: seq<object?>, first: nat, count: nat, k: nat, items: seq<object?>, t: seq<object?>, first': nat,
                   u: seq<object?>)
    requires count + |items| < |s| == |t| == |u| && first < |s| && first' < |s| && k <= count
    requires Opened(s, first, count, k, |items|, t, first')
    requires forall i :: 0 <= i < |items| ==> u[Slot(first', k + i, |u|)] == items[i]
    requires forall j :: 0 <= j < |u| && !InHole(first' + k, |items|, |u|, j) ==> u[j] == t[j]
    ensures var old' := Ring(s, first, count); Ring(u, first', count + |items|) == old'[..k] + items + old'[k..]
    ensures Clean(u, first', count + |items|)
  {
    var m, all, old' := |items|, Ring(u, first', count + |items|), Ring(s, first, count);
    FilledClean(first', count, k, m, t, u);
    forall i | 0 <= i < count
      ensures all[if i < k then i else i + m] == old'[i]
    {
      var j := Slot(first', if i < k then i else i + m, |u|);
      assert !InHole(first' + k, m, |u|, j);
    }
    hide Opened, Slot, InHole, Ring;
    ThreeParts(all, old', items, k);
  }

  lemma FilledClean(first: nat, count: nat, k: nat, m: nat, t: seq<object?>, u: seq<object?>)
    requires count + m < |t| == |u| && first < |t| && k <= count && Clean(t, first, count + m)
    requires forall j :: 0 <= j < |u| && !InHole(first + k, m, |u|, j) ==> u[j] == t[j]
    ensures Clean(u, first, count + m)
  {
    forall j | 0 <= j < |u| && !Used(first, count + m, |u|, j)
      ensures u[j] == null
    {
      assert !InHole(first + k, m, |u|, j);
    }
  }

  lemma ThreeParts(all: seq<object?>, old': seq<object?>, items: seq<object?>, k: nat)
    requires |all| == |old'| + |items| && k <= |old'|
    requires forall i :: 0 <= i < |old'| ==> all[if i < k then i else i + |items|] == old'[i]
    requires forall i :: 0 <= i < |items| ==> all[k + i] == items[i]
    ensures all == old'[..k] + items + old'[k..]
  {
    var m := |items|;
    forall i | 0 <= i < |all|
      ensures all[i] == (old'[..k] + items + old'[k..])[i]
    {
      assert k + m <= i ==> all[(i - m) + m] == old'[i - m];
      assert k <= i < k + m ==> all[k + (i - k)] == items[i - k];
    }
  }

  // `t` is the ring `s` without the element at `k`.
  ghost predicate Closed(s: seq<object?>, first: nat, count: nat, k: nat, t: seq<object?>, first': nat)
    requires count < |s| == |t| && first < |s| && first' < |t| && k < count
  {
    && Clean(t, first', count - 1)
    && (forall i :: 0 <= i < k ==> t[Slot(first', i, |t|)] == s[Slot(first, i, |s|)])
    && (forall i :: k < i < count ==> t[Slot(first', i - 1, |t|)] == s[Slot(first, i, |s|)])
  }

  lemma DropFirst(s: seq<object?>, first: nat, count: nat)
    requires 0 < count < |s| && first < |s| && Clean(s, first, count)
    ensures Closed(s, first, count, 0, s[first := null], Slot(first, 1, |s|))
  {
  }

  lemma CloseHead(s: seq<object?>, first: nat, count: nat, k: nat)
    requires count < |s| && first < |s| && k < count && first + k < |s| && Clean(s, first, count) && k > 0
    ensures Closed(s, first, count, k, Moved(s, first, first + 1, k)[first := null], first + 1)
  {
    var t := Moved(s, first, first + 1, k)[first := null];
    MovedAt(s, first, first + 1, k);
    hide Moved, Closed, Clean;
    HeadClosedUp(s, first, count, k, t);
    HeadEnded(s, first, count, k, t);
    hide Slot;
    ClosedBy(s, first, count, k, t, first + 1);
  }

  lemma HeadClosedUp(s: seq<object?>, first: nat, count: nat, k: nat, t: seq<object?>)
    requires count < |s| == |t| && k < count && first + k < |s|
    requires forall j :: 0 <= j < |s| && !(first <= j < first + 1 + k) ==> t[j] == s[j]
    requires forall j :: first + 1 <= j < first + 1 + k ==> t[j] == s[j - (first + 1) + first]
    ensures forall i :: 0 <= i < k ==> t[Slot(first + 1, i, |t|)] == s[Slot(first, i, |s|)]
    ensures forall i :: k < i < count ==> t[Slot(first + 1, i - 1, |t|)] == s[Slot(first, i, |s|)]
  {
  }

  lemma HeadEnded(s: seq<object?>, first: nat, count: nat, k: nat, t: seq<object?>)
    requires count < |s| == |t| && k < count && first + k < |s| && Clean(s, first, count) && t[first] == null
    requires forall j :: 0 <= j < |s| && !(first <= j < first + 1 + k) ==> t[j] == s[j]
    ensures Clean(t, first + 1, count - 1)
  {
    forall j | 0 <= j < |t| && !Used(first + 1, count - 1, |t|, j)
      ensures t[j] == null
    {
      assert j == first || !Used(first, count, |s|, j);
    }
  }

  lemma ClosedBy(s: seq<object?>, first: nat, count: nat, k: nat, t: seq<object?>, first': nat)
    requires count < |s| == |t| && first < |s| && first' < |t| && k < count && Clean(t, first', count - 1)
    requires forall i :: 0 <= i < k ==> t[Slot(first', i, |t|)] == s[Slot(first, i, |s|)]
    requires forall i :: k < i < count ==> t[Slot(first', i - 1, |t|)] == s[Slot(first, i, |s|)]
    ensures Closed(s, first, count, k, t, first')
  {
  }

  lemma CloseTail(s: seq<object?>, first: nat, count: nat, k: nat, at: nat)
    requires count < |s| && first < |s| && k < count && Clean(s, first, count) && at == Slot(first, k, |s|)
    requires first + count < |s| || first + k >= |s|
    ensures at + (count - k) <= |s|
    ensures Closed(s, first, count, k, Moved(s, at + 1, at, count - k - 1)[at + (count - k) - 1 := null], first)
  {
    var t := Moved(s, at + 1, at, count - k - 1)[at + (count - k) - 1 := null];
    MovedAt(s, at + 1, at, count - k - 1);
    hide Moved, Closed, Clean;
    TailClosedUp(s, first, count, k, at, t);
    TailEnded(s, first, count, k, at, t);
    hide Slot;
    ClosedBy(s, first, count, k, t, first);
  }

  lemma TailClosedUp(s: seq<object?>, first: nat, count: nat, k: nat, at: nat, t: seq<object?>)
    requires count < |s| == |t| && first < |s| && k < count && at == Slot(first, k, |s|)
    requires first + count < |s| || first + k >= |s|
    requires forall j :: 0 <= j < |s| && !(at <= j < at + (count - k)) ==> t[j] == s[j]
    requires forall j :: at <= j < at + (count - k - 1) ==> t[j] == s[j - at + (at + 1)]
    ensures forall i :: 0 <= i < k ==> t[Slot(first, i, |t|)] == s[Slot(first, i, |s|)]
    ensures forall i :: k < i < count ==> t[Slot(first, i - 1, |t|)] == s[Slot(first, i, |s|)]
  {
  }

  lemma TailEnded(s: seq<object?>, first: nat, count: nat, k: nat, at: nat, t: seq<object?>)
    requires count < |s| == |t| && first < |s| && k < count && at == Slot(first, k, |s|) && Clean(s, first, count)
    requires first + count < |s| || first + k >= |s|
    requires forall j :: 0 <= j < |s| && !(at <= j < at + (count - k)) ==> t[j] == s[j]
    requires t[at + (count - k) - 1] == null
    ensures Clean(t, first, count - 1)
  {
    forall j | 0 <= j < |t| && !Used(first, count - 1, |t|, j)
      ensures t[j] == null
    {
      assert j == at + (count - k) - 1 || !Used(first, count, |s|, j);
    }
  }

  lemma ClosedRing(s: seq<object?>, first: nat, count: nat, k: nat, t: seq<object?>, first': nat)
    requires count < |s| == |t| && first < |s| && first' < |t| && k < count && Closed(s, first, count, k, t, first')
    ensures var old' := Ring(s, first, count); Ring(t, first', count - 1) == old'[..k] + old'[k + 1..]
  {
    var all, old' := Ring(t, first', count - 1), Ring(s, first, count);
    forall i | 0 <= i < count && i != k
      ensures all[if i < k then i else i - 1] == old'[i]
    {
    }
  }

  lemma FlatCopy(d: seq<object?>, first: nat, count: nat, r: seq<object?>)
    requires first + count <= |d| && 0 < count <= |r|
    ensures var p := Pasted(r, 0, d[first..first + count]);
            p[..count] == Ring(d, first, count) && p[count..] == r[count..]
  {
    PastedAt(r, 0, d[first..first + count]);
    hide Pasted;
  }

  lemma WrappedCopy(d: seq<object?>, first: nat, count: nat, r: seq<object?>)
    requires first < |d| <= first + count && count < |d| && count <= |r|
    ensures var head, end := |d| - first, first + count - |d|;
            var p := Pasted(Pasted(r, 0, d[first..first + head]), head, d[0..end]);
            p[..count] == Ring(d, first, count) && p[count..] == r[count..]
  {
    var head, end := |d| - first, first + count - |d|;
    PastedAt(r, 0, d[first..first + head]);
    PastedAt(Pasted(r, 0, d[first..first + head]), head, d[0..end]);
    hide Pasted;
  }

  // Room has been made for `m` elements before the one at `k`.
  ghost predicate Shifted(s: seq<object?>, first: nat, count: nat, k: nat, m: nat, t: seq<object?>, first': nat,
                          last': int) {
    && count + m < |s| == |t| && first < |s| && first' < |t| && k <= count
    && last' == Slot(first', count + m, |t|) && Opened(s, first, count, k, m, t, first')
  }

  lemma NothingShifted(s: seq<object?>, first: nat, last: nat, count: nat, m: nat)
    requires first < |s| && 1 + count + m <= |s| && last == Slot(first, count, |s|) && Clean(s, first, count)
    ensures Shifted(s, first, count, 0, m, s, Wrap(first - m + |s|, |s|), last)
  {
    Back(first, m, |s|);
    ShiftNone(s, first, count, m);
    hide Opened, Clean;
  }

  lemma HeadShifted(s: seq<object?>, first: nat, last: nat, count: nat, k: nat, m: nat, at: nat)
    requires first < |s| && k < count && 1 + count + m <= |s| && at == Slot(first, k, |s|)
             && last == Slot(first, count, |s|)
    requires Clean(s, first, count)
    requires (first > last && at > first) || (first < last && first >= m)
    ensures m <= first <= at < |s| && at == first + k && Wrap(first - m + |s|, |s|) == first - m
    ensures Shifted(s, first, count, k, m, Moved(s, first, first - m, at - first), first - m, last)
  {
    hide Opened, Clean, Moved, Wrap, Slot;
    HeadFits(first, last, count, k, m, |s|, at);
    assert at - first == k;
    ShiftHead(s, first, count, k, m);
  }

  lemma HeadFits(first: nat, last: nat, count: nat, k: nat, m: nat, n: nat, at: nat)
    requires first < n && k < count && 1 + count + m <= n && at == Slot(first, k, n) && last == Slot(first, count, n)
    requires (first > last && at > first) || (first < last && first >= m)
    ensures m <= first <= at < n && at == first + k && (first + count <= n || first + count - n < first - m)
    ensures Wrap(first - m + n, n) == first - m && last == Slot(first - m, count + m, n)
  {
    Back(first, m, n);
    hide Wrap;
  }

  lemma TailShifted(s: seq<object?>, first: nat, last: nat, count: nat, k: nat, m: nat, at: nat)
    requires first < |s| && k < count && 1 + count + m <= |s| && at == Slot(first, k, |s|)
             && last == Slot(first, count, |s|)
    requires Clean(s, first, count)
    requires at < last && last + m <= |s|
    ensures Shifted(s, first, count, k, m, Moved(s, at, at + m, last - at), first, Wrap(last + m, |s|))
  {
    hide Opened, Clean, Moved, Wrap, Slot;
    TailGoes(first, last, count, k, m, |s|, at);
    ShiftTail(s, first, count, k, m, at);
  }

  lemma TailGoes(first: nat, last: nat, count: nat, k: nat, m: nat, n: nat, at: nat)
    requires first < n && k < count && 1 + count + m <= n && at == Slot(first, k, n) && last == Slot(first, count, n)
    requires at < last && last + m <= n
    ensures last - at == count - k && Wrap(last + m, n) == Slot(first, count + m, n)
    ensures (first + count <= n && first + count + m <= n) || first + k >= n
  {
    Ahead(last, m, n);
    hide Wrap;
  }

  lemma BothShifted(s: seq<object?>, first: nat, last: nat, count: nat, k: nat, m: nat, at: nat)
    requires first < |s| && k < count && 1 + count + m <= |s| && at == Slot(first, k, |s|)
             && last == Slot(first, count, |s|)
    requires Clean(s, first, count)
    requires first < last && first < m && last + m > |s|
    ensures first <= at <= last && at == first + k && last == first + count && at + (m - first) + (last - at) <= |s|
    ensures Shifted(s, first, count, k, m, Moved(Moved(s, first, 0, at - first), at, at + (m - first), last - at), 0,
                    last + (m - first))
  {
    hide Opened, Clean, Moved;
    ShiftBoth(s, first, count, k, m);
  }

  // Put `items` into the slots from `from` on.
  method FillRing(a: array<object?>, from: nat, items: seq<object?>) returns (next: nat)
    requires from < a.Length && |items| < a.Length
    modifies a
    ensures next == Slot(from, |items|, a.Length)
    ensures Filled(old(a[..]), a[..], from, items)
  {
    ghost var t := a[..];
    next := from;
    for i := 0 to |items|
      invariant next == Slot(from, i, a.Length) < a.Length
      invariant Filled(t, a[..], from, items[..i])
    {
      SlotIs(next, 1, a.Length);
      FillNext(t, a[..], from, items, i);
      a[next] := items[i];
      next := Wrap(next + 1, a.Length);
    }
    assert items[..|items|] == items;
  }

  ghost predicate Filled(t: seq<object?>, u: seq<object?>, from: nat, items: seq<object?>) {
    && |t| == |u| && from < |u| && |items| < |u|
    && (forall i :: 0 <= i < |items| ==> u[Slot(from, i, |u|)] == items[i])
    && (forall j :: 0 <= j < |u| && !InHole(from, |items|, |u|, j) ==> u[j] == t[j])
  }

  lemma FilledOne(t: seq<object?>, at: int, e: object?)
    requires |t| > 1
    ensures 0 <= at < |t| ==> Filled(t, t[at := e], at, [e])
  {
  }

  lemma FillNext(t: seq<object?>, u: seq<object?>, from: nat, items: seq<object?>, i: nat)
    requires i < |items| < |u| && Filled(t, u, from, items[..i])
    ensures Filled(t, u[Slot(from, i, |u|) := items[i]], from, items[..i + 1])
  {
  }

  lemma InsertedRing(s: seq<object?>, first: nat, count: nat, k: nat, items: seq<object?>, t: seq<object?>,
                     first': nat, u: seq<object?>)
    requires count + |items| < |s| == |t| == |u| && first < |s| && first' < |s| && k <= count
    requires Opened(s, first, count, k, |items|, t, first') && Filled(t, u, Slot(first', k, |u|), items)
    ensures var old' := Ring(s, first, count); Ring(u, first', count + |items|) == old'[..k] + items + old'[k..]
    ensures Clean(u, first', count + |items|)
  {
    forall i | 0 <= i < |items|
      ensures u[Slot(first', k + i, |u|)] == items[i]
    {
      assert Slot(first', k + i, |u|) == Slot(Slot(first', k, |u|), i, |u|);
    }
    forall j | 0 <= j < |u| && !InHole(first' + k, |items|, |u|, j)
      ensures u[j] == t[j]
    {
      assert !InHole(Slot(first', k, |u|), |items|, |u|, j);
    }
    hide Opened, Clean, Filled, Slot;
    FilledRing(s, first, count, k, items, t, first', u);
  }

  // Appending needs no shift.
  lemma OpenEnd(s: seq<object?>, first: nat, count: nat, m: nat)
    requires count + m < |s| && first < |s| && Clean(s, first, count)
    ensures Opened(s, first, count, count, m, s, first)
    ensures Slot(Slot(first, count, |s|), m, |s|) == Slot(first, count + m, |s|) && Slot(first, count, |s|) < |s|
  {
    forall j | 0 <= j < |s| && !Used(first, count + m, |s|, j)
      ensures s[j] == null
    {
      assert !Used(first, count, |s|, j);
    }
  }

  // The element at `k` has been taken out.
  ghost predicate CutOut(s: seq<object?>, first: nat, count: nat, k: nat, t: seq<object?>, first': nat, last': int) {
    && k < count < |s| == |t| && first < |s| && first' < |t|
    && last' == Slot(first', count - 1, |t|) && Closed(s, first, count, k, t, first')
  }

  lemma FirstDropped(s: seq<object?>, first: nat, last: nat, count: nat)
    requires first < |s| && 0 < count < |s| && last == Slot(first, count, |s|) && Clean(s, first, count)
    ensures CutOut(s, first, count, 0, s[first := null], Slot(first, 1, |s|), last)
  {
    DropFirst(s, first, count);
    hide Closed, Clean;
  }

  lemma HeadClosed(s: seq<object?>, first: nat, last: nat, count: nat, k: nat, at: nat)
    requires first < |s| && k < count < |s| && at == Slot(first, k, |s|) && last == Slot(first, count, |s|)
    requires Clean(s, first, count) && first > last && at > first
    ensures first < at < |s|
    ensures CutOut(s, first, count, k, Moved(s, first, first + 1, at - first)[first := null], first + 1, last)
  {
    CloseHead(s, first, count, k);
    hide Closed, Clean, Moved;
  }

  lemma TailClosed(s: seq<object?>, first: nat, last: nat, count: nat, k: nat, at: nat)
    requires first < |s| && k < count < |s| && at == Slot(first, k, |s|) && last == Slot(first, count, |s|)
    requires Clean(s, first, count) && at != first && !(first > last && at > first)
    ensures at < last < |s|
    ensures CutOut(s, first, count, k, Moved(s, at + 1, at, last - at - 1)[last - 1 := null], first, last - 1)
  {
    hide Closed, Clean, Moved, Slot;
    TailFits(first, last, count, k, |s|, at);
    assert last - at - 1 == count - k - 1 && last - 1 == at + (count - k) - 1;
    CloseTail(s, first, count, k, at);
  }

  lemma TailFits(first: nat, last: nat, count: nat, k: nat, n: nat, at: nat)
    requires first < n && k < count < n && at == Slot(first, k, n) && last == Slot(first, count, n)
    requires at != first && !(first > last && at > first)
    ensures at < last < n && last == at + (count - k) && last - 1 == Slot(first, count - 1, n)
    ensures first + count < n || first + k >= n
  {
  }

  lemma CutRing(s: seq<object?>, first: nat, count: nat, k: nat, t: seq<object?>, first': nat, last': int)
    requires CutOut(s, first, count, k, t, first', last')
    ensures |t| == |s| && k < count < |s| && first < |s| && first' < |t| && last' == Slot(first', count - 1, |t|)
    ensures Clean(t, first', count - 1)
    ensures var old' := Ring(s, first, count); Ring(t, first', count - 1) == old'[..k] + old'[k + 1..]
  {
    ClosedRing(s, first, count, k, t, first');
  }

  // Which element is where.
  lemma AtFirst(first: nat, k: nat, count: nat, n: nat)
    requires first < n && k < count < n
    ensures Slot(first, k, n) == first ==> k == 0
  {
  }

  lemma AtTail(first: nat, last: nat, count: nat, k: nat, n: nat, at: nat)
    requires first < n && k < count < n && at == Slot(first, k, n) && last == Slot(first, count, n) && at != first
    requires !(first > last && at > first)
    ensures at < last < n
  {
  }

  lemma NoRoom(first: nat, last: nat, count: nat, k: nat, m: nat, n: nat)
    requires first < n && k < count && 1 + count + m <= n && last == Slot(first, count, n)
    ensures last + m > n ==> first < last
  {
  }

  lemma OneBefore(first: nat, last: nat, count: nat, n: nat)
    requires first < n && 0 < count && count + 2 <= n && last == Slot(first, count, n)
    ensures last < n && (last == n - 1 ==> 1 <= first < last)
  {
  }

  lemma CutTail(was: seq<object?>, cleared: seq<object?>, now: seq<object?>, count: nat)
    requires count < |was| == |cleared| == |now| && cleared == was[count := null] && now[count..] == cleared[count..]
    ensures now[count] == null && now[count + 1..] == was[count + 1..]
  {
    assert now[count..][0] == now[count] && cleared[count..][0] == cleared[count];
    assert now[count..][1..] == now[count + 1..] && cleared[count..][1..] == cleared[count + 1..];
  }

  // ----- the list ------------------------------------------------------------

  datatype Result = Done | BadIndex

  class CircularArrayList {
    var data: array<object?>
    var first: nat
    var last: nat
    var count: nat

    ghost predicate Valid()
      reads this, data
    {
      && (data.Length == 0 ==> first == last == count == 0)
      && (data.Length > 0 ==> count < data.Length && first < data.Length && last == Slot(first, count, data.Length))
      && Clean(data[..], first, count)
    }

    ghost function Contents(): seq<object?>
      requires Valid()
      reads this, data
    {
      Ring(data[..], first, count)
    }

    constructor (slots: nat)
      ensures Valid() && Contents() == [] && fresh(data)
    {
      data := new object?[slots](_ => null);
      first, last, count := 0, 0, 0;
    }

    function EffectiveIndex(i: nat): nat
      requires data.Length > 0
      reads this
    {
      Wrap(first + i, data.Length)
    }

    // The elements in order, in the given array if they fit.
    method ToArray(into: array?<object?>) returns (r: array<object?>)
      requires Valid() && into != data
      modifies into
      ensures r.Length >= count && r[..][..count] == Contents()
      ensures if into != null && into.Length >= count then r == into else fresh(r) && r.Length == count
      ensures into != null && into.Length > count ==>
                r[count] == null && r[..][count + 1..] == old(into[..])[count + 1..]
    {
      if into == null || into.Length < count {
        r := new object?[count](_ => null);
        CopyOut(r);
      } else {
        r := into;
        if r.Length > count {
          ghost var was := r[..];
          r[count] := null;
          ghost var cleared := r[..];
          CopyOut(r);
          CutTail(was, cleared, r[..], count);
        } else {
          CopyOut(r);
        }
      }
    }

    // The elements go to the beginning of `r`, in one piece or in two.
    method CopyOut(r: array<object?>)
      requires Valid() && r != data && r.Length >= count
      modifies r
      ensures Valid() && Contents() == old(Contents())
      ensures r[..][..count] == Contents() && r[..][count..] == old(r[..])[count..]
    {
      ghost var d, r0 := data[..], r[..];
      if count > 0 {
        if first < last {
          hide Clean, Ring, Pasted;
          FlatCopy(d, first, count, r0);
          var _ := Copy(data, first, r, 0, count);
        } else {
          hide Clean, Ring, Pasted;
          WrappedCopy(d, first, count, r0);
          hide Slot;
          var _ := Copy(data, first, r, 0, data.Length - first);
          var _ := Copy(data, 0, r, data.Length - first, last);
        }
        assert data[..] == d;
      }
    }

    method EnsureCapacity(min: nat) returns (grown: bool)
      requires Valid()
      modifies this`data, this`first, this`last
      ensures Valid() && Contents() == old(Contents()) && count == old(count)
      ensures data.Length >= min && data.Length >= old(data.Length)
      ensures (grown <==> min > old(data.Length)) && (grown ==> 2 * data.Length >= 3 * old(data.Length))
      ensures if grown then fresh(data) && first == 0 && last == count else data == old(data) && first == old(first)
    {
      var old' := data.Length;
      if min > old' {
        var grow := old' * 3 / 2 + 1;
        var bigger := new object?[if min < grow then grow else min](_ => null);
        var array' := ToArray(bigger);
        ghost var all := Contents();
        data := array';
        last := count;
        first := 0;
        assert data[..][..count] == all && Ring(data[..], 0, count) == all;
        return true;
      }
      return false;
    }

    method TrimToSize()
      requires Valid()
      modifies this`data, this`first, this`last
      ensures Valid() && Contents() == old(Contents()) && count == old(count)
      ensures data.Length == if count + 1 < old(data.Length) then count + 1 else old(data.Length)
      ensures data == old(data) || fresh(data)
    {
      if count + 1 < data.Length {
        var smaller := new object?[count + 1](_ => null);
        var array' := ToArray(smaller);
        ghost var all := Contents();
        data := array';
        first, last := 0, count;
        assert data[..][..count] == all && Ring(data[..], 0, count) == all;
      }
    }

    method Get(i: nat) returns (r: object?, result: Result)
      requires Valid()
      ensures if i < |Contents()| then result.Done? && r == Contents()[i] else result.BadIndex?
    {
      if i >= count {
        return null, BadIndex;
      }
      SlotIs(first, i, data.Length);
      return data[EffectiveIndex(i)], Done;
    }

    method Set(i: nat, e: object?) returns (was: object?, result: Result)
      requires Valid()
      modifies data
      ensures Valid()
      ensures i < |old(Contents())| ==>
                result.Done? && was == old(Contents())[i] && Contents() == old(Contents())[i := e]
      ensures i >= |old(Contents())| ==> result.BadIndex? && Contents() == old(Contents())
    {
      if i >= count {
        return null, BadIndex;
      }
      SlotIs(first, i, data.Length);
      was := data[EffectiveIndex(i)];
      data[EffectiveIndex(i)] := e;
      return was, Done;
    }

    // Append.
    method Add(e: object?)
      requires Valid()
      modifies this, data
      ensures Valid() && Contents() == old(Contents()) + [e]
      ensures data == old(data) || fresh(data)
    {
      ghost var all := Contents();
      var _ := EnsureCapacity(1 + count + 1);
      ghost var s := data[..];
      OpenEnd(s, first, count, 1);
      SlotIs(last, 1, data.Length);
      FilledOne(s, last, e);
      hide Clean, Opened, Slot, Filled, Ring, Wrap;
      data[last] := e;
      InsertedRing(s, first, count, count, [e], s, first, data[..]);
      assert all[..count] == all && all[count..] == [];
      last := Wrap(last + 1, data.Length);
      count := count + 1;
    }

    method Move(from: nat, to: nat, n: nat)
      modifies data
      ensures data[..] == Moved(old(data[..]), from, to, n)
    {
      var _ := Copy(data, from, data, to, n);
    }

    method ShiftHeadLeft(k: nat, m: nat, at: nat)
      requires Valid() && k < count && 1 + count + m <= data.Length && at == Slot(first, k, data.Length)
      requires (first > last && at > first) || (first < last && first >= m)
      modifies this`first, data
      ensures Shifted(old(data[..]), old(first), count, k, m, data[..], first, last)
    {
      hide Shifted, Clean, Moved, Wrap, Slot;
      HeadShifted(data[..], first, last, count, k, m, at);
      Move(first, first - m, at - first);
      first := Wrap(first - m + data.Length, data.Length);
    }

    method ShiftTailRight(k: nat, m: nat, at: nat)
      requires Valid() && k < count && 1 + count + m <= data.Length && at == Slot(first, k, data.Length)
      requires at != first && !(first > last && at > first) && last + m <= data.Length
      modifies this`last, data
      ensures Shifted(old(data[..]), old(first), count, k, m, data[..], first, last)
    {
      hide Shifted, Clean, Moved, Wrap, Slot;
      AtTail(first, last, count, k, data.Length, at);
      TailShifted(data[..], first, last, count, k, m, at);
      Move(at, at + m, last - at);
      last := Wrap(last + m, data.Length);
    }

    method ShiftBothWays(k: nat, m: nat, at: nat)
      requires Valid() && k < count && 1 + count + m <= data.Length && at == Slot(first, k, data.Length)
      requires first < m && last + m > data.Length
      modifies this`first, this`last, data
      ensures Shifted(old(data[..]), old(first), count, k, m, data[..], first, last)
    {
      hide Shifted, Clean, Moved, Wrap, Slot;
      NoRoom(first, last, count, k, m, data.Length);
      BothShifted(data[..], first, last, count, k, m, at);
      Move(first, 0, at - first);
      var right := m - first;
      Move(at, at + right, last - at);
      first, last := 0, last + right;
    }

    // Make room for `m` elements before the one at `k`, moving as few as the free slots allow.
    method Shift(k: nat, m: nat)
      requires Valid() && k < count && 1 + count + m <= data.Length
      modifies this`first, this`last, data
      ensures Shifted(old(data[..]), old(first), count, k, m, data[..], first, last)
    {
      SlotIs(first, k, data.Length);
      var at := EffectiveIndex(k);
      AtFirst(first, k, count, data.Length);
      NoRoom(first, last, count, k, m, data.Length);
      NothingShifted(data[..], first, last, count, m);
      hide Shifted, Clean, Wrap, Slot;
      if at == first {
        first := Wrap(first - m + data.Length, data.Length);
      } else if (first > last && at > first) || (first < last && first >= m) {
        ShiftHeadLeft(k, m, at);
      } else if last + m <= data.Length {
        ShiftTailRight(k, m, at);
      } else {
        ShiftBothWays(k, m, at);
      }
    }

    // The same for one element, but shifting the tail when that does not go past the end.
    method ShiftOne(k: nat)
      requires Valid() && k < count && count + 2 <= data.Length
      modifies this`first, this`last, data
      ensures Shifted(old(data[..]), old(first), count, k, 1, data[..], first, last)
    {
      SlotIs(first, k, data.Length);
      var at := EffectiveIndex(k);
      AtFirst(first, k, count, data.Length);
      OneBefore(first, last, count, data.Length);
      NothingShifted(data[..], first, last, count, 1);
      hide Shifted, Clean, Wrap, Slot;
      if at == first {
        first := Wrap(first - 1 + data.Length, data.Length);
      } else if (first > last && at > first) || last == data.Length - 1 {
        ShiftHeadLeft(k, 1, at);
      } else {
        ShiftTailRight(k, 1, at);
      }
    }

    // Insert before the element at `i`.
    method Insert(i: nat, e: object?) returns (result: Result)
      requires Valid()
      modifies this, data
      ensures Valid() && (data == old(data) || fresh(data))
      ensures result.Done? <==> i <= |old(Contents())|
      ensures Contents() ==
              if i <= |old(Contents())| then old(Contents())[..i] + [e] + old(Contents())[i..] else old(Contents())
    {
      hide Clean, Slot, Ring;
      if i == count {
        ghost var all := Contents();
        Add(e);
        assert all[..i] == all && all[i..] == [];
        return Done;
      }
      if i >= count {
        return BadIndex;
      }
      var _ := EnsureCapacity(1 + count + 1);
      PutOne(i, e);
      return Done;
    }

    method PutOne(k: nat, e: object?)
      requires Valid() && k < count && count + 2 <= data.Length
      modifies this`first, this`last, this`count, data
      ensures Valid() && data == old(data)
      ensures Contents() == old(Contents())[..k] + [e] + old(Contents())[k..]
    {
      hide Clean, Opened, Slot, Filled, Ring, Wrap;
      ghost var s, f := data[..], first;
      ShiftOne(k);
      SlotIs(first, k, data.Length);
      ghost var t := data[..];
      FilledOne(t, Slot(first, k, data.Length), e);
      data[EffectiveIndex(k)] := e;
      InsertedRing(s, f, count, k, [e], t, first, data[..]);
      count := count + 1;
    }

    // Append the elements of a collection; the list grows once at most.
    method AddAll(items: seq<object?>) returns (changed: bool)
      requires Valid()
      modifies this, data
      ensures Valid() && Contents() == old(Contents()) + items && (changed <==> items != [])
      ensures data == old(data) || fresh(data)
    {
      hide Clean, Slot, Ring;
      if |items| == 0 {
        return false;
      }
      var _ := EnsureCapacity(1 + count + |items|);
      PutAtEnd(items);
      return true;
    }

    method PutAtEnd(items: seq<object?>)
      requires Valid() && 1 + count + |items| <= data.Length
      modifies this`last, this`count, data
      ensures Valid() && data == old(data) && Contents() == old(Contents()) + items
    {
      hide Clean, Opened, Slot, Filled, Ring;
      ghost var s, all := data[..], Contents();
      OpenEnd(s, first, count, |items|);
      var at := FillRing(data, last, items);
      InsertedRing(s, first, count, count, items, s, first, data[..]);
      assert all[..count] == all && all[count..] == [];
      last := at;
      count := count + |items|;
    }

    // Insert the elements of a collection before the element at `i`.
    method InsertAll(i: nat, items: seq<object?>) returns (result: Result)
      requires Valid()
      modifies this, data
      ensures Valid() && (data == old(data) || fresh(data))
      ensures result.Done? <==> i <= |old(Contents())|
      ensures Contents() ==
              if i <= |old(Contents())| then old(Contents())[..i] + items + old(Contents())[i..] else old(Contents())
    {
      hide Clean, Slot, Ring;
      if i == count {
        ghost var all := Contents();
        var _ := AddAll(items);
        assert all[..i] == all && all[i..] == [];
        return Done;
      }
      if i >= count {
        return BadIndex;
      }
      var _ := EnsureCapacity(1 + count + |items|);
      PutAll(i, items);
      return Done;
    }

    method PutAll(k: nat, items: seq<object?>)
      requires Valid() && k < count && 1 + count + |items| <= data.Length
      modifies this`first, this`last, this`count, data
      ensures Valid() && data == old(data)
      ensures Contents() == old(Contents())[..k] + items + old(Contents())[k..]
    {
      hide Clean, Opened, Slot, Filled, Ring, Wrap;
      ghost var s, f := data[..], first;
      Shift(k, |items|);
      ghost var t := data[..];
      SlotIs(first, k, data.Length);
      var _ := FillRing(data, EffectiveIndex(k), items);
      InsertedRing(s, f, count, k, items, t, first, data[..]);
      count := count + |items|;
    }

    method CloseHeadUp(k: nat, at: nat)
      requires Valid() && k < count && at == Slot(first, k, data.Length) && first > last && at > first
      modifies this`first, data
      ensures CutOut(old(data[..]), old(first), count, k, data[..], first, last)
    {
      hide CutOut, Clean, Slot, Moved;
      HeadClosed(data[..], first, last, count, k, at);
      Move(first, first + 1, at - first);
      data[first] := null;
      first := first + 1;
    }

    method CloseTailUp(k: nat, at: nat)
      requires Valid() && k < count && at == Slot(first, k, data.Length) && at != first && !(first > last && at > first)
      modifies this`last, data
      ensures CutOut(old(data[..]), old(first), count, k, data[..], first, last)
    {
      hide CutOut, Clean, Slot, Moved;
      TailClosed(data[..], first, last, count, k, at);
      Move(at + 1, at, last - at - 1);
      last := last - 1;
      data[last] := null;
    }

    // Close the gap at `k` from the side that it is nearer to without going past the end.
    method CloseUp(k: nat, at: nat)
      requires Valid() && k < count && at == Slot(first, k, data.Length)
      modifies this`first, this`last, data
      ensures CutOut(old(data[..]), old(first), count, k, data[..], first, last)
    {
      hide CutOut, Clean, Slot, Wrap;
      if at == first {
        AtFirst(first, k, count, data.Length);
        SlotIs(first, 1, data.Length);
        FirstDropped(data[..], first, last, count);
        data[at] := null;
        first := Wrap(first + 1, data.Length);
      } else if first > last && at > first {
        CloseHeadUp(k, at);
      } else {
        CloseTailUp(k, at);
      }
    }

    // Remove the element at `i`; the slot that becomes free holds nothing.
    method Remove(i: nat) returns (was: object?, result: Result)
      requires Valid()
      modifies this`first, this`last, this`count, data
      ensures Valid() && data == old(data)
      ensures i < |old(Contents())| ==>
                && result.Done? && was == old(Contents())[i]
                && Contents() == old(Contents())[..i] + old(Contents())[i + 1..]
      ensures i >= |old(Contents())| ==> result.BadIndex? && Contents() == old(Contents())
    {
      if i >= count {
        return null, BadIndex;
      }
      ghost var s, f, all := data[..], first, Contents();
      SlotIs(first, i, data.Length);
      var at := EffectiveIndex(i);
      was := data[at];
      assert was == all[i];
      hide CutOut, Clean, Slot, Wrap, Ring;
      CloseUp(i, at);
      CutRing(s, f, count, i, data[..], first, last);
      count := count - 1;
      return was, Done;
    }

    // Look at the element at `i`, and remove it unless `keep` holds for it.
    method Check(i: nat, keep: object? -> bool) returns (kept: bool)
      requires Valid() && i < count
      modifies this`first, this`last, this`count, data
      ensures Valid() && data == old(data) && kept == keep(old(Contents())[i])
      ensures Contents() == if kept then old(Contents()) else old(Contents())[..i] + old(Contents())[i + 1..]
    {
      SlotIs(first, i, data.Length);
      kept := keep(data[EffectiveIndex(i)]);
      assert kept == keep(Contents()[i]);
      hide Clean, Slot, Wrap, Ring;
      if !kept {
        var _, _ := Remove(i);
      }
    }

    method RetainOne(i: nat, changed: bool, keep: object? -> bool,
                     ghost all: seq<object?>, ghost done: seq<object?>, ghost checked: nat)
      returns (i': nat, changed': bool, ghost done': seq<object?>)
      requires Valid() && checked < |all| && i == |done| <= checked && (changed <==> i != checked)
      requires Retaining(keep, all, done, checked, Contents())
      modifies this`first, this`last, this`count, data
      ensures Valid() && data == old(data) && i' == |done'| <= checked + 1 && (changed' <==> i' != checked + 1)
      ensures Retaining(keep, all, done', checked + 1, Contents())
    {
      hide Clean, Slot, Wrap, Ring, Kept, Retaining;
      RetainNext(keep, all, done, checked, Contents());
      var kept := Check(i, keep);
      if kept {
        return i + 1, changed, done + [all[checked]];
      } else {
        return i, true, done + [];
      }
    }

    // Keep the elements that `keep` holds for.
    method RetainAll(keep: object? -> bool) returns (changed: bool)
      requires Valid()
      modifies this`first, this`last, this`count, data
      ensures Valid() && data == old(data)
      ensures Contents() == Kept(keep, old(Contents())) && (changed <==> Contents() != old(Contents()))
    {
      ghost var all := Contents();
      RetainStart(keep, all);
      hide Clean, Slot, Wrap, Ring, Kept, Retaining;
      ghost var done;
      changed, done := RetainFrom(keep, all);
      RetainEnd(keep, all, done, Contents());
    }

    method RetainFrom(keep: object? -> bool, ghost all: seq<object?>) returns (changed: bool, ghost done: seq<object?>)
      requires Valid() && Contents() == all && Retaining(keep, all, [], 0, all)
      modifies this`first, this`last, this`count, data
      ensures Valid() && data == old(data) && Retaining(keep, all, done, |all|, Contents())
      ensures changed <==> |done| != |all|
    {
      hide Clean, Slot, Wrap, Ring, Kept, Retaining;
      var i, c := 0, count;
      changed, done := false, [];
      for checked := 0 to c
        invariant Valid() && data == old(data)
        invariant i == |done| <= checked && (changed <==> i != checked)
        invariant Retaining(keep, all, done, checked, Contents())
      {
        i, changed, done := RetainOne(i, changed, keep, all, done, checked);
      }
    }

    method Clear()
      requires Valid()
      modifies this`first, this`last, this`count, data
      ensures Valid() && Contents() == [] && data == old(data)
    {
      ghost var s := data[..];
      var i, end := first, last;
      ghost var f, c := first, count;
      ghost var n := 0;
      first, last, count := 0, 0, 0;
      while i != end
        invariant first == last == count == 0 && 0 <= n <= c
        invariant data.Length > 0 ==> i == Slot(f, n, data.Length) < data.Length
        invariant data.Length == 0 ==> i == end
        invariant forall j :: 0 <= j < data.Length ==> data[j] == if Used(f, n, data.Length, j) then null else s[j]
        decreases c - n
      {
        SlotIs(i, 1, data.Length);
        data[i] := null;
        i := Wrap(i + 1, data.Length);
        n := n + 1;
      }
      assert data.Length > 0 ==> n == c;
      assert Clean(s, f, c);
    }
  }

  // `done` is what is kept of the first `checked` elements, and the others are still there.
  ghost predicate Retaining(keep: object? -> bool, all: seq<object?>, done: seq<object?>, checked: nat,
                            now: seq<object?>) {
    checked <= |all| && done == Kept(keep, all[..checked]) && now == done + all[checked..]
  }

  lemma RetainStart(keep: object? -> bool, all: seq<object?>)
    ensures Retaining(keep, all, [], 0, all)
  {
    assert all[..0] == [] && [] + all[0..] == all;
  }

  // The element to be looked at next, and what is left with it or without it.
  lemma RetainNext(keep: object? -> bool, all: seq<object?>, done: seq<object?>, checked: nat, now: seq<object?>)
    requires checked < |all| && Retaining(keep, all, done, checked, now)
    ensures |done| < |now| && now[|done|] == all[checked]
    ensures if keep(all[checked]) then Retaining(keep, all, done + [all[checked]], checked + 1, now)
            else Retaining(keep, all, done + [], checked + 1, now[..|done|] + now[|done| + 1..])
  {
    KeptNext(keep, all, checked);
    hide Kept;
    assert now == (done + [all[checked]]) + all[checked + 1..];
    assert now[..|done|] + now[|done| + 1..] == (done + []) + all[checked + 1..];
  }

  lemma RetainEnd(keep: object? -> bool, all: seq<object?>, done: seq<object?>, now: seq<object?>)
    requires Retaining(keep, all, done, |all|, now)
    ensures now == Kept(keep, all) && (now == all <==> |done| == |all|)
  {
    assert all[..|all|] == all && done + all[|all|..] == done;
    KeptAll(keep, all);
  }

  // The elements of `s` that `keep` holds for.
  ghost function Kept(keep: object? -> bool, s: seq<object?>): (r: seq<object?>)
    ensures |r| <= |s|
  {
    if s == [] then []
    else Kept(keep, s[..|s| - 1]) + if keep(s[|s| - 1]) then [s[|s| - 1]] else []
  }

  lemma KeptNext(keep: object? -> bool, s: seq<object?>, i: nat)
    requires i < |s|
    ensures Kept(keep, s[..i + 1]) == Kept(keep, s[..i]) + if keep(s[i]) then [s[i]] else []
  {
    assert s[..i + 1][..i] == s[..i];
  }

  lemma {:induction false} KeptAll(keep: object? -> bool, s: seq<object?>)
    ensures |Kept(keep, s)| == |s| ==> Kept(keep, s) == s
  {
    if s != [] {
      KeptAll(keep, s[..|s| - 1]);
      assert s == s[..|s| - 1] + [s[|s| - 1]];
    }
  }
}
