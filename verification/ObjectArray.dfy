// Copying between arrays, or within one.
module ObjectArray {

  datatype Outcome = Copied | IndexOutOfBounds

  // The contents of the destination after a copy: as if all elements moved at once.
  ghost function Pasted<T>(dest: seq<T>, to: nat, piece: seq<T>): (r: seq<T>)
    requires to + |piece| <= |dest|
    ensures |r| == |dest|
  {
    dest[..to] + piece + dest[to + |piece|..]
  }

  lemma PastedAt<T>(dest: seq<T>, to: nat, piece: seq<T>)
    requires to + |piece| <= |dest|
    ensures forall i :: 0 <= i < |dest| ==>
                          Pasted(dest, to, piece)[i] == if to <= i < to + |piece| then piece[i - to] else dest[i]
  {
  }

  lemma IsPasted<T>(dest: seq<T>, to: nat, piece: seq<T>, r: seq<T>)
    requires to + |piece| <= |dest| == |r|
    requires forall i :: 0 <= i < |dest| ==> r[i] == if to <= i < to + |piece| then piece[i - to] else dest[i]
    ensures r == Pasted(dest, to, piece)
  {
    PastedAt(dest, to, piece);
    hide Pasted;
    assert |Pasted(dest, to, piece)| == |r|;
  }

  // The elements are copied from whichever end does not overwrite what is still to be copied.
  method Copy<T>(src: array<T>, from: nat, dest: array<T>, to: nat, count: nat) returns (r: Outcome)
    modifies dest
    ensures r.Copied? <==> from + count <= src.Length && to + count <= dest.Length
    ensures r.Copied? ==> dest[..] == Pasted(old(dest[..]), to, old(src[..])[from..from + count])
    ensures !r.Copied? ==> dest[..] == old(dest[..])
  {
    if from + count > src.Length {
      return IndexOutOfBounds;
    }
    if to + count > dest.Length {
      return IndexOutOfBounds;
    }
    if src == dest && to >= from && from + count > to {
      CopyBackwards(src, from, dest, to, count);
    } else if src == dest && to < from && to + count > from {
      CopyForwards(src, from, dest, to, count);
    } else {
      CopyForwards(src, from, dest, to, count);
    }
    return Copied;
  }

  method CopyBackwards<T>(src: array<T>, from: nat, dest: array<T>, to: nat, count: nat)
    requires from + count <= src.Length && to + count <= dest.Length
    requires src == dest ==> to >= from
    modifies dest
    ensures dest[..] == Pasted(old(dest[..]), to, old(src[..])[from..from + count])
  {
    hide Pasted;
    ghost var d, s := dest[..], src[..];
    for c := 0 to count
      invariant forall i :: 0 <= i < dest.Length ==>
                              dest[i] == if to + count - c <= i < to + count then s[from + (i - to)] else d[i]
      invariant src != dest ==> src[..] == s
    {
      dest[to + count - 1 - c] := src[from + count - 1 - c];
    }
    IsPasted(d, to, s[from..from + count], dest[..]);
  }

  method CopyForwards<T>(src: array<T>, from: nat, dest: array<T>, to: nat, count: nat)
    requires from + count <= src.Length && to + count <= dest.Length
    requires src == dest ==> to < from || from + count <= to
    modifies dest
    ensures dest[..] == Pasted(old(dest[..]), to, old(src[..])[from..from + count])
  {
    hide Pasted;
    ghost var d, s := dest[..], src[..];
    for c := 0 to count
      invariant forall i :: 0 <= i < dest.Length ==> dest[i] == if to <= i < to + c then s[from + (i - to)] else d[i]
      invariant src != dest ==> src[..] == s
    {
      dest[to + c] := src[from + c];
    }
    IsPasted(d, to, s[from..from + count], dest[..]);
  }
}
