// Writing into an array of octets that grows, at the offset of an output.
module WriteBuffer {
  import opened Codec
  import ObjectArray

  datatype Outcome = Done | IndexOutOfBounds

  // `s` is `t` with `piece` at `at`; if that is past the end of `t`, what comes between the
  // two is not determined.
  ghost predicate Overwritten(t: seq<Octet>, at: nat, piece: seq<Octet>, s: seq<Octet>) {
    && |s| == (if |t| < at + |piece| then at + |piece| else |t|)
    && forall i :: 0 <= i < |s| ==>
                     if at <= i < at + |piece| then s[i] == piece[i - at] else i < |t| ==> s[i] == t[i]
  }

  class OctetArrayWriteBuffer {
    var data: array<Octet>
    var length: nat
    const max: nat

    ghost predicate Valid()
      reads this, data
    {
      length <= data.Length <= max
    }

    ghost function Contents(): seq<Octet>
      requires Valid()
      reads this, data
    {
      data[..length]
    }

    constructor (capacity: nat, max: nat)
      requires capacity <= max
      ensures Valid() && Contents() == [] && this.max == max && fresh(data)
    {
      data := new Octet[capacity](_ => 0);
      length := 0;
      this.max := max;
    }

    // Make the array large enough, by at least a kilobyte unless the maximum comes before that.
    method Grow(capacity: nat)
      requires Valid() && data.Length < capacity <= max
      modifies this`data
      ensures Valid() && Contents() == old(Contents()) && fresh(data) && capacity <= data.Length <= max
      ensures data.Length < max ==> data.Length >= capacity + 1024
                                    && data.Length >= old(data.Length) + old(data.Length) / 2
    {
      var old' := data.Length;
      var add := if old' > 0x100000 then old' / 2 else old';
      if add < 1024 {
        add := 1024;
      }
      var wanted := if capacity + 1024 < old' + add then old' + add else capacity + 1024;
      var new' := if max < wanted then max else wanted;
      if new' > old' {
        var larger := new Octet[new'](_ => 0);
        var _ := ObjectArray.Copy(data, 0, larger, 0, length);
        assert larger[..][..length] == data[..][0..length];
        data := larger;
      }
    }

    method CheckBounds(of: nat, n: nat) returns (r: Outcome)
      requires Valid()
      modifies this`data
      ensures Valid() && Contents() == old(Contents()) && (data == old(data) || fresh(data))
      ensures r.Done? <==> of + n <= max
      ensures r.Done? ==> of + n <= data.Length
    {
      if of + n > max {
        return IndexOutOfBounds;
      }
      if of + n > data.Length {
        Grow(of + n);
      }
      return Done;
    }

    method UpdateLength(n: nat)
      requires Valid() && n <= data.Length
      modifies this`length
      ensures Valid() && length == if n > old(length) then n else old(length)
    {
      if n > length {
        length := n;
      }
    }

    // Octets that are ready in an array of their own.
    method Write(of: nat, src: array<Octet>, from: nat, n: nat) returns (r: Outcome)
      requires Valid() && src != data && from + n <= src.Length
      modifies this`data, this`length, data
      ensures Valid() && (data == old(data) || fresh(data))
      ensures r.Done? <==> of + n <= max
      ensures r.Done? ==> Overwritten(old(Contents()), of, src[from..from + n], Contents())
      ensures !r.Done? ==> Contents() == old(Contents())
    {
      ghost var c := Contents();
      r := CheckBounds(of, n);
      if r.Done? {
        ghost var before, piece := data[..], src[from..from + n];
        var _ := ObjectArray.Copy(src, from, data, of, n);
        assert src[..][from..from + n] == piece;
        UpdateLength(of + n);
        PastedOver(before, c, of, piece, length);
      }
    }

    method WriteOctet(of: nat, b: Octet) returns (r: Outcome)
      requires Valid()
      modifies this`data, this`length, data
      ensures Valid() && (data == old(data) || fresh(data))
      ensures r.Done? <==> of + 1 <= max
      ensures r.Done? ==> Overwritten(old(Contents()), of, [b], Contents())
      ensures !r.Done? ==> Contents() == old(Contents())
    {
      ghost var c := Contents();
      r := CheckBounds(of, 1);
      if r.Done? {
        ghost var before := data[..];
        data[of] := b;
        assert data[..] == ObjectArray.Pasted(before, of, [b]);
        UpdateLength(of + 1);
        PastedOver(before, c, of, [b], length);
      }
    }
  }

  // Octets put into the array, seen in the contents.
  lemma PastedOver(before: seq<Octet>, c: seq<Octet>, of: nat, piece: seq<Octet>, length: nat)
    requires of + |piece| <= |before| && |c| <= |before| && c == before[..|c|]
    requires length == if of + |piece| > |c| then of + |piece| else |c|
    ensures Overwritten(c, of, piece, ObjectArray.Pasted(before, of, piece)[..length])
  {
    ObjectArray.PastedAt(before, of, piece);
  }

  // The octets of a number, one by one.
  method PutGroups(a: array<Octet>, at: nat, u: nat, b: nat) returns (end: nat)
    requires b < 128 && at + |Groups(u, b)| <= a.Length
    modifies a
    ensures end == at + |Groups(u, b)| && a[..] == ObjectArray.Pasted(old(a[..]), at, Groups(u, b))
  {
    end := at;
    var un, bits := u, b;
    ghost var before, all := a[..], Groups(u, b);
    ghost var done: seq<Octet> := [];
    hide ObjectArray.Pasted, Groups;
    PutNothing(before, at);
    while un != 0
      invariant bits < 128 && end == at + |done| && done + Groups(un, bits) == all
      invariant a[..] == ObjectArray.Pasted(before, at, done)
      decreases un
    {
      GroupsStep(un, bits, done);
      PutNext(before, at, done, bits + 128);
      a[end] := bits + 128;
      end := end + 1;
      done := done + [bits + 128];
      bits := un % 128;
      un := un / 128;
    }
    GroupsEnd(bits);
    PutNext(before, at, done, bits);
    a[end] := bits;
    end := end + 1;
  }

  lemma GroupsStep(u: nat, b: nat, done: seq<Octet>)
    requires b < 128 && u > 0
    ensures done + Groups(u, b) == done + [b + 128] + Groups(u / 128, u % 128) && |Groups(u, b)| > 1
  {
    assert |Groups(u / 128, u % 128)| > 0;
  }

  lemma GroupsEnd(b: nat)
    requires b < 128
    ensures Groups(0, b) == [b]
  {
  }

  lemma PutNothing(before: seq<Octet>, at: nat)
    requires at <= |before|
    ensures ObjectArray.Pasted(before, at, []) == before
  {
  }

  lemma PutNext(before: seq<Octet>, at: nat, done: seq<Octet>, b: Octet)
    requires at + |done| < |before|
    ensures ObjectArray.Pasted(before, at, done)[at + |done| := b] == ObjectArray.Pasted(before, at, done + [b])
  {
  }

  // The octets of a character, one by one.
  method PutChar(a: array<Octet>, at: nat, c: Char16) returns (end: nat)
    requires at + |CharCode(c)| <= a.Length
    modifies a
    ensures end == at + |CharCode(c)| && a[..] == ObjectArray.Pasted(old(a[..]), at, CharCode(c))
  {
    end := at;
    if c <= 0x7F {
      a[end] := c;
      end := end + 1;
    } else if c <= 0x7FF {
      a[end] := 0xC0 + c / 64 % 32;
      end := end + 1;
      a[end] := 0x80 + c % 64;
      end := end + 1;
    } else {
      a[end] := 0xE0 + c / 4096 % 16;
      end := end + 1;
      a[end] := 0x80 + c / 64 % 64;
      end := end + 1;
      a[end] := 0x80 + c % 64;
      end := end + 1;
    }
  }

  lemma NumberCode(n: int)
    requires -1 <= n < 0x1_0000_0000
    ensures 1 <= |Code(n)| <= 10
  {
    LengthFits(if n < 0 then 0 else n);
    CodeFits(n, W64);
  }

  // ----- the output that knows the array -------------------------------------

  class OctetArrayBufferOutput {
    const buffer: OctetArrayWriteBuffer
    var offset: nat

    constructor (buffer: OctetArrayWriteBuffer)
      ensures this.buffer == buffer && offset == 0
    {
      this.buffer := buffer;
      offset := 0;
    }

    // `code` has been written at the offset, which is now behind it.
    twostate predicate Wrote(code: seq<Octet>)
      requires old(buffer.Valid()) && buffer.Valid()
      reads this, buffer, buffer.data
    {
      offset == old(offset) + |code| && Overwritten(old(buffer.Contents()), old(offset), code, buffer.Contents())
    }

    method MoveOffset(n: nat)
      requires buffer.Valid() && offset + n <= buffer.data.Length
      modifies this`offset, buffer`length
      ensures buffer.Valid() && offset == old(offset) + n
      ensures buffer.length == if offset > old(buffer.length) then offset else old(buffer.length)
    {
      var of := offset + n;
      offset := of;
      buffer.UpdateLength(of);
    }

    method WriteNumber(n: int, w: Width) returns (r: Outcome)
      requires buffer.Valid() && Fits(n, w)
      modifies this`offset, buffer`data, buffer`length, buffer.data
      ensures buffer.Valid() && (buffer.data == old(buffer.data) || fresh(buffer.data))
      ensures r.Done? <==> old(offset) + MaxOctets(w) <= buffer.max
      ensures if r.Done? then Wrote(Code(n)) else buffer.Contents() == old(buffer.Contents()) && offset == old(offset)
    {
      r := buffer.CheckBounds(offset, MaxOctets(w));
      if r.Done? {
        CodeFits(n, w);
        ghost var before, c := buffer.data[..], buffer.Contents();
        var ab := buffer.data;
        var b, un := 0, n;
        if n < 0 {
          b := 64;
          un := -n - 1;
        }
        b := b + un % 64;
        un := un / 64;
        var end := PutGroups(ab, offset, un, b);
        MoveOffset(end - offset);
        PastedOver(before, c, old(offset), Code(n), buffer.length);
      }
    }

    method WriteChar(ch: Char16) returns (r: Outcome)
      requires buffer.Valid()
      modifies this`offset, buffer`data, buffer`length, buffer.data
      ensures buffer.Valid() && (buffer.data == old(buffer.data) || fresh(buffer.data))
      ensures r.Done? <==> old(offset) + 3 <= buffer.max
      ensures if r.Done? then Wrote(CharCode(ch))
              else buffer.Contents() == old(buffer.Contents()) && offset == old(offset)
    {
      r := buffer.CheckBounds(offset, 3);
      if r.Done? {
        ghost var before, c := buffer.data[..], buffer.Contents();
        var end := PutChar(buffer.data, offset, ch);
        MoveOffset(end - offset);
        PastedOver(before, c, old(offset), CharCode(ch), buffer.length);
      }
    }

    // The length is there even if the octets do not fit any more.
    method WriteText(t: Text, octets: array<Octet>) returns (r: Outcome)
      requires buffer.Valid() && octets != buffer.data
      requires t.Text? ==> octets[..] == t.octets && octets.Length < 0x1_0000_0000
      modifies this`offset, buffer`data, buffer`length, buffer.data
      ensures buffer.Valid() && (buffer.data == old(buffer.data) || fresh(buffer.data))
      ensures r.Done? <==> old(offset) + 10 <= buffer.max && old(offset) + |TextCode(t)| <= buffer.max
      ensures r.Done? ==> Wrote(TextCode(t))
      ensures !r.Done? ==>
                if old(offset) + 10 <= buffer.max then Wrote(Code(|t.octets|))
                else buffer.Contents() == old(buffer.Contents()) && offset == old(offset)
    {
      hide Code, Overwritten, Fits;
      if t.NoText? {
        LengthFits(0);
        r := WriteNumber(-1, W64);
        NumberCode(-1);
        return;
      }
      var n := octets.Length;
      NumberCode(n);
      LengthFits(n);
      r := WriteNumber(n, W64);
      assert n == 0 ==> t.octets == [] && Code(n) + t.octets == Code(n);
      if r.Done? && n > 0 {
        ghost var mid := buffer.Contents();
        r := PutOctets(octets);
        if r.Done? {
          OverwrittenTwice(old(buffer.Contents()), old(offset), Code(n), mid, t.octets, buffer.Contents());
        }
      }
    }

    method PutOctets(octets: array<Octet>) returns (r: Outcome)
      requires buffer.Valid() && octets != buffer.data
      modifies this`offset, buffer`data, buffer`length, buffer.data
      ensures buffer.Valid() && (buffer.data == old(buffer.data) || fresh(buffer.data))
      ensures r.Done? <==> old(offset) + octets.Length <= buffer.max
      ensures if r.Done? then Wrote(octets[..])
              else buffer.Contents() == old(buffer.Contents()) && offset == old(offset)
    {
      r := buffer.CheckBounds(offset, octets.Length);
      if r.Done? {
        ghost var before, c := buffer.data[..], buffer.Contents();
        var _ := ObjectArray.Copy(octets, 0, buffer.data, offset, octets.Length);
        assert octets[..][0..octets.Length] == octets[..];
        MoveOffset(octets.Length);
        PastedOver(before, c, old(offset), octets[..], buffer.length);
      }
    }
  }

  lemma OverwrittenTwice(t: seq<Octet>, at: nat, p: seq<Octet>, s: seq<Octet>, q: seq<Octet>, u: seq<Octet>)
    requires Overwritten(t, at, p, s) && Overwritten(s, at + |p|, q, u)
    ensures Overwritten(t, at, p + q, u)
  {
  }

  // ----- the output that knows only how to write octets ----------------------

  class AbstractBufferOutput {
    const buffer: OctetArrayWriteBuffer
    const scratch: array<Octet>
    var offset: nat

    ghost predicate Valid()
      reads this, buffer, buffer.data
    {
      buffer.Valid() && scratch.Length >= 10 && scratch != buffer.data
    }

    constructor (buffer: OctetArrayWriteBuffer)
      requires buffer.Valid()
      ensures Valid() && this.buffer == buffer && offset == 0
    {
      this.buffer := buffer;
      scratch := new Octet[10](_ => 0);
      offset := 0;
    }

    twostate predicate Wrote(code: seq<Octet>)
      requires old(buffer.Valid()) && buffer.Valid()
      reads this, buffer, buffer.data
    {
      offset == old(offset) + |code| && Overwritten(old(buffer.Contents()), old(offset), code, buffer.Contents())
    }

    method Write(n: nat) returns (r: Outcome)
      requires Valid() && n <= 10
      modifies this`offset, buffer`data, buffer`length, buffer.data
      ensures Valid() && scratch[..] == old(scratch[..]) && (buffer.data == old(buffer.data) || fresh(buffer.data))
      ensures r.Done? <==> old(offset) + n <= buffer.max
      ensures if r.Done? then Wrote(scratch[..n])
              else buffer.Contents() == old(buffer.Contents()) && offset == old(offset)
    {
      r := buffer.Write(offset, scratch, 0, n);
      if r.Done? {
        offset := offset + n;
      }
    }

    // The same octets as those of the other output; but only as many are needed as there are.
    method WriteNumber(n: int, w: Width) returns (r: Outcome)
      requires Valid() && Fits(n, w)
      modifies this`offset, scratch, buffer`data, buffer`length, buffer.data
      ensures Valid() && (buffer.data == old(buffer.data) || fresh(buffer.data))
      ensures r.Done? <==> old(offset) + |Code(n)| <= buffer.max
      ensures if r.Done? then Wrote(Code(n)) else buffer.Contents() == old(buffer.Contents()) && offset == old(offset)
    {
      CodeFits(n, w);
      var b, un := 0, n;
      if n < 0 {
        b := 64;
        un := -n - 1;
      }
      b := b + un % 64;
      un := un / 64;
      var end := PutGroups(scratch, 0, un, b);
      assert scratch[..end] == Code(n);
      r := Write(end);
    }

    method WriteChar(c: Char16) returns (r: Outcome)
      requires Valid()
      modifies this`offset, scratch, buffer`data, buffer`length, buffer.data
      ensures Valid() && (buffer.data == old(buffer.data) || fresh(buffer.data))
      ensures r.Done? <==> old(offset) + |CharCode(c)| <= buffer.max
      ensures if r.Done? then Wrote(CharCode(c))
              else buffer.Contents() == old(buffer.Contents()) && offset == old(offset)
    {
      var end := PutChar(scratch, 0, c);
      assert scratch[..end] == CharCode(c);
      r := Write(end);
    }

    method WriteOctet(b: Octet) returns (r: Outcome)
      requires Valid()
      modifies this`offset, buffer`data, buffer`length, buffer.data
      ensures Valid() && (buffer.data == old(buffer.data) || fresh(buffer.data))
      ensures r.Done? <==> old(offset) + 1 <= buffer.max
      ensures if r.Done? then Wrote([b]) else buffer.Contents() == old(buffer.Contents()) && offset == old(offset)
    {
      var of := offset;
      r := buffer.WriteOctet(of, b);
      if r.Done? {
        offset := of + 1;
      }
    }

    // The length with 32 bits, and then octet by octet, as many as there is room for.
    method WriteText(t: Text, octets: array<Octet>) returns (r: Outcome)
      requires Valid() && octets != buffer.data && octets != scratch
      requires t.Text? ==> octets[..] == t.octets && octets.Length < 0x1_0000_0000
      modifies this`offset, scratch, buffer`data, buffer`length, buffer.data
      ensures Valid() && (r.Done? <==> old(offset) + |NarrowTextCode(t)| <= buffer.max)
      ensures r.Done? ==> Wrote(NarrowTextCode(t))
      ensures !r.Done? ==>
                var n := if t.Text? then Signed(|t.octets|, W32) else -1;
                if old(offset) + |Code(n)| <= buffer.max then Wrote(NarrowTextCode(t)[..buffer.max - old(offset)])
                else buffer.Contents() == old(buffer.Contents()) && offset == old(offset)
    {
      hide Code, Overwritten, Fits, Signed;
      if t.NoText? {
        LengthFits(0);
        r := WriteNumber(-1, W32);
        return;
      }
      var n := Signed(octets.Length, W32);
      SignedFits(octets.Length, W32);
      ghost var c, code := buffer.Contents(), Code(n);
      r := WriteNumber(n, W32);
      if r.Done? {
        assert code + t.octets[..0] == code;
        r := WriteOctets(t, octets, c, old(offset), code);
        assert (code + t.octets)[..|code| + |t.octets|] == code + t.octets;
      }
    }

    method WriteOctets(t: Text, octets: array<Octet>, ghost c: seq<Octet>, ghost at: nat, ghost code: seq<Octet>)
      returns (r: Outcome)
      requires Valid() && octets != buffer.data && octets != scratch && t.Text? && octets[..] == t.octets
      requires offset == at + |code| <= buffer.max && Overwritten(c, at, code + t.octets[..0], buffer.Contents())
      modifies this`offset, buffer`data, buffer`length, buffer.data
      ensures Valid() && (r.Done? <==> at + |code| + |t.octets| <= buffer.max)
      ensures var k := if r.Done? then |t.octets| else buffer.max - at - |code|;
              && 0 <= k <= |t.octets| && offset == at + |code| + k
              && Overwritten(c, at, (code + t.octets)[..|code| + k], buffer.Contents())
    {
      hide Overwritten;
      for i := 0 to octets.Length
        invariant Valid() && octets != buffer.data && (buffer.data == old(buffer.data) || fresh(buffer.data))
        invariant octets[..] == t.octets
        invariant offset == at + |code| + i <= buffer.max
        invariant Overwritten(c, at, code + t.octets[..i], buffer.Contents())
      {
        ghost var mid := buffer.Contents();
        r := WriteOctet(octets[i]);
        if r != Done {
          assert (code + t.octets)[..|code| + i] == code + t.octets[..i];
          return;
        }
        OverwrittenTwice(c, at, code + t.octets[..i], mid, [octets[i]], buffer.Contents());
        assert code + t.octets[..i] + [octets[i]] == code + t.octets[..i + 1];
      }
      assert t.octets[..octets.Length] == t.octets;
      assert (code + t.octets)[..|code| + |t.octets|] == code + t.octets;
      return Done;
    }
  }

  // ----- lists of values -----------------------------------------------------

  // How much room a value wants.
  function Reserved(v: Value): nat {
    match v
    case Number(_, width) => MaxOctets(width)
    case Char(_) => 3
    case String(t) => if |TextCode(t)| > 10 then |TextCode(t)| else 10
  }

  // The values all find the room that they want behind those before them.
  ghost predicate FitAll(of: nat, vs: seq<Value>, max: nat) {
    forall i :: 0 <= i < |vs| ==> of + |ListCode(vs[..i])| + Reserved(vs[i]) <= max
  }

  method WriteValue(out: OctetArrayBufferOutput, v: Value) returns (r: Outcome)
    requires out.buffer.Valid() && Writable(v)
    modifies out`offset, out.buffer`data, out.buffer`length, out.buffer.data
    ensures out.buffer.Valid() && (out.buffer.data == old(out.buffer.data) || fresh(out.buffer.data))
    ensures r.Done? ==> out.Wrote(ValueCode(v))
    ensures r.Done? <==> old(out.offset) + Reserved(v) <= out.buffer.max
  {
    match v {
      case Number(n, w) =>
        r := out.WriteNumber(n, w);
      case Char(c) =>
        r := out.WriteChar(c);
      case String(t) =>
        var octets := if t.Text? then t.octets else [];
        var a := new Octet[|octets|](i requires 0 <= i < |octets| => octets[i]);
        assert a[..] == octets;
        r := out.WriteText(t, a);
    }
  }

  // Write values one after the other, until one does not fit any more.
  method WriteAll(out: OctetArrayBufferOutput, vs: seq<Value>) returns (r: Outcome)
    requires out.buffer.Valid() && forall i :: 0 <= i < |vs| ==> Writable(vs[i])
    modifies out`offset, out.buffer`data, out.buffer`length, out.buffer.data
    ensures out.buffer.Valid()
    ensures r.Done? && vs != [] ==> out.Wrote(ListCode(vs))
    ensures vs == [] ==> out.buffer.Contents() == old(out.buffer.Contents()) && out.offset == old(out.offset)
    ensures r.Done? <==> FitAll(old(out.offset), vs, out.buffer.max)
  {
    ghost var c, of := out.buffer.Contents(), out.offset;
    WrittenNone(c, of, vs);
    assert FitAll(of, vs[..0], out.buffer.max) && vs[..|vs|] == vs;
    hide ValueCode, Writable, ListCode, WrittenUpTo, Overwritten, Reserved, FitAll;
    for i := 0 to |vs|
      invariant out.buffer.Valid() && (out.buffer.data == old(out.buffer.data) || fresh(out.buffer.data))
      invariant WrittenUpTo(c, of, vs, i, out.buffer.Contents(), out.offset)
      invariant FitAll(of, vs[..i], out.buffer.max)
    {
      ghost var mid, at := out.buffer.Contents(), out.offset;
      WrittenSoFar(c, of, vs, i, mid, at);
      FitNext(of, vs, i, out.buffer.max);
      r := WriteValue(out, vs[i]);
      if r != Done {
        return;
      }
      WrittenNext(c, of, vs, i, mid, at, out.buffer.Contents());
    }
    WrittenAll(c, of, vs, out.buffer.Contents(), out.offset);
    return Done;
  }

  // The first `i` values have been written.
  ghost predicate WrittenUpTo(c: seq<Octet>, of: nat, vs: seq<Value>, i: nat, now: seq<Octet>, offset: nat) {
    && i <= |vs| && offset == of + |ListCode(vs[..i])|
    && if i == 0 then now == c else Overwritten(c, of, ListCode(vs[..i]), now)
  }

  lemma WrittenNone(c: seq<Octet>, of: nat, vs: seq<Value>)
    ensures WrittenUpTo(c, of, vs, 0, c, of)
  {
    assert vs[..0] == [];
  }

  lemma FitNext(of: nat, vs: seq<Value>, i: nat, max: nat)
    requires i < |vs| && FitAll(of, vs[..i], max)
    ensures FitAll(of, vs[..i + 1], max) <==> of + |ListCode(vs[..i])| + Reserved(vs[i]) <= max
    ensures FitAll(of, vs, max) ==> FitAll(of, vs[..i + 1], max)
  {
    hide ListCode, Reserved;
    var most, more := vs[..i], vs[..i + 1];
    assert forall j :: 0 <= j <= i ==> more[..j] == vs[..j] && more[j] == vs[j];
    assert forall j :: 0 <= j < i ==> most[..j] == vs[..j] && most[j] == vs[j];
    assert forall j :: 0 <= j < |more| ==> of + |ListCode(more[..j])| + Reserved(more[j]) ==
                                           of + |ListCode(vs[..j])| + Reserved(vs[j]);
  }

  lemma WrittenSoFar(c: seq<Octet>, of: nat, vs: seq<Value>, i: nat, now: seq<Octet>, offset: nat)
    requires WrittenUpTo(c, of, vs, i, now, offset)
    ensures i <= |vs| && offset == of + |ListCode(vs[..i])|
  {
  }

  lemma WrittenNext(c: seq<Octet>, of: nat, vs: seq<Value>, i: nat, mid: seq<Octet>, at: nat, now: seq<Octet>)
    requires i < |vs| && WrittenUpTo(c, of, vs, i, mid, at) && Overwritten(mid, at, ValueCode(vs[i]), now)
    ensures WrittenUpTo(c, of, vs, i + 1, now, at + |ValueCode(vs[i])|)
  {
    hide Overwritten, ValueCode, ListCode;
    if i > 0 {
      PrefixOneMore(vs, i);
      OverwrittenTwice(c, of, ListCode(vs[..i]), mid, ValueCode(vs[i]), now);
    } else {
      PrefixOne(vs);
    }
  }

  lemma PrefixOne(vs: seq<Value>)
    requires vs != []
    ensures ListCode(vs[..0]) == [] && ListCode(vs[..1]) == ValueCode(vs[0])
  {
    assert vs[..1][..0] == [] && vs[..0] == [];
    assert [] + ValueCode(vs[0]) == ValueCode(vs[0]);
  }

  lemma WrittenAll(c: seq<Octet>, of: nat, vs: seq<Value>, now: seq<Octet>, offset: nat)
    requires WrittenUpTo(c, of, vs, |vs|, now, offset)
    ensures vs != [] ==> offset == of + |ListCode(vs)| && Overwritten(c, of, ListCode(vs), now)
    ensures vs == [] ==> offset == of && now == c
  {
    assert vs[..|vs|] == vs;
  }

  lemma PrefixOneMore(vs: seq<Value>, i: nat)
    requires i < |vs|
    ensures ListCode(vs[..i + 1]) == ListCode(vs[..i]) + ValueCode(vs[i])
  {
    assert vs[..i + 1] == vs[..i] + [vs[i]];
    CodeOneMore(vs[..i], vs[i]);
  }
}
