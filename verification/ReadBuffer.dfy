// Reading what has been written: octet by octet, or straight from the array.
module ReadBuffer {
  import opened Codec
  import WriteBuffer

  // Adding to a number of limited width: the bits that do not fit are lost.
  lemma Truncated(n: nat, u: nat, more: nat, p: nat)
    requires p > 0 && n == u % p
    ensures (n + more) % p == (u + more) % p
  {
    assert u + more == (n + more) + u / p * p;
    ModPlus(n + more, u / p, p);
  }

  // Complementing the bits of a number of limited width.
  lemma Complemented(n: nat, u: nat, p: nat)
    requires p > 0 && n == u % p
    ensures (p - 1 - n) % p == (p - 1 - u) % p
  {
    assert p - 1 - u == (p - 1 - n) + -(u / p) * p;
    ModPlus(p - 1 - n, -(u / p), p);
  }

  lemma ModPlus(a: int, q: int, p: nat)
    requires p > 0
    ensures (a + q * p) % p == a % p
  {
    var k, r := a / p, a % p;
    assert a + q * p == (k + q) * p + r;
    Remainder(a + q * p, k + q, r, p);
  }

  lemma Remainder(x: int, k: int, r: int, p: nat)
    requires x == k * p + r && 0 <= r < p
    ensures x % p == r
  {
    var d := x / p - k;
    assert d * p == r - x % p;
    assert d == 0;
  }

  lemma SignedOf(n: nat, u: nat, negative: bool, w: Width)
    requires n == u % Pow2(Bits(w))
    ensures Signed(if negative then Pow2(Bits(w)) - 1 - n else n, w) ==
            Signed(if negative then Pow2(Bits(w)) - 1 - u else u, w)
  {
    hide Pow2;
    if negative {
      Complemented(n, u, Pow2(Bits(w)));
    } else {
      Truncated(n, u, 0, Pow2(Bits(w)));
    }
  }

  class OctetArrayReadBuffer {
    const data: array<Octet>
    const first: nat
    const length: nat

    ghost predicate Valid()
      reads this
    {
      first + length <= data.Length
    }

    ghost function Contents(): seq<Octet>
      requires Valid()
      reads this, data
    {
      data[first..first + length]
    }

    constructor (data: array<Octet>, first: nat, length: nat)
      requires first + length <= data.Length
      ensures Valid() && this.data == data && this.first == first && this.length == length
    {
      this.data, this.first, this.length := data, first, length;
    }
  }

  // ----- the input that knows only how to read octets ------------------------

  class AbstractBufferInput {
    const buffer: OctetArrayReadBuffer
    var offset: nat

    ghost predicate Valid()
      reads this, buffer
    {
      buffer.Valid() && offset <= buffer.length
    }

    constructor (buffer: OctetArrayReadBuffer)
      requires buffer.Valid()
      ensures Valid() && this.buffer == buffer && offset == 0
    {
      this.buffer, offset := buffer, 0;
    }

    method Read() returns (r: Reading<Octet>)
      requires Valid()
      modifies this`offset
      ensures Valid()
      ensures if old(offset) < buffer.length
              then offset == old(offset) + 1 && r == Got(buffer.Contents()[old(offset)], offset)
              else r == Eof && offset == old(offset)
    {
      if offset < buffer.length {
        var b := buffer.data[buffer.first + offset];
        offset := offset + 1;
        return Got(b, offset);
      }
      return Eof;
    }

    // The octets that continue the number which begins with `first`; `r` keeps as many bits
    // as its width allows.  A code that is not short makes `bits` too large for a shift.
    method ReadMore(first: Octet, w: Width) returns (r: Reading<nat>)
      requires Valid()
      modifies this`offset
      ensures Valid() && Shortened(ReadGroups(buffer.Contents(), old(offset), first, first % 64, 6), r, w)
      ensures r.Got? ==> offset == r.next
    {
      ghost var s, all := buffer.Contents(), ReadGroups(buffer.Contents(), offset, first, first % 64, 6);
      var b: Octet, n: nat, bits := first, first % 64, 6;
      ghost var u: nat := n;
      hide Pow2, Bits, ReadGroups;
      ModSmallWidth(n, w);
      while b >= 128
        invariant Valid() && n == u % Pow2(Bits(w)) && all == ReadGroups(s, offset, b, u, bits)
        decreases buffer.length - offset
      {
        ReadStep(s, offset, b, u, bits);
        var o := Read();
        if o.Eof? {
          return Eof;
        }
        b := o.value;
        Truncated(n, u, b % 128 * Pow2(bits), Pow2(Bits(w)));
        n := (n + b % 128 * Pow2(bits)) % Pow2(Bits(w));
        u := u + b % 128 * Pow2(bits);
        bits := bits + 7;
      }
      ReadStep(s, offset, b, u, bits);
      return Got(n, offset);
    }

    method ReadNumber(w: Width) returns (r: Reading<int>)
      requires Valid()
      modifies this`offset
      ensures Valid()
      ensures Short(buffer.Contents(), old(offset), w) ==>
                r == ReadInt(buffer.Contents(), old(offset), w) && (r.Got? ==> offset == r.next)
    {
      var o := Read();
      if o.Eof? {
        return Eof;
      }
      hide Pow2, Bits, ReadGroups, Signed, Shortened, ReadInt;
      var b := o.value;
      ghost var s, at := buffer.Contents(), offset - 1;
      var n := ReadMore(b, w);
      NumberFrom(s, at, b, n, w);
      if n.Got? {
        var negative := b / 64 % 2 == 1;
        return Got(Signed(if negative then Pow2(Bits(w)) - 1 - n.value else n.value, w), offset);
      }
      return Eof;
    }

    method ReadCharacter() returns (r: Reading<Char16>)
      requires Valid()
      modifies this`offset
      ensures Valid() && r == ReadChar(buffer.Contents(), old(offset))
      ensures r.Got? ==> offset == r.next
    {
      var o := Read();
      if o.Eof? {
        return Eof;
      }
      var b: int := o.value;
      var kind := b / 16;
      if kind <= 7 {
        return Got(b, offset);
      } else if kind == 0xC || kind == 0xD {
        var o2 := Read();
        if o2.Eof? {
          return Eof;
        }
        if !Continues(o2.value) {
          return Malformed;
        }
        return Got(b % 32 * 64 + Low(o2.value), offset);
      } else if kind == 0xE {
        var o2 := Read();
        if o2.Eof? {
          return Eof;
        }
        var o3 := Read();
        if o3.Eof? {
          return Eof;
        }
        if !Continues(o2.value) || !Continues(o3.value) {
          return Malformed;
        }
        return Got(b % 16 * 4096 + Low(o2.value) * 64 + Low(o3.value), offset);
      } else {
        return Malformed;
      }
    }

    // At the end of the stream the offset is put there.
    method ReadString() returns (r: Reading<Text>)
      requires Valid()
      modifies this`offset
      ensures Valid()
      ensures Short(buffer.Contents(), old(offset), W32) ==>
                r == ReadText(buffer.Contents(), old(offset)) && (r.Got? ==> offset == r.next)
    {
      ghost var s := buffer.Contents();
      var n := ReadNumber(W32);
      match n {
        case Eof => return Eof;
        case Malformed => return Malformed;
        case Got(count, _) =>
          if count < 0 {
            return Got(NoText, offset);
          } else if count == 0 {
            return Got(Text([]), offset);
          }
          var at := offset;
          if at + count > buffer.length {
            offset := buffer.length;
            return Eof;
          }
          offset := at + count;
          var octets := buffer.data[buffer.first + at..buffer.first + at + count];
          PartOfPart(buffer.data[..], buffer.first, buffer.length, at, count);
          assert octets == s[at..at + count];
          return Got(Text(octets), offset);
      }
    }
  }

  // `r` is what has been read, with no more bits than its width allows.
  ghost predicate Shortened(all: Reading<nat>, r: Reading<nat>, w: Width) {
    match all
    case Got(u, next) => r == Got(u % Pow2(Bits(w)), next)
    case Eof => r.Eof?
    case Malformed => false
  }

  // The number that begins with `b`, from what the octets after it say.
  lemma NumberFrom(s: seq<Octet>, at: nat, b: Octet, r: Reading<nat>, w: Width)
    requires at < |s| && s[at] == b && Shortened(ReadGroups(s, at + 1, b, b % 64, 6), r, w)
    ensures r.Got? || r.Eof?
    ensures r.Got? ==> r.next <= |s|
    ensures r.Got? ==>
              var u := if b / 64 % 2 == 1 then Pow2(Bits(w)) - 1 - r.value else r.value;
              ReadInt(s, at, w) == Got(Signed(u, w), r.next)
    ensures r.Eof? ==> ReadInt(s, at, w) == Eof
  {
    GroupsNext(s, at + 1, b, b % 64, 6);
    hide Pow2, Bits, ReadGroups, Signed;
    if r.Got? {
      SignedOf(r.value, ReadGroups(s, at + 1, b, b % 64, 6).value, b / 64 % 2 == 1, w);
    }
  }

  // What one more octet does.
  lemma ReadStep(s: seq<Octet>, at: nat, b: Octet, n: nat, bits: nat)
    ensures b < 128 ==> ReadGroups(s, at, b, n, bits) == Got(n, at)
    ensures b >= 128 && at >= |s| ==> ReadGroups(s, at, b, n, bits) == Eof
    ensures b >= 128 && at < |s| ==>
              ReadGroups(s, at, b, n, bits) == ReadGroups(s, at + 1, s[at], n + s[at] % 128 * Pow2(bits), bits + 7)
  {
  }

  lemma ModSmallWidth(n: nat, w: Width)
    requires n < 64
    ensures n % Pow2(Bits(w)) == n
  {
    Pow2Less(6, Bits(w));
    assert Pow2(6) == 64;
    ModSmall(n, Pow2(Bits(w)));
  }

  lemma {:induction false} GroupsNext(s: seq<Octet>, at: nat, b: Octet, n: nat, bits: nat)
    requires at <= |s|
    ensures var r := ReadGroups(s, at, b, n, bits); r.Got? ==> r.next <= |s|
    decreases |s| - at
  {
    if b >= 128 && at < |s| {
      GroupsNext(s, at + 1, s[at], n + s[at] % 128 * Pow2(bits), bits + 7);
    }
  }

  // ----- the input that knows the array --------------------------------------

  class OctetArrayBufferInput {
    const buffer: OctetArrayReadBuffer
    var offset: nat

    // A character that is cut off makes the offset go past the end.
    ghost predicate Valid()
      reads this, buffer
    {
      buffer.Valid() && buffer.first + offset <= buffer.data.Length
    }

    constructor (buffer: OctetArrayReadBuffer)
      requires buffer.Valid()
      ensures Valid() && this.buffer == buffer && offset == 0
    {
      this.buffer, offset := buffer, 0;
    }

    method ReadMore(of: nat, first: Octet, w: Width) returns (r: Reading<nat>)
      requires Valid() && buffer.first <= of <= buffer.first + buffer.length
      ensures Shortened(ReadGroups(buffer.Contents(), of - buffer.first, first, first % 64, 6), r, w)
    {
      var raw, end := buffer.first, buffer.first + buffer.length;
      ghost var s := buffer.Contents();
      ghost var all := ReadGroups(s, of - raw, first, first % 64, 6);
      var b: Octet, n: nat, bits, at := first, first % 64, 6, of;
      ghost var u: nat := n;
      hide Pow2, Bits, ReadGroups;
      ModSmallWidth(n, w);
      while b >= 128
        invariant raw <= at <= end && n == u % Pow2(Bits(w)) && all == ReadGroups(s, at - raw, b, u, bits)
        decreases end - at
      {
        ReadStep(s, at - raw, b, u, bits);
        if at >= end {
          return Eof;
        }
        assert s[at - raw] == buffer.data[at];
        b := buffer.data[at];
        at := at + 1;
        Truncated(n, u, b % 128 * Pow2(bits), Pow2(Bits(w)));
        n := (n + b % 128 * Pow2(bits)) % Pow2(Bits(w));
        u := u + b % 128 * Pow2(bits);
        bits := bits + 7;
      }
      ReadStep(s, at - raw, b, u, bits);
      return Got(n, at - raw);
    }

    // The same number as the other input reads; but at the end of the stream the offset stays.
    method ReadNumber(w: Width) returns (r: Reading<int>)
      requires Valid()
      modifies this`offset
      ensures Valid()
      ensures Short(buffer.Contents(), old(offset), w) ==>
                r == ReadInt(buffer.Contents(), old(offset), w) && offset == if r.Got? then r.next else old(offset)
    {
      var of, end := buffer.first + offset, buffer.first + buffer.length;
      if of >= end {
        return Eof;
      }
      var b: Octet := buffer.data[of];
      assert buffer.Contents()[offset] == b;
      hide Pow2, Bits, ReadGroups, Signed, Shortened, ReadInt;
      var n := ReadMore(of + 1, b, w);
      NumberFrom(buffer.Contents(), offset, b, n, w);
      if n.Got? {
        var negative := b / 64 % 2 == 1;
        offset := n.next;
        return Got(Signed(if negative then Pow2(Bits(w)) - 1 - n.value else n.value, w), offset);
      }
      return Eof;
    }

    // Only the first octet is checked against the end of the buffer: the others must be in
    // the array, and are taken from behind the buffer when the character is cut off.
    method ReadCharacter() returns (r: Reading<Char16>)
      requires Valid()
      requires offset < buffer.length ==> ReadChar(buffer.data[buffer.first..], offset) != Eof
      modifies this`offset
      ensures Valid()
      ensures r == if old(offset) < buffer.length then ReadChar(buffer.data[buffer.first..], old(offset)) else Eof
      ensures offset == if r.Got? then r.next else old(offset)
      ensures ReadChar(buffer.Contents(), old(offset)) != Eof ==> r == ReadChar(buffer.Contents(), old(offset))
    {
      var raw := buffer.first;
      var of, end := raw + offset, raw + buffer.length;
      if of >= end {
        return Eof;
      }
      ghost var s := buffer.data[raw..];
      CharFurther(buffer.Contents(), s, offset);
      assert s[offset] == buffer.data[of];
      var b: int := buffer.data[of];
      var kind := b / 16;
      of := of + 1;
      if kind <= 7 {
        r := Got(b, of - raw);
      } else if kind == 0xC || kind == 0xD {
        assert s[offset + 1] == buffer.data[of];
        var b2 := buffer.data[of];
        of := of + 1;
        if !Continues(b2) {
          return Malformed;
        }
        r := Got(b % 32 * 64 + Low(b2), of - raw);
      } else if kind == 0xE {
        assert s[offset + 1] == buffer.data[of] && s[offset + 2] == buffer.data[of + 1];
        var b2, b3 := buffer.data[of], buffer.data[of + 1];
        of := of + 2;
        if !Continues(b2) || !Continues(b3) {
          return Malformed;
        }
        r := Got(b % 16 * 4096 + Low(b2) * 64 + Low(b3), of - raw);
      } else {
        return Malformed;
      }
      offset := of - raw;
    }

    method ReadString() returns (r: Reading<Text>)
      requires Valid()
      modifies this`offset
      ensures Valid()
      ensures Short(buffer.Contents(), old(offset), W32) ==>
                r == ReadText(buffer.Contents(), old(offset)) && (r.Got? ==> offset == r.next)
    {
      ghost var s := buffer.Contents();
      var n := ReadNumber(W32);
      match n {
        case Eof => return Eof;
        case Malformed => return Malformed;
        case Got(count, _) =>
          if count < 0 {
            return Got(NoText, offset);
          } else if count == 0 {
            return Got(Text([]), offset);
          }
          var at := offset;
          if at + count > buffer.length {
            offset := buffer.length;
            return Eof;
          }
          offset := at + count;
          var octets := buffer.data[buffer.first + at..buffer.first + at + count];
          PartOfPart(buffer.data[..], buffer.first, buffer.length, at, count);
          assert octets == s[at..at + count];
          return Got(Text(octets), offset);
      }
    }
  }

  lemma PartOfPart(d: seq<Octet>, first: nat, length: nat, at: nat, count: nat)
    requires first + length <= |d| && at + count <= length
    ensures d[first..first + length][at..at + count] == d[first + at..first + at + count]
  {
    var part, piece := d[first..first + length][at..at + count], d[first + at..first + at + count];
    assert |part| == |piece|;
    forall i | 0 <= i < count
      ensures part[i] == piece[i]
    {
      assert part[i] == d[first..first + length][at + i] == d[first + (at + i)];
    }
  }

  // A character that is complete does not depend on what comes after it.
  lemma CharFurther(s: seq<Octet>, t: seq<Octet>, at: nat)
    requires |s| <= |t| && s == t[..|s|]
    ensures ReadChar(s, at) != Eof ==> ReadChar(t, at) == ReadChar(s, at)
  {
    assert forall i :: 0 <= i < |s| ==> t[..|s|][i] == t[i];
  }

  // ----- there and back ------------------------------------------------------

  method ReadOne(input: AbstractBufferInput, kind: Kind) returns (r: Reading<Value>)
    requires input.Valid()
    modifies input`offset
    ensures input.Valid()
    ensures ShortValue(input.buffer.Contents(), old(input.offset), kind) ==>
              && r == ReadValue(input.buffer.Contents(), old(input.offset), kind)
              && (r.Got? ==> input.offset == r.next)
  {
    hide Short, ReadInt, ReadChar, ReadText;
    match kind {
      case NumberOf(w) =>
        var n := input.ReadNumber(w);
        r := match n case Got(v, next) => Got(Number(v, w), next) case Eof => Eof case Malformed => Malformed;
      case CharOf =>
        var c := input.ReadCharacter();
        r := match c case Got(v, next) => Got(Char(v), next) case Eof => Eof case Malformed => Malformed;
      case StringOf =>
        var t := input.ReadString();
        r := match t case Got(v, next) => Got(String(v), next) case Eof => Eof case Malformed => Malformed;
    }
  }

  // The same with the other input.
  method ReadOneRaw(input: OctetArrayBufferInput, kind: Kind) returns (r: Reading<Value>)
    requires input.Valid() && (kind.CharOf? ==> ReadChar(input.buffer.Contents(), input.offset) != Eof)
    modifies input`offset
    ensures input.Valid()
    ensures ShortValue(input.buffer.Contents(), old(input.offset), kind) ==>
              && r == ReadValue(input.buffer.Contents(), old(input.offset), kind)
              && (r.Got? ==> input.offset == r.next)
  {
    match kind {
      case NumberOf(w) =>
        hide Short, ReadInt, ReadChar, ReadText;
          var n := input.ReadNumber(w);
          r := match n case Got(v, next) => Got(Number(v, w), next) case Eof => Eof case Malformed => Malformed;
      case CharOf =>
        CharFurther(input.buffer.Contents(), input.buffer.data[input.buffer.first..], input.offset);
        hide Short, ReadInt, ReadChar, ReadText;
          var c := input.ReadCharacter();
          r := match c case Got(v, next) => Got(Char(v), next) case Eof => Eof case Malformed => Malformed;
      case StringOf =>
        hide Short, ReadInt, ReadChar, ReadText;
          var t := input.ReadString();
          r := match t case Got(v, next) => Got(String(v), next) case Eof => Eof case Malformed => Malformed;
    }
  }

  // Whatever is written into a growing buffer is read back, by either input, and exactly
  // that is consumed; it is written if and only if all of it finds the room that it wants.
  method WriteThenRead(vs: seq<Value>, capacity: nat, max: nat, raw: bool)
    returns (done: bool, got: seq<Value>, consumed: nat)
    requires capacity <= max && forall i :: 0 <= i < |vs| ==> Writable(vs[i])
    ensures done <==> WriteBuffer.FitAll(0, vs, max)
    ensures done ==> got == vs && consumed == |ListCode(vs)|
  {
    var written := new WriteBuffer.OctetArrayWriteBuffer(capacity, max);
    var out := new WriteBuffer.OctetArrayBufferOutput(written);
    var r := WriteBuffer.WriteAll(out, vs);
    done, got, consumed := r.Done?, [], 0;
    if done {
      var buffer := new OctetArrayReadBuffer(written.data, 0, written.length);
      WrittenIs(vs, buffer.Contents());
      if raw {
        got, consumed := ReadAllRaw(buffer, vs);
      } else {
        got, consumed := ReadAll(buffer, vs);
      }
    }
  }

  // Read as many values of the same kinds as `vs` has.
  method ReadAll(buffer: OctetArrayReadBuffer, vs: seq<Value>) returns (got: seq<Value>, consumed: nat)
    requires buffer.Valid() && buffer.Contents() == ListCode(vs) && forall i :: 0 <= i < |vs| ==> Writable(vs[i])
    ensures got == vs && consumed == |ListCode(vs)|
  {
    var input := new AbstractBufferInput(buffer);
    assert vs[..0] == [] && ListCode(vs[..0]) == [] && vs[..|vs|] == vs;
    hide Writable, ListCode;
    got := [];
    for i := 0 to |vs|
      invariant input.Valid() && fresh(input) && input.buffer == buffer && buffer.Contents() == ListCode(vs)
      invariant got == vs[..i] && input.offset == |ListCode(vs[..i])|
    {
      var v := ReadNext(input, KindOf(vs[i]), vs, i);
      got := got + [v];
    }
    consumed := input.offset;
  }

  method ReadNext(input: AbstractBufferInput, kind: Kind, ghost vs: seq<Value>, ghost i: nat) returns (v: Value)
    requires input.Valid() && input.buffer.Contents() == ListCode(vs) && i < |vs| && kind == KindOf(vs[i])
    requires Writable(vs[i]) && input.offset == |ListCode(vs[..i])|
    modifies input`offset
    ensures input.Valid() && v == vs[i] && input.offset == |ListCode(vs[..i + 1])| && vs[..i] + [v] == vs[..i + 1]
  {
    hide ValueCode, ReadValue, Writable, ListCode, ShortValue;
    NextValue(vs, i);
    var r := ReadOne(input, kind);
    v := r.value;
  }

  method ReadAllRaw(buffer: OctetArrayReadBuffer, vs: seq<Value>) returns (got: seq<Value>, consumed: nat)
    requires buffer.Valid() && buffer.Contents() == ListCode(vs) && forall i :: 0 <= i < |vs| ==> Writable(vs[i])
    ensures got == vs && consumed == |ListCode(vs)|
  {
    var input := new OctetArrayBufferInput(buffer);
    assert vs[..0] == [] && ListCode(vs[..0]) == [] && vs[..|vs|] == vs;
    hide Writable, ListCode;
    got := [];
    for i := 0 to |vs|
      invariant input.Valid() && fresh(input) && input.buffer == buffer && buffer.Contents() == ListCode(vs)
      invariant got == vs[..i] && input.offset == |ListCode(vs[..i])|
    {
      var v := ReadNextRaw(input, KindOf(vs[i]), vs, i);
      got := got + [v];
    }
    consumed := input.offset;
  }

  method ReadNextRaw(input: OctetArrayBufferInput, kind: Kind, ghost vs: seq<Value>, ghost i: nat) returns (v: Value)
    requires input.Valid() && input.buffer.Contents() == ListCode(vs) && i < |vs| && kind == KindOf(vs[i])
    requires Writable(vs[i]) && input.offset == |ListCode(vs[..i])|
    modifies input`offset
    ensures input.Valid() && v == vs[i] && input.offset == |ListCode(vs[..i + 1])| && vs[..i] + [v] == vs[..i + 1]
  {
    hide ValueCode, ReadValue, Writable, ListCode, ShortValue, ReadChar;
    NextValue(vs, i);
    ReadIsChar(input.buffer.Contents(), input.offset, kind);
    var r := ReadOneRaw(input, kind);
    v := r.value;
  }

  lemma ReadIsChar(s: seq<Octet>, at: nat, kind: Kind)
    ensures kind.CharOf? && ReadValue(s, at, kind).Got? ==> ReadChar(s, at) != Eof
  {
    hide ReadChar;
  }

  lemma WrittenIs(vs: seq<Value>, s: seq<Octet>)
    requires if vs == [] then s == [] else WriteBuffer.Overwritten([], 0, ListCode(vs), s)
    ensures s == ListCode(vs)
  {
  }

  lemma NextValue(vs: seq<Value>, i: nat)
    requires i < |vs| && Writable(vs[i])
    ensures ReadValue(ListCode(vs), |ListCode(vs[..i])|, KindOf(vs[i])) == Got(vs[i], |ListCode(vs[..i + 1])|)
    ensures ShortValue(ListCode(vs), |ListCode(vs[..i])|, KindOf(vs[i]))
  {
    hide ValueCode, ReadValue, ShortValue;
    SplitCode(vs, i + 1);
    WriteBuffer.PrefixOneMore(vs, i);
    ValueShort(ListCode(vs[..i]), vs[i], ListCode(vs[i + 1..]));
    ValueRoundTrip(ListCode(vs[..i]), vs[i], ListCode(vs[i + 1..]));
  }

  lemma {:induction false} SplitCode(vs: seq<Value>, i: nat)
    requires i <= |vs|
    ensures ListCode(vs) == ListCode(vs[..i]) + ListCode(vs[i..])
    decreases |vs|
  {
    assert ListCode([]) == [];
    hide ValueCode, ListCode;
    if i == |vs| {
      assert vs[..i] == vs && vs[i..] == [];
    } else {
      var most, v := vs[..|vs| - 1], vs[|vs| - 1];
      assert most[..i] == vs[..i] && vs[i..] == most[i..] + [v] && vs == most + [v];
      SplitCode(most, i);
      CodeOneMore(most, v);
      CodeOneMore(most[i..], v);
      Regrouped(ListCode(most[..i]), ListCode(most[i..]), ValueCode(v));
    }
  }

  lemma Regrouped(a: seq<Octet>, b: seq<Octet>, c: seq<Octet>)
    ensures (a + b) + c == a + (b + c)
  {
  }
}
