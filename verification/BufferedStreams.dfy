// Streams that buffer: whatever the sizes of the writes and the reads, every octet gets
// through once and in order.
module BufferedStreams {
  import opened Codec
  import ObjectArray

  // ----- output --------------------------------------------------------------

  class OutputStream {
    var octets: seq<Octet>

    method Write(src: array<Octet>, i: nat, n: nat)
      requires i + n <= src.Length
      modifies this
      ensures octets == old(octets) + src[i..i + n]
    {
      octets := octets + src[i..i + n];
    }
  }

  class BufferedOutputStream {
    const out: OutputStream
    const buffer: array<Octet>
    var count: nat

    ghost predicate Valid()
      reads this
    {
      count <= buffer.Length
    }

    // All that has been written to this stream: what has gone out, and what is in the buffer.
    ghost function Written(): seq<Octet>
      requires Valid()
      reads this, out, buffer
    {
      out.octets + buffer[..count]
    }

    constructor (out: OutputStream, size: nat)
      ensures Valid() && this.out == out && Written() == out.octets && buffer.Length == size && fresh(buffer)
    {
      this.out := out;
      buffer := new Octet[size](_ => 0);
      count := 0;
    }

    method FlushBuffer()
      requires Valid()
      modifies this, out
      ensures Valid() && Written() == old(Written()) == out.octets && count == 0
    {
      if count > 0 {
        out.Write(buffer, 0, count);
        count := 0;
      }
    }

    method WriteOctet(b: Octet)
      requires Valid() && buffer.Length > 0
      modifies this, out, buffer
      ensures Valid() && Written() == old(Written()) + [b]
      ensures count == if old(count) == buffer.Length then 1 else old(count) + 1
    {
      if count == buffer.Length {
        FlushBuffer();
      }
      buffer[count] := b;
      count := count + 1;
    }

    // Buffer what fits, and what is left over when the buffer has been filled once; everything
    // else goes out at once.
    method Write(src: array<Octet>, i: nat, n: nat)
      requires Valid() && i + n <= src.Length && src != buffer
      modifies this, out, buffer
      ensures Valid() && Written() == old(Written()) + src[i..i + n]
      ensures count == var free := buffer.Length - old(count);
                       if n < free then old(count) + n
                       else if 0 < old(count) && n < free + buffer.Length then n - free
                       else 0
    {
      var free := buffer.Length - count;
      if n < free {
        Fill(src, i, n);
      } else if count == 0 {
        out.Write(src, i, n);
      } else if n < free + buffer.Length {
        ghost var all := src[i..i + n];
        Fill(src, i, free);
        out.Write(buffer, 0, buffer.Length);
        count := 0;
        Fill(src, i + free, n - free);
        assert all == src[i..i + free] + src[i + free..i + n];
      } else {
        FlushBuffer();
        out.Write(src, i, n);
      }
    }

    method Fill(src: array<Octet>, i: nat, n: nat)
      requires Valid() && i + n <= src.Length && src != buffer && count + n <= buffer.Length
      modifies this, buffer
      ensures Valid() && out.octets == old(out.octets) && count == old(count) + n
      ensures Written() == old(Written()) + src[i..i + n]
    {
      ghost var before := buffer[..];
      var _ := ObjectArray.Copy(src, i, buffer, count, n);
      assert src[..][i..i + n] == src[i..i + n];
      count := count + n;
      assert buffer[..count] == before[..count - n] + src[i..i + n];
    }

    method Flush()
      requires Valid()
      modifies this, out
      ensures Valid() && out.octets == Written() == old(Written())
    {
      FlushBuffer();
    }
  }

  // ----- input ---------------------------------------------------------------

  // A source that may give less than it is asked for: how much, `limits` says.
  class InputStream {
    var rest: seq<Octet>
    var limits: seq<nat>
    ghost var taken: seq<Octet>
    // How much the last request was for, and whether it gave nothing.
    ghost var asked: nat
    ghost var dry: bool

    method Read(des: array<Octet>, i: nat, n: nat) returns (got: nat)
      requires i + n <= des.Length
      modifies this, des
      ensures got <= n && got <= |old(rest)| && taken == old(taken) + old(rest)[..got] && rest == old(rest)[got..]
      ensures des[..] == ObjectArray.Pasted(old(des[..]), i, old(rest)[..got]) && (dry <==> got == 0)
      ensures asked == n
    {
      got := if |rest| < n then |rest| else n;
      if limits != [] {
        got := if limits[0] < got then limits[0] else got;
        limits := limits[1..];
      }
      Give(rest[..got], des, i);
      taken := taken + rest[..got];
      rest := rest[got..];
      asked, dry := n, got == 0;
    }

    // Wait for one octet; there is none only at the end.
    method ReadOctet() returns (r: Reading<Octet>)
      modifies this
      ensures if old(rest) == [] then r == Eof && taken == old(taken) && rest == []
              else r == Got(old(rest)[0], 0) && taken == old(taken) + [old(rest)[0]] && rest == old(rest)[1..]
      ensures dry <==> r.Eof?
      ensures asked == 1
    {
      asked, dry := 1, rest == [];
      if rest == [] {
        return Eof;
      }
      r := Got(rest[0], 0);
      taken := taken + [rest[0]];
      rest := rest[1..];
    }
  }

  method Give(piece: seq<Octet>, des: array<Octet>, i: nat)
    requires i + |piece| <= des.Length
    modifies des
    ensures des[..] == ObjectArray.Pasted(old(des[..]), i, piece)
  {
    ghost var before := des[..];
    for k := 0 to |piece|
      invariant forall j :: 0 <= j < des.Length ==> des[j] == if i <= j < i + k then piece[j - i] else before[j]
    {
      des[i + k] := piece[k];
    }
    ObjectArray.IsPasted(before, i, piece, des[..]);
  }

  class BufferedInputStream {
    const source: InputStream
    const buffer: array<Octet>
    var count: nat
    var next: nat
    // What has been handed out.
    ghost var delivered: seq<Octet>

    // What has been taken from the source has been handed out or is still in the buffer.
    ghost predicate Valid()
      reads this, source, buffer
    {
      next <= count <= buffer.Length && source.taken == delivered + buffer[next..count]
    }

    constructor (source: InputStream, size: nat)
      requires source.taken == []
      ensures Valid() && this.source == source && delivered == [] && fresh(buffer) && buffer.Length == size
    {
      this.source := source;
      buffer := new Octet[size](_ => 0);
      count, next, delivered := 0, 0, [];
    }

    // How much is in the buffer, after it has been filled if it was empty.
    method FillBuffer() returns (n: nat)
      requires Valid()
      modifies this`count, this`next, source, buffer
      ensures Valid() && delivered == old(delivered) && n == count - next
      ensures old(next < count) ==>
                next == old(next) && source.rest == old(source.rest) && source.taken == old(source.taken)
      ensures old(next == count) ==> source.asked == buffer.Length
      ensures n == 0 ==> source.dry
    {
      n := count - next;
      if n == 0 {
        next := 0;
        n := source.Read(buffer, 0, buffer.Length);
        count := n;
      }
    }

    // What is in the buffer, up to `n` octets.
    method TakeBuffered(des: array<Octet>, i: nat, n: nat) returns (got: nat)
      requires Valid() && i + n <= des.Length && des != buffer
      modifies this`next, this`delivered, des
      ensures Valid() && got == (if old(count - next) < n then old(count - next) else n)
      ensures next == old(next) + got && source.rest == old(source.rest)
      ensures Reads(old(des[..]), des[..], i, n, got, old(delivered), delivered)
    {
      got := if count - next < n then count - next else n;
      var _ := ObjectArray.Copy(buffer, next, des, i, got);
      ghost var piece := buffer[next..next + got];
      assert buffer[..][next..next + got] == piece && des[..][i..i + got] == piece;
      assert buffer[next..count] == piece + buffer[next + got..count];
      next := next + got;
      delivered := delivered + piece;
    }

    method ReadOctet() returns (r: Reading<Octet>)
      requires Valid()
      modifies this, source, buffer
      ensures Valid()
      ensures match r
              case Got(b, _) => delivered == old(delivered) + [b]
              case Eof => delivered == old(delivered) == source.taken && source.rest == []
              case Malformed => false
    {
      var n := count - next;
      if next == count {
        n := FillBuffer();
      }
      if n == 0 {
        r := source.ReadOctet();
        if r.Got? {
          delivered := delivered + [r.value];
        }
        return;
      }
      r := Got(buffer[next], 0);
      assert buffer[next..count] == [buffer[next]] + buffer[next + 1..count];
      delivered := delivered + [buffer[next]];
      next := next + 1;
    }

    // Straight from the source, past the empty buffer.
    method TakeDirectly(des: array<Octet>, i: nat, n: nat) returns (got: nat)
      requires Valid() && next == count && i + n <= des.Length && des != buffer
      modifies this`delivered, source, des
      ensures Valid() && Reads(old(des[..]), des[..], i, n, got, old(delivered), delivered)
      ensures source.asked == n && (source.dry <==> got == 0)
    {
      ghost var before := des[..];
      got := source.Read(des, i, n);
      ghost var piece := old(source.rest)[..got];
      ObjectArray.PastedAt(before, i, piece);
      assert des[..][i..i + got] == piece;
      assert buffer[next..count] == [];
      delivered := delivered + piece;
    }

    // Large pieces from the source, as long as no less than the buffer holds is wanted; `done`
    // if there is nothing more, or nothing more is wanted.
    method TakeLarge(des: array<Octet>, i: nat, n: nat) returns (total: nat, done: bool)
      requires Valid() && next == count && i + n <= des.Length && des != buffer
      modifies this`delivered, source, des
      ensures Valid() && total <= n && Reads(old(des[..]), des[..], i, n, total, old(delivered), delivered)
      ensures if done then total == n || source.dry else n - total < buffer.Length
    {
      ghost var before, was := des[..], delivered;
      ReadsNothing(before, i, n, was);
      hide Reads;
      total := 0;
      while n - total >= buffer.Length
        invariant Valid() && next == count && total <= n && Reads(before, des[..], i, n, total, was, delivered)
        decreases n - total
      {
        ghost var mid, had := des[..], delivered;
        var got := TakeDirectly(des, i + total, n - total);
        ReadsMore(before, mid, des[..], i, n, total, got, was, had, delivered);
        total := total + got;
        if got == 0 || total == n {
          return total, true;
        }
      }
      done := false;
    }

    method TakeFilled(des: array<Octet>, i: nat, n: nat) returns (got: nat)
      requires Valid() && i + n <= des.Length && des != buffer
      modifies this, source, buffer, des
      ensures Valid() && got <= n && Reads(old(des[..]), des[..], i, n, got, old(delivered), delivered)
      ensures got < n ==> next == count
      ensures got == 0 ==> n == 0 || source.dry
    {
      ReadsNothing(des[..], i, n, delivered);
      hide Reads;
      var available := FillBuffer();
      got := 0;
      if available > 0 {
        got := TakeBuffered(des, i, n);
      }
    }

    // Large pieces from the source, then what a last filling of the buffer gives.
    method TakeRest(des: array<Octet>, i: nat, n: nat) returns (total: nat)
      requires Valid() && next == count && i + n <= des.Length && des != buffer
      modifies this, source, buffer, des
      ensures Valid() && total <= n && Reads(old(des[..]), des[..], i, n, total, old(delivered), delivered)
      ensures total < n ==> next == count
      ensures total == 0 ==> n == 0 || source.dry
    {
      hide Reads;
      var done;
      total, done := TakeLarge(des, i, n);
      if !done {
        ghost var mid, had := des[..], delivered;
        var more := TakeFilled(des, i + total, n - total);
        ReadsMore(old(des[..]), mid, des[..], i, n, total, more, old(delivered), had, delivered);
        total := total + more;
      }
    }

    // One round: what is in the buffer, then what the source gives.  All is handed out that
    // has been taken, unless no more is wanted; and nothing only if the source gave nothing.
    method ReadInternal(des: array<Octet>, i: nat, n: nat) returns (total: nat)
      requires Valid() && i + n <= des.Length && des != buffer
      modifies this, source, buffer, des
      ensures Valid() && total <= n && Reads(old(des[..]), des[..], i, n, total, old(delivered), delivered)
      ensures total < n ==> next == count
      ensures total == 0 ==> n == 0 || source.dry
      ensures 0 < n <= old(count - next) ==> total == n && source.rest == old(source.rest)
    {
      ghost var before, was := des[..], delivered;
      ReadsNothing(before, i, n, was);
      hide Reads;
      total := 0;
      if count - next > 0 {
        total := TakeBuffered(des, i, n);
        if total == n {
          return;
        }
      }
      ghost var mid, had := des[..], delivered;
      var more := TakeRest(des, i + total, n - total);
      ReadsMore(before, mid, des[..], i, n, total, more, was, had, delivered);
      total := total + more;
    }

    // As much as the source gives in one go after the other, until it gives nothing.
    method Read(des: array<Octet>, i: nat, n: nat) returns (total: nat, ok: bool)
      requires Valid() && des != buffer
      modifies this, source, buffer, des
      ensures Valid() && (ok <==> i + n <= des.Length)
      ensures if ok then Reads(old(des[..]), des[..], i, n, total, old(delivered), delivered)
              else delivered == old(delivered) && des[..] == old(des[..])
      ensures ok ==> total == n || (source.dry && next == count)
      ensures 0 < n <= old(count - next) ==> source.rest == old(source.rest)
    {
      if i + n > des.Length {
        return 0, false;
      }
      ghost var before, was := des[..], delivered;
      hide Reads;
      total := 0;
      ok := true;
      var got := ReadInternal(des, i, n);
      while got > 0
        invariant Valid() && total + got <= n && Reads(before, des[..], i, n, total + got, was, delivered)
        invariant got == 0 ==> n == total || (source.dry && next == count)
        invariant 0 < n <= old(count - next) ==> total + got == n && source.rest == old(source.rest)
        decreases n - total
      {
        total := total + got;
        if total == n {
          return;
        }
        ghost var mid, had := des[..], delivered;
        got := ReadInternal(des, i + total, n - total);
        ReadsMore(before, mid, des[..], i, n, total, got, was, had, delivered);
      }
    }
  }

  // Of the `n` slots from `i` on, the first `total` have been filled with what has been handed
  // out since `was`, and nothing outside of them has changed.
  ghost predicate Reads(before: seq<Octet>, now: seq<Octet>, i: nat, n: nat, total: nat, was: seq<Octet>,
                        delivered: seq<Octet>) {
    && |before| == |now| && i + n <= |now| && total <= n && delivered == was + now[i..i + total]
    && now[..i] == before[..i] && now[i + n..] == before[i + n..]
  }

  lemma ReadsNothing(before: seq<Octet>, i: nat, n: nat, was: seq<Octet>)
    requires i + n <= |before|
    ensures Reads(before, before, i, n, 0, was, was)
  {
  }

  lemma ReadsMore(before: seq<Octet>, mid: seq<Octet>, now: seq<Octet>, i: nat, n: nat, total: nat, got: nat,
                  was: seq<Octet>, had: seq<Octet>, delivered: seq<Octet>)
    requires total <= n && Reads(before, mid, i, n, total, was, had)
    requires Reads(mid, now, i + total, n - total, got, had, delivered)
    ensures total + got <= n && Reads(before, now, i, n, total + got, was, delivered)
  {
    assert now[..i] == now[..i + total][..i] == mid[..i + total][..i] == mid[..i];
    assert now[i..i + total] == now[..i + total][i..] == mid[..i + total][i..] == mid[i..i + total];
    assert now[i..i + total + got] == now[i..i + total] + now[i + total..i + total + got];
  }
}
