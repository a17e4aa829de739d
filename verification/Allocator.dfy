// The memory of one thread: blocks that are handed out with padding around them, checked
// when they come back, and kept in a pool for the next time.
module Allocator {
  import opened Codec

  const Word: nat := 8
  const MaxSize: nat := 0xFFFF_FFFF_FFFF_FFFF

  // A piece of memory; what is in a new one is not known.
  class Block {
    const octets: array<Octet>

    constructor (size: nat)
      ensures octets.Length == size && fresh(octets)
    {
      octets := new Octet[size];
    }
  }

  // ----- padding -------------------------------------------------------------

  // How much of the configured padding goes before and after the data: enough before it for
  // the size, if blocks may be pooled, and always a multiple of eight, whatever a word is.
  function Pads(pad: nat, slots: nat, word: nat): (nat, nat)
    requires word == 4 || word == 8
  {
    if pad <= word then
      var pre := (if pad > 0 then word else 0) + (if slots > 0 then word else 0);
      (if 0 < pre < 8 then 8 else pre, 0)
    else if pad < 4 * word then
      (2 * word, if pad < 2 * word then 0 else pad - 2 * word)
    else
      var pre := word * (pad / (2 * word));
      var aligned := if pre % 8 == 4 then pre + 4 else pre;
      HalfPad(pad, word);
      (aligned, pad - aligned)
  }

  lemma HalfPad(pad: nat, word: nat)
    requires (word == 4 || word == 8) && pad >= 4 * word
    ensures var pre := word * (pad / (2 * word)); 2 * word <= pre <= pad - 2 * word && pre % 8 in {0, 4}
  {
    if word == 4 {
      var k := pad / 8;
      assert 8 * k <= pad < 8 * k + 8;
    } else {
      var k := pad / 16;
      assert 16 * k <= pad < 16 * k + 16;
    }
  }

  // The alignment of the data, that all of a large padding is there, and that a block without
  // room for its size has no other padding and no pool to go to.
  lemma PadsAligned(pad: nat, slots: nat, word: nat)
    requires word == 4 || word == 8
    ensures var (pre, post) := Pads(pad, slots, word);
            && pre % 8 == 0 && (pre == 0 <==> pad == 0 && slots == 0) && (pre == 0 ==> post == 0)
            && (pre > 0 ==> pre >= word)
            && (pad > word ==> pre >= 2 * word && pre + post >= pad)
            && (pad >= 2 * word ==> pre + post == pad)
  {
    if pad >= 4 * word {
      HalfPad(pad, word);
    }
  }

  function SizeOctets(n: nat, k: nat): seq<Octet> {
    if k == 0 then [] else [n % 256] + SizeOctets(n / 256, k - 1)
  }

  function SizeOf(s: seq<Octet>): nat {
    if s == [] then 0 else s[0] + 256 * SizeOf(s[1..])
  }

  // The size can be read again.
  lemma {:induction false} SizeRoundTrip(n: nat, k: nat)
    requires n < Pow2(8 * k)
    ensures |SizeOctets(n, k)| == k && SizeOf(SizeOctets(n, k)) == n
  {
    if k > 0 {
      Pow2Add(8, 8 * (k - 1));
      assert Pow2(8) == 256;
      SizeRoundTrip(n / 256, k - 1);
    }
  }

  function Mark(i: nat): Octet {
    (i + 1) % 255
  }

  function Sum(s: seq<Octet>): nat {
    if s == [] then 0 else Sum(s[..|s| - 1]) + s[|s| - 1]
  }

  // What is in the padding before the data: the size, a pattern, and the sum of both.
  ghost predicate PreMarked(s: seq<Octet>, pre: nat, size: nat) {
    && pre <= |s| && pre >= Word && s[..Word] == SizeOctets(size, Word)
    && (pre > Word ==>
          && (forall i :: Word <= i < pre - 1 ==> s[i] == Mark(i))
          && s[pre - 1] == Sum(s[..pre - 1]) % 256)
  }

  // And in the padding after it.
  ghost predicate PostMarked(s: seq<Octet>, from: nat, post: nat) {
    from + post <= |s| && forall i :: 0 <= i < post ==> s[from + i] == Mark(i)
  }

  // The padding of a block whose data is `size` long has been left alone.
  ghost predicate Intact(s: seq<Octet>, pre: nat, size: nat, post: nat) {
    && |s| == pre + size + post && size <= MaxSize
    && (pre > 0 ==> PreMarked(s, pre, size) && PostMarked(s, pre + size, post))
  }

  // ----- the pool ------------------------------------------------------------

  class Pool {
    const slots: array<Block?>
    const slotSize: nat
    const refill: nat
    var of: nat
    var misses: nat
    var hits: nat

    // The slots from `of` on hold blocks, all different and all of the size of a slot; the others
    // hold nothing.
    ghost predicate Valid()
      reads this, slots
    {
      && of <= slots.Length && (forall i :: 0 <= i < of ==> slots[i] == null)
      && (forall i :: of <= i < slots.Length ==> slots[i] != null && slots[i].octets.Length == slotSize)
      && (forall i, j :: of <= i < j < slots.Length ==> slots[i] != slots[j])
      && (forall i, j :: of <= i < j < slots.Length ==> slots[i].octets != slots[j].octets)
    }

    // The blocks in the order in which they will be given out.
    ghost function Stack(): seq<Block?>
      requires Valid()
      reads this, slots
    {
      slots[of..]
    }

    ghost function Held(): set<Block>
      requires Valid()
      reads this, slots
    {
      set i | of <= i < slots.Length :: slots[i]
    }

    constructor (slots: nat, slotSize: nat, refill: nat)
      ensures Valid() && Held() == {} && Stack() == [] && this.slots.Length == slots && this.slotSize == slotSize
              && fresh(this.slots)
    {
      this.slots := new Block?[slots](_ => null);
      this.slotSize, this.refill := slotSize, refill;
      of, misses, hits := slots, 0, 0;
    }

    // The next time that the pool is found empty it gives a new block.
    predicate Refills()
      reads this
    {
      refill != 0 && (misses + 1) % refill == 0
    }

    // A block from the pool; once in a while a new one, when the pool is empty.
    method Allocate() returns (b: Block?)
      requires Valid()
      modifies this, slots
      ensures Valid() && (b != null ==> b.octets.Length == slotSize)
      ensures if old(of) < slots.Length then hits == old(hits) + 1 && misses == old(misses)
              else hits == old(hits) && misses == old(misses) + 1
      ensures if old(Stack()) != [] then b == old(Stack())[0] && Stack() == old(Stack())[1..] else Stack() == []
      ensures if old(of) < slots.Length then b != null && b in old(Held()) && Held() == old(Held()) - {b}
              else Held() == old(Held()) && (b != null ==> fresh(b) && fresh(b.octets))
      ensures old(of) == slots.Length ==> (b != null <==> old(Refills()))
    {
      if of < slots.Length {
        b := slots[of];
        slots[of] := null;
        of := of + 1;
        hits := hits + 1;
        assert Stack() == old(Stack())[1..];
        Popped(old(Held()), old(Stack()), Held(), Stack());
        return;
      }
      misses := misses + 1;
      if refill != 0 && misses % refill == 0 {
        b := new Block(slotSize);
        return;
      }
      return null;
    }

    // Take a block back, if there is room.
    method Release(b: Block) returns (taken: bool)
      requires Valid() && b !in Held() && b.octets.Length == slotSize
      requires forall h :: h in Held() ==> h.octets != b.octets
      modifies this, slots
      ensures Valid() && taken == (old(of) > 0) && Held() == if taken then old(Held()) + {b} else old(Held())
      ensures Stack() == if taken then [b] + old(Stack()) else old(Stack())
    {
      if of == 0 {
        return false;
      }
      of := of - 1;
      slots[of] := b;
      assert forall i :: of < i < slots.Length ==> slots[i] == old(slots[i]) && slots[i] in old(Held());
      assert Valid();
      forall h | h in old(Held())
        ensures h in Held()
      {
        var i :| old(of) <= i < slots.Length && old(slots[i]) == h;
        assert slots[i] == h;
      }
      assert slots[of] in Held();
      return true;
    }
  }

  // Without its first element a sequence of different blocks holds all others.
  lemma Popped(held: set<Block>, s: seq<Block?>, held': set<Block>, s': seq<Block?>)
    requires s != [] && s[0] != null && s' == s[1..] && forall i, j :: 0 <= i < j < |s| ==> s[i] != s[j]
    requires forall h: Block :: h in held <==> h in s
    requires forall h: Block :: h in held' <==> h in s'
    ensures held' == held - {s[0]}
  {
    assert s == [s[0]] + s';
  }

  // ----- handing out and taking back -----------------------------------------

  datatype Outcome = Pooled | Freed | Corrupted

  class Allocator {
    const pool: Pool
    const pre: nat
    const post: nat
    // What has been handed out and not come back.
    ghost var live: set<Block>

    // No block is both in use and in the pool, and no two share memory.
    ghost predicate Valid()
      reads this, pool, pool.slots
    {
      && pool.Valid() && pool.slotSize <= MaxSize && (pre == 0 || pre >= Word) && (pre == 0 ==> post == 0)
      && live !! pool.Held()
      && forall a, b :: a in live + pool.Held() && b in live + pool.Held() && a != b ==> a.octets != b.octets
    }

    constructor (pad: nat, slots: nat, slotSize: nat, refill: nat)
      requires slotSize <= MaxSize
      ensures Valid() && live == {} && (pre, post) == Pads(pad, slots, Word) && fresh(pool) && fresh(pool.slots)
    {
      PadsAligned(pad, slots, Word);
      pool := new Pool(slots, slotSize, refill);
      var pads := Pads(pad, slots, Word);
      pre, post := pads.0, pads.1;
      live := {};
    }

    // The padding around the data, and zeros for the data.
    method Prepare(a: array<Octet>, size: nat)
      requires a.Length == pre + size + post && size <= MaxSize && (pre == 0 || pre >= Word) && (pre == 0 ==> post == 0)
      modifies a
      ensures Intact(a[..], pre, size, post) && forall i :: pre <= i < pre + size ==> a[i] == 0
    {
      hide PreMarked;
      if pre > 0 {
        PutSize(a, size);
        MarkPre(a, pre, size);
        MarkPost(a, pre + size, post, pre, size);
      }
      Clear(a, pre, size, post);
    }

    // A block with room for at least `n` octets of data, all of them zero.
    method Allocate(n: nat) returns (b: Block?, size: nat)
      requires Valid()
      modifies this, pool, pool.slots, set h | h in pool.Held() :: h.octets
      ensures Valid()
      ensures b == null <==> n + pre + post > MaxSize
      ensures b == null ==> live == old(live) && pool.Held() == old(pool.Held()) && pool.Stack() == old(pool.Stack())
      ensures b != null ==>
                && b !in old(live) && live == old(live) + {b} && n <= size
                && Intact(b.octets[..], pre, size, post)
                && (forall i :: pre <= i < pre + size ==> b.octets[i] == 0)
                && pool.Held() == old(pool.Held()) - {b} && (b in old(pool.Held()) || fresh(b))
      ensures b != null ==>
                var small, again := n + pre + post <= pool.slotSize, old(pool.Stack()) != [];
                && (b in old(pool.Held()) <==> small && again)
                && (if small && again then b == old(pool.Stack())[0] && pool.Stack() == old(pool.Stack())[1..]
                    else pool.Stack() == old(pool.Stack()))
                && size == if small && (again || old(pool.Refills())) then pool.slotSize - (pre + post) else n
    {
      if n > MaxSize - (pre + post) {
        return null, 0;
      }
      b := null;
      var all := n + pre + post;
      size := n;
      if all <= pool.slotSize {
        b := pool.Allocate();
        if b != null {
          all := pool.slotSize;
          size := pool.slotSize - (pre + post);
        }
      }
      if b == null {
        b := new Block(all);
      }
      Prepare(b.octets, size);
      live := live + {b};
    }

    // Take a block back, unless its padding shows that it has been written to: the octets
    // before the data must have the right sum, and those after it their pattern.
    method Release(b: Block, ghost size: nat) returns (r: Outcome)
      requires Valid() && b in live && b.octets.Length == pre + size + post && size <= MaxSize
      requires pre > 0 && HashFits(b.octets[..], pre) ==> b.octets[..Word] == SizeOctets(size, Word)
      modifies this, pool, pool.slots, b.octets
      ensures Valid()
      ensures r == Corrupted <==> pre > 0 && !Checked(old(b.octets[..]), pre, size, post)
      ensures r == Corrupted ==>
                live == old(live) && pool.Held() == old(pool.Held()) && b.octets[..] == old(b.octets[..])
      ensures r == Pooled <==>
              && pre > 0 && Checked(old(b.octets[..]), pre, size, post)
              && pre + size + post == pool.slotSize && old(pool.of) > 0
      ensures r == Freed ==> live == old(live) - {b} && pool.Held() == old(pool.Held())
      ensures r == Pooled ==> live == old(live) - {b} && pool.Held() == old(pool.Held()) + {b}
      ensures pool.Stack() == if r == Pooled then [b] + old(pool.Stack()) else old(pool.Stack())
      ensures r != Corrupted ==>
                if post > 0 then forall i :: 0 <= i < b.octets.Length ==> b.octets[i] == 0
                else b.octets[..] == old(b.octets[..])
    {
      hide Checked;
      if pre == 0 {
        live := live - {b};
        return Freed;
      }
      var n, fine := Check(b, size);
      if !fine {
        return Corrupted;
      }
      hide HashFits;
      if post > 0 {
        Erase(b.octets);
      }
      r := TakeBack(b, n);
    }

    // A block of the size of a slot goes to the pool, if there is room.
    method TakeBack(b: Block, n: nat) returns (r: Outcome)
      requires Valid() && b in live && b.octets.Length == pre + n + post
      modifies this, pool, pool.slots
      ensures Valid() && r != Corrupted && live == old(live) - {b}
      ensures r == Pooled <==> n + pre + post == pool.slotSize && old(pool.of) > 0
      ensures pool.Held() == old(pool.Held()) + if r == Pooled then {b} else {}
      ensures pool.Stack() == (if r == Pooled then [b] else []) + old(pool.Stack())
    {
      if n + pre + post == pool.slotSize {
        var taken := pool.Release(b);
        if taken {
          live := live - {b};
          return Pooled;
        }
      }
      live := live - {b};
      assert [] + pool.Stack() == pool.Stack();
      return Freed;
    }

    method Check(b: Block, ghost size: nat) returns (n: nat, fine: bool)
      requires b.octets.Length == pre + size + post && size <= MaxSize && pre >= Word
      requires HashFits(b.octets[..], pre) ==> b.octets[..Word] == SizeOctets(size, Word)
      ensures (fine ==> n == size) && (fine <==> Checked(b.octets[..], pre, size, post))
    {
      if pre > Word {
        var hash := Hash(b.octets, pre - 1);
        assert b.octets[..][..pre - 1] == b.octets[..pre - 1];
        if hash != b.octets[pre - 1] {
          return 0, false;
        }
      }
      n := ReadSize(b.octets, size);
      fine := CheckPost(b.octets, pre + n, post);
    }
  }

  // The sum of the padding before the data is right, if it is there.
  ghost predicate HashFits(s: seq<Octet>, pre: nat) {
    Word < pre <= |s| ==> s[pre - 1] == Sum(s[..pre - 1]) % 256
  }

  // A block that has been released into the pool is the next one to be given out.
  method Reuse(a: Allocator, b: Block, ghost size: nat, n: nat) returns (again: Block?, room: nat)
    requires a.Valid() && b in a.live && a.pre > 0 && Intact(b.octets[..], a.pre, size, a.post)
    requires a.pre + size + a.post == a.pool.slotSize && a.pool.of > 0 && n <= size
    modifies a, a.pool, a.pool.slots, b.octets, set h | h in a.pool.Held() :: h.octets
    ensures a.Valid() && again == b && room == size && a.live == old(a.live)
    ensures a.pool.Held() == old(a.pool.Held()) && a.pool.Stack() == old(a.pool.Stack())
  {
    IntactIsChecked(b.octets[..], a.pre, size, a.post);
    assert b.octets[..][..Word] == b.octets[..Word];
    hide Checked, Intact, HashFits;
    var r := a.Release(b, size);
    assert r == Pooled && a.pool.Stack()[0] == b;
    again, room := a.Allocate(n);
  }

  // What release looks at.
  ghost predicate Checked(s: seq<Octet>, pre: nat, size: nat, post: nat) {
    Word <= pre <= |s| && HashFits(s, pre) && PostMarked(s, pre + size, post)
  }

  // A block whose padding has been left alone, whatever has become of its data, is taken back.
  lemma IntactIsChecked(s: seq<Octet>, pre: nat, size: nat, post: nat)
    requires pre > 0 && Intact(s, pre, size, post)
    ensures Checked(s, pre, size, post)
  {
  }

  // Whichever octet of the padding has been overwritten is noticed: before the data by the sum,
  // after it by the pattern.
  lemma OverwriteNoticed(s: seq<Octet>, pre: nat, size: nat, post: nat, k: nat, x: Octet)
    requires pre > Word && Intact(s, pre, size, post) && (k < pre || pre + size <= k < |s|) && s[k] != x
    ensures !Checked(s[k := x], pre, size, post)
  {
    var t := s[k := x];
    if k >= pre {
      assert t[pre + size + (k - pre - size)] != Mark(k - pre - size);
    } else if k == pre - 1 {
      assert t[..pre - 1] == s[..pre - 1];
    } else {
      assert t[..pre - 1] == s[..pre - 1][k := x];
      SumChange(s[..pre - 1], k, x);
      NotSameOctet(Sum(s[..pre - 1]), s[k], x);
    }
  }

  lemma {:induction false} SumChange(s: seq<Octet>, k: nat, x: Octet)
    requires k < |s|
    ensures Sum(s[k := x]) == Sum(s) - s[k] + x
  {
    var n := |s| - 1;
    if k < n {
      assert s[k := x][..n] == s[..n][k := x];
      SumChange(s[..n], k, x);
    } else {
      assert s[k := x][..n] == s[..n];
    }
  }

  lemma NotSameOctet(sum: int, a: Octet, b: Octet)
    requires a != b
    ensures (sum - a + b) % 256 != sum % 256
  {
  }

  // A zero is, unless the pattern has a zero there.
  lemma ZeroNoticed(s: seq<Octet>, pre: nat, size: nat, post: nat, i: nat)
    requires pre > Word && Intact(s, pre, size, post) && i < post
    ensures Checked(s[pre + size + i := 0], pre, size, post) <==> i % 255 == 254
  {
    var k := pre + size + i;
    assert s[k] == Mark(i) && k < |s|;
    hide Checked, Intact;
    if s[k] != 0 {
      OverwriteNoticed(s, pre, size, post, k, 0);
    } else {
      assert s[k := 0] == s;
      IntactIsChecked(s, pre, size, post);
    }
  }

  // Writing to the data leaves the padding alone.
  lemma DataIsFree(s: seq<Octet>, t: seq<Octet>, pre: nat, size: nat, post: nat)
    requires Intact(s, pre, size, post) && |t| == |s| && t[..pre] == s[..pre] && t[pre + size..] == s[pre + size..]
    ensures Intact(t, pre, size, post)
  {
    SamePre(s, t, pre, size, pre);
    hide PreMarked;
    if pre > 0 {
      SamePost(s, t, pre + size, post);
    }
  }

  // The size that is encoded at the beginning.
  method ReadSize(a: array<Octet>, ghost size: nat) returns (n: nat)
    requires a.Length >= Word && a[..Word] == SizeOctets(size, Word) && size <= MaxSize
    ensures n == size
  {
    n := SizeOf(a[..Word]);
    SizesFit();
    SizeRoundTrip(size, Word);
  }

  lemma SizesFit()
    ensures Pow2(8 * Word) == MaxSize + 1
  {
    Pow2Is();
    Pow2Add(32, 32);
  }

  // Whether the pattern after the data is still there.
  method CheckPost(a: array<Octet>, from: nat, post: nat) returns (r: bool)
    requires from + post <= a.Length
    ensures r <==> PostMarked(a[..], from, post)
  {
    for i := 0 to post
      invariant forall j :: 0 <= j < i ==> a[from + j] == Mark(j)
    {
      if a[from + i] != Mark(i) {
        assert a[..][from + i] != Mark(i);
        return false;
      }
    }
    return true;
  }

  method Erase(a: array<Octet>)
    modifies a
    ensures forall i :: 0 <= i < a.Length ==> a[i] == 0
  {
    for i := 0 to a.Length
      invariant forall j :: 0 <= j < i ==> a[j] == 0
    {
      a[i] := 0;
    }
  }

  method PutSize(a: array<Octet>, size: nat)
    requires a.Length >= Word && size <= MaxSize
    modifies a
    ensures a[..Word] == SizeOctets(size, Word)
  {
    var n := size;
    for i := 0 to Word
      invariant a[..i] + SizeOctets(n, Word - i) == SizeOctets(size, Word)
    {
      a[i] := n % 256;
      n := n / 256;
    }
  }

  // The sum of the first octets, one by one.
  lemma SumNext(s: seq<Octet>, i: nat)
    requires i < |s|
    ensures Sum(s[..i + 1]) == Sum(s[..i]) + s[i]
  {
    assert s[..i + 1][..i] == s[..i];
  }

  // Add octets to a sum of eight bits.
  method Hash(a: array<Octet>, n: nat) returns (hash: Octet)
    requires n <= a.Length
    ensures hash == Sum(a[..n]) % 256
  {
    var sum: int := 0;
    for i := 0 to n
      invariant 0 <= sum < 256 && sum == Sum(a[..][..i]) % 256
    {
      SumNext(a[..], i);
      sum := (sum + a[i] as int) % 256;
    }
    assert a[..][..n] == a[..n];
    hash := sum;
  }

  method MarkPre(a: array<Octet>, pre: nat, size: nat)
    requires Word <= pre <= a.Length && a[..Word] == SizeOctets(size, Word)
    modifies a
    ensures PreMarked(a[..], pre, size)
  {
    if pre > Word {
      var start := Hash(a, Word);
      var hash := PutPattern(a, pre, start);
      ghost var s := a[..];
      a[pre - 1] := hash;
      assert a[..][..pre - 1] == s[..pre - 1] == a[..pre - 1];
    }
    assert a[..][..Word] == a[..Word];
  }

  method PutPattern(a: array<Octet>, pre: nat, start: Octet) returns (hash: Octet)
    requires Word < pre <= a.Length && start == Sum(a[..Word]) % 256
    modifies a
    ensures a[..Word] == old(a[..Word]) && hash == Sum(a[..pre - 1]) % 256
    ensures forall j :: Word <= j < pre - 1 ==> a[j] == Mark(j)
  {
    hash := start;
    ghost var was := a[..];
    assert was[..Word] == a[..Word];
    for i := Word to pre - 1
      invariant Patterned(a[..], was, i, hash)
    {
      PatternNext(a[..], was, i, hash);
      ghost var s := a[..];
      hide Patterned;
      a[i] := Mark(i);
      hash := (hash as int + a[i]) % 256;
      assert a[..] == s[i := Mark(i)];
    }
    assert a[..][..pre - 1] == a[..pre - 1] && a[..][..Word] == a[..Word];
  }

  // The pattern has been put up to `i`.
  ghost predicate Patterned(s: seq<Octet>, was: seq<Octet>, i: nat, hash: Octet) {
    && Word <= i <= |s| == |was| && s[..Word] == was[..Word] && hash == Sum(s[..i]) % 256
    && forall j :: Word <= j < i ==> s[j] == Mark(j)
  }

  lemma PatternNext(s: seq<Octet>, was: seq<Octet>, i: nat, hash: Octet)
    requires Patterned(s, was, i, hash) && i < |s|
    ensures Patterned(s[i := Mark(i)], was, i + 1, (hash as int + Mark(i)) % 256)
  {
    SumPut(s, i, Mark(i));
    hide Sum;
    assert s[i := Mark(i)][..Word] == s[..Word];
  }

  lemma SumPut(s: seq<Octet>, i: nat, b: Octet)
    requires i < |s|
    ensures var t := s[i := b]; Sum(t[..i + 1]) == Sum(s[..i]) + b && t[..i] == s[..i]
  {
    SumNext(s[i := b], i);
    assert s[i := b][..i] == s[..i];
  }

  method MarkPost(a: array<Octet>, from: nat, post: nat, ghost pre: nat, ghost size: nat)
    requires Word <= pre <= from && from + post == a.Length && PreMarked(a[..], pre, size)
    modifies a
    ensures PreMarked(a[..], pre, size) && PostMarked(a[..], from, post)
  {
    ghost var s := a[..];
    for i := 0 to post
      invariant a[..from] == s[..from] && forall j :: 0 <= j < i ==> a[from + j] == Mark(j)
    {
      a[from + i] := Mark(i);
    }
    SamePre(s, a[..], pre, size, from);
  }

  // The padding before the data does not depend on what comes after it.
  lemma SamePre(s: seq<Octet>, t: seq<Octet>, pre: nat, size: nat, from: nat)
    requires pre <= from <= |s| == |t| && s[..from] == t[..from]
    ensures PreMarked(s, pre, size) <==> PreMarked(t, pre, size)
  {
    assert forall i :: 0 <= i < from ==> s[i] == s[..from][i] == t[..from][i] == t[i];
    if pre > Word {
      assert s[..pre - 1] == t[..pre - 1];
    }
    assert pre >= Word ==> s[..Word] == t[..Word];
  }

  // Nor the padding after it on what comes before.
  lemma SamePost(s: seq<Octet>, t: seq<Octet>, from: nat, post: nat)
    requires from <= |s| == |t| && s[from..] == t[from..] && PostMarked(s, from, post)
    ensures PostMarked(t, from, post)
  {
    forall i | 0 <= i < post
      ensures t[from + i] == Mark(i)
    {
      assert t[from + i] == t[from..][i] == s[from..][i] == s[from + i];
    }
  }

  method Clear(a: array<Octet>, pre: nat, size: nat, post: nat)
    requires a.Length == pre + size + post && size <= MaxSize
    requires pre > 0 ==> PreMarked(a[..], pre, size) && PostMarked(a[..], pre + size, post)
    modifies a
    ensures Intact(a[..], pre, size, post) && forall i :: pre <= i < pre + size ==> a[i] == 0
  {
    ghost var s := a[..];
    for i := pre to pre + size
      invariant a[..pre] == s[..pre] && a[pre + size..] == s[pre + size..] && forall j :: pre <= j < i ==> a[j] == 0
    {
      a[i] := 0;
    }
    SamePre(s, a[..], pre, size, pre);
    hide PreMarked;
    if pre > 0 {
      SamePost(s, a[..], pre + size, post);
    }
  }
}
