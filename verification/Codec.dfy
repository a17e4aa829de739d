// The octets that stand for numbers, characters and strings, and what reading them gives.
// Shifts and masks are written as division and remainder, on numbers that are not negative.
module Codec {

  type Octet = b: int | 0 <= b < 256

  function Pow2(n: nat): (p: nat)
    ensures p > 0
  {
    if n == 0 then 1 else 2 * Pow2(n - 1)
  }

  // ----- numbers -------------------------------------------------------------

  datatype Width = W16 | W32 | W64

  function Bits(w: Width): nat {
    match w case W16 => 16 case W32 => 32 case W64 => 64
  }

  // How many octets are reserved for a number.
  function MaxOctets(w: Width): nat {
    match w case W16 => 3 case W32 => 5 case W64 => 10
  }

  predicate Fits(n: int, w: Width) {
    0 - Pow2(Bits(w) - 1) <= n < Pow2(Bits(w) - 1)
  }

  // `~n` when `n` is negative.
  function Magnitude(n: int): nat {
    if n < 0 then -n - 1 else n
  }

  // The octets for `u`, after an octet with the bits `b`: seven bits each, the eighth says
  // that there are more.
  function Groups(u: nat, b: nat): seq<Octet>
    requires b < 128
  {
    if u == 0 then [b] else [b + 128] + Groups(u / 128, u % 128)
  }

  // The first octet has six bits and the sign.
  function Code(n: int): seq<Octet> {
    var u := Magnitude(n);
    Groups(u / 64, u % 64 + if n < 0 then 64 else 0)
  }

  datatype Reading<T> = Got(value: T, next: nat) | Eof | Malformed

  // `n` as an unsigned number of that width, taken for a signed one.
  function Signed(n: int, w: Width): int {
    var u := n % Pow2(Bits(w));
    if u < Pow2(Bits(w) - 1) then u else u - Pow2(Bits(w))
  }

  // What is left to read after the octet `b`, which adds to the `bits` low bits in `n`.
  function ReadGroups(s: seq<Octet>, at: nat, b: Octet, n: nat, bits: nat): Reading<nat>
    decreases |s| - at
  {
    if b < 128 then Got(n, at)
    else if at >= |s| then Eof
    else ReadGroups(s, at + 1, s[at], n + s[at] % 128 * Pow2(bits), bits + 7)
  }

  function ReadInt(s: seq<Octet>, at: nat, w: Width): Reading<int> {
    if at >= |s| then Eof
    else
      var r := ReadGroups(s, at + 1, s[at], s[at] % 64, 6);
      match r
      case Got(u, next) => Got(Signed(if s[at] / 64 % 2 == 1 then Pow2(Bits(w)) - 1 - u else u, w), next)
      case Eof => Eof
      case Malformed => Malformed
  }

  lemma {:induction false} Pow2Add(m: nat, n: nat)
    ensures Pow2(m + n) == Pow2(m) * Pow2(n)
  {
    if m > 0 {
      Pow2Add(m - 1, n);
    }
  }

  lemma {:induction false} Pow2Less(m: nat, n: nat)
    requires m <= n
    ensures Pow2(m) <= Pow2(n)
    decreases n - m
  {
    if m < n {
      Pow2Less(m + 1, n);
    }
  }

  lemma Pow2Seven(n: nat)
    ensures Pow2(n + 7) == 128 * Pow2(n)
  {
    Pow2Add(7, n);
    assert Pow2(7) == 128;
  }

  // Reading the groups gives back the number, in the higher bits.
  lemma {:induction false} GroupsRead(pre: seq<Octet>, u: nat, b: nat, post: seq<Octet>, n: nat, bits: nat)
    requires b < 128
    ensures var s, g := pre + Groups(u, b) + post, Groups(u, b);
            ReadGroups(s, |pre| + 1, g[0], n, bits) == Got(n + u * Pow2(bits), |pre| + |g|)
    decreases u
  {
    var g := Groups(u, b);
    var s := pre + g + post;
    if u > 0 {
      var g' := Groups(u / 128, u % 128);
      assert s == (pre + [g[0]]) + g' + post;
      assert g'[0] % 128 == u % 128 && s[|pre| + 1] == g'[0];
      GroupsRead(pre + [g[0]], u / 128, u % 128, post, n + u % 128 * Pow2(bits), bits + 7);
      Pow2Seven(bits);
      Regroup(u, Pow2(bits));
    }
  }

  lemma Regroup(u: nat, p: nat)
    ensures u % 128 * p + u / 128 * (128 * p) == u * p
  {
    assert u == u % 128 + u / 128 * 128;
  }

  // What reading makes of the code of any number: its low bits.
  lemma IntRead(pre: seq<Octet>, n: int, post: seq<Octet>, w: Width)
    ensures ReadInt(pre + Code(n) + post, |pre|, w) ==
            Got(Signed(if n < 0 then Pow2(Bits(w)) - 1 - Magnitude(n) else n, w), |pre| + |Code(n)|)
  {
    var u := Magnitude(n);
    var b := u % 64 + if n < 0 then 64 else 0;
    var g := Groups(u / 64, b);
    var s := pre + g + post;
    GroupsFirst(u / 64, b);
    assert Code(n) == g && Pow2(6) == 64;
    hide Groups, ReadGroups, Pow2, Signed, Bits, Code, ReadInt;
    assert s[|pre|] == g[0];
    FirstOctet(g[0], u % 64, n < 0);
    GroupsRead(pre, u / 64, b, post, u % 64, 6);
    assert u % 64 + u / 64 * 64 == u;
    ReadIntIs(s, |pre|, w, u, |pre| + |g|);
  }

  lemma ReadIntIs(s: seq<Octet>, at: nat, w: Width, u: nat, next: nat)
    requires at < |s| && ReadGroups(s, at + 1, s[at], s[at] % 64, 6) == Got(u, next)
    ensures ReadInt(s, at, w) == Got(Signed(if s[at] / 64 % 2 == 1 then Pow2(Bits(w)) - 1 - u else u, w), next)
  {
    hide ReadGroups, Pow2, Signed, Bits;
  }

  lemma GroupsFirst(u: nat, b: nat)
    requires b < 128
    ensures var g := Groups(u, b); |g| > 0 && g[0] % 128 == b
  {
  }

  lemma SignedFits(n: int, w: Width)
    ensures Fits(Signed(n, w), w)
  {
    assert Pow2(Bits(w)) == 2 * Pow2(Bits(w) - 1);
    hide Pow2, Bits;
  }

  // A number that was written with any width, and fits the width it is read with, is read
  // back, and nothing else is consumed: the code ends itself.
  lemma IntRoundTrip(pre: seq<Octet>, n: int, post: seq<Octet>, w: Width)
    requires Fits(n, w)
    ensures ReadInt(pre + Code(n) + post, |pre|, w) == Got(n, |pre| + |Code(n)|)
  {
    hide ReadInt, Code, Signed, Pow2;
    IntRead(pre, n, post, w);
    SignedIs(n, Magnitude(n), w);
  }

  lemma FirstOctet(o: nat, low: nat, negative: bool)
    requires low < 64 && o < 256 && o % 128 == low + if negative then 64 else 0
    ensures o % 64 == low && o / 64 % 2 == if negative then 1 else 0
  {
  }

  lemma SignedIs(n: int, u: nat, w: Width)
    requires Fits(n, w) && u == Magnitude(n)
    ensures Signed(if n < 0 then Pow2(Bits(w)) - 1 - u else u, w) == n
  {
    assert Pow2(Bits(w)) == 2 * Pow2(Bits(w) - 1);
    if n < 0 {
      ModSmall(Pow2(Bits(w)) + n, Pow2(Bits(w)));
    } else {
      ModSmall(n, Pow2(Bits(w)));
    }
  }

  lemma ModSmall(a: int, m: int)
    requires 0 <= a < m
    ensures a % m == a
  {
  }

  // The octets that are reserved for a number are enough.
  lemma {:induction false} GroupsFit(u: nat, b: nat, k: nat)
    requires b < 128 && u < Pow2(7 * k)
    ensures |Groups(u, b)| <= k + 1
  {
    if u > 0 {
      Pow2Seven(7 * (k - 1));
      GroupsFit(u / 128, u % 128, k - 1);
    }
  }

  lemma CodeFits(n: int, w: Width)
    requires Fits(n, w)
    ensures 1 <= |Code(n)| <= MaxOctets(w)
  {
    var u, k := Magnitude(n), MaxOctets(w) - 1;
    Pow2Add(6, 7 * k);
    assert Pow2(6) == 64;
    Pow2Less(Bits(w) - 1, 6 + 7 * k);
    assert u / 64 < Pow2(7 * k);
    GroupsFit(u / 64, u % 64 + if n < 0 then 64 else 0, k);
  }

  lemma DivTwice(u: nat, a: nat, p: nat)
    requires a > 0 && p > 0
    ensures a * p > 0 && u / a / p == u / (a * p)
  {
    var v := u / a;
    DivTwiceParts(u, a, p, v, u % a, v / p, v % p);
  }

  lemma DivTwiceParts(u: nat, a: nat, p: nat, v: nat, low: nat, q: nat, r: nat)
    requires a > 0 && p > 0 && u == v * a + low && low < a && v == q * p + r && r < p
    ensures a * p > 0 && u / (a * p) == q
  {
    assert (q * p + r) * a == q * (a * p) + r * a;
    Product(p - 1 - r, a);
    assert (p - 1 - r) * a == a * p - a - r * a;
    Product(a, p);
    assert a * p >= a by {
      Product(a, p - 1);
    }
    Quotient(u, a * p, q, r * a + low);
  }

  lemma Product(a: nat, b: nat)
    ensures a * b >= 0
  {
  }

  lemma Quotient(u: nat, d: nat, q: nat, r: nat)
    requires u == q * d + r && r < d
    ensures u / d == q
  {
    var e := u / d - q;
    assert e * d == r - u % d;
    assert e == 0;
  }

  lemma {:induction false} GroupsLayout(u: nat, b: nat, k: nat)
    requires b < 128 && k < |Groups(u, b)|
    ensures var g := Groups(u, b); g[k] >= 128 <==> k < |g| - 1
    ensures Groups(u, b)[k] % 128 == if k == 0 then b else u / Pow2(7 * (k - 1)) % 128
    decreases k
  {
    if k > 0 {
      GroupsLayout(u / 128, u % 128, k - 1);
      if k > 1 {
        Pow2Seven(7 * (k - 2));
        DivTwice(u, 128, Pow2(7 * (k - 2)));
      }
    } else if u > 0 {
      GroupsFirst(u / 128, u % 128);
    }
  }

  // Where the bits of a number are: the six low ones and the sign in the first octet, and then
  // seven by seven, from the low ones to the high ones; every octet but the last has its eighth
  // bit set.
  lemma CodeLayout(n: int, k: nat)
    requires k < |Code(n)|
    ensures Code(n)[k] >= 128 <==> k < |Code(n)| - 1
    ensures var u := if n < 0 then -n - 1 else n;
            Code(n)[k] % 128 ==
            if k == 0 then u % 64 + (if n < 0 then 64 else 0)
            else u / (64 * Pow2(7 * (k - 1))) % 128
  {
    var u := Magnitude(n);
    GroupsLayout(u / 64, u % 64 + if n < 0 then 64 else 0, k);
    if k > 0 {
      DivTwice(u, 64, Pow2(7 * (k - 1)));
    }
  }

  lemma CodeExamples()
    ensures Code(0) == [0] && Code(63) == [63] && Code(64) == [0x80, 1] && Code(8192) == [0x80, 0x80, 1]
    ensures Code(-1) == [0x40] && Code(-64) == [0x7F] && Code(-65) == [0xC0, 1]
  {
  }

  predicate EndsAt(s: seq<Octet>, k: nat) {
    k >= |s| || s[k] < 128
  }

  // The number at `at` ends, or the octets do, within what is enough for its width.  What
  // is longer would be shifted out of it.
  ghost predicate Short(s: seq<Octet>, at: nat, w: Width) {
    exists k :: at <= k < at + MaxOctets(w) && EndsAt(s, k)
  }

  lemma {:induction false} GroupsEndLow(u: nat, b: nat)
    requires b < 128
    ensures var g := Groups(u, b); g != [] && g[|g| - 1] < 128
  {
    if u > 0 {
      GroupsEndLow(u / 128, u % 128);
    }
  }

  lemma CodeShort(pre: seq<Octet>, n: int, post: seq<Octet>, w: Width)
    requires |Code(n)| <= MaxOctets(w)
    ensures Short(pre + Code(n) + post, |pre|, w)
  {
    var u := Magnitude(n);
    GroupsEndLow(u / 64, u % 64 + if n < 0 then 64 else 0);
    hide Groups;
    var s, k := pre + Code(n) + post, |pre| + |Code(n)| - 1;
    assert s[k] == Code(n)[k - |pre|];
    assert EndsAt(s, k);
  }

  // The code does not depend on the width that it is written with, and no code is the
  // beginning of another one.
  lemma CodeUnique(m: int, n: int, restOfM: seq<Octet>, restOfN: seq<Octet>, w: Width)
    requires Fits(m, w) && Fits(n, w) && Code(m) + restOfM == Code(n) + restOfN
    ensures m == n
  {
    hide Code, ReadInt;
    IntRoundTrip([], m, restOfM, w);
    IntRoundTrip([], n, restOfN, w);
    assert [] + Code(m) + restOfM == Code(m) + restOfM && [] + Code(n) + restOfN == Code(n) + restOfN;
  }

  // ----- characters ----------------------------------------------------------

  type Char16 = c: int | 0 <= c < 0x10000

  function CharCode(c: Char16): seq<Octet> {
    if c <= 0x7F then [c]
    else if c <= 0x7FF then [0xC0 + c / 64 % 32, 0x80 + c % 64]
    else [0xE0 + c / 4096 % 16, 0x80 + c / 64 % 64, 0x80 + c % 64]
  }

  predicate Continues(b: Octet) {
    b / 64 == 2
  }

  function Low(b: Octet): nat {
    b % 64
  }

  function ReadChar(s: seq<Octet>, at: nat): Reading<Char16> {
    if at >= |s| then Eof
    else
      var b: int := s[at];
      var kind := b / 16;
      if kind <= 7 then Got(b, at + 1)
      else if kind == 0xC || kind == 0xD then
        if at + 1 >= |s| then Eof
        else if !Continues(s[at + 1]) then Malformed
        else Got(b % 32 * 64 + Low(s[at + 1]), at + 2)
      else if kind == 0xE then
        if at + 2 >= |s| then Eof
        else if !Continues(s[at + 1]) || !Continues(s[at + 2]) then Malformed
        else Got(b % 16 * 4096 + Low(s[at + 1]) * 64 + Low(s[at + 2]), at + 3)
      else Malformed
  }

  // Every character comes back, lone surrogates included.
  lemma CharRoundTrip(pre: seq<Octet>, c: Char16, post: seq<Octet>)
    ensures ReadChar(pre + CharCode(c) + post, |pre|) == Got(c, |pre| + |CharCode(c)|)
    ensures |CharCode(c)| == if c <= 0x7F then 1 else if c <= 0x7FF then 2 else 3
  {
    var s, g := pre + CharCode(c) + post, CharCode(c);
    assert s[|pre|] == g[0] && (|g| > 1 ==> s[|pre| + 1] == g[1]) && (|g| > 2 ==> s[|pre| + 2] == g[2]);
    if c > 0x7FF {
      ThreeOctets(c);
    } else if c > 0x7F {
      TwoOctets(c);
    }
  }

  // The first difference decides.
  predicate Before(s: seq<Octet>, t: seq<Octet>) {
    t != [] && (s == [] || s[0] < t[0] || (s[0] == t[0] && Before(s[1..], t[1..])))
  }

  lemma BeforeTwo(s: seq<Octet>, t: seq<Octet>)
    requires |s| == |t| == 2
    ensures Before(s, t) <==> s[0] < t[0] || (s[0] == t[0] && s[1] < t[1])
  {
    var s', t' := s[1..], t[1..];
    assert s'[0] == s[1] && t'[0] == t[1] && s'[1..] == [] && t'[1..] == [];
    assert Before(s', t') <==> s[1] < t[1];
  }

  lemma BeforeThree(s: seq<Octet>, t: seq<Octet>)
    requires |s| == |t| == 3
    ensures Before(s, t) <==> s[0] < t[0] || (s[0] == t[0] && (s[1] < t[1] || (s[1] == t[1] && s[2] < t[2])))
  {
    BeforeTwo(s[1..], t[1..]);
  }

  lemma ThreeDigits(c: nat, d: nat)
    ensures c < d <==>
            || c / 4096 < d / 4096
            || (c / 4096 == d / 4096
                && (c / 64 % 64 < d / 64 % 64 || (c / 64 % 64 == d / 64 % 64 && c % 64 < d % 64)))
  {
    assert c / 64 / 64 == c / 4096 && d / 64 / 64 == d / 4096;
  }

  // The octets of characters are in the order of the characters.
  lemma CharOrder(c: Char16, d: Char16)
    ensures Before(CharCode(c), CharCode(d)) <==> c < d
  {
    var s, t := CharCode(c), CharCode(d);
    if 0x7F < c <= 0x7FF && 0x7F < d <= 0x7FF {
      BeforeTwo(s, t);
      hide Before;
      assert s[0] - 0xC0 == c / 64 && t[0] - 0xC0 == d / 64;
    } else if c > 0x7FF && d > 0x7FF {
      BeforeThree(s, t);
      hide Before;
      ThreeDigits(c, d);
      assert s[0] - 0xE0 == c / 4096 && t[0] - 0xE0 == d / 4096;
    }
  }

  lemma CharExamples()
    ensures CharCode(0x41) == [0x41] && CharCode(0xE9) == [0xC3, 0xA9] && CharCode(0x20AC) == [0xE2, 0x82, 0xAC]
    ensures CharCode(0xD800) == [0xED, 0xA0, 0x80]
  {
  }

  // What reading a character makes of any octets: it wants one, two or three, by the first, and
  // all but the first must be those that continue a character.
  lemma ReadCharExactly(s: seq<Octet>, at: nat)
    requires at < |s|
    ensures var r, b: int := ReadChar(s, at), s[at];
            if b < 0x80 then r == Got(b, at + 1)
            else if 0xC0 <= b < 0xE0 then
              if at + 1 >= |s| then r == Eof
              else if 0x80 <= s[at + 1] < 0xC0 then r == Got((b - 0xC0) * 64 + (s[at + 1] as int - 0x80), at + 2)
              else r == Malformed
            else if 0xE0 <= b < 0xF0 then
              if at + 2 >= |s| then r == Eof
              else if 0x80 <= s[at + 1] < 0xC0 && 0x80 <= s[at + 2] < 0xC0 then
                r == Got((b - 0xE0) * 4096 + (s[at + 1] as int - 0x80) * 64 + (s[at + 2] as int - 0x80), at + 3)
              else r == Malformed
            else r == Malformed
  {
  }

  lemma TwoOctets(c: nat)
    requires 0x7F < c <= 0x7FF
    ensures var a, b := 0xC0 + c / 64 % 32, 0x80 + c % 64;
            a < 256 && a / 16 in {0xC, 0xD} && Continues(b) && a % 32 * 64 + b % 64 == c
  {
  }

  lemma ThreeOctets(c: nat)
    requires 0x7FF < c < 0x10000
    ensures var a, b, d := 0xE0 + c / 4096 % 16, 0x80 + c / 64 % 64, 0x80 + c % 64;
            a < 256 && a / 16 == 0xE && Continues(b) && Continues(d) && a % 16 * 4096 + b % 64 * 64 + d % 64 == c
  {
    assert c == c / 4096 * 4096 + c / 64 % 64 * 64 + c % 64;
  }

  // ----- strings -------------------------------------------------------------

  datatype Text = NoText | Text(octets: seq<Octet>)

  function TextCode(t: Text): seq<Octet> {
    if t.NoText? then Code(-1) else Code(|t.octets|) + t.octets
  }

  function ReadText(s: seq<Octet>, at: nat): Reading<Text> {
    match ReadInt(s, at, W32)
    case Got(n, next) =>
      if n < 0 then Got(NoText, next)
      else if n == 0 then Got(Text([]), next)
      else if next + n > |s| then Eof
      else Got(Text(s[next..next + n]), next + n)
    case Eof => Eof
    case Malformed => Malformed
  }

  lemma Pow2Is()
    ensures Pow2(31) == 0x8000_0000 && Pow2(32) == 0x1_0000_0000 && Pow2(32) <= Pow2(63)
  {
    assert Pow2(8) == 256;
    Pow2Add(8, 8);
    assert Pow2(15) * 2 == Pow2(16);
    Pow2Less(32, 63);
    assert Pow2(32) == 2 * Pow2(31);
    hide Pow2;
    Pow2Add(16, 15);
  }

  lemma LengthFits(n: nat)
    ensures Fits(n, W32) <==> n < 0x8000_0000
    ensures n < 0x1_0000_0000 ==> Fits(n, W64)
    ensures Fits(-1, W32) && Fits(-1, W64)
  {
    hide Pow2;
    Pow2Is();
  }

  // A string comes back if its length fits the 32 bits that it is read with; so does none.
  lemma TextRoundTrip(pre: seq<Octet>, t: Text, post: seq<Octet>)
    requires t.Text? ==> |t.octets| < 0x8000_0000
    ensures ReadText(pre + TextCode(t) + post, |pre|) == Got(t, |pre| + |TextCode(t)|)
  {
    hide Code, ReadInt, Fits;
    if t.NoText? {
      LengthFits(0);
      IntRoundTrip(pre, -1, post, W32);
    } else {
      var n := |t.octets|;
      LengthFits(n);
      IntRoundTrip(pre, n, t.octets + post, W32);
      var s := pre + TextCode(t) + post;
      assert s == pre + Code(n) + (t.octets + post);
      var next := |pre| + |Code(n)|;
      assert s[next..next + n] == t.octets;
    }
  }

  // The length of any string has a short code, whatever width it is written with.
  lemma LengthShort(n: nat)
    requires n < 0x1_0000_0000
    ensures |Code(n)| <= MaxOctets(W32)
  {
    Pow2Is();
    Pow2Less(26, 28);
    Pow2Add(6, 26);
    assert Pow2(6) == 64;
    hide Pow2;
    GroupsFit(n / 64, n % 64, 4);
  }

  // A longer one comes back as none at all: its length, which is written with 64 bits, is
  // read as a negative number.
  lemma TextTooLong(pre: seq<Octet>, t: Text, post: seq<Octet>)
    requires t.Text? && 0x8000_0000 <= |t.octets| < 0x1_0000_0000
    ensures Short(pre + TextCode(t) + post, |pre|, W32)
    ensures ReadText(pre + TextCode(t) + post, |pre|) == Got(NoText, |pre| + |Code(|t.octets|)|)
  {
    var n := |t.octets|;
    var s := pre + TextCode(t) + post;
    assert s == pre + Code(n) + (t.octets + post);
    LengthShort(n);
    CodeShort(pre, n, t.octets + post, W32);
    IntRead(pre, n, t.octets + post, W32);
    Pow2Is();
    hide Pow2, Code, ReadInt;
    ModSmall(n, 0x1_0000_0000);
  }

  // So a string comes back exactly if its length has no more than 31 bits.
  lemma TextReadBack(pre: seq<Octet>, t: Text, post: seq<Octet>)
    requires t.Text? ==> |t.octets| < 0x1_0000_0000
    ensures ReadText(pre + TextCode(t) + post, |pre|) == Got(t, |pre| + |TextCode(t)|)
       <==> (t.Text? ==> |t.octets| < 0x8000_0000)
  {
    if t.Text? && |t.octets| >= 0x8000_0000 {
      TextTooLong(pre, t, post);
    } else {
      TextRoundTrip(pre, t, post);
    }
  }

  // What the writer makes of a string that takes its length for a number of 32 bits.
  function NarrowTextCode(t: Text): seq<Octet> {
    match t
    case NoText => Code(-1)
    case Text(octets) => Code(Signed(|octets|, W32)) + octets
  }

  // The two writers agree exactly on the strings that are read back.
  lemma TextCodesAgree(t: Text)
    requires t.Text? ==> |t.octets| < 0x1_0000_0000
    ensures NarrowTextCode(t) == TextCode(t) <==> (t.Text? ==> |t.octets| < 0x8000_0000)
  {
    if t.Text? {
      var n := |t.octets|;
      var m := Signed(n, W32);
      Pow2Is();
      hide Pow2;
      ModSmall(n, 0x1_0000_0000);
      LengthFits(n);
      hide Code;
      if n >= 0x8000_0000 && NarrowTextCode(t) == TextCode(t) {
        assert m == n - 0x1_0000_0000;
        assert Fits(m, W64) by {
          Pow2Is();
        }
        CodeUnique(m, n, t.octets, t.octets, W64);
        assert false;
      }
    }
  }

  // ----- lists of values -----------------------------------------------------

  datatype Value = Number(n: int, width: Width) | Char(c: Char16) | String(t: Text)

  // What is read in the place of a value.
  datatype Kind = NumberOf(width: Width) | CharOf | StringOf

  function KindOf(v: Value): Kind {
    match v
    case Number(_, width) => NumberOf(width)
    case Char(_) => CharOf
    case String(_) => StringOf
  }

  predicate Writable(v: Value) {
    match v
    case Number(n, width) => Fits(n, width)
    case Char(_) => true
    case String(t) => t.Text? ==> |t.octets| < 0x8000_0000
  }

  function ValueCode(v: Value): seq<Octet> {
    match v
    case Number(n, _) => Code(n)
    case Char(c) => CharCode(c)
    case String(t) => TextCode(t)
  }

  function ReadValue(s: seq<Octet>, at: nat, kind: Kind): Reading<Value> {
    match kind
    case NumberOf(width) => (
      match ReadInt(s, at, width)
      case Got(n, next) => Got(Number(n, width), next)
      case Eof => Eof
      case Malformed => Malformed
    )
    case CharOf => (
      match ReadChar(s, at)
      case Got(c, next) => Got(Char(c), next)
      case Eof => Eof
      case Malformed => Malformed
    )
    case StringOf => (
      match ReadText(s, at)
      case Got(t, next) => Got(String(t), next)
      case Eof => Eof
      case Malformed => Malformed
    )
  }

  function ListCode(vs: seq<Value>): seq<Octet> {
    if vs == [] then [] else ListCode(vs[..|vs| - 1]) + ValueCode(vs[|vs| - 1])
  }

  function Kinds(vs: seq<Value>): seq<Kind> {
    seq(|vs|, i requires 0 <= i < |vs| => KindOf(vs[i]))
  }

  function ReadList(s: seq<Octet>, at: nat, kinds: seq<Kind>): Reading<seq<Value>>
    decreases |kinds|
  {
    if kinds == [] then Got([], at)
    else
      match ReadList(s, at, kinds[..|kinds| - 1])
      case Got(vs, next) => (
        match ReadValue(s, next, kinds[|kinds| - 1])
        case Got(v, end) => Got(vs + [v], end)
        case Eof => Eof
        case Malformed => Malformed
      )
      case Eof => Eof
      case Malformed => Malformed
  }

  ghost predicate ShortValue(s: seq<Octet>, at: nat, kind: Kind) {
    match kind
    case NumberOf(width) => Short(s, at, width)
    case CharOf => true
    case StringOf => Short(s, at, W32)
  }

  lemma ValueShort(pre: seq<Octet>, v: Value, post: seq<Octet>)
    requires Writable(v)
    ensures ShortValue(pre + ValueCode(v) + post, |pre|, KindOf(v))
  {
    hide Code, Short, Fits;
    match v
    case Number(n, width) =>
      CodeFits(n, width);
      CodeShort(pre, n, post, width);
    case Char(_) =>
    case String(t) =>
      var n := if t.Text? then |t.octets| else -1;
      LengthFits(if t.Text? then |t.octets| else 0);
      CodeFits(n, W32);
      var octets := if t.Text? then t.octets else [];
      assert pre + ValueCode(v) + post == pre + Code(n) + (octets + post);
      CodeShort(pre, n, octets + post, W32);
  }

  lemma ValueRoundTrip(pre: seq<Octet>, v: Value, post: seq<Octet>)
    requires Writable(v)
    ensures ReadValue(pre + ValueCode(v) + post, |pre|, KindOf(v)) == Got(v, |pre| + |ValueCode(v)|)
  {
    match v
    case Number(n, width) => IntRoundTrip(pre, n, post, width);
    case Char(c) => CharRoundTrip(pre, c, post);
    case String(t) => TextRoundTrip(pre, t, post);
  }

  lemma ReadOneMore(s: seq<Octet>, at: nat, most: seq<Value>, v: Value, next: nat, end: nat)
    requires ReadList(s, at, Kinds(most)) == Got(most, next) && ReadValue(s, next, KindOf(v)) == Got(v, end)
    ensures ReadList(s, at, Kinds(most + [v])) == Got(most + [v], end)
  {
    var kinds := Kinds(most + [v]);
    assert kinds[..|kinds| - 1] == Kinds(most) && kinds[|kinds| - 1] == KindOf(v);
    hide ReadValue, KindOf;
  }

  lemma CodeOneMore(most: seq<Value>, v: Value)
    ensures ListCode(most + [v]) == ListCode(most) + ValueCode(v)
  {
    assert (most + [v])[..|most|] == most;
    hide ValueCode;
  }

  // Any list of values comes back, and exactly its own octets are consumed.
  lemma {:induction false} ListRoundTrip(pre: seq<Octet>, vs: seq<Value>, post: seq<Octet>)
    requires forall i :: 0 <= i < |vs| ==> Writable(vs[i])
    ensures ReadList(pre + ListCode(vs) + post, |pre|, Kinds(vs)) == Got(vs, |pre| + |ListCode(vs)|)
    decreases |vs|
  {
    if vs != [] {
      var most, v := vs[..|vs| - 1], vs[|vs| - 1];
      assert vs == most + [v];
      hide ListCode, ValueCode, ReadValue, Writable, Kinds, ReadList;
      var code, last := ListCode(most), ValueCode(v);
      ListRoundTrip(pre, most, last + post);
      ValueRoundTrip(pre + code, v, post);
      CodeOneMore(most, v);
      ThreeWays(pre, code, last, post);
      ReadOneMore(pre + (code + last) + post, |pre|, most, v, |pre + code|, |pre + code| + |last|);
    } else {
      assert Kinds(vs) == [];
    }
  }

  lemma ThreeWays(a: seq<Octet>, b: seq<Octet>, c: seq<Octet>, d: seq<Octet>)
    ensures a + (b + c) + d == a + b + (c + d) == (a + b) + c + d
  {
  }
}
