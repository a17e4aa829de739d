// Strings kept as octets: walking over them character by character, in both directions,
// and what the searches and the comparison on octets say about the characters.
module Utf8 {
  import opened Codec

  ghost function Encode(cs: seq<Char16>): seq<Octet> {
    if cs == [] then [] else Encode(cs[..|cs| - 1]) + CharCode(cs[|cs| - 1])
  }

  lemma Assoc(a: seq<Octet>, b: seq<Octet>, c: seq<Octet>)
    ensures (a + b) + c == a + (b + c)
  {
  }

  lemma EncodeLast(cs: seq<Char16>, c: Char16)
    ensures Encode(cs + [c]) == Encode(cs) + CharCode(c)
  {
    assert (cs + [c])[..|cs|] == cs;
    hide CharCode;
  }

  lemma {:induction false} EncodeConcat(a: seq<Char16>, b: seq<Char16>)
    ensures Encode(a + b) == Encode(a) + Encode(b)
    decreases |b|
  {
    assert Encode([]) == [];
    hide Encode, CharCode;
    if b == [] {
      assert a + b == a;
    } else {
      var most, last := b[..|b| - 1], b[|b| - 1];
      assert a + b == (a + most) + [last] && b == most + [last];
      EncodeConcat(a, most);
      EncodeLast(a + most, last);
      EncodeLast(most, last);
      Assoc(Encode(a), Encode(most), CharCode(last));
    }
  }

  lemma EncodeOne(c: Char16)
    ensures Encode([c]) == CharCode(c)
  {
    assert [c][..0] == [];
  }

  // Where the character `k` begins.
  ghost function Place(cs: seq<Char16>, k: nat): nat {
    if k <= |cs| then |Encode(cs[..k])| else 0
  }

  // What is where: the characters before `k`, the one at `k`, and those after it.
  lemma Split(cs: seq<Char16>, k: nat)
    requires k < |cs|
    ensures Encode(cs) == Encode(cs[..k]) + CharCode(cs[k]) + Encode(cs[k + 1..])
    ensures Place(cs, k + 1) == Place(cs, k) + |CharCode(cs[k])|
  {
    assert cs == (cs[..k] + [cs[k]]) + cs[k + 1..] && cs[..k + 1] == cs[..k] + [cs[k]];
    EncodeConcat(cs[..k] + [cs[k]], cs[k + 1..]);
    EncodeConcat(cs[..k], [cs[k]]);
    EncodeOne(cs[k]);
  }

  lemma PlaceEnds(cs: seq<Char16>)
    ensures Place(cs, 0) == 0 && Place(cs, |cs|) == |Encode(cs)|
  {
    assert cs[..0] == [] && cs[..|cs|] == cs;
  }

  // The octets of a string and what ends it.
  ghost function Raw(cs: seq<Char16>): seq<Octet> {
    Encode(cs) + [0]
  }

  lemma Middle(pre: seq<Octet>, g: seq<Octet>, post: seq<Octet>)
    ensures var raw := pre + g + post;
            && |raw| == |pre| + |g| + |post| && raw[|pre|..|pre| + |g|] == g && raw[|pre| + |g|..] == post
            && forall i :: 0 <= i < |g| ==> raw[|pre| + i] == g[i]
  {
  }

  lemma RawSplit(cs: seq<Char16>, k: nat)
    requires k < |cs|
    ensures Raw(cs) == Encode(cs[..k]) + CharCode(cs[k]) + (Encode(cs[k + 1..]) + [0])
    ensures Place(cs, k) == |Encode(cs[..k])| && Place(cs, k + 1) == Place(cs, k) + |CharCode(cs[k])|
  {
    Split(cs, k);
    hide Encode, CharCode;
    Assoc(Encode(cs[..k]) + CharCode(cs[k]), Encode(cs[k + 1..]), [0]);
  }

  // Reading at the place of a character gives the character and leads to the next place.
  lemma ReadAt(cs: seq<Char16>, k: nat)
    requires k < |cs|
    ensures ReadChar(Raw(cs), Place(cs, k)) == Got(cs[k], Place(cs, k + 1))
  {
    RawSplit(cs, k);
    hide Encode, Raw, Place, CharCode, ReadChar;
    CharRoundTrip(Encode(cs[..k]), cs[k], Encode(cs[k + 1..]) + [0]);
  }

  // ----- walking -------------------------------------------------------------

  // The character at `at`, and where the next one is.
  method Next(raw: seq<Octet>, at: nat) returns (c: Char16, next: nat)
    requires ReadChar(raw, at).Got?
    ensures ReadChar(raw, at) == Got(c, next) && at < next
  {
    var b: int := raw[at];
    match b / 16 {
      case 0xE =>
        c := b % 16 * 4096 + Low(raw[at + 1]) * 64 + Low(raw[at + 2]);
        next := at + 3;
      case 0xD =>
        c := b % 32 * 64 + Low(raw[at + 1]);
        next := at + 2;
      case 0xC =>
        c := b % 32 * 64 + Low(raw[at + 1]);
        next := at + 2;
      case _ =>
        c := b % 128;
        next := at + 1;
    }
  }

  method NextAt(raw: seq<Octet>, at: nat, ghost cs: seq<Char16>, ghost k: nat) returns (c: Char16, next: nat)
    requires raw == Raw(cs) && k < |cs| && at == Place(cs, k)
    ensures c == cs[k] && next == Place(cs, k + 1)
  {
    ReadAt(cs, k);
    hide Encode, Place, Raw, ReadChar;
    c, next := Next(raw, at);
  }

  // What the octets of a character say when they are read backwards.
  lemma CodeBackwards(c: Char16)
    ensures var g := CharCode(c);
            && (|g| == 1 ==> g[0] == c < 0x80)
            && (|g| == 2 ==> Continues(g[1]) && g[0] / 32 == 6 && Joined2(g[0], g[1]) == c)
            && (|g| == 3 ==> Continues(g[2]) && Continues(g[1]) && g[0] / 16 == 0xE && Joined3(g[0], g[1], g[2]) == c)
            && 1 <= |g| <= 3
  {
    if c > 0x7FF {
      ThreeOctets(c);
    } else if c > 0x7F {
      TwoOctets(c);
    }
  }

  function Joined2(a: int, b: Octet): int {
    a % 32 * 64 + Low(b)
  }

  function Joined3(a: int, b: Octet, c: Octet): int {
    a % 16 * 4096 + Low(b) * 64 + Low(c)
  }

  // The octets of the character at `k`, and that the others begin where it ends.
  lemma OctetsAt(cs: seq<Char16>, k: nat)
    requires k < |cs|
    ensures var at, g := Place(cs, k), CharCode(cs[k]);
            && Place(cs, k + 1) == at + |g| && at + |g| < |Raw(cs)|
            && forall i :: 0 <= i < |g| ==> Raw(cs)[at + i] == g[i]
  {
    hide Encode, Raw, Place, CharCode;
    RawSplit(cs, k);
    var pre, g, post := Encode(cs[..k]), CharCode(cs[k]), Encode(cs[k + 1..]) + [0];
    assert |post| > 0;
    Middle(pre, g, post);
  }

  lemma OctetsBefore(cs: seq<Char16>, k: nat, g: seq<Octet>)
    requires 0 < k <= |cs| && g == CharCode(cs[k - 1])
    ensures var raw, at := Raw(cs), Place(cs, k);
            && |g| <= at < |raw| && Place(cs, k - 1) == at - |g|
            && (|g| >= 1 ==> raw[at - 1] == g[|g| - 1])
            && (|g| >= 2 ==> raw[at - 2] == g[|g| - 2])
            && (|g| >= 3 ==> raw[at - 3] == g[|g| - 3])
  {
    OctetsAt(cs, k - 1);
    hide Encode, Place, Raw, CharCode;
    var raw, at := Raw(cs), Place(cs, k - 1);
    assert |g| >= 1 ==> raw[at + (|g| - 1)] == g[|g| - 1];
    assert |g| >= 2 ==> raw[at + (|g| - 2)] == g[|g| - 2];
    assert |g| >= 3 ==> raw[at + (|g| - 3)] == g[|g| - 3];
  }

  // The character before `at`, and where it begins: `Next` undone.
  method Prev(raw: seq<Octet>, at: nat, ghost cs: seq<Char16>, ghost k: nat) returns (c: Char16, prev: nat)
    requires raw == Raw(cs) && 0 < k <= |cs| && at == Place(cs, k)
    ensures c == cs[k - 1] && prev == Place(cs, k - 1)
  {
    CodeBackwards(cs[k - 1]);
    ghost var g := CharCode(cs[k - 1]);
    hide Encode, Place, Raw, CharCode, Joined2, Joined3;
    OctetsBefore(cs, k, g);
    prev := at - 1;
    if raw[prev] < 0x80 {
      return raw[prev], prev;
    }
    if Continues(raw[prev]) {
      prev := prev - 1;
      if raw[prev] / 32 == 6 {
        return Joined2(raw[prev], raw[prev + 1]), prev;
      } else if Continues(raw[prev]) {
        prev := prev - 1;
        if raw[prev] / 16 == 0xE {
          return Joined3(raw[prev], raw[prev + 1], raw[prev + 2]), prev;
        }
      }
    }
    assert false; // IllegalArgumentException: not a character of the basic plane
  }

  // ----- skipping ------------------------------------------------------------

  ghost predicate AllAscii(cs: seq<Char16>) {
    forall i :: 0 <= i < |cs| ==> cs[i] < 0x80
  }

  lemma {:induction false} AsciiPlace(cs: seq<Char16>, k: nat)
    requires k <= |cs| && AllAscii(cs)
    ensures Place(cs, k) == k
  {
    if k == 0 {
      PlaceEnds(cs);
    } else {
      AsciiPlace(cs, k - 1);
      Split(cs, k - 1);
    }
  }

  // `n` characters further.
  method Skip(raw: seq<Octet>, at: nat, n: nat, ascii: bool, ghost cs: seq<Char16>, ghost k: nat) returns (to: nat)
    requires raw == Raw(cs) && k + n <= |cs| && at == Place(cs, k) && (ascii ==> AllAscii(cs))
    ensures to == Place(cs, k + n)
  {
    if ascii {
      AsciiPlace(cs, k);
      AsciiPlace(cs, k + n);
      return at + n;
    }
    to := at;
    for i := 0 to n
      invariant to == Place(cs, k + i)
    {
      FirstOctet(cs, k + i);
      hide Encode, Place, Raw;
      var b := raw[to];
      to := to + 1;
      if b >= 0x80 {
        to := to + 1;
        if b / 16 == 0xE {
          to := to + 1;
        }
      }
    }
  }

  // What the first octet of a character says about where the next one is.
  lemma FirstOctet(cs: seq<Char16>, k: nat)
    requires k < |cs|
    ensures Place(cs, k) < |Raw(cs)| && Place(cs, k + 1) < |Raw(cs)|
    ensures var b := Raw(cs)[Place(cs, k)];
            Place(cs, k + 1) == Place(cs, k) + if b < 0x80 then 1 else if b / 16 == 0xE then 3 else 2
    ensures !Continues(Raw(cs)[Place(cs, k)])
    ensures forall j :: Place(cs, k) < j < Place(cs, k + 1) ==> Continues(Raw(cs)[j])
  {
    OctetsAt(cs, k);
    CodeBackwards(cs[k]);
    var at, g := Place(cs, k), CharCode(cs[k]);
    hide Encode, Place, Raw, CharCode, Joined2, Joined3;
    assert Raw(cs)[at + 0] == g[0];
    forall j | at < j < Place(cs, k + 1)
      ensures Continues(Raw(cs)[j])
    {
      assert Raw(cs)[at + (j - at)] == g[j - at];
    }
  }

  // `n` characters back: over the octets that continue a character to its first.
  method Back(raw: seq<Octet>, at: nat, n: nat, ascii: bool, ghost cs: seq<Char16>, ghost k: nat) returns (to: nat)
    requires raw == Raw(cs) && n <= k <= |cs| && at == Place(cs, k) && (ascii ==> AllAscii(cs))
    ensures to == Place(cs, k - n)
  {
    if ascii {
      AsciiPlace(cs, k);
      AsciiPlace(cs, k - n);
      return at - n;
    }
    to := at;
    hide Encode, Place, Raw;
    for i := 0 to n
      invariant to == Place(cs, k - i)
    {
      FirstOctet(cs, k - i - 1);
      to := BackOne(raw, to, Place(cs, k - i - 1));
    }
  }

  method BackOne(raw: seq<Octet>, at: nat, ghost first: nat) returns (pos: nat)
    requires first < at <= |raw| && !Continues(raw[first]) && forall j :: first < j < at ==> Continues(raw[j])
    ensures pos == first
  {
    pos := at - 1;
    while Continues(raw[pos])
      invariant first <= pos < at
      decreases pos
    {
      pos := pos - 1;
    }
  }

  // ----- matching ------------------------------------------------------------

  lemma EncodeFirst(cs: seq<Char16>)
    requires cs != []
    ensures Encode(cs) == CharCode(cs[0]) + Encode(cs[1..]) && Encode(cs) != []
  {
    assert cs == [cs[0]] + cs[1..];
    EncodeConcat([cs[0]], cs[1..]);
    EncodeOne(cs[0]);
    CharRoundTrip([], cs[0], []);
  }

  lemma OneCode(c: Char16, d: Char16, u: seq<Octet>, v: seq<Octet>)
    requires CharCode(c) + u == CharCode(d) + v
    ensures c == d && u == v
  {
    CharRoundTrip([], c, u);
    CharRoundTrip([], d, v);
    hide CharCode, ReadChar;
    assert [] + CharCode(c) + u == CharCode(c) + u && [] + CharCode(d) + v == CharCode(d) + v;
    assert (CharCode(c) + u)[|CharCode(c)|..] == u && (CharCode(d) + v)[|CharCode(d)|..] == v;
  }

  lemma FirstCode(a: seq<Char16>, x: seq<Octet>)
    requires a != []
    ensures Encode(a) + x == CharCode(a[0]) + (Encode(a[1..]) + x)
  {
    EncodeFirst(a);
    hide Encode, CharCode;
    Assoc(CharCode(a[0]), Encode(a[1..]), x);
  }

  // Octets that begin with the code of characters begin with the code of no others.
  lemma {:induction false} SameFirst(a: seq<Char16>, b: seq<Char16>, x: seq<Octet>, y: seq<Octet>)
    requires Encode(a) + x == Encode(b) + y && |b| <= |a|
    ensures b == a[..|b|]
    decreases |b|
  {
    if b != [] {
      hide Encode, CharCode, ReadChar;
      FirstCode(a, x);
      FirstCode(b, y);
      OneCode(a[0], b[0], Encode(a[1..]) + x, Encode(b[1..]) + y);
      SameFirst(a[1..], b[1..], x, y);
      assert b == [b[0]] + b[1..] && a[..|b|] == [a[0]] + a[1..][..|b| - 1];
    }
  }

  // The octets at `at` are those of `search`.
  predicate Matches(raw: seq<Octet>, at: nat, search: seq<Octet>) {
    at + |search| <= |raw| && raw[at..at + |search|] == search
  }

  // The characters from `k` on begin with those of `b`.
  ghost predicate MatchesAt(a: seq<Char16>, k: nat, b: seq<Char16>) {
    k + |b| <= |a| && a[k..k + |b|] == b
  }

  // Comparing octets at the place of a character compares characters.
  lemma MatchIs(a: seq<Char16>, k: nat, b: seq<Char16>)
    requires k + |b| <= |a|
    ensures Place(a, k) <= |Raw(a)|
    ensures Matches(Raw(a), Place(a, k), Encode(b)) <==> MatchesAt(a, k, b)
  {
    RawFrom(a, k);
    hide Encode, Raw, Place, Matches, MatchesAt;
    if MatchesAt(a, k, b) {
      CharsMatch(a, k, b);
    }
    if Matches(Raw(a), Place(a, k), Encode(b)) {
      OctetsMatch(a, k, b);
    }
  }

  lemma CharsMatch(a: seq<Char16>, k: nat, b: seq<Char16>)
    requires MatchesAt(a, k, b)
    ensures Place(a, k) <= |Raw(a)| && Matches(Raw(a), Place(a, k), Encode(b))
  {
    hide Encode, Raw, Place;
    RawFrom(a, k);
    var after := a[k + |b|..];
    assert a[k..] == b + after;
    EncodeConcat(b, after);
    hide MatchesAt, Matches;
    Assoc(Encode(b), Encode(after), [0]);
    BeginsWith(Raw(a), Place(a, k), Encode(a[k..]) + [0], Encode(b), Encode(after) + [0]);
  }

  lemma OctetsMatch(a: seq<Char16>, k: nat, b: seq<Char16>)
    requires k + |b| <= |a| && Matches(Raw(a), Place(a, k), Encode(b))
    ensures MatchesAt(a, k, b)
  {
    hide Encode, Raw, Place, Matches;
    RawFrom(a, k);
    TailSlice(a, k, |b|);
    var tail, code := a[k..], Encode(b);
    var rest := Encode(tail) + [0];
    Begins(Raw(a), Place(a, k), rest, code);
    var more := rest[|code|..];
    SameFirst(tail, b, [0], more);
  }

  lemma TailSlice(a: seq<Char16>, k: nat, n: nat)
    requires k + n <= |a|
    ensures a[k..][..n] == a[k..k + n] && |a[k..]| == |a| - k
  {
  }

  lemma RawFrom(a: seq<Char16>, k: nat)
    requires k <= |a|
    ensures Place(a, k) <= |Raw(a)| && Raw(a)[Place(a, k)..] == Encode(a[k..]) + [0]
  {
    assert a == a[..k] + a[k..];
    EncodeConcat(a[..k], a[k..]);
    hide Encode;
    Assoc(Encode(a[..k]), Encode(a[k..]), [0]);
    Middle(Encode(a[..k]), [], Encode(a[k..]) + [0]);
    assert Encode(a[..k]) + [] == Encode(a[..k]);
  }

  lemma BeginsWith(raw: seq<Octet>, at: nat, rest: seq<Octet>, code: seq<Octet>, more: seq<Octet>)
    requires at <= |raw| && raw[at..] == rest == code + more
    ensures Matches(raw, at, code)
  {
    assert raw[at..at + |code|] == rest[..|code|];
  }

  lemma Begins(raw: seq<Octet>, at: nat, rest: seq<Octet>, code: seq<Octet>)
    requires at <= |raw| && raw[at..] == rest && Matches(raw, at, code)
    ensures |code| <= |rest| && rest == code + rest[|code|..]
  {
    assert rest[..|code|] == raw[at..at + |code|];
  }

  // The first `j` octets at `at` are those of `search`.
  predicate Agrees(raw: seq<Octet>, at: nat, search: seq<Octet>, j: nat) {
    at + j <= |raw| && j <= |search| && raw[at..at + j] == search[..j]
  }

  lemma AgreesNext(raw: seq<Octet>, at: nat, search: seq<Octet>, j: nat)
    requires Agrees(raw, at, search, j) && at + j < |raw| && j < |search|
    ensures if raw[at + j] == search[j] then Agrees(raw, at, search, j + 1) else !Matches(raw, at, search)
  {
    assert raw[at..at + j + 1] == raw[at..at + j] + [raw[at + j]];
    assert search[..j + 1] == search[..j] + [search[j]];
    if Matches(raw, at, search) {
      assert search[j] == raw[at..at + |search|][j];
    }
  }

  lemma AgreesToEnd(raw: seq<Octet>, at: nat, search: seq<Octet>, j: nat)
    requires Agrees(raw, at, search, j)
    ensures at + j == |raw| ==> raw[at..] + search[j..] == search
    ensures j == |search| ==> Matches(raw, at, search)
  {
    if at + j == |raw| {
      assert raw[at..at + j] == raw[at..];
      assert search == search[..j] + search[j..];
    }
  }

  // As long as the octets agree with those of `b`, and there is more of `b`, there is more
  // of the string: otherwise `b` would be longer than what is left, character by character.
  lemma DifferenceInside(a: seq<Char16>, k: nat, b: seq<Char16>, j: nat)
    requires k + |b| <= |a| && j < |Encode(b)| && Agrees(Raw(a), Place(a, k), Encode(b), j)
    ensures Place(a, k) + j < |Raw(a)|
  {
    var raw, at, tail, code := Raw(a), Place(a, k), a[k..], Encode(b);
    RawFrom(a, k);
    TailSlice(a, k, |b|);
    AgreesToEnd(raw, at, code, j);
    if at + j >= |raw| {
      SameLength(a, k, b);
      var more := code[j..];
      hide Encode, Raw, Place, Agrees, MatchesAt;
      Assoc(Encode(tail), [0], more);
      assert code + [] == code;
      SameFirst(tail, b, [0] + more, []);
    }
  }

  lemma SameLength(a: seq<Char16>, k: nat, b: seq<Char16>)
    requires k + |b| <= |a|
    ensures b == a[k..][..|b|] ==> Place(a, k) + |Encode(b)| <= |Raw(a)| && MatchesAt(a, k, b)
  {
    TailSlice(a, k, |b|);
    if b == a[k..][..|b|] {
      CharsMatch(a, k, b);
    }
  }

  // Compare octets up to the first difference, which is inside of the string even when
  // what is searched for has more octets than are left.
  method SameOctets(raw: seq<Octet>, at: nat, search: seq<Octet>,
                    ghost a: seq<Char16>, ghost k: nat, ghost b: seq<Char16>)
    returns (same: bool)
    requires raw == Raw(a) && k + |b| <= |a| && at == Place(a, k) && search == Encode(b)
    ensures same <==> MatchesAt(a, k, b)
  {
    MatchIs(a, k, b);
    hide Encode, Raw, Place, MatchesAt, Matches;
    for j := 0 to |search|
      invariant Agrees(raw, at, search, j)
    {
      DifferenceInside(a, k, b, j);
      AgreesNext(raw, at, search, j);
      hide Agrees;
      if raw[at + j] != search[j] {
        return false;
      }
    }
    AgreesToEnd(raw, at, search, |search|);
    return true;
  }

  // ----- strings -------------------------------------------------------------

  const Npos: int := 0xFFFF_FFFF

  class String {
    const raw: seq<Octet>
    const count: nat
    const ascii: bool
    ghost const chars: seq<Char16>

    ghost predicate Valid() {
      raw == Raw(chars) && |raw| <= Npos && count == |chars| && (ascii ==> AllAscii(chars))
    }

    constructor (raw: seq<Octet>, count: nat, ascii: bool, ghost chars: seq<Char16>)
      requires raw == Raw(chars) && |raw| <= Npos && count == |chars| && (ascii ==> AllAscii(chars))
      ensures Valid() && this.chars == chars
    {
      this.raw, this.count, this.ascii, this.chars := raw, count, ascii, chars;
    }

    // A string has fewer characters than the number that stands for none.
    lemma Short(k: nat)
      requires Valid() && k <= count
      ensures k < Npos
    {
      Longer(chars);
    }

    // The first place from `begin` on where the characters of `search` are.
    method IndexOf(search: String, begin: nat) returns (r: int)
      requires Valid() && search.Valid()
      ensures r == Npos || begin <= r <= count
      ensures r != Npos ==> MatchesAt(chars, r, search.chars)
      ensures forall k: nat :: begin <= k && (r == Npos || k < r) ==> !MatchesAt(chars, k, search.chars)
    {
      if begin + search.count > count {
        NotLonger(chars, search.chars);
        return Npos;
      }
      var octets := search.raw[..|search.raw| - 1];
      assert octets == Encode(search.chars);
      PlaceEnds(chars);
      Short(count);
      NotLonger(chars, search.chars);
      hide Encode, Place, Raw, Matches, MatchesAt;
      var at := Skip(raw, 0, begin, ascii, chars, 0);
      r := SearchUp(search, octets, begin, at);
    }

    method SearchUp(search: String, octets: seq<Octet>, begin: nat, from: nat) returns (r: int)
      requires Valid() && search.Valid() && octets == Encode(search.chars)
      requires begin + search.count <= count < Npos && from == Place(chars, begin)
      ensures r == Npos || begin <= r <= count
      ensures r != Npos ==> MatchesAt(chars, r, search.chars)
      ensures forall k :: begin <= k <= count - search.count && (r == Npos || k < r) ==>
                            !MatchesAt(chars, k, search.chars)
    {
      hide Encode, Place, Raw, Matches, MatchesAt, AllAscii;
      var i: nat, at := begin, from;
      while i <= count - search.count
        invariant begin <= i <= count - search.count + 1 && i <= count && at == Place(chars, i)
        invariant forall k :: begin <= k < i ==> !MatchesAt(chars, k, search.chars)
      {
        var same := SameOctets(raw, at, octets, chars, i, search.chars);
        if same {
          return i;
        }
        EmptyMatches(chars, i, search.chars);
        at := Skip(raw, at, 1, ascii, chars, i);
        i := i + 1;
      }
      return Npos;
    }

    method IndexOfChar(c: Char16, begin: nat) returns (r: int)
      requires Valid()
      ensures r == Npos || begin <= r < count
      ensures r != Npos ==> chars[r] == c
      ensures forall k :: begin <= k < count && (r == Npos || k < r) ==> chars[k] != c
    {
      if begin >= count {
        return Npos;
      }
      PlaceEnds(chars);
      Short(count);
      hide Encode, Place, Raw, ReadChar;
      var at := Skip(raw, 0, begin, ascii, chars, 0);
      r := CharUp(c, begin, at);
    }

    method CharUp(c: Char16, begin: nat, from: nat) returns (r: int)
      requires Valid() && begin <= count < Npos && from == Place(chars, begin)
      ensures r == Npos || begin <= r < count
      ensures r != Npos ==> chars[r] == c
      ensures forall k :: begin <= k < count && (r == Npos || k < r) ==> chars[k] != c
    {
      hide Encode, Place, Raw, AllAscii;
      var at := from;
      for i := begin to count
        invariant at == Place(chars, i)
        invariant forall k :: begin <= k < i ==> chars[k] != c
      {
        var d;
        d, at := NextAt(raw, at, chars, i);
        if d == c {
          return i;
        }
      }
      return Npos;
    }

    // The last place up to `begin` where the characters of `search` are; without `begin`, the last of all.
    method LastIndexOf(search: String, begin: nat) returns (r: int)
      requires Valid() && search.Valid()
      ensures r == Npos || 0 <= r <= count
      ensures r != Npos ==> MatchesAt(chars, r, search.chars) && (begin != Npos ==> r <= begin)
      ensures forall k: nat :: (begin == Npos || k <= begin) && (r == Npos || k > r) ==>
                                 !MatchesAt(chars, k, search.chars)
    {
      if search.count > count {
        NotLonger(chars, search.chars);
        return Npos;
      }
      var i: nat := begin;
      if begin == Npos || begin + search.count > count {
        i := count - search.count;
      }
      var octets := search.raw[..|search.raw| - 1];
      assert octets == Encode(search.chars);
      PlaceEnds(chars);
      Short(count);
      assert |raw| - 1 == Place(chars, count);
      NotLonger(chars, search.chars);
      hide Encode, Place, Raw, Matches, MatchesAt;
      var at := Back(raw, |raw| - 1, count - i, ascii, chars, count);
      r := SearchDown(search, octets, i, at);
    }

    method SearchDown(search: String, octets: seq<Octet>, start: nat, from: nat) returns (r: int)
      requires Valid() && search.Valid() && octets == Encode(search.chars)
      requires start + search.count <= count < Npos && from == Place(chars, start)
      ensures r == Npos || 0 <= r <= start
      ensures r != Npos ==> MatchesAt(chars, r, search.chars)
      ensures forall k :: 0 <= k <= start && (r == Npos || k > r) ==> !MatchesAt(chars, k, search.chars)
    {
      hide Encode, Place, Raw, Matches, MatchesAt, AllAscii;
      var i: nat, at := start, from;
      while true
        invariant i <= start && at == Place(chars, i)
        invariant forall k :: i < k <= start ==> !MatchesAt(chars, k, search.chars)
        decreases i
      {
        var same := SameOctets(raw, at, octets, chars, i, search.chars);
        if same {
          return i;
        } else if i == 0 {
          return Npos;
        }
        i := i - 1;
        at := Back(raw, at, 1, ascii, chars, i + 1);
      }
    }

    method LastIndexOfChar(c: Char16, begin: nat) returns (r: int)
      requires Valid()
      ensures r == Npos || 0 <= r < count
      ensures r != Npos ==> chars[r] == c && r <= begin
      ensures forall k :: 0 <= k < count && k <= begin && (r == Npos || k > r) ==> chars[k] != c
    {
      var i: int := begin;
      if begin >= count {
        i := count - 1;
      }
      i := i + 1;
      PlaceEnds(chars);
      Short(count);
      assert |raw| - 1 == Place(chars, count);
      hide Encode, Place, Raw;
      var at := Back(raw, |raw| - 1, count - i, ascii, chars, count);
      r := CharDown(c, i, at);
    }

    method CharDown(c: Char16, start: nat, from: nat) returns (r: int)
      requires Valid() && start <= count < Npos && from == Place(chars, start)
      ensures r == Npos || 0 <= r < start
      ensures r != Npos ==> chars[r] == c
      ensures forall k :: 0 <= k < start && (r == Npos || k > r) ==> chars[k] != c
    {
      hide Encode, Place, Raw, AllAscii;
      var i: nat, at := start, from;
      while i > 0
        invariant i <= start && at == Place(chars, i)
        invariant forall k :: i <= k < start ==> chars[k] != c
      {
        var d;
        d, at := Prev(raw, at, chars, i);
        if d == c {
          return i - 1;
        }
        i := i - 1;
      }
      return Npos;
    }

    // The characters from `begin` to `end`, as octets.
    method Substring(begin: nat, end: int) returns (octets: seq<Octet>, ok: bool)
      requires Valid() && end >= 0
      ensures ok <==> (end == Npos || end <= count) && begin <= if end == Npos then count else end
      ensures ok ==> octets == Encode(chars[begin..if end == Npos then count else end])
    {
      var stop := if end == Npos then count else end;
      if stop > count || begin > stop {
        return [], false;
      }
      PlaceEnds(chars);
      PieceIs(chars, begin, stop);
      hide Encode, Place, Raw;
      var from := Skip(raw, 0, begin, ascii, chars, 0);
      var upTo := Skip(raw, from, stop - begin, ascii, chars, begin);
      return raw[from..upTo], true;
    }
  }

  lemma {:induction false} Longer(cs: seq<Char16>)
    ensures |cs| <= |Encode(cs)|
  {
    if cs != [] {
      Longer(cs[..|cs| - 1]);
      CharRoundTrip([], cs[|cs| - 1], []);
    }
  }

  lemma NotLonger(a: seq<Char16>, b: seq<Char16>)
    ensures forall k: nat :: MatchesAt(a, k, b) ==> k + |b| <= |a|
  {
  }

  lemma EmptyMatches(a: seq<Char16>, k: nat, b: seq<Char16>)
    requires k <= |a|
    ensures b == [] ==> MatchesAt(a, k, b)
  {
  }

  lemma PieceIs(cs: seq<Char16>, k: nat, n: nat)
    requires k <= n <= |cs|
    ensures Place(cs, k) <= Place(cs, n) <= |Raw(cs)|
    ensures Raw(cs)[Place(cs, k)..Place(cs, n)] == Encode(cs[k..n])
  {
    assert cs[..n] == cs[..k] + cs[k..n] && cs == cs[..n] + cs[n..];
    EncodeConcat(cs[..k], cs[k..n]);
    EncodeConcat(cs[..n], cs[n..]);
    hide Encode;
    assert Raw(cs) == Encode(cs[..k]) + Encode(cs[k..n]) + (Encode(cs[n..]) + [0]);
  }

  // ----- comparison ----------------------------------------------------------

  // Which of two strings comes first, by their first difference.
  function Order(a: seq<Char16>, b: seq<Char16>): int {
    if a == [] && b == [] then 0
    else if a == [] then -1
    else if b == [] then 1
    else if a[0] != b[0] then a[0] - b[0]
    else Order(a[1..], b[1..])
  }

  function Sign(n: int): int {
    if n < 0 then -1 else if n > 0 then 1 else 0
  }

  // A common beginning does not matter.
  lemma {:induction false} OrderFrom(a: seq<Char16>, b: seq<Char16>, k: nat)
    requires k <= |a| && k <= |b| && a[..k] == b[..k]
    ensures Order(a, b) == Order(a[k..], b[k..])
  {
    if k > 0 {
      assert a[0] == a[..k][0] == b[..k][0] == b[0];
      assert a[1..][..k - 1] == a[..k][1..] && b[1..][..k - 1] == b[..k][1..];
      OrderFrom(a[1..], b[1..], k - 1);
      assert a[1..][k - 1..] == a[k..] && b[1..][k - 1..] == b[k..];
    }
  }

  lemma PlusNul(cs: seq<Char16>)
    ensures Encode(cs + [0]) == Raw(cs)
  {
    EncodeLast(cs, 0);
  }

  // The character at `k` of a string with the one that ends it.
  method NextWithEnd(raw: seq<Octet>, at: nat, ghost cs: seq<Char16>, ghost k: nat) returns (c: Char16, next: nat)
    requires raw == Raw(cs) && k <= |cs| && at == Place(cs + [0], k)
    ensures c == (cs + [0])[k] && next == Place(cs + [0], k + 1) && at < next
  {
    PlusNul(cs);
    ghost var all := cs + [0];
    RawSplit(all, k);
    hide Encode, Place, Raw, CharCode, ReadChar;
    ReadShort(raw, Encode(all[..k]), all[k], Encode(all[k + 1..]));
    c, next := Next(raw, at);
  }

  lemma ReadShort(raw: seq<Octet>, pre: seq<Octet>, c: Char16, post: seq<Octet>)
    requires raw + [0] == pre + CharCode(c) + (post + [0])
    ensures ReadChar(raw, |pre|) == Got(c, |pre| + |CharCode(c)|)
  {
    hide CharCode, ReadChar;
    Assoc(pre + CharCode(c), post, [0]);
    assert raw == (raw + [0])[..|raw|] == pre + CharCode(c) + post;
    CharRoundTrip(pre, c, post);
  }

  lemma EndIs(cs: seq<Char16>, k: nat)
    requires k <= |cs| + 1
    ensures Place(cs + [0], k) < |Raw(cs)| <==> k <= |cs|
    ensures k == 0 ==> Place(cs + [0], k) == 0
  {
    var all := cs + [0];
    PlusNul(cs);
    PlaceEnds(all);
    if k <= |cs| {
      RawSplit(all, k);
      CharRoundTrip([], all[k], []);
    }
  }

  // The first difference, or the end of one of them, decides.
  lemma OrderAt(a: seq<Char16>, b: seq<Char16>, k: nat)
    requires k <= |a| && k <= |b| && (a + [0])[..k] == (b + [0])[..k]
    ensures (a + [0])[k] != (b + [0])[k] ==> Sign(Order(a, b)) == Sign((a + [0])[k] as int - (b + [0])[k])
  {
    assert a[..k] == (a + [0])[..k] && b[..k] == (b + [0])[..k];
    OrderFrom(a, b, k);
  }

  lemma OrderEnd(a: seq<Char16>, b: seq<Char16>, k: nat)
    requires k <= |a| + 1 && k <= |b| + 1 && (a + [0])[..k] == (b + [0])[..k] && (k == |a| + 1 || k == |b| + 1)
    ensures Sign(Order(a, b)) == if |Raw(a)| < |Raw(b)| then -1 else Sign(|Raw(a)| - |Raw(b)|)
  {
    if k == |a| + 1 {
      PrefixOrder(a, b);
    } else {
      PrefixOrder(b, a);
    }
  }

  lemma PrefixOrder(a: seq<Char16>, b: seq<Char16>)
    requires |a| <= |b| && (a + [0])[..|a| + 1] == (b + [0])[..|a| + 1]
    ensures Sign(Order(a, b)) == (if |a| == |b| then 0 else -1) && Sign(Order(b, a)) == if |a| == |b| then 0 else 1
    ensures if |a| == |b| then |Raw(a)| == |Raw(b)| else |Raw(a)| < |Raw(b)|
  {
    var n := |a|;
    assert a == (a + [0])[..n + 1][..n] == (b + [0])[..n + 1][..n] == b[..n];
    assert b == a + b[n..] && a[..n] == a && a[n..] == [];
    OrderFrom(a, b, n);
    OrderFrom(b, a, n);
    EncodeConcat(a, b[n..]);
    Longer(b[n..]);
    if n == |b| {
      assert b[n..] == [];
    }
  }

  // A difference of sizes that is taken for a signed number of 32 bits.
  function Narrow(n: nat): int {
    var low := n % 0x1_0000_0000;
    if low < 0x8000_0000 then low else low - 0x1_0000_0000
  }

  // `a` begins with `b` and what ends it, and is longer by more than 31 bits can say.
  ghost predicate TooFarApart(a: seq<Char16>, b: seq<Char16>) {
    var x, y := a + [0], b + [0];
    |y| <= |x| && x[..|y|] == y && |Raw(a)| >= |Raw(b)| + 0x8000_0000
  }

  // Comparing octets, with what ends them, orders strings by their characters, embedded
  // characters that are zero included, exactly unless the sizes are too far apart.
  method CompareTo(a: String, b: String) returns (r: int)
    requires a.Valid() && b.Valid()
    ensures -0x8000_0000 <= r < 0x8000_0000
    ensures Sign(r) == Sign(Order(a.chars, b.chars)) <==> !TooFarApart(a.chars, b.chars)
    ensures TooFarApart(a.chars, b.chars) ==> r < 0 < Order(a.chars, b.chars)
  {
    var atA: nat, atB: nat := 0, 0;
    ghost var k: nat := 0;
    CompareStart(a.chars, b.chars);
    hide Encode, Place, Raw, Order, Comparing, TooFarApart;
    while atA < |a.raw| && atB < |b.raw|
      invariant Comparing(a.chars, b.chars, k, atA, atB)
      decreases |a.raw| - atA
    {
      var diff;
      diff, atA, atB := CompareOne(a, b, atA, atB, k);
      if diff != 0 {
        return diff;
      }
      k := k + 1;
    }
    CompareEnd(a.chars, b.chars, k, atA, atB);
    return if |a.raw| < |b.raw| then -1 else Narrow(|a.raw| - |b.raw|);
  }

  // The first `k` characters have been found equal.
  ghost predicate Comparing(a: seq<Char16>, b: seq<Char16>, k: nat, atA: nat, atB: nat) {
    var x, y := a + [0], b + [0];
    k <= |x| && k <= |y| && x[..k] == y[..k] && atA == Place(x, k) && atB == Place(y, k)
  }

  lemma CompareStart(a: seq<Char16>, b: seq<Char16>)
    ensures Comparing(a, b, 0, 0, 0)
  {
    EndIs(a, 0);
    EndIs(b, 0);
  }

  lemma CompareEnd(a: seq<Char16>, b: seq<Char16>, k: nat, atA: nat, atB: nat)
    requires Comparing(a, b, k, atA, atB) && !(atA < |Raw(a)| && atB < |Raw(b)|) && |Raw(a)| <= Npos
    ensures var r := if |Raw(a)| < |Raw(b)| then -1 else Narrow(|Raw(a)| - |Raw(b)|);
            if TooFarApart(a, b) then r < 0 < Order(a, b) else Sign(r) == Sign(Order(a, b))
  {
    hide Encode, Place, Raw, Order;
    EndIs(a, k);
    EndIs(b, k);
    OrderEnd(a, b, k);
    if k == |a| + 1 {
      PrefixOrder(a, b);
    } else {
      assert (b + [0])[..k] == b + [0];
    }
  }

  method CompareOne(a: String, b: String, atA: nat, atB: nat, ghost k: nat)
    returns (diff: int, nextA: nat, nextB: nat)
    requires a.Valid() && b.Valid() && Comparing(a.chars, b.chars, k, atA, atB) && atA < |a.raw| && atB < |b.raw|
    ensures diff != 0 ==> Sign(diff) == Sign(Order(a.chars, b.chars)) && !TooFarApart(a.chars, b.chars)
    ensures diff == 0 ==> Comparing(a.chars, b.chars, k + 1, nextA, nextB)
    ensures nextA > atA && -0x1_0000 < diff < 0x1_0000
  {
    hide Encode, Place, Raw, Order, Sign;
    EndIs(a.chars, k);
    EndIs(b.chars, k);
    OrderAt(a.chars, b.chars, k);
    var c, d;
    c, nextA := NextWithEnd(a.raw, atA, a.chars, k);
    d, nextB := NextWithEnd(b.raw, atB, b.chars, k);
    diff := c as int - d;
    ghost var x, y := a.chars + [0], b.chars + [0];
    assert x[..k + 1] == x[..k] + [x[k]] && y[..k + 1] == y[..k] + [y[k]];
    assert diff != 0 && |y| <= |x| ==> x[..|y|][k] != y[k];
  }

  function Nuls(n: nat): (s: seq<Octet>)
    ensures |s| == n
  {
    seq(n, _ => 0)
  }

  lemma {:induction false} NulsAreOctets(n: nat)
    ensures Encode(Nuls(n)) == Nuls(n) && Raw(Nuls(n)) == Nuls(n + 1)
  {
    if n > 0 {
      NulsAreOctets(n - 1);
      EncodeLast(Nuls(n - 1), 0);
      assert Nuls(n) == Nuls(n - 1) + [0];
    }
    assert Nuls(n + 1) == Nuls(n) + [0];
  }

  // Characters that are zero, and more of them than 31 bits can count, are said to come
  // before none at all.
  method NulsBeforeNothing(n: nat) returns (many: String, none: String, r: int)
    requires 0x8000_0000 <= n < Npos
    ensures many.Valid() && none.Valid() && many.chars == Nuls(n) && none.chars == []
    ensures r < 0 < Order(many.chars, none.chars)
  {
    NulsAreOctets(n);
    many := new String(Nuls(n + 1), n, false, Nuls(n));
    none := new String([0], 0, true, []);
    r := CompareTo(many, none);
    assert Nuls(n) + [0] == [0] + Nuls(n);
    assert TooFarApart(Nuls(n), []);
  }

  // ----- making strings ------------------------------------------------------

  predicate Basic(u: int) {
    0 <= u < 0xD800 || 0xDFFF < u < 0x10000
  }

  datatype Outcome = Done | IllegalArgument

  // Count the octets that UTF-16 units need; `nul` tells whether one of them is zero.
  method ValidateUtf16(units: seq<int>) returns (r: Outcome, octets: nat, count: nat, nul: bool)
    requires forall i :: 0 <= i < |units| ==> units[i] >= 0
    ensures r.Done? <==> AllBasic(units)
    ensures r.Done? ==> octets == |Encode(units)| && count == |units| && (nul <==> 0 in units)
  {
    octets, count, nul := 0, 0, false;
    assert units[..0] == [];
    while count < |units|
      invariant count <= |units| && AllBasic(units[..count])
      invariant octets == |Encode(units[..count])| && (nul <==> 0 in units[..count])
    {
      var u := units[count];
      BasicNext(units, count);
      hide Encode, CharCode;
      var n;
      r, n := CountUnit(u);
      if r != Done {
        return;
      }
      nul := nul || u == 0;
      octets := octets + n;
      count := count + 1;
    }
    assert units[..count] == units;
    return Done, octets, count, nul;
  }

  lemma BasicNext(units: seq<int>, k: nat)
    requires k < |units| && AllBasic(units[..k])
    ensures units[..k + 1] == units[..k] + [units[k]]
    ensures if Basic(units[k]) then AllBasic(units[..k + 1]) else !AllBasic(units)
    ensures Basic(units[k]) ==> |Encode(units[..k + 1])| == |Encode(units[..k])| + |CharCode(units[k])|
  {
    assert units[..k + 1] == units[..k] + [units[k]];
    if Basic(units[k]) {
      EncodeLast(units[..k], units[k]);
    }
  }

  method CountUnit(u: int) returns (r: Outcome, n: nat)
    requires u >= 0
    ensures r.Done? <==> Basic(u)
    ensures Basic(u) ==> n == |CharCode(u)|
  {
    if u < 0x80 {
      return Done, 1;
    } else if u < 0x800 {
      return Done, 2;
    } else if u < 0xD800 {
      return Done, 3;
    } else if u < 0xE000 {
      return IllegalArgument, 0;
    } else if u < 0x10000 {
      return Done, 3;
    } else {
      return IllegalArgument, 0;
    }
  }

  ghost predicate AllBasic(units: seq<int>) {
    forall i :: 0 <= i < |units| ==> Basic(units[i])
  }

  // Write the octets and what ends them: as many as have been counted.
  method Utf16ToUtf8(units: seq<int>, des: array<Octet>) returns (r: Outcome, n: nat)
    requires forall i :: 0 <= i < |units| ==> units[i] >= 0
    requires forall k :: 0 <= k <= |units| && AllBasic(units[..k]) ==> |Encode(units[..k])| < des.Length
    modifies des
    ensures r.Done? <==> AllBasic(units)
    ensures r.Done? ==> n == |Encode(units)| + 1 <= des.Length && des[..n] == Raw(units)
  {
    n := 0;
    assert units[..0] == [];
    for i := 0 to |units|
      invariant AllBasic(units[..i]) && n == |Encode(units[..i])| <= des.Length && des[..n] == Encode(units[..i])
    {
      ghost var done := units[..i];
      var u := units[i];
      assert units[..i + 1] == done + [u];
      if !Basic(u) {
        assert !Basic((done + [u])[i]);
        return IllegalArgument, n;
      }
      EncodeLast(done, u);
      assert |Encode(done + [u])| < des.Length;
      hide Encode;
      n := PutUnit(u, des, n);
    }
    assert units[..|units|] == units;
    des[n] := 0;
    n := n + 1;
    return Done, n;
  }

  method PutUnit(u: Char16, des: array<Octet>, at: nat) returns (n: nat)
    requires Basic(u) && at + |CharCode(u)| <= des.Length
    modifies des
    ensures n == at + |CharCode(u)| <= des.Length && des[..n] == old(des[..at]) + CharCode(u)
  {
    n := at;
    if u < 0x80 {
      des[n] := u;
      n := n + 1;
    } else if u < 0x800 {
      des[n] := 0xC0 + u / 64 % 32;
      n := n + 1;
      des[n] := 0x80 + u % 64;
      n := n + 1;
    } else {
      des[n] := 0xE0 + u / 4096 % 16;
      n := n + 1;
      des[n] := 0x80 + u / 64 % 64;
      n := n + 1;
      des[n] := 0x80 + u % 64;
      n := n + 1;
    }
  }

  // How many octets a character has that begins with `b`; none if no character does.
  function OctetsOf(b: Octet): nat {
    if b < 0x80 then 1 else if b < 0xC0 then 0 else if b < 0xE0 then 2 else if b < 0xF0 then 3 else 4
  }

  // A whole character, of up to four octets.
  ghost predicate CharacterFits(a: seq<Octet>, at: nat) {
    && at < |a| && OctetsOf(a[at]) > 0 && at + OctetsOf(a[at]) <= |a|
    && forall i :: at < i < at + OctetsOf(a[at]) ==> 0x80 <= a[i] < 0xC0
  }

  // Whole characters up to the end.
  ghost predicate WellFormed(a: seq<Octet>, at: nat)
    decreases |a| - at
  {
    at == |a| || (CharacterFits(a, at) && WellFormed(a, at + OctetsOf(a[at])))
  }

  // How many octets begin a character.
  ghost function Leads(a: seq<Octet>): nat {
    if a == [] then 0 else Leads(a[..|a| - 1]) + if 0x80 <= a[|a| - 1] < 0xC0 then 0 else 1
  }

  lemma {:induction false} LeadsMore(a: seq<Octet>, at: nat, n: nat)
    requires 0 < n && at + n <= |a| && !(0x80 <= a[at] < 0xC0) && forall i :: at < i < at + n ==> 0x80 <= a[i] < 0xC0
    ensures Leads(a[..at + n]) == Leads(a[..at]) + 1
  {
    assert a[..at + n][..at + n - 1] == a[..at + n - 1];
    if n > 1 {
      LeadsMore(a, at, n - 1);
    }
  }


  // Check octets that somebody else has made, count the characters, and look for a zero.
  method ValidateUtf8(a: seq<Octet>, ghost cs: seq<Char16>) returns (r: Outcome, octets: nat, count: nat, nul: bool)
    ensures r.Done? <==> WellFormed(a, 0)
    ensures r.Done? ==> octets == |a| && count == Leads(a) && (nul <==> HasSmall(a))
    ensures a == Encode(cs) ==> r.Done? && count == |cs|
  {
    octets, count, nul := 0, 0, false;
    ValidatingStarts(a, cs);
    hide Encode, Place, WellFormed, CharacterFits, Leads, Validating, HasSmall;
    while octets < |a|
      invariant octets <= |a| && Validating(a, cs, octets, count, nul)
      decreases |a| - octets
    {
      var next;
      ValidatingAt(a, cs, octets, count, nul);
      r, next := ValidateOne(a, octets, cs, count);
      WellFormedNext(a, octets);
      if r != Done {
        return;
      }
      ValidatingNext(a, cs, octets, count, nul, next);
      nul := nul || a[octets] / 16 == 0;
      octets := next;
      count := count + 1;
    }
    ValidatingEnds(a, cs, count, nul);
    return Done, octets, count, nul;
  }

  // The octets before `at` have been checked.
  ghost predicate Validating(a: seq<Octet>, cs: seq<Char16>, at: nat, count: nat, nul: bool) {
    && at <= |a| && (nul <==> HasSmall(a[..at])) && count == Leads(a[..at])
    && (a == Encode(cs) ==> count <= |cs| && at == Place(cs, count))
    && (WellFormed(a, 0) <==> WellFormed(a, at))
  }

  lemma ValidatingStarts(a: seq<Octet>, cs: seq<Char16>)
    ensures Validating(a, cs, 0, 0, false)
  {
    PlaceEnds(cs);
  }

  lemma ValidatingAt(a: seq<Octet>, cs: seq<Char16>, at: nat, count: nat, nul: bool)
    requires Validating(a, cs, at, count, nul)
    ensures a == Encode(cs) ==> count <= |cs| && at == Place(cs, count)
    ensures WellFormed(a, 0) <==> WellFormed(a, at)
  {
  }

  lemma ValidatingNext(a: seq<Octet>, cs: seq<Char16>, at: nat, count: nat, nul: bool, next: nat)
    requires Validating(a, cs, at, count, nul) && at < next <= |a| && !(0x80 <= a[at] < 0xC0)
    requires forall i :: at < i < next ==> 0x80 <= a[i] < 0xC0
    requires a == Encode(cs) ==> count < |cs| && next == Place(cs, count + 1)
    requires WellFormed(a, at) <==> WellFormed(a, next)
    ensures Validating(a, cs, next, count + 1, nul || a[at] / 16 == 0)
  {
    hide Encode, Place, WellFormed, Leads, HasSmall;
    var n := next - at;
    assert next == at + n;
    LeadsMore(a, at, n);
    SmallMore(a, at, next);
  }

  lemma SmallMore(a: seq<Octet>, at: nat, next: nat)
    requires at < next <= |a| && forall i :: at < i < next ==> 0x80 <= a[i] < 0xC0
    ensures HasSmall(a[..next]) <==> HasSmall(a[..at]) || a[at] / 16 == 0
  {
    if i :| 0 <= i < next && a[..next][i] < 0x10 {
      assert i < at ==> a[..at][i] < 0x10;
    }
    if i :| 0 <= i < at && a[..at][i] < 0x10 {
      assert a[..next][i] < 0x10;
    }
    assert a[..next][at] == a[at];
  }

  lemma ValidatingEnds(a: seq<Octet>, cs: seq<Char16>, count: nat, nul: bool)
    requires Validating(a, cs, |a|, count, nul)
    ensures WellFormed(a, 0) && count == Leads(a) && (nul <==> HasSmall(a))
    ensures a == Encode(cs) ==> count == |cs|
  {
    assert a[..|a|] == a;
    if a == Encode(cs) {
      PlacesApart(cs, count);
    }
  }

  lemma WellFormedNext(a: seq<Octet>, at: nat)
    requires at < |a|
    ensures WellFormed(a, at) <==> CharacterFits(a, at) && WellFormed(a, at + OctetsOf(a[at]))
  {
  }

  lemma PlacesApart(cs: seq<Char16>, k: nat)
    requires k <= |cs| && Place(cs, k) == |Encode(cs)|
    ensures k == |cs|
  {
    if k < |cs| {
      Split(cs, k);
      CharRoundTrip([], cs[k], []);
    }
  }

  // One character, of up to four octets.
  method ValidateOne(a: seq<Octet>, at: nat, ghost cs: seq<Char16>, ghost k: nat) returns (r: Outcome, next: nat)
    requires at < |a| && (a == Encode(cs) ==> k <= |cs| && at == Place(cs, k))
    ensures r.Done? <==> CharacterFits(a, at)
    ensures r.Done? ==>
              && next == at + OctetsOf(a[at]) && at < next <= |a|
              && !(0x80 <= a[at] < 0xC0) && forall i :: at < i < next ==> 0x80 <= a[i] < 0xC0
    ensures a == Encode(cs) ==> r.Done? && k < |cs| && next == Place(cs, k + 1)
  {
    if a == Encode(cs) {
      CharacterAt(a, at, cs, k);
    }
    hide Encode, Place;
    var kind := a[at] / 16;
    next := at;
    if kind == 0xF {
      next := next + 1;
      if next + 1 >= |a| || !Continues(a[next]) {
        return IllegalArgument, next;
      }
    }
    if kind >= 0xE {
      next := next + 1;
      if next + 1 >= |a| || !Continues(a[next]) {
        return IllegalArgument, next;
      }
    }
    if kind >= 0xC {
      next := next + 1;
      if next >= |a| || !Continues(a[next]) {
        return IllegalArgument, next;
      }
    }
    if 0x8 <= kind < 0xC {
      return IllegalArgument, next;
    }
    return Done, next + 1;
  }

  lemma CharacterAt(a: seq<Octet>, at: nat, cs: seq<Char16>, k: nat)
    requires a == Encode(cs) && at < |a| && k <= |cs| && at == Place(cs, k)
    ensures k < |cs| && Place(cs, k + 1) <= |a|
    ensures var kind, n := a[at] / 16, Place(cs, k + 1) - at;
            if kind < 8 then n == 1
            else if kind == 0xC || kind == 0xD then n == 2 && Continues(a[at + 1])
            else kind == 0xE && n == 3 && Continues(a[at + 1]) && Continues(a[at + 2])
  {
    PlaceEnds(cs);
    OctetsAt(cs, k);
    CodeBackwards(cs[k]);
    var g := CharCode(cs[k]);
    assert forall i :: 0 <= i < |a| ==> Raw(cs)[i] == a[i];
    hide Encode, Place, Raw, CharCode, Joined2, Joined3;
    assert Raw(cs)[at + 0] == g[0];
    assert |g| > 1 ==> Raw(cs)[at + 1] == g[1];
    assert |g| > 2 ==> Raw(cs)[at + 2] == g[2];
  }

  ghost predicate HasSmall(s: seq<int>) {
    exists i :: 0 <= i < |s| && s[i] < 0x10
  }

  // Octets below 16 stand for themselves.
  lemma {:induction false} SmallOctets(cs: seq<Char16>)
    ensures HasSmall(Encode(cs)) <==> HasSmall(cs)
  {
    if cs != [] {
      var most, c := cs[..|cs| - 1], cs[|cs| - 1];
      SmallOctets(most);
      var a, b := Encode(most), CharCode(c);
      assert HasSmall(b) <==> c < 0x10 by {
        assert c < 0x10 ==> b[0] < 0x10;
      }
      SmallEither(a, b);
      assert cs == most + [c];
      SmallEither(most, [c]);
      assert c < 0x10 ==> [c][0] < 0x10;
    }
  }

  lemma SmallEither(a: seq<int>, b: seq<int>)
    ensures HasSmall(a + b) <==> HasSmall(a) || HasSmall(b)
  {
    if HasSmall(a) {
      var i :| 0 <= i < |a| && a[i] < 0x10;
      assert (a + b)[i] < 0x10;
    }
    if HasSmall(b) {
      var i :| 0 <= i < |b| && b[i] < 0x10;
      assert (a + b)[|a| + i] < 0x10;
    }
  }

  // So the flag that says whether there is a zero is right exactly if there is one, or if no
  // character is below 16: and only then do the two ways of making a string agree.
  lemma FlagIsRight(cs: seq<Char16>)
    ensures (HasSmall(Encode(cs)) <==> 0 in cs) <==> (0 in cs || !HasSmall(cs))
  {
    SmallOctets(cs);
    if 0 in cs {
      var i :| 0 <= i < |cs| && cs[i] == 0;
      assert cs[i] < 0x10;
    }
  }

  // A tab is taken for a zero when it comes as an octet, and not when it comes as a unit.
  method TabTakenForZero() returns (octet: bool, unit: bool)
    ensures octet && !unit
  {
    hide Encode, CharCode;
    var tab: seq<Octet> := [9];
    AsciiIs(9);
    var _, _, _, nul := ValidateUtf8(tab, tab);
    assert tab[0] == 9;
    var _, _, _, nul16 := ValidateUtf16(tab);
    return nul, nul16;
  }

  lemma AsciiIs(c: Char16)
    requires c < 0x80
    ensures Encode([c]) == [c]
  {
    EncodeOne(c);
    hide Encode;
  }
}
