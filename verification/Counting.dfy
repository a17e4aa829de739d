// How many elements of a sequence have a property.
module Counting {

  ghost function Bit(b: bool): nat {
    if b then 1 else 0
  }

  ghost function Count<T>(s: seq<T>, f: T -> bool): nat {
    if s == [] then 0 else Bit(f(s[0])) + Count(s[1..], f)
  }

  lemma {:induction false} CountUpdate<T>(s: seq<T>, i: nat, x: T, f: T -> bool)
    requires i < |s|
    ensures Count(s[i := x], f) + Bit(f(s[i])) == Count(s, f) + Bit(f(x))
  {
    if i == 0 {
      assert s[i := x][1..] == s[1..];
    } else {
      CountUpdate(s[1..], i - 1, x, f);
      assert s[i := x][1..] == s[1..][i - 1 := x];
    }
  }

  // A count of zero, one, and more.
  lemma {:induction false} CountSome<T>(s: seq<T>, i: nat, f: T -> bool)
    requires i < |s| && f(s[i])
    ensures Count(s, f) > 0
  {
    if i > 0 {
      CountSome(s[1..], i - 1, f);
    }
  }

  lemma {:induction false} CountTwo<T>(s: seq<T>, i: nat, j: nat, f: T -> bool)
    requires i < j < |s| && f(s[i]) && f(s[j])
    ensures Count(s, f) > 1
  {
    if i > 0 {
      CountTwo(s[1..], i - 1, j - 1, f);
    } else {
      CountSome(s[1..], j - 1, f);
    }
  }

  lemma {:induction false} CountNone<T>(s: seq<T>, f: T -> bool)
    ensures Count(s, f) == 0 <==> forall i :: 0 <= i < |s| ==> !f(s[i])
  {
    if s != [] {
      CountNone(s[1..], f);
      if Count(s, f) == 0 {
        forall i | 0 <= i < |s|
          ensures !f(s[i])
        {
          assert i > 0 ==> s[i] == s[1..][i - 1];
        }
      } else if f(s[0]) {
      } else {
        var i :| 0 <= i < |s[1..]| && f(s[1..][i]);
        assert f(s[i + 1]);
      }
    }
  }
}
