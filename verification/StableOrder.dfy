// What it means to sort stably by an order in which different elements may be equal.
module StableOrder {

  ghost predicate TotalPreorder<T(!new)>(le: (T, T) -> bool) {
    && (forall a, b :: le(a, b) || le(b, a))
    && (forall a, b, c :: le(a, b) && le(b, c) ==> le(a, c))
  }

  predicate Equal<T>(le: (T, T) -> bool, a: T, b: T) {
    le(a, b) && le(b, a)
  }

  ghost predicate Ordered<T>(le: (T, T) -> bool, s: seq<T>) {
    forall i, j :: 0 <= i < j < |s| ==> le(s[i], s[j])
  }

  // The elements of `s` that are equal to `x`, in the order in which they appear.
  ghost function Same<T>(le: (T, T) -> bool, x: T, s: seq<T>): seq<T> {
    if s == [] then [] else Same(le, x, s[..|s| - 1]) + if Equal(le, x, s[|s| - 1]) then [s[|s| - 1]] else []
  }

  // `t` has the elements of `s`, and equal ones in the same order.
  ghost predicate Rearranged<T(!new)>(le: (T, T) -> bool, s: seq<T>, t: seq<T>) {
    forall x :: Same(le, x, t) == Same(le, x, s)
  }

  // `t` is `s` in ascending order, with equal elements in the order that they had.
  ghost predicate StablySorted<T(!new)>(le: (T, T) -> bool, s: seq<T>, t: seq<T>) {
    Ordered(le, t) && Rearranged(le, s, t)
  }

  lemma RearrangedSelf<T(!new)>(le: (T, T) -> bool, s: seq<T>)
    ensures Rearranged(le, s, s)
  {
  }

  lemma RearrangedTwice<T(!new)>(le: (T, T) -> bool, s: seq<T>, t: seq<T>, u: seq<T>)
    requires Rearranged(le, s, t) && Rearranged(le, t, u)
    ensures Rearranged(le, s, u)
  {
    forall x: T
      ensures Same(le, x, u) == Same(le, x, s)
    {
      assert Same(le, x, t) == Same(le, x, s);
    }
  }

  lemma RearrangedParts<T(!new)>(le: (T, T) -> bool, s: seq<T>, t: seq<T>, s': seq<T>, t': seq<T>)
    requires Rearranged(le, s, s') && Rearranged(le, t, t')
    ensures Rearranged(le, s + t, s' + t')
  {
    forall x: T
      ensures Same(le, x, s' + t') == Same(le, x, s + t)
    {
      SameConcat(le, x, s, t);
      SameConcat(le, x, s', t');
      assert Same(le, x, s') == Same(le, x, s) && Same(le, x, t') == Same(le, x, t);
    }
  }

  lemma {:induction false} SameConcat<T>(le: (T, T) -> bool, x: T, s: seq<T>, t: seq<T>)
    ensures Same(le, x, s + t) == Same(le, x, s) + Same(le, x, t)
  {
    if t == [] {
      assert s + t == s;
    } else {
      assert (s + t)[..|s + t| - 1] == s + t[..|t| - 1];
      SameConcat(le, x, s, t[..|t| - 1]);
    }
  }

  lemma SameOne<T>(le: (T, T) -> bool, x: T, y: T)
    ensures Same(le, x, [y]) == if Equal(le, x, y) then [y] else []
  {
    assert [y][..0] == [];
  }

  lemma {:induction false} SameNone<T>(le: (T, T) -> bool, x: T, s: seq<T>)
    requires forall i :: 0 <= i < |s| ==> !Equal(le, x, s[i])
    ensures Same(le, x, s) == []
  {
    if s != [] {
      SameNone(le, x, s[..|s| - 1]);
    }
  }

  // ----- what a stable sort is -----------------------------------------------

  lemma {:induction false} CountSame<T>(le: (T, T) -> bool, x: T, s: seq<T>)
    requires Equal(le, x, x)
    ensures multiset(Same(le, x, s))[x] == multiset(s)[x]
  {
    if s != [] {
      var most := s[..|s| - 1];
      CountSame(le, x, most);
      assert s == most + [s[|s| - 1]];
    }
  }

  // A stable sort has the same elements, each as often.
  lemma StablePermutes<T(!new)>(le: (T, T) -> bool, s: seq<T>, t: seq<T>)
    requires TotalPreorder(le) && StablySorted(le, s, t)
    ensures multiset(s) == multiset(t)
  {
    forall x: T
      ensures multiset(s)[x] == multiset(t)[x]
    {
      CountSame(le, x, s);
      CountSame(le, x, t);
    }
  }

  lemma FirstOfSame<T(!new)>(le: (T, T) -> bool, x: T, s: seq<T>)
    requires s != []
    ensures Same(le, x, s) == (if Equal(le, x, s[0]) then [s[0]] else []) + Same(le, x, s[1..])
  {
    assert s == [s[0]] + s[1..];
    SameConcat(le, x, [s[0]], s[1..]);
    SameOne(le, x, s[0]);
  }

  lemma SameTails<T(!new)>(le: (T, T) -> bool, x: T, t: seq<T>, u: seq<T>)
    requires t != [] && u != [] && (Equal(le, x, t[0]) <==> Equal(le, x, u[0])) && Same(le, x, t) == Same(le, x, u)
    ensures Same(le, x, t[1..]) == Same(le, x, u[1..]) && (Equal(le, x, t[0]) ==> t[0] == u[0])
  {
    hide Same;
    FirstOfSame(le, x, t);
    FirstOfSame(le, x, u);
    var a, b := Same(le, x, t[1..]), Same(le, x, u[1..]);
    if Equal(le, x, t[0]) {
      SameHeads(t[0], a, u[0], b);
    } else {
      assert [] + a == a && [] + b == b;
    }
  }

  lemma SameHeads<T>(a: T, s: seq<T>, b: T, t: seq<T>)
    requires [a] + s == [b] + t
    ensures a == b && s == t
  {
    assert ([a] + s)[0] == a && ([a] + s)[1..] == s;
    assert ([b] + t)[0] == b && ([b] + t)[1..] == t;
  }

  // The least elements of two orders of the same elements are equal.
  lemma LeastEqual<T(!new)>(le: (T, T) -> bool, t: seq<T>, u: seq<T>)
    requires TotalPreorder(le) && Ordered(le, t) && Ordered(le, u) && multiset(t) == multiset(u)
    ensures |t| == |u| && (t != [] ==> Equal(le, t[0], u[0]))
  {
    assert |t| == |multiset(t)| == |multiset(u)| == |u|;
    if t != [] {
      var a, b := t[0], u[0];
      assert a in multiset(u) && b in multiset(t);
      var i :| 0 <= i < |u| && u[i] == a;
      var j :| 0 <= j < |t| && t[j] == b;
      assert le(a, a) || le(a, a);
      assert le(b, b) || le(b, b);
    }
  }

  // The first of two stable sorts of the same elements is the same.
  lemma SameFirst<T(!new)>(le: (T, T) -> bool, t: seq<T>, u: seq<T>)
    requires TotalPreorder(le) && StablySorted(le, t, u) && Ordered(le, t)
    ensures |t| == |u| && (t != [] ==> t[0] == u[0])
    ensures t != [] ==> StablySorted(le, t[1..], u[1..])
  {
    StablePermutes(le, t, u);
    LeastEqual(le, t, u);
    if t != [] {
      hide Same;
      var a := t[0];
      forall x: T
        ensures Same(le, x, t[1..]) == Same(le, x, u[1..]) && (Equal(le, x, a) ==> a == u[0])
      {
        assert Equal(le, x, a) <==> Equal(le, x, u[0]);
        SameTails(le, x, t, u);
      }
      assert le(a, a) || le(a, a);
      assert Equal(le, a, a);
    }
  }

  // There is only one way to sort stably.
  lemma {:induction false} StableUnique<T(!new)>(le: (T, T) -> bool, s: seq<T>, t: seq<T>, u: seq<T>)
    requires TotalPreorder(le) && StablySorted(le, s, t) && StablySorted(le, s, u)
    ensures t == u
    decreases |t|
  {
    assert StablySorted(le, t, u) && Ordered(le, t);
    hide Same, TotalPreorder, Ordered;
    SameFirst(le, t, u);
    if t != [] {
      TailOrdered(le, t);
      StableUnique(le, t[1..], t[1..], u[1..]);
    }
  }

  lemma TailOrdered<T(!new)>(le: (T, T) -> bool, t: seq<T>)
    requires Ordered(le, t) && t != []
    ensures StablySorted(le, t[1..], t[1..])
  {
  }
}
