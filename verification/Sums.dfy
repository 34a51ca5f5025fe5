/** Sums over lists, and their independence of order. */
module Sums {

  ghost function SumBy<T>(f: T -> real, s: seq<T>): real {
    if s == [] then 0.0 else SumBy(f, s[..|s| - 1]) + f(s[|s| - 1])
  }

  lemma PrefixSum<T>(f: T -> real, s: seq<T>, k: nat)
    requires 0 < k <= |s|
    ensures SumBy(f, s[..k]) == SumBy(f, s[..k - 1]) + f(s[k - 1])
  {
    assert s[..k][..k - 1] == s[..k - 1];
  }

  lemma {:induction false} SumByRemove<T>(f: T -> real, s: seq<T>, i: nat)
    requires i < |s|
    ensures SumBy(f, s) == SumBy(f, s[..i] + s[i + 1..]) + f(s[i])
  {
    if i == |s| - 1 {
      assert s[..i] + s[i + 1..] == s[..|s| - 1];
    } else {
      var m, last := s[..|s| - 1], s[|s| - 1];
      SumByRemove(f, m, i);
      var r := s[..i] + s[i + 1..];
      assert r[..|r| - 1] == m[..i] + m[i + 1..] && r[|r| - 1] == last;
    }
  }

  /** Taking one element out of a list takes it out of its multiset. */
  lemma {:induction false} WithoutOne<T>(t: seq<T>, i: nat)
    requires i < |t|
    ensures multiset(t) == multiset(t[..i] + t[i + 1..]) + multiset{t[i]}
  {
    var a, b := t[..i], t[i + 1..];
    assert t == (a + [t[i]]) + b;
    assert multiset((a + [t[i]]) + b) == multiset(a) + multiset{t[i]} + multiset(b);
    assert multiset(a + b) == multiset(a) + multiset(b);
  }

  lemma WithoutLast<T>(s: seq<T>)
    requires s != []
    ensures multiset(s) == multiset(s[..|s| - 1]) + multiset{s[|s| - 1]}
  {
    assert s == s[..|s| - 1] + [s[|s| - 1]];
  }

  lemma SameRest<T>(a: multiset<T>, b: multiset<T>, x: T)
    requires a + multiset{x} == b + multiset{x}
    ensures a == b
  {
    assert a == (a + multiset{x}) - multiset{x};
    assert b == (b + multiset{x}) - multiset{x};
  }

  lemma Occurs<T>(t: seq<T>, x: T) returns (i: nat)
    requires multiset(t)[x] > 0
    ensures i < |t| && t[i] == x
  {
    assert x in t;
    i :| 0 <= i < |t| && t[i] == x;
  }

  /** The last element of a list has its place in every permutation of it. */
  lemma {:induction false} LastMatched<T>(s: seq<T>, t: seq<T>) returns (i: nat)
    requires s != [] && multiset(s) == multiset(t)
    ensures i < |t| && t[i] == s[|s| - 1] && multiset(t[..i] + t[i + 1..]) == multiset(s[..|s| - 1])
  {
    var last := s[|s| - 1];
    WithoutLast(s);
    i := Occurs(t, last);
    WithoutOne(t, i);
    SameRest(multiset(t[..i] + t[i + 1..]), multiset(s[..|s| - 1]), last);
  }

  lemma {:induction false} NothingMatched<T>(t: seq<T>)
    requires multiset(t) == multiset{}
    ensures t == []
  {
    assert |multiset(t)| == |t|;
  }

  /** A permutation has the same sum. */
  lemma {:induction false} SumByPermutation<T>(f: T -> real, s: seq<T>, t: seq<T>)
    requires multiset(s) == multiset(t)
    ensures SumBy(f, s) == SumBy(f, t)
  {
    if s == [] {
      NothingMatched(t);
    } else {
      var i := LastMatched(s, t);
      SumByPermutation(f, s[..|s| - 1], t[..i] + t[i + 1..]);
      SumByRemove(f, t, i);
    }
  }

  lemma {:induction false} SumByPointwise<T, U>(f: T -> real, s: seq<T>, g: U -> real, t: seq<U>)
    requires |s| == |t| && forall i :: 0 <= i < |s| ==> f(s[i]) == g(t[i])
    ensures SumBy(f, s) == SumBy(g, t)
  {
    if s != [] { SumByPointwise(f, s[..|s| - 1], g, t[..|t| - 1]); }
  }
}
