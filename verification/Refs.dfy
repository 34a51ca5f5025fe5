/** References (centre, entity and period identifiers) and the one total order
    that every tie-break and every `sort()` of the engines relies on. */
module Refs {

  /** An identifier. Two identifiers are equal exactly when their names are. */
  datatype Ref = Ref(name: string)

  /** `a < b` on names: lexicographic, a proper prefix first. */
  predicate NameLess(a: string, b: string) {
    if b == "" then false
    else if a == "" then true
    else if a[0] != b[0] then a[0] < b[0]
    else NameLess(a[1..], b[1..])
  }

  predicate Less(a: Ref, b: Ref) {
    NameLess(a.name, b.name)
  }

  predicate LessEq(a: Ref, b: Ref) {
    !Less(b, a)
  }

  /** Names compare by their first difference, a proper prefix coming first. */
  lemma {:induction false} NameLessIs(a: string, b: string)
    ensures NameLess(a, b) <==> a < b || exists k: nat :: DiffersAt(a, b, k) && a[k] < b[k]
  {
    if a != "" && b != "" {
      NameLessIs(a[1..], b[1..]);
      if a[0] == b[0] {
        assert a == [a[0]] + a[1..] && b == [b[0]] + b[1..];
        assert a < b <==> a[1..] < b[1..];
        forall k: nat ensures DiffersAt(a[1..], b[1..], k) <==> DiffersAt(a, b, k + 1) { DifferLater(a, b, k); }
        if k: nat :| DiffersAt(a, b, k) && a[k] < b[k] {
          assert DiffersAt(a[1..], b[1..], k - 1);
        }
        if k: nat :| DiffersAt(a[1..], b[1..], k) && a[1..][k] < b[1..][k] {
          assert DiffersAt(a, b, k + 1);
        }
      } else {
        assert DiffersAt(a, b, 0);
        assert forall k :: DiffersAt(a, b, k) ==> k == 0;
      }
    } else if b != "" {
      assert a < b;
    }
  }

  /** The first place at which two names differ. */
  ghost predicate DiffersAt(a: string, b: string, k: nat) {
    k < |a| && k < |b| && a[k] != b[k] && forall j :: 0 <= j < k ==> a[j] == b[j]
  }

  lemma DifferLater(a: string, b: string, k: nat)
    requires a != "" && b != "" && a[0] == b[0]
    ensures DiffersAt(a[1..], b[1..], k) <==> DiffersAt(a, b, k + 1)
  {
    if DiffersAt(a[1..], b[1..], k) {
      forall j | 0 <= j < k + 1 ensures a[j] == b[j] {
        if j > 0 { assert a[1..][j - 1] == b[1..][j - 1]; }
      }
    }
    if DiffersAt(a, b, k + 1) {
      forall j | 0 <= j < k ensures a[1..][j] == b[1..][j] { assert a[j + 1] == b[j + 1]; }
    }
  }

  lemma {:induction false} NameTrichotomy(a: string, b: string)
    ensures a == b || NameLess(a, b) || NameLess(b, a)
    ensures !(NameLess(a, b) && NameLess(b, a))
    ensures !NameLess(a, a)
  {
    if a != "" && b != "" && a[0] == b[0] {
      NameTrichotomy(a[1..], b[1..]);
      assert a == [a[0]] + a[1..] && b == [b[0]] + b[1..];
    }
    if a != "" { NameTrichotomy(a[1..], a[1..]); }
  }

  lemma {:induction false} NameTransitive(a: string, b: string, c: string)
    requires NameLess(a, b) && NameLess(b, c)
    ensures NameLess(a, c)
  {
    if a != "" && b != "" && c != "" && a[0] == b[0] == c[0] {
      NameTransitive(a[1..], b[1..], c[1..]);
    }
  }

  /** The order on references is total and strict. */
  lemma TotalOrder(a: Ref, b: Ref, c: Ref)
    ensures a == b || Less(a, b) || Less(b, a)
    ensures !(Less(a, b) && Less(b, a))
    ensures Less(a, b) && Less(b, c) ==> Less(a, c)
    ensures !Less(a, a)
  {
    NameTrichotomy(a.name, b.name);
    if Less(a, b) && Less(b, c) { NameTransitive(a.name, b.name, c.name); }
  }
}

/** Sorting by a comparator, standing for the runtime's `sort`. */
module Sorting {

  ghost predicate TotalPreorder<T(!new)>(le: (T, T) -> bool) {
    && (forall a, b :: le(a, b) || le(b, a))
    && (forall a, b, c :: le(a, b) && le(b, c) ==> le(a, c))
  }

  ghost predicate SortedBy<T>(le: (T, T) -> bool, s: seq<T>) {
    forall i, j :: 0 <= i < j < |s| ==> le(s[i], s[j])
  }

  function Insert<T>(le: (T, T) -> bool, x: T, s: seq<T>): (r: seq<T>)
    ensures multiset(r) == multiset{x} + multiset(s)
    ensures |r| == |s| + 1
  {
    if s == [] then [x]
    else if le(x, s[0]) then [x] + s
    else assert s == [s[0]] + s[1..]; [s[0]] + Insert(le, x, s[1..])
  }

  function Sort<T>(le: (T, T) -> bool, s: seq<T>): (r: seq<T>)
    ensures multiset(r) == multiset(s)
    ensures |r| == |s|
  {
    if s == [] then []
    else assert s == [s[0]] + s[1..]; Insert(le, s[0], Sort(le, s[1..]))
  }

  lemma {:induction false} InsertSorted<T(!new)>(le: (T, T) -> bool, x: T, s: seq<T>)
    requires TotalPreorder(le) && SortedBy(le, s)
    ensures SortedBy(le, Insert(le, x, s))
  {
    if s != [] && !le(x, s[0]) {
      InsertSorted(le, x, s[1..]);
      var r := Insert(le, x, s[1..]);
      forall k | 0 <= k < |r| ensures le(s[0], r[k]) {
        assert r[k] in multiset(r);
        assert r[k] in multiset{x} + multiset(s[1..]);
        assert r[k] == x || r[k] in s[1..];
      }
    }
  }

  /** The sorted sequence is a sorted permutation of the input. */
  lemma {:induction false} SortSorts<T(!new)>(le: (T, T) -> bool, s: seq<T>)
    requires TotalPreorder(le)
    ensures SortedBy(le, Sort(le, s))
  {
    if s != [] {
      SortSorts(le, s[1..]);
      InsertSorted(le, s[0], Sort(le, s[1..]));
    }
  }

  lemma SameElements<T>(a: seq<T>, b: seq<T>)
    requires multiset(a) == multiset(b)
    ensures forall x :: x in a <==> x in b
  {
    forall x ensures x in a <==> x in b {
      assert x in a <==> x in multiset(a);
      assert x in b <==> x in multiset(b);
    }
  }

  /** One occurrence of `x` stands before one of `y`. */
  ghost predicate Before<T>(s: seq<T>, x: T, y: T) {
    exists i, j :: 0 <= i < j < |s| && s[i] == x && s[j] == y
  }

  lemma BeforeMore<T>(s: seq<T>, x: T, y: T, t: seq<T>)
    requires Before(s, x, y)
    ensures Before(s + t, x, y)
  {
    var i, j :| 0 <= i < j < |s| && s[i] == x && s[j] == y;
    assert (s + t)[i] == x && (s + t)[j] == y;
  }

  lemma BeforeEnd<T>(s: seq<T>, x: T, y: T)
    requires x in s
    ensures Before(s + [y], x, y)
  {
    var i :| 0 <= i < |s| && s[i] == x;
    assert (s + [y])[i] == x && (s + [y])[|s|] == y;
  }

  lemma BeforeLater<T>(e: T, s: seq<T>, x: T, y: T)
    ensures Before(s, x, y) ==> Before([e] + s, x, y)
    ensures y in s ==> Before([e] + s, e, y)
  {
    var r := [e] + s;
    if Before(s, x, y) {
      var i, j :| 0 <= i < j < |s| && s[i] == x && s[j] == y;
      assert r[i + 1] == x && r[j + 1] == y;
    }
    if y in s {
      var j :| 0 <= j < |s| && s[j] == y;
      assert r[0] == e && r[j + 1] == y;
    }
  }

  lemma BeforeHead<T>(s: seq<T>, x: T, y: T)
    requires s != [] && Before(s, x, y)
    ensures (x == s[0] && y in s[1..]) || Before(s[1..], x, y)
  {
    var i, j :| 0 <= i < j < |s| && s[i] == x && s[j] == y;
    assert s[1..][j - 1] == y;
    assert i > 0 ==> s[1..][i - 1] == x;
  }

  lemma {:induction false} InsertKeepsBefore<T>(le: (T, T) -> bool, z: T, s: seq<T>, x: T, y: T)
    requires Before(s, x, y)
    ensures Before(Insert(le, z, s), x, y)
  {
    if le(z, s[0]) {
      BeforeLater(z, s, x, y);
    } else {
      var r := Insert(le, z, s[1..]);
      BeforeHead(s, x, y);
      if Before(s[1..], x, y) { InsertKeepsBefore(le, z, s[1..], x, y); }
      assert y in s[1..] ==> y in multiset(r);
      BeforeLater(s[0], r, x, y);
    }
  }

  lemma {:induction false} InsertBefore<T>(le: (T, T) -> bool, x: T, s: seq<T>, y: T)
    requires y in s && le(x, y)
    ensures Before(Insert(le, x, s), x, y)
  {
    if le(x, s[0]) {
      BeforeLater(x, s, x, y);
    } else {
      assert y in s[1..];
      InsertBefore(le, x, s[1..], y);
      BeforeLater(s[0], Insert(le, x, s[1..]), x, y);
    }
  }

  /** The sort is stable: what need not change places does not. */
  lemma {:induction false} SortStable<T>(le: (T, T) -> bool, s: seq<T>, x: T, y: T)
    requires Before(s, x, y) && le(x, y)
    ensures Before(Sort(le, s), x, y)
  {
    BeforeHead(s, x, y);
    if Before(s[1..], x, y) {
      SortStable(le, s[1..], x, y);
      InsertKeepsBefore(le, s[0], Sort(le, s[1..]), x, y);
    } else {
      SameElements(Sort(le, s[1..]), s[1..]);
      InsertBefore(le, x, Sort(le, s[1..]), y);
    }
  }

  ghost predicate Distinct<T>(s: seq<T>) {
    forall i, j :: 0 <= i < j < |s| ==> s[i] != s[j]
  }

  lemma {:induction false} SortDistinct<T>(le: (T, T) -> bool, s: seq<T>)
    requires Distinct(s)
    ensures Distinct(Sort(le, s))
  {
    if s != [] {
      SortDistinct(le, s[1..]);
      SameElements(Sort(le, s[1..]), s[1..]);
      InsertDistinct(le, s[0], Sort(le, s[1..]));
    }
  }

  lemma {:induction false} InsertDistinct<T>(le: (T, T) -> bool, x: T, s: seq<T>)
    requires Distinct(s) && x !in s
    ensures Distinct(Insert(le, x, s))
  {
    if s != [] && !le(x, s[0]) {
      InsertDistinct(le, x, s[1..]);
      var r := Insert(le, x, s[1..]);
      forall k | 0 <= k < |r| ensures s[0] != r[k] {
        assert r[k] in multiset(r);
        assert r[k] in multiset{x} + multiset(s[1..]);
        assert r[k] == x || r[k] in s[1..];
      }
    }
  }
}

/** Reference lists in order: what `refs.sort()` yields on distinct references. */
module RefLists {
  import opened Refs
  import opened Sorting

  ghost predicate StrictlySorted(s: seq<Ref>) {
    forall i, j :: 0 <= i < j < |s| ==> Less(s[i], s[j])
  }

  lemma LessEqIsTotal()
    ensures TotalPreorder(LessEq)
  {
    forall a: Ref, b: Ref ensures LessEq(a, b) || LessEq(b, a) { TotalOrder(a, b, a); }
    forall a: Ref, b: Ref, c: Ref | LessEq(a, b) && LessEq(b, c) ensures LessEq(a, c) {
      TotalOrder(a, b, c);
      TotalOrder(c, a, b);
      TotalOrder(b, c, a);
    }
  }

  lemma {:induction false} SortedStrictly(s: seq<Ref>)
    requires Distinct(s)
    ensures StrictlySorted(Sort(LessEq, s)) && Distinct(Sort(LessEq, s))
    ensures forall x :: x in Sort(LessEq, s) <==> x in s
  {
    LessEqIsTotal();
    SortSorts(LessEq, s);
    SortDistinct(LessEq, s);
    SameElements(Sort(LessEq, s), s);
    var r := Sort(LessEq, s);
    forall i, j | 0 <= i < j < |r| ensures Less(r[i], r[j]) {
      assert LessEq(r[i], r[j]);
      TotalOrder(r[i], r[j], r[i]);
    }
  }

  /** The sorted form of a set of references does not depend on where it came from. */
  lemma {:induction false} StrictlySortedUnique(a: seq<Ref>, b: seq<Ref>)
    requires StrictlySorted(a) && StrictlySorted(b)
    requires forall x :: x in a <==> x in b
    ensures a == b
  {
    assert a != [] ==> a[0] in a;
    assert b != [] ==> b[0] in b;
    if a != [] && b != [] {
      if a[0] != b[0] {
        assert a[0] in b && b[0] in a;
        TotalOrder(a[0], b[0], a[0]);
        assert false;
      }
      forall x ensures x in a[1..] <==> x in b[1..] {
        TotalOrder(a[0], a[0], a[0]);
        assert x in a[1..] ==> x in a && Less(a[0], x);
        assert x in b[1..] ==> x in b && Less(b[0], x);
      }
      StrictlySortedUnique(a[1..], b[1..]);
      assert a == [a[0]] + a[1..] && b == [b[0]] + b[1..];
    }
  }

  lemma PlacesDiffer(es: seq<Ref>)
    requires StrictlySorted(es)
    ensures forall i, j :: 0 <= i < |es| && 0 <= j < |es| && es[i] == es[j] ==> i == j
  {
    forall i, j | 0 <= i < |es| && 0 <= j < |es| && es[i] == es[j] ensures i == j {
      TotalOrder(es[i], es[j], es[i]);
    }
  }

  ghost predicate Indexes(index: map<Ref, nat>, refs: seq<Ref>) {
    && (forall x :: x in index <==> x in refs)
    && (forall i :: 0 <= i < |refs| ==> refs[i] in index && index[refs[i]] == i)
    && (forall x :: x in index ==> index[x] < |refs| && refs[index[x]] == x)
  }

  /** The map from reference to its place. */
  method IndexRefs(refs: seq<Ref>) returns (index: map<Ref, nat>)
    requires StrictlySorted(refs)
    ensures Indexes(index, refs)
  {
    index := map[];
    for i := 0 to |refs|
      invariant forall x :: x in index <==> x in refs[..i]
      invariant forall k :: 0 <= k < i ==> refs[k] in index && index[refs[k]] == k
      invariant forall x :: x in index ==> index[x] < i && refs[index[x]] == x
    {
      forall k | 0 <= k < i ensures refs[k] != refs[i] { TotalOrder(refs[k], refs[i], refs[k]); }
      index := index[refs[i] := i];
    }
    assert refs[..|refs|] == refs;
  }
}
