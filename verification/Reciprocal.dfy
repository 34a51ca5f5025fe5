/** Reciprocal cost allocation: renormalise, test every strongly connected
    component for leakage, solve exactly, and distribute to production. */
module Reciprocal {
  import opened Refs
  import opened Sorting
  import opened RefLists
  import opened Graphs
  import opened StrongComponents
  import opened ExactRational
  import opened LinearAlgebra
  import opened LinearSolver
  import opened Options
  import opened Circulation
  import opened ReciprocalModel
  import opened SelfExclusion

  // ------------------------------------------------------------------- the graph

  /** The consumers that are service centres themselves, in consumer order. */
  function ServiceConsumers(l: seq<Consumer>, services: set<Ref>): (r: seq<Ref>)
    ensures forall y :: y in r <==> y in services && IsConsumer(l, y)
  {
    if l == [] then []
    else
      var m, last := l[..|l| - 1], l[|l| - 1];
      var rest := ServiceConsumers(m, services);
      assert forall y :: IsConsumer(l, y) <==> IsConsumer(m, y) || y == last.ref by { ConsumersOfPrefix(l); }
      if last.ref in services then rest + [last.ref] else rest
  }

  lemma ConsumersOfPrefix(l: seq<Consumer>)
    requires l != []
    ensures forall y :: IsConsumer(l, y) <==> IsConsumer(l[..|l| - 1], y) || y == l[|l| - 1].ref
  {
    var m := l[..|l| - 1];
    forall y ensures IsConsumer(l, y) <==> IsConsumer(m, y) || y == l[|l| - 1].ref {
      if k :| 0 <= k < |m| && m[k].ref == y { assert l[k].ref == y; }
    }
  }

  method BuildGraph(cs: seq<Centre>) returns (g: Graph)
    requires DistinctRefs(cs)
    ensures IsServiceGraph(g, cs)
  {
    hide IsConsumer;
    g := map[];
    for k := 0 to |cs|
      invariant forall x :: x in g <==> exists j :: 0 <= j < k && cs[j].ref == x
      invariant forall j :: 0 <= j < k ==>
        cs[j].ref in g && g[cs[j].ref] == ServiceConsumers(cs[j].consumers, RefsOf(cs))
    {
      g := g[cs[k].ref := ServiceConsumers(cs[k].consumers, RefsOf(cs))];
    }
    assert g.Keys == RefsOf(cs);
  }

  // ----------------------------------------------------------------- the leakage

  function FindCentre(cs: seq<Centre>, r: Ref): Option<Centre> {
    if cs == [] then None
    else if cs[0].ref == r then Some(cs[0])
    else FindCentre(cs[1..], r)
  }

  lemma {:induction false} FindCentreFinds(cs: seq<Centre>, r: Ref)
    ensures match FindCentre(cs, r)
      case Some(c) => exists k :: 0 <= k < |cs| && cs[k] == c && c.ref == r
      case None => forall k :: 0 <= k < |cs| ==> cs[k].ref != r
  {
    if cs != [] {
      FindCentreFinds(cs[1..], r);
      assert cs == [cs[0]] + cs[1..];
    }
  }

  /** What the first `k` members of a component pass outside it. */
  ghost function LeakageOf(cs: seq<Centre>, component: seq<Ref>, k: nat): real
    requires k <= |component|
  {
    if k == 0 then 0.0
    else
      LeakageOf(cs, component, k - 1) + match FindCentre(cs, component[k - 1])
        case None => 0.0
        case Some(c) => 1.0 - InsideShare(c.consumers, Members(component))
  }

  method InsideShareOf(l: seq<Consumer>, members: set<Ref>) returns (inside: Rational)
    ensures Val(inside) == InsideShare(l, members)
  {
    hide RAdd, Val;
    inside := R_ZERO;
    UnitValues();
    for k := 0 to |l|
      invariant Val(inside) == InsideShare(l[..k], members)
    {
      assert l[..k + 1][..k] == l[..k];
      if l[k].ref in members {
        inside := RAdd(inside, l[k].share);
      }
    }
    assert l[..|l|] == l;
  }

  method Leakage(cs: seq<Centre>, component: seq<Ref>) returns (leakage: Rational)
    ensures Val(leakage) == LeakageOf(cs, component, |component|)
  {
    hide RAdd, RSub, Val;
    UnitValues();
    var members := Members(component);
    leakage := R_ZERO;
    for k := 0 to |component|
      invariant Val(leakage) == LeakageOf(cs, component, k)
    {
      var centre := FindCentre(cs, component[k]);
      if centre.Some? {
        var inside := InsideShareOf(centre.value.consumers, members);
        leakage := RAdd(leakage, RSub(R_ONE, inside));
      }
    }
  }

  /** The first component that leaks nothing, if any. */
  method FindClosed(cs: seq<Centre>, components: seq<seq<Ref>>) returns (closed: Option<seq<Ref>>)
    ensures match closed
      case Some(c) => c in components && LeakageOf(cs, c, |c|) == 0.0
      case None => forall k :: 0 <= k < |components| ==> LeakageOf(cs, components[k], |components[k]|) != 0.0
  {
    hide Val, LeakageOf;
    for k := 0 to |components|
      invariant forall i :: 0 <= i < k ==> LeakageOf(cs, components[i], |components[i]|) != 0.0
    {
      var leakage := Leakage(cs, components[k]);
      CompareValues(leakage, R_ZERO);
      if RIsZero(leakage) {
        return Some(components[k]);
      }
    }
    return None;
  }

  lemma {:induction false} LeakageTerms(cs: seq<Centre>, component: seq<Ref>, k: nat)
    requires SubShares(cs) && k <= |component|
    ensures LeakageOf(cs, component, k) >= 0.0
    ensures LeakageOf(cs, component, k) == 0.0 <==>
      forall m :: 0 <= m < k ==> match FindCentre(cs, component[m])
        case None => true
        case Some(c) => InsideShare(c.consumers, Members(component)) == 1.0
  {
    hide InsideShare;
    if k > 0 {
      LeakageTerms(cs, component, k - 1);
      var f := FindCentre(cs, component[k - 1]);
      FindCentreFinds(cs, component[k - 1]);
      if f.Some? { InsideAtMostTotal(f.value.consumers, Members(component)); }
    }
  }

  /** The leakage sum is zero exactly when the component is leak-free. */
  lemma {:induction false} ZeroLeakage(cs: seq<Centre>, component: seq<Ref>)
    requires DistinctRefs(cs) && SubShares(cs)
    requires component != [] && Members(component) <= RefsOf(cs)
    ensures LeakageOf(cs, component, |component|) == 0.0 <==> LeakFreeRefs(cs, Members(component))
  {
    hide InsideShare, LeakageOf, SubShares;
    LeakageTerms(cs, component, |component|);
    assert component[0] in Members(component);
    forall j | 0 <= j < |cs| ensures FindCentre(cs, cs[j].ref) == Some(cs[j]) {
      FindCentreFinds(cs, cs[j].ref);
    }
    forall m | 0 <= m < |component| ensures exists j :: 0 <= j < |cs| && cs[j].ref == component[m] {
      assert component[m] in Members(component);
    }
  }

  // --------------------------------------------------------- order and the matrix

  predicate CentreLessEq(a: Centre, b: Centre) {
    LessEq(a.ref, b.ref)
  }

  function RefList(cs: seq<Centre>): (r: seq<Ref>)
    ensures |r| == |cs| && forall k :: 0 <= k < |cs| ==> r[k] == cs[k].ref
  {
    if cs == [] then [] else RefList(cs[..|cs| - 1]) + [cs[|cs| - 1].ref]
  }

  /** The centres in reference order: the order of rows and columns. */
  function InOrder(cs: seq<Centre>): seq<Centre> {
    Sort(CentreLessEq, cs)
  }

  /** Sorting keeps the centres; with distinct references the order is strict. */
  lemma InOrderRefs(cs: seq<Centre>)
    requires DistinctRefs(cs)
    ensures DistinctRefs(InOrder(cs)) && RefsOf(InOrder(cs)) == RefsOf(cs)
    ensures |InOrder(cs)| == |cs| && multiset(InOrder(cs)) == multiset(cs)
    ensures forall c :: c in InOrder(cs) <==> c in cs
    ensures StrictlySorted(RefList(InOrder(cs)))
  {
    var o := InOrder(cs);
    SameElements(o, cs);
    OrderedRefs(cs);
    hide InOrder, DistinctRefs, StrictlySorted;
    SameCentresSameRefs(o, cs);
  }

  lemma InOrderKeeps(cs: seq<Centre>)
    requires WellKeyed(cs)
    ensures WellKeyed(InOrder(cs)) && RefsOf(InOrder(cs)) == RefsOf(cs)
    ensures |InOrder(cs)| == |cs| && multiset(InOrder(cs)) == multiset(cs)
    ensures forall c :: c in InOrder(cs) <==> c in cs
    ensures StrictlySorted(RefList(InOrder(cs)))
    ensures FairShares(cs) ==> FairShares(InOrder(cs))
    ensures SubShares(cs) ==> SubShares(InOrder(cs))
    ensures WholeShares(cs) ==> WholeShares(InOrder(cs))
    ensures LastEach(InOrder(cs)) == InOrder(cs)
  {
    hide DistinctConsumers, DistinctRefs, StrictlySorted, InOrder;
    var o := InOrder(cs);
    InOrderRefs(cs);
    forall k | 0 <= k < |o| ensures DistinctConsumers(o[k].consumers) { var i := InOrderMember(cs, k); }
    LastEachIs(o);
    OrderedShares(cs);
  }

  lemma OrderedShares(cs: seq<Centre>)
    ensures FairShares(cs) ==> FairShares(InOrder(cs))
    ensures SubShares(cs) ==> SubShares(InOrder(cs))
    ensures WholeShares(cs) ==> WholeShares(InOrder(cs))
  {
    hide PositiveShares, NonNegativeShares, TotalShare, InOrder;
    var o := InOrder(cs);
    forall k | 0 <= k < |o| ensures exists i :: 0 <= i < |cs| && cs[i] == o[k] { var i := InOrderMember(cs, k); }
  }

  lemma SameCentresSameRefs(o: seq<Centre>, cs: seq<Centre>)
    requires forall c :: c in o <==> c in cs
    ensures RefsOf(o) == RefsOf(cs)
  {
    forall x ensures x in RefsOf(o) <==> x in RefsOf(cs) {
      if x in RefsOf(o) { var k :| 0 <= k < |o| && o[k].ref == x; assert o[k] in cs; }
      if x in RefsOf(cs) { var k :| 0 <= k < |cs| && cs[k].ref == x; assert cs[k] in o; }
    }
  }

  lemma OrderedRefs(cs: seq<Centre>)
    requires DistinctRefs(cs)
    ensures StrictlySorted(RefList(InOrder(cs))) && DistinctRefs(InOrder(cs))
  {
    var o := InOrder(cs);
    assert TotalPreorder(CentreLessEq) by { CentreOrder(); }
    SortSorts(CentreLessEq, cs);
    SortDistinct(CentreLessEq, cs);
    SameElements(o, cs);
    forall i, j | 0 <= i < j < |o| ensures Less(o[i].ref, o[j].ref) {
      assert CentreLessEq(o[i], o[j]);
      assert o[i] in cs && o[j] in cs && o[i] != o[j];
      var k :| 0 <= k < |cs| && cs[k] == o[i];
      var l :| 0 <= l < |cs| && cs[l] == o[j];
      TotalOrder(o[i].ref, o[j].ref, o[i].ref);
    }
    forall i, j | 0 <= i < j < |o| ensures o[i].ref != o[j].ref {
      TotalOrder(o[i].ref, o[j].ref, o[i].ref);
    }
  }

  lemma CentreOrder()
    ensures TotalPreorder(CentreLessEq)
  {
    LessEqIsTotal();
    forall a: Centre, b: Centre ensures CentreLessEq(a, b) || CentreLessEq(b, a) {
      assert LessEq(a.ref, b.ref) || LessEq(b.ref, a.ref);
    }
    forall a: Centre, b: Centre, c: Centre | CentreLessEq(a, b) && CentreLessEq(b, c) ensures CentreLessEq(a, c) {
      assert LessEq(a.ref, b.ref) && LessEq(b.ref, c.ref);
    }
  }

  /** One row of the matrix: a consumer's share at the consumer's column, a later entry
      over an earlier one. */
  method FillRow(l: seq<Consumer>, refs: seq<Ref>, index: map<Ref, nat>) returns (row: seq<Rational>)
    requires Indexes(index, refs)
    ensures IsRow(row, LastOnly(l), refs)
  {
    hide Val, LastOnly, InsideShare;
    UnitValues();
    row := seq(|refs|, _ => R_ZERO);
    NothingShared(refs);
    for k := 0 to |l|
      invariant |row| == |refs|
      invariant forall i :: 0 <= i < |refs| ==> Val(row[i]) == InsideShare(LastOnly(l[..k]), {refs[i]})
    {
      OneMoreShare(l, k, refs);
      if l[k].ref in index {
        row := row[index[l[k].ref] := l[k].share];
      }
    }
    assert l[..|l|] == l;
  }

  lemma NothingShared(refs: seq<Ref>)
    ensures forall i :: 0 <= i < |refs| ==> InsideShare(LastOnly([]), {refs[i]}) == 0.0
  {
  }

  lemma OneMoreShare(l: seq<Consumer>, k: nat, refs: seq<Ref>)
    requires k < |l|
    ensures l[..k + 1][..k] == l[..k]
    ensures forall i :: 0 <= i < |refs| ==>
      InsideShare(LastOnly(l[..k + 1]), {refs[i]})
      == (if refs[i] == l[k].ref then Val(l[k].share) else InsideShare(LastOnly(l[..k]), {refs[i]}))
  {
    hide Val, LastOnly;
    var p := l[..k + 1];
    assert p[..k] == l[..k];
    forall i | 0 <= i < |refs| ensures InsideShare(LastOnly(p), {refs[i]})
      == if refs[i] == l[k].ref then Val(l[k].share) else InsideShare(LastOnly(l[..k]), {refs[i]})
    {
      LastShares(p, {refs[i]});
      NobodyInside(LastOnly(l[..k]));
      hide InsideShare;
      assert refs[i] != l[k].ref ==> {refs[i]} - {l[k].ref} == {refs[i]};
      assert refs[i] == l[k].ref ==> {refs[i]} - {l[k].ref} == {};
    }
  }

  lemma {:induction false} NobodyInside(l: seq<Consumer>)
    ensures InsideShare(l, {}) == 0.0
  {
    if l != [] { NobodyInside(l[..|l| - 1]); }
  }

  method BuildMatrix(clean: seq<Centre>, refs: seq<Ref>) returns (a: RationalMatrix)
    requires DistinctRefs(clean) && refs == RefList(InOrder(clean)) && StrictlySorted(refs)
    ensures Square(a, |refs|) && View(a) == ShareMatrix(LastEach(InOrder(clean)))
  {
    hide Val, InsideShare, InOrder, DistinctRefs, IsRow, ShareMatrix, View, Square, StrictlySorted, Indexes, LastOnly;
    var index := IndexRefs(refs);
    CentresIndexed(clean, refs, index);
    var rows := new seq<Rational>[|refs|](_ => []);
    for k := 0 to |clean|
      invariant forall i :: 0 <= i < k ==> IsRow(rows[index[clean[i].ref]], LastOnly(clean[i].consumers), refs)
    {
      var row := FillRow(clean[k].consumers, refs, index);
      rows[index[clean[k].ref]] := row;
    }
    a := rows[..];
    RowsInOrder(clean, refs, index, a);
  }

  /** Every centre has a place of its own. */
  lemma CentresIndexed(clean: seq<Centre>, refs: seq<Ref>, index: map<Ref, nat>)
    requires DistinctRefs(clean) && refs == RefList(InOrder(clean)) && Indexes(index, refs)
    ensures forall i :: 0 <= i < |clean| ==> clean[i].ref in index && index[clean[i].ref] < |refs|
    ensures forall i, k :: 0 <= i < k < |clean| ==> index[clean[i].ref] != index[clean[k].ref]
  {
    hide InOrder, Less;
    assert |InOrder(clean)| == |clean| && forall c :: c in InOrder(clean) <==> c in clean by { InOrderRefs(clean); }
    var cs := InOrder(clean);
    forall i | 0 <= i < |clean| ensures clean[i].ref in refs {
      assert clean[i] in cs;
      var j :| 0 <= j < |cs| && cs[j] == clean[i];
      assert refs[j] == clean[i].ref;
    }
  }

  lemma {:induction false} RowsInOrder(clean: seq<Centre>, refs: seq<Ref>, index: map<Ref, nat>, a: RationalMatrix)
    requires DistinctRefs(clean) && refs == RefList(InOrder(clean)) && |a| == |refs|
    requires Indexes(index, refs)
    requires forall i :: 0 <= i < |clean| ==> clean[i].ref in index && index[clean[i].ref] < |refs|
    requires forall i :: 0 <= i < |clean| ==> IsRow(a[index[clean[i].ref]], LastOnly(clean[i].consumers), refs)
    ensures Square(a, |refs|) && View(a) == ShareMatrix(LastEach(InOrder(clean)))
  {
    hide InOrder, DistinctRefs, IsRow, ShareMatrix, View, Square, Indexes, LastOnly;
    var cs := LastEach(InOrder(clean));
    forall j | 0 <= j < |cs| ensures IsRow(a[j], cs[j].consumers, refs) {
      var i := InOrderMember(clean, j);
      IndexAt(index, refs, j);
      assert refs[j] == clean[i].ref;
    }
    SameRefLists(InOrder(clean), cs);
    RowsAreMatrix(cs, a, refs);
  }

  lemma SameRefLists(cs: seq<Centre>, ds: seq<Centre>)
    requires |cs| == |ds| && forall k :: 0 <= k < |cs| ==> cs[k].ref == ds[k].ref
    ensures RefList(cs) == RefList(ds) && RefsOf(cs) == RefsOf(ds)
  {
    SameRefs(cs, ds);
    assert RefList(cs) == RefList(ds);
  }

  lemma InOrderMember(clean: seq<Centre>, j: nat) returns (i: nat)
    requires j < |InOrder(clean)|
    ensures i < |clean| && clean[i] == InOrder(clean)[j]
  {
    SameElements(InOrder(clean), clean);
    assert InOrder(clean)[j] in clean;
    i :| i < |clean| && clean[i] == InOrder(clean)[j];
  }

  lemma IndexAt(index: map<Ref, nat>, refs: seq<Ref>, j: nat)
    requires Indexes(index, refs) && j < |refs|
    ensures refs[j] in index && index[refs[j]] == j
  {
  }

  ghost predicate IsRow(row: seq<Rational>, l: seq<Consumer>, refs: seq<Ref>) {
    |row| == |refs| && forall i :: 0 <= i < |refs| ==> Val(row[i]) == InsideShare(l, {refs[i]})
  }

  lemma {:induction false} RowsAreMatrix(cs: seq<Centre>, a: RationalMatrix, refs: seq<Ref>)
    requires refs == RefList(cs) && |a| == |cs|
    requires forall j :: 0 <= j < |cs| ==> IsRow(a[j], cs[j].consumers, refs)
    ensures Square(a, |cs|) && View(a) == ShareMatrix(cs)
  {
    hide Val, InsideShare;
    var v, m := View(a), ShareMatrix(cs);
    forall j | 0 <= j < |cs| ensures v[j] == m[j] {
      forall i | 0 <= i < |cs| ensures v[j][i] == m[j][i] { MatrixEntry(cs, j, i); }
    }
  }

  // -------------------------------------------------------------- the distribution

  /** The totals of the centres, in the order of `cs`. */
  ghost function TotalsRow(cs: seq<Centre>, totals: map<Ref, Rational>): (x: Row)
    requires RefsOf(cs) <= totals.Keys
    ensures |x| == |cs|
    ensures forall i :: 0 <= i < |cs| ==> cs[i].ref in totals && x[i] == Val(totals[cs[i].ref])
  {
    seq(|cs|, i requires 0 <= i < |cs| => assert cs[i].ref in RefsOf(cs); Val(totals[cs[i].ref]))
  }

  /** What the first `k` centres hand to recipient `r`. */
  ghost function Received(cs: seq<Centre>, totals: map<Ref, Rational>, r: Ref, k: nat): real
    requires RefsOf(cs) <= totals.Keys && k <= |cs|
  {
    if k == 0 then 0.0
    else
      assert cs[k - 1].ref in RefsOf(cs);
      Received(cs, totals, r, k - 1) + Val(totals[cs[k - 1].ref]) * InsideShare(cs[k - 1].consumers, {r})
  }

  ghost function SumValues(m: map<Ref, Rational>): real
    decreases |m|
  {
    if m == map[] then 0.0
    else
      var k :| k in m;
      Val(m[k]) + SumValues(m - {k})
  }

  lemma {:induction false} SumRemove(m: map<Ref, Rational>, k: Ref)
    requires k in m
    ensures SumValues(m) == Val(m[k]) + SumValues(m - {k})
    decreases |m|
  {
    hide Val;
    var j :| j in m && SumValues(m) == Val(m[j]) + SumValues(m - {j});
    if j != k {
      SumRemove(m - {j}, k);
      SumRemove(m - {k}, j);
      assert m - {j} - {k} == m - {k} - {j};
    }
  }

  /** The value at a key, zero without one. */
  function Current(m: map<Ref, Rational>, k: Ref): Rational {
    if k in m then m[k] else R_ZERO
  }

  lemma SumUpdate(m: map<Ref, Rational>, k: Ref, v: Rational)
    ensures SumValues(m[k := v]) == SumValues(m) - Val(Current(m, k)) + Val(v)
  {
    hide Val;
    UnitValues();
    SumRemove(m[k := v], k);
    if k in m {
      SumRemove(m, k);
      assert m[k := v] - {k} == m - {k};
    } else {
      assert m[k := v] - {k} == m;
    }
  }

  /** The share that goes to recipients that are not service centres. */
  ghost function OutsideShare(l: seq<Consumer>, services: set<Ref>): real {
    TotalShare(l) - InsideShare(l, services)
  }

  /** `after` is `before` with the shares in `l` of a total `x` handed out to the
      recipients that are not service centres. */
  ghost predicate Distributed(l: seq<Consumer>, services: set<Ref>, x: real, before: map<Ref, Rational>,
                              after: map<Ref, Rational>) {
    && SumValues(after) == SumValues(before) + x * OutsideShare(l, services)
    && (forall r :: r in after <==> r in before || (r !in services && IsConsumer(l, r)))
    && (forall r :: r !in services ==> Val(Current(after, r)) == Val(Current(before, r)) + x * InsideShare(l, {r}))
  }

  method Distribute(l: seq<Consumer>, services: set<Ref>, xi: Rational, before: map<Ref, Rational>)
      returns (after: map<Ref, Rational>)
    ensures Distributed(l, services, Val(xi), before, after)
  {
    hide Distributed;
    after := before;
    assert Distributed(l[..0], services, Val(xi), before, after) by {
      NothingDistributed(l[..0], services, Val(xi), before);
    }
    for k := 0 to |l|
      invariant Distributed(l[..k], services, Val(xi), before, after)
    {
      assert l[..k + 1][..k] == l[..k];
      if l[k].ref in services {
        DistributedSkip(l[..k + 1], services, Val(xi), before, after);
      } else {
        ghost var m := after;
        after := after[l[k].ref := RAdd(Current(after, l[k].ref), RMul(xi, l[k].share))];
        DistributedStep(l[..k + 1], services, xi, before, m, after);
      }
    }
    assert l[..|l|] == l;
  }

  lemma NothingDistributed(l: seq<Consumer>, services: set<Ref>, x: real, before: map<Ref, Rational>)
    requires l == []
    ensures Distributed(l, services, x, before, before)
  {
    NoConsumers(l);
  }

  lemma DistributedSkip(l: seq<Consumer>, services: set<Ref>, x: real, before: map<Ref, Rational>, after: map<Ref,
                        Rational>)
    requires l != [] && l[|l| - 1].ref in services
    requires Distributed(l[..|l| - 1], services, x, before, after)
    ensures Distributed(l, services, x, before, after)
  {
    hide Val, SumValues, IsConsumer;
    ConsumersOfPrefix(l);
    assert OutsideShare(l, services) == OutsideShare(l[..|l| - 1], services);
  }

  lemma DistributedStep(l: seq<Consumer>, services: set<Ref>, xi: Rational, before: map<Ref, Rational>, m: map<Ref,
                        Rational>, after: map<Ref, Rational>)
    requires l != [] && l[|l| - 1].ref !in services
    requires Distributed(l[..|l| - 1], services, Val(xi), before, m)
    requires after == m[l[|l| - 1].ref := RAdd(Current(m, l[|l| - 1].ref), RMul(xi, l[|l| - 1].share))]
    ensures Distributed(l, services, Val(xi), before, after)
  {
    hide Val, SumValues, IsConsumer, RAdd, RMul, InsideShare, TotalShare, OutsideShare, Current;
    ConsumersOfPrefix(l);
    DistributedSum(l, services, xi, m, after);
    forall r | r !in services
      ensures Val(Current(after, r)) == Val(Current(before, r)) + Val(xi) * InsideShare(l, {r})
    {
      DistributedTo(l, xi, r, m, after);
    }
  }

  lemma {:induction false} DistributedSum(l: seq<Consumer>, services: set<Ref>, xi: Rational, m: map<Ref, Rational>,
                                          after: map<Ref, Rational>)
    requires l != [] && l[|l| - 1].ref !in services
    requires after == m[l[|l| - 1].ref := RAdd(Current(m, l[|l| - 1].ref), RMul(xi, l[|l| - 1].share))]
    ensures SumValues(after) - SumValues(m)
      == Val(xi) * OutsideShare(l, services) - Val(xi) * OutsideShare(l[..|l| - 1], services)
  {
    hide Val, RAdd, RMul, InsideShare, TotalShare, SumValues, Current;
    var last := l[|l| - 1];
    SumUpdate(m, last.ref, RAdd(Current(m, last.ref), RMul(xi, last.share)));
    ShareSteps(l, services);
    StepProduct(Val(xi), OutsideShare(l[..|l| - 1], services), OutsideShare(l, services), Val(last.share));
  }

  lemma {:induction false} DistributedTo(l: seq<Consumer>, xi: Rational, r: Ref, m: map<Ref, Rational>,
                                         after: map<Ref, Rational>)
    requires l != []
    requires after == m[l[|l| - 1].ref := RAdd(Current(m, l[|l| - 1].ref), RMul(xi, l[|l| - 1].share))]
    ensures Val(Current(after, r)) - Val(Current(m, r))
      == Val(xi) * InsideShare(l, {r}) - Val(xi) * InsideShare(l[..|l| - 1], {r})
  {
    hide Val, RAdd, RMul, InsideShare, TotalShare;
    ShareSteps(l, {r});
    if l[|l| - 1].ref == r {
      StepProduct(Val(xi), InsideShare(l[..|l| - 1], {r}), InsideShare(l, {r}), Val(l[|l| - 1].share));
    }
  }

  lemma StepProduct(x: real, e: real, f: real, v: real)
    requires f == e + v
    ensures x * f == x * e + x * v
  {
  }

  lemma NoConsumers(l: seq<Consumer>)
    requires l == []
    ensures forall r :: !IsConsumer(l, r)
  {
  }

  // ---------------------------------------------------------------- the whole run

  datatype Refusal =
    | SelfServiceRatioInvalid(centre: Ref)
    | SystemClosed(component: seq<Ref>)
    | SingularDespiteLeakage
    | SystemDegenerate

  datatype ReciprocalSolution = ReciprocalSolution(
    totals: map<Ref, Rational>,
    toProduction: map<Ref, Rational>,
    circulationRatio: Rational,
    review: bool)

  datatype Result = Ok(value: ReciprocalSolution) | Refused(refusal: Refusal)

  function FromInt(k: int): (r: Rational)
    ensures Val(r) == k as real
  {
    Make(k, 1)
  }

  /** Renormalises every centre; the first invalid self-share refuses. */
  /** The first centre that takes all of its own output. */
  ghost predicate FirstWhole(cs: seq<Centre>, ref: Ref) {
    exists k ::
      && 0 <= k < |cs| && cs[k].ref == ref && OwnShareWhole(cs[k])
      && (forall j :: 0 <= j < k ==> !OwnShareWhole(cs[j]))
  }

  method NormaliseCentres(cs: seq<Centre>) returns (invalid: Option<Ref>, clean: seq<Centre>)
    ensures invalid.None? <==> AllSelfSharesValid(cs)
    ensures invalid.None? <==> forall k :: 0 <= k < |cs| ==> !OwnShareWhole(cs[k])
    ensures invalid.None? ==> clean == NormaliseAll(cs)
    ensures invalid.Some? ==> FirstWhole(cs, invalid.value)
  {
    hide SelfShareInvalid, Normalised, OwnShareWhole;
    clean := [];
    for k := 0 to |cs|
      invariant forall i :: 0 <= i < k ==> !SelfShareInvalid(cs[i]) && !OwnShareWhole(cs[i])
      invariant |clean| == k && forall i :: 0 <= i < k ==> clean[i] == Normalised(cs[i])
    {
      InvalidIsWhole(cs[k]);
      if SelfShareInvalid(cs[k]) {
        return Some(cs[k].ref), [];
      }
      clean := clean + [Normalised(cs[k])];
    }
    return None, clean;
  }

  method PrimaryVector(ordered: seq<Centre>) returns (b: seq<Rational>)
    ensures |b| == |ordered| && RowView(b) == PrimaryCosts(ordered)
  {
    hide Val, FromInt;
    b := [];
    for i := 0 to |ordered|
      invariant |b| == i && forall k :: 0 <= k < i ==> Val(b[k]) == ordered[k].primary as real
    {
      b := b + [FromInt(ordered[i].primary)];
    }
  }

  method TotalsMap(refs: seq<Ref>, x: seq<Rational>, ghost cs: seq<Centre>) returns (totals: map<Ref, Rational>)
    requires |x| == |refs| && refs == RefList(cs) && DistinctRefs(cs)
    ensures totals.Keys == RefsOf(cs) && TotalsRow(cs, totals) == RowView(x)
  {
    hide Val;
    totals := map[];
    for i := 0 to |refs|
      invariant forall r :: r in totals <==> exists k :: 0 <= k < i && refs[k] == r
      invariant forall k :: 0 <= k < i ==> refs[k] in totals && totals[refs[k]] == x[k]
    {
      totals := totals[refs[i] := x[i]];
    }
    assert totals.Keys == RefsOf(cs);
  }

  method SumVector(x: seq<Rational>) returns (sum: Rational)
    ensures Val(sum) == Sum(RowView(x), |x|)
  {
    hide Val, RAdd;
    UnitValues();
    sum := R_ZERO;
    for i := 0 to |x|
      invariant Val(sum) == Sum(RowView(x), i)
    {
      sum := RAdd(sum, x[i]);
    }
  }

  /** Sum of totals over sum of primary costs, one when the latter is zero. */
  ghost function CirculationRatio(b: Row, x: Row): real {
    if Sum(b, |b|) == 0.0 then 1.0 else Sum(x, |x|) / Sum(b, |b|)
  }

  /** `m` holds what the first `k` centres hand to production: the right keys, the
      right amount for each, and the right amount altogether. */
  ghost predicate HandedAll(cs: seq<Centre>, totals: map<Ref, Rational>, k: nat, m: map<Ref, Rational>)
    requires RefsOf(cs) == totals.Keys && k <= |cs|
  {
    && SumValues(m) == HandedOn(cs, totals, k)
    && (forall r :: r in m <==> r !in totals && ConsumedByFirst(cs, r, k))
    && (forall r :: r !in totals ==> Val(Current(m, r)) == Received(cs, totals, r, k))
  }

  ghost predicate ConsumedByFirst(cs: seq<Centre>, r: Ref, k: nat)
    requires k <= |cs|
  {
    exists i :: 0 <= i < k && IsConsumer(cs[i].consumers, r)
  }

  method DistributeAll(clean: seq<Centre>, totals: map<Ref, Rational>) returns (toProduction: map<Ref, Rational>)
    requires RefsOf(clean) == totals.Keys
    ensures HandedAll(clean, totals, |clean|, toProduction)
  {
    hide Distributed, HandedAll;
    NothingHandedOn(clean, totals);
    toProduction := map[];
    for k := 0 to |clean|
      invariant HandedAll(clean, totals, k, toProduction)
    {
      assert clean[k].ref in RefsOf(clean);
      var before := toProduction;
      toProduction := Distribute(clean[k].consumers, totals.Keys, totals[clean[k].ref], before);
      HandedOneMore(clean, totals, k, before, toProduction);
    }
  }

  lemma HandedOneMore(cs: seq<Centre>, totals: map<Ref, Rational>, k: nat, before: map<Ref, Rational>, after: map<Ref,
                      Rational>)
    requires RefsOf(cs) == totals.Keys && k < |cs| && cs[k].ref in totals
    requires HandedAll(cs, totals, k, before)
    requires Distributed(cs[k].consumers, totals.Keys, Val(totals[cs[k].ref]), before, after)
    ensures HandedAll(cs, totals, k + 1, after)
  {
    hide Val, IsConsumer, SumValues, InsideShare, OutsideShare, Current;
    assert forall r :: ConsumedByFirst(cs, r, k + 1) <==> ConsumedByFirst(cs, r, k) || IsConsumer(cs[k].consumers, r);
  }

  lemma NothingHandedOn(cs: seq<Centre>, totals: map<Ref, Rational>)
    requires RefsOf(cs) == totals.Keys
    ensures HandedAll(cs, totals, 0, map[])
  {
    UnitValues();
  }

  /** What the first `k` centres hand to production altogether. */
  ghost function HandedOn(cs: seq<Centre>, totals: map<Ref, Rational>, k: nat): real
    requires RefsOf(cs) == totals.Keys && k <= |cs|
  {
    if k == 0 then 0.0
    else
      assert cs[k - 1].ref in RefsOf(cs);
      HandedOn(cs, totals, k - 1) + Val(totals[cs[k - 1].ref]) * OutsideShare(cs[k - 1].consumers, totals.Keys)
  }

  // ------------------------------------------------- the components and the system

  lemma SameCentres(cs: seq<Centre>, o: seq<Centre>, g: Graph, s: set<Ref>)
    requires forall c :: c in o <==> c in cs
    ensures RefsOf(o) == RefsOf(cs)
    ensures IsServiceGraph(g, cs) ==> IsServiceGraph(g, o)
    ensures LeakFreeRefs(cs, s) <==> LeakFreeRefs(o, s)
  {
    hide InsideShare, IsConsumer;
    SameCentresSameRefs(o, cs);
    GraphOfSame(cs, o, g);
    forall j | 0 <= j < |o| && LeakFreeRefs(cs, s) && o[j].ref in s ensures InsideShare(o[j].consumers, s) == 1.0 {
      assert o[j] in cs;
      var i :| 0 <= i < |cs| && cs[i] == o[j];
    }
    forall j | 0 <= j < |cs| && LeakFreeRefs(o, s) && cs[j].ref in s ensures InsideShare(cs[j].consumers, s) == 1.0 {
      assert cs[j] in o;
      var i :| 0 <= i < |o| && o[i] == cs[j];
    }
  }

  lemma GraphOfSame(cs: seq<Centre>, o: seq<Centre>, g: Graph)
    requires forall c :: c in o <==> c in cs
    requires RefsOf(o) == RefsOf(cs)
    ensures IsServiceGraph(g, cs) ==> IsServiceGraph(g, o)
  {
    hide IsConsumer;
    if IsServiceGraph(g, cs) {
      forall j, y | 0 <= j < |o| ensures y in g[o[j].ref] <==> y in RefsOf(o) && IsConsumer(o[j].consumers, y) {
        assert o[j] in cs;
        var i :| 0 <= i < |cs| && cs[i] == o[j];
        assert cs[i].ref in RefsOf(cs);
      }
    }
  }

  ghost predicate SingularSystem(cs: seq<Centre>) {
    exists z :: IsFixed(ShareMatrix(cs), |cs|, z)
  }

  /** Some listed component leaks nothing. */
  ghost predicate SomeClosed(cs: seq<Centre>, components: seq<seq<Ref>>) {
    exists k :: 0 <= k < |components| && LeakageOf(cs, components[k], |components[k]|) == 0.0
  }

  /** A component that leaks nothing makes the system singular; with strictly
      positive shares a singular system has one. */
  lemma ClosedIsSingular(clean: seq<Centre>, g: Graph, components: seq<seq<Ref>>)
    requires WellKeyed(clean) && SubShares(clean) && IsServiceGraph(g, clean)
    requires AreComponents(g, RefList(InOrder(clean)), components)
    requires forall k, x :: 0 <= k < |components| && x in components[k] ==> x in RefsOf(clean)
    ensures SomeClosed(clean, components) ==> SingularSystem(InOrder(clean))
    ensures FairShares(clean) && SingularSystem(InOrder(clean)) ==> SomeClosed(clean, components)
  {
    hide LeakageOf, IsScc, LeakFreeRefs, IsFixed, IsServiceGraph, InOrder, StrictlySorted, LeakFree, ShareMatrix;
    var cs := InOrder(clean);
    InOrderKeeps(clean);
    SameCentres(clean, cs, g, {});
    if k :| 0 <= k < |components| && LeakageOf(clean, components[k], |components[k]|) == 0.0 {
      ClosedComponentListed(clean, cs, g, components[k]);
      SubIsSubstochastic(cs);
      LeakFreeEquivalent(cs, Members(components[k]));
      LeakFreeSingular(ShareMatrix(cs), |cs|, Indicator(cs, Members(components[k])));
    }
    if FairShares(clean) && SingularSystem(cs) {
      SingularExactlyWhenComponentClosed(g, cs);
      var c :| IsScc(g, c) && LeakFreeRefs(cs, c);
      var k := ListedComponent(clean, cs, g, components, c);
      ClosedComponentListed(clean, cs, g, components[k]);
    }
  }

  lemma {:induction false} ClosedComponentListed(clean: seq<Centre>, cs: seq<Centre>, g: Graph, component: seq<Ref>)
    requires DistinctRefs(clean) && SubShares(clean)
    requires forall c :: c in cs <==> c in clean
    requires IsScc(g, Members(component)) && Members(component) <= RefsOf(clean)
    ensures LeakageOf(clean, component, |component|) == 0.0 <==> LeakFreeRefs(cs, Members(component))
  {
    hide LeakageOf, LeakFreeRefs, SubShares;
    SccNonEmpty(g, Members(component));
    hide IsScc;
    ZeroLeakage(clean, component);
    SameCentres(clean, cs, g, Members(component));
  }

  lemma ListedComponent(clean: seq<Centre>, cs: seq<Centre>, g: Graph, components: seq<seq<Ref>>, c: set<Ref>)
      returns (k: nat)
    requires RefsOf(cs) == RefsOf(clean)
    requires AreComponents(g, RefList(cs), components) && IsScc(g, c) && LeakFreeRefs(cs, c)
    ensures k < |components| && Members(components[k]) == c
  {
    var v :| v in c;
    var j :| 0 <= j < |cs| && cs[j].ref == v;
    assert RefList(cs)[j] == v;
    assert v in RefList(cs);
    k :| 0 <= k < |components| && v in components[k];
    SccUnique(g, Members(components[k]), c, v);
  }

  /** Every strongly connected component among the centres leaks something. */
  ghost predicate AllComponentsLeak(g: Graph, cs: seq<Centre>) {
    forall c {:trigger LeakageOf(cs, c, |c|)} ::
      StrictlySorted(c) && IsScc(g, Members(c)) && Members(c) <= RefsOf(cs) ==> LeakageOf(cs, c, |c|) != 0.0
  }

  lemma ListsRefs(cs: seq<Centre>)
    ensures forall x :: x in RefList(cs) <==> x in RefsOf(cs)
  {
    forall x | x in RefsOf(cs) ensures x in RefList(cs) {
      var k :| 0 <= k < |cs| && cs[k].ref == x;
      assert RefList(cs)[k] == x;
    }
  }

  /** When no listed component is closed, none is. */
  lemma {:induction false} NoneListedClosed(clean: seq<Centre>, g: Graph, refs: seq<Ref>, components: seq<seq<Ref>>)
    requires forall x :: x in refs <==> x in RefsOf(clean)
    requires AreComponents(g, refs, components) && ListedInOrder(components)
    requires forall k :: 0 <= k < |components| ==> LeakageOf(clean, components[k], |components[k]|) != 0.0
    ensures AllComponentsLeak(g, clean)
  {
    hide LeakageOf, RefsOf;
    forall c | StrictlySorted(c) && IsScc(g, Members(c)) && Members(c) <= RefsOf(clean)
      ensures LeakageOf(clean, c, |c|) != 0.0
    {
      var k := ListedAs(g, refs, components, c);
    }
  }

  lemma {:induction false} ListedAs(g: Graph, refs: seq<Ref>, components: seq<seq<Ref>>, c: seq<Ref>) returns (k: nat)
    requires AreComponents(g, refs, components) && ListedInOrder(components)
    requires StrictlySorted(c) && IsScc(g, Members(c)) && forall x :: x in c ==> x in refs
    ensures k < |components| && components[k] == c
  {
    SccNonEmpty(g, Members(c));
    var v :| v in Members(c);
    k :| 0 <= k < |components| && v in components[k];
    hide IsScc;
    SccUnique(g, Members(components[k]), Members(c), v);
    forall x ensures x in components[k] <==> x in c {
      assert x in Members(components[k]) <==> x in Members(c);
    }
    StrictlySortedUnique(components[k], c);
  }

  // -------------------------------------------------------------------- the method

  /** What an accepted or refused run says about the renormalised centres, listed
      as given (`clean`) and in matrix order (`cs`). */
  ghost predicate Answers(clean: seq<Centre>, cs: seq<Centre>, ceiling: int, r: Result)
    requires RefsOf(clean) == RefsOf(cs)
  {
    var a, b := ShareMatrix(LastEach(cs)), PrimaryCosts(cs);
    match r
    case Refused(SelfServiceRatioInvalid(_)) => false
    case Refused(SystemClosed(c)) =>
      && LeakageOf(clean, c, |c|) == 0.0
      && exists g :: IsServiceGraph(g, clean) && IsScc(g, Members(c)) && Members(c) <= RefsOf(clean)
    case Refused(SingularDespiteLeakage) =>
      && SingularSystem(LastEach(cs))
      && exists g :: IsServiceGraph(g, clean) && AllComponentsLeak(g, clean)
    case Refused(SystemDegenerate) =>
      exists x :: Settles(a, b, Some(x)) && CirculationRatio(b, x) > ceiling as real
    case Ok(s) =>
      && s.totals.Keys == RefsOf(cs)
      && var x := TotalsRow(cs, s.totals);
      && Settles(a, b, Some(x))
      && Val(s.circulationRatio) == CirculationRatio(b, x) <= ceiling as real
      && (s.review <==> Val(s.circulationRatio) > 2.0)
      && HandedAll(clean, s.totals, |clean|, s.toProduction)
  }

  /** The ratio is above a whole number, by cross product. */
  predicate RatioAbove(ratio: Rational, k: int) {
    ratio.num > ratio.den * k
  }

  lemma RatioAboveMeaning(ratio: Rational, k: int)
    ensures RatioAbove(ratio, k) <==> Val(ratio) > k as real
  {
    CompareValues(FromInt(k), ratio);
    CompareValues(Rational.Rational(k, 1), ratio);
    ValOf(Rational.Rational(k, 1), k as real);
  }

  /** `solveReciprocal(centres, ceiling)`. The system solved is the one of the last
      entries, where a consumer is listed twice. Without such entries, shares that are
      never negative and total at most 1 are refused as closed exactly when the system
      is singular, by the solver only when every component leaks. Strictly positive
      shares are never refused by the solver. */
  method SolveReciprocal(centres: seq<Centre>, ceiling: int) returns (r: Result)
    requires DistinctRefs(centres)
    ensures AllSelfSharesValid(centres) <==> forall k :: 0 <= k < |centres| ==> !OwnShareWhole(centres[k])
    ensures r.Refused? && r.refusal.SelfServiceRatioInvalid?
      <==> exists k :: 0 <= k < |centres| && OwnShareWhole(centres[k])
    ensures r.Refused? && r.refusal.SelfServiceRatioInvalid? ==> FirstWhole(centres, r.refusal.centre)
    ensures AllSelfSharesValid(centres) ==> Run(centres, ceiling, r)
  {
    hide SelfShareInvalid, DistinctRefs, NormaliseAll, Run, Normalised, AllSelfSharesValid, OwnShareWhole;
    var invalid, clean := NormaliseCentres(centres);
    if invalid.Some? {
      return Refused(SelfServiceRatioInvalid(invalid.value));
    }
    NormaliseShares(centres);
    r := SolveClean(clean, ceiling);
    RunOfClean(centres, ceiling, r);
    RunIsNoSelfRefusal(centres, ceiling, r);
  }

  /** The run on valid self-shares. */
  ghost predicate Run(centres: seq<Centre>, ceiling: int, r: Result)
    requires AllSelfSharesValid(centres)
  {
    var clean := NormaliseAll(centres);
    var cs := InOrder(clean);
    && RefsOf(clean) == RefsOf(cs)
    && Answers(clean, cs, ceiling, r)
    && (WellKeyed(centres) ==> LastEach(cs) == cs)
    && (WellKeyed(centres) && SubShares(centres) ==> Discriminates(cs, r))
    && (FairShares(centres) ==> r != Refused(SingularDespiteLeakage))
  }

  lemma RunIsNoSelfRefusal(centres: seq<Centre>, ceiling: int, r: Result)
    requires AllSelfSharesValid(centres) && Run(centres, ceiling, r)
    ensures !(r.Refused? && r.refusal.SelfServiceRatioInvalid?)
  {
    hide NormaliseAll, InOrder, LastEach, WellKeyed, FairShares, SubShares, Discriminates;
  }

  lemma {:induction false} RunOfClean(centres: seq<Centre>, ceiling: int, r: Result)
    requires DistinctRefs(centres) && AllSelfSharesValid(centres)
    requires RefsOf(NormaliseAll(centres)) == RefsOf(InOrder(NormaliseAll(centres)))
    requires Answers(NormaliseAll(centres), InOrder(NormaliseAll(centres)), ceiling, r)
    requires WellKeyed(NormaliseAll(centres)) && SubShares(NormaliseAll(centres)) ==>
      Discriminates(InOrder(NormaliseAll(centres)), r)
    requires FairShares(NormaliseAll(centres)) ==> r != Refused(SingularDespiteLeakage)
    ensures Run(centres, ceiling, r)
  {
    hide WellKeyed, NormaliseAll, InOrder, FairShares, SubShares, Answers, Discriminates, AllSelfSharesValid;
    NormaliseShares(centres);
    if WellKeyed(centres) {
      NormaliseKeeps(centres);
      InOrderKeeps(NormaliseAll(centres));
    }
  }

  /** Refused as closed, by the leakage test or by the solver, exactly when the
      system is singular. */
  ghost predicate Discriminates(cs: seq<Centre>, r: Result) {
    SingularSystem(cs) <==> (r.Refused? && (r.refusal.SystemClosed? || r.refusal.SingularDespiteLeakage?))
  }

  lemma InOrderFacts(clean: seq<Centre>)
    requires DistinctRefs(clean)
    ensures RefsOf(clean) == RefsOf(InOrder(clean)) && |InOrder(clean)| == |clean|
    ensures StrictlySorted(RefList(InOrder(clean)))
    ensures DistinctRefs(clean) && DistinctRefs(InOrder(clean))
  {
    hide InOrder, DistinctRefs, StrictlySorted;
    InOrderRefs(clean);
  }

  lemma ComponentsInside(clean: seq<Centre>, g: Graph, refs: seq<Ref>, components: seq<seq<Ref>>)
    requires IsServiceGraph(g, clean) && refs == RefList(InOrder(clean)) && RefsOf(clean) == RefsOf(InOrder(clean))
    requires forall k, x :: 0 <= k < |components| && x in components[k] ==> x in Vertices(refs, g)
    ensures forall k, x :: 0 <= k < |components| && x in components[k] ==> x in RefsOf(clean)
  {
    hide InOrder, IsConsumer;
    forall x | x in Vertices(refs, g) ensures x in RefsOf(clean) {
      if x in Members(refs) {
        var k :| 0 <= k < |refs| && refs[k] == x;
        assert InOrder(clean)[k].ref == x;
      } else {
        var y :| y in g.Keys && x in g[y];
        var j :| 0 <= j < |clean| && clean[j].ref == y;
      }
    }
  }

  lemma {:induction false} ClosedAnswer(clean: seq<Centre>, g: Graph, components: seq<seq<Ref>>, c: seq<Ref>,
                                        ceiling: int)
    requires IsServiceGraph(g, clean) && RefsOf(clean) == RefsOf(InOrder(clean))
    requires AreComponents(g, RefList(InOrder(clean)), components)
    requires forall k, x :: 0 <= k < |components| && x in components[k] ==> x in RefsOf(clean)
    requires c in components && LeakageOf(clean, c, |c|) == 0.0
    ensures Answers(clean, InOrder(clean), ceiling, Refused(SystemClosed(c)))
    ensures WellKeyed(clean) && SubShares(clean) ==> Discriminates(InOrder(clean), Refused(SystemClosed(c)))
  {
    hide WellKeyed, IsServiceGraph, IsScc, InOrder, LeakageOf, FairShares, SubShares, SingularSystem, Settles;
    var k :| 0 <= k < |components| && components[k] == c;
    assert IsScc(g, Members(c));
    assert SomeClosed(clean, components);
    if WellKeyed(clean) && SubShares(clean) { ClosedIsSingular(clean, g, components); }
  }

  lemma SingularAnswer(clean: seq<Centre>, g: Graph, ceiling: int)
    requires RefsOf(clean) == RefsOf(InOrder(clean)) && DistinctRefs(clean)
    requires IsServiceGraph(g, clean) && AllComponentsLeak(g, clean)
    requires Settles(ShareMatrix(LastEach(InOrder(clean))), PrimaryCosts(InOrder(clean)), None)
    ensures Answers(clean, InOrder(clean), ceiling, Refused(SingularDespiteLeakage))
    ensures SingularSystem(LastEach(InOrder(clean)))
    ensures WellKeyed(clean) ==> Discriminates(InOrder(clean), Refused(SingularDespiteLeakage))
  {
    hide InOrder, IsFixed, ShareMatrix, AllComponentsLeak, IsServiceGraph, LastEach, WellKeyed, DistinctRefs,
         StrictlySorted, RefsOf, FairShares, SubShares, WholeShares;
    if WellKeyed(clean) { InOrderKeeps(clean); }
  }

  lemma RegularAnswer(clean: seq<Centre>, x: Row, r: Result)
    requires Settles(ShareMatrix(LastEach(InOrder(clean))), PrimaryCosts(InOrder(clean)), Some(x))
    requires r.Ok? || r == Refused(SystemDegenerate)
    ensures WellKeyed(clean) ==> Discriminates(InOrder(clean), r)
  {
    hide InOrder, IsFixed, ShareMatrix, Solves, LastEach, WellKeyed;
    if WellKeyed(clean) { InOrderKeeps(clean); }
  }

  // ------------------------------------------------ last entries and closed components

  lemma PartSigns(l: seq<Consumer>, o: seq<Consumer>)
    requires forall x :: x in o ==> x in l
    ensures PositiveShares(l) ==> PositiveShares(o)
    ensures NonNegativeShares(l) ==> NonNegativeShares(o)
  {
    hide Val;
    forall k | 0 <= k < |o| ensures exists i :: 0 <= i < |l| && l[i] == o[k] {
      assert o[k] in o;
    }
  }

  lemma PrefixSigns(l: seq<Consumer>)
    requires l != []
    ensures NonNegativeShares(l) ==> NonNegativeShares(l[..|l| - 1]) && Val(l[|l| - 1].share) >= 0.0
  {
    hide Val;
  }

  lemma TotalAppend(o: seq<Consumer>, last: Consumer)
    ensures TotalShare(o + [last]) == TotalShare(o) + Val(last.share)
  {
    hide Val;
    assert (o + [last])[..|o|] == o;
  }

  lemma {:induction false} WithoutTotal(l: seq<Consumer>, r: Ref)
    requires NonNegativeShares(l)
    ensures TotalShare(Without(l, r)) <= TotalShare(l)
  {
    hide *;
    if l != [] {
      var m, last := l[..|l| - 1], l[|l| - 1];
      PrefixSigns(l);
      WithoutTotal(m, r);
      WithoutStep(l, r);
      TotalAppend(Without(m, r), last);
      ShareSteps(l, {});
    } else {
      NoneWithout(r);
    }
  }

  lemma NoneWithout(r: Ref)
    ensures Without([], r) == [] && LastOnly([]) == []
  {
  }

  lemma DistinctAppend(o: seq<Consumer>, last: Consumer)
    requires DistinctConsumers(o) && forall x :: x in o ==> x.ref != last.ref
    ensures DistinctConsumers(o + [last])
  {
    assert forall k :: 0 <= k < |o| ==> o[k] in o;
  }

  lemma {:induction false} WithoutDistinct(l: seq<Consumer>, r: Ref)
    requires DistinctConsumers(l)
    ensures DistinctConsumers(Without(l, r))
  {
    if l != [] {
      var m, last := l[..|l| - 1], l[|l| - 1];
      WithoutDistinct(m, r);
      WithoutStep(l, r);
      forall x | x in Without(m, r) ensures x.ref != last.ref {
        WithoutIn(m, r, x);
        var i :| 0 <= i < |m| && m[i] == x;
        assert l[i] == x;
      }
      hide Without, DistinctConsumers;
      DistinctAppend(Without(m, r), last);
    }
  }

  /** The last entries are distinct and no more in total. */
  lemma {:induction false} LastDistinct(l: seq<Consumer>)
    ensures DistinctConsumers(LastOnly(l))
  {
    if l != [] {
      var m, last := l[..|l| - 1], l[|l| - 1];
      LastDistinct(m);
      LastStep(l);
      var o := Without(LastOnly(m), last.ref);
      forall x | x in o ensures x.ref != last.ref { WithoutIn(LastOnly(m), last.ref, x); }
      hide LastOnly, Without, DistinctConsumers;
      WithoutDistinct(LastOnly(m), last.ref);
      DistinctAppend(o, last);
    }
  }

  lemma LastSigns(l: seq<Consumer>)
    ensures PositiveShares(l) ==> PositiveShares(LastOnly(l))
    ensures NonNegativeShares(l) ==> NonNegativeShares(LastOnly(l))
  {
    hide LastOnly, PositiveShares, NonNegativeShares;
    forall x | x in LastOnly(l) ensures x in l { LastIn(l, x); }
    PartSigns(l, LastOnly(l));
  }

  lemma {:induction false} LastTotal(l: seq<Consumer>)
    requires NonNegativeShares(l)
    ensures TotalShare(LastOnly(l)) <= TotalShare(l)
  {
    hide *;
    if l != [] {
      var m, last := l[..|l| - 1], l[|l| - 1];
      PrefixSigns(l);
      LastTotal(m);
      LastSigns(m);
      LastStep(l);
      WithoutTotal(LastOnly(m), last.ref);
      TotalAppend(Without(LastOnly(m), last.ref), last);
      ShareSteps(l, {});
    } else {
      NoneWithout(Ref(""));
    }
  }

  lemma {:induction false} LastConsumers(l: seq<Consumer>, y: Ref)
    ensures IsConsumer(LastOnly(l), y) <==> IsConsumer(l, y)
  {
    if l != [] {
      var m, last := l[..|l| - 1], l[|l| - 1];
      LastConsumers(m, y);
      ConsumersOfPrefix(l);
      LastStep(l);
      hide LastOnly, IsConsumer, Without;
      ConsumedIn(LastOnly(m), y);
      ConsumedIn(LastOnly(l), y);
      forall x ensures x in Without(LastOnly(m), last.ref) <==> x in LastOnly(m) && x.ref != last.ref {
        WithoutIn(LastOnly(m), last.ref, x);
      }
    }
  }

  lemma ConsumedIn(l: seq<Consumer>, y: Ref)
    ensures IsConsumer(l, y) <==> exists x :: x in l && x.ref == y
  {
    if x :| x in l && x.ref == y {
      var k :| 0 <= k < |l| && l[k] == x;
    }
    if k :| 0 <= k < |l| && l[k].ref == y { assert l[k] in l; }
  }

  lemma {:induction false} InsideMonotone(l: seq<Consumer>, s: set<Ref>, t: set<Ref>)
    requires NonNegativeShares(l) && s <= t
    ensures 0.0 <= InsideShare(l, s) <= InsideShare(l, t) <= TotalShare(l)
  {
    hide Val;
    if l != [] { InsideMonotone(l[..|l| - 1], s, t); }
  }

  /** No more goes inside by the last entries than by all. */
  lemma {:induction false} LastInside(l: seq<Consumer>, s: set<Ref>)
    requires NonNegativeShares(l)
    ensures InsideShare(LastOnly(l), s) <= InsideShare(l, s) <= TotalShare(l)
  {
    hide Val;
    InsideMonotone(l, s, s);
    if l != [] {
      var m, last := l[..|l| - 1], l[|l| - 1];
      LastInside(m, s - {last.ref});
      InsideMonotone(m, s - {last.ref}, s);
      LastShares(l, s);
      hide LastOnly;
    }
  }

  /** The centres of the last entries have the same graph, and are fair where the given
      ones are. */
  lemma {:induction false} LastEachKeeps(cs: seq<Centre>, g: Graph)
    requires DistinctRefs(cs)
    ensures WellKeyed(LastEach(cs)) && RefsOf(LastEach(cs)) == RefsOf(cs)
    ensures IsServiceGraph(g, cs) ==> IsServiceGraph(g, LastEach(cs))
    ensures FairShares(cs) ==> FairShares(LastEach(cs))
    ensures SubShares(cs) ==> SubShares(LastEach(cs))
  {
    hide LastOnly, IsConsumer, PositiveShares, NonNegativeShares, TotalShare, DistinctConsumers, RefsOf;
    var ls := LastEach(cs);
    SameRefs(ls, cs);
    forall k, y | 0 <= k < |cs| ensures IsConsumer(ls[k].consumers, y) <==> IsConsumer(cs[k].consumers, y) {
      LastConsumers(cs[k].consumers, y);
    }
    forall k | 0 <= k < |cs|
      ensures FairShares(cs) ==> PositiveShares(ls[k].consumers) && TotalShare(ls[k].consumers) <= 1.0
      ensures SubShares(cs) ==> NonNegativeShares(ls[k].consumers) && TotalShare(ls[k].consumers) <= 1.0
      ensures DistinctConsumers(ls[k].consumers)
    {
      LastDistinct(cs[k].consumers);
      LastSigns(cs[k].consumers);
      PositiveIsNonNegative(cs[k].consumers);
      if NonNegativeShares(cs[k].consumers) { LastTotal(cs[k].consumers); }
    }
  }

  lemma {:induction false} LastLeakFree(cs: seq<Centre>, s: set<Ref>)
    requires SubShares(cs) && LeakFreeRefs(LastEach(cs), s) && RefsOf(LastEach(cs)) == RefsOf(cs)
    ensures LeakFreeRefs(cs, s)
  {
    hide LastOnly, InsideShare, NonNegativeShares, TotalShare, RefsOf;
    var ls := LastEach(cs);
    forall j | 0 <= j < |cs| && cs[j].ref in s ensures InsideShare(cs[j].consumers, s) == 1.0 {
      assert ls[j].ref in s;
      LastInside(cs[j].consumers, s);
    }
  }

  /** Where every component leaks and the shares are positive, the solver finds an
      answer, consumers listed twice or not. */
  lemma {:induction false} NoneClosed(clean: seq<Centre>, g: Graph, components: seq<seq<Ref>>)
    requires DistinctRefs(clean) && IsServiceGraph(g, clean)
    requires AreComponents(g, RefList(InOrder(clean)), components)
    requires forall k, x :: 0 <= k < |components| && x in components[k] ==> x in RefsOf(clean)
    requires forall k :: 0 <= k < |components| ==> LeakageOf(clean, components[k], |components[k]|) != 0.0
    ensures FairShares(clean) ==> !SingularSystem(LastEach(InOrder(clean)))
  {
    hide DistinctRefs, IsServiceGraph, InOrder, LeakageOf, FairShares, SubShares, LastEach, RefsOf, LeakFreeRefs,
         IsScc, StrictlySorted;
    var cs := InOrder(clean);
    var ls := LastEach(cs);
    if FairShares(clean) && SingularSystem(ls) {
      FairIsSub(clean);
      InOrderRefs(clean);
      OrderedShares(clean);
      SameCentres(clean, cs, g, {});
      LastEachKeeps(cs, g);
      SingularExactlyWhenComponentClosed(g, ls);
      var c :| IsScc(g, c) && LeakFreeRefs(ls, c);
      LastLeakFree(cs, c);
      var k := ListedComponent(clean, cs, g, components, c);
      ClosedComponentListed(clean, cs, g, components[k]);
      assert false;
    }
  }

  /** The model-sanity guard, and the distribution of an accepted solution. */
  method Conclude(clean: seq<Centre>, ordered: seq<Centre>, refs: seq<Ref>, b: seq<Rational>, x: seq<Rational>,
                  ceiling: int)
      returns (r: Result)
    requires RefsOf(clean) == RefsOf(ordered) && DistinctRefs(ordered) && refs == RefList(ordered)
    requires |x| == |ordered| && RowView(b) == PrimaryCosts(ordered)
    requires Settles(ShareMatrix(LastEach(ordered)), PrimaryCosts(ordered), Some(RowView(x)))
    ensures Answers(clean, ordered, ceiling, r)
    ensures r.Ok? || r == Refused(SystemDegenerate)
  {
    hide Val, Settles, DistinctRefs, RefsOf, ShareMatrix, HandedAll, RowView, RDiv;
    var totals := TotalsMap(refs, x, ordered);
    var sumX := SumVector(x);
    var sumB := SumVector(b);
    CompareValues(sumB, R_ZERO);
    UnitValues();
    var ratio := if RIsZero(sumB) then R_ONE else RDiv(sumX, sumB);
    assert Val(ratio) == CirculationRatio(PrimaryCosts(ordered), RowView(x));
    RatioAboveMeaning(ratio, ceiling);
    if RatioAbove(ratio, ceiling) {
      return Refused(SystemDegenerate);
    }
    RatioAboveMeaning(ratio, 2);
    var review := RatioAbove(ratio, 2);
    var toProduction := DistributeAll(clean, totals);
    return Ok(ReciprocalSolution(totals, toProduction, ratio, review));
  }

  method SolveClean(clean: seq<Centre>, ceiling: int) returns (r: Result)
    requires DistinctRefs(clean)
    ensures RefsOf(clean) == RefsOf(InOrder(clean))
    ensures Answers(clean, InOrder(clean), ceiling, r)
    ensures WellKeyed(clean) && SubShares(clean) ==> Discriminates(InOrder(clean), r)
    ensures FairShares(clean) ==> r != Refused(SingularDespiteLeakage)
  {
    hide WellKeyed, InOrder, FairShares, SubShares, SingularSystem, LeakageOf, IsServiceGraph, IsScc, AreComponents,
      StrictlySorted, Vertices, Settles, Answers, Discriminates, SomeClosed, AllComponentsLeak, ListedInOrder, RefsOf,
      DistinctRefs, LastEach;
    var ordered := InOrder(clean);
    InOrderFacts(clean);
    var refs := RefList(ordered);
    var g := BuildGraph(clean);
    var components := FindComponents(refs, g);
    ComponentsInside(clean, g, refs, components);
    var closed := FindClosed(clean, components);
    if closed.Some? {
      ClosedAnswer(clean, g, components, closed.value, ceiling);
      return Refused(SystemClosed(closed.value));
    }
    NoneClosed(clean, g, components);
    ListsRefs(ordered);
    NoneListedClosed(clean, g, refs, components);
    var a := BuildMatrix(clean, refs);
    var b := PrimaryVector(ordered);
    var solution := SolveLinearSystem(a, b);
    if solution.None? {
      SingularAnswer(clean, g, ceiling);
      return Refused(SingularDespiteLeakage);
    }
    r := Conclude(clean, ordered, refs, b, solution.value, ceiling);
    RegularAnswer(clean, RowView(solution.value), r);
  }
}
