/** Service centres, their share matrix and service graph, and why a component
    that leaks nothing is the same thing as a singular system. */
module ReciprocalModel {
  import opened Refs
  import opened Graphs
  import opened ExactRational
  import opened LinearAlgebra
  import opened Circulation

  /** A consumer of a centre's output and the share of it that it takes. */
  datatype Consumer = Consumer(ref: Ref, share: Rational)

  datatype Centre = Centre(ref: Ref, primary: int, consumers: seq<Consumer>)

  /** Centre references are distinct, and so are the consumers of each centre. */
  ghost predicate WellKeyed(cs: seq<Centre>) {
    && DistinctRefs(cs)
    && forall k :: 0 <= k < |cs| ==> DistinctConsumers(cs[k].consumers)
  }

  ghost function Without(l: seq<Consumer>, r: Ref): seq<Consumer> {
    if l == [] then []
    else
      var last := l[|l| - 1];
      Without(l[..|l| - 1], r) + if last.ref == r then [] else [last]
  }

  /** The entries that end up in the matrix: of each consumer the last one. */
  ghost function LastOnly(l: seq<Consumer>): seq<Consumer> {
    if l == [] then []
    else
      var last := l[|l| - 1];
      Without(LastOnly(l[..|l| - 1]), last.ref) + [last]
  }

  /** The centres as the solver sees them. */
  ghost function LastEach(cs: seq<Centre>): (r: seq<Centre>)
    ensures |r| == |cs|
    ensures forall k :: 0 <= k < |cs| ==> r[k] == Centre(cs[k].ref, cs[k].primary, LastOnly(cs[k].consumers))
  {
    seq(|cs|, k requires 0 <= k < |cs| => Centre(cs[k].ref, cs[k].primary, LastOnly(cs[k].consumers)))
  }

  lemma WithoutStep(l: seq<Consumer>, r: Ref)
    requires l != []
    ensures var m, last := l[..|l| - 1], l[|l| - 1];
      Without(l, r) == if last.ref == r then Without(m, r) else Without(m, r) + [last]
  {
  }

  lemma LastStep(l: seq<Consumer>)
    requires l != []
    ensures var m, last := l[..|l| - 1], l[|l| - 1];
      LastOnly(l) == Without(LastOnly(m), last.ref) + [last]
  {
  }

  lemma {:induction false} WithoutIn(l: seq<Consumer>, r: Ref, x: Consumer)
    ensures x in Without(l, r) <==> x in l && x.ref != r
  {
    if l != [] {
      var m, last := l[..|l| - 1], l[|l| - 1];
      WithoutIn(m, r, x);
      WithoutStep(l, r);
      hide Without;
      assert l == m + [last];
    }
  }

  lemma {:induction false} LastIn(l: seq<Consumer>, x: Consumer)
    requires x in LastOnly(l)
    ensures x in l
  {
    if l != [] {
      var m, last := l[..|l| - 1], l[|l| - 1];
      LastStep(l);
      WithoutIn(LastOnly(m), last.ref, x);
      hide LastOnly;
      if x != last { LastIn(m, x); }
    }
  }

  lemma {:induction false} WithoutAbsent(l: seq<Consumer>, r: Ref)
    requires forall k :: 0 <= k < |l| ==> l[k].ref != r
    ensures Without(l, r) == l
  {
    if l != [] {
      WithoutAbsent(l[..|l| - 1], r);
      WithoutStep(l, r);
      hide Without;
    }
  }

  lemma {:induction false} LastOfDistinct(l: seq<Consumer>)
    requires DistinctConsumers(l)
    ensures LastOnly(l) == l
  {
    if l != [] {
      var m := l[..|l| - 1];
      LastOfDistinct(m);
      WithoutAbsent(m, l[|l| - 1].ref);
      LastStep(l);
      hide LastOnly, Without, DistinctConsumers;
    }
  }

  /** Where no consumer is listed twice the solver sees the centres as they are. */
  lemma LastEachIs(cs: seq<Centre>)
    requires forall k :: 0 <= k < |cs| ==> DistinctConsumers(cs[k].consumers)
    ensures LastEach(cs) == cs
  {
    hide LastOnly, DistinctConsumers;
    forall k | 0 <= k < |cs| ensures LastEach(cs)[k] == cs[k] { LastOfDistinct(cs[k].consumers); }
  }

  lemma InsideAppend(o: seq<Consumer>, last: Consumer, s: set<Ref>)
    ensures InsideShare(o + [last], s) == InsideShare(o, s) + if last.ref in s then Val(last.share) else 0.0
  {
    hide Val;
    assert (o + [last])[..|o|] == o;
  }

  lemma {:induction false} WithoutShares(l: seq<Consumer>, r: Ref, s: set<Ref>)
    ensures InsideShare(Without(l, r), s) == InsideShare(l, s - {r})
  {
    hide Val;
    if l != [] {
      var m, last := l[..|l| - 1], l[|l| - 1];
      WithoutShares(m, r, s);
      WithoutStep(l, r);
      InsideLast(l, s - {r});
      hide Without, InsideShare;
      InsideAppend(Without(m, r), last, s);
    } else {
      hide InsideShare;
      NothingInside(r, s);
    }
  }

  lemma NothingInside(r: Ref, s: set<Ref>)
    ensures InsideShare(Without([], r), s) == InsideShare([], s - {r})
  {
  }

  lemma {:induction false} LastShares(l: seq<Consumer>, s: set<Ref>)
    requires l != []
    ensures var m, last := l[..|l| - 1], l[|l| - 1];
      InsideShare(LastOnly(l), s)
      == InsideShare(LastOnly(m), s - {last.ref}) + if last.ref in s then Val(last.share) else 0.0
  {
    hide Val, InsideShare, Without;
    var m, last := l[..|l| - 1], l[|l| - 1];
    LastStep(l);
    WithoutShares(LastOnly(m), last.ref, s);
    InsideAppend(Without(LastOnly(m), last.ref), last, s);
  }

  ghost predicate DistinctRefs(cs: seq<Centre>) {
    forall i, j :: 0 <= i < j < |cs| ==> cs[i].ref != cs[j].ref
  }

  ghost predicate DistinctConsumers(l: seq<Consumer>) {
    forall i, j :: 0 <= i < j < |l| ==> l[i].ref != l[j].ref
  }

  function RefsOf(cs: seq<Centre>): set<Ref> {
    set k | 0 <= k < |cs| :: cs[k].ref
  }

  /** The share that goes to members of `s`. */
  ghost function InsideShare(l: seq<Consumer>, s: set<Ref>): real {
    if l == [] then 0.0
    else
      var last := l[|l| - 1];
      InsideShare(l[..|l| - 1], s) + if last.ref in s then Val(last.share) else 0.0
  }

  ghost function TotalShare(l: seq<Consumer>): real {
    if l == [] then 0.0 else TotalShare(l[..|l| - 1]) + Val(l[|l| - 1].share)
  }

  lemma {:induction false} ShareSteps(l: seq<Consumer>, s: set<Ref>)
    requires l != []
    ensures InsideShare(l, s)
      == InsideShare(l[..|l| - 1], s) + if l[|l| - 1].ref in s then Val(l[|l| - 1].share) else 0.0
    ensures TotalShare(l) == TotalShare(l[..|l| - 1]) + Val(l[|l| - 1].share)
  {
    hide Val;
  }

  ghost predicate PositiveShares(l: seq<Consumer>) {
    forall k :: 0 <= k < |l| ==> Val(l[k].share) > 0.0
  }

  ghost predicate NonNegativeShares(l: seq<Consumer>) {
    forall k :: 0 <= k < |l| ==> Val(l[k].share) >= 0.0
  }

  /** Shares that are never negative and total at most 1 at every centre. */
  ghost predicate SubShares(cs: seq<Centre>) {
    forall k :: 0 <= k < |cs| ==> NonNegativeShares(cs[k].consumers) && TotalShare(cs[k].consumers) <= 1.0
  }

  /** Strictly positive shares that total at most 1 at every centre. */
  ghost predicate FairShares(cs: seq<Centre>) {
    forall k :: 0 <= k < |cs| ==> PositiveShares(cs[k].consumers) && TotalShare(cs[k].consumers) <= 1.0
  }

  // ------------------------------------------------------------------ the matrix

  ghost function ShareRow(cs: seq<Centre>, l: seq<Consumer>): (r: Row)
    ensures |r| == |cs| && forall i :: 0 <= i < |cs| ==> r[i] == InsideShare(l, {cs[i].ref})
  {
    seq(|cs|, i requires 0 <= i < |cs| => InsideShare(l, {cs[i].ref}))
  }

  /** Entry (j, i): the share of centre j's output that centre i consumes. */
  ghost function ShareMatrix(cs: seq<Centre>): (a: Matrix)
    ensures Square(a, |cs|)
  {
    seq(|cs|, j requires 0 <= j < |cs| => ShareRow(cs, cs[j].consumers))
  }

  lemma MatrixEntry(cs: seq<Centre>, j: nat, i: nat)
    requires j < |cs| && i < |cs|
    ensures ShareMatrix(cs)[j][i] == InsideShare(cs[j].consumers, {cs[i].ref})
  {
    hide InsideShare;
  }

  ghost function PrimaryCosts(cs: seq<Centre>): (b: Row)
    ensures |b| == |cs| && forall i :: 0 <= i < |cs| ==> b[i] == cs[i].primary as real
  {
    seq(|cs|, i requires 0 <= i < |cs| => cs[i].primary as real)
  }

  ghost function Indicator(cs: seq<Centre>, s: set<Ref>): (w: Row)
    ensures |w| == |cs| && forall i :: 0 <= i < |cs| ==> w[i] == if cs[i].ref in s then 1.0 else 0.0
  {
    seq(|cs|, i requires 0 <= i < |cs| => if cs[i].ref in s then 1.0 else 0.0)
  }

  /** The row with one share, at the place of one reference. */
  ghost function PointRow(cs: seq<Centre>, r: Ref, share: real): (d: Row)
    ensures |d| == |cs| && forall i :: 0 <= i < |cs| ==> d[i] == if cs[i].ref == r then share else 0.0
  {
    seq(|cs|, i requires 0 <= i < |cs| => if cs[i].ref == r then share else 0.0)
  }

  lemma {:induction false} PointPassed(cs: seq<Centre>, r: Ref, share: real, w: Row, k: nat)
    requires DistinctRefs(cs) && |w| == |cs| && k <= |cs|
    ensures (exists i :: 0 <= i < k && cs[i].ref == r && Dot(PointRow(cs, r, share), w, k) == share * w[i])
      || ((forall i :: 0 <= i < k ==> cs[i].ref != r) && Dot(PointRow(cs, r, share), w, k) == 0.0)
  {
    if k > 0 {
      PointPassed(cs, r, share, w, k - 1);
    }
  }

  lemma {:induction false} PointInside(cs: seq<Centre>, r: Ref, share: real, s: set<Ref>)
    requires DistinctRefs(cs) && s <= RefsOf(cs)
    ensures Dot(PointRow(cs, r, share), Indicator(cs, s), |cs|) == if r in s then share else 0.0
  {
    PointPassed(cs, r, share, Indicator(cs, s), |cs|);
    hide Dot, DistinctRefs;
  }

  lemma RowLast(cs: seq<Centre>, l: seq<Consumer>, i: nat)
    requires l != [] && i < |cs|
    ensures var last := l[|l| - 1];
      ShareRow(cs, l)[i] == ShareRow(cs, l[..|l| - 1])[i] + PointRow(cs, last.ref, Val(last.share))[i]
  {
    hide Val;
  }

  lemma InsideLast(l: seq<Consumer>, s: set<Ref>)
    requires l != []
    ensures var last := l[|l| - 1];
      InsideShare(l, s) == InsideShare(l[..|l| - 1], s) + if last.ref in s then Val(last.share) else 0.0
  {
    hide Val;
  }

  /** Row times indicator is the share that goes inside the set. */
  lemma {:induction false} RowPassed(cs: seq<Centre>, l: seq<Consumer>, s: set<Ref>)
    requires DistinctRefs(cs) && s <= RefsOf(cs)
    ensures Dot(ShareRow(cs, l), Indicator(cs, s), |cs|) == InsideShare(l, s)
  {
    var n, w := |cs|, Indicator(cs, s);
    if l == [] {
      DotAllZero(ShareRow(cs, l), w, n);
    } else {
      var last, m := l[|l| - 1], l[..|l| - 1];
      RowPassed(cs, m, s);
      InsideLast(l, s);
      var d := PointRow(cs, last.ref, Val(last.share));
      PointInside(cs, last.ref, Val(last.share), s);
      hide Dot, Val, InsideShare, ShareRow, PointRow, Indicator, DistinctRefs;
      forall i | 0 <= i < n ensures ShareRow(cs, l)[i] == 1.0 * ShareRow(cs, m)[i] + 1.0 * d[i] { RowLast(cs, l, i); }
      DotCombination(ShareRow(cs, m), d, ShareRow(cs, l), 1.0, 1.0, w, n);
    }
  }

  lemma {:induction false} DotAllZero(r: Row, w: Row, k: nat)
    requires k <= |r| && k <= |w| && forall i :: 0 <= i < k ==> r[i] == 0.0
    ensures Dot(r, w, k) == 0.0
  {
    if k > 0 { DotAllZero(r, w, k - 1); }
  }

  lemma {:induction false} InsideAtMostTotal(l: seq<Consumer>, s: set<Ref>)
    requires NonNegativeShares(l)
    ensures 0.0 <= InsideShare(l, s) <= TotalShare(l)
  {
    if l != [] { InsideAtMostTotal(l[..|l| - 1], s); }
  }

  lemma {:induction false} IndicatorOfAll(cs: seq<Centre>)
    ensures Indicator(cs, RefsOf(cs)) == Ones(|cs|)
  {
  }

  lemma FairIsSub(cs: seq<Centre>)
    requires FairShares(cs)
    ensures SubShares(cs)
  {
  }

  lemma SubIsSubstochastic(cs: seq<Centre>)
    requires DistinctRefs(cs) && SubShares(cs)
    ensures Substochastic(ShareMatrix(cs), |cs|)
  {
    hide Dot, InsideShare, TotalShare;
    var a := ShareMatrix(cs);
    forall j | 0 <= j < |cs| ensures Dot(a[j], Ones(|cs|), |cs|) <= 1.0 {
      IndicatorOfAll(cs);
      RowPassed(cs, cs[j].consumers, RefsOf(cs));
      InsideAtMostTotal(cs[j].consumers, RefsOf(cs));
    }
    forall j, i | 0 <= j < |cs| && 0 <= i < |cs| ensures a[j][i] >= 0.0 {
      InsideAtMostTotal(cs[j].consumers, {cs[i].ref});
    }
  }

  // ------------------------------------------------------------------- the graph

  /** An edge leads from each centre to each service centre among its consumers. */
  ghost predicate IsServiceGraph(g: Graph, cs: seq<Centre>) {
    && g.Keys == RefsOf(cs)
    && forall j, y :: 0 <= j < |cs| ==>
      (y in g[cs[j].ref] <==> y in RefsOf(cs) && IsConsumer(cs[j].consumers, y))
  }

  ghost predicate IsConsumer(l: seq<Consumer>, y: Ref) {
    exists k :: 0 <= k < |l| && l[k].ref == y
  }

  /** With positive shares an edge is a positive matrix entry. */
  lemma {:induction false} ConsumerShare(l: seq<Consumer>, y: Ref)
    requires PositiveShares(l)
    ensures InsideShare(l, {y}) > 0.0 <==> IsConsumer(l, y)
    ensures InsideShare(l, {y}) >= 0.0
  {
    if l != [] {
      var m := l[..|l| - 1];
      ConsumerShare(m, y);
      assert IsConsumer(l, y) <==> IsConsumer(m, y) || l[|l| - 1].ref == y by {
        if k :| 0 <= k < |m| && m[k].ref == y { assert l[k].ref == y; }
      }
    }
  }

  ghost function ChosenRefs(cs: seq<Centre>, w: Row): set<Ref>
    requires |w| == |cs|
  {
    set i | 0 <= i < |cs| && w[i] == 1.0 :: cs[i].ref
  }

  ghost predicate LeakFreeRefs(cs: seq<Centre>, s: set<Ref>) {
    && s != {} && s <= RefsOf(cs)
    && forall j :: 0 <= j < |cs| && cs[j].ref in s ==> InsideShare(cs[j].consumers, s) == 1.0
  }

  /** Leak-free rows of the matrix and leak-free sets of centres are the same. */
  lemma LeakFreeEquivalent(cs: seq<Centre>, s: set<Ref>)
    requires DistinctRefs(cs) && s <= RefsOf(cs)
    ensures LeakFree(ShareMatrix(cs), |cs|, Indicator(cs, s)) <==> LeakFreeRefs(cs, s)
  {
    hide Dot, InsideShare;
    var n, a, w := |cs|, ShareMatrix(cs), Indicator(cs, s);
    forall j | 0 <= j < n ensures Dot(a[j], w, n) == InsideShare(cs[j].consumers, s) {
      RowPassed(cs, cs[j].consumers, s);
    }
    if s != {} {
      var r :| r in s;
      var i :| 0 <= i < n && cs[i].ref == r;
      assert w[i] == 1.0;
    }
  }

  lemma ChosenIndicator(cs: seq<Centre>, w: Row)
    requires DistinctRefs(cs) && IsIndicator(w, |cs|)
    ensures Indicator(cs, ChosenRefs(cs, w)) == w
  {
  }

  lemma EdgeOfGraph(g: Graph, cs: seq<Centre>, j: nat, i: nat)
    requires IsServiceGraph(g, cs) && FairShares(cs) && j < |cs| && i < |cs|
    ensures cs[i].ref in Succ(g, cs[j].ref) <==> ShareMatrix(cs)[j][i] > 0.0
    ensures ShareMatrix(cs)[j][i] >= 0.0
  {
    ConsumerShare(cs[j].consumers, cs[i].ref);
    assert cs[j].ref in g.Keys;
  }

  /** A leak-free set is closed under the edges of the service graph. */
  lemma LeakFreeClosed(g: Graph, cs: seq<Centre>, s: set<Ref>)
    requires DistinctRefs(cs) && IsServiceGraph(g, cs) && FairShares(cs)
    requires LeakFreeRefs(cs, s)
    ensures Closed(g, s)
  {
    FairIsSub(cs);
    SubIsSubstochastic(cs);
    LeakFreeEquivalent(cs, s);
    var a, w := ShareMatrix(cs), Indicator(cs, s);
    forall x, y | x in s && y in Succ(g, x) ensures y in s {
      var j :| 0 <= j < |cs| && cs[j].ref == x;
      assert y in RefsOf(cs);
      var i :| 0 <= i < |cs| && cs[i].ref == y;
      EdgeOfGraph(g, cs, j, i);
      if y !in s { NoShareLeaves(a, |cs|, w, j, i); }
    }
  }

  /** A closed part of a leak-free set is leak-free itself. */
  lemma ClosedPartLeakFree(g: Graph, cs: seq<Centre>, s: set<Ref>, c: set<Ref>)
    requires DistinctRefs(cs) && IsServiceGraph(g, cs) && FairShares(cs)
    requires LeakFreeRefs(cs, s) && c <= s && c != {} && Closed(g, c)
    ensures LeakFreeRefs(cs, c)
  {
    hide Dot, InsideShare;
    var n, a := |cs|, ShareMatrix(cs);
    forall j | 0 <= j < n && cs[j].ref in c ensures InsideShare(cs[j].consumers, c) == 1.0 {
      forall i | 0 <= i < n ensures a[j][i] == 0.0 || Indicator(cs, c)[i] == Indicator(cs, s)[i] {
        EdgeOfGraph(g, cs, j, i);
      }
      DotSame(a[j], Indicator(cs, c), Indicator(cs, s), n);
      RowPassed(cs, cs[j].consumers, c);
      RowPassed(cs, cs[j].consumers, s);
    }
  }

  /** The leakage test over strongly connected components misses nothing: with
      positive shares the system is singular exactly when some strongly connected
      component is leak-free. */
  lemma SingularExactlyWhenComponentClosed(g: Graph, cs: seq<Centre>)
    requires DistinctRefs(cs) && IsServiceGraph(g, cs) && FairShares(cs)
    ensures (exists z :: IsFixed(ShareMatrix(cs), |cs|, z)) <==> (exists c :: IsScc(g, c) && LeakFreeRefs(cs, c))
  {
    hide IsFixed, LeakFree, IsScc;
    var n, a := |cs|, ShareMatrix(cs);
    FairIsSub(cs);
    SubIsSubstochastic(cs);
    SingularExactlyWhenClosed(a, n);
    if w :| LeakFree(a, n, w) {
      ClosedComponentOf(g, cs, w);
    }
    if c :| IsScc(g, c) && LeakFreeRefs(cs, c) {
      LeakFreeEquivalent(cs, c);
      assert LeakFree(a, n, Indicator(cs, c));
    }
  }

  lemma ClosedComponentOf(g: Graph, cs: seq<Centre>, w: Row)
    requires DistinctRefs(cs) && IsServiceGraph(g, cs) && FairShares(cs)
    requires LeakFree(ShareMatrix(cs), |cs|, w)
    ensures exists c :: IsScc(g, c) && LeakFreeRefs(cs, c)
  {
    var s := ChosenRefs(cs, w);
    ChosenIndicator(cs, w);
    LeakFreeEquivalent(cs, s);
    hide LeakFree, IsScc, Closed;
    LeakFreeClosed(g, cs, s);
    var v :| v in s;
    var c := SinkComponent(g, s, v);
    SccNonEmpty(g, c);
    ClosedPartLeakFree(g, cs, s, c);
  }

  lemma SccNonEmpty(g: Graph, c: set<Ref>)
    requires IsScc(g, c)
    ensures c != {}
  {
  }
}
