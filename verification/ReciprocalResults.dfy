/** What a finished reciprocal run means: sign, conservation, and the refusals. */
module ReciprocalResults {
  import opened Refs
  import opened Sorting
  import opened Sums
  import opened Graphs
  import opened StrongComponents
  import opened ExactRational
  import opened LinearAlgebra
  import opened LinearSolver
  import opened Options
  import opened Circulation
  import opened ReciprocalModel
  import opened SelfExclusion
  import opened Reciprocal

  ghost predicate NonNegativePrimaries(cs: seq<Centre>) {
    forall k :: 0 <= k < |cs| ==> cs[k].primary >= 0
  }

  /** Renormalising keeps each centre's reference and pool. */
  lemma {:induction false} PoolsKept(centres: seq<Centre>)
    requires AllSelfSharesValid(centres)
    ensures forall k :: 0 <= k < |centres| ==>
      NormaliseAll(centres)[k].ref == centres[k].ref && NormaliseAll(centres)[k].primary == centres[k].primary
  {
    hide SelfShareInvalid, Others, Kept;
  }

  /** Where a centre ends up in matrix order, its reference and pool unchanged. */
  lemma PlaceOf(centres: seq<Centre>, k: nat) returns (i: nat)
    requires AllSelfSharesValid(centres) && k < |centres|
    ensures var cs := InOrder(NormaliseAll(centres));
      i < |cs| && cs[i].ref == centres[k].ref && cs[i].primary == centres[k].primary
  {
    hide InOrder, SelfShareInvalid, SelfExclusion.Normalised;
    var clean := NormaliseAll(centres);
    PoolsKept(centres);
    InOrderMultiset(clean);
    SameElements(InOrder(clean), clean);
    assert clean[k] in InOrder(clean);
    i :| i < |InOrder(clean)| && InOrder(clean)[i] == clean[k];
  }

  lemma InOrderMultiset(cs: seq<Centre>)
    ensures multiset(InOrder(cs)) == multiset(cs)
  {
  }

  lemma {:induction false} OrderedPrimaries(centres: seq<Centre>)
    requires AllSelfSharesValid(centres) && NonNegativePrimaries(centres)
    ensures NonNegativePrimaries(InOrder(NormaliseAll(centres)))
  {
    hide InOrder, SelfShareInvalid, SelfExclusion.Normalised;
    var clean := NormaliseAll(centres);
    PoolsKept(centres);
    forall i | 0 <= i < |InOrder(clean)| ensures InOrder(clean)[i].primary >= 0 {
      var k := InOrderMember(clean, i);
    }
  }

  // ------------------------------------------------------------------------- sign

  lemma SettledCovers(a: Matrix, b: Row, x: Row)
    requires Square(a, |b|) && Substochastic(a, |b|) && Settles(a, b, Some(x))
    requires forall i :: 0 <= i < |b| ==> b[i] >= 0.0
    ensures |x| == |b| && forall i :: 0 <= i < |b| ==> x[i] >= b[i]
    ensures CirculationRatio(b, x) >= 1.0
  {
    hide Substochastic, IsFixed, LeakFree;
    forall w ensures !LeakFree(a, |b|, w) {
      if LeakFree(a, |b|, w) { LeakFreeSingular(a, |b|, w); }
    }
    TotalsCoverPrimary(a, b, x);
    SumOrder(b, x, |b|);
    SumNonNegative(b, |b|, 0);
    if Sum(b, |b|) > 0.0 { QuotientAtLeastOne(Sum(x, |x|), Sum(b, |b|)); }
  }

  lemma QuotientAtLeastOne(p: real, q: real)
    requires q > 0.0 && p >= q
    ensures p / q >= 1.0
  {
  }

  /** Never-negative shares of at most 1 in total and never-negative pools: every
      total covers its own primary cost and the circulation ratio is at least 1. */
  lemma TotalsCover(centres: seq<Centre>, ceiling: int, r: Result)
    requires DistinctRefs(centres) && AllSelfSharesValid(centres) && SubShares(centres)
    requires NonNegativePrimaries(centres)
    requires Run(centres, ceiling, r) && r.Ok?
    ensures forall k :: 0 <= k < |centres| ==>
      centres[k].ref in r.value.totals && Val(r.value.totals[centres[k].ref]) >= centres[k].primary as real
    ensures Val(r.value.circulationRatio) >= 1.0
  {
    hide SubShares, Settles, ShareMatrix, WellKeyed, DistinctRefs, AllSelfSharesValid, HandedAll, InOrder,
         NormaliseAll, Substochastic, Val, LastEach, FairShares, RefsOf;
    var cs := InOrder(NormaliseAll(centres));
    LastIsSubstochastic(centres);
    OrderedPrimaries(centres);
    var b, x := PrimaryCosts(cs), TotalsRow(cs, r.value.totals);
    SettledCovers(ShareMatrix(LastEach(cs)), b, x);
    forall k | 0 <= k < |centres|
      ensures centres[k].ref in r.value.totals && Val(r.value.totals[centres[k].ref]) >= centres[k].primary as real
    {
      var i := PlaceOf(centres, k);
      assert x[i] >= b[i];
    }
  }

  /** The system that is solved passes on at most what there is. */
  lemma {:induction false} LastIsSubstochastic(centres: seq<Centre>)
    requires DistinctRefs(centres) && AllSelfSharesValid(centres) && SubShares(centres)
    ensures var cs := InOrder(NormaliseAll(centres));
      Substochastic(ShareMatrix(LastEach(cs)), |cs|)
  {
    hide SubShares, ShareMatrix, AllSelfSharesValid, InOrder, NormaliseAll, Substochastic, DistinctRefs, RefsOf,
         FairShares, LastEach;
    var clean := NormaliseAll(centres);
    NormaliseShares(centres);
    InOrderRefs(clean);
    OrderedShares(clean);
    LastEachKeeps(InOrder(clean), map[]);
    SubIsSubstochastic(LastEach(InOrder(clean)));
  }

  lemma {:induction false} OrderedIsSubstochastic(centres: seq<Centre>)
    requires WellKeyed(centres) && AllSelfSharesValid(centres) && SubShares(centres)
    ensures Substochastic(ShareMatrix(InOrder(NormaliseAll(centres))), |InOrder(NormaliseAll(centres))|)
    ensures DistinctRefs(InOrder(NormaliseAll(centres))) && SubShares(InOrder(NormaliseAll(centres)))
  {
    hide SubShares, ShareMatrix, AllSelfSharesValid, InOrder, NormaliseAll, Substochastic, DistinctRefs,
         DistinctConsumers;
    NormaliseKeeps(centres);
    InOrderKeeps(NormaliseAll(centres));
    SubIsSubstochastic(InOrder(NormaliseAll(centres)));
  }

  // ----------------------------------------------------------------- conservation

  /** What one centre hands to production. */
  ghost function HandedBy(totals: map<Ref, Rational>): Centre -> real {
    (c: Centre) => Val(Current(totals, c.ref)) * OutsideShare(c.consumers, totals.Keys)
  }

  ghost function PoolOf(): Centre -> real {
    (c: Centre) => c.primary as real
  }

  lemma {:induction false} HandedOnIsSum(cs: seq<Centre>, totals: map<Ref, Rational>, k: nat)
    requires RefsOf(cs) == totals.Keys && k <= |cs|
    ensures HandedOn(cs, totals, k) == SumBy(HandedBy(totals), cs[..k])
  {
    hide Val, OutsideShare;
    if k > 0 {
      HandedOnIsSum(cs, totals, k - 1);
      assert cs[k - 1].ref in RefsOf(cs);
      assert cs[..k][..k - 1] == cs[..k - 1];
    }
  }

  lemma {:induction false} DotOnes(x: Row, n: nat, k: nat)
    requires k <= |x| && k <= n
    ensures Dot(Ones(n), x, k) == Sum(x, k)
  {
    if k > 0 { DotOnes(x, n, k - 1); }
  }

  /** In matrix order: handed on is everything, less what is passed on inside. */
  lemma {:induction false} HandedInOrder(cs: seq<Centre>, totals: map<Ref, Rational>, k: nat)
    requires DistinctRefs(cs) && WholeShares(cs) && RefsOf(cs) == totals.Keys && k <= |cs|
    ensures SumBy(HandedBy(totals), cs[..k])
      == Sum(TotalsRow(cs, totals), k) - Dot(Passed(ShareMatrix(cs), |cs|, Ones(|cs|)), TotalsRow(cs, totals), k)
  {
    hide Val, InsideShare, TotalShare, ShareMatrix, DistinctRefs, HandedBy, Passed, Dot;
    if k > 0 {
      HandedInOrder(cs, totals, k - 1);
      var c, x, h := cs[k - 1], TotalsRow(cs, totals), Passed(ShareMatrix(cs), |cs|, Ones(|cs|));
      assert cs[..k][..k - 1] == cs[..k - 1];
      PassedInside(cs, k - 1);
      DotLast(h, x, k - 1);
      HandedTerm(x[k - 1], h[k - 1], OutsideShare(c.consumers, totals.Keys));
      HandedOne(cs, totals, k - 1);
    } else {
      DotNone(Passed(ShareMatrix(cs), |cs|, Ones(|cs|)), TotalsRow(cs, totals));
    }
  }

  lemma {:induction false} DotNone(r: Row, y: Row)
    ensures Dot(r, y, 0) == 0.0
  {
  }

  lemma HandedTerm(x: real, h: real, o: real)
    requires o == 1.0 - h
    ensures x * o == x - h * x
  {
  }

  lemma HandedOne(cs: seq<Centre>, totals: map<Ref, Rational>, i: nat)
    requires RefsOf(cs) == totals.Keys && i < |cs|
    ensures HandedBy(totals)(cs[i]) == TotalsRow(cs, totals)[i] * OutsideShare(cs[i].consumers, totals.Keys)
  {
    hide Val, OutsideShare;
  }

  lemma {:induction false} PassedInside(cs: seq<Centre>, j: nat)
    requires DistinctRefs(cs) && j < |cs|
    ensures Passed(ShareMatrix(cs), |cs|, Ones(|cs|))[j] == InsideShare(cs[j].consumers, RefsOf(cs))
  {
    hide InsideShare, Dot;
    IndicatorOfAll(cs);
    RowPassed(cs, cs[j].consumers, RefsOf(cs));
  }

  /** When every centre's shares total exactly 1, production receives exactly the
      primary pools: nothing is lost and nothing invented. */
  lemma {:induction false} CostIsConserved(centres: seq<Centre>, ceiling: int, r: Result)
    requires WellKeyed(centres) && AllSelfSharesValid(centres) && WholeShares(centres)
    requires Run(centres, ceiling, r) && r.Ok?
    ensures SumValues(r.value.toProduction) == SumBy(PoolOf(), centres)
  {
    hide ShareMatrix, WellKeyed, AllSelfSharesValid, InOrder, NormaliseAll, WholeShares, Val, SumValues, Solves,
         RefsOf, InsideShare, TotalShare;
    var clean := NormaliseAll(centres);
    var cs := InOrder(clean);
    var totals := r.value.totals;
    OrderedIsWhole(centres);
    HandedOnIsSum(clean, totals, |clean|);
    assert clean[..|clean|] == clean && cs[..|cs|] == cs;
    InOrderMultiset(clean);
    SumByPermutation(HandedBy(totals), clean, cs);
    HandedInOrder(cs, totals, |cs|);
    PoolsInOrder(centres);
    var x := TotalsRow(cs, totals);
    Balance(ShareMatrix(cs), PrimaryCosts(cs), x, Ones(|cs|));
    DotOnes(x, |cs|, |cs|);
    DotOnes(PrimaryCosts(cs), |cs|, |cs|);
  }

  lemma {:induction false} OrderedIsWhole(centres: seq<Centre>)
    requires WellKeyed(centres) && AllSelfSharesValid(centres) && WholeShares(centres)
    ensures WholeShares(InOrder(NormaliseAll(centres))) && DistinctRefs(InOrder(NormaliseAll(centres)))
  {
    hide WholeShares, AllSelfSharesValid, InOrder, NormaliseAll, DistinctRefs, DistinctConsumers;
    NormaliseKeeps(centres);
    InOrderKeeps(NormaliseAll(centres));
  }

  lemma {:induction false} PoolsInOrder(centres: seq<Centre>)
    requires AllSelfSharesValid(centres)
    ensures var cs := InOrder(NormaliseAll(centres));
      Sum(PrimaryCosts(cs), |cs|) == SumBy(PoolOf(), centres)
  {
    hide InOrder, SelfShareInvalid, SelfExclusion.Normalised;
    var clean := NormaliseAll(centres);
    var cs := InOrder(clean);
    PoolsKept(centres);
    SumByPointwise(PoolOf(), clean, PoolOf(), centres);
    InOrderMultiset(clean);
    SumByPermutation(PoolOf(), clean, cs);
    PrimarySum(cs, |cs|);
    assert cs[..|cs|] == cs;
  }

  lemma {:induction false} PrimarySum(cs: seq<Centre>, k: nat)
    requires k <= |cs|
    ensures Sum(PrimaryCosts(cs), k) == SumBy(PoolOf(), cs[..k])
  {
    if k > 0 {
      PrimarySum(cs, k - 1);
      assert cs[..k][..k - 1] == cs[..k - 1];
    }
  }

  // ------------------------------------------------------------------ the refusals

  /** A component refused as closed and holding positive primary cost has no
      never-negative answer at all: the refusal withholds nothing. */
  lemma {:induction false} RefusalWithholdsNothing(centres: seq<Centre>, ceiling: int, r: Result, x: Row)
    requires WellKeyed(centres) && AllSelfSharesValid(centres) && SubShares(centres)
    requires Run(centres, ceiling, r) && r.Refused? && r.refusal.SystemClosed?
    requires |x| == |centres| == |InOrder(NormaliseAll(centres))|
    requires forall i :: 0 <= i < |x| ==> x[i] >= 0.0
    requires Solves(ShareMatrix(InOrder(NormaliseAll(centres))), PrimaryCosts(InOrder(NormaliseAll(centres))), x)
    ensures var cs := InOrder(NormaliseAll(centres));
      Dot(Indicator(cs, Members(r.refusal.component)), PrimaryCosts(cs), |cs|) <= 0.0
  {
    hide SubShares, ShareMatrix, WellKeyed, AllSelfSharesValid, InOrder, NormaliseAll, Substochastic, Solves, Dot,
      LeakageOf, IsScc, IsServiceGraph, LeakFree, LeakFreeRefs, DistinctRefs;
    var clean := NormaliseAll(centres);
    var cs := InOrder(clean);
    var c := r.refusal.component;
    OrderedIsSubstochastic(centres);
    ClosedMembers(centres, ceiling, r);
    LeakFreeEquivalent(cs, Members(c));
    LeakFreeHasNoCost(ShareMatrix(cs), PrimaryCosts(cs), x, Indicator(cs, Members(c)));
  }

  lemma {:induction false} ClosedMembers(centres: seq<Centre>, ceiling: int, r: Result)
    requires WellKeyed(centres) && AllSelfSharesValid(centres) && SubShares(centres)
    requires Run(centres, ceiling, r) && r.Refused? && r.refusal.SystemClosed?
    ensures var cs := InOrder(NormaliseAll(centres));
      Members(r.refusal.component) <= RefsOf(cs) && LeakFreeRefs(cs, Members(r.refusal.component))
  {
    hide SubShares, AllSelfSharesValid, InOrder, NormaliseAll, LeakageOf, IsScc, LeakFreeRefs, DistinctRefs,
         DistinctConsumers, Discriminates;
    var clean := NormaliseAll(centres);
    NormaliseKeeps(centres);
    InOrderKeeps(clean);
    var c := r.refusal.component;
    var g :| IsServiceGraph(g, clean) && IsScc(g, Members(c)) && Members(c) <= RefsOf(clean);
    ClosedComponentListed(clean, InOrder(clean), g, c);
  }

  // --------------------------------------------------------- a share of zero

  function Third(k: nat): Ref {
    Ref(if k == 0 then "a" else if k == 1 then "b" else "c")
  }

  /** a and b serve only each other; b lists c at a share of zero; c gives half of
      its output to a and half to production. */
  function ZeroShareCentres(): seq<Centre> {
    [Centre(Third(0), 100, [Consumer(Third(1), Rational.Rational(1, 1))]),
     Centre(Third(1), 100, [Consumer(Third(0), Rational.Rational(1, 1)), Consumer(Third(2), Rational.Rational(0, 1))]),
     Centre(Third(2), 100, [Consumer(Third(0), Rational.Rational(1, 2)), Consumer(Ref("p"), Rational.Rational(1, 2))])]
  }

  lemma {:induction false} InsideOfOne(x: Consumer, s: set<Ref>)
    ensures InsideShare([x], s) == if x.ref in s then Val(x.share) else 0.0
  {
    assert [x][..0] == [];
  }

  lemma {:induction false} InsideOfTwo(x: Consumer, y: Consumer, s: set<Ref>)
    ensures InsideShare([x, y], s)
      == (if x.ref in s then Val(x.share) else 0.0) + if y.ref in s then Val(y.share) else 0.0
  {
    assert [x, y][..1] == [x];
    InsideOfOne(x, s);
  }

  /** The leak-free pair of the zero-share centres. */
  lemma ZeroSharePair()
    ensures LeakFreeRefs(ZeroShareCentres(), {Third(0), Third(1)})
  {
    var cs, s := ZeroShareCentres(), {Third(0), Third(1)};
    InsideOfOne(cs[0].consumers[0], s);
    InsideOfTwo(cs[1].consumers[0], cs[1].consumers[1], s);
    assert cs[0].ref in RefsOf(cs) && cs[1].ref in RefsOf(cs);
    assert Third(0).name[0] != Third(2).name[0] && Third(1).name[0] != Third(2).name[0];
  }

  lemma ThirdsDiffer()
    ensures Third(0) != Third(1) && Third(0) != Third(2) && Third(1) != Third(2)
    ensures Third(0) != Ref("p") && Third(1) != Ref("p") && Third(2) != Ref("p")
  {
    assert Third(0).name[0] != Third(1).name[0]
      && Third(0).name[0] != Third(2).name[0] && Third(1).name[0] != Third(2).name[0];
    assert Ref("p").name[0] == 'p' && Third(0).name[0] != 'p' && Third(1).name[0] != 'p' && Third(2).name[0] != 'p';
  }

  lemma ZeroShareKeys()
    ensures WellKeyed(ZeroShareCentres()) && SubShares(ZeroShareCentres()) && DistinctRefs(ZeroShareCentres())
    ensures RefsOf(ZeroShareCentres()) == {Third(0), Third(1), Third(2)}
  {
    hide Third;
    ThirdsDiffer();
    ZeroShareTotals();
    var cs := ZeroShareCentres();
    assert cs[0].ref in RefsOf(cs) && cs[1].ref in RefsOf(cs) && cs[2].ref in RefsOf(cs);
  }

  lemma ZeroShareTotals()
    ensures SubShares(ZeroShareCentres())
  {
    hide Third;
    var cs := ZeroShareCentres();
    ZeroShareValues();
    hide Val, TotalShare;
    TotalOfOne(cs[0].consumers[0]);
    TotalOfTwo(cs[1].consumers[0], cs[1].consumers[1]);
    TotalOfTwo(cs[2].consumers[0], cs[2].consumers[1]);
    assert NonNegativeShares(cs[0].consumers)
      && NonNegativeShares(cs[1].consumers) && NonNegativeShares(cs[2].consumers);
  }

  lemma ZeroShareValues()
    ensures Val(Rational.Rational(1, 1)) == 1.0
    ensures Val(Rational.Rational(0, 1)) == 0.0 && Val(Rational.Rational(1, 2)) == 0.5
  {
  }

  lemma TotalOfOne(x: Consumer)
    ensures TotalShare([x]) == Val(x.share)
  {
    assert [x][..0] == [];
  }

  lemma TotalOfTwo(x: Consumer, y: Consumer)
    ensures TotalShare([x, y]) == Val(x.share) + Val(y.share)
  {
    assert [x, y][..1] == [x];
    TotalOfOne(x);
  }

  lemma {:induction false} ZeroShareLeaks(g: Graph, c: set<Ref>)
    requires IsServiceGraph(g, ZeroShareCentres()) && IsScc(g, c) && c <= {Third(0), Third(1), Third(2)}
    ensures Third(2) in c && InsideShare(ZeroShareCentres()[2].consumers, c) != 1.0
  {
    hide Third, IsScc;
    var cs := ZeroShareCentres();
    ThirdsDiffer();
    ZeroShareEdges(g);
    AllMutual(g, c);
    InsideOfTwo(cs[2].consumers[0], cs[2].consumers[1], c);
  }

  lemma ZeroShareEdges(g: Graph)
    requires IsServiceGraph(g, ZeroShareCentres())
    ensures Third(1) in Succ(g, Third(0)) && Third(2) in Succ(g, Third(1)) && Third(0) in Succ(g, Third(2))
  {
    hide Third;
    var cs := ZeroShareCentres();
    ZeroShareKeys();
    assert cs[0].consumers[0].ref == Third(1)
      && cs[1].consumers[1].ref == Third(2) && cs[2].consumers[0].ref == Third(0);
    assert cs[0].ref == Third(0) && cs[1].ref == Third(1) && cs[2].ref == Third(2);
  }

  lemma AllMutual(g: Graph, c: set<Ref>)
    requires Third(1) in Succ(g, Third(0)) && Third(2) in Succ(g, Third(1)) && Third(0) in Succ(g, Third(2))
    requires IsScc(g, c) && c <= {Third(0), Third(1), Third(2)}
    ensures Third(2) in c
  {
    ReachEdge(g, Third(0), Third(1));
    ReachEdge(g, Third(1), Third(2));
    ReachEdge(g, Third(2), Third(0));
    hide Reach;
    ReachTrans(g, Third(0), Third(1), Third(2));
    ReachTrans(g, Third(2), Third(0), Third(1));
    var v :| v in c;
    assert v != Third(2) ==> Mutual(g, v, Third(2));
  }

  /** Strict positivity is what the leakage test needs: here every strongly
      connected component leaks, and the system is singular all the same. */
  lemma ZeroShareHidesClosure(g: Graph)
    requires IsServiceGraph(g, ZeroShareCentres())
    ensures WellKeyed(ZeroShareCentres()) && SubShares(ZeroShareCentres()) && SingularSystem(ZeroShareCentres())
    ensures forall c :: IsScc(g, c) ==> !LeakFreeRefs(ZeroShareCentres(), c)
  {
    var cs := ZeroShareCentres();
    ZeroShareKeys();
    hide WellKeyed, SubShares, InsideShare, IsFixed, ShareMatrix, IsScc, LeakFree;
    assert SingularSystem(cs) by {
      ZeroSharePair();
      SubIsSubstochastic(cs);
      LeakFreeEquivalent(cs, {Third(0), Third(1)});
      LeakFreeSingular(ShareMatrix(cs), 3, Indicator(cs, {Third(0), Third(1)}));
    }
    forall c | IsScc(g, c) ensures !LeakFreeRefs(cs, c) {
      if LeakFreeRefs(cs, c) { ZeroShareLeaks(g, c); }
    }
  }
}
