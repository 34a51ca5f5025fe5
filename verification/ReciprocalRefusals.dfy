/** When reciprocal allocation refuses, in terms of the centres as they are given. */
module ReciprocalRefusals {
  import opened Refs
  import opened Sorting
  import opened RefLists
  import opened Graphs
  import opened StrongComponents
  import opened ExactRational
  import opened LinearAlgebra
  import opened LinearSolver
  import opened Options
  import opened Circulation
  import opened ReciprocalModel
  import opened SelfExclusion
  import opened Reciprocal
  import opened ReciprocalResults

  // ---------------------------------------------------------------- the conditions

  /** Some non-empty set of centres passes all of its output on within itself. */
  ghost predicate SomeLeakFree(cs: seq<Centre>) {
    exists s :: LeakFreeRefs(cs, s)
  }

  /** Some strongly connected component of the drawn service graph does. */
  ghost predicate HasClosedComponent(cs: seq<Centre>) {
    exists g, c :: IsServiceGraph(g, cs) && IsScc(g, c) && LeakFreeRefs(cs, c)
  }

  ghost function DrawnGraph(cs: seq<Centre>): (g: Graph)
    requires DistinctRefs(cs)
    ensures IsServiceGraph(g, cs)
  {
    FindEach(cs);
    map x | x in RefsOf(cs) :: ServiceConsumers(ConsumersOf(cs, x), RefsOf(cs))
  }

  ghost function ConsumersOf(cs: seq<Centre>, x: Ref): seq<Consumer> {
    match FindCentre(cs, x)
    case Some(c) => c.consumers
    case None => []
  }

  lemma FindEach(cs: seq<Centre>)
    requires DistinctRefs(cs)
    ensures forall j :: 0 <= j < |cs| ==> ConsumersOf(cs, cs[j].ref) == cs[j].consumers
  {
    forall j | 0 <= j < |cs| ensures ConsumersOf(cs, cs[j].ref) == cs[j].consumers {
      FindCentreFinds(cs, cs[j].ref);
    }
  }

  /** The edge from `x` to `y` that the centres call for. */
  ghost predicate CallsFor(cs: seq<Centre>, x: Ref, y: Ref) {
    exists j :: 0 <= j < |cs| && cs[j].ref == x && y in RefsOf(cs) && IsConsumer(cs[j].consumers, y)
  }

  lemma GraphEdge(g: Graph, cs: seq<Centre>, x: Ref, y: Ref)
    requires IsServiceGraph(g, cs)
    ensures y in Succ(g, x) <==> CallsFor(cs, x, y)
  {
    hide IsConsumer;
    if x in RefsOf(cs) {
      forall j | 0 <= j < |cs| && cs[j].ref == x
        ensures y in g[x] <==> y in RefsOf(cs) && IsConsumer(cs[j].consumers, y)
      {
        assert y in g[cs[j].ref] <==> y in RefsOf(cs) && IsConsumer(cs[j].consumers, y);
      }
    }
  }

  lemma SameEdges(g: Graph, h: Graph, cs: seq<Centre>)
    requires IsServiceGraph(g, cs) && IsServiceGraph(h, cs)
    ensures EdgesWalked(g, h)
  {
    hide IsServiceGraph, CallsFor, Reach;
    forall x, y | y in Succ(g, x) ensures Reach(h, x, y) {
      GraphEdge(g, cs, x, y);
      GraphEdge(h, cs, x, y);
      ReachEdge(h, x, y);
    }
  }

  /** Whichever way the graph is drawn, it has the same components. */
  lemma AnyGraphTells(cs: seq<Centre>, g: Graph)
    requires IsServiceGraph(g, cs)
    ensures HasClosedComponent(cs) <==> exists c :: IsScc(g, c) && LeakFreeRefs(cs, c)
  {
    hide IsServiceGraph, IsScc, LeakFreeRefs;
    if HasClosedComponent(cs) {
      var h, c :| IsServiceGraph(h, cs) && IsScc(h, c) && LeakFreeRefs(cs, c);
      SameEdges(g, h, cs);
      SameEdges(h, g, cs);
      SccTransfer(g, h, c);
    }
  }

  /** The system is singular exactly when some set of centres is leak-free. */
  lemma SingularExactlyWhenSomeLeakFree(cs: seq<Centre>)
    requires DistinctRefs(cs) && SubShares(cs)
    ensures SingularSystem(cs) <==> SomeLeakFree(cs)
  {
    hide IsFixed, LeakFree, LeakFreeRefs, SubShares, ShareMatrix, DistinctRefs, ChosenRefs;
    var n, a := |cs|, ShareMatrix(cs);
    SubIsSubstochastic(cs);
    SingularExactlyWhenClosed(a, n);
    if w :| LeakFree(a, n, w) { ChosenLeakFree(cs, w); }
    if s :| LeakFreeRefs(cs, s) {
      LeakFreeInside(cs, s);
      LeakFreeEquivalent(cs, s);
    }
  }

  lemma LeakFreeInside(cs: seq<Centre>, s: set<Ref>)
    requires LeakFreeRefs(cs, s)
    ensures s <= RefsOf(cs) && s != {}
  {
  }

  lemma ChosenLeakFree(cs: seq<Centre>, w: Row)
    requires DistinctRefs(cs) && LeakFree(ShareMatrix(cs), |cs|, w)
    ensures LeakFreeRefs(cs, ChosenRefs(cs, w))
  {
    ChosenIndicator(cs, w);
    LeakFreeEquivalent(cs, ChosenRefs(cs, w));
    hide LeakFree, LeakFreeRefs;
  }

  // --------------------------------------------------------- renormalised and ordered

  lemma {:induction false} OthersHave(l: seq<Consumer>, r: Ref, keep: Rational, y: Ref)
    requires keep.num != 0 && IsConsumer(l, y) && y != r
    ensures IsConsumer(Others(l, r, keep), y)
  {
    hide RDiv;
    var k :| 0 <= k < |l| && l[k].ref == y;
    var m, last := l[..|l| - 1], l[|l| - 1];
    var o, p := Others(m, r, keep), Others(l, r, keep);
    if k < |m| {
      assert m[k].ref == y;
      OthersHave(m, r, keep, y);
      var i :| 0 <= i < |o| && o[i].ref == y;
      assert p[i].ref == y;
    } else {
      assert p[|p| - 1].ref == y;
    }
  }

  lemma {:induction false} InsideAdds(l: seq<Consumer>, s: set<Ref>, r: Ref)
    requires r in s
    ensures InsideShare(l, s) == InsideShare(l, s - {r}) + InsideShare(l, {r})
  {
    hide Val;
    if l != [] { InsideAdds(l[..|l| - 1], s, r); }
  }

  lemma OneOfKept(inside: real, kept: real, others: real, whole: real, self: real)
    requires kept > 0.0 && inside * kept == others && kept == 1.0 - self && whole == others + self
    ensures inside == 1.0 <==> whole == 1.0
  {
    RealCancel(inside, 1.0, kept);
  }

  /** A centre passes all its output on within a set that holds it, renormalised or
      not. */
  lemma NormalisedInside(c: Centre, s: set<Ref>)
    requires DistinctConsumers(c.consumers) && !SelfShareInvalid(c) && c.ref in s
    ensures InsideShare(Normalised(c).consumers, s) == 1.0 <==> InsideShare(c.consumers, s) == 1.0
  {
    hide *;
    NormalisedShares(c, s);
    KeptIs(c);
    InsideAdds(c.consumers, s, c.ref);
    OneOfKept(InsideShare(Normalised(c).consumers, s), Val(Kept(c)), InsideShare(c.consumers, s - {c.ref}),
              InsideShare(c.consumers, s), InsideShare(c.consumers, {c.ref}));
  }

  lemma NormalisedLeakFree(centres: seq<Centre>, s: set<Ref>)
    requires WellKeyed(centres) && AllSelfSharesValid(centres)
    ensures LeakFreeRefs(NormaliseAll(centres), s) <==> LeakFreeRefs(centres, s)
  {
    NormaliseKeeps(centres);
    var clean := NormaliseAll(centres);
    forall j | 0 <= j < |centres| && centres[j].ref in s
      ensures InsideShare(clean[j].consumers, s) == 1.0 <==> InsideShare(centres[j].consumers, s) == 1.0
    {
      NormalisedInside(centres[j], s);
    }
    forall j | 0 <= j < |centres| ensures clean[j].ref == centres[j].ref { NormalisedRef(centres[j]); }
    hide InsideShare, NormaliseAll, Normalised, WellKeyed, AllSelfSharesValid;
  }

  /** Renormalising drops only the edge from a centre to itself. */
  lemma NormalisedEdge(centres: seq<Centre>, g: Graph, h: Graph, x: Ref, y: Ref)
    requires WellKeyed(centres) && AllSelfSharesValid(centres)
    requires IsServiceGraph(g, centres) && IsServiceGraph(h, NormaliseAll(centres))
    requires RefsOf(NormaliseAll(centres)) == RefsOf(centres)
    ensures y in Succ(g, x) && y != x ==> y in Succ(h, x)
    ensures y in Succ(h, x) ==> y in Succ(g, x)
  {
    var clean := NormaliseAll(centres);
    GraphEdge(g, centres, x, y);
    GraphEdge(h, clean, x, y);
    NormalisedCalls(centres, x, y);
  }

  lemma NormalisedCalls(centres: seq<Centre>, x: Ref, y: Ref)
    requires WellKeyed(centres) && AllSelfSharesValid(centres) && RefsOf(NormaliseAll(centres)) == RefsOf(centres)
    ensures CallsFor(centres, x, y) && y != x ==> CallsFor(NormaliseAll(centres), x, y)
    ensures CallsFor(NormaliseAll(centres), x, y) ==> CallsFor(centres, x, y)
  {
    var clean := NormaliseAll(centres);
    hide IsConsumer, Normalised, RefsOf, NormaliseAll;
    forall j | 0 <= j < |centres|
      ensures clean[j].ref == centres[j].ref
      ensures IsConsumer(clean[j].consumers, y) ==> IsConsumer(centres[j].consumers, y)
      ensures IsConsumer(centres[j].consumers, y) && y != centres[j].ref ==> IsConsumer(clean[j].consumers, y)
    {
      NormalisedRef(centres[j]);
      NormalisedHas(centres[j], y);
    }
  }

  lemma NormalisedEdges(centres: seq<Centre>, g: Graph, h: Graph)
    requires WellKeyed(centres) && AllSelfSharesValid(centres)
    requires IsServiceGraph(g, centres) && IsServiceGraph(h, NormaliseAll(centres))
    ensures EdgesWalked(g, h) && EdgesWalked(h, g)
  {
    NormaliseKeeps(centres);
    hide WellKeyed, AllSelfSharesValid, IsServiceGraph, NormaliseAll, RefsOf, Reach, SubShares, FairShares, WholeShares;
    forall x, y | y in Succ(g, x) ensures Reach(h, x, y) {
      NormalisedEdge(centres, g, h, x, y);
      if y == x { ReachSelf(h, x); } else { ReachEdge(h, x, y); }
    }
    forall x, y | y in Succ(h, x) ensures Reach(g, x, y) {
      NormalisedEdge(centres, g, h, x, y);
      ReachEdge(g, x, y);
    }
  }

  lemma NormalisedHas(c: Centre, y: Ref)
    requires DistinctConsumers(c.consumers) && !SelfShareInvalid(c)
    ensures IsConsumer(Normalised(c).consumers, y) ==> IsConsumer(c.consumers, y)
    ensures IsConsumer(c.consumers, y) && y != c.ref ==> IsConsumer(Normalised(c).consumers, y)
  {
    OthersKeys(c.consumers, c.ref, Kept(c));
    if IsConsumer(c.consumers, y) && y != c.ref { OthersHave(c.consumers, c.ref, Kept(c), y); }
  }

  lemma ClosedComponentNormalised(centres: seq<Centre>)
    requires WellKeyed(centres) && AllSelfSharesValid(centres)
    ensures HasClosedComponent(NormaliseAll(centres)) <==> HasClosedComponent(centres)
  {
    NormaliseKeeps(centres);
    var clean := NormaliseAll(centres);
    assert DistinctRefs(centres) && DistinctRefs(clean);
    hide *;
    var g, h := DrawnGraph(centres), DrawnGraph(clean);
    NormalisedEdges(centres, g, h);
    AnyGraphTells(centres, g);
    AnyGraphTells(clean, h);
    if c :| IsScc(g, c) && LeakFreeRefs(centres, c) {
      SccTransfer(g, h, c);
      NormalisedLeakFree(centres, c);
    }
    if c :| IsScc(h, c) && LeakFreeRefs(clean, c) {
      SccTransfer(g, h, c);
      NormalisedLeakFree(centres, c);
    }
  }

  lemma LeakFreeNormalised(centres: seq<Centre>)
    requires WellKeyed(centres) && AllSelfSharesValid(centres)
    ensures SomeLeakFree(NormaliseAll(centres)) <==> SomeLeakFree(centres)
  {
    hide WellKeyed, AllSelfSharesValid, NormaliseAll, LeakFreeRefs;
    forall s ensures LeakFreeRefs(NormaliseAll(centres), s) <==> LeakFreeRefs(centres, s) {
      NormalisedLeakFree(centres, s);
    }
  }

  lemma LeakFreeOrdered(clean: seq<Centre>)
    requires WellKeyed(clean)
    ensures SomeLeakFree(InOrder(clean)) <==> SomeLeakFree(clean)
  {
    InOrderKeeps(clean);
    hide WellKeyed, InOrder, LeakFreeRefs, IsServiceGraph;
    forall s ensures LeakFreeRefs(InOrder(clean), s) <==> LeakFreeRefs(clean, s) {
      SameCentres(clean, InOrder(clean), map[], s);
    }
  }

  // --------------------------------------------------------------- positive shares

  /** The consumers whose share is above zero. */
  function PositiveOnes(l: seq<Consumer>): (p: seq<Consumer>)
    ensures forall c :: c in p <==> c in l && c.share.num > 0
  {
    if l == [] then []
    else PositiveOnes(l[..|l| - 1]) + if l[|l| - 1].share.num > 0 then [l[|l| - 1]] else []
  }

  /** The centres without their consumers at zero. */
  function PositivePart(cs: seq<Centre>): (p: seq<Centre>)
    ensures |p| == |cs|
    ensures forall k :: 0 <= k < |cs| ==> p[k] == Centre(cs[k].ref, cs[k].primary, PositiveOnes(cs[k].consumers))
  {
    seq(|cs|, k requires 0 <= k < |cs| => Centre(cs[k].ref, cs[k].primary, PositiveOnes(cs[k].consumers)))
  }

  lemma SignOfShare(r: Rational)
    ensures r.num > 0 <==> Val(r) > 0.0
  {
    CompareValues(r, R_ZERO);
    CompareValues(R_ZERO, r);
    UnitValues();
  }

  lemma {:induction false} PositiveShareSums(l: seq<Consumer>, s: set<Ref>)
    requires NonNegativeShares(l)
    ensures InsideShare(PositiveOnes(l), s) == InsideShare(l, s) && TotalShare(PositiveOnes(l)) == TotalShare(l)
  {
    hide Val;
    if l != [] {
      var m, last := l[..|l| - 1], l[|l| - 1];
      PositiveShareSums(m, s);
      SignOfShare(last.share);
      if last.share.num > 0 {
        assert PositiveOnes(l)[..|PositiveOnes(m)|] == PositiveOnes(m);
      } else {
        assert PositiveOnes(l) == PositiveOnes(m);
      }
    }
  }

  lemma PositivePartFair(cs: seq<Centre>)
    requires DistinctRefs(cs) && SubShares(cs)
    ensures DistinctRefs(PositivePart(cs)) && FairShares(PositivePart(cs)) && SubShares(PositivePart(cs))
  {
    hide Val, TotalShare;
    var p := PositivePart(cs);
    forall k | 0 <= k < |p| ensures PositiveShares(p[k].consumers) && TotalShare(p[k].consumers) <= 1.0 {
      PositiveShareSums(cs[k].consumers, {});
      forall i | 0 <= i < |p[k].consumers| ensures Val(p[k].consumers[i].share) > 0.0 {
        assert p[k].consumers[i] in p[k].consumers;
        SignOfShare(p[k].consumers[i].share);
      }
    }
    FairIsSub(p);
  }

  lemma PositivePartLeakFree(cs: seq<Centre>, s: set<Ref>)
    requires SubShares(cs)
    ensures LeakFreeRefs(PositivePart(cs), s) <==> LeakFreeRefs(cs, s)
  {
    hide InsideShare, TotalShare, NonNegativeShares;
    var p := PositivePart(cs);
    forall j | 0 <= j < |cs| ensures InsideShare(p[j].consumers, s) == InsideShare(cs[j].consumers, s) {
      PositiveShareSums(cs[j].consumers, s);
    }
    SameRefs(p, cs);
  }

  /** A set is leak-free exactly when a component of the positive-share graph is. */
  lemma LeakFreeIsPositivelyClosed(cs: seq<Centre>)
    requires DistinctRefs(cs) && SubShares(cs)
    ensures SomeLeakFree(cs) <==> HasClosedComponent(PositivePart(cs))
  {
    hide *;
    var p := PositivePart(cs);
    PositivePartFair(cs);
    var g := DrawnGraph(p);
    AnyGraphTells(p, g);
    SingularExactlyWhenComponentClosed(g, p);
    SingularExactlyWhenSomeLeakFree(p);
    SingularMeans(p);
    SomePositive(cs);
  }

  lemma SingularMeans(cs: seq<Centre>)
    ensures SingularSystem(cs) <==> exists z :: IsFixed(ShareMatrix(cs), |cs|, z)
  {
    hide IsFixed, ShareMatrix;
  }

  lemma SomePositive(cs: seq<Centre>)
    requires SubShares(cs)
    ensures SomeLeakFree(PositivePart(cs)) <==> SomeLeakFree(cs)
  {
    hide LeakFreeRefs, SubShares, PositivePart;
    forall s ensures LeakFreeRefs(PositivePart(cs), s) <==> LeakFreeRefs(cs, s) { PositivePartLeakFree(cs, s); }
  }

  // ------------------------------------------------------------------ the refusals

  /** A finite set of references as an ordered list. */
  lemma {:induction false} ListOf(c: set<Ref>) returns (l: seq<Ref>)
    ensures StrictlySorted(l) && Members(l) == c
    decreases |c|
  {
    var d := AnyList(c);
    SortedStrictly(d);
    l := Sort(LessEq, d);
  }

  lemma {:induction false} AnyList(c: set<Ref>) returns (l: seq<Ref>)
    ensures Distinct(l) && forall x :: x in l <==> x in c
    decreases |c|
  {
    if c == {} {
      l := [];
    } else {
      var x :| x in c;
      var rest := AnyList(c - {x});
      l := rest + [x];
    }
  }

  lemma {:induction false} LeakingComponent(clean: seq<Centre>, g: Graph, c: set<Ref>)
    requires DistinctRefs(clean) && SubShares(clean) && AllComponentsLeak(g, clean) && IsScc(g, c)
    ensures !LeakFreeRefs(clean, c)
  {
    hide DistinctRefs, SubShares, IsScc, LeakageOf, StrictlySorted;
    if c <= RefsOf(clean) {
      var l := ListOf(c);
      assert LeakageOf(clean, l, |l|) != 0.0;
      ClosedComponentListed(clean, clean, g, l);
    }
  }

  /** Where every component leaks something, none is closed. */
  lemma LeakingMeansNotClosed(clean: seq<Centre>, g: Graph)
    requires DistinctRefs(clean) && SubShares(clean) && IsServiceGraph(g, clean) && AllComponentsLeak(g, clean)
    ensures !HasClosedComponent(clean)
  {
    hide *;
    AnyGraphTells(clean, g);
    forall c | IsScc(g, c) ensures !LeakFreeRefs(clean, c) { LeakingComponent(clean, g, c); }
  }

  lemma ClosedIsLeakFree(cs: seq<Centre>)
    requires HasClosedComponent(cs)
    ensures SomeLeakFree(cs)
  {
    hide LeakFreeRefs, IsScc, IsServiceGraph;
  }

  lemma RegularMeans(cs: seq<Centre>, b: Row, x: Row)
    requires |b| == |cs| && Settles(ShareMatrix(cs), b, Some(x))
    ensures !SingularSystem(cs)
  {
    hide IsFixed, ShareMatrix, Solves;
  }

  ghost predicate SettledSomehow(cs: seq<Centre>) {
    exists x :: Settles(ShareMatrix(cs), PrimaryCosts(cs), Some(x))
  }

  ghost predicate DrawnClosed(clean: seq<Centre>, c: seq<Ref>) {
    LeakageOf(clean, c, |c|) == 0.0
      && exists g :: IsServiceGraph(g, clean) && IsScc(g, Members(c)) && Members(c) <= RefsOf(clean)
  }

  ghost predicate DrawnLeaking(clean: seq<Centre>) {
    exists g :: IsServiceGraph(g, clean) && AllComponentsLeak(g, clean)
  }

  /** What each outcome says where no consumer is listed twice. */
  lemma {:induction false} AnswersSay(clean: seq<Centre>, ceiling: int, r: Result)
    requires WellKeyed(clean) && RefsOf(clean) == RefsOf(InOrder(clean))
    requires Answers(clean, InOrder(clean), ceiling, r)
    ensures r.Ok? || r == Refused(SystemDegenerate) ==> SettledSomehow(InOrder(clean))
    ensures r.Refused? ==> !r.refusal.SelfServiceRatioInvalid?
    ensures r.Refused? && r.refusal.SystemClosed? ==> DrawnClosed(clean, r.refusal.component)
    ensures r == Refused(SingularDespiteLeakage) ==> SingularSystem(InOrder(clean)) && DrawnLeaking(clean)
  {
    LastOfOrdered(clean);
    hide WellKeyed, InOrder, SingularSystem, Settles, HandedAll, LeakageOf, IsScc, IsServiceGraph, AllComponentsLeak,
         RefsOf, ShareMatrix, LastEach, CirculationRatio, TotalsRow;
  }

  lemma LastOfOrdered(clean: seq<Centre>)
    requires WellKeyed(clean)
    ensures LastEach(InOrder(clean)) == InOrder(clean)
  {
    hide *;
    InOrderKeeps(clean);
  }

  /** The three ways a run on never-negative shares of at most 1 ends, on the
      renormalised centres. */
  lemma {:induction false} OutcomesOfClean(clean: seq<Centre>, ceiling: int, r: Result)
    requires WellKeyed(clean) && SubShares(clean) && RefsOf(clean) == RefsOf(InOrder(clean))
    requires Answers(clean, InOrder(clean), ceiling, r)
    ensures r.Refused? && r.refusal.SystemClosed? <==> HasClosedComponent(clean)
    ensures r == Refused(SingularDespiteLeakage) <==> SomeLeakFree(clean) && !HasClosedComponent(clean)
  {
    hide *;
    AnswersSay(clean, ceiling, r);
    match r
    case Ok(_) => Regular(clean);
    case Refused(SystemDegenerate) => Regular(clean);
    case Refused(SystemClosed(c)) => Closing(clean, c);
    case Refused(SingularDespiteLeakage) => Leaking(clean);
    case Refused(SelfServiceRatioInvalid(_)) =>
  }

  lemma Leaking(clean: seq<Centre>)
    requires WellKeyed(clean) && SubShares(clean) && SingularSystem(InOrder(clean)) && DrawnLeaking(clean)
    ensures SomeLeakFree(clean) && !HasClosedComponent(clean)
  {
    var g :| IsServiceGraph(g, clean) && AllComponentsLeak(g, clean);
    InOrderKeeps(clean);
    assert DistinctRefs(InOrder(clean)) && DistinctRefs(clean);
    hide *;
    LeakingMeansNotClosed(clean, g);
    SingularExactlyWhenSomeLeakFree(InOrder(clean));
    LeakFreeOrdered(clean);
  }

  lemma Regular(clean: seq<Centre>)
    requires WellKeyed(clean) && SubShares(clean) && SettledSomehow(InOrder(clean))
    ensures !SomeLeakFree(clean) && !HasClosedComponent(clean)
  {
    InOrderKeeps(clean);
    var cs := InOrder(clean);
    var x :| Settles(ShareMatrix(cs), PrimaryCosts(cs), Some(x));
    assert DistinctRefs(cs);
    hide *;
    RegularMeans(cs, PrimaryCosts(cs), x);
    SingularExactlyWhenSomeLeakFree(cs);
    LeakFreeOrdered(clean);
    if HasClosedComponent(clean) { ClosedIsLeakFree(clean); }
  }

  lemma Closing(clean: seq<Centre>, c: seq<Ref>)
    requires WellKeyed(clean) && SubShares(clean) && DrawnClosed(clean, c)
    ensures HasClosedComponent(clean) && SomeLeakFree(clean)
  {
    hide SubShares, IsServiceGraph, IsScc, LeakageOf, LeakFreeRefs, RefsOf;
    var g :| IsServiceGraph(g, clean) && IsScc(g, Members(c)) && Members(c) <= RefsOf(clean);
    ClosedComponentListed(clean, clean, g, c);
  }

  /** `solveReciprocal` on never-negative shares of at most 1 in total, as given:
      refused by the leakage test exactly when a component of the drawn service graph
      passes everything on within itself; refused by the solver exactly when one of
      the positive-share graph does and none of the drawn graph does. */
  lemma {:induction false} RefusalsExactly(centres: seq<Centre>, ceiling: int, r: Result)
    requires WellKeyed(centres) && AllSelfSharesValid(centres) && SubShares(centres)
    requires Run(centres, ceiling, r)
    ensures r.Refused? && r.refusal.SystemClosed? <==> HasClosedComponent(centres)
    ensures r == Refused(SingularDespiteLeakage) <==> SomeLeakFree(centres) && !HasClosedComponent(centres)
    ensures SomeLeakFree(centres) <==> HasClosedComponent(PositivePart(centres))
  {
    var clean := NormaliseAll(centres);
    assert DistinctRefs(centres);
    assert Answers(clean, InOrder(clean), ceiling, r) && RefsOf(clean) == RefsOf(InOrder(clean));
    hide *;
    NormaliseKeeps(centres);
    OutcomesOfClean(clean, ceiling, r);
    ClosedComponentNormalised(centres);
    LeakFreeNormalised(centres);
    LeakFreeIsPositivelyClosed(centres);
  }

  // --------------------------------------------------------------- a share of zero

  lemma {:induction false} ZeroShareValid()
    ensures AllSelfSharesValid(ZeroShareCentres())
  {
    hide Third;
    ThirdsDiffer();
    var cs := ZeroShareCentres();
    forall k | 0 <= k < |cs| ensures !SelfShareInvalid(cs[k]) {
      assert FirstShare(cs[k].consumers, cs[k].ref) == R_ZERO by {
        NoSelfShare(cs[k].consumers, cs[k].ref);
      }
    }
  }

  lemma {:induction false} NoSelfShare(l: seq<Consumer>, r: Ref)
    requires forall k :: 0 <= k < |l| ==> l[k].ref != r
    ensures FirstShare(l, r) == R_ZERO
  {
    if l != [] { NoSelfShare(l[1..], r); }
  }

  /** The centres with a share of zero are refused by the solver, at every ceiling. */
  lemma {:induction false} ZeroShareRefused()
    ensures AllSelfSharesValid(ZeroShareCentres())
    ensures forall ceiling, r :: Run(ZeroShareCentres(), ceiling, r) ==> r == Refused(SingularDespiteLeakage)
  {
    hide *;
    var cs := ZeroShareCentres();
    ZeroShareValid();
    ZeroShareKeys();
    var g := DrawnGraph(cs);
    ZeroShareHidesClosure(g);
    AnyGraphTells(cs, g);
    ZeroSharePair();
    SomePair(cs, {Third(0), Third(1)});
    forall ceiling, r | Run(cs, ceiling, r) ensures r == Refused(SingularDespiteLeakage) {
      RefusalsExactly(cs, ceiling, r);
    }
  }

  lemma SomePair(cs: seq<Centre>, s: set<Ref>)
    requires LeakFreeRefs(cs, s)
    ensures SomeLeakFree(cs)
  {
    hide LeakFreeRefs;
  }
}
