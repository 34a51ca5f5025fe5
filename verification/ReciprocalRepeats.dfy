/** Reciprocal allocation where a consumer is listed more than once: the matrix keeps
    the last entry, the other steps add all of them up, and cost can be lost between. */
module ReciprocalRepeats {
  import opened Refs
  import opened Sums
  import opened ExactRational
  import opened LinearAlgebra
  import opened LinearSolver
  import opened Options
  import opened Circulation
  import opened ReciprocalModel
  import opened SelfExclusion
  import opened Reciprocal
  import opened ReciprocalResults

  // -------------------------------------------------------------- where cost goes

  /** The part of a centre's output that is handed neither to production nor, by the
      last entries, to a service centre. */
  ghost function Unassigned(l: seq<Consumer>, services: set<Ref>): real {
    1.0 - OutsideShare(l, services) - InsideShare(LastOnly(l), services)
  }

  ghost function LostBy(totals: map<Ref, Rational>): Centre -> real {
    (c: Centre) => Val(Current(totals, c.ref)) * Unassigned(c.consumers, totals.Keys)
  }

  lemma {:induction false} LastPassed(cs: seq<Centre>, j: nat)
    requires DistinctRefs(cs) && j < |cs|
    ensures Passed(ShareMatrix(LastEach(cs)), |cs|, Ones(|cs|))[j] == InsideShare(LastOnly(cs[j].consumers), RefsOf(cs))
  {
    hide InsideShare, Dot, LastOnly, RefsOf;
    LastEachKeeps(cs, map[]);
    PassedInside(LastEach(cs), j);
  }

  lemma HandedTerm(x: real, h: real, o: real, u: real)
    requires u == 1.0 - o - h
    ensures x * o == x - h * x - x * u
  {
  }

  lemma SumLast(x: Row, k: nat)
    requires k < |x|
    ensures Sum(x, k + 1) == Sum(x, k) + x[k]
  {
  }

  lemma UnassignedIs(l: seq<Consumer>, s: set<Ref>)
    ensures Unassigned(l, s) == 1.0 - OutsideShare(l, s) - InsideShare(LastOnly(l), s)
  {
  }

  lemma LostByIs(totals: map<Ref, Rational>, c: Centre)
    ensures LostBy(totals)(c) == Val(Current(totals, c.ref)) * Unassigned(c.consumers, totals.Keys)
  {
    hide Val, Unassigned;
  }

  lemma LostOne(cs: seq<Centre>, totals: map<Ref, Rational>, i: nat)
    requires RefsOf(cs) == totals.Keys && i < |cs|
    ensures LostBy(totals)(cs[i]) == TotalsRow(cs, totals)[i] * Unassigned(cs[i].consumers, totals.Keys)
  {
    hide Val, Unassigned;
  }

  /** In matrix order: handed on is everything, less what is passed on inside, less
      what is lost. */
  lemma {:induction false} HandedOrLost(cs: seq<Centre>, totals: map<Ref, Rational>, k: nat)
    requires DistinctRefs(cs) && RefsOf(cs) == totals.Keys && k <= |cs|
    ensures SumBy(HandedBy(totals), cs[..k])
      == Sum(TotalsRow(cs, totals), k)
         - Dot(Passed(ShareMatrix(LastEach(cs)), |cs|, Ones(|cs|)), TotalsRow(cs, totals), k)
         - SumBy(LostBy(totals), cs[..k])
  {
    if k == 0 {
      DotNone(Passed(ShareMatrix(LastEach(cs)), |cs|, Ones(|cs|)), TotalsRow(cs, totals));
      hide HandedBy, LostBy, Passed, Dot, TotalsRow;
    } else {
      HandedOrLost(cs, totals, k - 1);
      hide *;
      HandedOneMore(cs, totals, k);
    }
  }

  lemma {:induction false} HandedOneMore(cs: seq<Centre>, totals: map<Ref, Rational>, k: nat)
    requires DistinctRefs(cs) && RefsOf(cs) == totals.Keys && 0 < k <= |cs|
    ensures var x, h := TotalsRow(cs, totals), Passed(ShareMatrix(LastEach(cs)), |cs|, Ones(|cs|));
      SumBy(HandedBy(totals), cs[..k]) - SumBy(HandedBy(totals), cs[..k - 1])
      == Sum(x, k) - Sum(x, k - 1) - (Dot(h, x, k) - Dot(h, x, k - 1))
         - (SumBy(LostBy(totals), cs[..k]) - SumBy(LostBy(totals), cs[..k - 1]))
  {
    hide *;
    var x, c := TotalsRow(cs, totals)[k - 1], cs[k - 1];
    var o, u := OutsideShare(c.consumers, totals.Keys), Unassigned(c.consumers, totals.Keys);
    HandedDelta(cs, totals, k);
    PassedDelta(cs, totals, k);
    SumLast(TotalsRow(cs, totals), k - 1);
    UnassignedIs(c.consumers, totals.Keys);
    HandedTerm(x, InsideShare(LastOnly(c.consumers), totals.Keys), o, u);
  }

  lemma HandedDelta(cs: seq<Centre>, totals: map<Ref, Rational>, k: nat)
    requires RefsOf(cs) == totals.Keys && 0 < k <= |cs|
    ensures var x, c := TotalsRow(cs, totals)[k - 1], cs[k - 1];
      && SumBy(HandedBy(totals), cs[..k])
        == SumBy(HandedBy(totals), cs[..k - 1]) + x * OutsideShare(c.consumers, totals.Keys)
      && SumBy(LostBy(totals), cs[..k])
        == SumBy(LostBy(totals), cs[..k - 1]) + x * Unassigned(c.consumers, totals.Keys)
  {
    hide *;
    PrefixSum(HandedBy(totals), cs, k);
    PrefixSum(LostBy(totals), cs, k);
    HandedOne(cs, totals, k - 1);
    LostOne(cs, totals, k - 1);
  }

  lemma PassedDelta(cs: seq<Centre>, totals: map<Ref, Rational>, k: nat)
    requires DistinctRefs(cs) && RefsOf(cs) == totals.Keys && 0 < k <= |cs|
    ensures var x, h := TotalsRow(cs, totals), Passed(ShareMatrix(LastEach(cs)), |cs|, Ones(|cs|));
      Dot(h, x, k) == Dot(h, x, k - 1) + InsideShare(LastOnly(cs[k - 1].consumers), totals.Keys) * x[k - 1]
  {
    hide *;
    var x, h := TotalsRow(cs, totals), Passed(ShareMatrix(LastEach(cs)), |cs|, Ones(|cs|));
    LastPassed(cs, k - 1);
    DotLast(h, x, k - 1);
  }

  /** On every accepted run production receives the primary pools less what is lost. */
  lemma {:induction false} CostAccountedFor(centres: seq<Centre>, ceiling: int, r: Result)
    requires DistinctRefs(centres) && AllSelfSharesValid(centres) && Run(centres, ceiling, r) && r.Ok?
    ensures SumValues(r.value.toProduction)
      == SumBy(PoolOf(), centres) - SumBy(LostBy(r.value.totals), NormaliseAll(centres))
  {
    hide ShareMatrix, DistinctRefs, AllSelfSharesValid, InOrder, NormaliseAll, Val, SumValues, Solves, RefsOf,
         InsideShare, TotalShare, LastEach, WellKeyed, FairShares, SubShares, Discriminates, LostBy, HandedBy, PoolOf;
    var clean := NormaliseAll(centres);
    var cs := InOrder(clean);
    var totals := r.value.totals;
    NormaliseShares(centres);
    InOrderRefs(clean);
    HandedOnIsSum(clean, totals, |clean|);
    assert clean[..|clean|] == clean && cs[..|cs|] == cs;
    InOrderMultiset(clean);
    SumByPermutation(HandedBy(totals), clean, cs);
    SumByPermutation(LostBy(totals), clean, cs);
    HandedOrLost(cs, totals, |cs|);
    PoolsInOrder(centres);
    SolvedBalance(cs, TotalsRow(cs, totals));
  }

  lemma {:induction false} SolvedBalance(cs: seq<Centre>, x: Row)
    requires Settles(ShareMatrix(LastEach(cs)), PrimaryCosts(cs), Some(x)) && |x| == |cs|
    ensures Sum(x, |cs|) == Sum(PrimaryCosts(cs), |cs|)
      + Dot(Passed(ShareMatrix(LastEach(cs)), |cs|, Ones(|cs|)), x, |cs|)
  {
    hide ShareMatrix, LastEach, IsFixed, Solves;
    Balance(ShareMatrix(LastEach(cs)), PrimaryCosts(cs), x, Ones(|cs|));
    DotOnes(x, |cs|, |cs|);
    DotOnes(PrimaryCosts(cs), |cs|, |cs|);
  }

  // ------------------------------------------------------------- entries once each

  /** No service centre is listed twice. */
  ghost predicate OnceEach(l: seq<Consumer>, services: set<Ref>) {
    forall i, j :: 0 <= i < j < |l| && l[i].ref == l[j].ref ==> l[i].ref !in services
  }

  lemma {:induction false} OnceStep(l: seq<Consumer>, s: set<Ref>)
    requires l != []
    ensures var m, last := l[..|l| - 1], l[|l| - 1];
      OnceEach(l, s) <==> OnceEach(m, s) && (last.ref in s ==> !IsConsumer(m, last.ref))
  {
    var m, last := l[..|l| - 1], l[|l| - 1];
    forall k | 0 <= k < |m| && OnceEach(l, s) && m[k].ref == last.ref ensures last.ref !in s {
      assert l[k].ref == l[|l| - 1].ref;
    }
  }

  lemma {:induction false} OnceApart(l: seq<Consumer>, s: set<Ref>, r: Ref)
    requires r in s
    ensures OnceEach(l, s) <==> OnceEach(l, s - {r}) && OnceEach(l, {r})
  {
    hide IsConsumer;
    if l != [] {
      OnceApart(l[..|l| - 1], s, r);
      OnceStep(l, s);
      OnceStep(l, s - {r});
      OnceStep(l, {r});
      hide OnceEach;
    }
  }

  lemma {:induction false} OnceWithout(l: seq<Consumer>, s: set<Ref>, r: Ref)
    requires !IsConsumer(l, r)
    ensures OnceEach(l, s) <==> OnceEach(l, s - {r})
  {
  }

  /** With positive shares the last entries hand on as much as all of them exactly when
      no service centre is listed twice. */
  lemma {:induction false} LastExact(l: seq<Consumer>, s: set<Ref>)
    requires PositiveShares(l)
    ensures InsideShare(LastOnly(l), s) == InsideShare(l, s) <==> OnceEach(l, s)
  {
    if l != [] {
      var m, last := l[..|l| - 1], l[|l| - 1];
      PrefixPositive(l);
      LastExact(m, s - {last.ref});
      PositiveIsNonNegative(m);
      LastInside(m, s - {last.ref});
      LastShares(l, s);
      InsideLast(l, s);
      OnceStep(l, s);
      hide LastOnly, InsideShare, OnceEach, IsConsumer, Val, PositiveShares, NonNegativeShares, TotalShare;
      if last.ref in s {
        ReciprocalModel.ConsumerShare(m, last.ref);
        InsideParts(m, s, last.ref);
        if !IsConsumer(m, last.ref) { OnceWithout(m, s, last.ref); }
      } else {
        assert s - {last.ref} == s;
      }
    } else {
      assert LastOnly(l) == l;
    }
  }

  lemma PrefixPositive(l: seq<Consumer>)
    requires l != [] && PositiveShares(l)
    ensures PositiveShares(l[..|l| - 1])
  {
    hide Val;
  }

  lemma {:induction false} InsideParts(l: seq<Consumer>, s: set<Ref>, r: Ref)
    requires r in s
    ensures InsideShare(l, s) == InsideShare(l, s - {r}) + InsideShare(l, {r})
  {
    hide Val;
    if l != [] { InsideParts(l[..|l| - 1], s, r); }
  }

  /** With positive shares the first self-share is all of it exactly when the centre
      lists itself at most once. */
  lemma {:induction false} FirstExact(l: seq<Consumer>, r: Ref)
    requires PositiveShares(l)
    ensures Val(FirstShare(l, r)) == InsideShare(l, {r}) <==> OnceEach(l, {r})
  {
    hide Val;
    if l == [] {
      UnitValues();
    } else {
      var t := l[1..];
      InsideFromFront(l, {r});
      OnceFront(l, r);
      assert PositiveShares(t);
      ReciprocalModel.ConsumerShare(t, r);
      if l[0].ref != r { FirstExact(t, r); }
    }
  }

  lemma OnceFront(l: seq<Consumer>, r: Ref)
    requires l != []
    ensures l[0].ref != r ==> (OnceEach(l, {r}) <==> OnceEach(l[1..], {r}))
    ensures l[0].ref == r ==> (OnceEach(l, {r}) <==> !IsConsumer(l[1..], r))
  {
    var t := l[1..];
    assert forall k :: 1 <= k < |l| ==> l[k] == t[k - 1];
    forall k | 0 <= k < |t| && OnceEach(l, {r}) && t[k].ref == l[0].ref ensures l[0].ref != r {
      assert l[0].ref == l[k + 1].ref;
    }
    if l[0].ref != r && OnceEach(l, {r}) {
      forall i, j | 0 <= i < j < |t| && t[i].ref == t[j].ref ensures t[i].ref !in {r} {
        assert l[i + 1].ref == l[j + 1].ref;
      }
    }
  }

  lemma {:induction false} OnceOthers(l: seq<Consumer>, r: Ref, keep: Rational, s: set<Ref>)
    requires keep.num != 0 && Val(keep) > 0.0
    ensures OnceEach(Others(l, r, keep), s) <==> OnceEach(l, s - {r})
    ensures forall y :: IsConsumer(Others(l, r, keep), y) <==> IsConsumer(l, y) && y != r
  {
    if l != [] {
      var m, last := l[..|l| - 1], l[|l| - 1];
      OnceOthers(m, r, keep, s);
      OthersStep(l, r, keep);
      OnceStep(l, s - {r});
      ConsumersOfPrefix(l);
      var o := Others(l, r, keep);
      if last.ref != r {
        OnceStep(o, s);
        ConsumersOfPrefix(o);
      }
      hide OnceEach, IsConsumer, Others, Val;
    }
  }

  // ------------------------------------------------------------ exactly when it is lost

  lemma LostParts(o: seq<Consumer>, s: set<Ref>)
    ensures Unassigned(o, s) == (1.0 - TotalShare(o)) + (InsideShare(o, s) - InsideShare(LastOnly(o), s))
  {
    hide TotalShare, InsideShare, LastOnly;
  }

  /** A renormalised centre of positive shares that total one never loses a negative
      part, and none exactly when it lists every service centre at most once. */
  lemma {:induction false} LostExactly(c: Centre, s: set<Ref>)
    requires !SelfShareInvalid(c) && PositiveShares(c.consumers) && TotalShare(c.consumers) == 1.0 && c.ref in s
    ensures Unassigned(Normalised(c).consumers, s) >= 0.0
    ensures Unassigned(Normalised(c).consumers, s) == 0.0 <==> OnceEach(c.consumers, s)
  {
    hide Others, Val, TotalShare, InsideShare, SelfShareInvalid, Kept, LastOnly, OnceEach, PositiveShares,
         NonNegativeShares, Unassigned, FirstShare;
    var l, keep := c.consumers, Kept(c);
    var o := Others(l, c.ref, keep);
    PositiveIsNonNegative(l);
    NormalisedFair(c);
    PositiveIsNonNegative(o);
    LostParts(o, s);
    LastInside(o, s);
    LastExact(o, s);
    OthersTotal(l, c.ref, keep);
    FirstAtMostAll(l, c.ref);
    FirstExact(l, c.ref);
    OnceOthers(l, c.ref, keep, s);
    OnceApart(l, s, c.ref);
    WholeExactly(TotalShare(o), Val(keep), InsideShare(l, {c.ref}), Val(FirstShare(l, c.ref)));
  }

  lemma WholeExactly(t: real, k: real, self: real, first: real)
    requires k > 0.0 && t * k == 1.0 - self && k == 1.0 - first
    ensures t == 1.0 <==> self == first
  {
    if t != 1.0 {
      assert (1.0 - t) * k == k - t * k;
      NonZeroProduct(1.0 - t, k);
    }
  }

  lemma NonZeroProduct(p: real, k: real)
    requires k > 0.0 && p != 0.0
    ensures p * k != 0.0
  {
  }

  lemma {:induction false} SumOfNone<T>(f: T -> real, s: seq<T>)
    requires forall i :: 0 <= i < |s| ==> f(s[i]) >= 0.0
    ensures SumBy(f, s) >= 0.0
    ensures SumBy(f, s) == 0.0 <==> forall i :: 0 <= i < |s| ==> f(s[i]) == 0.0
  {
    if s != [] {
      var m := s[..|s| - 1];
      SumOfNone(f, m);
      assert forall i :: 0 <= i < |m| ==> m[i] == s[i];
    }
  }

  lemma PositiveTimes(x: real, p: real)
    requires x > 0.0 && p >= 0.0
    ensures x * p >= 0.0 && (x * p == 0.0 <==> p == 0.0)
  {
  }

  ghost predicate PositivePrimaries(cs: seq<Centre>) {
    forall k :: 0 <= k < |cs| ==> cs[k].primary > 0
  }

  /** Every centre has a total, and a positive one. */
  lemma {:induction false} TotalAt(centres: seq<Centre>, ceiling: int, r: Result, k: nat)
    requires DistinctRefs(centres) && AllSelfSharesValid(centres)
    requires FairShares(centres) && PositivePrimaries(centres)
    requires Run(centres, ceiling, r) && r.Ok? && k < |centres|
    ensures r.value.totals.Keys == RefsOf(centres) && centres[k].ref in RefsOf(centres)
    ensures Val(Current(r.value.totals, centres[k].ref)) > 0.0
  {
    FairIsSub(centres);
    NormaliseShares(centres);
    TotalsCover(centres, ceiling, r);
    hide FairShares, SubShares, AllSelfSharesValid, Val, InOrder, Discriminates, WellKeyed, DistinctRefs, HandedAll,
         Settles, NormaliseAll, LastEach, ShareMatrix;
    assert centres[k].primary > 0;
  }

  lemma {:induction false} LostAt(centres: seq<Centre>, ceiling: int, r: Result, k: nat)
    requires DistinctRefs(centres) && AllSelfSharesValid(centres)
    requires FairShares(centres) && WholeShares(centres) && PositivePrimaries(centres)
    requires Run(centres, ceiling, r) && r.Ok? && k < |centres|
    ensures var lost := LostBy(r.value.totals)(NormaliseAll(centres)[k]);
      lost >= 0.0 && (lost == 0.0 <==> OnceEach(centres[k].consumers, RefsOf(centres)))
  {
    hide *;
    TotalAt(centres, ceiling, r, k);
    PoolsKept(centres);
    ValidAt(centres, k);
    LostExactly(centres[k], RefsOf(centres));
    var c, totals := NormaliseAll(centres)[k], r.value.totals;
    LostByIs(totals, c);
    PositiveTimes(Val(Current(totals, c.ref)), Unassigned(c.consumers, totals.Keys));
  }

  lemma ValidAt(cs: seq<Centre>, k: nat)
    requires AllSelfSharesValid(cs) && FairShares(cs) && WholeShares(cs) && k < |cs|
    ensures !SelfShareInvalid(cs[k]) && PositiveShares(cs[k].consumers) && TotalShare(cs[k].consumers) == 1.0
  {
  }

  /** Positive shares that total one and positive pools: production receives exactly the
      pools if and only if no centre lists a service centre, itself included, twice. */
  lemma {:induction false} ConservedExactly(centres: seq<Centre>, ceiling: int, r: Result)
    requires DistinctRefs(centres) && AllSelfSharesValid(centres)
    requires FairShares(centres) && WholeShares(centres) && PositivePrimaries(centres)
    requires Run(centres, ceiling, r) && r.Ok?
    ensures SumValues(r.value.toProduction) <= SumBy(PoolOf(), centres)
    ensures SumValues(r.value.toProduction) == SumBy(PoolOf(), centres)
      <==> forall k :: 0 <= k < |centres| ==> OnceEach(centres[k].consumers, RefsOf(centres))
  {
    hide FairShares, WholeShares, PositivePrimaries, AllSelfSharesValid, DistinctRefs, Run, NormaliseAll, LostBy,
         OnceEach, SumValues, PoolOf, RefsOf, SumBy;
    var f, clean := LostBy(r.value.totals), NormaliseAll(centres);
    CostAccountedFor(centres, ceiling, r);
    forall k | 0 <= k < |centres|
      ensures f(clean[k]) >= 0.0 && (f(clean[k]) == 0.0 <==> OnceEach(centres[k].consumers, RefsOf(centres)))
    {
      LostAt(centres, ceiling, r, k);
    }
    SumOfNone(f, clean);
  }
}
