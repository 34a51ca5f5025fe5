/** Self-service renormalisation: a centre's own share of its output is taken out
    and the rest is scaled up. The answer it leads to is the full system's. */
module SelfExclusion {
  import opened Refs
  import opened ExactRational
  import opened LinearAlgebra
  import opened LinearSolver
  import opened ReciprocalModel

  /** The share of the first entry for a consumer, zero when there is none. */
  function FirstShare(l: seq<Consumer>, r: Ref): Rational {
    if l == [] then R_ZERO
    else if l[0].ref == r then l[0].share
    else FirstShare(l[1..], r)
  }

  /** The consumers other than `r`, their shares divided by `keep`. */
  function Others(l: seq<Consumer>, r: Ref, keep: Rational): (o: seq<Consumer>)
    requires keep.num != 0
  {
    if l == [] then []
    else
      var rest, last := Others(l[..|l| - 1], r, keep), l[|l| - 1];
      if last.ref == r then rest else rest + [Consumer(last.ref, RDiv(last.share, keep))]
  }

  /** A self-share of one or more is refused. */
  predicate SelfShareInvalid(c: Centre) {
    var s := FirstShare(c.consumers, c.ref);
    s.num >= s.den
  }

  /** The first entry by which a centre lists itself takes all of its output, or more. */
  ghost predicate OwnShareWhole(c: Centre) {
    exists k ::
      && 0 <= k < |c.consumers| && c.consumers[k].ref == c.ref && Val(c.consumers[k].share) >= 1.0
      && (forall j :: 0 <= j < k ==> c.consumers[j].ref != c.ref)
  }

  lemma {:induction false} FirstShareAt(l: seq<Consumer>, r: Ref, k: nat)
    requires k < |l| && l[k].ref == r && forall j :: 0 <= j < k ==> l[j].ref != r
    ensures FirstShare(l, r) == l[k].share
  {
    if k > 0 {
      assert l[1..][k - 1] == l[k];
      FirstShareAt(l[1..], r, k - 1);
    }
  }

  lemma {:induction false} FirstShareNone(l: seq<Consumer>, r: Ref)
    requires forall j :: 0 <= j < |l| ==> l[j].ref != r
    ensures FirstShare(l, r) == R_ZERO
  {
    if l != [] { FirstShareNone(l[1..], r); }
  }

  lemma FirstPlace(l: seq<Consumer>, r: Ref) returns (k: nat)
    requires exists j :: 0 <= j < |l| && l[j].ref == r
    ensures k < |l| && l[k].ref == r && forall j :: 0 <= j < k ==> l[j].ref != r
  {
    k := 0;
    while l[k].ref != r
      invariant k < |l| && forall j :: 0 <= j < k ==> l[j].ref != r
      decreases |l| - k
    {
      k := k + 1;
    }
  }

  /** A self-share is refused exactly when it has the value one or more. */
  lemma {:induction false} InvalidIsWhole(c: Centre)
    ensures SelfShareInvalid(c) <==> OwnShareWhole(c)
  {
    CompareValues(FirstShare(c.consumers, c.ref), R_ONE);
    UnitValues();
    hide Val, FirstShare;
    if exists j :: 0 <= j < |c.consumers| && c.consumers[j].ref == c.ref {
      var k := FirstPlace(c.consumers, c.ref);
      FirstShareAt(c.consumers, c.ref, k);
      OwnAt(c, k);
    } else {
      FirstShareNone(c.consumers, c.ref);
    }
  }

  lemma OwnAt(c: Centre, k: nat)
    requires k < |c.consumers| && c.consumers[k].ref == c.ref
    requires forall j :: 0 <= j < k ==> c.consumers[j].ref != c.ref
    ensures OwnShareWhole(c) <==> Val(c.consumers[k].share) >= 1.0
  {
    hide Val;
    forall i | 0 <= i < |c.consumers| && c.consumers[i].ref == c.ref
        && (forall j :: 0 <= j < i ==> c.consumers[j].ref != c.ref)
      ensures i == k
    {
      assert !(i < k) && !(k < i);
    }
  }

  /** With distinct consumers that is a centre's whole share to itself. */
  lemma OwnShareInside(c: Centre)
    requires DistinctConsumers(c.consumers)
    ensures OwnShareWhole(c) <==> InsideShare(c.consumers, {c.ref}) >= 1.0
  {
    InvalidIsWhole(c);
    FirstShareIs(c.consumers, c.ref);
    CompareValues(FirstShare(c.consumers, c.ref), R_ONE);
    UnitValues();
    hide Val, InsideShare, OwnShareWhole, DistinctConsumers, FirstShare;
  }

  function Kept(c: Centre): (keep: Rational)
    requires !SelfShareInvalid(c)
    ensures keep.num != 0 && Val(keep) == 1.0 - Val(FirstShare(c.consumers, c.ref)) && Val(keep) > 0.0
  {
    var s := FirstShare(c.consumers, c.ref);
    var keep := RSub(R_ONE, s);
    assert Val(keep) > 0.0 && keep.num != 0 by {
      UnitValues();
      CompareValues(s, R_ONE);
      CompareValues(keep, R_ZERO);
    }
    UnitValues();
    keep
  }

  function Normalised(c: Centre): Centre
    requires !SelfShareInvalid(c)
  {
    Centre(c.ref, c.primary, Others(c.consumers, c.ref, Kept(c)))
  }

  predicate AllSelfSharesValid(cs: seq<Centre>) {
    forall k :: 0 <= k < |cs| ==> !SelfShareInvalid(cs[k])
  }

  function NormaliseAll(cs: seq<Centre>): (r: seq<Centre>)
    requires AllSelfSharesValid(cs)
    ensures |r| == |cs| && forall k :: 0 <= k < |cs| ==> r[k] == Normalised(cs[k])
  {
    if cs == [] then [] else NormaliseAll(cs[..|cs| - 1]) + [Normalised(cs[|cs| - 1])]
  }

  lemma {:induction false} FirstShareIs(l: seq<Consumer>, r: Ref)
    requires DistinctConsumers(l)
    ensures Val(FirstShare(l, r)) == InsideShare(l, {r})
  {
    hide Val;
    if l == [] {
      UnitValues();
    } else {
      FirstShareIs(l[1..], r);
      InsideFromFront(l, {r});
      if l[0].ref == r { NotConsumed(l[1..], r); }
    }
  }

  lemma {:induction false} InsideFromFront(l: seq<Consumer>, s: set<Ref>)
    requires l != []
    ensures InsideShare(l, s) == (if l[0].ref in s then Val(l[0].share) else 0.0) + InsideShare(l[1..], s)
  {
    if |l| > 1 {
      InsideFromFront(l[..|l| - 1], s);
      assert l[..|l| - 1][1..] == l[1..][..|l| - 2];
    }
  }

  lemma {:induction false} NotConsumed(l: seq<Consumer>, r: Ref)
    requires forall k :: 0 <= k < |l| ==> l[k].ref != r
    ensures InsideShare(l, {r}) == 0.0
  {
    if l != [] { NotConsumed(l[..|l| - 1], r); }
  }

  lemma QuotientTerm(e: real, v: real, k: real)
    requires k != 0.0
    ensures (e + v / k) * k == e * k + v
  {
  }

  lemma {:induction false} OthersStep(l: seq<Consumer>, r: Ref, keep: Rational)
    requires keep.num != 0 && Val(keep) != 0.0 && l != []
    ensures
      var o, p, last := Others(l[..|l| - 1], r, keep), Others(l, r, keep), l[|l| - 1];
      if last.ref == r then p == o
      else
        && p != [] && p[..|p| - 1] == o && p[|p| - 1].ref == last.ref
        && Val(p[|p| - 1].share) == Val(last.share) / Val(keep)
  {
    hide Val;
    var o, last := Others(l[..|l| - 1], r, keep), l[|l| - 1];
    assert (o + [Consumer(last.ref, RDiv(last.share, keep))])[..|o|] == o;
  }

  /** Renormalised shares, scaled back, are the original shares to the others. */
  lemma {:induction false} OthersShares(l: seq<Consumer>, r: Ref, keep: Rational, s: set<Ref>)
    requires keep.num != 0 && Val(keep) > 0.0
    ensures InsideShare(Others(l, r, keep), s) * Val(keep) == InsideShare(l, s - {r})
  {
    hide Val, Others;
    if l == [] {
      OthersOfNone(r, keep);
    } else {
      var last := l[|l| - 1];
      OthersShares(l[..|l| - 1], r, keep, s);
      OthersStep(l, r, keep);
      QuotientTerm(InsideShare(Others(l[..|l| - 1], r, keep), s), Val(last.share), Val(keep));
    }
  }

  lemma {:induction false} OthersTotal(l: seq<Consumer>, r: Ref, keep: Rational)
    requires keep.num != 0 && Val(keep) > 0.0
    ensures TotalShare(Others(l, r, keep)) * Val(keep) == TotalShare(l) - InsideShare(l, {r})
  {
    hide Val, Others;
    if l == [] {
      OthersOfNone(r, keep);
    } else {
      var last := l[|l| - 1];
      OthersTotal(l[..|l| - 1], r, keep);
      OthersStep(l, r, keep);
      QuotientTerm(TotalShare(Others(l[..|l| - 1], r, keep)), Val(last.share), Val(keep));
    }
  }

  lemma {:induction false} OthersOfNone(r: Ref, keep: Rational)
    requires keep.num != 0
    ensures Others([], r, keep) == []
  {
  }

  lemma {:induction false} OthersKeys(l: seq<Consumer>, r: Ref, keep: Rational)
    requires keep.num != 0 && DistinctConsumers(l)
    ensures DistinctConsumers(Others(l, r, keep))
    ensures forall k :: 0 <= k < |Others(l, r, keep)| ==> Others(l, r, keep)[k].ref != r
    ensures forall y :: IsConsumer(Others(l, r, keep), y) ==> IsConsumer(l, y)
  {
    hide RDiv;
    if l != [] {
      var m, last := l[..|l| - 1], l[|l| - 1];
      OthersKeys(m, r, keep);
      var o, p := Others(m, r, keep), Others(l, r, keep);
      forall k | 0 <= k < |o| ensures o[k].ref != last.ref {
        assert IsConsumer(o, o[k].ref);
        var i :| 0 <= i < |m| && m[i].ref == o[k].ref;
        assert l[i].ref != last.ref;
      }
      forall y | IsConsumer(p, y) ensures IsConsumer(l, y) {
        var k :| 0 <= k < |p| && p[k].ref == y;
        if k < |o| {
          assert IsConsumer(o, y);
          var i :| 0 <= i < |m| && m[i].ref == y;
          assert l[i].ref == y;
        } else {
          assert l[|l| - 1].ref == y;
        }
      }
    }
  }

  lemma {:induction false} OthersPositive(l: seq<Consumer>, r: Ref, keep: Rational)
    requires keep.num != 0 && Val(keep) > 0.0
    ensures PositiveShares(l) ==> PositiveShares(Others(l, r, keep))
    ensures NonNegativeShares(l) ==> NonNegativeShares(Others(l, r, keep))
  {
    hide Val, RDiv;
    if l != [] {
      OthersPositive(l[..|l| - 1], r, keep);
      QuotientSign(Val(l[|l| - 1].share), Val(keep));
    }
  }

  lemma QuotientSign(p: real, q: real)
    requires q > 0.0
    ensures p > 0.0 ==> p / q > 0.0
    ensures p >= 0.0 ==> p / q >= 0.0
  {
  }

  lemma ScaledTotal(t: real, k: real, total: real, self: real)
    requires k > 0.0 && t * k == total - self && k == 1.0 - self
    ensures total <= 1.0 ==> t <= 1.0
    ensures total == 1.0 ==> t == 1.0
  {
    assert (1.0 - t) * k == 1.0 - total;
    if t > 1.0 { assert (t - 1.0) * k > 0.0; }
    if t < 1.0 { assert (1.0 - t) * k > 0.0; }
  }

  lemma {:induction false} NormalisedShares(c: Centre, s: set<Ref>)
    requires !SelfShareInvalid(c)
    ensures InsideShare(Normalised(c).consumers, s) * Val(Kept(c)) == InsideShare(c.consumers, s - {c.ref})
  {
    hide Others, Val, InsideShare, SelfShareInvalid, Kept;
    OthersShares(c.consumers, c.ref, Kept(c), s);
  }

  lemma KeptIs(c: Centre)
    requires DistinctConsumers(c.consumers) && !SelfShareInvalid(c)
    ensures Val(Kept(c)) == 1.0 - InsideShare(c.consumers, {c.ref}) && Val(Kept(c)) > 0.0
  {
    hide Val, InsideShare, SelfShareInvalid;
    FirstShareIs(c.consumers, c.ref);
  }

  lemma NormalisedCentre(c: Centre)
    requires DistinctConsumers(c.consumers) && !SelfShareInvalid(c)
    ensures KeptThrough(c, Normalised(c))
  {
    hide Others, Val, TotalShare, InsideShare, SelfShareInvalid, Kept;
    var keep := Kept(c);
    KeptIs(c);
    OthersKeys(c.consumers, c.ref, keep);
    OthersTotal(c.consumers, c.ref, keep);
    ScaledTotal(TotalShare(Others(c.consumers, c.ref, keep)), Val(keep), TotalShare(c.consumers),
                InsideShare(c.consumers, {c.ref}));
    OthersPositive(c.consumers, c.ref, keep);
    NotConsumed(Others(c.consumers, c.ref, keep), c.ref);
  }

  lemma {:induction false} FirstAtMostAll(l: seq<Consumer>, r: Ref)
    requires NonNegativeShares(l)
    ensures 0.0 <= Val(FirstShare(l, r)) <= InsideShare(l, {r})
  {
    hide Val;
    if l == [] {
      UnitValues();
    } else {
      FirstAtMostAll(l[1..], r);
      InsideFromFront(l, {r});
    }
  }

  lemma ScaledAtMostOne(t: real, k: real, total: real, self: real)
    requires k > 0.0 && t * k == total - self && k >= 1.0 - self && total <= 1.0
    ensures t <= 1.0
  {
    assert (1.0 - t) * k == k - t * k;
    NonNegativeFactor(1.0 - t, k);
  }

  lemma NonNegativeFactor(p: real, k: real)
    requires k > 0.0 && p * k >= 0.0
    ensures p >= 0.0
  {
  }

  /** Shares stay fair, repeated consumers or not. */
  lemma NormalisedFair(c: Centre)
    requires !SelfShareInvalid(c)
    ensures PositiveShares(c.consumers) ==> PositiveShares(Normalised(c).consumers)
    ensures NonNegativeShares(c.consumers) && TotalShare(c.consumers) <= 1.0 ==>
      NonNegativeShares(Normalised(c).consumers) && TotalShare(Normalised(c).consumers) <= 1.0
  {
    hide Others, Val, TotalShare, InsideShare, SelfShareInvalid, Kept;
    var keep := Kept(c);
    OthersPositive(c.consumers, c.ref, keep);
    if NonNegativeShares(c.consumers) && TotalShare(c.consumers) <= 1.0 {
      OthersTotal(c.consumers, c.ref, keep);
      FirstAtMostAll(c.consumers, c.ref);
      ScaledAtMostOne(TotalShare(Others(c.consumers, c.ref, keep)), Val(keep), TotalShare(c.consumers),
                      InsideShare(c.consumers, {c.ref}));
    }
  }

  lemma PositiveIsNonNegative(l: seq<Consumer>)
    ensures PositiveShares(l) ==> NonNegativeShares(l)
  {
    hide Val;
  }

  lemma {:induction false} NormaliseShares(cs: seq<Centre>)
    requires DistinctRefs(cs) && AllSelfSharesValid(cs)
    ensures DistinctRefs(NormaliseAll(cs)) && RefsOf(NormaliseAll(cs)) == RefsOf(cs)
    ensures FairShares(cs) ==> FairShares(NormaliseAll(cs))
    ensures SubShares(cs) ==> SubShares(NormaliseAll(cs))
  {
    hide TotalShare, SelfShareInvalid, PositiveShares, NonNegativeShares, RefsOf, Others;
    var r := NormaliseAll(cs);
    forall k | 0 <= k < |cs| ensures r[k].ref == cs[k].ref { NormalisedRef(cs[k]); }
    SameRefs(r, cs);
    hide Normalised;
    forall k | 0 <= k < |cs|
      ensures FairShares(cs) ==> PositiveShares(r[k].consumers) && TotalShare(r[k].consumers) <= 1.0
      ensures SubShares(cs) ==> NonNegativeShares(r[k].consumers) && TotalShare(r[k].consumers) <= 1.0
    {
      NormalisedFair(cs[k]);
      PositiveIsNonNegative(cs[k].consumers);
    }
  }

  /** Renormalising keeps references, keys and fairness, and totals of exactly 1. */
  lemma {:induction false} NormaliseKeeps(cs: seq<Centre>)
    requires WellKeyed(cs) && AllSelfSharesValid(cs)
    ensures WellKeyed(NormaliseAll(cs)) && RefsOf(NormaliseAll(cs)) == RefsOf(cs)
    ensures FairShares(cs) ==> FairShares(NormaliseAll(cs))
    ensures SubShares(cs) ==> SubShares(NormaliseAll(cs))
    ensures WholeShares(cs) ==> WholeShares(NormaliseAll(cs))
  {
    hide TotalShare, InsideShare, Normalised, SelfShareInvalid, PositiveShares, NonNegativeShares, DistinctConsumers,
         RefsOf, NormaliseAll;
    var r := NormaliseAll(cs);
    NormaliseEach(cs);
    SameRefs(r, cs);
  }

  /** Everything a centre produces is consumed by someone. */
  ghost predicate WholeShares(cs: seq<Centre>) {
    forall k :: 0 <= k < |cs| ==> TotalShare(cs[k].consumers) == 1.0
  }

  lemma {:induction false} NormaliseEach(cs: seq<Centre>)
    requires WellKeyed(cs) && AllSelfSharesValid(cs)
    ensures forall k :: 0 <= k < |cs| ==> KeptThrough(cs[k], NormaliseAll(cs)[k])
  {
    hide DistinctRefs, Normalised, SelfShareInvalid, KeptThrough;
    forall k | 0 <= k < |cs| ensures KeptThrough(cs[k], NormaliseAll(cs)[k]) {
      NormalisedCentre(cs[k]);
    }
  }

  ghost predicate KeptThrough(c: Centre, r: Centre) {
    && r.ref == c.ref && r.primary == c.primary && DistinctConsumers(r.consumers)
    && (TotalShare(c.consumers) <= 1.0 ==> TotalShare(r.consumers) <= 1.0)
    && (TotalShare(c.consumers) == 1.0 ==> TotalShare(r.consumers) == 1.0)
    && (PositiveShares(c.consumers) ==> PositiveShares(r.consumers))
    && (NonNegativeShares(c.consumers) ==> NonNegativeShares(r.consumers))
    && InsideShare(r.consumers, {c.ref}) == 0.0
  }

  lemma SameRefs(r: seq<Centre>, cs: seq<Centre>)
    requires |r| == |cs| && forall k :: 0 <= k < |cs| ==> r[k].ref == cs[k].ref
    ensures RefsOf(r) == RefsOf(cs)
  {
    forall x ensures x in RefsOf(r) <==> x in RefsOf(cs) {
      if x in RefsOf(cs) { var k :| 0 <= k < |cs| && cs[k].ref == x; assert r[k].ref == x; }
    }
  }

  // -------------------------------------------------------- meaning is preserved

  /** Gross totals (self-service included) less what each centre charged itself. */
  ghost function NetTotals(cs: seq<Centre>, y: Row): (x: Row)
    requires |y| == |cs|
    ensures |x| == |cs| && forall i :: 0 <= i < |cs| ==> x[i] == y[i] * (1.0 - ShareMatrix(cs)[i][i])
  {
    seq(|cs|, i requires 0 <= i < |cs| => y[i] * (1.0 - ShareMatrix(cs)[i][i]))
  }

  lemma {:induction false} NetEntry(cs: seq<Centre>, j: nat, i: nat)
    requires WellKeyed(cs) && AllSelfSharesValid(cs) && j < |cs| && i < |cs|
    ensures ShareMatrix(cs)[j][j] == InsideShare(cs[j].consumers, {cs[j].ref})
    ensures ShareMatrix(cs)[j][i] == InsideShare(cs[j].consumers, {cs[i].ref})
    ensures ShareMatrix(NormaliseAll(cs))[j][i] == InsideShare(Normalised(cs[j]).consumers, {cs[i].ref})
    ensures i == j <==> cs[i].ref == cs[j].ref
    ensures DistinctConsumers(cs[j].consumers) && !SelfShareInvalid(cs[j])
  {
    hide InsideShare, Normalised, SelfShareInvalid, ShareMatrix, NormaliseAll, DistinctConsumers;
    var r := NormaliseAll(cs);
    MatrixEntry(cs, j, j);
    MatrixEntry(cs, j, i);
    MatrixEntry(r, j, i);
    NormalisedRef(cs[i]);
    assert r[i].ref == cs[i].ref && r[j].consumers == Normalised(cs[j]).consumers;
  }

  lemma NormalisedRef(c: Centre)
    requires !SelfShareInvalid(c)
    ensures Normalised(c).ref == c.ref
  {
  }

  lemma NormalisedEntry(c: Centre, d: Centre)
    requires DistinctConsumers(c.consumers) && !SelfShareInvalid(c)
    ensures (1.0 - InsideShare(c.consumers, {c.ref})) * InsideShare(Normalised(c).consumers, {d.ref})
      == if c.ref == d.ref then 0.0 else InsideShare(c.consumers, {d.ref})
  {
    hide InsideShare, Val, Normalised, SelfShareInvalid, Kept;
    KeptIs(c);
    NormalisedCentre(c);
    NormalisedShares(c, {d.ref});
    assert c.ref != d.ref ==> {d.ref} - {c.ref} == {d.ref};
  }

  lemma {:induction false} NetInflow(cs: seq<Centre>, y: Row, i: nat, k: nat)
    requires WellKeyed(cs) && AllSelfSharesValid(cs) && |y| == |cs| && i < |cs| && k <= |cs|
    ensures Inflow(ShareMatrix(NormaliseAll(cs)), |cs|, NetTotals(cs, y), i, k)
      == Inflow(ShareMatrix(cs), |cs|, y, i, k) - if i < k then y[i] * ShareMatrix(cs)[i][i] else 0.0
  {
    hide AllSelfSharesValid, ShareMatrix, NormaliseAll, NetTotals, WellKeyed, Inflow, InsideShare, Normalised,
         SelfShareInvalid, DistinctConsumers;
    var a, r, x := ShareMatrix(cs), ShareMatrix(NormaliseAll(cs)), NetTotals(cs, y);
    if k > 0 {
      var j := k - 1;
      NetInflow(cs, y, i, j);
      NetEntry(cs, j, i);
      NormalisedEntry(cs[j], cs[i]);
      NetTerm(y[j], 1.0 - a[j][j], r[j][i]);
      InflowStep(r, |cs|, x, i, j);
      InflowStep(a, |cs|, y, i, j);
      assert x[j] * r[j][i] == if i == j then 0.0 else y[j] * a[j][i];
    } else {
      InflowNone(a, |cs|, y, i);
      InflowNone(r, |cs|, x, i);
    }
  }

  lemma {:induction false} InflowNone(a: Matrix, n: nat, x: Row, i: nat)
    requires Square(a, n) && |x| == n && i < n
    ensures Inflow(a, n, x, i, 0) == 0.0
  {
  }

  lemma NetTerm(y: real, k: real, e: real)
    ensures (y * k) * e == y * (k * e)
  {
  }

  /** The renormalised system is solved by the net totals exactly when the full
      system, self-service included, is solved by the gross ones. */
  lemma {:induction false} SelfExclusionPreserves(cs: seq<Centre>, y: Row)
    requires WellKeyed(cs) && AllSelfSharesValid(cs) && |y| == |cs|
    ensures Solves(ShareMatrix(NormaliseAll(cs)), PrimaryCosts(cs), NetTotals(cs, y))
      <==> Solves(ShareMatrix(cs), PrimaryCosts(cs), y)
  {
    hide AllSelfSharesValid, ShareMatrix, NormaliseAll, Inflow, WellKeyed;
    forall i | 0 <= i < |cs|
      ensures NetTotals(cs, y)[i] - Inflow(ShareMatrix(NormaliseAll(cs)), |cs|, NetTotals(cs, y), i, |cs|)
        == y[i] - Inflow(ShareMatrix(cs), |cs|, y, i, |cs|)
    {
      NetInflow(cs, y, i, |cs|);
      assert y[i] * (1.0 - ShareMatrix(cs)[i][i]) == y[i] - y[i] * ShareMatrix(cs)[i][i];
    }
  }

  /** And what a recipient outside the centre itself pays is the same either way. */
  lemma {:induction false} SelfExclusionPreservesCharges(c: Centre, y: real, s: set<Ref>)
    requires DistinctConsumers(c.consumers) && !SelfShareInvalid(c) && c.ref !in s
    ensures (y * Val(Kept(c))) * InsideShare(Normalised(c).consumers, s) == y * InsideShare(c.consumers, s)
  {
    hide Val, InsideShare, SelfShareInvalid, Kept, Normalised;
    NormalisedShares(c, s);
    assert s - {c.ref} == s;
    NetTerm(y, Val(Kept(c)), InsideShare(Normalised(c).consumers, s));
  }
}
