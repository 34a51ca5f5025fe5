/** The largest-remainder rule, free of any list order: who gets the odd units,
    and why no other whole-unit split is closer to the exact shares. */
module Apportionment {
  import opened Refs
  import opened Sorting
  import opened Sums

  /** An exact share cut into its floor and its remainder in [0, 1). */
  datatype Quota = Quota(ref: Ref, floor: int, rem: real)

  ghost predicate DistinctQuotas(qs: seq<Quota>) {
    forall i, j :: 0 <= i < j < |qs| ==> qs[i].ref != qs[j].ref
  }

  ghost predicate ProperRemainders(qs: seq<Quota>) {
    forall i :: 0 <= i < |qs| ==> 0.0 <= qs[i].rem < 1.0
  }

  /** Larger remainder first, smaller reference on a tie. */
  predicate Beats(a: Quota, b: Quota) {
    a.rem > b.rem || (a.rem == b.rem && Less(a.ref, b.ref))
  }

  predicate RanksUpTo(a: Quota, b: Quota) {
    !Beats(b, a)
  }

  lemma RankOrder()
    ensures TotalPreorder(RanksUpTo)
  {
    forall a: Quota, b: Quota ensures RanksUpTo(a, b) || RanksUpTo(b, a) { TotalOrder(a.ref, b.ref, a.ref); }
    forall a: Quota, b: Quota, c: Quota | RanksUpTo(a, b) && RanksUpTo(b, c) ensures RanksUpTo(a, c) {
      TotalOrder(a.ref, b.ref, c.ref);
      TotalOrder(c.ref, a.ref, b.ref);
      TotalOrder(b.ref, c.ref, a.ref);
    }
  }

  /** How many quotas come before `q`. */
  ghost function Rank(qs: seq<Quota>, q: Quota): nat {
    if qs == [] then 0 else Rank(qs[..|qs| - 1], q) + if Beats(qs[|qs| - 1], q) then 1 else 0
  }

  /** Whoever comes before another has fewer before it. */
  lemma {:induction false} RankRises(qs: seq<Quota>, p: Quota, q: Quota)
    requires Beats(p, q)
    ensures Rank(qs, p) <= Rank(qs, q) && (p in qs ==> Rank(qs, p) < Rank(qs, q))
  {
    if qs != [] {
      var m, last := qs[..|qs| - 1], qs[|qs| - 1];
      RankRises(m, p, q);
      BeatsOn(last, p, q);
      assert p in qs ==> p in m || p == last;
    }
  }

  lemma BeatsOn(r: Quota, p: Quota, q: Quota)
    requires Beats(p, q)
    ensures Beats(r, p) ==> Beats(r, q)
    ensures !Beats(p, p)
  {
    TotalOrder(r.ref, p.ref, q.ref);
    TotalOrder(p.ref, p.ref, p.ref);
  }

  /** The odd units go to the largest remainders, on a tie to the smaller reference: who
      has more of a claim than a quota with a bonus unit has one too. */
  lemma BonusByRemainder(qs: seq<Quota>, residual: int, p: Quota, q: Quota)
    requires p in qs && (p.rem > q.rem || (p.rem == q.rem && Less(p.ref, q.ref)))
    ensures Awarded(qs, residual, q) > q.floor ==> Awarded(qs, residual, p) == p.floor + 1
  {
    RankRises(qs, p, q);
    hide Rank;
  }

  /** One unit for the first `residual` quotas in rank, nothing for the others. */
  ghost function Bonus(qs: seq<Quota>, residual: int, q: Quota): int {
    if Rank(qs, q) < residual then 1 else 0
  }

  ghost function Awarded(qs: seq<Quota>, residual: int, q: Quota): int {
    q.floor + Bonus(qs, residual, q)
  }

  ghost function BeatsQ(q: Quota): Quota -> real {
    (p: Quota) => if Beats(p, q) then 1.0 else 0.0
  }

  lemma {:induction false} RankIsSum(qs: seq<Quota>, q: Quota)
    ensures Rank(qs, q) as real == SumBy(BeatsQ(q), qs)
  {
    if qs != [] { RankIsSum(qs[..|qs| - 1], q); }
  }

  /** Rank does not depend on list order. */
  lemma {:induction false} RankPermutation(qs: seq<Quota>, rs: seq<Quota>, q: Quota)
    requires multiset(qs) == multiset(rs)
    ensures Rank(qs, q) == Rank(rs, q)
  {
    RankIsSum(qs, q);
    RankIsSum(rs, q);
    SumByPermutation(BeatsQ(q), qs, rs);
  }

  /** In a ranked list of distinct references an entry's rank is its place. */
  lemma {:induction false} RankedPlace(rs: seq<Quota>, k: nat, q: Quota, j: nat)
    requires SortedBy(RanksUpTo, rs) && DistinctQuotas(rs) && k <= |rs| && j < |rs| && rs[j] == q
    ensures Rank(rs[..k], q) == if k <= j then k else j
  {
    if k > 0 {
      RankedPlace(rs, k - 1, q, j);
      assert rs[..k][..k - 1] == rs[..k - 1];
      TotalOrder(rs[k - 1].ref, q.ref, q.ref);
      if k - 1 < j { assert RanksUpTo(rs[k - 1], rs[j]); }
      if k - 1 > j { assert RanksUpTo(rs[j], rs[k - 1]); }
    }
  }

  lemma {:induction false} RankInSorted(qs: seq<Quota>, rs: seq<Quota>, j: nat)
    requires multiset(qs) == multiset(rs) && SortedBy(RanksUpTo, rs) && DistinctQuotas(rs) && j < |rs|
    ensures Rank(qs, rs[j]) == j
  {
    RankedPlace(rs, |rs|, rs[j], j);
    assert rs[..|rs|] == rs;
    RankPermutation(qs, rs, rs[j]);
  }

  // ----------------------------------------------------------------- exact totals

  ghost function FloorOf(): Quota -> real { (q: Quota) => q.floor as real }
  ghost function RemOf(): Quota -> real { (q: Quota) => q.rem }
  ghost function ShareOf(): Quota -> real { (q: Quota) => q.floor as real + q.rem }
  ghost function AwardOf(qs: seq<Quota>, residual: int): Quota -> real {
    (q: Quota) => Awarded(qs, residual, q) as real
  }

  lemma {:induction false} SharesSplit(qs: seq<Quota>)
    ensures SumBy(ShareOf(), qs) == SumBy(FloorOf(), qs) + SumBy(RemOf(), qs)
  {
    if qs != [] { SharesSplit(qs[..|qs| - 1]); }
  }

  lemma {:induction false} RemaindersBounded(qs: seq<Quota>)
    requires ProperRemainders(qs)
    ensures 0.0 <= SumBy(RemOf(), qs) <= |qs| as real
    ensures qs != [] ==> SumBy(RemOf(), qs) < |qs| as real
  {
    if qs != [] { RemaindersBounded(qs[..|qs| - 1]); }
  }

  /** Over the first `k` of a ranked list, `residual` or all of them get a unit. */
  lemma {:induction false} AwardsInRank(qs: seq<Quota>, rs: seq<Quota>, residual: nat, k: nat)
    requires multiset(qs) == multiset(rs) && SortedBy(RanksUpTo, rs) && DistinctQuotas(rs)
    requires k <= |rs|
    ensures SumBy(AwardOf(qs, residual), rs[..k])
      == SumBy(FloorOf(), rs[..k]) + (if k <= residual then k else residual) as real
  {
    if k > 0 {
      AwardsInRank(qs, rs, residual, k - 1);
      assert rs[..k][..k - 1] == rs[..k - 1];
      RankInSorted(qs, rs, k - 1);
    }
  }

  lemma {:induction false} DistinctSorted(qs: seq<Quota>)
    requires DistinctQuotas(qs)
    ensures DistinctQuotas(Sort(RanksUpTo, qs)) && SortedBy(RanksUpTo, Sort(RanksUpTo, qs))
  {
    RankOrder();
    SortSorts(RanksUpTo, qs);
    SortDistinct(RanksUpTo, qs);
    var rs := Sort(RanksUpTo, qs);
    SameElements(rs, qs);
    forall i, j | 0 <= i < j < |rs| ensures rs[i].ref != rs[j].ref {
      assert rs[i] in qs && rs[j] in qs && rs[i] != rs[j];
    }
  }

  /** Distinct references: the awards sum to the pool exactly whenever the exact
      shares do. The residual never needs more units than there are quotas. */
  lemma {:induction false} AwardsAreExact(qs: seq<Quota>, pool: int, residual: int)
    requires DistinctQuotas(qs) && ProperRemainders(qs)
    requires SumBy(ShareOf(), qs) == pool as real
    requires residual as real == pool as real - SumBy(FloorOf(), qs)
    ensures 0 <= residual <= |qs|
    ensures SumBy(AwardOf(qs, residual), qs) == pool as real
  {
    SharesSplit(qs);
    RemaindersBounded(qs);
    var rs := Sort(RanksUpTo, qs);
    DistinctSorted(qs);
    AwardsInRank(qs, rs, residual, |rs|);
    assert rs[..|rs|] == rs;
    SumByPermutation(AwardOf(qs, residual), rs, qs);
    SumByPermutation(FloorOf(), rs, qs);
  }

  // ----------------------------------------------------------- whole shares stay

  ghost function Fractional(): Quota -> real { (q: Quota) => if q.rem > 0.0 then 1.0 else 0.0 }

  lemma {:induction false} RemaindersCount(qs: seq<Quota>)
    requires ProperRemainders(qs)
    ensures SumBy(RemOf(), qs) <= SumBy(Fractional(), qs)
  {
    if qs != [] { RemaindersCount(qs[..|qs| - 1]); }
  }

  lemma {:induction false} FractionalBeat(qs: seq<Quota>, q: Quota)
    requires q.rem == 0.0
    ensures SumBy(Fractional(), qs) <= Rank(qs, q) as real
  {
    if qs != [] { FractionalBeat(qs[..|qs| - 1], q); }
  }

  /** A share that is already whole never gets an extra unit. */
  lemma {:induction false} WholeShareUntouched(qs: seq<Quota>, pool: int, residual: int, q: Quota)
    requires ProperRemainders(qs) && q.rem == 0.0
    requires SumBy(ShareOf(), qs) == pool as real
    requires residual as real == pool as real - SumBy(FloorOf(), qs)
    ensures Awarded(qs, residual, q) == q.floor
  {
    SharesSplit(qs);
    RemaindersCount(qs);
    FractionalBeat(qs, q);
  }

  // ------------------------------------------------------------------- optimality

  function AbsReal(x: real): real {
    if x < 0.0 then -x else x
  }

  /** Distance of a whole-unit split from the exact shares. */
  ghost function Deviation(qs: seq<Quota>, b: seq<int>): real
    requires |b| == |qs|
  {
    if qs == [] then 0.0
    else
      var n := |qs| - 1;
      Deviation(qs[..n], b[..n]) + AbsReal(b[n] as real - (qs[n].floor as real + qs[n].rem))
  }

  ghost function Total(b: seq<int>): int {
    if b == [] then 0 else Total(b[..|b| - 1]) + b[|b| - 1]
  }

  /** What moving a quota by d units costs at least, priced by the cut. */
  ghost function Price(cut: real, d: int): real {
    (1.0 - 2.0 * cut) * d as real
  }

  lemma PriceAdds(cut: real, d: int, e: int)
    ensures Price(cut, d + e) == Price(cut, d) + Price(cut, e)
  {
    Distributes(1.0 - 2.0 * cut, d as real, e as real);
  }

  lemma Distributes(p: real, x: real, y: real)
    ensures p * (x + y) == p * x + p * y
  {
  }

  lemma PriceBounds(cut: real, d: int)
    requires 0.0 <= cut <= 1.0
    ensures d == 0 ==> Price(cut, d) == 0.0
    ensures d >= 1 ==> Price(cut, d) <= d as real - 2.0 * cut
    ensures d <= -1 ==> Price(cut, d) <= 2.0 * cut - 2.0 - d as real
  {
    var x := d as real;
    if d >= 1 {
      ProductSign(cut, x - 1.0);
      PriceAbove(cut, x);
    } else if d <= -1 {
      ProductSign(1.0 - cut, -x - 1.0);
      PriceBelow(cut, x);
    }
  }

  lemma PriceAbove(cut: real, x: real)
    ensures (1.0 - 2.0 * cut) * x == x - 2.0 * cut - 2.0 * (cut * (x - 1.0))
  {
  }

  lemma PriceBelow(cut: real, x: real)
    ensures (1.0 - 2.0 * cut) * x == 2.0 * cut - 2.0 - x - 2.0 * ((1.0 - cut) * (-x - 1.0))
  {
  }

  lemma ProductSign(p: real, q: real)
    requires p >= 0.0 && q >= 0.0
    ensures p * q >= 0.0
  {
  }

  /** One quota at distance o from its exact share, moved by x: nothing is gained. */
  lemma MoveCosts(o: real, x: real, cut: real, price: real)
    requires 0.0 <= cut <= 1.0 && (-cut <= o <= 0.0 || 0.0 <= o <= 1.0 - cut)
    requires x >= 1.0 ==> price <= x - 2.0 * cut
    requires x <= -1.0 ==> price <= 2.0 * cut - 2.0 - x
    requires x == 0.0 || x >= 1.0 || x <= -1.0
    requires x == 0.0 ==> price == 0.0
    ensures AbsReal(o + x) - AbsReal(o) >= price
  {
  }

  /** The price argument for one quota: no whole number is better, at this price,
      than the awarded one. */
  lemma PricedBest(q: Quota, a: int, cut: real, b: int)
    requires 0.0 <= cut <= 1.0
    requires (a == q.floor && 0.0 <= q.rem <= cut) || (a == q.floor + 1 && cut <= q.rem < 1.0)
    ensures var s := q.floor as real + q.rem;
      AbsReal(b as real - s) - AbsReal(a as real - s) >= Price(cut, b - a)
  {
    PriceBounds(cut, b - a);
    hide Price, AbsReal;
    var s := q.floor as real + q.rem;
    MoveCosts(a as real - s, (b - a) as real, cut, Price(cut, b - a));
    assert a as real - s + (b - a) as real == b as real - s;
  }

  /** Awards cut the remainders at one level: at or above it a unit, at or below none. */
  ghost predicate CutAt(qs: seq<Quota>, a: seq<int>, cut: real)
    requires |a| == |qs|
  {
    && 0.0 <= cut <= 1.0
    && forall i :: 0 <= i < |qs| ==>
      (a[i] == qs[i].floor && qs[i].rem <= cut) || (a[i] == qs[i].floor + 1 && qs[i].rem >= cut)
  }

  lemma {:induction false} DeviationStep(qs: seq<Quota>, b: seq<int>)
    requires |b| == |qs| > 0
    ensures var n := |qs| - 1;
      Deviation(qs, b) == Deviation(qs[..n], b[..n]) + AbsReal(b[n] as real - (qs[n].floor as real + qs[n].rem))
  {
  }

  lemma {:induction false} CutIsBest(qs: seq<Quota>, a: seq<int>, b: seq<int>, cut: real)
    requires |a| == |qs| == |b| && ProperRemainders(qs) && CutAt(qs, a, cut)
    ensures Deviation(qs, b) - Deviation(qs, a) >= Price(cut, Total(b) - Total(a))
  {
    if qs == [] {
      PriceBounds(cut, 0);
    } else {
      var n := |qs| - 1;
      CutIsBest(qs[..n], a[..n], b[..n], cut);
      CutAtLast(qs, a, cut);
      hide Deviation, AbsReal, Price, CutAt, ProperRemainders;
      PricedBest(qs[n], a[n], cut, b[n]);
      DeviationStep(qs, a);
      DeviationStep(qs, b);
      PriceAdds(cut, Total(b[..n]) - Total(a[..n]), b[n] - a[n]);
      assert Total(b) - Total(a) == (Total(b[..n]) - Total(a[..n])) + (b[n] - a[n]);
    }
  }

  lemma CutAtLast(qs: seq<Quota>, a: seq<int>, cut: real)
    requires |a| == |qs| > 0 && ProperRemainders(qs) && CutAt(qs, a, cut)
    ensures var n := |qs| - 1;
      && 0.0 <= cut <= 1.0
      && ((a[n] == qs[n].floor && 0.0 <= qs[n].rem <= cut) || (a[n] == qs[n].floor + 1 && cut <= qs[n].rem < 1.0))
  {
  }

  /** The awards of all quotas, in list order. */
  ghost function Awards(qs: seq<Quota>, residual: int): (a: seq<int>)
    ensures |a| == |qs| && forall i :: 0 <= i < |qs| ==> a[i] == Awarded(qs, residual, qs[i])
  {
    seq(|qs|, i requires 0 <= i < |qs| => Awarded(qs, residual, qs[i]))
  }

  /** The level at which the awards cut: the remainder of the last quota awarded. */
  ghost function CutLevel(qs: seq<Quota>, residual: nat): real
    requires residual <= |qs|
  {
    if residual == 0 then 1.0 else Sort(RanksUpTo, qs)[residual - 1].rem
  }

  /** Whoever ranks before the cut has at least its remainder, whoever ranks after
      it at most. */
  lemma {:induction false} CutInRank(qs: seq<Quota>, residual: nat, q: Quota)
    requires DistinctQuotas(qs) && residual <= |qs| && q in qs && 0.0 <= q.rem < 1.0
    ensures Rank(qs, q) < residual ==> q.rem >= CutLevel(qs, residual)
    ensures Rank(qs, q) >= residual ==> q.rem <= CutLevel(qs, residual)
  {
    var rs := Sort(RanksUpTo, qs);
    DistinctSorted(qs);
    SameElements(rs, qs);
    assert q in rs;
    var j :| 0 <= j < |rs| && rs[j] == q;
    RankInSorted(qs, rs, j);
    hide Rank, DistinctQuotas, Sort;
    if residual > 0 {
      if j < residual - 1 { assert RanksUpTo(rs[j], rs[residual - 1]); }
      if j > residual - 1 { assert RanksUpTo(rs[residual - 1], rs[j]); }
    }
  }

  lemma {:induction false} CutInUnit(qs: seq<Quota>, residual: nat)
    requires ProperRemainders(qs) && residual <= |qs|
    ensures 0.0 <= CutLevel(qs, residual) <= 1.0
  {
    var rs := Sort(RanksUpTo, qs);
    SameElements(rs, qs);
    if residual > 0 { assert rs[residual - 1] in qs; }
  }

  lemma AwardsCut(qs: seq<Quota>, residual: nat)
    requires DistinctQuotas(qs) && ProperRemainders(qs) && residual <= |qs|
    ensures CutAt(qs, Awards(qs, residual), CutLevel(qs, residual))
  {
    hide CutLevel, Rank, DistinctQuotas;
    CutInUnit(qs, residual);
    forall i | 0 <= i < |qs| ensures
      if Rank(qs, qs[i]) < residual then qs[i].rem >= CutLevel(qs, residual) else qs[i].rem <= CutLevel(qs, residual)
    {
      CutInRank(qs, residual, qs[i]);
    }
  }

  /** Among all whole-unit splits of the same pool, largest remainder is closest to
      the exact shares in total. */
  lemma {:induction false} LargestRemainderIsClosest(qs: seq<Quota>, residual: nat, b: seq<int>)
    requires DistinctQuotas(qs) && ProperRemainders(qs) && residual <= |qs|
    requires |b| == |qs| && Total(b) == Total(Awards(qs, residual))
    ensures Deviation(qs, Awards(qs, residual)) <= Deviation(qs, b)
  {
    hide Awards, Deviation, CutLevel, CutAt, Price;
    AwardsCut(qs, residual);
    CutInUnit(qs, residual);
    PriceBounds(CutLevel(qs, residual), 0);
    CutIsBest(qs, Awards(qs, residual), b, CutLevel(qs, residual));
  }

  /** The award of a quota depends only on which quotas there are, not on their order. */
  lemma AwardsIgnoreOrder(qs: seq<Quota>, rs: seq<Quota>, residual: int, q: Quota)
    requires multiset(qs) == multiset(rs)
    ensures Awarded(qs, residual, q) == Awarded(rs, residual, q)
  {
    RankPermutation(qs, rs, q);
  }
}
