/** Exact proportional shares of a pool, and the split that both apportionment
    kernels are meant to produce. */
module Quotas {
  import opened Refs
  import opened Sorting
  import opened Sums
  import opened Apportionment

  /** A reference with the exact value of its driver. */
  datatype Weighted = Weighted(ref: Ref, value: real)

  datatype Row = Row(ref: Ref, amount: int)

  ghost function ValueOf(): Weighted -> real {
    (w: Weighted) => w.value
  }

  ghost function TotalValue(ws: seq<Weighted>): real {
    SumBy(ValueOf(), ws)
  }

  ghost predicate DistinctWeighted(ws: seq<Weighted>) {
    forall i, j :: 0 <= i < j < |ws| ==> ws[i].ref != ws[j].ref
  }

  ghost function QuotaAt(r: Ref, share: real): Quota {
    Quota(r, share.Floor, share - share.Floor as real)
  }

  ghost function ShareAt(pool: int, total: real, value: real): real
    requires total != 0.0
  {
    pool as real * value / total
  }

  /** Each reference's exact share, cut into floor and remainder. */
  ghost function QuotasOf(pool: int, total: real, ws: seq<Weighted>): (qs: seq<Quota>)
    requires total != 0.0
    ensures |qs| == |ws|
    ensures forall i :: 0 <= i < |ws| ==> qs[i] == QuotaAt(ws[i].ref, ShareAt(pool, total, ws[i].value))
  {
    seq(|ws|, i requires 0 <= i < |ws| => QuotaAt(ws[i].ref, ShareAt(pool, total, ws[i].value)))
  }

  lemma QuotasProper(pool: int, total: real, ws: seq<Weighted>)
    requires total != 0.0
    ensures ProperRemainders(QuotasOf(pool, total, ws))
    ensures DistinctWeighted(ws) ==> DistinctQuotas(QuotasOf(pool, total, ws))
  {
  }

  ghost function Product(p: real, q: real): real {
    p * q
  }

  lemma ProductAdds(s: real, x: real, t: real)
    ensures Product(s + x, t) == Product(s, t) + Product(x, t) && Product(0.0, t) == 0.0
    ensures Product(t, s + x) == Product(t, s) + Product(t, x) && Product(t, 0.0) == 0.0
  {
  }

  /** The exact shares of the first `k` drivers, times the total, are the pool times
      their sum. */
  lemma {:induction false} SharesOfPrefix(pool: int, total: real, ws: seq<Weighted>, k: nat)
    requires total != 0.0 && k <= |ws|
    ensures Product(SumBy(ShareOf(), QuotasOf(pool, total, ws)[..k]), total)
      == Product(pool as real, SumBy(ValueOf(), ws[..k]))
  {
    hide Product, ShareOf, ValueOf, QuotasOf;
    if k == 0 {
      ProductAdds(0.0, 0.0, total);
      ProductAdds(0.0, 0.0, pool as real);
    } else {
      SharesOfPrefix(pool, total, ws, k - 1);
      var qs := QuotasOf(pool, total, ws);
      PrefixSum(ShareOf(), qs, k);
      PrefixSum(ValueOf(), ws, k);
      ShareAtPlace(pool, total, ws, k - 1);
      hide SumBy;
      ProductAdds(SumBy(ShareOf(), qs[..k - 1]), ShareOf()(qs[k - 1]), total);
      ProductAdds(SumBy(ValueOf(), ws[..k - 1]), ValueOf()(ws[k - 1]), pool as real);
    }
  }

  lemma ShareAtPlace(pool: int, total: real, ws: seq<Weighted>, i: nat)
    requires total != 0.0 && i < |ws|
    ensures Product(ShareOf()(QuotasOf(pool, total, ws)[i]), total) == Product(pool as real, ValueOf()(ws[i]))
  {
    var share := ShareAt(pool, total, ws[i].value);
    QuotaWhole(ws[i].ref, share);
    ShareTimesTotal(pool, total, ws[i].value);
    hide ShareAt, QuotaAt, ShareOf;
  }

  lemma QuotaWhole(r: Ref, share: real)
    ensures ShareOf()(QuotaAt(r, share)) == share
  {
  }

  lemma ShareTimesTotal(pool: int, total: real, value: real)
    requires total != 0.0
    ensures ShareAt(pool, total, value) * total == pool as real * value
  {
  }

  /** The exact shares add up to the pool. */
  lemma SharesAddUp(pool: int, ws: seq<Weighted>)
    requires TotalValue(ws) != 0.0
    ensures SumBy(ShareOf(), QuotasOf(pool, TotalValue(ws), ws)) == pool as real
  {
    var t := TotalValue(ws);
    SharesScaled(pool, t, ws);
    hide *;
    CancelTotal(SumBy(ShareOf(), QuotasOf(pool, t, ws)), pool as real, t);
  }

  lemma SharesScaled(pool: int, total: real, ws: seq<Weighted>)
    requires total == TotalValue(ws) && total != 0.0
    ensures Product(SumBy(ShareOf(), QuotasOf(pool, total, ws)), total) == Product(pool as real, total)
  {
    SharesOfPrefix(pool, total, ws, |ws|);
    assert |QuotasOf(pool, total, ws)| == |ws|;
    hide QuotasOf, SumBy;
    WholeSlice(QuotasOf(pool, total, ws));
    WholeSlice(ws);
  }

  lemma WholeSlice<T>(s: seq<T>)
    ensures s[..|s|] == s
  {
  }

  lemma CancelTotal(s: real, p: real, t: real)
    requires t != 0.0 && Product(s, t) == Product(p, t)
    ensures s == p
  {
    assert (s - p) * t == 0.0;
  }

  /** What is left of the pool when every share is cut to its floor. */
  ghost function ResidualOf(pool: int, qs: seq<Quota>): int {
    pool - FloorTotal(qs)
  }

  ghost function FloorTotal(qs: seq<Quota>): int {
    if qs == [] then 0 else FloorTotal(qs[..|qs| - 1]) + qs[|qs| - 1].floor
  }

  lemma {:induction false} FloorTotalIs(qs: seq<Quota>)
    ensures FloorTotal(qs) as real == SumBy(FloorOf(), qs)
  {
    if qs != [] { FloorTotalIs(qs[..|qs| - 1]); }
  }

  /** The rows of the split: floors, and one unit more for the first in rank. */
  ghost function SplitOf(pool: int, ws: seq<Weighted>): (rows: seq<Row>)
    requires TotalValue(ws) != 0.0
    ensures |rows| == |ws|
  {
    var qs := QuotasOf(pool, TotalValue(ws), ws);
    seq(|ws|, i requires 0 <= i < |ws| => Row(qs[i].ref, Awarded(qs, ResidualOf(pool, qs), qs[i])))
  }

  ghost function AmountOf(): Row -> real {
    (r: Row) => r.amount as real
  }

  lemma ResidualFacts(pool: int, ws: seq<Weighted>)
    requires TotalValue(ws) != 0.0 && DistinctWeighted(ws)
    ensures var qs := QuotasOf(pool, TotalValue(ws), ws);
      && DistinctQuotas(qs) && ProperRemainders(qs)
      && 0 <= ResidualOf(pool, qs) <= |qs|
      && SumBy(AwardOf(qs, ResidualOf(pool, qs)), qs) == pool as real
  {
    var qs := QuotasOf(pool, TotalValue(ws), ws);
    QuotasProper(pool, TotalValue(ws), ws);
    SharesAddUp(pool, ws);
    FloorTotalIs(qs);
    AwardsAreExact(qs, pool, ResidualOf(pool, qs));
  }

  /** Distinct references: the split always adds up to the pool. */
  lemma SplitIsExact(pool: int, ws: seq<Weighted>)
    requires TotalValue(ws) != 0.0 && DistinctWeighted(ws)
    ensures SumBy(AmountOf(), SplitOf(pool, ws)) == pool as real
  {
    var qs := QuotasOf(pool, TotalValue(ws), ws);
    ResidualFacts(pool, ws);
    SumByPointwise(AmountOf(), SplitOf(pool, ws), AwardOf(qs, ResidualOf(pool, qs)), qs);
  }

  /** The odd units of the split go to the largest fractions of a share, on a tie to the
      smaller reference. */
  lemma {:induction false} OddUnitsByFraction(pool: int, ws: seq<Weighted>, i: nat, k: nat)
    requires TotalValue(ws) != 0.0 && i < |ws| && k < |ws|
    requires var x, y := ShareAt(pool, TotalValue(ws), ws[i].value), ShareAt(pool, TotalValue(ws), ws[k].value);
      var p, q := x - x.Floor as real, y - y.Floor as real;
      p > q || (p == q && Less(ws[i].ref, ws[k].ref))
    ensures var x, y := ShareAt(pool, TotalValue(ws), ws[i].value), ShareAt(pool, TotalValue(ws), ws[k].value);
      SplitOf(pool, ws)[k].amount > y.Floor ==> SplitOf(pool, ws)[i].amount == x.Floor + 1
  {
    var qs := QuotasOf(pool, TotalValue(ws), ws);
    hide TotalValue, ShareAt, Awarded;
    BonusByRemainder(qs, ResidualOf(pool, qs), qs[i], qs[k]);
  }

  /** Each amount is the floor of its exact share or one more; a share that is a
      whole number of units is paid exactly. */
  lemma SplitBounds(pool: int, ws: seq<Weighted>, i: nat)
    requires TotalValue(ws) != 0.0 && i < |ws|
    ensures var share := ShareAt(pool, TotalValue(ws), ws[i].value);
      var a := SplitOf(pool, ws)[i].amount;
      && (a == share.Floor || a == share.Floor + 1)
      && (share == share.Floor as real ==> a == share.Floor)
  {
    var qs := QuotasOf(pool, TotalValue(ws), ws);
    QuotasProper(pool, TotalValue(ws), ws);
    if qs[i].rem == 0.0 {
      SharesAddUp(pool, ws);
      FloorTotalIs(qs);
      WholeShareUntouched(qs, pool, ResidualOf(pool, qs), qs[i]);
    }
  }

  /** Distance of a split from the exact shares. */
  ghost function DistanceFrom(pool: int, ws: seq<Weighted>, b: seq<int>): real
    requires TotalValue(ws) != 0.0 && |b| == |ws|
  {
    Deviation(QuotasOf(pool, TotalValue(ws), ws), b)
  }

  ghost function AmountsOf(rows: seq<Row>): (a: seq<int>)
    ensures |a| == |rows| && forall i :: 0 <= i < |rows| ==> a[i] == rows[i].amount
  {
    seq(|rows|, i requires 0 <= i < |rows| => rows[i].amount)
  }

  lemma {:induction false} TotalIsSum(qs: seq<Quota>, residual: int, k: nat)
    requires k <= |qs|
    ensures Total(Awards(qs, residual)[..k]) as real == SumBy(AwardOf(qs, residual), qs[..k])
  {
    if k > 0 {
      TotalIsSum(qs, residual, k - 1);
      var a := Awards(qs, residual);
      assert a[..k][..k - 1] == a[..k - 1] && qs[..k][..k - 1] == qs[..k - 1];
    }
  }

  /** No split of the pool into whole units is closer to the exact shares. */
  lemma {:induction false} SplitIsClosest(pool: int, ws: seq<Weighted>, b: seq<int>)
    requires TotalValue(ws) != 0.0 && DistinctWeighted(ws)
    requires |b| == |ws| && Total(b) == pool
    ensures DistanceFrom(pool, ws, AmountsOf(SplitOf(pool, ws))) <= DistanceFrom(pool, ws, b)
  {
    var qs := QuotasOf(pool, TotalValue(ws), ws);
    var residual := ResidualOf(pool, qs);
    ResidualFacts(pool, ws);
    TotalIsSum(qs, residual, |qs|);
    assert Awards(qs, residual)[..|qs|] == Awards(qs, residual) && qs[..|qs|] == qs;
    assert AmountsOf(SplitOf(pool, ws)) == Awards(qs, residual);
    LargestRemainderIsClosest(qs, residual, b);
  }

  /** Reordering the drivers reorders the rows and changes no amount. */
  lemma SplitIgnoresOrder(pool: int, ws: seq<Weighted>, vs: seq<Weighted>, i: nat, j: nat)
    requires TotalValue(ws) != 0.0 && multiset(ws) == multiset(vs)
    requires i < |ws| && j < |vs| && ws[i] == vs[j]
    ensures TotalValue(vs) == TotalValue(ws)
    ensures SplitOf(pool, ws)[i] == SplitOf(pool, vs)[j]
  {
    SumByPermutation(ValueOf(), ws, vs);
    var t := TotalValue(ws);
    var qs, rs := QuotasOf(pool, t, ws), QuotasOf(pool, t, vs);
    QuotasPermuted(pool, t, ws, vs);
    FloorTotalIs(qs);
    FloorTotalIs(rs);
    SumByPermutation(FloorOf(), qs, rs);
    AwardsIgnoreOrder(qs, rs, ResidualOf(pool, qs), qs[i]);
  }

  lemma {:induction false} QuotasPermuted(pool: int, t: real, ws: seq<Weighted>, vs: seq<Weighted>)
    requires t != 0.0 && multiset(ws) == multiset(vs)
    ensures multiset(QuotasOf(pool, t, ws)) == multiset(QuotasOf(pool, t, vs))
  {
    hide *;
    if ws == [] {
      NothingMatched(vs);
    } else {
      var i := LastMatched(ws, vs);
      var m := ws[..|ws| - 1];
      QuotasPermuted(pool, t, m, vs[..i] + vs[i + 1..]);
      assert m + ws[|ws|..] == m;
      QuotasWithout(pool, t, ws, |ws| - 1);
      QuotasWithout(pool, t, vs, i);
    }
  }

  lemma {:induction false} QuotasWithout(pool: int, t: real, vs: seq<Weighted>, i: nat)
    requires t != 0.0 && i < |vs|
    ensures multiset(QuotasOf(pool, t, vs))
      == multiset(QuotasOf(pool, t, vs[..i] + vs[i + 1..]))
         + multiset{QuotaAt(vs[i].ref, ShareAt(pool, t, vs[i].value))}
  {
    hide *;
    var qs, rs := QuotasOf(pool, t, vs), QuotasOf(pool, t, vs[..i] + vs[i + 1..]);
    assert rs == qs[..i] + qs[i + 1..];
    WithoutOne(qs, i);
  }

  // ----------------------------------------------------- handing out by reference

  /** The references of the first `k` in rank: the keys of the bonus set. */
  function LeadRefs(ranked: seq<Quota>, k: nat): set<Ref>
    requires k <= |ranked|
  {
    set j | 0 <= j < k :: ranked[j].ref
  }

  ghost function Keyed(bonus: set<Ref>): Quota -> real {
    (q: Quota) => if q.ref in bonus then 1.0 else 0.0
  }

  /** Distinct references: being in the bonus set is being early in rank. */
  lemma {:induction false} BonusIsRank(qs: seq<Quota>, residual: nat, q: Quota)
    requires DistinctQuotas(qs) && residual <= |qs| && q in qs
    ensures q.ref in LeadRefs(Sort(RanksUpTo, qs), residual) <==> Rank(qs, q) < residual
  {
    var rs := Sort(RanksUpTo, qs);
    DistinctSorted(qs);
    SameElements(rs, qs);
    assert q in rs;
    var j :| 0 <= j < |rs| && rs[j] == q;
    RankInSorted(qs, rs, j);
  }

  /** No reference outside the first `residual` in rank also appears among them. */
  ghost predicate NoRefTwice(qs: seq<Quota>, residual: nat)
    requires residual <= |qs|
  {
    var rs := Sort(RanksUpTo, qs);
    forall j :: residual <= j < |rs| ==> rs[j].ref !in LeadRefs(rs, residual)
  }

  lemma {:induction false} LeadCount(rs: seq<Quota>, residual: nat, k: nat)
    requires residual <= |rs| && k <= |rs|
    ensures SumBy(Keyed(LeadRefs(rs, residual)), rs[..k]) >= (if k <= residual then k else residual) as real
    ensures k <= residual ==> SumBy(Keyed(LeadRefs(rs, residual)), rs[..k]) == k as real
    ensures k > residual ==>
      ((SumBy(Keyed(LeadRefs(rs, residual)), rs[..k]) == residual as real) <==>
      (forall j :: residual <= j < k ==> rs[j].ref !in LeadRefs(rs, residual)))
  {
    if k > 0 {
      LeadCount(rs, residual, k - 1);
      assert rs[..k][..k - 1] == rs[..k - 1];
    }
  }

  /** Handing a unit to every row whose reference is in the bonus set gives out
      exactly the residual when no reference is met twice, and too much otherwise. */
  lemma {:induction false} KeyedCount(qs: seq<Quota>, residual: nat)
    requires residual <= |qs|
    ensures SumBy(Keyed(LeadRefs(Sort(RanksUpTo, qs), residual)), qs) == residual as real <==> NoRefTwice(qs, residual)
  {
    var rs := Sort(RanksUpTo, qs);
    LeadCount(rs, residual, |rs|);
    assert rs[..|rs|] == rs;
    SumByPermutation(Keyed(LeadRefs(rs, residual)), qs, rs);
  }

  lemma ResidualBounds(pool: int, ws: seq<Weighted>)
    requires TotalValue(ws) != 0.0
    ensures 0 <= ResidualOf(pool, QuotasOf(pool, TotalValue(ws), ws)) <= |ws|
  {
    var qs := QuotasOf(pool, TotalValue(ws), ws);
    QuotasProper(pool, TotalValue(ws), ws);
    SharesAddUp(pool, ws);
    FloorTotalIs(qs);
    SharesSplit(qs);
    RemaindersBounded(qs);
  }

  /** The rows a kernel builds from floors and a bonus set. */
  ghost predicate BuiltFrom(qs: seq<Quota>, bonus: set<Ref>, rows: seq<Row>) {
    && |rows| == |qs|
    && forall i :: 0 <= i < |qs| ==> rows[i] == Row(qs[i].ref, qs[i].floor + if qs[i].ref in bonus then 1 else 0)
  }

  lemma {:induction false} BuiltTotal(qs: seq<Quota>, bonus: set<Ref>, rows: seq<Row>)
    requires BuiltFrom(qs, bonus, rows)
    ensures SumBy(AmountOf(), rows) == FloorTotal(qs) as real + SumBy(Keyed(bonus), qs)
  {
    if qs != [] {
      var n := |qs| - 1;
      BuiltTotal(qs[..n], bonus, rows[..n]);
    }
  }

  /** No reference stands on both sides of the cut. */
  ghost predicate Reconciles(pool: int, ws: seq<Weighted>)
    requires TotalValue(ws) != 0.0
  {
    ResidualBounds(pool, ws);
    var qs := QuotasOf(pool, TotalValue(ws), ws);
    NoRefTwice(qs, ResidualOf(pool, qs))
  }

  /** The rows with a unit more for every reference among the first in rank. */
  ghost function KeyedSplit(pool: int, ws: seq<Weighted>): (rows: seq<Row>)
    requires TotalValue(ws) != 0.0
    ensures |rows| == |ws|
  {
    ResidualBounds(pool, ws);
    var qs := QuotasOf(pool, TotalValue(ws), ws);
    var bonus := LeadRefs(Sort(RanksUpTo, qs), ResidualOf(pool, qs));
    seq(|ws|, i requires 0 <= i < |ws| => Row(qs[i].ref, qs[i].floor + if qs[i].ref in bonus then 1 else 0))
  }

  /** The rows built with the bonus set of the first `residual` in rank: they add
      up exactly when no reference is met twice. */
  lemma {:induction false} BuiltRows(pool: int, ws: seq<Weighted>, rows: seq<Row>)
    requires TotalValue(ws) != 0.0
    requires var qs := QuotasOf(pool, TotalValue(ws), ws);
      && 0 <= ResidualOf(pool, qs) <= |qs|
      && BuiltFrom(qs, LeadRefs(Sort(RanksUpTo, qs), ResidualOf(pool, qs)), rows)
    ensures rows == KeyedSplit(pool, ws)
    ensures SumBy(AmountOf(), rows) == pool as real <==> Reconciles(pool, ws)
  {
    hide QuotasOf, NoRefTwice, LeadRefs, Sort;
    var qs := QuotasOf(pool, TotalValue(ws), ws);
    var residual := ResidualOf(pool, qs);
    BuiltTotal(qs, LeadRefs(Sort(RanksUpTo, qs), residual), rows);
    KeyedCount(qs, residual);
  }

  lemma {:induction false} KeyedIsBuilt(pool: int, ws: seq<Weighted>)
    requires TotalValue(ws) != 0.0
    ensures var qs := QuotasOf(pool, TotalValue(ws), ws);
      && 0 <= ResidualOf(pool, qs) <= |qs|
      && BuiltFrom(qs, LeadRefs(Sort(RanksUpTo, qs), ResidualOf(pool, qs)), KeyedSplit(pool, ws))
  {
    hide LeadRefs, Sort, ResidualOf;
    ResidualBounds(pool, ws);
  }

  /** Distinct references: the bonus set is the first in rank, so the rows are the
      split and always add up. */
  lemma {:induction false} KeyedIsSplit(pool: int, ws: seq<Weighted>)
    requires TotalValue(ws) != 0.0 && DistinctWeighted(ws)
    ensures KeyedSplit(pool, ws) == SplitOf(pool, ws) && Reconciles(pool, ws)
  {
    var qs := QuotasOf(pool, TotalValue(ws), ws);
    var residual := ResidualOf(pool, qs);
    KeyedIsBuilt(pool, ws);
    QuotasProper(pool, TotalValue(ws), ws);
    hide QuotasOf, LeadRefs, Sort, NoRefTwice, Rank, DistinctQuotas, DistinctWeighted;
    var rows, split := KeyedSplit(pool, ws), SplitOf(pool, ws);
    forall i | 0 <= i < |qs| ensures rows[i] == split[i] {
      BonusIsRank(qs, residual, qs[i]);
    }
    SplitIsExact(pool, ws);
    BuiltRows(pool, ws, rows);
  }
}
