/** AllocationIQ's `distributeLargestRemainder`: exact rationals throughout. */
module Distribution {
  import opened Refs
  import opened Sorting
  import opened Sums
  import opened BigInts
  import opened ExactRational
  import opened DecimalText
  import opened Apportionment
  import opened Quotas

  /** A recipient and the text of its driver. */
  datatype Driver = Driver(ref: Ref, text: string)

  /** Every driver text has a value; other texts throw while being parsed. */
  predicate Readable(drivers: seq<Driver>) {
    forall i :: 0 <= i < |drivers| ==> RatioFromDecimal(drivers[i].text).Some?
  }

  ghost predicate DistinctDrivers(drivers: seq<Driver>) {
    forall i, j :: 0 <= i < j < |drivers| ==> drivers[i].ref != drivers[j].ref
  }

  /** The drivers with their exact values. */
  ghost function ValuesOf(drivers: seq<Driver>): (ws: seq<Weighted>)
    requires Readable(drivers)
    ensures |ws| == |drivers|
    ensures forall i :: 0 <= i < |drivers| ==>
      ws[i] == Weighted(drivers[i].ref, Val(RatioFromDecimal(drivers[i].text).value))
  {
    seq(|drivers|, i requires 0 <= i < |drivers| =>
      Weighted(drivers[i].ref, Val(RatioFromDecimal(drivers[i].text).value)))
  }

  /** A recipient's share cut into floor and remainder. */
  datatype Share = Share(ref: Ref, floor: int, remainder: Rational)

  ghost function AsQuota(s: Share): Quota {
    Quota(s.ref, s.floor, Val(s.remainder))
  }

  ghost function AsQuotas(shares: seq<Share>): (qs: seq<Quota>)
    ensures |qs| == |shares| && forall i :: 0 <= i < |shares| ==> qs[i] == AsQuota(shares[i])
  {
    if shares == [] then [] else AsQuotas(shares[..|shares| - 1]) + [AsQuota(shares[|shares| - 1])]
  }

  /** Truncate, and step down when a negative share is not whole. */
  function FloorOfRational(r: Rational): int {
    var floor := TruncDiv(r.num, r.den);
    if r.num < 0 && TruncRem(r.num, r.den) != 0 then floor - 1 else floor
  }

  lemma FloorOfParts(num: int, den: int, q: int, rem: int)
    requires den > 0 && num == q * den + rem && -den < rem < den
    requires num >= 0 ==> rem >= 0
    requires num < 0 ==> rem <= 0
    ensures var f := if num < 0 && rem != 0 then q - 1 else q;
      f * den <= num < f * den + den
  {
    Rounding.SignedMultiples(q - 1, den);
  }

  lemma FloorIsFloor(r: Rational)
    ensures FloorOfRational(r) == Val(r).Floor
  {
    var f := FloorOfRational(r);
    Rounding.TruncParts(r.num, r.den);
    FloorOfParts(r.num, r.den, TruncDiv(r.num, r.den), TruncRem(r.num, r.den));
    assert f * r.den <= r.num < f * r.den + r.den by { hide TruncDiv, TruncRem; }
    ValueFloor(r, f) by { hide FloorOfRational; }
  }

  lemma ValueFloor(r: Rational, f: int)
    requires f * r.den <= r.num < f * r.den + r.den
    ensures Val(r).Floor == f
  {
    MulReal(f, r.den);
    QuotientFloor(r.num as real, r.den as real, f);
  }

  lemma WholeValue(k: int)
    ensures Val(Rational.Rational(k, 1)) == k as real
  {
  }

  function CutShare(pool: int, ref: Ref, driver: Rational, total: Rational): Share
    requires total.num != 0
  {
    var share := RDiv(RMul(Rational.Rational(pool, 1), driver), total);
    var floor := FloorOfRational(share);
    Share(ref, floor, RSub(share, Rational.Rational(floor, 1)))
  }

  lemma CutShareIsQuota(pool: int, ref: Ref, driver: Rational, total: Rational)
    requires total.num != 0
    ensures Val(total) != 0.0
    ensures AsQuota(CutShare(pool, ref, driver, total)) == QuotaAt(ref, ShareAt(pool, Val(total), Val(driver)))
  {
    hide Val, RDiv, RMul, RSub, FloorOfRational;
    var share := RDiv(RMul(Rational.Rational(pool, 1), driver), total);
    WholeValue(pool);
    assert Val(share) == ShareAt(pool, Val(total), Val(driver));
    FloorIsFloor(share);
    WholeValue(FloorOfRational(share));
    var s := CutShare(pool, ref, driver, total);
    assert s.floor == Val(share).Floor && Val(s.remainder) == Val(share) - s.floor as real;
  }

  /** Remainder descending by cross product, reference ascending on a tie. */
  predicate Precedes(a: Share, b: Share) {
    var cross := a.remainder.num * b.remainder.den - b.remainder.num * a.remainder.den;
    if cross != 0 then cross > 0 else Less(a.ref, b.ref)
  }

  predicate NotAfter(a: Share, b: Share) {
    !Precedes(b, a)
  }

  lemma PrecedesIsBeats(a: Share, b: Share)
    ensures Precedes(a, b) <==> Beats(AsQuota(a), AsQuota(b))
  {
    CompareValues(a.remainder, b.remainder);
    CompareValues(b.remainder, a.remainder);
  }

  lemma {:induction false} InsertAsQuotas(x: Share, s: seq<Share>)
    ensures AsQuotas(Insert(NotAfter, x, s)) == Insert(RanksUpTo, AsQuota(x), AsQuotas(s))
  {
    hide AsQuotas, Precedes, Beats, AsQuota;
    AsQuotasFront(x, s);
    if s != [] {
      PrecedesIsBeats(s[0], x);
      assert s == [s[0]] + s[1..];
      AsQuotasFront(s[0], s[1..]);
      InsertAsQuotas(x, s[1..]);
      AsQuotasFront(s[0], Insert(NotAfter, x, s[1..]));
      assert AsQuotas(s)[1..] == AsQuotas(s[1..]);
    }
  }

  lemma {:induction false} AsQuotasFront(x: Share, s: seq<Share>)
    ensures AsQuotas([x] + s) == [AsQuota(x)] + AsQuotas(s)
  {
    hide AsQuotas, AsQuota;
  }

  lemma {:induction false} AsQuotasTail(s: seq<Share>)
    requires s != []
    ensures AsQuotas(s)[1..] == AsQuotas(s[1..])
  {
    hide AsQuotas, AsQuota;
  }

  /** Ranking the shares is ranking their quotas. */
  lemma {:induction false} SortAsQuotas(s: seq<Share>)
    ensures AsQuotas(Sort(NotAfter, s)) == Sort(RanksUpTo, AsQuotas(s))
  {
    if s != [] {
      AsQuotasTail(s);
      SortAsQuotas(s[1..]);
      InsertAsQuotas(s[0], Sort(NotAfter, s[1..]));
    }
  }

  datatype DistributionResult =
    | Distributed(rows: seq<Row>, tieBreaks: seq<(Ref, Ref)>)
    | NoDriverBasis
    | ReconciliationFailed

  method ParseDrivers(drivers: seq<Driver>) returns (parsed: seq<Rational>, total: Rational)
    requires Readable(drivers)
    ensures |parsed| == |drivers|
    ensures forall i :: 0 <= i < |drivers| ==> parsed[i] == RatioFromDecimal(drivers[i].text).value
    ensures Val(total) == TotalValue(ValuesOf(drivers))
  {
    hide Val, RAdd, RatioFromDecimal;
    LinearSolverUnit();
    parsed := [];
    total := R_ZERO;
    ghost var ws := ValuesOf(drivers);
    for i := 0 to |drivers|
      invariant |parsed| == i && forall k :: 0 <= k < i ==> parsed[k] == RatioFromDecimal(drivers[k].text).value
      invariant Val(total) == SumBy(ValueOf(), ws[..i])
    {
      var driver := RatioFromDecimal(drivers[i].text).value;
      parsed := parsed + [driver];
      total := RAdd(total, driver);
      assert ws[..i + 1][..i] == ws[..i];
    }
    assert ws[..|drivers|] == ws;
  }

  lemma LinearSolverUnit()
    ensures Val(R_ZERO) == 0.0
  {
  }

  method CutShares(pool: int, drivers: seq<Driver>, parsed: seq<Rational>, total: Rational)
      returns (shares: seq<Share>, floors: int)
    requires Readable(drivers) && |parsed| == |drivers| && total.num != 0
    requires forall i :: 0 <= i < |drivers| ==> parsed[i] == RatioFromDecimal(drivers[i].text).value
    ensures Val(total) != 0.0 && AsQuotas(shares) == QuotasOf(pool, Val(total), ValuesOf(drivers))
    ensures floors == FloorTotal(AsQuotas(shares))
  {
    hide Val, RatioFromDecimal, CutShare, QuotaAt, ShareAt, FloorTotal, AsQuotas;
    CompareValues(total, R_ZERO);
    LinearSolverUnit();
    shares, floors := [], 0;
    NoFloors();
    for i := 0 to |drivers|
      invariant |shares| == i && floors == FloorTotal(AsQuotas(shares))
      invariant forall k :: 0 <= k < i ==>
        AsQuota(shares[k]) == QuotaAt(drivers[k].ref, ShareAt(pool, Val(total), Val(parsed[k])))
    {
      var share := CutShare(pool, drivers[i].ref, parsed[i], total);
      CutShareIsQuota(pool, drivers[i].ref, parsed[i], total);
      FloorOneMore(shares, share);
      shares := shares + [share];
      floors := floors + share.floor;
    }
    assert AsQuotas(shares) == QuotasOf(pool, Val(total), ValuesOf(drivers));
  }

  lemma NoFloors()
    ensures FloorTotal(AsQuotas([])) == 0
  {
  }

  lemma {:induction false} FloorOneMore(shares: seq<Share>, share: Share)
    ensures FloorTotal(AsQuotas(shares + [share])) == FloorTotal(AsQuotas(shares)) + share.floor
  {
    assert (shares + [share])[..|shares|] == shares;
  }

  /** Two neighbours in the ranking with equal remainders: a tie the order broke. */
  ghost predicate TiedAt(ranked: seq<Quota>, i: int, tie: (Ref, Ref)) {
    && 0 <= i < |ranked| - 1
    && ranked[i].rem == ranked[i + 1].rem
    && tie == (ranked[i].ref, ranked[i + 1].ref)
  }

  method TieBreaks(ranked: seq<Share>) returns (ties: seq<(Ref, Ref)>)
    ensures forall t :: t in ties <==> exists i :: TiedAt(AsQuotas(ranked), i, t)
  {
    hide Val;
    ties := [];
    var i := 0;
    while i + 1 < |ranked|
      invariant 0 <= i
      invariant forall t :: t in ties <==> exists k :: k < i && TiedAt(AsQuotas(ranked), k, t)
    {
      CompareValues(ranked[i].remainder, ranked[i + 1].remainder);
      var tie := (ranked[i].ref, ranked[i + 1].ref);
      if REquals(ranked[i].remainder, ranked[i + 1].remainder) {
        assert TiedAt(AsQuotas(ranked), i, tie);
        ties := ties + [tie];
      }
      i := i + 1;
    }
  }

  /** Spends the residual one unit at a time down the ranking. */
  method SpendResidual(ranked: seq<Share>, residual: nat) returns (bonus: set<Ref>)
    requires residual <= |ranked|
    ensures bonus == set j | 0 <= j < residual :: ranked[j].ref
  {
    bonus := {};
    var left := residual;
    for i := 0 to |ranked|
      invariant left == if i <= residual then residual - i else 0
      invariant bonus == set j | 0 <= j < (if i <= residual then i else residual) :: ranked[j].ref
    {
      if left == 0 {
        break;
      }
      bonus := bonus + {ranked[i].ref};
      left := left - 1;
    }
  }

  /** Those are the keys of the order-free rule's bonus set. */
  lemma {:induction false} LeadShares(ranked: seq<Share>, residual: nat)
    requires residual <= |ranked|
    ensures (set j | 0 <= j < residual :: ranked[j].ref) == LeadRefs(AsQuotas(ranked), residual)
  {
  }

  method HandOut(shares: seq<Share>, bonus: set<Ref>) returns (rows: seq<Row>, allocatedTotal: int)
    ensures BuiltFrom(AsQuotas(shares), bonus, rows)
    ensures allocatedTotal as real == SumBy(AmountOf(), rows)
  {
    rows, allocatedTotal := [], 0;
    for i := 0 to |shares|
      invariant |rows| == i
      invariant forall k :: 0 <= k < i ==>
        rows[k] == Row(shares[k].ref, shares[k].floor + if shares[k].ref in bonus then 1 else 0)
      invariant allocatedTotal as real == SumBy(AmountOf(), rows)
    {
      var row := Row(shares[i].ref, shares[i].floor + if shares[i].ref in bonus then 1 else 0);
      assert (rows + [row])[..i] == rows;
      rows := rows + [row];
      allocatedTotal := allocatedTotal + row.amount;
    }
  }

  lemma DistinctKept(drivers: seq<Driver>)
    requires Readable(drivers)
    ensures DistinctDrivers(drivers) ==> DistinctWeighted(ValuesOf(drivers))
  {
  }

  /** `distributeLargestRemainder(pool, drivers)`. On distinct recipients it never
      fails to reconcile; on repeated ones it fails exactly when one recipient
      stands both inside and outside the leading `residual` ranks. */
  method DistributeLargestRemainder(pool: int, drivers: seq<Driver>) returns (r: DistributionResult)
    requires Readable(drivers)
    ensures r.NoDriverBasis? <==> TotalValue(ValuesOf(drivers)) == 0.0
    ensures !r.NoDriverBasis? ==> (r.Distributed? <==> Reconciles(pool, ValuesOf(drivers)))
    ensures r.Distributed? ==> r.rows == KeyedSplit(pool, ValuesOf(drivers))
    ensures r.Distributed? ==> SumBy(AmountOf(), r.rows) == pool as real
    ensures r.Distributed? ==>
      var qs := QuotasOf(pool, TotalValue(ValuesOf(drivers)), ValuesOf(drivers));
      forall t :: t in r.tieBreaks <==> exists i :: TiedAt(Sort(RanksUpTo, qs), i, t)
    ensures !r.NoDriverBasis? && DistinctDrivers(drivers) ==>
      r.Distributed? && r.rows == SplitOf(pool, ValuesOf(drivers))
  {
    hide Val, RatioFromDecimal, QuotasOf, Reconciles, KeyedSplit, SplitOf, AsQuotas, LeadRefs, FloorTotal, BuiltFrom,
      TotalValue, Sort, TiedAt, ValuesOf, DistinctWeighted;
    var parsed, total := ParseDrivers(drivers);
    CompareValues(total, R_ZERO);
    if RIsZero(total) {
      return NoDriverBasis;
    }
    var shares, floors := CutShares(pool, drivers, parsed, total);
    ghost var ws := ValuesOf(drivers);
    ResidualBounds(pool, ws);
    var residual := pool - floors;
    var ranked := Sort(NotAfter, shares);
    SortAsQuotas(shares);
    var ties := TieBreaks(ranked);
    var bonus := SpendResidual(ranked, residual);
    LeadShares(ranked, residual);
    var rows, allocatedTotal := HandOut(shares, bonus);
    BuiltRows(pool, ws, rows);
    DistinctKept(drivers);
    if DistinctDrivers(drivers) { KeyedIsSplit(pool, ws); }
    if allocatedTotal != pool {
      return ReconciliationFailed;
    }
    return Distributed(rows, ties);
  }
}
