/** BudgetIQ's `allocateExact` and `phase`: the same rule in scaled integers. */
module BudgetAllocation {
  import opened Options
  import opened Refs
  import opened Sorting
  import opened Sums
  import opened BigInts
  import opened ExactRational
  import opened DecimalText
  import opened Apportionment
  import opened Quotas
  import D = Distribution

  /** Decimal driver texts with a value; others throw while being parsed. */
  predicate Readable(rows: seq<D.Driver>) {
    forall i :: 0 <= i < |rows| ==> ReadDecimal(rows[i].text).Some?
  }

  function WeightOf(row: D.Driver): Decimal
    requires ReadDecimal(row.text).Some?
  {
    ReadDecimal(row.text).value
  }

  ghost function DecimalValue(d: Decimal): real {
    d.num as real / Pow10(d.places) as real
  }

  ghost function ValuesOf(rows: seq<D.Driver>): (ws: seq<Weighted>)
    requires Readable(rows)
    ensures |ws| == |rows|
    ensures forall i :: 0 <= i < |rows| ==> ws[i] == Weighted(rows[i].ref, DecimalValue(WeightOf(rows[i])))
  {
    seq(|rows|, i requires 0 <= i < |rows| => Weighted(rows[i].ref, DecimalValue(WeightOf(rows[i]))))
  }

  /** On decimal drivers both kernels read the same values. */
  lemma SameValues(rows: seq<D.Driver>)
    requires Readable(rows) && forall i :: 0 <= i < |rows| ==> '/' !in rows[i].text
    ensures D.Readable(rows) && D.ValuesOf(rows) == ValuesOf(rows)
  {
    hide ReadDecimal, Val;
    forall i | 0 <= i < |rows| ensures RatioFromDecimal(rows[i].text).Some?
      && Val(RatioFromDecimal(rows[i].text).value) == DecimalValue(WeightOf(rows[i])) {}
  }

  /** The product of the drivers' scales. */
  function CommonDenominator(rows: seq<D.Driver>): (d: int)
    requires Readable(rows)
    ensures d > 0
  {
    if rows == [] then 1
    else
      var p := Pow10(WeightOf(rows[|rows| - 1]).places);
      MulBounds(CommonDenominator(rows[..|rows| - 1]), p);
      CommonDenominator(rows[..|rows| - 1]) * p
  }

  ghost predicate DividedBy(d: int, p: int) {
    exists k :: d == k * p
  }

  lemma {:induction false} CommonDivides(rows: seq<D.Driver>, i: nat)
    requires Readable(rows) && i < |rows|
    ensures DividedBy(CommonDenominator(rows), Pow10(WeightOf(rows[i]).places))
  {
    hide ReadDecimal, Pow10;
    var m := rows[..|rows| - 1];
    var p := Pow10(WeightOf(rows[|rows| - 1]).places);
    assert CommonDenominator(rows) == CommonDenominator(m) * p;
    if i < |m| {
      CommonDivides(m, i);
      var q := Pow10(WeightOf(rows[i]).places);
      var k :| CommonDenominator(m) == k * q;
      assert CommonDenominator(m) * p == (k * p) * q;
    }
  }

  /** A driver in units of the common scale; the truncating division is exact. */
  function Scaled(d: Decimal, common: int): int {
    TruncDiv(d.num * common, Pow10(d.places))
  }

  ghost function Times(v: real, c: int): real {
    v * c as real
  }

  lemma ScaledIsExact(d: Decimal, common: int)
    requires DividedBy(common, Pow10(d.places))
    ensures Scaled(d, common) as real == Times(DecimalValue(d), common)
  {
    hide Pow10, TruncDiv;
    var p := Pow10(d.places);
    var k :| common == k * p;
    Regroup(d.num, k, p);
    ExactDivision(d.num * k, p);
    MulReal(d.num, k);
    MulReal(k, p);
    FractionTimes(d.num as real, p as real, k as real);
  }

  lemma Regroup(n: int, k: int, p: int)
    ensures n * (k * p) == (n * k) * p
  {
  }

  lemma FractionTimes(n: real, p: real, k: real)
    requires p != 0.0
    ensures (n / p) * (k * p) == n * k
  {
    QuotientTimes(n, p);
    RegroupReals(n / p, k, p);
  }

  lemma RegroupReals(v: real, k: real, p: real)
    ensures v * (k * p) == (v * p) * k
  {
  }

  /** Division rounding toward minus infinity. */
  function FloorDiv(n: int, d: int): int
    requires d != 0
  {
    var q := TruncDiv(n, d);
    if TruncRem(n, d) != 0 && (n < 0) != (d < 0) then q - 1 else q
  }

  lemma FloorDivMeans(n: int, d: int)
    requires d > 0
    ensures FloorDiv(n, d) * d <= n < FloorDiv(n, d) * d + d
  {
    Rounding.TruncParts(n, d);
    Rounding.SignedMultiples(TruncDiv(n, d) - 1, d);
  }

  /** A child's quota: floor and remainder over the total weight. */
  datatype Part = Part(ref: Ref, floor: int, remainder: int)

  ghost function AsQuota(p: Part, totalWeight: int): Quota
    requires totalWeight > 0
  {
    Quota(p.ref, p.floor, p.remainder as real / totalWeight as real)
  }

  ghost function AsQuotas(parts: seq<Part>, totalWeight: int): (qs: seq<Quota>)
    requires totalWeight > 0
    ensures |qs| == |parts| && forall i :: 0 <= i < |parts| ==> qs[i] == AsQuota(parts[i], totalWeight)
  {
    if parts == [] then [] else AsQuotas(parts[..|parts| - 1], totalWeight) + [AsQuota(parts[|parts| - 1], totalWeight)]
  }

  function CutPart(parent: int, ref: Ref, weight: int, totalWeight: int): Part
    requires totalWeight > 0
  {
    var numerator := parent * weight;
    var floor := FloorDiv(numerator, totalWeight);
    Part(ref, floor, numerator - floor * totalWeight)
  }

  /** Cutting in scaled integers is cutting the exact share. */
  lemma CutPartIsQuota(parent: int, ref: Ref, weight: int, totalWeight: int, value: real, total: real, common: int)
    requires totalWeight > 0 && common > 0 && total != 0.0
    requires weight as real == Times(value, common) && totalWeight as real == Times(total, common)
    ensures AsQuota(CutPart(parent, ref, weight, totalWeight), totalWeight)
      == QuotaAt(ref, ShareAt(parent, total, value))
  {
    SameShare(parent, weight, totalWeight, value, total, common);
    hide Times, ShareAt;
    CutIsFloor(parent, ref, weight, totalWeight, (parent * weight) as real / totalWeight as real);
  }

  lemma SameShare(parent: int, weight: int, totalWeight: int, value: real, total: real, common: int)
    requires totalWeight > 0 && common > 0 && total != 0.0
    requires weight as real == Times(value, common) && totalWeight as real == Times(total, common)
    ensures (parent * weight) as real / totalWeight as real == ShareAt(parent, total, value)
  {
    MulReal(parent, weight);
    SameRatio(parent as real, value, total, common as real);
  }

  lemma CutIsFloor(parent: int, ref: Ref, weight: int, totalWeight: int, share: real)
    requires totalWeight > 0 && share == (parent * weight) as real / totalWeight as real
    ensures AsQuota(CutPart(parent, ref, weight, totalWeight), totalWeight) == QuotaAt(ref, share)
  {
    hide FloorDiv;
    var n := parent * weight;
    var f := FloorDiv(n, totalWeight);
    FloorDivMeans(n, totalWeight);
    MulReal(f, totalWeight);
    CutRatio(n as real, totalWeight as real, f);
  }

  lemma SameRatio(p: real, v: real, t: real, c: real)
    requires t != 0.0 && c != 0.0 && t * c != 0.0
    ensures (p * (v * c)) / (t * c) == p * v / t
  {
    var x := p * v / t;
    assert x * t == p * v;
    assert x * (t * c) == p * (v * c);
    RealCancel((p * (v * c)) / (t * c), x, t * c);
  }

  lemma QuotientLess(n: real, w: real, f: real)
    requires w > 0.0
    ensures (n - f * w) / w == n / w - f
  {
    QuotientTimes(n, w);
    QuotientTimes(n - f * w, w);
    ProductLess(n / w, f, w);
    RealCancel((n - f * w) / w, n / w - f, w);
  }

  lemma ProductLess(p: real, q: real, w: real)
    ensures (p - q) * w == p * w - q * w
  {
  }

  lemma CutRatio(n: real, w: real, f: int)
    requires w > 0.0 && f as real * w <= n < f as real * w + w
    ensures (n / w).Floor == f && (n - f as real * w) / w == n / w - f as real
  {
    QuotientFloor(n, w, f);
    QuotientLess(n, w, f as real);
  }

  /** Remainder descending, reference ascending on a tie. */
  predicate Precedes(a: Part, b: Part) {
    if a.remainder != b.remainder then a.remainder > b.remainder else Less(a.ref, b.ref)
  }

  predicate NotAfter(a: Part, b: Part) {
    !Precedes(b, a)
  }

  lemma PrecedesIsBeats(a: Part, b: Part, w: int)
    requires w > 0
    ensures Precedes(a, b) <==> Beats(AsQuota(a, w), AsQuota(b, w))
  {
    SameOrder(a.remainder as real, b.remainder as real, w as real);
    SameOrder(b.remainder as real, a.remainder as real, w as real);
  }

  lemma SameOrder(p: real, q: real, w: real)
    requires w > 0.0
    ensures p < q <==> p / w < q / w
  {
    assert (p / w) * w == p && (q / w) * w == q;
    ScaleOrder(p / w, q / w, w);
  }

  lemma {:induction false} AsQuotasFront(x: Part, s: seq<Part>, w: int)
    requires w > 0
    ensures AsQuotas([x] + s, w) == [AsQuota(x, w)] + AsQuotas(s, w)
  {
    hide AsQuotas, AsQuota;
  }

  lemma {:induction false} InsertAsQuotas(x: Part, s: seq<Part>, w: int)
    requires w > 0
    ensures AsQuotas(Insert(NotAfter, x, s), w) == Insert(RanksUpTo, AsQuota(x, w), AsQuotas(s, w))
  {
    hide AsQuotas, Precedes, Beats, AsQuota;
    AsQuotasFront(x, s, w);
    if s != [] {
      PrecedesIsBeats(s[0], x, w);
      assert s == [s[0]] + s[1..];
      AsQuotasFront(s[0], s[1..], w);
      InsertAsQuotas(x, s[1..], w);
      AsQuotasFront(s[0], Insert(NotAfter, x, s[1..]), w);
      assert AsQuotas(s, w)[1..] == AsQuotas(s[1..], w);
    }
  }

  lemma {:induction false} SortAsQuotas(s: seq<Part>, w: int)
    requires w > 0
    ensures AsQuotas(Sort(NotAfter, s), w) == Sort(RanksUpTo, AsQuotas(s, w))
  {
    hide AsQuotas, AsQuota, Insert;
    if s != [] {
      assert s == [s[0]] + s[1..];
      AsQuotasFront(s[0], s[1..], w);
      assert AsQuotas(s, w)[1..] == AsQuotas(s[1..], w);
      SortAsQuotas(s[1..], w);
      InsertAsQuotas(s[0], Sort(NotAfter, s[1..]), w);
    }
  }

  // -------------------------------------------------------------------- the method

  datatype AllocationResult = Allocated(rows: seq<Row>) | NegativeDriver | NoDriverBasis | ExactSumViolated

  method ReadWeights(rows: seq<D.Driver>) returns (weights: seq<Decimal>, common: int, anyNegative: bool)
    requires Readable(rows)
    ensures |weights| == |rows| && forall i :: 0 <= i < |rows| ==> weights[i] == WeightOf(rows[i])
    ensures common == CommonDenominator(rows)
    ensures anyNegative <==> exists i :: 0 <= i < |rows| && WeightOf(rows[i]).num < 0
  {
    hide ReadDecimal, Pow10;
    weights, common, anyNegative := [], 1, false;
    for i := 0 to |rows|
      invariant |weights| == i && forall k :: 0 <= k < i ==> weights[k] == WeightOf(rows[k])
      invariant common == CommonDenominator(rows[..i])
      invariant anyNegative <==> exists k :: 0 <= k < i && WeightOf(rows[k]).num < 0
    {
      var weight := WeightOf(rows[i]);
      weights := weights + [weight];
      common := common * Pow10(weight.places);
      anyNegative := anyNegative || weight.num < 0;
      assert rows[..i + 1][..i] == rows[..i];
    }
    assert rows[..|rows|] == rows;
  }

  /** Every weight over the common denominator, and their total. */
  method ScaleWeights(rows: seq<D.Driver>, weights: seq<Decimal>, common: int) returns (scaled: seq<int>, total: int)
    requires Readable(rows) && common == CommonDenominator(rows)
    requires |weights| == |rows| && forall i :: 0 <= i < |rows| ==> weights[i] == WeightOf(rows[i])
    ensures |scaled| == |rows|
    ensures forall i :: 0 <= i < |rows| ==> scaled[i] as real == Times(ValuesOf(rows)[i].value, common)
    ensures total as real == Times(TotalValue(ValuesOf(rows)), common)
  {
    hide ReadDecimal, Scaled, DecimalValue, Times, WeightOf;
    scaled, total := [], 0;
    ghost var ws := ValuesOf(rows);
    AddScaled(0.0, 0.0, common);
    for i := 0 to |rows|
      invariant |scaled| == i && forall k :: 0 <= k < i ==> scaled[k] as real == Times(ws[k].value, common)
      invariant total as real == Times(SumBy(ValueOf(), ws[..i]), common)
    {
      CommonDivides(rows, i);
      ScaledIsExact(weights[i], common);
      var weight := Scaled(weights[i], common);
      AddScaled(SumBy(ValueOf(), ws[..i]), ws[i].value, common);
      assert ws[..i + 1][..i] == ws[..i];
      scaled := scaled + [weight];
      total := total + weight;
    }
    assert ws[..|rows|] == ws;
  }

  lemma AddScaled(s: real, v: real, c: int)
    ensures Times(s + v, c) == Times(s, c) + Times(v, c) && Times(0.0, c) == 0.0
  {
  }

  method CutParts(parent: int, rows: seq<D.Driver>, scaled: seq<int>, totalWeight: int, ghost common: int)
      returns (parts: seq<Part>, floors: int)
    requires Readable(rows) && |scaled| == |rows| && totalWeight > 0 && common > 0
    requires TotalValue(ValuesOf(rows)) != 0.0
    requires forall i :: 0 <= i < |rows| ==> scaled[i] as real == Times(ValuesOf(rows)[i].value, common)
    requires totalWeight as real == Times(TotalValue(ValuesOf(rows)), common)
    ensures AsQuotas(parts, totalWeight) == QuotasOf(parent, TotalValue(ValuesOf(rows)), ValuesOf(rows))
    ensures floors == FloorTotal(AsQuotas(parts, totalWeight))
  {
    hide CutPart, AsQuota, AsQuotas, QuotaAt, ShareAt, FloorTotal, TotalValue, Times, ReadDecimal, WeightOf,
         DecimalValue;
    ghost var ws := ValuesOf(rows);
    parts, floors := [], 0;
    NoFloors(totalWeight);
    for i := 0 to |rows|
      invariant |parts| == i && floors == FloorTotal(AsQuotas(parts, totalWeight))
      invariant forall k :: 0 <= k < i ==>
        AsQuota(parts[k], totalWeight) == QuotaAt(rows[k].ref, ShareAt(parent, TotalValue(ws), ws[k].value))
    {
      var part := CutPart(parent, rows[i].ref, scaled[i], totalWeight);
      CutPartIsQuota(parent, rows[i].ref, scaled[i], totalWeight, ws[i].value, TotalValue(ws), common);
      FloorOneMore(parts, part, totalWeight);
      parts := parts + [part];
      floors := floors + part.floor;
    }
    assert AsQuotas(parts, totalWeight) == QuotasOf(parent, TotalValue(ws), ws);
  }

  lemma {:induction false} NoFloors(w: int)
    requires w > 0
    ensures FloorTotal(AsQuotas([], w)) == 0
  {
  }

  lemma {:induction false} FloorOneMore(parts: seq<Part>, part: Part, w: int)
    requires w > 0
    ensures FloorTotal(AsQuotas(parts + [part], w)) == FloorTotal(AsQuotas(parts, w)) + part.floor
  {
    assert (parts + [part])[..|parts|] == parts;
  }

  method SpendResidual(order: seq<Part>, residual: nat, ghost w: int) returns (bump: set<Ref>)
    requires w > 0 && residual <= |order|
    ensures bump == LeadRefs(AsQuotas(order, w), residual)
  {
    bump := {};
    var left := residual;
    for i := 0 to |order|
      invariant left == if i <= residual then residual - i else 0
      invariant bump == LeadRefs(AsQuotas(order, w), if i <= residual then i else residual)
    {
      if left <= 0 {
        break;
      }
      bump := bump + {order[i].ref};
      left := left - 1;
    }
  }

  method HandOut(parts: seq<Part>, bump: set<Ref>, ghost w: int) returns (rows: seq<Row>, sum: int)
    requires w > 0
    ensures BuiltFrom(AsQuotas(parts, w), bump, rows)
    ensures sum as real == SumBy(AmountOf(), rows)
  {
    rows, sum := [], 0;
    for i := 0 to |parts|
      invariant |rows| == i
      invariant forall k :: 0 <= k < i ==>
        rows[k] == Row(parts[k].ref, parts[k].floor + if parts[k].ref in bump then 1 else 0)
      invariant sum as real == SumBy(AmountOf(), rows)
    {
      var row := Row(parts[i].ref, parts[i].floor + if parts[i].ref in bump then 1 else 0);
      assert (rows + [row])[..i] == rows;
      rows := rows + [row];
      sum := sum + row.amount;
    }
  }

  /** `allocateExact(parent, rows)`. */
  method AllocateExact(parent: int, rows: seq<D.Driver>) returns (r: AllocationResult)
    requires Readable(rows)
    ensures r.NegativeDriver? <==> exists i :: 0 <= i < |rows| && WeightOf(rows[i]).num < 0
    ensures !r.NegativeDriver? ==> (r.NoDriverBasis? <==> TotalValue(ValuesOf(rows)) == 0.0)
    ensures r.Allocated? || r.ExactSumViolated? ==> (r.Allocated? <==> Reconciles(parent, ValuesOf(rows)))
    ensures r.Allocated? ==> r.rows == KeyedSplit(parent, ValuesOf(rows))
    ensures r.Allocated? ==> SumBy(AmountOf(), r.rows) == parent as real
    ensures (r.Allocated? || r.ExactSumViolated?) && D.DistinctDrivers(rows) ==>
      r.Allocated? && r.rows == SplitOf(parent, ValuesOf(rows))
  {
    hide ReadDecimal, WeightOf, QuotasOf, Reconciles, KeyedSplit, SplitOf, AsQuotas, LeadRefs, FloorTotal, BuiltFrom,
      TotalValue, Sort, ValuesOf, DistinctWeighted;
    var weights, common, anyNegative := ReadWeights(rows);
    if anyNegative {
      return NegativeDriver;
    }
    var scaled, totalWeight := ScaleWeights(rows, weights, common);
    TotalSign(rows, weights, totalWeight, common);
    if totalWeight == 0 {
      return NoDriverBasis;
    }
    var parts, floors := CutParts(parent, rows, scaled, totalWeight, common);
    ghost var ws := ValuesOf(rows);
    ResidualBounds(parent, ws);
    var residual := parent - floors;
    var order := Sort(NotAfter, parts);
    SortAsQuotas(parts, totalWeight);
    var bump := SpendResidual(order, residual, totalWeight);
    var out, sum := HandOut(parts, bump, totalWeight);
    BuiltRows(parent, ws, out);
    DistinctKept(rows);
    if D.DistinctDrivers(rows) { KeyedIsSplit(parent, ws); }
    if sum != parent {
      return ExactSumViolated;
    }
    return Allocated(out);
  }

  lemma DistinctKept(rows: seq<D.Driver>)
    requires Readable(rows)
    ensures D.DistinctDrivers(rows) ==> DistinctWeighted(ValuesOf(rows))
  {
  }

  /** No weight is negative, so the scaled total is zero or positive with the value. */
  lemma TotalSign(rows: seq<D.Driver>, weights: seq<Decimal>, totalWeight: int, common: int)
    requires Readable(rows) && common > 0
    requires |weights| == |rows| && forall i :: 0 <= i < |rows| ==> weights[i] == WeightOf(rows[i])
    requires forall i :: 0 <= i < |rows| ==> WeightOf(rows[i]).num >= 0
    requires totalWeight as real == Times(TotalValue(ValuesOf(rows)), common)
    ensures totalWeight >= 0 && (totalWeight == 0 <==> TotalValue(ValuesOf(rows)) == 0.0)
  {
    hide ReadDecimal, WeightOf;
    NonNegativeTotal(rows, |rows|);
    var ws := ValuesOf(rows);
    assert ws[..|rows|] == ws;
    SignOfProduct(TotalValue(ws), common as real);
  }

  lemma {:induction false} NonNegativeTotal(rows: seq<D.Driver>, k: nat)
    requires Readable(rows) && k <= |rows|
    requires forall i :: 0 <= i < |rows| ==> WeightOf(rows[i]).num >= 0
    ensures SumBy(ValueOf(), ValuesOf(rows)[..k]) >= 0.0
  {
    hide ReadDecimal, WeightOf;
    if k > 0 {
      NonNegativeTotal(rows, k - 1);
      var ws := ValuesOf(rows);
      assert ws[..k][..k - 1] == ws[..k - 1];
      var d := WeightOf(rows[k - 1]);
      NonNegativeFraction(d.num as real, Pow10(d.places) as real);
    }
  }

  lemma NonNegativeFraction(n: real, p: real)
    requires n >= 0.0 && p > 0.0
    ensures n / p >= 0.0
  {
  }

  lemma SignOfProduct(t: real, c: real)
    requires c > 0.0 && t >= 0.0
    ensures t * c >= 0.0 && (t * c == 0.0 <==> t == 0.0)
  {
  }

  /** The two kernels side by side on decimal, never-negative drivers: one works in
      rationals, the other in scaled integers, and every row gets the same amount
      from both; they fail together too. */
  method KernelsAgree(pool: int, rows: seq<D.Driver>) returns (a: D.DistributionResult, b: AllocationResult)
    requires Readable(rows)
    requires forall i :: 0 <= i < |rows| ==> '/' !in rows[i].text && WeightOf(rows[i]).num >= 0
    requires D.Readable(rows)
    ensures a.NoDriverBasis? <==> b.NoDriverBasis?
    ensures a.Distributed? <==> b.Allocated?
    ensures b.Allocated? ==> a.rows == b.rows
    ensures D.DistinctDrivers(rows) ==> a.Distributed? || a.NoDriverBasis?
  {
    hide ReadDecimal, RatioFromDecimal, WeightOf, D.ValuesOf, ValuesOf, SplitOf, KeyedSplit, Reconciles, TotalValue;
    SameValues(rows);
    a := D.DistributeLargestRemainder(pool, rows);
    b := AllocateExact(pool, rows);
  }

  // ----------------------------------------------------------------------- phasing

  datatype Phasing = Even | Seasonal

  datatype PhaseResult =
    | Phased(rows: seq<Row>)
    | PhasingMethodUnselected
    | SeasonalIndexNotSupplied
    | NotAllocated(reason: AllocationResult)

  function DriversOf(refs: seq<Ref>, texts: seq<string>): (ds: seq<D.Driver>)
    requires |refs| == |texts|
    ensures |ds| == |refs| && forall i :: 0 <= i < |refs| ==> ds[i] == D.Driver(refs[i], texts[i])
  {
    seq(|refs|, i requires 0 <= i < |refs| => D.Driver(refs[i], texts[i]))
  }

  function Ones(n: nat): seq<string> {
    seq(n, _ => "1")
  }

  /** The amount of the last row with a reference, zero without one. */
  function LastAmount(rows: seq<Row>, ref: Ref): int {
    if rows == [] then 0
    else if rows[|rows| - 1].ref == ref then rows[|rows| - 1].amount
    else LastAmount(rows[..|rows| - 1], ref)
  }

  /** The map from reference to amount: a later row of the same reference replaces an
      earlier one. */
  method AmountByRef(rows: seq<Row>) returns (byRef: map<Ref, int>)
    ensures forall x :: (if x in byRef then byRef[x] else 0) == LastAmount(rows, x)
  {
    byRef := map[];
    for k := 0 to |rows|
      invariant forall x :: (if x in byRef then byRef[x] else 0) == LastAmount(rows[..k], x)
    {
      assert rows[..k + 1][..k] == rows[..k];
      byRef := byRef[rows[k].ref := rows[k].amount];
    }
    assert rows[..|rows|] == rows;
  }

  lemma {:induction false} LastAmountDistinct(rows: seq<Row>, i: nat)
    requires i < |rows| && forall j, k :: 0 <= j < k < |rows| ==> rows[j].ref != rows[k].ref
    ensures LastAmount(rows, rows[i].ref) == rows[i].amount
  {
    if i < |rows| - 1 { LastAmountDistinct(rows[..|rows| - 1], i); }
  }

  ghost predicate HasNegative(drivers: seq<D.Driver>)
    requires Readable(drivers)
  {
    exists i :: 0 <= i < |drivers| && WeightOf(drivers[i]).num < 0
  }

  /** Each period with the last amount allocated to its reference. */
  ghost function PhasedRows(annual: int, periods: seq<Ref>, ws: seq<Weighted>): (rows: seq<Row>)
    requires TotalValue(ws) != 0.0
    ensures |rows| == |periods|
  {
    seq(|periods|, i requires 0 <= i < |periods| => Row(periods[i], LastAmount(KeyedSplit(annual, ws), periods[i])))
  }

  /** What phasing by drivers answers, each refusal with its one cause. */
  ghost predicate PhasesBy(annual: int, periods: seq<Ref>, drivers: seq<D.Driver>, r: PhaseResult)
    requires Readable(drivers)
  {
    var ws := ValuesOf(drivers);
    if HasNegative(drivers) then r == NotAllocated(NegativeDriver)
    else if TotalValue(ws) == 0.0 then r == NotAllocated(NoDriverBasis)
    else if !Reconciles(annual, ws) then r == NotAllocated(ExactSumViolated)
    else r == Phased(PhasedRows(annual, periods, ws))
  }

  method PhaseBy(annual: int, periods: seq<Ref>, drivers: seq<D.Driver>) returns (r: PhaseResult)
    requires Readable(drivers)
    ensures PhasesBy(annual, periods, drivers, r)
  {
    hide ReadDecimal, WeightOf, SplitOf, KeyedSplit, Reconciles, TotalValue, ValuesOf, LastAmount;
    var allocation := AllocateExact(annual, drivers);
    if !allocation.Allocated? {
      return NotAllocated(allocation);
    }
    var byRef := AmountByRef(allocation.rows);
    var rows: seq<Row> := [];
    for k := 0 to |periods|
      invariant |rows| == k
      invariant forall i :: 0 <= i < k ==> rows[i] == Row(periods[i], LastAmount(allocation.rows, periods[i]))
    {
      var amount := if periods[k] in byRef then byRef[periods[k]] else 0;
      assert amount == LastAmount(allocation.rows, periods[k]);
      rows := rows + [Row(periods[k], amount)];
    }
    assert rows == PhasedRows(annual, periods, ValuesOf(drivers));
    return Phased(rows);
  }

  lemma SplitRefs(annual: int, ws: seq<Weighted>)
    requires TotalValue(ws) != 0.0
    ensures forall i :: 0 <= i < |ws| ==> SplitOf(annual, ws)[i].ref == ws[i].ref
  {
    hide TotalValue, ResidualOf, Awarded, QuotasOf;
    QuotaRefs(annual, ws);
  }

  lemma QuotaRef(ref: Ref, share: real)
    ensures QuotaAt(ref, share).ref == ref
  {
  }

  lemma OneReads()
    ensures ReadDecimal("1") == Some(Decimal(1, 0))
  {
    assert NatText(1) == "1";
    PaddedDigits(1, 1);
    ReadParts(false, "1", "", false);
    assert "" + Parts("1", "", false) == "1";
    assert "1" + "" == "1";
  }

  lemma ThreeReads()
    ensures ReadDecimal("3") == Some(Decimal(3, 0))
  {
    assert NatText(3) == "3";
    PaddedDigits(3, 1);
    ReadParts(false, "3", "", false);
    assert "" + Parts("3", "", false) == "3";
    assert "3" + "" == "3";
  }

  lemma {:induction false} OnesTotal(periods: seq<Ref>, drivers: seq<D.Driver>, k: nat)
    requires drivers == DriversOf(periods, Ones(|periods|)) && Readable(drivers) && k <= |periods|
    ensures SumBy(ValueOf(), ValuesOf(drivers)[..k]) == k as real
    ensures forall i :: 0 <= i < |drivers| ==> WeightOf(drivers[i]).num == 1
  {
    hide ReadDecimal;
    OneReads();
    if k > 0 {
      OnesTotal(periods, drivers, k - 1);
      assert ValuesOf(drivers)[..k][..k - 1] == ValuesOf(drivers)[..k - 1];
    }
  }

  /** Distinct periods with drivers of their own: phased exactly when no driver is
      negative and they do not sum to zero, each period then gets its share of the
      split, and the periods sum to the year. */
  lemma {:induction false} PhasingIsExact(annual: int, periods: seq<Ref>, drivers: seq<D.Driver>, r: PhaseResult)
    requires Readable(drivers) && PhasesBy(annual, periods, drivers, r) && Distinct(periods)
    requires |drivers| == |periods| && forall i :: 0 <= i < |periods| ==> drivers[i].ref == periods[i]
    ensures r.Phased? <==> !HasNegative(drivers) && TotalValue(ValuesOf(drivers)) != 0.0
    ensures r.Phased? ==> r.rows == SplitOf(annual, ValuesOf(drivers)) && SumBy(AmountOf(), r.rows) == annual as real
  {
    hide ReadDecimal, WeightOf, SplitOf, KeyedSplit, Reconciles, TotalValue, LastAmount, HasNegative;
    var ws := ValuesOf(drivers);
    if TotalValue(ws) != 0.0 {
      KeyedIsSplit(annual, ws);
      SplitRefs(annual, ws);
      SplitIsExact(annual, ws);
      var rows, split := PhasedRows(annual, periods, ws), SplitOf(annual, ws);
      hide ValuesOf;
      forall i | 0 <= i < |periods| ensures rows[i] == split[i] { LastAmountDistinct(split, i); }
      assert rows == split;
    }
  }

  /** The whole part of the last share of a reference. */
  ghost function LastFloor(qs: seq<Quota>, ref: Ref): int {
    if qs == [] then 0
    else if qs[|qs| - 1].ref == ref then qs[|qs| - 1].floor
    else LastFloor(qs[..|qs| - 1], ref)
  }

  /** Every row with the whole part of its reference's last share. */
  ghost function LastQuotas(qs: seq<Quota>): (ls: seq<Quota>)
    ensures |ls| == |qs|
    ensures forall i :: 0 <= i < |qs| ==> ls[i] == Quota(qs[i].ref, LastFloor(qs, qs[i].ref), 0.0)
  {
    seq(|qs|, i requires 0 <= i < |qs| => Quota(qs[i].ref, LastFloor(qs, qs[i].ref), 0.0))
  }

  /** What the year gains, or loses when negative, by showing every entry of a period
      with its last one: the whole parts of the shares, last entries against own. */
  ghost function Drift(annual: int, ws: seq<Weighted>): int
    requires TotalValue(ws) != 0.0
  {
    var qs := QuotasOf(annual, TotalValue(ws), ws);
    FloorTotal(LastQuotas(qs)) - FloorTotal(qs)
  }

  /** The last amount of a reference is its last whole part and its bonus unit. */
  lemma {:induction false} LastBuilt(qs: seq<Quota>, bonus: set<Ref>, rows: seq<Row>, i: nat)
    requires BuiltFrom(qs, bonus, rows) && i < |qs|
    ensures LastAmount(rows, qs[i].ref) == LastFloor(qs, qs[i].ref) + if qs[i].ref in bonus then 1 else 0
  {
    var n := |qs| - 1;
    if qs[n].ref != qs[i].ref {
      LastBuilt(qs[..n], bonus, rows[..n], i);
    }
  }

  /** Phased rows miss the year by the drift and by nothing else. */
  lemma {:induction false} PhasedTotal(annual: int, periods: seq<Ref>, ws: seq<Weighted>)
    requires TotalValue(ws) != 0.0 && Reconciles(annual, ws) && |ws| == |periods|
    requires forall i :: 0 <= i < |periods| ==> ws[i].ref == periods[i]
    ensures SumBy(AmountOf(), PhasedRows(annual, periods, ws)) == (annual + Drift(annual, ws)) as real
  {
    var qs := QuotasOf(annual, TotalValue(ws), ws);
    KeyedIsBuilt(annual, ws);
    var bonus := LeadRefs(Sort(RanksUpTo, qs), ResidualOf(annual, qs));
    var rows, phased, ls := KeyedSplit(annual, ws), PhasedRows(annual, periods, ws), LastQuotas(qs);
    QuotaRefs(annual, ws);
    BuiltRows(annual, ws, rows);
    hide QuotasOf, KeyedSplit, Reconciles, LeadRefs, Sort, ResidualOf, FloorTotal, TotalValue, LastAmount, LastFloor,
         QuotaAt;
    BuiltTotal(qs, bonus, rows);
    assert BuiltFrom(ls, bonus, phased) by {
      forall i | 0 <= i < |qs| ensures phased[i].amount == ls[i].floor + if qs[i].ref in bonus then 1 else 0 {
        LastBuilt(qs, bonus, rows, i);
      }
    }
    BuiltTotal(ls, bonus, phased);
    SumByPointwise(Keyed(bonus), ls, Keyed(bonus), qs);
  }

  lemma QuotaRefs(annual: int, ws: seq<Weighted>)
    requires TotalValue(ws) != 0.0
    ensures forall i :: 0 <= i < |ws| ==> QuotasOf(annual, TotalValue(ws), ws)[i].ref == ws[i].ref
  {
    hide TotalValue, QuotaAt;
    var qs := QuotasOf(annual, TotalValue(ws), ws);
    forall i | 0 <= i < |ws| ensures qs[i].ref == ws[i].ref {
      QuotaRef(ws[i].ref, ShareAt(annual, TotalValue(ws), ws[i].value));
    }
  }

  /** Every entry of a period weighs the same. */
  ghost predicate LikeForLike(ws: seq<Weighted>) {
    forall i, j :: 0 <= i < j < |ws| && ws[i].ref == ws[j].ref ==> ws[i].value == ws[j].value
  }

  lemma {:induction false} LastFloorLike(qs: seq<Quota>, i: nat)
    requires i < |qs| && forall j, k :: 0 <= j < k < |qs| && qs[j].ref == qs[k].ref ==> qs[j] == qs[k]
    ensures LastFloor(qs, qs[i].ref) == qs[i].floor
  {
    if i < |qs| - 1 { LastFloorLike(qs[..|qs| - 1], i); }
  }

  lemma {:induction false} SameFloors(qs: seq<Quota>, rs: seq<Quota>)
    requires |qs| == |rs| && forall i :: 0 <= i < |qs| ==> qs[i].floor == rs[i].floor
    ensures FloorTotal(qs) == FloorTotal(rs)
  {
    if qs != [] { SameFloors(qs[..|qs| - 1], rs[..|rs| - 1]); }
  }

  /** Where the entries of each period weigh the same, nothing drifts. */
  lemma {:induction false} LikeNeverDrifts(annual: int, ws: seq<Weighted>)
    requires TotalValue(ws) != 0.0 && LikeForLike(ws)
    ensures Drift(annual, ws) == 0
  {
    var qs := QuotasOf(annual, TotalValue(ws), ws);
    QuotaRefs(annual, ws);
    hide TotalValue, QuotaAt, ShareAt, LastFloor, FloorTotal;
    forall i | 0 <= i < |qs| ensures LastQuotas(qs)[i].floor == qs[i].floor {
      LastFloorLike(qs, i);
    }
    SameFloors(LastQuotas(qs), qs);
  }

  /** Periods phased by drivers of their own, repeated or not: the rows sum to the
      year exactly when the last whole parts of the periods make up the own ones. */
  lemma {:induction false} PhasingSumsExactly(annual: int, periods: seq<Ref>, drivers: seq<D.Driver>, r: PhaseResult)
    requires Readable(drivers) && PhasesBy(annual, periods, drivers, r) && r.Phased?
    requires |drivers| == |periods| && forall i :: 0 <= i < |periods| ==> drivers[i].ref == periods[i]
    ensures TotalValue(ValuesOf(drivers)) != 0.0
    ensures SumBy(AmountOf(), r.rows) == annual as real <==> Drift(annual, ValuesOf(drivers)) == 0
    ensures LikeForLike(ValuesOf(drivers)) ==> SumBy(AmountOf(), r.rows) == annual as real
  {
    hide ReadDecimal, WeightOf, KeyedSplit, Reconciles, TotalValue, HasNegative, Drift, DecimalValue, LikeForLike,
         PhasedRows;
    var ws := ValuesOf(drivers);
    PhasedTotal(annual, periods, ws);
    if LikeForLike(ws) { LikeNeverDrifts(annual, ws); }
  }

  /** A period listed twice with the weights one and three: of four units both of its
      rows show the three of the later entry. */
  lemma {:induction false} RepeatedPeriod(a: Ref)
    ensures var drivers := DriversOf([a, a], ["1", "3"]);
      && Readable(drivers)
      && forall r :: PhasesBy(4, [a, a], drivers, r) <==> r == Phased([Row(a, 3), Row(a, 3)])
  {
    hide ReadDecimal, PhasedRows, Reconciles, TotalValue;
    OneReads();
    ThreeReads();
    var drivers := DriversOf([a, a], ["1", "3"]);
    QuarterValues(drivers);
    assert ValuesOf(drivers) == [Weighted(a, 1.0), Weighted(a, 3.0)];
    hide ValuesOf, HasNegative;
    QuarterSplit(a);
  }

  lemma {:induction false} QuarterValues(drivers: seq<D.Driver>)
    requires |drivers| == 2 && Readable(drivers)
    requires WeightOf(drivers[0]) == Decimal(1, 0) && WeightOf(drivers[1]) == Decimal(3, 0)
    ensures DecimalValue(WeightOf(drivers[0])) == 1.0 && DecimalValue(WeightOf(drivers[1])) == 3.0
    ensures !HasNegative(drivers)
  {
    hide ReadDecimal, WeightOf;
    assert Pow10(0) == 1;
  }

  lemma {:induction false} QuarterSplit(a: Ref)
    ensures var ws := [Weighted(a, 1.0), Weighted(a, 3.0)];
      && TotalValue(ws) == 4.0 && Reconciles(4, ws)
      && PhasedRows(4, [a, a], ws) == [Row(a, 3), Row(a, 3)]
  {
    var ws := [Weighted(a, 1.0), Weighted(a, 3.0)];
    assert ws[..1] == [Weighted(a, 1.0)] && ws[..1][..0] == [];
    assert SumBy(ValueOf(), ws[..1]) == 1.0;
    var qs := QuotasOf(4, 4.0, ws);
    WholeQuota(a, 4.0, 1);
    WholeQuota(a, 4.0, 3);
    assert qs == [Quota(a, 1, 0.0), Quota(a, 3, 0.0)];
    hide QuotasOf, Sort;
    QuarterResidual(a, qs);
    ResidualBounds(4, ws);
    var rows := KeyedSplit(4, ws);
    assert LeadRefs(Sort(RanksUpTo, qs), 0) == {};
    assert rows[0] == Row(a, 1) && rows[1] == Row(a, 3);
    assert rows == [Row(a, 1), Row(a, 3)];
  }

  lemma QuarterResidual(a: Ref, qs: seq<Quota>)
    requires qs == [Quota(a, 1, 0.0), Quota(a, 3, 0.0)]
    ensures ResidualOf(4, qs) == 0
  {
    assert qs[..1] == [Quota(a, 1, 0.0)] && qs[..1][..0] == [];
    assert FloorTotal(qs[..1]) == 1;
  }

  /** A driver's share of a pool that equals the total is the driver itself. */
  lemma WholeQuota(a: Ref, total: real, n: int)
    requires total == 4.0
    ensures QuotaAt(a, ShareAt(4, total, n as real)) == Quota(a, n, 0.0)
  {
    var share := ShareAt(4, total, n as real);
    ShareTimesTotal(4, total, n as real);
    assert share == n as real;
    assert share.Floor == n;
  }

  /** `phase(annual, periods, method, index)`; an absent method or index is None.
      Even phasing sums to the year whenever it phases; seasonal phasing exactly when
      repeated periods do not drift, so always on distinct periods. */
  method Phase(annual: int, periods: seq<Ref>, phasing: Option<Phasing>, index: Option<seq<string>>)
      returns (r: PhaseResult)
    requires phasing == Some(Seasonal) && index.Some? && |index.value| == |periods| ==>
      Readable(DriversOf(periods, index.value))
    ensures phasing.None? <==> r.PhasingMethodUnselected?
    ensures phasing == Some(Seasonal) && (index.None? || |index.value| != |periods|) <==> r.SeasonalIndexNotSupplied?
    ensures phasing == Some(Seasonal) && index.Some? && |index.value| == |periods| ==>
      PhasesBy(annual, periods, DriversOf(periods, index.value), r)
    ensures phasing == Some(Even) ==>
      Readable(DriversOf(periods, Ones(|periods|))) && PhasesBy(annual, periods, DriversOf(periods, Ones(|periods|)), r)
    ensures r.Phased? && phasing == Some(Even) ==> SumBy(AmountOf(), r.rows) == annual as real
    ensures r.Phased? && phasing == Some(Seasonal) ==>
      var ws := ValuesOf(DriversOf(periods, index.value));
      && TotalValue(ws) != 0.0
      && (SumBy(AmountOf(), r.rows) == annual as real <==> Drift(annual, ws) == 0)
      && (LikeForLike(ws) ==> Drift(annual, ws) == 0)
    ensures r.Phased? && Distinct(periods) ==> SumBy(AmountOf(), r.rows) == annual as real
    ensures phasing == Some(Even) && Distinct(periods) ==> (r.Phased? <==> periods != [])
  {
    hide ReadDecimal, WeightOf, TotalValue, PhasesBy, HasNegative, Drift, ValuesOf, LikeForLike;
    if phasing.None? {
      return PhasingMethodUnselected;
    }
    ghost var drivers: seq<D.Driver>;
    if phasing.value.Seasonal? {
      if index.None? || |index.value| != |periods| {
        return SeasonalIndexNotSupplied;
      }
      drivers := DriversOf(periods, index.value);
      r := PhaseBy(annual, periods, DriversOf(periods, index.value));
    } else {
      OneReads();
      drivers := DriversOf(periods, Ones(|periods|));
      r := PhaseBy(annual, periods, DriversOf(periods, Ones(|periods|)));
      OnesAdd(periods, drivers);
      OnesLike(periods, drivers);
      NoneNegative(drivers);
    }
    PhasesAnswers(annual, periods, drivers, r);
    if r.Phased? {
      PhasingSumsExactly(annual, periods, drivers, r);
      if LikeForLike(ValuesOf(drivers)) { LikeNeverDrifts(annual, ValuesOf(drivers)); }
    }
    if Distinct(periods) { PhasingIsExact(annual, periods, drivers, r); }
  }

  lemma PhasesAnswers(annual: int, periods: seq<Ref>, drivers: seq<D.Driver>, r: PhaseResult)
    requires Readable(drivers) && PhasesBy(annual, periods, drivers, r)
    ensures r.Phased? || r.NotAllocated?
  {
    hide TotalValue, ValuesOf, Reconciles, HasNegative;
  }

  lemma NoneNegative(drivers: seq<D.Driver>)
    requires Readable(drivers) && forall i :: 0 <= i < |drivers| ==> WeightOf(drivers[i]).num == 1
    ensures !HasNegative(drivers)
  {
  }

  lemma OnesLike(periods: seq<Ref>, drivers: seq<D.Driver>)
    requires drivers == DriversOf(periods, Ones(|periods|)) && Readable(drivers)
    ensures LikeForLike(ValuesOf(drivers))
  {
    hide ReadDecimal, DecimalValue;
  }

  lemma OnesAdd(periods: seq<Ref>, drivers: seq<D.Driver>)
    requires drivers == DriversOf(periods, Ones(|periods|)) && Readable(drivers)
    ensures TotalValue(ValuesOf(drivers)) == |periods| as real
    ensures forall i :: 0 <= i < |drivers| ==> WeightOf(drivers[i]).num == 1
  {
    OnesTotal(periods, drivers, |periods|);
    assert ValuesOf(drivers)[..|periods|] == ValuesOf(drivers);
  }
}
