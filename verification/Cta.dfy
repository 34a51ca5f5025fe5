/** Currency translation: the CTA by causes, and its proof against the balance sheet
    (paragraphs 39-41 of IAS 21). */
module Cta {
  import opened Options
  import opened BigInts
  import opened ExactRational
  import opened Rounding

  datatype Averaging = SimpleMean | OpenCloseMean | WeightedMean

  datatype RateSet = RateSet(
    closing: Rational,
    opening: Rational,
    average: Option<Rational>,
    historical: map<string, Rational>)

  datatype Tranche = Tranche(ref: string, amount: int)

  datatype Translation = Translation(
    openingNetAssets: int,
    result: int,
    tranches: seq<Tranche>,
    rates: RateSet,
    averaging: Option<Averaging>)

  datatype CtaRefusal =
    | AveragingUndeclared
    | AverageRateMissing
    | TrancheUnregistered(ref: string)
    | ProofFailed(byCauses: int, byBalanceSheet: int)

  datatype CtaResult = CtaResult(translatedResult: int, ctaArising: int, openingTerm: int, resultTerm: int,
                                 equityTerm: int)

  datatype Outcome = Ok(value: CtaResult) | Refused(refusal: CtaRefusal)

  const HALF: Rational := Rational.Rational(1, 2)

  /** `applyRate(minor, rate)`. */
  function ApplyRate(minor: int, rate: Rational): int {
    DivideAndRound(minor * rate.num, rate.den, HalfEven)
  }

  /** The rate for the result: the declared mean, or none when it was not supplied. */
  function ResultRate(a: Averaging, rates: RateSet): Option<Rational> {
    match a
    case OpenCloseMean => Some(RMul(RAdd(rates.opening, rates.closing), HALF))
    case SimpleMean => rates.average
    case WeightedMean => rates.average
  }

  /** The first tranche without a historical rate. */
  ghost predicate FirstMissing(tranches: seq<Tranche>, historical: map<string, Rational>, ref: string) {
    && ref !in historical
    && exists k ::
      && 0 <= k < |tranches| && tranches[k].ref == ref
      && (forall j :: 0 <= j < k ==> tranches[j].ref in historical)
  }

  /** The tranche loop: each term is the amount at its historical rate less itself. */
  method EquityTerm(tranches: seq<Tranche>, historical: map<string, Rational>) returns (term: int,
                    missing: Option<string>)
    ensures missing.None? <==> forall t :: t in tranches ==> t.ref in historical
    ensures missing.None? ==> term == 0
    ensures missing.Some? ==> FirstMissing(tranches, historical, missing.value)
  {
    hide ApplyRate;
    term := 0;
    for k := 0 to |tranches|
      invariant term == 0
      invariant forall j :: 0 <= j < k ==> tranches[j].ref in historical
    {
      var tranche := tranches[k];
      if tranche.ref !in historical { return term, Some(tranche.ref); }
      var rate := historical[tranche.ref];
      term := term + (ApplyRate(tranche.amount, rate) - ApplyRate(tranche.amount, rate));
    }
    missing := None;
  }

  // ----------------------------------------------------------------- the proof gap

  /** Half-even rounding at `rate` is additive on the two amounts. */
  ghost predicate Additive(a: int, b: int, rate: Rational) {
    ApplyRate(a + b, rate) == ApplyRate(a, rate) + ApplyRate(b, rate)
  }

  lemma SmallMultiple(g: int, den: int)
    requires den > 0 && -3 * den <= 2 * (g * den) <= 3 * den
    ensures -1 <= g <= 1
  {
    if g > 1 { Gap(g, 1, den); }
    if g < -1 { Gap(-1, g, den); }
  }

  lemma Differences(s: int, p: int, q: int, den: int)
    ensures (s - (p + q)) * den == s * den - p * den - q * den
  {
  }

  /** An amount at a rate is rounded to the nearest. */
  lemma RateNearest(a: int, rate: Rational)
    ensures Nearest(a * rate.num, rate.den, ApplyRate(a, rate) * rate.den)
  {
    DivideAndRoundMeets(a * rate.num, rate.den, HalfEven);
    hide DivideAndRound, Nearest;
  }

  lemma NearestSum(x: int, y: int, den: int, p: int, q: int, s: int)
    requires Nearest(x, den, p) && Nearest(y, den, q) && Nearest(x + y, den, s)
    ensures -3 * den <= 2 * (s - p - q) <= 3 * den
  {
  }

  lemma ProductSum(a: int, b: int, n: int)
    ensures (a + b) * n == a * n + b * n
  {
  }

  /** Rounding a sum and summing the roundings differ by at most one unit. */
  lemma AdditiveWithinOne(a: int, b: int, rate: Rational)
    ensures -1 <= ApplyRate(a + b, rate) - (ApplyRate(a, rate) + ApplyRate(b, rate)) <= 1
  {
    hide ApplyRate, Nearest;
    RateNearest(a, rate);
    RateNearest(b, rate);
    RateNearest(a + b, rate);
    ProductSum(a, b, rate.num);
    var p, q, s := ApplyRate(a, rate), ApplyRate(b, rate), ApplyRate(a + b, rate);
    NearestSum(a * rate.num, b * rate.num, rate.den, p * rate.den, q * rate.den, s * rate.den);
    Differences(s, p, q, rate.den);
    SmallMultiple(s - (p + q), rate.den);
  }

  /** At a whole rate nothing is rounded, and the sides always agree. */
  lemma WholeRateIsAdditive(a: int, b: int, rate: Rational)
    requires rate.den == 1
    ensures Additive(a, b, rate)
  {
    WholeQuotient(a * rate.num, 1, HalfEven);
    WholeQuotient(b * rate.num, 1, HalfEven);
    WholeQuotient((a + b) * rate.num, 1, HalfEven);
    hide DivideAndRound;
    assert a * rate.num * 1 == a * rate.num && b * rate.num * 1 == b * rate.num;
    assert (a + b) * rate.num == a * rate.num + b * rate.num;
  }

  // ---------------------------------------------------------------- the operation

  ghost predicate RatesComplete(t: Translation) {
    && t.averaging.Some?
    && ResultRate(t.averaging.value, t.rates).Some?
    && forall x :: x in t.tranches ==> x.ref in t.rates.historical
  }

  /** What the balance sheet says the CTA is: the closing net assets at the closing
      rate, less the opening ones and the result at theirs. */
  ghost function BalanceSheetCta(t: Translation): int
    requires RatesComplete(t)
  {
    ApplyRate(t.openingNetAssets + t.result, t.rates.closing)
      - (ApplyRate(t.openingNetAssets, t.rates.opening)
         + ApplyRate(t.result, ResultRate(t.averaging.value, t.rates).value))
  }

  predicate OneApart(a: int, b: int) {
    a - b == 1 || b - a == 1
  }

  /** `translateAndProveCta(input)`: with all rates it answers exactly when rounding
      is additive at the closing rate, and then with the balance sheet's figure; it
      refuses with two figures exactly one unit apart otherwise. */
  method TranslateAndProveCta(t: Translation) returns (r: Outcome)
    ensures t.averaging.None? <==> r == Refused(AveragingUndeclared)
    ensures r == Refused(AverageRateMissing) <==>
      t.averaging.Some? && t.averaging != Some(OpenCloseMean) && t.rates.average.None?
    ensures r.Refused? && r.refusal.TrancheUnregistered? ==> FirstMissing(t.tranches, t.rates.historical, r.refusal.ref)
    ensures RatesComplete(t) <==> r.Ok? || r.refusal.ProofFailed?
    ensures r.Ok? <==> RatesComplete(t) && Additive(t.openingNetAssets, t.result, t.rates.closing)
    ensures r.Ok? ==> r.value.ctaArising == BalanceSheetCta(t)
    ensures r.Ok? ==>
      r.value.ctaArising == r.value.openingTerm + r.value.resultTerm + r.value.equityTerm && r.value.equityTerm == 0
    ensures r.Ok? ==>
      var o, rates := t.openingNetAssets, t.rates;
      r.value.openingTerm == ApplyRate(o, rates.closing) - ApplyRate(o, rates.opening)
    ensures r.Ok? ==> r.value.translatedResult == ApplyRate(t.result, t.rates.closing) - r.value.resultTerm
    ensures r.Ok? ==> r.value.translatedResult == ApplyRate(t.result, ResultRate(t.averaging.value, t.rates).value)
    ensures RatesComplete(t) && t.averaging != Some(OpenCloseMean) ==>
      t.rates.average.Some? && ResultRate(t.averaging.value, t.rates) == t.rates.average
    ensures r.Ok? && t.averaging != Some(OpenCloseMean) ==>
      r.value.translatedResult == ApplyRate(t.result, t.rates.average.value)
    ensures r.Ok? && t.averaging == Some(OpenCloseMean) ==>
      exists mean :: Val(mean) == (Val(t.rates.opening) + Val(t.rates.closing)) / 2.0
        && r.value.translatedResult == ApplyRate(t.result, mean)
    ensures r.Refused? && r.refusal.ProofFailed? ==> OneApart(r.refusal.byBalanceSheet, r.refusal.byCauses)
    ensures r.Refused? && r.refusal.ProofFailed? ==> r.refusal.byBalanceSheet == BalanceSheetCta(t)
  {
    hide ApplyRate;
    OpenCloseMeanIsMean(t.rates);
    if t.averaging.None? { return Refused(AveragingUndeclared); }
    var resultRate := ResultRate(t.averaging.value, t.rates);
    if resultRate.None? { return Refused(AverageRateMissing); }
    var equityTerm, missing := EquityTerm(t.tranches, t.rates.historical);
    if missing.Some? { return Refused(TrancheUnregistered(missing.value)); }
    var closing, opening := t.rates.closing, t.rates.opening;
    var openingTerm := ApplyRate(t.openingNetAssets, closing) - ApplyRate(t.openingNetAssets, opening);
    var resultTerm := ApplyRate(t.result, closing) - ApplyRate(t.result, resultRate.value);
    var ctaArising := openingTerm + resultTerm + equityTerm;
    var closingNetAssets := t.openingNetAssets + t.result;
    var balanceSheetSide := ApplyRate(closingNetAssets, closing)
      - (ApplyRate(t.openingNetAssets, opening) + ApplyRate(t.result, resultRate.value));
    AdditiveWithinOne(t.openingNetAssets, t.result, closing);
    if balanceSheetSide != ctaArising {
      return Refused(ProofFailed(ctaArising, balanceSheetSide));
    }
    r := Ok(CtaResult(ApplyRate(t.result, resultRate.value), ctaArising, openingTerm, resultTerm, equityTerm));
  }

  // ------------------------------------------------------------------ how near it is

  /** A rounded amount lies within half a unit of the exact one. */
  lemma ApplyRateNear(minor: int, rate: Rational)
    ensures -0.5 <= ApplyRate(minor, rate) as real - minor as real * Val(rate) <= 0.5
  {
    hide ApplyRate;
    RateNearest(minor, rate);
    var q := ApplyRate(minor, rate);
    MulReal(minor, rate.num);
    MulReal(q, rate.den);
    HalfAway(minor as real, rate.num as real, rate.den as real, q as real);
  }

  lemma QuotientBack(m: real, num: real, den: real)
    requires den > 0.0
    ensures (m * (num / den)) * den == m * num
  {
    assert (num / den) * den == num;
  }

  lemma HalfAway(m: real, num: real, den: real, q: real)
    requires den > 0.0 && -den <= 2.0 * (m * num - q * den) <= den
    ensures -0.5 <= q - m * (num / den) <= 0.5
  {
    QuotientBack(m, num, den);
    var e := q - m * (num / den);
    assert e * den == q * den - m * num;
    ScaledBound(e, den);
  }

  lemma ScaledBound(e: real, den: real)
    requires den > 0.0 && -0.5 * den <= e * den <= 0.5 * den
    ensures -0.5 <= e <= 0.5
  {
    assert (e * den) / den == e && (0.5 * den) / den == 0.5;
  }

  ghost function Exact(minor: int, rate: Rational): real {
    minor as real * Val(rate)
  }

  /** The causes, exactly: opening net assets by the move of the rate, the result by its
      rate gap. */
  ghost function Causes(o: int, p: int, c: Rational, n: Rational, a: Rational): real {
    o as real * (Val(c) - Val(n)) + p as real * (Val(c) - Val(a))
  }

  /** A proved CTA lies within one and a half units of the exact sum of its causes. */
  lemma CtaIsNear(t: Translation)
    requires RatesComplete(t)
    ensures var exact := Causes(t.openingNetAssets, t.result, t.rates.closing, t.rates.opening,
                                ResultRate(t.averaging.value, t.rates).value);
      -1.5 <= BalanceSheetCta(t) as real - exact <= 1.5
  {
    hide ApplyRate, Val, ResultRate, Exact, Causes;
    var o, p, c, n := t.openingNetAssets, t.result, t.rates.closing, t.rates.opening;
    var a := ResultRate(t.averaging.value, t.rates).value;
    ApplyRateWithin(o + p, c);
    ApplyRateWithin(o, n);
    ApplyRateWithin(p, a);
    ExactCauses(o, p, c, n, a);
  }

  lemma ApplyRateWithin(minor: int, rate: Rational)
    ensures Exact(minor, rate) - 0.5 <= ApplyRate(minor, rate) as real <= Exact(minor, rate) + 0.5
  {
    hide ApplyRate, Val;
    ApplyRateNear(minor, rate);
  }

  lemma ExactCauses(o: int, p: int, c: Rational, n: Rational, a: Rational)
    ensures Causes(o, p, c, n, a) == Exact(o + p, c) - (Exact(o, n) + Exact(p, a))
  {
    hide Val;
    GapTimes(o as real, Val(c), Val(n));
    GapTimes(p as real, Val(c), Val(a));
    SumTimes(o as real, p as real, Val(c));
    assert (o + p) as real == o as real + p as real;
  }

  lemma GapTimes(m: real, c: real, n: real)
    ensures m * (c - n) == m * c - m * n
  {
  }

  lemma SumTimes(o: real, p: real, c: real)
    ensures (o + p) * c == o * c + p * c
  {
  }

  /** A translated amount is the exact one rounded half to even. */
  lemma ApplyRateRounds(minor: int, rate: Rational)
    ensures RoundsTo(minor * rate.num, rate.den, HalfEven, ApplyRate(minor, rate))
  {
    DivideAndRoundMeets(minor * rate.num, rate.den, HalfEven);
    hide DivideAndRound, RoundsTo;
  }

  /** The open-close mean is the mean. */
  lemma OpenCloseMeanIsMean(rates: RateSet)
    ensures Val(ResultRate(OpenCloseMean, rates).value) == (Val(rates.opening) + Val(rates.closing)) / 2.0
  {
    assert Val(HALF) == 0.5;
    hide Val, RAdd, RMul;
  }

  /** The proof can fail on correct inputs, in either direction: two amounts of one
      minor unit at the rates one half and three halves. */
  lemma ProofCanFail()
    ensures var half := Rational.Rational(1, 2);
      ApplyRate(1 + 1, half) - (ApplyRate(1, half) + ApplyRate(1, half)) == 1
    ensures var threeHalves := Rational.Rational(3, 2);
      ApplyRate(1 + 1, threeHalves) - (ApplyRate(1, threeHalves) + ApplyRate(1, threeHalves)) == -1
  {
  }
}
