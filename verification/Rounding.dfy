/** Integer division under the seven named rounding modes. */
module Rounding {
  import opened BigInts
  import opened ExactRational

  datatype Mode = HalfUp | HalfDown | HalfEven | Up | Down | Ceiling | Floor

  /** Whether a non-zero remainder carries the magnitude up to the next unit. */
  predicate RoundsUp(mode: Mode, negative: bool, remainder: int, denominator: int, odd: bool) {
    var doubled := remainder * 2;
    match mode
    case Up => true
    case Down => false
    case Ceiling => !negative
    case Floor => negative
    case HalfUp => doubled >= denominator
    case HalfDown => doubled > denominator
    case HalfEven => doubled > denominator || (doubled == denominator && odd)
  }

  /** `divideAndRound(numerator, denominator, mode)`; a denominator that is not
      positive throws. */
  function DivideAndRound(numerator: int, denominator: int, mode: Mode): int
    requires denominator > 0
  {
    var negative := numerator < 0;
    var absNum := Abs(numerator);
    var quotient := absNum / denominator;
    var remainder := absNum % denominator;
    if remainder == 0 then
      if negative then -quotient else quotient
    else
      var roundUp := RoundsUp(mode, negative, remainder, denominator, quotient % 2 == 1);
      var rounded := if roundUp then quotient + 1 else quotient;
      if negative then -rounded else rounded
  }

  // ------------------------------------------------------- what the modes mean

  // `m` is the candidate multiple q * den.

  ghost predicate FloorsTo(num: int, den: int, m: int) {
    m <= num < m + den
  }

  ghost predicate CeilsTo(num: int, den: int, m: int) {
    m - den < num <= m
  }

  /** No multiple is nearer. */
  ghost predicate Nearest(num: int, den: int, m: int) {
    -den <= 2 * (num - m) <= den
  }

  ghost predicate Tie(num: int, den: int, m: int) {
    2 * (num - m) == den || 2 * (num - m) == -den
  }

  ghost predicate RoundsAt(num: int, den: int, mode: Mode, m: int, even: bool) {
    match mode
    case Floor => FloorsTo(num, den, m)
    case Ceiling => CeilsTo(num, den, m)
    case Down => if num >= 0 then FloorsTo(num, den, m) else CeilsTo(num, den, m)
    case Up => if num >= 0 then CeilsTo(num, den, m) else FloorsTo(num, den, m)
    case HalfUp => Nearest(num, den, m) && (Tie(num, den, m) ==> if num >= 0 then m > num else m < num)
    case HalfDown => Nearest(num, den, m) && (Tie(num, den, m) ==> if num >= 0 then m < num else m > num)
    case HalfEven => Nearest(num, den, m) && (Tie(num, den, m) ==> even)
  }

  /** The definition of each mode, with no reference to how it is computed. */
  ghost predicate RoundsTo(num: int, den: int, mode: Mode, q: int) {
    RoundsAt(num, den, mode, q * den, q % 2 == 0)
  }

  lemma MeetsAt(num: int, den: int, mode: Mode, base: int, r: int, odd: bool)
    requires den > 0 && 0 <= r < den && base >= 0 && Abs(num) == base + r
    ensures
      var up := r != 0 && RoundsUp(mode, num < 0, r, den, odd);
      var m := if up then base + den else base;
      RoundsAt(num, den, mode, if num < 0 then -m else m, up == odd)
  {
  }

  /** The division meets the definition of its mode. */
  lemma DivideAndRoundMeets(num: int, den: int, mode: Mode)
    requires den > 0
    ensures RoundsTo(num, den, mode, DivideAndRound(num, den, mode))
  {
    hide RoundsAt, RoundsUp;
    QuotientAndRest(Abs(num), den);
    var q, r := Abs(num) / den, Abs(num) % den;
    hide RoundsTo;
    MeetsFrom(num, den, mode, q, r);
    RoundedMagnitude(num, den, mode);
  }

  lemma QuotientAndRest(a: nat, den: int)
    requires den > 0
    ensures a == (a / den) * den + a % den && 0 <= a % den < den && a / den >= 0
  {
  }

  lemma RoundedMagnitude(num: int, den: int, mode: Mode)
    requires den > 0
    ensures var q, r := Abs(num) / den, Abs(num) % den;
      var rounded := if r != 0 && RoundsUp(mode, num < 0, r, den, q % 2 == 1) then q + 1 else q;
      DivideAndRound(num, den, mode) == if num < 0 then -rounded else rounded
  {
    hide RoundsUp;
  }

  lemma MeetsFrom(num: int, den: int, mode: Mode, q: nat, r: int)
    requires den > 0 && 0 <= r < den && Abs(num) == q * den + r
    ensures
      var rounded := if r != 0 && RoundsUp(mode, num < 0, r, den, q % 2 == 1) then q + 1 else q;
      RoundsTo(num, den, mode, if num < 0 then -rounded else rounded)
  {
    var up := r != 0 && RoundsUp(mode, num < 0, r, den, q % 2 == 1);
    MulBounds(q, den);
    SignedMultiple(q, den, up, num < 0);
    SignedParity(q, up, num < 0);
    hide RoundsAt, RoundsUp, Abs;
    MeetsAt(num, den, mode, q * den, r, q % 2 == 1);
  }

  lemma SignedMultiple(q: int, den: int, up: bool, negative: bool)
    ensures var rounded, m := if up then q + 1 else q, if up then q * den + den else q * den;
      (if negative then -rounded else rounded) * den == if negative then -m else m
  {
    SignedMultiples(q, den);
  }

  lemma SignedParity(q: int, up: bool, negative: bool)
    ensures var rounded := if up then q + 1 else q;
      (if negative then -rounded else rounded) % 2 == 0 <==> (up <==> q % 2 == 1)
  {
  }

  lemma SignedMultiples(q: int, den: int)
    ensures (-q) * den == -(q * den)
    ensures (q + 1) * den == q * den + den
    ensures (-(q + 1)) * den == -(q * den) - den
  {
  }

  lemma Gap(q: int, p: int, den: int)
    requires den > 0 && q > p
    ensures q * den >= p * den + den
  {
    MulBounds(q - p, den);
    assert (q - p) * den == q * den - p * den;
  }

  lemma NoInversion(num: int, num': int, den: int, mode: Mode, m: int, m': int, even: bool, even': bool)
    requires den > 0 && num <= num' && (m == m' + den ==> !(even && even'))
    requires (m < den ==> m <= 0) && (m' > -den ==> m' >= 0)
    requires RoundsAt(num, den, mode, m, even) && RoundsAt(num', den, mode, m', even')
    ensures m < m' + den
  {
  }

  /** A mode's definition never orders results against their arguments, and so
      leaves no choice. */
  lemma RoundsToMonotone(num: int, num': int, den: int, mode: Mode, q: int, q': int)
    requires den > 0 && num <= num'
    requires RoundsTo(num, den, mode, q) && RoundsTo(num', den, mode, q')
    ensures q <= q'
  {
    hide RoundsAt;
    if q > q' {
      Gap(q, q', den);
      if q > q' + 1 {
        Gap(q, q' + 1, den);
        SignedMultiples(q', den);
      }
      MulBounds(q, den);
      MulBounds(q', den);
      NoInversion(num, num', den, mode, q * den, q' * den, q % 2 == 0, q' % 2 == 0);
    }
  }

  lemma DivideAndRoundIs(num: int, den: int, mode: Mode, q: int)
    requires den > 0 && RoundsTo(num, den, mode, q)
    ensures DivideAndRound(num, den, mode) == q
  {
    DivideAndRoundMeets(num, den, mode);
    hide RoundsTo, DivideAndRound;
    RoundsToMonotone(num, num, den, mode, q, DivideAndRound(num, den, mode));
    RoundsToMonotone(num, num, den, mode, DivideAndRound(num, den, mode), q);
  }

  lemma DivideAndRoundMonotone(num: int, num': int, den: int, mode: Mode)
    requires den > 0 && num <= num'
    ensures DivideAndRound(num, den, mode) <= DivideAndRound(num', den, mode)
  {
    DivideAndRoundMeets(num, den, mode);
    DivideAndRoundMeets(num', den, mode);
    RoundsToMonotone(num, num', den, mode, DivideAndRound(num, den, mode), DivideAndRound(num', den, mode));
  }

  /** Whole quotients are not rounded. */
  lemma WholeQuotient(q: int, den: int, mode: Mode)
    requires den > 0
    ensures DivideAndRound(q * den, den, mode) == q
  {
    DivideAndRoundIs(q * den, den, mode, q);
  }

  /** Half-even is symmetric about zero. */
  lemma HalfEvenSymmetric(num: int, den: int)
    requires den > 0
    ensures DivideAndRound(-num, den, HalfEven) == -DivideAndRound(num, den, HalfEven)
  {
    var q := DivideAndRound(num, den, HalfEven);
    DivideAndRoundMeets(num, den, HalfEven);
    SignedMultiples(q, den);
    DivideAndRoundIs(-num, den, HalfEven, -q);
  }

  /** Only the ratio matters: a common factor changes no mode's result. */
  lemma CommonFactorIrrelevant(num: int, den: int, k: int, mode: Mode)
    requires den > 0 && k > 0
    ensures den * k > 0 && DivideAndRound(num * k, den * k, mode) == DivideAndRound(num, den, mode)
  {
    var q := DivideAndRound(num, den, mode);
    DivideAndRoundMeets(num, den, mode);
    MulBounds(den, k);
    ScaledComparisons(num, den, k, q);
    DivideAndRoundIs(num * k, den * k, mode, q);
  }

  lemma ScaledComparisons(num: int, den: int, k: int, q: int)
    requires den > 0 && k > 0
    ensures var d, e := num - q * den, num * k - q * (den * k);
      && e == d * k
      && (d < 0 <==> e < 0) && (d == 0 <==> e == 0)
      && (d < den <==> e < den * k) && (-den < d <==> -(den * k) < e)
      && (2 * d == den <==> 2 * e == den * k) && (2 * d == -den <==> 2 * e == -(den * k))
      && (2 * d <= den <==> 2 * e <= den * k) && (-den <= 2 * d <==> -(den * k) <= 2 * e)
      && (num >= 0 <==> num * k >= 0)
  {
    var d := num - q * den;
    ScaledDistance(num, q, den, k);
    SameSign(d, k);
    SameSign(num, k);
    ScaledOrder(d, 1, den, k);
    ScaledOrder(d, -1, den, k);
    ScaledOrder(d, 2, den, k);
    ScaledOrder(d, -2, den, k);
  }

  lemma ScaledDistance(num: int, q: int, den: int, k: int)
    ensures num * k - q * (den * k) == (num - q * den) * k
  {
    assert q * (den * k) == (q * den) * k;
  }

  /** Scaling keeps how c * d compares with den, c being one or two of either sign. */
  lemma ScaledOrder(d: int, c: int, den: int, k: int)
    requires k > 0
    ensures (c * d < den <==> c * (d * k) < den * k) && (c * d == den <==> c * (d * k) == den * k)
  {
    SameSign(c * d - den, k);
    ScaledDifference(d, c, den, k);
  }

  lemma ScaledDifference(d: int, c: int, den: int, k: int)
    ensures (c * d - den) * k == c * (d * k) - den * k
  {
    assert (c * d) * k == c * (d * k);
  }

  lemma SameSign(d: int, k: int)
    requires k > 0
    ensures (d < 0 <==> d * k < 0) && (d == 0 <==> d * k == 0)
  {
    MulBounds(d, k);
  }

  // ------------------------------------------- the other two half-even roundings

  /** BillingIQ's `roundHalfEven(r)`: floor first, then twice the remainder. */
  function RoundHalfEven(r: Rational): int {
    var q := TruncDiv(r.num, r.den);
    var floor := if TruncRem(r.num, r.den) != 0 && r.num < 0 then q - 1 else q;
    var twiceRemainder := 2 * (r.num - floor * r.den);
    if twiceRemainder < r.den then floor
    else if twiceRemainder > r.den then floor + 1
    else if TruncRem(floor, 2) == 0 then floor else floor + 1
  }

  /** The quotient of the decimal printer: truncate, then step away from zero. */
  function PrintedQuotient(num: int, den: int, scale: int): int
    requires den > 0
  {
    var scaled := num * scale;
    var quotient := TruncDiv(scaled, den);
    var remainder := TruncRem(scaled, den);
    var doubled := Abs(remainder) * 2;
    var odd := TruncRem(quotient, 2) == 1 || TruncRem(quotient, 2) == -1;
    if doubled > den || (doubled == den && odd) then
      quotient + (if quotient < 0 || (quotient == 0 && num < 0) then -1 else 1)
    else quotient
  }

  lemma TruncParts(a: int, b: int)
    requires b > 0
    ensures a == TruncDiv(a, b) * b + TruncRem(a, b)
    ensures -b < TruncRem(a, b) < b
    ensures a >= 0 ==> TruncRem(a, b) >= 0 && TruncDiv(a, b) >= 0
    ensures a < 0 ==> TruncRem(a, b) <= 0 && TruncDiv(a, b) <= 0
  {
    var q := Abs(a) / b;
    assert Abs(a) == q * b + Abs(a) % b;
    assert (-q) * b == -(q * b);
    MulBounds(q, b);
  }

  lemma TruncParity(a: int)
    ensures TruncRem(a, 2) == 0 <==> a % 2 == 0
    ensures TruncRem(a, 2) == 1 || TruncRem(a, 2) == -1 <==> a % 2 != 0
  {
    TruncParts(a, 2);
  }

  /** All three half-even roundings return the same whole number. */
  lemma BillingRoundsTheSame(r: Rational)
    ensures RoundHalfEven(r) == DivideAndRound(r.num, r.den, HalfEven)
  {
    TruncParts(r.num, r.den);
    var q := TruncDiv(r.num, r.den);
    SignedMultiples(q - 1, r.den);
    var floor := if TruncRem(r.num, r.den) != 0 && r.num < 0 then q - 1 else q;
    TruncParity(floor);
    NearerOfTwo(r.num, r.den, floor, RoundHalfEven(r)) by { hide TruncDiv, TruncRem; }
    DivideAndRoundIs(r.num, r.den, HalfEven, RoundHalfEven(r)) by { hide *; }
  }

  /** The nearer of a floor and the next whole number, the even one on a tie. */
  lemma NearerOfTwo(num: int, den: int, floor: int, q: int)
    requires den > 0 && 0 <= num - floor * den < den
    requires var twice := 2 * (num - floor * den);
      q == (if twice < den then floor
            else if twice > den then floor + 1
            else if floor % 2 == 0 then floor else floor + 1)
    ensures RoundsTo(num, den, HalfEven, q)
  {
    SignedMultiples(floor, den);
  }

  lemma PrinterRoundsTheSame(num: int, den: int, scale: int)
    requires den > 0 && scale > 0
    ensures PrintedQuotient(num, den, scale) == DivideAndRound(num * scale, den, HalfEven)
  {
    var scaled := num * scale;
    SameSign(num, scale);
    TruncParts(scaled, den);
    var q := TruncDiv(scaled, den);
    TruncParity(q);
    SignedMultiples(q, den);
    SignedMultiples(q - 1, den);
    if q < 0 { MulBounds(q, den); }
    DivideAndRoundIs(scaled, den, HalfEven, PrintedQuotient(num, den, scale));
  }
}
