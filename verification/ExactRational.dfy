/** The runtime's `bigint` division: quotients truncate toward zero and a
    remainder has the dividend's sign. */
module BigInts {

  function Abs(a: int): nat {
    if a < 0 then -a else a
  }

  function TruncDiv(a: int, b: int): int
    requires b != 0
  {
    if (a < 0) == (b < 0) then Abs(a) / Abs(b) else -(Abs(a) / Abs(b))
  }

  function TruncRem(a: int, b: int): int
    requires b != 0
  {
    a - b * TruncDiv(a, b)
  }

  function Pow10(n: nat): (r: int)
    ensures r >= 1
  {
    if n == 0 then 1 else 10 * Pow10(n - 1)
  }

  lemma TenTimes(p: int, q: int)
    ensures 10 * (p * q) == (10 * p) * q
  {
  }

  lemma {:induction false} Pow10Add(a: nat, b: nat)
    ensures Pow10(a + b) == Pow10(a) * Pow10(b)
  {
    if a > 0 {
      Pow10Add(a - 1, b);
      TenTimes(Pow10(a - 1), Pow10(b));
    }
  }

  /** Exact division undoes multiplication, whatever the signs. */
  lemma ExactDivision(q: int, b: int)
    requires b > 0
    ensures TruncDiv(q * b, b) == q
  {
    var k := Abs(q);
    assert Abs(q * b) == k * b by {
      assert q < 0 ==> q * b == -(k * b);
      assert k * b >= 0;
    }
    assert (k * b) / b == k by { DivUnique(k * b, b, k, 0); }
    MulBounds(q, b);
  }

  lemma MulBounds(d: int, b: int)
    requires b >= 0
    ensures d >= 1 ==> d * b >= b
    ensures d <= -1 ==> d * b <= -b
    ensures d >= 0 ==> d * b >= 0
  {
    assert d * b == b + (d - 1) * b;
    assert d * b == (d + 1) * b - b;
  }

  lemma DivUnique(a: int, b: int, q: int, r: int)
    requires b > 0 && a == q * b + r && 0 <= r < b
    ensures a / b == q && a % b == r
  {
    var q', r' := a / b, a % b;
    assert a == q' * b + r' && 0 <= r' < b;
    QuotientUnique(b, q, r, q', r');
  }

  lemma QuotientUnique(b: int, q: int, r: int, q': int, r': int)
    requires b > 0 && 0 <= r < b && 0 <= r' < b && q * b + r == q' * b + r'
    ensures q == q' && r == r'
  {
    var d := q' - q;
    assert d * b == q' * b - q * b == r - r';
    MulBounds(d, b);
  }

  lemma MulCancel(a: int, b: int, c: int)
    requires c != 0 && a * c == b * c
    ensures a == b
  {
    var d := a - b;
    assert d * c == a * c - b * c;
    assert d * -c == -(d * c);
    MulBounds(d, Abs(c));
  }

  lemma {:induction false} MulReal(x: int, y: int)
    ensures (x * y) as real == x as real * y as real
    decreases Abs(y)
  {
    if y > 0 {
      MulReal(x, y - 1);
      assert x * y == x * (y - 1) + x;
      assert (y as real) == ((y - 1) as real) + 1.0;
      assert x as real * y as real == x as real * (y - 1) as real + x as real;
    } else if y < 0 {
      MulReal(x, y + 1);
      assert x * y == x * (y + 1) - x;
      assert (y as real) == ((y + 1) as real) - 1.0;
      assert x as real * y as real == x as real * (y + 1) as real - x as real;
    }
  }
}

/** Exact rational arithmetic over unbounded integers. */
module ExactRational {
  import opened BigInts

  datatype RawRational = Rational(num: int, den: int)
  type Rational = r: RawRational | r.den > 0 witness Rational.Rational(0, 1)

  // --------------------------------------------------------------------- gcd

  /** Euclid's recursion, the meaning of the loop in `gcd`. */
  function Euclid(x: nat, y: nat): (g: nat)
    ensures x > 0 || y > 0 ==> g > 0
    decreases y
  {
    if y == 0 then x else Euclid(y, x % y)
  }

  /** `gcd(a, b)`: non-negative, and one when both arguments are zero. */
  function Gcd(a: int, b: int): (g: int)
    ensures g > 0
  {
    var g := Euclid(Abs(a), Abs(b));
    if g == 0 then 1 else g
  }

  method GcdLoop(a: int, b: int) returns (g: int)
    ensures g == Gcd(a, b)
  {
    var x: nat := if a < 0 then -a else a;
    var y: nat := if b < 0 then -b else b;
    while y != 0
      invariant Euclid(x, y) == Euclid(Abs(a), Abs(b))
      decreases y
    {
      var t := x % y;
      x := y;
      y := t;
    }
    g := if x == 0 then 1 else x;
  }

  ghost predicate Divides(d: int, a: int) {
    exists k: int :: a == d * k
  }

  lemma DividesSum(d: int, a: int, b: int, q: int)
    requires Divides(d, a) && Divides(d, b)
    ensures Divides(d, a + q * b)
  {
    var k :| a == d * k;
    var l :| b == d * l;
    assert a + q * b == d * (k + q * l) by {
      assert q * (d * l) == d * (q * l);
    }
  }

  lemma DividesNegated(d: int, a: int)
    requires Divides(d, a)
    ensures Divides(d, -a)
  {
    var k :| a == d * k;
    assert -a == d * -k;
  }

  /** Euclid's result divides both arguments ... */
  lemma {:induction false} EuclidDivides(x: nat, y: nat)
    ensures Divides(Euclid(x, y), x) && Divides(Euclid(x, y), y)
    decreases y
  {
    var g := Euclid(x, y);
    if y == 0 {
      assert x == g * 1 && y == g * 0;
    } else {
      EuclidDivides(y, x % y);
      DividesDividend(g, x, y);
    }
  }

  lemma DividesDividend(g: int, x: nat, y: nat)
    requires y > 0 && Divides(g, y) && Divides(g, x % y)
    ensures Divides(g, x)
  {
    DividesSum(g, x % y, y, x / y);
    assert x == x % y + (x / y) * y;
  }

  /** ... and is an integer combination of them, so every common divisor divides it. */
  lemma {:induction false} EuclidBezout(x: nat, y: nat) returns (u: int, v: int)
    ensures u * x + v * y == Euclid(x, y)
    decreases y
  {
    if y == 0 {
      u, v := 1, 0;
    } else {
      var u', v' := EuclidBezout(y, x % y);
      BezoutStep(x, y, x / y, x % y, u', v');
      u, v := v', u' - v' * (x / y);
    }
  }

  lemma BezoutStep(x: int, y: int, q: int, r: int, u: int, v: int)
    requires x == r + q * y
    ensures v * x + (u - v * q) * y == u * y + v * r
  {
    assert v * x == v * r + v * (q * y);
    assert (u - v * q) * y == u * y - (v * q) * y;
    assert (v * q) * y == v * (q * y);
  }

  lemma GcdDivides(a: int, b: int)
    ensures Divides(Gcd(a, b), a) && Divides(Gcd(a, b), b)
  {
    EuclidDivides(Abs(a), Abs(b));
    var g := Euclid(Abs(a), Abs(b));
    if g == 0 {
      var k :| (Abs(a) as int) == g * k;
      var l :| (Abs(b) as int) == g * l;
      assert a == 1 * a && b == 1 * b;
    } else {
      DividesNegated(g, Abs(a));
      DividesNegated(g, Abs(b));
    }
  }

  ghost predicate LowestTerms(r: Rational) {
    Gcd(r.num, r.den) == 1
  }

  // --------------------------------------------------------------- construction

  /** `rational(num, den)`; a zero denominator throws, so it is no caller's input. */
  function Make(num: int, den: int): (r: Rational)
    requires den != 0
    ensures Val(r) == num as real / den as real
  {
    var sign := if den < 0 then -1 else 1;
    var g := Gcd(num, den);
    MakeParts(num, den);
    MakeValue(num, den);
    Rational.Rational(TruncDiv(num * sign, g), TruncDiv(den * sign, g))
  }

  const R_ZERO: Rational := Rational.Rational(0, 1)
  const R_ONE: Rational := Rational.Rational(1, 1)

  /** The rational as a real number: the meaning every proof is stated in. */
  ghost function Val(r: Rational): real {
    r.num as real / r.den as real
  }

  lemma MakeParts(num: int, den: int)
    requires den != 0
    ensures
      var sign := if den < 0 then -1 else 1;
      var g := Gcd(num, den);
      && TruncDiv(num * sign, g) * g == num * sign
      && TruncDiv(den * sign, g) * g == den * sign
      && TruncDiv(den * sign, g) > 0
  {
    var sign := if den < 0 then -1 else 1;
    var g := Gcd(num, den);
    GcdDivides(num, den);
    var k :| num == g * k;
    var l :| den == g * l;
    PartOf(num, g, k, sign);
    PartOf(den, g, l, sign);
    assert den * sign > 0;
    PositiveFactor(l * sign, g);
  }

  lemma PartOf(a: int, g: int, k: int, sign: int)
    requires g > 0 && a == g * k
    ensures a * sign == (k * sign) * g && TruncDiv(a * sign, g) == k * sign
  {
    assert a * sign == (g * k) * sign == (k * sign) * g;
    ExactDivision(k * sign, g);
  }

  lemma PositiveFactor(a: int, g: int)
    requires g > 0 && a * g > 0
    ensures a > 0
  {
    MulBounds(a, g);
    assert a == 0 ==> a * g == 0;
  }

  lemma MakeValue(num: int, den: int)
    requires den != 0
    ensures
      var sign := if den < 0 then -1 else 1;
      var g := Gcd(num, den);
      && TruncDiv(den * sign, g) > 0
      && TruncDiv(num * sign, g) as real / TruncDiv(den * sign, g) as real == num as real / den as real
  {
    var sign := if den < 0 then -1 else 1;
    var g := Gcd(num, den);
    MakeParts(num, den);
    var n, d := TruncDiv(num * sign, g), TruncDiv(den * sign, g);
    CrossFromScaled(n, d, g, num, den, sign);
    FractionsEqual(n, d, num, den);
  }

  lemma CrossFromScaled(n: int, d: int, g: int, num: int, den: int, sign: int)
    requires g != 0 && n * g == num * sign && d * g == den * sign
    ensures n * den == num * d
  {
    assert (n * den) * g == (n * g) * den == (num * sign) * den;
    assert (num * d) * g == num * (d * g) == num * (den * sign);
    assert (num * sign) * den == num * (den * sign);
    MulCancel(n * den, num * d, g);
  }

  /** Equal cross products are equal fractions, and conversely. */
  lemma FractionsEqual(n: int, d: int, m: int, e: int)
    requires d != 0 && e != 0
    ensures n * e == m * d <==> n as real / d as real == m as real / e as real
  {
    MulReal(n, e);
    MulReal(m, d);
    RealFractions(n as real, d as real, m as real, e as real);
  }

  lemma RealFractions(n: real, d: real, m: real, e: real)
    requires d != 0.0 && e != 0.0
    ensures n * e == m * d <==> n / d == m / e
  {
    var p, q := n / d, m / e;
    assert p * d == n && q * e == m;
    assert n * e == p * (d * e) && m * d == q * (d * e);
    RealCancel(p, q, d * e);
  }

  lemma RealCancel(p: real, q: real, c: real)
    requires c != 0.0
    ensures p * c == q * c <==> p == q
  {
    assert (p * c) / c == p && (q * c) / c == q;
  }

  /** A value times the denominator is the numerator, and only the value is. */
  lemma ValOf(r: Rational, v: real)
    ensures v == Val(r) <==> v * r.den as real == r.num as real
  {
    RealCancel(v, Val(r), r.den as real);
  }

  // ----------------------------------------------------------------- operations

  function RAdd(a: Rational, b: Rational): (r: Rational)
    ensures Val(r) == Val(a) + Val(b)
  {
    AddValue(a, b);
    Make(a.num * b.den + b.num * a.den, a.den * b.den)
  }

  function RSub(a: Rational, b: Rational): (r: Rational)
    ensures Val(r) == Val(a) - Val(b)
  {
    SubValue(a, b);
    Make(a.num * b.den - b.num * a.den, a.den * b.den)
  }

  function RMul(a: Rational, b: Rational): (r: Rational)
    ensures Val(r) == Val(a) * Val(b)
  {
    MulValue(a, b);
    Make(a.num * b.num, a.den * b.den)
  }

  /** Division by a zero rational throws. */
  function RDiv(a: Rational, b: Rational): (r: Rational)
    requires b.num != 0
    ensures Val(b) != 0.0 && Val(r) == Val(a) / Val(b)
  {
    DivValue(a, b);
    Make(a.num * b.den, a.den * b.num)
  }

  predicate REquals(a: Rational, b: Rational) {
    a.num * b.den == b.num * a.den
  }

  predicate RIsZero(a: Rational) {
    a.num == 0
  }

  lemma ProductPositive(a: int, b: int)
    requires a > 0 && b > 0
    ensures a * b > 0
  {
    MulBounds(a, b);
  }

  lemma AddValue(a: Rational, b: Rational)
    ensures a.den * b.den > 0
    ensures (a.num * b.den + b.num * a.den) as real / (a.den * b.den) as real == Val(a) + Val(b)
  {
    ProductPositive(a.den, b.den);
    MulReal(a.num, b.den);
    MulReal(b.num, a.den);
    MulReal(a.den, b.den);
    SumOfFractions(a.num as real, a.den as real, b.num as real, b.den as real, 1.0);
  }

  lemma SubValue(a: Rational, b: Rational)
    ensures a.den * b.den > 0
    ensures (a.num * b.den - b.num * a.den) as real / (a.den * b.den) as real == Val(a) - Val(b)
  {
    ProductPositive(a.den, b.den);
    MulReal(a.num, b.den);
    MulReal(b.num, a.den);
    MulReal(a.den, b.den);
    SumOfFractions(a.num as real, a.den as real, b.num as real, b.den as real, -1.0);
  }

  lemma SumOfFractions(n: real, d: real, m: real, e: real, s: real)
    requires d != 0.0 && e != 0.0
    ensures d * e != 0.0 && (n * e + s * (m * d)) / (d * e) == n / d + s * (m / e)
  {
    var p, q := n / d, m / e;
    assert p * d == n && q * e == m;
    assert n * e == p * (d * e);
    assert s * (m * d) == (s * q) * (d * e);
    assert n * e + s * (m * d) == (p + s * q) * (d * e);
    RealCancel((n * e + s * (m * d)) / (d * e), p + s * q, d * e);
  }

  lemma MulValue(a: Rational, b: Rational)
    ensures a.den * b.den > 0
    ensures (a.num * b.num) as real / (a.den * b.den) as real == Val(a) * Val(b)
  {
    ProductPositive(a.den, b.den);
    MulReal(a.num, b.num);
    MulReal(a.den, b.den);
    ProductOfFractions(a.num as real, a.den as real, b.num as real, b.den as real);
  }

  lemma ProductOfFractions(n: real, d: real, m: real, e: real)
    requires d != 0.0 && e != 0.0
    ensures d * e != 0.0 && (n * m) / (d * e) == (n / d) * (m / e)
  {
    var p, q := n / d, m / e;
    assert p * d == n && q * e == m;
    assert n * m == (p * q) * (d * e);
    RealCancel((n * m) / (d * e), p * q, d * e);
  }

  lemma DivValue(a: Rational, b: Rational)
    requires b.num != 0
    ensures a.den * b.num != 0 && Val(b) != 0.0
    ensures (a.num * b.den) as real / (a.den * b.num) as real == Val(a) / Val(b)
  {
    if a.den * b.num == 0 { MulCancel(a.den, 0, b.num); }
    MulReal(a.num, b.den);
    MulReal(a.den, b.num);
    QuotientOfFractions(a.num as real, a.den as real, b.num as real, b.den as real);
  }

  lemma QuotientOfFractions(n: real, d: real, m: real, e: real)
    requires d != 0.0 && e != 0.0 && m != 0.0
    ensures d * m != 0.0 && m / e != 0.0 && (n * e) / (d * m) == (n / d) / (m / e)
  {
    var p, q := n / d, m / e;
    assert p * d == n && q * e == m;
    assert q != 0.0;
    var r := p / q;
    assert r * q == p;
    assert n * e == (r * q) * d * e == r * (d * (q * e));
    RealCancel((n * e) / (d * m), r, d * m);
  }

  /** The comparisons the engines make on cross products are comparisons of values. */
  lemma CompareValues(a: Rational, b: Rational)
    ensures a.num * b.den < b.num * a.den <==> Val(a) < Val(b)
    ensures REquals(a, b) <==> Val(a) == Val(b)
    ensures RIsZero(a) <==> Val(a) == 0.0
    ensures a.num < 0 <==> Val(a) < 0.0
  {
    MulReal(a.num, b.den);
    MulReal(b.num, a.den);
    CompareFractions(a.num as real, a.den as real, b.num as real, b.den as real);
    FractionsEqual(a.num, a.den, b.num, b.den);
    CompareFractions(a.num as real, a.den as real, 0.0, 1.0);
    FractionsEqual(a.num, a.den, 0, 1);
  }

  lemma CompareFractions(n: real, d: real, m: real, e: real)
    requires d > 0.0 && e > 0.0
    ensures n * e < m * d <==> n / d < m / e
  {
    var p, q := n / d, m / e;
    assert p * d == n && q * e == m;
    assert n * e == p * (d * e) && m * d == q * (d * e);
    ScaleOrder(p, q, d * e);
  }

  lemma ScaleOrder(p: real, q: real, c: real)
    requires c > 0.0
    ensures p < q <==> p * c < q * c
  {
    assert q * c - p * c == (q - p) * c;
  }

  lemma QuotientTimes(n: real, d: real)
    requires d != 0.0
    ensures (n / d) * d == n
  {
  }

  lemma OneMoreTimes(f: real, d: real)
    ensures (f + 1.0) * d == f * d + d
  {
  }

  lemma FloorBetween(v: real, f: int)
    requires f as real <= v < f as real + 1.0
    ensures v.Floor == f
  {
  }

  /** The floor of a quotient is the multiple below its dividend. */
  lemma QuotientFloor(n: real, d: real, f: int)
    requires d > 0.0 && f as real * d <= n < f as real * d + d
    ensures (n / d).Floor == f
  {
    QuotientTimes(n, d);
    OneMoreTimes(f as real, d);
    ScaleOrder(n / d, f as real, d);
    ScaleOrder(n / d, f as real + 1.0, d);
    FloorBetween(n / d, f);
  }

  // -------------------------------------------------------------- canonical form

  /** `rational` is in lowest terms. */
  lemma MakeLowestTerms(num: int, den: int)
    requires den != 0
    ensures LowestTerms(Make(num, den))
  {
    var sign := if den < 0 then -1 else 1;
    var g := Gcd(num, den);
    MakeParts(num, den);
    var r := Make(num, den);
    var h := Gcd(r.num, r.den);
    GcdDivides(r.num, r.den);
    var k :| r.num == h * k;
    var l :| r.den == h * l;
    // g * h divides both num and den, hence divides g
    var u, v := GcdBezout(num, den);
    CommonFactor(num, den, sign, g, h, k, l, u, v);
  }

  lemma GcdBezout(a: int, b: int) returns (u: int, v: int)
    requires b != 0
    ensures u * a + v * b == Gcd(a, b)
  {
    var s, t := EuclidBezout(Abs(a), Abs(b));
    u := if a < 0 then -s else s;
    v := if b < 0 then -t else t;
    assert u * a == s * Abs(a) && v * b == t * Abs(b);
  }

  lemma CommonFactor(num: int, den: int, sign: int, g: int, h: int, k: int, l: int, u: int, v: int)
    requires (sign == 1 || sign == -1) && g > 0 && h > 0
    requires (h * k) * g == num * sign && (h * l) * g == den * sign
    requires u * num + v * den == g
    ensures h == 1
  {
    Regroup(u, h, k, g, sign, num);
    Regroup(v, h, l, g, sign, den);
    UnitMultiple((u * k) * sign, (v * l) * sign, h, g);
  }

  lemma UnitMultiple(p: int, q: int, h: int, g: int)
    requires g > 0 && h > 0 && p * (h * g) + q * (h * g) == g
    ensures h == 1
  {
    Factored(p, q, h, g);
    MulCancel((p + q) * h, 1, g);
    MulBounds(p + q, h);
  }

  lemma Factored(p: int, q: int, h: int, g: int)
    ensures p * (h * g) + q * (h * g) == ((p + q) * h) * g
  {
    assert (p + q) * (h * g) == p * (h * g) + q * (h * g);
  }

  lemma Regroup(u: int, h: int, k: int, g: int, sign: int, a: int)
    requires (sign == 1 || sign == -1) && (h * k) * g == a * sign
    ensures u * a == ((u * k) * sign) * (h * g)
  {
    assert a == ((h * k) * g) * sign;
    assert (h * k) * g == k * (h * g);
    assert u * (k * (h * g)) == (u * k) * (h * g);
  }

  /** Two rationals in lowest terms with the same value are the same pair: the
      canonical form makes equality structural. */
  lemma CanonicalFormUnique(a: Rational, b: Rational)
    requires LowestTerms(a) && LowestTerms(b) && Val(a) == Val(b)
    ensures a == b
  {
    CompareValues(a, b);
    var u, v := GcdBezout(a.num, a.den);
    var s, t := GcdBezout(b.num, b.den);
    // b.den = b.den (u a.num + v a.den) = a.den (u b.num + v b.den)
    LowestDenominator(a.num, a.den, b.num, b.den, u, v);
    LowestDenominator(b.num, b.den, a.num, a.den, s, t);
    var p, q := u * b.num + v * b.den, s * a.num + t * a.den;
    MulBounds(p, a.den);
    MulBounds(q, b.den);
    MulCancel(a.num, b.num, a.den);
  }

  lemma LowestDenominator(n: int, d: int, m: int, e: int, u: int, v: int)
    requires n * e == m * d && u * n + v * d == 1
    ensures e == (u * m + v * e) * d
  {
    assert e == (u * n + v * d) * e == u * (n * e) + v * d * e;
    assert u * (n * e) == (u * m) * d;
  }
}
