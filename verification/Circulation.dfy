/** Cost circulation on real matrices: when `x = b + x A` has an answer, and what
    sign it has. `A[j][i]` is the share of j's cost that flows on to i. */
module Circulation {
  import opened LinearAlgebra
  import opened LinearSolver

  /** Non-negative shares, at most 1 in total from any vertex. */
  ghost predicate Substochastic(a: Matrix, n: nat) {
    && Square(a, n)
    && (forall i, j :: 0 <= i < n && 0 <= j < n ==> a[i][j] >= 0.0)
    && (forall j :: 0 <= j < n ==> Dot(a[j], Ones(n), n) <= 1.0)
  }

  ghost function Ones(n: nat): (w: Row)
    ensures |w| == n && forall i :: 0 <= i < n ==> w[i] == 1.0
  {
    if n == 0 then [] else Ones(n - 1) + [1.0]
  }

  /** A zero-one row with at least one 1: a non-empty set of vertices. */
  ghost predicate IsIndicator(w: Row, n: nat) {
    && |w| == n
    && (forall i :: 0 <= i < n ==> w[i] == 0.0 || w[i] == 1.0)
    && exists i :: 0 <= i < n && w[i] == 1.0
  }

  /** A non-empty set whose members pass all of their cost on within the set. */
  ghost predicate LeakFree(a: Matrix, n: nat, w: Row)
    requires Square(a, n)
  {
    IsIndicator(w, n) && forall j :: 0 <= j < n && w[j] == 1.0 ==> Dot(a[j], w, n) == 1.0
  }

  // ------------------------------------------------------------------ exchange

  /** The inflows of the first `m` vertices from the first `k`, weighted by `w`. */
  ghost function WeightedInflow(a: Matrix, n: nat, x: Row, w: Row, m: nat, k: nat): real
    requires Square(a, n) && |x| == n && |w| == n && m <= n && k <= n
  {
    if m == 0 then 0.0 else WeightedInflow(a, n, x, w, m - 1, k) + w[m - 1] * Inflow(a, n, x, m - 1, k)
  }

  /** The weighted outflows of the first `k` vertices. */
  ghost function WeightedOutflow(a: Matrix, n: nat, x: Row, w: Row, k: nat): real
    requires Square(a, n) && |x| == n && |w| == n && k <= n
  {
    if k == 0 then 0.0 else WeightedOutflow(a, n, x, w, k - 1) + x[k - 1] * Dot(a[k - 1], w, n)
  }

  lemma {:induction false} InflowOneMore(a: Matrix, n: nat, x: Row, w: Row, m: nat, k: nat)
    requires Square(a, n) && |x| == n && |w| == n && m <= n && 0 < k <= n
    ensures WeightedInflow(a, n, x, w, m, k) == WeightedInflow(a, n, x, w, m, k - 1) + x[k - 1] * Dot(a[k - 1], w, m)
  {
    if m > 0 {
      InflowOneMore(a, n, x, w, m - 1, k);
      var e, v, c := Inflow(a, n, x, m - 1, k - 1), x[k - 1], a[k - 1][m - 1];
      ExchangeTerm(w[m - 1], e, v, c, Dot(a[k - 1], w, m - 1));
    }
  }

  lemma ExchangeTerm(w: real, e: real, v: real, c: real, d: real)
    ensures w * (e + v * c) + v * d == w * e + v * (d + c * w)
  {
  }

  /** What flows in is what flows out: both sides of the double sum. */
  lemma {:induction false} Exchange(a: Matrix, n: nat, x: Row, w: Row, k: nat)
    requires Square(a, n) && |x| == n && |w| == n && k <= n
    ensures WeightedInflow(a, n, x, w, n, k) == WeightedOutflow(a, n, x, w, k)
  {
    if k > 0 {
      Exchange(a, n, x, w, k - 1);
      InflowOneMore(a, n, x, w, n, k);
    } else {
      NoInflow(a, n, x, w, n);
    }
  }

  lemma {:induction false} NoInflow(a: Matrix, n: nat, x: Row, w: Row, m: nat)
    requires Square(a, n) && |x| == n && |w| == n && m <= n
    ensures WeightedInflow(a, n, x, w, m, 0) == 0.0
  {
    if m > 0 { NoInflow(a, n, x, w, m - 1); }
  }

  // ----------------------------------------------------------- order of products

  lemma ProductOrder(c: real, p: real, q: real)
    requires c >= 0.0 && p <= q
    ensures c * p <= c * q
  {
    assert c * q - c * p == c * (q - p);
  }

  lemma AtMostSelf(c: real, p: real)
    requires c >= 0.0 && p <= 1.0
    ensures c * p <= c
  {
    assert c - c * p == c * (1.0 - p);
  }

  lemma ProductNonNegative(p: real, q: real)
    requires p >= 0.0 && q >= 0.0
    ensures p * q >= 0.0
  {
  }

  /** Larger weights take in no less, entry by entry. */
  lemma {:induction false} DotOrder(r: Row, v: Row, w: Row, k: nat)
    requires k <= |r| && k <= |v| && k <= |w|
    requires forall j :: 0 <= j < k ==> r[j] >= 0.0 && v[j] <= w[j]
    ensures Dot(r, v, k) <= Dot(r, w, k)
  {
    if k > 0 {
      DotOrder(r, v, w, k - 1);
      ProductOrder(r[k - 1], v[k - 1], w[k - 1]);
    }
  }

  // -------------------------------------------------- a telescoping sum argument

  /** Sum of the first `k` entries. */
  ghost function Sum(r: Row, k: nat): real
    requires k <= |r|
  {
    if k == 0 then 0.0 else Sum(r, k - 1) + r[k - 1]
  }

  lemma {:induction false} SumNonNegative(r: Row, k: nat, i: nat)
    requires k <= |r| && forall j :: 0 <= j < k ==> r[j] >= 0.0
    ensures Sum(r, k) >= 0.0
    ensures i < k ==> Sum(r, k) >= r[i]
  {
    if k > 0 { SumNonNegative(r, k - 1, i); }
  }

  lemma {:induction false} SumIs(r: Row, p: Row, q: Row, k: nat)
    requires k <= |r| && k <= |p| && k <= |q|
    requires forall j :: 0 <= j < k ==> r[j] == p[j] - q[j]
    ensures Sum(r, k) == Sum(p, k) - Sum(q, k)
  {
    if k > 0 { SumIs(r, p, q, k - 1); }
  }

  /** Two rows with equal sums, one below the other everywhere, are equal. */
  lemma {:induction false} EqualSums(p: Row, q: Row, n: nat)
    requires |p| == n == |q|
    requires forall i :: 0 <= i < n ==> p[i] <= q[i]
    requires Sum(p, n) >= Sum(q, n)
    ensures p == q
  {
    var r := seq(n, i requires 0 <= i < n => q[i] - p[i]);
    SumIs(r, q, p, n);
    forall i | 0 <= i < n ensures p[i] == q[i] { SumNonNegative(r, n, i); }
  }

  // ------------------------------------------------------------ conserved vectors

  ghost function Negated(x: Row): (y: Row)
    ensures |y| == |x| && forall i :: 0 <= i < |x| ==> y[i] == -x[i]
  {
    seq(|x|, i requires 0 <= i < |x| => -x[i])
  }

  lemma {:induction false} InflowNegated(a: Matrix, n: nat, x: Row, i: nat, k: nat)
    requires Square(a, n) && |x| == n && i < n && k <= n
    ensures Inflow(a, n, Negated(x), i, k) == -Inflow(a, n, x, i, k)
  {
    if k > 0 {
      InflowNegated(a, n, x, i, k - 1);
      assert (-x[k - 1]) * a[k - 1][i] == -(x[k - 1] * a[k - 1][i]);
    }
  }

  lemma {:induction false} InflowOrder(a: Matrix, n: nat, u: Row, v: Row, i: nat, k: nat)
    requires Square(a, n) && |u| == n == |v| && i < n && k <= n
    requires forall j :: 0 <= j < n ==> a[j][i] >= 0.0 && u[j] <= v[j]
    ensures Inflow(a, n, u, i, k) <= Inflow(a, n, v, i, k)
  {
    if k > 0 {
      InflowOrder(a, n, u, v, i, k - 1);
      ProductOrder(a[k - 1][i], u[k - 1], v[k - 1]);
    }
  }

  lemma {:induction false} InflowTerm(a: Matrix, n: nat, y: Row, i: nat, j: nat, k: nat)
    requires Square(a, n) && |y| == n && i < n && j < n && k <= n
    requires forall l :: 0 <= l < n ==> a[l][i] >= 0.0 && y[l] >= 0.0
    ensures Inflow(a, n, y, i, k) >= 0.0
    ensures j < k ==> Inflow(a, n, y, i, k) >= y[j] * a[j][i]
  {
    if k > 0 {
      InflowTerm(a, n, y, i, j, k - 1);
      ProductNonNegative(y[k - 1], a[k - 1][i]);
    }
  }

  ghost function Inflows(a: Matrix, n: nat, y: Row): (f: Row)
    requires Square(a, n) && |y| == n
    ensures |f| == n && forall i :: 0 <= i < n ==> f[i] == Inflow(a, n, y, i, n)
  {
    seq(n, i requires 0 <= i < n => Inflow(a, n, y, i, n))
  }

  ghost function Outflows(a: Matrix, n: nat, y: Row): (f: Row)
    requires Square(a, n) && |y| == n
    ensures |f| == n && forall j :: 0 <= j < n ==> f[j] == y[j] * Dot(a[j], Ones(n), n)
  {
    seq(n, j requires 0 <= j < n => y[j] * Dot(a[j], Ones(n), n))
  }

  lemma {:induction false} InflowsSum(a: Matrix, n: nat, y: Row, m: nat)
    requires Square(a, n) && |y| == n && m <= n
    ensures Sum(Inflows(a, n, y), m) == WeightedInflow(a, n, y, Ones(n), m, n)
  {
    if m > 0 { InflowsSum(a, n, y, m - 1); }
  }

  lemma {:induction false} OutflowsSum(a: Matrix, n: nat, y: Row, k: nat)
    requires Square(a, n) && |y| == n && k <= n
    ensures Sum(Outflows(a, n, y), k) == WeightedOutflow(a, n, y, Ones(n), k)
  {
    if k > 0 { OutflowsSum(a, n, y, k - 1); }
  }

  lemma {:induction false} TotalFlow(a: Matrix, n: nat, y: Row)
    requires Square(a, n) && |y| == n
    ensures Sum(Inflows(a, n, y), n) == Sum(Outflows(a, n, y), n)
  {
    InflowsSum(a, n, y, n);
    OutflowsSum(a, n, y, n);
    Exchange(a, n, y, Ones(n), n);
  }

  lemma {:induction false} SumOrder(p: Row, q: Row, k: nat)
    requires k <= |p| && k <= |q| && forall j :: 0 <= j < k ==> p[j] <= q[j]
    ensures Sum(p, k) <= Sum(q, k)
  {
    if k > 0 { SumOrder(p, q, k - 1); }
  }

  /** A non-negative vector nowhere above its own inflow loses nothing: it equals
      its inflow, and every vertex it occupies passes everything on. */
  lemma {:induction false} NothingLost(a: Matrix, n: nat, y: Row)
    requires Substochastic(a, n) && |y| == n
    requires forall i :: 0 <= i < n ==> 0.0 <= y[i] <= Inflow(a, n, y, i, n)
    ensures Inflows(a, n, y) == y == Outflows(a, n, y)
    ensures forall i :: 0 <= i < n ==> y[i] == Inflow(a, n, y, i, n)
  {
    hide Inflow, Dot, Inflows, Outflows;
    var f, g := Inflows(a, n, y), Outflows(a, n, y);
    forall j | 0 <= j < n ensures g[j] <= y[j] {
      AtMostSelf(y[j], Dot(a[j], Ones(n), n));
    }
    TotalFlow(a, n, y);
    SumOrder(g, y, n);
    SumOrder(y, f, n);
    EqualSums(y, f, n);
    EqualSums(g, y, n);
  }

  ghost function Support(y: Row): (w: Row)
    ensures |w| == |y| && forall i :: 0 <= i < |y| ==> w[i] == if y[i] > 0.0 then 1.0 else 0.0
  {
    seq(|y|, i requires 0 <= i < |y| => if y[i] > 0.0 then 1.0 else 0.0)
  }

  /** The vertices that such a vector occupies form a leak-free set. */
  lemma {:induction false} SupportLeakFree(a: Matrix, n: nat, y: Row)
    requires Substochastic(a, n) && |y| == n
    requires forall i :: 0 <= i < n ==> 0.0 <= y[i] <= Inflow(a, n, y, i, n)
    requires exists i :: 0 <= i < n && y[i] > 0.0
    ensures LeakFree(a, n, Support(y))
  {
    var w := Support(y);
    assert IsIndicator(w, n) by {
      var i :| 0 <= i < n && y[i] > 0.0;
      assert w[i] == 1.0;
    }
    forall j | 0 <= j < n && w[j] == 1.0 ensures Dot(a[j], w, n) == 1.0 {
      SupportMember(a, n, y, j);
    }
  }

  lemma {:induction false} SupportMember(a: Matrix, n: nat, y: Row, j: nat)
    requires Substochastic(a, n) && |y| == n && j < n && y[j] > 0.0
    requires forall i :: 0 <= i < n ==> 0.0 <= y[i] <= Inflow(a, n, y, i, n)
    ensures Dot(a[j], Support(y), n) == 1.0
  {
    hide Inflows, Outflows, Dot, Inflow;
    NothingLost(a, n, y);
    assert Outflows(a, n, y)[j] == y[j];
    UnitFactor(y[j], Dot(a[j], Ones(n), n));
    forall i | 0 <= i < n ensures a[j][i] == 0.0 || Support(y)[i] == 1.0 {
      SupportSpreads(a, n, y, j, i);
    }
    DotSame(a[j], Support(y), Ones(n), n);
  }

  lemma {:induction false} SupportSpreads(a: Matrix, n: nat, y: Row, j: nat, i: nat)
    requires Substochastic(a, n) && |y| == n && j < n && i < n && y[j] > 0.0
    requires forall l :: 0 <= l < n ==> 0.0 <= y[l]
    requires y[i] == Inflow(a, n, y, i, n)
    ensures a[j][i] == 0.0 || y[i] > 0.0
  {
    if a[j][i] > 0.0 {
      InflowTerm(a, n, y, i, j, n);
      PositiveProduct(y[j], a[j][i]);
    }
  }

  lemma UnitFactor(p: real, q: real)
    requires p > 0.0 && p == p * q
    ensures q == 1.0
  {
    assert p * (q - 1.0) == 0.0;
  }

  lemma PositiveProduct(p: real, q: real)
    requires p > 0.0 && q > 0.0
    ensures p * q > 0.0
  {
  }

  /** Rows that agree wherever `r` is not zero have the same product with `r`. */
  lemma {:induction false} DotSame(r: Row, v: Row, w: Row, k: nat)
    requires k <= |r| && k <= |v| && k <= |w|
    requires forall j :: 0 <= j < k ==> r[j] == 0.0 || v[j] == w[j]
    ensures Dot(r, v, k) == Dot(r, w, k)
  {
    if k > 0 { DotSame(r, v, w, k - 1); }
  }

  // ------------------------------------------------------------- the three theorems

  ghost function Magnitude(z: Row): (y: Row)
    ensures |y| == |z| && forall i :: 0 <= i < |z| ==> y[i] == if z[i] < 0.0 then -z[i] else z[i]
  {
    seq(|z|, i requires 0 <= i < |z| => if z[i] < 0.0 then -z[i] else z[i])
  }

  /** A kernel vector sits on a leak-free set. */
  lemma KernelLeakFree(a: Matrix, n: nat, z: Row)
    requires Substochastic(a, n) && IsFixed(a, n, z)
    ensures LeakFree(a, n, Support(Magnitude(z)))
  {
    hide Inflow, Dot;
    var y := Magnitude(z);
    forall i | 0 <= i < n ensures 0.0 <= y[i] <= Inflow(a, n, y, i, n) {
      InflowOrder(a, n, z, y, i, n);
      InflowOrder(a, n, Negated(z), y, i, n);
      InflowNegated(a, n, z, i, n);
    }
    var i :| 0 <= i < n && z[i] != 0.0;
    assert y[i] > 0.0;
    SupportLeakFree(a, n, y);
  }

  ghost function NegativePart(x: Row): (y: Row)
    ensures |y| == |x| && forall i :: 0 <= i < |x| ==> y[i] == if x[i] < 0.0 then -x[i] else 0.0
  {
    seq(|x|, i requires 0 <= i < |x| => if x[i] < 0.0 then -x[i] else 0.0)
  }

  /** With non-negative inputs, a solution is negative only on a leak-free set. */
  lemma NegativeLeakFree(a: Matrix, b: Row, x: Row)
    requires Substochastic(a, |b|) && Solves(a, b, x)
    requires forall i :: 0 <= i < |b| ==> b[i] >= 0.0
    requires exists i :: 0 <= i < |b| && x[i] < 0.0
    ensures LeakFree(a, |b|, Support(NegativePart(x)))
  {
    hide Inflow, Dot;
    var n, y := |b|, NegativePart(x);
    forall i | 0 <= i < n ensures 0.0 <= y[i] <= Inflow(a, n, y, i, n) {
      InflowOrder(a, n, Negated(x), y, i, n);
      InflowNegated(a, n, x, i, n);
      InflowTerm(a, n, y, i, i, n);
    }
    var i :| 0 <= i < n && x[i] < 0.0;
    assert y[i] > 0.0;
    SupportLeakFree(a, n, y);
  }

  // ---------------------------------------------------------------------- balance

  /** What each vertex passes on to the weighted vertices. */
  ghost function Passed(a: Matrix, n: nat, w: Row): (h: Row)
    requires Square(a, n) && |w| == n
    ensures |h| == n && forall j :: 0 <= j < n ==> h[j] == Dot(a[j], w, n)
  {
    seq(n, j requires 0 <= j < n => Dot(a[j], w, n))
  }

  lemma {:induction false} OutflowIsPassed(a: Matrix, n: nat, x: Row, w: Row, k: nat)
    requires Square(a, n) && |x| == n && |w| == n && k <= n
    ensures WeightedOutflow(a, n, x, w, k) == Dot(Passed(a, n, w), x, k)
  {
    if k > 0 { OutflowIsPassed(a, n, x, w, k - 1); }
  }

  lemma {:induction false} SolutionSum(a: Matrix, b: Row, x: Row, w: Row, m: nat)
    requires Square(a, |b|) && Solves(a, b, x) && |w| == |b| && m <= |b|
    ensures Dot(w, x, m) == Dot(w, b, m) + WeightedInflow(a, |b|, x, w, m, |b|)
  {
    if m > 0 {
      SolutionSum(a, b, x, w, m - 1);
      var f := Inflow(a, |b|, x, m - 1, |b|);
      assert x[m - 1] == b[m - 1] + f;
      assert w[m - 1] * (b[m - 1] + f) == w[m - 1] * b[m - 1] + w[m - 1] * f;
    }
  }

  /** The weighted totals of a solution: primary cost plus what is passed on. */
  lemma {:induction false} Balance(a: Matrix, b: Row, x: Row, w: Row)
    requires Square(a, |b|) && Solves(a, b, x) && |w| == |b|
    ensures Dot(w, x, |b|) == Dot(w, b, |b|) + Dot(Passed(a, |b|, w), x, |b|)
  {
    SolutionSum(a, b, x, w, |b|);
    Exchange(a, |b|, x, w, |b|);
    OutflowIsPassed(a, |b|, x, w, |b|);
  }

  /** A leak-free set with primary cost in it has no non-negative answer. */
  lemma {:induction false} LeakFreeHasNoCost(a: Matrix, b: Row, x: Row, w: Row)
    requires Substochastic(a, |b|) && LeakFree(a, |b|, w) && |x| == |b| && Solves(a, b, x)
    requires forall i :: 0 <= i < |b| ==> x[i] >= 0.0
    ensures Dot(w, b, |b|) <= 0.0
  {
    hide Dot, Solves;
    var n := |b|;
    Balance(a, b, x, w);
    var h := Passed(a, n, w);
    forall j | 0 <= j < n ensures w[j] <= h[j] { PassedNonNegative(a, n, w, j); }
    DotSwap(w, x, n);
    DotSwap(h, x, n);
    DotOrder(x, w, h, n);
  }

  lemma {:induction false} PassedNonNegative(a: Matrix, n: nat, w: Row, j: nat)
    requires Substochastic(a, n) && IsIndicator(w, n) && j < n
    ensures Dot(a[j], w, n) >= 0.0
  {
    DotOrder(a[j], Zeros(n), w, n);
    DotZeros(a[j], n, n);
  }

  ghost function Zeros(n: nat): (w: Row)
    ensures |w| == n && forall i :: 0 <= i < n ==> w[i] == 0.0
  {
    seq(n, _ => 0.0)
  }

  lemma {:induction false} DotZeros(r: Row, n: nat, k: nat)
    requires k <= |r| && k <= n
    ensures Dot(r, Zeros(n), k) == 0.0
  {
    if k > 0 { DotZeros(r, n, k - 1); }
  }

  lemma {:induction false} DotSwap(r: Row, y: Row, k: nat)
    requires k <= |r| && k <= |y|
    ensures Dot(r, y, k) == Dot(y, r, k)
  {
    if k > 0 { DotSwap(r, y, k - 1); }
  }

  // ------------------------------------------------------- leak-free means singular

  lemma {:induction false} DotGap(r: Row, v: Row, w: Row, k: nat, i: nat)
    requires k <= |r| && k <= |v| && k <= |w|
    requires forall j :: 0 <= j < k ==> r[j] >= 0.0 && v[j] <= w[j]
    ensures Dot(r, w, k) - Dot(r, v, k) >= 0.0
    ensures i < k ==> Dot(r, w, k) - Dot(r, v, k) >= r[i] * (w[i] - v[i])
  {
    if k > 0 {
      DotGap(r, v, w, k - 1, i);
      ProductNonNegative(r[k - 1], w[k - 1] - v[k - 1]);
      assert r[k - 1] * w[k - 1] - r[k - 1] * v[k - 1] == r[k - 1] * (w[k - 1] - v[k - 1]);
    }
  }

  /** No share leaves a leak-free set. */
  lemma NoShareLeaves(a: Matrix, n: nat, w: Row, j: nat, i: nat)
    requires Substochastic(a, n) && LeakFree(a, n, w)
    requires j < n && i < n && w[j] == 1.0 && w[i] == 0.0
    ensures a[j][i] == 0.0
  {
    DotGap(a[j], w, Ones(n), n, i);
  }

  ghost function Restricted(a: Matrix, n: nat, w: Row): (r: Matrix)
    requires Square(a, n) && |w| == n
    ensures Square(r, n)
    ensures forall j, i :: 0 <= j < n && 0 <= i < n ==> r[j][i] == if w[j] == 1.0 && w[i] == 1.0 then a[j][i] else 0.0
  {
    seq(n, j requires 0 <= j < n =>
      seq(n, i requires 0 <= i < n => if w[j] == 1.0 && w[i] == 1.0 then a[j][i] else 0.0))
  }

  lemma RestrictedPassed(a: Matrix, n: nat, w: Row)
    requires Square(a, n) && LeakFree(a, n, w)
    ensures Passed(Restricted(a, n, w), n, w) == w
  {
    var r := Restricted(a, n, w);
    forall j | 0 <= j < n ensures Dot(r[j], w, n) == w[j] {
      if w[j] == 1.0 {
        DotSwap(r[j], w, n);
        DotSwap(a[j], w, n);
        DotSame(w, r[j], a[j], n);
      } else {
        DotSwap(r[j], w, n);
        DotSame(w, r[j], Zeros(n), n);
        DotZeros(w, n, n);
      }
    }
  }

  lemma {:induction false} IndicatorSquare(w: Row, n: nat)
    requires IsIndicator(w, n)
    ensures Dot(w, w, n) > 0.0
  {
    var i :| 0 <= i < n && w[i] == 1.0;
    DotGap(w, Zeros(n), w, n, i);
    DotZeros(w, n, n);
  }

  /** No member of the set has a share in a vertex outside it. */
  ghost predicate Confined(a: Matrix, n: nat, w: Row)
    requires Square(a, n) && |w| == n
  {
    forall j, i :: 0 <= j < n && 0 <= i < n && w[j] == 1.0 && w[i] != 1.0 ==> a[j][i] == 0.0
  }

  lemma LeakFreeConfined(a: Matrix, n: nat, w: Row)
    requires Substochastic(a, n) && LeakFree(a, n, w)
    ensures Confined(a, n, w)
  {
    forall j, i | 0 <= j < n && 0 <= i < n && w[j] == 1.0 && w[i] != 1.0 ensures a[j][i] == 0.0 {
      NoShareLeaves(a, n, w, j, i);
    }
  }

  lemma LeakFreeSingular(a: Matrix, n: nat, w: Row)
    requires Substochastic(a, n) && LeakFree(a, n, w)
    ensures exists z :: IsFixed(a, n, z)
  {
    LeakFreeConfined(a, n, w);
    ConfinedSingular(a, n, w);
  }

  /** Fed a unit on each member, a leak-free set alone has no answer; so its block,
      and with it the whole system, has a kernel vector. */
  lemma ConfinedSingular(a: Matrix, n: nat, w: Row)
    requires Square(a, n) && LeakFree(a, n, w) && Confined(a, n, w)
    ensures exists z :: IsFixed(a, n, z)
  {
    hide Dot, Solves, Inflow;
    var r := Restricted(a, n, w);
    var o := SystemSettled(r, w);
    if o.Some? {
      Balance(r, w, o.value, w);
      RestrictedPassed(a, n, w);
      IndicatorSquare(w, n);
      assert false;
    }
    var z :| IsFixed(r, n, z);
    forall i | 0 <= i < n ensures z[i] == Inflow(a, n, z, i, n) {
      OutsideIsZero(a, n, w, z);
      RestrictedInflow(a, n, w, z, i, n);
    }
    assert IsFixed(a, n, z);
  }

  lemma OutsideIsZero(a: Matrix, n: nat, w: Row, z: Row)
    requires Square(a, n) && |w| == n && IsFixed(Restricted(a, n, w), n, z)
    ensures forall i :: 0 <= i < n && w[i] != 1.0 ==> z[i] == 0.0
  {
    forall i | 0 <= i < n && w[i] != 1.0 ensures z[i] == 0.0 {
      InflowNothing(Restricted(a, n, w), n, z, i, n);
    }
  }

  lemma {:induction false} InflowNothing(a: Matrix, n: nat, z: Row, i: nat, k: nat)
    requires Square(a, n) && |z| == n && i < n && k <= n
    requires forall j :: 0 <= j < n ==> a[j][i] == 0.0
    ensures Inflow(a, n, z, i, k) == 0.0
  {
    if k > 0 { InflowNothing(a, n, z, i, k - 1); }
  }

  lemma {:induction false} RestrictedInflow(a: Matrix, n: nat, w: Row, z: Row, i: nat, k: nat)
    requires Square(a, n) && |w| == n && Confined(a, n, w) && |z| == n && i < n && k <= n
    requires forall j :: 0 <= j < n && w[j] != 1.0 ==> z[j] == 0.0
    ensures Inflow(Restricted(a, n, w), n, z, i, k) == Inflow(a, n, z, i, k)
  {
    if k > 0 {
      RestrictedInflow(a, n, w, z, i, k - 1);
      RestrictedTerm(a, n, w, z, i, k - 1);
      hide Restricted, Confined, Inflow;
      SameInflowStep(a, Restricted(a, n, w), n, z, i, k - 1);
    } else {
      hide Restricted, Confined;
    }
  }

  lemma SameInflowStep(a: Matrix, c: Matrix, n: nat, z: Row, i: nat, k: nat)
    requires Square(a, n) && Square(c, n) && |z| == n && i < n && k < n
    requires Inflow(c, n, z, i, k) == Inflow(a, n, z, i, k) && z[k] * c[k][i] == z[k] * a[k][i]
    ensures Inflow(c, n, z, i, k + 1) == Inflow(a, n, z, i, k + 1)
  {
    InflowStep(a, n, z, i, k);
    InflowStep(c, n, z, i, k);
    hide Inflow;
  }

  lemma RestrictedTerm(a: Matrix, n: nat, w: Row, z: Row, i: nat, j: nat)
    requires Square(a, n) && |w| == n && Confined(a, n, w) && |z| == n && i < n && j < n
    requires w[j] != 1.0 ==> z[j] == 0.0
    ensures z[j] * Restricted(a, n, w)[j][i] == z[j] * a[j][i]
  {
  }

  /** A substochastic system is singular exactly when some non-empty set passes
      all of its cost on within itself. */
  lemma SingularExactlyWhenClosed(a: Matrix, n: nat)
    requires Substochastic(a, n)
    ensures (exists z :: IsFixed(a, n, z)) <==> (exists w :: LeakFree(a, n, w))
  {
    if z :| IsFixed(a, n, z) { KernelLeakFree(a, n, z); }
    if w :| LeakFree(a, n, w) { LeakFreeSingular(a, n, w); }
  }

  // --------------------------------------------------------- the sign of an answer

  lemma {:induction false} Least(x: Row) returns (m: nat)
    requires x != []
    ensures m < |x| && forall i :: 0 <= i < |x| ==> x[m] <= x[i]
  {
    m := 0;
    if |x| > 1 {
      var k := Least(x[1..]);
      m := if x[k + 1] < x[0] then k + 1 else 0;
      assert forall i :: 1 <= i < |x| ==> x[i] == x[1..][i - 1];
    }
  }

  /** Where a row takes one value. */
  ghost function Level(x: Row, m: real): (w: Row)
    ensures |w| == |x| && forall i :: 0 <= i < |x| ==> w[i] == if x[i] == m then 1.0 else 0.0
  {
    seq(|x|, i requires 0 <= i < |x| => if x[i] == m then 1.0 else 0.0)
  }

  ghost function Above(x: Row, m: real): (d: Row)
    ensures |d| == |x| && forall i :: 0 <= i < |x| ==> d[i] == x[i] - m
  {
    seq(|x|, i requires 0 <= i < |x| => x[i] - m)
  }

  lemma {:induction false} DotAdds(r: Row, u: Row, v: Row, w: Row, k: nat)
    requires k <= |r| && k <= |u| && k <= |v| && k <= |w| && forall i :: 0 <= i < k ==> w[i] == u[i] + v[i]
    ensures Dot(r, w, k) == Dot(r, u, k) + Dot(r, v, k)
  {
    if k > 0 {
      var j := k - 1;
      DotAdds(r, u, v, w, j);
      DotLast(r, u, j);
      DotLast(r, v, j);
      DotLast(r, w, j);
      hide Dot;
      TermAdds(r[j], u[j], v[j], w[j]);
    }
  }

  lemma TermAdds(r: real, u: real, v: real, w: real)
    requires w == u + v
    ensures r * w == r * u + r * v
  {
  }

  ghost function Flat(n: nat, m: real): (w: Row)
    ensures |w| == n && forall i :: 0 <= i < n ==> w[i] == m
  {
    seq(n, _ => m)
  }

  lemma {:induction false} DotFlat(r: Row, m: real, n: nat, k: nat)
    requires k <= |r| && k <= n
    ensures Dot(r, Flat(n, m), k) == m * Dot(r, Ones(n), k)
  {
    if k > 0 {
      var j := k - 1;
      DotFlat(r, m, n, j);
      DotLast(r, Flat(n, m), j);
      DotLast(r, Ones(n), j);
      hide Dot;
      FlatTerm(r[j], m, Dot(r, Ones(n), j));
    }
  }

  lemma FlatTerm(r: real, m: real, u: real)
    ensures m * u + r * m == m * (u + r * 1.0)
  {
  }

  lemma SignOfMultiple(m: real, t: real)
    requires m < 0.0 && t >= 0.0
    ensures m * t <= 0.0 && (t > 0.0 ==> m * t < 0.0)
  {
  }

  lemma OneFactorZero(p: real, q: real)
    requires p >= 0.0 && q >= 0.0 && p * q <= 0.0
    ensures p == 0.0 || q == 0.0
  {
  }

  lemma NothingAbove(m: real, s: real, d: real)
    requires m < 0.0 && s <= 1.0 && d >= 0.0 && m >= d + m * s
    ensures s == 1.0 && d == 0.0
  {
    SignOfMultiple(m, 1.0 - s);
    assert m * (1.0 - s) == m - m * s;
  }

  /** A vertex at the negative least value passes everything on at that value. */
  lemma {:induction false} LeastPassesOn(r: Row, x: Row, m: real, n: nat)
    requires n == |r| == |x| && m < 0.0 && forall j :: 0 <= j < n ==> r[j] >= 0.0 && x[j] >= m
    requires Dot(r, Ones(n), n) <= 1.0 && m >= Dot(r, x, n)
    ensures Dot(r, Level(x, m), n) == 1.0
  {
    hide Dot;
    var d := Above(x, m);
    DotAdds(r, d, Flat(n, m), x, n);
    DotFlat(r, m, n, n);
    DotGap(r, Zeros(n), d, n, 0);
    DotZeros(r, n, n);
    NothingAbove(m, Dot(r, Ones(n), n), Dot(r, d, n));
    forall j | 0 <= j < n ensures r[j] == 0.0 || Level(x, m)[j] == 1.0 {
      DotGap(r, Zeros(n), d, n, j);
      OneFactorZero(r[j], d[j]);
    }
    DotSame(r, Level(x, m), Ones(n), n);
  }

  lemma {:induction false} LeastLevelLeakFree(a: Matrix, n: nat, x: Row, k: nat)
    requires Substochastic(a, n) && |x| == n && k < n && x[k] < 0.0
    requires forall i :: 0 <= i < n ==> x[i] >= x[k] && x[i] >= Dot(a[i], x, n)
    ensures LeakFree(a, n, Level(x, x[k]))
  {
    hide Dot;
    var w := Level(x, x[k]);
    assert w[k] == 1.0;
    forall i | 0 <= i < n && w[i] == 1.0 ensures Dot(a[i], w, n) == 1.0 {
      LeastPassesOn(a[i], x, x[k], n);
    }
  }

  /** Without a leak-free set, a vector nowhere below what it passes itself is nowhere
      negative. */
  lemma {:induction false} NoneBelowZero(a: Matrix, n: nat, x: Row)
    requires Substochastic(a, n) && |x| == n && forall i :: 0 <= i < n ==> x[i] >= Dot(a[i], x, n)
    requires forall w :: !LeakFree(a, n, w)
    ensures forall i :: 0 <= i < n ==> x[i] >= 0.0
  {
    hide Dot, LeakFree, Substochastic;
    if n > 0 {
      var k := Least(x);
      if x[k] < 0.0 {
        LeastLevelLeakFree(a, n, x, k);
        assert false;
      }
    }
  }

  /** Without a leak-free set and with non-negative primary costs, every total is
      at least its own primary cost. */
  lemma TotalsCoverPrimary(a: Matrix, b: Row, x: Row)
    requires Substochastic(a, |b|) && Solves(a, b, x)
    requires forall i :: 0 <= i < |b| ==> b[i] >= 0.0
    requires forall w :: !LeakFree(a, |b|, w)
    ensures forall i :: 0 <= i < |b| ==> x[i] >= b[i] >= 0.0
  {
    forall i | 0 <= i < |b| ensures x[i] >= 0.0 {
      if x[i] < 0.0 { NegativeLeakFree(a, b, x); }
    }
    forall i | 0 <= i < |b| ensures x[i] >= b[i] {
      InflowTerm(a, |b|, x, i, i, |b|);
    }
  }
}
