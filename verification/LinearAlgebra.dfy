/** Augmented real matrices and Gauss-Jordan elimination on them: the meaning of
    the in-place elimination over exact rationals. */
module LinearAlgebra {

  type Row = seq<real>
  type Matrix = seq<seq<real>>

  /** `n` rows of `n + 1` entries, the last being the right-hand side. */
  ghost predicate Augmented(m: Matrix, n: nat) {
    |m| == n && forall i :: 0 <= i < n ==> |m[i]| == n + 1
  }

  /** Inner product of the first `k` entries. */
  ghost function Dot(r: Row, y: Row, k: nat): real
    requires k <= |r| && k <= |y|
  {
    if k == 0 then 0.0 else Dot(r, y, k - 1) + r[k - 1] * y[k - 1]
  }

  /** `y` is annihilated by every row. With last entry -1 it is a solution of the
      system, with last entry 0 a kernel vector. */
  ghost predicate Annihilates(m: Matrix, n: nat, y: Row)
    requires Augmented(m, n)
  {
    |y| == n + 1 && forall i :: 0 <= i < n ==> Dot(m[i], y, n + 1) == 0.0
  }

  lemma {:induction false} DotCombination(r: Row, p: Row, s: Row, a: real, c: real, y: Row, k: nat)
    requires k <= |r| && k <= |p| && k <= |s| && k <= |y|
    requires forall j :: 0 <= j < k ==> s[j] == a * r[j] + c * p[j]
    ensures Dot(s, y, k) == a * Dot(r, y, k) + c * Dot(p, y, k)
  {
    if k > 0 {
      DotCombination(r, p, s, a, c, y, k - 1);
      Distribute(a, r[k - 1], c, p[k - 1], y[k - 1]);
      assert a * Dot(r, y, k) == a * Dot(r, y, k - 1) + a * (r[k - 1] * y[k - 1]);
      assert c * Dot(p, y, k) == c * Dot(p, y, k - 1) + c * (p[k - 1] * y[k - 1]);
    }
  }

  lemma Distribute(a: real, r: real, c: real, p: real, y: real)
    ensures (a * r + c * p) * y == a * (r * y) + c * (p * y)
  {
  }

  // ------------------------------------------------------------- one column step

  /** The first row at or below `row` with a non-zero entry in column `col`. */
  ghost function PivotRow(m: Matrix, n: nat, col: nat, row: nat): (p: nat)
    requires Augmented(m, n) && col < n && row <= n
    ensures row <= p <= n
    ensures forall i :: row <= i < p ==> m[i][col] == 0.0
    ensures p < n ==> m[p][col] != 0.0
    decreases n - row
  {
    if row == n || m[row][col] != 0.0 then row else PivotRow(m, n, col, row + 1)
  }

  ghost function Swapped(m: Matrix, a: nat, b: nat): (r: Matrix)
    requires a < |m| && b < |m|
  {
    m[a := m[b]][b := m[a]]
  }

  ghost function Scaled(r: Row, c: real): (s: Row)
    requires c != 0.0
    ensures |s| == |r|
    ensures forall j :: 0 <= j < |r| ==> s[j] == r[j] / c
  {
    if r == [] then [] else Scaled(r[..|r| - 1], c) + [r[|r| - 1] / c]
  }

  ghost function Minus(r: Row, f: real, p: Row): (s: Row)
    requires |r| == |p|
    ensures |s| == |r|
    ensures forall j :: 0 <= j < |r| ==> s[j] == r[j] - f * p[j]
  {
    if r == [] then [] else Minus(r[..|r| - 1], f, p[..|r| - 1]) + [r[|r| - 1] - f * p[|r| - 1]]
  }

  /** Every row but `col` loses its multiple of the pivot row; rows from `k` on
      are still to do. */
  ghost function Cleared(m: Matrix, n: nat, col: nat, k: nat): (r: Matrix)
    requires Augmented(m, n) && col < n && k <= n
    ensures Augmented(r, n)
    ensures forall i :: 0 <= i < n ==> r[i] == if i < k && i != col then Minus(m[i], m[i][col], m[col]) else m[i]
  {
    if k == 0 then m
    else if k - 1 == col then Cleared(m, n, col, k - 1)
    else Cleared(m, n, col, k - 1)[k - 1 := Minus(m[k - 1], m[k - 1][col], m[col])]
  }

  ghost function PivotScaled(m: Matrix, n: nat, col: nat, p: nat): (r: Matrix)
    requires Augmented(m, n) && col <= p < n && m[p][col] != 0.0
    ensures Augmented(r, n)
  {
    var s := Swapped(m, col, p);
    s[col := Scaled(s[col], s[col][col])]
  }

  /** Swap the pivot row up, scale it to a unit pivot, clear the column elsewhere. */
  ghost function Step(m: Matrix, n: nat, col: nat, p: nat): (r: Matrix)
    requires Augmented(m, n) && col <= p < n && m[p][col] != 0.0
    ensures Augmented(r, n)
  {
    Cleared(PivotScaled(m, n, col, p), n, col, n)
  }

  datatype Outcome = Singular | Solution(x: Row)

  /** Gauss-Jordan elimination with the first non-zero pivot, from column `col` on. */
  ghost function Eliminate(m: Matrix, n: nat, col: nat): (o: Outcome)
    requires Augmented(m, n) && col <= n
    decreases n - col
  {
    if col == n then Solution(LastColumn(m, n, n))
    else
      var p := PivotRow(m, n, col, col);
      if p == n then Singular else Eliminate(Step(m, n, col, p), n, col + 1)
  }

  ghost function LastColumn(m: Matrix, n: nat, k: nat): (x: Row)
    requires Augmented(m, n) && k <= n
    ensures |x| == k && forall i :: 0 <= i < k ==> x[i] == m[i][n]
  {
    if k == 0 then [] else LastColumn(m, n, k - 1) + [m[k - 1][n]]
  }

  // ------------------------------------------------------- what the steps preserve

  /** The columns before `col` are the first unit vectors. */
  ghost predicate UnitColumns(m: Matrix, n: nat, col: nat)
    requires Augmented(m, n) && col <= n
  {
    forall i, j :: 0 <= i < n && 0 <= j < col ==> m[i][j] == if i == j then 1.0 else 0.0
  }

  lemma PivotScaledRows(m: Matrix, n: nat, col: nat, p: nat)
    requires Augmented(m, n) && col <= p < n && m[p][col] != 0.0
    ensures var r := PivotScaled(m, n, col, p);
      && r[col] == Scaled(m[p], m[p][col])
      && (p != col ==> r[p] == m[col])
      && (forall i :: 0 <= i < n && i != col && i != p ==> r[i] == m[i])
  {
  }

  lemma SelfQuotient(c: real)
    requires c != 0.0
    ensures c / c == 1.0
  {
  }

  lemma PivotScaledUnit(m: Matrix, n: nat, col: nat, p: nat)
    requires Augmented(m, n) && col <= p < n && m[p][col] != 0.0
    requires UnitColumns(m, n, col)
    ensures UnitColumns(PivotScaled(m, n, col, p), n, col)
    ensures PivotScaled(m, n, col, p)[col][col] == 1.0
  {
    PivotScaledRows(m, n, col, p);
    var r := PivotScaled(m, n, col, p);
    SelfQuotient(m[p][col]);
    assert r[col][col] == m[p][col] / m[p][col];
    forall i, j | 0 <= i < n && 0 <= j < col ensures r[i][j] == if i == j then 1.0 else 0.0 {
      if i == col {
        assert r[col][j] == m[p][j] / m[p][col];
      } else if i == p {
        assert r[i] == m[col];
      } else {
        assert r[i] == m[i];
      }
    }
  }

  lemma ClearedUnit(m: Matrix, n: nat, col: nat)
    requires Augmented(m, n) && col < n
    requires UnitColumns(m, n, col) && m[col][col] == 1.0
    ensures UnitColumns(Cleared(m, n, col, n), n, col + 1)
  {
    var r := Cleared(m, n, col, n);
    forall i, j | 0 <= i < n && 0 <= j < col + 1 ensures r[i][j] == if i == j then 1.0 else 0.0 {
      if i != col { assert r[i][j] == m[i][j] - m[i][col] * m[col][j]; }
    }
  }

  lemma StepUnit(m: Matrix, n: nat, col: nat, p: nat)
    requires Augmented(m, n) && col <= p < n && m[p][col] != 0.0
    requires UnitColumns(m, n, col)
    ensures UnitColumns(Step(m, n, col, p), n, col + 1)
  {
    hide UnitColumns, PivotScaled, Cleared;
    PivotScaledUnit(m, n, col, p);
    ClearedUnit(PivotScaled(m, n, col, p), n, col);
  }

  /** A step neither gains nor loses annihilated vectors. */
  lemma StepAnnihilates(m: Matrix, n: nat, col: nat, p: nat, y: Row)
    requires Augmented(m, n) && col <= p < n && m[p][col] != 0.0 && |y| == n + 1
    ensures Annihilates(Step(m, n, col, p), n, y) <==> Annihilates(m, n, y)
  {
    PivotScaledAnnihilates(m, n, col, p, y);
    ClearedAnnihilates(PivotScaled(m, n, col, p), n, col, y);
  }

  lemma {:induction false} DotScaled(r: Row, s: Row, c: real, y: Row, k: nat)
    requires c != 0.0 && k <= |r| == |s| && k <= |y|
    requires forall j :: 0 <= j < |r| ==> s[j] == r[j] / c
    ensures Dot(r, y, k) == c * Dot(s, y, k)
  {
    if k > 0 {
      DotScaled(r, s, c, y, k - 1);
      assert r[k - 1] == c * s[k - 1];
      assert (c * s[k - 1]) * y[k - 1] == c * (s[k - 1] * y[k - 1]);
    }
  }

  lemma PivotScaledAnnihilates(m: Matrix, n: nat, col: nat, p: nat, y: Row)
    requires Augmented(m, n) && col <= p < n && m[p][col] != 0.0 && |y| == n + 1
    ensures Annihilates(PivotScaled(m, n, col, p), n, y) <==> Annihilates(m, n, y)
  {
    var r := PivotScaled(m, n, col, p);
    PivotScaledRows(m, n, col, p);
    hide PivotScaled, Dot;
    DotScaled(m[p], r[col], m[p][col], y, n + 1);
    assert Dot(m[p], y, n + 1) == 0.0 <==> Dot(r[col], y, n + 1) == 0.0;
    forall i | 0 <= i < n ensures Annihilates(r, n, y) ==> Dot(m[i], y, n + 1) == 0.0 {
      assert i != p ==> m[i] == r[if i == col then p else i];
    }
    forall i | 0 <= i < n ensures Annihilates(m, n, y) ==> Dot(r[i], y, n + 1) == 0.0 {
      assert i != col ==> r[i] == m[if i == p then col else i];
    }
  }

  lemma {:induction false} ClearedAnnihilates(m: Matrix, n: nat, col: nat, y: Row)
    requires Augmented(m, n) && col < n && |y| == n + 1
    ensures Annihilates(Cleared(m, n, col, n), n, y) <==> Annihilates(m, n, y)
  {
    hide Dot, Cleared;
    var r := Cleared(m, n, col, n);
    forall i | 0 <= i < n && i != col
      ensures Dot(r[i], y, n + 1) == Dot(m[i], y, n + 1) - m[i][col] * Dot(m[col], y, n + 1)
    {
      DotCombination(m[i], m[col], r[i], 1.0, -m[i][col], y, n + 1);
    }
    assert r[col] == m[col];
  }

  // ---------------------------------------------------------------- the outcome

  /** Inner product with a row that is a unit vector on its first `k` entries. */
  lemma {:induction false} DotUnit(r: Row, y: Row, i: nat, k: nat)
    requires k <= |r| && k <= |y|
    requires forall j :: 0 <= j < k ==> r[j] == if i == j then 1.0 else 0.0
    ensures Dot(r, y, k) == if i < k then y[i] else 0.0
  {
    if k > 0 { DotUnit(r, y, i, k - 1); }
  }

  /** With all columns unit, exactly the vectors agreeing with the last column
      are annihilated. */
  lemma UnitAnnihilates(m: Matrix, n: nat, y: Row)
    requires Augmented(m, n) && UnitColumns(m, n, n) && |y| == n + 1
    ensures Annihilates(m, n, y) <==> forall i :: 0 <= i < n ==> y[i] == -(m[i][n] * y[n])
  {
    forall i | 0 <= i < n ensures Dot(m[i], y, n + 1) == y[i] + m[i][n] * y[n] {
      DotUnit(m[i], y, i, n);
    }
    if Annihilates(m, n, y) {
      forall i | 0 <= i < n ensures y[i] == -(m[i][n] * y[n]) {
        assert Dot(m[i], y, n + 1) == 0.0;
      }
    }
  }

  /** The kernel vector read off a column with no pivot. */
  ghost function FailedColumn(m: Matrix, n: nat, col: nat, k: nat): (y: Row)
    requires Augmented(m, n) && col < n && k <= n + 1
    ensures |y| == k
    ensures forall i :: 0 <= i < k ==> y[i] == if i < col then -m[i][col] else if i == col then 1.0 else 0.0
  {
    if k == 0 then []
    else FailedColumn(m, n, col, k - 1) + [if k - 1 < col then -m[k - 1][col] else if k - 1 == col then 1.0 else 0.0]
  }

  lemma {:induction false} FailedColumnAnnihilates(m: Matrix, n: nat, col: nat)
    requires Augmented(m, n) && col < n && UnitColumns(m, n, col)
    requires PivotRow(m, n, col, col) == n
    ensures Annihilates(m, n, FailedColumn(m, n, col, n + 1))
  {
    var y := FailedColumn(m, n, col, n + 1);
    forall i | 0 <= i < n ensures Dot(m[i], y, n + 1) == 0.0 {
      DotUnit(m[i], y, i, col);
      assert Dot(m[i], y, col + 1) == 0.0;
      DotZeroTail(m[i], y, col + 1, n + 1);
    }
  }

  lemma {:induction false} DotZeroTail(r: Row, y: Row, k: nat, l: nat)
    requires k <= l <= |r| && l <= |y|
    requires forall j :: k <= j < l ==> y[j] == 0.0
    ensures Dot(r, y, l) == Dot(r, y, k)
  {
    if k < l { DotZeroTail(r, y, k, l - 1); }
  }

  /** A solution paired with -1 ... */
  ghost predicate IsSolution(m: Matrix, n: nat, x: Row)
    requires Augmented(m, n)
  {
    |x| == n && Annihilates(m, n, x + [-1.0])
  }

  /** ... and a non-zero vector of the homogeneous system paired with 0. */
  ghost predicate IsKernel(m: Matrix, n: nat, z: Row)
    requires Augmented(m, n)
  {
    |z| == n && Annihilates(m, n, z + [0.0]) && exists i :: 0 <= i < n && z[i] != 0.0
  }

  /** What an outcome says of a system: a solution is the only one and there is no
      kernel; `Singular` means there is a kernel vector. */
  ghost predicate Decides(m: Matrix, n: nat, o: Outcome)
    requires Augmented(m, n)
  {
    match o
    case Solution(x) =>
      && IsSolution(m, n, x)
      && (forall x' :: IsSolution(m, n, x') ==> x' == x)
      && (forall z :: !IsKernel(m, n, z))
    case Singular => exists z :: IsKernel(m, n, z)
  }

  /** The elimination decides the system it is given. */
  lemma {:induction false} EliminateDecides(m: Matrix, n: nat, col: nat)
    requires Augmented(m, n) && col <= n && UnitColumns(m, n, col)
    ensures Decides(m, n, Eliminate(m, n, col))
    decreases n - col
  {
    hide Decides, UnitColumns, Step;
    if col == n {
      UnitDecides(m, n);
    } else {
      var p := PivotRow(m, n, col, col);
      if p == n {
        FailedColumnKernel(m, n, col);
      } else {
        StepUnit(m, n, col, p);
        var s := Step(m, n, col, p);
        EliminateDecides(s, n, col + 1);
        StepDecides(m, n, col, p, Eliminate(s, n, col + 1));
      }
    }
  }

  lemma StepDecides(m: Matrix, n: nat, col: nat, p: nat, o: Outcome)
    requires Augmented(m, n) && col <= p < n && m[p][col] != 0.0
    requires Decides(Step(m, n, col, p), n, o)
    ensures Decides(m, n, o)
  {
    hide IsSolution, IsKernel, Step;
    StepSolutions(m, n, col, p);
  }

  lemma {:induction false} FailedColumnKernel(m: Matrix, n: nat, col: nat)
    requires Augmented(m, n) && col < n && UnitColumns(m, n, col)
    requires PivotRow(m, n, col, col) == n
    ensures Decides(m, n, Singular)
  {
    FailedColumnAnnihilates(m, n, col);
    var y := FailedColumn(m, n, col, n + 1);
    assert y == y[..n] + [0.0];
    assert y[..n][col] == 1.0;
    assert IsKernel(m, n, y[..n]);
  }

  lemma StepSolutions(m: Matrix, n: nat, col: nat, p: nat)
    requires Augmented(m, n) && col <= p < n && m[p][col] != 0.0
    ensures forall x :: IsSolution(Step(m, n, col, p), n, x) <==> IsSolution(m, n, x)
    ensures forall z :: IsKernel(Step(m, n, col, p), n, z) <==> IsKernel(m, n, z)
  {
    hide Step, Annihilates;
    var s := Step(m, n, col, p);
    forall x ensures IsSolution(s, n, x) <==> IsSolution(m, n, x) {
      if |x| == n { StepAnnihilates(m, n, col, p, x + [-1.0]); }
    }
    forall z ensures IsKernel(s, n, z) <==> IsKernel(m, n, z) {
      if |z| == n { StepAnnihilates(m, n, col, p, z + [0.0]); }
    }
  }

  lemma {:induction false} UnitDecides(m: Matrix, n: nat)
    requires Augmented(m, n) && UnitColumns(m, n, n)
    ensures Decides(m, n, Solution(LastColumn(m, n, n)))
  {
    var x := LastColumn(m, n, n);
    UnitAnnihilates(m, n, x + [-1.0]);
    forall x' | IsSolution(m, n, x') ensures x' == x {
      UnitAnnihilates(m, n, x' + [-1.0]);
      forall i | 0 <= i < n ensures x'[i] == x[i] {
        assert (x' + [-1.0])[i] == -(m[i][n] * (x' + [-1.0])[n]);
      }
    }
    forall z ensures !IsKernel(m, n, z) {
      if |z| == n && Annihilates(m, n, z + [0.0]) {
        UnitAnnihilates(m, n, z + [0.0]);
        forall i | 0 <= i < n ensures z[i] == 0.0 {
          assert (z + [0.0])[i] == -(m[i][n] * (z + [0.0])[n]);
        }
      }
    }
  }

  // ---------------------------------------------------------- the system x (I - A) = b

  ghost predicate Square<T>(a: seq<seq<T>>, n: nat) {
    |a| == n && forall i :: 0 <= i < n ==> |a[i]| == n
  }

  /** Entry (i, j) of the augmented matrix `(I - A)^T | b`. */
  ghost function SystemEntry(a: Matrix, b: Row, i: nat, j: nat): real
    requires Square(a, |b|) && i < |b| && j <= |b|
  {
    if j == |b| then b[i] else (if i == j then 1.0 else 0.0) - a[j][i]
  }

  ghost predicate IsSystem(m: Matrix, a: Matrix, b: Row) {
    Augmented(m, |b|) && Square(a, |b|) && EntriesMatch(m, a, b)
  }

  ghost predicate EntriesMatch(m: Matrix, a: Matrix, b: Row)
    requires Augmented(m, |b|) && Square(a, |b|)
  {
    forall i, j :: 0 <= i < |b| && 0 <= j <= |b| ==> m[i][j] == SystemEntry(a, b, i, j)
  }

  ghost function SystemOf(a: Matrix, b: Row): (m: Matrix)
    requires Square(a, |b|)
    ensures IsSystem(m, a, b)
  {
    seq(|b|, i requires 0 <= i < |b| => seq(|b| + 1, j requires 0 <= j < |b| + 1 => SystemEntry(a, b, i, j)))
  }

  /** What flows into `i` from the first `k` vertices: the sum of x_j A_ji. */
  ghost function Inflow(a: Matrix, n: nat, x: Row, i: nat, k: nat): real
    requires Square(a, n) && |x| == n && i < n && k <= n
  {
    if k == 0 then 0.0 else Inflow(a, n, x, i, k - 1) + x[k - 1] * a[k - 1][i]
  }

  lemma InflowStep(a: Matrix, n: nat, x: Row, i: nat, k: nat)
    requires Square(a, n) && |x| == n && i < n && k < n
    ensures Inflow(a, n, x, i, k + 1) == Inflow(a, n, x, i, k) + x[k] * a[k][i]
  {
  }

  /** `x = b + x A`. */
  ghost predicate Solves(a: Matrix, b: Row, x: Row)
    requires Square(a, |b|)
  {
    |x| == |b| && forall i :: 0 <= i < |b| ==> x[i] == b[i] + Inflow(a, |b|, x, i, |b|)
  }

  /** A non-zero `z` with `z = z A`. */
  ghost predicate IsFixed(a: Matrix, n: nat, z: Row)
    requires Square(a, n)
  {
    && |z| == n
    && (forall i :: 0 <= i < n ==> z[i] == Inflow(a, n, z, i, n))
    && exists i :: 0 <= i < n && z[i] != 0.0
  }

  lemma {:induction false} SystemDot(m: Matrix, a: Matrix, b: Row, x: Row, last: real, i: nat, k: nat)
    requires IsSystem(m, a, b) && |x| == |b| && i < |b| && k <= |b|
    ensures Dot(m[i], x + [last], k) == (if i < k then x[i] else 0.0) - Inflow(a, |b|, x, i, k)
  {
    if k > 0 {
      SystemDot(m, a, b, x, last, i, k - 1);
      var unit := if i == k - 1 then 1.0 else 0.0;
      EntryAt(m, a, b, i, k - 1);
      assert m[i][k - 1] == unit - a[k - 1][i];
      assert (unit - a[k - 1][i]) * x[k - 1] == unit * x[k - 1] - x[k - 1] * a[k - 1][i];
    }
  }

  lemma EntryAt(m: Matrix, a: Matrix, b: Row, i: nat, j: nat)
    requires IsSystem(m, a, b) && i < |b| && j <= |b|
    ensures m[i][j] == SystemEntry(a, b, i, j)
  {
  }

  lemma DotLast(r: Row, y: Row, k: nat)
    requires k < |r| && k < |y|
    ensures Dot(r, y, k + 1) == Dot(r, y, k) + r[k] * y[k]
  {
  }

  lemma {:induction false} SystemRow(m: Matrix, a: Matrix, b: Row, x: Row, last: real, i: nat)
    requires IsSystem(m, a, b) && |x| == |b| && i < |b|
    ensures Dot(m[i], x + [last], |b| + 1) == x[i] - Inflow(a, |b|, x, i, |b|) + b[i] * last
  {
    hide Inflow, EntriesMatch;
    SystemDot(m, a, b, x, last, i, |b|);
    DotLast(m[i], x + [last], |b|);
    EntryAt(m, a, b, i, |b|);
    SameProduct(m[i][|b|], (x + [last])[|b|], b[i], last);
  }

  lemma SameProduct(p: real, q: real, r: real, s: real)
    requires p == r && q == s
    ensures p * q == r * s
  {
  }

  /** Solutions and kernel vectors of the augmented matrix are those of the system. */
  lemma SystemMeaning(m: Matrix, a: Matrix, b: Row)
    requires IsSystem(m, a, b)
    ensures forall x :: IsSolution(m, |b|, x) <==> Solves(a, b, x)
    ensures forall z :: IsKernel(m, |b|, z) <==> IsFixed(a, |b|, z)
  {
    hide EntriesMatch, Dot, Inflow;
    forall x ensures IsSolution(m, |b|, x) <==> Solves(a, b, x) {
      if |x| == |b| {
        forall i | 0 <= i < |b| ensures Dot(m[i], x + [-1.0], |b| + 1) == x[i] - Inflow(a, |b|, x, i, |b|) - b[i] {
          SystemRow(m, a, b, x, -1.0, i);
        }
      }
    }
    forall z ensures IsKernel(m, |b|, z) <==> IsFixed(a, |b|, z) {
      if |z| == |b| {
        forall i | 0 <= i < |b| ensures Dot(m[i], z + [0.0], |b| + 1) == z[i] - Inflow(a, |b|, z, i, |b|) {
          SystemRow(m, a, b, z, 0.0, i);
        }
      }
    }
  }
}
