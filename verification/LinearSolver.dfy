/** The solver of `x (I - A) = b`: Gauss-Jordan elimination over exact rationals,
    on rows that are swapped and overwritten in place. */
module LinearSolver {
  import opened Options
  import opened ExactRational
  import opened LinearAlgebra

  type RationalMatrix = seq<seq<Rational>>

  ghost function RowView(r: seq<Rational>): (v: Row)
    ensures |v| == |r| && forall j :: 0 <= j < |r| ==> v[j] == Val(r[j])
  {
    if r == [] then [] else RowView(r[..|r| - 1]) + [Val(r[|r| - 1])]
  }

  ghost function View(m: RationalMatrix): (v: Matrix)
    ensures |v| == |m| && forall i :: 0 <= i < |m| ==> v[i] == RowView(m[i])
  {
    if m == [] then [] else View(m[..|m| - 1]) + [RowView(m[|m| - 1])]
  }

  ghost predicate Wide(m: RationalMatrix, n: nat) {
    |m| == n && forall i :: 0 <= i < n ==> |m[i]| == n + 1
  }

  method BuildRow(a: RationalMatrix, b: seq<Rational>, i: nat) returns (row: seq<Rational>)
    requires Square(a, |b|) && i < |b|
    ensures |row| == |b| + 1
    ensures forall j :: 0 <= j <= |b| ==> Val(row[j]) == SystemEntry(View(a), RowView(b), i, j)
  {
    hide RSub, Val;
    var n := |b|;
    row := [];
    UnitValues();
    for j := 0 to n + 1
      invariant |row| == j
      invariant forall k :: 0 <= k < j ==> Val(row[k]) == SystemEntry(View(a), RowView(b), i, k)
    {
      var entry := if j == n then b[i] else RSub(if i == j then R_ONE else R_ZERO, a[j][i]);
      row := row + [entry];
    }
  }

  method Build(a: RationalMatrix, b: seq<Rational>) returns (m: array<seq<Rational>>)
    requires Square(a, |b|)
    ensures fresh(m) && m.Length == |b| && Wide(m[..], |b|) && IsSystem(View(m[..]), View(a), RowView(b))
  {
    hide Val;
    var n := |b|;
    m := new seq<Rational>[n](_ => []);
    for i := 0 to n
      invariant forall k :: 0 <= k < i ==> |m[k]| == n + 1
      invariant forall k, j :: 0 <= k < i && 0 <= j <= n ==> Val(m[k][j]) == SystemEntry(View(a), RowView(b), k, j)
    {
      var row := BuildRow(a, b, i);
      m[i] := row;
    }
  }

  lemma UnitValues()
    ensures Val(R_ONE) == 1.0 && Val(R_ZERO) == 0.0
  {
  }

  method FindPivot(m: array<seq<Rational>>, col: nat) returns (pivot: int)
    requires Wide(m[..], m.Length) && col < m.Length
    ensures var p := PivotRow(View(m[..]), m.Length, col, col);
      pivot == if p == m.Length then -1 else p
  {
    pivot := -1;
    for row := col to m.Length
      invariant PivotRow(View(m[..]), m.Length, col, col) == PivotRow(View(m[..]), m.Length, col, row)
    {
      CompareValues(m[row][col], R_ZERO);
      if !RIsZero(m[row][col]) {
        return row;
      }
    }
  }

  /** An entry divided by the pivot. */
  ghost predicate Divided(x: Rational, y: Rational, pivot: Rational)
    requires pivot.num != 0
  {
    y == RDiv(x, pivot)
  }

  /** Divides the pivot row by its pivot, from the pivot's column on. */
  method NormaliseRow(m: array<seq<Rational>>, col: nat)
    requires Wide(m[..], m.Length) && col < m.Length
    requires forall j :: 0 <= j < col ==> Val(m[col][j]) == 0.0
    requires Val(m[col][col]) != 0.0
    modifies m
    ensures Wide(m[..], m.Length)
    ensures forall i :: 0 <= i < m.Length && i != col ==> m[i] == old(m[i])
    ensures RowView(m[col]) == Scaled(RowView(old(m[col])), Val(old(m[col][col])))
  {
    hide RDiv, Val, Scaled;
    var row := m[col];
    var pivotValue := row[col];
    CompareValues(pivotValue, R_ZERO);
    for j := col to m.Length + 1
      invariant forall i :: 0 <= i < m.Length && i != col ==> m[i] == old(m[i])
      invariant |m[col]| == m.Length + 1
      invariant forall k :: 0 <= k <= m.Length && !(col <= k < j) ==> m[col][k] == row[k]
      invariant forall k :: col <= k < j ==> Divided(row[k], m[col][k], pivotValue)
    {
      m[col] := m[col][j := RDiv(m[col][j], pivotValue)];
    }
    RowDivided(row, m[col], col, pivotValue);
  }

  lemma RowDivided(row: seq<Rational>, divided: seq<Rational>, col: nat, pivot: Rational)
    requires |row| == |divided| && col <= |row| && pivot.num != 0 && Val(pivot) != 0.0
    requires forall k :: 0 <= k < col ==> divided[k] == row[k] && Val(row[k]) == 0.0
    requires forall k :: col <= k < |row| ==> Divided(row[k], divided[k], pivot)
    ensures RowView(divided) == Scaled(RowView(row), Val(pivot))
  {
    hide Divided, Val;
    forall k | 0 <= k < |row| ensures RowView(divided)[k] == Scaled(RowView(row), Val(pivot))[k] {
      if k < col { ZeroDivided(Val(pivot)); } else { DividedValue(row[k], divided[k], pivot); }
    }
  }

  lemma ZeroDivided(p: real)
    requires p != 0.0
    ensures 0.0 / p == 0.0
  {
  }

  lemma DividedValue(x: Rational, y: Rational, pivot: Rational)
    requires pivot.num != 0 && Divided(x, y, pivot) && Val(pivot) != 0.0
    ensures Val(y) == Val(x) / Val(pivot)
  {
    hide RDiv, Val;
  }

  /** Subtracts its multiple of the pivot row from another row, unless it is zero. */
  method ClearRow(m: array<seq<Rational>>, row: nat, col: nat)
    requires Wide(m[..], m.Length) && col < m.Length && row < m.Length && row != col
    requires forall j :: 0 <= j < col ==> Val(m[col][j]) == 0.0
    modifies m
    ensures Wide(m[..], m.Length)
    ensures forall i :: 0 <= i < m.Length && i != row ==> m[i] == old(m[i])
    ensures RowView(m[row]) == Minus(RowView(old(m[row])), Val(old(m[row][col])), RowView(m[col]))
  {
    hide RSub, RMul, Val, RowView, Minus;
    var before, pivotRow := m[row], m[col];
    var factor := before[col];
    CompareValues(factor, R_ZERO);
    if RIsZero(factor) {
      ClearedRow(before, before, Val(factor), pivotRow);
      return;
    }
    for j := col to m.Length + 1
      invariant forall i :: 0 <= i < m.Length && i != row ==> m[i] == old(m[i])
      invariant |m[row]| == m.Length + 1
      invariant forall k :: j <= k <= m.Length ==> m[row][k] == before[k]
      invariant forall k :: 0 <= k < j ==> Val(m[row][k]) == Val(before[k]) - Val(factor) * Val(pivotRow[k])
    {
      m[row] := m[row][j := RSub(m[row][j], RMul(factor, m[col][j]))];
    }
    ClearedRow(before, m[row], Val(factor), pivotRow);
  }

  lemma {:induction false} ClearedRow(before: seq<Rational>, after: seq<Rational>, f: real, p: seq<Rational>)
    requires |before| == |after| == |p|
    requires forall k :: 0 <= k < |p| ==> Val(after[k]) == Val(before[k]) - f * Val(p[k])
    ensures RowView(after) == Minus(RowView(before), f, RowView(p))
  {
    hide Val, RowView, Minus;
    var v, w := RowView(after), Minus(RowView(before), f, RowView(p));
    forall k | 0 <= k < |p| ensures v[k] == w[k] {
      assert w[k] == RowView(before)[k] - f * RowView(p)[k];
    }
  }

  lemma LeadingZeros(m: RationalMatrix, v: Matrix, n: nat, col: nat, i: nat)
    requires Wide(m, n) && Augmented(v, n) && col <= i < n && RowView(m[i]) == v[i]
    requires UnitColumns(v, n, col)
    ensures forall j :: 0 <= j < col ==> Val(m[i][j]) == 0.0
  {
    forall j | 0 <= j < col ensures Val(m[i][j]) == 0.0 { assert v[i][j] == 0.0; }
  }

  lemma {:induction false} ViewRows(m: RationalMatrix, v: Matrix)
    requires |m| == |v| && forall i :: 0 <= i < |m| ==> RowView(m[i]) == v[i]
    ensures View(m) == v
  {
  }

  /** The loop over the rows: each but the pivot row loses its multiple of it. */
  method ClearColumn(m: array<seq<Rational>>, col: nat)
    requires Wide(m[..], m.Length) && col < m.Length
    requires forall j :: 0 <= j < col ==> Val(m[col][j]) == 0.0
    modifies m
    ensures Wide(m[..], m.Length)
    ensures View(m[..]) == Cleared(old(View(m[..])), m.Length, col, m.Length)
  {
    hide Val, Minus, Cleared, RowView, View;
    ghost var n := m.Length;
    ghost var v := View(m[..]);
    ghost var pivotRow := m[col];
    for row := 0 to m.Length
      invariant Wide(m[..], n) && m[col] == pivotRow
      invariant forall i :: row <= i < n ==> RowView(m[i]) == v[i]
      invariant forall i :: 0 <= i < row && i != col ==> RowView(m[i]) == Minus(v[i], v[i][col], v[col])
    {
      if row != col {
        assert m[..][row] == m[row];
        ClearRow(m, row, col);
      }
    }
    ViewRows(m[..], Cleared(v, n, col, n));
  }

  /** One column: swap the pivot up, normalise, clear. The rows end as the pure
      step says. */
  method EliminateColumn(m: array<seq<Rational>>, col: nat, pivot: nat)
    requires Wide(m[..], m.Length) && col <= pivot < m.Length
    requires View(m[..])[pivot][col] != 0.0
    requires UnitColumns(View(m[..]), m.Length, col)
    modifies m
    ensures Wide(m[..], m.Length)
    ensures View(m[..]) == Step(old(View(m[..])), m.Length, col, pivot)
  {
    hide Val, UnitColumns, Scaled, Cleared, RowView, View, PivotScaled;
    ghost var n := m.Length;
    ghost var v0 := View(m[..]);
    LeadingZeros(m[..], v0, n, col, pivot);
    if pivot != col {
      m[col], m[pivot] := m[pivot], m[col];
    }
    NormaliseRow(m, col);
    ghost var v1 := PivotScaled(v0, n, col, pivot);
    PivotScaledRows(v0, n, col, pivot);
    ViewRows(m[..], v1);
    PivotScaledUnit(v0, n, col, pivot);
    LeadingZeros(m[..], v1, n, col, col);
    ClearColumn(m, col);
  }

  /** What the solver promises of `x (I - A) = b`: an answer is the exact solution,
      it is the only one, and no kernel vector exists; no answer means that one does. */
  ghost predicate Settles(a: Matrix, b: Row, r: Option<Row>)
    requires Square(a, |b|)
  {
    match r
    case Some(x) =>
      && Solves(a, b, x)
      && (forall x' :: Solves(a, b, x') ==> x' == x)
      && (forall z :: !IsFixed(a, |b|, z))
    case None => exists z :: IsFixed(a, |b|, z)
  }

  ghost function OutcomeView(r: Option<seq<Rational>>): Option<Row> {
    match r
    case Some(x) => Some(RowView(x))
    case None => None
  }

  /** `solveLinearSystem(a, b)`. */
  method SolveLinearSystem(a: RationalMatrix, b: seq<Rational>) returns (r: Option<seq<Rational>>)
    requires Square(a, |b|)
    ensures r.Some? ==> |r.value| == |b|
    ensures Settles(View(a), RowView(b), OutcomeView(r))
  {
    hide Val, UnitColumns, RowView, View, Step, Settles, Solves, EntriesMatch;
    var n := |b|;
    var m := Build(a, b);
    ghost var system := View(m[..]);
    NoUnitColumns(system, n);
    EliminateDecides(system, n, 0);
    OutcomeSettles(system, View(a), RowView(b), Eliminate(system, n, 0));
    for col := 0 to n
      invariant Wide(m[..], n) && UnitColumns(View(m[..]), n, col)
      invariant Eliminate(system, n, 0) == Eliminate(View(m[..]), n, col)
    {
      var pivot := FindPivot(m, col);
      if pivot == -1 {
        return None;
      }
      StepUnit(View(m[..]), n, col, pivot);
      EliminateColumn(m, col, pivot);
    }
    var x := [];
    for i := 0 to n
      invariant |x| == i && Wide(m[..], n)
      invariant Eliminate(system, n, 0) == Eliminate(View(m[..]), n, n)
      invariant forall k :: 0 <= k < i ==> x[k] == m[k][n]
    {
      x := x + [m[i][n]];
    }
    assert RowView(x) == LastColumn(View(m[..]), n, n);
    assert Eliminate(system, n, 0) == Solution(RowView(x));
    return Some(x);
  }

  lemma OutcomeSettles(m: Matrix, a: Matrix, b: Row, o: Outcome)
    requires IsSystem(m, a, b) && Decides(m, |b|, o)
    ensures Settles(a, b, match o case Singular => None case Solution(x) => Some(x))
  {
    hide EntriesMatch, IsSolution, IsKernel, Solves, IsFixed;
    SystemMeaning(m, a, b);
  }

  /** Every system is settled one way or the other. */
  lemma SystemSettled(a: Matrix, b: Row) returns (r: Option<Row>)
    requires Square(a, |b|)
    ensures Settles(a, b, r)
  {
    var m := SystemOf(a, b);
    NoUnitColumns(m, |b|);
    EliminateDecides(m, |b|, 0);
    var o := Eliminate(m, |b|, 0);
    OutcomeSettles(m, a, b, o);
    r := match o case Singular => None case Solution(x) => Some(x);
  }

  lemma NoUnitColumns(m: Matrix, n: nat)
    requires Augmented(m, n)
    ensures UnitColumns(m, n, 0)
  {
  }
}
