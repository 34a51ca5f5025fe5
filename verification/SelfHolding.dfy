/** When integrated ownership refuses: the structural meaning of a singular system.
    A group of entities holds itself when each of them is held wholly by members of
    the group and by nobody else. */
module SelfHolding {
  import opened Refs
  import opened RefLists
  import opened Graphs
  import opened Colouring
  import opened ExactRational
  import opened LinearAlgebra
  import opened LinearSolver
  import opened Options
  import opened Circulation
  import opened OwnershipModel
  import opened Ownership

  // ------------------------------------------------------------------- transposes

  ghost function Transposed(a: Matrix, n: nat): (t: Matrix)
    requires Square(a, n)
    ensures Square(t, n) && forall i, j :: 0 <= i < n && 0 <= j < n ==> t[i][j] == a[j][i]
  {
    seq(n, i requires 0 <= i < n => seq(n, j requires 0 <= j < n => a[j][i]))
  }

  lemma TransposedTwice(a: Matrix, n: nat)
    requires Square(a, n)
    ensures Transposed(Transposed(a, n), n) == a
  {
    var t := Transposed(Transposed(a, n), n);
    forall i | 0 <= i < n ensures t[i] == a[i] {
      forall j | 0 <= j < n ensures t[i][j] == a[i][j] {}
    }
  }

  lemma {:induction false} PassedIsInflow(a: Matrix, n: nat, y: Row, j: nat, k: nat)
    requires Square(a, n) && |y| == n && j < n && k <= n
    ensures Dot(a[j], y, k) == Inflow(Transposed(a, n), n, y, j, k)
  {
    if k > 0 {
      PassedIsInflow(a, n, y, j, k - 1);
      InflowStep(Transposed(a, n), n, y, j, k - 1);
      DotLast(a[j], y, k - 1);
      Commutes(a[j][k - 1], y[k - 1]);
    }
  }

  lemma {:induction false} SquaresOf(y: Row, k: nat, i: nat)
    requires k <= |y| && i < |y|
    ensures Dot(y, y, k) >= 0.0
    ensures i < k && y[i] != 0.0 ==> Dot(y, y, k) > 0.0
  {
    if k > 0 {
      SquaresOf(y, k - 1, i);
      SquareAdds(y, k - 1);
    }
  }

  lemma SquareAdds(y: Row, k: nat)
    requires k < |y|
    ensures Dot(y, y, k + 1) >= Dot(y, y, k) && (y[k] != 0.0 ==> Dot(y, y, k + 1) > Dot(y, y, k))
  {
    DotLast(y, y, k);
    hide Dot;
    var q := SquareSign(y[k]);
  }

  lemma Commutes(p: real, q: real)
    ensures p * q == q * p
  {
  }

  lemma SquareSign(p: real) returns (q: real)
    ensures q == p * p && q >= 0.0 && (p != 0.0 ==> q > 0.0)
  {
    q := p * p;
    if p > 0.0 {
      ProductPositive(p, p, q);
    } else if p < 0.0 {
      Negated(p);
      ProductPositive(-p, -p, q);
    }
  }

  lemma Negated(p: real)
    ensures (-p) * (-p) == p * p
  {
  }

  lemma ProductPositive(p: real, r: real, q: real)
    requires p > 0.0 && r > 0.0 && q == p * r
    ensures q > 0.0
  {
  }

  /** Charged with a kernel vector of its transpose, a system has no answer. */
  lemma TransposeSingular(a: Matrix, n: nat, y: Row)
    requires Square(a, n) && IsFixed(Transposed(a, n), n, y)
    ensures exists z :: IsFixed(a, n, z)
  {
    hide Dot, Solves, Inflow;
    var o := SystemSettled(a, y);
    if o.Some? {
      Balance(a, y, o.value, y);
      forall j | 0 <= j < n ensures Dot(a[j], y, n) == y[j] { PassedIsInflow(a, n, y, j, n); }
      assert Passed(a, n, y) == y;
      var i :| 0 <= i < n && y[i] != 0.0;
      SquaresOf(y, n, i);
      assert false;
    }
  }

  lemma TransposesTogether(a: Matrix, n: nat)
    requires Square(a, n)
    ensures (exists z :: IsFixed(a, n, z)) <==> (exists y :: IsFixed(Transposed(a, n), n, y))
  {
    hide IsFixed, Transposed;
    if y :| IsFixed(Transposed(a, n), n, y) { TransposeSingular(a, n, y); }
    if z :| IsFixed(a, n, z) {
      TransposedTwice(a, n);
      TransposeSingular(Transposed(a, n), n, z);
    }
  }

  // -------------------------------------------------------------- held by a group

  /** The total weight of the interests in `y` that members of `s` hold. */
  ghost function HeldBy(ins: seq<Interest>, s: set<Ref>, y: Ref): real {
    if ins == [] then 0.0
    else
      var i := ins[|ins| - 1];
      HeldBy(ins[..|ins| - 1], s, y) + if i.to == y && i.from in s then Val(i.weight) else 0.0
  }

  /** A group without the root, each of whose members is held wholly by members of
      the group and by nobody else. */
  ghost predicate SelfContained(ins: seq<Interest>, root: Ref, s: set<Ref>) {
    && s != {} && root !in s
    && (forall y :: y in s ==> HeldBy(ins, s, y) == 1.0)
    && (forall x, y :: x !in s && y in s ==> WeightBetween(ins, x, y) == 0.0)
  }

  /** No interest in an entity other than the root is negative. */
  ghost predicate NonNegative(ins: seq<Interest>, root: Ref) {
    forall k :: 0 <= k < |ins| && ins[k].to != root ==> Val(ins[k].weight) >= 0.0
  }

  /** No interest is negative, and nobody is held more than whole, the root apart:
      what is held in the root plays no part. */
  ghost predicate Proportionate(ins: seq<Interest>, root: Ref) {
    NonNegative(ins, root) && forall y :: y != root ==> HeldIn(ins, y) <= 1.0
  }

  lemma {:induction false} HeldParts(ins: seq<Interest>, root: Ref, s: set<Ref>, x: Ref, y: Ref)
    requires NonNegative(ins, root) && y != root
    ensures WeightBetween(ins, x, y) >= 0.0 && 0.0 <= HeldBy(ins, s, y) <= HeldIn(ins, y)
    ensures x !in s ==> HeldBy(ins, s, y) + WeightBetween(ins, x, y) <= HeldIn(ins, y)
  {
    hide Val;
    if ins != [] { HeldParts(ins[..|ins| - 1], root, s, x, y); }
  }

  lemma {:induction false} HeldIsMentioned(ins: seq<Interest>, s: set<Ref>, y: Ref)
    requires HeldBy(ins, s, y) != 0.0
    ensures y in Endpoints(ins)
  {
    hide Val, Endpoints;
    if ins != [] {
      var i := ins[|ins| - 1];
      if i.to == y {
        assert Mentions(ins, y);
      } else {
        HeldIsMentioned(ins[..|ins| - 1], s, y);
        MentionsLast(ins, y);
      }
    }
  }

  // ------------------------------------------------------- a group as an indicator

  ghost function GroupRow(es: seq<Ref>, s: set<Ref>): (w: Row)
    ensures |w| == |es| && forall i :: 0 <= i < |es| ==> w[i] == if es[i] in s then 1.0 else 0.0
  {
    seq(|es|, i requires 0 <= i < |es| => if es[i] in s then 1.0 else 0.0)
  }

  /** What each entity holds in `y`, the root left out. */
  ghost function HoldersRow(ins: seq<Interest>, es: seq<Ref>, r: nat, y: Ref): (c: Row)
    ensures |c| == |es| && forall j :: 0 <= j < |es| ==> c[j] == if j == r then 0.0 else WeightBetween(ins, es[j], y)
  {
    seq(|es|, j requires 0 <= j < |es| => if j == r then 0.0 else WeightBetween(ins, es[j], y))
  }

  lemma {:induction false} DotPoint(c: Row, d: Row, v: Row, p: nat, w: real, k: nat)
    requires k <= |c| && k <= |d| && k <= |v| && p < |v|
    requires forall j :: 0 <= j < k ==> d[j] == c[j] + if j == p then w else 0.0
    ensures Dot(d, v, k) == Dot(c, v, k) + if p < k then w * v[p] else 0.0
  {
    if k > 0 {
      DotPoint(c, d, v, p, w, k - 1);
      DotLast(c, v, k - 1);
      DotLast(d, v, k - 1);
      TermPoint(c[k - 1], d[k - 1], w, v[k - 1]);
      hide Dot;
    }
  }

  lemma TermPoint(c: real, d: real, w: real, v: real)
    ensures d == c + w ==> d * v == c * v + w * v
    ensures d == c ==> d * v == c * v
  {
  }

  lemma {:induction false} NobodyInRow(c: Row, v: Row, k: nat)
    requires k <= |c| && k <= |v| && forall j :: 0 <= j < k ==> c[j] == 0.0
    ensures Dot(c, v, k) == 0.0
  {
    if k > 0 { NobodyInRow(c, v, k - 1); }
  }

  /** Row times indicator is what the group holds. */
  lemma {:induction false} RowHeldBy(ins: seq<Interest>, es: seq<Ref>, r: nat, y: Ref, s: set<Ref>)
    requires ListsEndpoints(es, ins) && r < |es| && es[r] !in s
    ensures Dot(HoldersRow(ins, es, r, y), GroupRow(es, s), |es|) == HeldBy(ins, s, y)
  {
    var n, v := |es|, GroupRow(es, s);
    if ins == [] {
      NobodyInRow(HoldersRow(ins, es, r, y), v, n);
    } else {
      var m, i := ins[..|ins| - 1], ins[|ins| - 1];
      RowHeldBy(m, es, r, y, s);
      var p :| 0 <= p < |es| && es[p] == i.from;
      PlacesDiffer(es);
      hide Val, StrictlySorted;
      var w := if i.to == y && p != r then Val(i.weight) else 0.0;
      forall j | 0 <= j < n
        ensures HoldersRow(ins, es, r, y)[j] == HoldersRow(m, es, r, y)[j] + if j == p then w else 0.0
      {
        hide HeldBy, Dot;
      }
      assert HeldBy(ins, s, y) == HeldBy(m, s, y) + if v[p] == 1.0 then w else 0.0 by {
        hide WeightBetween, HoldersRow, Dot;
      }
      hide Dot, HeldBy, WeightBetween, HoldersRow;
      DotPoint(HoldersRow(m, es, r, y), HoldersRow(ins, es, r, y), v, p, w, n);
      OneOrNothing(w, v[p]);
    }
  }

  lemma OneOrNothing(w: real, v: real)
    ensures (v == 1.0 ==> w * v == w) && (v == 0.0 ==> w * v == 0.0)
  {
  }

  // ------------------------------------------------------------ the root's system

  /** Row i of the root's system, transposed: who holds entity i. */
  lemma {:induction false} SystemRowIs(ins: seq<Interest>, es: seq<Ref>, r: nat, i: nat)
    requires r < |es| && i < |es|
    ensures var c := Transposed(RootSystem(ins, es, r), |es|);
      c[i] == if i == r then Zeros(|es|) else HoldersRow(ins, es, r, es[i])
  {
    hide RootSystem, WeightBetween;
    var c := Transposed(RootSystem(ins, es, r), |es|);
    forall j | 0 <= j < |es| ensures c[i][j] == if i == r || j == r then 0.0 else WeightBetween(ins, es[j], es[i]) {
      RootEntry(ins, es, r, j, i);
    }
  }

  lemma {:induction false} GroupHolds(ins: seq<Interest>, es: seq<Ref>, r: nat, i: nat, s: set<Ref>)
    requires ListsEndpoints(es, ins) && r < |es| && i < |es|
    ensures Dot(Transposed(RootSystem(ins, es, r), |es|)[i], GroupRow(es, s), |es|)
      == if i == r then 0.0 else HeldBy(ins, s - {es[r]}, es[i])
  {
    var n, c := |es|, Transposed(RootSystem(ins, es, r), |es|)[i];
    SystemRowIs(ins, es, r, i);
    if i == r {
      NobodyInRow(c, GroupRow(es, s), n);
    } else {
      PlacesDiffer(es);
      hide RootSystem, WeightBetween, Dot;
      RowHeldBy(ins, es, r, es[i], s - {es[r]});
      DotSame(c, GroupRow(es, s), GroupRow(es, s - {es[r]}), n);
    }
  }

  /** A self-contained group makes the root's system singular, whatever the weights
      of the interests outside it. */
  lemma {:induction false} SelfContainedSingular(ins: seq<Interest>, root: Ref, s: set<Ref>)
    requires root in Endpoints(ins) && SelfContained(ins, root, s)
    ensures SystemSingular(ins, root)
  {
    var es := Entities(ins);
    var r :| 0 <= r < |es| && es[r] == root;
    var n, a, w := |es|, RootSystem(ins, es, r), GroupRow(es, s);
    GroupLeakFree(ins, es, r, s);
    GroupConfined(ins, es, r, s);
    hide Entities, RootSystem, LeakFree, Confined, IsFixed, StrictlySorted;
    ConfinedSingular(Transposed(a, n), n, w);
    TransposesTogether(a, n);
  }

  lemma {:induction false} GroupLeakFree(ins: seq<Interest>, es: seq<Ref>, r: nat, s: set<Ref>)
    requires ListsEndpoints(es, ins) && r < |es| && SelfContained(ins, es[r], s)
    requires forall x :: x in es <==> x in Endpoints(ins)
    ensures LeakFree(Transposed(RootSystem(ins, es, r), |es|), |es|, GroupRow(es, s))
  {
    hide HeldBy, Dot, RootSystem, Endpoints, StrictlySorted;
    var y :| y in s;
    HeldIsMentioned(ins, s, y);
    var k :| 0 <= k < |es| && es[k] == y;
    assert GroupRow(es, s)[k] == 1.0;
    assert s - {es[r]} == s;
    forall i | 0 <= i < |es| && GroupRow(es, s)[i] == 1.0
      ensures Dot(Transposed(RootSystem(ins, es, r), |es|)[i], GroupRow(es, s), |es|) == 1.0
    {
      GroupHolds(ins, es, r, i, s);
    }
  }

  lemma {:induction false} GroupConfined(ins: seq<Interest>, es: seq<Ref>, r: nat, s: set<Ref>)
    requires r < |es| && SelfContained(ins, es[r], s)
    ensures Confined(Transposed(RootSystem(ins, es, r), |es|), |es|, GroupRow(es, s))
  {
    hide HeldBy, RootSystem, WeightBetween;
    var c, w := Transposed(RootSystem(ins, es, r), |es|), GroupRow(es, s);
    forall i, j | 0 <= i < |es| && 0 <= j < |es| && w[i] == 1.0 && w[j] != 1.0 ensures c[i][j] == 0.0 {
      RootEntry(ins, es, r, j, i);
    }
  }

  /** Proportionate interests make a transposed system that passes on at most all. */
  lemma {:induction false} ProportionateRows(ins: seq<Interest>, es: seq<Ref>, r: nat)
    requires ListsEndpoints(es, ins) && r < |es| && Proportionate(ins, es[r])
    ensures Substochastic(Transposed(RootSystem(ins, es, r), |es|), |es|)
  {
    hide HeldBy, HeldIn, Dot, RootSystem, WeightBetween, Val, StrictlySorted;
    var n, c := |es|, Transposed(RootSystem(ins, es, r), |es|);
    PlacesDiffer(es);
    forall i, j | 0 <= i < n && 0 <= j < n ensures c[i][j] >= 0.0 {
      RootEntry(ins, es, r, j, i);
      if i != r { HeldParts(ins, es[r], {}, es[j], es[i]); }
    }
    var all := set x | x in es;
    assert GroupRow(es, all) == Ones(n);
    forall i | 0 <= i < n ensures Dot(c[i], Ones(n), n) <= 1.0 {
      GroupHolds(ins, es, r, i, all);
      if i != r { HeldParts(ins, es[r], all - {es[r]}, es[i], es[i]); }
    }
  }

  ghost function GroupOf(es: seq<Ref>, w: Row): (s: set<Ref>)
    requires |w| == |es|
  {
    set i | 0 <= i < |es| && w[i] == 1.0 :: es[i]
  }

  /** A leak-free set of the transposed system is a self-contained group. */
  lemma {:induction false} LeakFreeGroup(ins: seq<Interest>, es: seq<Ref>, r: nat, w: Row)
    requires ListsEndpoints(es, ins) && r < |es| && Proportionate(ins, es[r])
    requires LeakFree(Transposed(RootSystem(ins, es, r), |es|), |es|, w)
    ensures SelfContained(ins, es[r], GroupOf(es, w))
  {
    var s := GroupOf(es, w);
    PlacesDiffer(es);
    hide HeldBy, HeldIn, Dot, RootSystem, WeightBetween, Val, StrictlySorted;
    assert GroupRow(es, s) == w;
    var k :| 0 <= k < |es| && w[k] == 1.0;
    assert es[k] in s;
    GroupHolds(ins, es, r, r, s);
    assert es[r] !in s && s - {es[r]} == s;
    forall y | y in s ensures HeldBy(ins, s, y) == 1.0 {
      var i :| 0 <= i < |es| && w[i] == 1.0 && es[i] == y;
      GroupHolds(ins, es, r, i, s);
    }
    forall x, y | x !in s && y in s ensures WeightBetween(ins, x, y) == 0.0 {
      HeldParts(ins, es[r], s, x, y);
      assert HeldBy(ins, s, y) == 1.0 && HeldIn(ins, y) <= 1.0;
    }
  }

  /** With proportionate interests only a self-contained group makes the system
      singular. */
  lemma {:induction false} SingularSelfContained(ins: seq<Interest>, root: Ref)
    requires Proportionate(ins, root) && SystemSingular(ins, root)
    ensures exists s :: SelfContained(ins, root, s)
  {
    var es := Entities(ins);
    var r: nat, z :| r < |es| && es[r] == root && IsFixed(RootSystem(ins, es, r), |es|, z);
    ProportionateRows(ins, es, r);
    hide Entities, RootSystem, LeakFree, IsFixed, StrictlySorted, SelfContained, Proportionate, Substochastic;
    TransposesTogether(RootSystem(ins, es, r), |es|);
    SingularExactlyWhenClosed(Transposed(RootSystem(ins, es, r), |es|), |es|);
    var w :| LeakFree(Transposed(RootSystem(ins, es, r), |es|), |es|, w);
    LeakFreeHasSize(Transposed(RootSystem(ins, es, r), |es|), |es|, w);
    LeakFreeGroup(ins, es, r, w);
  }

  lemma LeakFreeHasSize(a: Matrix, n: nat, w: Row)
    requires Square(a, n) && LeakFree(a, n, w)
    ensures |w| == n
  {
  }

  // ----------------------------------------------------------------- the refusals

  lemma {:induction false} AcyclicNotSingular(ins: seq<Interest>, root: Ref)
    requires Acyclic(HoldingGraph(ins))
    ensures !SystemSingular(ins, root)
  {
    HoldingSettings(ins);
    var g, u, es := HoldingGraph(ins), Endpoints(ins), Entities(ins);
    hide Acyclic, IsHoldingGraph, EndpointsIn, HoldingGraph, Endpoints, Entities, RootSystem, IsFixed;
    assert AcyclicHoldings(g, ins, u);
    forall k: nat | k < |es| ensures forall z :: !IsFixed(RootSystem(ins, es, k), |es|, z) {
      AcyclicIsRegular(g, ins, u, es, k);
    }
  }

  lemma {:induction false} SolvedNotSingular(ins: seq<Interest>, root: Ref, shares: map<Ref, Rational>)
    requires SoleSolution(shares, ins, root)
    ensures !SystemSingular(ins, root)
  {
    var es := Entities(ins);
    EntitiesSorted(ins);
    PlacesDiffer(es);
    hide Entities, RootSystem, RootHoldings, Solves, IsFixed, Val, StrictlySorted, SharesAre;
  }

  /** For a known root the refusal is the singular system's, on every structure. */
  lemma {:induction false} RefusedExactlyWhenSingular(ins: seq<Interest>, root: Ref, r: OwnershipResult)
    requires Answers(ins, root, r) && root in Endpoints(ins)
    ensures r == Refused(NoExternalHolder) <==> SystemSingular(ins, root)
    ensures r.Refused? ==> r == Refused(NoExternalHolder)
  {
    HoldingSettings(ins);
    hide Acyclic, IsHoldingGraph, EdgesWithin, EndpointsIn, HoldingGraph, Endpoints, Entities, PathShare, Val;
    hide SystemSingular, SoleSolution;
    if Acyclic(HoldingGraph(ins)) {
      AcyclicNotSingular(ins, root);
    } else if r.Integrated? {
      SolvedNotSingular(ins, root, r.shares);
    }
  }

  /** A root that holds nothing of a group which holds itself is always refused,
      whatever the other weights. */
  lemma {:induction false} SelfContainedIsRefused(ins: seq<Interest>, root: Ref, s: set<Ref>, r: OwnershipResult)
    requires Answers(ins, root, r) && root in Endpoints(ins) && SelfContained(ins, root, s)
    ensures r == Refused(NoExternalHolder)
  {
    hide Answers, SelfContained, SystemSingular, Endpoints;
    SelfContainedSingular(ins, root, s);
    RefusedExactlyWhenSingular(ins, root, r);
  }

  /** Proportionate interests: refused exactly when some group holds itself. */
  lemma {:induction false} RefusedExactlyWhenSelfContained(ins: seq<Interest>, root: Ref, r: OwnershipResult)
    requires Answers(ins, root, r) && root in Endpoints(ins) && Proportionate(ins, root)
    ensures r == Refused(NoExternalHolder) <==> exists s :: SelfContained(ins, root, s)
  {
    hide Answers, SelfContained, SystemSingular, Endpoints, Proportionate;
    RefusedExactlyWhenSingular(ins, root, r);
    if SystemSingular(ins, root) { SingularSelfContained(ins, root); }
    if s :| SelfContained(ins, root, s) { SelfContainedSingular(ins, root, s); }
  }

  // ------------------------------------------------------- shares are proportions

  /** The solution's value at an entity: the root's own holding and the others'. */
  lemma {:induction false} SolvedAt(ins: seq<Interest>, es: seq<Ref>, r: nat, x: Row, i: nat)
    requires ListsEndpoints(es, ins) && r < |es| && i < |es| && i != r
    requires Solves(RootSystem(ins, es, r), RootHoldings(ins, es, es[r]), x)
    ensures x[i] == WeightBetween(ins, es[r], es[i])
      + Dot(Transposed(RootSystem(ins, es, r), |es|)[i], x[r := 0.0], |es|)
  {
    var n, a := |es|, RootSystem(ins, es, r);
    var c := Transposed(a, n);
    TransposedTwice(a, n);
    PassedIsInflow(c, n, x, i, n);
    SystemRowIs(ins, es, r, i);
    hide Dot, Inflow, RootSystem, WeightBetween;
    DotSame(c[i], x, x[r := 0.0], n);
  }

  lemma {:induction false} RootRowZero(ins: seq<Interest>, es: seq<Ref>, r: nat, y: Row)
    requires r < |es| == |y|
    ensures Dot(Transposed(RootSystem(ins, es, r), |es|)[r], y, |es|) == 0.0
  {
    SystemRowIs(ins, es, r, r);
    hide Dot, RootSystem;
    NobodyInRow(Transposed(RootSystem(ins, es, r), |es|)[r], y, |es|);
  }

  ghost function Complement(x: Row): (y: Row)
    ensures |y| == |x| && forall i :: 0 <= i < |x| ==> y[i] == 1.0 - x[i]
  {
    seq(|x|, i requires 0 <= i < |x| => 1.0 - x[i])
  }

  lemma DotComplement(r: Row, x: Row, n: nat)
    requires n == |r| == |x|
    ensures Dot(r, Complement(x), n) == Dot(r, Ones(n), n) - Dot(r, x, n)
  {
    hide Dot;
    DotAdds(r, Complement(x), x, Ones(n), n);
  }

  /** The root's and the others' holdings in an entity are at most the whole. */
  lemma {:induction false} HeldAtMostWhole(ins: seq<Interest>, es: seq<Ref>, r: nat, i: nat)
    requires ListsEndpoints(es, ins) && r < |es| && i < |es| && i != r && Proportionate(ins, es[r])
    ensures var s := Dot(Transposed(RootSystem(ins, es, r), |es|)[i], Ones(|es|), |es|);
      0.0 <= WeightBetween(ins, es[r], es[i]) <= 1.0 - s
  {
    PlacesDiffer(es);
    var all := set x | x in es;
    assert GroupRow(es, all) == Ones(|es|);
    GroupHolds(ins, es, r, i, all);
    hide HeldBy, HeldIn, Dot, RootSystem, WeightBetween, Val, StrictlySorted;
    HeldParts(ins, es[r], all - {es[r]}, es[r], es[i]);
  }

  /** At no entity is the solution below what the others pass on to it, and neither is
      what it leaves of the whole. */
  lemma {:induction false} SolutionBounds(ins: seq<Interest>, es: seq<Ref>, r: nat, x: Row, k: nat)
    requires ListsEndpoints(es, ins) && r < |es| && k < |es| && Proportionate(ins, es[r])
    requires Solves(RootSystem(ins, es, r), RootHoldings(ins, es, es[r]), x)
    ensures |x| == |es|
    ensures var n, x0 := |es|, x[r := 0.0];
      var y, c := Complement(x0), Transposed(RootSystem(ins, es, r), n);
      x0[k] >= Dot(c[k], x0, n) && y[k] >= Dot(c[k], y, n)
  {
    var n, x0 := |es|, x[r := 0.0];
    var c := Transposed(RootSystem(ins, es, r), n);
    hide Dot, RootSystem, WeightBetween, ListsEndpoints, Proportionate;
    if k == r {
      RootRowZero(ins, es, r, x0);
      RootRowZero(ins, es, r, Complement(x0));
    } else {
      SolvedAt(ins, es, r, x, k);
      hide Solves;
      HeldAtMostWhole(ins, es, r, k);
      DotComplement(c[k], x0, n);
    }
  }

  lemma {:induction false} RegularHolds(ins: seq<Interest>, es: seq<Ref>, r: nat)
    requires ListsEndpoints(es, ins) && r < |es| && Proportionate(ins, es[r])
    requires forall z :: !IsFixed(RootSystem(ins, es, r), |es|, z)
    ensures var c := Transposed(RootSystem(ins, es, r), |es|);
      Substochastic(c, |es|) && forall w :: !LeakFree(c, |es|, w)
  {
    ProportionateRows(ins, es, r);
    TransposesTogether(RootSystem(ins, es, r), |es|);
    hide *;
    SingularExactlyWhenClosed(Transposed(RootSystem(ins, es, r), |es|), |es|);
  }

  lemma {:induction false} SolutionIsProportion(ins: seq<Interest>, es: seq<Ref>, r: nat, x: Row, i: nat)
    requires ListsEndpoints(es, ins) && r < |es| && i < |es| && i != r && Proportionate(ins, es[r])
    requires Solves(RootSystem(ins, es, r), RootHoldings(ins, es, es[r]), x)
    requires forall z :: !IsFixed(RootSystem(ins, es, r), |es|, z)
    ensures 0.0 <= x[i] <= 1.0
  {
    hide Dot, RootSystem, WeightBetween, ListsEndpoints, Proportionate, Substochastic, LeakFree, IsFixed, Solves;
    RegularHolds(ins, es, r);
    SolutionBounds(ins, es, r, x, r);
    var n, x0 := |es|, x[r := 0.0];
    var y, c := Complement(x0), Transposed(RootSystem(ins, es, r), |es|);
    forall k | 0 <= k < n ensures x0[k] >= Dot(c[k], x0, n) && y[k] >= Dot(c[k], y, n) {
      SolutionBounds(ins, es, r, x, k);
    }
    NoneBelowZero(c, n, x0);
    NoneBelowZero(c, n, y);
    assert x0[i] == x[i] && y[i] == 1.0 - x[i];
  }

  /** Whichever branch answered: with no negative interest and nobody held more than
      whole, every integrated share is a proportion. */
  lemma {:induction false} SharesAreProportions(ins: seq<Interest>, root: Ref, r: OwnershipResult)
    requires Answers(ins, root, r) && r.Integrated? && Proportionate(ins, root)
    ensures forall e :: e in r.shares ==> 0.0 <= Val(r.shares[e]) <= 1.0
  {
    hide Answers, Proportionate, Endpoints, Val;
    if root in Endpoints(ins) {
      BranchesAgree(ins, root, r);
      SoleIsProportion(ins, root, r.shares);
    } else {
      StrangerAnswered(ins, root, r);
    }
  }

  lemma {:induction false} SoleIsProportion(ins: seq<Interest>, root: Ref, shares: map<Ref, Rational>)
    requires SoleSolution(shares, ins, root) && Proportionate(ins, root)
    ensures forall e :: e in shares ==> 0.0 <= Val(shares[e]) <= 1.0
  {
    var es := Entities(ins);
    var r: nat, x: Row :| r < |es| && es[r] == root
      && Settles(RootSystem(ins, es, r), RootHoldings(ins, es, root), Some(x)) && SharesAre(shares, es, root, x);
    hide Entities, RootSystem, RootHoldings, Solves, IsFixed, Val, Proportionate;
    forall e | e in shares ensures 0.0 <= Val(shares[e]) <= 1.0 {
      var i :| 0 <= i < |es| && es[i] == e;
      SolutionIsProportion(ins, es, r, x, i);
    }
  }

  // ---------------------------------------------------- what the refusal can claim

  /** The root holds half of `a`; `b` holds the other half, and `a` holds `b` twice
      over. */
  ghost function HeldTwice(root: Ref, a: Ref, b: Ref): seq<Interest> {
    [Interest(root, a, Rational.Rational(1, 2)), Interest(b, a, Rational.Rational(1, 2)),
     Interest(a, b, Rational.Rational(2, 1))]
  }

  lemma HeldTwiceWeights()
    ensures Val(Rational.Rational(1, 2)) == 0.5 && Val(Rational.Rational(2, 1)) == 2.0
  {
  }

  lemma {:induction false} HeldTwiceBetween(root: Ref, a: Ref, b: Ref, x: Ref, y: Ref)
    requires root != a && root != b && a != b
    ensures WeightBetween(HeldTwice(root, a, b), x, y)
      == if y == a && (x == root || x == b) then 0.5 else if x == a && y == b then 2.0 else 0.0
  {
    var ins := HeldTwice(root, a, b);
    HeldTwiceWeights();
    hide Val;
    WeightStep(ins, 1, x, y);
    WeightStep(ins, 2, x, y);
    WeightStep(ins, 3, x, y);
    assert ins[..0] == [] && ins[..3] == ins;
  }

  lemma {:induction false} HeldTwiceEndpoints(root: Ref, a: Ref, b: Ref)
    ensures Endpoints(HeldTwice(root, a, b)) == {root, a, b}
  {
    var ins := HeldTwice(root, a, b);
    assert ins[0].from == root && ins[1].from == b && ins[2].from == a;
    assert Mentions(ins, root) && Mentions(ins, a) && Mentions(ins, b);
  }

  /** The vector with 1 at `a` and 2 at `b`. */
  ghost function OneAndTwo(es: seq<Ref>, a: Ref, b: Ref): (z: Row)
    ensures |z| == |es|
    ensures forall i :: 0 <= i < |es| ==> z[i] == if es[i] == a then 1.0 else if es[i] == b then 2.0 else 0.0
  {
    seq(|es|, i requires 0 <= i < |es| => if es[i] == a then 1.0 else if es[i] == b then 2.0 else 0.0)
  }

  /** What arrives at an entity from the shares one and two. */
  lemma {:induction false} HeldTwiceFlow(root: Ref, a: Ref, b: Ref, es: seq<Ref>, r: nat, i: nat)
    requires root != a && root != b && a != b && ListsEndpoints(es, HeldTwice(root, a, b))
    requires r < |es| && i < |es| && es[r] == root
    ensures var z := OneAndTwo(es, a, b);
      Inflow(RootSystem(HeldTwice(root, a, b), es, r), |es|, z, i, |es|) == z[i]
  {
    var ins, z := HeldTwice(root, a, b), OneAndTwo(es, a, b);
    hide HeldTwice, RootSystem, Inflow, WeightBetween;
    if i == r {
      RootUntouched(ins, es, r, z);
    } else {
      PlacesDiffer(es);
      HeldTwiceSteps(root, a, b, es, r, i);
      WholeFlow(ins, es, r, z, i);
      HeldTwiceBetween(root, a, b, root, es[i]);
      hide Flow, StrictlySorted;
    }
  }

  lemma {:induction false} HeldTwiceSteps(root: Ref, a: Ref, b: Ref, es: seq<Ref>, r: nat, i: nat)
    requires root != a && root != b && a != b && ListsEndpoints(es, HeldTwice(root, a, b))
    requires r < |es| && i < |es| && es[r] == root && i != r
    ensures |HeldTwice(root, a, b)| == 3
    ensures Flow(HeldTwice(root, a, b), es, r, OneAndTwo(es, a, b), i, 3)
      == if es[i] == a then 0.5 + 1.0 else if es[i] == b then 2.0 else 0.0
  {
    var ins, z := HeldTwice(root, a, b), OneAndTwo(es, a, b);
    assert ins[1].from in es && ins[2].from in es;
    HeldTwiceWeights();
    assert |ins| == 3 && ins[0].from == root && ins[1].from == b && ins[2].from == a;
    assert ins[0].to == a && ins[1].to == a && ins[2].to == b;
    assert Val(ins[0].weight) == 0.5 && Val(ins[1].weight) == 0.5 && Val(ins[2].weight) == 2.0 by { hide Val; }
    hide *;
    var ka :| 0 <= ka < |es| && es[ka] == a;
    var kb :| 0 <= kb < |es| && es[kb] == b;
    ThreeSteps(ins, es, r, z, i, ka, kb);
  }

  lemma {:induction false} ThreeSteps(ins: seq<Interest>, es: seq<Ref>, r: nat, z: Row, i: nat, ka: nat, kb: nat)
    requires StrictlySorted(es) && |z| == |es| && r < |es| && i < |es| && i != r
    requires ka < |es| && kb < |es| && ka != r && kb != r && es[ka] != es[kb] && z[ka] == 1.0 && z[kb] == 2.0
    requires |ins| == 3 && ins[0].from == es[r] && ins[1].from == es[kb] && ins[2].from == es[ka]
    requires ins[0].to == es[ka] && ins[1].to == es[ka] && ins[2].to == es[kb]
    requires Val(ins[0].weight) == 0.5 && Val(ins[1].weight) == 0.5 && Val(ins[2].weight) == 2.0
    ensures Flow(ins, es, r, z, i, 3) == if es[i] == es[ka] then 0.5 + 1.0 else if es[i] == es[kb] then 2.0 else 0.0
  {
    hide *;
    NoFlow(ins, es, r, z, i);
    StepFlow(ins, es, r, z, i, r, 1, 1.0, 0.5);
    StepFlow(ins, es, r, z, i, kb, 2, 2.0, 0.5);
    StepFlow(ins, es, r, z, i, ka, 3, 1.0, 2.0);
  }

  /** One more interest, of an entity whose share is x. */
  lemma StepFlow(ins: seq<Interest>, es: seq<Ref>, r: nat, z: Row, i: nat, j: nat, k: nat, x: real, w: real)
    requires StrictlySorted(es) && |z| == |es| && r < |es| && i < |es| && i != r && j < |es| && 0 < k <= |ins|
    requires es[j] == ins[k - 1].from && x == (if j == r then 1.0 else z[j]) && w == Val(ins[k - 1].weight)
    ensures Flow(ins, es, r, z, i, k) == Flow(ins, es, r, z, i, k - 1) + if ins[k - 1].to == es[i] then x * w else 0.0
  {
    hide Flow, Val, StrictlySorted;
    FlowStep(ins, es, r, z, i, j, k);
  }

  lemma WholeFlow(ins: seq<Interest>, es: seq<Ref>, r: nat, z: Row, i: nat)
    requires |z| == |es| && r < |es| && i < |es|
    ensures Inflow(RootSystem(ins, es, r), |es|, z, i, |es|)
      == Flow(ins, es, r, z, i, |ins|) - WeightBetween(ins, es[r], es[i])
  {
    assert ins[..|ins|] == ins;
  }

  lemma RootUntouched(ins: seq<Interest>, es: seq<Ref>, r: nat, z: Row)
    requires |z| == |es| && r < |es|
    ensures Inflow(RootSystem(ins, es, r), |es|, z, r, |es|) == 0.0
  {
    forall l | 0 <= l < |es| ensures RootSystem(ins, es, r)[l][r] == 0.0 { RootEntry(ins, es, r, l, r); }
    hide RootSystem;
    InflowOfZero(RootSystem(ins, es, r), |es|, z, r, |es|);
  }

  /** With an entity held more than whole the refusal no longer means that there is
      no external holder: here the root itself holds half of `a`, no group holds
      itself, and the structure is refused all the same. */
  lemma {:induction false} HeldTwiceIsRefused(root: Ref, a: Ref, b: Ref, r: OwnershipResult)
    requires root != a && root != b && a != b && Answers(HeldTwice(root, a, b), root, r)
    ensures r == Refused(NoExternalHolder)
    ensures WeightBetween(HeldTwice(root, a, b), root, a) == 0.5
    ensures forall s :: !SelfContained(HeldTwice(root, a, b), root, s)
  {
    hide Answers, HeldTwice, SelfContained, SystemSingular;
    HeldTwiceEndpoints(root, a, b);
    HeldTwiceBetween(root, a, b, root, a);
    HeldTwiceSingular(root, a, b);
    RefusedExactlyWhenSingular(HeldTwice(root, a, b), root, r);
    forall s ensures !SelfContained(HeldTwice(root, a, b), root, s) { HeldTwiceNoGroup(root, a, b, s); }
  }

  lemma {:induction false} HeldTwiceSingular(root: Ref, a: Ref, b: Ref)
    requires root != a && root != b && a != b
    ensures SystemSingular(HeldTwice(root, a, b), root)
  {
    var es := Entities(HeldTwice(root, a, b));
    HeldTwiceEndpoints(root, a, b);
    hide HeldTwice, Entities, RootSystem, Endpoints, StrictlySorted, IsFixed;
    var r :| 0 <= r < |es| && es[r] == root;
    HeldTwiceKernel(root, a, b, es, r);
  }

  lemma {:induction false} HeldTwiceKernel(root: Ref, a: Ref, b: Ref, es: seq<Ref>, r: nat)
    requires root != a && root != b && a != b && ListsEndpoints(es, HeldTwice(root, a, b))
    requires r < |es| && es[r] == root
    ensures IsFixed(RootSystem(HeldTwice(root, a, b), es, r), |es|, OneAndTwo(es, a, b))
  {
    var ins, z := HeldTwice(root, a, b), OneAndTwo(es, a, b);
    assert ins[0].to in es;
    hide HeldTwice, RootSystem, Inflow, ListsEndpoints;
    forall i | 0 <= i < |es| ensures z[i] == Inflow(RootSystem(ins, es, r), |es|, z, i, |es|) {
      HeldTwiceFlow(root, a, b, es, r, i);
    }
    var k :| 0 <= k < |es| && es[k] == a;
    assert z[k] != 0.0;
  }

  lemma {:induction false} HeldTwiceNoGroup(root: Ref, a: Ref, b: Ref, s: set<Ref>)
    requires root != a && root != b && a != b
    ensures !SelfContained(HeldTwice(root, a, b), root, s)
  {
    var ins := HeldTwice(root, a, b);
    HeldTwiceEndpoints(root, a, b);
    HeldTwiceBetween(root, a, b, root, a);
    HeldTwiceBetween(root, a, b, a, b);
    hide HeldTwice, WeightBetween, HeldBy;
    if SelfContained(ins, root, s) {
      assert a !in s;
      assert b !in s;
      var y :| y in s;
      HeldIsMentioned(ins, s, y);
      assert false;
    }
  }
}
