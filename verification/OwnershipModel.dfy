/** Ownership interests as a graph and as a matrix, and why summing over paths and
    solving the linear system give the same integrated ownership. */
module OwnershipModel {
  import opened Refs
  import opened RefLists
  import opened Graphs
  import opened Options
  import opened ExactRational
  import opened LinearAlgebra
  import opened LinearSolver

  datatype Interest = Interest(from: Ref, to: Ref, weight: Rational)

  ghost predicate Holds(ins: seq<Interest>, x: Ref, y: Ref) {
    exists k :: 0 <= k < |ins| && ins[k].from == x && ins[k].to == y
  }

  ghost predicate IsHoldingGraph(g: Graph, ins: seq<Interest>) {
    forall x, y {:trigger y in Succ(g, x)} {:trigger Holds(ins, x, y)} :: y in Succ(g, x) <==> Holds(ins, x, y)
  }

  ghost predicate EndpointsIn(ins: seq<Interest>, u: set<Ref>) {
    forall k :: 0 <= k < |ins| ==> ins[k].from in u && ins[k].to in u
  }

  ghost predicate ListsEndpoints(es: seq<Ref>, ins: seq<Interest>) {
    StrictlySorted(es) && forall k :: 0 <= k < |ins| ==> ins[k].from in es && ins[k].to in es
  }

  // ----------------------------------------------------------------- the path sum

  /** The graph is acyclic, and the vertices in play are those of `u`. */
  ghost predicate AcyclicHoldings(g: Graph, ins: seq<Interest>, u: set<Ref>) {
    Acyclic(g) && IsHoldingGraph(g, ins) && EndpointsIn(ins, u)
  }

  /** What the root holds of `node`, over all chains of interests: one at the root,
      elsewhere the holders' own shares times their interests. */
  ghost function PathShare(g: Graph, ins: seq<Interest>, u: set<Ref>, root: Ref, node: Ref): real
    requires AcyclicHoldings(g, ins, u)
    decreases |Ancestors(g, u, node)|, |ins| + 1
  {
    if node == root then 1.0 else PathSum(g, ins, u, root, node, |ins|)
  }

  /** The part of it through the first `k` interests. */
  ghost function PathSum(g: Graph, ins: seq<Interest>, u: set<Ref>, root: Ref, node: Ref, k: nat): real
    requires AcyclicHoldings(g, ins, u) && k <= |ins|
    decreases |Ancestors(g, u, node)|, k
  {
    if k == 0 then 0.0
    else
      var i := ins[k - 1];
      PathSum(g, ins, u, root, node, k - 1)
        + if i.to != node then 0.0
          else HolderShrinks(g, ins, u, k - 1); PathShare(g, ins, u, root, i.from) * Val(i.weight)
  }

  lemma HolderShrinks(g: Graph, ins: seq<Interest>, u: set<Ref>, k: nat)
    requires AcyclicHoldings(g, ins, u) && k < |ins|
    ensures |Ancestors(g, u, ins[k].from)| < |Ancestors(g, u, ins[k].to)|
  {
    hide Acyclic, Ancestors;
    assert Holds(ins, ins[k].from, ins[k].to);
    AncestorsShrink(g, u, ins[k].from, ins[k].to);
  }

  // ------------------------------------------------------------------- the matrix

  /** The total weight of the interests of `x` in `y`. */
  ghost function WeightBetween(ins: seq<Interest>, x: Ref, y: Ref): real {
    if ins == [] then 0.0
    else
      var i := ins[|ins| - 1];
      WeightBetween(ins[..|ins| - 1], x, y) + if i.from == x && i.to == y then Val(i.weight) else 0.0
  }

  lemma {:induction false} NoInterest(ins: seq<Interest>, x: Ref, y: Ref)
    requires !Holds(ins, x, y)
    ensures WeightBetween(ins, x, y) == 0.0
  {
    if ins != [] {
      var m := ins[..|ins| - 1];
      assert forall k :: 0 <= k < |m| ==> m[k] == ins[k];
      NoInterest(m, x, y);
      assert ins[|ins| - 1].from == x && ins[|ins| - 1].to == y ==> Holds(ins, x, y);
    }
  }

  ghost function HoldingMatrix(ins: seq<Interest>, es: seq<Ref>): (a: Matrix)
    ensures Square(a, |es|)
  {
    seq(|es|, j requires 0 <= j < |es| => seq(|es|, i requires 0 <= i < |es| => WeightBetween(ins, es[j], es[i])))
  }

  /** The root's row and column zeroed, so that its own shares are not re-attributed. */
  ghost function WithoutRoot(a: Matrix, n: nat, r: nat): (w: Matrix)
    requires Square(a, n)
    ensures Square(w, n)
  {
    seq(n, j requires 0 <= j < n => seq(n, i requires 0 <= i < n => if j == r || i == r then 0.0 else a[j][i]))
  }

  ghost function RootSystem(ins: seq<Interest>, es: seq<Ref>, r: nat): (a: Matrix)
    ensures Square(a, |es|)
  {
    WithoutRoot(HoldingMatrix(ins, es), |es|, r)
  }

  lemma {:induction false} RootEntry(ins: seq<Interest>, es: seq<Ref>, r: nat, j: nat, i: nat)
    requires j < |es| && i < |es|
    ensures RootSystem(ins, es, r)[j][i] == if j == r || i == r then 0.0 else WeightBetween(ins, es[j], es[i])
  {
    hide WeightBetween;
  }

  ghost function RootHoldings(ins: seq<Interest>, es: seq<Ref>, root: Ref): (b: Row)
    ensures |b| == |es| && forall i :: 0 <= i < |es| ==> b[i] == WeightBetween(ins, root, es[i])
  {
    seq(|es|, i requires 0 <= i < |es| => WeightBetween(ins, root, es[i]))
  }

  /** The path shares of the entities; nothing for the root itself. */
  ghost function PathRow(g: Graph, ins: seq<Interest>, u: set<Ref>, root: Ref, es: seq<Ref>): (x: Row)
    requires AcyclicHoldings(g, ins, u)
    ensures |x| == |es|
    ensures forall i :: 0 <= i < |es| ==> x[i] == if es[i] == root then 0.0 else PathShare(g, ins, u, root, es[i])
  {
    seq(|es|, i requires 0 <= i < |es| => if es[i] == root then 0.0 else PathShare(g, ins, u, root, es[i]))
  }

  // -------------------------------------------------------------------- agreement

  /** Adding one interest of j in i adds x_j times its weight to i's inflow. */
  lemma {:induction false} InflowPoint(a: Matrix, c: Matrix, n: nat, x: Row, i: nat, j: nat, w: real, k: nat)
    requires Square(a, n) && Square(c, n) && |x| == n && i < n && j < n && k <= n
    requires forall l :: 0 <= l < n ==> c[l][i] == a[l][i] + if l == j then w else 0.0
    ensures Inflow(c, n, x, i, k) == Inflow(a, n, x, i, k) + if j < k then x[j] * w else 0.0
  {
    if k > 0 {
      InflowPoint(a, c, n, x, i, j, w, k - 1);
      var l := k - 1;
      assert x[l] * (a[l][i] + w) == x[l] * a[l][i] + x[l] * w;
    }
  }

  lemma {:induction false} InflowOfZero(a: Matrix, n: nat, x: Row, i: nat, k: nat)
    requires Square(a, n) && |x| == n && i < n && k <= n
    requires forall l :: 0 <= l < n ==> a[l][i] == 0.0
    ensures Inflow(a, n, x, i, k) == 0.0
  {
    if k > 0 { InflowOfZero(a, n, x, i, k - 1); }
  }

  lemma {:induction false} WeightStep(ins: seq<Interest>, k: nat, x: Ref, y: Ref)
    requires 0 < k <= |ins|
    ensures var e := ins[k - 1];
      WeightBetween(ins[..k], x, y)
      == WeightBetween(ins[..k - 1], x, y) + if e.from == x && e.to == y then Val(e.weight) else 0.0
  {
    hide Val;
    assert ins[..k][..k - 1] == ins[..k - 1] && ins[..k][k - 1] == ins[k - 1];
  }

  /** One more interest changes one entry of a column. */
  lemma EntryStep(ins: seq<Interest>, es: seq<Ref>, r: nat, i: nat, j: nat, k: nat, l: nat)
    requires StrictlySorted(es) && r < |es| && i < |es| && i != r && j < |es| && l < |es| && 0 < k <= |ins|
    requires es[j] == ins[k - 1].from
    ensures var e := ins[k - 1];
      RootSystem(ins[..k], es, r)[l][i]
      == RootSystem(ins[..k - 1], es, r)[l][i] + if l == j && e.to == es[i] && j != r then Val(e.weight) else 0.0
  {
    RootEntry(ins[..k - 1], es, r, l, i);
    RootEntry(ins[..k], es, r, l, i);
    WeightStep(ins, k, es[l], es[i]);
    hide Val, RootSystem, WeightBetween;
    PlacesDiffer(es);
  }

  /** What reaches an entity through the first `k` interests, directly from the root
      and from the other holders' shares `x`. */
  ghost function Flow(ins: seq<Interest>, es: seq<Ref>, r: nat, x: Row, i: nat, k: nat): real
    requires |x| == |es| && r < |es| && i < |es| && k <= |ins|
  {
    WeightBetween(ins[..k], es[r], es[i]) + Inflow(RootSystem(ins[..k], es, r), |es|, x, i, |es|)
  }

  lemma FlowStep(ins: seq<Interest>, es: seq<Ref>, r: nat, x: Row, i: nat, j: nat, k: nat)
    requires StrictlySorted(es) && |x| == |es| && r < |es| && i < |es| && i != r && j < |es| && 0 < k <= |ins|
    requires es[j] == ins[k - 1].from
    ensures Flow(ins, es, r, x, i, k) == Flow(ins, es, r, x, i, k - 1)
      + if ins[k - 1].to == es[i] then (if j == r then 1.0 else x[j]) * Val(ins[k - 1].weight) else 0.0
  {
    hide Val, Inflow, RootSystem, WeightBetween;
    var e := ins[k - 1];
    var a, c := RootSystem(ins[..k - 1], es, r), RootSystem(ins[..k], es, r);
    var w := if e.to == es[i] && j != r then Val(e.weight) else 0.0;
    forall l | 0 <= l < |es| ensures c[l][i] == a[l][i] + if l == j then w else 0.0 {
      EntryStep(ins, es, r, i, j, k, l);
    }
    InflowPoint(a, c, |es|, x, i, j, w, |es|);
    WeightStep(ins, k, es[r], es[i]);
    PlacesDiffer(es);
  }

  lemma NoFlow(ins: seq<Interest>, es: seq<Ref>, r: nat, x: Row, i: nat)
    requires |x| == |es| && r < |es| && i < |es|
    ensures Flow(ins, es, r, x, i, 0) == 0.0
  {
    assert ins[..0] == [];
    forall l | 0 <= l < |es| ensures RootSystem([], es, r)[l][i] == 0.0 { RootEntry([], es, r, l, i); }
    hide RootSystem, Inflow;
    InflowOfZero(RootSystem([], es, r), |es|, x, i, |es|);
  }

  /** Through the first `k` interests: the path sum is the root's direct holding
      plus what the other holders pass on. */
  lemma {:induction false} PathSumIsFlow(g: Graph, ins: seq<Interest>, u: set<Ref>, es: seq<Ref>, r: nat, i: nat,
                                         k: nat)
    requires AcyclicHoldings(g, ins, u) && ListsEndpoints(es, ins)
    requires r < |es| && i < |es| && i != r && k <= |ins|
    ensures PathSum(g, ins, u, es[r], es[i], k) == Flow(ins, es, r, PathRow(g, ins, u, es[r], es), i, k)
  {
    hide Val, Flow, AcyclicHoldings, PathShare, PathRow;
    var x := PathRow(g, ins, u, es[r], es);
    if k == 0 {
      NoFlow(ins, es, r, x, i);
    } else {
      PathSumIsFlow(g, ins, u, es, r, i, k - 1);
      var j :| 0 <= j < |es| && es[j] == ins[k - 1].from;
      FlowStep(ins, es, r, x, i, j, k);
      RowShare(g, ins, u, es, r, j);
      NextPathSum(g, ins, u, es[r], es[i], k);
      PlacesDiffer(es);
      hide PathSum;
    }
  }

  lemma {:induction false} RowShare(g: Graph, ins: seq<Interest>, u: set<Ref>, es: seq<Ref>, r: nat, j: nat)
    requires AcyclicHoldings(g, ins, u) && StrictlySorted(es) && r < |es| && j < |es|
    ensures PathShare(g, ins, u, es[r], es[j]) == if j == r then 1.0 else PathRow(g, ins, u, es[r], es)[j]
  {
    hide AcyclicHoldings, PathSum;
    PlacesDiffer(es);
  }

  lemma NextPathSum(g: Graph, ins: seq<Interest>, u: set<Ref>, root: Ref, node: Ref, k: nat)
    requires AcyclicHoldings(g, ins, u) && 0 < k <= |ins|
    ensures PathSum(g, ins, u, root, node, k) == PathSum(g, ins, u, root, node, k - 1)
      + if ins[k - 1].to == node then PathShare(g, ins, u, root, ins[k - 1].from) * Val(ins[k - 1].weight) else 0.0
  {
    hide AcyclicHoldings, PathShare, Val;
  }

  /** The path shares solve the system that the cyclic branch hands to the solver. */
  lemma PathsSolve(g: Graph, ins: seq<Interest>, u: set<Ref>, es: seq<Ref>, r: nat)
    requires AcyclicHoldings(g, ins, u) && ListsEndpoints(es, ins) && r < |es|
    ensures Solves(RootSystem(ins, es, r), RootHoldings(ins, es, es[r]), PathRow(g, ins, u, es[r], es))
  {
    hide Inflow, RootSystem, Acyclic, PathSum, IsHoldingGraph;
    var a, b, x := RootSystem(ins, es, r), RootHoldings(ins, es, es[r]), PathRow(g, ins, u, es[r], es);
    PlacesDiffer(es);
    forall i | 0 <= i < |es| ensures x[i] == b[i] + Inflow(a, |es|, x, i, |es|) {
      if i == r {
        NoSelfHolding(g, ins, u, es[r]);
        forall l | 0 <= l < |es| ensures a[l][i] == 0.0 { RootEntry(ins, es, r, l, i); }
        InflowOfZero(a, |es|, x, i, |es|);
      } else {
        PathSumIsFlow(g, ins, u, es, r, i, |ins|);
        assert ins[..|ins|] == ins;
        ShareIsSum(g, ins, u, es[r], es[i]);
      }
    }
  }

  lemma {:induction false} ShareIsSum(g: Graph, ins: seq<Interest>, u: set<Ref>, root: Ref, node: Ref)
    requires AcyclicHoldings(g, ins, u) && node != root
    ensures PathShare(g, ins, u, root, node) == PathSum(g, ins, u, root, node, |ins|)
  {
  }

  lemma {:induction false} NoSelfHolding(g: Graph, ins: seq<Interest>, u: set<Ref>, e: Ref)
    requires AcyclicHoldings(g, ins, u)
    ensures WeightBetween(ins, e, e) == 0.0
  {
    ReachSelf(g, e);
    hide Reach;
    assert !Holds(ins, e, e);
    NoInterest(ins, e, e);
  }

  /** An acyclic system has no kernel vector: a vertex can only be non-zero if an
      ancestor is. */
  lemma {:induction false} AcyclicKernelZero(g: Graph, ins: seq<Interest>, u: set<Ref>, es: seq<Ref>, r: nat, z: Row,
                                             i: nat)
    requires AcyclicHoldings(g, ins, u) && |z| == |es| && i < |es|
    requires forall i :: 0 <= i < |es| ==> z[i] == Inflow(RootSystem(ins, es, r), |es|, z, i, |es|)
    ensures z[i] == 0.0
    decreases |Ancestors(g, u, es[i])|
  {
    hide Inflow, RootSystem, Acyclic, IsHoldingGraph;
    var a := RootSystem(ins, es, r);
    forall l | 0 <= l < |es| ensures z[l] == 0.0 || a[l][i] == 0.0 {
      RootEntry(ins, es, r, l, i);
      if a[l][i] != 0.0 {
        if !Holds(ins, es[l], es[i]) { NoInterest(ins, es[l], es[i]); }
        var k :| 0 <= k < |ins| && ins[k].from == es[l] && ins[k].to == es[i];
        HolderShrinks(g, ins, u, k);
        AcyclicKernelZero(g, ins, u, es, r, z, l);
      }
    }
    InflowProductsZero(a, |es|, z, i, |es|);
  }

  lemma {:induction false} InflowProductsZero(a: Matrix, n: nat, z: Row, i: nat, k: nat)
    requires Square(a, n) && |z| == n && i < n && k <= n
    requires forall l :: 0 <= l < n ==> z[l] == 0.0 || a[l][i] == 0.0
    ensures Inflow(a, n, z, i, k) == 0.0
  {
    if k > 0 { InflowProductsZero(a, n, z, i, k - 1); }
  }

  lemma AcyclicIsRegular(g: Graph, ins: seq<Interest>, u: set<Ref>, es: seq<Ref>, r: nat)
    requires AcyclicHoldings(g, ins, u)
    ensures forall z :: !IsFixed(RootSystem(ins, es, r), |es|, z)
  {
    hide Inflow, RootSystem, AcyclicHoldings;
    forall z ensures !IsFixed(RootSystem(ins, es, r), |es|, z) {
      if IsFixed(RootSystem(ins, es, r), |es|, z) {
        var i :| 0 <= i < |es| && z[i] != 0.0;
        AcyclicKernelZero(g, ins, u, es, r, z, i);
      }
    }
  }

  /** On an acyclic graph the path shares are the one exact solution of the linear
      system: the fast branch answers what the solver would. */
  lemma PathsSettle(g: Graph, ins: seq<Interest>, u: set<Ref>, es: seq<Ref>, r: nat)
    requires AcyclicHoldings(g, ins, u) && ListsEndpoints(es, ins) && r < |es|
    ensures Settles(RootSystem(ins, es, r), RootHoldings(ins, es, es[r]), Some(PathRow(g, ins, u, es[r], es)))
  {
    hide RootSystem, AcyclicHoldings, Solves, IsFixed, PathRow, RootHoldings;
    var a, b := RootSystem(ins, es, r), RootHoldings(ins, es, es[r]);
    PathsSolve(g, ins, u, es, r);
    AcyclicIsRegular(g, ins, u, es, r);
    var o := SystemSettled(a, b);
  }
}
