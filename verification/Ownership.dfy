/** Integrated ownership: path sums on an acyclic structure, the exact linear
    system on a cyclic one. */
module Ownership {
  import opened Refs
  import opened Sorting
  import opened RefLists
  import opened Graphs
  import opened Options
  import opened Colouring
  import opened ExactRational
  import opened DecimalText
  import opened LinearAlgebra
  import opened LinearSolver
  import opened OwnershipModel

  // ---------------------------------------------------------------- the interests

  datatype Dimension = Economic | Voting

  datatype OwnershipInterest = OwnershipInterest(from: Ref, to: Ref, economicInterest: string, votingInterest: string)

  function TextIn(i: OwnershipInterest, dimension: Dimension): string {
    match dimension
    case Economic => i.economicInterest
    case Voting => i.votingInterest
  }

  /** Every text of the chosen dimension has a value; those of the other may not. */
  predicate Readable(interests: seq<OwnershipInterest>, dimension: Dimension) {
    forall k :: 0 <= k < |interests| ==> RatioFromDecimal(TextIn(interests[k], dimension)).Some?
  }

  /** The interests with their weights in one dimension. */
  function InDimension(interests: seq<OwnershipInterest>, dimension: Dimension): (ins: seq<Interest>)
    requires Readable(interests, dimension)
    ensures |ins| == |interests|
    ensures forall k :: 0 <= k < |ins| ==> ins[k].from == interests[k].from && ins[k].to == interests[k].to
    ensures forall k :: 0 <= k < |ins| ==> Some(ins[k].weight) == RatioFromDecimal(TextIn(interests[k], dimension))
  {
    seq(|interests|, k requires 0 <= k < |interests| =>
      var i := interests[k];
      Interest(i.from, i.to, RatioFromDecimal(TextIn(i, dimension)).value))
  }

  /** The interests of a list with their economic texts read as weights. */
  ghost predicate WeighedEconomically(interests: seq<OwnershipInterest>, ins: seq<Interest>) {
    && |ins| == |interests|
    && forall k :: 0 <= k < |ins| ==>
      && ins[k].from == interests[k].from && ins[k].to == interests[k].to
      && Some(ins[k].weight) == RatioFromDecimal(interests[k].economicInterest)
  }

  ghost predicate WeighedByVotes(interests: seq<OwnershipInterest>, ins: seq<Interest>) {
    && |ins| == |interests|
    && forall k :: 0 <= k < |ins| ==>
      && ins[k].from == interests[k].from && ins[k].to == interests[k].to
      && Some(ins[k].weight) == RatioFromDecimal(interests[k].votingInterest)
  }

  ghost predicate Weighed(interests: seq<OwnershipInterest>, dimension: Dimension, ins: seq<Interest>) {
    && (dimension == Economic ==> WeighedEconomically(interests, ins))
    && (dimension == Voting ==> WeighedByVotes(interests, ins))
  }

  lemma InDimensionWeighs(interests: seq<OwnershipInterest>, dimension: Dimension)
    requires Readable(interests, dimension)
    ensures Weighed(interests, dimension, InDimension(interests, dimension))
  {
    hide RatioFromDecimal, InDimension;
  }

  /** The voting texts play no part in the economic dimension. */
  lemma EconomicAlone(interests: seq<OwnershipInterest>, others: seq<OwnershipInterest>)
    requires |interests| == |others|
    requires forall k :: 0 <= k < |interests| ==>
      others[k].(votingInterest := "") == interests[k].(votingInterest := "")
    ensures Readable(interests, Economic) <==> Readable(others, Economic)
    ensures Readable(interests, Economic) ==> InDimension(interests, Economic) == InDimension(others, Economic)
  {
    hide RatioFromDecimal;
    forall k | 0 <= k < |interests|
      ensures others[k].economicInterest == interests[k].economicInterest
      ensures others[k].from == interests[k].from && others[k].to == interests[k].to
    {
      assert others[k].(votingInterest := "") == interests[k].(votingInterest := "");
    }
  }

  /** The economic texts play no part in the voting dimension. */
  lemma VotesAlone(interests: seq<OwnershipInterest>, others: seq<OwnershipInterest>)
    requires |interests| == |others|
    requires forall k :: 0 <= k < |interests| ==>
      others[k].(economicInterest := "") == interests[k].(economicInterest := "")
    ensures Readable(interests, Voting) <==> Readable(others, Voting)
    ensures Readable(interests, Voting) ==> InDimension(interests, Voting) == InDimension(others, Voting)
  {
    hide RatioFromDecimal;
    forall k | 0 <= k < |interests|
      ensures others[k].votingInterest == interests[k].votingInterest
      ensures others[k].from == interests[k].from && others[k].to == interests[k].to
    {
      assert others[k].(economicInterest := "") == interests[k].(economicInterest := "");
    }
  }

  // -------------------------------------------------------------------- the graph

  ghost predicate Mentions(ins: seq<Interest>, x: Ref) {
    exists k :: 0 <= k < |ins| && (ins[k].from == x || ins[k].to == x)
  }

  lemma MentionsLast(ins: seq<Interest>, x: Ref)
    requires ins != []
    ensures var i := ins[|ins| - 1];
      Mentions(ins, x) <==> Mentions(ins[..|ins| - 1], x) || x == i.from || x == i.to
  {
    var m := ins[..|ins| - 1];
    if k :| 0 <= k < |m| && (m[k].from == x || m[k].to == x) { assert ins[k] == m[k]; }
  }

  ghost function Endpoints(ins: seq<Interest>): (u: set<Ref>)
    ensures forall x :: x in u <==> Mentions(ins, x)
  {
    (set k | 0 <= k < |ins| :: ins[k].from) + (set k | 0 <= k < |ins| :: ins[k].to)
  }

  /** The references that interests mention, each once, in the order met. */
  function Mentioned(ins: seq<Interest>): (es: seq<Ref>)
    ensures Distinct(es)
    ensures forall x :: x in es <==> Mentions(ins, x)
  {
    if ins == [] then []
    else
      var i := ins[|ins| - 1];
      assert forall x :: Mentions(ins, x) <==> Mentions(ins[..|ins| - 1], x) || x == i.from || x == i.to by {
        forall x ensures Mentions(ins, x) <==> Mentions(ins[..|ins| - 1], x) || x == i.from || x == i.to {
          MentionsLast(ins, x);
        }
      }
      hide Mentions, Distinct;
      Appended(Appended(Mentioned(ins[..|ins| - 1]), i.from), i.to)
  }

  function Appended(es: seq<Ref>, x: Ref): (r: seq<Ref>)
    requires Distinct(es)
    ensures Distinct(r) && forall y :: y in r <==> y in es || y == x
  {
    if x in es then es else es + [x]
  }

  function Entities(ins: seq<Interest>): (es: seq<Ref>)
    ensures forall x :: x in es <==> x in Endpoints(ins)
    ensures ListsEndpoints(es, ins)
  {
    SortedStrictly(Mentioned(ins));
    Sort(LessEq, Mentioned(ins))
  }

  /** The holders' adjacency lists. */
  function HoldingGraph(ins: seq<Interest>): (g: Graph)
    ensures IsHoldingGraph(g, ins)
  {
    if ins == [] then map[]
    else
      var g := HoldingGraph(ins[..|ins| - 1]);
      OneMoreEdge(g, ins);
      WithEdge(g, ins[|ins| - 1])
  }

  function WithEdge(g: Graph, i: Interest): Graph {
    g[i.from := Succ(g, i.from) + [i.to]]
  }

  lemma OneMoreEdge(g: Graph, ins: seq<Interest>)
    requires ins != [] && IsHoldingGraph(g, ins[..|ins| - 1])
    ensures IsHoldingGraph(WithEdge(g, ins[|ins| - 1]), ins)
  {
    var i, m := ins[|ins| - 1], ins[..|ins| - 1];
    var h := WithEdge(g, i);
    forall x, y ensures y in Succ(h, x) <==> Holds(ins, x, y) {
      assert y in Succ(h, x) <==> y in Succ(g, x) || (x == i.from && y == i.to);
      assert Holds(ins, x, y) <==> Holds(m, x, y) || (i.from == x && i.to == y) by {
        if p :| 0 <= p < |m| && m[p].from == x && m[p].to == y { assert ins[p].from == x; }
      }
    }
  }

  method BuildAdjacency(ins: seq<Interest>) returns (g: Graph)
    ensures g == HoldingGraph(ins)
  {
    g := map[];
    for k := 0 to |ins|
      invariant g == HoldingGraph(ins[..k])
    {
      var i := ins[k];
      assert ins[..k + 1][..k] == ins[..k];
      g := g[i.from := Succ(g, i.from) + [i.to]];
    }
    assert ins[..|ins|] == ins;
  }

  /** The holding graph's edges run between listed entities. */
  lemma {:induction false} HoldingSettings(ins: seq<Interest>)
    ensures EdgesWithin(HoldingGraph(ins), Entities(ins)) && EndpointsIn(ins, Endpoints(ins))
  {
    hide HoldingGraph;
    forall x, y | y in Succ(HoldingGraph(ins), x) ensures x in Entities(ins) && y in Entities(ins) {
      assert Holds(ins, x, y);
    }
    forall k | 0 <= k < |ins| ensures ins[k].from in Endpoints(ins) && ins[k].to in Endpoints(ins) {
      assert Mentions(ins, ins[k].from) && Mentions(ins, ins[k].to);
    }
  }

  // --------------------------------------------------------------- the path sum

  class PathSummer {
    const interests: seq<Interest>
    const root: Ref
    ghost const graph: Graph
    ghost const entities: set<Ref>
    var memo: map<Ref, Rational>

    ghost predicate Valid()
      reads this
    {
      && AcyclicHoldings(graph, interests, entities)
      && forall x :: x in memo ==> Val(memo[x]) == PathShare(graph, interests, entities, root, x)
    }

    constructor (ins: seq<Interest>, r: Ref, ghost g: Graph, ghost u: set<Ref>)
      requires AcyclicHoldings(g, ins, u)
      ensures Valid() && interests == ins && root == r && graph == g && entities == u
    {
      interests, root, graph, entities, memo := ins, r, g, u, map[];
    }

    /** `share(node)`: the path sum, each node computed once. */
    method Share(node: Ref) returns (s: Rational)
      requires Valid()
      modifies this
      ensures Valid() && Val(s) == PathShare(graph, interests, entities, root, node)
      decreases |Ancestors(graph, entities, node)|
    {
      hide AcyclicHoldings, Val, Ancestors, PathSum, RAdd, RMul;
      UnitValues();
      if node == root { return R_ONE; }
      if node in memo { return memo[node]; }
      var total := R_ZERO;
      NoPathSum(graph, interests, entities, root, node);
      for k := 0 to |interests|
        invariant Valid()
        invariant Val(total) == PathSum(graph, interests, entities, root, node, k)
      {
        NextPathSum(graph, interests, entities, root, node, k + 1);
        var i := interests[k];
        if i.to == node {
          HolderShrinks(graph, interests, entities, k);
          var held := Share(i.from);
          total := RAdd(total, RMul(held, i.weight));
        }
      }
      ShareIsSum(graph, interests, entities, root, node);
      memo := memo[node := total];
      s := total;
    }
  }

  lemma {:induction false} NoPathSum(g: Graph, ins: seq<Interest>, u: set<Ref>, root: Ref, node: Ref)
    requires AcyclicHoldings(g, ins, u)
    ensures PathSum(g, ins, u, root, node, 0) == 0.0
  {
  }

  method SumPaths(ins: seq<Interest>, root: Ref, ghost g: Graph) returns (shares: map<Ref, Rational>)
    requires AcyclicHoldings(g, ins, Endpoints(ins))
    ensures shares.Keys == Endpoints(ins) - {root}
    ensures forall x :: x in shares ==> Val(shares[x]) == PathShare(g, ins, Endpoints(ins), root, x)
  {
    hide AcyclicHoldings, Val, PathShare, Endpoints, Entities, PathSum;
    var es := Entities(ins);
    var summer := new PathSummer(ins, root, g, Endpoints(ins));
    shares := map[];
    for k := 0 to |es|
      invariant summer.Valid()
      invariant forall x :: x in shares <==> x in es[..k] && x != root
      invariant forall x :: x in shares ==> Val(shares[x]) == PathShare(g, ins, Endpoints(ins), root, x)
    {
      if es[k] != root {
        var s := summer.Share(es[k]);
        shares := shares[es[k] := s];
      }
    }
    assert es[..|es|] == es;
  }

  // ----------------------------------------------------------------- the system

  ghost predicate Accumulated(a: RationalMatrix, ins: seq<Interest>, es: seq<Ref>) {
    Square(a, |es|) && forall j, i :: 0 <= j < |es| && 0 <= i < |es| ==>
      Val(a[j][i]) == WeightBetween(ins, es[j], es[i])
  }

  method BuildHoldings(ins: seq<Interest>, es: seq<Ref>, index: map<Ref, nat>) returns (a: RationalMatrix)
    requires ListsEndpoints(es, ins) && Indexes(index, es)
    ensures Accumulated(a, ins, es)
  {
    hide Accumulated, RAdd, Indexes, StrictlySorted;
    a := seq(|es|, _ => seq(|es|, _ => R_ZERO));
    NothingAccumulated(a, es);
    for k := 0 to |ins|
      invariant Accumulated(a, ins[..k], es)
    {
      var i := ins[k];
      Placed(es, index, i);
      AccumulatedSquare(a, ins[..k], es);
      var f, t := index[i.from], index[i.to];
      ghost var before := a;
      var row: seq<Rational> := a[f];
      row := row[t := RAdd(row[t], i.weight)];
      a := a[f := row];
      OneMoreInterest(before, a, ins, es, f, t, k);
    }
    assert ins[..|ins|] == ins;
  }

  lemma Placed(es: seq<Ref>, index: map<Ref, nat>, i: Interest)
    requires Indexes(index, es) && i.from in es && i.to in es
    ensures i.from in index && i.to in index && index[i.from] < |es| && index[i.to] < |es|
    ensures es[index[i.from]] == i.from && es[index[i.to]] == i.to
  {
  }

  lemma NothingAccumulated(a: RationalMatrix, es: seq<Ref>)
    requires Square(a, |es|) && forall j, i :: 0 <= j < |es| && 0 <= i < |es| ==> a[j][i] == R_ZERO
    ensures Accumulated(a, [], es)
  {
  }

  lemma AccumulatedSquare(a: RationalMatrix, ins: seq<Interest>, es: seq<Ref>)
    requires Accumulated(a, ins, es)
    ensures Square(a, |es|)
  {
  }

  lemma OneMoreInterest(a: RationalMatrix, c: RationalMatrix, ins: seq<Interest>, es: seq<Ref>, f: nat, t: nat, k: nat)
    requires k < |ins| && ListsEndpoints(es, ins) && Accumulated(a, ins[..k], es)
    requires f < |es| && t < |es| && es[f] == ins[k].from && es[t] == ins[k].to
    requires |c| == |a| && (forall j :: 0 <= j < |a| && j != f ==> c[j] == a[j])
    requires |c[f]| == |a[f]| && (forall i :: 0 <= i < |a[f]| && i != t ==> c[f][i] == a[f][i])
    requires c[f][t] == RAdd(a[f][t], ins[k].weight)
    ensures Accumulated(c, ins[..k + 1], es)
  {
    hide RAdd, Val, WeightBetween;
    PlacesDiffer(es);
    forall j, i | 0 <= j < |es| && 0 <= i < |es| ensures Val(c[j][i]) == WeightBetween(ins[..k + 1], es[j], es[i]) {
      WeightStep(ins, k + 1, es[j], es[i]);
      assert es[j] == ins[k].from <==> j == f;
      assert es[i] == ins[k].to <==> i == t;
    }
  }

  /** The root's row and column zeroed. */
  function Rootless(a: RationalMatrix, n: nat, r: nat): (w: RationalMatrix)
    requires Square(a, n)
    ensures Square(w, n)
  {
    seq(n, j requires 0 <= j < n => seq(n, i requires 0 <= i < n => if j == r || i == r then R_ZERO else a[j][i]))
  }

  lemma {:induction false} ViewEntries(m: RationalMatrix, a: Matrix, n: nat)
    requires Square(m, n) && Square(a, n)
    requires forall j, i :: 0 <= j < n && 0 <= i < n ==> Val(m[j][i]) == a[j][i]
    ensures View(m) == a
  {
    hide Val, View, RowView;
    forall j | 0 <= j < n ensures View(m)[j] == a[j] {
      forall i | 0 <= i < n ensures RowView(m[j])[i] == a[j][i] {}
      assert RowView(m[j]) == a[j];
    }
  }

  /** What is handed to the solver is the root's system. */
  lemma SystemHanded(a: RationalMatrix, ins: seq<Interest>, es: seq<Ref>, r: nat)
    requires Accumulated(a, ins, es) && r < |es|
    ensures View(Rootless(a, |es|, r)) == RootSystem(ins, es, r)
    ensures RowView(a[r]) == RootHoldings(ins, es, es[r])
  {
    hide Val, WeightBetween, View, RowView, RootSystem;
    var w, s := Rootless(a, |es|, r), RootSystem(ins, es, r);
    UnitValues();
    forall j, i | 0 <= j < |es| && 0 <= i < |es| ensures Val(w[j][i]) == s[j][i] {
      RootEntry(ins, es, r, j, i);
    }
    ViewEntries(w, s, |es|);
    var row, b := RowView(a[r]), RootHoldings(ins, es, es[r]);
    forall i | 0 <= i < |es| ensures row[i] == b[i] {}
  }

  // ---------------------------------------------------------------- the operation

  datatype OwnershipRefusal = RootUnknown(root: Ref) | NoExternalHolder

  datatype OwnershipResult =
    | Integrated(shares: map<Ref, Rational>, bySolver: bool)
    | Refused(refusal: OwnershipRefusal)

  /** The shares as a vector over the entities, nothing at the root. */
  ghost predicate SharesAre(shares: map<Ref, Rational>, es: seq<Ref>, root: Ref, x: Row) {
    && |x| == |es|
    && (forall e :: e in shares <==> e in es && e != root)
    && (forall i :: 0 <= i < |es| && es[i] != root ==> Val(shares[es[i]]) == x[i])
  }

  /** The shares are the one exact solution of the root's system. */
  ghost predicate SoleSolution(shares: map<Ref, Rational>, ins: seq<Interest>, root: Ref) {
    exists r: nat, x: Row ::
      && r < |Entities(ins)| && Entities(ins)[r] == root
      && Settles(RootSystem(ins, Entities(ins), r), RootHoldings(ins, Entities(ins), root), Some(x))
      && SharesAre(shares, Entities(ins), root, x)
  }

  /** The root's system has a kernel vector, so no answer or more than one. */
  ghost predicate SystemSingular(ins: seq<Interest>, root: Ref) {
    exists r: nat, z: Row ::
      && r < |Entities(ins)| && Entities(ins)[r] == root
      && IsFixed(RootSystem(ins, Entities(ins), r), |Entities(ins)|, z)
  }

  ghost predicate Answers(ins: seq<Interest>, root: Ref, r: OwnershipResult) {
    HoldingSettings(ins);
    var g, u := HoldingGraph(ins), Endpoints(ins);
    if Acyclic(g) then
      && r.Integrated? && !r.bySolver && r.shares.Keys == u - {root}
      && forall x :: x in r.shares ==> Val(r.shares[x]) == PathShare(g, ins, u, root, x)
    else
      match r
      case Integrated(shares, bySolver) => bySolver && root in u && SoleSolution(shares, ins, root)
      case Refused(RootUnknown(x)) => x == root && root !in u
      case Refused(NoExternalHolder) => root in u && SystemSingular(ins, root)
  }

  /** The solver's vector as a map from entity to share, the root left out. */
  method SharesOf(es: seq<Ref>, root: Ref, index: map<Ref, nat>, x: seq<Rational>) returns (shares: map<Ref, Rational>)
    requires |x| == |es| && Indexes(index, es)
    ensures SharesAre(shares, es, root, RowView(x))
  {
    hide Val;
    shares := map[];
    for k := 0 to |es|
      invariant forall e :: e in shares <==> e in es[..k] && e != root
      invariant forall e :: e in shares ==> e in index && shares[e] == x[index[e]]
    {
      if es[k] != root {
        shares := shares[es[k] := x[index[es[k]]]];
      }
    }
    assert es[..|es|] == es;
  }

  /** `integrateOwnership(interests, root, dimension)`; an interest whose text cannot
      be read throws. */
  method IntegrateOwnership(interests: seq<OwnershipInterest>, root: Ref, dimension: Dimension)
      returns (r: OwnershipResult)
    requires Readable(interests, dimension)
    ensures Weighed(interests, dimension, InDimension(interests, dimension))
    ensures Answers(InDimension(interests, dimension), root, r)
  {
    var ins := InDimension(interests, dimension);
    InDimensionWeighs(interests, dimension);
    hide InDimension, Readable, Acyclic, IsHoldingGraph, EdgesWithin, EndpointsIn, HoldingGraph, StrictlySorted,
         Settles, Entities, Endpoints;
    var es := Entities(ins);
    HoldingSettings(ins);
    var g := BuildAdjacency(ins);
    var cyclic := HasCycle(g, es);
    if !cyclic {
      var shares := SumPaths(ins, root, g);
      return Integrated(shares, false);
    }
    r := SolveHoldings(ins, root, es);
  }

  /** The linear branch. */
  method SolveHoldings(ins: seq<Interest>, root: Ref, es: seq<Ref>) returns (r: OwnershipResult)
    requires es == Entities(ins)
    ensures match r
      case Integrated(shares, bySolver) => bySolver && root in Endpoints(ins) && SoleSolution(shares, ins, root)
      case Refused(RootUnknown(x)) => x == root && root !in Endpoints(ins)
      case Refused(NoExternalHolder) => root in Endpoints(ins) && SystemSingular(ins, root)
  {
    hide StrictlySorted, Settles, Endpoints, IsFixed, Val, SharesAre, Accumulated, Entities, ListsEndpoints,
         RootSystem, RootHoldings;
    EntitiesSorted(ins);
    var index := IndexRefs(es);
    var a := BuildHoldings(ins, es, index);
    if root !in index {
      return Refused(RootUnknown(root));
    }
    var rootIndex := index[root];
    AccumulatedSquare(a, ins, es);
    SystemHanded(a, ins, es, rootIndex);
    var solution := SolveLinearSystem(Rootless(a, |es|, rootIndex), a[rootIndex]);
    if solution.None? {
      Unsettled(RootSystem(ins, es, rootIndex), RootHoldings(ins, es, root));
      return Refused(NoExternalHolder);
    }
    var shares := SharesOf(es, root, index, solution.value);
    r := Integrated(shares, true);
  }

  lemma EntitiesSorted(ins: seq<Interest>)
    ensures StrictlySorted(Entities(ins))
  {
  }

  lemma Unsettled(a: Matrix, b: Row)
    requires Square(a, |b|) && Settles(a, b, None)
    ensures exists z :: IsFixed(a, |b|, z)
  {
  }

  // ------------------------------------------------------------------ what follows

  lemma {:induction false} PathRowShares(g: Graph, ins: seq<Interest>, u: set<Ref>, root: Ref, es: seq<Ref>,
                                         shares: map<Ref, Rational>)
    requires AcyclicHoldings(g, ins, u)
    requires forall x :: x in es <==> x in u
    requires shares.Keys == u - {root}
    requires forall x :: x in shares ==> Val(shares[x]) == PathShare(g, ins, u, root, x)
    ensures SharesAre(shares, es, root, PathRow(g, ins, u, root, es))
  {
    hide AcyclicHoldings, PathShare, Val;
  }

  lemma {:induction false} PathsAreSolution(ins: seq<Interest>, root: Ref, shares: map<Ref, Rational>)
    requires AcyclicHoldings(HoldingGraph(ins), ins, Endpoints(ins)) && root in Endpoints(ins)
    requires shares.Keys == Endpoints(ins) - {root}
    requires forall x :: x in shares ==> Val(shares[x]) == PathShare(HoldingGraph(ins), ins, Endpoints(ins), root, x)
    ensures SoleSolution(shares, ins, root)
  {
    hide AcyclicHoldings, HoldingGraph, StrictlySorted, Settles, Endpoints, Entities, PathShare, RootSystem,
         RootHoldings, Val, PathRow, SharesAre;
    var g, u, es := HoldingGraph(ins), Endpoints(ins), Entities(ins);
    var k :| 0 <= k < |es| && es[k] == root;
    PathsSettle(g, ins, u, es, k);
    PathRowShares(g, ins, u, root, es, shares);
  }

  /** Whichever branch answered, the shares are the one exact solution of the
      root's linear system: the two methods never disagree. */
  lemma BranchesAgree(ins: seq<Interest>, root: Ref, r: OwnershipResult)
    requires Answers(ins, root, r) && r.Integrated? && root in Endpoints(ins)
    ensures SoleSolution(r.shares, ins, root)
  {
    hide Acyclic, IsHoldingGraph, EdgesWithin, EndpointsIn, HoldingGraph, SoleSolution, Endpoints, PathShare,
         Entities, Val;
    HoldingSettings(ins);
    if Acyclic(HoldingGraph(ins)) {
      PathsAreSolution(ins, root, r.shares);
    }
  }

  /** One structure has one integrated ownership. */
  lemma SharesUnique(ins: seq<Interest>, root: Ref, s: map<Ref, Rational>, t: map<Ref, Rational>)
    requires SoleSolution(s, ins, root) && SoleSolution(t, ins, root)
    ensures s.Keys == t.Keys && forall e :: e in s ==> Val(s[e]) == Val(t[e])
  {
    var es := Entities(ins);
    hide Entities, RootSystem, RootHoldings, Solves, IsFixed, Val, StrictlySorted, SharesAre;
    EntitiesSorted(ins);
    PlacesDiffer(es);
    var r: nat, x: Row :| r < |es| && es[r] == root
      && Settles(RootSystem(ins, es, r), RootHoldings(ins, es, root), Some(x)) && SharesAre(s, es, root, x);
    var q: nat, y: Row :| q < |es| && es[q] == root
      && Settles(RootSystem(ins, es, q), RootHoldings(ins, es, root), Some(y)) && SharesAre(t, es, root, y);
    assert q == r && x == y;
    SameShares(s, t, es, root, x);
  }

  lemma SameShares(s: map<Ref, Rational>, t: map<Ref, Rational>, es: seq<Ref>, root: Ref, x: Row)
    requires SharesAre(s, es, root, x) && SharesAre(t, es, root, x)
    ensures s.Keys == t.Keys && forall e :: e in s ==> Val(s[e]) == Val(t[e])
  {
    hide Val;
    forall e | e in s ensures Val(s[e]) == Val(t[e]) {
      var i :| 0 <= i < |es| && es[i] == e;
    }
  }

  /** A root that no interest mentions has no path to anyone. */
  lemma {:induction false} StrangerHoldsNothing(g: Graph, ins: seq<Interest>, u: set<Ref>, root: Ref, node: Ref, k: nat)
    requires AcyclicHoldings(g, ins, u) && root !in u && k <= |ins|
    ensures PathSum(g, ins, u, root, node, k) == 0.0
    decreases |Ancestors(g, u, node)|, k
  {
    hide AcyclicHoldings, Val, PathShare, PathSum, Ancestors;
    if k == 0 {
      NoPathSum(g, ins, u, root, node);
    } else {
      StrangerHoldsNothing(g, ins, u, root, node, k - 1);
      NextPathSum(g, ins, u, root, node, k);
      var i := ins[k - 1];
      if i.to == node {
        HolderShrinks(g, ins, u, k - 1);
        HolderKnown(g, ins, u, k - 1);
        StrangerHoldsNothing(g, ins, u, root, i.from, |ins|);
        ShareIsSum(g, ins, u, root, i.from);
      }
    }
  }

  /** On results: a root that no interest mentions is refused as unknown exactly on a
      cyclic graph, and answered with zeros everywhere on an acyclic one. */
  lemma {:induction false} StrangerAnswered(ins: seq<Interest>, root: Ref, r: OwnershipResult)
    requires Answers(ins, root, r) && root !in Endpoints(ins)
    ensures r == Refused(RootUnknown(root)) <==> !Acyclic(HoldingGraph(ins))
    ensures r.Integrated? <==> Acyclic(HoldingGraph(ins))
    ensures r.Integrated? ==> forall e :: e in r.shares ==> Val(r.shares[e]) == 0.0
  {
    var g, u := HoldingGraph(ins), Endpoints(ins);
    HoldingSettings(ins);
    hide Acyclic, IsHoldingGraph, EdgesWithin, EndpointsIn, HoldingGraph, SoleSolution, SystemSingular, Endpoints;
    hide PathShare, PathSum, Val;
    if Acyclic(g) {
      assert AcyclicHoldings(g, ins, u);
      forall e | e in r.shares ensures Val(r.shares[e]) == 0.0 {
        ShareIsSum(g, ins, u, root, e);
        StrangerHoldsNothing(g, ins, u, root, e, |ins|);
      }
    }
  }

  lemma HolderKnown(g: Graph, ins: seq<Interest>, u: set<Ref>, k: nat)
    requires AcyclicHoldings(g, ins, u) && k < |ins|
    ensures ins[k].from in u
  {
  }

  // ------------------------------------------------------- shares are proportions

  /** The total weight held in `y`, by everybody. */
  ghost function HeldIn(ins: seq<Interest>, y: Ref): real {
    if ins == [] then 0.0
    else
      var i := ins[|ins| - 1];
      HeldIn(ins[..|ins| - 1], y) + if i.to == y then Val(i.weight) else 0.0
  }

  lemma {:induction false} HeldStep(ins: seq<Interest>, k: nat, y: Ref)
    requires 0 < k <= |ins|
    ensures HeldIn(ins[..k], y) == HeldIn(ins[..k - 1], y) + if ins[k - 1].to == y then Val(ins[k - 1].weight) else 0.0
  {
    hide Val;
    assert ins[..k][..k - 1] == ins[..k - 1] && ins[..k][k - 1] == ins[k - 1];
  }

  lemma ProportionStep(p: real, before: real, share: real, w: real, held: real, heldBefore: real)
    requires 0.0 <= before <= heldBefore && 0.0 <= share <= 1.0 && 0.0 <= w
    requires p == before + share * w && held == heldBefore + w
    ensures 0.0 <= p <= held
  {
    assert 0.0 <= share * w <= w;
  }

  /** When no interest is negative and nobody is held more than whole, every
      integrated share is a proportion. */
  lemma {:induction false} ShareIsProportion(g: Graph, ins: seq<Interest>, u: set<Ref>, root: Ref, node: Ref)
    requires AcyclicHoldings(g, ins, u)
    requires forall k :: 0 <= k < |ins| ==> 0.0 <= Val(ins[k].weight)
    requires forall y :: HeldIn(ins, y) <= 1.0
    ensures 0.0 <= PathShare(g, ins, u, root, node) <= 1.0
    decreases |Ancestors(g, u, node)|, |ins| + 1
  {
    hide AcyclicHoldings, Val, PathSum, Ancestors, HeldIn;
    if node != root {
      SumIsProportion(g, ins, u, root, node, |ins|);
      assert ins[..|ins|] == ins;
      assert HeldIn(ins, node) <= 1.0;
    }
  }

  lemma {:induction false} SumIsProportion(g: Graph, ins: seq<Interest>, u: set<Ref>, root: Ref, node: Ref, k: nat)
    requires AcyclicHoldings(g, ins, u) && k <= |ins|
    requires forall k :: 0 <= k < |ins| ==> 0.0 <= Val(ins[k].weight)
    requires forall y :: HeldIn(ins, y) <= 1.0
    ensures 0.0 <= PathSum(g, ins, u, root, node, k) <= HeldIn(ins[..k], node)
    decreases |Ancestors(g, u, node)|, k
  {
    hide AcyclicHoldings, Val, PathShare, PathSum, Ancestors, HeldIn;
    if k > 0 {
      SumIsProportion(g, ins, u, root, node, k - 1);
      NextPathSum(g, ins, u, root, node, k);
      HeldStep(ins, k, node);
      var i := ins[k - 1];
      if i.to == node {
        HolderShrinks(g, ins, u, k - 1);
        ShareIsProportion(g, ins, u, root, i.from);
        ProportionStep(PathSum(g, ins, u, root, node, k), PathSum(g, ins, u, root, node, k - 1),
                       PathShare(g, ins, u, root, i.from), Val(i.weight), HeldIn(ins[..k], node),
                       HeldIn(ins[..k - 1], node));
      }
    } else {
      NoPathSum(g, ins, u, root, node);
      NobodyHolds(ins, node);
    }
  }

  lemma {:induction false} NobodyHolds(ins: seq<Interest>, y: Ref)
    ensures HeldIn(ins[..0], y) == 0.0
  {
  }
}
