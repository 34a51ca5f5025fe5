/** Cycle detection by depth-first colouring, as ownership integration runs it. */
module Colouring {
  import opened Refs
  import opened Graphs

  const OPEN: nat := 1
  const DONE: nat := 2

  /** Colours so far, with a finishing time for every finished vertex. */
  datatype Colours = Colours(colour: map<Ref, nat>, cyclic: bool, finish: map<Ref, nat>, clock: nat)

  ghost predicate Shape(c: Colours, universe: set<Ref>, gray: set<Ref>) {
    && c.colour.Keys <= universe
    && (forall x :: x in c.colour ==> c.colour[x] == OPEN || c.colour[x] == DONE)
    && (forall x :: x in gray <==> x in c.colour && c.colour[x] == OPEN)
    && (forall x :: x in c.finish <==> x in c.colour && c.colour[x] == DONE)
    && (forall x :: x in c.finish ==> c.finish[x] < c.clock)
  }

  /** While no cycle has been met, every edge out of a finished vertex leads to one
      finished before it. */
  ghost predicate Topological(g: Graph, c: Colours) {
    forall x, y :: x in c.finish && y in Succ(g, x) ==> y in c.finish && c.finish[y] < c.finish[x]
  }

  ghost predicate Inv(g: Graph, c: Colours, universe: set<Ref>, gray: set<Ref>) {
    && Shape(c, universe, gray)
    && (c.cyclic ==> !Acyclic(g))
    && (!c.cyclic ==> Topological(g, c))
  }

  ghost predicate Keeps(c0: Colours, c1: Colours) {
    && (forall x :: x in c0.colour ==> x in c1.colour && c1.colour[x] == c0.colour[x])
    && (c0.cyclic ==> c1.cyclic)
  }

  /** After the first `i` edges of an open vertex. */
  ghost predicate Visiting(g: Graph, c: Colours, universe: set<Ref>, gray: set<Ref>, node: Ref, i: nat) {
    && Inv(g, c, universe, gray + {node}) && node !in gray
    && i <= |Succ(g, node)|
    && (forall x :: x in gray + {node} ==> Reach(g, x, node))
    && (!c.cyclic ==> forall j :: 0 <= j < i ==> Succ(g, node)[j] in c.finish)
  }

  lemma Opened(g: Graph, c: Colours, universe: set<Ref>, gray: set<Ref>, node: Ref)
    requires Inv(g, c, universe, gray) && node in universe && node !in c.colour
    requires forall x :: x in gray ==> Reach(g, x, node)
    ensures Visiting(g, c.(colour := c.colour[node := OPEN]), universe, gray, node, 0)
  {
    ReachSelf(g, node);
    hide Acyclic, Reach;
  }

  /** An edge to an open vertex closes a cycle. */
  lemma BackEdge(g: Graph, c: Colours, universe: set<Ref>, gray: set<Ref>, node: Ref, i: nat)
    requires Visiting(g, c, universe, gray, node, i) && i < |Succ(g, node)|
    requires Succ(g, node)[i] in gray + {node}
    ensures Visiting(g, c.(cyclic := true), universe, gray, node, i + 1)
  {
    assert Reach(g, Succ(g, node)[i], node);
    hide Reach;
  }

  lemma CrossEdge(g: Graph, c: Colours, universe: set<Ref>, gray: set<Ref>, node: Ref, i: nat)
    requires Visiting(g, c, universe, gray, node, i) && i < |Succ(g, node)|
    requires Succ(g, node)[i] in c.colour && c.colour[Succ(g, node)[i]] == DONE
    ensures Visiting(g, c, universe, gray, node, i + 1)
  {
    hide Reach, Acyclic;
  }

  lemma ReadyToCall(g: Graph, c: Colours, universe: set<Ref>, gray: set<Ref>, node: Ref, i: nat)
    requires Visiting(g, c, universe, gray, node, i) && i < |Succ(g, node)|
    ensures forall x :: x in gray + {node} ==> Reach(g, x, Succ(g, node)[i])
  {
    var w := Succ(g, node)[i];
    ReachEdge(g, node, w);
    hide Reach, Acyclic, Topological;
    forall x | x in gray + {node} ensures Reach(g, x, w) { ReachTrans(g, x, node, w); }
  }

  lemma AfterCall(g: Graph, c: Colours, c1: Colours, universe: set<Ref>, gray: set<Ref>, node: Ref, i: nat)
    requires Visiting(g, c, universe, gray, node, i) && i < |Succ(g, node)|
    requires Inv(g, c1, universe, gray + {node}) && Keeps(c, c1)
    requires Succ(g, node)[i] in c1.finish
    ensures Visiting(g, c1, universe, gray, node, i + 1)
  {
    hide Reach, Acyclic, Topological;
    forall j | 0 <= j < i && !c1.cyclic ensures Succ(g, node)[j] in c1.finish {
      var y := Succ(g, node)[j];
      assert y in c.finish && c.colour[y] == DONE && c1.colour[y] == DONE;
    }
  }

  function Settled(c: Colours, node: Ref): Colours {
    c.(colour := c.colour[node := DONE], finish := c.finish[node := c.clock], clock := c.clock + 1)
  }

  lemma Finished(g: Graph, c: Colours, universe: set<Ref>, gray: set<Ref>, node: Ref)
    requires Visiting(g, c, universe, gray, node, |Succ(g, node)|)
    ensures Inv(g, Settled(c, node), universe, gray)
  {
    hide Reach, Acyclic;
    var c' := Settled(c, node);
    if !c.cyclic {
      forall x, y | x in c'.finish && y in Succ(g, x) ensures y in c'.finish && c'.finish[y] < c'.finish[x] {
        if x == node {
          var j :| 0 <= j < |Succ(g, node)| && Succ(g, node)[j] == y;
        }
      }
    }
  }

  /** Finishing times decrease along every path, so a topological colouring of all
      vertices rules cycles out. */
  lemma {:induction false} FinishDecreases(g: Graph, c: Colours, p: seq<Ref>)
    requires Topological(g, c) && IsPath(g, p) && p[0] in c.finish
    ensures p[|p| - 1] in c.finish && c.finish[p[|p| - 1]] <= c.finish[p[0]]
  {
    if |p| > 1 {
      assert p[0 + 1] in Succ(g, p[0]);
      forall i | 0 <= i < |p[1..]| - 1 ensures p[1..][i + 1] in Succ(g, p[1..][i]) {
        assert p[(i + 1) + 1] in Succ(g, p[i + 1]);
      }
      FinishDecreases(g, c, p[1..]);
    }
  }

  lemma TopologicalIsAcyclic(g: Graph, c: Colours)
    requires Topological(g, c) && forall x, y :: y in Succ(g, x) ==> x in c.finish
    ensures Acyclic(g)
  {
    forall x, y | y in Succ(g, x) ensures !Reach(g, y, x) {
      if Reach(g, y, x) {
        var p :| PathFromTo(g, p, y, x);
        FinishDecreases(g, c, p);
      }
    }
  }

  class Painter {
    const graph: Graph
    ghost const universe: set<Ref>
    var colour: map<Ref, nat>
    var cyclic: bool
    ghost var finish: map<Ref, nat>
    ghost var clock: nat

    ghost function Now(): Colours
      reads this
    {
      Colours(colour, cyclic, finish, clock)
    }

    constructor (g: Graph, ghost u: set<Ref>)
      ensures graph == g && universe == u && Now() == Colours(map[], false, map[], 0)
    {
      graph, universe := g, u;
      colour, cyclic := map[], false;
      finish, clock := map[], 0;
    }

    method Visit(node: Ref, ghost gray: set<Ref>)
      requires Closed(graph, universe)
      requires Inv(graph, Now(), universe, gray) && node in universe && node !in colour
      requires forall x :: x in gray ==> Reach(graph, x, node)
      modifies this
      ensures Inv(graph, Now(), universe, gray) && Keeps(old(Now()), Now()) && node in finish
      decreases universe - colour.Keys
    {
      hide Inv, Visiting, Reach, Closed;
      ghost var c0 := Now();
      Opened(graph, c0, universe, gray, node);
      colour := colour[node := OPEN];
      var edges := Succ(graph, node);
      for i := 0 to |edges|
        invariant Visiting(graph, Now(), universe, gray, node, i)
        invariant Keeps(c0, Now()) && node in colour
      {
        ghost var c := Now();
        VisitingFacts(graph, c, universe, gray, node, i);
        var to := edges[i];
        if to in colour && colour[to] == OPEN {
          BackEdge(graph, c, universe, gray, node, i);
          cyclic := true;
        } else if to !in colour {
          ReadyToCall(graph, c, universe, gray, node, i);
          Visit(to, gray + {node});
          AfterCall(graph, c, Now(), universe, gray, node, i);
        } else {
          CrossEdge(graph, c, universe, gray, node, i);
        }
      }
      Finished(graph, Now(), universe, gray, node);
      colour := colour[node := DONE];
      finish := finish[node := clock];
      clock := clock + 1;
    }
  }

  lemma VisitingFacts(g: Graph, c: Colours, universe: set<Ref>, gray: set<Ref>, node: Ref, i: nat)
    requires Visiting(g, c, universe, gray, node, i) && i < |Succ(g, node)| && Closed(g, universe)
    ensures Inv(g, c, universe, gray + {node})
    ensures Succ(g, node)[i] in universe
    ensures forall x :: x in c.colour ==> x in universe && (c.colour[x] == OPEN || c.colour[x] == DONE)
    ensures forall x :: x in gray + {node} <==> x in c.colour && c.colour[x] == OPEN
    ensures node in universe
  {
    hide Reach, Acyclic, Topological;
    assert node in gray + {node};
  }

  /** Every edge runs between listed vertices. */
  ghost predicate EdgesWithin(g: Graph, entities: seq<Ref>) {
    forall x, y {:trigger y in Succ(g, x)} :: y in Succ(g, x) ==> x in entities && y in entities
  }

  /** Every entity still uncoloured is visited in turn: the flag is set
      exactly when the graph has a cycle. */
  method HasCycle(g: Graph, entities: seq<Ref>) returns (cyclic: bool)
    requires EdgesWithin(g, entities)
    ensures cyclic <==> !Acyclic(g)
  {
    hide Inv, Acyclic;
    ghost var universe := set x | x in entities;
    var painter := new Painter(g, universe);
    NothingPainted(g, universe);
    for i := 0 to |entities|
      invariant Inv(g, painter.Now(), universe, {})
      invariant forall j :: 0 <= j < i ==> entities[j] in painter.colour
    {
      if entities[i] !in painter.colour {
        assert Closed(g, universe);
        painter.Visit(entities[i], {});
        PaintedIsFinished(g, painter.Now(), universe);
      }
    }
    cyclic := painter.cyclic;
    ghost var c := painter.Now();
    AllPainted(g, c, universe, entities);
  }

  lemma AllPainted(g: Graph, c: Colours, universe: set<Ref>, entities: seq<Ref>)
    requires Inv(g, c, universe, {}) && EdgesWithin(g, entities)
    requires forall j :: 0 <= j < |entities| ==> entities[j] in c.colour
    ensures c.cyclic <==> !Acyclic(g)
  {
    PaintedIsFinished(g, c, universe);
    if !c.cyclic {
      hide Acyclic;
      forall x, y | y in Succ(g, x) ensures x in c.finish { assert x in entities; }
      TopologicalIsAcyclic(g, c);
    }
  }

  lemma NothingPainted(g: Graph, universe: set<Ref>)
    ensures Inv(g, Colours(map[], false, map[], 0), universe, {})
  {
  }

  lemma PaintedIsFinished(g: Graph, c: Colours, universe: set<Ref>)
    requires Inv(g, c, universe, {})
    ensures forall x :: x in c.colour <==> x in c.finish
  {
    hide Acyclic, Topological;
  }
}
