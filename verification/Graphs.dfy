/** Finite directed graphs as adjacency maps, with reachability by explicit paths. */
module Graphs {
  import opened Refs

  type Graph = map<Ref, seq<Ref>>

  /** The successors of a vertex, none for one without an entry. */
  function Succ(g: Graph, v: Ref): seq<Ref> {
    if v in g then g[v] else []
  }

  ghost predicate Closed(g: Graph, s: set<Ref>) {
    forall x, y :: x in s && y in Succ(g, x) ==> y in s
  }

  ghost predicate IsPath(g: Graph, p: seq<Ref>) {
    && |p| > 0
    && forall i :: 0 <= i < |p| - 1 ==> p[i + 1] in Succ(g, p[i])
  }

  ghost predicate PathFromTo(g: Graph, p: seq<Ref>, x: Ref, y: Ref) {
    IsPath(g, p) && p[0] == x && p[|p| - 1] == y
  }

  ghost predicate Reach(g: Graph, x: Ref, y: Ref) {
    exists p :: PathFromTo(g, p, x, y)
  }

  ghost predicate Mutual(g: Graph, x: Ref, y: Ref) {
    Reach(g, x, y) && Reach(g, y, x)
  }

  /** A strongly connected component: non-empty, and holding with each member
      exactly the vertices mutually reachable with it. */
  ghost predicate IsScc(g: Graph, c: set<Ref>) {
    && c != {}
    && forall x, y :: x in c ==> (y in c <==> Mutual(g, x, y))
  }

  lemma ReachSelf(g: Graph, x: Ref)
    ensures Reach(g, x, x)
  {
    assert PathFromTo(g, [x], x, x);
  }

  lemma ReachEdge(g: Graph, x: Ref, y: Ref)
    requires y in Succ(g, x)
    ensures Reach(g, x, y)
  {
    assert PathFromTo(g, [x, y], x, y);
  }

  lemma ReachTrans(g: Graph, x: Ref, y: Ref, z: Ref)
    requires Reach(g, x, y) && Reach(g, y, z)
    ensures Reach(g, x, z)
  {
    var p :| PathFromTo(g, p, x, y);
    var q :| PathFromTo(g, q, y, z);
    var r := p + q[1..];
    forall i | 0 <= i < |r| - 1 ensures r[i + 1] in Succ(g, r[i]) {
      if i < |p| - 1 {
        assert p[i + 1] in Succ(g, p[i]);
      } else {
        assert r[i] == q[i - (|p| - 1)] && r[i + 1] == q[i - (|p| - 1) + 1];
      }
    }
    assert PathFromTo(g, r, x, z);
  }

  /** A set closed under edges contains everything its members reach. */
  lemma {:induction false} PathStaysInside(g: Graph, s: set<Ref>, p: seq<Ref>)
    requires Closed(g, s) && IsPath(g, p) && p[0] in s
    ensures p[|p| - 1] in s
  {
    if |p| > 1 {
      assert p[0 + 1] in Succ(g, p[0]);
      forall i | 0 <= i < |p[1..]| - 1 ensures p[1..][i + 1] in Succ(g, p[1..][i]) {
        assert p[(i + 1) + 1] in Succ(g, p[i + 1]);
      }
      PathStaysInside(g, s, p[1..]);
    }
  }

  lemma ReachStaysInside(g: Graph, s: set<Ref>, x: Ref, y: Ref)
    requires Closed(g, s) && x in s && Reach(g, x, y)
    ensures y in s
  {
    var p :| PathFromTo(g, p, x, y);
    PathStaysInside(g, s, p);
  }

  /** The vertices of `s` that `x` reaches. */
  ghost function ReachSet(g: Graph, s: set<Ref>, x: Ref): set<Ref> {
    set y | y in s && Reach(g, x, y)
  }

  /** Every non-empty closed set contains a strongly connected component that
      no edge leaves. */
  lemma {:induction false} SinkComponent(g: Graph, s: set<Ref>, v: Ref) returns (c: set<Ref>)
    requires Closed(g, s) && v in s
    ensures IsScc(g, c) && c <= s && Closed(g, c)
    decreases |ReachSet(g, s, v)|
  {
    c := ReachSet(g, s, v);
    ReachSelf(g, v);
    assert v in c;
    forall x, y | x in c && y in Succ(g, x) ensures y in c {
      ReachEdge(g, x, y);
      ReachTrans(g, v, x, y);
    }
    if forall x :: x in c ==> Reach(g, x, v) {
      forall x, y | x in c ensures y in c <==> Mutual(g, x, y) {
        if y in c {
          ReachTrans(g, x, v, y);
          ReachTrans(g, y, v, x);
        }
        if Mutual(g, x, y) { ReachStaysInside(g, c, x, y); }
      }
    } else {
      var x :| x in c && !Reach(g, x, v);
      forall y | y in ReachSet(g, s, x) ensures y in c { ReachTrans(g, v, x, y); }
      assert v !in ReachSet(g, s, x);
      CardinalityStrict(ReachSet(g, s, x), c);
      c := SinkComponent(g, s, x);
    }
  }

  lemma CardinalityStrict<T>(a: set<T>, b: set<T>)
    requires a < b
    ensures |a| < |b|
  {
    assert b == a + (b - a);
  }

  // ---------------------------------------------------- graphs that reach the same

  /** Every edge of `g` can be walked in `h`. */
  ghost predicate EdgesWalked(g: Graph, h: Graph) {
    forall x, y {:trigger y in Succ(g, x)} :: y in Succ(g, x) ==> Reach(h, x, y)
  }

  lemma {:induction false} PathWalked(g: Graph, h: Graph, p: seq<Ref>)
    requires EdgesWalked(g, h) && IsPath(g, p)
    ensures Reach(h, p[0], p[|p| - 1])
  {
    if |p| == 1 {
      ReachSelf(h, p[0]);
    } else {
      var q := p[..|p| - 1];
      forall i | 0 <= i < |q| - 1 ensures q[i + 1] in Succ(g, q[i]) { assert p[i + 1] in Succ(g, p[i]); }
      hide Reach;
      PathWalked(g, h, q);
      assert p[|p| - 2 + 1] in Succ(g, p[|p| - 2]);
      ReachTrans(h, p[0], p[|p| - 2], p[|p| - 1]);
    }
  }

  /** Graphs whose edges can be walked in each other have the same components. */
  lemma SccTransfer(g: Graph, h: Graph, c: set<Ref>)
    requires EdgesWalked(g, h) && EdgesWalked(h, g)
    ensures IsScc(g, c) <==> IsScc(h, c)
  {
    forall x, y ensures Mutual(g, x, y) <==> Mutual(h, x, y) {
      ReachTransfer(g, h, x, y);
      ReachTransfer(g, h, y, x);
      ReachTransfer(h, g, x, y);
      ReachTransfer(h, g, y, x);
    }
    hide Mutual, EdgesWalked;
  }

  lemma ReachTransfer(g: Graph, h: Graph, x: Ref, y: Ref)
    requires EdgesWalked(g, h)
    ensures Reach(g, x, y) ==> Reach(h, x, y)
  {
    if p :| PathFromTo(g, p, x, y) { PathWalked(g, h, p); }
  }

  // ---------------------------------------------------------------- acyclicity

  /** No vertex reaches itself by a path with at least one edge. */
  ghost predicate Acyclic(g: Graph) {
    forall x, y :: y in Succ(g, x) ==> !Reach(g, y, x)
  }

  /** The vertices of `s` from which `x` can be reached. */
  ghost function Ancestors(g: Graph, s: set<Ref>, x: Ref): set<Ref> {
    set y | y in s && Reach(g, y, x)
  }

  /** In an acyclic graph the ancestors strictly shrink against the direction of
      an edge: the measure of every recursion over predecessors. */
  lemma AncestorsShrink(g: Graph, s: set<Ref>, x: Ref, y: Ref)
    requires Acyclic(g) && y in Succ(g, x) && y in s
    ensures |Ancestors(g, s, x)| < |Ancestors(g, s, y)|
  {
    ReachSelf(g, y);
    forall z | z in Ancestors(g, s, x) ensures z in Ancestors(g, s, y) {
      ReachEdge(g, x, y);
      ReachTrans(g, z, x, y);
    }
    assert y !in Ancestors(g, s, x) && y in Ancestors(g, s, y);
    CardinalityStrict(Ancestors(g, s, x), Ancestors(g, s, y));
  }
}
