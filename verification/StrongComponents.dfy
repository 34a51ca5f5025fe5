/** Tarjan's algorithm as AllocationIQ runs it: recursion over mutable index and
    lowlink maps, an explicit stack, and components closed when a root is found. */
module StrongComponents {
  import opened Refs
  import opened Sorting
  import opened RefLists
  import opened Graphs

  /** The algorithm's whole mutable state at one moment. */
  datatype Env = Env(
    indexOf: map<Ref, nat>,
    lowlink: map<Ref, nat>,
    onStack: set<Ref>,
    stack: seq<Ref>,
    components: seq<seq<Ref>>,
    counter: nat)

  function Members(c: seq<Ref>): set<Ref> {
    set x | x in c
  }

  ghost predicate Popped(e: Env, x: Ref) {
    exists k :: 0 <= k < |e.components| && x in e.components[k]
  }

  // `gray` is the set of vertices whose calls are still open.

  ghost predicate Shape(e: Env, universe: set<Ref>, gray: set<Ref>) {
    && e.indexOf.Keys <= universe
    && gray <= e.onStack
    && e.lowlink.Keys == e.indexOf.Keys
    && (forall x :: x in e.onStack <==> x in e.stack)
    && (forall x :: x in e.stack ==> x in e.indexOf)
    && (forall i, j :: 0 <= i < j < |e.stack| ==> e.indexOf[e.stack[i]] < e.indexOf[e.stack[j]])
    && (forall x :: x in e.indexOf ==> e.indexOf[x] < e.counter)
  }

  ghost predicate Partitioned(e: Env) {
    && (forall x :: x in e.indexOf <==> x in e.stack || Popped(e, x))
    && (forall x :: x in e.stack ==> !Popped(e, x))
    && (forall i, j, x :: 0 <= i < j < |e.components| && x in e.components[i] ==> x !in e.components[j])
  }

  ghost predicate EdgesSeen(g: Graph, e: Env, gray: set<Ref>) {
    forall x, y :: x in e.indexOf && x !in gray && y in Succ(g, x) ==> y in e.indexOf
  }

  /** Lower stack entries reach higher ones, and every entry reaches an open
      vertex at or below it. */
  ghost predicate Chained(g: Graph, e: Env, gray: set<Ref>)
    requires forall x :: x in e.stack ==> x in e.indexOf
    requires forall x :: x in gray ==> x in e.indexOf
  {
    && (forall i, j {:trigger Reach(g, e.stack[i], e.stack[j])} :: 0 <= i <= j < |e.stack| ==>
      Reach(g, e.stack[i], e.stack[j]))
    && (forall y {:trigger ReachesOpen(g, e, gray, y)} :: y in e.stack ==> ReachesOpen(g, e, gray, y))
  }

  /** `y` reaches a vertex whose call is open and whose index is not above its own. */
  ghost predicate ReachesOpen(g: Graph, e: Env, gray: set<Ref>, y: Ref)
    requires y in e.indexOf
    requires forall x :: x in gray ==> x in e.indexOf
  {
    exists x :: x in gray && e.indexOf[x] <= e.indexOf[y] && Reach(g, y, x)
  }

  ghost predicate ComponentsAreSccs(g: Graph, e: Env) {
    forall k :: 0 <= k < |e.components| ==> IsScc(g, Members(e.components[k]))
  }

  /** Every component lists its vertices in reference order, each once. */
  ghost predicate ListedInOrder(components: seq<seq<Ref>>) {
    forall k :: 0 <= k < |components| ==> StrictlySorted(components[k])
  }

  ghost predicate Inv(g: Graph, universe: set<Ref>, e: Env, gray: set<Ref>) {
    && Shape(e, universe, gray)
    && Partitioned(e)
    && EdgesSeen(g, e, gray)
    && Chained(g, e, gray)
    && ComponentsAreSccs(g, e)
  }

  /** What later states keep of earlier ones, lowlinks apart. */
  ghost predicate Extends(e0: Env, e1: Env) {
    && e0.stack <= e1.stack
    && e0.components <= e1.components
    && e0.counter <= e1.counter
    && (forall x :: x in e0.indexOf ==> x in e1.indexOf && e1.indexOf[x] == e0.indexOf[x])
    && (forall x :: x in e1.indexOf && x !in e0.indexOf ==> e0.counter <= e1.indexOf[x])
  }

  ghost predicate LowlinksKept(e0: Env, e1: Env) {
    forall x :: x in e0.lowlink ==> x in e1.lowlink && e1.lowlink[x] == e0.lowlink[x]
  }

  /** The low value is the index of a stack vertex that `v` reaches. */
  ghost predicate LowWitness(g: Graph, e: Env, v: Ref, low: nat)
    requires forall x :: x in e.stack ==> x in e.indexOf
  {
    exists z :: z in e.stack && e.indexOf[z] == low && Reach(g, v, z)
  }

  /** No edge from the stack above position `from` enters the old stack
      `e.stack[..height]` below the low value. */
  ghost predicate LowCovers(g: Graph, e: Env, height: nat, from: nat, low: nat)
    requires forall x :: x in e.stack ==> x in e.indexOf
    requires height <= from <= |e.stack|
  {
    forall k, y :: from <= k < |e.stack| && y in Succ(g, e.stack[k]) && y in e.stack[..height]
      ==> low <= e.indexOf[y]
  }

  /** What a finished call on `v` guarantees. */
  ghost predicate Finished(g: Graph, e0: Env, e1: Env, v: Ref)
    requires forall x :: x in e1.stack ==> x in e1.indexOf
  {
    && e0.stack <= e1.stack
    && v in e1.indexOf && v in e1.lowlink
    && e1.lowlink[v] <= e1.indexOf[v]
    && (v in e1.stack ==> LowWitness(g, e1, v, e1.lowlink[v]))
    && (v !in e1.stack ==> e1.lowlink[v] == e1.indexOf[v])
    && LowCovers(g, e1, |e0.stack|, |e0.stack|, e1.lowlink[v])
  }

  // ------------------------------------------------------------ the three steps

  function Pushed(e: Env, v: Ref): Env {
    e.(indexOf := e.indexOf[v := e.counter],
       lowlink := e.lowlink[v := e.counter],
       onStack := e.onStack + {v},
       stack := e.stack + [v],
       counter := e.counter + 1)
  }

  lemma PushKeepsInv(g: Graph, universe: set<Ref>, e: Env, gray: set<Ref>, v: Ref)
    requires Inv(g, universe, e, gray)
    requires v in universe && v !in e.indexOf
    requires forall x :: x in gray ==> Reach(g, x, v)
    ensures Inv(g, universe, Pushed(e, v), gray + {v})
    ensures Extends(e, Pushed(e, v))
    ensures LowWitness(g, Pushed(e, v), v, e.counter)
  {
    PushKeepsChain(g, universe, e, gray, v);
    PushKeepsPlaces(g, universe, e, gray, v);
    PushKeepsEdges(g, e, gray, v);
    PushExtends(e, v);
    assert ComponentsAreSccs(g, Pushed(e, v)) by { hide IsScc; }
    hide Reach, Chained, Shape, Partitioned, EdgesSeen, Extends, LowWitness, ComponentsAreSccs, Pushed;
  }

  lemma PushExtends(e: Env, v: Ref)
    requires v !in e.indexOf && forall x :: x in e.indexOf ==> e.indexOf[x] < e.counter
    ensures Extends(e, Pushed(e, v))
  {
  }

  lemma PushKeepsEdges(g: Graph, e: Env, gray: set<Ref>, v: Ref)
    requires EdgesSeen(g, e, gray) && forall x :: x in e.stack ==> x in e.indexOf
    ensures EdgesSeen(g, Pushed(e, v), gray + {v})
    ensures LowWitness(g, Pushed(e, v), v, e.counter)
  {
    ReachSelf(g, v);
    hide Reach;
    assert Pushed(e, v).stack[|e.stack|] == v;
  }

  lemma PushKeepsPlaces(g: Graph, universe: set<Ref>, e: Env, gray: set<Ref>, v: Ref)
    requires Shape(e, universe, gray) && Partitioned(e) && v in universe && v !in e.indexOf
    ensures Shape(Pushed(e, v), universe, gray + {v}) && Partitioned(Pushed(e, v))
  {
    var e' := Pushed(e, v);
    assert e'.stack[|e.stack|] == v;
    forall x ensures Popped(e', x) <==> Popped(e, x) {}
  }

  lemma PushKeepsChain(g: Graph, universe: set<Ref>, e: Env, gray: set<Ref>, v: Ref)
    requires Shape(e, universe, gray) && Chained(g, e, gray) && v !in e.indexOf
    requires forall x :: x in gray ==> Reach(g, x, v)
    ensures Chained(g, Pushed(e, v), gray + {v})
  {
    var e' := Pushed(e, v);
    ReachSelf(g, v);
    forall i, j | 0 <= i <= j < |e'.stack| ensures Reach(g, e'.stack[i], e'.stack[j]) {
      if i < |e.stack| == j {
        var y := e.stack[i];
        assert y in e.stack && ReachesOpen(g, e, gray, y);
        var x :| x in gray && e.indexOf[x] <= e.indexOf[y] && Reach(g, y, x);
        ReachTrans(g, y, x, v);
      } else if j < |e.stack| {
        assert Reach(g, e.stack[i], e.stack[j]);
      }
    }
    forall y | y in e'.stack ensures ReachesOpen(g, e', gray + {v}, y) {
      if y != v {
        assert ReachesOpen(g, e, gray, y);
        var x :| x in gray && e.indexOf[x] <= e.indexOf[y] && Reach(g, y, x);
        assert x in gray + {v} && e'.indexOf[x] <= e'.indexOf[y] && Reach(g, y, x);
      } else {
        assert v in gray + {v} && e'.indexOf[v] <= e'.indexOf[y] && Reach(g, y, v);
      }
    }
  }

  /** The state just before the test `lowlink(v) === indexOf(v)`. */
  ghost predicate Scanned(g: Graph, universe: set<Ref>, e: Env, gray: set<Ref>, height: nat, v: Ref) {
    && v !in gray
    && Inv(g, universe, e, gray + {v})
    && height < |e.stack| && e.stack[height] == v
    && (forall x :: x in gray ==> x in e.stack[..height])
    && (forall x :: x in gray ==> Reach(g, x, v))
    && (forall y :: y in Succ(g, v) ==> y in e.indexOf)
    && LowWitness(g, e, v, e.lowlink[v])
    && e.lowlink[v] <= e.indexOf[v]
    && LowCovers(g, e, height, height, e.lowlink[v])
  }

  lemma BelowIsNotInSegment(e: Env, height: nat, x: Ref)
    requires height <= |e.stack|
    requires forall y :: y in e.stack ==> y in e.indexOf
    requires forall i, j :: 0 <= i < j < |e.stack| ==> e.indexOf[e.stack[i]] < e.indexOf[e.stack[j]]
    ensures !(x in e.stack[..height] && x in e.stack[height..])
  {
  }

  /** Before the root test, no edge leads from the top segment into the stack
      below it, and every edge out of it leads to a visited vertex. */
  lemma SegmentEdges(g: Graph, universe: set<Ref>, e: Env, gray: set<Ref>, height: nat, v: Ref, k: nat, z: Ref)
    requires Scanned(g, universe, e, gray, height, v) && e.lowlink[v] == e.indexOf[v]
    requires height <= k < |e.stack| && z in Succ(g, e.stack[k])
    ensures z in e.indexOf && z !in e.stack[..height]
  {
    var x := e.stack[k];
    assert e.stack[height..][k - height] == x;
    BelowIsNotInSegment(e, height, x);
    assert x in e.stack && (x == v || x !in gray + {v});
    assert forall j :: 0 <= j < height ==> e.indexOf[e.stack[..height][j]] < e.indexOf[e.stack[height]];
  }

  /** A vertex of a closed component is not mutually reachable with one that is
      still on the stack. */
  lemma PoppedStaysApart(g: Graph, e: Env, v: Ref, z: Ref)
    requires Partitioned(e) && ComponentsAreSccs(g, e) && v in e.stack
    requires Reach(g, v, z) && Reach(g, z, v)
    ensures !Popped(e, z)
  {
    forall c | 0 <= c < |e.components| ensures z !in e.components[c] {
      assert v !in e.components[c] by { assert !Popped(e, v); }
      assert IsScc(g, Members(e.components[c])) && Mutual(g, z, v);
    }
  }

  /** An edge out of the top segment whose head can come back to `v` stays in
      the segment. */
  lemma SegmentStep(g: Graph, universe: set<Ref>, e: Env, gray: set<Ref>, height: nat, v: Ref, x: Ref, z: Ref)
    requires Scanned(g, universe, e, gray, height, v) && e.lowlink[v] == e.indexOf[v]
    requires x in e.stack[height..] && z in Succ(g, x) && Reach(g, z, v)
    ensures z in e.stack[height..]
  {
    hide Scanned, Reach;
    var k := SegmentPlace(g, universe, e, gray, height, v, x);
    SegmentEdges(g, universe, e, gray, height, v, k, z);
    ReachEdge(g, x, z);
    ReachTrans(g, v, x, z);
    PoppedStaysApart(g, e, v, z);
    assert e.stack == e.stack[..height] + e.stack[height..];
  }

  /** Where a vertex of the top segment lies, and that `v` reaches it. */
  lemma SegmentPlace(g: Graph, universe: set<Ref>, e: Env, gray: set<Ref>, height: nat, v: Ref, x: Ref) returns (k: nat)
    requires Scanned(g, universe, e, gray, height, v) && x in e.stack[height..]
    ensures height <= k < |e.stack| && e.stack[k] == x && x in e.stack && v in e.stack
    ensures Reach(g, v, x)
    ensures Partitioned(e) && ComponentsAreSccs(g, e)
  {
    hide Reach, Shape, EdgesSeen, Partitioned, ComponentsAreSccs, LowWitness, LowCovers, ReachesOpen;
    k :| 0 <= k < |e.stack| - height && e.stack[height..][k] == x;
    k := k + height;
    assert Reach(g, e.stack[height], e.stack[k]);
    assert e.stack[height] in e.stack;
  }

  /** Whatever leaves the top segment and can come back to `v` has not left it. */
  lemma SegmentHoldsReturns(g: Graph, universe: set<Ref>, e: Env, gray: set<Ref>, height: nat, v: Ref, x: Ref, y: Ref)
    requires Closed(g, universe)
    requires Scanned(g, universe, e, gray, height, v) && e.lowlink[v] == e.indexOf[v]
    requires x in e.stack[height..] && Reach(g, x, y) && Reach(g, y, v)
    ensures y in e.stack[height..]
  {
    var t := set w | w in universe && (w in e.stack[height..] || !Reach(g, w, v));
    assert x in universe by { assert x in e.stack; }
    forall a, b | a in t && b in Succ(g, a) ensures b in t {
      if Reach(g, b, v) {
        ReachEdge(g, a, b);
        ReachTrans(g, a, b, v);
        SegmentStep(g, universe, e, gray, height, v, a, b);
      }
    }
    ReachStaysInside(g, t, x, y);
  }

  /** A root closes its component: the segment above it is exactly one strongly
      connected component. */
  lemma SegmentIsScc(g: Graph, universe: set<Ref>, e: Env, gray: set<Ref>, height: nat, v: Ref)
    requires Closed(g, universe)
    requires Scanned(g, universe, e, gray, height, v) && e.lowlink[v] == e.indexOf[v]
    ensures IsScc(g, Members(e.stack[height..]))
  {
    var c := Members(e.stack[height..]);
    assert e.stack[height..][0] == v;
    assert v in c;
    forall x | x in c ensures Reach(g, v, x) && Reach(g, x, v) {
      SegmentMeetsRoot(g, universe, e, gray, height, v, x);
    }
    forall x, y | x in c ensures y in c <==> Mutual(g, x, y) {
      if y in c {
        ReachTrans(g, x, v, y);
        ReachTrans(g, y, v, x);
      }
      if Mutual(g, x, y) {
        ReachTrans(g, y, x, v);
        SegmentHoldsReturns(g, universe, e, gray, height, v, x, y);
      }
    }
  }

  lemma SegmentMeetsRoot(g: Graph, universe: set<Ref>, e: Env, gray: set<Ref>, height: nat, v: Ref, x: Ref)
    requires Closed(g, universe)
    requires Scanned(g, universe, e, gray, height, v) && e.lowlink[v] == e.indexOf[v]
    requires x in e.stack[height..]
    ensures Reach(g, v, x) && Reach(g, x, v)
  {
    hide Reach, EdgesSeen, Partitioned, ComponentsAreSccs, LowWitness, LowCovers;
    var k := SegmentPlace(g, universe, e, gray, height, v, x);
    assert ReachesOpen(g, e, gray + {v}, x);
    var r :| r in gray + {v} && e.indexOf[r] <= e.indexOf[x] && Reach(g, x, r);
    if r != v {
      SegmentHoldsReturns(g, universe, e, gray, height, v, x, r);
      BelowIsNotInSegment(e, height, r);
    }
  }

  // --------------------------------------------------------- closing or leaving

  function PopComponent(e: Env, height: nat, component: seq<Ref>): Env
    requires height <= |e.stack|
  {
    e.(onStack := e.onStack - Members(e.stack[height..]),
       stack := e.stack[..height],
       components := e.components + [component])
  }

  /** Once `v` has been scanned its edges count as seen. */
  lemma EdgesSeenWithout(g: Graph, e: Env, gray: set<Ref>, v: Ref)
    requires EdgesSeen(g, e, gray + {v})
    requires forall y :: y in Succ(g, v) ==> y in e.indexOf
    ensures EdgesSeen(g, e, gray)
  {
    forall x, y | x in e.indexOf && x !in gray && y in Succ(g, x) ensures y in e.indexOf {
      assert x == v || x !in gray + {v};
    }
  }

  lemma PopKeepsInv(g: Graph, universe: set<Ref>, e: Env, gray: set<Ref>, height: nat, v: Ref, component: seq<Ref>)
    requires Closed(g, universe)
    requires Scanned(g, universe, e, gray, height, v) && e.lowlink[v] == e.indexOf[v]
    requires Members(component) == Members(e.stack[height..])
    ensures Inv(g, universe, PopComponent(e, height, component), gray)
  {
    hide Shape, Partitioned, EdgesSeen, Chained, ComponentsAreSccs, Scanned;
    PopKeepsListing(g, universe, e, gray, height, v, component);
    PopKeepsPaths(g, universe, e, gray, height, v, component);
  }

  lemma PopKeepsListing(g: Graph, universe: set<Ref>, e: Env, gray: set<Ref>, height: nat, v: Ref, component: seq<Ref>)
    requires Scanned(g, universe, e, gray, height, v)
    requires Members(component) == Members(e.stack[height..])
    ensures Shape(PopComponent(e, height, component), universe, gray)
    ensures Partitioned(PopComponent(e, height, component))
  {
    InvFacts(g, universe, e, gray + {v});
    PopKeepsPartition(e, height, component);
    PopKeepsShape(universe, e, gray, height, v, component);
  }

  lemma PopKeepsPaths(g: Graph, universe: set<Ref>, e: Env, gray: set<Ref>, height: nat, v: Ref, component: seq<Ref>)
    requires Closed(g, universe)
    requires Scanned(g, universe, e, gray, height, v) && e.lowlink[v] == e.indexOf[v]
    requires Members(component) == Members(e.stack[height..])
    requires Shape(PopComponent(e, height, component), universe, gray)
    ensures Chained(g, PopComponent(e, height, component), gray)
    ensures EdgesSeen(g, PopComponent(e, height, component), gray)
    ensures ComponentsAreSccs(g, PopComponent(e, height, component))
  {
    InvFacts(g, universe, e, gray + {v});
    PopKeepsChain(g, e, gray, height, v, component);
    EdgesSeenWithout(g, e, gray, v);
    SegmentIsScc(g, universe, e, gray, height, v);
  }

  lemma PopKeepsChain(g: Graph, e: Env, gray: set<Ref>, height: nat, v: Ref, component: seq<Ref>)
    requires height < |e.stack| && e.stack[height] == v && v !in gray
    requires forall x :: x in e.stack ==> x in e.indexOf
    requires forall i, j :: 0 <= i < j < |e.stack| ==> e.indexOf[e.stack[i]] < e.indexOf[e.stack[j]]
    requires forall x :: x in gray ==> x in e.indexOf
    requires Chained(g, e, gray + {v})
    ensures Chained(g, PopComponent(e, height, component), gray)
  {
    var e' := PopComponent(e, height, component);
    forall i, j | 0 <= i <= j < |e'.stack| ensures Reach(g, e'.stack[i], e'.stack[j]) {
      assert Reach(g, e.stack[i], e.stack[j]);
    }
    forall y | y in e'.stack ensures ReachesOpen(g, e', gray, y) {
      assert y in e.stack && ReachesOpen(g, e, gray + {v}, y);
      PopKeepsOpen(g, e, gray, height, v, y);
    }
  }

  lemma PopKeepsShape(universe: set<Ref>, e: Env, gray: set<Ref>, height: nat, v: Ref, component: seq<Ref>)
    requires Shape(e, universe, gray + {v}) && height <= |e.stack|
    requires forall x :: x in gray ==> x in e.stack[..height]
    ensures Shape(PopComponent(e, height, component), universe, gray)
  {
    var e' := PopComponent(e, height, component);
    forall x ensures x in e'.onStack <==> x in e'.stack {
      BelowIsNotInSegment(e, height, x);
      assert e.stack == e.stack[..height] + e.stack[height..];
    }
  }

  lemma PopKeepsPartition(e: Env, height: nat, component: seq<Ref>)
    requires Partitioned(e) && height <= |e.stack|
    requires forall x :: x in e.stack ==> x in e.indexOf
    requires forall i, j :: 0 <= i < j < |e.stack| ==> e.indexOf[e.stack[i]] < e.indexOf[e.stack[j]]
    requires Members(component) == Members(e.stack[height..])
    ensures Partitioned(PopComponent(e, height, component))
  {
    var e' := PopComponent(e, height, component);
    assert e.stack == e.stack[..height] + e.stack[height..];
    forall x ensures Popped(e', x) <==> Popped(e, x) || x in e.stack[height..] {
      assert x in component <==> x in Members(component);
      assert e'.components[|e.components|] == component;
      if Popped(e, x) {
        var k :| 0 <= k < |e.components| && x in e.components[k];
        assert x in e'.components[k];
      }
    }
    forall x | x in e'.stack ensures !Popped(e', x) {
      BelowIsNotInSegment(e, height, x);
    }
    forall i, x | 0 <= i < |e.components| && x in e.components[i] ensures x !in component {
      assert Popped(e, x);
      assert x in component <==> x in Members(component);
    }
  }

  lemma PopKeepsOpen(g: Graph, e: Env, gray: set<Ref>, height: nat, v: Ref, y: Ref)
    requires height < |e.stack| && e.stack[height] == v && v !in gray
    requires forall x :: x in e.stack ==> x in e.indexOf
    requires forall i, j :: 0 <= i < j < |e.stack| ==> e.indexOf[e.stack[i]] < e.indexOf[e.stack[j]]
    requires forall x :: x in gray ==> x in e.indexOf
    requires y in e.stack[..height] && ReachesOpen(g, e, gray + {v}, y)
    ensures ReachesOpen(g, e, gray, y)
  {
    var j :| 0 <= j < height && e.stack[..height][j] == y;
    assert e.indexOf[e.stack[j]] < e.indexOf[e.stack[height]];
  }

  /** A vertex that is not a root stays on the stack, no longer open. */
  lemma LeaveKeepsInv(g: Graph, universe: set<Ref>, e: Env, gray: set<Ref>, height: nat, v: Ref)
    requires Scanned(g, universe, e, gray, height, v) && e.lowlink[v] < e.indexOf[v]
    ensures Inv(g, universe, e, gray)
  {
    LeaveKeepsChain(g, e, gray, v);
    EdgesSeenWithout(g, e, gray, v);
  }

  lemma LeaveKeepsChain(g: Graph, e: Env, gray: set<Ref>, v: Ref)
    requires forall x :: x in e.stack ==> x in e.indexOf
    requires forall x :: x in gray + {v} ==> x in e.indexOf
    requires v in e.lowlink && LowWitness(g, e, v, e.lowlink[v]) && e.lowlink[v] < e.indexOf[v]
    requires Chained(g, e, gray + {v})
    ensures Chained(g, e, gray)
  {
    forall y | y in e.stack ensures ReachesOpen(g, e, gray, y) {
      assert ReachesOpen(g, e, gray + {v}, y);
      var x :| x in gray + {v} && e.indexOf[x] <= e.indexOf[y] && Reach(g, y, x);
      if x == v {
        var z :| z in e.stack && e.indexOf[z] == e.lowlink[v] && Reach(g, v, z);
        assert ReachesOpen(g, e, gray + {v}, z);
        var x' :| x' in gray + {v} && e.indexOf[x'] <= e.indexOf[z] && Reach(g, z, x');
        ReachTrans(g, y, v, z);
        ReachTrans(g, y, z, x');
        assert x' in gray;
      }
    }
  }

  // ------------------------------------------------------------------- the loop

  /** The state inside `strongConnect(v)` after the first `i` edges of `v`. */
  ghost predicate Scanning(g: Graph, universe: set<Ref>, e0: Env, e: Env, gray: set<Ref>, v: Ref, i: nat) {
    && v !in gray
    && Inv(g, universe, e, gray + {v})
    && Extends(e0, e)
    && |e0.stack| < |e.stack| && e.stack[|e0.stack|] == v
    && (forall x :: x in gray ==> x in e0.stack)
    && (forall x :: x in gray ==> Reach(g, x, v))
    && i <= |Succ(g, v)|
    && (forall j :: 0 <= j < i ==> Succ(g, v)[j] in e.indexOf)
    && LowWitness(g, e, v, e.lowlink[v])
    && e.lowlink[v] <= e.indexOf[v]
    && LowCovers(g, e, |e0.stack|, |e0.stack| + 1, e.lowlink[v])
    && (forall j :: 0 <= j < i && Succ(g, v)[j] in e0.stack ==> e.lowlink[v] <= e.indexOf[Succ(g, v)[j]])
  }

  lemma ScanDone(g: Graph, universe: set<Ref>, e0: Env, e: Env, gray: set<Ref>, v: Ref)
    requires Scanning(g, universe, e0, e, gray, v, |Succ(g, v)|)
    ensures Scanned(g, universe, e, gray, |e0.stack|, v)
  {
    assert e.stack[..|e0.stack|] == e0.stack;
    forall k, y | |e0.stack| <= k < |e.stack| && y in Succ(g, e.stack[k]) && y in e.stack[..|e0.stack|]
      ensures e.lowlink[v] <= e.indexOf[y]
    {
      if k == |e0.stack| {
        var j :| 0 <= j < |Succ(g, v)| && Succ(g, v)[j] == y;
      }
    }
  }

  function Min(a: nat, b: nat): nat {
    if a < b then a else b
  }

  function Lowered(e: Env, v: Ref, low: nat): Env
    requires v in e.lowlink
  {
    e.(lowlink := e.lowlink[v := Min(e.lowlink[v], low)])
  }

  lemma LoweredKeepsInv(g: Graph, universe: set<Ref>, e: Env, gray: set<Ref>, v: Ref, low: nat)
    requires Inv(g, universe, e, gray) && v in e.indexOf
    ensures v in e.lowlink && Inv(g, universe, Lowered(e, v, low), gray)
  {
    var e' := Lowered(e, v, low);
    assert forall x :: Popped(e', x) == Popped(e, x);
    assert Chained(g, e', gray) by {
      forall i, j | 0 <= i <= j < |e'.stack| ensures Reach(g, e'.stack[i], e'.stack[j]) {
        assert Reach(g, e.stack[i], e.stack[j]);
      }
      forall y | y in e'.stack ensures ReachesOpen(g, e', gray, y) {
        assert ReachesOpen(g, e, gray, y);
      }
    }
  }

  /** An edge to a visited vertex: lowered to its index when it is on the stack. */
  lemma ScanVisited(g: Graph, universe: set<Ref>, e0: Env, e: Env, gray: set<Ref>, v: Ref, i: nat)
    requires Scanning(g, universe, e0, e, gray, v, i) && i < |Succ(g, v)|
    requires Succ(g, v)[i] in e.indexOf
    ensures
      var w := Succ(g, v)[i];
      Scanning(g, universe, e0, if w in e.onStack then Lowered(e, v, e.indexOf[w]) else e, gray, v, i + 1)
  {
    hide Inv, Reach;
    InvFacts(g, universe, e, gray + {v});
    assert v in gray + {v};
    var w := Succ(g, v)[i];
    if w in e.onStack {
      ReachEdge(g, v, w);
      LoweredKeepsInv(g, universe, e, gray + {v}, v, e.indexOf[w]);
      ScanLowered(g, universe, e0, e, gray, v, i, e.indexOf[w]);
    } else {
      assert w !in e0.stack by { assert e.stack[..|e0.stack|] == e0.stack; }
    }
  }

  lemma ScanLowered(g: Graph, universe: set<Ref>, e0: Env, e: Env, gray: set<Ref>, v: Ref, i: nat, low: nat)
    requires Scanning(g, universe, e0, e, gray, v, i) && i < |Succ(g, v)|
    requires Inv(g, universe, Lowered(e, v, low), gray + {v})
    requires Succ(g, v)[i] in e.indexOf
    requires LowWitness(g, e, v, low)
    requires Succ(g, v)[i] in e0.stack ==> low <= e.indexOf[Succ(g, v)[i]]
    ensures Scanning(g, universe, e0, Lowered(e, v, low), gray, v, i + 1)
  {
    hide Inv, Reach;
    InvFacts(g, universe, e, gray + {v});
    assert v in gray + {v};
    var e' := Lowered(e, v, low);
    LoweredLinks(g, e, v, low, |e0.stack|);
    LoweredExtends(e0, e, v, low);
    LoweredEdges(g, e0, e, v, i, low);
    assert e'.stack == e.stack && e'.indexOf == e.indexOf && v in e'.lowlink && e'.lowlink[v] <= e.lowlink[v];
    hide LowWitness, LowCovers, Extends, Lowered;
  }

  lemma LoweredEdges(g: Graph, e0: Env, e: Env, v: Ref, i: nat, low: nat)
    requires v in e.lowlink && i < |Succ(g, v)| && Succ(g, v)[i] in e.indexOf
    requires forall j :: 0 <= j < i ==> Succ(g, v)[j] in e.indexOf
    requires forall j :: 0 <= j < i && Succ(g, v)[j] in e0.stack ==> e.lowlink[v] <= e.indexOf[Succ(g, v)[j]]
    requires Succ(g, v)[i] in e0.stack ==> low <= e.indexOf[Succ(g, v)[i]]
    ensures forall j :: 0 <= j < i + 1 ==> Succ(g, v)[j] in e.indexOf
    ensures forall j :: 0 <= j < i + 1 && Succ(g, v)[j] in e0.stack ==>
      Lowered(e, v, low).lowlink[v] <= e.indexOf[Succ(g, v)[j]]
  {
  }

  lemma LoweredExtends(e0: Env, e: Env, v: Ref, low: nat)
    requires Extends(e0, e) && v in e.lowlink
    ensures Extends(e0, Lowered(e, v, low))
  {
  }

  /** A lower witness is a witness, and a lower value covers what the higher one did. */
  lemma LoweredLinks(g: Graph, e: Env, v: Ref, low: nat, height: nat)
    requires forall x :: x in e.stack ==> x in e.indexOf
    requires v in e.lowlink && LowWitness(g, e, v, e.lowlink[v]) && LowWitness(g, e, v, low)
    requires height < |e.stack| && LowCovers(g, e, height, height + 1, e.lowlink[v])
    ensures var e' := Lowered(e, v, low);
      LowWitness(g, e', v, e'.lowlink[v]) && LowCovers(g, e', height, height + 1, e'.lowlink[v])
  {
    hide Reach;
    var e' := Lowered(e, v, low);
    var z :| z in e.stack && e.indexOf[z] == e'.lowlink[v] && Reach(g, v, z);
    assert z in e'.stack;
  }

  /** After the recursive call on an unvisited successor `w`, whatever `w`'s low
      value, the scan goes on with one more edge covered. */
  lemma ScanAfterCall(g: Graph, universe: set<Ref>, e0: Env, e: Env, e1: Env, gray: set<Ref>, v: Ref, i: nat)
    requires Scanning(g, universe, e0, e, gray, v, i) && i < |Succ(g, v)|
    requires Succ(g, v)[i] !in e.indexOf
    requires Inv(g, universe, e1, gray + {v})
    requires Extends(e, e1) && LowlinksKept(e, e1) && Finished(g, e, e1, Succ(g, v)[i])
    ensures v in e1.lowlink
    ensures Scanning(g, universe, e0, Lowered(e1, v, e1.lowlink[Succ(g, v)[i]]), gray, v, i + 1)
  {
    hide Inv, Reach, LowCovers, LowWitness;
    var w := Succ(g, v)[i];
    ReachEdge(g, v, w);
    InvFacts(g, universe, e, gray + {v});
    InvFacts(g, universe, e1, gray + {v});
    LoweredKeepsInv(g, universe, e1, gray + {v}, v, e1.lowlink[w]);
    assert e.stack[..|e0.stack|] == e0.stack;
    CallLowWitness(g, e, e1, v, w);
    CallLowCovers(g, e0, e, e1, v, w);
    ExtendsTrans(e0, e, e1);
    assert e.stack[|e0.stack|] == e1.stack[|e0.stack|];
    CallKeepsEdges(g, e0, e, e1, v, i);
  }

  lemma CallKeepsEdges(g: Graph, e0: Env, e: Env, e1: Env, v: Ref, i: nat)
    requires Extends(e, e1) && LowlinksKept(e, e1)
    requires v in e.lowlink && i < |Succ(g, v)| && Succ(g, v)[i] in e1.indexOf && Succ(g, v)[i] !in e0.stack
    requires forall j :: 0 <= j < i ==> Succ(g, v)[j] in e.indexOf
    requires forall j :: 0 <= j < i && Succ(g, v)[j] in e0.stack ==> e.lowlink[v] <= e.indexOf[Succ(g, v)[j]]
    ensures
      && (forall j :: 0 <= j < i + 1 ==> Succ(g, v)[j] in e1.indexOf)
      && (forall j :: 0 <= j < i + 1 && Succ(g, v)[j] in e0.stack ==> e1.lowlink[v] <= e1.indexOf[Succ(g, v)[j]])
  {
    forall j | 0 <= j < i + 1 ensures Succ(g, v)[j] in e1.indexOf {
      assert j < i ==> Succ(g, v)[j] in e.indexOf;
    }
  }

  /** Two facts every later step needs of the invariant. */
  lemma InvFacts(g: Graph, universe: set<Ref>, e: Env, gray: set<Ref>)
    requires Inv(g, universe, e, gray)
    ensures forall x :: x in e.stack ==> x in e.indexOf
    ensures forall x :: x in e.onStack <==> x in e.stack
    ensures forall x :: x in gray ==> x in e.stack && x in e.indexOf && x in e.lowlink && e.indexOf[x] < e.counter
    ensures forall i, j :: 0 <= i < j < |e.stack| ==> e.indexOf[e.stack[i]] < e.indexOf[e.stack[j]]
    ensures e.lowlink.Keys == e.indexOf.Keys <= universe
  {
  }

  lemma ExtendsTrans(e0: Env, e1: Env, e2: Env)
    requires Extends(e0, e1) && Extends(e1, e2)
    ensures Extends(e0, e2)
  {
  }

  lemma CallLowWitness(g: Graph, e: Env, e1: Env, v: Ref, w: Ref)
    requires forall x :: x in e.stack ==> x in e.indexOf
    requires forall x :: x in e1.stack ==> x in e1.indexOf
    requires v in e.lowlink && v in e.indexOf && v in e1.indexOf && v in e1.lowlink && w !in e.indexOf
    requires LowWitness(g, e, v, e.lowlink[v]) && e.lowlink[v] <= e.indexOf[v] < e.counter
    requires Reach(g, v, w)
    requires Extends(e, e1) && LowlinksKept(e, e1) && Finished(g, e, e1, w)
    ensures
      var e' := Lowered(e1, v, e1.lowlink[w]);
      LowWitness(g, e', v, e'.lowlink[v]) && e'.lowlink[v] <= e'.indexOf[v]
  {
    var e' := Lowered(e1, v, e1.lowlink[w]);
    if e1.lowlink[v] <= e1.lowlink[w] {
      var z :| z in e.stack && e.indexOf[z] == e.lowlink[v] && Reach(g, v, z);
      assert z in e'.stack;
    } else {
      var z :| z in e1.stack && e1.indexOf[z] == e1.lowlink[w] && Reach(g, w, z);
      ReachTrans(g, v, w, z);
      assert z in e'.stack;
    }
  }

  lemma CallLowCovers(g: Graph, e0: Env, e: Env, e1: Env, v: Ref, w: Ref)
    requires forall x :: x in e.stack ==> x in e.indexOf
    requires forall x :: x in e1.stack ==> x in e1.indexOf
    requires v in e.lowlink && v in e1.lowlink && w !in e.indexOf
    requires |e0.stack| < |e.stack| && e0.stack <= e.stack
    requires LowCovers(g, e, |e0.stack|, |e0.stack| + 1, e.lowlink[v])
    requires Extends(e, e1) && LowlinksKept(e, e1) && Finished(g, e, e1, w)
    ensures
      var e' := Lowered(e1, v, e1.lowlink[w]);
      LowCovers(g, e', |e0.stack|, |e0.stack| + 1, e'.lowlink[v])
  {
    var e' := Lowered(e1, v, e1.lowlink[w]);
    forall k, y | |e0.stack| + 1 <= k < |e'.stack| && y in Succ(g, e'.stack[k]) && y in e'.stack[..|e0.stack|]
      ensures e'.lowlink[v] <= e'.indexOf[y]
    {
      assert e1.stack[..|e0.stack|] == e.stack[..|e0.stack|];
      assert y in e1.stack[..|e.stack|] by {
        var j :| 0 <= j < |e0.stack| && e1.stack[..|e0.stack|][j] == y;
        assert e1.stack[..|e.stack|][j] == y;
      }
      if k < |e.stack| {
        assert e.stack[k] == e1.stack[k];
      }
    }
  }

  // ------------------------------------------------------------- the mutable run

  class Tarjan {
    const graph: Graph
    ghost const universe: set<Ref>
    var indexOf: map<Ref, nat>
    var lowlink: map<Ref, nat>
    var onStack: set<Ref>
    var stack: seq<Ref>
    var components: seq<seq<Ref>>
    var counter: nat

    ghost function Now(): Env
      reads this
    {
      Env(indexOf, lowlink, onStack, stack, components, counter)
    }

    constructor (g: Graph, ghost u: set<Ref>)
      ensures graph == g && universe == u
      ensures Now() == Env(map[], map[], {}, [], [], 0)
    {
      graph, universe := g, u;
      indexOf, lowlink, onStack, stack, components, counter := map[], map[], {}, [], [], 0;
    }

    method StrongConnect(v: Ref, ghost gray: set<Ref>)
      requires Closed(graph, universe)
      requires Inv(graph, universe, Now(), gray)
      requires v in universe && v !in indexOf
      requires ListedInOrder(components)
      requires forall x :: x in gray ==> Reach(graph, x, v)
      modifies this
      ensures Inv(graph, universe, Now(), gray)
      ensures Extends(old(Now()), Now()) && LowlinksKept(old(Now()), Now())
      ensures Finished(graph, old(Now()), Now(), v)
      ensures ListedInOrder(components)
      decreases universe - indexOf.Keys
    {
      hide Inv, Scanning, Scanned, Extends, LowlinksKept, LowCovers, LowWitness, Reach, Closed, ListedInOrder;
      ghost var e0 := Now();
      assert v !in lowlink by { InvFacts(graph, universe, e0, gray); }
      StartScan(graph, universe, e0, gray, v);
      indexOf := indexOf[v := counter];
      lowlink := lowlink[v := counter];
      counter := counter + 1;
      stack := stack + [v];
      onStack := onStack + {v};
      assert Now() == Pushed(e0, v);
      var successors := Succ(graph, v);
      for i := 0 to |successors|
        invariant Scanning(graph, universe, e0, Now(), gray, v, i)
        invariant LowlinksKept(e0, Now())
        invariant ListedInOrder(components)
      {
        ghost var e := Now();
        ScanningFacts(graph, universe, e0, e, gray, v, i);
        var w := successors[i];
        if w !in indexOf {
          StrongConnect(w, gray + {v});
          ghost var e1 := Now();
          ScanAfterCall(graph, universe, e0, e, e1, gray, v, i);
          LowlinksStay(e0, e, e1, v, lowlink[w]);
          lowlink := lowlink[v := Min(lowlink[v], lowlink[w])];
        } else {
          ScanVisited(graph, universe, e0, e, gray, v, i);
          if w in onStack {
            LowlinksStay(e0, e, e, v, indexOf[w]);
            lowlink := lowlink[v := Min(lowlink[v], indexOf[w])];
          }
        }
      }
      ghost var e := Now();
      ScanningFacts(graph, universe, e0, e, gray, v, |successors|);
      ScanDone(graph, universe, e0, e, gray, v);
      FinishLeft(graph, universe, e0, e, gray, v);
      if lowlink[v] == indexOf[v] {
        PopTo(v, gray, |e0.stack|);
        FinishPopped(graph, universe, e0, e, Now(), gray, v);
      } else {
        LeaveKeepsInv(graph, universe, Now(), gray, |e0.stack|, v);
      }
    }

    /** Pops the stack down to and including `v` and records what it popped,
        sorted, as a component. */
    method PopTo(v: Ref, ghost gray: set<Ref>, ghost height: nat)
      requires Closed(graph, universe)
      requires Scanned(graph, universe, Now(), gray, height, v)
      requires lowlink[v] == indexOf[v]
      requires ListedInOrder(components)
      modifies this
      ensures Inv(graph, universe, Now(), gray)
      ensures exists c :: Now() == PopComponent(old(Now()), height, c)
      ensures ListedInOrder(components)
      ensures v !in stack
    {
      hide Inv, Scanned, Members, ListedInOrder, StrictlySorted, Reversed, Closed;
      ghost var e := Now();
      ScannedFacts(graph, universe, e, gray, height, v);
      PopNone(e.stack);
      var component := [];
      var done := false;
      while !done
        invariant if done then |stack| == height else height < |stack|
        invariant |stack| <= |e.stack| && stack == e.stack[..|stack|]
        invariant component == Reversed(e.stack[|stack|..])
        invariant onStack == e.onStack - Members(e.stack[|stack|..])
        invariant indexOf == e.indexOf && lowlink == e.lowlink && components == e.components && counter == e.counter
        decreases |stack|
      {
        var w := stack[|stack| - 1];
        stack := stack[..|stack| - 1];
        onStack := onStack - {w};
        component := component + [w];
        PopOne(e.stack, |stack|);
        if w == v {
          SameIndexSamePlace(e, |stack|, height);
          done := true;
        }
      }
      var sorted := Sort(LessEq, component);
      ComponentListed(e, height);
      ListedOneMore(components, sorted);
      components := components + [sorted];
      NotBelow(e, height);
      PopKeepsInv(graph, universe, e, gray, height, v, sorted);
      assert Now() == PopComponent(e, height, sorted);
    }
  }

  lemma ListedOneMore(components: seq<seq<Ref>>, c: seq<Ref>)
    requires ListedInOrder(components) && StrictlySorted(c)
    ensures ListedInOrder(components + [c])
  {
  }

  function Reversed(s: seq<Ref>): seq<Ref> {
    if s == [] then [] else Reversed(s[1..]) + [s[0]]
  }

  lemma {:induction false} ReversedDistinct(s: seq<Ref>)
    requires Distinct(s)
    ensures Distinct(Reversed(s))
    ensures forall x :: x in Reversed(s) <==> x in s
  {
    if s != [] {
      ReversedDistinct(s[1..]);
      var r := Reversed(s[1..]);
      assert s == [s[0]] + s[1..];
      assert s[0] !in r;
      assert forall x :: x in r + [s[0]] <==> x in r || x == s[0];
    }
  }

  /** The popped list is the segment backwards, so its sorted form lists the
      segment's vertices once each in reference order. */
  lemma ComponentListed(e: Env, height: nat)
    requires height <= |e.stack|
    requires forall y :: y in e.stack ==> y in e.indexOf
    requires forall i, j :: 0 <= i < j < |e.stack| ==> e.indexOf[e.stack[i]] < e.indexOf[e.stack[j]]
    ensures StrictlySorted(Sort(LessEq, Reversed(e.stack[height..])))
    ensures Members(Sort(LessEq, Reversed(e.stack[height..]))) == Members(e.stack[height..])
  {
    var segment := e.stack[height..];
    forall i, j | 0 <= i < j < |segment| ensures segment[i] != segment[j] {
      assert e.indexOf[e.stack[height + i]] < e.indexOf[e.stack[height + j]];
    }
    ReversedDistinct(segment);
    SortedStrictly(Reversed(segment));
    SameMembers(Sort(LessEq, Reversed(segment)), segment);
  }

  lemma SameMembers(a: seq<Ref>, b: seq<Ref>)
    requires forall x :: x in a <==> x in b
    ensures Members(a) == Members(b)
  {
    assert forall x :: x in Members(a) <==> x in Members(b);
  }

  lemma PopNone(stack: seq<Ref>)
    ensures Members(stack[|stack|..]) == {} && Reversed(stack[|stack|..]) == []
  {
  }

  lemma PopOne(stack: seq<Ref>, k: nat)
    requires k < |stack|
    ensures Members(stack[k..]) == Members(stack[k + 1..]) + {stack[k]}
    ensures Reversed(stack[k..]) == Reversed(stack[k + 1..]) + [stack[k]]
  {
    assert stack[k..] == [stack[k]] + stack[k + 1..];
    assert stack[k..][1..] == stack[k + 1..];
    forall x ensures x in Members(stack[k..]) <==> x in Members(stack[k + 1..]) + {stack[k]} {
      assert x in stack[k..] <==> x in stack[k + 1..] || x == stack[k];
    }
  }

  lemma NotBelow(e: Env, height: nat)
    requires forall y :: y in e.stack ==> y in e.indexOf
    requires forall i, j :: 0 <= i < j < |e.stack| ==> e.indexOf[e.stack[i]] < e.indexOf[e.stack[j]]
    requires height < |e.stack|
    ensures e.stack[height] !in e.stack[..height]
  {
    BelowIsNotInSegment(e, height, e.stack[height]);
    assert e.stack[height..][0] == e.stack[height];
  }

  lemma ScannedFacts(g: Graph, universe: set<Ref>, e: Env, gray: set<Ref>, height: nat, v: Ref)
    requires Scanned(g, universe, e, gray, height, v)
    ensures height < |e.stack| && e.stack[height] == v
    ensures forall y :: y in e.stack ==> y in e.indexOf
    ensures forall i, j :: 0 <= i < j < |e.stack| ==> e.indexOf[e.stack[i]] < e.indexOf[e.stack[j]]
  {
    InvFacts(g, universe, e, gray + {v});
  }

  lemma StartScan(g: Graph, universe: set<Ref>, e: Env, gray: set<Ref>, v: Ref)
    requires Inv(g, universe, e, gray)
    requires v in universe && v !in e.indexOf
    requires forall x :: x in gray ==> Reach(g, x, v)
    ensures Scanning(g, universe, e, Pushed(e, v), gray, v, 0)
    ensures LowlinksKept(e, Pushed(e, v))
  {
    hide Inv, Reach, LowWitness;
    InvFacts(g, universe, e, gray);
    PushKeepsInv(g, universe, e, gray, v);
  }

  /** What the end of the scan says of the call, before any popping. */
  lemma FinishLeft(g: Graph, universe: set<Ref>, e0: Env, e: Env, gray: set<Ref>, v: Ref)
    requires Scanned(g, universe, e, gray, |e0.stack|, v) && Extends(e0, e)
    ensures forall x :: x in e.stack ==> x in e.indexOf
    ensures v in e.stack && v in e.indexOf && v in e.lowlink
    ensures e.lowlink[v] <= e.indexOf[v]
    ensures Finished(g, e0, e, v)
  {
    InvFacts(g, universe, e, gray + {v});
    assert e.stack[|e0.stack|] in e.stack;
  }

  lemma FinishPopped(g: Graph, universe: set<Ref>, e0: Env, e: Env, e1: Env, gray: set<Ref>, v: Ref)
    requires Inv(g, universe, e1, gray)
    requires Extends(e0, e) && LowlinksKept(e0, e)
    requires v in e.indexOf && v in e.lowlink && e.lowlink[v] == e.indexOf[v]
    requires |e0.stack| <= |e.stack| && exists c :: e1 == PopComponent(e, |e0.stack|, c)
    requires v !in e1.stack
    ensures Extends(e0, e1) && LowlinksKept(e0, e1) && Finished(g, e0, e1, v)
  {
    InvFacts(g, universe, e1, gray);
    hide Inv;
    assert e.stack[..|e0.stack|] == e0.stack;
  }

  lemma SameIndexSamePlace(e: Env, i: nat, j: nat)
    requires forall y :: y in e.stack ==> y in e.indexOf
    requires forall i, j :: 0 <= i < j < |e.stack| ==> e.indexOf[e.stack[i]] < e.indexOf[e.stack[j]]
    requires i < |e.stack| && j < |e.stack| && e.stack[i] == e.stack[j]
    ensures i == j
  {
  }

  /** What the loop body needs of the scan: places to look up, a vertex to call
      on, and a measure that went down. */
  lemma ScanningFacts(g: Graph, universe: set<Ref>, e0: Env, e: Env, gray: set<Ref>, v: Ref, i: nat)
    requires Scanning(g, universe, e0, e, gray, v, i) && Closed(g, universe) && v !in e0.indexOf
    ensures v in e.lowlink && v in e.indexOf
    ensures v in universe && universe - e.indexOf.Keys < universe - e0.indexOf.Keys
    ensures Extends(e0, e) && Inv(g, universe, e, gray + {v})
    ensures forall x :: x in e.stack ==> x in e.indexOf
    ensures i < |Succ(g, v)| ==> Succ(g, v)[i] in universe
    ensures i < |Succ(g, v)| ==> forall x :: x in gray + {v} ==> Reach(g, x, Succ(g, v)[i])
  {
    hide Inv, Reach;
    InvFacts(g, universe, e, gray + {v});
    assert v in gray + {v};
    assert v in universe - e0.indexOf.Keys;
    if i < |Succ(g, v)| {
      ReachEdge(g, v, Succ(g, v)[i]);
      forall x | x in gray ensures Reach(g, x, Succ(g, v)[i]) {
        ReachTrans(g, x, v, Succ(g, v)[i]);
      }
    }
  }

  lemma LowlinksStay(e0: Env, e: Env, e1: Env, v: Ref, low: nat)
    requires LowlinksKept(e0, e) && LowlinksKept(e, e1) && v !in e0.lowlink && v in e1.lowlink
    ensures LowlinksKept(e0, Lowered(e1, v, low))
  {
  }

  // -------------------------------------------------------------------- the result

  /** Every vertex named by the graph: listed, or the head of an edge. */
  function Vertices(nodes: seq<Ref>, g: Graph): set<Ref> {
    Members(nodes) + set x, y | x in g.Keys && y in g[x] :: y
  }

  /** The components are exactly the strongly connected components: each one is
      one, no two share a vertex, and every listed vertex is in one. */
  ghost predicate AreComponents(g: Graph, nodes: seq<Ref>, components: seq<seq<Ref>>) {
    && (forall k :: 0 <= k < |components| ==> IsScc(g, Members(components[k])))
    && (forall i, j, x :: 0 <= i < j < |components| && x in components[i] ==> x !in components[j])
    && (forall x :: x in nodes ==> exists k :: 0 <= k < |components| && x in components[k])
  }

  /** `tarjan(nodes, adjacency)`. */
  method FindComponents(nodes: seq<Ref>, g: Graph) returns (components: seq<seq<Ref>>)
    ensures AreComponents(g, nodes, components) && ListedInOrder(components)
    ensures forall k, x :: 0 <= k < |components| && x in components[k] ==> x in Vertices(nodes, g)
  {
    hide Inv, ListedInOrder;
    ghost var universe := Vertices(nodes, g);
    EmptyInv(g, universe);
    var run := new Tarjan(g, universe);
    for i := 0 to |nodes|
      invariant Inv(g, universe, run.Now(), {}) && ListedInOrder(run.components)
      invariant forall j :: 0 <= j < i ==> nodes[j] in run.indexOf
    {
      if nodes[i] !in run.indexOf {
        run.StrongConnect(nodes[i], {});
      }
    }
    components := run.components;
    ghost var e := run.Now();
    AllPopped(g, universe, e);
    assert forall x :: x in nodes ==> Popped(e, x);
  }

  lemma EmptyInv(g: Graph, universe: set<Ref>)
    ensures Inv(g, universe, Env(map[], map[], {}, [], [], 0), {}) && ListedInOrder([])
  {
  }

  /** When no call is open the stack is empty, so every visited vertex is in a
      component. */
  lemma AllPopped(g: Graph, universe: set<Ref>, e: Env)
    requires Inv(g, universe, e, {})
    ensures ComponentsAreSccs(g, e)
    ensures forall x :: x in e.indexOf <==> Popped(e, x)
    ensures forall i, j, x :: 0 <= i < j < |e.components| && x in e.components[i] ==> x !in e.components[j]
    ensures forall k, x :: 0 <= k < |e.components| && x in e.components[k] ==> x in universe
  {
    assert forall y :: y in e.stack ==> ReachesOpen(g, e, {}, y);
    forall k, x | 0 <= k < |e.components| && x in e.components[k] ensures x in universe {
      assert Popped(e, x);
    }
  }

  /** Strongly connected components that share a vertex are the same. */
  lemma SccUnique(g: Graph, a: set<Ref>, b: set<Ref>, v: Ref)
    requires IsScc(g, a) && IsScc(g, b) && v in a && v in b
    ensures a == b
  {
    hide Mutual;
    forall y ensures y in a <==> y in b {
      assert y in a <==> Mutual(g, v, y);
      assert y in b <==> Mutual(g, v, y);
    }
  }
}
