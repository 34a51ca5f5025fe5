/** Equity pickup through tiers of holdings: the memoised recursion against a fold
    from the lowest tier upward. */
module EquityPickup {
  import opened Refs
  import opened Graphs
  import opened Sorting
  import opened Sums
  import opened ExactRational
  import opened Rounding
  import opened OwnershipModel
  import opened Ownership

  datatype Investee = Investee(
    ref: Ref,
    heldBy: Ref,
    interest: Rational,
    carrying: int,
    result: int,
    distributions: int)

  datatype Pickup = Pickup(newCarrying: int, pickup: int, unrecognised: int)

  function ShareOf(i: Investee, augmented: int): int {
    DivideAndRound(augmented * i.interest.num, i.interest.den, HalfEven)
  }

  /** One investee's pickup: losses stop when the carrying amount is used up. */
  function Measure(i: Investee, augmented: int): Pickup {
    var share := ShareOf(i, augmented);
    var proposed := i.carrying + share - i.distributions;
    if proposed < 0 then Pickup(0, share - proposed, -proposed) else Pickup(proposed, share, 0)
  }

  /** Paragraphs 38-39 of IAS 28: the carrying amount moves by what was picked up
      and distributed and never below zero, and what is not recognised is tracked. */
  lemma MeasureKeeps(i: Investee, augmented: int)
    ensures var p, share := Measure(i, augmented), ShareOf(i, augmented);
      && i.carrying + p.pickup - i.distributions == p.newCarrying >= 0
      && p.pickup - p.unrecognised == share
      && p.unrecognised >= 0
      && (p.unrecognised > 0 ==> p.newCarrying == 0)
      && RoundsTo(augmented * i.interest.num, i.interest.den, HalfEven, share)
  {
    DivideAndRoundMeets(augmented * i.interest.num, i.interest.den, HalfEven);
    hide DivideAndRound, RoundsTo;
  }

  function LossShare(i: Investee, augmented: int): int {
    if ShareOf(i, augmented) < 0 then -ShareOf(i, augmented) else 0
  }

  /** The unrecognised amount is a share of a loss whatever the result, exactly when
      the distributions do not exceed the carrying amount; beyond that the code
      reports an unrecognised loss even where there is none. */
  lemma UnrecognisedIsLoss(i: Investee)
    ensures (forall a :: Measure(i, a).unrecognised <= LossShare(i, a)) <==> i.distributions <= i.carrying
  {
    assert ShareOf(i, 0) == 0 by { assert 0 * i.interest.num == 0; }
    hide ShareOf;
    if i.distributions > i.carrying {
      assert Measure(i, 0).unrecognised > LossShare(i, 0);
    }
  }

  // -------------------------------------------------------------------- the tiers

  ghost function RefsOf(ins: seq<Investee>): set<Ref> {
    set k | 0 <= k < |ins| :: ins[k].ref
  }

  /** The entry that counts where a reference is listed more than once: the last. */
  function LastOf(ins: seq<Investee>, ref: Ref): (i: Investee)
    requires ref in RefsOf(ins)
    ensures i in ins && i.ref == ref
  {
    var last := ins[|ins| - 1];
    if last.ref == ref then last else LastOf(ins[..|ins| - 1], ref)
  }

  lemma {:induction false} LastOfIs(ins: seq<Investee>, ref: Ref, k: nat)
    requires k < |ins| && ins[k].ref == ref && forall j :: k < j < |ins| ==> ins[j].ref != ref
    ensures ref in RefsOf(ins) && LastOf(ins, ref) == ins[k]
  {
    Listed(ins, k);
    if k < |ins| - 1 { LastOfIs(ins[..|ins| - 1], ref, k); }
  }

  ghost predicate ListedOnce(ins: seq<Investee>) {
    forall i, j :: 0 <= i < j < |ins| ==> ins[i].ref != ins[j].ref
  }

  /** Each reference listed once: its entry is the one that counts. */
  lemma OnlyEntry(ins: seq<Investee>, k: nat)
    requires k < |ins| && ListedOnce(ins)
    ensures ins[k].ref in RefsOf(ins) && LastOf(ins, ins[k].ref) == ins[k]
  {
    LastOfIs(ins, ins[k].ref, k);
  }

  /** The holdings as interests: an edge leads from an investee to its holder. */
  ghost function Links(ins: seq<Investee>): (l: seq<Interest>)
    ensures |l| == |ins| && forall k :: 0 <= k < |ins| ==> l[k].from == ins[k].ref && l[k].to == ins[k].heldBy
  {
    seq(|ins|, k requires 0 <= k < |ins| => Interest(ins[k].ref, ins[k].heldBy, ins[k].interest))
  }

  ghost predicate Forest(ins: seq<Investee>) {
    Acyclic(HoldingGraph(Links(ins)))
  }

  /** How much lies below an investee. */
  ghost function Tier(ins: seq<Investee>, ref: Ref): nat {
    |Ancestors(HoldingGraph(Links(ins)), Endpoints(Links(ins)), ref)|
  }

  lemma LowerTier(ins: seq<Investee>, k: nat)
    requires Forest(ins) && k < |ins|
    ensures Tier(ins, ins[k].ref) < Tier(ins, ins[k].heldBy)
  {
    var l := Links(ins);
    HoldingSettings(l);
    HolderShrinks(HoldingGraph(l), l, Endpoints(l), k);
  }

  /** The pickups of the first `k` investees that `ref` holds. */
  ghost function PickupsInto(ins: seq<Investee>, results: map<Ref, Pickup>, ref: Ref, k: nat): int
    requires k <= |ins|
  {
    if k == 0 then 0
    else PickupsInto(ins, results, ref, k - 1) + PickupInto(ins[k - 1], results, ref)
  }

  ghost function PickupInto(i: Investee, results: map<Ref, Pickup>, ref: Ref): int {
    if i.heldBy == ref && i.ref in results then results[i.ref].pickup else 0
  }

  /** Every investee is measured on its own result and the pickups of everything it
      holds, one for each entry. */
  ghost predicate Consistent(ins: seq<Investee>, results: map<Ref, Pickup>) {
    results.Keys == RefsOf(ins) && forall x :: x in RefsOf(ins) ==> MeasuredAt(ins, results, x)
  }

  ghost predicate MeasuredAt(ins: seq<Investee>, results: map<Ref, Pickup>, x: Ref)
    requires x in RefsOf(ins)
  {
    x in results && results[x] == MeasureOn(ins, results, x)
  }

  /** An investee measured on its own result and the pickups known so far. */
  ghost function MeasureOn(ins: seq<Investee>, results: map<Ref, Pickup>, x: Ref): Pickup
    requires x in RefsOf(ins)
  {
    Measure(LastOf(ins, x), LastOf(ins, x).result + PickupsInto(ins, results, x, |ins|))
  }

  ghost predicate LowersIn(ins: seq<Investee>, results: map<Ref, Pickup>, ref: Ref, k: nat)
    requires k <= |ins|
  {
    forall j :: 0 <= j < k && ins[j].heldBy == ref ==> ins[j].ref in results
  }

  ghost predicate Extends(r: map<Ref, Pickup>, s: map<Ref, Pickup>) {
    forall x :: x in r ==> x in s && s[x] == r[x]
  }

  lemma {:induction false} PickupsStable(ins: seq<Investee>, r: map<Ref, Pickup>, s: map<Ref, Pickup>, ref: Ref, k: nat)
    requires k <= |ins| && LowersIn(ins, r, ref, k) && Extends(r, s)
    ensures PickupsInto(ins, s, ref, k) == PickupsInto(ins, r, ref, k) && LowersIn(ins, s, ref, k)
  {
    if k > 0 { PickupsStable(ins, r, s, ref, k - 1); }
  }

  // --------------------------------------------------------------------- the run

  ghost predicate Done(ins: seq<Investee>, results: map<Ref, Pickup>, x: Ref)
    requires x in RefsOf(ins)
  {
    LowersIn(ins, results, x, |ins|) && MeasuredAt(ins, results, x)
  }

  /** Between calls: what is finished is right, and what is neither finished nor
      being computed still holds its own result. */
  ghost predicate Running(ins: seq<Investee>, results: map<Ref, Pickup>, augmented: map<Ref, int>, open: set<Ref>) {
    && results.Keys <= RefsOf(ins) && augmented.Keys == RefsOf(ins)
    && results.Keys !! open
    && (forall x :: x in results ==> Done(ins, results, x))
    && (forall x :: x in RefsOf(ins) && x !in results && x !in open ==> augmented[x] == LastOf(ins, x).result)
  }

  ghost predicate Untouched(a: map<Ref, int>, b: map<Ref, int>, but: set<Ref>) {
    forall x :: x in a && x !in but ==> x in b && b[x] == a[x]
  }

  lemma DoneStable(ins: seq<Investee>, r: map<Ref, Pickup>, s: map<Ref, Pickup>, x: Ref)
    requires x in RefsOf(ins) && Done(ins, r, x) && Extends(r, s)
    ensures Done(ins, s, x)
  {
    PickupsStable(ins, r, s, x, |ins|);
    hide Measure, PickupsInto, LastOf, RefsOf;
  }

  lemma PlaceOf(ins: seq<Investee>, ref: Ref) returns (k: nat)
    requires ref in RefsOf(ins)
    ensures k < |ins| && ins[k].ref == ref
  {
    k :| 0 <= k < |ins| && ins[k].ref == ref;
  }

  lemma Listed(ins: seq<Investee>, k: nat)
    requires k < |ins|
    ensures ins[k].ref in RefsOf(ins)
  {
  }

  lemma Unchanged(results: map<Ref, Pickup>, a: map<Ref, int>)
    ensures Extends(results, results) && Untouched(a, a, results.Keys)
  {
  }

  /** Starting on an investee leaves the rest as it was. */
  lemma {:induction false} Starting(ins: seq<Investee>, results: map<Ref, Pickup>, augmented: map<Ref, int>,
                                    open: set<Ref>, x: Ref)
    requires Running(ins, results, augmented, open) && x in RefsOf(ins) && x !in results && x !in open
    ensures Running(ins, results, augmented, open + {x})
    ensures x in augmented && augmented[x] == LastOf(ins, x).result
    ensures LowersIn(ins, results, x, 0) && PickupsInto(ins, results, x, 0) == 0
    ensures Untouched(augmented, augmented, results.Keys + {x})
  {
    hide Done, LastOf;
  }

  /** What a call on a lower investee leaves of the holder's own work. */
  lemma {:induction false} AfterLower(ins: seq<Investee>, r0: map<Ref, Pickup>, r1: map<Ref, Pickup>, r2: map<Ref,
                                      Pickup>,
                   a0: map<Ref, int>, a1: map<Ref, int>, a2: map<Ref, int>, open: set<Ref>, ref: Ref, k: nat)
    requires k <= |ins| && ref in open && ref in a1
    requires Extends(r0, r1) && Extends(r1, r2) && LowersIn(ins, r1, ref, k)
    requires Untouched(a0, a1, r1.Keys + {ref}) && Untouched(a1, a2, r2.Keys)
    requires Running(ins, r2, a2, open)
    ensures Extends(r0, r2) && LowersIn(ins, r2, ref, k) && PickupsInto(ins, r2, ref, k) == PickupsInto(ins, r1, ref, k)
    ensures ref in a2 && a2[ref] == a1[ref]
    ensures Untouched(a0, a2, r2.Keys + {ref})
  {
    PickupsStable(ins, r1, r2, ref, k);
    hide PickupsInto, LowersIn, Done;
  }

  lemma Augmenting(ins: seq<Investee>, results: map<Ref, Pickup>, a0: map<Ref, int>, a: map<Ref, int>, open: set<Ref>,
                   ref: Ref, v: int)
    requires Running(ins, results, a, open) && ref in open && ref in a
    requires Untouched(a0, a, results.Keys + {ref})
    ensures Running(ins, results, a[ref := v], open)
    ensures Untouched(a0, a[ref := v], results.Keys + {ref})
  {
    hide Done;
  }

  lemma NextLower(ins: seq<Investee>, results: map<Ref, Pickup>, ref: Ref, k: nat)
    requires k < |ins| && LowersIn(ins, results, ref, k)
    requires ins[k].heldBy == ref ==> ins[k].ref in results
    ensures LowersIn(ins, results, ref, k + 1)
    ensures PickupsInto(ins, results, ref, k + 1) == PickupsInto(ins, results, ref, k)
      + if ins[k].heldBy == ref then results[ins[k].ref].pickup else 0
  {
  }

  lemma {:induction false} Finishing(ins: seq<Investee>, results: map<Ref, Pickup>, augmented: map<Ref, int>,
                                     open: set<Ref>, x: Ref)
    requires x in RefsOf(ins) && x !in open
    requires Running(ins, results, augmented, open + {x})
    requires LowersIn(ins, results, x, |ins|)
    ensures x !in results
    ensures Running(ins, results[x := MeasureOn(ins, results, x)], augmented, open)
  {
    hide PickupsInto, Measure, LowersIn, LastOf, RefsOf;
    var s := results[x := MeasureOn(ins, results, x)];
    PickupsStable(ins, results, s, x, |ins|);
    assert Done(ins, s, x);
    hide Done, MeasureOn;
    forall y | y in s ensures Done(ins, s, y) {
      if y != x { DoneStable(ins, results, s, y); }
    }
  }

  lemma FinishingFrame(r0: map<Ref, Pickup>, r: map<Ref, Pickup>, a0: map<Ref, int>, a: map<Ref, int>, open: set<Ref>,
                       ref: Ref, p: Pickup)
    requires Extends(r0, r) && ref !in r && Untouched(a0, a, r.Keys + {ref})
    ensures Extends(r0, r[ref := p]) && Untouched(a0, a, r[ref := p].Keys)
  {
    assert r[ref := p].Keys == r.Keys + {ref};
  }

  /** The map from reference to investee: a later entry replaces an earlier one. */
  function ByRef(ins: seq<Investee>): (m: map<Ref, Investee>)
    ensures m.Keys == RefsOf(ins) && forall x :: x in m ==> m[x] == LastOf(ins, x)
  {
    if ins == [] then map[] else ByRef(ins[..|ins| - 1])[ins[|ins| - 1].ref := ins[|ins| - 1]]
  }

  function OwnResults(ins: seq<Investee>): (m: map<Ref, int>)
    ensures m.Keys == RefsOf(ins) && forall x :: x in m ==> m[x] == LastOf(ins, x).result
  {
    if ins == [] then map[] else OwnResults(ins[..|ins| - 1])[ins[|ins| - 1].ref := ins[|ins| - 1].result]
  }

  class PickupRun {
    const investees: seq<Investee>
    const byRef: map<Ref, Investee>
    var results: map<Ref, Pickup>
    var augmented: map<Ref, int>

    ghost predicate Valid(open: set<Ref>)
      reads this
    {
      && Forest(investees)
      && byRef.Keys == RefsOf(investees)
      && (forall x :: x in byRef ==> byRef[x] == LastOf(investees, x))
      && Running(investees, results, augmented, open)
    }

    constructor (ins: seq<Investee>)
      requires Forest(ins)
      ensures investees == ins && Valid({}) && results == map[]
    {
      hide Acyclic, HoldingGraph, Links, Done, LastOf;
      investees := ins;
      byRef := ByRef(ins);
      results := map[];
      augmented := OwnResults(ins);
    }

    /** `compute(ref)`. */
    method Compute(ref: Ref, ghost open: set<Ref>)
      requires Valid(open)
      requires forall x :: x in open ==> Tier(investees, ref) < Tier(investees, x)
      modifies this`results, this`augmented
      ensures Valid(open) && Extends(old(results), results)
      ensures ref in RefsOf(investees) ==> ref in results
      ensures Untouched(old(augmented), augmented, results.Keys)
      decreases Tier(investees, ref)
    {
      hide Forest, Tier, Running, Measure, PickupsInto, LowersIn, LastOf, Extends, Untouched, RefsOf;
      Unchanged(results, augmented);
      if ref in results { return; }
      if ref !in byRef { return; }
      var investee := byRef[ref];
      ghost var a0 := augmented;
      Starting(investees, results, augmented, open, ref);
      for k := 0 to |investees|
        invariant Valid(open + {ref}) && Extends(old(results), results)
        invariant LowersIn(investees, results, ref, k)
        invariant ref in augmented && augmented[ref] == investee.result + PickupsInto(investees, results, ref, k)
        invariant Untouched(a0, augmented, results.Keys + {ref})
      {
        var lower := investees[k];
        if lower.heldBy == ref {
          LowerTier(investees, k);
          ghost var r1, a1 := results, augmented;
          Listed(investees, k);
          Compute(lower.ref, open + {ref});
          AfterLower(investees, old(results), r1, results, a0, a1, augmented, open + {ref}, ref, k);
          Augmenting(investees, results, a0, augmented, open + {ref}, ref, augmented[ref] + results[lower.ref].pickup);
          augmented := augmented[ref := augmented[ref] + results[lower.ref].pickup];
        }
        NextLower(investees, results, ref, k);
      }
      Finishing(investees, results, augmented, open, ref);
      FinishingFrame(old(results), results, a0, augmented, open, ref, Measure(investee, augmented[ref]));
      results := results[ref := Measure(investee, augmented[ref])];
    }
  }

  /** `equityPickup(investees)`. */
  method EquityPickup(ins: seq<Investee>) returns (results: map<Ref, Pickup>)
    requires Forest(ins)
    ensures Consistent(ins, results)
  {
    hide Forest, Running, RefsOf;
    var run := new PickupRun(ins);
    for k := 0 to |ins|
      invariant run.Valid({})
      invariant forall j :: 0 <= j < k ==> ins[j].ref in run.results
    {
      Listed(ins, k);
      ghost var before := run.results;
      run.Compute(ins[k].ref, {});
      assert Extends(before, run.results);
    }
    results := run.results;
    AllComputed(ins, results, run.augmented);
  }

  lemma AllComputed(ins: seq<Investee>, results: map<Ref, Pickup>, augmented: map<Ref, int>)
    requires Running(ins, results, augmented, {})
    requires forall j :: 0 <= j < |ins| ==> ins[j].ref in results
    ensures Consistent(ins, results)
  {
    hide MeasuredAt, LowersIn, LastOf;
    forall x | x in RefsOf(ins) ensures MeasuredAt(ins, results, x) { assert Done(ins, results, x); }
  }

  // ------------------------------------------------------------------ what follows

  lemma {:induction false} PickupsAgree(ins: seq<Investee>, r: map<Ref, Pickup>, s: map<Ref, Pickup>, ref: Ref, k: nat)
    requires k <= |ins|
    requires forall j :: 0 <= j < k && ins[j].heldBy == ref ==>
      ins[j].ref in r && ins[j].ref in s && r[ins[j].ref] == s[ins[j].ref]
    ensures PickupsInto(ins, r, ref, k) == PickupsInto(ins, s, ref, k)
  {
    if k > 0 { PickupsAgree(ins, r, s, ref, k - 1); }
  }

  lemma {:induction false} SameAt(ins: seq<Investee>, r: map<Ref, Pickup>, s: map<Ref, Pickup>, x: Ref)
    requires Forest(ins) && Consistent(ins, r) && Consistent(ins, s) && x in RefsOf(ins)
    ensures x in r && x in s && r[x] == s[x]
    decreases Tier(ins, x)
  {
    hide Forest, Tier, PickupsInto, Measure, LastOf, RefsOf;
    assert MeasuredAt(ins, r, x) && MeasuredAt(ins, s, x);
    forall j | 0 <= j < |ins| && ins[j].heldBy == x
      ensures ins[j].ref in r && ins[j].ref in s && r[ins[j].ref] == s[ins[j].ref]
    {
      LowerTier(ins, j);
      Listed(ins, j);
      SameAt(ins, r, s, ins[j].ref);
    }
    PickupsAgree(ins, r, s, x, |ins|);
  }

  /** On a forest the tier equations have one solution. */
  lemma ConsistentUnique(ins: seq<Investee>, r: map<Ref, Pickup>, s: map<Ref, Pickup>)
    requires Forest(ins) && Consistent(ins, r) && Consistent(ins, s)
    ensures r == s
  {
    hide Forest, MeasuredAt, RefsOf;
    forall x | x in r ensures x in s && r[x] == s[x] { SameAt(ins, r, s, x); }
  }

  lemma {:induction false} PickupsAsSum(ins: seq<Investee>, r: map<Ref, Pickup>, ref: Ref, f: Investee -> real, k: nat)
    requires k <= |ins| && forall i :: f(i) == PickupInto(i, r, ref) as real
    ensures PickupsInto(ins, r, ref, k) as real == SumBy(f, ins[..k])
  {
    if k > 0 {
      PickupsAsSum(ins, r, ref, f, k - 1);
      assert ins[..k][..k - 1] == ins[..k - 1] && ins[..k][k - 1] == ins[k - 1];
    }
  }

  lemma {:induction false} PickupsPermuted(ins: seq<Investee>, jns: seq<Investee>, r: map<Ref, Pickup>, ref: Ref)
    requires multiset(ins) == multiset(jns) && |ins| == |jns|
    ensures PickupsInto(ins, r, ref, |ins|) == PickupsInto(jns, r, ref, |jns|)
  {
    var f := (i: Investee) => PickupInto(i, r, ref) as real;
    PickupsAsSum(ins, r, ref, f, |ins|);
    PickupsAsSum(jns, r, ref, f, |jns|);
    assert ins[..|ins|] == ins && jns[..|jns|] == jns;
    SumByPermutation(f, ins, jns);
  }

  /** The list order does not matter beyond which entry of a reference comes last. */
  lemma OrderIrrelevant(ins: seq<Investee>, jns: seq<Investee>, r: map<Ref, Pickup>)
    requires multiset(ins) == multiset(jns) && |ins| == |jns| && Consistent(ins, r)
    requires forall x :: x in RefsOf(ins) && x in RefsOf(jns) ==> LastOf(ins, x) == LastOf(jns, x)
    ensures Consistent(jns, r)
  {
    hide PickupsInto, Measure, LastOf, RefsOf;
    SameElements(ins, jns);
    forall x ensures x in RefsOf(ins) <==> x in RefsOf(jns) { SameRefs(ins, jns, x); SameRefs(jns, ins, x); }
    assert RefsOf(ins) == RefsOf(jns);
    forall x | x in RefsOf(jns) ensures MeasuredAt(jns, r, x) {
      assert MeasuredAt(ins, r, x);
      PickupsPermuted(ins, jns, r, x);
    }
  }

  /** With each reference listed once the list order does not matter at all. */
  lemma {:induction false} OrderIrrelevantOnce(ins: seq<Investee>, jns: seq<Investee>, r: map<Ref, Pickup>)
    requires multiset(ins) == multiset(jns) && |ins| == |jns| && Consistent(ins, r)
    requires ListedOnce(ins) && ListedOnce(jns)
    ensures Consistent(jns, r)
  {
    hide Consistent, LastOf, RefsOf;
    SameElements(ins, jns);
    forall x | x in RefsOf(ins) && x in RefsOf(jns) ensures LastOf(ins, x) == LastOf(jns, x) {
      var k := PlaceOf(ins, x);
      assert ins[k] in jns;
      var j :| 0 <= j < |jns| && jns[j] == ins[k];
      OnlyEntry(ins, k);
      OnlyEntry(jns, j);
    }
    OrderIrrelevant(ins, jns, r);
  }

  lemma SameRefs(ins: seq<Investee>, jns: seq<Investee>, x: Ref)
    requires forall i :: i in ins ==> i in jns
    ensures x in RefsOf(ins) ==> x in RefsOf(jns)
  {
    if x in RefsOf(ins) {
      var k := PlaceOf(ins, x);
      assert ins[k] in jns;
      var j :| 0 <= j < |jns| && jns[j] == ins[k];
    }
  }

  // ------------------------------------------------------------------- the fold

  ghost predicate Known(ins: seq<Investee>, order: seq<Ref>) {
    forall j :: 0 <= j < |order| ==> order[j] in RefsOf(ins)
  }

  /** The references, each once, with everything an investee holds before it. */
  ghost predicate BottomUp(ins: seq<Investee>, order: seq<Ref>) {
    && Known(ins, order)
    && (forall x :: x in RefsOf(ins) ==> x in order)
    && (forall i, j :: 0 <= i < j < |order| ==> order[i] != order[j])
    && (forall k, i, j :: 0 <= k < |ins| && 0 <= i < |order| && 0 <= j < |order| ==>
      order[i] == ins[k].ref && order[j] == ins[k].heldBy ==> i < j)
  }

  /** The plain fold in such an order: no memo, no recursion into the holdings. */
  ghost function FoldUp(ins: seq<Investee>, order: seq<Ref>, k: nat): map<Ref, Pickup>
    requires Known(ins, order) && k <= |order|
  {
    if k == 0 then map[]
    else
      var r, x := FoldUp(ins, order, k - 1), order[k - 1];
      r[x := MeasureOn(ins, r, x)]
  }

  ghost predicate Among(x: Ref, order: seq<Ref>, k: nat)
    requires k <= |order|
  {
    exists j :: 0 <= j < k && order[j] == x
  }

  lemma {:induction false} FoldKeys(ins: seq<Investee>, order: seq<Ref>, k: nat, x: Ref)
    requires Known(ins, order) && k <= |order|
    ensures x in FoldUp(ins, order, k) <==> Among(x, order, k)
  {
    hide Known, MeasureOn;
    if k > 0 { FoldKeys(ins, order, k - 1, x); }
  }

  /** Everything held by the investee at place k is in the fold before it. */
  lemma {:induction false} LowersBefore(ins: seq<Investee>, order: seq<Ref>, k: nat, j: nat)
    requires BottomUp(ins, order) && k < |order| && j < |ins| && ins[j].heldBy == order[k]
    ensures ins[j].ref in FoldUp(ins, order, k)
  {
    hide FoldUp;
    Listed(ins, j);
    var i :| 0 <= i < |order| && order[i] == ins[j].ref;
    assert i < k;
    FoldKeys(ins, order, k, ins[j].ref);
  }

  lemma {:induction false} NotYet(ins: seq<Investee>, order: seq<Ref>, k: nat)
    requires BottomUp(ins, order) && k < |order|
    ensures order[k] in RefsOf(ins) && order[k] !in FoldUp(ins, order, k)
  {
    hide FoldUp;
    FoldKeys(ins, order, k, order[k]);
  }

  ghost predicate AllDone(ins: seq<Investee>, r: map<Ref, Pickup>) {
    forall x :: x in r ==> x in RefsOf(ins) && Done(ins, r, x)
  }

  lemma {:induction false} LowersIncluded(ins: seq<Investee>, order: seq<Ref>, k: nat)
    requires BottomUp(ins, order) && k < |order| && Known(ins, order)
    ensures forall j :: 0 <= j < |ins| && ins[j].heldBy == order[k] ==> ins[j].ref in FoldUp(ins, order, k)
  {
    hide FoldUp, BottomUp;
    forall j | 0 <= j < |ins| && ins[j].heldBy == order[k] ensures ins[j].ref in FoldUp(ins, order, k) {
      LowersBefore(ins, order, k, j);
    }
  }

  lemma NothingFolded(ins: seq<Investee>, order: seq<Ref>)
    requires Known(ins, order)
    ensures AllDone(ins, FoldUp(ins, order, 0))
  {
  }

  lemma FoldStep(ins: seq<Investee>, order: seq<Ref>, k: nat)
    requires Known(ins, order) && 0 < k <= |order|
    ensures order[k - 1] in RefsOf(ins)
    ensures var r, x := FoldUp(ins, order, k - 1), order[k - 1];
      FoldUp(ins, order, k) == r[x := MeasureOn(ins, r, x)]
  {
    hide RefsOf, MeasureOn;
  }

  lemma IsKnown(ins: seq<Investee>, order: seq<Ref>)
    requires BottomUp(ins, order)
    ensures Known(ins, order)
  {
  }

  lemma {:induction false} FoldMeasures(ins: seq<Investee>, order: seq<Ref>, k: nat)
    requires BottomUp(ins, order) && k <= |order|
    ensures Known(ins, order) && AllDone(ins, FoldUp(ins, order, k))
  {
    hide *;
    IsKnown(ins, order);
    if k == 0 {
      NothingFolded(ins, order);
    } else {
      FoldMeasures(ins, order, k - 1);
      NotYet(ins, order, k - 1);
      FoldStep(ins, order, k);
      LowersIncluded(ins, order, k - 1);
      FoldLast(ins, FoldUp(ins, order, k - 1), order[k - 1]);
    }
  }

  lemma FoldLast(ins: seq<Investee>, r: map<Ref, Pickup>, x: Ref)
    requires AllDone(ins, r) && x in RefsOf(ins) && x !in r
    requires forall j :: 0 <= j < |ins| && ins[j].heldBy == x ==> ins[j].ref in r
    ensures AllDone(ins, r[x := MeasureOn(ins, r, x)])
  {
    hide PickupsInto, Measure, LastOf, RefsOf;
    var s := r[x := MeasureOn(ins, r, x)];
    PickupsStable(ins, r, s, x, |ins|);
    assert Done(ins, s, x);
    hide Done, MeasureOn;
    forall y | y in s ensures y in RefsOf(ins) && Done(ins, s, y) {
      if y != x { DoneStable(ins, r, s, y); }
    }
  }

  /** The recursion over the list in any order gives what the fold from the lowest
      tier upward gives. */
  lemma {:induction false} PickupIsFold(ins: seq<Investee>, order: seq<Ref>, results: map<Ref, Pickup>)
    requires Forest(ins) && Consistent(ins, results) && BottomUp(ins, order)
    ensures results == FoldUp(ins, order, |order|)
  {
    FoldMeasures(ins, order, |order|);
    var fold := FoldUp(ins, order, |order|);
    hide Forest, FoldUp, Consistent, RefsOf, Done, AllDone;
    forall x | x in RefsOf(ins) ensures x in fold {
      FoldKeys(ins, order, |order|, x);
    }
    hide BottomUp, Known;
    DoneConsistent(ins, fold);
    ConsistentUnique(ins, results, fold);
  }

  lemma DoneConsistent(ins: seq<Investee>, r: map<Ref, Pickup>)
    requires AllDone(ins, r) && forall x :: x in RefsOf(ins) ==> x in r
    ensures Consistent(ins, r)
  {
    hide RefsOf, MeasuredAt, LowersIn;
    assert r.Keys == RefsOf(ins);
  }

  lemma {:induction false} HighestTier(ins: seq<Investee>, s: set<Ref>) returns (x: Ref)
    requires s != {}
    ensures x in s && forall y :: y in s ==> Tier(ins, y) <= Tier(ins, x)
  {
    hide Tier;
    x :| x in s;
    if s - {x} != {} {
      var y := HighestTier(ins, s - {x});
      if Tier(ins, y) > Tier(ins, x) { x := y; }
    }
  }

  /** Any set of references in the order of their tiers. */
  lemma {:induction false} ByTier(ins: seq<Investee>, s: set<Ref>) returns (order: seq<Ref>)
    ensures forall x :: x in order <==> x in s
    ensures forall i, j :: 0 <= i < j < |order| ==> order[i] != order[j] && Tier(ins, order[i]) <= Tier(ins, order[j])
  {
    hide Tier;
    order := [];
    if s != {} {
      var x := HighestTier(ins, s);
      var lower := ByTier(ins, s - {x});
      order := lower + [x];
      forall i, j | 0 <= i < j < |order| ensures order[i] != order[j] && Tier(ins, order[i]) <= Tier(ins, order[j]) {
        assert lower[i] in lower;
      }
    }
  }

  /** Every forest has such an order, so every pickup is that fold. */
  lemma {:induction false} PickupFoldsUp(ins: seq<Investee>, results: map<Ref, Pickup>)
    requires Forest(ins) && Consistent(ins, results)
    ensures exists order :: BottomUp(ins, order) && results == FoldUp(ins, order, |order|)
  {
    hide Forest, Tier, RefsOf, FoldUp, Consistent;
    var order := ByTier(ins, RefsOf(ins));
    forall k, i, j | 0 <= k < |ins| && 0 <= i < |order| && 0 <= j < |order|
        && order[i] == ins[k].ref && order[j] == ins[k].heldBy
      ensures i < j
    {
      LowerTier(ins, k);
    }
    assert BottomUp(ins, order);
    PickupIsFold(ins, order, results);
  }
}
