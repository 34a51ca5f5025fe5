/** The encumbrance lifecycle: liquidation, release and carry-forward, and what every
    run of them keeps. */
module Commitments {
  import opened Options

  datatype State = Anticipated | Committed | PartiallyLiquidated | Liquidated | Released | CarriedForward | Lapsed

  datatype Commitment = Commitment(
    ref: string,
    period: string,
    state: State,
    original: int,
    liquidated: int,
    released: int,
    unencumbered: int,
    overLiquidated: bool,
    carriedFrom: Option<string>)

  datatype Refusal = LiquidationTargetInvalid | PolicyUnselected

  datatype Result<T> = Ok(value: T) | Refused(refusal: Refusal)

  predicate IsOpen(c: Commitment) {
    c.state == Committed || c.state == PartiallyLiquidated
  }

  function Outstanding(c: Commitment): int {
    if IsOpen(c) then c.original - c.liquidated - c.released else 0
  }

  /** `applyLiquidation(c, invoice)`. */
  function ApplyLiquidation(c: Commitment, invoice: int): Result<Commitment> {
    if !IsOpen(c) || invoice <= 0 then Refused(LiquidationTargetInvalid)
    else
      var outstanding := Outstanding(c);
      var applied := if invoice <= outstanding then invoice else outstanding;
      var excess := invoice - applied;
      var liquidated := c.liquidated + applied;
      var remaining := c.original - liquidated - c.released;
      Ok(c.(state := if remaining == 0 then Liquidated else PartiallyLiquidated,
            liquidated := liquidated,
            unencumbered := c.unencumbered + excess,
            overLiquidated := c.overLiquidated || excess > 0))
  }

  /** `releaseCommitment(c)`. */
  function ReleaseCommitment(c: Commitment): Result<Commitment> {
    if !IsOpen(c) then Refused(LiquidationTargetInvalid)
    else Ok(c.(state := Released, released := c.released + Outstanding(c)))
  }

  // ---------------------------------------------------------------- carry-forward

  datatype Policy = EncumbranceOnly | FullAppropriation | LapseAll

  datatype CarryForwardRun = CarryForwardRun(
    policy: Policy,
    successors: seq<Commitment>,
    closingStates: seq<Commitment>,
    lapsed: int,
    appropriationCarried: int)

  /** What is open in the closing period. */
  function OpenIn(cs: seq<Commitment>, from: string): seq<Commitment> {
    if cs == [] then []
    else
      var c := cs[|cs| - 1];
      OpenIn(cs[..|cs| - 1], from) + if c.period == from && IsOpen(c) then [c] else []
  }

  function Successor(c: Commitment, to: string): Commitment {
    Commitment(c.ref + "#cf-" + to, to, Committed, Outstanding(c), 0, 0, 0, false, Some(c.ref))
  }

  function Successors(cs: seq<Commitment>, to: string): seq<Commitment> {
    if cs == [] then [] else Successors(cs[..|cs| - 1], to) + [Successor(cs[|cs| - 1], to)]
  }

  function Closed(cs: seq<Commitment>, state: State): seq<Commitment> {
    if cs == [] then [] else Closed(cs[..|cs| - 1], state) + [cs[|cs| - 1].(state := state)]
  }

  function OutstandingOf(cs: seq<Commitment>): int {
    if cs == [] then 0 else OutstandingOf(cs[..|cs| - 1]) + Outstanding(cs[|cs| - 1])
  }

  /** `carryForward(commitments, from, to, policy, unconsumed)`. */
  function CarryForward(cs: seq<Commitment>, from: string, to: string, policy: Option<Policy>,
                        unconsumed: int): Result<CarryForwardRun> {
    if policy.None? then Refused(PolicyUnselected)
    else
      var open := OpenIn(cs, from);
      if policy.value == LapseAll then
        Ok(CarryForwardRun(LapseAll, [], Closed(open, Lapsed), OutstandingOf(open), 0))
      else
        Ok(CarryForwardRun(policy.value, Successors(open, to), Closed(open, CarriedForward), 0,
                           if policy.value == FullAppropriation then unconsumed else 0))
  }

  // -------------------------------------------------------------- one commitment

  /** What every reachable commitment satisfies. */
  ghost predicate Valid(c: Commitment) {
    && c.liquidated >= 0 && c.released >= 0 && c.unencumbered >= 0
    && c.liquidated + c.released <= c.original
    && (c.overLiquidated <==> c.unencumbered > 0)
    && (c.state == Liquidated || c.state == Released ==> c.liquidated + c.released == c.original)
  }

  /** An accepted invoice is liquidated as far as money is outstanding; the rest
      stands beside the commitment, flagged. */
  lemma LiquidationSplits(c: Commitment, invoice: int)
    requires Valid(c)
    ensures match ApplyLiquidation(c, invoice)
      case Refused(r) =>
        r == LiquidationTargetInvalid && (invoice <= 0 || (c.state != Committed && c.state != PartiallyLiquidated))
      case Ok(d) =>
        && (c.state == Committed || c.state == PartiallyLiquidated) && invoice > 0 && Valid(d)
        && d.liquidated + d.unencumbered == c.liquidated + c.unencumbered + invoice
        && d.liquidated - c.liquidated == Outstanding(c) - Outstanding(d) >= 0
        && Outstanding(c) == c.original - c.liquidated - c.released
        && (d.unencumbered > c.unencumbered <==> invoice > Outstanding(c))
        && (d.state == Liquidated <==> Outstanding(d) == 0)
        && (d.state == Liquidated || d.state == PartiallyLiquidated)
        && d == c.(state := d.state, liquidated := d.liquidated, unencumbered := d.unencumbered,
                   overLiquidated := d.overLiquidated)
  {
  }

  /** What is outstanding falls by the whole invoice exactly when the invoice does not
      exceed it. */
  lemma WholeInvoiceTaken(c: Commitment, invoice: int)
    requires Valid(c) && IsOpen(c) && invoice > 0
    ensures var d := ApplyLiquidation(c, invoice).value;
      Outstanding(c) - Outstanding(d) == invoice <==> invoice <= Outstanding(c)
  {
  }

  // --------------------------------------------------------------------- the book

  /** A commitment and the place of the one it was first carried from. */
  datatype Entry = Entry(c: Commitment, root: nat)

  datatype Action =
    | Liquidate(at: nat, invoice: int)
    | Release(at: nat)
    | Carry(from: string, to: string, policy: Option<Policy>)

  ghost function Plain(es: seq<Entry>): (cs: seq<Commitment>)
    ensures |cs| == |es|
  {
    if es == [] then [] else Plain(es[..|es| - 1]) + [es[|es| - 1].c]
  }

  ghost function Applied(es: seq<Entry>, k: nat, r: Result<Commitment>): (t: seq<Entry>)
    requires k < |es|
    ensures |t| == |es|
  {
    if r.Ok? then es[k := Entry(r.value, es[k].root)] else es
  }

  ghost predicate Closing(e: Entry, from: string) {
    e.c.period == from && IsOpen(e.c)
  }

  /** The entries with the closing ones in their period-end state. */
  ghost function ClosedBook(es: seq<Entry>, from: string, state: State): (t: seq<Entry>)
    ensures |t| == |es|
  {
    if es == [] then []
    else
      var e := es[|es| - 1];
      ClosedBook(es[..|es| - 1], from, state) + [if Closing(e, from) then Entry(e.c.(state := state), e.root) else e]
  }

  ghost function Carried(es: seq<Entry>, from: string, to: string): seq<Entry> {
    if es == [] then []
    else
      var e := es[|es| - 1];
      Carried(es[..|es| - 1], from, to) + if Closing(e, from) then [Entry(Successor(e.c, to), e.root)] else []
  }

  /** One step of the book; a refused call changes nothing. */
  ghost function Step(es: seq<Entry>, a: Action): seq<Entry> {
    match a
    case Liquidate(k, invoice) => if k < |es| then Applied(es, k, ApplyLiquidation(es[k].c, invoice)) else es
    case Release(k) => if k < |es| then Applied(es, k, ReleaseCommitment(es[k].c)) else es
    case Carry(from, to, policy) =>
      if policy.None? then es
      else if policy.value == LapseAll then ClosedBook(es, from, Lapsed)
      else ClosedBook(es, from, CarriedForward) + Carried(es, from, to)
  }

  lemma {:induction false} PlainAppend(es: seq<Entry>, e: Entry)
    ensures Plain(es + [e]) == Plain(es) + [e.c]
  {
    assert (es + [e])[..|es|] == es;
  }

  lemma {:induction false} LastPlain(es: seq<Entry>)
    requires es != []
    ensures Plain(es) == Plain(es[..|es| - 1]) + [es[|es| - 1].c]
  {
  }

  lemma {:induction false} OutstandingAppend(cs: seq<Commitment>, c: Commitment)
    ensures OutstandingOf(cs + [c]) == OutstandingOf(cs) + Outstanding(c)
  {
    assert (cs + [c])[..|cs|] == cs;
  }

  lemma {:induction false} SuccessorsAppend(cs: seq<Commitment>, c: Commitment, to: string)
    ensures Successors(cs + [c], to) == Successors(cs, to) + [Successor(c, to)]
  {
    assert (cs + [c])[..|cs|] == cs;
  }

  lemma {:induction false} ClosedAppend(cs: seq<Commitment>, c: Commitment, state: State)
    ensures Closed(cs + [c], state) == Closed(cs, state) + [c.(state := state)]
  {
    assert (cs + [c])[..|cs|] == cs;
  }

  lemma {:induction false} OpenAppend(cs: seq<Commitment>, c: Commitment, from: string)
    ensures OpenIn(cs + [c], from) == OpenIn(cs, from) + if c.period == from && IsOpen(c) then [c] else []
  {
    assert (cs + [c])[..|cs|] == cs;
  }

  /** What stands in `t` at the places where `es` was closing. */
  ghost function ClosedAt(es: seq<Entry>, t: seq<Entry>, from: string): seq<Commitment>
    requires |t| == |es|
  {
    if es == [] then []
    else
      var k := |es| - 1;
      ClosedAt(es[..k], t[..k], from) + if Closing(es[k], from) then [t[k].c] else []
  }

  /** The successors in the book are those that `carryForward` returns. */
  lemma {:induction false} BookTakesSuccessors(es: seq<Entry>, from: string, to: string)
    ensures Plain(Carried(es, from, to)) == Successors(OpenIn(Plain(es), from), to)
  {
    if es != [] {
      var m, e := es[..|es| - 1], es[|es| - 1];
      BookTakesSuccessors(m, from, to);
      OpenAppend(Plain(m), e.c, from);
      ClosingMeans(e, from);
      LastPlain(es);
      hide Closing, Successor, Successors, OpenIn, Plain;
      if Closing(e, from) {
        PlainAppend(Carried(m, from, to), Entry(Successor(e.c, to), e.root));
        SuccessorsAppend(OpenIn(Plain(m), from), e.c, to);
      } else {
        assert Carried(es, from, to) == Carried(m, from, to);
        assert OpenIn(Plain(es), from) == OpenIn(Plain(m), from);
      }
    }
  }

  /** And so are the closing states. */
  lemma {:induction false} BookTakesClosings(es: seq<Entry>, from: string, state: State)
    ensures ClosedAt(es, ClosedBook(es, from, state), from) == Closed(OpenIn(Plain(es), from), state)
  {
    if es != [] {
      var m, e := es[..|es| - 1], es[|es| - 1];
      BookTakesClosings(m, from, state);
      OpenAppend(Plain(m), e.c, from);
      ClosingMeans(e, from);
      assert ClosedBook(es, from, state)[..|es| - 1] == ClosedBook(m, from, state);
      LastPlain(es);
      hide Closing, Closed, OpenIn, Plain;
      if Closing(e, from) {
        ClosedAppend(OpenIn(Plain(m), from), e.c, state);
      } else {
        assert OpenIn(Plain(es), from) == OpenIn(Plain(m), from);
      }
    }
  }

  lemma ClosingMeans(e: Entry, from: string)
    ensures Closing(e, from) <==> e.c.period == from && IsOpen(e.c)
  {
  }

  // ------------------------------------------------------------- sums over the book

  /** The sum of a quantity over the commitments that descend from one root. */
  ghost function SumIn(f: Commitment -> int, es: seq<Entry>, r: nat): int {
    if es == [] then 0
    else
      var e := es[|es| - 1];
      SumIn(f, es[..|es| - 1], r) + if e.root == r then f(e.c) else 0
  }

  lemma {:induction false} SumInJoined(f: Commitment -> int, a: seq<Entry>, b: seq<Entry>, r: nat)
    ensures SumIn(f, a + b, r) == SumIn(f, a, r) + SumIn(f, b, r)
  {
    if b == [] {
      assert a + b == a;
    } else {
      var m := b[..|b| - 1];
      assert (a + b)[..|a + b| - 1] == a + m;
      SumInJoined(f, a, m, r);
    }
  }

  lemma SumInAt(f: Commitment -> int, es: seq<Entry>, k: nat, c: Commitment, r: nat)
    requires k < |es|
    ensures SumIn(f, es[k := Entry(c, es[k].root)], r)
      == SumIn(f, es, r) + if es[k].root == r then f(c) - f(es[k].c) else 0
  {
    var a, e, b := es[..k], es[k], es[k + 1..];
    var e' := Entry(c, e.root);
    assert es == (a + [e]) + b && es[k := e'] == (a + [e']) + b;
    SumInJoined(f, a + [e], b, r);
    SumInJoined(f, a + [e'], b, r);
    assert (a + [e])[..|a|] == a && (a + [e'])[..|a|] == a;
  }

  /** Closing and carrying: if what an open commitment loses on closing is what its
      successor brings, the sum stays. */
  lemma {:induction false} SumInCarried(f: Commitment -> int, es: seq<Entry>, from: string, to: string, r: nat)
    requires forall c {:trigger Successor(c, to)} :: IsOpen(c) ==>
      f(c.(state := CarriedForward)) + f(Successor(c, to)) == f(c)
    ensures SumIn(f, ClosedBook(es, from, CarriedForward), r) + SumIn(f, Carried(es, from, to), r) == SumIn(f, es, r)
  {
    hide Successor, IsOpen;
    if es != [] {
      var m, e := es[..|es| - 1], es[|es| - 1];
      SumInCarried(f, m, from, to, r);
      ClosingMeans(e, from);
      assert ClosedBook(es, from, CarriedForward)[..|es| - 1] == ClosedBook(m, from, CarriedForward);
      if Closing(e, from) {
        var s := Carried(m, from, to);
        assert (s + [Entry(Successor(e.c, to), e.root)])[..|s|] == s;
      } else {
        assert Carried(es, from, to) == Carried(m, from, to);
      }
      hide Closing;
    }
  }

  lemma {:induction false} SumInLapsed(f: Commitment -> int, es: seq<Entry>, from: string, r: nat)
    requires forall c {:trigger IsOpen(c)} :: IsOpen(c) ==> f(c.(state := Lapsed)) == f(c)
    ensures SumIn(f, ClosedBook(es, from, Lapsed), r) == SumIn(f, es, r)
  {
    if es != [] {
      var m, e := es[..|es| - 1], es[|es| - 1];
      SumInLapsed(f, m, from, r);
      ClosingMeans(e, from);
      assert ClosedBook(es, from, Lapsed)[..|es| - 1] == ClosedBook(m, from, Lapsed);
      hide Closing;
    }
  }

  // -------------------------------------------------------------------------- runs

  /** What a commitment accounts for: spent, given back, still open, or lapsed.
      A carried-forward one has handed its rest on. */
  ghost function Held(c: Commitment): int {
    c.liquidated + c.released + if IsOpen(c) || c.state == Lapsed then c.original - c.liquidated - c.released else 0
  }

  ghost function Billed(c: Commitment): int {
    c.liquidated + c.unencumbered
  }

  ghost predicate Startable(cs: seq<Commitment>) {
    forall i :: 0 <= i < |cs| ==>
      Valid(cs[i]) && (IsOpen(cs[i]) || cs[i].state == Liquidated || cs[i].state == Released)
  }

  ghost function Start(cs: seq<Commitment>): (es: seq<Entry>)
    ensures |es| == |cs| && forall i :: 0 <= i < |cs| ==> es[i] == Entry(cs[i], i)
  {
    seq(|cs|, i requires 0 <= i < |cs| => Entry(cs[i], i))
  }

  ghost function After(es: seq<Entry>, actions: seq<Action>): seq<Entry> {
    if actions == [] then es else Step(After(es, actions[..|actions| - 1]), actions[|actions| - 1])
  }

  /** Every commitment is valid, none comes from outside. */
  ghost predicate Sound(es: seq<Entry>, n: nat) {
    forall i :: 0 <= i < |es| ==> Valid(es[i].c) && es[i].c.state != Anticipated && es[i].root < n
  }

  lemma ReleaseKeeps(c: Commitment)
    requires Valid(c)
    ensures match ReleaseCommitment(c)
      case Refused(r) => r == LiquidationTargetInvalid && c.state != Committed && c.state != PartiallyLiquidated
      case Ok(d) =>
        && (c.state == Committed || c.state == PartiallyLiquidated)
        && Valid(d) && Outstanding(d) == 0 && d.state == Released
        && d.released - c.released == Outstanding(c) == c.original - c.liquidated - c.released
        && d == c.(state := Released, released := d.released)
  {
  }

  lemma {:induction false} ClosedSound(es: seq<Entry>, from: string, state: State, n: nat)
    requires Sound(es, n) && (state == Lapsed || state == CarriedForward)
    ensures Sound(ClosedBook(es, from, state), n)
  {
    if es != [] {
      ClosedSound(es[..|es| - 1], from, state, n);
      hide ClosedBook;
      var e := es[|es| - 1];
      assert Sound([e], n);
      LastClosed(es, from, state);
    }
  }

  lemma {:induction false} LastClosed(es: seq<Entry>, from: string, state: State)
    requires es != []
    ensures var e := es[|es| - 1];
      ClosedBook(es, from, state)
      == ClosedBook(es[..|es| - 1], from, state) + [if Closing(e, from) then Entry(e.c.(state := state), e.root) else e]
  {
  }

  lemma {:induction false} CarriedSound(es: seq<Entry>, from: string, to: string, n: nat)
    requires Sound(es, n)
    ensures Sound(Carried(es, from, to), n)
  {
    if es != [] {
      CarriedSound(es[..|es| - 1], from, to, n);
      assert Valid(es[|es| - 1].c);
    }
  }

  lemma AppliedSound(es: seq<Entry>, k: nat, r: Result<Commitment>, n: nat)
    requires Sound(es, n) && k < |es| && (r.Ok? ==> Valid(r.value) && r.value.state != Anticipated)
    ensures Sound(Applied(es, k, r), n)
  {
    hide Valid;
  }

  lemma StepSound(es: seq<Entry>, a: Action, n: nat)
    requires Sound(es, n)
    ensures Sound(Step(es, a), n)
  {
    hide Valid, Sound, Applied, ClosedBook, Carried;
    match a
    case Liquidate(k, invoice) =>
      if k < |es| {
        assert Valid(es[k].c) by { SoundAt(es, k, n); }
        LiquidationSplits(es[k].c, invoice);
        AppliedSound(es, k, ApplyLiquidation(es[k].c, invoice), n);
      }
    case Release(k) =>
      if k < |es| {
        assert Valid(es[k].c) by { SoundAt(es, k, n); }
        ReleaseKeeps(es[k].c);
        AppliedSound(es, k, ReleaseCommitment(es[k].c), n);
      }
    case Carry(from, to, policy) =>
      ClosedSound(es, from, Lapsed, n);
      ClosedSound(es, from, CarriedForward, n);
      CarriedSound(es, from, to, n);
      SoundJoined(ClosedBook(es, from, CarriedForward), Carried(es, from, to), n);
  }

  lemma SoundAt(es: seq<Entry>, k: nat, n: nat)
    requires Sound(es, n) && k < |es|
    ensures Valid(es[k].c)
  {
  }

  lemma SoundJoined(a: seq<Entry>, b: seq<Entry>, n: nat)
    requires Sound(a, n) && Sound(b, n)
    ensures Sound(a + b, n)
  {
    hide Valid;
  }

  /** No step changes what the descendants of a root account for. */
  lemma {:induction false} StepKeepsHeld(es: seq<Entry>, a: Action, n: nat, r: nat)
    requires Sound(es, n)
    ensures SumIn(Held, Step(es, a), r) == SumIn(Held, es, r)
  {
    hide Valid, Sound, ClosedBook, Carried, SumIn;
    match a
    case Liquidate(k, invoice) =>
      if k < |es| {
        var d := ApplyLiquidation(es[k].c, invoice);
        if d.Ok? {
          assert Held(d.value) == Held(es[k].c);
          SumInAt(Held, es, k, d.value, r);
        }
      }
    case Release(k) =>
      if k < |es| {
        var d := ReleaseCommitment(es[k].c);
        if d.Ok? {
          assert Held(d.value) == Held(es[k].c);
          SumInAt(Held, es, k, d.value, r);
        }
      }
    case Carry(from, to, policy) =>
      SumInLapsed(Held, es, from, r);
      SumInCarried(Held, es, from, to, r);
      SumInJoined(Held, ClosedBook(es, from, CarriedForward), Carried(es, from, to), r);
  }

  lemma {:induction false} RunSound(es: seq<Entry>, actions: seq<Action>, n: nat)
    requires Sound(es, n)
    ensures Sound(After(es, actions), n)
  {
    hide Sound, Step;
    if actions != [] {
      RunSound(es, actions[..|actions| - 1], n);
      StepSound(After(es, actions[..|actions| - 1]), actions[|actions| - 1], n);
    }
  }

  lemma {:induction false} RunKeepsHeld(es: seq<Entry>, actions: seq<Action>, n: nat, r: nat)
    requires Sound(es, n)
    ensures SumIn(Held, After(es, actions), r) == SumIn(Held, es, r)
  {
    hide Sound, Step, SumIn;
    if actions != [] {
      RunKeepsHeld(es, actions[..|actions| - 1], n, r);
      RunSound(es, actions[..|actions| - 1], n);
      StepKeepsHeld(After(es, actions[..|actions| - 1]), actions[|actions| - 1], n, r);
    }
  }

  lemma {:induction false} StartSum(f: Commitment -> int, cs: seq<Commitment>, r: nat)
    ensures SumIn(f, Start(cs), r) == if r < |cs| then f(cs[r]) else 0
  {
    if cs != [] {
      var m := cs[..|cs| - 1];
      StartSum(f, m, r);
      assert Start(cs)[..|cs| - 1] == Start(m);
    }
  }

  lemma StartSound(cs: seq<Commitment>)
    requires Startable(cs)
    ensures Sound(Start(cs), |cs|)
  {
    hide Valid;
  }

  /** Over every run and along every chain of carry-forwards: the root's original
      amount is all that was liquidated and released below it, plus what is still
      outstanding or has lapsed. Nothing appears and nothing is lost. */
  lemma {:induction false} OriginalAccountedFor(cs: seq<Commitment>, actions: seq<Action>, r: nat)
    requires Startable(cs) && r < |cs|
    ensures SumIn(Held, After(Start(cs), actions), r) == cs[r].original
  {
    StartSound(cs);
    StartSum(Held, cs, r);
    hide Start, SumIn, After, Sound;
    RunKeepsHeld(Start(cs), actions, |cs|, r);
  }

  /** In every reachable book, nothing outstanding is negative. */
  lemma {:induction false} OutstandingNeverNegative(cs: seq<Commitment>, actions: seq<Action>, k: nat)
    requires Startable(cs) && k < |After(Start(cs), actions)|
    ensures var c := After(Start(cs), actions)[k].c;
      Valid(c) && 0 <= Outstanding(c) <= c.original
  {
    StartSound(cs);
    hide Start, After;
    RunSound(Start(cs), actions, |cs|);
    SoundAt(After(Start(cs), actions), k, |cs|);
  }

  /** The invoices that were accepted on descendants of a root. */
  ghost function AcceptedOn(es: seq<Entry>, actions: seq<Action>, r: nat): int {
    if actions == [] then 0
    else
      var before := After(es, actions[..|actions| - 1]);
      AcceptedOn(es, actions[..|actions| - 1], r) + AcceptedBy(before, actions[|actions| - 1], r)
  }

  ghost function AcceptedBy(es: seq<Entry>, a: Action, r: nat): int {
    match a
    case Liquidate(k, invoice) =>
      if k < |es| && es[k].root == r && ApplyLiquidation(es[k].c, invoice).Ok? then invoice else 0
    case _ => 0
  }

  lemma {:induction false} StepBills(es: seq<Entry>, a: Action, n: nat, r: nat)
    requires Sound(es, n)
    ensures SumIn(Billed, Step(es, a), r) == SumIn(Billed, es, r) + AcceptedBy(es, a, r)
  {
    hide Valid, Sound, ClosedBook, Carried, SumIn;
    match a
    case Liquidate(k, invoice) =>
      if k < |es| {
        var d := ApplyLiquidation(es[k].c, invoice);
        if d.Ok? {
          assert Billed(d.value) == Billed(es[k].c) + invoice;
          SumInAt(Billed, es, k, d.value, r);
        }
      }
    case Release(k) =>
      if k < |es| {
        var d := ReleaseCommitment(es[k].c);
        if d.Ok? {
          assert Billed(d.value) == Billed(es[k].c);
          SumInAt(Billed, es, k, d.value, r);
        }
      }
    case Carry(from, to, policy) =>
      SumInLapsed(Billed, es, from, r);
      SumInCarried(Billed, es, from, to, r);
      SumInJoined(Billed, ClosedBook(es, from, CarriedForward), Carried(es, from, to), r);
  }

  /** Accepted invoices are liquidated or stand beside their commitment: none is
      lost over a run. */
  lemma {:induction false} InvoicesAccountedFor(es: seq<Entry>, actions: seq<Action>, n: nat, r: nat)
    requires Sound(es, n)
    ensures SumIn(Billed, After(es, actions), r) == SumIn(Billed, es, r) + AcceptedOn(es, actions, r)
  {
    hide Sound, Step, SumIn, AcceptedBy;
    if actions != [] {
      InvoicesAccountedFor(es, actions[..|actions| - 1], n, r);
      RunSound(es, actions[..|actions| - 1], n);
      StepBills(After(es, actions[..|actions| - 1]), actions[|actions| - 1], n, r);
    }
  }

  // ----------------------------------------------------------------- period end

  lemma {:induction false} OutstandingLast(es: seq<Entry>)
    requires es != []
    ensures OutstandingOf(Plain(es)) == OutstandingOf(Plain(es[..|es| - 1])) + Outstanding(es[|es| - 1].c)
  {
    LastPlain(es);
    hide Plain, OutstandingOf, Outstanding;
    OutstandingAppend(Plain(es[..|es| - 1]), es[|es| - 1].c);
  }

  lemma {:induction false} OpenLast(es: seq<Entry>, from: string)
    requires es != []
    ensures var m, e := es[..|es| - 1], es[|es| - 1];
      OutstandingOf(OpenIn(Plain(es), from))
      == OutstandingOf(OpenIn(Plain(m), from)) + if Closing(e, from) then Outstanding(e.c) else 0
  {
    var m, e := es[..|es| - 1], es[|es| - 1];
    LastPlain(es);
    ClosingMeans(e, from);
    hide Plain, OutstandingOf, OpenIn, Outstanding;
    OpenAppend(Plain(m), e.c, from);
    OutstandingAppend(OpenIn(Plain(m), from), e.c);
    assert OpenIn(Plain(m), from) + [] == OpenIn(Plain(m), from);
  }

  lemma {:induction false} ClosedLast(es: seq<Entry>, from: string, state: State)
    requires es != [] && (state == Lapsed || state == CarriedForward)
    ensures var m, e := es[..|es| - 1], es[|es| - 1];
      OutstandingOf(Plain(ClosedBook(es, from, state)))
      == OutstandingOf(Plain(ClosedBook(m, from, state))) + if Closing(e, from) then 0 else Outstanding(e.c)
  {
    var m, e := es[..|es| - 1], es[|es| - 1];
    LastClosed(es, from, state);
    var t := ClosedBook(m, from, state);
    var e' := if Closing(e, from) then Entry(e.c.(state := state), e.root) else e;
    ClosedOwesNothing(e.c, state);
    hide Plain, OutstandingOf, ClosedBook, Closing, Outstanding;
    PlainAppend(t, e');
    OutstandingAppend(Plain(t), e'.c);
  }

  lemma ClosedOwesNothing(c: Commitment, state: State)
    requires state == Lapsed || state == CarriedForward
    ensures Outstanding(c.(state := state)) == 0
  {
  }

  /** Closing takes exactly the open commitments' amounts out of what is outstanding. */
  lemma {:induction false} ClosingTakesOut(es: seq<Entry>, from: string, state: State)
    requires state == Lapsed || state == CarriedForward
    ensures OutstandingOf(Plain(ClosedBook(es, from, state)))
      == OutstandingOf(Plain(es)) - OutstandingOf(OpenIn(Plain(es), from))
  {
    if es != [] {
      ClosingTakesOut(es[..|es| - 1], from, state);
      hide OutstandingOf, OpenIn, Plain, ClosedBook, Closing, Outstanding;
      OutstandingLast(es);
      OpenLast(es, from);
      ClosedLast(es, from, state);
    }
  }

  lemma {:induction false} SuccessorsOutstanding(cs: seq<Commitment>, to: string)
    ensures OutstandingOf(Successors(cs, to)) == OutstandingOf(cs)
  {
    if cs != [] {
      SuccessorsOutstanding(cs[..|cs| - 1], to);
      OutstandingAppend(Successors(cs[..|cs| - 1], to), Successor(cs[|cs| - 1], to));
    }
  }

  /** The run reports its policy's amounts: what lapses was outstanding, what is
      carried is outstanding again, and no run does both. */
  lemma {:induction false} CarryForwardReports(cs: seq<Commitment>, from: string, to: string, policy: Option<Policy>,
                                               unconsumed: int)
    ensures match CarryForward(cs, from, to, policy, unconsumed)
      case Refused(r) => r == PolicyUnselected && policy.None?
      case Ok(run) =>
        && policy == Some(run.policy)
        && run.lapsed + OutstandingOf(run.successors) == OutstandingOf(OpenIn(cs, from))
        && (run.policy == LapseAll ==> run.successors == [])
        && (run.policy != LapseAll ==> run.lapsed == 0)
        && run.appropriationCarried == (if run.policy == FullAppropriation then unconsumed else 0)
        && OutstandingOf(run.closingStates) == 0
  {
    SuccessorsOutstanding(OpenIn(cs, from), to);
    ClosedOutstanding(OpenIn(cs, from), Lapsed);
    ClosedOutstanding(OpenIn(cs, from), CarriedForward);
  }

  /** Every successor is its commitment's open amount, newly committed in the coming
      period, and points back to it; every closing state is its commitment closed. */
  lemma {:induction false} SuccessorsPoint(cs: seq<Commitment>, from: string, to: string, policy: Option<Policy>,
                                           unconsumed: int)
    requires policy.Some?
    ensures var open, run := OpenIn(cs, from), CarryForward(cs, from, to, policy, unconsumed).value;
      && (forall c :: c in open <==>
        c in cs && c.period == from && (c.state == Committed || c.state == PartiallyLiquidated))
      && |run.closingStates| == |open|
      && (forall i :: 0 <= i < |open| ==>
        run.closingStates[i] == open[i].(state := if policy == Some(LapseAll) then Lapsed else CarriedForward))
      && (policy != Some(LapseAll) ==> |run.successors| == |open|)
      && (policy != Some(LapseAll) ==> forall i :: 0 <= i < |open| ==>
        var s, c := run.successors[i], open[i];
        && s.ref == c.ref + "#cf-" + to && s.period == to && s.state == Committed && s.carriedFrom == Some(c.ref)
        && s.original == c.original - c.liquidated - c.released == Outstanding(s)
        && s.liquidated == 0 && s.released == 0 && s.unencumbered == 0 && !s.overLiquidated)
  {
    OpenAre(cs, from);
    SuccessorsAre(OpenIn(cs, from), to);
    ClosedAre(OpenIn(cs, from), if policy == Some(LapseAll) then Lapsed else CarriedForward);
    hide OpenIn, Successors, Closed;
  }

  lemma {:induction false} OpenAre(cs: seq<Commitment>, from: string)
    ensures forall c :: c in OpenIn(cs, from) <==> c in cs && c.period == from && IsOpen(c)
  {
    if cs != [] {
      var m, last := cs[..|cs| - 1], cs[|cs| - 1];
      OpenAre(m, from);
      assert cs == m + [last];
    }
  }

  lemma {:induction false} SuccessorsAre(cs: seq<Commitment>, to: string)
    ensures |Successors(cs, to)| == |cs|
    ensures forall i :: 0 <= i < |cs| ==> Successors(cs, to)[i] == Successor(cs[i], to)
  {
    if cs != [] { SuccessorsAre(cs[..|cs| - 1], to); }
  }

  lemma {:induction false} ClosedAre(cs: seq<Commitment>, state: State)
    ensures |Closed(cs, state)| == |cs|
    ensures forall i :: 0 <= i < |cs| ==> Closed(cs, state)[i] == cs[i].(state := state)
  {
    if cs != [] { ClosedAre(cs[..|cs| - 1], state); }
  }

  lemma {:induction false} ClosedOutstanding(cs: seq<Commitment>, state: State)
    requires state == Lapsed || state == CarriedForward
    ensures OutstandingOf(Closed(cs, state)) == 0
  {
    if cs != [] {
      ClosedOutstanding(cs[..|cs| - 1], state);
      OutstandingAppend(Closed(cs[..|cs| - 1], state), cs[|cs| - 1].(state := state));
    }
  }

  lemma {:induction false} OutstandingJoined(a: seq<Commitment>, b: seq<Commitment>)
    ensures OutstandingOf(a + b) == OutstandingOf(a) + OutstandingOf(b)
  {
    if b == [] {
      assert a + b == a;
    } else {
      assert (a + b)[..|a + b| - 1] == a + b[..|b| - 1];
      OutstandingJoined(a, b[..|b| - 1]);
    }
  }

  lemma {:induction false} PlainJoined(a: seq<Entry>, b: seq<Entry>)
    ensures Plain(a + b) == Plain(a) + Plain(b)
  {
    if b == [] {
      assert a + b == a;
    } else {
      assert (a + b)[..|a + b| - 1] == a + b[..|b| - 1];
      PlainJoined(a, b[..|b| - 1]);
    }
  }

  /** Period end on the whole book: lapse-all removes exactly the amount it reports
      from what is outstanding; the other policies leave the total as it was. */
  lemma {:induction false} PeriodEnd(es: seq<Entry>, from: string, to: string, policy: Policy, unconsumed: int)
    ensures var run := CarryForward(Plain(es), from, to, Some(policy), unconsumed).value;
      OutstandingOf(Plain(Step(es, Carry(from, to, Some(policy))))) == OutstandingOf(Plain(es)) - run.lapsed
  {
    ClosingTakesOut(es, from, Lapsed);
    ClosingTakesOut(es, from, CarriedForward);
    BookTakesSuccessors(es, from, to);
    SuccessorsOutstanding(OpenIn(Plain(es), from), to);
    PlainJoined(ClosedBook(es, from, CarriedForward), Carried(es, from, to));
    OutstandingJoined(Plain(ClosedBook(es, from, CarriedForward)), Plain(Carried(es, from, to)));
    hide OutstandingOf, Plain, ClosedBook, Carried, OpenIn, Successors, Closed;
  }
}
