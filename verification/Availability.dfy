/** What is available in a budget when channels may be incomplete or missing, and how
    every operation on the commitments moves it. */
module Availability {
  import opened Options
  import opened Commitments

  /** A channel of consumption or addition: a complete amount, an amount known to
      understate, or no amount at all. */
  datatype Channel =
    | Observed(minor: int)
    | Partial(minor: int, reason: string)
    | Unavailable(reason: string)

  datatype Inputs = Inputs(
    released: int,
    actuals: Channel,
    outstanding: Channel,
    transfers: Channel,
    carryForward: Channel)

  datatype Completeness = Complete | Incomplete | Undeterminable

  datatype Assessment = Assessment(completeness: Completeness, available: Option<int>, upperBound: Option<int>)

  function Amount(c: Channel): int {
    if c.Unavailable? then 0 else c.minor
  }

  function Equation(i: Inputs): int {
    i.released - Amount(i.actuals) - Amount(i.outstanding) + Amount(i.transfers) + Amount(i.carryForward)
  }

  /** `availability(inputs)`. */
  function Assess(i: Inputs): Assessment {
    if i.actuals.Unavailable? || i.outstanding.Unavailable? || i.transfers.Unavailable? || i.carryForward.Unavailable?
    then Assessment(Undeterminable, None, None)
    else if !(i.actuals.Partial? || i.outstanding.Partial? || i.transfers.Partial? || i.carryForward.Partial?)
    then Assessment(Complete, Some(Equation(i)), None)
    else if i.transfers.Partial? || i.carryForward.Partial?
    then Assessment(Incomplete, None, None)
    else Assessment(Incomplete, None, Some(Equation(i)))
  }

  // ------------------------------------------------------- what the figures claim

  /** The amounts as they really are. */
  datatype Truth = Truth(actuals: int, outstanding: int, transfers: int, carryForward: int)

  /** A partial channel shows at most the real amount; an unavailable one says
      nothing. */
  ghost predicate Allows(c: Channel, amount: int) {
    match c
    case Observed(minor) => amount == minor
    case Partial(minor, _) => amount >= minor
    case Unavailable(_) => true
  }

  ghost predicate Possible(i: Inputs, t: Truth) {
    && Allows(i.actuals, t.actuals) && Allows(i.outstanding, t.outstanding)
    && Allows(i.transfers, t.transfers) && Allows(i.carryForward, t.carryForward)
  }

  ghost function Really(i: Inputs, t: Truth): int {
    i.released - t.actuals - t.outstanding + t.transfers + t.carryForward
  }

  /** The channels at their shown amounts. */
  ghost function Shown(i: Inputs): (t: Truth)
    ensures Possible(i, t) && Really(i, t) == Equation(i)
  {
    Truth(Amount(i.actuals), Amount(i.outstanding), Amount(i.transfers), Amount(i.carryForward))
  }

  ghost predicate Exceeds(i: Inputs, v: int) {
    exists t :: Possible(i, t) && Really(i, t) > v
  }

  /** No figure covers every possible truth from above. */
  ghost predicate Unbounded(i: Inputs) {
    forall v: int :: Exceeds(i, v)
  }

  /** Some amounts that add `more` to what is shown: a channel that is not observed takes
      it up, additions first. */
  ghost function Raised(i: Inputs, more: nat): Truth {
    var t := Shown(i);
    if !i.transfers.Observed? then t.(transfers := t.transfers + more)
    else if !i.carryForward.Observed? then t.(carryForward := t.carryForward + more)
    else if i.actuals.Unavailable? then t.(actuals := t.actuals - more)
    else t.(outstanding := t.outstanding - more)
  }

  ghost predicate Raisable(i: Inputs) {
    !i.transfers.Observed? || !i.carryForward.Observed? || i.actuals.Unavailable? || i.outstanding.Unavailable?
  }

  lemma RaisableIsUnbounded(i: Inputs)
    requires Raisable(i)
    ensures Unbounded(i)
  {
    forall v: int ensures Exceeds(i, v) {
      var more := if v >= Equation(i) then v - Equation(i) + 1 else 1;
      assert Possible(i, Raised(i, more)) && Really(i, Raised(i, more)) > v;
    }
  }

  /** A figure is given as available exactly when it is the only one possible. */
  lemma AvailableIsCertain(i: Inputs, v: int)
    ensures Assess(i).available == Some(v) <==> forall t :: Possible(i, t) ==> Really(i, t) == v
  {
    var t := Shown(i);
    if Raisable(i) {
      var u := Raised(i, 1);
      assert Possible(i, u) && Really(i, u) != Really(i, t);
    } else if i.actuals.Partial? {
      var u := t.(actuals := t.actuals + 1);
      assert Possible(i, u) && Really(i, u) != Really(i, t);
    } else if i.outstanding.Partial? {
      var u := t.(outstanding := t.outstanding + 1);
      assert Possible(i, u) && Really(i, u) != Really(i, t);
    }
  }

  /** A bound is given exactly when nothing is certain and a bound exists, and then it
      is the least one. */
  lemma BoundIsLeast(i: Inputs)
    ensures Assess(i).upperBound.Some? <==> Assess(i).available.None? && !Unbounded(i)
    ensures Assess(i).upperBound.Some? ==> var v := Assess(i).upperBound.value;
      && (forall t :: Possible(i, t) ==> Really(i, t) <= v)
      && (exists t :: Possible(i, t) && Really(i, t) == v)
  {
    if Raisable(i) {
      RaisableIsUnbounded(i);
    } else {
      assert forall t :: Possible(i, t) ==> Really(i, t) <= Equation(i);
      assert Possible(i, Shown(i)) && Really(i, Shown(i)) == Equation(i);
      assert !Exceeds(i, Equation(i));
    }
  }

  // ------------------------------------------------------------ the book's channels

  /** What a commitment takes from its envelope: invoiced, or still outstanding. */
  ghost function Consumption(c: Commitment): int {
    Billed(c) + Outstanding(c)
  }

  ghost function ConsumedBy(es: seq<Entry>): int {
    if es == [] then 0 else ConsumedBy(es[..|es| - 1]) + Consumption(es[|es| - 1].c)
  }

  /** What is invoiced in a book: liquidated and beside the commitments. */
  ghost function BilledIn(es: seq<Entry>): int {
    if es == [] then 0 else BilledIn(es[..|es| - 1]) + Billed(es[|es| - 1].c)
  }

  /** A budget that observes its book: actuals are what is invoiced on it. */
  ghost function OfBook(released: int, transfers: int, carryForward: int, es: seq<Entry>): Inputs {
    Inputs(released, Observed(BilledIn(es)), Observed(OutstandingOf(Plain(es))), Observed(transfers),
           Observed(carryForward))
  }

  lemma {:induction false} ConsumedIs(es: seq<Entry>)
    ensures ConsumedBy(es) == BilledIn(es) + OutstandingOf(Plain(es))
  {
    hide Billed, Outstanding;
    if es != [] {
      ConsumedIs(es[..|es| - 1]);
      OutstandingLast(es);
    }
  }

  lemma BookAvailable(released: int, transfers: int, carryForward: int, es: seq<Entry>)
    ensures Assess(OfBook(released, transfers, carryForward, es)).available
      == Some(released - ConsumedBy(es) + transfers + carryForward)
  {
    ConsumedIs(es);
  }

  // ------------------------------------------------------------- one operation's move

  lemma {:induction false} ConsumedJoined(a: seq<Entry>, b: seq<Entry>)
    ensures ConsumedBy(a + b) == ConsumedBy(a) + ConsumedBy(b)
  {
    hide Consumption;
    if b == [] {
      assert a + b == a;
    } else {
      var m := b[..|b| - 1];
      assert (a + b)[..|a + b| - 1] == a + m;
      ConsumedJoined(a, m);
    }
  }

  lemma {:induction false} ConsumedAt(es: seq<Entry>, k: nat, c: Commitment)
    requires k < |es|
    ensures ConsumedBy(es[k := Entry(c, es[k].root)]) == ConsumedBy(es) + Consumption(c) - Consumption(es[k].c)
  {
    hide Consumption;
    var a, e, b := es[..k], es[k], es[k + 1..];
    var e' := Entry(c, e.root);
    assert es == (a + [e]) + b && es[k := e'] == (a + [e']) + b;
    ConsumedJoined(a + [e], b);
    ConsumedJoined(a + [e'], b);
    assert (a + [e])[..|a|] == a && (a + [e'])[..|a|] == a;
  }

  lemma {:induction false} ConsumedClosed(es: seq<Entry>, from: string, state: State)
    requires state == Lapsed || state == CarriedForward
    ensures ConsumedBy(ClosedBook(es, from, state)) == ConsumedBy(es) - OutstandingOf(OpenIn(Plain(es), from))
  {
    if es != [] {
      var m, e := es[..|es| - 1], es[|es| - 1];
      var t := ClosedBook(m, from, state);
      ConsumedClosed(m, from, state);
      LastClosed(es, from, state);
      OpenLast(es, from);
      ClosedConsumes(e.c, state);
      hide ClosedBook, OutstandingOf, OpenIn, Plain, Closing, Consumption, Outstanding;
      var e' := if Closing(e, from) then Entry(e.c.(state := state), e.root) else e;
      assert (t + [e'])[..|t|] == t;
    }
  }

  lemma ClosedConsumes(c: Commitment, state: State)
    requires state == Lapsed || state == CarriedForward
    ensures Consumption(c.(state := state)) == Consumption(c) - Outstanding(c)
  {
  }

  lemma SuccessorConsumes(c: Commitment, to: string)
    ensures Consumption(Successor(c, to)) == Outstanding(c)
  {
  }

  lemma {:induction false} ConsumedCarried(es: seq<Entry>, from: string, to: string)
    ensures ConsumedBy(Carried(es, from, to)) == OutstandingOf(OpenIn(Plain(es), from))
  {
    if es != [] {
      var m, e := es[..|es| - 1], es[|es| - 1];
      var s := Carried(m, from, to);
      ConsumedCarried(m, from, to);
      OpenLast(es, from);
      SuccessorConsumes(e.c, to);
      assert Carried(es, from, to) == s + if Closing(e, from) then [Entry(Successor(e.c, to), e.root)] else [];
      hide Carried, OutstandingOf, OpenIn, Plain, Closing, Consumption, Outstanding, Successor;
      if Closing(e, from) {
        assert (s + [Entry(Successor(e.c, to), e.root)])[..|s|] == s;
      } else {
        assert s + [] == s;
      }
    }
  }

  /** What an operation adds to availability: nothing for an invoice within the
      commitment, less the excess of one beyond it, and all that was outstanding for a
      release or a lapse. */
  ghost function Move(es: seq<Entry>, a: Action): int {
    match a
    case Liquidate(k, invoice) =>
      if k >= |es| || ApplyLiquidation(es[k].c, invoice).Refused? || invoice <= Outstanding(es[k].c) then 0
      else Outstanding(es[k].c) - invoice
    case Release(k) => if k < |es| then Outstanding(es[k].c) else 0
    case Carry(from, _, policy) => if policy == Some(LapseAll) then OutstandingOf(OpenIn(Plain(es), from)) else 0
  }

  lemma {:induction false} StepMoves(es: seq<Entry>, a: Action)
    ensures ConsumedBy(Step(es, a)) == ConsumedBy(es) - Move(es, a)
  {
    hide ConsumedBy, ClosedBook, Carried, OutstandingOf, OpenIn, Plain;
    match a
    case Liquidate(k, invoice) =>
      if k < |es| {
        var d := ApplyLiquidation(es[k].c, invoice);
        if d.Ok? { ConsumedAt(es, k, d.value); }
      }
    case Release(k) =>
      if k < |es| {
        var d := ReleaseCommitment(es[k].c);
        if d.Ok? { ConsumedAt(es, k, d.value); }
      }
    case Carry(from, to, policy) =>
      ConsumedClosed(es, from, Lapsed);
      ConsumedClosed(es, from, CarriedForward);
      ConsumedCarried(es, from, to);
      ConsumedJoined(ClosedBook(es, from, CarriedForward), Carried(es, from, to));
  }

  /** Neutral: a legal liquidation leaves what is available as it was exactly when the
      invoice does not exceed what is outstanding. */
  lemma LiquidationIsNeutral(released: int, transfers: int, carryForward: int, es: seq<Entry>, k: nat, invoice: int)
    requires k < |es| && ApplyLiquidation(es[k].c, invoice).Ok?
    ensures var before := Assess(OfBook(released, transfers, carryForward, es)).available;
      var after := Assess(OfBook(released, transfers, carryForward, Step(es, Liquidate(k, invoice)))).available;
      && before.Some? && after.Some?
      && (after == before <==> invoice <= Outstanding(es[k].c))
      && after.value <= before.value
  {
    StepMoves(es, Liquidate(k, invoice));
    BookAvailable(released, transfers, carryForward, es);
    BookAvailable(released, transfers, carryForward, Step(es, Liquidate(k, invoice)));
    hide Assess, OfBook, Step, Outstanding;
  }

  // ------------------------------------------------------------------------- runs

  ghost function Moves(es: seq<Entry>, actions: seq<Action>): int {
    if actions == [] then 0
    else
      var m := actions[..|actions| - 1];
      Moves(es, m) + Move(After(es, m), actions[|actions| - 1])
  }

  lemma {:induction false} RunMoves(es: seq<Entry>, actions: seq<Action>)
    ensures ConsumedBy(After(es, actions)) == ConsumedBy(es) - Moves(es, actions)
  {
    hide Step, Move, ConsumedBy;
    if actions != [] {
      RunMoves(es, actions[..|actions| - 1]);
      StepMoves(After(es, actions[..|actions| - 1]), actions[|actions| - 1]);
    }
  }

  /** Over every run what is available moves by exactly the excess invoices, the
      releases and the lapses. */
  lemma {:induction false} AvailabilityAccountedFor(released: int, transfers: int, carryForward: int, es: seq<Entry>,
                                                    actions: seq<Action>)
    ensures var before := Assess(OfBook(released, transfers, carryForward, es)).available;
      var after := Assess(OfBook(released, transfers, carryForward, After(es, actions))).available;
      before.Some? && after == Some(before.value + Moves(es, actions))
  {
    RunMoves(es, actions);
    BookAvailable(released, transfers, carryForward, es);
    BookAvailable(released, transfers, carryForward, After(es, actions));
    hide Assess, OfBook, After, Moves;
  }
}
