/** Depreciation epochs: a change of method begins after history and never
    recomputes it. */
module Epochs {
  import opened Options

  datatype Reason = Initial | LifeRevision | MethodRevision | ImpairmentRebasing | CorrectionOfError

  datatype Epoch = Epoch(from: int, charges: seq<int>, reason: Reason, authorization: Option<string>)

  datatype EpochRefusal = AuthorizationRequired | HistoryImmutable

  datatype EpochResult = Opened(epochs: seq<Epoch>) | Refused(refusal: EpochRefusal)

  /** The last period that an epoch governs, zero without epochs. */
  function LastEnd(epochs: seq<Epoch>): (end: int)
    ensures end >= 0
  {
    if epochs == [] then 0
    else
      var acc, e := LastEnd(epochs[..|epochs| - 1]), epochs[|epochs| - 1];
      if e.from + |e.charges| - 1 > acc then e.from + |e.charges| - 1 else acc
  }

  /** `openEpoch(priorEpochs, next)`. */
  function OpenEpoch(prior: seq<Epoch>, next: Epoch): EpochResult {
    if next.reason != Initial && next.authorization.None? then Refused(AuthorizationRequired)
    else if next.from <= LastEnd(prior) && prior != [] then Refused(HistoryImmutable)
    else Opened(prior + [next])
  }

  /** Opening is refused exactly for a change without authorization and for a start in
      a period that a prior epoch has reached, the opening of the books apart; otherwise
      the new epoch stands behind all others. */
  lemma {:induction false} OpensExactly(prior: seq<Epoch>, next: Epoch)
    ensures var r := OpenEpoch(prior, next);
      var late := prior != []
        && (next.from <= 0 || exists i :: 0 <= i < |prior| && next.from < prior[i].from + |prior[i].charges|);
      && (r == Refused(AuthorizationRequired) <==> next.reason != Initial && next.authorization.None?)
      && (r == Refused(HistoryImmutable) <==> r != Refused(AuthorizationRequired) && late)
      && (r.Opened? ==> r.epochs == prior + [next])
  {
    LastEndIs(prior);
    hide LastEnd;
  }

  lemma {:induction false} LastEndIs(epochs: seq<Epoch>)
    ensures forall i :: 0 <= i < |epochs| ==> epochs[i].from + |epochs[i].charges| - 1 <= LastEnd(epochs)
    ensures LastEnd(epochs) == 0
      || exists i :: 0 <= i < |epochs| && epochs[i].from + |epochs[i].charges| - 1 == LastEnd(epochs)
  {
    if epochs != [] {
      var m := epochs[..|epochs| - 1];
      LastEndIs(m);
      assert forall i :: 0 <= i < |m| ==> m[i] == epochs[i];
    }
  }

  ghost predicate Governs(e: Epoch, period: int) {
    0 <= period - e.from < |e.charges|
  }

  /** `chargeAt(epochs, period)`: the charge of the first epoch that governs it. */
  method ChargeAt(epochs: seq<Epoch>, period: int) returns (charge: Option<int>)
    ensures charge == Charge(epochs, period)
  {
    for k := 0 to |epochs|
      invariant forall j :: 0 <= j < k ==> !Governs(epochs[j], period)
    {
      var epoch := epochs[k];
      var offset := period - epoch.from;
      if offset >= 0 && offset < |epoch.charges| {
        FirstGoverns(epochs, period, k);
        return Some(epoch.charges[offset]);
      }
    }
    NoneGoverns(epochs, period);
    charge := None;
  }

  // ------------------------------------------------------------------- the schedule

  ghost function Charge(epochs: seq<Epoch>, period: int): Option<int> {
    if epochs == [] then None
    else
      var before, e := Charge(epochs[..|epochs| - 1], period), epochs[|epochs| - 1];
      if before.Some? then before else if Governs(e, period) then Some(e.charges[period - e.from]) else None
  }

  lemma {:induction false} NoneGoverns(epochs: seq<Epoch>, period: int)
    requires forall j :: 0 <= j < |epochs| ==> !Governs(epochs[j], period)
    ensures Charge(epochs, period) == None
  {
    if epochs != [] { NoneGoverns(epochs[..|epochs| - 1], period); }
  }

  lemma {:induction false} FirstGoverns(epochs: seq<Epoch>, period: int, k: nat)
    requires k < |epochs| && Governs(epochs[k], period) && forall j :: 0 <= j < k ==> !Governs(epochs[j], period)
    ensures Charge(epochs, period) == Some(epochs[k].charges[period - epochs[k].from])
  {
    if k == |epochs| - 1 {
      NoneGoverns(epochs[..k], period);
    } else {
      FirstGoverns(epochs[..|epochs| - 1], period, k);
    }
  }

  ghost function Run(openings: seq<Epoch>): seq<Epoch> {
    if openings == [] then []
    else
      var prior := Run(openings[..|openings| - 1]);
      match OpenEpoch(prior, openings[|openings| - 1])
      case Opened(epochs) => epochs
      case Refused(_) => prior
  }

  /** Every later epoch lies wholly after every earlier one. */
  ghost predicate InOrder(epochs: seq<Epoch>) {
    forall i, j :: 0 <= i < j < |epochs| ==> epochs[i].from + |epochs[i].charges| - 1 < epochs[j].from
  }

  lemma {:induction false} LastEndBounds(epochs: seq<Epoch>)
    ensures forall i :: 0 <= i < |epochs| ==> epochs[i].from + |epochs[i].charges| - 1 <= LastEnd(epochs)
  {
    if epochs != [] { LastEndBounds(epochs[..|epochs| - 1]); }
  }

  lemma {:induction false} RunInOrder(openings: seq<Epoch>)
    ensures InOrder(Run(openings))
  {
    if openings != [] {
      RunInOrder(openings[..|openings| - 1]);
      LastEndBounds(Run(openings[..|openings| - 1]));
    }
  }

  lemma {:induction false} HistoryKept(openings: seq<Epoch>, k: nat, period: int)
    requires k <= |openings|
    ensures Run(openings[..k]) <= Run(openings)
    ensures Charge(Run(openings[..k]), period).Some? ==>
      Charge(Run(openings), period) == Charge(Run(openings[..k]), period)
    decreases |openings|
  {
    if k == |openings| {
      assert openings[..k] == openings;
    } else {
      var m := openings[..|openings| - 1];
      assert m[..k] == openings[..k];
      HistoryKept(m, k, period);
      var prior, next := Run(m), openings[|openings| - 1];
      assert (prior + [next])[..|prior|] == prior;
    }
  }

  /** A charge once read stays what it was, whatever is opened later. */
  lemma {:induction false} HistoryNeverRecomputes(openings: seq<Epoch>, k: nat, period: int)
    requires k <= |openings| && Charge(Run(openings[..k]), period).Some?
    ensures Charge(Run(openings), period) == Charge(Run(openings[..k]), period)
  {
    HistoryKept(openings, k, period);
  }

  lemma Apart(epochs: seq<Epoch>, i: nat, j: nat, period: int)
    requires InOrder(epochs) && i < j < |epochs|
    ensures !(Governs(epochs[i], period) && Governs(epochs[j], period))
  {
    assert epochs[i].from + |epochs[i].charges| - 1 < epochs[j].from;
  }

  /** No two epochs of a run govern one period, so the schedule is their
      concatenation: a period's charge is that of the one epoch that governs it. */
  lemma {:induction false} OneEpochGoverns(openings: seq<Epoch>, i: nat, period: int)
    requires i < |Run(openings)| && Governs(Run(openings)[i], period)
    ensures forall j :: 0 <= j < |Run(openings)| && Governs(Run(openings)[j], period) ==> j == i
    ensures Charge(Run(openings), period) == Some(Run(openings)[i].charges[period - Run(openings)[i].from])
  {
    RunInOrder(openings);
    var es := Run(openings);
    hide Run, Governs, InOrder;
    forall j | 0 <= j < |es| && Governs(es[j], period) ensures j == i {
      if j < i { Apart(es, j, i, period); } else if i < j { Apart(es, i, j, period); }
    }
    FirstGoverns(es, period, i);
  }
}
