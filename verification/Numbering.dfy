/** Gapless numbering: two-phase issue and the attestation over a series. */
module Numbering {
  import opened Options

  datatype Position =
    | Issued(value: int, documentId: string)
    | VoidInSequence(value: int, reason: string, attempted: string)

  datatype NumberSeries = NumberSeries(positions: seq<Position>, highWaterMark: int)

  const EMPTY_SERIES := NumberSeries([], 0)

  datatype IssueResult = Unbound | Numbered(series: NumberSeries, issuedValue: Option<int>)

  /** `issueNumber(series, commitSucceeds, documentId, failureReason)`. */
  function IssueNumber(series: Option<NumberSeries>, commits: bool, documentId: string, failure: string): IssueResult {
    if series.None? then Unbound
    else
      var value := series.value.highWaterMark + 1;
      var position := if commits then Issued(value, documentId) else VoidInSequence(value, failure, documentId);
      Numbered(NumberSeries(series.value.positions + [position], value), if commits then Some(value) else None)
  }

  // ------------------------------------------------------------------- attestation

  /** How many positions hold a value. */
  ghost function Count(ps: seq<Position>, v: int): nat {
    if ps == [] then 0 else Count(ps[..|ps| - 1], v) + if ps[|ps| - 1].value == v then 1 else 0
  }

  ghost function Lookup(m: map<int, int>, v: int): int {
    if v in m then m[v] else 0
  }

  /** `attestGapless(series)`: the holes are the values up to the mark that are not
      held by exactly one position, in order. */
  method AttestGapless(series: NumberSeries) returns (gapless: bool, holes: seq<int>)
    ensures forall v :: v in holes <==> 1 <= v <= series.highWaterMark && Count(series.positions, v) != 1
    ensures forall i, j :: 0 <= i < j < |holes| ==> holes[i] < holes[j]
    ensures gapless <==> forall v :: 1 <= v <= series.highWaterMark ==> Count(series.positions, v) == 1
  {
    var occupied: map<int, int> := map[];
    for k := 0 to |series.positions|
      invariant forall v :: Lookup(occupied, v) == Count(series.positions[..k], v)
    {
      var p := series.positions[k];
      assert series.positions[..k + 1][..k] == series.positions[..k];
      occupied := occupied[p.value := (if p.value in occupied then occupied[p.value] else 0) + 1];
    }
    assert series.positions[..|series.positions|] == series.positions;
    holes := [];
    var v := 1;
    while v <= series.highWaterMark
      invariant 1 <= v && (v == 1 || v <= series.highWaterMark + 1)
      invariant forall w :: w in holes <==> 1 <= w < v && Count(series.positions, w) != 1
      invariant forall i, j :: 0 <= i < j < |holes| ==> holes[i] < holes[j]
    {
      assert Lookup(occupied, v) == Count(series.positions, v);
      if (if v in occupied then occupied[v] else 0) != 1 {
        assert forall i :: 0 <= i < |holes| ==> holes[i] in holes;
        holes := holes + [v];
      }
      v := v + 1;
    }
    gapless := |holes| == 0;
    if gapless {
      forall w | 1 <= w <= series.highWaterMark ensures Count(series.positions, w) == 1 { assert w !in holes; }
    } else {
      assert holes[0] in holes && Count(series.positions, holes[0]) != 1;
    }
  }

  // -------------------------------------------------------------------------- runs

  datatype Attempt = Attempt(commits: bool, documentId: string, failure: string)

  ghost function Run(attempts: seq<Attempt>): NumberSeries {
    if attempts == [] then EMPTY_SERIES
    else
      var a := attempts[|attempts| - 1];
      IssueNumber(Some(Run(attempts[..|attempts| - 1])), a.commits, a.documentId, a.failure).series
  }

  /** After any run of commits and failures the n-th attempt holds number n, issued
      or void as it went; nothing is reused or skipped. */
  lemma {:induction false} RunNumbers(attempts: seq<Attempt>)
    ensures var s := Run(attempts);
      && |s.positions| == s.highWaterMark == |attempts|
      && forall i :: 0 <= i < |attempts| ==>
        s.positions[i] == (if attempts[i].commits then Issued(i + 1, attempts[i].documentId)
                           else VoidInSequence(i + 1, attempts[i].failure, attempts[i].documentId))
  {
    if attempts != [] { RunNumbers(attempts[..|attempts| - 1]); }
  }

  /** An attempt after any run is told its own number exactly when it commits; without a
      series it is told that none is bound. */
  lemma {:induction false} NumberTold(attempts: seq<Attempt>, a: Attempt)
    ensures var r := IssueNumber(Some(Run(attempts)), a.commits, a.documentId, a.failure);
      && r.Numbered? && r.series == Run(attempts + [a])
      && r.issuedValue == if a.commits then Some(|attempts| + 1) else None
    ensures IssueNumber(None, a.commits, a.documentId, a.failure) == Unbound
  {
    RunNumbers(attempts);
    assert (attempts + [a])[..|attempts|] == attempts;
  }

  lemma {:induction false} CountConsecutive(ps: seq<Position>, v: int)
    requires forall i :: 0 <= i < |ps| ==> ps[i].value == i + 1
    ensures Count(ps, v) == if 1 <= v <= |ps| then 1 else 0
  {
    if ps != [] { CountConsecutive(ps[..|ps| - 1], v); }
  }

  /** Every run attests gapless. */
  lemma {:induction false} RunsAttest(attempts: seq<Attempt>, v: int)
    ensures 1 <= v <= Run(attempts).highWaterMark ==> Count(Run(attempts).positions, v) == 1
  {
    RunNumbers(attempts);
    CountConsecutive(Run(attempts).positions, v);
  }

  // ------------------------------------------------------ what the attestation means

  ghost function CountUpTo(ps: seq<Position>, n: int): nat {
    if ps == [] then 0 else CountUpTo(ps[..|ps| - 1], n) + if 1 <= ps[|ps| - 1].value <= n then 1 else 0
  }

  lemma {:induction false} CountSplits(ps: seq<Position>, n: int)
    requires n >= 1
    ensures CountUpTo(ps, n) == CountUpTo(ps, n - 1) + Count(ps, n)
  {
    if ps != [] { CountSplits(ps[..|ps| - 1], n); }
  }

  lemma {:induction false} CountAll(ps: seq<Position>, n: nat)
    requires forall v :: 1 <= v <= n ==> Count(ps, v) == 1
    ensures CountUpTo(ps, n) == n
  {
    if n == 0 {
      CountNone(ps);
    } else {
      CountAll(ps, n - 1);
      CountSplits(ps, n);
    }
  }

  lemma {:induction false} CountNone(ps: seq<Position>)
    ensures CountUpTo(ps, 0) == 0
  {
    if ps != [] { CountNone(ps[..|ps| - 1]); }
  }

  lemma {:induction false} CountInside(ps: seq<Position>, n: int)
    ensures CountUpTo(ps, n) <= |ps|
    ensures CountUpTo(ps, n) == |ps| <==> forall i :: 0 <= i < |ps| ==> 1 <= ps[i].value <= n
  {
    if ps != [] { CountInside(ps[..|ps| - 1], n); }
  }

  /** A gapless attestation says nothing about positions outside the mark: it
      accounts for every position exactly when there are as many as the mark says. */
  lemma GaplessAccountsForAll(s: NumberSeries)
    requires s.highWaterMark >= 0 && forall v :: 1 <= v <= s.highWaterMark ==> Count(s.positions, v) == 1
    ensures |s.positions| >= s.highWaterMark
    ensures |s.positions| == s.highWaterMark <==>
      forall i :: 0 <= i < |s.positions| ==> 1 <= s.positions[i].value <= s.highWaterMark
  {
    CountAll(s.positions, s.highWaterMark);
    CountInside(s.positions, s.highWaterMark);
  }
}
