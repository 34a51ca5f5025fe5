/** Depreciation schedules: the cumulative ones with their single rounding
    boundary, and declining balance with its switch to straight line. */
module Schedules {
  import opened Options
  import opened BigInts
  import opened Rounding

  /** Cumulative depreciation through a period, at full precision. */
  datatype Cumulative = Cumulative(num: int, den: int)

  ghost function SumFirst(charges: seq<int>, k: nat): int
    requires k <= |charges|
  {
    if k == 0 then 0 else SumFirst(charges, k - 1) + charges[k - 1]
  }

  lemma {:induction false} SumFirstOfPrefix(charges: seq<int>, more: seq<int>, k: nat)
    requires k <= |charges|
    ensures SumFirst(charges + more, k) == SumFirst(charges, k)
  {
    if k > 0 { SumFirstOfPrefix(charges, more, k - 1); }
  }

  // ----------------------------------------------------- one rounding boundary

  /** The cumulative amount through period `n`, rounded; nothing before period 1. */
  ghost function RoundedThrough(c: nat -> Cumulative, n: nat, mode: Mode): int
    requires n > 0 ==> c(n).den > 0
  {
    if n == 0 then 0 else DivideAndRound(c(n).num, c(n).den, mode)
  }

  /** `scheduleFromCumulative(cumulative, totalPeriods, mode)`: every prefix of the
      charges sums to the rounded cumulative amount, so no residue is ever plugged. */
  method ScheduleFromCumulative(c: nat -> Cumulative, totalPeriods: nat, mode: Mode) returns (charges: seq<int>)
    requires forall n: nat :: 1 <= n <= totalPeriods ==> c(n).den > 0
    ensures |charges| == totalPeriods
    ensures forall k: nat :: k <= totalPeriods ==> SumFirst(charges, k) == RoundedThrough(c, k, mode)
  {
    hide DivideAndRound;
    charges := [];
    var previous := 0;
    for i := 0 to totalPeriods
      invariant |charges| == i && previous == RoundedThrough(c, i, mode)
      invariant forall k: nat :: k <= i ==> SumFirst(charges, k) == RoundedThrough(c, k, mode)
    {
      var amount := c(i + 1);
      var rounded := DivideAndRound(amount.num, amount.den, mode);
      forall k: nat | k <= i ensures SumFirst(charges + [rounded - previous], k) == SumFirst(charges, k) {
        SumFirstOfPrefix(charges, [rounded - previous], k);
      }
      charges := charges + [rounded - previous];
      previous := rounded;
    }
  }

  /** A cumulative function over one denominator that starts non-negative, never
      falls, and ends at the base. */
  ghost predicate RunsUpTo(c: nat -> Cumulative, totalPeriods: nat, base: int) {
    && totalPeriods >= 1
    && (forall n: nat :: 1 <= n <= totalPeriods ==> c(n).den == c(1).den > 0)
    && c(1).num >= 0
    && (forall n: nat :: 1 <= n < totalPeriods ==> c(n).num <= c(n + 1).num)
    && c(totalPeriods).num == base * c(totalPeriods).den
  }

  /** Any schedule with the prefix property of such a function has non-negative
      charges that sum exactly to the base, in every rounding mode. */
  lemma {:induction false} ScheduleIsExact(c: nat -> Cumulative, totalPeriods: nat, mode: Mode, base: int,
                                           charges: seq<int>)
    requires RunsUpTo(c, totalPeriods, base) && |charges| == totalPeriods
    requires forall k: nat :: k <= totalPeriods ==> SumFirst(charges, k) == RoundedThrough(c, k, mode)
    ensures SumFirst(charges, totalPeriods) == base
    ensures forall i :: 0 <= i < totalPeriods ==> charges[i] >= 0
  {
    hide DivideAndRound;
    WholeQuotient(base, c(totalPeriods).den, mode);
    forall i | 0 <= i < totalPeriods ensures charges[i] >= 0 {
      assert SumFirst(charges, i + 1) == SumFirst(charges, i) + charges[i];
      if i == 0 {
        WholeQuotient(0, c(1).den, mode);
        DivideAndRoundMonotone(0, c(1).num, c(1).den, mode);
      } else {
        DivideAndRoundMonotone(c(i).num, c(i + 1).num, c(i).den, mode);
      }
    }
  }

  // ---------------------------------------------------------------- straight line

  function StraightLineC(base: int, totalPeriods: nat): nat -> Cumulative {
    (n: nat) => Cumulative(base * (if n >= totalPeriods then totalPeriods else n), totalPeriods)
  }

  /** The straight-line function takes the base in equal steps. */
  lemma StraightLineSteps(base: int, totalPeriods: nat, n: nat)
    requires n < totalPeriods
    ensures var c := StraightLineC(base, totalPeriods);
      c(n).den == totalPeriods && c(0).num == 0 && c(n + 1).num - c(n).num == base
  {
    assert base * (n + 1) == base * n + base;
  }

  lemma StraightLineRuns(base: int, totalPeriods: nat)
    requires base >= 0 && totalPeriods >= 1
    ensures RunsUpTo(StraightLineC(base, totalPeriods), totalPeriods, base)
  {
    forall n: nat | 1 <= n < totalPeriods ensures base * n <= base * (n + 1) {
      assert base * (n + 1) == base * n + base;
    }
  }

  // ---------------------------------------------------------- sum of years' digits

  /** The digits of the first `k` years: life, life - 1, ... */
  function DigitsThrough(life: nat, k: nat): int {
    if k == 0 then 0 else DigitsThrough(life, k - 1) + (life - k + 1)
  }

  method DigitsLoop(life: nat, capped: nat) returns (numerator: int)
    ensures numerator == DigitsThrough(life, capped)
  {
    numerator := 0;
    for i := 1 to capped + 1
      invariant numerator == DigitsThrough(life, i - 1)
    {
      numerator := numerator + (life - i + 1);
    }
  }

  lemma {:induction false} DigitsClosedForm(life: nat, k: nat)
    ensures 2 * DigitsThrough(life, k) == k * (2 * life - k + 1)
  {
    if k > 0 {
      DigitsClosedForm(life, k - 1);
      assert (k - 1) * (2 * life - (k - 1) + 1) + 2 * (life - k + 1) == k * (2 * life - k + 1);
    }
  }

  function SumOfYearsDigitsC(base: int, life: nat): nat -> Cumulative {
    (n: nat) => Cumulative(base * DigitsThrough(life, if n >= life then life else n), life * (life + 1) / 2)
  }

  /** Year by year the sum-of-years-digits function takes the base by the digits of the
      years, the life itself first and one last, over the sum of them all. */
  lemma {:induction false} DigitSteps(base: int, life: nat, n: nat)
    requires n < life
    ensures var c := SumOfYearsDigitsC(base, life);
      && c(0).num == 0
      && c(n + 1).num - c(n).num == base * (life - n)
      && 2 * c(n).den == life * (life + 1)
  {
    assert DigitsThrough(life, n + 1) == DigitsThrough(life, n) + (life - n);
    hide DigitsThrough;
    StepTimes(base, DigitsThrough(life, n), life - n);
    EvenProduct(life);
    assert base * DigitsThrough(life, 0) == 0 by { assert DigitsThrough(life, 0) == 0; }
  }

  lemma StepTimes(base: int, d: int, more: int)
    ensures base * (d + more) - base * d == base * more
  {
  }

  lemma EvenProduct(n: nat)
    ensures 2 * (n * (n + 1) / 2) == n * (n + 1)
  {
    var k := n / 2;
    if n % 2 == 0 {
      Doubled(k, n + 1);
      Halved(n * (n + 1), k * (n + 1));
    } else {
      Doubled(k + 1, n);
      Halved(n * (n + 1), (k + 1) * n);
    }
  }

  lemma Doubled(k: int, m: int)
    ensures (2 * k) * m == 2 * (k * m) && m * (2 * k) == 2 * (k * m)
  {
  }

  lemma Halved(p: int, q: int)
    requires p == 2 * q
    ensures 2 * (p / 2) == p
  {
  }

  /** The digits of all years make up exactly the denominator. */
  lemma {:induction false} DigitsOfAllYears(life: nat)
    ensures DigitsThrough(life, life) == life * (life + 1) / 2
    ensures life >= 1 ==> life * (life + 1) / 2 > 0
  {
    DigitsClosedForm(life, life);
    assert 2 * life - life + 1 == life + 1;
    if life >= 1 { MulBounds(life + 1, life); }
  }

  lemma {:induction false} DigitsNonNegative(life: nat, k: nat)
    requires k <= life
    ensures DigitsThrough(life, k) >= 0
  {
    if k > 0 { DigitsNonNegative(life, k - 1); }
  }

  lemma {:induction false} DigitsRise(base: int, life: nat, n: nat)
    requires base >= 0 && 1 <= n < life
    ensures base * DigitsThrough(life, n) <= base * DigitsThrough(life, n + 1)
  {
    assert DigitsThrough(life, n + 1) == DigitsThrough(life, n) + (life - n);
    hide DigitsThrough;
    RisesBy(base, DigitsThrough(life, n), life - n);
  }

  lemma RisesBy(base: int, d: int, more: nat)
    requires base >= 0
    ensures base * d <= base * (d + more)
  {
    MulBounds(more, base);
    assert base * (d + more) == base * d + more * base;
  }

  lemma SumOfYearsDigitsRuns(base: int, life: nat)
    requires base >= 0 && life >= 1
    ensures RunsUpTo(SumOfYearsDigitsC(base, life), life, base)
  {
    DigitsOfAllYears(life);
    DigitsNonNegative(life, 1);
    hide DigitsThrough;
    MulBounds(DigitsThrough(life, 1), base);
    var c := SumOfYearsDigitsC(base, life);
    assert forall n: nat :: 1 <= n <= life ==> c(n) == Cumulative(base * DigitsThrough(life, n), life * (life + 1) / 2);
    hide SumOfYearsDigitsC;
    forall n: nat | 1 <= n < life ensures c(n).num <= c(n + 1).num { DigitsRise(base, life, n); }
  }

  // ------------------------------------------------------------- declining balance

  datatype Asset = Asset(cost: int, residual: int, life: nat, factorPercent: int, mode: Mode)

  /** The declining-balance charge on a carrying amount. */
  function DbCharge(a: Asset, carrying: int): int
    requires a.life > 0
  {
    DivideAndRound(carrying * a.factorPercent, a.life * 100, a.mode)
  }

  /** The straight-line charge over the periods left in period `n`. */
  function SlCharge(a: Asset, carrying: int, n: nat): int
    requires 1 <= n <= a.life
  {
    DivideAndRound(carrying - a.residual, a.life - n + 1, a.mode)
  }

  /** Never below the residual, never negative. */
  function Floored(a: Asset, carrying: int, charge: int): int {
    var c := if carrying - charge < a.residual then carrying - a.residual else charge;
    if c < 0 then 0 else c
  }

  /** What is still on the books after the first `k` charges. */
  ghost function CarryingAfter(a: Asset, charges: seq<int>, k: nat): int
    requires k <= |charges|
  {
    a.cost - SumFirst(charges, k)
  }

  /** Switched in or before period `n`. */
  predicate SwitchedBy(switchPeriod: Option<nat>, n: nat) {
    switchPeriod.Some? && switchPeriod.value <= n
  }

  /** Charge and switch of one period, given those before it. */
  ghost predicate PeriodRuns(a: Asset, charges: seq<int>, switchPeriod: Option<nat>, n: nat)
    requires 1 <= n <= |charges| && n <= a.life
  {
    var carrying := CarryingAfter(a, charges, n - 1);
    var db, sl := DbCharge(a, carrying), SlCharge(a, carrying, n);
    && charges[n - 1] == Floored(a, carrying, if SwitchedBy(switchPeriod, n) then sl else db)
    && (!SwitchedBy(switchPeriod, n) ==> sl <= db)
    && (switchPeriod == Some(n) ==> sl > db)
  }

  /** One period in the terms of its charges alone. From the carrying amount before it,
      `db` is the declining-balance amount and `sl` the straight-line one, each rounded
      once in the stated mode; the amount charged stops at the residual and at zero. */
  ghost predicate PeriodMeets(a: Asset, charges: seq<int>, switchPeriod: Option<nat>, n: nat, db: int, sl: int)
    requires 1 <= n <= |charges| && n <= a.life
  {
    var carrying := a.cost - SumFirst(charges, n - 1);
    var switched := switchPeriod.Some? && switchPeriod.value <= n;
    var most := if carrying > a.residual then carrying - a.residual else 0;
    && RoundsTo(carrying * a.factorPercent, a.life * 100, a.mode, db)
    && RoundsTo(carrying - a.residual, a.life - n + 1, a.mode, sl)
    && var due := if switched then sl else db;
    && charges[n - 1] == (if due < 0 then 0 else if due > most then most else due)
    && (!switched ==> sl <= db)
    && (switchPeriod == Some(n) ==> sl > db)
  }

  ghost predicate PeriodMet(a: Asset, charges: seq<int>, switchPeriod: Option<nat>, n: nat)
    requires 1 <= n <= |charges| && n <= a.life
  {
    exists db, sl :: PeriodMeets(a, charges, switchPeriod, n, db, sl)
  }

  lemma ChargesMeet(a: Asset, carrying: int, n: nat)
    requires 1 <= n <= a.life
    ensures RoundsTo(carrying * a.factorPercent, a.life * 100, a.mode, DbCharge(a, carrying))
    ensures RoundsTo(carrying - a.residual, a.life - n + 1, a.mode, SlCharge(a, carrying, n))
  {
    DivideAndRoundMeets(carrying * a.factorPercent, a.life * 100, a.mode);
    DivideAndRoundMeets(carrying - a.residual, a.life - n + 1, a.mode);
    hide DivideAndRound, RoundsTo;
  }

  lemma RunsMeets(a: Asset, charges: seq<int>, s: Option<nat>, n: nat)
    requires 1 <= n <= |charges| && n <= a.life && PeriodRuns(a, charges, s, n)
    ensures PeriodMet(a, charges, s, n)
  {
    var carrying := CarryingAfter(a, charges, n - 1);
    ChargesMeet(a, carrying, n);
    hide DbCharge, SlCharge, RoundsTo;
    assert PeriodMeets(a, charges, s, n, DbCharge(a, carrying), SlCharge(a, carrying, n));
  }

  lemma RoundsOnce(num: int, den: int, mode: Mode, x: int, y: int)
    requires den > 0 && RoundsTo(num, den, mode, x) && RoundsTo(num, den, mode, y)
    ensures x == y
  {
    hide RoundsTo;
    RoundsToMonotone(num, num, den, mode, x, y);
    RoundsToMonotone(num, num, den, mode, y, x);
  }

  /** Behind the same charges and with the switch equally made or open, the terms of a
      period leave no choice. */
  lemma PeriodTells(a: Asset, charges: seq<int>, others: seq<int>, s: Option<nat>, t: Option<nat>, n: nat)
    requires 1 <= n <= |charges| && n <= |others| && n <= a.life && charges[..n - 1] == others[..n - 1]
    requires SwitchedBy(s, n - 1) <==> SwitchedBy(t, n - 1)
    requires PeriodMet(a, charges, s, n) && PeriodMet(a, others, t, n)
    ensures charges[n - 1] == others[n - 1] && (SwitchedBy(s, n) <==> SwitchedBy(t, n))
  {
    hide RoundsTo;
    var db, sl :| PeriodMeets(a, charges, s, n, db, sl);
    var db', sl' :| PeriodMeets(a, others, t, n, db', sl');
    SameSums(charges, others, n - 1);
    var carrying := a.cost - SumFirst(charges, n - 1);
    RoundsOnce(carrying * a.factorPercent, a.life * 100, a.mode, db, db');
    RoundsOnce(carrying - a.residual, a.life - n + 1, a.mode, sl, sl');
  }

  lemma {:induction false} SameSums(a: seq<int>, b: seq<int>, n: nat)
    requires n <= |a| && n <= |b| && a[..n] == b[..n]
    ensures SumFirst(a, n) == SumFirst(b, n)
  {
    if n > 0 {
      assert a[..n][n - 1] == b[..n][n - 1];
      assert a[..n][..n - 1] == a[..n - 1] && b[..n][..n - 1] == b[..n - 1];
      SameSums(a, b, n - 1);
    }
  }

  /** The terms of the periods leave one schedule: its charges and its switch. */
  lemma {:induction false} TermsTell(a: Asset, charges: seq<int>, others: seq<int>, s: Option<nat>, t: Option<nat>,
                                     n: nat)
    requires |charges| == |others| == a.life && n <= a.life
    requires s.Some? ==> 1 <= s.value <= a.life
    requires t.Some? ==> 1 <= t.value <= a.life
    requires forall k: nat :: 1 <= k <= a.life ==> PeriodMet(a, charges, s, k) && PeriodMet(a, others, t, k)
    ensures charges[..n] == others[..n] && (SwitchedBy(s, n) <==> SwitchedBy(t, n))
    ensures SwitchedBy(s, n) ==> s == t
    ensures n == a.life ==> charges == others && s == t
  {
    hide PeriodMet;
    if n > 0 {
      TermsTell(a, charges, others, s, t, n - 1);
      PeriodTells(a, charges, others, s, t, n);
      assert charges[..n] == charges[..n - 1] + [charges[n - 1]];
      assert others[..n] == others[..n - 1] + [others[n - 1]];
    }
    if n == a.life { assert charges[..n] == charges && others[..n] == others; }
  }

  lemma PeriodOfPrefix(a: Asset, charges: seq<int>, more: seq<int>, s: Option<nat>, s': Option<nat>, n: nat)
    requires 1 <= n <= |charges| && n <= a.life && PeriodRuns(a, charges, s, n)
    requires s' == s || (s == None && s'.Some? && s'.value > n)
    ensures PeriodRuns(a, charges + more, s', n)
  {
    hide DbCharge, SlCharge, Floored;
    SumFirstOfPrefix(charges, more, n - 1);
  }

  /** `decliningBalanceSchedule(input)`: every period's charge follows from the
      carrying amount before it, and the switch is the first period in which straight
      line would charge more. */
  method DecliningBalanceSchedule(a: Asset) returns (charges: seq<int>, switchPeriod: Option<nat>)
    ensures |charges| == a.life
    ensures switchPeriod.Some? ==> 1 <= switchPeriod.value <= a.life
    ensures forall n: nat :: 1 <= n <= a.life ==> PeriodMet(a, charges, switchPeriod, n)
    ensures IsSchedule(a, charges, switchPeriod)
  {
    hide DbCharge, SlCharge, Floored, PeriodRuns, PeriodMet;
    charges := [];
    var carrying := a.cost;
    switchPeriod := None;
    for i := 0 to a.life
      invariant |charges| == i && carrying == CarryingAfter(a, charges, i)
      invariant switchPeriod.Some? ==> 1 <= switchPeriod.value <= i
      invariant forall n: nat :: 1 <= n <= i ==> PeriodRuns(a, charges, switchPeriod, n)
    {
      ghost var before, switched := charges, switchPeriod;
      var n := i + 1;
      var dbCharge := DbCharge(a, carrying);
      var slCharge := SlCharge(a, carrying, n);
      if switchPeriod.None? && slCharge > dbCharge {
        switchPeriod := Some(n);
      }
      var charge := Floored(a, carrying, if switchPeriod.Some? then slCharge else dbCharge);
      charges := charges + [charge];
      SumFirstOfPrefix(before, [charge], i);
      forall k: nat | 1 <= k <= i ensures PeriodRuns(a, charges, switchPeriod, k) {
        PeriodOfPrefix(a, before, [charge], switched, switchPeriod, k);
      }
      NewPeriod(a, charges, switchPeriod, n);
      carrying := carrying - charge;
    }
    forall n: nat | 1 <= n <= a.life ensures PeriodMet(a, charges, switchPeriod, n) {
      RunsMeets(a, charges, switchPeriod, n);
    }
  }

  lemma NewPeriod(a: Asset, charges: seq<int>, s: Option<nat>, n: nat)
    requires n == |charges| && 1 <= n <= a.life && (s.Some? ==> s.value <= n)
    requires var carrying := CarryingAfter(a, charges, n - 1);
      var db, sl := DbCharge(a, carrying), SlCharge(a, carrying, n);
      && charges[n - 1] == Floored(a, carrying, if s.Some? then sl else db)
      && (s == None ==> sl <= db) && (s == Some(n) ==> sl > db)
    ensures PeriodRuns(a, charges, s, n)
  {
    hide DbCharge, SlCharge, Floored;
  }

  ghost predicate IsSchedule(a: Asset, charges: seq<int>, s: Option<nat>) {
    && |charges| == a.life
    && (s.Some? ==> 1 <= s.value <= a.life)
    && forall n: nat :: 1 <= n <= a.life ==> PeriodRuns(a, charges, s, n)
  }

  /** From a cost at or above the residual: no charge is negative and the carrying
      amount never falls below the residual. */
  lemma {:induction false} NeverBelowResidual(a: Asset, charges: seq<int>, s: Option<nat>, k: nat)
    requires IsSchedule(a, charges, s) && a.cost >= a.residual && k <= a.life
    ensures CarryingAfter(a, charges, k) >= a.residual
    ensures forall i :: 0 <= i < k ==> charges[i] >= 0
  {
    hide DbCharge, SlCharge;
    if k > 0 {
      NeverBelowResidual(a, charges, s, k - 1);
      assert PeriodRuns(a, charges, s, k);
    }
  }

  /** From a cost below the residual nothing is ever charged. */
  lemma {:induction false} NothingBelowResidual(a: Asset, charges: seq<int>, s: Option<nat>, k: nat)
    requires IsSchedule(a, charges, s) && a.cost < a.residual && k <= a.life
    ensures CarryingAfter(a, charges, k) == a.cost
    ensures forall i :: 0 <= i < k ==> charges[i] == 0
  {
    hide DbCharge, SlCharge;
    if k > 0 {
      NothingBelowResidual(a, charges, s, k - 1);
      assert PeriodRuns(a, charges, s, k);
    }
  }

  lemma LastStraightLine(a: Asset, carrying: int)
    requires a.life >= 1
    ensures SlCharge(a, carrying, a.life) == carrying - a.residual
  {
    WholeQuotient(carrying - a.residual, 1, a.mode);
  }

  /** Over at least one period the charges sum exactly to cost less residual,
      whatever the factor and the rounding mode, if and only if the cost is not
      below the residual. */
  lemma {:induction false} ChargesSumExactly(a: Asset, charges: seq<int>, s: Option<nat>)
    requires IsSchedule(a, charges, s) && a.life >= 1
    ensures SumFirst(charges, a.life) == a.cost - a.residual <==> a.cost >= a.residual
  {
    hide DbCharge, SlCharge;
    if a.cost >= a.residual {
      NeverBelowResidual(a, charges, s, a.life - 1);
      assert PeriodRuns(a, charges, s, a.life);
      LastStraightLine(a, CarryingAfter(a, charges, a.life - 1));
    } else {
      NothingBelowResidual(a, charges, s, a.life);
    }
  }

  // ---------------------------------------------------- level charges after the switch

  /** What is left to charge lies between `q` and `q + 1` a period. */
  ghost predicate Level(left: int, periods: int, q: int) {
    q * periods <= left <= q * periods + periods
  }

  lemma RoundStaysLevel(left: int, periods: int, q: int, mode: Mode)
    requires periods > 0 && Level(left, periods, q)
    ensures DivideAndRound(left, periods, mode) == q || DivideAndRound(left, periods, mode) == q + 1
    ensures Level(left - DivideAndRound(left, periods, mode), periods - 1, q)
  {
    hide DivideAndRound;
    var r := DivideAndRound(left, periods, mode);
    LevelStep(q, periods);
    var low, high := q * periods, (q + 1) * periods;
    WholeQuotient(q, periods, mode);
    WholeQuotient(q + 1, periods, mode);
    DivideAndRoundMonotone(low, left, periods, mode);
    DivideAndRoundMonotone(left, high, periods, mode);
  }

  lemma LevelStep(q: int, periods: int)
    ensures (q + 1) * periods == q * periods + periods
    ensures q * (periods - 1) == q * periods - q
  {
  }

  /** From the switch on, each charge is `q` or `q + 1` for the one `q` fixed there. */
  lemma {:induction false} LevelAfterSwitch(a: Asset, charges: seq<int>, s: Option<nat>, q: int, k: nat)
    requires IsSchedule(a, charges, s) && a.cost >= a.residual && s.Some?
    requires q == (CarryingAfter(a, charges, s.value - 1) - a.residual) / (a.life - s.value + 1)
    requires s.value - 1 <= k <= a.life
    ensures Level(CarryingAfter(a, charges, k) - a.residual, a.life - k, q) && q >= 0
    ensures forall i :: s.value - 1 <= i < k ==> charges[i] == q || charges[i] == q + 1
  {
    hide DbCharge, DivideAndRound;
    NeverBelowResidual(a, charges, s, s.value - 1);
    if k == s.value - 1 {
      QuotientLevel(CarryingAfter(a, charges, k) - a.residual, a.life - k);
    } else {
      LevelAfterSwitch(a, charges, s, q, k - 1);
      assert PeriodRuns(a, charges, s, k);
      RoundStaysLevel(CarryingAfter(a, charges, k - 1) - a.residual, a.life - k + 1, q, a.mode);
      MulBounds(a.life - k, q);
      assert (a.life - k) * q == q * (a.life - k);
    }
  }

  lemma QuotientLevel(left: int, periods: int)
    requires periods > 0 && left >= 0
    ensures Level(left, periods, left / periods) && left / periods >= 0
  {
    assert left == (left / periods) * periods + left % periods;
  }
}
