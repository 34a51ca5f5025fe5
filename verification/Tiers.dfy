/** Tiered rating: the graduated band walk against a price for every single unit. */
module Tiers {
  import opened Options

  datatype Tier = Tier(upTo: Option<int>, unit: int, flat: int)

  datatype Mode = Graduated | Volume

  datatype ZeroBehaviour = BillFirstTierFlat | BillNothing

  datatype Refusal = TierModeRequired | ZeroQuantityBehaviourRequired

  datatype Result = Ok(value: int) | Refused(refusal: Refusal)

  predicate HasFlat(tiers: seq<Tier>) {
    exists i :: 0 <= i < |tiers| && tiers[i].flat != 0
  }

  predicate Covers(t: Tier, k: int) {
    t.upTo.None? || k <= t.upTo.value
  }

  /** The first tier from `i` on that covers the `k`-th unit; their number if none does. */
  function BandFrom(tiers: seq<Tier>, k: int, i: nat): (b: nat)
    requires i <= |tiers|
    ensures i <= b <= |tiers|
    ensures forall j :: i <= j < b ==> !Covers(tiers[j], k)
    ensures b < |tiers| ==> Covers(tiers[b], k)
    decreases |tiers| - i
  {
    if i == |tiers| || Covers(tiers[i], k) then i else BandFrom(tiers, k, i + 1)
  }

  function BandOf(tiers: seq<Tier>, k: int): nat {
    BandFrom(tiers, k, 0)
  }

  // ------------------------------------------------------------- unit by unit

  /** The `k`-th unit's own price; a unit that no tier covers costs nothing. */
  ghost function UnitPrice(tiers: seq<Tier>, k: int): int {
    var b := BandOf(tiers, k);
    if b < |tiers| then tiers[b].unit else 0
  }

  ghost function UnitPrices(tiers: seq<Tier>, q: int): int
    decreases q
  {
    if q <= 0 then 0 else UnitPrices(tiers, q - 1) + UnitPrice(tiers, q)
  }

  ghost predicate Entered(tiers: seq<Tier>, q: int, i: nat) {
    exists k :: 1 <= k <= q && BandOf(tiers, k) == i
  }

  /** The flat amounts of the first `n` tiers that some unit falls into, each once. */
  ghost function Flats(tiers: seq<Tier>, q: int, n: nat): int
    requires n <= |tiers|
  {
    if n == 0 then 0 else Flats(tiers, q, n - 1) + if Entered(tiers, q, n - 1) then tiers[n - 1].flat else 0
  }

  /** Every unit at its own band's price, and each band entered charged once. */
  ghost function RatedUnits(tiers: seq<Tier>, q: int): int {
    UnitPrices(tiers, q) + Flats(tiers, q, |tiers|)
  }

  /** Bounds that never fall; an unbounded tier ends the table. */
  ghost predicate Ascending(tiers: seq<Tier>) {
    && (forall i :: 0 <= i < |tiers| && tiers[i].upTo.Some? ==> tiers[i].upTo.value >= 0)
    && (forall i, j :: 0 <= i < j < |tiers| && tiers[i].upTo.Some? && tiers[j].upTo.Some? ==>
      tiers[i].upTo.value <= tiers[j].upTo.value)
  }

  // ---------------------------------------------------------------- the band walk

  /** The first `i` tiers are bounded, the last of them by `bound`. */
  ghost predicate Behind(tiers: seq<Tier>, i: nat, bound: int)
    requires i <= |tiers|
  {
    && (forall j :: 0 <= j < i ==> tiers[j].upTo.Some? && tiers[j].upTo.value <= bound)
    && (if i == 0 then bound == 0 else tiers[i - 1].upTo == Some(bound))
  }

  /** After `i` tiers: the units up to `done` are rated, and if any remain they all
      lie beyond every bound so far. */
  ghost predicate Walked(tiers: seq<Tier>, q: int, i: nat, remaining: int, previousUpTo: int, total: int)
    requires i <= |tiers|
  {
    var done := q - remaining;
    && 0 <= remaining <= q && 0 <= done
    && (remaining > 0 ==> done == previousUpTo && Behind(tiers, i, previousUpTo))
    && (forall k :: 1 <= k <= done ==> BandOf(tiers, k) < i)
    && total == UnitPrices(tiers, done) + Flats(tiers, q, i)
  }

  ghost function PriceOf(n: int, unit: int): int {
    n * unit
  }

  lemma OneMoreUnit(n: int, unit: int)
    ensures PriceOf(0, unit) == 0 && PriceOf(n, unit) == PriceOf(n - 1, unit) + unit
  {
  }

  lemma {:induction false} BandPrices(tiers: seq<Tier>, done: int, n: nat, i: nat)
    requires done >= 0 && i < |tiers|
    requires forall k :: done < k <= done + n ==> BandOf(tiers, k) == i
    ensures UnitPrices(tiers, done + n) == UnitPrices(tiers, done) + PriceOf(n, tiers[i].unit)
  {
    hide PriceOf;
    OneMoreUnit(n, tiers[i].unit);
    if n > 0 {
      BandPrices(tiers, done, n - 1, i);
      assert UnitPrice(tiers, done + n) == tiers[i].unit;
    }
  }

  /** The units taken in a band are its own. */
  lemma BandUnits(tiers: seq<Tier>, q: int, i: nat, remaining: int, previousUpTo: int, total: int, inBand: int)
    requires i < |tiers| && Walked(tiers, q, i, remaining, previousUpTo, total) && 0 < inBand <= remaining
    requires tiers[i].upTo.Some? ==> inBand <= tiers[i].upTo.value - previousUpTo
    ensures forall k :: q - remaining < k <= q - remaining + inBand ==> BandOf(tiers, k) == i
    ensures Entered(tiers, q, i)
  {
    hide UnitPrices, Flats;
    forall k | q - remaining < k <= q - remaining + inBand ensures BandOf(tiers, k) == i {
      var b := BandOf(tiers, k);
      assert Covers(tiers[i], k);
      assert forall j :: 0 <= j < i ==> !Covers(tiers[j], k);
    }
    assert BandOf(tiers, q - remaining + 1) == i;
  }

  lemma BehindNext(tiers: seq<Tier>, i: nat, bound: int)
    requires Ascending(tiers) && i < |tiers| && Behind(tiers, i, bound) && tiers[i].upTo.Some?
    ensures bound <= tiers[i].upTo.value && Behind(tiers, i + 1, tiers[i].upTo.value)
  {
  }

  lemma OneMoreFlat(tiers: seq<Tier>, q: int, i: nat)
    requires i < |tiers| && Entered(tiers, q, i)
    ensures Flats(tiers, q, i + 1) == Flats(tiers, q, i) + tiers[i].flat
  {
    hide Entered;
  }

  lemma TakeBand(tiers: seq<Tier>, q: int, i: nat, remaining: int, previousUpTo: int, total: int, inBand: int)
    requires Ascending(tiers) && i < |tiers| && Walked(tiers, q, i, remaining, previousUpTo, total) && 0 < inBand
    requires inBand
      == if tiers[i].upTo.Some? && tiers[i].upTo.value - previousUpTo <= remaining
         then tiers[i].upTo.value - previousUpTo else remaining
    ensures var bound := if tiers[i].upTo.Some? then tiers[i].upTo.value else previousUpTo;
      Walked(tiers, q, i + 1, remaining - inBand, bound, total + (PriceOf(inBand, tiers[i].unit) + tiers[i].flat))
  {
    hide *;
    WalkedSays(tiers, q, i, remaining, previousUpTo, total);
    BandUnits(tiers, q, i, remaining, previousUpTo, total, inBand);
    BandPrices(tiers, q - remaining, inBand, i);
    OneMoreFlat(tiers, q, i);
    if remaining > inBand { BehindNext(tiers, i, previousUpTo); }
    var bound := if tiers[i].upTo.Some? then tiers[i].upTo.value else previousUpTo;
    WalkedNext(tiers, q, i + 1, remaining - inBand, bound, total + (PriceOf(inBand, tiers[i].unit) + tiers[i].flat));
  }

  lemma WalkedSays(tiers: seq<Tier>, q: int, i: nat, remaining: int, previousUpTo: int, total: int)
    requires i <= |tiers| && Walked(tiers, q, i, remaining, previousUpTo, total)
    ensures 0 <= remaining <= q && (remaining > 0 ==> q - remaining == previousUpTo)
    ensures remaining > 0 ==> Behind(tiers, i, previousUpTo)
    ensures forall k :: 1 <= k <= q - remaining ==> BandOf(tiers, k) < i
    ensures total == UnitPrices(tiers, q - remaining) + Flats(tiers, q, i)
  {
    hide BandOf, UnitPrices, Flats, Behind;
  }

  lemma WalkedNext(tiers: seq<Tier>, q: int, i: nat, remaining: int, bound: int, total: int)
    requires i <= |tiers| && 0 <= remaining <= q
    requires remaining > 0 ==> q - remaining == bound && Behind(tiers, i, bound)
    requires forall k :: 1 <= k <= q - remaining ==> BandOf(tiers, k) < i
    requires total == UnitPrices(tiers, q - remaining) + Flats(tiers, q, i)
    ensures Walked(tiers, q, i, remaining, bound, total)
  {
    hide BandOf, UnitPrices, Flats, Behind;
  }

  lemma SkipBand(tiers: seq<Tier>, q: int, i: nat, remaining: int, previousUpTo: int, total: int)
    requires Ascending(tiers) && i < |tiers| && Walked(tiers, q, i, remaining, previousUpTo, total)
    requires remaining > 0 && tiers[i].upTo.Some? && tiers[i].upTo.value <= previousUpTo
    ensures Walked(tiers, q, i + 1, remaining, tiers[i].upTo.value, total)
  {
    hide UnitPrices;
    assert tiers[i].upTo.value == previousUpTo;
    forall k | 1 <= k <= q ensures BandOf(tiers, k) != i {
      if k > q - remaining { assert !Covers(tiers[i], k); }
    }
    hide BandOf;
  }

  lemma {:induction false} NoMoreFlats(tiers: seq<Tier>, q: int, i: nat, n: nat)
    requires i <= n <= |tiers| && forall k :: 1 <= k <= q ==> BandOf(tiers, k) < i || BandOf(tiers, k) >= n
    ensures Flats(tiers, q, n) == Flats(tiers, q, i)
    decreases n
  {
    hide BandOf;
    if n > i { NoMoreFlats(tiers, q, i, n - 1); }
  }

  lemma {:induction false} UncoveredPrices(tiers: seq<Tier>, done: int, q: int)
    requires done <= q && forall k :: done < k <= q && k >= 1 ==> BandOf(tiers, k) == |tiers|
    ensures UnitPrices(tiers, q) == UnitPrices(tiers, done)
    decreases q - done
  {
    hide BandOf;
    if q > done { UncoveredPrices(tiers, done, q - 1); }
  }

  lemma WalkStopped(tiers: seq<Tier>, q: int, i: nat, previousUpTo: int, total: int)
    requires i <= |tiers| && Walked(tiers, q, i, 0, previousUpTo, total)
    ensures total == RatedUnits(tiers, q)
  {
    hide BandOf, UnitPrices, Flats;
    NoMoreFlats(tiers, q, i, |tiers|);
  }

  lemma WalkEnded(tiers: seq<Tier>, q: int, remaining: int, previousUpTo: int, total: int)
    requires Walked(tiers, q, |tiers|, remaining, previousUpTo, total)
    ensures total == RatedUnits(tiers, q)
  {
    var done := q - remaining;
    forall k | done < k <= q && k >= 1 ensures BandOf(tiers, k) == |tiers| {
      assert forall j :: 0 <= j < |tiers| ==> !Covers(tiers[j], k);
    }
    UncoveredPrices(tiers, done, q);
  }

  lemma NothingUsed(tiers: seq<Tier>, q: int)
    requires q <= 0
    ensures RatedUnits(tiers, q) == 0
  {
    NoMoreFlats(tiers, q, 0, |tiers|);
  }

  /** The graduated branch. */
  method WalkBands(quantity: int, tiers: seq<Tier>) returns (total: int)
    requires quantity != 0
    ensures Ascending(tiers) ==> total == RatedUnits(tiers, quantity)
  {
    hide Walked, Ascending, RatedUnits;
    var remaining, previousUpTo := quantity, 0;
    total := 0;
    if quantity < 0 { NothingUsed(tiers, quantity); } else { WalkStarts(tiers, quantity); }
    for i := 0 to |tiers|
      invariant quantity < 0 ==> total == 0 && remaining == quantity
      invariant quantity > 0 && Ascending(tiers) ==> Walked(tiers, quantity, i, remaining, previousUpTo, total)
    {
      if remaining == 0 {
        if quantity > 0 && Ascending(tiers) { WalkStopped(tiers, quantity, i, previousUpTo, total); }
        return;
      }
      var tier := tiers[i];
      var bandCapacity := if tier.upTo.None? then remaining else tier.upTo.value - previousUpTo;
      var inBand := if remaining < bandCapacity then remaining else bandCapacity;
      if quantity > 0 && Ascending(tiers) {
        WalkFacts(tiers, quantity, i, remaining, previousUpTo, total);
        if inBand > 0 {
          TakeBand(tiers, quantity, i, remaining, previousUpTo, total, inBand);
        } else {
          SkipBand(tiers, quantity, i, remaining, previousUpTo, total);
        }
      }
      if inBand > 0 {
        total := total + (inBand * tier.unit + tier.flat);
        remaining := remaining - inBand;
      }
      previousUpTo := if tier.upTo.Some? then tier.upTo.value else previousUpTo;
    }
    if quantity > 0 && Ascending(tiers) { WalkEnded(tiers, quantity, remaining, previousUpTo, total); }
  }

  lemma WalkStarts(tiers: seq<Tier>, q: int)
    requires q > 0
    ensures Walked(tiers, q, 0, q, 0, 0)
  {
  }

  lemma WalkFacts(tiers: seq<Tier>, q: int, i: nat, remaining: int, previousUpTo: int, total: int)
    requires i <= |tiers| && Walked(tiers, q, i, remaining, previousUpTo, total)
    ensures 0 <= remaining <= q
  {
  }

  // ---------------------------------------------------------------- the operation

  /** The tier a quantity lands in: the first that is unbounded or reaches it, and the
      last one beyond a bounded table. */
  ghost predicate LandsIn(tiers: seq<Tier>, quantity: int, b: nat) {
    && b < |tiers|
    && (forall j :: 0 <= j < b ==> tiers[j].upTo.Some? && tiers[j].upTo.value < quantity)
    && (b < |tiers| - 1 ==> tiers[b].upTo.None? || quantity <= tiers[b].upTo.value)
  }

  lemma VolumeLands(tiers: seq<Tier>, quantity: int)
    requires tiers != []
    ensures exists b: nat ::
      LandsIn(tiers, quantity, b) && VolumeAmount(tiers, quantity) == quantity * tiers[b].unit + tiers[b].flat
  {
    var b := BandOf(tiers, quantity);
    assert LandsIn(tiers, quantity, if b < |tiers| then b else |tiers| - 1);
  }

  lemma LandsOnce(tiers: seq<Tier>, quantity: int, b: nat, c: nat)
    requires LandsIn(tiers, quantity, b) && LandsIn(tiers, quantity, c)
    ensures b == c
  {
    assert !(b < c) && !(c < b);
  }

  /** All units at the price of the tier the quantity lands in; beyond a bounded
      table, of the last. */
  function VolumeAmount(tiers: seq<Tier>, quantity: int): int
    requires tiers != []
  {
    var b := BandOf(tiers, quantity);
    var landing := if b < |tiers| then tiers[b] else tiers[|tiers| - 1];
    quantity * landing.unit + landing.flat
  }

  lemma FlatMeans(tiers: seq<Tier>)
    ensures HasFlat(tiers) <==> exists t :: t in tiers && t.flat != 0
    ensures tiers != [] && tiers[0].flat != 0 ==> HasFlat(tiers)
  {
  }

  /** `rateTiered(quantity, tiers, mode, zeroQuantityBehaviour)`. Rating a volume
      needs a tier to land in. */
  method RateTiered(quantity: int, tiers: seq<Tier>, mode: Option<Mode>, zero: Option<ZeroBehaviour>)
      returns (r: Result)
    requires mode == Some(Volume) ==> tiers != []
    ensures mode.None? ==> r == Refused(TierModeRequired)
    ensures mode.Some? && zero.None? && (exists t :: t in tiers && t.flat != 0) ==>
      r == Refused(ZeroQuantityBehaviourRequired)
    ensures r.Ok? <==> mode.Some? && (zero.Some? || forall t :: t in tiers ==> t.flat == 0)
    ensures r.Ok? && quantity == 0 ==>
      r.value == if zero == Some(BillFirstTierFlat) && tiers != [] then tiers[0].flat else 0
    ensures r.Ok? && quantity != 0 && mode == Some(Volume) ==>
      exists b: nat :: LandsIn(tiers, quantity, b) && r.value == quantity * tiers[b].unit + tiers[b].flat
    ensures r.Ok? && quantity != 0 && mode == Some(Graduated) && Ascending(tiers) ==>
      r.value == RatedUnits(tiers, quantity)
  {
    hide Ascending, RatedUnits, BandFrom, VolumeAmount;
    FlatMeans(tiers);
    if mode.None? { return Refused(TierModeRequired); }
    var hasFlat := HasFlat(tiers);
    if hasFlat && zero.None? { return Refused(ZeroQuantityBehaviourRequired); }
    if quantity == 0 {
      if !hasFlat || zero.value == BillNothing { return Ok(0); }
      return Ok(tiers[0].flat);
    }
    if mode.value == Volume {
      VolumeLands(tiers, quantity);
      return Ok(VolumeAmount(tiers, quantity));
    }
    var total := WalkBands(quantity, tiers);
    r := Ok(total);
  }

  // ------------------------------------------------------------------ what follows

  ghost predicate NonNegative(tiers: seq<Tier>) {
    forall i :: 0 <= i < |tiers| ==> tiers[i].unit >= 0 && tiers[i].flat >= 0
  }

  lemma {:induction false} FlatsGrow(tiers: seq<Tier>, q: int, q': int, n: nat)
    requires NonNegative(tiers) && q <= q' && n <= |tiers|
    ensures Flats(tiers, q, n) <= Flats(tiers, q', n)
  {
    hide BandOf;
    if n > 0 {
      FlatsGrow(tiers, q, q', n - 1);
      assert Entered(tiers, q, n - 1) ==> Entered(tiers, q', n - 1);
    }
  }

  lemma {:induction false} PricesGrow(tiers: seq<Tier>, q: int, q': int)
    requires NonNegative(tiers) && q <= q'
    ensures UnitPrices(tiers, q) <= UnitPrices(tiers, q')
    decreases q' - q
  {
    hide BandOf;
    if q < q' { PricesGrow(tiers, q, q' - 1); }
  }

  /** More is never cheaper: graduated rating is monotone in the quantity when no
      price is negative. */
  lemma GraduatedIsMonotone(tiers: seq<Tier>, q: int, q': int)
    requires NonNegative(tiers) && q <= q'
    ensures RatedUnits(tiers, q) <= RatedUnits(tiers, q')
  {
    FlatsGrow(tiers, q, q', |tiers|);
    PricesGrow(tiers, q, q');
  }

  /** Every unit has a price exactly when the table is unbounded or its bounds reach
      the quantity; what lies beyond a bounded table is not billed. */
  lemma EveryUnitPriced(tiers: seq<Tier>, q: int)
    requires q > 0
    ensures (forall k :: 1 <= k <= q ==> BandOf(tiers, k) < |tiers|) <==>
      exists i :: 0 <= i < |tiers| && Covers(tiers[i], q)
  {
    if i :| 0 <= i < |tiers| && Covers(tiers[i], q) {
      forall k | 1 <= k <= q ensures BandOf(tiers, k) < |tiers| { assert Covers(tiers[i], k); }
    }
    if BandOf(tiers, q) < |tiers| {
      assert Covers(tiers[BandOf(tiers, q)], q);
    }
  }

  lemma BeyondTheTable(tiers: seq<Tier>, last: int, q: int)
    requires last <= q && forall i :: 0 <= i < |tiers| ==> tiers[i].upTo.Some? && tiers[i].upTo.value <= last
    ensures RatedUnits(tiers, q) == RatedUnits(tiers, last)
  {
    forall k | k > last ensures BandOf(tiers, k) == |tiers| {
      assert forall j :: 0 <= j < |tiers| ==> !Covers(tiers[j], k);
    }
    UncoveredPrices(tiers, last, q);
    SameFlats(tiers, last, q, |tiers|);
  }

  lemma {:induction false} SameFlats(tiers: seq<Tier>, last: int, q: int, n: nat)
    requires last <= q && n <= |tiers| && forall k :: k > last ==> BandOf(tiers, k) == |tiers|
    ensures Flats(tiers, q, n) == Flats(tiers, last, n)
  {
    hide BandOf;
    if n > 0 {
      SameFlats(tiers, last, q, n - 1);
      assert Entered(tiers, q, n - 1) <==> Entered(tiers, last, n - 1);
    }
  }
}
