/** Exact money: minor units behind a decimal amount of a fixed scale. */
module Money {
  import opened Options
  import opened BigInts
  import opened Rounding
  import opened DecimalText

  datatype ExactMoney = ExactMoney(amount: string, currency: string, scale: nat)

  const MAX_SCALE: nat := 6

  /** The pattern of a decimal string: a sign, digits, and after a point more digits. */
  predicate IsDecimal(text: string) {
    var clean := Unsigned(text);
    var whole := UpTo(clean, '.');
    && whole != "" && AllDigits(whole)
    && (|whole| < |clean| ==> clean[|whole| + 1..] != "" && AllDigits(clean[|whole| + 1..]))
  }

  /** The number of digits after the point, zero without one. */
  function FractionDigits(text: string): nat {
    var dot := |UpTo(text, '.')|;
    if dot == |text| then 0 else |text| - dot - 1
  }

  /** The text with its first point taken out. */
  function WithoutPoint(text: string): string {
    var dot := |UpTo(text, '.')|;
    if dot == |text| then text else text[..dot] + text[dot + 1..]
  }

  /** What the schema accepts of a currency's amount. */
  predicate SchemaAccepts(m: ExactMoney) {
    IsDecimal(m.amount) && m.scale <= MAX_SCALE && FractionDigits(m.amount) == m.scale
  }

  // ----------------------------------------------------------- the parts of a text

  function Signed(negative: bool, whole: string, fraction: string, point: bool): string {
    (if negative then "-" else "") + Parts(whole, fraction, point)
  }

  ghost predicate AreParts(whole: string, fraction: string, point: bool) {
    && whole != "" && AllDigits(whole) && AllDigits(fraction)
    && (point <==> fraction != "")
  }

  /** A decimal string is a sign and its parts. */
  lemma DecimalParts(text: string) returns (negative: bool, whole: string, fraction: string, point: bool)
    requires IsDecimal(text)
    ensures AreParts(whole, fraction, point) && text == Signed(negative, whole, fraction, point)
  {
    negative := Negative(text);
    var clean := Unsigned(text);
    whole := UpTo(clean, '.');
    point := |whole| < |clean|;
    fraction := if point then clean[|whole| + 1..] else "";
    assert clean == Parts(whole, fraction, point) by {
      if point { assert clean == clean[..|whole|] + [clean[|whole|]] + clean[|whole| + 1..]; }
    }
  }

  lemma SignedUpTo(negative: bool, whole: string, fraction: string, point: bool)
    requires AreParts(whole, fraction, point)
    ensures UpTo(Signed(negative, whole, fraction, point), '.') == (if negative then "-" else "") + whole
    ensures UpTo(Parts(whole, fraction, point), '.') == whole
  {
    ReadUnsigned(whole, fraction, point);
    if negative {
      var text := Signed(negative, whole, fraction, point);
      assert text[1..] == Parts(whole, fraction, point);
      assert UpTo(text, '.') == "-" + UpTo(text[1..], '.');
    } else {
      assert Signed(negative, whole, fraction, point) == Parts(whole, fraction, point);
    }
  }

  /** What each reading of a decimal string makes of its parts. */
  lemma PartsRead(negative: bool, whole: string, fraction: string, point: bool)
    requires AreParts(whole, fraction, point)
    ensures var text := Signed(negative, whole, fraction, point);
      && IsDecimal(text)
      && FractionDigits(text) == |fraction|
      && WithoutPoint(Unsigned(text)) == whole + fraction
      && Negative(text) == negative
  {
    SignedUpTo(negative, whole, fraction, point);
    SignedText(negative, Parts(whole, fraction, point));
    hide UpTo, Signed, Unsigned, Negative;
    var clean, text := Parts(whole, fraction, point), Signed(negative, whole, fraction, point);
    assert |clean| == |whole| + if point then 1 + |fraction| else 0;
    assert |text| == (if negative then 1 else 0) + |clean| by { SignedLength(negative, whole, fraction, point); }
    if point {
      assert clean[|whole| + 1..] == fraction && clean[..|whole|] == whole;
    } else {
      assert clean == whole == whole + fraction;
    }
  }

  /** The pattern in full: an optional minus, one digit or more, and after a point, if
      there is one, one digit or more. */
  lemma DecimalIs(text: string)
    ensures IsDecimal(text) <==> exists negative, whole, fraction, point ::
      AreParts(whole, fraction, point) && text == Signed(negative, whole, fraction, point)
  {
    hide IsDecimal, AreParts, Signed;
    if IsDecimal(text) {
      var negative, whole, fraction, point := DecimalParts(text);
    }
    forall negative, whole, fraction, point |
        AreParts(whole, fraction, point) && text == Signed(negative, whole, fraction, point)
      ensures IsDecimal(text)
    {
      PartsRead(negative, whole, fraction, point);
    }
  }

  lemma SignedLength(negative: bool, whole: string, fraction: string, point: bool)
    ensures |Signed(negative, whole, fraction, point)| == (if negative then 1 else 0) + |Parts(whole, fraction, point)|
  {
  }

  // ----------------------------------------------------------------- minor units

  /** The signed digits of a decimal string, the point ignored. */
  function RawUnits(text: string): int
    requires IsDecimal(text)
  {
    DigitsAlone(text);
    var units := DigitsValue(WithoutPoint(Unsigned(text)));
    if Negative(text) then -(units as int) else units
  }

  lemma DigitsAlone(text: string)
    requires IsDecimal(text)
    ensures AllDigits(WithoutPoint(Unsigned(text)))
  {
    var negative, whole, fraction, point := DecimalParts(text);
    PartsRead(negative, whole, fraction, point);
  }

  /** The raw units over a power of ten are the value that every decimal reader
      of the contracts gives the text. */
  lemma RawUnitsRead(text: string)
    requires IsDecimal(text)
    ensures ReadDecimal(text) == Some(Decimal(RawUnits(text), FractionDigits(text)))
  {
    var negative, whole, fraction, point := DecimalParts(text);
    PartsRead(negative, whole, fraction, point);
    ReadParts(negative, whole, fraction, point);
    hide UpTo, ReadDecimal, WithoutPoint, FractionDigits, Unsigned, Negative, Parts, IsDecimal;
  }

  /** `exactMinorUnits(m)`. */
  function MinorUnits(m: ExactMoney): int
    requires SchemaAccepts(m)
  {
    RawUnits(m.amount)
  }

  /** `exactMoneyFromMinorUnits(units, currency, scale)`; none when the schema refuses. */
  function FromMinorUnits(units: int, currency: string, scale: nat): Option<ExactMoney> {
    var m := ExactMoney(PrintScaled(units, scale), currency, scale);
    if SchemaAccepts(m) then Some(m) else None
  }

  lemma SignedJoins(sign: string, whole: string, rest: string)
    ensures (sign + whole) + rest == sign + (whole + rest)
  {
  }

  lemma PrintIsSigned(units: int, scale: nat, abs: string)
    requires abs == PadStart(NatText(Abs(units)), scale + 1)
    ensures PrintScaled(units, scale) == Signed(units < 0, abs[..|abs| - scale], abs[|abs| - scale..], scale != 0)
  {
    hide NatText, PadStart, Abs;
    var cut := |abs| - scale;
    SignedJoins(if units < 0 then "-" else "", abs[..cut], if scale == 0 then "" else "." + abs[cut..]);
  }

  lemma CutDigits(abs: string, cut: nat)
    requires AllDigits(abs) && cut <= |abs|
    ensures AllDigits(abs[..cut]) && AllDigits(abs[cut..]) && abs[..cut] + abs[cut..] == abs
  {
  }

  lemma PrintedParts(units: int, scale: nat) returns (whole: string, fraction: string)
    ensures AreParts(whole, fraction, scale != 0) && |fraction| == scale
    ensures PrintScaled(units, scale) == Signed(units < 0, whole, fraction, scale != 0)
    ensures whole + fraction == PadStart(NatText(Abs(units)), scale + 1)
  {
    PaddedDigits(Abs(units), scale + 1);
    hide NatText, PadStart, DigitsValue, Abs, PrintScaled, Signed, AllDigits;
    var abs := PadStart(NatText(Abs(units)), scale + 1);
    var cut := |abs| - scale;
    whole, fraction := abs[..cut], abs[cut..];
    CutDigits(abs, cut);
    PrintIsSigned(units, scale, abs);
  }

  lemma PrintedAccepted(units: int, scale: nat)
    ensures var text := PrintScaled(units, scale);
      IsDecimal(text) && FractionDigits(text) == scale && RawUnits(text) == units
  {
    var whole, fraction := PrintedParts(units, scale);
    hide UpTo, ReadDecimal, WithoutPoint, FractionDigits, PrintScaled, IsDecimal, PadStart, NatText, Signed,
         RawUnits, Abs;
    PartsRead(units < 0, whole, fraction, scale != 0);
    PrintReads(units, scale);
    RawUnitsRead(PrintScaled(units, scale));
  }

  /** Printing minor units satisfies the schema at every scale it allows, and reads
      back as the same units. */
  lemma UnitsRoundTrip(units: int, currency: string, scale: nat)
    ensures FromMinorUnits(units, currency, scale).Some? <==> scale <= 6
    ensures scale <= 6 ==> var m := FromMinorUnits(units, currency, scale).value;
      MinorUnits(m) == units && m.currency == currency && m.scale == scale
  {
    PrintedAccepted(units, scale);
    hide FractionDigits, PrintScaled, IsDecimal, RawUnits;
  }

  // ---------------------------------------------------------------- canonical form

  /** One encoding per value: no sign on zero, no superfluous leading zero. */
  ghost predicate Canonical(m: ExactMoney)
    requires SchemaAccepts(m)
  {
    && (Negative(m.amount) ==> MinorUnits(m) != 0)
    && NoExtraZero(UpTo(Unsigned(m.amount), '.'))
  }

  ghost predicate NoExtraZero(whole: string) {
    whole != "" && (whole == "0" || whole[0] != '0')
  }

  lemma {:induction false} NatTextNoLeadingZero(n: nat)
    ensures n > 0 ==> NatText(n)[0] != '0'
  {
    if n >= 10 { NatTextNoLeadingZero(n / 10); }
  }

  /** Digit strings of one length with one value are equal. */
  lemma {:induction false} DigitsDetermine(a: string, b: string)
    requires AllDigits(a) && AllDigits(b) && |a| == |b| && DigitsValue(a) == DigitsValue(b)
    ensures a == b
  {
    if a != "" {
      var n := |a| - 1;
      var x, y := (a[n] - '0') as nat, (b[n] - '0') as nat;
      assert DigitsValue(a[..n]) * 10 + x == DigitsValue(b[..n]) * 10 + y;
      DigitsDetermine(a[..n], b[..n]);
      assert a == a[..n] + [a[n]] && b == b[..n] + [b[n]];
    }
  }

  lemma {:induction false} DigitsBelow(s: string)
    requires AllDigits(s)
    ensures DigitsValue(s) < Pow10(|s|)
    ensures s != "" && s[0] != '0' ==> Pow10(|s| - 1) <= DigitsValue(s)
  {
    if s != "" {
      DigitsBelow(s[..|s| - 1]);
      if |s| == 1 { assert s[..0] == ""; }
    }
  }

  lemma {:induction false} Pow10Grows(a: nat, b: nat)
    requires a <= b
    ensures Pow10(a) <= Pow10(b)
    decreases b
  {
    if a < b { Pow10Grows(a, b - 1); }
  }

  /** Digits with no extra zero before the last `n`th place are no longer than any
      others of the same value and as many places after it. */
  lemma {:induction false} NotLonger(a: string, n: nat, b: string, m: nat)
    requires AllDigits(a) && AllDigits(b) && 1 <= n <= |a| && 1 <= m <= |b| && |a| - n == |b| - m
    requires n > 1 ==> a[0] != '0'
    requires DigitsValue(a) == DigitsValue(b)
    ensures |a| <= |b|
  {
    if n > 1 {
      DigitsBelow(a);
      DigitsBelow(b);
      hide DigitsValue, Pow10;
      Pow10Order(|a| - 1, |b|);
    }
  }

  lemma SameCut(w: string, f: string, v: string, g: string)
    requires w + f == v + g && |w| == |v|
    ensures w == v && f == g
  {
    assert w == (w + f)[..|w|] == (v + g)[..|v|] == v;
    assert f == (w + f)[|w|..] == (v + g)[|v|..] == g;
  }

  lemma NoExtraZeroHead(w: string, f: string)
    requires NoExtraZero(w)
    ensures |w| >= 1 && (|w| > 1 ==> (w + f)[0] != '0')
  {
  }

  /** The value and the scale fix the digits of a canonical amount. */
  lemma {:induction false} DigitsFixed(w: string, f: string, v: string, g: string)
    requires NoExtraZero(w) && NoExtraZero(v) && |f| == |g| && AllDigits(w + f) && AllDigits(v + g)
    requires DigitsValue(w + f) == DigitsValue(v + g)
    ensures w == v && f == g
  {
    hide DigitsValue, AllDigits, NoExtraZero;
    NoExtraZeroHead(w, f);
    NoExtraZeroHead(v, g);
    NotLonger(w + f, |w|, v + g, |v|);
    NotLonger(v + g, |v|, w + f, |w|);
    DigitsDetermine(w + f, v + g);
    SameCut(w, f, v, g);
  }

  lemma {:induction false} Pow10Order(m: nat, n: nat)
    ensures Pow10(m) < Pow10(n) ==> m < n
  {
    if m >= n { Pow10Grows(n, m); }
  }

  lemma {:induction false} PartsUnits(negative: bool, whole: string, fraction: string, point: bool)
    requires AreParts(whole, fraction, point)
    ensures AllDigits(whole + fraction) && IsDecimal(Signed(negative, whole, fraction, point))
    ensures RawUnits(Signed(negative, whole, fraction, point))
      == if negative then -(DigitsValue(whole + fraction) as int) else DigitsValue(whole + fraction)
  {
    PartsRead(negative, whole, fraction, point);
    CutJoin(whole, fraction);
    hide WithoutPoint, FractionDigits, Signed, IsDecimal, DigitsValue, Unsigned, Negative, AllDigits;
  }

  lemma PartsWhole(negative: bool, whole: string, fraction: string, point: bool)
    requires AreParts(whole, fraction, point)
    ensures var text := Signed(negative, whole, fraction, point);
      UpTo(Unsigned(text), '.') == whole && Negative(text) == negative
  {
    SignedUpTo(negative, whole, fraction, point);
    SignedText(negative, Parts(whole, fraction, point));
    hide UpTo, Unsigned, Negative, Parts;
  }

  /** A schema-valid amount in its parts. */
  lemma MoneyParts(m: ExactMoney) returns (negative: bool, whole: string, fraction: string, point: bool)
    requires SchemaAccepts(m)
    ensures AreParts(whole, fraction, point) && m.amount == Signed(negative, whole, fraction, point)
    ensures |fraction| == m.scale && AllDigits(whole + fraction)
    ensures MinorUnits(m) == if negative then -(DigitsValue(whole + fraction) as int) else DigitsValue(whole + fraction)
    ensures Canonical(m) <==> (negative ==> MinorUnits(m) != 0) && NoExtraZero(whole)
  {
    hide UpTo, WithoutPoint, FractionDigits, Signed, IsDecimal, DigitsValue, Unsigned, Negative, NoExtraZero,
         RawUnits, AreParts;
    negative, whole, fraction, point := DecimalParts(m.amount);
    PartsRead(negative, whole, fraction, point);
    PartsUnits(negative, whole, fraction, point);
    PartsWhole(negative, whole, fraction, point);
  }

  lemma CutJoin(a: string, b: string)
    requires AllDigits(a) && AllDigits(b)
    ensures AllDigits(a + b)
  {
  }

  /** Canonical amounts of one currency and scale are equal as strings exactly when
      they are equal as money. */
  lemma CanonicalUnique(m: ExactMoney, n: ExactMoney)
    requires SchemaAccepts(m) && SchemaAccepts(n) && m.scale == n.scale && Canonical(m) && Canonical(n)
    ensures MinorUnits(m) == MinorUnits(n) <==> m.amount == n.amount
  {
    hide MinorUnits, Canonical, SchemaAccepts, NoExtraZero;
    var b, w, f, p := MoneyParts(m);
    var c, v, g, q := MoneyParts(n);
    SameMoney(m, n);
    hide DigitsValue;
    if MinorUnits(m) == MinorUnits(n) {
      assert b == c;
      DigitsFixed(w, f, v, g);
    }
  }

  lemma SameMoney(m: ExactMoney, n: ExactMoney)
    requires SchemaAccepts(m) && SchemaAccepts(n)
    ensures m.amount == n.amount ==> MinorUnits(m) == MinorUnits(n)
  {
  }

  /** What is printed from minor units is canonical. */
  lemma PrintedIsCanonical(units: int, currency: string, scale: nat)
    requires scale <= MAX_SCALE
    ensures var m := FromMinorUnits(units, currency, scale);
      m.Some? && SchemaAccepts(m.value) && Canonical(m.value)
  {
    UnitsRoundTrip(units, currency, scale);
    var m := FromMinorUnits(units, currency, scale).value;
    var whole, fraction := PrintedParts(units, scale);
    PrintedWhole(units, scale, whole, fraction);
    hide UpTo, WithoutPoint, FractionDigits, IsDecimal, DigitsValue, MinorUnits, NatText, PadStart, PrintScaled;
    SignedUpTo(units < 0, whole, fraction, scale != 0);
    SignedText(units < 0, Parts(whole, fraction, scale != 0));
    hide Unsigned, Negative, NoExtraZero;
  }

  lemma PrintedWhole(units: int, scale: nat, whole: string, fraction: string)
    requires whole + fraction == PadStart(NatText(Abs(units)), scale + 1) && |fraction| == scale
    ensures NoExtraZero(whole)
  {
    var abs := PadStart(NatText(Abs(units)), scale + 1);
    NatTextNoLeadingZero(Abs(units));
    assert whole == abs[..|abs| - scale] by { assert (whole + fraction)[..|whole|] == whole; }
    assert |whole| > 1 ==> abs == NatText(Abs(units));
    assert whole[0] == abs[0];
  }

  /** Rebuilding money from its minor units gives the same encoding back exactly when
      the amount was canonical: the schema alone also passes a negative zero and
      leading zeros. */
  lemma MoneyRoundTrip(m: ExactMoney)
    requires SchemaAccepts(m)
    ensures FromMinorUnits(MinorUnits(m), m.currency, m.scale) == Some(m) <==> Canonical(m)
  {
    hide MinorUnits, Canonical, NoExtraZero, FromMinorUnits;
    assert m.scale <= MAX_SCALE;
    UnitsRoundTrip(MinorUnits(m), m.currency, m.scale);
    PrintedIsCanonical(MinorUnits(m), m.currency, m.scale);
    hide SchemaAccepts;
    var n := FromMinorUnits(MinorUnits(m), m.currency, m.scale).value;
    if Canonical(m) { CanonicalUnique(m, n); }
  }

  ghost function ZeroMoney(negative: bool, whole: string, scale: nat): ExactMoney {
    ExactMoney(Signed(negative, whole, Zeros(scale), scale != 0), "USD", scale)
  }

  /** At every scale the schema accepts three encodings of zero. */
  lemma SchemaIsNotCanonical(scale: nat)
    requires scale <= MAX_SCALE
    ensures var a, b, c := ZeroMoney(false, "0", scale), ZeroMoney(true, "0", scale), ZeroMoney(false, "00", scale);
      && SchemaAccepts(a) && SchemaAccepts(b) && SchemaAccepts(c)
      && MinorUnits(a) == MinorUnits(b) == MinorUnits(c) == 0
      && a.amount != b.amount && b.amount != c.amount && a.amount != c.amount
  {
    ZeroUnits(false, "0", scale);
    ZeroUnits(true, "0", scale);
    ZeroUnits(false, "00", scale);
    SignedLength(false, "0", Zeros(scale), scale != 0);
    SignedLength(true, "0", Zeros(scale), scale != 0);
    SignedLength(false, "00", Zeros(scale), scale != 0);
    hide SchemaAccepts, MinorUnits, Zeros;
    assert ZeroMoney(true, "0", scale).amount[0] == '-' && ZeroMoney(false, "00", scale).amount[0] == '0';
  }

  lemma ZeroUnits(negative: bool, whole: string, scale: nat)
    requires (whole == "0" || whole == "00") && scale <= MAX_SCALE
    ensures SchemaAccepts(ZeroMoney(negative, whole, scale)) && MinorUnits(ZeroMoney(negative, whole, scale)) == 0
  {
    hide UpTo, WithoutPoint, FractionDigits, IsDecimal, Signed, Unsigned, Negative, DigitsValue, RawUnits, Zeros;
    var fraction := Zeros(scale);
    ZeroDigits(whole, scale);
    assert AreParts(whole, fraction, scale != 0);
    hide AreParts, AllDigits;
    PartsRead(negative, whole, fraction, scale != 0);
    PartsUnits(negative, whole, fraction, scale != 0);
  }

  lemma {:induction false} ZeroDigits(whole: string, scale: nat)
    requires whole == "0" || whole == "00"
    ensures AllDigits(whole + Zeros(scale)) && DigitsValue(whole + Zeros(scale)) == 0
  {
    assert DigitsValue("") == 0;
    assert Zeros(scale) + "" == Zeros(scale);
    ZerosValue(scale, "");
    LeadingZero(Zeros(scale));
    LeadingZero("0" + Zeros(scale));
    assert "00" + Zeros(scale) == "0" + ("0" + Zeros(scale));
  }

  // ------------------------------------------------------------ one rounding only

  /** `raw` at `from` implied decimals, brought to `to`. */
  function Rescaled(raw: int, from: nat, to: nat, mode: Mode): int {
    if from >= to then DivideAndRound(raw, Pow10(from - to), mode) else raw * Pow10(to - from)
  }

  /** Bringing a value to another scale rounds the exact value once: it is the
      value in target units, rounded in the stated mode. */
  lemma {:induction false} RescaledOnce(raw: int, from: nat, to: nat, mode: Mode)
    ensures Rescaled(raw, from, to, mode) == DivideAndRound(raw * Pow10(to), Pow10(from), mode)
  {
    hide Pow10, DivideAndRound;
    if from >= to {
      Pow10Add(from - to, to);
      CommonFactorIrrelevant(raw, Pow10(from - to), Pow10(to), mode);
    } else {
      Pow10Add(to - from, from);
      assert raw * Pow10(to) == (raw * Pow10(to - from)) * Pow10(from);
      WholeQuotient(raw * Pow10(to - from), Pow10(from), mode);
    }
  }

  datatype MoneyResult = Built(money: ExactMoney) | NotDecimal | NegativeRate | RoundingRequired | SchemaRefused

  function Checked(m: ExactMoney): MoneyResult {
    if SchemaAccepts(m) then Built(m) else SchemaRefused
  }

  /** The text with zeros up to the scale. */
  function Padded(amount: string, scale: nat): string
    requires FractionDigits(amount) <= scale
  {
    var dot := |UpTo(amount, '.')|;
    if scale == 0 then amount[..dot]
    else (if dot == |amount| then amount + "." else amount) + Zeros(scale - FractionDigits(amount))
  }

  /** `exactMoneyFromDecimalString(amount, currency, scale, roundingMode)`. */
  function FromDecimalString(amount: string, currency: string, scale: nat, mode: Option<Mode>): MoneyResult {
    if !IsDecimal(amount) then NotDecimal
    else if FractionDigits(amount) <= scale then Checked(ExactMoney(Padded(amount, scale), currency, scale))
    else if mode.None? then RoundingRequired
    else
      var units := DivideAndRound(RawUnits(amount), Pow10(FractionDigits(amount) - scale), mode.value);
      Checked(ExactMoney(PrintScaled(units, scale), currency, scale))
  }

  lemma PadPointed(sign: string, whole: string, fraction: string, zeros: string)
    ensures (sign + (whole + ("." + fraction))) + zeros == sign + (whole + ("." + (fraction + zeros)))
  {
  }

  lemma PadWhole(sign: string, whole: string, zeros: string)
    ensures ((sign + (whole + "")) + ".") + zeros == sign + (whole + ("." + ("" + zeros)))
  {
  }

  lemma PointPlace(negative: bool, whole: string, fraction: string, point: bool)
    requires AreParts(whole, fraction, point)
    ensures var text := Signed(negative, whole, fraction, point);
      (|UpTo(text, '.')| == |text| <==> !point) && text[..|text|] == text
  {
    SignedUpTo(negative, whole, fraction, point);
    SignedLength(negative, whole, fraction, point);
    hide UpTo, Signed;
  }

  /** The text without its point gains one, and every text its missing zeros. */
  lemma {:induction false} PaddedText(text: string, negative: bool, whole: string, fraction: string, point: bool,
                                      scale: nat)
    requires AreParts(whole, fraction, point) && |fraction| == FractionDigits(text) <= scale
    requires text == Signed(negative, whole, fraction, point) && (|UpTo(text, '.')| == |text| <==> !point)
    ensures Padded(text, scale) == Signed(negative, whole, fraction + Zeros(scale - |fraction|), scale != 0)
  {
    hide UpTo, FractionDigits, Zeros;
    var sign, zeros := if negative then "-" else "", Zeros(scale - |fraction|);
    if point {
      PadPointed(sign, whole, fraction, zeros);
    } else if scale == 0 {
      assert fraction + zeros == "";
    } else {
      PadWhole(sign, whole, zeros);
    }
  }

  lemma {:induction false} PaddedParts(negative: bool, whole: string, fraction: string, point: bool, scale: nat)
    requires AreParts(whole, fraction, point) && |fraction| <= scale
    ensures var text := Signed(negative, whole, fraction, point);
      FractionDigits(text) == |fraction|
        && Padded(text, scale) == Signed(negative, whole, fraction + Zeros(scale - |fraction|), scale != 0)
  {
    hide UpTo, FractionDigits, IsDecimal, Unsigned, Negative, WithoutPoint, Zeros, Signed, Padded, Parts;
    PartsRead(negative, whole, fraction, point);
    PointPlace(negative, whole, fraction, point);
    PaddedText(Signed(negative, whole, fraction, point), negative, whole, fraction, point, scale);
  }

  lemma {:induction false} ZerosAfter(whole: string, fraction: string, k: nat)
    requires AllDigits(whole) && AllDigits(fraction)
    ensures AllDigits(whole + fraction) && AllDigits(fraction + Zeros(k)) && AllDigits(whole + (fraction + Zeros(k)))
    ensures DigitsValue(whole + (fraction + Zeros(k))) == DigitsValue(whole + fraction) * Pow10(k)
  {
    CutJoin(whole, fraction);
    CutJoin(fraction, Zeros(k));
    CutJoin(whole, fraction + Zeros(k));
    hide DigitsValue, Pow10, Zeros, AllDigits;
    TrailingZeros(whole + fraction, k);
    assert whole + (fraction + Zeros(k)) == (whole + fraction) + Zeros(k);
  }

  lemma {:induction false} MoreZeros(negative: bool, whole: string, fraction: string, point: bool, k: nat, point': bool)
    requires AreParts(whole, fraction, point) && AllDigits(fraction + Zeros(k))
    requires AreParts(whole, fraction + Zeros(k), point')
    ensures IsDecimal(Signed(negative, whole, fraction, point))
    ensures IsDecimal(Signed(negative, whole, fraction + Zeros(k), point'))
    ensures RawUnits(Signed(negative, whole, fraction + Zeros(k), point'))
      == RawUnits(Signed(negative, whole, fraction, point)) * Pow10(k)
  {
    hide IsDecimal, Signed, RawUnits, DigitsValue, AllDigits, Zeros, Pow10;
    ZerosAfter(whole, fraction, k);
    PartsUnits(negative, whole, fraction, point);
    PartsUnits(negative, whole, fraction + Zeros(k), point');
    NegatedProduct(DigitsValue(whole + fraction), Pow10(k));
  }

  lemma {:induction false} PaddedUnits(amount: string, scale: nat)
    requires IsDecimal(amount) && FractionDigits(amount) <= scale
    ensures var text := Padded(amount, scale);
      IsDecimal(text) && FractionDigits(text) == scale
        && RawUnits(text) == RawUnits(amount) * Pow10(scale - FractionDigits(amount))
  {
    hide UpTo, FractionDigits, IsDecimal, Unsigned, Negative, WithoutPoint, Signed, RawUnits, Padded, AllDigits,
         Zeros, Pow10;
    var negative, whole, fraction, point := DecimalParts(amount);
    PartsRead(negative, whole, fraction, point);
    PaddedParts(negative, whole, fraction, point, scale);
    var k := scale - |fraction|;
    CutJoin(fraction, Zeros(k));
    MoreZeros(negative, whole, fraction, point, k, scale != 0);
    PartsRead(negative, whole, fraction + Zeros(k), scale != 0);
  }

  lemma NegatedProduct(a: int, b: int)
    ensures (-a) * b == -(a * b)
  {
  }

  /** A decimal string becomes the stated scale's units of its exact value, rounded
      once and only when a mode was given; every refusal has its one cause. */
  lemma DecimalStringValue(amount: string, currency: string, scale: nat, mode: Option<Mode>)
    ensures match FromDecimalString(amount, currency, scale, mode)
      case NotDecimal => !IsDecimal(amount)
      case RoundingRequired => IsDecimal(amount) && FractionDigits(amount) > scale && mode.None?
      case SchemaRefused => IsDecimal(amount) && scale > MAX_SCALE && (mode.None? ==> FractionDigits(amount) <= scale)
      case NegativeRate => false
      case Built(m) =>
        && IsDecimal(amount) && SchemaAccepts(m) && m.currency == currency && m.scale == scale
        && (mode.None? ==> FractionDigits(amount) <= scale)
        && (FractionDigits(amount) <= scale ==>
          MinorUnits(m) == RawUnits(amount) * Pow10(scale - FractionDigits(amount)))
        && (mode.Some? ==>
          MinorUnits(m) == DivideAndRound(RawUnits(amount) * Pow10(scale), Pow10(FractionDigits(amount)), mode.value))
  {
    hide FractionDigits, IsDecimal, RawUnits, Padded, PrintScaled, Pow10, DivideAndRound;
    if IsDecimal(amount) {
      var digits := FractionDigits(amount);
      if mode.Some? { RescaledOnce(RawUnits(amount), digits, scale, mode.value); }
      if digits <= scale {
        PaddedUnits(amount, scale);
        if mode.Some? && digits == scale { NoRescale(RawUnits(amount), mode.value); }
      } else if mode.Some? {
        PrintedAccepted(DivideAndRound(RawUnits(amount), Pow10(digits - scale), mode.value), scale);
      }
    }
  }

  lemma NoRescale(raw: int, mode: Mode)
    ensures Pow10(0) == 1 && DivideAndRound(raw, 1, mode) == raw == raw * 1
  {
    WholeQuotient(raw, 1, mode);
  }

  /** `multiplyExactMoneyByRate(m, rate, currency, scale, roundingMode)`. */
  function MultiplyByRate(m: ExactMoney, rate: string, currency: string, scale: nat, mode: Mode): MoneyResult
    requires SchemaAccepts(m)
  {
    if !IsDecimal(rate) then NotDecimal
    else if Negative(rate) then NegativeRate
    else
      var units := Rescaled(MinorUnits(m) * RawUnits(rate), m.scale + FractionDigits(rate), scale, mode);
      Checked(ExactMoney(PrintScaled(units, scale), currency, scale))
  }

  /** A conversion rounds once: the exact product of amount and rate, in units of the
      target scale. */
  lemma {:induction false} ConversionRoundsOnce(m: ExactMoney, rate: string, currency: string, scale: nat, mode: Mode)
    requires SchemaAccepts(m)
    ensures match MultiplyByRate(m, rate, currency, scale, mode)
      case NotDecimal => !IsDecimal(rate)
      case NegativeRate => IsDecimal(rate) && Negative(rate) && "-" <= rate
      case SchemaRefused => IsDecimal(rate) && !Negative(rate) && scale > MAX_SCALE
      case RoundingRequired => false
      case Built(c) =>
        && IsDecimal(rate) && !Negative(rate) && !("-" <= rate)
        && SchemaAccepts(c) && c.currency == currency && c.scale == scale
        && RoundsTo(MinorUnits(m) * RawUnits(rate) * Pow10(scale), Pow10(m.scale + FractionDigits(rate)), mode,
                    MinorUnits(c))
  {
    hide FractionDigits, IsDecimal, RawUnits, PrintScaled, Pow10, DivideAndRound, RoundsTo;
    if IsDecimal(rate) && !Negative(rate) {
      var raw, from := MinorUnits(m) * RawUnits(rate), m.scale + FractionDigits(rate);
      RescaledOnce(raw, from, scale, mode);
      DivideAndRoundMeets(raw * Pow10(scale), Pow10(from), mode);
      PrintedAccepted(Rescaled(raw, from, scale, mode), scale);
    }
  }

  // ------------------------------------------------------------------------- sums

  ghost predicate Denominated(values: seq<ExactMoney>, currency: string, scale: nat) {
    forall v :: v in values ==> v.currency == currency && v.scale == scale
  }

  ghost function TotalUnits(values: seq<ExactMoney>): int
    requires forall v :: v in values ==> SchemaAccepts(v)
  {
    if values == [] then 0 else TotalUnits(values[..|values| - 1]) + MinorUnits(values[|values| - 1])
  }

  /** `sumExactMoney(values, currency, scale)`; none when a value is of another
      denomination or the schema refuses the scale. */
  method SumMoney(values: seq<ExactMoney>, currency: string, scale: nat) returns (r: Option<ExactMoney>)
    requires forall v :: v in values ==> SchemaAccepts(v)
    ensures r.Some? <==> Denominated(values, currency, scale) && scale <= MAX_SCALE
    ensures r.Some? ==> SchemaAccepts(r.value) && Canonical(r.value) && MinorUnits(r.value) == TotalUnits(values)
    ensures r.Some? ==> r.value.currency == currency && r.value.scale == scale
  {
    hide SchemaAccepts, MinorUnits, Canonical, FromMinorUnits;
    var total := 0;
    for k := 0 to |values|
      invariant Denominated(values[..k], currency, scale)
      invariant total == TotalUnits(values[..k])
    {
      var v := values[k];
      assert values[..k + 1][..k] == values[..k] && v in values;
      if v.currency != currency || v.scale != scale { return None; }
      total := total + MinorUnits(v);
    }
    assert values[..|values|] == values;
    r := FromMinorUnits(total, currency, scale);
    UnitsRoundTrip(total, currency, scale);
    if scale <= MAX_SCALE { PrintedIsCanonical(total, currency, scale); }
  }
}
