/** Decimal strings: digits, `BigInt(text)` on digit strings, and how amounts and
    rationals are printed and read back. */
module DecimalText {
  import opened Options
  import opened BigInts
  import opened ExactRational
  import opened Rounding

  predicate IsDigit(c: char) {
    '0' <= c <= '9'
  }

  predicate AllDigits(s: string) {
    forall i :: 0 <= i < |s| ==> IsDigit(s[i])
  }

  /** The number that a string of digits stands for; the empty string is zero. */
  function DigitsValue(s: string): nat
    requires AllDigits(s)
  {
    if s == "" then 0 else DigitsValue(s[..|s| - 1]) * 10 + (s[|s| - 1] - '0') as nat
  }

  /** The decimal digits of a non-negative whole number. */
  function NatText(n: nat): (s: string)
    ensures s != "" && AllDigits(s)
  {
    if n < 10 then [('0' as int + n) as char] else NatText(n / 10) + [('0' as int + n % 10) as char]
  }

  function Zeros(k: nat): (s: string)
    ensures |s| == k && AllDigits(s)
  {
    if k == 0 then "" else "0" + Zeros(k - 1)
  }

  /** The text with zeros in front up to a width. */
  function PadStart(s: string, width: nat): (p: string)
    ensures |p| == if |s| < width then width else |s|
  {
    if |s| < width then Zeros(width - |s|) + s else s
  }

  lemma {:induction false} NatTextValue(n: nat)
    ensures DigitsValue(NatText(n)) == n
  {
    if n >= 10 {
      NatTextValue(n / 10);
      var s := NatText(n);
      assert s[..|s| - 1] == NatText(n / 10);
    } else {
      assert NatText(n)[..0] == "";
    }
  }

  lemma {:induction false} ZerosValue(k: nat, s: string)
    requires AllDigits(s)
    ensures AllDigits(Zeros(k) + s) && DigitsValue(Zeros(k) + s) == DigitsValue(s)
  {
    if k == 0 {
      assert Zeros(k) + s == s;
    } else {
      ZerosValue(k - 1, s);
      assert Zeros(k) + s == "0" + (Zeros(k - 1) + s);
      LeadingZero(Zeros(k - 1) + s);
    }
  }

  lemma {:induction false} LeadingZero(s: string)
    requires AllDigits(s)
    ensures AllDigits("0" + s) && DigitsValue("0" + s) == DigitsValue(s)
  {
    if s == "" {
      assert ("0" + s)[..0] == "";
    } else {
      LeadingZero(s[..|s| - 1]);
      assert ("0" + s)[..|s|] == "0" + s[..|s| - 1];
    }
  }

  lemma {:induction false} TrailingZeros(s: string, k: nat)
    requires AllDigits(s)
    ensures AllDigits(s + Zeros(k)) && DigitsValue(s + Zeros(k)) == DigitsValue(s) * Pow10(k)
  {
    if k == 0 {
      assert s + Zeros(0) == s;
    } else {
      ZerosSplit(k);
      assert s + Zeros(k) == (s + Zeros(k - 1)) + "0";
      TrailingZeros(s, k - 1);
      TrailingZero(s + Zeros(k - 1));
      TenTimes(DigitsValue(s), Pow10(k - 1));
    }
  }

  lemma {:induction false} TrailingZero(t: string)
    requires AllDigits(t)
    ensures AllDigits(t + "0") && DigitsValue(t + "0") == DigitsValue(t) * 10
  {
    assert (t + "0")[..|t|] == t;
  }

  lemma TenTimes(a: int, b: int)
    ensures (a * b) * 10 == a * (10 * b)
  {
  }

  lemma {:induction false} ZerosSplit(k: nat)
    requires k > 0
    ensures Zeros(k) == Zeros(k - 1) + "0"
  {
    if k > 1 {
      ZerosSplit(k - 1);
      assert Zeros(k) == "0" + (Zeros(k - 2) + "0") == ("0" + Zeros(k - 2)) + "0";
    }
  }

  // ------------------------------------------------------------------- splitting

  /** The text before the first separator, all of it when there is none. */
  function UpTo(s: string, sep: char): (p: string)
    ensures |p| <= |s| && p == s[..|p|] && sep !in p
    ensures |p| < |s| ==> s[|p|] == sep
  {
    if s == "" || s[0] == sep then "" else [s[0]] + UpTo(s[1..], sep)
  }

  /** The text between the first separator and the next, none without a separator. */
  function SecondPart(s: string, sep: char): Option<string> {
    var first := UpTo(s, sep);
    if |first| == |s| then None else Some(UpTo(s[|first| + 1..], sep))
  }

  lemma {:induction false} UpToWithout(s: string, sep: char)
    requires sep !in s
    ensures UpTo(s, sep) == s && SecondPart(s, sep) == None
  {
    assert forall k :: 0 <= k < |s| ==> s[k] != sep;
  }

  lemma {:induction false} UpToJoined(a: string, sep: char, b: string)
    requires sep !in a
    ensures UpTo(a + [sep] + b, sep) == a
  {
    if a != "" {
      assert (a + [sep] + b)[1..] == a[1..] + [sep] + b;
      assert a[0] in a;
      UpToJoined(a[1..], sep, b);
    }
  }

  lemma {:induction false} SplitJoined(a: string, sep: char, b: string)
    requires sep !in a && sep !in b
    ensures UpTo(a + [sep] + b, sep) == a && SecondPart(a + [sep] + b, sep) == Some(b)
  {
    UpToJoined(a, sep, b);
    assert (a + [sep] + b)[|a| + 1..] == b;
    UpToWithout(b, sep);
  }

  lemma DigitsHaveNo(s: string, c: char)
    requires AllDigits(s) && !IsDigit(c)
    ensures c !in s
  {
  }

  // ------------------------------------------------------------ reading a decimal

  /** Numerator over a power of ten. */
  datatype Decimal = Decimal(num: int, places: nat)

  function Unsigned(text: string): string {
    if text != "" && text[0] == '-' then text[1..] else text
  }

  function Negative(text: string): bool {
    text != "" && text[0] == '-'
  }

  /** The shared reading of a decimal string: sign, whole part and first fraction
      part. Texts whose parts are not digits have no value here. */
  function ReadDecimal(text: string): Option<Decimal> {
    var clean := Unsigned(text);
    var whole := UpTo(clean, '.');
    var fraction := match SecondPart(clean, '.') case None => "" case Some(f) => f;
    if AllDigits(whole) && AllDigits(fraction) then
      JoinDigits(whole, fraction);
      var magnitude := DigitsValue(whole + fraction);
      Some(Decimal(if Negative(text) then -(magnitude as int) else magnitude, |fraction|))
    else None
  }

  lemma JoinDigits(a: string, b: string)
    requires AllDigits(a) && AllDigits(b)
    ensures AllDigits(a + b)
  {
  }

  function ReadWhole(text: string): Option<int> {
    var digits := Unsigned(text);
    if AllDigits(digits) && (digits != "" || text == "") then
      Some(if Negative(text) then -(DigitsValue(digits) as int) else DigitsValue(digits))
    else None
  }

  /** `ratioFromDecimal(text)`: "0.6", "60", "1/3". */
  function RatioFromDecimal(text: string): Option<Rational> {
    if '/' in text then
      match (ReadWhole(UpTo(text, '/')), ReadWhole(match SecondPart(text, '/') case None => "1" case Some(d) => d))
      case (Some(n), Some(d)) => if d == 0 then None else Some(Make(n, d))
      case _ => None
    else
      match ReadDecimal(text)
      case Some(d) => Some(Make(d.num, Pow10(d.places)))
      case None => None
  }

  /** A whole number printed in decimal. */
  function IntText(n: int): string {
    if n < 0 then "-" + NatText(-n) else NatText(n)
  }

  /** A printed whole number reads as itself. */
  lemma ReadWholePrinted(n: int)
    ensures ReadWhole(IntText(n)) == Some(n) && '/' !in IntText(n) && IntText(n) != ""
  {
    var m: nat := if n < 0 then -n else n;
    NatTextValue(m);
    SignedText(n < 0, NatText(m));
    DigitsHaveNo(NatText(m), '/');
    hide NatText, DigitsValue, Unsigned, Negative;
    assert IntText(n) == (if n < 0 then "-" else "") + NatText(m);
  }

  /** The whole-number texts: nothing at all, which is zero, or an optional minus and one
      digit or more. */
  ghost predicate WholeText(text: string, n: int) {
    || (text == "" && n == 0)
    || exists negative, digits :: SignedDigits(text, negative, digits)
        && n == if negative then -(DigitsValue(digits) as int) else DigitsValue(digits)
  }

  ghost predicate SignedDigits(text: string, negative: bool, digits: string) {
    digits != "" && AllDigits(digits) && text == (if negative then "-" else "") + digits
  }

  lemma ReadWholeIs(text: string, n: int)
    ensures ReadWhole(text) == Some(n) <==> WholeText(text, n)
  {
    assert DigitsValue("") == 0;
    hide DigitsValue;
    if WholeText(text, n) && text != "" {
      var negative, digits :| SignedDigits(text, negative, digits)
        && n == if negative then -(DigitsValue(digits) as int) else DigitsValue(digits);
      SignedText(negative, digits);
    }
    if ReadWhole(text) == Some(n) && text != "" {
      assert SignedDigits(text, Negative(text), Unsigned(text));
    }
  }

  /** A text with a slash reads as the quotient of the whole numbers before and behind
      it, unless the latter is zero or one of them is none; a further slash and what is
      behind it do not count. */
  lemma FractionIs(a: string, b: string, more: string)
    requires '/' !in a && '/' !in b
    ensures var r, n, d := RatioFromDecimal(a + "/" + b), ReadWhole(a), ReadWhole(b);
      if n.Some? && d.Some? && d.value != 0 then r.Some? && Val(r.value) == n.value as real / d.value as real
      else r == None
    ensures RatioFromDecimal(a + "/" + b + "/" + more) == RatioFromDecimal(a + "/" + b)
  {
    var text, long := a + ['/'] + b, a + ['/'] + (b + ['/'] + more);
    hide ReadWhole, UpTo, SecondPart, Val;
    SplitJoined(a, '/', b);
    SplitLonger(a, '/', b, more);
    assert text == a + "/" + b && text[|a|] == '/';
    assert long == a + "/" + b + "/" + more && long[|a|] == '/';
  }

  lemma SplitLonger(a: string, sep: char, b: string, more: string)
    requires sep !in a && sep !in b
    ensures var long := a + [sep] + (b + [sep] + more); UpTo(long, sep) == a && SecondPart(long, sep) == Some(b)
  {
    UpToJoined(a, sep, b + [sep] + more);
    UpToJoined(b, sep, more);
    assert (a + [sep] + (b + [sep] + more))[|a| + 1..] == b + [sep] + more;
  }

  /** A fraction of printed whole numbers has their quotient as its value, and none
      over zero. */
  lemma FractionReads(n: int, d: int)
    ensures var r := RatioFromDecimal(IntText(n) + "/" + IntText(d));
      if d == 0 then r == None else r.Some? && Val(r.value) == n as real / d as real
  {
    ReadWholePrinted(n);
    ReadWholePrinted(d);
    hide IntText, ReadWhole, RatioFromDecimal, Val;
    FractionIs(IntText(n), IntText(d), "");
  }

  // --------------------------------------------------------- printing minor units

  /** Sign, whole part, and exactly `places` fraction digits. */
  function PrintScaled(units: int, places: nat): string {
    var abs := PadStart(NatText(Abs(units)), places + 1);
    var cut := |abs| - places;
    var fraction := if places == 0 then "" else "." + abs[cut..];
    (if units < 0 then "-" else "") + abs[..cut] + fraction
  }

  lemma {:induction false} PaddedDigits(n: nat, width: nat)
    ensures AllDigits(PadStart(NatText(n), width)) && DigitsValue(PadStart(NatText(n), width)) == n
  {
    NatTextValue(n);
    var s := NatText(n);
    if |s| < width { ZerosValue(width - |s|, s); }
  }

  /** A digit run, and possibly a point and another digit run. */
  function Parts(whole: string, fraction: string, point: bool): string {
    whole + if point then "." + fraction else ""
  }

  lemma ReadUnsigned(whole: string, fraction: string, point: bool)
    requires AllDigits(whole) && AllDigits(fraction) && (!point ==> fraction == "")
    ensures UpTo(Parts(whole, fraction, point), '.') == whole
    ensures SecondPart(Parts(whole, fraction, point), '.') == if point then Some(fraction) else None
  {
    hide UpTo, SecondPart;
    DigitsHaveNo(whole, '.');
    DigitsHaveNo(fraction, '.');
    if point {
      assert Parts(whole, fraction, point) == whole + ['.'] + fraction;
      SplitJoined(whole, '.', fraction);
    } else {
      assert Parts(whole, fraction, point) == whole;
      UpToWithout(whole, '.');
    }
  }

  /** Reading a sign and the parts after it. */
  lemma {:induction false} ReadParts(negative: bool, whole: string, fraction: string, point: bool)
    requires AllDigits(whole) && AllDigits(fraction) && whole != "" && (!point ==> fraction == "")
    ensures AllDigits(whole + fraction)
    ensures ReadDecimal((if negative then "-" else "") + Parts(whole, fraction, point))
      == Some(Decimal(if negative then -(DigitsValue(whole + fraction) as int) else DigitsValue(whole + fraction),
                      |fraction|))
    ensures '/' !in (if negative then "-" else "") + Parts(whole, fraction, point)
  {
    hide UpTo, SecondPart, DigitsValue, Unsigned, Negative;
    SignedText(negative, Parts(whole, fraction, point));
    ReadUnsigned(whole, fraction, point);
    DigitsHaveNo(whole, '/');
    DigitsHaveNo(fraction, '/');
  }

  lemma SignedText(negative: bool, tail: string)
    requires tail != "" && IsDigit(tail[0])
    ensures var text := (if negative then "-" else "") + tail;
      Unsigned(text) == tail && Negative(text) == negative
  {
  }

  /** The printed text reads back as the same number of units at the same scale. */
  lemma PrintReads(units: int, places: nat)
    ensures ReadDecimal(PrintScaled(units, places)) == Some(Decimal(units, places))
    ensures '/' !in PrintScaled(units, places)
  {
    hide DigitsValue, NatText, PadStart, ReadDecimal;
    var abs := PadStart(NatText(Abs(units)), places + 1);
    PaddedDigits(Abs(units), places + 1);
    var cut := |abs| - places;
    assert abs == abs[..cut] + abs[cut..];
    ReadParts(units < 0, abs[..cut], abs[cut..], places != 0);
    assert PrintScaled(units, places) == (if units < 0 then "-" else "") + Parts(abs[..cut], abs[cut..], places != 0);
  }

  /** So printing is injective at every scale. */
  lemma PrintInjective(a: int, b: int, places: nat)
    requires PrintScaled(a, places) == PrintScaled(b, places)
    ensures a == b
  {
    PrintReads(a, places);
    PrintReads(b, places);
  }

  // ---------------------------------------------------------- printing a rational

  /** `rToDecimalString(r, places)`. */
  function RationalText(r: Rational, places: nat): string {
    PrintScaled(PrintedQuotient(r.num, r.den, Pow10(places)), places)
  }

  /** Printing to `places` digits and reparsing gives the half-even nearest
      multiple of 10^-places. */
  lemma {:induction false} RationalTextReads(r: Rational, places: nat)
    ensures RatioFromDecimal(RationalText(r, places))
      == Some(Make(DivideAndRound(r.num * Pow10(places), r.den, HalfEven), Pow10(places)))
    ensures ReadDecimal(RationalText(r, places))
      == Some(Decimal(DivideAndRound(r.num * Pow10(places), r.den, HalfEven), places))
  {
    PrinterRoundsTheSame(r.num, r.den, Pow10(places));
    PrintReads(PrintedQuotient(r.num, r.den, Pow10(places)), places);
  }
}
