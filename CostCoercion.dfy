/** The scripts' treatment of the `cost` column:

      .astype(str)
      .str.replace(r"[^\d.,-]", "", regex=True)
      .str.replace(",", ".", regex=False)
    then pd.to_numeric(..., errors="coerce").

    The text is rendered, stripped of everything but digits, periods, commas
    and minus signs, its commas turned into periods, and the result parsed as
    a decimal number; text that does not parse becomes a missing value rather
    than an error. Numbers are exact decimals here, not IEEE floats. */
module CostCoercion {
  import opened Cells
  import opened Wrappers

  predicate IsDigit(c: char) { '0' <= c <= '9' }

  predicate AllDigits(s: string) {
    forall i :: 0 <= i < |s| ==> IsDigit(s[i])
  }

  /** The characters the pattern `[^\d.,-]` does not remove. */
  predicate IsNumericChar(c: char) {
    IsDigit(c) || c == '.' || c == ',' || c == '-'
  }

  // ---------------------------------------------------------------------------
  // Cleaning the text

  /** `.str.replace(r"[^\d.,-]", "", regex=True)`: drop every other character. */
  function StripNonNumeric(s: string): string
    decreases |s|
  {
    if s == [] then []
    else (if IsNumericChar(s[0]) then [s[0]] else []) + StripNonNumeric(s[1..])
  }

  /** `.str.replace(",", ".", regex=False)`: every comma becomes a period. */
  function CommasToPeriods(s: string): string {
    seq(|s|, i requires 0 <= i < |s| => if s[i] == ',' then '.' else s[i])
  }

  /** The cleaned cost text handed to the numeric parser. */
  function CleanCostText(s: string): string {
    CommasToPeriods(StripNonNumeric(s))
  }

  /** Cleaning works character by character, left to right: the cleaned text
      of a concatenation is the concatenation of the cleaned texts. */
  lemma {:induction false} CleanCostTextConcat(a: string, b: string)
    ensures CleanCostText(a + b) == CleanCostText(a) + CleanCostText(b)
  {
    StripConcat(a, b);
  }

  lemma {:induction false} StripConcat(a: string, b: string)
    ensures StripNonNumeric(a + b) == StripNonNumeric(a) + StripNonNumeric(b)
    decreases |a|
  {
    if a != [] {
      assert (a + b)[1..] == a[1..] + b;
      StripConcat(a[1..], b);
    } else {
      assert a + b == b;
    }
  }

  /** What cleaning does to one character: a comma becomes a period, a digit,
      period or minus sign is kept, anything else is dropped. Together with
      CleanCostTextConcat this pins the cleaned text down completely. */
  lemma CleanCostTextOfChar(c: char)
    ensures CleanCostText([c]) ==
      if c == ',' then "." else if IsNumericChar(c) then [c] else []
  {
    assert [c][1..] == [];
    assert StripNonNumeric([c]) == (if IsNumericChar(c) then [c] else []) + StripNonNumeric([]);
  }

  /** The cleaned text holds only digits, periods and minus signs, and no comma. */
  lemma {:induction false} CleanCostTextAlphabet(s: string)
    ensures forall i :: 0 <= i < |CleanCostText(s)| ==>
      IsDigit(CleanCostText(s)[i]) || CleanCostText(s)[i] == '.' || CleanCostText(s)[i] == '-'
  {
    StripAlphabet(s);
  }

  lemma {:induction false} StripAlphabet(s: string)
    ensures forall i :: 0 <= i < |StripNonNumeric(s)| ==> IsNumericChar(StripNonNumeric(s)[i])
    decreases |s|
  {
    if s != [] {
      StripAlphabet(s[1..]);
    }
  }

  /** Cleaning keeps the digits of the input, in their order: the text that is
      already only digits is left exactly as it is. */
  lemma {:induction false} CleanCostTextKeepsDigits(s: string)
    requires AllDigits(s)
    ensures CleanCostText(s) == s
  {
    StripKeepsNumeric(s);
  }

  lemma {:induction false} StripKeepsNumeric(s: string)
    requires forall i :: 0 <= i < |s| ==> IsNumericChar(s[i])
    ensures StripNonNumeric(s) == s
    decreases |s|
  {
    if s != [] {
      StripKeepsNumeric(s[1..]);
    }
  }

  /** A digit in the cleaned text was a digit of the input. */
  lemma {:induction false} CleanCostTextDigitsFromInput(s: string)
    requires forall i :: 0 <= i < |s| ==> !IsDigit(s[i])
    ensures forall i :: 0 <= i < |CleanCostText(s)| ==> !IsDigit(CleanCostText(s)[i])
  {
    StripNoDigits(s);
  }

  lemma {:induction false} StripNoDigits(s: string)
    requires forall i :: 0 <= i < |s| ==> !IsDigit(s[i])
    ensures forall i :: 0 <= i < |StripNonNumeric(s)| ==> !IsDigit(StripNonNumeric(s)[i])
    decreases |s|
  {
    if s != [] {
      StripNoDigits(s[1..]);
    }
  }

  /** Cleaning twice is cleaning once. */
  lemma CleanCostTextIdempotent(s: string)
    ensures CleanCostText(CleanCostText(s)) == CleanCostText(s)
  {
    var t := CleanCostText(s);
    CleanCostTextAlphabet(s);
    StripKeepsNumeric(t);
    assert CommasToPeriods(t) == t;
  }

  // ---------------------------------------------------------------------------
  // Parsing the cleaned text

  /** A decimal numeral: an optional minus sign, the digits before the point,
      whether a point is written, and the digits after it. */
  datatype Decimal = Decimal(negative: bool, whole: string, point: bool, frac: string)

  predicate ValidDecimal(d: Decimal) {
    && AllDigits(d.whole)
    && AllDigits(d.frac)
    && (d.point || d.frac == [])
    && |d.whole| + |d.frac| > 0
  }

  /** The text of a numeral. */
  function Format(d: Decimal): string {
    (if d.negative then "-" else "") + UnsignedFormat(d)
  }

  /** The text of a numeral without its sign. */
  function UnsignedFormat(d: Decimal): string {
    d.whole + (if d.point then "." + d.frac else "")
  }

  /** The text the numeric parser accepts, stated directly: an optional
      leading minus sign, then digits and periods only, at most one period and
      at least one digit. */
  predicate IsNumeral(t: string) {
    IsUnsignedNumeral(if |t| > 0 && t[0] == '-' then t[1..] else t)
  }

  predicate IsUnsignedNumeral(s: string) {
    && (forall i :: 0 <= i < |s| ==> IsDigit(s[i]) || s[i] == '.')
    && (forall i, j :: 0 <= i < j < |s| ==> !(s[i] == '.' && s[j] == '.'))
    && (exists i :: 0 <= i < |s| && IsDigit(s[i]))
  }

  /** The length of the longest prefix made of digits. */
  function DigitRun(s: string): (n: nat)
    ensures n <= |s|
    ensures AllDigits(s[..n])
    ensures n < |s| ==> !IsDigit(s[n])
    decreases |s|
  {
    if s != [] && IsDigit(s[0]) then 1 + DigitRun(s[1..]) else 0
  }

  /** Parses an unsigned numeral: digits, then optionally a point and digits,
      with at least one digit in all. */
  function ParseUnsigned(negative: bool, s: string): Option<Decimal> {
    var k := DigitRun(s);
    if k == |s| then
      if k > 0 then Some(Decimal(negative, s, false, [])) else None
    else if s[k] == '.' && AllDigits(s[k + 1..]) && |s| > 1 then
      Some(Decimal(negative, s[..k], true, s[k + 1..]))
    else
      None
  }

  /** `pd.to_numeric` on one cleaned text, with `None` for a failed parse. */
  function Parse(t: string): (r: Option<Decimal>)
    ensures r.Some? ==> ValidDecimal(r.value) && Format(r.value) == t
  {
    if |t| > 0 && t[0] == '-' then
      ParseUnsignedFormats(true, t[1..]);
      assert t == "-" + t[1..];
      ParseUnsigned(true, t[1..])
    else
      ParseUnsignedFormats(false, t);
      ParseUnsigned(false, t)
  }

  lemma ParseUnsignedFormats(negative: bool, s: string)
    ensures var r := ParseUnsigned(negative, s);
      r.Some? ==> (ValidDecimal(r.value) && r.value.negative == negative
        && UnsignedFormat(r.value) == s)
  {
    var k := DigitRun(s);
    if k < |s| && s[k] == '.' && AllDigits(s[k + 1..]) && |s| > 1 {
      assert s == s[..k] + ("." + s[k + 1..]);
    }
  }

  /** Everything the unsigned parser accepts is an unsigned numeral. */
  lemma ParseUnsignedSound(negative: bool, s: string)
    ensures ParseUnsigned(negative, s).Some? ==> IsUnsignedNumeral(s)
  {
    var k := DigitRun(s);
    if ParseUnsigned(negative, s).Some? {
      if k == |s| {
        assert s[..k] == s;
        assert IsDigit(s[0]);
      } else {
        var rest := s[k + 1..];
        forall i | 0 <= i < |s| ensures IsDigit(s[i]) || s[i] == '.' {
          if i < k {
            assert s[..k][i] == s[i];
          } else if i > k {
            assert rest[i - k - 1] == s[i];
          }
        }
        forall i, j | 0 <= i < j < |s| ensures !(s[i] == '.' && s[j] == '.') {
          if i < k {
            assert s[..k][i] == s[i];
          } else {
            assert rest[j - k - 1] == s[j];
          }
        }
        if k > 0 {
          assert s[..k][0] == s[0];
          assert IsDigit(s[0]);
        } else {
          assert rest[0] == s[1];
          assert IsDigit(s[1]);
        }
      }
    }
  }

  /** Every unsigned numeral is accepted by the unsigned parser. */
  lemma ParseUnsignedComplete(negative: bool, s: string)
    ensures IsUnsignedNumeral(s) ==> ParseUnsigned(negative, s).Some?
  {
    var k := DigitRun(s);
    if IsUnsignedNumeral(s) {
      var w :| 0 <= w < |s| && IsDigit(s[w]);
      if k < |s| {
        assert s[k] == '.';
        var rest := s[k + 1..];
        forall q | 0 <= q < |rest| ensures IsDigit(rest[q]) {
          assert rest[q] == s[k + 1 + q];
        }
        assert w != k;
      }
    }
  }

  /** The parser accepts exactly the numerals. */
  lemma ParseIff(t: string)
    ensures Parse(t).Some? <==> IsNumeral(t)
  {
    if |t| > 0 && t[0] == '-' {
      ParseUnsignedSound(true, t[1..]);
      ParseUnsignedComplete(true, t[1..]);
    } else {
      ParseUnsignedSound(false, t);
      ParseUnsignedComplete(false, t);
    }
  }

  /** Formatting then parsing gives the numeral back. */
  lemma ParseFormat(d: Decimal)
    requires ValidDecimal(d)
    ensures Parse(Format(d)) == Some(d)
  {
    var body := UnsignedFormat(d);
    var k := |d.whole|;
    DigitRunOfDigits(d.whole, if d.point then "." + d.frac else "");
    assert DigitRun(body) == k;
    if d.point {
      var tail := "." + d.frac;
      assert body == d.whole + tail;
      assert body[..k] == d.whole;
      assert body[k] == '.';
      assert body[k + 1..] == tail[1..] == d.frac;
    } else {
      assert body == d.whole;
    }
    assert ParseUnsigned(d.negative, body) == Some(d);
    var t := Format(d);
    if d.negative {
      assert t == "-" + body;
      assert t[1..] == body;
    } else {
      assert t == body;
      if |body| > 0 {
        assert body[0] != '-' by {
          if k > 0 { assert body[0] == d.whole[0]; } else { assert d.point; }
        }
      }
    }
  }

  lemma DigitRunOfDigits(a: string, b: string)
    requires AllDigits(a)
    requires b == [] || !IsDigit(b[0])
    ensures DigitRun(a + b) == |a|
    decreases |a|
  {
    if a != [] {
      assert (a + b)[1..] == a[1..] + b;
      DigitRunOfDigits(a[1..], b);
    } else {
      assert a + b == b;
    }
  }

  // ---------------------------------------------------------------------------
  // The value of a numeral

  function DigitValue(c: char): nat
    requires IsDigit(c)
  {
    c as int - '0' as int
  }

  /** The number a string of decimal digits denotes. */
  function DigitsValue(s: string): nat
    requires AllDigits(s)
    decreases |s|
  {
    if s == [] then 0 else 10 * DigitsValue(s[..|s| - 1]) + DigitValue(s[|s| - 1])
  }

  function Pow10(n: nat): (p: nat)
    ensures p >= 1
  {
    if n == 0 then 1 else 10 * Pow10(n - 1)
  }

  /** The exact value of a numeral. */
  function Value(d: Decimal): real
    requires ValidDecimal(d)
  {
    var magnitude := DigitsValue(d.whole) as real + DigitsValue(d.frac) as real / Pow10(|d.frac|) as real;
    if d.negative then -magnitude else magnitude
  }

  /** n digits denote less than 10^n, so the digits after the point add less
      than one to the value. */
  lemma {:induction false} DigitsBelowPow10(s: string)
    requires AllDigits(s)
    ensures DigitsValue(s) < Pow10(|s|)
    decreases |s|
  {
    if s != [] {
      DigitsBelowPow10(s[..|s| - 1]);
    }
  }

  /** The digits before the point give the integer part of the magnitude. */
  lemma WholeIsIntegerPart(d: Decimal)
    requires ValidDecimal(d)
    ensures var m := if d.negative then -Value(d) else Value(d);
      DigitsValue(d.whole) as real <= m < DigitsValue(d.whole) as real + 1.0
  {
    DigitsBelowPow10(d.frac);
    FractionBelowOne(DigitsValue(d.frac) as real, Pow10(|d.frac|) as real);
  }

  lemma FractionBelowOne(f: real, p: real)
    requires 0.0 <= f < p
    ensures 0.0 <= f / p < 1.0
  {
    assert (f / p) * p == f;
  }

  /** Trailing zeros after the point do not change the value: "12.50" and
      "12.5" are the same number. */
  lemma TrailingZeroKeepsValue(d: Decimal)
    requires ValidDecimal(d) && d.point
    ensures ValidDecimal(d.(frac := d.frac + "0"))
    ensures Value(d.(frac := d.frac + "0")) == Value(d)
  {
    var e := d.(frac := d.frac + "0");
    assert (d.frac + "0")[..|d.frac|] == d.frac;
    var f := DigitsValue(d.frac);
    var p := Pow10(|d.frac|);
    assert DigitsValue(e.frac) == 10 * f;
    assert Pow10(|e.frac|) == 10 * p;
    assert (10 * f) as real == 10.0 * f as real && (10 * p) as real == 10.0 * p as real;
    ScaledFraction(f as real, p as real);
  }

  /** Scaling numerator and denominator by ten keeps a fraction. */
  lemma ScaledFraction(f: real, p: real)
    requires p > 0.0
    ensures (10.0 * f) / (10.0 * p) == f / p
  {
    var q := f / p;
    assert q * p == f;
    assert q * (10.0 * p) == 10.0 * f;
  }

  // ---------------------------------------------------------------------------
  // Coercion of one cell

  /** The first assignment to the cost column: `.astype(str)` and the two
      text replacements. A missing cell renders as the text "nan". A cell that
      is already a number is kept as that number: an ordinary number renders
      to text that the parser reads back as the same number. */
  function CleanCostCell(c: Cell): Cell {
    match c
    case Text(s) => Text(CleanCostText(s))
    case Null => Text(CleanCostText("nan"))
    case Number(_) => c
  }

  /** The second assignment: `pd.to_numeric(..., errors="coerce")`. Text that
      does not parse becomes a missing value instead of raising an error. */
  function ToNumeric(c: Cell): Cell {
    match c
    case Text(t) => (match Parse(t) case Some(d) => Number(Value(d)) case None => Null)
    case _ => c
  }

  /** The cost column's whole transformation of one cell. */
  function CoerceCost(c: Cell): Cell {
    ToNumeric(CleanCostCell(c))
  }

  /** Coercion never fails: every cell becomes a number or a missing value, and
      it is a number exactly when its cleaned text is a numeral (or it was a
      number already). */
  lemma CoerceCostIff(c: Cell)
    ensures CoerceCost(c).Number? || CoerceCost(c) == Null
    ensures c.Text? ==> (CoerceCost(c).Number? <==> IsNumeral(CleanCostText(c.s)))
    ensures c.Number? ==> CoerceCost(c) == c
  {
    if c.Text? {
      ParseIff(CleanCostText(c.s));
    }
  }

  /** Text with no digit at all, such as "unknown" or "n/a", becomes missing. */
  lemma NoDigitsCoercesToNull(s: string)
    requires forall i :: 0 <= i < |s| ==> !IsDigit(s[i])
    ensures !IsNumeral(CleanCostText(s))
    ensures CoerceCost(Text(s)) == Null
  {
    CleanCostTextDigitsFromInput(s);
    ParseIff(CleanCostText(s));
  }

  /** A missing cost stays missing. */
  lemma CoerceNullIsNull()
    ensures CoerceCost(Null) == Null
  {
    NoDigitsCoercesToNull("nan");
  }

  /** Coercing a coerced cell changes nothing. */
  lemma CoerceCostIdempotent(c: Cell)
    ensures CoerceCost(CoerceCost(c)) == CoerceCost(c)
  {
    CoerceCostIff(c);
    if CoerceCost(c) == Null {
      CoerceNullIsNull();
    }
  }

  /** "12,50" keeps its digits and its comma becomes the decimal point. */
  lemma DecimalCommaCleaned()
    ensures CleanCostText("12,50") == "12.50"
    ensures Parse("12.50") == Some(Decimal(false, "12", true, "50"))
    ensures IsNumeral(CleanCostText("12,50"))
  {
    StripKeepsNumeric("12,50");
    assert CleanCostText("12,50") == "12.50";
    var d := Decimal(false, "12", true, "50");
    assert Format(d) == "12.50";
    ParseFormat(d);
    ParseIff("12.50");
  }

  /** "12,50" is read with a decimal comma as 12.5. */
  lemma DecimalCommaExample()
    ensures CleanCostText("12,50") == "12.50"
    ensures CoerceCost(Text("12,50")) == Number(12.5)
    ensures IsNumeral(CleanCostText("12,50"))
  {
    DecimalCommaCleaned();
    TwelveFiftyValue();
  }

  lemma TwelveFiftyValue()
    ensures ValidDecimal(Decimal(false, "12", true, "50"))
    ensures Value(Decimal(false, "12", true, "50")) == 12.5
  {
    assert DigitsValue("1") == 1;
    assert DigitsValue("12") == 12;
    assert DigitsValue("5") == 5;
    assert DigitsValue("50") == 50;
    assert Pow10(2) == 100;
  }

  /** "$1,234.56" loses its currency sign, and its thousands comma becomes a
      second period. */
  lemma ThousandsSeparatorCleaned()
    ensures CleanCostText("$1,234.56") == "1.234.56"
  {
    var u := "1,234.56";
    assert "$1,234.56" == "$" + u;
    CleanCostTextConcat("$", u);
    assert CleanCostText("$") == [] by {
      CleanCostTextOfChar('$');
    }
    assert CleanCostText(u) == CommasToPeriods(u) by {
      StripKeepsNumeric(u);
    }
    assert CommasToPeriods(u) == "1.234.56";
  }

  /** So "$1,234.56" does not parse and becomes missing. */
  lemma ThousandsSeparatorExample()
    ensures CoerceCost(Text("$1,234.56")) == Null
  {
    ThousandsSeparatorCleaned();
    var t := "1.234.56";
    assert t[1] == '.' && t[5] == '.';
    ParseIff(t);
  }

  /** "unknown" is stripped to the empty text and becomes missing. */
  lemma UnknownExample()
    ensures CleanCostText("unknown") == ""
    ensures CoerceCost(Text("unknown")) == Null
  {
    NoDigitsCoercesToNull("unknown");
    StripNoneKept("unknown");
  }

  lemma {:induction false} StripNoneKept(s: string)
    requires forall i :: 0 <= i < |s| ==> !IsNumericChar(s[i])
    ensures StripNonNumeric(s) == []
    decreases |s|
  {
    if s != [] {
      StripNoneKept(s[1..]);
    }
  }
}
