/** The tooltips' `d3.format(",")` on a count. With no type the specifier means `.12~g`:
    twelve significant digits, thousands separators in fixed notation, trailing zeros
    trimmed, and exponent notation once a count has more than twelve digits. */
module CountFormat {
  import opened Wrappers
  import opened NumberText

  lemma {:induction false} Pow10Monotone(a: nat, b: nat)
    requires a <= b
    ensures Pow10(a) <= Pow10(b)
    decreases b
  {
    if a < b {
      Pow10Monotone(a, b - 1);
    }
  }

  /** The number of decimal digits of `n` (0 has one). */
  function NumDigits(n: nat): (k: nat)
    ensures k >= 1 && n < Pow10(k)
    ensures n > 0 ==> Pow10(k - 1) <= n
  {
    if n < 10 then 1
    else
      var k := 1 + NumDigits(n / 10);
      assert n / 10 < Pow10(k - 1);
      assert Pow10(k - 2) <= n / 10;
      k
  }

  /** A count of at least 10^12 has thirteen digits or more. */
  lemma ManyDigits(n: nat)
    requires n >= Pow10(12)
    ensures NumDigits(n) >= 13
  {
    if NumDigits(n) <= 12 {
      Pow10Monotone(NumDigits(n), 12);
    }
  }

  /** The text with its trailing zeros removed (the `~` of `.12~g`). */
  function TrimZeros(s: string): (t: string)
    ensures |t| <= |s| && t == s[..|t|]
    ensures t == [] || t[|t| - 1] != '0'
  {
    if s == [] || s[|s| - 1] != '0' then s else TrimZeros(s[..|s| - 1])
  }

  /** `n` rounded to twelve significant digits, `n` having `e + 1` digits: the mantissa
      (twelve digits, halves rounded upward as `toPrecision` does) and the exponent, which
      grows by one when the rounding carries into a thirteenth digit. */
  function RoundTo12(n: nat, e: nat): (nat, nat)
    requires e >= 11
  {
    var unit := Pow10(e - 11);
    var m := if 2 * (n % unit) >= unit then n / unit + 1 else n / unit;
    if m == Pow10(12) then (Pow10(11), e + 1) else (m, e)
  }

  /** The exponent text of a mantissa and an exponent: the first mantissa digit, the rest
      after a point with trailing zeros trimmed (no point when nothing is left), then `e+`
      and the exponent. */
  function ExponentText(mant: nat, exp: nat): (s: string)
    ensures 'e' in s && ',' !in s
  {
    var digits := Decimal(mant);
    var frac := TrimZeros(digits[1..]);
    var point: string := if frac == [] then "" else "." + frac;
    DigitsHaveNoComma(digits);
    DigitsHaveNoComma(Decimal(exp));
    var s := [digits[0]] + point + "e+" + Decimal(exp);
    assert s[1 + |point|] == 'e';
    s
  }

  /** `n.toPrecision(12)` for `n >= 10^12`, with trailing fraction zeros trimmed. d3's
      grouping then finds a single integer digit and adds no separator. */
  function ExponentForm(n: nat): (s: string)
    requires n >= Pow10(12)
    ensures 'e' in s && ',' !in s
  {
    ManyDigits(n);
    var (mant, exp) := RoundTo12(n, NumDigits(n) - 1);
    ExponentText(mant, exp)
  }

  /** `d3.format(",")` applied to a non-negative integer. With no type it is `.12~g`:
      fixed notation with thousands separators below 10^12, exponent form from there on. */
  function FormatCount(n: nat): (s: string)
    ensures n < Pow10(12) ==> s == Grouped(n)
    ensures n >= Pow10(12) ==> 'e' in s
  {
    if n < Pow10(12) then Grouped(n) else ExponentForm(n)
  }

  /** A count formatted with `d3.format(",")` and read back with the comma-stripping parser
      gives the count exactly when it is below 10^12; from there on the text is in exponent
      form and does not read as a count at all. */
  lemma FormatThenParse(n: nat)
    ensures n < Pow10(12) ==> ToCount(FormatCount(n)) == Some(n)
    ensures n >= Pow10(12) ==> ToCount(FormatCount(n)) == None
  {
    if n < Pow10(12) {
      GroupReadsBack(Decimal(n));
    } else {
      var s := FormatCount(n);
      var i :| 0 <= i < |s| && s[i] == 'e';
      assert !DigitsAndCommas(s);
    }
  }
}
