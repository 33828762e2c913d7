/** Numeric text: the part of JavaScript's unary `+` that the data file exercises, the
    comma stripping `s.replace(/,/g, '')` applied before it, and the thousands grouping
    that stripping undoes. */
module NumberText {
  import opened Wrappers

  predicate IsDigit(c: char) {
    '0' <= c <= '9'
  }

  predicate AllDigits(s: string) {
    forall i :: 0 <= i < |s| ==> IsDigit(s[i])
  }

  /** Every character is a digit or a thousands separator. */
  predicate DigitsAndCommas(s: string) {
    forall i :: 0 <= i < |s| ==> IsDigit(s[i]) || s[i] == ','
  }

  /** The value of a string of decimal digits; the empty string is 0, as `+""` is in JavaScript. */
  function DigitsValue(s: string): nat
    requires AllDigits(s)
  {
    if s == [] then 0 else DigitsValue(s[..|s| - 1]) * 10 + (s[|s| - 1] as int - '0' as int)
  }

  function Pow10(n: nat): (p: nat)
    ensures p >= 1
  {
    if n == 0 then 1 else 10 * Pow10(n - 1)
  }

  /** `s.replace(/,/g, '')`: every comma removed, everything else kept in order. */
  function StripCommas(s: string): (r: string)
    ensures ',' !in r
    ensures |r| <= |s|
    ensures ',' !in s ==> r == s
  {
    if s == [] then [] else (if s[0] == ',' then [] else [s[0]]) + StripCommas(s[1..])
  }

  lemma {:induction false} StripCommasAppend(a: string, b: string)
    ensures StripCommas(a + b) == StripCommas(a) + StripCommas(b)
  {
    if a == [] {
      assert a + b == b;
    } else {
      assert (a + b)[0] == a[0] && (a + b)[1..] == a[1..] + b;
      StripCommasAppend(a[1..], b);
    }
  }

  /** Stripping the commas from digits-and-commas text leaves only digits. */
  lemma {:induction false} StripCommasDigits(s: string)
    requires DigitsAndCommas(s)
    ensures AllDigits(StripCommas(s))
  {
    if s != [] {
      StripCommasDigits(s[1..]);
    }
  }

  /** Any character other than a digit or a comma survives the stripping. */
  lemma {:induction false} StripCommasKeeps(s: string, i: nat)
    requires i < |s| && s[i] != ','
    ensures s[i] in StripCommas(s)
  {
    if i > 0 {
      StripCommasKeeps(s[1..], i - 1);
    }
  }

  /** JavaScript's unary `+` on text that must denote an integer: an unsigned run of digits
      (the empty run reads 0); anything else is NaN, here `None`. */
  function ToInteger(s: string): (r: Option<nat>)
    ensures r.Some? <==> AllDigits(s)
  {
    if AllDigits(s) then Some(DigitsValue(s)) else None
  }

  /** Position of the first `.` in `s`, or `|s|` when there is none. */
  function DotIndex(s: string): (k: nat)
    ensures k <= |s| && '.' !in s[..k]
    ensures k < |s| ==> s[k] == '.'
  {
    if s == [] then 0
    else if s[0] == '.' then 0
    else
      var k := 1 + DotIndex(s[1..]);
      assert s[..k] == [s[0]] + s[1..][..k - 1];
      k
  }

  /** JavaScript's unary `+` on an unsigned decimal literal `ddd`, `ddd.ddd`, `ddd.` or `.ddd`
      (the empty string reads 0, a lone `.` is NaN); anything else is NaN, here `None`. */
  function ToDecimal(s: string): (r: Option<real>)
    ensures AllDigits(s) ==> r == Some(DigitsValue(s) as real)
    ensures ',' in s ==> r == None
    ensures r.Some? ==> r.value >= 0.0
  {
    var k := DotIndex(s);
    if k == |s| then
      if AllDigits(s) then Some(DigitsValue(s) as real) else None
    else
      var whole, frac := s[..k], s[k + 1..];
      assert s == whole + [s[k]] + frac;
      if AllDigits(whole) && AllDigits(frac) && (|whole| > 0 || |frac| > 0) then
        Some(DigitsValue(whole) as real + DigitsValue(frac) as real / Pow10(|frac|) as real)
      else
        None
  }

  /** The stripped text is all digits exactly when the original held only digits and commas. */
  lemma StrippedDigits(s: string)
    ensures AllDigits(StripCommas(s)) <==> DigitsAndCommas(s)
  {
    if DigitsAndCommas(s) {
      StripCommasDigits(s);
    } else {
      var i :| 0 <= i < |s| && !IsDigit(s[i]) && s[i] != ',';
      StripCommasKeeps(s, i);
    }
  }

  /** A count field: `+s.replace(/,/g, '')`. It reads exactly the digits-and-commas strings,
      as the number their digits spell. */
  function ToCount(s: string): (r: Option<nat>)
    ensures r.Some? <==> DigitsAndCommas(s)
    ensures r.Some? ==> AllDigits(StripCommas(s)) && r.value == DigitsValue(StripCommas(s))
  {
    StrippedDigits(s);
    ToInteger(StripCommas(s))
  }

  function DigitChar(d: nat): (c: char)
    requires d < 10
    ensures IsDigit(c)
  {
    ('0' as int + d) as char
  }

  /** Shortest decimal spelling of `n`; it reads back as `n`. */
  function Decimal(n: nat): (s: string)
    ensures |s| > 0 && AllDigits(s) && DigitsValue(s) == n
  {
    if n < 10 then [DigitChar(n)]
    else
      var p := Decimal(n / 10);
      var s := p + [DigitChar(n % 10)];
      assert s[..|s| - 1] == p;
      s
  }

  /** Digits hold no separator. */
  lemma DigitsHaveNoComma(s: string)
    requires AllDigits(s)
    ensures ',' !in s
  {
  }

  /** Stripping a text and a separator after it strips the text alone. */
  lemma StripCommasSeparator(g: string)
    ensures StripCommas(g + ",") == StripCommas(g)
  {
    var sep: string := ",";
    assert StripCommas(sep) == [] by {
      assert sep[1..] == [];
    }
    StripCommasAppend(g, sep);
  }

  /** Joining grouped digits, a separator and three more digits strips back to the digits. */
  lemma JoinGroups(g: string, head: string, tail: string)
    requires StripCommas(g) == head && AllDigits(tail)
    ensures StripCommas(g + "," + tail) == head + tail
  {
    StripCommasSeparator(g);
    DigitsHaveNoComma(tail);
    StripCommasAppend(g + ",", tail);
  }

  /** Thousands grouping of a digit string: a comma before every group of three digits
      counted from the right. */
  function Group(d: string): (g: string)
    requires AllDigits(d)
    ensures StripCommas(g) == d
    decreases |d|
  {
    if |d| <= 3 then d
    else
      var head, tail := d[..|d| - 3], d[|d| - 3..];
      assert AllDigits(head) && AllDigits(tail);
      var gh := Group(head);
      JoinGroups(gh, head, tail);
      assert d == head + tail;
      gh + "," + tail
  }

  /** Thousands grouping of the shortest decimal spelling of `n`: what `d3.format(",")`
      prints for a count below 10^12. */
  function Grouped(n: nat): string {
    Group(Decimal(n))
  }

  /** Grouped digits read back, as a count, to the value of the digits. */
  lemma GroupReadsBack(d: string)
    requires AllDigits(d)
    ensures ToCount(Group(d)) == Some(DigitsValue(d))
  {
    var g := Group(d);
    if !DigitsAndCommas(g) {
      var i :| 0 <= i < |g| && !IsDigit(g[i]) && g[i] != ',';
      StripCommasKeeps(g, i);
      assert false;
    }
  }
}
