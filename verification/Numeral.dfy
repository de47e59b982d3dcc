/** Numbers: the `%d` text of print_number and the reader parse_number. */
module Numeral {
  import opened CText
  import opened JsonValue

  predicate IsDigit(c: char) {
    '0' <= c <= '9'
  }

  function DigitVal(c: char): (d: nat)
    requires IsDigit(c)
    ensures d < 10
  {
    c as int - '0' as int
  }

  function DigitChar(d: nat): (c: char)
    requires d < 10
    ensures IsDigit(c) && DigitVal(c) == d
  {
    (d + '0' as int) as char
  }

  /** Decimal digits of a natural number, most significant first. */
  function Decimal(n: nat): (t: string)
    ensures |t| > 0
    ensures IsDigit(t[0])
    ensures n > 0 ==> t[0] != '0'
    ensures n == 0 ==> t == "0"
  {
    if n < 10 then [DigitChar(n)] else Decimal(n / 10) + [DigitChar(n % 10)]
  }

  /** The text print_number gives an integer. */
  function IntText(n: int): (t: string)
    ensures |t| > 0
    ensures t[0] == '-' || IsDigit(t[0])
  {
    if n < 0 then "-" + Decimal(-n) else Decimal(n)
  }

  lemma {:induction false} DecimalLength(n: nat, k: nat)
    requires n < Pow10Nat(k) && k > 0
    ensures |Decimal(n)| <= k
    decreases k
  {
    if n >= 10 {
      DecimalLength(n / 10, k - 1);
    }
  }

  /** The 21-byte block of print_number holds every 32-bit integer. */
  lemma IntTextLength(n: int)
    requires INT_MIN <= n <= INT_MAX
    ensures |IntText(n)| <= 11
  {
    assert Pow10Nat(10) == 10 * Pow10Nat(9) == 100 * Pow10Nat(8) == 1000 * Pow10Nat(7)
        == 10000 * Pow10Nat(6) == 100000 * Pow10Nat(5) == 1000000 * Pow10Nat(4)
        == 10000000 * Pow10Nat(3) == 100000000 * Pow10Nat(2) == 1000000000 * Pow10Nat(1) == 10000000000;
    DecimalLength(if n < 0 then -n else n, 10);
  }

  function Pow10Nat(k: nat): (p: nat)
    ensures p > 0
  {
    if k == 0 then 1 else 10 * Pow10Nat(k - 1)
  }

  /** `pow(10.0, e)` without rounding. */
  function Pow10(e: int): real {
    if e >= 0 then Pow10Nat(e) as real else 1.0 / (Pow10Nat(-e) as real)
  }

  datatype Run = Run(n: nat, end: nat)

  /** A run of digits accumulated onto `acc`. */
  function Digits(s: string, i: nat, acc: nat): (r: Run)
    requires i <= |s|
    ensures i <= r.end <= |s|
    ensures IsDigit(At(s, i)) ==> i < r.end
    ensures !IsDigit(At(s, r.end))
    decreases |s| - i
  {
    if IsDigit(At(s, i)) then Digits(s, i + 1, acc * 10 + DigitVal(At(s, i))) else Run(acc, i)
  }

  datatype Number = Number(d: real, end: nat)

  /** What parse_number reads at `i`: sign, one optional zero, integer part, fraction, exponent. */
  function ParseNumber(s: string, i: nat): (r: Number)
    requires i <= |s|
    ensures i <= r.end <= |s|
    ensures At(s, i) == '-' || IsDigit(At(s, i)) ==> i < r.end
  {
    var i1 := if At(s, i) == '-' then i + 1 else i;
    var i2 := if At(s, i1) == '0' then i1 + 1 else i1;
    var whole := if '1' <= At(s, i2) <= '9' then Digits(s, i2, 0) else Run(0, i2);
    var dot := At(s, whole.end) == '.' && IsDigit(At(s, whole.end + 1));
    var frac := if dot then Digits(s, whole.end + 1, whole.n) else whole;
    var scale := if dot then frac.end - (whole.end + 1) else 0;
    var exp := ParseExponent(s, frac.end);
    var mantissa := if At(s, i) == '-' then -(frac.n as real) else frac.n as real;
    Number(mantissa * Pow10(exp.0 - scale), exp.1)
  }

  /** The optional exponent: its signed value and where it ends. */
  function ParseExponent(s: string, i: nat): (r: (int, nat))
    requires i <= |s|
    ensures i <= r.1 <= |s|
  {
    if At(s, i) != 'e' && At(s, i) != 'E' then (0, i)
    else
      var signed := At(s, i + 1) == '+' || At(s, i + 1) == '-';
      var run := Digits(s, if signed then i + 2 else i + 1, 0);
      var value: int := run.n;
      (if At(s, i + 1) == '-' then -value else value, run.end)
  }

  /** A character that ends a numeral. */
  predicate EndsNumber(c: char) {
    !IsDigit(c) && c != '.' && c != 'e' && c != 'E'
  }

  lemma {:induction false} DigitsOfDecimal(s: string, i: nat, n: nat)
    requires Has(s, i, Decimal(n))
    ensures Digits(s, i, 0) == Digits(s, i + |Decimal(n)|, n)
  {
    if n < 10 {
      HasFirst(s, i, Decimal(n));
    } else {
      var front := Decimal(n / 10);
      HasConcat(s, i, front, [DigitChar(n % 10)]);
      DigitsOfDecimal(s, i, n / 10);
      HasFirst(s, i + |front|, [DigitChar(n % 10)]);
    }
  }

  lemma IntTextStart(s: string, i: nat, n: int)
    requires Has(s, i, IntText(n))
    ensures var m: nat := if n < 0 then -n else n;
            var i1 := if n < 0 then i + 1 else i;
            && Has(s, i1, Decimal(m)) && i1 + |Decimal(m)| == i + |IntText(n)| <= |s|
            && (n < 0 ==> At(s, i) == '-')
  {
    HasFirst(s, i, IntText(n));
    if n < 0 {
      assert IntText(n)[1..] == Decimal(-n);
    }
  }

  lemma DecimalStart(s: string, i: nat, m: nat)
    requires Has(s, i, Decimal(m))
    ensures IsDigit(At(s, i)) && (m == 0 ==> At(s, i) == '0' && |Decimal(m)| == 1) && (m > 0 ==> At(s, i) != '0')
  {
    hide Decimal;
    HasFirst(s, i, Decimal(m));
  }

  /** Reading back an integer's text gives the integer and consumes all of it. */
  lemma ParseIntText(s: string, i: nat, n: int)
    requires Has(s, i, IntText(n)) && EndsNumber(At(s, i + |IntText(n)|))
    ensures ParseNumber(s, i) == Number(n as real, i + |IntText(n)|)
  {
    hide Decimal, Has;
    var i1 := if n < 0 then i + 1 else i;
    var m: nat := if n < 0 then -n else n;
    IntTextStart(s, i, n);
    DecimalStart(s, i1, m);
    if m > 0 {
      DigitsOfDecimal(s, i1, m);
      assert Digits(s, i1 + |Decimal(m)|, m) == Run(m, i1 + |Decimal(m)|);
    }
    assert Pow10(0) == 1.0;
  }
}
