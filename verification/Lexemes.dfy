/** Integer lexemes of any length: comparing digit strings decides the shared numeric range. */
module Lexemes {
  import opened JsonGrammar
  import opened Wrappers

  /** The largest integer both clients represent exactly, 2^53 - 1, and its digits. */
  const SAFE_INTEGER: int := 9007199254740991
  const SAFE_DIGITS: Text :=
    [0x39, 0x30, 0x30, 0x37, 0x31, 0x39, 0x39, 0x32, 0x35, 0x34, 0x37, 0x34, 0x30, 0x39, 0x39, 0x31]

  predicate Negative(raw: Text) { raw != [] && raw[0] == MINUS }
  function DigitsOf(raw: Text): Text { if Negative(raw) then raw[1..] else raw }

  /** The token pattern: an optional minus, then zero or digits without a leading zero. */
  predicate IsIntegerToken(raw: Text) {
    var digits := DigitsOf(raw);
    digits != [] && Digits(digits) && (digits == [0x30] || NonZero(digits[0]))
  }

  /** The decimal number the digits denote. */
  function Decimal(digits: Text): (v: int)
    requires Digits(digits)
    ensures v >= 0
  {
    if digits == [] then 0 else 10 * Decimal(digits[..|digits| - 1]) + (digits[|digits| - 1] - 0x30)
  }

  function IntegerValue(raw: Text): int
    requires IsIntegerToken(raw)
  {
    if Negative(raw) then -Decimal(DigitsOf(raw)) else Decimal(DigitsOf(raw))
  }

  /** String comparison by code units, as the language orders strings. */
  predicate AtMost(a: Text, b: Text) {
    a == [] || (b != [] && (a[0] < b[0] || (a[0] == b[0] && AtMost(a[1..], b[1..]))))
  }

  /** The decision on the digits alone: fewer digits, or as many and not after the limit. */
  predicate InSharedRange(raw: Text) {
    var digits := DigitsOf(raw);
    |digits| < |SAFE_DIGITS| || (|digits| == |SAFE_DIGITS| && AtMost(digits, SAFE_DIGITS))
  }

  function Power(n: nat): (v: int)
    ensures v > 0
  {
    if n == 0 then 1 else 10 * Power(n - 1)
  }

  lemma {:induction false} DecimalBelowPower(digits: Text)
    requires Digits(digits)
    ensures Decimal(digits) < Power(|digits|)
    decreases |digits|
  {
    if digits != [] {
      DecimalBelowPower(digits[..|digits| - 1]);
    }
  }

  /** The leading digit weighs the power of the digits after it. */
  lemma {:induction false} DecimalLead(digits: Text)
    requires Digits(digits) && digits != []
    ensures Decimal(digits) == (digits[0] - 0x30) * Power(|digits| - 1) + Decimal(digits[1..])
    decreases |digits|
  {
    var n := |digits| - 1;
    if n > 0 {
      var init := digits[..n];
      DecimalLead(init);
      assert digits[1..][..n - 1] == init[1..];
      assert digits[1..][n - 1] == digits[n];
      Times(digits[0] - 0x30, Power(n - 1));
    }
  }

  lemma Times(d: int, p: int)
    ensures 10 * (d * p) == d * (10 * p)
  {
  }

  lemma {:induction false} SameLengthOrder(a: Text, b: Text)
    requires Digits(a) && Digits(b) && |a| == |b|
    ensures AtMost(a, b) <==> Decimal(a) <= Decimal(b)
    decreases |a|
  {
    if a != [] {
      DecimalLead(a);
      DecimalLead(b);
      DecimalBelowPower(a[1..]);
      DecimalBelowPower(b[1..]);
      SameLengthOrder(a[1..], b[1..]);
      LeadDecides(a[0] - 0x30, b[0] - 0x30, Power(|a| - 1), Decimal(a[1..]), Decimal(b[1..]));
    }
  }

  lemma {:induction false} TimesGap(x: int, y: int, p: int)
    requires x < y && p >= 0
    ensures x * p + p <= y * p
    decreases y - x
  {
    if x + 1 < y {
      TimesGap(x, y - 1, p);
    }
    assert (y - 1) * p + p == y * p;
  }

  lemma LeadDecides(x: int, y: int, p: int, u: int, v: int)
    requires 0 <= u < p && 0 <= v < p
    ensures x < y ==> x * p + u < y * p + v
    ensures y < x ==> y * p + v < x * p + u
  {
    if x < y {
      TimesGap(x, y, p);
    }
    if y < x {
      TimesGap(y, x, p);
    }
  }

  lemma {:induction false} PowerGrows(m: nat, n: nat)
    requires m <= n
    ensures Power(m) <= Power(n)
    decreases n
  {
    if m < n {
      PowerGrows(m, n - 1);
    }
  }

  /** A longer lexeme without a leading zero is larger. */
  lemma LongerIsLarger(a: Text, b: Text)
    requires Digits(a) && Digits(b) && |a| > |b| && NonZero(a[0])
    ensures Decimal(a) > Decimal(b)
  {
    DecimalLead(a);
    DecimalBelowPower(b);
    PowerGrows(|b|, |a| - 1);
    var d, p := a[0] - 0x30, Power(|a| - 1);
    TimesGap(0, d, p);
  }

  lemma NextDigit(k: nat, value: int)
    requires k < |SAFE_DIGITS| && Digits(SAFE_DIGITS[..k]) && Decimal(SAFE_DIGITS[..k]) == value
    ensures Digits(SAFE_DIGITS[..k + 1]) && Decimal(SAFE_DIGITS[..k + 1]) == 10 * value + (SAFE_DIGITS[k] - 0x30)
  {
    assert SAFE_DIGITS[..k + 1][..k] == SAFE_DIGITS[..k];
  }

  lemma LeadingDigits()
    ensures Digits(SAFE_DIGITS[..8]) && Decimal(SAFE_DIGITS[..8]) == 90071992
  {
    hide Decimal, Digits;
    assert SAFE_DIGITS[..0] == [] && Digits([]) && Decimal([]) == 0 by { NoDigits(); }
    NextDigit(0, 0);
    NextDigit(1, 9);
    NextDigit(2, 90);
    NextDigit(3, 900);
    NextDigit(4, 9007);
    NextDigit(5, 90071);
    NextDigit(6, 900719);
    NextDigit(7, 9007199);
  }

  lemma SafeDigits()
    ensures Digits(SAFE_DIGITS) && Decimal(SAFE_DIGITS) == SAFE_INTEGER
  {
    hide Decimal, Digits;
    LeadingDigits();
    NextDigit(8, 90071992);
    NextDigit(9, 900719925);
    NextDigit(10, 9007199254);
    NextDigit(11, 90071992547);
    NextDigit(12, 900719925474);
    NextDigit(13, 9007199254740);
    NextDigit(14, 90071992547409);
    NextDigit(15, 900719925474099);
    assert SAFE_DIGITS[..16] == SAFE_DIGITS;
  }

  lemma NoDigits()
    ensures Digits([]) && Decimal([]) == 0
  {
  }

  /** For every integer lexeme, of any length, the digit comparison is the numeric bound check. */
  lemma SharedRangeIsNumeric(raw: Text)
    requires IsIntegerToken(raw)
    ensures InSharedRange(raw) <==> -9007199254740991 <= IntegerValue(raw) <= 9007199254740991
  {
    hide Decimal, AtMost, Power;
    var digits := DigitsOf(raw);
    SafeDigits();
    if |digits| < |SAFE_DIGITS| {
      LongerIsLarger(SAFE_DIGITS, digits);
    } else if |digits| == |SAFE_DIGITS| {
      SameLengthOrder(digits, SAFE_DIGITS);
    } else {
      LongerIsLarger(digits, SAFE_DIGITS);
    }
  }

  // ---- what a token denotes ----

  /** The decimal digits of a number, without leading zeros. */
  function PrintedDigits(n: nat): Text {
    (if n < 10 then [] else PrintedDigits(n / 10)) + [0x30 + n % 10]
  }

  function Printed(v: int): Text { if v < 0 then [0x2D] + PrintedDigits(-v) else PrintedDigits(v) }

  /** The tokens are the numbers of the grammar without fraction and exponent. */
  lemma TokenIsNumber(raw: Text)
    ensures IsIntegerToken(raw) <==>
      exists n: Number :: n.WellFormed() && n.frac == None && n.exp == None && raw == n.Text()
  {
    if IsIntegerToken(raw) {
      var n := Number(Negative(raw), DigitsOf(raw), None, None);
      assert n.Text() == raw;
    }
    if n: Number :| n.WellFormed() && n.frac == None && n.exp == None && raw == n.Text() {
      assert raw == MinusText(n.minus) + n.integer;
      assert DigitsOf(raw) == n.integer;
    }
  }

  lemma {:induction false} PrintedDigitsRead(n: nat)
    ensures var t := PrintedDigits(n);
      t != [] && Digits(t) && Decimal(t) == n && (n == 0 <==> t == [0x30]) && (n > 0 ==> NonZero(t[0]))
    decreases n
  {
    if n >= 10 {
      PrintedDigitsRead(n / 10);
      var t := PrintedDigits(n);
      assert t[..|t| - 1] == PrintedDigits(n / 10);
    } else {
      assert PrintedDigits(n) == [0x30 + n];
    }
  }

  /** Every integer is what the token printed for it denotes. */
  lemma PrintedReads(v: int)
    ensures IsIntegerToken(Printed(v)) && IntegerValue(Printed(v)) == v
  {
    hide Decimal, PrintedDigits;
    PrintedDigitsRead(if v < 0 then -v else v);
    if v < 0 {
      assert DigitsOf(Printed(v)) == PrintedDigits(-v);
    }
  }

  lemma {:induction false} DigitsArePrinted(t: Text)
    requires t != [] && Digits(t) && (t == [0x30] || NonZero(t[0]))
    ensures t == PrintedDigits(Decimal(t))
    decreases |t|
  {
    hide PrintedDigits;
    var n := |t| - 1;
    if n > 0 {
      assert t[..n][0] == t[0];
      DigitsArePrinted(t[..n]);
      LeadIsPositive(t[..n]);
      PrintedSnoc(Decimal(t[..n]), t[n]);
      assert Decimal(t) == 10 * Decimal(t[..n]) + (t[n] - 0x30);
      assert t == t[..n] + [t[n]];
    } else {
      assert Decimal(t[..0]) == 0;
      OneDigitPrinted(t[0]);
      assert t == [t[0]];
    }
  }

  lemma OneDigitPrinted(digit: Unit)
    requires 0x30 <= digit <= 0x39
    ensures PrintedDigits(digit - 0x30) == [digit]
  {
  }

  lemma PrintedSnoc(v: nat, digit: Unit)
    requires v >= 1 && 0x30 <= digit <= 0x39
    ensures PrintedDigits(10 * v + (digit - 0x30)) == PrintedDigits(v) + [digit]
  {
    var w := 10 * v + (digit - 0x30);
    assert w / 10 == v && w % 10 == digit - 0x30;
    assert PrintedDigits(w) == PrintedDigits(w / 10) + [0x30 + w % 10];
    hide PrintedDigits;
  }

  lemma {:induction false} LeadIsPositive(t: Text)
    requires t != [] && Digits(t) && NonZero(t[0])
    ensures Decimal(t) >= 1
    decreases |t|
  {
    if |t| > 1 {
      assert t[..|t| - 1][0] == t[0];
      LeadIsPositive(t[..|t| - 1]);
    } else {
      assert Decimal(t[..0]) == 0;
    }
  }

  /** And every token but "-0", which denotes zero, is the one printed for what it denotes. */
  lemma TokenIsPrinted(raw: Text)
    requires IsIntegerToken(raw)
    ensures raw == Printed(IntegerValue(raw)) || (raw == [0x2D, 0x30] && IntegerValue(raw) == 0)
  {
    hide Decimal, PrintedDigits;
    DigitsArePrinted(DigitsOf(raw));
    if Negative(raw) {
      assert raw == [0x2D] + DigitsOf(raw);
      if Decimal(DigitsOf(raw)) == 0 {
        PrintedDigitsRead(0);
      }
    }
  }
}
