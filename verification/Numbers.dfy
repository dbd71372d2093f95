/** Decimal integers as sprintf writes them and as the two number readers of the library accept them. */
module Numbers {
  import opened CStrings

  predicate IsDigit(c: char) {
    '0' <= c <= '9'
  }

  function DigitValue(c: char): nat
    requires IsDigit(c)
  {
    c as int - '0' as int
  }

  function Digit(d: nat): (c: char)
    requires d < 10
    ensures IsDigit(c) && DigitValue(c) == d
  {
    ('0' as int + d) as char
  }

  ghost predicate AllDigits(s: string) {
    forall c | c in s :: IsDigit(c)
  }

  /** "%lu" of a non-negative number: no leading zero, and "0" for zero. */
  function Decimal(n: nat): (s: string)
    ensures s != "" && AllDigits(s)
    ensures s[0] == '0' ==> s == "0"
  {
    if n < 10 then [Digit(n)] else Decimal(n / 10) + [Digit(n % 10)]
  }

  /** The value of a run of digits read from the left, on top of what was read before. */
  function DecimalValue(s: string, before: nat): nat
    requires AllDigits(s)
  {
    if s == "" then before else DecimalValue(s[1..], 10 * before + DigitValue(s[0]))
  }

  lemma {:induction false} DecimalValueAppend(s: string, c: char, before: nat)
    requires AllDigits(s) && IsDigit(c)
    ensures DecimalValue(s + [c], before) == 10 * DecimalValue(s, before) + DigitValue(c)
  {
    if s == "" {
      assert s + [c] == [c];
    } else {
      assert (s + [c])[1..] == s[1..] + [c];
      DecimalValueAppend(s[1..], c, 10 * before + DigitValue(s[0]));
    }
  }

  lemma {:induction false} DecimalRoundTrip(n: nat)
    ensures DecimalValue(Decimal(n), 0) == n
  {
    if n >= 10 {
      DecimalRoundTrip(n / 10);
      DecimalValueAppend(Decimal(n / 10), Digit(n % 10), 0);
    }
  }
}
