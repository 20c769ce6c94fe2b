/**
 * Order labels. The table shows each order as "Заказ n", where n is the
 * order's label number written in decimal (a JavaScript template literal on a
 * non-negative integer: no sign, no leading zeros).
 */
module Labels {

  /** The fixed text in front of every label number. */
  const Prefix: string := "Заказ "

  predicate IsDigit(ch: char) {
    '0' <= ch <= '9'
  }

  /** Every character of s is a decimal digit. */
  predicate AllDigits(s: string) {
    forall i :: 0 <= i < |s| ==> IsDigit(s[i])
  }

  function DigitChar(d: nat): (ch: char)
    requires d < 10
    ensures IsDigit(ch) && ch as int - '0' as int == d
  {
    ('0' as int + d) as char
  }

  /** The decimal text of n, most significant digit first. */
  function Decimal(n: nat): (s: string)
    ensures |s| >= 1
    ensures AllDigits(s)
    ensures |s| > 1 ==> s[0] != '0'
  {
    if n < 10 then [DigitChar(n)] else Decimal(n / 10) + [DigitChar(n % 10)]
  }

  /** Reads a string of decimal digits back into the number it denotes. */
  function ValueOf(s: string): nat
    requires AllDigits(s)
  {
    if |s| == 0 then 0
    else
      assert IsDigit(s[|s| - 1]);
      ValueOf(s[..|s| - 1]) * 10 + (s[|s| - 1] as int - '0' as int)
  }

  /** Reading the decimal text of n gives back n. */
  lemma {:induction false} DecimalRoundTrip(n: nat)
    ensures ValueOf(Decimal(n)) == n
  {
    if n >= 10 {
      DecimalRoundTrip(n / 10);
      var s := Decimal(n);
      assert s[..|s| - 1] == Decimal(n / 10);
    }
  }

  /** The rendered label of order number n. */
  function Label(n: nat): (s: string)
    ensures |s| > |Prefix| && s[..|Prefix|] == Prefix
  {
    Prefix + Decimal(n)
  }

  /** Distinct order numbers are shown as distinct labels. */
  lemma LabelInjective(a: nat, b: nat)
    ensures Label(a) == Label(b) ==> a == b
  {
    if Label(a) == Label(b) {
      assert Decimal(a) == Label(a)[|Prefix|..];
      assert Decimal(b) == Label(b)[|Prefix|..];
      DecimalRoundTrip(a);
      DecimalRoundTrip(b);
    }
  }
}
