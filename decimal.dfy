/**
 * `Number.prototype.toString(10)` on the store's counter, and the value a
 * string of digits stands for, which is what makes a counter value usable as
 * a key that was never handed out before.
 */
module Decimal {

  /** The digit character for `d`. */
  function DigitChar(d: nat): char
    requires d < 10
  {
    (48 + d) as char
  }

  /** The value of a digit character; other characters count as 0. */
  function DigitValue(c: char): nat {
    if '0' <= c <= '9' then c as int - 48 else 0
  }

  /** `n.toString(10)`: the decimal digits of `n`, most significant first. */
  function NatToDecimal(n: nat): (s: string)
    ensures |s| >= 1
    ensures forall i :: 0 <= i < |s| ==> '0' <= s[i] <= '9'
    decreases n
  {
    if n < 10 then [DigitChar(n)] else NatToDecimal(n / 10) + [DigitChar(n % 10)]
  }

  /** The number a string of decimal digits stands for. */
  function DecimalValue(s: string): nat
    decreases |s|
  {
    if |s| == 0 then 0 else DecimalValue(s[..|s| - 1]) * 10 + DigitValue(s[|s| - 1])
  }

  /** Reading back the digits of `n` gives `n`; so distinct counters give distinct keys. */
  lemma {:induction false} DecimalRoundTrip(n: nat)
    ensures DecimalValue(NatToDecimal(n)) == n
    decreases n
  {
    var s := NatToDecimal(n);
    if n < 10 {
      assert s[..0] == [];
    } else {
      assert s[..|s| - 1] == NatToDecimal(n / 10);
      DecimalRoundTrip(n / 10);
    }
  }

}
