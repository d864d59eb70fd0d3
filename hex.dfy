/** Fixed-width upper-case hexadecimal, as printf's `%.<w>X` prints a value
    that fits in `w` digits: most significant digit first, zero-padded. */
module Hex {
  import opened Lex

  function Pow16(w: nat): (r: nat)
    ensures r >= 1
  {
    if w == 0 then 1 else 16 * Pow16(w - 1)
  }

  predicate IsUpperHexDigit(c: char) {
    ('0' <= c <= '9') || ('A' <= c <= 'F')
  }

  /** The digit for `d`: '0'..'9' then 'A'..'F'. */
  function Digit(d: nat): (c: char)
    requires d < 16
    ensures IsUpperHexDigit(c)
  {
    if d < 10 then (48 + d) as char else (55 + d) as char
  }

  function DigitValue(c: char): (d: nat)
    requires IsUpperHexDigit(c)
    ensures d < 16
  {
    if c <= '9' then c as nat - 48 else c as nat - 55
  }

  /** The last `w` hexadecimal digits of `n`. */
  function Digits(n: nat, w: nat): string
    decreases w
  {
    if w == 0 then "" else Digits(n / 16, w - 1) + [Digit(n % 16)]
  }

  predicate AllHex(s: string) {
    forall i :: 0 <= i < |s| ==> IsUpperHexDigit(s[i])
  }

  /** The number a string of hexadecimal digits denotes. */
  function Value(s: string): nat
    requires AllHex(s)
  {
    if s == [] then 0 else 16 * Value(s[..|s| - 1]) + DigitValue(s[|s| - 1])
  }

  /** `Digits(n, w)` is exactly `w` upper-case hexadecimal digits. */
  lemma {:induction false} DigitsShape(n: nat, w: nat)
    ensures |Digits(n, w)| == w && AllHex(Digits(n, w))
    decreases w
  {
    if w > 0 {
      DigitsShape(n / 16, w - 1);
    }
  }

  /** Reading the digits back gives the value: nothing is lost when `n` fits. */
  lemma {:induction false} DigitsValue(n: nat, w: nat)
    requires n < Pow16(w)
    ensures AllHex(Digits(n, w)) && Value(Digits(n, w)) == n
    decreases w
  {
    DigitsShape(n, w);
    if w > 0 {
      var s := Digits(n, w);
      DigitsValue(n / 16, w - 1);
      assert s[..|s| - 1] == Digits(n / 16, w - 1);
      assert DigitValue(Digit(n % 16)) == n % 16;
    }
  }

  lemma DigitsInjective(a: nat, b: nat, w: nat)
    requires a < Pow16(w) && b < Pow16(w)
    requires Digits(a, w) == Digits(b, w)
    ensures a == b
  {
    DigitsValue(a, w);
    DigitsValue(b, w);
  }

  /** Fixed width makes the string order agree with the numeric order. */
  lemma {:induction false} DigitsOrder(a: nat, b: nat, w: nat)
    requires a < b < Pow16(w)
    ensures Less(Digits(a, w), Digits(b, w))
    decreases w
  {
    assert w > 0;
    DigitsShape(a / 16, w - 1);
    DigitsShape(b / 16, w - 1);
    if a / 16 < b / 16 {
      DigitsOrder(a / 16, b / 16, w - 1);
      LessEqualLength(Digits(a / 16, w - 1), Digits(b / 16, w - 1), [Digit(a % 16)], [Digit(b % 16)]);
    } else {
      assert a / 16 == b / 16 && a % 16 < b % 16;
      assert Less([Digit(a % 16)], [Digit(b % 16)]);
      LessCommonPrefix(Digits(a / 16, w - 1), [Digit(a % 16)], [Digit(b % 16)]);
    }
  }
}
