/**
 * The few JavaScript number and string built-ins the game relies on,
 * with the semantics JavaScript gives them on integers:
 *   - `%` truncates toward zero, so its result takes the sign of the dividend;
 *   - `Number.prototype.toString()` writes an integer in decimal, with a
 *     leading `-` when it is negative;
 *   - `String.prototype.padStart(width, fill)` prepends `fill` until the
 *     string is `width` characters long.
 */
module JsPrims {

  /** `a % n` as JavaScript computes it for a positive divisor: it agrees with
      the Euclidean remainder on non-negative dividends and is odd-symmetric. */
  function JsRem(a: int, n: int): (r: int)
    requires n > 0
    ensures a >= 0 ==> 0 <= r < n && r == a % n
    ensures a < 0 ==> -n < r <= 0 && -r == (-a) % n
  {
    if a >= 0 then a % n else -((-a) % n)
  }

  /** `Math.max(a, b)`. */
  function Max(a: int, b: int): (r: int)
    ensures r >= a && r >= b && (r == a || r == b)
  {
    if a >= b then a else b
  }

  /** `Math.abs(a)`. */
  function Abs(a: int): (r: nat)
    ensures r == a || r == -a
  {
    if a < 0 then -a else a
  }

  predicate IsDigit(c: char) {
    '0' <= c <= '9'
  }

  predicate IsDigits(s: string) {
    forall i :: 0 <= i < |s| ==> IsDigit(s[i])
  }

  function DigitChar(d: nat): (c: char)
    requires d < 10
    ensures IsDigit(c) && c as int - '0' as int == d
  {
    ('0' as int + d) as char
  }

  /** The value of a string of decimal digits, read most significant first. */
  function DecimalValue(s: string): nat
    requires IsDigits(s)
  {
    if s == [] then 0
    else 10 * DecimalValue(s[..|s| - 1]) + (s[|s| - 1] as int - '0' as int)
  }

  /** The decimal numeral of a natural number, without leading zeros. */
  function NatToDecimal(n: nat): (r: string)
    ensures |r| >= 1
    ensures |r| > 1 ==> r[0] != '0'
    ensures n < 10 <==> |r| == 1
    ensures n < 100 ==> |r| <= 2
  {
    if n < 10 then [DigitChar(n)] else NatToDecimal(n / 10) + [DigitChar(n % 10)]
  }

  /** The numeral reads back as the number it was written from. */
  lemma {:induction false} NatToDecimalValue(n: nat)
    ensures IsDigits(NatToDecimal(n)) && DecimalValue(NatToDecimal(n)) == n
  {
    var r := NatToDecimal(n);
    if n >= 10 {
      var prefix := NatToDecimal(n / 10);
      assert r[..|r| - 1] == prefix;
      NatToDecimalValue(n / 10);
    }
  }

  /** `i.toString()` for an integer `i`. */
  function IntToString(i: int): (r: string)
    ensures i >= 0 ==> r == NatToDecimal(i)
    ensures i < 0 ==> |r| >= 2 && r[0] == '-' && r[1..] == NatToDecimal(-i)
  {
    if i < 0 then "-" + NatToDecimal(-i) else NatToDecimal(i)
  }

  /** `s.padStart(width, fill)` with a one-character `fill`. */
  function PadStart(s: string, width: nat, fill: char): (r: string)
    ensures |r| == if |s| >= width then |s| else width
    ensures r[|r| - |s|..] == s
    decreases width - |s|
  {
    if |s| >= width then s
    else
      var padded := [fill] + s;
      var r := PadStart(padded, width, fill);
      assert r[|r| - |padded|..] == padded;
      assert r[|r| - |s|..] == padded[1..] == s;
      r
  }

  /** Everything in front of `s` is the fill character. */
  lemma {:induction false} PadStartPrefix(s: string, width: nat, fill: char)
    ensures var r := PadStart(s, width, fill);
      forall i :: 0 <= i < |r| - |s| ==> r[i] == fill
    decreases width - |s|
  {
    if |s| < width {
      var padded := [fill] + s;
      PadStartPrefix(padded, width, fill);
      var r := PadStart(s, width, fill);
      assert r == PadStart(padded, width, fill);
      forall i | 0 <= i < |r| - |s| ensures r[i] == fill {
        if i == |r| - |padded| {
          assert r[i] == r[|r| - |padded|..][0];
        }
      }
    }
  }

  /** Padding a numeral with zeros keeps it a numeral of the same value. */
  lemma {:induction false} PadStartValue(s: string, width: nat)
    requires IsDigits(s)
    ensures IsDigits(PadStart(s, width, '0')) && DecimalValue(PadStart(s, width, '0')) == DecimalValue(s)
    decreases width - |s|
  {
    if |s| < width {
      LeadingZero(s);
      PadStartValue(['0'] + s, width);
    }
  }

  /** A leading zero does not change the value of a decimal numeral. */
  lemma {:induction false} LeadingZero(s: string)
    ensures IsDigits(s) ==> IsDigits(['0'] + s) && DecimalValue(['0'] + s) == DecimalValue(s)
  {
    var t := ['0'] + s;
    if !IsDigits(s) {
    } else if s != [] {
      assert IsDigits(s[..|s| - 1]);
      assert t[..|t| - 1] == ['0'] + s[..|s| - 1];
      LeadingZero(s[..|s| - 1]);
    } else {
      assert t[..|t| - 1] == [];
    }
  }
}
