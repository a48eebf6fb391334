/**
 * Prices of models/item.js. A price is a JSON number; the model keeps it
 * as an exact decimal `units / 10^scale`, and its text, the string
 * `v.toString()` yields, as the shortest plain decimal spelling of that
 * value: an optional minus sign, the integer digits without leading zeros,
 * and a fraction without trailing zeros.
 */
module Price {
  import opened Text

  /** The decimal number `units / 10^scale`. */
  datatype Decimal = Decimal(units: int, scale: nat)

  function Pow10(n: nat): (r: nat)
    ensures r >= 1
  {
    if n == 0 then 1 else 10 * Pow10(n - 1)
  }

  /** Drops trailing fraction zeros: the result has none left. */
  function Normalize(d: Decimal): (r: Decimal)
    ensures r.scale <= d.scale
    ensures r.scale == 0 || r.units % 10 != 0
    decreases d.scale
  {
    if d.scale > 0 && d.units % 10 == 0 then Normalize(Decimal(d.units / 10, d.scale - 1)) else d
  }

  /** Normalizing keeps the value: `d.units` is the normal form's units scaled back up. */
  lemma {:induction false} NormalizeKeepsValue(d: Decimal)
    ensures Normalize(d).units * Pow10(d.scale - Normalize(d).scale) == d.units
    decreases d.scale
  {
    if d.scale > 0 && d.units % 10 == 0 {
      var q := d.units / 10;
      NormalizeKeepsValue(Decimal(q, d.scale - 1));
      var r := Normalize(d);
      var p := Pow10(d.scale - 1 - r.scale);
      assert Pow10(d.scale - r.scale) == 10 * p;
      assert r.units * p == q;
      assert r.units * (10 * p) == 10 * (r.units * p);
    }
  }

  /** A value and its normal form have the same sign. */
  lemma NormalizeKeepsSign(d: Decimal)
    ensures Normalize(d).units < 0 <==> d.units < 0
  {
    var r := Normalize(d);
    var p := Pow10(d.scale - r.scale);
    NormalizeKeepsValue(d);
    if r.units < 0 {
      assert r.units * p <= r.units * 1;
    } else {
      assert r.units * p >= 0;
    }
  }

  /** The value of a digit character. */
  function DigitValue(c: char): nat
    requires IsDigit(c)
  {
    c as int - '0' as int
  }

  /** The number a string of decimal digits spells, read from the left. */
  function DigitsValue(s: string): nat
    requires AllDigits(s)
  {
    if s == [] then 0 else 10 * DigitsValue(s[..|s| - 1]) + DigitValue(s[|s| - 1])
  }

  /** The character of the digit `k`. */
  function DigitChar(k: nat): (c: char)
    requires k < 10
    ensures IsDigit(c) && DigitValue(c) == k
  {
    ('0' as int + k) as char
  }

  /** The decimal digits of `n`, without leading zeros. */
  function Digits(n: nat): (s: string)
    ensures |s| >= 1 && AllDigits(s)
    ensures DigitsValue(s) == n
    ensures n >= 1 ==> s[0] != '0'
  {
    if n < 10 then [DigitChar(n)]
    else
      var s := Digits(n / 10) + [DigitChar(n % 10)];
      assert s[..|s| - 1] == Digits(n / 10);
      s
  }

  /** The last `w` decimal digits of `n`, padded with zeros on the left. */
  function PadDigits(n: nat, w: nat): (s: string)
    ensures |s| == w && AllDigits(s)
    ensures DigitsValue(s) == n % Pow10(w)
  {
    if w == 0 then []
    else
      var s := PadDigits(n / 10, w - 1) + [DigitChar(n % 10)];
      assert s[..|s| - 1] == PadDigits(n / 10, w - 1);
      LastDigitsSplit(n, Pow10(w - 1));
      s
  }

  /** The last `k + 1` digits of `n` are the last `k` digits of `n / 10` followed by the last digit of `n`. */
  lemma LastDigitsSplit(n: nat, p: nat)
    requires p >= 1
    ensures n % (10 * p) == 10 * ((n / 10) % p) + n % 10
  {
    var q, r := n / 10, n % 10;
    var a, b := q / p, q % p;
    assert n == (10 * p) * a + (10 * b + r);
    ModOfSum(n, 10 * p, a, 10 * b + r);
  }

  /** Euclidean remainder of `m * a + c` by `m`, for `0 <= c < m`, is `c`. */
  lemma ModOfSum(n: int, m: int, a: int, c: int)
    requires m >= 1 && 0 <= c < m && n == m * a + c
    ensures n % m == c
  {
    var q, r := n / m, n % m;
    var d := q - a;
    assert m * d == c - r by {
      assert m * q + r == n;
      assert m * d == m * q - m * a;
    }
    assert d == 0;
  }

  /** Euclidean division of a natural number by a positive one stays natural. */
  lemma DivModNat(n: nat, p: nat)
    requires p >= 1
    ensures n / p >= 0 && 0 <= n % p < p
  {
  }

  function Abs(x: int): nat {
    if x < 0 then -x else x
  }

  /** `d` spelt with exactly `d.scale` fraction digits. */
  function DecimalText(d: Decimal): string {
    var p := Pow10(d.scale);
    var n := Abs(d.units);
    DivModNat(n, p);
    (if d.units < 0 then "-" else "")
      + Digits(n / p)
      + (if d.scale == 0 then "" else "." + PadDigits(n % p, d.scale))
  }

  /** `v.toString()`: the spelling of the normal form. */
  function NumberText(d: Decimal): string {
    DecimalText(Normalize(d))
  }

  /** The price pattern `^\d+(\.\d{1,2})?$`. */
  predicate PricePattern(s: string) {
    || (|s| >= 1 && AllDigits(s))
    || exists k :: 1 <= k < |s| && AllDigits(s[..k]) && s[k] == '.'
                   && 1 <= |s| - k - 1 <= 2 && AllDigits(s[k + 1..])
  }

  /** A spelling matches the pattern iff the number is not negative and has at most two fraction digits. */
  lemma DecimalTextPattern(d: Decimal)
    ensures PricePattern(DecimalText(d)) <==> d.units >= 0 && d.scale <= 2
  {
    var t := DecimalText(d);
    var p := Pow10(d.scale);
    var n := Abs(d.units);
    DivModNat(n, p);
    var ds := Digits(n / p);
    if d.units < 0 {
      assert t[0] == '-';
      forall k | 1 <= k < |t| ensures !AllDigits(t[..k]) {
        assert t[..k][0] == t[0];
      }
    } else if d.scale == 0 {
      assert t == ds;
    } else {
      var fs := PadDigits(n % p, d.scale);
      assert t == ds + "." + fs;
      assert t[|ds|] == '.';
      assert t[..|ds|] == ds;
      assert t[|ds| + 1..] == fs;
      forall k | 0 <= k < |t| && k != |ds| ensures IsDigit(t[k]) {
        if k < |ds| { assert t[k] == ds[k]; } else { assert t[k] == fs[k - |ds| - 1]; }
      }
      assert !AllDigits(t);
      forall k | 1 <= k < |t| && t[k] == '.' ensures k == |ds| {
      }
    }
  }

  /** `v.toString()` matches the pattern iff the value is not negative and needs at most two fraction digits. */
  lemma NumberTextPattern(d: Decimal)
    ensures PricePattern(NumberText(d)) <==> d.units >= 0 && Normalize(d).scale <= 2
  {
    DecimalTextPattern(Normalize(d));
    NormalizeKeepsSign(d);
  }

  /** Every non-negative amount written with at most two fraction digits matches. */
  lemma WholeCentsMatch(units: nat, scale: nat)
    requires scale <= 2
    ensures PricePattern(NumberText(Decimal(units, scale)))
  {
    NumberTextPattern(Decimal(units, scale));
  }

  /** A value with a non-zero third (or later) fraction digit does not match. */
  lemma ThirdDecimalPlaceRefused(d: Decimal)
    requires d.scale >= 3 && d.units % 10 != 0
    ensures !PricePattern(NumberText(d))
  {
    NumberTextPattern(d);
  }
}
