/**
 * Decimal digits and numbers: the arithmetic behind `str::parse` on a digit
 * string, `ilog10(n) + 1`, `10_u64.pow(i)` and `n / 10^i % 10` as the
 * solvers use them. Numbers are unbounded naturals.
 */
module DecimalDigits {

  function Max(a: nat, b: nat): nat { if a >= b then a else b }

  function Pow10(n: nat): (r: nat)
    ensures r >= 1
  {
    if n == 0 then 1 else 10 * Pow10(n - 1)
  }

  lemma Pow10Add(a: nat, b: nat)
    ensures Pow10(a + b) == Pow10(a) * Pow10(b)
  {
    if a > 0 {
      Pow10Add(a - 1, b);
    }
  }

  lemma Pow10Monotone(a: nat, b: nat)
    requires a <= b
    ensures Pow10(a) <= Pow10(b)
  {
    if a < b {
      Pow10Monotone(a, b - 1);
    }
  }

  /** An ASCII decimal digit, which is what `char::is_digit(10)` accepts. */
  predicate IsDigit(c: char) {
    '0' <= c <= '9'
  }

  /** The value of a digit character (`to_digit(10)`); characters that are not digits never reach it. */
  function DigitValue(c: char): (d: nat)
    ensures d < 10
  {
    if IsDigit(c) then c as int - '0' as int else 0
  }

  function DigitChar(d: nat): (c: char)
    requires d < 10
    ensures IsDigit(c) && DigitValue(c) == d
  {
    ('0' as int + d) as char
  }

  predicate AllDigits(ds: seq<char>) {
    forall i :: 0 <= i < |ds| ==> IsDigit(ds[i])
  }

  /** The number a digit string denotes, most significant digit first; leading zeros are allowed. */
  function DecimalValue(ds: seq<char>): (n: nat)
    ensures n < Pow10(|ds|)
  {
    if ds == [] then 0 else 10 * DecimalValue(ds[..|ds| - 1]) + DigitValue(ds[|ds| - 1])
  }

  /** The number of decimal digits of `n`, `ilog10(n) + 1` for `n >= 1`. */
  function NumDigits(n: nat): (k: nat)
    ensures k >= 1
  {
    if n < 10 then 1 else 1 + NumDigits(n / 10)
  }

  /** `NumDigits(n)` is the `k` with `10^(k-1) <= n < 10^k`. */
  lemma {:induction false} NumDigitsBounds(n: nat)
    requires n >= 1
    ensures Pow10(NumDigits(n) - 1) <= n < Pow10(NumDigits(n))
  {
    if n >= 10 {
      NumDigitsBounds(n / 10);
    }
  }

  /** Any `k` with `10^(k-1) <= n < 10^k` is the digit count. */
  lemma {:induction false} NumDigitsUnique(n: nat, k: nat)
    requires k >= 1 && Pow10(k - 1) <= n < Pow10(k)
    ensures NumDigits(n) == k
  {
    if n >= 10 {
      NumDigitsUnique(n / 10, k - 1);
    }
  }

  /** The decimal rendering of `n` without leading zeros; zero is "0". */
  function Decimal(n: nat): (ds: seq<char>)
    ensures AllDigits(ds) && |ds| == NumDigits(n)
    ensures ds[0] != '0' || n == 0
    ensures DecimalValue(ds) == n
  {
    if n < 10 then [DigitChar(n)]
    else
      var front := Decimal(n / 10);
      assert (front + [DigitChar(n % 10)])[..|front|] == front;
      front + [DigitChar(n % 10)]
  }

  /** Digit `i` of `n`, counting from the least significant: `n / 10^i % 10`. */
  function DigitAt(n: nat, i: nat): (d: nat)
    ensures d < 10
  {
    n / Pow10(i) % 10
  }

  // ----- Division -----

  lemma MulLe(a: int, b: int, w: nat)
    requires a <= b
    ensures a * w <= b * w
  {
    assert b * w - a * w == (b - a) * w;
  }

  /** Quotient and remainder are unique. */
  lemma DivUnique(n: nat, d: nat, q: nat, r: nat)
    requires d > 0 && n == q * d + r && r < d
    ensures n / d == q && n % d == r
  {
    var q', r' := n / d, n % d;
    assert n == q' * d + r';
    if q' < q {
      MulLe(q' + 1, q, d);
    } else if q < q' {
      MulLe(q + 1, q', d);
    }
  }

  /** Dividing by a, then by b, is dividing by a * b. */
  lemma DivDiv(n: nat, a: nat, b: nat)
    requires a > 0 && b > 0
    ensures n / a / b == n / (a * b)
  {
    var q, r := n / a, n % a;
    var q2, r2 := q / b, q % b;
    assert n == q * a + r;
    assert q == q2 * b + r2;
    assert q * a == q2 * (a * b) + r2 * a by {
      assert q * a == (q2 * b + r2) * a;
    }
    MulLe(r2, b - 1, a);
    assert (b - 1) * a == a * b - a;
    DivUnique(n, a * b, q2, r2 * a + r);
  }

  /** Below b * a, the quotient by a is below b. */
  lemma DivBelow(n: nat, a: nat, b: nat)
    requires a > 0 && n < b * a
    ensures n / a < b
  {
    var q := n / a;
    assert n == q * a + n % a;
    if q >= b {
      MulLe(b, q, a);
    }
  }
}
