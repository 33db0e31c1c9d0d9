/** Decimal digits of natural numbers, as the driver extracts them with `% 10` and `/ 10`. */
module Decimal {
  function Pow10(k: nat): (r: nat)
    ensures r >= 1
  {
    if k == 0 then 1 else 10 * Pow10(k - 1)
  }

  lemma {:induction false} Pow10Monotone(a: nat, b: nat)
    requires a <= b
    ensures Pow10(a) <= Pow10(b)
  {
    if a < b {
      Pow10Monotone(a, b - 1);
    }
  }

  /** How many decimal digits `n` has; zero has one digit. */
  function DigitCount(n: nat): (c: nat)
    ensures c >= 1
  {
    if n < 10 then 1 else 1 + DigitCount(n / 10)
  }

  /** The digit count is the one k with 10^(k-1) <= n < 10^k (for n > 0). */
  lemma {:induction false} DigitCountBounds(n: nat)
    ensures n < Pow10(DigitCount(n))
    ensures n > 0 ==> Pow10(DigitCount(n) - 1) <= n
  {
    if n >= 10 {
      DigitCountBounds(n / 10);
    }
  }

  /** The `k` lowest decimal digits of `n`, most significant first, zero-padded. */
  function Digits(n: nat, k: nat): (ds: seq<nat>)
    ensures |ds| == k
    ensures forall i :: 0 <= i < k ==> ds[i] < 10
  {
    if k == 0 then [] else Digits(n / 10, k - 1) + [n % 10]
  }

  /** All decimal digits of `n`, most significant first ("0" for zero). */
  function DecimalDigits(n: nat): (ds: seq<nat>)
    ensures |ds| == DigitCount(n)
  {
    Digits(n, DigitCount(n))
  }

  /** The number a digit string denotes. */
  function FromDigits(ds: seq<nat>): nat
  {
    if ds == [] then 0 else 10 * FromDigits(ds[..|ds| - 1]) + ds[|ds| - 1]
  }

  lemma MulAtLeast(m: int, d: int)
    requires m > 0 && d >= 1
    ensures m * d >= m
  {
    assert m * d == m * (d - 1) + m;
    assert m * (d - 1) >= 0;
  }

  /** Euclidean division has one quotient and one remainder. */
  lemma ModUnique(n: int, m: int, q: int, r: int)
    requires m > 0 && n == m * q + r && 0 <= r < m
    ensures n % m == r && n / m == q
  {
    var q', r' := n / m, n % m;
    assert n == m * q' + r';
    if q' > q {
      var d := q' - q;
      assert m * q' == m * q + m * d;
      MulAtLeast(m, d);
      assert false;
    } else if q' < q {
      var d := q - q';
      assert m * q == m * q' + m * d;
      MulAtLeast(m, d);
      assert false;
    }
  }

  /** Taking the last digit off and the rest modulo p is taking the whole modulo 10p. */
  lemma ModTenStep(n: nat, p: nat)
    requires p >= 1
    ensures 10 * ((n / 10) % p) + n % 10 == n % (10 * p)
  {
    var q, r := n / 10, n % 10;
    var a, b := q / p, q % p;
    assert q == p * a + b;
    assert n == 10 * q + r;
    assert n == (10 * p) * a + (10 * b + r);
    ModUnique(n, 10 * p, a, 10 * b + r);
  }

  /** The k digits denote n modulo 10^k: the carry above them is what is lost. */
  lemma {:induction false} DigitsValue(n: nat, k: nat)
    ensures FromDigits(Digits(n, k)) == n % Pow10(k)
  {
    if k > 0 {
      var ds := Digits(n, k);
      assert ds[..k - 1] == Digits(n / 10, k - 1);
      DigitsValue(n / 10, k - 1);
      ModTenStep(n, Pow10(k - 1));
    }
  }

  /** Reading all digits of n back gives n. */
  lemma DecimalDigitsValue(n: nat)
    ensures FromDigits(DecimalDigits(n)) == n
  {
    DigitsValue(n, DigitCount(n));
    DigitCountBounds(n);
    ModUnique(n, Pow10(DigitCount(n)), 0, n);
  }

  /** A positive number is written without leading zeros. */
  lemma {:induction false} LeadingDigitNonZero(n: nat)
    requires n > 0
    ensures DecimalDigits(n)[0] != 0
  {
    if n >= 10 {
      LeadingDigitNonZero(n / 10);
      assert DecimalDigits(n)[0] == DecimalDigits(n / 10)[0];
    }
  }

  /** A number with at most k digits is below 10^k. */
  lemma SmallDigitCount(n: nat, k: nat)
    requires DigitCount(n) <= k
    ensures n < Pow10(k)
  {
    DigitCountBounds(n);
    Pow10Monotone(DigitCount(n), k);
  }
}
