/** Facts about Dafny's Euclidean remainder, which agrees with Python's `%`
    and numpy's `mod` for a positive divisor. */
module Remainders {

  lemma ModOfSmall(x: int, n: int)
    requires 0 <= x < n
    ensures x % n == x
  {
    ModUnique(x, n, 0, x);
  }

  /** The remainder is determined by any decomposition x = q n + r, 0 <= r < n. */
  lemma ModUnique(x: int, n: int, q: int, r: int)
    requires n >= 1 && 0 <= r < n && x == q * n + r
    ensures x % n == r
  {
    var q0 := x / n;
    assert x == q0 * n + x % n;
    assert (q - q0) * n == x % n - r;
    if q > q0 {
      MulAtLeast(q - q0, n);
    } else if q < q0 {
      assert (q0 - q) * n == r - x % n;
      MulAtLeast(q0 - q, n);
    }
  }

  lemma MulAtLeast(k: int, n: int)
    requires k >= 1 && n >= 1
    ensures k * n >= n
  {
  }

  /** Adding a multiple of n does not change the remainder. */
  lemma ModPlusMultiple(x: int, q: int, n: int)
    requires n >= 1
    ensures (x + q * n) % n == x % n
  {
    var r := x % n;
    assert x == (x / n) * n + r;
    assert x + q * n == (x / n + q) * n + r;
    ModUnique(x + q * n, n, x / n + q, r);
  }

  /** Two different numbers less than n apart leave different remainders. */
  lemma ModInjectiveOnWindow(a: int, b: int, n: int)
    requires n >= 1 && a != b && -n < a - b < n
    ensures a % n != b % n
  {
    if a % n == b % n {
      var qa, qb := a / n, b / n;
      assert a == qa * n + a % n && b == qb * n + b % n;
      assert a - b == (qa - qb) * n;
      assert b - a == (qb - qa) * n;
      if qa > qb {
        MulAtLeast(qa - qb, n);
      } else if qa < qb {
        MulAtLeast(qb - qa, n);
      }
    }
  }

  /** Equal remainders differ by a multiple of n. */
  lemma SameModDiffers(x: int, y: int, n: int)
    requires n >= 1 && x % n == y % n
    ensures x - y == (x / n - y / n) * n
  {
    assert x == (x / n) * n + x % n && y == (y / n) * n + y % n;
  }

  /** A multiple of an even number is even. */
  lemma MultipleOfEven(k: int, n: int)
    requires n % 2 == 0
    ensures (k * n) % 2 == 0
  {
    assert k * n == 2 * (k * (n / 2));
  }

  /** `x % n` for x = r + m n with 0 <= r < n. */
  lemma CongruentToSmall(x: int, r: int, m: int, n: int)
    requires n >= 1 && 0 <= r < n && x == r + m * n
    ensures x % n == r
  {
    ModUnique(x, n, m, r);
  }

  /** An odd difference is no multiple of an even modulus. */
  lemma OddDifferenceNotCongruent(x: int, y: int, n: int)
    requires n >= 2 && n % 2 == 0 && (x - y) % 2 == 1
    ensures x % n != y % n
  {
    var k := x / n - y / n;
    MultipleOfEven(k, n);
    assert x % n == y % n ==> x - y == k * n by {
      if x % n == y % n {
        SameModDiffers(x, y, n);
      }
    }
  }

  /** Numbers of different parity have an odd difference. */
  lemma OddDifference(x: int, y: int)
    requires x % 2 != y % 2
    ensures (x - y) % 2 == 1
  {
    var a, b := x / 2, y / 2;
    assert x == 2 * a + x % 2 && y == 2 * b + y % 2;
    if x % 2 == 1 {
      CongruentToSmall(x - y, 1, a - b, 2);
    } else {
      CongruentToSmall(x - y, 1, a - b - 1, 2);
    }
  }

  /** Adding the same number keeps numbers apart modulo n. */
  lemma CancelCongruent(a: int, x: int, y: int, n: int)
    requires n >= 1 && (a + x) % n == (a + y) % n
    ensures x % n == y % n
  {
    SameModDiffers(a + x, a + y, n);
    var k := (a + x) / n - (a + y) / n;
    assert x == y + k * n;
    ModPlusMultiple(y, k, n);
  }
}
