/** Small facts about products, quotients and congruences of integers, each proved on its own so
    that the proofs that need one name it. */
module Arithmetic {

  lemma MulAssociates(a: int, b: int, c: int)
    ensures a * (b * c) == (a * b) * c
  {
  }

  lemma MulDistributes(a: int, b: int, c: int)
    ensures a * (b + c) == a * b + a * c
    ensures (b + c) * a == b * a + c * a
  {
  }

  lemma MulAtLeast(d: int, k: int)
    requires d >= 0 && k >= 1
    ensures d * k >= d && k * d >= d
  {
  }

  lemma MulMonotone(a: int, b: int, c: int)
    requires a <= b && 0 <= c
    ensures a * c <= b * c && c * a <= c * b
  {
  }

  lemma DivMod(x: int, d: int)
    requires d > 0
    ensures x == d * (x / d) + x % d
    ensures 0 <= x % d < d
    ensures x >= 0 ==> x / d >= 0
  {
  }

  lemma DivUnique(x: int, d: int, q: int, r: int)
    requires d > 0 && x == d * q + r && 0 <= r < d
    ensures x / d == q && x % d == r
  {
    var q', r' := x / d, x % d;
    var k := q - q';
    assert d * k == r' - r by {
      assert x == d * q' + r';
      assert d * k == d * q - d * q';
    }
    if k >= 1 {
      MulAtLeast(d, k);
    } else if k <= -1 {
      MulAtLeast(d, -k);
    }
  }

  lemma DivDiv(x: nat, a: nat, b: nat)
    requires a > 0 && b > 0
    ensures a * b > 0
    ensures x / a / b == x / (a * b)
  {
    var q, r, s := x / a / b, x / a % b, x % a;
    MulAtLeast(a, b);
    assert x == (a * b) * q + (a * r + s) by {
      assert x == a * (x / a) + s;
      assert x / a == b * q + r;
      calc {
        a * (x / a) + s;
        a * (b * q + r) + s;
        a * (b * q) + a * r + s;
        (a * b) * q + (a * r + s);
      }
    }
    assert a * r + s < a * b by {
      MulAtLeast(a, b - r);
      assert a * (b - r) == a * b - a * r;
    }
    assert 0 <= a * r;
    DivUnique(x, a * b, q, a * r + s);
  }

  lemma SumOfMultiples(a: nat, b: nat, m: nat)
    requires m > 0 && a % m == 0 && b % m == 0
    ensures (a + b) % m == 0
  {
    DivMod(a, m);
    DivMod(b, m);
    MulDistributes(m, a / m, b / m);
    DivUnique(a + b, m, a / m + b / m, 0);
  }

  lemma SubtractModulus(k: nat, m: nat)
    requires m > 0 && k >= m
    ensures (k - m) % m == k % m
  {
    DivMod(k, m);
    MulDistributes(m, k / m - 1, 1);
    DivUnique(k - m, m, k / m - 1, k % m);
  }
}
