/** Quotients and remainders of products, 32-bit wrap-around, and the smaller of two numbers. */
module Arithmetic {

  function U32(x: int): nat { x % 0x1_0000_0000 }

  function Min(a: nat, b: nat): nat { if a < b then a else b }

  lemma DivOfSum(q: nat, r: nat, m: nat)
    requires r < m
    ensures (q * m + r) / m == q && (q * m + r) % m == r
  {
    var x := q * m + r;
    var k := x / m;
    assert x == k * m + x % m;
    assert k < q ==> (k + 1) * m <= q * m;
    assert k > q ==> (q + 1) * m <= k * m;
  }

  lemma BelowProduct(n: nat, k: nat, m: nat)
    requires m > 0
    ensures n < k * m <==> n / m < k
  {
    var q := n / m;
    assert n == q * m + n % m;
    assert q < k ==> (q + 1) * m <= k * m;
    assert k <= q ==> k * m <= q * m;
  }

  lemma ProductAtMost(k: nat, m: nat, a: nat, b: nat)
    requires k <= a && m <= b
    ensures k * m <= a * b
  {
    assert a * m == k * m + (a - k) * m && (a - k) * m >= 0;
    assert a * b == a * m + a * (b - m) && a * (b - m) >= 0;
  }

  lemma ProductZero(a: nat, b: nat)
    ensures a * b == 0 <==> a == 0 || b == 0
  {
    assert a > 0 && b > 0 ==> a * b > 0;
  }

  lemma OneMore(k: nat, p: nat)
    ensures (k + 1) * p == k * p + p
  {
  }

  lemma DivMono(x: nat, y: nat, m: nat)
    requires m > 0 && x <= y
    ensures x / m <= y / m
  {
    var q, r := x / m, y / m;
    assert x == q * m + x % m && y == r * m + y % m;
    assert q > r ==> (r + 1) * m <= q * m;
  }

  /** One period more is one more in the quotient. */
  lemma DivPlusOne(x: nat, m: nat)
    requires m > 0
    ensures (x + m) / m == x / m + 1
  {
    var q := x / m;
    assert x == q * m + x % m && (q + 1) * m == q * m + m;
    DivOfSum(q + 1, x % m, m);
  }

  /** Quotient and remainder of the next number. */
  lemma DivNext(x: nat, m: nat)
    requires m > 0
    ensures (x + 1) / m == x / m + (if x % m + 1 == m then 1 else 0)
    ensures (x + 1) % m == if x % m + 1 == m then 0 else x % m + 1
  {
    var q, r := x / m, x % m;
    assert x == q * m + r;
    if r + 1 == m {
      assert (q + 1) * m == q * m + m;
      DivOfSum(q + 1, 0, m);
    } else {
      DivOfSum(q, r + 1, m);
    }
  }
}
