/** Facts about multiplication, quotient and remainder that the index arithmetic needs. */
module Arithmetic {
  lemma {:induction false} MulMonotone(a: int, b: int, k: nat)
    requires a <= b
    ensures a * k <= b * k
  {
  }

  /** A quotient and remainder are determined by their defining equation. */
  lemma {:induction false} DivModUnique(x: int, k: nat, q: int, r: int)
    requires k > 0 && x == q * k + r && 0 <= r < k
    ensures x / k == q && x % k == r
  {
    var d := q - x / k;
    assert d * k == x % k - r;
    if d >= 1 {
      MulMonotone(1, d, k);
    } else if d <= -1 {
      MulMonotone(d, -1, k);
    }
  }

  lemma {:induction false} SmallMod(x: nat, m: nat)
    requires x < m
    ensures x % m == x
  {
    DivModUnique(x, m, 0, x);
  }

  /** Two numbers closer than m have different remainders. */
  lemma {:induction false} ModApart(a: nat, b: nat, m: nat)
    requires m > 0 && a < b < a + m
    ensures a % m != b % m
  {
    var d := b / m - a / m;
    assert d * m + b % m - a % m == b - a;
    if d >= 1 {
      MulMonotone(1, d, m);
    } else {
      MulMonotone(d, 0, m);
    }
  }

  lemma {:induction false} ModShift(w: nat, q: nat, m: nat)
    requires m > 0
    ensures 0 <= q * m && (w + q * m) % m == w % m
  {
    MulMonotone(0, q, m);
    assert w + q * m == (w / m + q) * m + w % m;
    DivModUnique(w + q * m, m, w / m + q, w % m);
  }

  /** The remainder of the next number, computed by wrapping. */
  lemma {:induction false} ModNext(n: nat, m: nat)
    requires m > 0
    ensures (n + 1) % m == if n % m == m - 1 then 0 else n % m + 1
  {
    if n % m == m - 1 {
      assert n + 1 == (n / m + 1) * m;
      DivModUnique(n + 1, m, n / m + 1, 0);
    } else {
      DivModUnique(n + 1, m, n / m, n % m + 1);
    }
  }

  /** The distance of two numbers closer than m, from their remainders. */
  lemma {:induction false} ModDistance(a: nat, b: nat, m: nat)
    requires m > 0 && a <= b < a + m
    ensures b - a == if b % m >= a % m then b % m - a % m else m - a % m + b % m
  {
    var d := b - a;
    if a % m + d < m {
      DivModUnique(b, m, a / m, a % m + d);
    } else {
      assert b == (a / m + 1) * m + (a % m + d - m);
      DivModUnique(b, m, a / m + 1, a % m + d - m);
    }
  }
}
