/** Division facts with a variable divisor. */
module Arithmetic {

  lemma MulMonotonic(a: nat, x: int, y: int)
    requires x <= y
    ensures a * x <= a * y
  {
  }

  lemma DivModUnique(x: int, a: nat, q: int, r: int)
    requires a > 0 && x == a * q + r && 0 <= r < a
    ensures x / a == q && x % a == r
  {
    var q', r' := x / a, x % a;
    assert x == a * q' + r';
    assert a * (q' + 1) == a * q' + a && a * (q + 1) == a * q + a;
    if q' < q {
      MulMonotonic(a, q' + 1, q);
    } else if q < q' {
      MulMonotonic(a, q + 1, q');
    }
  }

  /** Padding by `a - x % a` reaches a multiple of `a`. */
  lemma PadReachesMultiple(x: nat, a: nat)
    requires a > 0
    ensures (x + (a - x % a)) % a == 0
    ensures (a - x % a) % a == if x % a == 0 then 0 else a - x % a
  {
    var q := x / a;
    assert x == a * q + x % a;
    assert a * (q + 1) == a * q + a;
    DivModUnique(x + (a - x % a), a, q + 1, 0);
    if x % a == 0 {
      DivModUnique(a, a, 1, 0);
    } else {
      DivModUnique(a - x % a, a, 0, a - x % a);
    }
  }

  /** and passes over no other one. */
  lemma PadPassesNoMultiple(x: nat, a: nat, m: nat)
    requires a > 0 && x < m < x + (a - x % a)
    ensures m % a != 0
  {
    var q := x / a;
    assert x == a * q + x % a;
    DivModUnique(m, a, q, m - a * q);
  }

  /** Remainders by a multiple of 16 keep multiples of 16. */
  lemma RemainderOf16(x: nat, a: nat)
    requires a > 0 && a % 16 == 0 && x % 16 == 0
    ensures (x % a) % 16 == 0
  {
    var q, t, u := x / a, a / 16, x / 16;
    assert x == a * q + x % a;
    assert a * q == 16 * (t * q) by {
      assert a == 16 * t;
      assert (16 * t) * q == 16 * (t * q);
    }
    assert x % a == 16 * (u - t * q);
  }

  function Quotient(v: nat, n: nat): (q: nat)
    requires n > 0
    ensures n >= 2 && v >= n ==> 0 < q < v
  {
    assert v == n * (v / n) + v % n;
    v / n
  }

  function Remainder(v: nat, n: nat): (r: nat)
    requires n > 0
    ensures r < n
  {
    v % n
  }

  lemma Division(v: nat, n: nat)
    requires n > 0
    ensures v == n * Quotient(v, n) + Remainder(v, n)
  {
  }

  lemma DivisionUnique(v: nat, n: nat, q: nat, r: nat)
    requires r < n && v == n * q + r
    ensures Quotient(v, n) == q && Remainder(v, n) == r
  {
    DivModUnique(v, n, q, r);
  }
}
