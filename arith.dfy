/** Facts about multiples that the padded clause count and the window schedule
    rest on. */
module Arithmetic {

  lemma MulNonneg(d: nat, e: nat)
    ensures d * e >= 0
  {
  }

  /** A multiple of `d` leaves no remainder. */
  lemma MultipleMod(d: nat, a: nat)
    requires d > 0
    ensures (d * a) % d == 0
  {
    var q, r := (d * a) / d, (d * a) % d;
    assert d * a == d * q + r;
    if q < a {
      var e := a - q;
      assert d * e == d * a - d * q;
      assert d * e == d * (e - 1) + d;
      MulNonneg(d, e - 1);
      assert false;
    }
  }

  lemma MulStrictCancel(d: nat, x: nat, y: nat)
    requires d * x < d * y
    ensures x < y
  {
    if x >= y {
      assert d * x == d * (x - y) + d * y;
      MulNonneg(d, x - y);
      assert false;
    }
  }

  /** Reducing a sum of multiples of `d` modulo a multiple of `d` leaves a multiple of `d`. */
  lemma ModOfMultiples(d: nat, a: nat, b: nat, m: nat)
    requires d > 0 && m > 0 && a % d == 0 && b % d == 0 && m % d == 0
    ensures ((a + b) % m) % d == 0
  {
    var ax, bx, mx := a / d, b / d, m / d;
    assert a == d * ax + a % d;
    assert b == d * bx + b % d;
    assert m == d * mx + m % d;
    var q, r := (a + b) / m, (a + b) % m;
    assert a + b == m * q + r;
    assert m * q == d * (mx * q);
    var z := ax + bx - mx * q;
    assert r == d * z;
    MultipleMod(d, z);
  }

  /** A value below the modulus is its own remainder. */
  lemma ModBelow(x: nat, m: nat)
    requires x < m
    ensures x % m == x
  {
  }

  lemma MulPred(k: nat, n: nat)
    requires k > 0
    ensures (k - 1) * n + n == k * n && (k - 1) * n >= 0
  {
  }

  lemma DivMod(x: nat, d: nat)
    requires d > 0
    ensures x == (x / d) * d + x % d && 0 <= x % d < d && x / d >= 0
  {
  }

  /** Adding a multiple of the modulus does not change a remainder below it. */
  lemma ModPlusMultiple(m: nat, q: nat, x: nat)
    requires x < m
    ensures (m * q + x) % m == x
  {
    var y := m * q + x;
    var q', r := y / m, y % m;
    assert y == m * q' + r && 0 <= r < m;
    if q' < q {
      assert m * (q - q') == m * q - m * q';
      assert m * (q - q') == m * (q - q' - 1) + m;
      MulNonneg(m, q - q' - 1);
      assert false;
    } else if q < q' {
      assert m * (q' - q) == m * q' - m * q;
      assert m * (q' - q) == m * (q' - q - 1) + m;
      MulNonneg(m, q' - q - 1);
      assert false;
    }
  }
}
