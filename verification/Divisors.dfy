/** The divisors of 32767 = 7 * 31 * 151, the period of the Modbus register
(src/service/modbus.c:22-28). */
module Divisors {
  import opened Words

  /** 7 and 31 divide a product only if they divide a factor; Euclid's descent on r. */
  lemma {:induction false} PrimeFactor(p: nat, r: nat, y: nat, m: int)
    requires p == 7 || p == 31
    requires 0 < r < p && r * y == p * m
    ensures y % p == 0
    decreases r
  {
    if r == 1 {
      if p == 7 { assert y == 7 * m; } else { assert y == 31 * m; }
    } else {
      var k := p / r;
      NoDivisor(p, r, k);
      Descend(p, k, r, y, m);
      PrimeFactor(p, p - k * r, y, y - k * m);
    }
  }

  lemma Descend(p: int, k: int, r: int, y: int, m: int)
    requires r * y == p * m
    ensures (p - k * r) * y == p * (y - k * m)
  {
    assert k * r * y == k * (r * y) == k * (p * m) == p * (k * m);
  }

  lemma NoDivisor(p: nat, r: nat, k: nat)
    requires p == 7 || p == 31
    requires 1 < r < p && k == p / r
    ensures 0 < p - k * r < r
  {
    if 2 * r > p {
      assert k == 1;
    } else if 3 * r > p {
      assert k == 2;
    } else if 4 * r > p {
      assert k == 3;
    } else {
      assert r == 2 || r == 3 || r == 4 || r == 5 || r == 6 || r == 7;
    }
  }

  lemma Residue(p: int, a: int, r: int, y: int, n: int)
    requires (p * a + r) * y == p * n
    ensures r * y == p * (n - a * y)
  {
    assert (p * a + r) * y == p * (a * y) + r * y;
  }

  lemma DividesProduct(p: nat, x: nat, y: nat, n: nat)
    requires p == 7 || p == 31
    requires x * y == p * n
    ensures x % p == 0 || y % p == 0
  {
    if x % p != 0 {
      var a, r := x / p, x % p;
      Residue(p, a, r, y, n);
      PrimeFactor(p, r, y, n - a * y);
    }
  }

  lemma Prime151(x: nat, y: nat)
    requires x * y == 151
    ensures x == 1 || y == 1
  {
    if 1 < x && 1 < y {
      if x <= 12 {
        SmallFactor(x, y);
      } else if y <= 12 {
        SmallFactor(y, x);
      } else {
        ProductGrows(13, 13, x, y);
      }
    }
  }

  lemma SmallFactor(x: nat, y: nat)
    requires 2 <= x <= 12
    ensures x * y != 151
  {
    assert 2 * y != 151 && 3 * y != 151 && 5 * y != 151 && 7 * y != 151 && 11 * y != 151;
    assert 4 * y != 151 && 6 * y != 151 && 8 * y != 151 && 9 * y != 151 && 10 * y != 151 && 12 * y != 151;
  }

  /** A proper divisor of 32767 divides 4681, 1057 or 217. */
  lemma ProperDivisor(g: nat, q: nat) returns (m: nat)
    requires g * q == 32767 && q > 1
    ensures g * m == 4681 || g * m == 1057 || g * m == 217
  {
    DividesProduct(7, g, q, 4681);
    if q % 7 == 0 {
      m := q / 7;
      assert g * q == 7 * (g * m);
    } else {
      var g7 := g / 7;
      assert g * q == 7 * (g7 * q);
      DividesProduct(31, g7, q, 151);
      if q % 31 == 0 {
        m := q / 31;
        assert g7 * q == 31 * (g7 * m);
        assert g * m == 7 * (g7 * m);
      } else {
        m := 1;
        var g217 := g7 / 31;
        assert g7 * q == 31 * (g217 * q);
        Prime151(g217, q);
      }
    }
  }
}
