/** Which exponents return to the start, for a cycle of length 47 * 178481. */
module Periods {

  ghost predicate SumIn(c: nat -> bool, a: nat, b: nat) { c(a) && c(b) ==> c(a + b) }

  ghost predicate DifferenceIn(c: nat -> bool, a: nat, b: nat) { c(a) && c(b) && a <= b ==> c(b - a) }

  /** The exponents that give one are closed under sum and difference. */
  ghost predicate Closed(c: nat -> bool) {
    && c(0)
    && (forall a: nat, b: nat {:trigger SumIn(c, a, b)} :: SumIn(c, a, b))
    && (forall a: nat, b: nat {:trigger DifferenceIn(c, a, b)} :: DifferenceIn(c, a, b))
  }

  lemma Distribute(a: nat, b: nat, d: nat)
    ensures (a + b) * d == a * d + b * d
  {
  }

  lemma {:induction false} Multiples(c: nat -> bool, d: nat, k: nat)
    requires Closed(c) && c(d)
    ensures c(k * d)
  {
    if k > 0 {
      Multiples(c, d, k - 1);
      Distribute(k - 1, 1, d);
      assert SumIn(c, (k - 1) * d, d);
    }
  }

  /** Euclid by subtraction stays inside the cycle. */
  lemma {:induction false} Euclid(c: nat -> bool, a: nat, b: nat) returns (g: nat, x: nat, y: nat)
    requires Closed(c) && c(a) && c(b) && 0 < a && 0 < b
    ensures 0 < g && c(g) && a == x * g && b == y * g && 0 < x && 0 < y
    decreases a + b
  {
    if a == b {
      g, x, y := a, 1, 1;
    } else if a < b {
      assert DifferenceIn(c, a, b);
      g, x, y := Euclid(c, a, b - a);
      Distribute(y, x, g);
      y := y + x;
    } else {
      assert DifferenceIn(c, b, a);
      g, x, y := Euclid(c, a - b, b);
      Distribute(x, y, g);
      x := x + y;
    }
  }

  lemma MultipleBounds(x: nat, t: int)
    ensures t >= 1 ==> x * t >= x
    ensures t <= -1 ==> x * t + x <= 0
  {
  }

  lemma Factor(n: nat, x: nat, y: int)
    requires n == x * y && 0 < x
    ensures n % x == 0
  {
    var q, r := n / x, n % x;
    assert n == x * q + r;
    assert r == x * (y - q);
    MultipleBounds(x, y - q);
  }

  /** miss holds at the ten odd numbers below k, 1 excepted, and further down. */
  ghost predicate NoneBelow(miss: nat -> bool, k: nat) {
    k < 20 || (
      && miss(k - 1) && miss(k - 3) && miss(k - 5) && miss(k - 7) && miss(k - 9)
      && miss(k - 11) && miss(k - 13) && miss(k - 15) && miss(k - 17) && (k == 20 || miss(k - 19))
      && NoneBelow(miss, k - 20))
  }

  lemma TenOdds(k: nat, d: nat)
    requires k % 20 == 0 && d % 2 == 1 && d < k <= d + 20
    ensures d == k - 1 || d == k - 3 || d == k - 5 || d == k - 7 || d == k - 9
         || d == k - 11 || d == k - 13 || d == k - 15 || d == k - 17 || d == k - 19
  {
  }

  lemma {:induction false} NoneBelowMeans(miss: nat -> bool, k: nat, d: nat)
    requires NoneBelow(miss, k) && k % 20 == 0 && 2 < d < k && d % 2 == 1
    ensures miss(d)
  {
    if d + 20 < k {
      NoneBelowMeans(miss, k - 20, d);
    } else {
      TenOdds(k, d);
    }
  }

  ghost predicate Misses(miss: nat -> bool, n: nat) {
    forall e: nat {:trigger miss(e)} :: 1 < e ==> miss(e) == (n % e != 0)
  }

  lemma CheckTo120(miss: nat -> bool)
    requires Misses(miss, 178481)
    ensures NoneBelow(miss, 120)
  {
    assert NoneBelow(miss, 20);
    assert NoneBelow(miss, 40);
    assert NoneBelow(miss, 60);
    assert NoneBelow(miss, 80);
    assert NoneBelow(miss, 100);
  }

  lemma CheckTo240(miss: nat -> bool)
    requires Misses(miss, 178481) && NoneBelow(miss, 120)
    ensures NoneBelow(miss, 240)
  {
    assert NoneBelow(miss, 140);
    assert NoneBelow(miss, 160);
    assert NoneBelow(miss, 180);
    assert NoneBelow(miss, 200);
    assert NoneBelow(miss, 220);
  }

  lemma CheckTo340(miss: nat -> bool)
    requires Misses(miss, 178481) && NoneBelow(miss, 240)
    ensures NoneBelow(miss, 340)
  {
    assert NoneBelow(miss, 260);
    assert NoneBelow(miss, 280);
    assert NoneBelow(miss, 300);
    assert NoneBelow(miss, 320);
  }

  lemma CheckTo440(miss: nat -> bool)
    requires Misses(miss, 178481) && NoneBelow(miss, 340)
    ensures NoneBelow(miss, 440)
  {
    assert NoneBelow(miss, 360);
    assert NoneBelow(miss, 380);
    assert NoneBelow(miss, 400);
    assert NoneBelow(miss, 420);
  }

  lemma Check178481(miss: nat -> bool)
    requires Misses(miss, 178481)
    ensures NoneBelow(miss, 440)
  {
    CheckTo120(miss);
    CheckTo240(miss);
    CheckTo340(miss);
    CheckTo440(miss);
  }

  lemma SquareBound(d: nat, e: nat)
    ensures 440 <= d <= e ==> d * e >= 440 * 440
  {
  }

  lemma Odd178481(d: nat, e: nat)
    requires d * e == 178481
    ensures d % 2 == 1
  {
    var h := d / 2;
    if d % 2 == 0 {
      Regroup(h, e);
      assert false;
    }
  }

  lemma Regroup(h: nat, e: nat)
    ensures (2 * h) * e == 2 * (h * e)
  {
  }

  lemma LeastFactor178481(d: nat, e: nat)
    requires d * e == 178481 && d <= e
    ensures d == 1
  {
    assert d != 0;
    SquareBound(d, e);
    Odd178481(d, e);
    Factor(178481, d, e);
    if d > 1 {
      var miss := (e: nat) => e <= 1 || 178481 % e != 0;
      Check178481(miss);
      NoneBelowMeans(miss, 440, d);
      assert false;
    }
  }

  lemma Prime178481(x: nat, y: nat)
    requires x * y == 178481 && 1 < x
    ensures y == 1
  {
    if x <= y {
      LeastFactor178481(x, y);
    } else {
      LeastFactor178481(y, x);
    }
  }

  lemma NoFactor47(r: nat)
    requires 1 < r < 47
    ensures 47 % r != 0
  {
  }

  lemma Reduce47(q: nat, r: nat, t: nat, s: nat, m: nat)
    requires 47 == q * r + t && r * s == 47 * m
    ensures t * s == 47 * (s - q * m)
  {
    assert 47 * s == (q * r + t) * s == q * (r * s) + t * s;
  }

  lemma {:induction false} Small47(r: nat, s: nat)
    requires 0 < r < 47 && (r * s) % 47 == 0
    ensures s % 47 == 0
  {
    if r > 1 {
      NoFactor47(r);
      var q, t, m := 47 / r, 47 % r, (r * s) / 47;
      assert 47 == q * r + t && r * s == 47 * m;
      Reduce47(q, r, t, s, m);
      Factor(t * s, 47, s - q * m);
      Small47(t, s);
    }
  }

  lemma Prime47(x: nat, y: nat)
    requires (x * y) % 47 == 0
    ensures x % 47 == 0 || y % 47 == 0
  {
    var p, r, m := x / 47, x % 47, (x * y) / 47;
    if r > 0 {
      assert x * y == 47 * m && x == 47 * p + r;
      Remainder47(x, y, p, r, m);
      Factor(r * y, 47, m - p * y);
      Small47(r, y);
    }
  }

  lemma Remainder47(x: nat, y: nat, p: nat, r: nat, m: nat)
    requires x * y == 47 * m && x == 47 * p + r
    ensures r * y == 47 * (m - p * y)
  {
    assert x * y == 47 * (p * y) + r * y;
  }

  lemma Cancel47(a: nat, b: nat, h: nat)
    requires a == 47 * h && a * b == 47 * 178481
    ensures h * b == 178481
  {
    assert a * b == 47 * (h * b);
  }

  lemma ProperDivisor(c: nat -> bool, y: nat, g: nat)
    requires Closed(c) && c(g) && 1 < y && y * g == 47 * 178481
    ensures c(47) || c(178481)
  {
    Factor(y * g, 47, 178481);
    Prime47(y, g);
    if y % 47 == 0 {
      Cancel47(y, g, y / 47);
      Multiples(c, g, y / 47);
    } else {
      assert g * y == y * g;
      Cancel47(g, y, g / 47);
      assert y * (g / 47) == (g / 47) * y;
      Prime178481(y, g / 47);
    }
  }

  /** If 47 * 178481 returns to the start and neither factor does, only its multiples do. */
  lemma CycleLength(c: nat -> bool, n: nat)
    requires Closed(c) && c(8388607) && !c(47) && !c(178481)
    ensures c(n) <==> n % 8388607 == 0
  {
    if n % 8388607 == 0 {
      Multiples(c, 8388607, n / 8388607);
    }
    if c(n) && n > 0 {
      var g, x, y := Euclid(c, n, 8388607);
      if y > 1 {
        ProperDivisor(c, y, g);
        assert false;
      }
      assert g == 8388607 by { assert y == 1; }
      Factor(n, 8388607, x);
    }
  }
}
