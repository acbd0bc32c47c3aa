/** Integer facts shared by the block exchange of argv (module Permute) and the
    buffer sizing of the comparison engine (module Sizing): division with
    remainder, divisibility, and the greatest common divisor with Bezout's
    identity. */
module Arith {

  /** d divides n. */
  predicate Divides(d: int, n: int)
    requires d > 0
  {
    n % d == 0
  }

  /** Euclid's algorithm: the reference definition of the greatest common divisor. */
  function Gcd(a: nat, b: nat): (g: nat)
    ensures a > 0 || b > 0 ==> g > 0
    decreases b
  {
    if b == 0 then a else Gcd(b, a % b)
  }

  lemma ProductAtLeast(t: int, d: int)
    requires t >= 1 && d > 0
    ensures t * d >= d
  {
    assert t * d == (t - 1) * d + d;
    assert (t - 1) * d >= 0;
  }

  lemma ProductAtMostZero(t: int, d: int)
    requires t <= 0 && d > 0
    ensures t * d <= 0
  {
    assert t * d == -((-t) * d);
  }

  /** k copies of a plus one more copy is k + 1 copies. */
  lemma ProductStep(k: int, a: int)
    ensures (k - 1) * a + a == k * a
  {
  }

  /** Quotient and remainder are determined by the division equation. */
  lemma DivModUnique(n: int, d: int, q: int, r: int)
    requires d > 0 && n == q * d + r && 0 <= r < d
    ensures n / d == q && n % d == r
  {
    var q0, r0 := n / d, n % d;
    assert n == q0 * d + r0;
    var t := q - q0;
    assert t * d == r0 - r by {
      assert q * d - q0 * d == (q - q0) * d;
    }
    if t > 0 {
      ProductAtLeast(t, d);
    } else if t < 0 {
      ProductAtLeast(-t, d);
    }
  }

  lemma MultipleMod(q: int, d: int)
    requires d > 0
    ensures (q * d) % d == 0 && (q * d) / d == q
  {
    DivModUnique(q * d, d, q, 0);
  }

  /** Adding a multiple of d does not change the remainder. */
  lemma ModAddMultiple(x: int, q: int, d: int)
    requires d > 0
    ensures (x + q * d) % d == x % d
  {
    var x0, r := x / d, x % d;
    assert x + q * d == (x0 + q) * d + r by {
      assert (x0 + q) * d == x0 * d + q * d;
    }
    DivModUnique(x + q * d, d, x0 + q, r);
  }

  /** Two numbers have the same remainder exactly when d divides their difference. */
  lemma SameModIffDivides(x: int, y: int, d: int)
    requires d > 0
    ensures x % d == y % d <==> (x - y) % d == 0
  {
    if x % d == y % d {
      assert x - y == (x / d - y / d) * d by {
        assert (x / d - y / d) * d == (x / d) * d - (y / d) * d;
      }
      MultipleMod(x / d - y / d, d);
    }
    if (x - y) % d == 0 {
      var q := (x - y) / d;
      assert x == y + q * d;
      ModAddMultiple(y, q, d);
    }
  }

  lemma DividesSum(d: int, x: int, y: int)
    requires d > 0 && Divides(d, x) && Divides(d, y)
    ensures Divides(d, x + y) && Divides(d, x - y)
  {
    assert x == (x / d) * d;
    assert y == (y / d) * d;
    assert x + y == (x / d + y / d) * d;
    assert x - y == (x / d - y / d) * d;
    MultipleMod(x / d + y / d, d);
    MultipleMod(x / d - y / d, d);
  }

  lemma DividesMultiple(d: int, x: int, m: int)
    requires d > 0 && Divides(d, x)
    ensures Divides(d, m * x)
  {
    assert x == (x / d) * d;
    assert m * x == (m * (x / d)) * d;
    MultipleMod(m * (x / d), d);
  }

  /** The Euclidean gcd divides both of its arguments. */
  lemma {:induction false} GcdDivides(a: nat, b: nat)
    requires a > 0 || b > 0
    ensures Gcd(a, b) > 0 && Divides(Gcd(a, b), a) && Divides(Gcd(a, b), b)
    decreases b
  {
    if b == 0 {
      MultipleMod(1, a);
      MultipleMod(0, a);
    } else {
      GcdDivides(b, a % b);
      var g := Gcd(a, b);
      assert a == (a / b) * b + a % b;
      DividesMultiple(g, b, a / b);
      DividesSum(g, (a / b) * b, a % b);
    }
  }

  /** Every common divisor of a and b divides their gcd. */
  lemma {:induction false} GcdGreatest(a: nat, b: nat, d: int)
    requires d > 0 && Divides(d, a) && Divides(d, b)
    ensures Divides(d, Gcd(a, b))
    decreases b
  {
    if b != 0 {
      assert a % b == a - (a / b) * b;
      DividesMultiple(d, b, a / b);
      DividesSum(d, a, (a / b) * b);
      GcdGreatest(b, a % b, d);
    }
  }

  /** Bezout's identity: the gcd is an integer combination of the arguments. */
  lemma {:induction false} Bezout(a: nat, b: nat) returns (x: int, y: int)
    ensures x * a + y * b == Gcd(a, b)
    decreases b
  {
    if b == 0 {
      x, y := 1, 0;
    } else {
      var x1, y1 := Bezout(b, a % b);
      var q, r := a / b, a % b;
      assert a == q * b + r;
      assert x1 * b + y1 * r == Gcd(a, b);
      x, y := y1, x1 - y1 * q;
      calc {
        x * a + y * b;
        y1 * (q * b + r) + (x1 - y1 * q) * b;
        { assert y1 * (q * b + r) == y1 * q * b + y1 * r;
          assert (x1 - y1 * q) * b == x1 * b - y1 * q * b; }
        x1 * b + y1 * r;
      }
    }
  }

  /** Cancelling a positive factor. */
  lemma CancelFactor(m: int, n: int, g: int)
    requires g > 0 && m * g == n * g
    ensures m == n
  {
    assert (m - n) * g == m * g - n * g;
    if m - n > 0 {
      ProductAtLeast(m - n, g);
    } else if m - n < 0 {
      ProductAtLeast(n - m, g);
    }
  }

  /** Bezout's identity for a and a + b. */
  lemma BezoutSum(a: nat, b: nat) returns (x: int, y: int)
    ensures x * a + y * (a + b) == Gcd(a, b)
  {
    var x0, y0 := Bezout(a, b);
    x, y := x0 - y0, y0;
    assert (x0 - y0) * a == x0 * a - y0 * a;
    assert y0 * (a + b) == y0 * a + y0 * b;
  }

  /** If L divides m * a and x * a + y * L == g, then L divides m * g. */
  lemma ScaleBezout(m: int, a: int, L: int, g: int, x: int, y: int, q: int)
    requires x * a + y * L == g && m * a == q * L
    ensures m * g == (x * q + m * y) * L
  {
    calc {
      m * g;
      m * (x * a + y * L);
      x * (m * a) + (m * y) * L;
      x * (q * L) + (m * y) * L;
      (x * q) * L + (m * y) * L;
      (x * q + m * y) * L;
    }
  }

  /** With a = A * g and L = K * g, K copies of a are A copies of L. */
  lemma CrossMultiple(a: int, A: int, g: int, K: int, L: int)
    requires a == A * g && L == K * g
    ensures K * a == A * L
  {
    calc {
      K * a;
      K * (A * g);
      A * (K * g);
      A * L;
    }
  }

  /** Multiplying Bezout's identity by D. */
  lemma ScaleIdentity(x: int, a: int, y: int, L: int, g: int, D: int, d: int)
    requires x * a + y * L == g && d == D * g
    ensures (x * D) * a == d - (D * y) * L
  {
    calc {
      (x * D) * a;
      D * (x * a);
      D * (g - y * L);
      D * g - (D * y) * L;
    }
  }

  /** Reducing a multiplier modulo K changes its product with a by a multiple of L. */
  lemma ReduceMultiplier(k0: int, k: int, w: int, K: int, a: int, A: int, L: int)
    requires k0 == w * K + k && K * a == A * L
    ensures k * a == k0 * a - (w * A) * L
  {
    calc {
      k * a;
      (k0 - w * K) * a;
      k0 * a - w * (K * a);
      k0 * a - w * (A * L);
      k0 * a - (w * A) * L;
    }
  }

  lemma SumTimes(u: int, v: int, L: int)
    ensures u * L + v * L == (u + v) * L
  {
  }

  /** Subtracting before or after reducing modulo d gives the same remainder. */
  lemma SubMod(y: int, a: int, d: int)
    requires d > 0
    ensures (y - a) % d == (y % d - a) % d
  {
    var q, r := y / d, y % d;
    assert y - a == (r - a) + q * d;
    ModAddMultiple(r - a, q, d);
  }

  /** The remainder of x modulo g by repeated subtraction.  It equals x % g
      (ResidueIsMod); the recursive form keeps the verifier from unfolding
      division wherever a position's class is mentioned. */
  function Residue(x: nat, g: nat): (r: nat)
    requires g > 0
    ensures r < g
    decreases x
  {
    if x < g then x else Residue(x - g, g)
  }

  lemma {:induction false} ResidueIsMod(x: nat, g: nat)
    requires g > 0
    ensures Residue(x, g) == x % g
    decreases x
  {
    if x < g {
      DivModUnique(x, g, 0, x);
    } else {
      ResidueIsMod(x - g, g);
      ModAddMultiple(x - g, 1, g);
    }
  }
}
