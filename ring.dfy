/** The integer ring the reconstruction routines are written against: absolute
    value, sign, greatest common divisor and least common multiple over Dafny's
    unbounded `int`. The routines only ever take the lcm of positive values. */
module Ring {

  function Abs(x: int): int
  {
    if x < 0 then -x else x
  }

  /** x / y and x % y once x is known to be y * k (the exact divisions of the source). */
  lemma DivExact(x: int, y: int, k: int)
    requires y > 0 && x == y * k
    ensures x / y == k && x % y == 0
  {
    DivUnique(x, y, k);
  }

  /** The quotient and remainder of x by y once x is known to be y * k plus a
      remainder in [0, y). */
  lemma DivUnique(x: int, y: int, k: int)
    requires y > 0 && 0 <= x - y * k < y
    ensures x / y == k && x % y == x - y * k
  {
    var q, r := x / y, x % y;
    var d := k - q;
    assert y * k == y * q + y * d;
    // y * d == r - (x - y * k) lies strictly between -y and y
    if d >= 1 {
      MulLe(1, d, y);
      assert false;
    } else if d <= -1 {
      MulLe(1, -d, y);
      assert false;
    }
  }

  /** |x * y| == |x| * |y|. */
  lemma AbsMul(x: int, y: int)
    ensures Abs(x * y) == Abs(x) * Abs(y)
  {
    if x < 0 && y < 0 {
      assert x * y == (-x) * (-y);
    } else if x < 0 {
      assert -(x * y) == (-x) * y;
    } else if y < 0 {
      assert -(x * y) == x * (-y);
    }
  }

  /** Euclid's algorithm on naturals. */
  function Gcd(a: nat, b: nat): nat
    decreases b
  {
    if b == 0 then a else Gcd(b, a % b)
  }

  /** The gcd of two naturals, not both zero, is positive and divides both. */
  lemma {:induction false} GcdDivides(a: nat, b: nat)
    requires a > 0 || b > 0
    ensures Gcd(a, b) > 0 && a % Gcd(a, b) == 0 && b % Gcd(a, b) == 0
    decreases b
  {
    if b == 0 {
      DivExact(a, a, 1);
    } else {
      var g := Gcd(b, a % b);
      GcdDivides(b, a % b);
      var kb, kr, q := b / g, (a % b) / g, a / b;
      DivMod(b, g);
      DivMod(a % b, g);
      DivMod(a, b);
      Factor(a, b, g, q, kb, kr);
      DivExact(a, g, q * kb + kr);
    }
  }

  /** a == q * b + r with b and r multiples of g makes a a multiple of g. */
  lemma Factor(a: int, b: int, g: int, q: int, kb: int, kr: int)
    requires b == g * kb && a == b * q + g * kr
    ensures a == g * (q * kb + kr)
  {
    assert (g * kb) * q == g * (q * kb);
  }

  /** Euclidean division, spelled out. */
  lemma DivMod(x: int, y: int)
    requires y > 0
    ensures x == y * (x / y) + x % y && 0 <= x % y < y
  {
  }

  /** Bezout coefficients: the gcd is an integer combination of its arguments. */
  lemma {:induction false} Bezout(a: nat, b: nat) returns (x: int, y: int)
    ensures x * a + y * b == Gcd(a, b)
    decreases b
  {
    if b == 0 {
      x, y := 1, 0;
    } else {
      var x', y' := Bezout(b, a % b);
      var q := a / b;
      assert a % b == a - q * b;
      x, y := y', x' - y' * q;
      calc {
        x * a + y * b;
        y' * a + x' * b - y' * q * b;
        x' * b + y' * (a - q * b);
        x' * b + y' * (a % b);
      }
    }
  }

  /** The least common multiple of two positive naturals (how the ring
      computes its lcm is not modelled). It is a positive common multiple. */
  function Lcm(a: nat, b: nat): (l: nat)
    requires a > 0 && b > 0
    ensures l > 0 && l % a == 0 && l % b == 0
  {
    GcdDivides(a, b);
    var g := Gcd(a, b);
    var ka, kb := a / g, b / g;
    assert a == g * ka && b == g * kb;
    assert ka > 0;
    calc {
      ka * b;
      ka * (g * kb);
      (g * ka) * kb;
      a * kb;
    }
    DivExact(ka * b, b, ka);
    DivExact(ka * b, a, kb);
    ka * b
  }

  /** Cancelling a positive factor. */
  lemma MulCancel(g: int, x: int, y: int)
    requires g > 0 && g * x == g * y
    ensures x == y
  {
    assert g * (x - y) == 0;
  }

  /** A common multiple m of a and b, times a combination x * a + y * b,
      is a multiple of a * b. */
  lemma CombinationTimesMultiple(a: int, b: int, x: int, y: int, s: int, t: int, m: int)
    requires m == a * s && m == b * t
    ensures (x * a + y * b) * m == a * b * (x * t + y * s)
  {
    assert x * a * m == a * b * (x * t) by {
      assert x * a * m == x * a * (b * t);
    }
    assert y * b * m == a * b * (y * s) by {
      assert y * b * m == y * b * (a * s);
    }
  }

  /** The algebra of LcmLeast, with the gcd, the cofactor of a and the lcm as
      plain integers. */
  lemma LcmLeastCore(a: int, b: int, g: int, ka: int, x: int, y: int, s: int, t: int, m: int)
    requires g > 0 && a == g * ka && x * a + y * b == g
    requires m == a * s && m == b * t
    ensures m == (ka * b) * (x * t + y * s)
  {
    var k := x * t + y * s;
    CombinationTimesMultiple(a, b, x, y, s, t, m);
    assert g * m == a * b * k;
    assert a * b * k == g * ((ka * b) * k) by {
      assert a * b * k == (g * ka) * b * k;
    }
    MulCancel(g, m, (ka * b) * k);
  }

  /** The lcm divides every common multiple, so it is the least positive one. */
  lemma LcmLeast(a: nat, b: nat, m: int)
    requires a > 0 && b > 0 && m % a == 0 && m % b == 0
    ensures m % Lcm(a, b) == 0
  {
    GcdDivides(a, b);
    var g := Gcd(a, b);
    var x, y := Bezout(a, b);
    var ka := a / g;
    assert a == g * ka;
    var s, t := m / a, m / b;
    assert m == a * s && m == b * t;
    LcmLeastCore(a, b, g, ka, x, y, s, t, m);
    assert Lcm(a, b) == ka * b;
    DivExact(m, Lcm(a, b), x * t + y * s);
  }

  /** Multiplying an inequality of naturals by a natural. */
  lemma MulLe(x: int, y: int, z: int)
    requires 0 <= x <= y && z >= 0
    ensures x * z <= y * z
  {
    assert y * z - x * z == (y - x) * z;
  }

  /** Multiplying a strict inequality by a positive factor. */
  lemma MulLt(x: int, y: int, z: int)
    requires x < y && z > 0
    ensures x * z < y * z
  {
    assert y * z - x * z == (y - x) * z;
  }

  /** A natural a with d * a < d for a positive d is zero. */
  lemma BelowOne(d: int, a: int)
    requires d > 0 && a >= 0 && d * a < d
    ensures a == 0
  {
    if a >= 1 {
      MulLe(1, a, d);
      assert false;
    }
  }

  /** Triangle inequality. */
  lemma AbsSub(x: int, y: int)
    ensures Abs(x - y) <= Abs(x) + Abs(y)
  {
  }

  /** Divisibility is transitive. */
  lemma DividesTrans(a: int, b: int, c: int)
    requires b > 0 && c > 0 && a % b == 0 && b % c == 0
    ensures a % c == 0
  {
    var k, l := a / b, b / c;
    assert a == b * k && b == c * l;
    assert a == c * (l * k);
    DivExact(a, c, l * k);
  }

  /** A product with a zero factor is zero. */
  lemma MulZero(x: int, y: int)
    requires y == 0
    ensures x * y == 0
  {
  }

  /** Doubling a factor doubles the product. */
  lemma Double(x: int, y: int)
    ensures (2 * x) * y == x * y + x * y
  {
  }

  /** Products of three factors in any grouping agree. */
  lemma MulRotate(x: int, y: int, z: int)
    ensures (x * y) * z == x * (y * z) == (x * z) * y
  {
  }
}
