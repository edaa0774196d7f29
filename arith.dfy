/** Integer vocabulary shared by the number-theory library and the signature
    engine: natural powers, Python's floor division and remainder (the source
    applies `//`, `%` and `pow` to integers of any sign), divisibility and
    primality, and the congruence facts the proofs lean on. */
module Arith {

  /** b raised to the natural power e. */
  function Pow(b: int, e: nat): (r: int)
    ensures b >= 1 ==> r >= 1
    decreases e
  {
    if e == 0 then 1 else b * Pow(b, e - 1)
  }

  /** Python's `a // b`: the quotient rounded towards minus infinity. */
  function PyDiv(a: int, b: int): int
    requires b != 0
  {
    if b > 0 then a / b else (-a) / (-b)
  }

  /** Python's `a % b`: the remainder takes the sign of the divisor, and
      `a == (a // b) * b + a % b`. */
  function PyMod(a: int, b: int): (r: int)
    requires b != 0
    ensures b > 0 ==> 0 <= r < b
    ensures b < 0 ==> b < r <= 0
    ensures a == PyDiv(a, b) * b + r
  {
    if b > 0 then a % b
    else
      var q := (-a) / (-b);
      assert -a == q * (-b) + (-a) % (-b);
      -((-a) % (-b))
  }

  /** Python's three-argument `pow(b, e, m)` for a natural exponent. */
  function PowMod(b: int, e: nat, m: int): int
    requires m != 0
  {
    PyMod(Pow(b, e), m)
  }

  /** d divides n; zero divides only zero. */
  predicate Divides(d: int, n: int)
  {
    if d == 0 then n == 0 else n % d == 0
  }

  /** n is a prime number. */
  predicate Prime(n: int)
  {
    n >= 2 && forall k :: 2 <= k < n ==> !Divides(k, n)
  }

  // ---------------------------------------------------------------------
  // Multiplication and remainders

  /** Multiplying by a positive factor does not shrink a natural number. */
  lemma {:induction false} MulAtLeast(m: nat, z: nat)
    requires z >= 1
    ensures m * z >= m
    decreases z
  {
    if z > 1 {
      MulAtLeast(m, z - 1);
      assert m * z == m * (z - 1) + m;
    }
  }

  /** Multiplying by a positive factor preserves a strict order. */
  lemma MulLess(a: int, b: int, c: int)
    requires c > 0 && a < b
    ensures a * c < b * c
  {
    MulAtLeast(c, b - a);
    assert b * c - a * c == c * (b - a);
  }

  /** A non-zero multiple of m is at least as large as m in magnitude. */
  lemma MultipleBound(m: int, z: int)
    requires m > 0 && z != 0
    ensures m * z >= m || m * z <= -m
  {
    if z > 0 {
      MulAtLeast(m, z);
    } else {
      MulAtLeast(m, -z);
      assert m * z == -(m * (-z));
    }
  }

  /** A number in [0, m) is its own remainder. */
  lemma ModSmall(a: int, m: int)
    requires 0 <= a < m
    ensures a % m == a && a / m == 0
  {
    assert a == (a / m) * m + a % m;
  }

  /** Adding a multiple of m does not change the remainder modulo m. */
  lemma ModAddMultiple(m: int, k: int, x: int)
    requires m > 0
    ensures (m * k + x) % m == x % m
  {
    var a := m * k + x;
    var z := k + x / m - a / m;
    assert a % m - x % m == m * z by {
      assert a == (a / m) * m + a % m;
      assert x == (x / m) * m + x % m;
    }
    if z != 0 {
      MultipleBound(m, z);
    }
  }

  /** Python's remainder ignores multiples of the divisor, whatever its sign. */
  lemma PyModShift(y: int, q: int, n: int)
    requires n != 0
    ensures PyMod(y + q * n, n) == PyMod(y, n)
  {
    if n > 0 {
      ModAddMultiple(n, q, y);
    } else {
      assert -(y + q * n) == (-n) * q + (-y);
      ModAddMultiple(-n, q, -y);
    }
  }

  /** Reducing an intermediate sum does not change Python's final remainder. */
  lemma PyModAddInner(x: int, c: int, n: int)
    requires n != 0
    ensures PyMod(PyMod(x, n) + c, n) == PyMod(x + c, n)
  {
    var q := PyDiv(x, n);
    assert x + c == (PyMod(x, n) + c) + q * n;
    PyModShift(PyMod(x, n) + c, q, n);
  }

  /** A Bezout identity `a * x + m * y == 1` makes x an inverse of a modulo m. */
  lemma BezoutInverse(a: int, x: int, m: int, y: int)
    requires m >= 2 && a * x + m * y == 1
    ensures (a * x) % m == 1 && (x * a) % m == 1
  {
    assert x * a == a * x;
    assert a * x == m * (-y) + 1;
    ModAddMultiple(m, -y, 1);
    ModSmall(1, m);
  }

  /** Reducing the x of a Bezout identity into [0, m) keeps it an inverse,
      and the inverse is never 0. */
  lemma ReducedInverse(a: int, x: int, m: int, y: int)
    requires m >= 2 && a * x + m * y == 1
    ensures 1 <= PyMod(x, m) < m
    ensures (a * PyMod(x, m)) % m == 1
  {
    var d, k := PyMod(x, m), PyDiv(x, m);
    assert x == k * m + d;
    assert a * d + m * (y + a * k) == 1 by {
      assert a * x == a * (k * m) + a * d;
      assert a * (k * m) == m * (a * k);
    }
    BezoutInverse(a, d, m, y + a * k);
    if d == 0 {
      assert a * d == 0;
      ModSmall(0, m);
    }
  }

  /** `n % d == 0` exactly when n is d times some integer. */
  lemma DividesWitness(d: int, n: int)
    requires d > 0
    ensures Divides(d, n) <==> n == d * (n / d)
  {
    assert n == (n / d) * d + n % d;
    if n == d * (n / d) {
      ModAddMultiple(d, n / d, 0);
    }
  }

  /** Every multiple of d is divisible by d. */
  lemma DividesMultiple(d: int, c: int)
    ensures Divides(d, d * c)
  {
    if d > 0 {
      ModAddMultiple(d, c, 0);
    } else if d < 0 {
      ModAddMultiple(-d, -c, 0);
      assert d * c == (-d) * (-c);
      // n % d and n % -d agree for Dafny's Euclidean remainder
      ModNegDivisor(d * c, d);
    }
  }

  /** Dafny's remainder depends only on the magnitude of the divisor. */
  lemma ModNegDivisor(n: int, d: int)
    requires d < 0
    ensures n % d == n % (-d)
  {
    var r := n % d;
    var r' := n % (-d);
    assert n == (n / d) * d + r;
    assert n == (n / (-d)) * (-d) + r';
    var z := n / (-d) + n / d;
    assert r - r' == (-d) * z;
    if z != 0 {
      MultipleBound(-d, z);
    }
  }

  /** Divisibility by d is divisibility by -d. */
  lemma DividesNeg(d: int, n: int)
    ensures Divides(d, n) <==> Divides(-d, n)
  {
    if d < 0 {
      ModNegDivisor(n, d);
    } else if d > 0 {
      ModNegDivisor(n, -d);
    }
  }

  /** Divisibility is closed under `k * x + y`. */
  lemma DividesLinear(d: int, x: int, y: int, k: int)
    requires Divides(d, x) && Divides(d, y)
    ensures Divides(d, k * x + y)
  {
    if d == 0 {
    } else {
      var e := if d > 0 then d else -d;
      DividesNeg(d, x);
      DividesNeg(d, y);
      DividesWitness(e, x);
      DividesWitness(e, y);
      assert k * x + y == e * (k * (x / e) + y / e) by {
        assert x == e * (x / e);
        assert y == e * (y / e);
      }
      DividesMultiple(e, k * (x / e) + y / e);
      DividesNeg(d, k * x + y);
    }
  }

  /** Divisibility is transitive. */
  lemma DividesTrans(a: int, b: int, c: int)
    requires Divides(a, b) && Divides(b, c)
    ensures Divides(a, c)
  {
    if b == 0 {
      assert c == 0;
      DividesMultiple(a, 0);
    } else if b > 0 {
      DividesWitness(b, c);
      DividesMulLeft(a, b, c / b);
    } else {
      DividesNeg(b, c);
      DividesWitness(-b, c);
      DividesMulLeft(a, b, -(c / -b));
      assert b * -(c / -b) == c;
    }
  }

  /** A divisor of b divides every multiple of b. */
  lemma DividesMulLeft(a: int, b: int, k: int)
    requires Divides(a, b)
    ensures Divides(a, b * k)
  {
    if a == 0 {
    } else {
      var e := if a > 0 then a else -a;
      DividesNeg(a, b);
      DividesWitness(e, b);
      assert b * k == e * ((b / e) * k);
      DividesMultiple(e, (b / e) * k);
      DividesNeg(a, b * k);
    }
  }

  /** A non-zero multiple of d is at least d in magnitude. */
  lemma DivisorBound(d: int, n: int)
    requires d > 0 && n > 0 && Divides(d, n)
    ensures d <= n
  {
    DividesWitness(d, n);
    MultipleBound(d, n / d);
  }

  /** The product of remainders has the remainder of the product. */
  lemma MulMod(x: int, y: int, m: int)
    requires m > 0
    ensures (x * y) % m == ((x % m) * (y % m)) % m
  {
    var qx, rx := x / m, x % m;
    var qy, ry := y / m, y % m;
    assert x == qx * m + rx;
    assert y == qy * m + ry;
    assert x * y == m * (qx * qy * m + qx * ry + rx * qy) + rx * ry by {
      assert x * y == (qx * m + rx) * (qy * m + ry);
    }
    ModAddMultiple(m, qx * qy * m + qx * ry + rx * qy, rx * ry);
  }

  // ---------------------------------------------------------------------
  // Powers

  /** Multiplication regroups. */
  lemma MulAssoc(a: int, x: int, y: int)
    ensures a * (x * y) == (a * x) * y
  {
  }

  /** Exponents add under multiplication. */
  lemma {:induction false} PowAdd(b: int, e1: nat, e2: nat)
    ensures Pow(b, e1 + e2) == Pow(b, e1) * Pow(b, e2)
    decreases e1
  {
    if e1 > 0 {
      PowAdd(b, e1 - 1, e2);
      var x, y := Pow(b, e1 - 1), Pow(b, e2);
      assert Pow(b, e1 + e2) == b * Pow(b, e1 - 1 + e2);
      MulAssoc(b, x, y);
    }
  }

  /** Splitting off one factor of a product: e1 * e2 == e1 * (e2 - 1) + e1. */
  lemma PeelFactor(e1: nat, e2: nat)
    requires e2 > 0
    ensures e1 * e2 == e1 * (e2 - 1) + e1
  {
  }

  /** A power of a power multiplies the exponents. */
  lemma {:induction false} PowMul(b: int, e1: nat, e2: nat)
    ensures Pow(b, e1 * e2) == Pow(Pow(b, e1), e2)
    decreases e2
  {
    if e2 > 0 {
      PowMul(b, e1, e2 - 1);
      PeelFactor(e1, e2);
      var k := e1 * (e2 - 1);
      PowAdd(b, k, e1);
      assert Pow(b, k + e1) == Pow(b, k) * Pow(b, e1);
    }
  }

  /** Replacing each factor by one congruent to it keeps the product's
      remainder. */
  lemma MulModStep(r: int, x: int, b: int, y: int, m: int)
    requires m > 0 && r == b % m && x % m == y % m
    ensures (r * x) % m == (b * y) % m
  {
    ModSmall(r, m);
    var rx, xm, ym := r * x, x % m, y % m;
    MulMod(r, x, m);
    assert rx % m == (r * xm) % m;
    MulMod(b, y, m);
    assert (b * y) % m == (r * ym) % m;
  }

  /** Raising to a power commutes with taking the remainder. */
  lemma {:induction false} PowModBase(b: int, e: nat, m: int)
    requires m > 0
    ensures Pow(b % m, e) % m == Pow(b, e) % m
    decreases e
  {
    if e > 0 {
      var r := b % m;
      var x, y := Pow(r, e - 1), Pow(b, e - 1);
      PowModBase(b, e - 1, m);
      MulModStep(r, x, b, y, m);
      assert Pow(r, e) == r * x && Pow(b, e) == b * y;
    }
  }
}
