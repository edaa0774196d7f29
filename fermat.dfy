/** The number theory behind RSA signatures: Euclid's lemma, binomial
    coefficients, Fermat's little theorem and the step from two prime moduli
    to their product, ending in the round trip `(h^d)^e == h (mod p * q)`
    for exponents inverse modulo (p - 1) * (q - 1). */
module Fermat {
  import opened Arith
  import opened Primes

  // ---------------------------------------------------------------------
  // Euclid's lemma

  /** A factor with an inverse modulo p can be cancelled from a multiple of p. */
  lemma CancelInvertible(p: int, a: int, b: int, x: int, y: int)
    requires a * x + p * y == 1 && Divides(p, a * b)
    ensures Divides(p, b)
  {
    assert b == x * (a * b) + p * (b * y) by {
      assert b * (a * x + p * y) == b;
      assert b * (a * x) == x * (a * b);
      assert b * (p * y) == p * (b * y);
    }
    DividesMultiple(p, b * y);
    DividesLinear(p, a * b, p * (b * y), x);
  }

  /** A number strictly between 0 and a prime is coprime with it. */
  lemma PrimeGcdSmaller(p: int, r: int)
    requires Prime(p) && 0 < r < p
    ensures Gcd(r, p) == 1
  {
    GcdIsGreatest(r, p);
    var g := Gcd(r, p);
    if g == 0 {
      assert false;
    } else if g == p {
      DivisorBound(p, r);
      assert false;
    } else {
      DivisorBound(g, p);
    }
  }

  /** A Bezout identity for r carries over to r + t * p. */
  lemma ShiftBezout(r: int, x: int, p: int, y: int, a: int, t: int)
    requires r * x + p * y == 1 && a == t * p + r
    ensures a * x + p * (y - t * x) == 1
  {
    assert a * x == (t * p) * x + r * x;
    assert p * (y - t * x) == p * y - (t * p) * x;
  }

  /** A prime dividing a product divides one of the factors. */
  lemma {:induction false} Euclid(p: int, a: int, b: int)
    requires Prime(p) && Divides(p, a * b)
    ensures Divides(p, a) || Divides(p, b)
  {
    if !Divides(p, a) {
      var r, t := a % p, a / p;
      assert a == t * p + r;
      PrimeGcdSmaller(p, r);
      ExtendedGcdIsGcd(r, p);
      var x, y := ExtendedGcd(r, p).x, ExtendedGcd(r, p).y;
      ShiftBezout(r, x, p, y, a, t);
      CancelInvertible(p, a, b, x, y - t * x);
    }
  }

  /** A prime divides no number strictly between 0 and itself. */
  lemma PrimeNotDividesSmaller(p: int, k: int)
    requires Prime(p) && 0 < k < p
    ensures !Divides(p, k)
  {
    ModSmall(k, p);
  }

  /** The product of two distinct primes divides every common multiple. */
  lemma DistinctPrimesDivide(p: int, q: int, x: int)
    requires Prime(p) && Prime(q) && p != q
    requires Divides(p, x) && Divides(q, x)
    ensures Divides(p * q, x)
  {
    DividesWitness(p, x);
    var t := x / p;
    Euclid(q, p, t);
    if Divides(q, p) {
      if q > p {
        DivisorBound(q, p);
      }
      assert false;
    }
    DividesWitness(q, t);
    assert x == (p * q) * (t / q);
    DividesMultiple(p * q, t / q);
  }

  // ---------------------------------------------------------------------
  // Binomial coefficients

  /** The binomial coefficient "n choose k", by Pascal's rule. */
  function Binom(n: nat, k: nat): nat
  {
    if k == 0 then 1
    else if n == 0 then 0
    else Binom(n - 1, k - 1) + Binom(n - 1, k)
  }

  /** No way to choose more elements than there are. */
  lemma {:induction false} BinomAbove(n: nat, k: nat)
    requires k > n
    ensures Binom(n, k) == 0
    decreases n
  {
    if n > 0 {
      BinomAbove(n - 1, k - 1);
      BinomAbove(n - 1, k);
    }
  }

  /** Exactly one way to choose all elements. */
  lemma {:induction false} BinomAll(n: nat)
    ensures Binom(n, n) == 1
    decreases n
  {
    if n > 0 {
      BinomAll(n - 1);
      BinomAbove(n - 1, n);
    }
  }

  /** n ways to choose one element. */
  lemma {:induction false} BinomOne(n: nat)
    ensures Binom(n, 1) == n
    decreases n
  {
    if n > 0 {
      BinomOne(n - 1);
    }
  }

  /** The absorption identity `k * C(n, k) == n * C(n - 1, k - 1)`. */
  lemma {:induction false} Absorption(n: nat, k: nat)
    requires n >= 1 && k >= 1
    ensures k * Binom(n, k) == n * Binom(n - 1, k - 1)
    decreases n
  {
    if k == 1 {
      BinomOne(n);
    } else if n == 1 {
      BinomAbove(0, k - 1);
      BinomAbove(0, k);
    } else {
      Absorption(n - 1, k - 1);
      Absorption(n - 1, k);
      assert Binom(n, k) == Binom(n - 1, k - 1) + Binom(n - 1, k);
      assert Binom(n - 1, k - 1) == Binom(n - 2, k - 2) + Binom(n - 2, k - 1);
      AbsorptionStep(n, k, Binom(n - 1, k - 1), Binom(n - 1, k), Binom(n - 2, k - 2), Binom(n - 2, k - 1));
    }
  }

  /** The arithmetic of one absorption step, with Pascal's rule unfolded. */
  lemma AbsorptionStep(n: int, k: int, a: int, b: int, c1: int, c2: int)
    requires a == c1 + c2
    requires (k - 1) * a == (n - 1) * c1 && k * b == (n - 1) * c2
    ensures k * (a + b) == n * a
  {
    assert k * (a + b) == (k - 1) * a + a + k * b;
    assert (n - 1) * c1 + (n - 1) * c2 == (n - 1) * a;
  }

  /** A prime divides every binomial coefficient C(p, k) with 0 < k < p. */
  lemma PrimeDividesBinom(p: nat, k: nat)
    requires Prime(p) && 0 < k < p
    ensures Divides(p, Binom(p, k))
  {
    Absorption(p, k);
    DividesMultiple(p, Binom(p - 1, k - 1));
    Euclid(p, k, Binom(p, k));
    PrimeNotDividesSmaller(p, k);
  }

  // ---------------------------------------------------------------------
  // The binomial theorem

  /** The partial sum `C(n, 0) + C(n, 1) * x + ... + C(n, m) * x^m`. */
  function BinomSum(n: nat, x: int, m: nat): int
  {
    if m == 0 then 1 else BinomSum(n, x, m - 1) + Binom(n, m) * Pow(x, m)
  }

  /** Pascal's rule lifted to the partial sums. */
  lemma {:induction false} BinomSumStep(n: nat, x: int, m: nat)
    requires m >= 1
    ensures BinomSum(n + 1, x, m) == BinomSum(n, x, m) + x * BinomSum(n, x, m - 1)
    decreases m
  {
    var c1, c2 := Binom(n, m - 1), Binom(n, m);
    var w := Pow(x, m - 1);
    assert Pow(x, m) == x * w;
    assert Binom(n + 1, m) == c1 + c2;
    var s2 := if m == 1 then 0 else BinomSum(n, x, m - 2);
    assert BinomSum(n, x, m - 1) == s2 + c1 * w;
    if m > 1 {
      BinomSumStep(n, x, m - 1);
    }
    assert BinomSum(n + 1, x, m - 1) == BinomSum(n, x, m - 1) + x * s2;
    PascalTerms(BinomSum(n, x, m - 1), s2, c1, c2, x, w);
  }

  /** The arithmetic of one step of the binomial sums. */
  lemma PascalTerms(s1: int, s2: int, c1: int, c2: int, x: int, w: int)
    ensures s1 + x * s2 + (c1 + c2) * (x * w) == s1 + c2 * (x * w) + x * (s2 + c1 * w)
  {
    assert (c1 + c2) * (x * w) == c1 * (x * w) + c2 * (x * w);
    assert x * (s2 + c1 * w) == x * s2 + c1 * (x * w);
  }

  /** `(x + 1)^n` is the full binomial sum. */
  lemma {:induction false} BinomialTheorem(n: nat, x: int)
    ensures Pow(x + 1, n) == BinomSum(n, x, n)
    decreases n
  {
    if n > 0 {
      BinomialTheorem(n - 1, x);
      BinomSumStep(n - 1, x, n);
      BinomAbove(n - 1, n);
      var s := BinomSum(n - 1, x, n - 1);
      assert BinomSum(n - 1, x, n) == s;
      assert BinomSum(n, x, n) == s + x * s;
    }
  }

  /** Below the top term, a prime power's binomial sum is 1 modulo p. */
  lemma {:induction false} InnerTermsVanish(p: nat, x: int, m: nat)
    requires Prime(p) && m < p
    ensures Divides(p, BinomSum(p, x, m) - 1)
    decreases m
  {
    if m > 0 {
      InnerTermsVanish(p, x, m - 1);
      PrimeDividesBinom(p, m);
      DividesMulLeft(p, Binom(p, m), Pow(x, m));
      DividesLinear(p, Binom(p, m) * Pow(x, m), BinomSum(p, x, m - 1) - 1, 1);
    }
  }

  /** `(x + 1)^p == x^p + 1` modulo a prime p. */
  lemma {:induction false} FreshmansDream(p: nat, x: int)
    requires Prime(p)
    ensures Divides(p, Pow(x + 1, p) - Pow(x, p) - 1)
  {
    var t, u, v := BinomSum(p, x, p - 1), Pow(x, p), Pow(x + 1, p);
    BinomialTheorem(p, x);
    BinomAll(p);
    assert BinomSum(p, x, p) == t + Binom(p, p) * u;
    assert v - u - 1 == t - 1;
    InnerTermsVanish(p, x, p - 1);
  }

  // ---------------------------------------------------------------------
  // Fermat's little theorem and RSA

  /** Fermat's little theorem: `a^p == a` modulo a prime p. */
  lemma {:induction false} FermatLittle(p: nat, a: nat)
    requires Prime(p)
    ensures Divides(p, Pow(a, p) - a)
    decreases a
  {
    if a > 0 {
      FermatLittle(p, a - 1);
      FreshmansDream(p, a - 1);
      DividesLinear(p, Pow(a, p) - Pow(a - 1, p) - 1, Pow(a - 1, p) - (a - 1), 1);
    }
  }

  /** A number congruent to 1 has every power congruent to 1. */
  lemma {:induction false} PowCongruentOne(m: int, y: int, k: nat)
    requires Divides(m, y - 1)
    ensures Divides(m, Pow(y, k) - 1)
    decreases k
  {
    if k > 0 {
      PowCongruentOne(m, y, k - 1);
      DividesLinear(m, Pow(y, k - 1) - 1, y - 1, y);
      assert y * (Pow(y, k - 1) - 1) + (y - 1) == Pow(y, k) - 1;
    }
  }

  /** `a^(m + 1) - a` factors as `a * (a^m - 1)`. */
  lemma PowSuccMinus(a: int, m: nat)
    ensures Pow(a, m + 1) - a == a * (Pow(a, m) - 1)
  {
    var w := Pow(a, m);
    assert Pow(a, m + 1) == a * w;
  }

  /** `a^(p - 1) == 1` modulo a prime p that does not divide a. */
  lemma {:induction false} FermatUnit(p: nat, a: nat)
    requires Prime(p) && !Divides(p, a)
    ensures Divides(p, Pow(a, p - 1) - 1)
  {
    var y := Pow(a, p - 1);
    FermatLittle(p, a);
    PowSuccMinus(a, p - 1);
    assert p - 1 + 1 == p;
    assert Pow(a, p) - a == a * (y - 1);
    Euclid(p, a, y - 1);
  }

  /** Every power of `a^(p - 1)` is 1 modulo a prime p that does not divide a. */
  lemma {:induction false} FermatUnitPower(p: nat, a: nat, k: nat)
    requires Prime(p) && !Divides(p, a)
    ensures Divides(p, Pow(a, k * (p - 1)) - 1)
  {
    var y := Pow(a, p - 1);
    FermatUnit(p, a);
    PowCongruentOne(p, y, k);
    PowMul(a, p - 1, k);
    assert (p - 1) * k == k * (p - 1);
  }

  /** `a^(k * (p - 1) + 1) == a` modulo a prime p, whether or not p divides a. */
  lemma {:induction false} FermatExponent(p: nat, a: nat, k: nat)
    requires Prime(p)
    ensures Divides(p, Pow(a, k * (p - 1) + 1) - a)
  {
    var m := k * (p - 1);
    var w := Pow(a, m);
    PowSuccMinus(a, m);
    if Divides(p, a) {
      DividesMulLeft(p, a, w - 1);
    } else {
      FermatUnitPower(p, a, k);
      DividesMulLeft(p, w - 1, a);
      assert (w - 1) * a == a * (w - 1);
    }
  }

  /** Regrouping a product of three factors. */
  lemma Regroup(k: int, a: int, b: int)
    ensures k * (a * b) == (k * b) * a && k * (a * b) == (k * a) * b
  {
  }

  /** `h^m == h` modulo the product of distinct primes p and q when m - 1 is
      a multiple of both p - 1 and q - 1. */
  lemma {:induction false} RsaCongruence(p: nat, q: nat, kp: nat, kq: nat, m: nat, h: nat)
    requires Prime(p) && Prime(q) && p != q
    requires m == kp * (p - 1) + 1 && m == kq * (q - 1) + 1
    ensures Divides(p * q, Pow(h, m) - h)
  {
    FermatExponent(p, h, kp);
    FermatExponent(q, h, kq);
    DistinctPrimesDivide(p, q, Pow(h, m) - h);
  }

  /** The RSA round trip: for distinct primes p and q and exponents inverse
      modulo (p - 1) * (q - 1), raising h < p * q to d and then to e modulo
      p * q gives back h. */
  lemma {:induction false} RsaRoundTrip(p: nat, q: nat, e: nat, d: nat, h: nat)
    requires Prime(p) && Prime(q) && p != q
    requires (e * d) % ((p - 1) * (q - 1)) == 1
    requires h < p * q
    ensures PowMod(PowMod(h, d, p * q), e, p * q) == h
  {
    var n, fn := p * q, (p - 1) * (q - 1);
    MulAtLeast(p, q);
    MulAtLeast(p - 1, q - 1);
    var k := (e * d) / fn;
    assert e * d == k * fn + 1 by {
      assert e * d == k * fn + (e * d) % fn;
    }
    assert d * e == k * fn + 1;
    Regroup(k, p - 1, q - 1);
    RsaCongruence(p, q, k * (q - 1), k * (p - 1), d * e, h);
    DividesWitness(n, Pow(h, d * e) - h);
    var z := (Pow(h, d * e) - h) / n;
    calc {
      PowMod(PowMod(h, d, n), e, n);
      Pow(Pow(h, d) % n, e) % n;
      { PowModBase(Pow(h, d), e, n); }
      Pow(Pow(h, d), e) % n;
      { PowMul(h, d, e); }
      Pow(h, d * e) % n;
      (n * z + h) % n;
      { ModAddMultiple(n, z, h); }
      h % n;
      { ModSmall(h, n); }
      h;
    }
  }

  // ---------------------------------------------------------------------
  // Miller–Rabin never rejects a prime

  /** Modulo a prime, the only square roots of 1 are 1 and -1. */
  lemma SquareRootOfOne(p: int, v: int)
    requires Prime(p) && 0 <= v < p && (v * v) % p == 1
    ensures v == 1 || v == p - 1
  {
    var m := v * v;
    assert m == (m / p) * p + 1;
    assert (v - 1) * (v + 1) == p * (m / p);
    DividesMultiple(p, m / p);
    Euclid(p, v - 1, v + 1);
    if Divides(p, v - 1) {
      if v == 0 {
        ModAddMultiple(p, -1, p - 1);
        ModSmall(p - 1, p);
        assert false;
      } else if v > 1 {
        DivisorBound(p, v - 1);
        assert false;
      }
    } else {
      DivisorBound(p, v + 1);
    }
  }

  /** If a^(s * 2^j) is 1 modulo a prime but a^s is not, some earlier
      a^(s * 2^i) is -1: the squaring chain reaches 1 only through -1. */
  lemma {:induction false} ChainPassesMinusOne(p: int, a: int, s: nat, j: nat)
    requires Prime(p)
    requires Pow(a, s * Pow(2, j)) % p == 1 && Pow(a, s) % p != 1
    ensures exists i :: 0 <= i < j && Pow(a, s * Pow(2, i)) % p == p - 1
    decreases j
  {
    if j == 0 {
      assert false;
    }
    var v := Pow(a, s * Pow(2, j - 1)) % p;
    SquareStep(a, s, j - 1, p);
    if v == 1 {
      ChainPassesMinusOne(p, a, s, j - 1);
    } else {
      SquareRootOfOne(p, v);
    }
  }

  /** Every Miller–Rabin trial on a prime passes, whatever base in [1, p)
      it draws: rabin_miller has no false negatives. */
  lemma TrialPassesForPrime(p: int, a: int)
    requires Prime(p) && 1 <= a < p
    ensures TrialPasses(p, a, OddPart(p - 1), TwoExponent(p - 1))
  {
    var s, t := OddPart(p - 1), TwoExponent(p - 1);
    OddPartDecomposes(p - 1);
    PrimeNotDividesSmaller(p, a);
    FermatUnit(p, a);
    var w := Pow(a, p - 1);
    assert Divides(p, w - 1);
    assert w % p == 1 by {
      DividesWitness(p, w - 1);
      ModAddMultiple(p, (w - 1) / p, 1);
      ModSmall(1, p);
    }
    if Pow(a, s) % p != 1 {
      ChainPassesMinusOne(p, a, s, t);
    }
  }

  /** is_prime accepts every prime whenever its Miller–Rabin bases lie in
      [1, num): below the table bound by the table itself, above it because
      no table prime divides num and every trial passes. */
  lemma PrimeAccepted(num: int, bases: seq<int>)
    requires Prime(num) && |bases| == Trials
    requires forall j :: 0 <= j < Trials ==> 1 <= bases[j] < num
    ensures Accepted(num, bases)
  {
    if num >= TableBound {
      forall j | 0 <= j < Trials
        ensures TrialPasses(num, bases[j], OddPart(num - 1), TwoExponent(num - 1))
      {
        TrialPassesForPrime(num, bases[j]);
      }
    }
  }

  /** Below 1009 * 1009, is_prime answers exactly primality, whatever bases
      in [1, num) its trials draw. */
  lemma AcceptedIsPrimeBelowBound(num: int, bases: seq<int>)
    requires num < 1009 * 1009 && |bases| == Trials
    requires forall j :: 0 <= j < Trials ==> 1 <= bases[j] < num
    ensures Accepted(num, bases) <==> Prime(num)
  {
    if Prime(num) {
      PrimeAccepted(num, bases);
    } else {
      CompositeBelowBoundRejected(num, bases);
    }
  }
}
