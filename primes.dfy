/** The number-theory library: an Eratosthenes sieve, the Miller–Rabin
    witness loop, the primality test built from both, rejection sampling of
    a prime with a given bit length, Euclid's gcd and its extended form, and
    the primitive-root search for safe primes.

    Every random draw of the library is a parameter: the bases of the
    Miller–Rabin trials, the candidates of the prime search and of the
    primitive-root search. A `while True` resampling loop runs over a finite
    sequence of draws; running out of them yields `None`, standing for a
    loop that is still searching. */
module Primes {
  import opened Arith
  import opened Wrappers

  /** Number of Miller–Rabin trials. */
  const Trials := 5

  /** The primality test trial-divides by the primes below this bound. */
  const TableBound := 1000

  // ---------------------------------------------------------------------
  // primes_sieve

  /** j is still unmarked after sieving with every k in [2, bound): it is at
      least 2 and no such k with k * k <= j divides it. */
  ghost predicate Survives(j: int, bound: int)
  {
    j >= 2 && forall k :: 2 <= k < bound && k * k <= j ==> !Divides(k, j)
  }

  /** A number that no k with k * k <= n divides is prime. */
  lemma SurvivorIsPrime(n: int)
    requires Survives(n, n)
    ensures Prime(n)
  {
    forall k | 2 <= k < n
      ensures !Divides(k, n)
    {
      if Divides(k, n) {
        DividesWitness(k, n);
        var c := n / k;
        assert n == k * c;
        assert c >= 2;
        assert c < n by { MulLess(1, k, c); }
        assert Divides(c, n) by { DividesMultiple(c, k); }
        if k * k <= n {
          assert false;
        } else {
          assert c < k by {
            if k <= c {
              if k < c { MulLess(k, c, k); }
            }
          }
          MulLess(c, k, c);
          assert false;
        }
      }
    }
  }

  /** Sieving with a number that is not a survivor marks nothing new. */
  lemma NonSurvivorMarksNothing(i: int, j: int)
    requires 2 <= i < j && !Survives(i, i)
    ensures Survives(j, i + 1) <==> Survives(j, i)
  {
    if i * i <= j && Divides(i, j) {
      var k :| 2 <= k < i && k * k <= i && Divides(k, i);
      DividesTrans(k, i, j);
      MulAtLeast(i, i);
      assert k * k <= j;
    }
  }

  /** Only multiples of i lie a multiple of i apart. */
  lemma NotMultipleBetween(i: int, c: int, j: int)
    requires i > 0 && i * c < j < i * c + i
    ensures !Divides(i, j)
  {
    if Divides(i, j) {
      DividesWitness(i, j);
      var q := j / i;
      if q <= c {
        if q < c { MulLess(q, c, i); }
      } else {
        if q > c + 1 { MulLess(c + 1, q, i); }
      }
    }
  }

  /** The inner loop of primes_sieve: for n in range(i*i, limit, i), mark n. */
  method CrossOff(a: array<bool>, i: int)
    requires i >= 2
    modifies a
    ensures forall j :: 0 <= j < a.Length ==>
      a[j] == (old(a[j]) && !(i * i <= j && Divides(i, j)))
  {
    var m := i * i;
    ghost var c := i;
    while m < a.Length
      invariant m == i * c && c >= i
      invariant forall j :: 0 <= j < a.Length ==>
        a[j] == (old(a[j]) && !(i * i <= j < m && Divides(i, j)))
    {
      assert Divides(i, m) by { DividesMultiple(i, c); }
      forall j | m < j < m + i
        ensures !Divides(i, j)
      {
        NotMultipleBetween(i, c, j);
      }
      a[m] := false;
      m, c := m + i, c + 1;
    }
  }

  /** primes_sieve(limit): the primes below limit in increasing order. The
      generator's output is collected into a sequence. */
  method PrimesSieve(limit: int) returns (primes: seq<int>)
    requires limit >= 2
    ensures forall x :: x in primes <==> x < limit && Prime(x)
    ensures forall k, l :: 0 <= k < l < |primes| ==> primes[k] < primes[l]
  {
    var a := new bool[limit](_ => true);
    a[0], a[1] := false, false;
    primes := [];
    var i := 0;
    while i < limit
      invariant 0 <= i <= limit
      invariant forall j :: i <= j < limit ==> (a[j] <==> Survives(j, i))
      invariant forall x :: x in primes <==> x < i && Prime(x)
      invariant forall k :: 0 <= k < |primes| ==> primes[k] < i
      invariant forall k, l :: 0 <= k < l < |primes| ==> primes[k] < primes[l]
    {
      if a[i] {
        SurvivorIsPrime(i);
        primes := primes + [i];
        MulAtLeast(i, i);
        CrossOff(a, i);
      } else if i >= 2 {
        forall j | i < j < limit
          ensures Survives(j, i + 1) <==> Survives(j, i)
        {
          NonSurvivorMarksNothing(i, j);
        }
      }
      i := i + 1;
    }
  }

  // ---------------------------------------------------------------------
  // rabin_miller

  /** The odd part s of m, where m == s * 2^t. */
  function OddPart(m: int): (s: int)
    requires m > 0
    ensures s > 0
    decreases m
  {
    if m % 2 == 0 then OddPart(m / 2) else m
  }

  /** The number t of factors 2 in m, where m == s * 2^t. */
  function TwoExponent(m: int): nat
    requires m > 0
    decreases m
  {
    if m % 2 == 0 then 1 + TwoExponent(m / 2) else 0
  }

  /** m splits into an odd part times a power of two. */
  lemma {:induction false} OddPartDecomposes(m: int)
    requires m > 0
    ensures OddPart(m) % 2 == 1
    ensures OddPart(m) * Pow(2, TwoExponent(m)) == m
    decreases m
  {
    if m % 2 == 0 {
      var h := m / 2;
      assert m == 2 * h;
      OddPartDecomposes(h);
      var s, t := OddPart(h), TwoExponent(h);
      var w := Pow(2, t);
      assert OddPart(m) == s && TwoExponent(m) == t + 1;
      assert Pow(2, t + 1) == 2 * w;
      assert s * (2 * w) == 2 * (s * w);
    }
  }

  /** The halving loop of rabin_miller: while s is even, halve it and count
      the halvings in t. */
  method SplitPowerOfTwo(m: int) returns (s: int, t: nat)
    requires m > 0
    ensures s == OddPart(m) && t == TwoExponent(m)
    ensures s % 2 == 1 && s * Pow(2, t) == m
  {
    s, t := m, 0;
    while s % 2 == 0
      invariant s > 0
      invariant OddPart(s) == OddPart(m)
      invariant TwoExponent(s) + t == TwoExponent(m)
      decreases s
    {
      s := s / 2;
      t := t + 1;
    }
    OddPartDecomposes(m);
  }

  /** One Miller–Rabin trial with base a, where num - 1 == s * 2^t: a^s is 1
      modulo num, or some a^(s * 2^i) with i < t is num - 1 modulo num. */
  predicate TrialPasses(num: int, a: int, s: nat, t: nat)
    requires num >= 2
  {
    Pow(a, s) % num == 1 ||
    exists i :: 0 <= i < t && Pow(a, s * Pow(2, i)) % num == num - 1
  }

  /** Every one of the trials, with the given bases, passes. */
  predicate MillerRabin(num: int, bases: seq<int>)
    requires num >= 2 && |bases| == Trials
  {
    forall j :: 0 <= j < Trials ==>
      TrialPasses(num, bases[j], OddPart(num - 1), TwoExponent(num - 1))
  }

  /** Squaring a^(s * 2^i) modulo num gives a^(s * 2^(i+1)) modulo num. */
  lemma SquareStep(a: int, s: nat, i: nat, num: int)
    requires num > 0
    ensures var v := Pow(a, s * Pow(2, i)) % num;
      (v * v) % num == Pow(a, s * Pow(2, i + 1)) % num
  {
    var p := Pow(2, i);
    var e := s * p;
    assert s * Pow(2, i + 1) == e + e by {
      assert Pow(2, i + 1) == 2 * p;
    }
    var x := Pow(a, e);
    PowAdd(a, e, e);
    MulMod(x, x, num);
  }

  /** rabin_miller(num): the trials run with the given bases (the values
      random.randrange(2, num - 1) would draw). Requires an odd num of at
      least 5; for an even num, t is 0 and the squaring loop need not end. */
  method RabinMiller(num: int, bases: seq<int>) returns (probablyPrime: bool)
    requires num >= 5 && num % 2 == 1
    requires |bases| == Trials
    ensures probablyPrime == MillerRabin(num, bases)
  {
    var s, t := SplitPowerOfTwo(num - 1);
    var trial := 0;
    while trial < Trials
      invariant 0 <= trial <= Trials
      invariant forall j :: 0 <= j < trial ==> TrialPasses(num, bases[j], s, t)
    {
      var a := bases[trial];
      var v := PowMod(a, s, num);
      if v != 1 {
        var i := 0;
        while v != num - 1
          invariant 0 <= i < t
          invariant v == Pow(a, s * Pow(2, i)) % num
          invariant forall j :: 0 <= j < i ==> Pow(a, s * Pow(2, j)) % num != num - 1
          decreases t - i
        {
          if i == t - 1 {
            assert !TrialPasses(num, a, s, t);
            return false;
          }
          SquareStep(a, s, i, num);
          i := i + 1;
          v := (v * v) % num;
        }
      }
      trial := trial + 1;
    }
    return true;
  }

  // ---------------------------------------------------------------------
  // is_prime

  /** num has a prime factor below TableBound. */
  predicate HasTableFactor(num: int)
  {
    exists p :: 2 <= p < TableBound && Prime(p) && Divides(p, num)
  }

  /** What is_prime(num) answers when its Miller–Rabin trials draw the given
      bases: no below 2, primality itself below TableBound, and otherwise no
      factor in the table and every trial passing. */
  predicate Accepted(num: int, bases: seq<int>)
    requires |bases| == Trials
  {
    if num < 2 then false
    else if num < TableBound then Prime(num)
    else !HasTableFactor(num) && MillerRabin(num, bases)
  }

  /** The least divisor of n that is at least k. */
  function LeastDivisorFrom(n: int, k: int): (d: int)
    requires 2 <= k <= n
    ensures k <= d <= n && Divides(d, n)
    ensures forall j :: k <= j < d ==> !Divides(j, n)
    decreases n - k
  {
    if Divides(k, n) then k
    else
      assert k < n by { assert Divides(n, n) by { DividesMultiple(n, 1); } }
      LeastDivisorFrom(n, k + 1)
  }

  /** The least divisor p >= 2 of n is prime, and it is n itself or p * p
      is at most n. */
  lemma LeastDivisorIsPrime(n: int)
    requires n >= 2
    ensures var p := LeastDivisorFrom(n, 2);
      Prime(p) && Divides(p, n) && (p == n || p * p <= n)
  {
    var p := LeastDivisorFrom(n, 2);
    forall k | 2 <= k < p
      ensures !Divides(k, p)
    {
      if Divides(k, p) {
        DividesTrans(k, p, n);
      }
    }
    if p < n {
      DividesWitness(p, n);
      var c := n / p;
      assert n == p * c;
      assert c >= 2;
      assert Divides(c, n) by { DividesMultiple(c, p); }
      assert c <= n by { MulLess(1, p, c); }
      assert p <= c;
      if p < c { MulLess(p, c, p); }
    }
  }

  /** A number that is not prime has a prime factor p with p * p at most n. */
  lemma CompositeHasSmallFactor(n: int)
    requires n >= 2 && !Prime(n)
    ensures exists p :: Prime(p) && Divides(p, n) && p * p <= n
  {
    LeastDivisorIsPrime(n);
  }

  /** is_prime(num), trying the primes below TableBound first and then
      rabin_miller with the given bases. */
  method IsPrime(num: int, bases: seq<int>) returns (r: bool)
    requires |bases| == Trials
    ensures r == Accepted(num, bases)
    ensures num < 2 ==> !r
    ensures num < TableBound ==> (r <==> Prime(num))
    ensures HasTableFactor(num) && num >= TableBound ==> !r
  {
    if num < 2 {
      return false;
    }
    var lowPrimes := PrimesSieve(TableBound);
    if num in lowPrimes {
      return true;
    }
    assert forall j :: 0 <= j < |lowPrimes| ==> lowPrimes[j] in lowPrimes && lowPrimes[j] >= 2;
    for k := 0 to |lowPrimes|
      invariant forall j :: 0 <= j < k ==> num % lowPrimes[j] != 0
    {
      if num % lowPrimes[k] == 0 {
        assert lowPrimes[k] in lowPrimes;
        assert Divides(lowPrimes[k], num);
        return false;
      }
    }
    assert !HasTableFactor(num) by {
      forall p | 2 <= p < TableBound && Prime(p)
        ensures !Divides(p, num)
      {
        assert p in lowPrimes;
      }
    }
    if num < TableBound {
      LeastDivisorIsPrime(num);
      assert false;
    }
    assert Prime(2);
    assert !Divides(2, num);
    r := RabinMiller(num, bases);
  }

  /** Every number from 1000 to 1008 is composite, so 997 is the largest prime
      below 1009. */
  lemma NoPrimeFrom1000To1008(p: int)
    requires TableBound <= p < 1009
    ensures !Prime(p)
  {
    if p % 2 == 0 {
      assert Divides(2, p);
    } else if p == 1001 {
      assert Divides(7, p);
    } else if p == 1003 {
      assert Divides(17, p);
    } else if p == 1005 {
      assert Divides(3, p);
    } else {
      assert p == 1007;
      assert Divides(19, p);
    }
  }

  /** Trial division by the table alone rejects every composite below 1009^2,
      whatever the Miller–Rabin bases: its least prime factor is below 1009,
      hence in the table. */
  lemma CompositeBelowBoundRejected(num: int, bases: seq<int>)
    requires |bases| == Trials
    requires num < 1009 * 1009 && !Prime(num)
    ensures !Accepted(num, bases)
  {
    if num >= TableBound {
      CompositeHasSmallFactor(num);
      var p :| Prime(p) && Divides(p, num) && p * p <= num;
      if p >= 1009 {
        MulAtLeast(p, p);
        if p > 1009 { MulLess(1009, p, p); MulLess(1009, p, 1009); }
        assert false;
      }
      if p >= TableBound {
        NoPrimeFrom1000To1008(p);
      }
      assert HasTableFactor(num);
    }
  }

  // ---------------------------------------------------------------------
  // generate_large_prime

  /** One pass of the sampling loop: the candidate random.randrange draws and
      the bases of its Miller–Rabin trials. */
  datatype Draw = Draw(candidate: int, bases: seq<int>)

  /** Every candidate has exactly keySize bits and carries five bases. */
  predicate DrawsFit(keySize: nat, draws: seq<Draw>)
    requires keySize >= 1
  {
    forall i :: 0 <= i < |draws| ==>
      Pow(2, keySize - 1) <= draws[i].candidate < Pow(2, keySize) &&
      |draws[i].bases| == Trials
  }

  /** Every draw carries five bases. */
  predicate BasesFit(draws: seq<Draw>)
  {
    forall i :: 0 <= i < |draws| ==> |draws[i].bases| == Trials
  }

  /** The first candidate that is_prime accepts, if any. */
  function FirstPrime(draws: seq<Draw>): (r: Option<int>)
    requires BasesFit(draws)
    ensures r.None? <==> forall i :: 0 <= i < |draws| ==> !Accepted(draws[i].candidate, draws[i].bases)
    ensures r.Some? ==> exists i :: (0 <= i < |draws| && r.value == draws[i].candidate &&
      Accepted(draws[i].candidate, draws[i].bases) &&
      forall j :: 0 <= j < i ==> !Accepted(draws[j].candidate, draws[j].bases))
  {
    if draws == [] then None
    else if Accepted(draws[0].candidate, draws[0].bases) then Some(draws[0].candidate)
    else
      var r := FirstPrime(draws[1..]);
      assert forall i :: 1 <= i < |draws| ==> draws[1..][i - 1] == draws[i];
      r
  }

  /** generate_large_prime(key_size): sample until is_prime accepts. The
      result has exactly keySize bits; `None` means the draws ran out. */
  method GenerateLargePrime(keySize: nat, draws: seq<Draw>) returns (r: Option<int>)
    requires keySize >= 1 && DrawsFit(keySize, draws)
    ensures r == FirstPrime(draws)
    ensures r.Some? ==> Pow(2, keySize - 1) <= r.value < Pow(2, keySize)
  {
    var k := 0;
    while k < |draws|
      invariant 0 <= k <= |draws|
      invariant FirstPrime(draws) == FirstPrime(draws[k..])
    {
      assert draws[k..][0] == draws[k] && draws[k..][1..] == draws[k + 1..];
      var ok := IsPrime(draws[k].candidate, draws[k].bases);
      if ok {
        return Some(draws[k].candidate);
      }
      k := k + 1;
    }
    return None;
  }

  // ---------------------------------------------------------------------
  // gcd and extended_gcd

  function Abs(x: int): nat { if x < 0 then -x else x }

  /** gcd(a, b): Euclid's algorithm with Python's remainder. */
  function Gcd(a: int, b: int): int
    decreases Abs(b)
  {
    if b == 0 then a else Gcd(b, PyMod(a, b))
  }

  /** For non-negative arguments, gcd(a, b) is a non-negative common divisor
      of a and b that every common divisor divides. */
  lemma {:induction false} GcdIsGreatest(a: int, b: int)
    requires a >= 0 && b >= 0
    ensures Gcd(a, b) >= 0
    ensures Divides(Gcd(a, b), a) && Divides(Gcd(a, b), b)
    ensures forall d :: Divides(d, a) && Divides(d, b) ==> Divides(d, Gcd(a, b))
    decreases b
  {
    if b == 0 {
      DividesMultiple(a, 1);
      DividesMultiple(a, 0);
    } else {
      var q, r := a / b, a % b;
      assert PyMod(a, b) == r;
      GcdIsGreatest(b, r);
      var g := Gcd(b, r);
      assert Gcd(a, b) == g;
      assert a == q * b + r;
      DividesLinear(g, b, r, q);
      forall d | Divides(d, a) && Divides(d, b)
        ensures Divides(d, g)
      {
        DividesLinear(d, b, a, -q);
        assert -q * b + a == r;
      }
    }
  }

  /** For non-negative arguments the order of the arguments does not matter. */
  lemma GcdCommutes(a: int, b: int)
    requires a >= 0 && b >= 0
    ensures Gcd(a, b) == Gcd(b, a)
  {
    if a == b {
    } else if b == 0 {
      ModSmall(0, a);
      assert Gcd(0, a) == Gcd(a, 0);
    } else if a == 0 {
      ModSmall(0, b);
      assert Gcd(0, b) == Gcd(b, 0);
    } else if a < b {
      ModSmall(a, b);
      assert Gcd(a, b) == Gcd(b, a);
    } else {
      ModSmall(b, a);
      assert Gcd(b, a) == Gcd(a, b);
    }
  }

  /** Coefficients x, y with a * x + b * y == g. */
  datatype Bezout = Bezout(g: int, x: int, y: int)

  /** One back-substitution step of extended_gcd keeps Bezout's identity. */
  lemma BackSubstitution(a: int, b: int, g: int, x: int, y: int)
    requires a != 0
    requires PyMod(b, a) * x + a * y == g
    ensures a * (y - PyDiv(b, a) * x) + b * x == g
  {
    var q := PyDiv(b, a);
    assert b == q * a + PyMod(b, a);
    calc {
      a * (y - q * x) + b * x;
      a * y - a * q * x + (q * a + PyMod(b, a)) * x;
      a * y + PyMod(b, a) * x;
    }
  }

  /** extended_gcd(a, b): [g, x, y] with a * x + b * y == g, for integers
      of any sign. */
  function ExtendedGcd(a: int, b: int): (r: Bezout)
    ensures a * r.x + b * r.y == r.g
    decreases Abs(a)
  {
    if a == 0 then Bezout(b, 0, 1)
    else
      var rec := ExtendedGcd(PyMod(b, a), a);
      BackSubstitution(a, b, rec.g, rec.x, rec.y);
      Bezout(rec.g, rec.y - PyDiv(b, a) * rec.x, rec.x)
  }

  /** The g of extended_gcd(a, b) is gcd(b, a), for integers of any sign. */
  lemma {:induction false} ExtendedGcdSwapped(a: int, b: int)
    ensures ExtendedGcd(a, b).g == Gcd(b, a)
    decreases Abs(a)
  {
    if a != 0 {
      ExtendedGcdSwapped(PyMod(b, a), a);
    }
  }

  /** For non-negative arguments, extended_gcd(a, b) returns gcd(a, b) with
      its Bezout coefficients. */
  lemma ExtendedGcdIsGcd(a: int, b: int)
    requires a >= 0 && b >= 0
    ensures ExtendedGcd(a, b).g == Gcd(a, b)
    ensures a * ExtendedGcd(a, b).x + b * ExtendedGcd(a, b).y == Gcd(a, b)
  {
    ExtendedGcdSwapped(a, b);
    GcdCommutes(a, b);
  }

  /** The worked example: extended_gcd(43, 288) == [1, 67, -10], so 67 is the
      inverse of 43 modulo 288. */
  lemma ExtendedGcdExample()
    ensures ExtendedGcd(43, 288) == Bezout(1, 67, -10)
    ensures (43 * 67) % 288 == 1
  {
    // Variables rather than literals keep the verifier from unfolding the
    // whole recursion at every step.
    var a, b := 1, 4;
    assert ExtendedGcd(a, b) == Bezout(1, 1, 0) by {
      assert PyMod(4, 1) == 0 && PyDiv(4, 1) == 4;
    }
    a, b := 4, 13;
    assert ExtendedGcd(a, b) == Bezout(1, -3, 1) by {
      assert PyMod(13, 4) == 1 && PyDiv(13, 4) == 3;
    }
    a, b := 13, 30;
    assert ExtendedGcd(a, b) == Bezout(1, 7, -3) by {
      assert PyMod(30, 13) == 4 && PyDiv(30, 13) == 2;
    }
    a, b := 30, 43;
    assert ExtendedGcd(a, b) == Bezout(1, -10, 7) by {
      assert PyMod(43, 30) == 13 && PyDiv(43, 30) == 1;
    }
    a, b := 43, 288;
    assert ExtendedGcd(a, b) == Bezout(1, 67, -10) by {
      assert PyMod(288, 43) == 30 && PyDiv(288, 43) == 6;
    }
  }

  // ---------------------------------------------------------------------
  // primitive_roots

  /** The test primitive_roots applies to a candidate g for an odd p: with
      p1 = 2 and p2 = (p - 1) // 2, neither g^((p-1)//p1) nor g^((p-1)//p2)
      is 1 modulo p. */
  predicate RootTest(p: int, g: int)
    requires p >= 3
  {
    var p2 := (p - 1) / 2;
    PowMod(g, (p - 1) / 2, p) != 1 && PowMod(g, (p - 1) / p2, p) != 1
  }

  /** primitive_roots(p): 1 for p == 2, otherwise the first candidate (the
      values random.randint(2, p - 1) would draw) that passes RootTest;
      `None` means the draws ran out. */
  method PrimitiveRoot(p: int, draws: seq<int>) returns (r: Option<int>)
    requires p >= 2
    requires forall i :: 0 <= i < |draws| ==> 2 <= draws[i] <= p - 1
    ensures p == 2 ==> r == Some(1)
    ensures p > 2 && r.Some? ==> 2 <= r.value <= p - 1 && RootTest(p, r.value)
    ensures p > 2 && r.Some? ==> exists i :: (0 <= i < |draws| && draws[i] == r.value &&
      forall j :: 0 <= j < i ==> !RootTest(p, draws[j]))
    ensures p > 2 && r.None? ==> forall i :: 0 <= i < |draws| ==> !RootTest(p, draws[i])
  {
    if p == 2 {
      return Some(1);
    }
    var p1 := 2;
    var p2 := (p - 1) / p1;
    var k := 0;
    while k < |draws|
      invariant 0 <= k <= |draws|
      invariant forall j :: 0 <= j < k ==> !RootTest(p, draws[j])
    {
      var g := draws[k];
      if PowMod(g, (p - 1) / p1, p) != 1 {
        if PowMod(g, (p - 1) / p2, p) != 1 {
          return Some(g);
        }
      }
      k := k + 1;
    }
    return None;
  }

  /** For an odd p >= 5 the second exponent is 2: RootTest asks that neither
      g^2 nor g^((p-1)/2) be 1 modulo p. */
  lemma RootTestForOddPrime(p: int, g: int)
    requires p >= 5 && p % 2 == 1
    ensures RootTest(p, g) <==> PowMod(g, 2, p) != 1 && PowMod(g, (p - 1) / 2, p) != 1
  {
    var p2 := (p - 1) / 2;
    assert p - 1 == 2 * p2;
    assert p2 >= 2;
    assert (p - 1) / p2 == 2 by {
      DividesMultiple(p2, 2);
      DividesWitness(p2, p - 1);
      assert p2 * ((p - 1) / p2) == p2 * 2;
      if (p - 1) / p2 < 2 { MulLess((p - 1) / p2, 2, p2); }
      if (p - 1) / p2 > 2 { MulLess(2, (p - 1) / p2, p2); }
    }
  }

  /** For p == 3 the only candidate, 2, fails the test (2^2 is 1 modulo 3),
      so the search never returns. */
  lemma NoRootPassesForThree()
    ensures !RootTest(3, 2)
  {
    assert Pow(2, 2) == 4;
  }
}
