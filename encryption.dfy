/** The key manager and signature engine: the `Encryption` class holding the
    key table {p, q, n, fn, e, d} and the flag `is_all_keys`, the checks on
    the table, the derivation of exponents, the additive file checksum and
    RSA signing and verification over it.

    File content is a sequence of bytes; every random draw is a parameter,
    as in the number-theory library. Each raised exception is a `Failure`
    carrying an `Error`. */
module RsaSignature {
  import opened Arith
  import opened Wrappers
  import opened Primes
  import opened Fermat

  /** The entries of the key table. */
  datatype Field = P | Q | N | Fn | E | D

  /** The entries check_keys requires, in the order it visits them. */
  const AllFields: seq<Field> := [P, Q, N, Fn, E, D]

  /** The seed of the file checksum. */
  const Seed := 100

  /** A byte of file content. */
  type Byte = b: int | 0 <= b < 256

  /** The failures of the key manager and the signature engine. */
  datatype Error =
    | NotPrime(field: Field)  // KeyError: a supplied p or q fails is_prime
    | NotCoprime              // KeyInputError: an exponent shares a factor with fn
    | MissingPQ               // KeyError: no euler given and p or q unset
    | InvalidKeys             // KeyError: check_keys is false before hashing or signing
    | ZeroDivision            // ZeroDivisionError: the checksum reduced modulo n == 0
    | ZeroModulus             // ValueError: pow with modulus 0
    | NegativeExponent        // pow with a negative exponent
    | EmptyRange              // ValueError: randrange(1, key_size) with key_size <= 1
    | OutOfDraws              // the random draws ran out before the loop returned

  /** A public key {e, n} as a verifier receives it. */
  datatype PublicKey = PublicKey(e: int, n: int)

  /** Where set_keys takes p (or q) from: a value the caller supplies, with
      the Miller–Rabin bases of its primality check, or a fresh prime sampled
      from the given draws. */
  datatype PrimeSource = Given(value: int, bases: seq<int>) | Generate(draws: seq<Draw>)

  /** The draws of a source fit the primality test and the bit length. */
  predicate SourceFits(keySize: nat, src: PrimeSource)
  {
    match src
    case Given(_, bases) => |bases| == Trials
    case Generate(draws) => keySize >= 1 && DrawsFit(keySize, draws)
  }

  /** The prime set_keys stores for a field, or the error it raises. */
  function Obtain(keySize: nat, src: PrimeSource, field: Field): Result<int, Error>
    requires SourceFits(keySize, src)
  {
    match src
    case Given(v, bases) =>
      if Accepted(v, bases) then Success(v) else Failure(NotPrime(field))
    case Generate(draws) =>
      match FirstPrime(draws)
      case Some(v) => Success(v)
      case None => Failure(OutOfDraws)
  }

  /** What set_keys obtains passed is_prime; a generated prime also has
      exactly keySize bits. */
  lemma ObtainedPassesIsPrime(keySize: nat, src: PrimeSource, field: Field)
    requires SourceFits(keySize, src) && Obtain(keySize, src, field).Success?
    ensures var v := Obtain(keySize, src, field).value;
      v >= 2 && exists bases :: |bases| == Trials && Accepted(v, bases)
    ensures src.Generate? ==>
      Pow(2, keySize - 1) <= Obtain(keySize, src, field).value < Pow(2, keySize)
  {
    if src.Generate? {
      var i :| 0 <= i < |src.draws| && Obtain(keySize, src, field).value == src.draws[i].candidate &&
        Accepted(src.draws[i].candidate, src.draws[i].bases);
      assert |src.draws[i].bases| == Trials;
    }
  }

  // ---------------------------------------------------------------------
  // check_public_private_key and check_keys

  /** check_public_private_key(key, fn): the key itself when gcd(key, fn) is
      1, KeyInputError otherwise. */
  function CheckExponent(key: int, fn: int): Result<int, Error>
  {
    if Gcd(key, fn) == 1 then Success(key) else Failure(NotCoprime)
  }

  /** For non-negative arguments, check_public_private_key accepts exactly
      the keys that share no factor above 1 with fn, and returns them
      unchanged. */
  lemma CheckExponentAcceptsCoprime(key: int, fn: int)
    requires key >= 0 && fn >= 0
    ensures CheckExponent(key, fn).Success? <==>
      forall d :: d > 1 ==> !(Divides(d, key) && Divides(d, fn))
    ensures CheckExponent(key, fn).Success? ==> CheckExponent(key, fn).value == key
  {
    GcdIsGreatest(key, fn);
    var g := Gcd(key, fn);
    if g == 1 {
      forall d | d > 1 && Divides(d, key) && Divides(d, fn)
        ensures false
      {
        assert Divides(d, 1);
        DivisorBound(d, 1);
      }
    } else if g == 0 {
      assert key == 0 && fn == 0;
      assert Divides(2, key) && Divides(2, fn);
    } else {
      assert Divides(g, key) && Divides(g, fn);
    }
  }

  /** All six entries are present. */
  predicate Complete(ks: map<Field, int>)
  {
    forall f :: f in AllFields ==> f in ks
  }

  /** The outcome of check_keys(keys): False when an entry is missing;
      KeyInputError when e, or then d, is not coprime with fn; False when e,
      or then d, is 0 (`not key`); True otherwise. */
  function Verdict(ks: map<Field, int>): Result<bool, Error>
  {
    if !Complete(ks) then Success(false)
    else
      assert E in AllFields && D in AllFields && Fn in AllFields;
      match CheckExponent(ks[E], ks[Fn])
      case Failure(err) => Failure(err)
      case Success(e) =>
        if e == 0 then Success(false)
        else
          match CheckExponent(ks[D], ks[Fn])
          case Failure(err) => Failure(err)
          case Success(d) => Success(d != 0)
  }

  /** The key table is valid: complete, with both exponents nonzero and
      coprime with fn. */
  predicate ValidKeys(ks: map<Field, int>)
  {
    Complete(ks) && E in ks && D in ks && Fn in ks &&
    ks[E] != 0 && ks[D] != 0 && Gcd(ks[E], ks[Fn]) == 1 && Gcd(ks[D], ks[Fn]) == 1
  }

  // ---------------------------------------------------------------------
  // generate_keys

  /** The Euler value generate_keys works with: the argument when it is not
      0, otherwise (p - 1) * (q - 1) from the table, or KeyError. */
  function Totient(ks: map<Field, int>, euler: int): Result<int, Error>
  {
    if euler != 0 then Success(euler)
    else if P in ks && Q in ks then Success((ks[P] - 1) * (ks[Q] - 1))
    else Failure(MissingPQ)
  }

  /** The only-e path: with [g, x, y] = extended_gcd(e, euler), d is x when
      x > 0 and y otherwise. */
  function PrivateFromPublic(e: int, euler: int): int
  {
    var b := ExtendedGcd(e, euler);
    if b.x > 0 then b.x else b.y
  }

  /** The only-d path: e is the x of extended_gcd(d, euler), not reduced. */
  function PublicFromPrivate(d: int, euler: int): int
  {
    ExtendedGcd(d, euler).x
  }

  /** The first drawn candidate coprime with euler, if any. */
  function FirstCoprime(draws: seq<int>, euler: int): (r: Option<int>)
    ensures r.None? <==> forall i :: 0 <= i < |draws| ==> Gcd(draws[i], euler) != 1
    ensures r.Some? ==> exists i :: (0 <= i < |draws| && draws[i] == r.value &&
      Gcd(r.value, euler) == 1 && forall j :: 0 <= j < i ==> Gcd(draws[j], euler) != 1)
  {
    if draws == [] then None
    else if Gcd(draws[0], euler) == 1 then Some(draws[0])
    else
      assert forall i :: 1 <= i < |draws| ==> draws[1..][i - 1] == draws[i];
      FirstCoprime(draws[1..], euler)
  }

  /** The outcome of generate_keys(euler, public, private, key_size), where
      0 stands for an argument left out and `draws` for the values
      randrange(1, key_size) returns. */
  function Derivation(ks: map<Field, int>, euler: int, publicKey: int, privateKey: int,
                      keySize: int, draws: seq<int>): Result<(int, int), Error>
  {
    match Totient(ks, euler)
    case Failure(err) => Failure(err)
    case Success(phi) =>
      if publicKey != 0 && privateKey != 0 then Success((publicKey, privateKey))
      else if publicKey != 0 then Success((publicKey, PrivateFromPublic(publicKey, phi)))
      else if privateKey != 0 then Success((PublicFromPrivate(privateKey, phi), privateKey))
      else if keySize <= 1 then Failure(EmptyRange)
      else
        match FirstCoprime(draws, phi)
        case None => Failure(OutOfDraws)
        case Some(e) => Success((e, PrivateFromPublic(e, phi)))
  }

  /** When the x of extended_gcd(e, euler) is positive, the only-e path
      yields an inverse of e modulo euler. */
  lemma PrivateFromPublicInverts(e: int, euler: int)
    requires e >= 0 && euler >= 2 && Gcd(e, euler) == 1
    requires ExtendedGcd(e, euler).x > 0
    ensures (e * PrivateFromPublic(e, euler)) % euler == 1
  {
    ExtendedGcdIsGcd(e, euler);
    var b := ExtendedGcd(e, euler);
    BezoutInverse(e, b.x, euler, b.y);
  }

  /** The only-d path yields an inverse of d modulo euler, though possibly
      not a positive one. */
  lemma PublicFromPrivateInverts(d: int, euler: int)
    requires d >= 0 && euler >= 2 && Gcd(d, euler) == 1
    ensures (PublicFromPrivate(d, euler) * d) % euler == 1
  {
    ExtendedGcdIsGcd(d, euler);
    var b := ExtendedGcd(d, euler);
    BezoutInverse(d, b.x, euler, b.y);
  }

  /** gcd(19, 20) is 1. */
  lemma GcdNineteenTwenty()
    ensures Gcd(19, 20) == 1
  {
    var a, b := 1, 0;
    assert Gcd(a, b) == 1;
    a, b := 19, 1;
    assert Gcd(a, b) == 1 by {
      assert PyMod(19, 1) == 0;
    }
    a, b := 20, 19;
    assert Gcd(a, b) == 1 by {
      assert PyMod(20, 19) == 1;
    }
    a, b := 19, 20;
    assert Gcd(a, b) == 1 by {
      assert PyMod(19, 20) == 19;
    }
  }

  /** The only-e path as written is not an inverse in general: for e = 19 and
      euler = 20 (p = 3, q = 11), x is -1, so d is y = 1, and 19 * 1 is not
      1 modulo 20. */
  lemma PrivateFromPublicCounterexample()
    ensures Gcd(19, 20) == 1
    ensures PrivateFromPublic(19, 20) == 1
    ensures (19 * PrivateFromPublic(19, 20)) % 20 != 1
  {
    GcdNineteenTwenty();
    var a, b := 0, 1;
    assert ExtendedGcd(a, b) == Bezout(1, 0, 1);
    a, b := 1, 19;
    assert ExtendedGcd(a, b) == Bezout(1, 1, 0) by {
      assert PyMod(19, 1) == 0 && PyDiv(19, 1) == 19;
    }
    a, b := 19, 20;
    assert ExtendedGcd(a, b) == Bezout(1, -1, 1) by {
      assert PyMod(20, 19) == 1 && PyDiv(20, 19) == 1;
    }
  }

  /** The inverse the only-e path evidently intends: x reduced into
      [0, euler). */
  function ModularInverse(e: int, euler: int): int
    requires euler != 0
  {
    PyMod(ExtendedGcd(e, euler).x, euler)
  }

  /** The corrected derivation always yields an inverse of e in [1, euler). */
  lemma ModularInverseInverts(e: int, euler: int)
    requires e >= 0 && euler >= 2 && Gcd(e, euler) == 1
    ensures 1 <= ModularInverse(e, euler) < euler
    ensures (e * ModularInverse(e, euler)) % euler == 1
  {
    ExtendedGcdIsGcd(e, euler);
    var b := ExtendedGcd(e, euler);
    ReducedInverse(e, b.x, euler, b.y);
  }

  // ---------------------------------------------------------------------
  // get_hash, get_signature_private, is_signature_valid

  /** The sum of the bytes. */
  function Sum(s: seq<Byte>): int
  {
    if s == [] then 0 else Sum(s[..|s| - 1]) + s[|s| - 1]
  }

  /** The checksum get_hash computes from a start value: the start value
      itself for an empty file, otherwise (start + the byte sum) reduced
      modulo n with Python's remainder; ZeroDivisionError when n is 0 and
      there is a byte to add. */
  function Digest(content: seq<Byte>, n: int, start: int): (r: Result<int, Error>)
    ensures content == [] ==> r == Success(start)
    ensures content != [] && n > 0 ==> r.Success? && 0 <= r.value < n
    ensures content != [] && n < 0 ==> r.Success? && n < r.value <= 0
  {
    if content == [] then Success(start)
    else if n == 0 then Failure(ZeroDivision)
    else Success(PyMod(start + Sum(content), n))
  }

  /** Python's `pow(b, e, m)`: ValueError for modulus 0; a negative exponent
      is an error here (see the README). */
  function PowResult(b: int, e: int, m: int): Result<int, Error>
  {
    if m == 0 then Failure(ZeroModulus)
    else if e < 0 then Failure(NegativeExponent)
    else Success(PowMod(b, e, m))
  }

  /** The outcome of get_hash: KeyInputError from check_keys, KeyError when
      it is False, otherwise the checksum seeded with 100 modulo the local n. */
  function HashOf(ks: map<Field, int>, content: seq<Byte>): Result<int, Error>
  {
    match Verdict(ks)
    case Failure(err) => Failure(err)
    case Success(ok) =>
      if !ok then Failure(InvalidKeys)
      else
        assert N in AllFields;
        Digest(content, ks[N], Seed)
  }

  /** The outcome of get_signature_private: hash^d modulo n. */
  function SignatureOf(ks: map<Field, int>, content: seq<Byte>): Result<int, Error>
  {
    match HashOf(ks, content)
    case Failure(err) => Failure(err)
    case Success(h) =>
      assert D in AllFields && N in AllFields;
      PowResult(h, ks[D], ks[N])
  }

  /** The outcome of is_signature_valid: [recovered == hash, recovered, hash]
      with recovered = signature^e modulo the public n and hash computed with
      the local keys. */
  function VerificationOf(ks: map<Field, int>, content: seq<Byte>, signature: int,
                          pub: PublicKey): Result<(bool, int, int), Error>
  {
    match PowResult(signature, pub.e, pub.n)
    case Failure(err) => Failure(err)
    case Success(recovered) =>
      match HashOf(ks, content)
      case Failure(err) => Failure(err)
      case Success(h) => Success((recovered == h, recovered, h))
  }

  // ---------------------------------------------------------------------
  // Properties of the checksum

  /** The byte sum of a concatenation. */
  lemma {:induction false} SumConcat(a: seq<Byte>, b: seq<Byte>)
    ensures Sum(a + b) == Sum(a) + Sum(b)
    decreases |b|
  {
    if b == [] {
      assert a + b == a;
    } else {
      SumConcat(a, b[..|b| - 1]);
      assert (a + b)[..|a + b| - 1] == a + b[..|b| - 1];
    }
  }

  /** The byte sum does not depend on the order of the bytes. */
  lemma {:induction false} SumPermutation(a: seq<Byte>, b: seq<Byte>)
    requires multiset(a) == multiset(b)
    ensures Sum(a) == Sum(b)
    decreases |a|
  {
    if a != [] {
      var x := a[|a| - 1];
      var a' := a[..|a| - 1];
      assert a == a' + [x];
      assert x in multiset(b);
      var k :| 0 <= k < |b| && b[k] == x;
      var b' := b[..k] + b[k + 1..];
      assert b == b[..k] + [x] + b[k + 1..];
      assert multiset(a') == multiset(b') by {
        var ma, mb := multiset(a'), multiset(b');
        assert multiset(a) == ma + multiset{x};
        assert multiset(b) == mb + multiset{x} by {
          assert multiset(b) == multiset(b[..k]) + multiset{x} + multiset(b[k + 1..]);
          assert mb == multiset(b[..k]) + multiset(b[k + 1..]);
        }
        assert ma == (ma + multiset{x}) - multiset{x};
        assert mb == (mb + multiset{x}) - multiset{x};
      }
      SumPermutation(a', b');
      SumConcat(b[..k] + [x], b[k + 1..]);
      SumConcat(b[..k], [x]);
      SumConcat(b[..k], b[k + 1..]);
      SumConcat(a', [x]);
      assert Sum([x]) == x by {
        assert [x][..0] == [];
      }
    }
  }

  /** The checksum is blind to reordering: files holding the same bytes in
      any order hash alike. */
  lemma DigestOrderFree(a: seq<Byte>, b: seq<Byte>, n: int, start: int)
    requires multiset(a) == multiset(b)
    ensures Digest(a, n, start) == Digest(b, n, start)
  {
    SumPermutation(a, b);
    if a == [] {
      assert |b| == |multiset(b)| == 0;
    } else {
      assert |b| == |multiset(b)| == |multiset(a)| == |a|;
    }
  }

  /** Replacing one byte changes the byte sum by the difference. */
  lemma SumUpdate(s: seq<Byte>, i: int, v: Byte)
    requires 0 <= i < |s|
    ensures Sum(s[i := v]) == Sum(s) - s[i] + v
  {
    assert s == s[..i] + [s[i]] + s[i + 1..];
    assert s[i := v] == s[..i] + [v] + s[i + 1..];
    SumConcat(s[..i] + [s[i]], s[i + 1..]);
    SumConcat(s[..i], [s[i]]);
    SumConcat(s[..i] + [v], s[i + 1..]);
    SumConcat(s[..i], [v]);
    assert [s[i]][..0] == [] && [v][..0] == [];
  }

  /** Two values whose Python remainders modulo n agree differ by a multiple
      of n, so two distinct values less than n apart never collide. */
  lemma PyModSeparates(x: int, y: int, n: int)
    requires n > 0 && x != y && -n < x - y < n
    ensures PyMod(x, n) != PyMod(y, n)
  {
    if PyMod(x, n) == PyMod(y, n) {
      var z := PyDiv(x, n) - PyDiv(y, n);
      assert x - y == z * n;
      if z != 0 {
        MultipleBound(n, z);
      }
      assert false;
    }
  }

  /** With a modulus above 255, changing any single byte of a file changes
      its checksum. */
  lemma SingleByteChangeDetected(content: seq<Byte>, i: int, v: Byte, n: int, start: int)
    requires 0 <= i < |content| && content[i] != v && n > 255
    ensures Digest(content[i := v], n, start) != Digest(content, n, start)
  {
    SumUpdate(content, i, v);
    PyModSeparates(start + Sum(content[i := v]), start + Sum(content), n);
  }

  // ---------------------------------------------------------------------
  // Signing and verifying with RSA keys

  /** An RSA key table: n is the product of two distinct primes p and q, fn
      is (p - 1) * (q - 1), and e and d are positive and inverse modulo fn. */
  predicate RsaKeys(ks: map<Field, int>)
  {
    P in ks && Q in ks && N in ks && Fn in ks && E in ks && D in ks &&
    Prime(ks[P]) && Prime(ks[Q]) && ks[P] != ks[Q] &&
    ks[N] == ks[P] * ks[Q] && ks[Fn] == (ks[P] - 1) * (ks[Q] - 1) &&
    ks[E] >= 1 && ks[D] >= 1 && (ks[E] * ks[D]) % ks[Fn] == 1
  }

  /** A common divisor of fn and of a number invertible modulo fn divides 1. */
  lemma CommonDivisorOfInverse(g: int, e: int, d: int, fn: int)
    requires fn > 0 && (e * d) % fn == 1 && Divides(g, e) && Divides(g, fn)
    ensures Divides(g, 1)
  {
    var m := e * d;
    var k := m / fn;
    assert m == k * fn + 1 by {
      assert m == (m / fn) * fn + m % fn;
    }
    DividesMulLeft(g, e, d);
    DividesLinear(g, fn, m, -k);
    assert -k * fn + m == 1;
  }

  /** A number invertible modulo fn is coprime with fn. */
  lemma InverseIsCoprime(e: int, d: int, fn: int)
    requires e >= 0 && fn > 0 && (e * d) % fn == 1
    ensures Gcd(e, fn) == 1
  {
    GcdIsGreatest(e, fn);
    var g := Gcd(e, fn);
    CommonDivisorOfInverse(g, e, d, fn);
    if g == 0 {
      assert false;
    }
    DivisorBound(g, 1);
  }

  /** check_keys accepts every RSA key table. */
  lemma RsaKeysPassCheck(ks: map<Field, int>)
    requires RsaKeys(ks)
    ensures Verdict(ks) == Success(true) && ValidKeys(ks)
  {
    var p, q := ks[P], ks[Q];
    MulAtLeast(p - 1, q - 1);
    InverseIsCoprime(ks[E], ks[D], ks[Fn]);
    assert ks[D] * ks[E] == ks[E] * ks[D];
    InverseIsCoprime(ks[D], ks[E], ks[Fn]);
  }

  /** Signing a file with an RSA key table and verifying the signature with
      its public part {e, n} succeeds and recovers the hash, for every
      non-empty file and, when n exceeds the seed, for the empty one too. */
  lemma SignThenVerify(ks: map<Field, int>, content: seq<Byte>)
    requires RsaKeys(ks) && (content != [] || ks[N] > Seed)
    ensures HashOf(ks, content).Success? && SignatureOf(ks, content).Success?
    ensures var h := HashOf(ks, content).value;
      VerificationOf(ks, content, SignatureOf(ks, content).value, PublicKey(ks[E], ks[N])) ==
        Success((true, h, h))
  {
    RsaKeysPassCheck(ks);
    var p, q := ks[P], ks[Q];
    MulAtLeast(p, q);
    var h := if content == [] then Seed else PyMod(Seed + Sum(content), ks[N]);
    assert HashOf(ks, content) == Success(h);
    RsaRoundTrip(p, q, ks[E], ks[D], h);
  }

  /** The checksum get_hash evidently intends: the seeded byte sum always
      reduced modulo n, the empty file included. */
  function DigestReduced(content: seq<Byte>, n: int, start: int): Result<int, Error>
  {
    if n == 0 then Failure(ZeroDivision) else Success(PyMod(start + Sum(content), n))
  }

  /** The reduced checksum agrees with get_hash on every non-empty file and
      always lies in [0, n) for a positive n. */
  lemma DigestReducedAgrees(content: seq<Byte>, n: int, start: int)
    requires n > 0
    ensures DigestReduced(content, n, start).Success?
    ensures 0 <= DigestReduced(content, n, start).value < n
    ensures content != [] ==> DigestReduced(content, n, start) == Digest(content, n, start)
  {
  }

  /** With the reduced checksum, signing and verifying round-trip for every
      file, the empty one included. */
  lemma SignThenVerifyReduced(ks: map<Field, int>, content: seq<Byte>)
    requires RsaKeys(ks)
    ensures DigestReduced(content, ks[N], Seed).Success?
    ensures var h := DigestReduced(content, ks[N], Seed).value;
      PowResult(h, ks[D], ks[N]).Success? &&
      PowResult(PowResult(h, ks[D], ks[N]).value, ks[E], ks[N]) == Success(h)
  {
    var p, q := ks[P], ks[Q];
    MulAtLeast(p, q);
    var h := PyMod(Seed + Sum(content), ks[N]);
    RsaRoundTrip(p, q, ks[E], ks[D], h);
  }

  /** As written, the empty file breaks the round trip whenever n <= 100:
      with p = 3, q = 11, e = 3 and d = 7 its hash is the unreduced 100, the
      signature is 1 and the recovered hash is 1. */
  lemma EmptyFileRoundTripFails()
    ensures var ks := map[P := 3, Q := 11, N := 33, Fn := 20, E := 3, D := 7];
      RsaKeys(ks) &&
      SignatureOf(ks, []) == Success(1) &&
      VerificationOf(ks, [], 1, PublicKey(3, 33)) == Success((false, 1, 100))
  {
    var ks := map[P := 3, Q := 11, N := 33, Fn := 20, E := 3, D := 7];
    assert Prime(3) && Prime(11);
    assert RsaKeys(ks);
    RsaKeysPassCheck(ks);
    assert HashOf(ks, []) == Success(100);
    PowModBase(100, 7, 33);
    assert Pow(1, 7) == 1;
    assert PowMod(100, 7, 33) == 1;
    assert PowMod(1, 3, 33) == 1;
  }

  /** As written, keys derived from e alone can pass check_keys and still
      fail: generate_keys gives d = 1 for e = 19 with p = 3 and q = 11, and a
      file holding the single byte 1 (hash 2) recovers as 17. */
  lemma DerivedKeysFailToVerify()
    ensures Derivation(map[P := 3, Q := 11], 0, 19, 0, 0, []) == Success((19, 1))
    ensures var ks := map[P := 3, Q := 11, N := 33, Fn := 20, E := 19, D := 1];
      Verdict(ks) == Success(true) &&
      SignatureOf(ks, [1]) == Success(2) &&
      VerificationOf(ks, [1], 2, PublicKey(19, 33)) == Success((false, 17, 2))
  {
    PrivateFromPublicCounterexample();
    var ks := map[P := 3, Q := 11, N := 33, Fn := 20, E := 19, D := 1];
    var a, b := 1, 0;
    assert Gcd(a, b) == 1;
    a, b := 20, 1;
    assert Gcd(a, b) == 1 by {
      assert PyMod(20, 1) == 0;
    }
    a, b := 1, 20;
    assert Gcd(a, b) == 1 by {
      assert PyMod(1, 20) == 1;
    }
    assert Verdict(ks) == Success(true);
    var file: seq<Byte> := [1];
    assert file[..0] == [];
    assert Sum(file) == 1;
    assert HashOf(ks, [1]) == Success(2);
    PowAdd(2, 10, 9);
    assert Pow(2, 10) == 1024 && Pow(2, 9) == 512;
    assert PowMod(2, 19, 33) == 17;
    assert PowMod(2, 1, 33) == 2;
    assert SignatureOf(ks, [1]) == Success(2);
    assert PowResult(2, 19, 33) == Success(17);
    assert Totient(map[P := 3, Q := 11], 0) == Success(20);
  }

  /** With the corrected inverse, keys derived from any e coprime with
      (p - 1) * (q - 1) form an RSA key table, so every hash below n
      round-trips. */
  lemma InverseKeysRoundTrip(p: int, q: int, e: int, h: int)
    requires Prime(p) && Prime(q) && p != q
    requires e >= 1 && Gcd(e, (p - 1) * (q - 1)) == 1
    requires 0 <= h < p * q
    ensures var fn := (p - 1) * (q - 1);
      fn >= 2 && PowMod(PowMod(h, ModularInverse(e, fn), p * q), e, p * q) == h
  {
    var fn := (p - 1) * (q - 1);
    MulAtLeast(p - 1, q - 1);
    if p == 2 {
      MulAtLeast(q - 1, p - 1);
    }
    ModularInverseInverts(e, fn);
    RsaRoundTrip(p, q, e, ModularInverse(e, fn), h);
  }

  /** The state of the key manager. */
  class Encryption {
    var keys: map<Field, int>
    var isAllKeys: bool

    /** __init__: an empty table, not yet valid. */
    constructor ()
      ensures keys == map[] && !isAllKeys
    {
      keys := map[];
      isAllKeys := false;
    }

    /** is_prime on a supplied value, or generate_large_prime. */
    static method ObtainPrime(keySize: nat, src: PrimeSource, field: Field) returns (r: Result<int, Error>)
      requires SourceFits(keySize, src)
      ensures r == Obtain(keySize, src, field)
    {
      match src {
        case Given(v, bases) =>
          var ok := IsPrime(v, bases);
          r := if ok then Success(v) else Failure(NotPrime(field));
        case Generate(draws) =>
          var g := GenerateLargePrime(keySize, draws);
          r := if g.Some? then Success(g.value) else Failure(OutOfDraws);
      }
    }

    /** set_keys(key_size, p=..., q=...): store p, then q, then n = p * q and
      fn = (p - 1) * (q - 1). A q that fails leaves the new p stored; e and d
      are never touched. */
    method SetKeys(keySize: nat, p: PrimeSource, q: PrimeSource) returns (r: Result<map<Field, int>, Error>)
      requires SourceFits(keySize, p) && SourceFits(keySize, q)
      modifies this`keys
      ensures Obtain(keySize, p, P).Failure? ==>
        r == Failure(Obtain(keySize, p, P).error) && keys == old(keys)
      ensures Obtain(keySize, p, P).Success? && Obtain(keySize, q, Q).Failure? ==>
        r == Failure(Obtain(keySize, q, Q).error) &&
        keys == old(keys)[P := Obtain(keySize, p, P).value]
      ensures Obtain(keySize, p, P).Success? && Obtain(keySize, q, Q).Success? ==>
        var pv, qv := Obtain(keySize, p, P).value, Obtain(keySize, q, Q).value;
        keys == old(keys)[P := pv][Q := qv][N := pv * qv][Fn := (pv - 1) * (qv - 1)] &&
        r == Success(keys)
    {
      var rp := ObtainPrime(keySize, p, P);
      if rp.Failure? {
        return Failure(rp.error);
      }
      keys := keys[P := rp.value];
      var rq := ObtainPrime(keySize, q, Q);
      if rq.Failure? {
        return Failure(rq.error);
      }
      keys := keys[Q := rq.value];
      keys := keys[N := keys[P] * keys[Q]];
      keys := keys[Fn := (keys[P] - 1) * (keys[Q] - 1)];
      return Success(keys);
    }

    /** check_keys(keys): sets is_all_keys to whether every entry is present,
      then checks e and d; is_all_keys ends False exactly when the answer is
      False, and stays True when a check raises. */
    method CheckKeys(ks: map<Field, int>) returns (r: Result<bool, Error>)
      modifies this`isAllKeys
      ensures r == Verdict(ks)
      ensures r == Success(true) <==> ValidKeys(ks)
      ensures !Complete(ks) ==> r == Success(false)
      ensures isAllKeys == (r != Success(false))
    {
      isAllKeys := true;
      for i := 0 to |AllFields|
        invariant isAllKeys == forall j :: 0 <= j < i ==> AllFields[j] in ks
      {
        if AllFields[i] !in ks {
          isAllKeys := false;
        }
      }
      if !isAllKeys {
        return Success(false);
      }
      assert AllFields[2] == N && AllFields[3] == Fn && AllFields[4] == E && AllFields[5] == D;
      var e := CheckExponent(ks[E], ks[Fn]);
      if e.Failure? {
        return Failure(e.error);
      }
      if e.value == 0 {
        isAllKeys := false;
        return Success(false);
      }
      var d := CheckExponent(ks[D], ks[Fn]);
      if d.Failure? {
        return Failure(d.error);
      }
      if d.value == 0 {
        isAllKeys := false;
        return Success(false);
      }
      return Success(true);
    }

    /** generate_keys(euler, public, private, key_size): reads the table and
      never writes it. The neither-given path samples a candidate e until one
      is coprime with euler and then calls itself with that e. */
    method GenerateKeys(euler: int, publicKey: int, privateKey: int, keySize: int,
                        draws: seq<int>) returns (r: Result<(int, int), Error>)
      requires forall i :: 0 <= i < |draws| ==> 1 <= draws[i] < keySize
      ensures r == Derivation(keys, euler, publicKey, privateKey, keySize, draws)
      ensures r.Success? && publicKey != 0 ==> r.value.0 == publicKey
      ensures r.Success? && privateKey != 0 ==> r.value.1 == privateKey
      ensures r.Success? && publicKey == 0 && privateKey == 0 ==>
        1 <= r.value.0 < keySize && r.value.0 in draws
      decreases if publicKey == 0 && privateKey == 0 then 1 else 0
    {
      var phi := euler;
      if phi == 0 {
        if P !in keys || Q !in keys {
          return Failure(MissingPQ);
        }
        phi := (keys[P] - 1) * (keys[Q] - 1);
      }
      if publicKey != 0 && privateKey != 0 {
        return Success((publicKey, privateKey));
      } else if publicKey != 0 {
        var b := ExtendedGcd(publicKey, phi);
        return Success((publicKey, if b.x > 0 then b.x else b.y));
      } else if privateKey != 0 {
        return Success((ExtendedGcd(privateKey, phi).x, privateKey));
      }
      if keySize <= 1 {
        return Failure(EmptyRange);
      }
      var k := 0;
      while k < |draws|
        invariant 0 <= k <= |draws|
        invariant FirstCoprime(draws, phi) == FirstCoprime(draws[k..], phi)
      {
        assert draws[k..][0] == draws[k] && draws[k..][1..] == draws[k + 1..];
        var candidate := draws[k];
        if Gcd(candidate, phi) == 1 {
          r := GenerateKeys(phi, candidate, 0, 1024, []);
          return;
        }
        k := k + 1;
      }
      return Failure(OutOfDraws);
    }

    /** generate_key(key, key_size): store one fresh prime under the given
      entry and return it; nothing else changes. */
    method GenerateKey(field: Field, keySize: nat, draws: seq<Draw>) returns (r: Result<int, Error>)
      requires keySize >= 1 && DrawsFit(keySize, draws)
      modifies this`keys
      ensures FirstPrime(draws).None? ==> r == Failure(OutOfDraws) && keys == old(keys)
      ensures FirstPrime(draws).Some? ==>
        r == Success(FirstPrime(draws).value) && keys == old(keys)[field := FirstPrime(draws).value]
      ensures r.Success? ==> Pow(2, keySize - 1) <= r.value < Pow(2, keySize)
    {
      var g := GenerateLargePrime(keySize, draws);
      if g.None? {
        return Failure(OutOfDraws);
      }
      keys := keys[field := g.value];
      return Success(keys[field]);
    }

    /** get_hash(file, start): check the keys, then fold the bytes into
      (hash + byte) % n. */
    method GetHash(content: seq<Byte>, start: int) returns (r: Result<int, Error>)
      modifies this`isAllKeys
      ensures match Verdict(keys)
        case Failure(err) => r == Failure(err)
        case Success(ok) => r == (if ok then Digest(content, keys[N], start) else Failure(InvalidKeys))
      ensures isAllKeys == (Verdict(keys) != Success(false))
    {
      var ok := CheckKeys(keys);
      if ok.Failure? {
        return Failure(ok.error);
      }
      if !ok.value {
        return Failure(InvalidKeys);
      }
      var n := keys[N];
      var h := start;
      for i := 0 to |content|
        invariant isAllKeys == (Verdict(keys) != Success(false))
        invariant i > 0 ==> n != 0
        invariant h == if i == 0 then start else PyMod(start + Sum(content[..i]), n)
      {
        if n == 0 {
          return Failure(ZeroDivision);
        }
        assert content[..i + 1][..i] == content[..i];
        if i > 0 {
          PyModAddInner(start + Sum(content[..i]), content[i], n);
        }
        h := PyMod(h + content[i], n);
      }
      assert content[..|content|] == content;
      return Success(h);
    }

    /** get_signature_private(file): check the keys, hash, and return
      hash^d modulo n. */
    method GetSignaturePrivate(content: seq<Byte>) returns (r: Result<int, Error>)
      modifies this`isAllKeys
      ensures r == SignatureOf(keys, content)
      ensures isAllKeys == (Verdict(keys) != Success(false))
    {
      var ok := CheckKeys(keys);
      if ok.Failure? {
        return Failure(ok.error);
      }
      if !ok.value {
        return Failure(InvalidKeys);
      }
      var h := GetHash(content, Seed);
      if h.Failure? {
        return Failure(h.error);
      }
      r := PowResult(h.value, keys[D], keys[N]);
    }

    /** is_signature_valid(file, signature, public_key): recover the hash
      with the public key, recompute it with the local keys, and compare;
      a mismatch is an answer, not an error. */
    method IsSignatureValid(content: seq<Byte>, signature: int, pub: PublicKey)
      returns (r: Result<(bool, int, int), Error>)
      modifies this`isAllKeys
      ensures r == VerificationOf(keys, content, signature, pub)
      ensures r.Success? ==> r.value.0 == (r.value.1 == r.value.2)
      ensures PowResult(signature, pub.e, pub.n).Failure? ==> isAllKeys == old(isAllKeys)
      ensures PowResult(signature, pub.e, pub.n).Success? ==>
        isAllKeys == (Verdict(keys) != Success(false))
    {
      var recovered := PowResult(signature, pub.e, pub.n);
      if recovered.Failure? {
        return Failure(recovered.error);
      }
      var h := GetHash(content, Seed);
      if h.Failure? {
        return Failure(h.error);
      }
      return Success((h.value == recovered.value, recovered.value, h.value));
    }
  }
}
