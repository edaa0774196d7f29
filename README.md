# RSA digital signatures: a verified model

This project models the core of a small RSA digital-signature tool in Dafny.
The core has two parts.

- The **number-theory library** (`primes.py`):
  - a sieve of Eratosthenes;
  - the Miller–Rabin test with five trials;
  - the `is_prime` check: trial division by the primes below 1000, then Miller–Rabin;
  - rejection sampling of a prime with a given number of bits;
  - Euclid's `gcd` and `extended_gcd`;
  - a primitive-root search for safe primes.
- The **key manager and signature engine** (`encryption.py`, class `Encryption`). It holds a key table {p, q, n, fn, e, d} and a flag `is_all_keys`. It can:
  - validate or generate p and q;
  - check the table;
  - derive e or d with the extended Euclidean algorithm;
  - compute an additive checksum of a file, seeded with 100 and reduced modulo n;
  - sign the checksum with `h^d mod n`;
  - verify a signature by comparing `signature^e mod n` with the recomputed checksum.

Modules:

- `Arith` (`arith.dfy`) provides integer vocabulary:
  - `Pow`;
  - Python's floor division and remainder (`PyDiv`, `PyMod`), since the source applies `//`, `%` and `pow` to integers of any sign;
  - `Divides` and `Prime`;
  - congruence lemmas.
- `Wrappers` (`wrappers.dfy`) provides `Option` and `Result`:
  - `None` stands for a sampling loop that ran out of draws;
  - `Failure` stands for a raised exception.
- `Primes` (`primes.dfy`) models `primes.py`:
  - The sieve is a method over a `bool` array.
  - The halving loop, the Miller–Rabin trials, the table check and the sampling loops are methods with loop invariants. Each is proved against a specification predicate or function: `MillerRabin`, `Accepted`, `FirstPrime`, `RootTest`.
  - `gcd` and `extended_gcd` are recursive functions.
- `Fermat` (`fermat.dfy`) holds the number theory behind the signature round trip:
  - Euclid's lemma;
  - binomial coefficients and the binomial theorem;
  - Fermat's little theorem;
  - the step from two prime moduli to their product.

  It ends in the RSA round trip and in the fact that a Miller–Rabin trial never rejects a prime.
- `RsaSignature` (`encryption.py`'s model, in `encryption.dfy`):
  - The class `Encryption` has the fields `keys: map<Field, int>` and `isAllKeys: bool`.
  - Its methods update those fields as the Python methods do.
  - Each method is proved against a specification function on values: `Obtain`, `Verdict`, `Derivation`, `Digest`, `HashOf`, `SignatureOf`, `VerificationOf`.

Random choices are explicit parameters:

| source draw | parameter in the model |
|---|---|
| `random.randrange(2, num - 1)` in `rabin_miller` | the sequence of five bases |
| `random.randrange(2**(k-1), 2**k)` in `generate_large_prime` | a sequence of `Draw(candidate, bases)` |
| `random.randint(2, p - 1)` in `primitive_roots` | a sequence of candidates |
| `randrange(1, key_size)` in `generate_keys` | a sequence of candidates |

File content is a sequence of bytes. Each exception is a `Failure` whose `Error` names the condition: `NotPrime`, `NotCoprime`, `MissingPQ`, `InvalidKeys`, `ZeroDivision`, `ZeroModulus`, `NegativeExponent`, `EmptyRange`, `OutOfDraws`.

Two behaviours of the code are modelled literally:

- **Deriving d from e.** A modular inverse would be x reduced modulo euler. The only-e path of `generate_keys` takes the coefficient y when x ≤ 0 (see Findings).
- **Which n verification uses.** Verification recomputes the hash with the locally held `keys['n']`, not the n of the public key it is given. `get_hash` first requires valid local keys. `VerificationOf` models this.

## Model

| member | source | states |
|---|---|---|
| Arith.PyMod | primes.py:91 | Python's `a % b` for a divisor of either sign: the remainder takes the divisor's sign and `a == (a // b) * b + a % b` |
| Primes.CrossOff | primes.py:16-17 | the inner sieve loop clears exactly the multiples `i*i, i*i + i, ...` below the limit and leaves every other entry as it was |
| Primes.SurvivorIsPrime | primes.py:13-15 | a number that no smaller index has crossed off is prime, so the sieve yields only primes |
| Primes.PrimesSieve | primes.py:4-17 | for limit ≥ 2, the yielded numbers are exactly the primes below limit, in strictly increasing order (0 and 1 never appear) |
| Primes.OddPartDecomposes | primes.py:26-32 | m splits as `s * 2^t` with s odd |
| Primes.SplitPowerOfTwo | primes.py:26-32 | the halving loop ends with s odd, `s * 2^t == num - 1`, and s and t the odd part and the two-exponent of num - 1 |
| Primes.SquareStep | primes.py:44 | squaring `a^(s*2^i) mod num` gives `a^(s*2^(i+1)) mod num` |
| Primes.RabinMiller | primes.py:20-45 | for an odd num ≥ 5, True exactly when each of the five trials passes: `a^s ≡ 1`, or `a^(s*2^i) ≡ num - 1` for some `i < t` |
| Primes.CompositeHasSmallFactor | primes.py:62-64 | supporting lemma, used by `CompositeBelowBoundRejected`: every composite has a prime factor whose square is at most the composite |
| Primes.IsPrime | primes.py:48-67 | False below 2, primality itself below 1000, False for num ≥ 1000 with a table factor, otherwise the Miller–Rabin verdict |
| Primes.CompositeBelowBoundRejected | primes.py:55-64 | every composite below 1009² is rejected whatever the trial bases |
| Primes.FirstPrime | primes.py:76-79 | the first draw `is_prime` accepts; `None` exactly when no draw is accepted |
| Primes.GenerateLargePrime | primes.py:70-79 | returns the first accepted draw, which has exactly keySize bits |
| Primes.GcdIsGreatest | primes.py:82-91 | for a, b ≥ 0, `gcd(a, b)` is non-negative, divides both, and every common divisor divides it |
| Primes.GcdCommutes | primes.py:89-91 | for a, b ≥ 0, `gcd(a, b) == gcd(b, a)` |
| Primes.ExtendedGcd | primes.py:94-105 | the Bezout identity `a*x + b*y == g` for all integers a and b |
| Primes.ExtendedGcdSwapped | primes.py:101-105 | the g of `extended_gcd(a, b)` is `gcd(b, a)` for all integers |
| Primes.ExtendedGcdIsGcd | primes.py:94-105 | for a, b ≥ 0, g is `gcd(a, b)` and the coefficients satisfy Bezout's identity with it |
| Primes.ExtendedGcdExample | primes.py:133 | `extended_gcd(43, 288) == [1, 67, -10]`, and 67 is the inverse of 43 modulo 288 |
| Primes.PrimitiveRoot | primes.py:108-128 | 1 for p = 2; otherwise the first draw in [2, p - 1] passing both power tests, `None` exactly when none passes |
| Primes.RootTestForOddPrime | primes.py:118-127 | for odd p ≥ 5 the two tests are `g^2 mod p != 1` and `g^((p-1)/2) mod p != 1` |
| Primes.NoRootPassesForThree | primes.py:114-128 | for p = 3 the only candidate, 2, fails, so the search never returns |
| Fermat.Euclid | primes.py:94-105 | supporting lemma, used by `FermatLittle` and `RsaRoundTrip`: a prime dividing a product divides a factor, proved through the Bezout coefficients of `extended_gcd` |
| Fermat.FermatLittle | primes.py:34-45 | supporting lemma, used by `TrialPassesForPrime` and `RsaRoundTrip`: `a^p ≡ a (mod p)` for every prime p and a ≥ 0 |
| Fermat.TrialPassesForPrime | primes.py:34-45 | on a prime, every trial with a base in [1, p) passes: `rabin_miller` has no false negatives |
| Fermat.PrimeAccepted | primes.py:48-67 | `is_prime` accepts every prime when its trial bases lie in [1, num) |
| Fermat.AcceptedIsPrimeBelowBound | primes.py:136-143 | below 1009², `is_prime` answers exactly primality (the sieve comparison of the driver) |
| Fermat.RsaRoundTrip | encryption.py:152 | for distinct primes p, q and `e*d ≡ 1 (mod (p-1)(q-1))`, `(h^d mod n)^e mod n == h` for every h < n |
| RsaSignature.ObtainedPassesIsPrime | encryption.py:22-36 | a stored p or q passed `is_prime`; a generated one has exactly key_size bits |
| RsaSignature.Encryption.constructor | encryption.py:11-13 | an empty key table and `is_all_keys` False |
| RsaSignature.Encryption.ObtainPrime | encryption.py:22-36 | `is_prime` on a supplied value (else KeyError) or `generate_large_prime` |
| RsaSignature.Encryption.SetKeys | encryption.py:15-41 | on success p, q, `n = p*q`, `fn = (p-1)(q-1)` are stored and nothing else changes; a failing p changes nothing; a failing q leaves the new p stored |
| RsaSignature.CheckExponentAcceptsCoprime | encryption.py:43-57 | for non-negative arguments, the key is returned unchanged exactly when no d > 1 divides both key and fn |
| RsaSignature.Encryption.CheckKeys | encryption.py:59-74 | False (flag False) when an entry is missing; KeyInputError for a non-coprime exponent; True exactly for a complete table with nonzero exponents coprime with fn; the flag ends False exactly when the answer is False |
| RsaSignature.RsaKeysPassCheck | encryption.py:59-74 | every RSA key table passes `check_keys` |
| RsaSignature.FirstCoprime | encryption.py:103-106 | the first drawn candidate coprime with euler; `None` exactly when there is none |
| RsaSignature.Encryption.GenerateKeys | encryption.py:76-107 | KeyError without euler and without p or q; given exponents returned unchanged; a sampled e lies in [1, key_size); the key table is never written |
| RsaSignature.PrivateFromPublicInverts | encryption.py:95-96 | when x > 0, the only-e path's d is an inverse of e modulo euler |
| RsaSignature.PublicFromPrivateInverts | encryption.py:99 | the only-d path's e is an inverse of d modulo euler, though not necessarily positive |
| RsaSignature.PrivateFromPublicCounterexample | encryption.py:95-96 | with e = 19 and euler = 20, the only-e path yields d = 1, which is not an inverse |
| RsaSignature.DerivedKeysFailToVerify | encryption.py:94-107 | that d passes `check_keys`, yet the file [1] signs to 2 and verifies as `[False, 17, 2]` |
| RsaSignature.ModularInverseInverts | encryption.py:94-96 | x reduced modulo euler is always an inverse of e in [1, euler) |
| RsaSignature.InverseKeysRoundTrip | encryption.py:94-96 | keys derived with the reduced inverse round-trip every hash below n |
| RsaSignature.Encryption.GenerateKey | encryption.py:109-117 | stores one fresh prime of key_size bits under the given entry and changes nothing else |
| RsaSignature.Digest | encryption.py:129-141 | an empty file gives the seed; otherwise the result lies in [0, n) (for n > 0) |
| RsaSignature.Encryption.GetHash | encryption.py:129-141 | KeyError unless `check_keys` holds; otherwise the fold `(hash + byte) % n` equals `(seed + Σ bytes) % n`, or the seed for an empty file |
| RsaSignature.DigestOrderFree | encryption.py:139-140 | files holding the same bytes in any order hash alike |
| RsaSignature.SingleByteChangeDetected | encryption.py:139-140 | with n > 255, changing one byte always changes the checksum |
| RsaSignature.Encryption.GetSignaturePrivate | encryption.py:143-153 | the signature is `hash^d mod n` after both key checks |
| RsaSignature.Encryption.IsSignatureValid | encryption.py:155-167 | `[recovered == hash, recovered, hash]` with recovered `= signature^e mod` the public n; a mismatch is an answer, not an error; `is_all_keys` is untouched when `pow` raises and is otherwise set by the `check_keys` inside `get_hash` |
| RsaSignature.SignThenVerify | encryption.py:143-167 | with an RSA key table, signing a file and verifying with {e, n} gives `[True, h, h]`, for every non-empty file and for the empty file when n > 100 |
| RsaSignature.EmptyFileRoundTripFails | encryption.py:129-141 | with p = 3, q = 11, e = 3, d = 7, the empty file hashes to 100, signs to 1 and verifies as `[False, 1, 100]` |
| RsaSignature.DigestReducedAgrees | encryption.py:129-141 | the always-reduced checksum agrees with `get_hash` on non-empty files and lies in [0, n) |
| RsaSignature.SignThenVerifyReduced | encryption.py:129-167 | with the always-reduced checksum, signing and verifying round-trip for every file, the empty one included |

## Left out

- gui.py is not part of this model. It is the Kivy front-end: screens, dialogs, file saving and colour conversion.
- `_open_file_binary` and `open()` are file I/O. File content is passed in as a sequence of bytes.
- Probability is not modelled. Every random draw is a parameter, and the Miller–Rabin error bound for composites is not stated.
- The unbounded `while True` sampling loops run over a finite sequence of draws. Running out gives `None` or `OutOfDraws`, an outcome the source never reaches; the model does not show that a suitable draw eventually comes.
- RsaSignature.PowResult: Python 3.8+ computes a modular inverse for `pow` with a negative exponent. The model reports `NegativeExponent` instead. The only-d path of `generate_keys` can produce such an exponent.
- The exception classes `KeyError`, `KeyInputError`, `ValueError` and `ZeroDivisionError` collapse into one `Error` datatype. Messages are dropped.
- RsaSignature.Encryption.GenerateKey: the source accepts any dictionary key. The model takes one of the six table entries, and it requires key_size ≥ 1 (for key_size 0 the source's `randrange` fails on a fractional bound).
- RsaSignature.Encryption.SetKeys: keyword arguments other than p and q are ignored by the source and have no counterpart. A generated prime requires key_size ≥ 1, as above.
- Primes.RabinMiller requires an odd num ≥ 5. For num = 2 and for num ≤ 0, `randrange(2, num - 1)` raises `ValueError` before any squaring. For an even num ≥ 4, t is 0 and the squaring loop of the source need not end. For num = 1 the halving loop never ends, since s is 0. For num = 3, `randrange(2, 2)` raises `ValueError`. `is_prime` only calls it for num ≥ 1000.
- Primes.PrimesSieve requires limit ≥ 2, as the source's `a[1] = False` does.
- Primes.PrimitiveRoot requires its draws to lie in [2, p - 1], the range of `randint`. For p = 3 the source loops forever; in the model every draw fails (`NoRootPassesForThree`).
- Primes.PrimitiveRoot requires p ≥ 2. For p ≤ 1, `randint(2, p - 1)` raises `ValueError`, and the model does not represent that error.
- Fermat.PrimeAccepted: bases in [1, num) are assumed, as `randrange(2, num - 1)` guarantees. `IsPrime` itself accepts any bases.
- RsaSignature.SignThenVerify: requires p ≠ q and positive exponents. The source checks neither. It also requires a non-empty file or n > 100, since otherwise the round trip fails (see Findings).
- Primes.Gcd and Primes.ExtendedGcd: Python's recursion depth limit (about 1000 nested calls) is not modelled. The model's recursion has no depth bound. With the default 1024-bit primes, fn has about 2048 bits, and Euclid on a full-size d takes about 1,200 steps. `check_keys` (through `gcd`) and the only-d path of `generate_keys` (through `extended_gcd`) would then typically raise `RecursionError`. `RsaKeysPassCheck` and `SignThenVerify` therefore describe the program only for keys small enough to stay within that depth.
- `print` and the `__main__` drivers are used only as evidence: the (43, 288) check is `ExtendedGcdExample`, and the sieve comparison is `AcceptedIsPrimeBelowBound`.
- Fast modular exponentiation is not modelled separately. `PowMod` is defined as the full power reduced, which gives the same value.

## Findings

| source | as written | input that shows it | evidently intended | confidence | as-written member | corrected member |
|---|---|---|---|---|---|---|
| encryption.py:95-96 | with only e given, d is the Bezout coefficient x when x > 0 and otherwise the other coefficient y, which is not an inverse of e | e = 19 with p = 3, q = 11 (euler = 20): extended_gcd gives x = -1, y = 1, so d = 1 and `19 * 1 mod 20 = 19`; `check_keys` accepts the keys, and the one-byte file [1] verifies as `[False, 17, 2]` | d is x reduced modulo euler, an inverse of e in [1, euler) | not executed | RsaSignature.PrivateFromPublicCounterexample | RsaSignature.ModularInverseInverts |
| encryption.py:136-141 | an empty file returns the seed 100 without reducing it modulo n, so for n ≤ 100 the hash is not below n and the RSA round trip loses it | p = 3, q = 11, e = 3, d = 7 (n = 33): the empty file hashes to 100, signs to `100^7 mod 33 = 1`, and verifies as `[False, 1, 100]` | the hash is always reduced modulo n, so every file round-trips | not executed | RsaSignature.EmptyFileRoundTripFails | RsaSignature.SignThenVerifyReduced |
