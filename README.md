# Paillier and Damgård–Jurik, modelled in Dafny

This project models the two cryptosystems of the repository:

- **The Paillier cryptosystem** (class `Paillier`, `paillier.py`):
  - keys n = p·q, g = n + 1, λ = lcm(p − 1, q − 1) and μ = φ⁻¹ mod n;
  - a loop that redraws q while p = q or gcd(p·q, φ) ≠ 1;
  - encryption (gᵐ·rⁿ) mod n²;
  - decryption L(c^λ mod n²)·μ mod n, with L(x) = (x − 1) div n.
- **Its generalisation, the Damgård–Jurik cryptosystem** (class `Damgard_Jurik`, `damgard-jurik.py`):
  - ciphertexts modulo n^(s+1);
  - encryption g^m·r^(n^s) mod n^(s+1);
  - the homomorphic operations `add`, `multiply_by_constant` and `reencrypt`.

The primes and the random draws become explicit inputs. A draw stream is a finite `seq<nat>`: when it runs out before the loop accepts a draw, the model reports `DrawsExhausted` (or `None`).

The files are:

- `wrappers.dfy` holds `Option`, `Result` and the error kinds.
- `mod_arith.dfy` (module `ModArith`) holds the arithmetic both classes lean on:
  - powers and exponent laws;
  - `Gcd`, `Lcm` and `ModInverse` (Python's `pow(x, -1, n)`);
  - the decoding identity (1 + n)^m ≡ 1 + m·n (mod n²);
  - the L-function.
- `randomizer.dfy` (module `Randomizer`) holds the randomizer loop that both `encrypt` methods share.
- `damgard_jurik.dfy` and `paillier.dfy` hold the two classes. Pure operations are functions of the key records. Each class keeps the fields `__init__` assigns, and the methods that consume draws are loops proved against those functions.

Carmichael's theorem (r^(n·λ) ≡ 1 (mod n²) for r coprime to n = p·q) is not proved here. It enters the decryption lemmas as the hypothesis `Paillier.CarmichaelHolds`.

## Model

| member | source | states |
|---|---|---|
| ModArith.LFunction | paillier.py:69-71 | `L_function` / `lx`: the result l is the quotient of x − 1 by n, i.e. l·n ≤ x − 1 < (l + 1)·n (floor division, as Python's `//`) |
| ModArith.OnePlusNPow | paillier.py:26 | (1 + n)^m ≡ 1 + m·n (mod n²), the identity that makes g = n + 1 decodable |
| ModArith.LFunctionDecodes | paillier.py:69-71 | for n ≥ 2, L((n + 1)^m mod n², n) = m mod n |
| ModArith.ModInverse | paillier.py:29 | `pow(a, -1, n)`: defined exactly when gcd(a, n) = 1, and then the result is below n with a·r ≡ 1 (mod n) |
| ModArith.ModInverseComplete | paillier.py:29 | if any y has a·y ≡ 1 (mod n), the inverse exists |
| ModArith.Lcm | paillier.py:30 | `sympy.lcm(a, b)` for positive a, b is a positive common multiple of both, at most a·b; it is 0 if either is 0 |
| ModArith.LcmDividesCommonMultiple | paillier.py:30 | Lcm is the least common multiple: it divides every common multiple of a and b, and no positive common multiple is smaller |
| ModArith.CommonDivisorDividesGcd | paillier.py:21 | every common divisor of a and b divides `gcd(a, b)` |
| Randomizer.FirstCoprime | damgard-jurik.py:73-77 | the draw the loop stops on is one of the draws and is coprime to n; none means no draw was coprime |
| Randomizer.FirstCoprimeIsFirst | damgard-jurik.py:73-77 | the draw returned is the first coprime one: it sits at an index i and every draw before i has gcd with n other than 1 |
| Randomizer.AcceptedDrawRange | damgard-jurik.py:73-77 | draws from `randint(0, n)` that the loop accepts are never 0 or n, so they lie in [1, n − 1] |
| Randomizer.ChooseRandomizer | paillier.py:49-52 | the loop returns `FirstCoprime`: a draw at some index i with gcd(r, n) = 1 and 1 ≤ r ≤ n − 1, every earlier draw rejected; none when no draw is coprime |
| DamgardJurik.GenerateKeys | damgard-jurik.py:40-43 | the keys have n = p·q, g = n + 1 and the given s, and d = lcm(p − 1, q − 1), a positive multiple of both p − 1 and q − 1 |
| DamgardJurik.PrivateExponentNotUnit | damgard-jurik.py:41-42 | for p, q ≥ 3 and s ≥ 1 the derived d is never 1 mod n^s, against the stated requirement |
| DamgardJurik.CrtPrivateExponent | damgard-jurik.py:42 | a d with d ≡ 0 (mod λ) and d ≡ 1 (mod n^s) is built exactly when gcd(λ, n^s) = 1 |
| DamgardJurik.Enc | damgard-jurik.py:79 | the ciphertext lies in [0, n^(s+1)) |
| DamgardJurik.EncUnreduced | damgard-jurik.py:79 | for n ≥ 2 the reduced exponent `pow(n, s, n^(s+1))` equals n^s, and the ciphertext is g^m·r^(n^s) mod n^(s+1) |
| DamgardJurik.Add | damgard-jurik.py:99-102 | `add` returns a value in [0, n^(s+1)) |
| DamgardJurik.AddCommutativeAssociative | damgard-jurik.py:99-102 | `add` is commutative and associative |
| DamgardJurik.AddHomomorphic | damgard-jurik.py:79-102 | add(E(m1, r1), E(m2, r2)) = E(m1 + m2, r1·r2) |
| DamgardJurik.MultiplyByConstant | damgard-jurik.py:110-115 | a constant ≥ n fails; otherwise the result is in [0, n^(s+1)); constant 0 gives 1 and constant 1 gives c mod n^(s+1) |
| DamgardJurik.MultiplyHomomorphic | damgard-jurik.py:110-115 | for k < n, multiply_by_constant(E(m, r), k) = E(m·k, r^k) |
| DamgardJurik.EncryptOutcome | damgard-jurik.py:68-83 | `encrypt` fails for message ≥ n; it succeeds exactly when message < n and a coprime draw exists, and the ciphertext is then in [0, n^(s+1)) |
| DamgardJurik.EncryptOutcomeFullRange | damgard-jurik.py:68-83 | encryption with the plaintext space [0, n^s): it fails exactly for message ≥ n^s or exhausted draws, and otherwise gives E(message, first coprime draw) |
| DamgardJurik.EncryptRejectsValidPlaintext | damgard-jurik.py:69-70 | for s ≥ 2, `encrypt` refuses the plaintext n although n < n^s, which the full-range encryption accepts |
| DamgardJurik.ReEncryptShiftsPlaintext | damgard-jurik.py:104-108 | adding an encryption of 1 turns E(m, r) into E(m + 1, r·r1) |
| DamgardJurik.ReRandomizeKeepsPlaintext | damgard-jurik.py:104-108 | adding an encryption of 0 turns E(m, r) into E(m, r·r0) |
| DamgardJurik.DamgardJurik.constructor | damgard-jurik.py:21-25 | `__init__` stores the keys of `generate_keys()` at s = 1, with plaintext modulus n and ciphertext modulus n² |
| DamgardJurik.DamgardJurik.Encrypt | damgard-jurik.py:68-83 | the method's result is `EncryptOutcome`; on success it is E(message, r) for some r in [1, n − 1] coprime to n |
| DamgardJurik.DamgardJurik.ReEncrypt | damgard-jurik.py:104-108 | `reencrypt` succeeds exactly when a coprime draw exists, and then returns add(c, E(1, r1)); an encryption of m becomes an encryption of m + 1 |
| DamgardJurik.DamgardJurik.ReRandomize | damgard-jurik.py:104-108 | re-randomization with the neutral element 0: an encryption of m stays an encryption of m |
| Paillier.AcceptedQ | paillier.py:21-22 | the q the loop exits with differs from p and has gcd(p·q, φ) = 1 for the φ it was given; an acceptable first q is kept; none means every candidate was rejected |
| Paillier.AcceptedQIsFirst | paillier.py:21-22 | when the first q is rejected, the q kept is the first acceptable draw: every earlier draw was rejected |
| Paillier.KeysFromDraws | paillier.py:16-42 | keys exist exactly when the loop accepts some q. Then n = p·q, g = n + 1, λ = lcm(p − 1, q − 1) and μ < n, where μ inverts the φ of the first q |
| Paillier.GenerateKeys | paillier.py:16-42 | the loop method returns the keys `KeysFromDraws` describes |
| Paillier.StalePhiStallsLoop | paillier.py:20-22 | if the first q is 1 modulo p, p divides the stale φ and every candidate is rejected, whatever the draws: the source loop never ends |
| Paillier.NothingAcceptedAgainst | paillier.py:21 | no candidate passes the loop test against a φ that p divides |
| Paillier.FreshPhiEndsLoop | paillier.py:20-22 | on p = 211, first q = 2111 and the draw 223, the stale-φ loop accepts nothing while the recomputed-φ loop accepts 223 |
| Paillier.StalePhiAcceptsBadQ | paillier.py:20-22 | for p = 211, first q = 211 and the draw 2111, the loop accepts 2111 with the stale φ, although gcd(n, true φ) = 211 and λ has no inverse mod n |
| Paillier.AcceptedQFresh | paillier.py:21-22 | with φ recomputed for each q, the accepted q is a candidate ≥ 2, differs from p and has gcd(p·q, (p − 1)(q − 1)) = 1; an acceptable first q is kept; none means every candidate was rejected |
| Paillier.AcceptedQFreshIsFirst | paillier.py:21-22 | when the first q is rejected, the corrected loop keeps the first draw that passes the recomputed test |
| Paillier.LambdaInvertible | paillier.py:29-30 | gcd(n, φ) = 1 makes λ invertible modulo n |
| Paillier.CorrectedKeysFromDraws | paillier.py:16-42 | with φ recomputed and μ = λ⁻¹ mod n, gcd(n, φ) = 1 and λ·μ ≡ 1 (mod n) hold for the returned key |
| Paillier.CorrectedLoopRejectsBadQ | paillier.py:21-22 | the corrected loop refuses the q = 2111 that the stale φ let through |
| Paillier.Enc | paillier.py:54 | the ciphertext lies in [0, n²) |
| Paillier.EncIsDamgardJurikAtOne | paillier.py:54 | Paillier encryption equals Damgård–Jurik encryption with s = 1 for the same message and randomizer |
| Paillier.EncryptOutcome | paillier.py:44-57 | `encrypt` fails for message ≥ n; it succeeds exactly when message < n and a coprime draw exists, and the ciphertext is then in [0, n²) |
| Paillier.Paillier.Encrypt | paillier.py:44-57 | the method's result is `EncryptOutcome`; on success it is E(message, r) for some r in [1, n − 1] coprime to n |
| Paillier.Paillier.constructor | paillier.py:9-13 | `__init__` stores the generated keys, with plaintext modulus n and ciphertext modulus n² |
| Paillier.Decrypt | paillier.py:59-64 | `decrypt` always returns a value in [0, n) |
| Paillier.RaisedCiphertext | paillier.py:64 | under Carmichael's hypothesis, E(m, r)^λ ≡ (n + 1)^(m·λ) (mod n²) |
| Paillier.DecryptEncryption | paillier.py:59-64 | under Carmichael's hypothesis, decrypt(E(m, r)) = m·λ·μ mod n |
| Paillier.DecryptRoundTrip | paillier.py:59-64 | with λ·μ ≡ 1 (mod n), decrypt(E(m, r)) = m for every m < n |
| Paillier.RoundTripNeedsInverse | paillier.py:59-64 | conversely, if an encryption of 1 decrypts to 1 then λ·μ ≡ 1 (mod n) |
| Paillier.DemoKeys | paillier.py:16-30 | for p = 11, q = 17 the keys are n = 187, g = 188 and λ = 80 |
| Paillier.DecryptScaled | paillier.py:59-64 | when m·λ = c·f and μ inverts f modulo n, an encryption of m decrypts to c mod n: with μ inverting φ, the plaintext comes back scaled by λ/φ |
| Paillier.DemoDoesNotRoundTrip | paillier.py:76-78 | the demo's message 10, encrypted with those keys under any randomizer r satisfying the Carmichael hypothesis, decrypts to 5 |
| Paillier.DemoCarmichaelAtOne | paillier.py:76-78 | the demo keys exist and the hypothesis holds for r = 1, so the demo lemma applies to at least one draw |
| Paillier.CorrectedDecryptRoundTrip | paillier.py:59-64 | with the corrected keys every m < n survives the round trip |
| Paillier.CarmichaelProduct | paillier.py:64 | Carmichael's hypothesis for r1 and r2 gives it for r1·r2 |
| Paillier.CarmichaelPower | paillier.py:64 | Carmichael's hypothesis for r gives it for every power of r |
| Paillier.DecryptAdd | damgard-jurik.py:99-102 | with a round-trip key, add(E(m1), E(m2)) decrypts to (m1 + m2) mod n |
| Paillier.ReEncryptDecryptsToSuccessor | damgard-jurik.py:104-108 | with a round-trip key, `reencrypt` of an encryption of m decrypts to (m + 1) mod n |
| Paillier.ReRandomizeDecryptsToSame | damgard-jurik.py:104-108 | with a round-trip key, adding an encryption of 0 decrypts back to m |
| Paillier.DecryptMultiplyByConstant | damgard-jurik.py:110-115 | with a round-trip key and j < n, multiply_by_constant(E(m), j) succeeds and decrypts to (m·j) mod n |

## Left out

- Prime sampling (`sympy.randprime`) is not modelled. The primes are parameters, and primality appears only where the number theory needs it, as the Carmichael hypothesis.
- `random.randint` is not modelled. Its results are a finite sequence of draws in [0, n].
- ChooseRandomizer, the key-generation loop as written and its corrected version (`Paillier.AcceptedQ`, `Paillier.AcceptedQFresh`): when the draws run out, the model gives up. The source would keep drawing, or never stop if no acceptable value exists. For the key-generation loop at paillier.py:21-22 that happens whenever the first q is 1 modulo p (p = 211, q = 2111, say): `Paillier.StalePhiStallsLoop` shows every candidate is then rejected.
- Key persistence is not modelled. That is `read_keys` and the JSON file written in `generate_keys` (damgard-jurik.py:53-66).
- The module-level instances and the demo's printing are not modelled. The paillier.py demo (encrypt 10, then decrypt) appears only as the concrete lemma `Paillier.DemoDoesNotRoundTrip`.
- `Damgard_Jurik.decrypt` is left out. It refers to the undefined names `phi` and `mu` and cannot run. Damgård–Jurik ciphertexts at s = 1 are decrypted with `Paillier.Decrypt`, through `Paillier.EncIsDamgardJurikAtOne`.
- `DamgardJurik.GenerateKeys`: `generate_keys` writes `keys['private_key']['d']` into a dictionary entry it never created, which raises KeyError (damgard-jurik.py:51). The model stores d as evidently intended.
- Messages and constants are natural numbers. The negative arguments Python would accept are not modelled.
- Paillier.CarmichaelHolds: r^(n·λ) ≡ 1 (mod n²) is a hypothesis of the decryption lemmas, not proved from the primality of p and q.
- The speed difference between `**` and `pow` is not modelled. Both are one power function here.
- Security properties are not modelled.
- The Paillier class has no decrypt method. Decryption reads only the keys, so it is the function `Paillier.Decrypt`, with L's divisor equal to the stored plaintext modulus n.
- DamgardJurik.DamgardJurik.constructor: the ciphertext modulus is recorded as n² whatever s is, as `__init__` does. No operation reads it.

## Findings

| source | as written | input that shows it | evidently intended | confidence | as-written member | corrected member |
|---|---|---|---|---|---|---|
| damgard-jurik.py:104-108 | `reencrypt` multiplies by an encryption of 1, its "neutral element" | any encryption of m: the result is an encryption of m + 1 | multiply by an encryption of 0, keeping the plaintext | not executed | DamgardJurik.DamgardJurik.ReEncrypt | DamgardJurik.DamgardJurik.ReRandomize |
| paillier.py:29 | μ = φ⁻¹ mod n, so decryption gives m·λ·φ⁻¹ mod n | p = 11, q = 17, message 10 decrypts to 5 for every randomizer coprime to 187 (r = 1 among them) | μ = λ⁻¹ mod n, so that decrypt(encrypt(m)) = m | not executed | Paillier.DemoDoesNotRoundTrip | Paillier.CorrectedDecryptRoundTrip |
| paillier.py:20-22 | φ is computed once from the first q and not updated when q is redrawn | p = 211, first q = 211, draw 2111: accepted, though gcd(n, (p − 1)(q − 1)) = 211 | recompute φ for every q, so that gcd(n, φ) = 1 holds for the q kept | not executed | Paillier.StalePhiAcceptsBadQ | Paillier.CorrectedKeysFromDraws |
| paillier.py:20-22 | with the stale φ, a first q that is 1 modulo p makes p divide φ, so every later candidate is rejected and the loop never ends | p = 211, first q = 2111, draw 223: rejected, as is every other draw | recompute φ for every q, so that a suitable draw ends the loop | not executed | Paillier.StalePhiStallsLoop | Paillier.FreshPhiEndsLoop |
| damgard-jurik.py:69-70 | `encrypt` refuses every message ≥ n | s = 2, message n (< n²) is refused | accept every message below n^s, the plaintext space of the scheme | not executed | DamgardJurik.EncryptRejectsValidPlaintext | DamgardJurik.EncryptOutcomeFullRange |
| damgard-jurik.py:41-42 | d = lcm(p − 1, q − 1), while the stated requirement is d ≡ 1 (mod n^s) and d ≡ 0 (mod λ) | p = 3, q = 5, s = 1: d = 4, and 4 mod 15 ≠ 1 | d built by the Chinese remainder theorem, meeting both congruences | not executed | DamgardJurik.PrivateExponentNotUnit | DamgardJurik.CrtPrivateExponent |
