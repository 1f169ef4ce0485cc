/** The Paillier cryptosystem as the class `Paillier` implements it: keys
    n = p*q, g = n + 1, lambda = lcm(p - 1, q - 1) and mu = phi^-1 mod n,
    ciphertexts modulo n^2, decryption L(c^lambda mod n^2) * mu mod n. */
module Paillier {
  import opened Wrappers
  import opened ModArith
  import opened Randomizer
  import DamgardJurik

  datatype PublicKey = PublicKey(n: nat, g: nat)
  datatype PrivateKey = PrivateKey(mu: nat, lambda: nat)
  datatype Keys = Keys(priv: PrivateKey, pub: PublicKey)

  /** Every prime draw is at least 2. */
  predicate PrimeDraws(draws: seq<nat>)
  {
    forall i :: 0 <= i < |draws| ==> draws[i] >= 2
  }

  /** phi = (p - 1) * (q - 1). */
  function Phi(p: nat, q: nat): (phi: nat)
    requires p >= 1 && q >= 1
  {
    (p - 1) * (q - 1)
  }

  // ---------------------------------------------------------------------
  // Key generation as written: phi is computed once, from the first q
  // ---------------------------------------------------------------------

  /** The condition that ends the resampling loop, for a fixed phi. */
  predicate Accepts(p: nat, phi: nat, q: nat)
  {
    p != q && Gcd(p * q, phi) == 1
  }

  /** The q the loop `while p == q or gcd(p*q, phi) != 1` exits with,
      trying q first and then the draws in order. */
  function AcceptedQ(p: nat, phi: nat, q: nat, draws: seq<nat>): (r: Option<nat>)
    ensures r.Some? ==> Accepts(p, phi, r.value) && (r.value == q || r.value in draws)
    ensures r.None? ==> !Accepts(p, phi, q) && forall i :: 0 <= i < |draws| ==> !Accepts(p, phi, draws[i])
    ensures Accepts(p, phi, q) ==> r == Some(q)
    decreases |draws|
  {
    if Accepts(p, phi, q) then Some(q)
    else if draws == [] then None
    else AcceptedQ(p, phi, draws[0], draws[1..])
  }

  /** When the first q is rejected, the q kept is the first accepted draw:
      it sits at some index i and every earlier draw was rejected. */
  lemma {:induction false} AcceptedQIsFirst(p: nat, phi: nat, q: nat, draws: seq<nat>)
    ensures !Accepts(p, phi, q) && AcceptedQ(p, phi, q, draws).Some? ==>
      exists i :: 0 <= i < |draws| && draws[i] == AcceptedQ(p, phi, q, draws).value
        && forall j :: 0 <= j < i ==> !Accepts(p, phi, draws[j])
    decreases |draws|
  {
    if !Accepts(p, phi, q) && draws != [] {
      var rest := draws[1..];
      if Accepts(p, phi, draws[0]) {
        assert draws[0] == AcceptedQ(p, phi, q, draws).value;
      } else {
        AcceptedQIsFirst(p, phi, draws[0], rest);
        if AcceptedQ(p, phi, draws[0], rest).Some? {
          var i :| 0 <= i < |rest| && rest[i] == AcceptedQ(p, phi, draws[0], rest).value
            && forall j :: 0 <= j < i ==> !Accepts(p, phi, rest[j]);
          assert draws[i + 1] == AcceptedQ(p, phi, q, draws).value;
          forall j | 0 <= j < i + 1
            ensures !Accepts(p, phi, draws[j])
          {
            if j > 0 {
              assert draws[j] == rest[j - 1];
            }
          }
        }
      }
    }
  }

  /** What `generate_keys` returns: phi from the first q, n and lambda from
      the q the loop accepts, mu the inverse of that phi modulo n. */
  function KeysFromDraws(p: nat, q: nat, draws: seq<nat>): (k: Option<Keys>)
    requires p >= 2 && q >= 2 && PrimeDraws(draws)
    ensures k.Some? <==> AcceptedQ(p, Phi(p, q), q, draws).Some?
    ensures k.Some? ==>
      var qf := AcceptedQ(p, Phi(p, q), q, draws).value;
      && k.value.pub.n == p * qf && qf != p && k.value.pub.g == k.value.pub.n + 1
      && k.value.priv.lambda == Lcm(p - 1, qf - 1)
      && k.value.priv.mu < k.value.pub.n
      && (Phi(p, q) * k.value.priv.mu) % k.value.pub.n == 1
  {
    var phi := Phi(p, q);
    match AcceptedQ(p, phi, q, draws)
    case None => None
    case Some(qf) =>
      assert qf == q || qf in draws;
      var n := p * qf;
      ProductAtLeastFour(p, qf);
      GcdSymmetric(n, phi);
      var mu := ModInverse(phi, n).value;
      SmallMod(1, n);
      Some(Keys(PrivateKey(mu, Lcm(p - 1, qf - 1)), PublicKey(n, n + 1)))
  }

  /** The key-generation loop: resample q while p == q or
      gcd(p*q, phi) != 1, phi staying that of the first q. */
  method GenerateKeys(p: nat, q: nat, draws: seq<nat>) returns (k: Option<Keys>)
    requires p >= 2 && q >= 2 && PrimeDraws(draws)
    ensures k == KeysFromDraws(p, q, draws)
  {
    var phi := Phi(p, q);
    var current := q;
    var next := 0;
    while current == p || Gcd(p * current, phi) != 1
      invariant 0 <= next <= |draws|
      invariant current >= 2
      invariant AcceptedQ(p, phi, current, draws[next..]) == AcceptedQ(p, phi, q, draws)
      decreases |draws| - next
    {
      if next == |draws| {
        return None;
      }
      assert draws[next..][1..] == draws[next + 1..];
      current := draws[next];
      next := next + 1;
    }
    assert AcceptedQ(p, phi, q, draws) == Some(current);
    var n := p * current;
    ProductAtLeastFour(p, current);
    var g := n + 1;
    GcdSymmetric(n, phi);
    var mu := ModInverse(phi, n).value;
    var lambda := Lcm(p - 1, current - 1);
    k := Some(Keys(PrivateKey(mu, lambda), PublicKey(n, g)));
  }

  /** With p = 211 and first q = 211 the loop rejects q and accepts the
      draw 2111 against the stale phi = 210*210, although 2111 = 1 (mod 211)
      makes gcd(n, 210*2110) = 211: n shares a factor with the true phi and
      with lambda, so lambda has no inverse modulo n. */
  lemma StalePhiAcceptsBadQ()
    ensures AcceptedQ(211, Phi(211, 211), 211, [2111]) == Some(2111)
    ensures KeysFromDraws(211, 211, [2111]).Some?
    ensures KeysFromDraws(211, 211, [2111]).value.pub.n == 445421
    ensures Gcd(445421, Phi(211, 2111)) == 211
    ensures ModInverse(Lcm(211 - 1, 2111 - 1), 445421).None?
  {
    assert Gcd(445421, 44100) == 1;
    assert Gcd(445421, 443100) == 211;
    assert Lcm(210, 2110) == 44310 by {
      assert Gcd(210, 2110) == 10;
    }
    assert Gcd(44310, 445421) == 211;
  }

  lemma PhiMultipleOfP(p: nat, q: nat)
    requires p >= 2 && q >= 2 && (q - 1) % p == 0
    ensures Phi(p, q) > 0 && Phi(p, q) % p == 0
  {
    var k := (q - 1) / p;
    assert q - 1 == k * p && k >= 1;
    assert Phi(p, q) == ((p - 1) * k) * p;
    assert (p - 1) * k >= 1;
    DivModUnique(Phi(p, q), (p - 1) * k, 0, p);
  }

  /** No candidate passes against a phi that p divides: p divides both
      p*c and phi, hence their gcd, which is then at least p. */
  lemma NothingAcceptedAgainst(p: nat, phi: nat, c: nat)
    requires p >= 2 && phi > 0 && phi % p == 0
    ensures !Accepts(p, phi, c)
  {
    DivModUnique(p * c, c, 0, p);
    CommonDivisorDividesGcd(p * c, phi, p);
    GcdDivides(p * c, phi);
    MultipleAtLeast(Gcd(p * c, phi), p);
  }

  /** If the first q is 1 modulo p (p = 211 with q = 2111, say), p divides
      the stale phi, so the loop rejects every candidate it will ever draw:
      for any stream of draws it ends without a key, where the source loops
      forever. */
  lemma {:induction false} StalePhiStallsLoop(p: nat, q: nat, draws: seq<nat>)
    requires p >= 2 && q >= 2 && (q - 1) % p == 0
    ensures AcceptedQ(p, Phi(p, q), q, draws).None?
  {
    PhiMultipleOfP(p, q);
    var phi := Phi(p, q);
    if AcceptedQ(p, phi, q, draws).Some? {
      NothingAcceptedAgainst(p, phi, AcceptedQ(p, phi, q, draws).value);
    }
  }

  // ---------------------------------------------------------------------
  // Key generation as intended: phi recomputed, mu inverting lambda
  // ---------------------------------------------------------------------

  /** The textbook loop condition, evaluated on the current q. */
  predicate AcceptsFresh(p: nat, q: nat)
    requires p >= 1 && q >= 1
  {
    p != q && Gcd(p * q, Phi(p, q)) == 1
  }

  function AcceptedQFresh(p: nat, q: nat, draws: seq<nat>): (r: Option<nat>)
    requires p >= 2 && q >= 2 && PrimeDraws(draws)
    ensures r.Some? ==> r.value >= 2 && AcceptsFresh(p, r.value) && (r.value == q || r.value in draws)
    ensures r.None? ==> !AcceptsFresh(p, q) && forall i :: 0 <= i < |draws| ==> !AcceptsFresh(p, draws[i])
    ensures AcceptsFresh(p, q) ==> r == Some(q)
    decreases |draws|
  {
    if AcceptsFresh(p, q) then Some(q)
    else if draws == [] then None
    else AcceptedQFresh(p, draws[0], draws[1..])
  }

  /** When the first q is rejected, the corrected loop keeps the first
      draw that passes the recomputed test. */
  lemma {:induction false} AcceptedQFreshIsFirst(p: nat, q: nat, draws: seq<nat>)
    requires p >= 2 && q >= 2 && PrimeDraws(draws)
    ensures !AcceptsFresh(p, q) && AcceptedQFresh(p, q, draws).Some? ==>
      exists i :: 0 <= i < |draws| && draws[i] == AcceptedQFresh(p, q, draws).value
        && forall j :: 0 <= j < i ==> !AcceptsFresh(p, draws[j])
    decreases |draws|
  {
    if !AcceptsFresh(p, q) && draws != [] {
      var rest := draws[1..];
      if AcceptsFresh(p, draws[0]) {
        assert draws[0] == AcceptedQFresh(p, q, draws).value;
      } else {
        AcceptedQFreshIsFirst(p, draws[0], rest);
        if AcceptedQFresh(p, draws[0], rest).Some? {
          var i :| 0 <= i < |rest| && rest[i] == AcceptedQFresh(p, draws[0], rest).value
            && forall j :: 0 <= j < i ==> !AcceptsFresh(p, rest[j]);
          assert draws[i + 1] == AcceptedQFresh(p, q, draws).value;
          forall j | 0 <= j < i + 1
            ensures !AcceptsFresh(p, draws[j])
          {
            if j > 0 {
              assert draws[j] == rest[j - 1];
            }
          }
        }
      }
    }
  }

  lemma LcmDividesProduct(a: nat, b: nat)
    requires a >= 1 && b >= 1
    ensures (a * b) % Lcm(a, b) == 0
  {
    DivModUnique(a * b, b, 0, a);
    DivModUnique(a * b, a, 0, b);
    LcmDividesCommonMultiple(a, b, a * b);
  }

  /** gcd(n, phi) = 1 makes lambda, a divisor of phi, invertible modulo n. */
  lemma LambdaInvertible(p: nat, q: nat)
    requires p >= 2 && q >= 2 && Gcd(p * q, Phi(p, q)) == 1
    ensures ModInverse(Lcm(p - 1, q - 1), p * q).Some?
  {
    var n, phi, lambda := p * q, Phi(p, q), Lcm(p - 1, q - 1);
    GcdSymmetric(n, phi);
    var u := ModInverse(phi, n).value;
    LcmDividesProduct(p - 1, q - 1);
    ExactQuotient(phi, lambda);
    var t := phi / lambda;
    MulAssociative(t, lambda, u);
    assert lambda * (t * u) == phi * u by {
      assert t * lambda == lambda * t;
      MulAssociative(lambda, t, u);
    }
    ModInverseComplete(lambda, n, t * u);
  }

  /** Key generation with phi recomputed for every q and mu = lambda^-1 mod
      n: gcd(n, phi) = 1 holds for the key it returns, and lambda*mu = 1
      (mod n), the condition decryption needs. */
  function CorrectedKeysFromDraws(p: nat, q: nat, draws: seq<nat>): (k: Option<Keys>)
    requires p >= 2 && q >= 2 && PrimeDraws(draws)
    ensures k.Some? <==> AcceptedQFresh(p, q, draws).Some?
    ensures k.Some? ==>
      var qf := AcceptedQFresh(p, q, draws).value;
      && k.value.pub.n == p * qf && qf != p && k.value.pub.g == k.value.pub.n + 1
      && Gcd(k.value.pub.n, Phi(p, qf)) == 1
      && k.value.priv.lambda == Lcm(p - 1, qf - 1)
      && (k.value.priv.lambda * k.value.priv.mu) % k.value.pub.n == 1
  {
    match AcceptedQFresh(p, q, draws)
    case None => None
    case Some(qf) =>
      var n := p * qf;
      LambdaInvertible(p, qf);
      var lambda := Lcm(p - 1, qf - 1);
      var mu := ModInverse(lambda, n).value;
      ProductAtLeastFour(p, qf);
      SmallMod(1, n);
      Some(Keys(PrivateKey(mu, lambda), PublicKey(n, n + 1)))
  }

  /** On the input where the stale phi stalls the loop (p = 211, first
      q = 2111), recomputing phi lets the loop end at the draw 223. */
  lemma FreshPhiEndsLoop()
    ensures AcceptedQ(211, Phi(211, 2111), 2111, [223]).None?
    ensures AcceptedQFresh(211, 2111, [223]) == Some(223)
  {
    StalePhiStallsLoop(211, 2111, [223]);
    assert Gcd(211 * 2111, Phi(211, 2111)) == 211;
    assert Gcd(211 * 223, Phi(211, 223)) == 1;
  }

  /** The corrected loop refuses the q = 2111 that the stale phi let through. */
  lemma CorrectedLoopRejectsBadQ()
    ensures CorrectedKeysFromDraws(211, 211, [2111]).None?
  {
    assert Gcd(445421, 443100) == 211;
  }

  // ---------------------------------------------------------------------
  // Encryption and decryption
  // ---------------------------------------------------------------------

  /** `(g**m * r**n) % n**2`. */
  function Enc(pk: PublicKey, m: nat, r: int): (c: int)
    requires pk.n >= 1
    ensures 0 <= c < pk.n * pk.n
  {
    (Pow(pk.g, m) * Pow(r, pk.n)) % (pk.n * pk.n)
  }

  /** The Damgard-Jurik public key with the same n and g and s = 1. */
  function AsDamgardJurik(pk: PublicKey): DamgardJurik.PublicKey
  {
    DamgardJurik.PublicKey(pk.n, pk.g, 1)
  }

  /** Paillier is Damgard-Jurik at s = 1: the same message and randomizer
      give the same ciphertext. */
  lemma EncIsDamgardJurikAtOne(pk: PublicKey, m: nat, r: int)
    requires pk.n >= 2
    ensures DamgardJurik.Modulus(AsDamgardJurik(pk)) == pk.n * pk.n
    ensures Enc(pk, m, r) == DamgardJurik.Enc(AsDamgardJurik(pk), m, r)
  {
    var dj := AsDamgardJurik(pk);
    assert Pow(pk.n, 1) == pk.n;
    assert Pow(pk.n, 2) == pk.n * pk.n;
    DamgardJurik.EncUnreduced(dj, m, r);
  }

  /** What `encrypt(message)` returns for a stream of draws. */
  function EncryptOutcome(pk: PublicKey, message: nat, draws: seq<nat>): (res: Result<int>)
    requires pk.n >= 1
    ensures message >= pk.n ==> res == Failure(MessageNotBelowModulus)
    ensures res.Success? <==> message < pk.n && FirstCoprime(pk.n, draws).Some?
    ensures res.Success? ==> 0 <= res.value < pk.n * pk.n
  {
    if message >= pk.n then Failure(MessageNotBelowModulus)
    else match FirstCoprime(pk.n, draws)
      case None => Failure(DrawsExhausted)
      case Some(r) => Success(Enc(pk, message, r))
  }

  /** `decrypt`: L(c^lambda mod n^2) * mu mod n, always in [0, n). */
  function Decrypt(k: Keys, c: int): (m: int)
    requires k.pub.n >= 1
    ensures 0 <= m < k.pub.n
  {
    var n := k.pub.n;
    (LFunction(Pow(c, k.priv.lambda) % (n * n), n) * k.priv.mu) % n
  }

  /** The hypothesis standing for Carmichael's theorem: r^(n*lambda) = 1
      (mod n^2), true for every r coprime to n when n = p*q with p, q
      distinct primes.  It holds trivially for r = 1. */
  predicate CarmichaelHolds(k: Keys, r: int)
    requires k.pub.n >= 1
  {
    Pow(r, k.pub.n * k.priv.lambda) % (k.pub.n * k.pub.n) == 1
  }

  lemma RaisedEncoding(n: nat, m: nat, r: int, lambda: nat)
    ensures Pow(Pow(n + 1, m) * Pow(r, n), lambda) == Pow(n + 1, m * lambda) * Pow(r, n * lambda)
  {
    PowProduct(Pow(n + 1, m), Pow(r, n), lambda);
    PowMul(n + 1, m, lambda);
    PowMul(r, n, lambda);
  }

  /** Raising an encryption of m to lambda leaves (n+1)^(m*lambda) mod n^2. */
  lemma RaisedCiphertext(k: Keys, m: nat, r: int)
    requires k.pub.n >= 2 && k.pub.g == k.pub.n + 1 && CarmichaelHolds(k, r)
    ensures Pow(Enc(k.pub, m, r), k.priv.lambda) % (k.pub.n * k.pub.n)
         == Pow(k.pub.n + 1, m * k.priv.lambda) % (k.pub.n * k.pub.n)
  {
    var n, lambda := k.pub.n, k.priv.lambda;
    var nn := n * n;
    var x := Pow(n + 1, m) * Pow(r, n);
    NonNegativeFactors(m, lambda, n);
    var a, b := Pow(n + 1, m * lambda), Pow(r, n * lambda);
    PowMod(x, lambda, nn);
    RaisedEncoding(n, m, r, lambda);
    MulModRight(a, b, nn);
    MulModLeft(a, 1, nn);
  }

  lemma NonNegativeFactors(m: nat, lambda: nat, n: nat)
    ensures m * lambda >= 0 && n * lambda >= 0
  {
  }

  /** Decrypting an encryption of m gives m*lambda*mu mod n. */
  lemma DecryptEncryption(k: Keys, m: nat, r: int)
    requires k.pub.n >= 2 && k.pub.g == k.pub.n + 1 && CarmichaelHolds(k, r)
    ensures Decrypt(k, Enc(k.pub, m, r)) == (m * k.priv.lambda * k.priv.mu) % k.pub.n
  {
    var n, lambda, mu := k.pub.n, k.priv.lambda, k.priv.mu;
    NonNegativeFactors(m, lambda, n);
    RaisedCiphertext(k, m, r);
    LFunctionDecodes(n, m * lambda);
    MulModLeft(m * lambda, mu, n);
  }

  /** With lambda*mu = 1 (mod n), decryption recovers every m < n. */
  lemma DecryptRoundTrip(k: Keys, m: nat, r: int)
    requires k.pub.n >= 2 && k.pub.g == k.pub.n + 1 && CarmichaelHolds(k, r)
    requires (k.priv.lambda * k.priv.mu) % k.pub.n == 1 && m < k.pub.n
    ensures Decrypt(k, Enc(k.pub, m, r)) == m
  {
    var n, lambda, mu := k.pub.n, k.priv.lambda, k.priv.mu;
    DecryptEncryption(k, m, r);
    MulAssociative(m, lambda, mu);
    MulModRight(m, lambda * mu, n);
    SmallMod(m, n);
  }

  /** Conversely, if an encryption of 1 decrypts to 1 then lambda*mu = 1
      (mod n): the round trip holds exactly for keys with that property. */
  lemma RoundTripNeedsInverse(k: Keys, r: int)
    requires k.pub.n >= 2 && k.pub.g == k.pub.n + 1 && CarmichaelHolds(k, r)
    requires Decrypt(k, Enc(k.pub, 1, r)) == 1
    ensures (k.priv.lambda * k.priv.mu) % k.pub.n == 1
  {
    DecryptEncryption(k, 1, r);
  }

  /** The toy primes p = 11, q = 17 pass the loop at once and give
      n = 187, g = 188 and lambda = 80; mu is the inverse of phi = 160. */
  lemma DemoKeys()
    ensures KeysFromDraws(11, 17, []).Some?
    ensures KeysFromDraws(11, 17, []).value.pub == PublicKey(187, 188)
    ensures KeysFromDraws(11, 17, []).value.priv.lambda == 80
  {
    assert Gcd(187, 160) == 1;
    assert AcceptedQ(11, Phi(11, 17), 17, []) == Some(17);
    assert Lcm(10, 16) == 80 by {
      assert Gcd(10, 16) == 2;
    }
  }

  /** When m*lambda = c*f and mu inverts f modulo n, decryption of an
      encryption of m gives c mod n: with mu inverting phi rather than
      lambda, the plaintext comes back scaled by lambda/phi. */
  lemma DecryptScaled(k: Keys, m: nat, r: int, c: int, f: int)
    requires k.pub.n >= 2 && k.pub.g == k.pub.n + 1 && CarmichaelHolds(k, r)
    requires m * k.priv.lambda == c * f && (f * k.priv.mu) % k.pub.n == 1
    ensures Decrypt(k, Enc(k.pub, m, r)) == c % k.pub.n
  {
    var n, mu := k.pub.n, k.priv.mu;
    DecryptEncryption(k, m, r);
    MulAssociative(c, f, mu);
    MulModRight(c, f * mu, n);
  }

  /** The demo of the module (encrypt 10, decrypt) with the keys of
      p = 11, q = 17 gives back 5, for every randomizer r satisfying the
      Carmichael hypothesis (every r coprime to 187, r = 1 included). */
  lemma DemoDoesNotRoundTrip(r: int)
    requires KeysFromDraws(11, 17, []).Some?
    requires CarmichaelHolds(KeysFromDraws(11, 17, []).value, r)
    ensures var k := KeysFromDraws(11, 17, []).value;
      Decrypt(k, Enc(k.pub, 10, r)) == 5
  {
    DemoKeys();
    var k := KeysFromDraws(11, 17, []).value;
    assert (160 * k.priv.mu) % 187 == 1;
    DecryptScaled(k, 10, r, 5, 160);
  }

  /** The hypothesis holds for r = 1, so the demo's failure is not vacuous. */
  lemma DemoCarmichaelAtOne()
    ensures KeysFromDraws(11, 17, []).Some?
    ensures CarmichaelHolds(KeysFromDraws(11, 17, []).value, 1)
  {
    DemoKeys();
    PowOne(187 * 80);
  }

  /** With the corrected keys (mu inverting lambda) every m < n survives
      the round trip; for p = 11, q = 17 that mu is 180. */
  lemma CorrectedDecryptRoundTrip(p: nat, q: nat, draws: seq<nat>, m: nat, r: int)
    requires p >= 2 && q >= 2 && PrimeDraws(draws)
    requires CorrectedKeysFromDraws(p, q, draws).Some?
    requires m < CorrectedKeysFromDraws(p, q, draws).value.pub.n
    requires CarmichaelHolds(CorrectedKeysFromDraws(p, q, draws).value, r)
    ensures var k := CorrectedKeysFromDraws(p, q, draws).value;
            Decrypt(k, Enc(k.pub, m, r)) == m
  {
    var k := CorrectedKeysFromDraws(p, q, draws).value;
    DecryptRoundTrip(k, m, r);
  }

  // ---------------------------------------------------------------------
  // Homomorphic operations seen through decryption (s = 1)
  // ---------------------------------------------------------------------

  lemma CarmichaelProduct(k: Keys, r1: int, r2: int)
    requires k.pub.n >= 1 && CarmichaelHolds(k, r1) && CarmichaelHolds(k, r2)
    ensures CarmichaelHolds(k, r1 * r2)
  {
    var e, nn := k.pub.n * k.priv.lambda, k.pub.n * k.pub.n;
    PowProduct(r1, r2, e);
    MulMod(Pow(r1, e), Pow(r2, e), nn);
    SmallMod(1, nn);
  }

  /** With a round-trip key, `add` of encryptions of m1 and m2 decrypts to
      (m1 + m2) mod n. */
  lemma DecryptAdd(k: Keys, m1: nat, r1: int, m2: nat, r2: int)
    requires k.pub.n >= 2 && k.pub.g == k.pub.n + 1
    requires (k.priv.lambda * k.priv.mu) % k.pub.n == 1
    requires CarmichaelHolds(k, r1) && CarmichaelHolds(k, r2)
    ensures Decrypt(k, DamgardJurik.Add(AsDamgardJurik(k.pub), Enc(k.pub, m1, r1), Enc(k.pub, m2, r2)))
         == (m1 + m2) % k.pub.n
  {
    var dj := AsDamgardJurik(k.pub);
    EncIsDamgardJurikAtOne(k.pub, m1, r1);
    EncIsDamgardJurikAtOne(k.pub, m2, r2);
    EncIsDamgardJurikAtOne(k.pub, m1 + m2, r1 * r2);
    DamgardJurik.AddHomomorphic(dj, m1, r1, m2, r2);
    CarmichaelProduct(k, r1, r2);
    DecryptEncryption(k, m1 + m2, r1 * r2);
    var n, lm := k.pub.n, k.priv.lambda * k.priv.mu;
    MulAssociative(m1 + m2, k.priv.lambda, k.priv.mu);
    MulModRight(m1 + m2, lm, n);
  }

  /** With a round-trip key, `reencrypt` of an encryption of m decrypts to
      (m + 1) mod n, not to m. */
  lemma ReEncryptDecryptsToSuccessor(k: Keys, m: nat, r: int, r1: int)
    requires k.pub.n >= 2 && k.pub.g == k.pub.n + 1
    requires (k.priv.lambda * k.priv.mu) % k.pub.n == 1
    requires CarmichaelHolds(k, r) && CarmichaelHolds(k, r1)
    ensures Decrypt(k, DamgardJurik.Add(AsDamgardJurik(k.pub), Enc(k.pub, m, r), Enc(k.pub, 1, r1)))
         == (m + 1) % k.pub.n
  {
    DecryptAdd(k, m, r, 1, r1);
  }

  /** With a round-trip key, re-randomizing with an encryption of 0 keeps
      the plaintext. */
  lemma ReRandomizeDecryptsToSame(k: Keys, m: nat, r: int, r0: int)
    requires k.pub.n >= 2 && k.pub.g == k.pub.n + 1
    requires (k.priv.lambda * k.priv.mu) % k.pub.n == 1
    requires CarmichaelHolds(k, r) && CarmichaelHolds(k, r0) && m < k.pub.n
    ensures Decrypt(k, DamgardJurik.Add(AsDamgardJurik(k.pub), Enc(k.pub, m, r), Enc(k.pub, 0, r0))) == m
  {
    DecryptAdd(k, m, r, 0, r0);
    SmallMod(m, k.pub.n);
  }

  /** With a round-trip key, `multiply_by_constant` of an encryption of m
      by j < n decrypts to (m*j) mod n. */
  lemma DecryptMultiplyByConstant(k: Keys, m: nat, r: int, j: nat)
    requires k.pub.n >= 2 && k.pub.g == k.pub.n + 1 && j < k.pub.n
    requires (k.priv.lambda * k.priv.mu) % k.pub.n == 1
    requires CarmichaelHolds(k, r)
    ensures DamgardJurik.MultiplyByConstant(AsDamgardJurik(k.pub), Enc(k.pub, m, r), j).Success?
    ensures Decrypt(k, DamgardJurik.MultiplyByConstant(AsDamgardJurik(k.pub), Enc(k.pub, m, r), j).value)
         == (m * j) % k.pub.n
  {
    var dj := AsDamgardJurik(k.pub);
    NonNegativeFactors(m, j, k.pub.n);
    EncIsDamgardJurikAtOne(k.pub, m, r);
    EncIsDamgardJurikAtOne(k.pub, m * j, Pow(r, j));
    DamgardJurik.MultiplyHomomorphic(dj, m, r, j);
    CarmichaelPower(k, r, j);
    DecryptEncryption(k, m * j, Pow(r, j));
    var n, lm := k.pub.n, k.priv.lambda * k.priv.mu;
    MulAssociative(m * j, k.priv.lambda, k.priv.mu);
    MulModRight(m * j, lm, n);
  }

  lemma {:induction false} CarmichaelPower(k: Keys, r: int, j: nat)
    requires k.pub.n >= 1 && CarmichaelHolds(k, r)
    ensures CarmichaelHolds(k, Pow(r, j))
    decreases j
  {
    if j == 0 {
      PowOne(k.pub.n * k.priv.lambda);
      SmallMod(1, k.pub.n * k.pub.n);
    } else {
      CarmichaelPower(k, r, j - 1);
      CarmichaelProduct(k, r, Pow(r, j - 1));
    }
  }

  // ---------------------------------------------------------------------
  // The object
  // ---------------------------------------------------------------------

  class Paillier {
    var keys: Keys
    var plaintextModulo: int
    var ciphertextModulo: int

    /** The fields as `__init__` leaves them. */
    ghost predicate Valid()
      reads this
    {
      keys.pub.n >= 2 && keys.pub.g == keys.pub.n + 1
      && plaintextModulo == keys.pub.n && ciphertextModulo == keys.pub.n * keys.pub.n
    }

    /** `__init__`: run `generate_keys`, then record n and n^2.  Only a
        stream of draws on which the loop ends can construct the object. */
    constructor (p: nat, q: nat, draws: seq<nat>)
      requires p >= 2 && q >= 2 && PrimeDraws(draws)
      requires KeysFromDraws(p, q, draws).Some?
      ensures Valid() && keys == KeysFromDraws(p, q, draws).value
    {
      var k := GenerateKeys(p, q, draws);
      keys := k.value;
      plaintextModulo := k.value.pub.n;
      ciphertextModulo := k.value.pub.n * k.value.pub.n;
    }

    /** `encrypt`: refuse message >= n, then draw r until gcd(r, n) = 1
        and return (g^message * r^n) mod n^2. */
    method Encrypt(message: nat, draws: seq<nat>) returns (res: Result<int>)
      requires Valid() && DrawsInRange(keys.pub.n, draws)
      ensures res == EncryptOutcome(keys.pub, message, draws)
      ensures res.Success? ==> exists r :: 1 <= r < keys.pub.n && Gcd(r, keys.pub.n) == 1
                                          && res.value == Enc(keys.pub, message, r)
    {
      var n := keys.pub.n;
      if message >= n {
        return Failure(MessageNotBelowModulus);
      }
      var r := ChooseRandomizer(n, draws);
      match r
      case None =>
        res := Failure(DrawsExhausted);
      case Some(rv) =>
        res := Success((Pow(keys.pub.g, message) * Pow(rv, n)) % (n * n));
    }
  }
}
