/** The Damgard-Jurik cryptosystem as the class `Damgard_Jurik` implements
    it: keys n = p*q, g = n + 1, d = lcm(p - 1, q - 1); ciphertexts live
    modulo n^(s+1).  The pure operations are functions of the public key the
    object holds; encryption, which consumes random draws, is a method of
    the class. */
module DamgardJurik {
  import opened Wrappers
  import opened ModArith
  import opened Randomizer

  datatype PublicKey = PublicKey(n: nat, g: nat, s: nat)
  datatype PrivateKey = PrivateKey(d: nat)
  datatype Keys = Keys(pub: PublicKey, priv: PrivateKey)

  /** What key generation produces from primes p, q >= 2. */
  predicate WellFormed(pk: PublicKey)
  {
    pk.n >= 2 && pk.g == pk.n + 1
  }

  /** n^(s+1), the modulus of ciphertexts. */
  function Modulus(pk: PublicKey): nat
    requires pk.n >= 1
  {
    Pow(pk.n, pk.s + 1)
  }

  // ---------------------------------------------------------------------
  // Key derivation
  // ---------------------------------------------------------------------

  /** The arithmetic of `generate_keys(s)` for the primes it drew. */
  function GenerateKeys(p: nat, q: nat, s: nat): (k: Keys)
    requires p >= 2 && q >= 2
    ensures WellFormed(k.pub) && k.pub.n == p * q && k.pub.s == s
    ensures k.priv.d == Lcm(p - 1, q - 1)
    ensures k.priv.d > 0 && k.priv.d % (p - 1) == 0 && k.priv.d % (q - 1) == 0
  {
    var n := p * q;
    Keys(PublicKey(n, n + 1, s), PrivateKey(Lcm(p - 1, q - 1)))
  }

  /** The requirement d = 1 (mod n^s) stated beside the key derivation never
      holds for primes p, q >= 3: d = lcm(p - 1, q - 1) lies in [2, n^s). */
  lemma PrivateExponentNotUnit(p: nat, q: nat, s: nat)
    requires p >= 3 && q >= 3 && s >= 1
    ensures GenerateKeys(p, q, s).priv.d % Pow(p * q, s) != 1
  {
    var k := GenerateKeys(p, q, s);
    var d, n := k.priv.d, p * q;
    MultipleAtLeast(d, p - 1);
    assert d <= (p - 1) * (q - 1);
    assert (p - 1) * (q - 1) < n;
    PowAtLeastBase(n, s);
    SmallMod(d, Pow(n, s));
  }

  /** The private exponent the requirement asks for, built by the Chinese
      remainder construction d = lambda * (lambda^-1 mod n^s): it exists
      exactly when lambda is invertible modulo n^s, and then satisfies both
      d = 0 (mod lambda) and d = 1 (mod n^s). */
  function CrtPrivateExponent(p: nat, q: nat, s: nat): (d: Option<nat>)
    requires p >= 2 && q >= 2 && s >= 1
    ensures d.Some? <==> Gcd(Lcm(p - 1, q - 1), Pow(p * q, s)) == 1
    ensures d.Some? ==> d.value % Lcm(p - 1, q - 1) == 0 && d.value % Pow(p * q, s) == 1
  {
    var lambda, ns := Lcm(p - 1, q - 1), Pow(p * q, s);
    PowAtLeastBase(p * q, s);
    match ModInverse(lambda, ns)
    case None => None
    case Some(u) =>
      DivModUnique(lambda * u, u, 0, lambda);
      SmallMod(1, ns);
      Some(lambda * u)
  }

  // ---------------------------------------------------------------------
  // The encryption map and the homomorphic operations
  // ---------------------------------------------------------------------

  /** E(m, r) as `encrypt` computes it: g^m reduced modulo n^(s+1), times r
      raised to n^s reduced modulo n^(s+1), the product reduced again. */
  function Enc(pk: PublicKey, m: nat, r: int): (c: int)
    requires pk.n >= 1
    ensures 0 <= c < Modulus(pk)
  {
    var N := Modulus(pk);
    ((Pow(pk.g, m) % N) * Pow(r, Pow(pk.n, pk.s) % N)) % N
  }

  /** For n >= 2 the reduced exponent pow(n, s, n^(s+1)) is n^s itself, so
      E(m, r) = g^m * r^(n^s) mod n^(s+1). */
  lemma EncUnreduced(pk: PublicKey, m: nat, r: int)
    requires pk.n >= 2
    ensures Pow(pk.n, pk.s) % Modulus(pk) == Pow(pk.n, pk.s)
    ensures Enc(pk, m, r) == (Pow(pk.g, m) * Pow(r, Pow(pk.n, pk.s))) % Modulus(pk)
  {
    var N := Modulus(pk);
    PowStrictlyGrows(pk.n, pk.s);
    SmallMod(Pow(pk.n, pk.s), N);
    MulModLeft(Pow(pk.g, m), Pow(r, Pow(pk.n, pk.s)), N);
  }

  /** `add`: the product of two ciphertexts modulo n^(s+1). */
  function Add(pk: PublicKey, c1: int, c2: int): (c: int)
    requires pk.n >= 1
    ensures 0 <= c < Modulus(pk)
  {
    (c1 * c2) % Modulus(pk)
  }

  /** `add` is commutative and associative. */
  lemma AddCommutativeAssociative(pk: PublicKey, a: int, b: int, c: int)
    requires pk.n >= 1
    ensures Add(pk, a, b) == Add(pk, b, a)
    ensures Add(pk, Add(pk, a, b), c) == Add(pk, a, Add(pk, b, c))
  {
    var N := Modulus(pk);
    assert a * b == b * a;
    MulModLeft(a * b, c, N);
    MulModRight(a, b * c, N);
    assert (a * b) * c == a * (b * c);
  }

  lemma ProductOfEncodings(g: int, m1: nat, m2: nat, r1: int, r2: int, e: nat)
    ensures (Pow(g, m1) * Pow(r1, e)) * (Pow(g, m2) * Pow(r2, e))
         == Pow(g, m1 + m2) * Pow(r1 * r2, e)
  {
    PowAdd(g, m1, m2);
    PowProduct(r1, r2, e);
    MulRearrange(Pow(g, m1), Pow(r1, e), Pow(g, m2), Pow(r2, e));
  }

  /** Additive homomorphism: the product of encryptions of m1 and m2 is the
      encryption of m1 + m2 under the product of the randomizers. */
  lemma AddHomomorphic(pk: PublicKey, m1: nat, r1: int, m2: nat, r2: int)
    requires pk.n >= 2
    ensures Add(pk, Enc(pk, m1, r1), Enc(pk, m2, r2)) == Enc(pk, m1 + m2, r1 * r2)
  {
    var N, e := Modulus(pk), Pow(pk.n, pk.s);
    var x1, x2 := Pow(pk.g, m1) * Pow(r1, e), Pow(pk.g, m2) * Pow(r2, e);
    EncUnreduced(pk, m1, r1);
    EncUnreduced(pk, m2, r2);
    EncUnreduced(pk, m1 + m2, r1 * r2);
    MulMod(x1, x2, N);
    ProductOfEncodings(pk.g, m1, m2, r1, r2, e);
  }

  /** `multiply_by_constant`: c^k modulo n^(s+1), refused (the source's
      assertion) unless k < n.  k = 0 gives 1 and k = 1 gives c reduced. */
  function MultiplyByConstant(pk: PublicKey, c: int, k: nat): (res: Result<int>)
    requires pk.n >= 2
    ensures k >= pk.n ==> res == Failure(ConstantNotBelowModulus)
    ensures k < pk.n ==> res.Success? && 0 <= res.value < Modulus(pk)
    ensures k == 0 ==> res == Success(1)
    ensures k == 1 ==> res == Success(c % Modulus(pk))
  {
    var N := Modulus(pk);
    PowStrictlyGrows(pk.n, pk.s + 1);
    if k >= pk.n then Failure(ConstantNotBelowModulus)
    else
      assert k == 1 ==> Pow(c, k) == c;
      SmallMod(1, N);
      Success(Pow(c, k) % N)
  }

  lemma NonNegativeProduct(a: nat, b: nat)
    ensures a * b >= 0
  {
  }

  lemma PowerOfEncoding(g: int, m: nat, r: int, e: nat, k: nat)
    ensures Pow(Pow(g, m) * Pow(r, e), k) == Pow(g, m * k) * Pow(Pow(r, k), e)
  {
    PowProduct(Pow(g, m), Pow(r, e), k);
    PowMul(g, m, k);
    PowMul(r, e, k);
    PowMul(r, k, e);
    assert e * k == k * e;
  }

  /** Scalar homomorphism: raising an encryption of m to k < n gives an
      encryption of m*k under the randomizer r^k. */
  lemma MultiplyHomomorphic(pk: PublicKey, m: nat, r: int, k: nat)
    requires pk.n >= 2 && k < pk.n
    ensures MultiplyByConstant(pk, Enc(pk, m, r), k) == Success(Enc(pk, m * k, Pow(r, k)))
  {
    var N, e := Modulus(pk), Pow(pk.n, pk.s);
    var x := Pow(pk.g, m) * Pow(r, e);
    var c := Enc(pk, m, r);
    EncUnreduced(pk, m, r);
    assert c == x % N;
    assert MultiplyByConstant(pk, c, k) == Success(Pow(c, k) % N);
    PowMod(x, k, N);
    assert Pow(c, k) % N == Pow(x, k) % N;
    PowerOfEncoding(pk.g, m, r, e, k);
    NonNegativeProduct(m, k);
    EncUnreduced(pk, m * k, Pow(r, k));
  }

  // ---------------------------------------------------------------------
  // Encryption as a whole
  // ---------------------------------------------------------------------

  /** What `encrypt(message)` returns for a stream of draws: the assertion
      message < n first, then the randomizer loop, then E(message, r). */
  function EncryptOutcome(pk: PublicKey, message: nat, draws: seq<nat>): (res: Result<int>)
    requires pk.n >= 1
    ensures message >= pk.n ==> res == Failure(MessageNotBelowModulus)
    ensures res.Success? <==> message < pk.n && FirstCoprime(pk.n, draws).Some?
    ensures res.Success? ==> 0 <= res.value < Modulus(pk)
  {
    if message >= pk.n then Failure(MessageNotBelowModulus)
    else match FirstCoprime(pk.n, draws)
      case None => Failure(DrawsExhausted)
      case Some(r) => Success(Enc(pk, message, r))
  }

  /** The plaintext space as the generalised scheme defines it, [0, n^s):
      the bound `encrypt` evidently intends. */
  function EncryptOutcomeFullRange(pk: PublicKey, message: nat, draws: seq<nat>): (res: Result<int>)
    requires pk.n >= 1
    ensures message >= Pow(pk.n, pk.s) ==> res == Failure(MessageNotBelowModulus)
    ensures res.Success? <==> message < Pow(pk.n, pk.s) && FirstCoprime(pk.n, draws).Some?
    ensures res.Success? ==> res.value == Enc(pk, message, FirstCoprime(pk.n, draws).value)
  {
    if message >= Pow(pk.n, pk.s) then Failure(MessageNotBelowModulus)
    else match FirstCoprime(pk.n, draws)
      case None => Failure(DrawsExhausted)
      case Some(r) => Success(Enc(pk, message, r))
  }

  /** For s >= 2 `encrypt` refuses the plaintext n although n < n^s, which
      the full-range bound accepts whenever a coprime draw exists. */
  lemma EncryptRejectsValidPlaintext(pk: PublicKey, draws: seq<nat>)
    requires pk.n >= 2 && pk.s >= 2
    ensures pk.n < Pow(pk.n, pk.s)
    ensures EncryptOutcome(pk, pk.n, draws) == Failure(MessageNotBelowModulus)
    ensures FirstCoprime(pk.n, draws).Some? ==> EncryptOutcomeFullRange(pk, pk.n, draws).Success?
  {
    PowAtLeastBase(pk.n, pk.s - 1);
    PowStrictlyGrows(pk.n, pk.s - 1);
  }

  /** Re-encrypting with an encryption of 1 turns an encryption of m into an
      encryption of m + 1. */
  lemma ReEncryptShiftsPlaintext(pk: PublicKey, m: nat, r: int, r1: int)
    requires pk.n >= 2
    ensures Add(pk, Enc(pk, m, r), Enc(pk, 1, r1)) == Enc(pk, m + 1, r * r1)
  {
    AddHomomorphic(pk, m, r, 1, r1);
  }

  /** Re-randomizing with an encryption of 0 keeps the plaintext m. */
  lemma ReRandomizeKeepsPlaintext(pk: PublicKey, m: nat, r: int, r0: int)
    requires pk.n >= 2
    ensures Add(pk, Enc(pk, m, r), Enc(pk, 0, r0)) == Enc(pk, m, r * r0)
  {
    AddHomomorphic(pk, m, r, 0, r0);
  }

  // ---------------------------------------------------------------------
  // The object
  // ---------------------------------------------------------------------

  class DamgardJurik {
    var keys: Keys
    var plaintextModulo: int
    var ciphertextModulo: int

    /** The fields as `__init__` leaves them: both moduli derived from n
        (the ciphertext modulus as n^2, whatever s is). */
    ghost predicate Valid()
      reads this
    {
      WellFormed(keys.pub) && plaintextModulo == keys.pub.n
      && ciphertextModulo == keys.pub.n * keys.pub.n
    }

    /** `__init__`: keys from `generate_keys()` with its default s = 1. */
    constructor (p: nat, q: nat)
      requires p >= 2 && q >= 2
      ensures Valid() && keys == GenerateKeys(p, q, 1)
      ensures plaintextModulo == p * q && ciphertextModulo == (p * q) * (p * q)
    {
      var k := GenerateKeys(p, q, 1);
      keys := k;
      plaintextModulo := k.pub.n;
      ciphertextModulo := k.pub.n * k.pub.n;
    }

    /** `encrypt`: refuse message >= n, then draw r until gcd(r, n) = 1
        and return E(message, r). */
    method Encrypt(message: nat, draws: seq<nat>) returns (res: Result<int>)
      requires Valid() && DrawsInRange(keys.pub.n, draws)
      ensures res == EncryptOutcome(keys.pub, message, draws)
      ensures res.Success? ==> exists r :: 1 <= r < keys.pub.n && Gcd(r, keys.pub.n) == 1
                                          && res.value == Enc(keys.pub, message, r)
    {
      var n := keys.pub.n;
      if message >= n {
        return Failure(MessageNotBelowModulus);
      }
      var r := ChooseRandomizer(n, draws);
      match r
      case None =>
        res := Failure(DrawsExhausted);
      case Some(rv) =>
        var N := Pow(n, keys.pub.s + 1);
        res := Success(((Pow(keys.pub.g, message) % N) * Pow(rv, Pow(n, keys.pub.s) % N)) % N);
    }

    /** `reencrypt`: multiply by a fresh encryption of 1.  An encryption of
        m comes out as an encryption of m + 1. */
    method ReEncrypt(cipher: int, draws: seq<nat>) returns (res: Result<int>)
      requires Valid() && DrawsInRange(keys.pub.n, draws)
      ensures res.Success? <==> FirstCoprime(keys.pub.n, draws).Some?
      ensures res.Success? ==> res.value == Add(keys.pub, cipher, Enc(keys.pub, 1, FirstCoprime(keys.pub.n, draws).value))
      ensures forall m: nat, r: int :: res.Success? && cipher == Enc(keys.pub, m, r) ==>
                res.value == Enc(keys.pub, m + 1, r * FirstCoprime(keys.pub.n, draws).value)
    {
      var neutral := Encrypt(1, draws);
      match neutral
      case Failure(e) =>
        res := Failure(e);
      case Success(c1) =>
        res := Success(Add(keys.pub, cipher, c1));
        var r1 := FirstCoprime(keys.pub.n, draws).value;
        forall m: nat, r: int | cipher == Enc(keys.pub, m, r)
          ensures res.value == Enc(keys.pub, m + 1, r * r1)
        {
          ReEncryptShiftsPlaintext(keys.pub, m, r, r1);
        }
    }

    /** Re-randomization as intended: multiply by a fresh encryption of 0,
        so an encryption of m stays an encryption of m. */
    method ReRandomize(cipher: int, draws: seq<nat>) returns (res: Result<int>)
      requires Valid() && DrawsInRange(keys.pub.n, draws)
      ensures res.Success? <==> FirstCoprime(keys.pub.n, draws).Some?
      ensures res.Success? ==> res.value == Add(keys.pub, cipher, Enc(keys.pub, 0, FirstCoprime(keys.pub.n, draws).value))
      ensures forall m: nat, r: int :: res.Success? && cipher == Enc(keys.pub, m, r) ==>
                res.value == Enc(keys.pub, m, r * FirstCoprime(keys.pub.n, draws).value)
    {
      var neutral := Encrypt(0, draws);
      match neutral
      case Failure(e) =>
        res := Failure(e);
      case Success(c0) =>
        res := Success(Add(keys.pub, cipher, c0));
        var r0 := FirstCoprime(keys.pub.n, draws).value;
        forall m: nat, r: int | cipher == Enc(keys.pub, m, r)
          ensures res.value == Enc(keys.pub, m, r * r0)
        {
          ReRandomizeKeepsPlaintext(keys.pub, m, r, r0);
        }
    }
  }
}
