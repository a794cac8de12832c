/** The Diffie-Hellman exchange of message stream encryption
    (`crates/engine/src/crypto/dh.rs`): a 768-bit odd modulus and generator 2. */
module Dh {
  import opened Wrappers
  import opened Bits
  import opened BigEndian

  const DH_PUB_LEN: nat := 96

  const DH_PRIME: seq<byte> := [
    0xFF, 0xFF, 0xFF, 0xFF, 0xFF, 0xFF, 0xFF, 0xFF, 0xC9, 0x0F, 0xDA, 0xA2, 0x21, 0x68, 0xC2, 0x34,
    0xC4, 0xC6, 0x62, 0x8B, 0x80, 0xDC, 0x1C, 0xD1, 0x29, 0x02, 0x4E, 0x08, 0x8A, 0x67, 0xCC, 0x74,
    0x02, 0x0B, 0xBE, 0xA6, 0x3B, 0x13, 0x9B, 0x22, 0x51, 0x4A, 0x08, 0x79, 0x8E, 0x34, 0x04, 0xDD,
    0xEF, 0x95, 0x19, 0xB3, 0xCD, 0x3A, 0x43, 0x1B, 0x30, 0x2B, 0x0A, 0x6D, 0xF2, 0x5F, 0x14, 0x37,
    0x4F, 0xE1, 0x35, 0x6D, 0x6D, 0x51, 0xC2, 0x45, 0xE4, 0x85, 0xB5, 0x76, 0x62, 0x5E, 0x7E, 0xC6,
    0xF4, 0x4C, 0x42, 0xE9, 0xA6, 0x3A, 0x36, 0x21, 0x00, 0x00, 0x00, 0x00, 0x00, 0x09, 0x05, 0x63
  ]

  /** `modpow`. */
  function ModPow(base: nat, e: nat, p: nat): (r: nat)
    requires p > 0
    ensures r < p
  {
    Power(base, e) % p
  }

  /** `pad_left_96`. */
  function PadLeft96(bytes: seq<byte>): (r: seq<byte>)
    ensures |r| == DH_PUB_LEN
  {
    if |bytes| >= DH_PUB_LEN then bytes[|bytes| - DH_PUB_LEN..]
    else seq(DH_PUB_LEN - |bytes|, _ => 0) + bytes
  }

  datatype DhError = WrongLength | InvalidPublicKey

  /** `DhKeyPair`: the public key is the generator raised to the private exponent. */
  datatype KeyPair = KeyPair(secretExponent: nat, public: nat, prime: nat)
  {
    function PublicKeyBytes(): (r: seq<byte>)
      ensures |r| == DH_PUB_LEN
    {
      PadLeft96(MinimalBe(public))
    }

    function ComputeSecret(peer: seq<byte>): (r: Result<seq<byte>, DhError>)
      requires prime > 0
      ensures r.Ok? <==> |peer| == DH_PUB_LEN && 0 < FromBe(peer) < prime
      ensures r.Ok? ==> |r.value| == DH_PUB_LEN
    {
      if |peer| != DH_PUB_LEN then Err(WrongLength)
      else
        var y := FromBe(peer);
        if y == 0 || y >= prime then Err(InvalidPublicKey)
        else Ok(PadLeft96(MinimalBe(ModPow(y, secretExponent, prime))))
    }
  }

  /** `generate`, given its 20 random bytes. */
  function Generate(raw: seq<byte>): KeyPair
    requires |raw| == 20
  {
    PrimeFacts();
    var prime := FromBe(DH_PRIME);
    var x := FromBe(raw);
    KeyPair(x, ModPow(2, x, prime), prime)
  }

  // ---------------------------------------------------------------- arithmetic

  /** The modulus is odd, greater than two and fits the key length. */
  lemma PrimeFacts()
    ensures FromBe(DH_PRIME) % 2 == 1 && FromBe(DH_PRIME) > 98
    ensures FromBe(DH_PRIME) < Power(256, DH_PUB_LEN)
  {
    hide Power;
    FromBeBound(DH_PRIME);
    assert DH_PRIME != [] && DH_PRIME[|DH_PRIME| - 1] == 0x63 && |DH_PRIME| == DH_PUB_LEN;
    LastByteOdd(DH_PRIME);
  }

  lemma LastByteOdd(b: seq<byte>)
    requires b != [] && b[|b| - 1] == 0x63
    ensures FromBe(b) % 2 == 1 && FromBe(b) > 98
  {
    hide Power;
    assert (0x63 as byte) as int == 99;
  }

  lemma MulMod(a: nat, b: nat, p: nat)
    requires p > 0
    ensures ((a % p) * b) % p == (a * b) % p
  {
    var q, r := a / p, a % p;
    assert a == p * q + r;
    assert a * b == p * (q * b) + r * b by {
      Distribute(p, q, r, b);
    }
    ModShift(r * b, q * b, p);
  }

  lemma Distribute(p: nat, q: nat, r: nat, b: nat)
    ensures (p * q + r) * b == p * (q * b) + r * b
  {
    assert (p * q + r) * b == (p * q) * b + r * b;
    Assoc(p, q, b);
  }

  lemma Assoc(x: nat, y: nat, z: nat)
    ensures (x * y) * z == x * (y * z)
  {}

  lemma {:induction false} ModShift(x: nat, k: nat, p: nat)
    requires p > 0
    ensures (p * k + x) % p == x % p
    decreases k
  {
    if k > 0 {
      ModShift(x, k - 1, p);
      assert p * k + x == (p * (k - 1) + x) + p by {
        PredMul(p, k);
      }
      AddOnce(p * (k - 1) + x, p);
    }
  }

  lemma PredMul(p: nat, k: nat)
    requires k > 0
    ensures p * k == p * (k - 1) + p
  {}

  lemma AddOnce(y: nat, p: nat)
    requires p > 0
    ensures (y + p) % p == y % p
  {
    var q, r := y / p, y % p;
    assert y + p == p * (q + 1) + r;
    DivUnique(y + p, q + 1, r, p);
  }

  lemma DivUnique(n: nat, q: nat, r: nat, p: nat)
    requires p > 0 && r < p && n == p * q + r
    ensures n % p == r
  {
    var q', r' := n / p, n % p;
    assert p * q + r == p * q' + r';
    if q < q' {
      Gap(p, q, q');
    } else if q' < q {
      Gap(p, q', q);
    }
  }

  lemma {:induction false} Gap(p: nat, a: nat, b: nat)
    requires a < b
    ensures p * b >= p * a + p
    decreases b
  {
    PredMul(p, b);
    if a < b - 1 {
      Gap(p, a, b - 1);
    }
  }

  /** Reducing the base first does not change a power modulo `p`. */
  lemma {:induction false} PowerMod(base: nat, e: nat, p: nat)
    requires p > 0
    ensures Power(base % p, e) % p == Power(base, e) % p
  {
    if e > 0 {
      var x, y := Power(base % p, e - 1), Power(base, e - 1);
      PowerMod(base, e - 1, p);
      calc {
        ((base % p) * x) % p;
        { MulMod(base, x, p); }
        (base * x) % p;
        { Commute(base, x); MulMod(x, base, p); }
        ((x % p) * base) % p;
        ((y % p) * base) % p;
        { MulMod(y, base, p); Commute(base, y); }
        (base * y) % p;
      }
    }
  }

  lemma Commute(x: nat, y: nat)
    ensures x * y == y * x
  {}

  lemma {:induction false} PowerAdd(g: nat, a: nat, b: nat)
    ensures Power(g, a + b) == Power(g, a) * Power(g, b)
  {
    if a > 0 {
      PowerAdd(g, a - 1, b);
      Assoc(g, Power(g, a - 1), Power(g, b));
    }
  }

  lemma {:induction false} PowerMul(g: nat, a: nat, b: nat)
    ensures Power(Power(g, a), b) == Power(g, a * b)
  {
    if b > 0 {
      PowerMul(g, a, b - 1);
      PowerAdd(g, a, a * (b - 1));
      PredMul(a, b);
      assert a + a * (b - 1) == a * b;
    }
  }

  /** Each side raises the other's public value to its own exponent and gets the same. */
  lemma ExponentsAgree(g: nat, a: nat, b: nat, p: nat)
    requires p > 0
    ensures ModPow(ModPow(g, b, p), a, p) == ModPow(ModPow(g, a, p), b, p) == ModPow(g, a * b, p)
  {
    hide Power;
    PowerMod(Power(g, b), a, p);
    PowerMod(Power(g, a), b, p);
    PowerMul(g, a, b);
    PowerMul(g, b, a);
    Commute(a, b);
  }

  /** An odd number that divides twice a number divides the number. */
  lemma OddDivides(m: nat, p: nat)
    requires p % 2 == 1 && (2 * m) % p == 0
    ensures m % p == 0
  {
    var k := (2 * m) / p;
    assert 2 * m == p * k;
    EvenFactor(p, k);
    var h := k / 2;
    assert k == 2 * h;
    assert p * k == 2 * (p * h);
    assert m == p * h + 0;
    DivUnique(m, h, 0, p);
  }

  lemma EvenFactor(p: nat, k: nat)
    requires p % 2 == 1 && (p * k) % 2 == 0
    ensures k % 2 == 0
  {
    var q := p / 2;
    assert p == 2 * q + 1;
    Distribute(2, q, 1, k);
  }

  /** No power of two is a multiple of an odd modulus above one, so public keys and shared
      secrets are never zero. */
  lemma {:induction false} TwoPowerNotZero(e: nat, p: nat)
    requires p % 2 == 1 && p > 1
    ensures ModPow(2, e, p) != 0
  {
    if e > 0 {
      TwoPowerNotZero(e - 1, p);
      if Power(2, e) % p == 0 {
        OddDivides(Power(2, e - 1), p);
      }
    }
  }

  // ---------------------------------------------------------------- keys

  lemma {:induction false} PaddedValue(v: nat)
    requires v < Power(256, DH_PUB_LEN)
    ensures FromBe(PadLeft96(MinimalBe(v))) == v
  {
    hide Power;
    MinimalBack(v);
    MinimalFits(v, DH_PUB_LEN);
    var b := MinimalBe(v);
    if |b| < DH_PUB_LEN {
      LeadingZeros(DH_PUB_LEN - |b|, b);
    } else {
      assert b[|b| - DH_PUB_LEN..] == b;
    }
  }

  lemma PublicKeyValue(k: KeyPair, raw: seq<byte>)
    requires |raw| == 20 && k == Generate(raw)
    ensures k.prime > 2 && k.prime % 2 == 1 && k.prime == FromBe(DH_PRIME)
    ensures k.public == ModPow(2, k.secretExponent, k.prime)
    ensures FromBe(k.PublicKeyBytes()) == k.public && 0 < k.public < k.prime
  {
    hide Power, FromBe, ModPow;
    PrimeFacts();
    TwoPowerNotZero(k.secretExponent, k.prime);
    PaddedValue(k.public);
  }

  /** Two generated key pairs: each accepts the other's public key, both compute the same
      96-byte secret, and it is not zero. */
  lemma SecretsAgree(a: KeyPair, b: KeyPair, rawA: seq<byte>, rawB: seq<byte>)
    requires |rawA| == 20 && |rawB| == 20 && a == Generate(rawA) && b == Generate(rawB)
    ensures a.prime > 0 && b.prime > 0
    ensures a.ComputeSecret(b.PublicKeyBytes()).Ok?
    ensures a.ComputeSecret(b.PublicKeyBytes()) == b.ComputeSecret(a.PublicKeyBytes())
    ensures FromBe(a.ComputeSecret(b.PublicKeyBytes()).value) != 0
  {
    hide Power, FromBe, ModPow, PadLeft96, MinimalBe, KeyPair.PublicKeyBytes, Generate;
    PublicKeyValue(a, rawA);
    PublicKeyValue(b, rawB);
    PrimeFacts();
    var p := a.prime;
    ExponentsAgree(2, a.secretExponent, b.secretExponent, p);
    TwoPowerNotZero(a.secretExponent * b.secretExponent, p);
    PaddedValue(ModPow(2, a.secretExponent * b.secretExponent, p));
  }

  /** Two to the product of both exponents, modulo the prime. */
  ghost function SharedNumber(rawA: seq<byte>, rawB: seq<byte>): nat {
    PrimeFacts();
    Power(2, FromBe(rawA) * FromBe(rawB)) % FromBe(DH_PRIME)
  }

  lemma SharedNumberIs(rawA: seq<byte>, rawB: seq<byte>)
    ensures FromBe(DH_PRIME) > 0
    ensures SharedNumber(rawA, rawB) == ModPow(2, FromBe(rawA) * FromBe(rawB), FromBe(DH_PRIME))
  {
    hide Power, FromBe;
    PrimeFacts();
  }

  /** The secret in numbers: two to the product of the exponents, modulo the prime. */
  lemma SecretValue(a: KeyPair, b: KeyPair, rawA: seq<byte>, rawB: seq<byte>, secret: seq<byte>)
    requires |rawA| == 20 && |rawB| == 20 && a == Generate(rawA) && b == Generate(rawB)
    requires a.prime > 0 && a.ComputeSecret(b.PublicKeyBytes()) == Ok(secret)
    ensures FromBe(secret) == SharedNumber(rawA, rawB)
  {
    SharedNumberIs(rawA, rawB);
    hide SharedNumber, Power, FromBe, PadLeft96, MinimalBe, KeyPair.PublicKeyBytes, Generate, ModPow,
         KeyPair.ComputeSecret;
    PublicKeyValue(a, rawA);
    PublicKeyValue(b, rawB);
    PrimeFacts();
    ExponentIs(a, rawA);
    ExponentIs(b, rawB);
    SecretBytes(a, b.PublicKeyBytes(), secret);
    ExponentsAgree(2, a.secretExponent, b.secretExponent, a.prime);
    PaddedValue(ModPow(b.public, a.secretExponent, a.prime));
  }

  lemma SecretBytes(k: KeyPair, peer: seq<byte>, secret: seq<byte>)
    requires k.prime > 0 && k.ComputeSecret(peer) == Ok(secret)
    ensures secret == PadLeft96(MinimalBe(ModPow(FromBe(peer), k.secretExponent, k.prime)))
  {}

  lemma ModPowIs(base: nat, e: nat, p: nat)
    requires p > 0
    ensures ModPow(base, e, p) == Power(base, e) % p
  {}

  lemma ExponentIs(k: KeyPair, raw: seq<byte>)
    requires |raw| == 20 && k == Generate(raw)
    ensures k.secretExponent == FromBe(raw)
  {
    hide FromBe, ModPow;
  }

  function Zeros(n: nat): (r: seq<byte>)
    ensures |r| == n
  {
    seq(n, _ => 0)
  }

  /** The exponent 3 gives the public key 8. */
  lemma KeyOfThree()
    ensures Generate(Zeros(19) + [3]).PublicKeyBytes() == Zeros(95) + [8]
  {
    var raw := Zeros(19) + [3];
    var k := Generate(raw);
    ExponentIs(k, raw);
    PublicKeyValue(k, raw);
    PrimeFacts();
    hide FromBe, Generate, ModPow, Power, MinimalBe;
    LeadingZeros(19, [3]);
    FromBeOne(3);
    PowerSteps(2);
    ModPowIs(2, 3, k.prime);
    assert (3 as byte) as int == 3;
    SmallMod(8, k.prime);
    assert k.public == 8;
    OneByte();
  }

  lemma SmallMod(x: nat, p: nat)
    requires x < p
    ensures x % p == x
  {}

  lemma OneByte()
    ensures MinimalBe(8) == [8]
  {}
}
