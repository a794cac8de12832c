/** Encryption policy (`crates/engine/src/crypto/config.rs`). */
module CryptoConfig {
  import opened Wrappers

  const CRYPTO_PLAIN: bv32 := 1
  const CRYPTO_RC4: bv32 := 2

  datatype Mode = Off | PreferPlain | PreferRc4 | RequireRc4
  {
    function ProvideBits(): bv32 {
      match this
      case Off => CRYPTO_PLAIN
      case PreferPlain => CRYPTO_PLAIN | CRYPTO_RC4
      case PreferRc4 => CRYPTO_PLAIN | CRYPTO_RC4
      case RequireRc4 => CRYPTO_RC4
    }

    predicate WantsPe() {
      this != Off
    }
  }

  /** `select_crypto`: one cipher both sides offered, or none. */
  function SelectCrypto(ours: bv32, peers: bv32, mode: Mode): (r: Option<bv32>)
    ensures r.Some? ==> (r.value == CRYPTO_PLAIN || r.value == CRYPTO_RC4)
                        && ours & r.value == r.value && peers & r.value == r.value
  {
    var common := ours & peers;
    if common == 0 then None
    else
      match mode
      case Off => if common & CRYPTO_PLAIN != 0 then Some(CRYPTO_PLAIN) else None
      case PreferPlain =>
        if common & CRYPTO_PLAIN != 0 then Some(CRYPTO_PLAIN)
        else if common & CRYPTO_RC4 != 0 then Some(CRYPTO_RC4) else None
      case PreferRc4 =>
        if common & CRYPTO_RC4 != 0 then Some(CRYPTO_RC4)
        else if common & CRYPTO_PLAIN != 0 then Some(CRYPTO_PLAIN) else None
      case RequireRc4 => if common & CRYPTO_RC4 != 0 then Some(CRYPTO_RC4) else None
  }

  /** None is picked exactly when no cipher the mode accepts is common to both. */
  lemma RejectsExactly(ours: bv32, peers: bv32, mode: Mode)
    ensures SelectCrypto(ours, peers, mode).None?
       <==> (mode == RequireRc4 || ours & peers & CRYPTO_PLAIN == 0)
            && (mode == Off || ours & peers & CRYPTO_RC4 == 0)
    ensures mode == RequireRc4 ==> SelectCrypto(ours, peers, mode) != Some(CRYPTO_PLAIN)
    ensures mode == Off ==> SelectCrypto(ours, peers, mode) != Some(CRYPTO_RC4)
  {
    match mode
    case Off =>
    case PreferPlain =>
    case PreferRc4 =>
    case RequireRc4 =>
  }

  /** With plain (1) and RC4 (2) both common, each mode takes the one it prefers; with one
      common, that one if the mode accepts it. */
  lemma TakesThePreferred(ours: bv32, peers: bv32, mode: Mode)
    ensures var plain, rc4 := ours & peers & 1 != 0, ours & peers & 2 != 0;
            && (mode == PreferPlain && plain ==> SelectCrypto(ours, peers, mode) == Some(1))
            && (mode == PreferPlain && !plain && rc4 ==> SelectCrypto(ours, peers, mode) == Some(2))
            && (mode == PreferRc4 && rc4 ==> SelectCrypto(ours, peers, mode) == Some(2))
            && (mode == PreferRc4 && !rc4 && plain ==> SelectCrypto(ours, peers, mode) == Some(1))
            && (mode == RequireRc4 && rc4 ==> SelectCrypto(ours, peers, mode) == Some(2))
            && (mode == Off && plain ==> SelectCrypto(ours, peers, mode) == Some(1))
  {
    RejectsExactly(ours, peers, mode);
    match mode
    case Off =>
    case PreferPlain =>
    case PreferRc4 =>
    case RequireRc4 =>
  }

  /** Plain is offered unless RC4 is required, and RC4 unless encryption is off. */
  lemma OffersByMode(mode: Mode)
    ensures mode.ProvideBits() & 1 != 0 <==> mode != RequireRc4
    ensures mode.ProvideBits() & 2 != 0 <==> mode != Off
    ensures mode.ProvideBits() & !3 == 0
  {
    match mode
    case Off =>
    case PreferPlain =>
    case PreferRc4 =>
    case RequireRc4 =>
  }

  /** Any two modes that want encryption agree on a cipher, and a side that requires RC4
      gets it. */
  lemma PeModesAgree(initiator: Mode, receiver: Mode)
    requires initiator.WantsPe() && receiver.WantsPe()
    ensures var s := SelectCrypto(receiver.ProvideBits(), initiator.ProvideBits(), receiver);
            && s.Some?
            && (s.value == CRYPTO_PLAIN || s.value == CRYPTO_RC4)
            && initiator.ProvideBits() & s.value == s.value && receiver.ProvideBits() & s.value == s.value
            && (initiator == RequireRc4 || receiver == RequireRc4 ==> s.value == CRYPTO_RC4)
            && s.value == if receiver == PreferPlain && initiator != RequireRc4 then 1 else 2
  {}
}

/** Key derivation (`crates/engine/src/crypto/keys.rs`), over any hash with 20-byte output. */
module CryptoKeys {
  import opened Bits
  import opened Hashing
  import opened Rc4s

  const REQ1: seq<byte> := [0x72, 0x65, 0x71, 0x31]
  const REQ2: seq<byte> := [0x72, 0x65, 0x71, 0x32]
  const REQ3: seq<byte> := [0x72, 0x65, 0x71, 0x33]
  const KEY_A: seq<byte> := [0x6b, 0x65, 0x79, 0x41]
  const KEY_B: seq<byte> := [0x6b, 0x65, 0x79, 0x42]

  function HashReq1(sha1: Sha1, secret: seq<byte>): Digest {
    sha1(REQ1 + secret)
  }

  function HashReq2(sha1: Sha1, skey: seq<byte>): Digest {
    sha1(REQ2 + skey)
  }

  function HashReq3(sha1: Sha1, secret: seq<byte>): Digest {
    sha1(REQ3 + secret)
  }

  function StreamA(sha1: Sha1, secret: seq<byte>, skey: seq<byte>): Cipher {
    KeyedMse(sha1(KEY_A + secret + skey))
  }

  function StreamB(sha1: Sha1, secret: seq<byte>, skey: seq<byte>): Cipher {
    KeyedMse(sha1(KEY_B + secret + skey))
  }

  /** Bytewise XOR of two digests. */
  function XorDigest(a: Digest, b: Digest): Digest {
    seq(20, i requires 0 <= i < 20 => a[i] ^ b[i])
  }

  /** `obfuscated_hash`. */
  method ObfuscatedHash(sha1: Sha1, secret: seq<byte>, skey: seq<byte>) returns (out: Digest)
    ensures out == XorDigest(HashReq2(sha1, skey), HashReq3(sha1, secret))
    ensures forall k :: 0 <= k < 20 ==>
              out[k] == sha1([0x72, 0x65, 0x71, 0x32] + skey)[k] ^ sha1([0x72, 0x65, 0x71, 0x33] + secret)[k]
  {
    out := XorLoop(HashReq2(sha1, skey), HashReq3(sha1, secret));
  }

  /** `deobfuscate_req2`. */
  method DeobfuscateReq2(sha1: Sha1, secret: seq<byte>, obfuscated: Digest) returns (out: Digest)
    ensures out == XorDigest(obfuscated, HashReq3(sha1, secret))
    ensures forall k :: 0 <= k < 20 ==> out[k] == obfuscated[k] ^ sha1([0x72, 0x65, 0x71, 0x33] + secret)[k]
  {
    out := XorLoop(obfuscated, HashReq3(sha1, secret));
  }

  method XorLoop(a: Digest, b: Digest) returns (out: Digest)
    ensures out == XorDigest(a, b)
  {
    var r := new byte[20](_ => 0);
    for i := 0 to 20
      invariant forall k :: 0 <= k < i ==> r[k] == a[k] ^ b[k]
    {
      r[i] := a[i] ^ b[i];
    }
    out := r[..];
  }

  /** XOR with the same digest undoes itself, and tells any two digests apart: a hidden
      identity matches exactly the identity that was hidden. */
  lemma DeobfuscateBack(a: Digest, b: Digest, c: Digest)
    ensures XorDigest(XorDigest(a, c), c) == a
    ensures XorDigest(XorDigest(a, c), c) == b <==> a == b
  {
    forall i | 0 <= i < 20 ensures XorDigest(XorDigest(a, c), c)[i] == a[i] {
      XorTwice(a[i], c[i]);
    }
  }
}
