/** The message stream encryption handshake, both directions
    (`crates/engine/src/crypto/mse.rs`). Random bytes are parameters. */
module Mse {
  import opened Wrappers
  import opened Bits
  import opened BigEndian
  import opened Hashing
  import opened Rc4s
  import opened CryptoConfig
  import opened CryptoKeys
  import Dh

  const VC: seq<byte> := [0, 0, 0, 0, 0, 0, 0, 0]
  const MAX_PAD_B: nat := 512
  const MSE_RESP_HDR: nat := 14

  datatype MseError =
    | Req1NotFound | Truncated | SkeyMismatch | DecryptShort | VcMismatch | PadCOverflow | IaOverflow
    | CommitMismatch | VcNotFound
    | ModeOff | BadPublicKey | CryptoRejected | ResponseIncomplete

  // ---------------------------------------------------------------- initiator to receiver

  /** What the initiator encrypts: VC, offered ciphers, padC and the initial payload. */
  function SyncInner(provide: bv32, padC: seq<byte>, ia: seq<byte>): seq<byte> {
    VC + U32Bytes(provide) + U16Bytes(|padC|) + padC + U16Bytes(|ia|) + ia
  }

  /** The initiator's second flight. */
  function Sync(sha1: Sha1, secret: seq<byte>, skey: seq<byte>, inner: seq<byte>): seq<byte> {
    HashReq1(sha1, secret) + XorDigest(HashReq2(sha1, skey), HashReq3(sha1, secret))
    + Crypt(StreamA(sha1, secret, skey), inner)
  }

  /** The second flight byte by byte: the hash of "req1" and the secret, the identity hidden in
      the hash of "req3", and under "keyA" what the initiator encrypts. */
  lemma SyncLayout(sha1: Sha1, secret: seq<byte>, skey: seq<byte>, inner: seq<byte>)
    ensures var s := Sync(sha1, secret, skey, inner);
            && |s| == 40 + |inner| && s[..20] == sha1([0x72, 0x65, 0x71, 0x31] + secret)
            && (forall k :: 0 <= k < 20 ==>
                  s[20 + k] == sha1([0x72, 0x65, 0x71, 0x32] + skey)[k] ^ sha1([0x72, 0x65, 0x71, 0x33] + secret)[k])
            && s[40..] == Crypt(KeyedMse(sha1([0x6b, 0x65, 0x79, 0x41] + secret + skey)), inner)
  {
    hide Crypt, KeyedMse;
  }

  /** Both inner parts on an example: offers 3, one byte of padC, a payload of two; the choice
      2 and one byte of padD. */
  lemma InnerBytes()
    ensures SyncInner(3, [9], [7, 6]) == [0, 0, 0, 0, 0, 0, 0, 0, 0, 0, 0, 3, 0, 1, 9, 0, 2, 7, 6]
    ensures RespInner(2, [5]) == [0, 0, 0, 0, 0, 0, 0, 0, 0, 0, 0, 2, 0, 1, 5]
  {
    ShortLengths();
    assert U32Bytes(3) == [0, 0, 0, 3] && U32Bytes(2) == [0, 0, 0, 2];
    hide U32Bytes, U16Bytes;
  }

  lemma ShortLengths()
    ensures U16Bytes(1) == [0, 1] && U16Bytes(2) == [0, 2]
  {}

  /** `initiator_build_sync`. */
  method InitiatorBuildSync(sha1: Sha1, secret: seq<byte>, skey: seq<byte>, provide: bv32, ia: seq<byte>)
    returns (out: seq<byte>, enc: Rc4, dec: Rc4)
    ensures enc.Valid() && dec.Valid() && fresh(enc) && fresh(enc.s) && fresh(dec) && fresh(dec.s)
    ensures enc != dec && enc.s != dec.s
    ensures out == Sync(sha1, secret, skey, SyncInner(provide, [], ia))
    ensures enc.Now() == Advance(StreamA(sha1, secret, skey), 16 + |ia|)
    ensures dec.Now() == StreamB(sha1, secret, skey)
  {
    hide Advance, Crypt, Keyed, XorDigest;
    enc := new Rc4.Mse(sha1(KEY_A + secret + skey));
    dec := new Rc4.Mse(sha1(KEY_B + secret + skey));
    var inner := VC;
    inner := inner + U32Bytes(provide);
    inner := inner + U16Bytes(0);
    inner := inner + U16Bytes(|ia|);
    inner := inner + ia;
    assert inner == SyncInner(provide, [], ia);
    var hidden := enc.CryptBytes(inner);
    var obfuscated := ObfuscatedHash(sha1, secret, skey);
    out := HashReq1(sha1, secret) + obfuscated + hidden;
  }

  predicate MatchesAt(hay: seq<byte>, needle: seq<byte>, p: nat) {
    p + |needle| <= |hay| && hay[p..p + |needle|] == needle
  }

  /** The first match at or after `p`. */
  function FindFrom(hay: seq<byte>, needle: seq<byte>, p: nat): (r: Option<nat>)
    ensures r.Some? ==> p <= r.value && MatchesAt(hay, needle, r.value)
                        && forall q: nat :: p <= q < r.value ==> !MatchesAt(hay, needle, q)
    ensures r.None? ==> forall q: nat :: p <= q ==> !MatchesAt(hay, needle, q)
    decreases |hay| - p
  {
    if p + |needle| > |hay| then None
    else if MatchesAt(hay, needle, p) then Some(p)
    else if p < |hay| then FindFrom(hay, needle, p + 1) else None
  }

  /** `find_slice`. */
  method FindSlice(hay: seq<byte>, needle: seq<byte>) returns (r: Option<nat>)
    requires needle != []
    ensures r == FindFrom(hay, needle, 0)
  {
    var p := 0;
    while p + |needle| <= |hay|
      invariant p <= |hay|
      invariant FindFrom(hay, needle, 0) == FindFrom(hay, needle, p)
      decreases |hay| - p
    {
      if hay[p..p + |needle|] == needle {
        return Some(p);
      }
      p := p + 1;
    }
    return None;
  }

  /** What the receiver learns, and how much of the stream it decrypted. */
  datatype Hello = Hello(provide: bv32, ia: seq<byte>, decrypted: nat)

  function ParseInner(plain: seq<byte>): (r: Result<Hello, MseError>)
    ensures r.Ok? ==> r.value.decrypted == |plain|
    ensures |plain| >= 16 ==> r != Err(DecryptShort)
  {
    if |plain| < 16 then Err(DecryptShort)
    else if plain[..8] != VC then Err(VcMismatch)
    else
      var o := 14 + U16Of(plain[12..14]);
      if |plain| < o + 2 then Err(PadCOverflow)
      else
        var iaLen := U16Of(plain[o..o + 2]);
        if |plain| < o + 2 + iaLen then Err(IaOverflow)
        else Ok(Hello(U32Of(plain[8..12]), plain[o + 2..o + 2 + iaLen], |plain|))
  }

  function Parse(sha1: Sha1, secret: seq<byte>, skey: seq<byte>, buf: seq<byte>): (r: Result<Hello, MseError>)
    ensures r != Err(DecryptShort)
  {
    var pos := FindFrom(buf, HashReq1(sha1, secret), 0);
    if pos.None? then Err(Req1NotFound)
    else
      var base := pos.value + 20;
      if |buf| < base + 20 + 16 then Err(Truncated)
      else if XorDigest(buf[base..base + 20], HashReq3(sha1, secret)) != HashReq2(sha1, skey) then Err(SkeyMismatch)
      else ParseInner(Crypt(StreamA(sha1, secret, skey), buf[base + 20..]))
  }

  /** `receiver_parse_initiator`. */
  method ReceiverParseInitiator(sha1: Sha1, secret: seq<byte>, skey: seq<byte>, buf: seq<byte>)
    returns (r: Result<Hello, MseError>, dec: Rc4, enc: Rc4)
    ensures r == Parse(sha1, secret, skey, buf)
    ensures dec.Valid() && enc.Valid() && fresh(dec) && fresh(dec.s) && fresh(enc) && fresh(enc.s)
    ensures dec != enc && dec.s != enc.s
    ensures r.Ok? ==> dec.Now() == Advance(StreamA(sha1, secret, skey), r.value.decrypted)
    ensures r.Ok? ==> enc.Now() == StreamB(sha1, secret, skey)
  {
    hide Advance, Crypt, Keyed, XorDigest, FindFrom, MatchesAt, ParseInner;
    dec := new Rc4.Mse(sha1(KEY_A + secret + skey));
    enc := new Rc4.Mse(sha1(KEY_B + secret + skey));
    var pos := FindSlice(buf, HashReq1(sha1, secret));
    if pos.None? {
      return Err(Req1NotFound), dec, enc;
    }
    var base := pos.value + 20;
    if |buf| < base + 20 + 8 + 4 + 2 + 2 {
      return Err(Truncated), dec, enc;
    }
    var gotReq2 := DeobfuscateReq2(sha1, secret, buf[base..base + 20]);
    if gotReq2 != HashReq2(sha1, skey) {
      return Err(SkeyMismatch), dec, enc;
    }
    var plain := dec.CryptBytes(buf[base + 20..]);
    r := ParsePlain(plain);
  }

  /** The decrypted half of `receiver_parse_initiator`. */
  method ParsePlain(plain: seq<byte>) returns (r: Result<Hello, MseError>)
    ensures r == ParseInner(plain)
  {
    hide U32Of, U16Of;
    if |plain| < 8 + 4 + 2 + 2 {
      return Err(DecryptShort);
    }
    if plain[..8] != VC {
      return Err(VcMismatch);
    }
    var provide := U32Of(plain[8..12]);
    var padC := U16Of(plain[12..14]);
    var o := 14 + padC;
    if |plain| < o + 2 {
      return Err(PadCOverflow);
    }
    var iaLen := U16Of(plain[o..o + 2]);
    o := o + 2;
    if |plain| < o + iaLen {
      return Err(IaOverflow);
    }
    return Ok(Hello(provide, plain[o..o + iaLen], |plain|));
  }

  lemma InnerSlices(provide: bv32, padC: seq<byte>, ia: seq<byte>)
    ensures var s := SyncInner(provide, padC, ia); var o := 14 + |padC|;
            && |s| == o + 2 + |ia| && s[..8] == VC && s[8..12] == U32Bytes(provide)
            && s[12..14] == U16Bytes(|padC|) && s[o..o + 2] == U16Bytes(|ia|) && s[o + 2..] == ia
  {
    hide U32Bytes, U16Bytes;
    var s, o := SyncInner(provide, padC, ia), 14 + |padC|;
    assert s[8..12] == U32Bytes(provide);
    assert s[12..14] == U16Bytes(|padC|);
    assert s[o..o + 2] == U16Bytes(|ia|);
    assert s[o + 2..] == ia;
  }

  lemma FrontSlice(s: seq<byte>, tail: seq<byte>, a: nat, b: nat)
    requires a <= b <= |s|
    ensures (s + tail)[a..b] == s[a..b]
  {}

  /** The payload length goes out as 16 bits, so what comes back is the payload cut to its
      length modulo 65536: the whole payload exactly when it is shorter than that. Bytes that
      arrived behind it are decrypted with the rest, and are not in the result. */
  lemma ParseInnerBack(provide: bv32, padC: seq<byte>, ia: seq<byte>, tail: seq<byte>)
    requires |padC| < 65536
    ensures ParseInner(SyncInner(provide, padC, ia) + tail)
         == Ok(Hello(provide, ia[..|ia| % 65536], 16 + |padC| + |ia| + |tail|))
  {
    hide SyncInner, U32Bytes, U32Of, U16Bytes, U16Of;
    InnerSlices(provide, padC, ia);
    U32Back(provide);
    U16Back(|padC|);
    U16Back(|ia|);
    var s, o := SyncInner(provide, padC, ia), 14 + |padC|;
    FrontSlice(s, tail, 0, 8);
    FrontSlice(s, tail, 8, 12);
    FrontSlice(s, tail, 12, 14);
    FrontSlice(s, tail, o, o + 2);
    FrontSlice(s, tail, o + 2, o + 2 + |ia| % 65536);
    SliceSplit(s, o + 2, |ia| % 65536);
  }

  lemma SliceSplit(s: seq<byte>, o: nat, n: nat)
    requires o + n <= |s|
    ensures s[o..o + n] == s[o..][..n]
  {}

  lemma SyncSlices(sha1: Sha1, secret: seq<byte>, skey: seq<byte>, padA: seq<byte>, inner: seq<byte>, suffix: seq<byte>)
    ensures var buf := padA + Sync(sha1, secret, skey, inner) + suffix; var base := |padA| + 20;
            && |buf| == base + 20 + |inner| + |suffix|
            && buf[|padA|..base] == HashReq1(sha1, secret)
            && buf[base..base + 20] == XorDigest(HashReq2(sha1, skey), HashReq3(sha1, secret))
            && buf[base + 20..] == Crypt(StreamA(sha1, secret, skey), inner) + suffix
  {
    hide HashReq1, HashReq2, HashReq3, XorDigest, StreamA;
    var c := Crypt(StreamA(sha1, secret, skey), inner);
    hide Crypt;
    var buf, base := padA + Sync(sha1, secret, skey, inner) + suffix, |padA| + 20;
    assert buf[|padA|..base] == HashReq1(sha1, secret);
    assert buf[base..base + 20] == XorDigest(HashReq2(sha1, skey), HashReq3(sha1, secret));
    assert buf[base + 20..] == c + suffix;
  }

  /** The receiver gets what the initiator sent behind any padA in which req1 does not occur
      by accident, whatever arrived behind it; its stream then stands behind all of that. With
      another torrent's key it refuses, unless the two identities hash alike. */
  lemma ParseOfSync(sha1: Sha1, secret: seq<byte>, skey: seq<byte>, theirs: seq<byte>, padA: seq<byte>,
                    provide: bv32, padC: seq<byte>, ia: seq<byte>, suffix: seq<byte>)
    requires |padC| < 65536
    requires var buf := padA + Sync(sha1, secret, skey, SyncInner(provide, padC, ia)) + suffix;
             forall p: nat :: p < |padA| ==> !MatchesAt(buf, HashReq1(sha1, secret), p)
    ensures var inner := SyncInner(provide, padC, ia);
            var buf := padA + Sync(sha1, secret, skey, inner) + suffix;
            && Parse(sha1, secret, skey, buf) == Ok(Hello(provide, ia[..|ia| % 65536], |inner| + |suffix|))
            && (HashReq2(sha1, theirs) != HashReq2(sha1, skey) ==>
                  Parse(sha1, secret, theirs, buf) == Err(SkeyMismatch))
  {
    var inner := SyncInner(provide, padC, ia);
    var buf, req1 := padA + Sync(sha1, secret, skey, inner) + suffix, HashReq1(sha1, secret);
    SyncSlices(sha1, secret, skey, padA, inner, suffix);
    InnerSlices(provide, padC, ia);
    hide SyncInner, Sync, Crypt, HashReq1, HashReq2, HashReq3, StreamA, XorDigest, ParseInner, Rc4s.Advance;
    assert MatchesAt(buf, req1, |padA|);
    var pos := FindFrom(buf, req1, 0);
    hide MatchesAt, FindFrom;
    assert pos == Some(|padA|);
    DeobfuscateBack(HashReq2(sha1, skey), HashReq2(sha1, theirs), HashReq3(sha1, secret));
    var st := StreamA(sha1, secret, skey);
    CryptTwice(st, inner);
    CryptAppend(st, Crypt(st, inner), suffix);
    ParseInnerBack(provide, padC, ia, Crypt(Rc4s.Advance(st, |Crypt(st, inner)|), suffix));
  }

  /** An initiator that goes on sending before the answer: the receiver's stream is level
      with the initiator's, but what was sent is in no payload. */
  lemma EagerBytesAreLost(sha1: Sha1, secret: seq<byte>, skey: seq<byte>, provide: bv32, ia: seq<byte>, more: seq<byte>)
    requires |ia| < 65536
    ensures var st := StreamA(sha1, secret, skey);
            var inner := SyncInner(provide, [], ia);
            var wire := Sync(sha1, secret, skey, inner) + Crypt(Rc4s.Advance(st, |inner|), more);
            var hello := Parse(sha1, secret, skey, wire);
            && hello == Ok(Hello(provide, ia, |inner + more|))
            && Rc4s.Advance(st, hello.value.decrypted) == Rc4s.Advance(Rc4s.Advance(st, |inner|), |more|)
  {
    hide Sync, SyncInner, StreamA, Crypt, Parse, MatchesAt, Rc4s.Advance;
    var st := StreamA(sha1, secret, skey);
    var inner := SyncInner(provide, [], ia);
    var late := Crypt(Rc4s.Advance(st, |inner|), more);
    CryptLength(Rc4s.Advance(st, |inner|), more);
    assert [] + Sync(sha1, secret, skey, inner) == Sync(sha1, secret, skey, inner);
    ParseOfSync(sha1, secret, skey, skey, [], provide, [], ia, late);
    assert ia[..|ia| % 65536] == ia;
    AdvanceAdd(st, |inner|, |more|);
  }

  lemma CryptLength(st: Cipher, data: seq<byte>)
    ensures |Crypt(st, data)| == |data|
  {}

  // ---------------------------------------------------------------- receiver to initiator

  function RespInner(select: bv32, padD: seq<byte>): seq<byte> {
    VC + U32Bytes(select) + U16Bytes(|padD|) + padD
  }

  /** `receiver_build_response`. */
  method ReceiverBuildResponse(enc: Rc4, select: bv32) returns (out: seq<byte>)
    requires enc.Valid()
    modifies enc, enc.s
    ensures enc.Valid() && out == Crypt(old(enc.Now()), RespInner(select, []))
    ensures |out| == MSE_RESP_HDR && enc.Now() == Advance(old(enc.Now()), MSE_RESP_HDR)
  {
    hide Advance, Crypt;
    var inner := VC;
    inner := inner + U32Bytes(select);
    inner := inner + U16Bytes(0);
    assert inner == RespInner(select, []);
    out := enc.CryptBytes(inner);
  }

  datatype Scan = Found(select: bv32, consumed: nat) | NeedMore

  function HeaderAt(st: Cipher, buf: seq<byte>, off: nat): (r: seq<byte>)
    requires off + MSE_RESP_HDR <= |buf|
    ensures |r| == MSE_RESP_HDR
  {
    Crypt(st, buf[off..off + MSE_RESP_HDR])
  }

  /** The response header decrypts to a VC at `off`. */
  predicate VcAt(st: Cipher, buf: seq<byte>, off: nat) {
    off + MSE_RESP_HDR <= |buf| && HeaderAt(st, buf, off)[..8] == VC
  }

  function PadDAt(st: Cipher, buf: seq<byte>, off: nat): nat
    requires off + MSE_RESP_HDR <= |buf|
  {
    U16Of(HeaderAt(st, buf, off)[12..14])
  }

  predicate CandidateAt(st: Cipher, buf: seq<byte>, off: nat) {
    VcAt(st, buf, off) && PadDAt(st, buf, off) <= MAX_PAD_B
  }

  predicate CompleteAt(st: Cipher, buf: seq<byte>, off: nat) {
    CandidateAt(st, buf, off) && off + MSE_RESP_HDR + PadDAt(st, buf, off) <= |buf|
  }

  function MaxOff(buf: seq<byte>): nat
    requires |buf| >= MSE_RESP_HDR
  {
    if |buf| - MSE_RESP_HDR < MAX_PAD_B then |buf| - MSE_RESP_HDR else MAX_PAD_B
  }

  function ScanFrom(st: Cipher, buf: seq<byte>, off: nat, saw: bool): Result<Scan, MseError>
    requires |buf| >= MSE_RESP_HDR && off <= MaxOff(buf) + 1
    decreases MaxOff(buf) + 1 - off
  {
    if off > MaxOff(buf) then
      if saw || |buf| < MAX_PAD_B + MSE_RESP_HDR then Ok(NeedMore) else Err(VcNotFound)
    else if CompleteAt(st, buf, off) then
      Ok(Found(U32Of(HeaderAt(st, buf, off)[8..12]), off + MSE_RESP_HDR + PadDAt(st, buf, off)))
    else ScanFrom(st, buf, off + 1, saw || CandidateAt(st, buf, off))
  }

  /** The scan of a buffer with an untouched decrypt stream. */
  function ScanOf(st: Cipher, buf: seq<byte>): Result<Scan, MseError> {
    if |buf| < MSE_RESP_HDR then Ok(NeedMore) else ScanFrom(st, buf, 0, false)
  }

  /** How far a scan advances the decrypt stream: through header and padD of the match. */
  function ScanAdvance(st: Cipher, buf: seq<byte>, off: nat): nat
    requires off + MSE_RESP_HDR <= |buf|
  {
    MSE_RESP_HDR + PadDAt(st, buf, off)
  }

  /** `initiator_scan_response`. The stream moves only on a match, by exactly the matched
      header and padD, and the commit check after the match never fails. */
  method InitiatorScanResponse(dec: Rc4, buf: seq<byte>) returns (r: Result<Scan, MseError>, ghost at: nat)
    requires dec.Valid()
    modifies dec, dec.s
    ensures dec.Valid() && r == ScanOf(old(dec.Now()), buf)
    ensures r.Ok? && r.value.Found? ==>
              && CompleteAt(old(dec.Now()), buf, at)
              && r.value.consumed == at + ScanAdvance(old(dec.Now()), buf, at)
              && dec.Now() == Advance(old(dec.Now()), ScanAdvance(old(dec.Now()), buf, at))
    ensures !(r.Ok? && r.value.Found?) ==> dec.Now() == old(dec.Now())
    ensures r != Err(CommitMismatch)
  {
    hide Advance, Crypt, U16Of, U32Of;
    ghost var st := dec.Now();
    at := 0;
    if |buf| < MSE_RESP_HDR {
      return Ok(NeedMore), at;
    }
    var maxOff := MaxOff(buf);
    var saw := false;
    var off := 0;
    while off <= maxOff
      invariant 0 <= off <= maxOff + 1 && dec.Valid() && dec.Now() == st
      invariant ScanOf(st, buf) == ScanFrom(st, buf, off, saw)
      decreases maxOff + 1 - off
    {
      var hdr := TrialHeader(dec, buf, off);
      var padD := U16Of(hdr[12..14]);
      if hdr[..8] == VC && padD <= MAX_PAD_B {
        var need := off + MSE_RESP_HDR + padD;
        if |buf| < need {
          saw := true;
        } else {
          at := off;
          var commit := dec.CryptBytes(buf[off..need]);
          CommitAgrees(st, buf, off, need);
          if commit[..8] != VC {
            return Err(CommitMismatch), at;
          }
          return Ok(Found(U32Of(hdr[8..12]), need)), at;
        }
      }
      off := off + 1;
    }
    if saw || |buf| < MAX_PAD_B + MSE_RESP_HDR {
      return Ok(NeedMore), at;
    }
    return Err(VcNotFound), at;
  }

  /** Decrypt a header on a copy of the stream. */
  method TrialHeader(dec: Rc4, buf: seq<byte>, off: nat) returns (hdr: seq<byte>)
    requires dec.Valid() && off + MSE_RESP_HDR <= |buf|
    ensures hdr == HeaderAt(dec.Now(), buf, off)
  {
    hide Advance, Crypt;
    var trial := new Rc4.Clone(dec);
    hdr := trial.CryptBytes(buf[off..off + MSE_RESP_HDR]);
  }

  lemma CommitAgrees(st: Cipher, buf: seq<byte>, off: nat, need: nat)
    requires off + MSE_RESP_HDR <= need <= |buf|
    ensures Crypt(st, buf[off..need])[..8] == HeaderAt(st, buf, off)[..8]
  {
    CryptPrefix(st, buf[off..need], MSE_RESP_HDR);
    hide Crypt;
    assert buf[off..need][..MSE_RESP_HDR] == buf[off..off + MSE_RESP_HDR];
    assert Crypt(st, buf[off..need])[..8] == Crypt(st, buf[off..need])[..MSE_RESP_HDR][..8];
  }

  /** The scan finds the first complete match, if there is one. */
  lemma {:induction false} ScanFinds(st: Cipher, buf: seq<byte>, off: nat, saw: bool, p: nat)
    requires |buf| >= MSE_RESP_HDR && off <= p <= MaxOff(buf) && CompleteAt(st, buf, p)
    requires forall q :: off <= q < p ==> !CompleteAt(st, buf, q)
    ensures ScanFrom(st, buf, off, saw)
         == Ok(Found(U32Of(HeaderAt(st, buf, p)[8..12]), p + MSE_RESP_HDR + PadDAt(st, buf, p)))
    decreases p - off
  {
    hide CompleteAt, CandidateAt, PadDAt, HeaderAt, U32Of;
    if off < p {
      ScanFinds(st, buf, off + 1, saw || CandidateAt(st, buf, off), p);
    }
  }

  /** Without a complete match it asks for more, as long as an incomplete one is in sight or
      the padding could still be going on. */
  lemma {:induction false} ScanWaits(st: Cipher, buf: seq<byte>, off: nat, saw: bool)
    requires |buf| >= MSE_RESP_HDR && off <= MaxOff(buf) + 1
    requires forall q :: off <= q <= MaxOff(buf) ==> !CompleteAt(st, buf, q)
    ensures ScanFrom(st, buf, off, saw)
         == if saw || |buf| < MAX_PAD_B + MSE_RESP_HDR || exists q :: off <= q <= MaxOff(buf) && CandidateAt(st, buf, q)
            then Ok(NeedMore) else Err(VcNotFound)
    decreases MaxOff(buf) + 1 - off
  {
    hide CompleteAt, CandidateAt;
    if off <= MaxOff(buf) {
      ScanWaits(st, buf, off + 1, saw || CandidateAt(st, buf, off));
    }
  }

  /** A window of the buffer that is not cut reads the same in any longer or shorter buffer. */
  lemma SameWindow(st: Cipher, a: seq<byte>, b: seq<byte>, off: nat)
    requires off + MSE_RESP_HDR <= |a| <= |b| && b[..|a|] == a
    ensures HeaderAt(st, a, off) == HeaderAt(st, b, off) && PadDAt(st, a, off) == PadDAt(st, b, off)
    ensures VcAt(st, a, off) <==> VcAt(st, b, off)
    ensures CandidateAt(st, a, off) <==> CandidateAt(st, b, off)
  {
    hide Crypt, U16Of;
    assert a[off..off + MSE_RESP_HDR] == b[..|a|][off..off + MSE_RESP_HDR] == b[off..off + MSE_RESP_HDR];
  }

  lemma RespSlices(select: bv32, padD: seq<byte>)
    ensures var s := RespInner(select, padD);
            |s| == MSE_RESP_HDR + |padD| && s[..8] == VC && s[8..12] == U32Bytes(select)
            && s[12..14] == U16Bytes(|padD|)
  {
    hide U32Bytes, U16Bytes;
    var s := RespInner(select, padD);
    assert s[8..12] == U32Bytes(select);
    assert s[12..14] == U16Bytes(|padD|);
  }

  /** The response decrypts where it starts. */
  lemma ResponseHeader(st: Cipher, padB: seq<byte>, select: bv32, padD: seq<byte>)
    requires |padD| <= MAX_PAD_B
    ensures var wire := padB + Crypt(st, RespInner(select, padD));
            && |wire| == |padB| + MSE_RESP_HDR + |padD| && CompleteAt(st, wire, |padB|)
            && U32Of(HeaderAt(st, wire, |padB|)[8..12]) == select && PadDAt(st, wire, |padB|) == |padD|
  {
    hide RespInner, U32Bytes, U16Bytes, U32Of, U16Of, Crypt;
    RespSlices(select, padD);
    U32Back(select);
    U16Back(|padD|);
    var inner := RespInner(select, padD);
    var c := Crypt(st, inner);
    CryptTwice(st, inner);
    HeaderOfTail(st, padB, c);
    var h := HeaderAt(st, padB + c, |padB|);
    assert h == inner[..MSE_RESP_HDR];
    HeaderFields(inner);
  }

  lemma HeaderOfTail(st: Cipher, padB: seq<byte>, c: seq<byte>)
    requires |c| >= MSE_RESP_HDR
    ensures HeaderAt(st, padB + c, |padB|) == Crypt(st, c)[..MSE_RESP_HDR]
  {
    CryptPrefix(st, c, MSE_RESP_HDR);
    hide Crypt;
    assert (padB + c)[|padB|..|padB| + MSE_RESP_HDR] == c[..MSE_RESP_HDR];
  }

  lemma HeaderFields(inner: seq<byte>)
    requires |inner| >= MSE_RESP_HDR
    ensures var h := inner[..MSE_RESP_HDR];
            h[..8] == inner[..8] && h[8..12] == inner[8..12] && h[12..14] == inner[12..14]
  {}

  /** No window but the right one decrypts to a VC by accident. */
  ghost predicate NoAccident(st: Cipher, wire: seq<byte>, at: nat) {
    forall off: nat :: off <= MAX_PAD_B && off != at ==> !VcAt(st, wire, off)
  }

  /** PadB, then the encrypted response, arriving bit by bit: every proper prefix asks for
      more, the whole is found with its exact length, whatever payload follows. */
  lemma GrowingPrefixes(st: Cipher, padB: seq<byte>, select: bv32, padD: seq<byte>, n: nat, payload: seq<byte>)
    requires |padB| <= MAX_PAD_B && |padD| <= MAX_PAD_B
    requires NoAccident(st, padB + Crypt(st, RespInner(select, padD)), |padB|)
    requires n < |padB| + MSE_RESP_HDR + |padD|
    ensures var wire := padB + Crypt(st, RespInner(select, padD));
            && |wire| == |padB| + MSE_RESP_HDR + |padD|
            && ScanOf(st, wire[..n]) == Ok(NeedMore)
            && ScanOf(st, wire + payload) == Ok(Found(select, |wire|))
            && CompleteAt(st, wire + payload, |padB|)
            && ScanAdvance(st, wire + payload, |padB|) == MSE_RESP_HDR + |padD|
  {
    ResponseHeader(st, padB, select, padD);
    var wire := padB + Crypt(st, RespInner(select, padD));
    hide Crypt, RespInner, U32Of;
    PrefixWaits(st, wire, |padB|, n);
    WholeFound(st, wire, |padB|, payload);
  }

  lemma PrefixWaits(st: Cipher, wire: seq<byte>, at: nat, n: nat)
    requires at <= MAX_PAD_B && NoAccident(st, wire, at) && CompleteAt(st, wire, at)
    requires n < |wire| == at + MSE_RESP_HDR + PadDAt(st, wire, at)
    ensures ScanOf(st, wire[..n]) == Ok(NeedMore)
  {
    hide HeaderAt, PadDAt;
    var buf := wire[..n];
    assert wire[..|buf|] == buf;
    if n >= MSE_RESP_HDR {
      forall q: nat | q <= MaxOff(buf) ensures !CompleteAt(st, buf, q) {
        SameWindow(st, buf, wire, q);
      }
      if n >= MAX_PAD_B + MSE_RESP_HDR {
        SameWindow(st, buf, wire, at);
        assert CandidateAt(st, buf, at);
      }
      ScanWaits(st, buf, 0, false);
    }
  }

  lemma WholeFound(st: Cipher, wire: seq<byte>, at: nat, payload: seq<byte>)
    requires at <= MAX_PAD_B && NoAccident(st, wire, at) && CompleteAt(st, wire, at)
    requires |wire| == at + MSE_RESP_HDR + PadDAt(st, wire, at)
    ensures CompleteAt(st, wire + payload, at)
    ensures PadDAt(st, wire + payload, at) == PadDAt(st, wire, at)
    ensures ScanOf(st, wire + payload) == Ok(Found(U32Of(HeaderAt(st, wire, at)[8..12]), |wire|))
  {
    hide HeaderAt, PadDAt, U32Of;
    var buf := wire + payload;
    assert buf[..|wire|] == wire;
    SameWindow(st, wire, buf, at);
    forall q: nat | q < at ensures !CompleteAt(st, buf, q) {
      SameWindow(st, wire, buf, q);
    }
    ScanFinds(st, buf, 0, false, at);
  }

  // ---------------------------------------------------------------- the whole handshake

  /** `MseSession`. */
  datatype Session = Session(cryptoSelect: bv32, encrypt: Rc4, decrypt: Rc4, rc4: bool)

  function ErrorOf<T>(r: Result<T, MseError>): MseError {
    match r case Ok(_) => ModeOff case Err(e) => e
  }

  /** `handshake_loopback`: between any two modes that want encryption it succeeds; both
      sides end with the same cipher, which both offered, and each side's encrypt stream is
      where the other's decrypt stream is. */
  method HandshakeLoopback(sha1: Sha1, rawI: seq<byte>, rawR: seq<byte>, skey: seq<byte>,
                           initiator: Mode, receiver: Mode)
    returns (r: Result<(Session, Session), MseError>, ghost secret: seq<byte>)
    requires |rawI| == 20 && |rawR| == 20
    ensures r.Ok? <==> initiator != Off && receiver != Off
    ensures r.Ok? ==>
              var (i, p) := r.value;
              && i.encrypt.Valid() && i.decrypt.Valid() && p.encrypt.Valid() && p.decrypt.Valid()
              && i.encrypt.Now() == p.decrypt.Now() && p.encrypt.Now() == i.decrypt.Now()
              && i.cryptoSelect == p.cryptoSelect && i.rc4 == p.rc4
              && i.rc4 == (i.cryptoSelect == CRYPTO_RC4)
              && (i.cryptoSelect == CRYPTO_PLAIN || i.cryptoSelect == CRYPTO_RC4)
              && initiator.ProvideBits() & i.cryptoSelect == i.cryptoSelect
              && receiver.ProvideBits() & i.cryptoSelect == i.cryptoSelect
              && (initiator == RequireRc4 || receiver == RequireRc4 ==> i.rc4)
              && i.cryptoSelect == if receiver == PreferPlain && initiator != RequireRc4 then 1 else 2
    ensures r.Ok? ==> FromBe(secret) == Dh.SharedNumber(rawI, rawR)
    ensures r.Ok? ==> KeyedApart(sha1, secret, skey, r.value.0, r.value.1)
  {
    hide Advance, Crypt, SelectCrypto, Sessions, FromBe, Dh.SharedNumber, KeyedBehind, StreamA, StreamB;
    if !initiator.WantsPe() || !receiver.WantsPe() {
      return Err(ModeOff), [];
    }
    var agreed := AgreeOnSecret(rawI, rawR);
    secret := agreed;
    r := Negotiate(sha1, agreed, skey, initiator, receiver);
    SessionsMean(initiator, receiver, r.value.0, r.value.1);
    StreamsByKey(sha1, secret, skey, 16);
    StreamsByKey(sha1, secret, skey, 14);
  }

  /** The stream of a key behind the 1024 bytes thrown away and `n` more. */
  ghost predicate KeyedBehind(st: Cipher, key: Digest, n: nat) {
    st == Advance(Keyed(key), 1024 + n)
  }

  /** The initiator sends under "keyA" and the receiver under "keyB". */
  lemma StreamsByKey(sha1: Sha1, secret: seq<byte>, skey: seq<byte>, n: nat)
    ensures KeyedBehind(Advance(StreamA(sha1, secret, skey), n), sha1([0x6b, 0x65, 0x79, 0x41] + secret + skey), n)
    ensures KeyedBehind(Advance(StreamB(sha1, secret, skey), n), sha1([0x6b, 0x65, 0x79, 0x42] + secret + skey), n)
  {
    hide Advance, Keyed;
    AdvanceAdd(Keyed(sha1([0x6b, 0x65, 0x79, 0x41] + secret + skey)), 1024, n);
    AdvanceAdd(Keyed(sha1([0x6b, 0x65, 0x79, 0x42] + secret + skey)), 1024, n);
  }

  /** The initiator sends under "keyA", the receiver under "keyB", each behind what the handshake
      took of its stream. */
  ghost predicate KeyedApart(sha1: Sha1, secret: seq<byte>, skey: seq<byte>, i: Session, p: Session)
    reads i.encrypt, i.encrypt.s, p.encrypt, p.encrypt.s
  {
    && i.encrypt.Valid() && p.encrypt.Valid()
    && KeyedBehind(i.encrypt.Now(), sha1([0x6b, 0x65, 0x79, 0x41] + secret + skey), 16)
    && KeyedBehind(p.encrypt.Now(), sha1([0x6b, 0x65, 0x79, 0x42] + secret + skey), 14)
  }

  /** The two ends of a finished handshake fit together. */
  ghost predicate Sessions(initiator: Mode, receiver: Mode, i: Session, p: Session)
    reads i.encrypt, i.encrypt.s, i.decrypt, i.decrypt.s, p.encrypt, p.encrypt.s, p.decrypt, p.decrypt.s
  {
    && i.encrypt.Valid() && i.decrypt.Valid() && p.encrypt.Valid() && p.decrypt.Valid()
    && i.encrypt.Now() == p.decrypt.Now() && p.encrypt.Now() == i.decrypt.Now()
    && SelectCrypto(receiver.ProvideBits(), initiator.ProvideBits(), receiver) == Some(i.cryptoSelect)
    && i.cryptoSelect == p.cryptoSelect && i.rc4 == p.rc4 == (i.cryptoSelect & CRYPTO_RC4 != 0)
  }

  lemma SessionsMean(initiator: Mode, receiver: Mode, i: Session, p: Session)
    requires initiator.WantsPe() && receiver.WantsPe() && Sessions(initiator, receiver, i, p)
    ensures i.encrypt.Valid() && i.decrypt.Valid() && p.encrypt.Valid() && p.decrypt.Valid()
    ensures i.encrypt.Now() == p.decrypt.Now() && p.encrypt.Now() == i.decrypt.Now()
    ensures i.cryptoSelect == p.cryptoSelect && i.rc4 == p.rc4 == (i.cryptoSelect == CRYPTO_RC4)
    ensures i.cryptoSelect == CRYPTO_PLAIN || i.cryptoSelect == CRYPTO_RC4
    ensures initiator.ProvideBits() & i.cryptoSelect == i.cryptoSelect
    ensures receiver.ProvideBits() & i.cryptoSelect == i.cryptoSelect
    ensures initiator == RequireRc4 || receiver == RequireRc4 ==> i.rc4
    ensures i.cryptoSelect == if receiver == PreferPlain && initiator != RequireRc4 then 1 else 2
  {
    PeModesAgree(initiator, receiver);
    hide SelectCrypto;
  }

  /** Both key pairs, both secrets, and the first assertion of the loopback. */
  method AgreeOnSecret(rawI: seq<byte>, rawR: seq<byte>) returns (secret: seq<byte>)
    requires |rawI| == 20 && |rawR| == 20
    ensures |secret| == Dh.DH_PUB_LEN && FromBe(secret) != 0
    ensures FromBe(secret) == Dh.SharedNumber(rawI, rawR)
  {
    hide Dh.Generate, Dh.KeyPair.PublicKeyBytes, Dh.KeyPair.ComputeSecret, FromBe, Dh.SharedNumber;
    var dhI, dhR := Dh.Generate(rawI), Dh.Generate(rawR);
    Dh.SecretsAgree(dhI, dhR, rawI, rawR);
    var sI := dhI.ComputeSecret(dhR.PublicKeyBytes());
    var sR := dhR.ComputeSecret(dhI.PublicKeyBytes());
    assert sI.value == sR.value;
    Dh.SecretValue(dhI, dhR, rawI, rawR, sI.value);
    return sI.value;
  }

  /** The exchange after the secret is agreed, with the second assertion of the loopback. */
  method Negotiate(sha1: Sha1, secret: seq<byte>, skey: seq<byte>, initiator: Mode, receiver: Mode)
    returns (r: Result<(Session, Session), MseError>)
    requires initiator.WantsPe() && receiver.WantsPe()
    ensures r.Ok? && Sessions(initiator, receiver, r.value.0, r.value.1)
    ensures r.value.0.encrypt.Now() == Advance(StreamA(sha1, secret, skey), 16)
    ensures r.value.1.encrypt.Now() == Advance(StreamB(sha1, secret, skey), 14)
  {
    hide Advance, Crypt, ScanOf, Sync, SyncInner, RespInner, StreamA, StreamB, Parse, MatchesAt, CompleteAt,
         ScanAdvance, SelectCrypto, Mode.ProvideBits;
    var provideI := initiator.ProvideBits();
    var sync, iEnc, iDec := InitiatorBuildSync(sha1, secret, skey, provideI, []);
    LoopbackParse(sha1, secret, skey, provideI);
    var hello, rDec, rEnc := ReceiverParseInitiator(sha1, secret, skey, sync);
    if hello.Err? {
      return Err(ErrorOf(hello));
    }
    PeModesAgree(initiator, receiver);
    var select := SelectCrypto(receiver.ProvideBits(), hello.value.provide, receiver);
    if select.None? {
      return Err(CryptoRejected);
    }
    LoopbackScan(iDec.Now(), select.value);
    var resp := ReceiverBuildResponse(rEnc, select.value);
    var found, at := InitiatorScanResponse(iDec, resp);
    if found.Err? {
      return Err(ErrorOf(found));
    }
    if found.value.NeedMore? {
      return Err(ResponseIncomplete);
    }
    assert select.value == found.value.select;
    var rc4 := select.value & CRYPTO_RC4 != 0;
    return Ok((Session(select.value, iEnc, iDec, rc4), Session(select.value, rEnc, rDec, rc4)));
  }

  /** The sync as the receiver parses it when nothing precedes it. */
  lemma LoopbackParse(sha1: Sha1, secret: seq<byte>, skey: seq<byte>, provide: bv32)
    ensures Parse(sha1, secret, skey, Sync(sha1, secret, skey, SyncInner(provide, [], [])))
         == Ok(Hello(provide, [], 16))
  {
    hide Parse, Sync, SyncInner, MatchesAt;
    var sync := Sync(sha1, secret, skey, SyncInner(provide, [], []));
    assert [] + sync + [] == sync;
    InnerSlices(provide, [], []);
    ParseOfSync(sha1, secret, skey, skey, [], provide, [], [], []);
  }

  /** A bare response is found at once, at its only possible offset. */
  lemma LoopbackScan(st: Cipher, select: bv32)
    ensures var resp := Crypt(st, RespInner(select, []));
            && ScanOf(st, resp) == Ok(Found(select, MSE_RESP_HDR))
            && forall at: nat :: CompleteAt(st, resp, at) ==> at == 0 && ScanAdvance(st, resp, at) == MSE_RESP_HDR
  {
    var resp := Crypt(st, RespInner(select, []));
    ResponseHeader(st, [], select, []);
    hide Crypt, RespInner, HeaderAt, U32Of;
    assert [] + resp == resp && resp + [] == resp;
    WholeFound(st, resp, 0, []);
  }
}
