/** A byte and its number. */
module Octets {
  lemma ByteOfNumber(v: nat)
    requires v < 256
    ensures (v as bv8) as int == v
  {}

  lemma NumberOfByte(x: bv8)
    ensures 0 <= x as int < 256 && (x as int) as bv8 == x
  {}
}

/** Big-endian numbers as byte strings. */
module BigEndian {
  import opened Bits
  import Octets

  /** `from_bytes_be`. */
  function FromBe(b: seq<byte>): nat {
    if b == [] then 0 else 256 * FromBe(b[..|b| - 1]) + b[|b| - 1] as int
  }

  /** `to_bytes_be` of a big integer: no leading zero, zero is one zero byte. */
  function MinimalBe(v: nat): (r: seq<byte>)
    ensures |r| >= 1
  {
    if v < 256 then [v as byte] else MinimalBe(v / 256) + [(v % 256) as byte]
  }

  function Power(base: nat, n: nat): nat {
    if n == 0 then 1 else base * Power(base, n - 1)
  }

  lemma PowerSteps(base: nat)
    ensures Power(base, 0) == 1 && Power(base, 1) == base && Power(2, 3) == 8 && Power(10, 2) == 100
  {
    assert Power(2, 2) == 4 && Power(10, 1) == 10;
  }

  /** The leading bytes are the higher digits. */
  lemma {:induction false} FromBeAppend(a: seq<byte>, b: seq<byte>)
    ensures FromBe(a + b) == FromBe(a) * Power(256, |b|) + FromBe(b)
  {
    if b == [] {
      assert a + b == a;
    } else {
      var init := b[..|b| - 1];
      FromBeAppend(a, init);
      assert (a + b)[..|a + b| - 1] == a + init;
      ShiftDigit(FromBe(a), Power(256, |init|), FromBe(init));
    }
  }

  lemma ShiftDigit(x: nat, p: nat, y: nat)
    ensures 256 * (x * p + y) == x * (256 * p) + 256 * y
  {}

  lemma FromBeOne(x: byte)
    ensures FromBe([x]) == x as int && FromBe([]) == 0
  {
    assert [x][..0] == [];
  }

  /** The byte order on the wire: highest first. */
  lemma HighestFirst()
    ensures U32Bytes(0x01020304) == [1, 2, 3, 4] && U32Of([1, 2, 3, 4]) == 0x01020304
    ensures U16Bytes(0x0102) == [1, 2] && U16Of([1, 2]) == 0x0102 && U16Bytes(0) == [0, 0]
  {
    assert (1 as byte) as int == 1 && (2 as byte) as int == 2;
  }

  lemma {:induction false} FromBeBound(b: seq<byte>)
    ensures FromBe(b) < Power(256, |b|)
  {
    if b != [] {
      FromBeBound(b[..|b| - 1]);
    }
  }

  lemma {:induction false} MinimalBack(v: nat)
    ensures FromBe(MinimalBe(v)) == v
  {
    if v < 256 {
      Octets.ByteOfNumber(v);
      assert [v as byte][..0] == [];
    } else {
      MinimalBack(v / 256);
      Octets.ByteOfNumber(v % 256);
      assert (MinimalBe(v / 256) + [(v % 256) as byte])[..|MinimalBe(v / 256)|] == MinimalBe(v / 256);
    }
  }

  lemma {:induction false} MinimalFits(v: nat, len: nat)
    requires v < Power(256, len) && len > 0
    ensures |MinimalBe(v)| <= len
  {
    if v >= 256 {
      MinimalFits(v / 256, len - 1);
    }
  }

  lemma {:induction false} LeadingZeros(k: nat, b: seq<byte>)
    ensures FromBe(seq(k, _ => 0) + b) == FromBe(b)
    decreases |b|, k
  {
    var z := seq(k, _ => 0 as byte);
    if b != [] {
      LeadingZeros(k, b[..|b| - 1]);
      assert (z + b)[..|z + b| - 1] == z + b[..|b| - 1];
    } else if k > 0 {
      LeadingZeros(k - 1, []);
      assert z + b == z;
      assert z[..k - 1] == seq(k - 1, _ => 0 as byte) + [];
    } else {
      assert z + b == [];
    }
  }

  /** The low `k` bytes of a number. */
  function LowBytes(v: nat, k: nat): (r: seq<byte>)
    ensures |r| == k
  {
    if k == 0 then [] else LowBytes(v / 256, k - 1) + [(v % 256) as byte]
  }

  lemma {:induction false} LowBytesBack(v: nat, k: nat)
    ensures Power(256, k) > 0 && FromBe(LowBytes(v, k)) == v % Power(256, k)
  {
    if k > 0 {
      LowBytesBack(v / 256, k - 1);
      Octets.ByteOfNumber(v % 256);
      assert LowBytes(v, k)[..k - 1] == LowBytes(v / 256, k - 1);
      LowDigits(v, Power(256, k - 1));
    }
  }

  lemma LowDigits(v: nat, p: nat)
    requires p > 0
    ensures 256 * (v / 256 % p) + v % 256 == v % (256 * p)
  {
    var q, r := v / 256 / p, v / 256 % p;
    assert v / 256 == q * p + r;
    var low := 256 * r + v % 256;
    assert low < 256 * p;
    assert v == 256 * (q * p + r) + v % 256;
    ModUnique(v, 256 * p, q, low);
  }

  lemma ModUnique(a: nat, b: nat, q: nat, r: nat)
    requires r < b && a == q * b + r
    ensures a % b == r
  {
    var e := q - a / b;
    assert a == a / b * b + a % b;
    assert e * b == a % b - r;
    Multiple(e, b);
  }

  lemma Multiple(e: int, b: nat)
    ensures e > 0 ==> e * b >= b
    ensures e < 0 ==> e * b + b <= 0
  {}

  // ---------------------------------------------------------------- machine words

  function U32Bytes(x: bv32): (r: seq<byte>)
    ensures |r| == 4
  {
    [((x >> 24) & 0xff) as byte, ((x >> 16) & 0xff) as byte, ((x >> 8) & 0xff) as byte, (x & 0xff) as byte]
  }

  function U32Of(b: seq<byte>): bv32
    requires |b| == 4
  {
    ((b[0] as bv32) << 24) | ((b[1] as bv32) << 16) | ((b[2] as bv32) << 8) | (b[3] as bv32)
  }

  lemma U32Back(x: bv32)
    ensures U32Of(U32Bytes(x)) == x
  {}

  /** A u16 as two bytes; larger lengths are cut as a cast cuts them. */
  function U16Bytes(n: nat): (r: seq<byte>)
    ensures |r| == 2
  {
    [((n / 256) % 256) as byte, (n % 256) as byte]
  }

  function U16Of(b: seq<byte>): (r: nat)
    requires |b| == 2
    ensures r < 65536
  {
    Octets.NumberOfByte(b[0]);
    Octets.NumberOfByte(b[1]);
    256 * (b[0] as int) + b[1] as int
  }

  lemma U16Digits(n: nat)
    ensures 256 * ((n / 256) % 256) + n % 256 == n % 65536
  {}

  lemma U16Back(n: nat)
    ensures U16Of(U16Bytes(n)) == n % 65536
  {
    Octets.ByteOfNumber((n / 256) % 256);
    Octets.ByteOfNumber(n % 256);
    U16Digits(n);
  }
}
