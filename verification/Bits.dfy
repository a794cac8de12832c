/** Wire bitfields: one bit per piece, most significant bit first in each byte
    (`crates/engine/src/catalog/types.rs`). A bitfield stands for the set of
    piece indices below the piece count whose bit is one; every counter of the
    engine is stated against that set. */
module Bits {

  type byte = bv8

  /** The mask of bit `k` of a byte, counted from the most significant end. */
  function Mask(k: nat): byte
    requires k < 8
  {
    1 << (7 - k)
  }

  /** Bytes needed for `n` bits. */
  function SizeBytes(n: nat): nat {
    (n + 7) / 8
  }

  /** `bitfield_get`: reads past the end are zero. */
  predicate Get(bits: seq<byte>, i: nat) {
    i / 8 < |bits| && bits[i / 8] & Mask(i % 8) != 0
  }

  /** The pieces a bitfield stands for. */
  ghost function Indices(bits: seq<byte>, n: nat): set<nat> {
    set i: nat | 0 <= i < n && Get(bits, i)
  }

  ghost function Range(n: nat): (r: set<nat>)
    ensures forall i: nat :: i in r <==> i < n
  {
    if n == 0 then {} else Range(n - 1) + {n - 1}
  }

  lemma MaskValues()
    ensures Mask(0) == 0x80 && Mask(1) == 0x40 && Mask(2) == 0x20 && Mask(3) == 0x10
    ensures Mask(4) == 0x08 && Mask(5) == 0x04 && Mask(6) == 0x02 && Mask(7) == 0x01
  {}

  lemma OrMask(b: byte, k: nat, j: nat)
    requires k < 8 && j < 8
    ensures (b | Mask(k)) & Mask(j) != 0 <==> j == k || b & Mask(j) != 0
  {
    MaskValues();
  }

  /** A byte is determined by its eight bits. */
  lemma ByteExtensional(a: byte, b: byte)
    requires forall k: nat :: k < 8 ==> (a & Mask(k) != 0 <==> b & Mask(k) != 0)
    ensures a == b
  {
    MaskValues();
    assert a & Mask(0) != 0 <==> b & Mask(0) != 0;
    assert a & Mask(1) != 0 <==> b & Mask(1) != 0;
    assert a & Mask(2) != 0 <==> b & Mask(2) != 0;
    assert a & Mask(3) != 0 <==> b & Mask(3) != 0;
    assert a & Mask(4) != 0 <==> b & Mask(4) != 0;
    assert a & Mask(5) != 0 <==> b & Mask(5) != 0;
    assert a & Mask(6) != 0 <==> b & Mask(6) != 0;
    assert a & Mask(7) != 0 <==> b & Mask(7) != 0;
  }

  /** A bitfield is determined by its length and its bits, padding bits included. */
  lemma Extensional(a: seq<byte>, b: seq<byte>)
    requires |a| == |b|
    requires forall i: nat :: i < 8 * |a| ==> (Get(a, i) <==> Get(b, i))
    ensures a == b
  {
    forall p | 0 <= p < |a| ensures a[p] == b[p] {
      forall k: nat | k < 8 ensures a[p] & Mask(k) != 0 <==> b[p] & Mask(k) != 0 {
        assert (8 * p + k) / 8 == p && (8 * p + k) % 8 == k;
        assert Get(a, 8 * p + k) <==> Get(b, 8 * p + k);
      }
      ByteExtensional(a[p], b[p]);
    }
  }

  /** `bitfield_set`: silent past the end. */
  function Set(bits: seq<byte>, i: nat): (r: seq<byte>)
    ensures |r| == |bits|
    ensures forall j: nat :: Get(r, j) <==> Get(bits, j) || (j == i && i / 8 < |bits|)
  {
    if i / 8 < |bits| then
      var r := bits[i / 8 := bits[i / 8] | Mask(i % 8)];
      assert forall j: nat :: Get(r, j) <==> Get(bits, j) || j == i by {
        forall j: nat ensures Get(r, j) <==> Get(bits, j) || j == i {
          if j / 8 == i / 8 {
            OrMask(bits[i / 8], i % 8, j % 8);
          }
        }
      }
      r
    else bits
  }

  /** Setting a bit below `n` of a bitfield wide enough adds exactly that index. */
  lemma SetIndices(bits: seq<byte>, i: nat, n: nat)
    requires i < n && |bits| >= SizeBytes(n)
    ensures Indices(Set(bits, i), n) == Indices(bits, n) + {i}
  {}

  function Empty(n: nat): (r: seq<byte>)
    ensures |r| == SizeBytes(n) && Indices(r, n) == {}
    ensures forall i: nat :: !Get(r, i)
  {
    seq(SizeBytes(n), _ => 0)
  }

  /** Piece `i` is bit `i` of the stream of bits, highest bit of each byte first, and `n` bits
      take as few bytes as hold them. */
  lemma HighestBitFirst(bits: seq<byte>, i: nat)
    ensures Get(bits, i) <==> i < 8 * |bits| && (bits[i / 8] >> (7 - i % 8)) & 1 == 1
    ensures i <= 8 * SizeBytes(i) < i + 8
  {
    if i / 8 < |bits| {
      ShiftedBit(bits[i / 8], i % 8);
    }
  }

  lemma ShiftedBit(x: byte, k: nat)
    requires k < 8
    ensures x & Mask(k) != 0 <==> (x >> (7 - k)) & 1 == 1
  {
    MaskValues();
    assert x & 0x80 != 0 <==> (x >> 7) & 1 == 1;
    assert x & 0x40 != 0 <==> (x >> 6) & 1 == 1;
    assert x & 0x20 != 0 <==> (x >> 5) & 1 == 1;
    assert x & 0x10 != 0 <==> (x >> 4) & 1 == 1;
    assert x & 0x08 != 0 <==> (x >> 3) & 1 == 1;
    assert x & 0x04 != 0 <==> (x >> 2) & 1 == 1;
    assert x & 0x02 != 0 <==> (x >> 1) & 1 == 1;
    assert x & 0x01 != 0 <==> (x >> 0) & 1 == 1;
  }

  lemma FullByte(k: nat)
    requires k < 8
    ensures (0xff as byte) & Mask(k) != 0
  {
    MaskValues();
  }

  /** The last byte of an all-set bitfield keeps only its first `rem` bits. */
  function TailByte(rem: nat): byte
    requires 0 < rem < 8
  {
    (0xff as byte) << (8 - rem)
  }

  lemma TailByteBits(rem: nat, k: nat)
    requires 0 < rem < 8 && k < 8
    ensures TailByte(rem) & Mask(k) != 0 <==> k < rem
  {
    MaskValues();
    assert TailByte(1) == 0x80 && TailByte(2) == 0xc0 && TailByte(3) == 0xe0 && TailByte(4) == 0xf0;
    assert TailByte(5) == 0xf8 && TailByte(6) == 0xfc && TailByte(7) == 0xfe;
  }

  function AllSetBytes(n: nat): (r: seq<byte>)
    ensures |r| == SizeBytes(n)
  {
    var bits: seq<byte> := seq(SizeBytes(n), _ => 0xff);
    if n > 0 && n % 8 != 0 then bits[|bits| - 1 := TailByte(n % 8)] else bits
  }

  lemma AllSetBit(n: nat, i: nat)
    ensures Get(AllSetBytes(n), i) <==> i < n
  {
    hide Mask, TailByte;
    FullByte(i % 8);
    LastByte(n, i);
    if n % 8 != 0 {
      TailByteBits(n % 8, i % 8);
    }
    hide SizeBytes;
  }

  /** Which byte a bit lies in, against the last byte of `n` bits. */
  lemma LastByte(n: nat, i: nat)
    ensures i < n ==> i / 8 < SizeBytes(n)
    ensures n % 8 == 0 && i / 8 < SizeBytes(n) ==> i < n
    ensures n % 8 != 0 && i / 8 < SizeBytes(n) - 1 ==> i < n
    ensures n % 8 != 0 && i / 8 == SizeBytes(n) - 1 ==> (i < n <==> i % 8 < n % 8)
  {}

  /** `all_set_bitfield`: every piece bit is one and every padding bit is zero. */
  function AllSet(n: nat): (r: seq<byte>)
    ensures |r| == SizeBytes(n)
    ensures forall i: nat :: Get(r, i) <==> i < n
    ensures Indices(r, n) == Range(n)
  {
    assert forall i: nat :: Get(AllSetBytes(n), i) <==> i < n by {
      forall i: nat ensures Get(AllSetBytes(n), i) <==> i < n {
        AllSetBit(n, i);
      }
    }
    assert Indices(AllSetBytes(n), n) == Range(n) by {
      hide Get, AllSetBytes;
    }
    AllSetBytes(n)
  }

  /** `count_have_bits`. */
  method CountHaveBits(bits: seq<byte>, n: nat) returns (count: nat)
    ensures count == |Indices(bits, n)|
  {
    count := 0;
    var i := 0;
    while i < n
      invariant i <= n
      invariant count == |Indices(bits, i)|
    {
      if Get(bits, i) {
        assert Indices(bits, i + 1) == Indices(bits, i) + {i};
        count := count + 1;
      } else {
        assert Indices(bits, i + 1) == Indices(bits, i);
      }
      i := i + 1;
    }
  }

  lemma {:induction false} RangeSize(n: nat)
    ensures |Range(n)| == n
  {
    if n == 0 {
      assert Range(0) == {};
    } else {
      RangeSize(n - 1);
      assert Range(n) == Range(n - 1) + {n - 1};
    }
  }

  lemma {:induction false} SubsetSize<T>(a: set<T>, b: set<T>)
    requires a <= b
    ensures |a| <= |b|
    ensures |a| == |b| ==> a == b
  {
    assert b == a + (b - a);
  }

  /** A bitfield has as many ones as pieces exactly when every piece bit is one. */
  lemma FullCount(bits: seq<byte>, n: nat)
    ensures |Indices(bits, n)| <= n
    ensures |Indices(bits, n)| == n <==> Indices(bits, n) == Range(n)
  {
    RangeSize(n);
    SubsetSize(Indices(bits, n), Range(n));
  }
}
