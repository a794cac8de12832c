/** The codec in bytes: digits, signs and marks as BEP 3 (section "bencoding") spells them, the
    order of dictionary keys, and what a malformed input is refused with. */
module BencodeWire {
  import opened Wrappers
  import opened Bits
  import opened Bencode
  import opened BencodeLaws

  /** The digits are the bytes from 0x30 to 0x39. */
  lemma DigitsAre(b: byte)
    ensures IsDigit(b) <==> 0x30 <= b <= 0x39
    ensures IsDigit(b) ==> 0x30 + (DigitOf(b) as byte) == b
  {}

  lemma OneDigit(d: nat)
    requires d < 10
    ensures Decimal(d) == [DigitByte(d)]
  {}

  /** 123 in digits, and back. */
  lemma DecimalIsBaseTen()
    ensures Decimal(123) == [0x31, 0x32, 0x33] && NumberOf([0x31, 0x32, 0x33]) == 123
  {
    OneDigit(1);
    assert Decimal(12) == Decimal(1) + [DigitByte(2)];
    assert Decimal(123) == Decimal(12) + [DigitByte(3)];
    DecimalBack(123);
  }

  /** What becomes of an integer spelled by the digits `d` behind at most one sign, wherever it
      stands: leading zeros and a plus are accepted; outside 64 bits it is rejected. */
  lemma IntOutcomes(s: seq<byte>, i: nat, sign: seq<byte>, d: seq<byte>)
    requires sign == [] || sign == [0x2b] || sign == [0x2d]
    requires d != [] && AllDigits(d) && At(s, i, [0x69] + (sign + d + [0x65]))
    ensures var n: int := if sign == [0x2d] then 0 - NumberOf(d) else NumberOf(d);
            DecodeAt(s, i)
            == if -0x8000_0000_0000_0000 <= n <= 0x7fff_ffff_ffff_ffff then Done(Int(n), i + |sign| + |d| + 2)
               else Fail(BadInt)
  {
    hide At, ParseI64, IsDigit, ScanTo, DecodeItems, DecodeEntries, DecodeBytes, NumberOf, AllDigits;
    AtSplit(s, i, [0x69], sign + d + [0x65]);
    AtOne(s, i, 0x69);
    NoEndMark(sign, d);
    ScanOver(s, i + 1, sign + d, 0x65);
    ParsedDigits(sign, d);
  }

  lemma NoEndMark(sign: seq<byte>, d: seq<byte>)
    requires sign == [] || sign == [0x2b] || sign == [0x2d]
    requires AllDigits(d)
    ensures forall k :: 0 <= k < |sign + d| ==> (sign + d)[k] != 0x65
  {
    hide IsDigit;
    forall k | 0 <= k < |sign + d| ensures (sign + d)[k] != 0x65 {
      if k >= |sign| {
        DigitIsNoMark(d[k - |sign|]);
      }
    }
  }

  lemma ParsedDigits(sign: seq<byte>, d: seq<byte>)
    requires sign == [] || sign == [0x2b] || sign == [0x2d]
    requires d != [] && AllDigits(d)
    ensures var n: int := if sign == [0x2d] then 0 - NumberOf(d) else NumberOf(d);
            ParseI64(sign + d) == if -0x8000_0000_0000_0000 <= n <= 0x7fff_ffff_ffff_ffff then Some(n) else None
  {
    hide IsDigit, NumberOf;
    DigitIsNoMark(d[0]);
    assert (sign + d)[|sign|..] == d;
    assert sign == [] ==> sign + d == d;
  }

  /** Encodings in full: i-5e, 2:sp, li5e0:e and d1:ai1ee. */
  lemma Encodings()
    ensures Encode(Int(-5)) == [0x69, 0x2d, 0x35, 0x65]
    ensures Encode(Bytes([0x73, 0x70])) == [0x32, 0x3a, 0x73, 0x70]
    ensures Encode(List([Int(5), Bytes([])])) == [0x6c, 0x69, 0x35, 0x65, 0x30, 0x3a, 0x65]
    ensures Encode(Dict([Entry([0x61], Int(1))])) == [0x64, 0x31, 0x3a, 0x61, 0x69, 0x31, 0x65, 0x65]
  {
    SmallEncodings();
    hide Decimal;
    assert Encode(List([Int(5), Bytes([])])) == [0x6c] + EncodeItems([Int(5), Bytes([])]) + [0x65];
    assert EncodeItems([Int(5), Bytes([])]) == Encode(Int(5)) + EncodeItems([Bytes([])]);
    assert EncodeItems([Bytes([])]) == Encode(Bytes([]));
    assert EncodeEntries([Entry([0x61], Int(1))]) == EncodeBytes([0x61]) + Encode(Int(1));
  }

  lemma SmallEncodings()
    ensures Encode(Int(-5)) == [0x69, 0x2d, 0x35, 0x65] && Encode(Int(5)) == [0x69, 0x35, 0x65]
    ensures Encode(Int(1)) == [0x69, 0x31, 0x65] && Encode(Bytes([])) == [0x30, 0x3a]
    ensures EncodeBytes([0x61]) == [0x31, 0x3a, 0x61] && Encode(Bytes([0x73, 0x70])) == [0x32, 0x3a, 0x73, 0x70]
  {
    OneDigit(0);
    OneDigit(1);
    OneDigit(2);
    OneDigit(5);
    hide Decimal;
  }

  /** The first place where `a` and `b` differ is `k`, and `a` is smaller there or ends. */
  ghost predicate SmallerAt(a: seq<byte>, b: seq<byte>, k: nat) {
    k <= |a| && k < |b| && a[..k] == b[..k] && (k == |a| || a[k] < b[k])
  }

  /** Dictionary keys are ordered by their first difference, a prefix before what it begins. */
  lemma {:induction false} LessIs(a: seq<byte>, b: seq<byte>)
    ensures Less(a, b) <==> exists k: nat :: SmallerAt(a, b, k)
    decreases |a|
  {
    if b == [] {
    } else if a == [] || a[0] < b[0] {
      assert SmallerAt(a, b, 0);
    } else {
      LessIs(a[1..], b[1..]);
      SmallerTail(a, b);
      hide SmallerAt;
    }
  }

  lemma SmallerTail(a: seq<byte>, b: seq<byte>)
    requires a != [] && b != [] && !(a[0] < b[0])
    ensures (exists k: nat :: SmallerAt(a, b, k)) <==> a[0] == b[0] && exists k: nat :: SmallerAt(a[1..], b[1..], k)
  {
    if k: nat :| SmallerAt(a, b, k) {
      assert k > 0;
      DifferEarlier(a, b, k);
      assert SmallerAt(a[1..], b[1..], k - 1);
    }
    if a[0] == b[0] && exists k: nat :: SmallerAt(a[1..], b[1..], k) {
      var k: nat :| SmallerAt(a[1..], b[1..], k);
      DifferLater(a, b, k);
      assert SmallerAt(a, b, k + 1);
    }
  }

  lemma DifferLater(a: seq<byte>, b: seq<byte>, k: nat)
    requires a != [] && b != [] && a[0] == b[0] && k < |a| && k < |b| - 1 && a[1..][..k] == b[1..][..k]
    ensures a[..k + 1] == b[..k + 1]
  {
    assert a[..k + 1] == [a[0]] + a[1..][..k] && b[..k + 1] == [b[0]] + b[1..][..k];
  }

  lemma DifferEarlier(a: seq<byte>, b: seq<byte>, k: nat)
    requires 0 < k <= |a| && k < |b| && a[..k] == b[..k]
    ensures a[0] == b[0] && a[1..][..k - 1] == b[1..][..k - 1]
  {
    assert a[0] == a[..k][0] && b[0] == b[..k][0];
    assert a[1..][..k - 1] == a[..k][1..] && b[1..][..k - 1] == b[..k][1..];
  }

  /** What an input that is cut off, or begins with no mark at all, is refused with. */
  lemma Refusals(s: seq<byte>, i: nat)
    ensures i >= |s| ==> DecodeAt(s, i) == Fail(UnexpectedEnd)
    ensures i < |s| && s[i] == 0x69 && (forall k :: i < k < |s| ==> s[k] != 0x65) ==>
              DecodeAt(s, i) == Fail(UnterminatedInt)
    ensures i < |s| && 0x30 <= s[i] <= 0x39 && (forall k :: i < k < |s| ==> s[k] != 0x3a) ==>
              DecodeAt(s, i) == Fail(UnterminatedLength)
    ensures i == |s| - 1 && s[i] == 0x6c ==> DecodeAt(s, i) == Fail(UnterminatedList)
    ensures i == |s| - 1 && s[i] == 0x64 ==> DecodeAt(s, i) == Fail(UnterminatedDict)
    ensures i < |s| && s[i] != 0x69 && s[i] != 0x6c && s[i] != 0x64 && !(0x30 <= s[i] <= 0x39) ==>
              DecodeAt(s, i) == Fail(BadMarker)
  {
    if i < |s| {
      DigitsAre(s[i]);
    }
    hide IsDigit, ParseI64, ParseUsize;
  }

  /** A dictionary whose first key is not a byte string: an integer, a list or a dictionary. */
  lemma KeyMustBeString(s: seq<byte>, i: nat)
    requires i + 1 < |s| && s[i] == 0x64 && s[i + 1] != 0x65
    requires DecodeAt(s, i + 1).Done? && !DecodeAt(s, i + 1).value.Bytes?
    ensures DecodeAt(s, i) == Fail(KeyNotString)
  {
    hide IsDigit, DecodeInt, DecodeBytes, DecodeItems;
  }
}
