/** The bencode codec of `crates/engine/src/bencode.rs`: values, their encoding, and the
    decoder as functions of input and cursor. */
module Bencode {
  import opened Wrappers
  import opened Bits

  const INT_MARK: byte := 0x69
  const LIST_MARK: byte := 0x6c
  const DICT_MARK: byte := 0x64
  const END_MARK: byte := 0x65
  const COLON: byte := 0x3a
  const PLUS: byte := 0x2b
  const MINUS: byte := 0x2d

  const I64_MIN: int := -0x8000_0000_0000_0000
  const I64_MAX: int := 0x7fff_ffff_ffff_ffff
  const USIZE_MAX: nat := 0xffff_ffff_ffff_ffff
  /** No buffer is longer than this. */
  const BUFFER_MAX: nat := 0x7fff_ffff_ffff_ffff

  /** A dictionary is kept as its entries in ascending key order. */
  datatype Value = Int(n: int) | Bytes(b: seq<byte>) | List(items: seq<Value>) | Dict(entries: seq<Entry>)

  datatype Entry = Entry(key: seq<byte>, value: Value)

  /** `Overflow` is the arithmetic overflow of cursor plus length, which does not return an
      error but panics. */
  datatype Failure =
    | UnexpectedEnd | BadMarker | UnterminatedInt | BadInt | UnterminatedLength | BadLength | PastEnd | Overflow
    | UnterminatedList | UnterminatedDict | KeyNotString | Trailing | NotADict | KeyNotFound

  datatype Decoded<T> = Done(value: T, next: nat) | Fail(why: Failure)

  // ---------------------------------------------------------------- keys

  /** Lexicographic order on byte strings. */
  predicate Less(a: seq<byte>, b: seq<byte>)
    decreases |a|
  {
    b != [] && (a == [] || a[0] < b[0] || (a[0] == b[0] && Less(a[1..], b[1..])))
  }

  lemma {:induction false} LessTotal(a: seq<byte>, b: seq<byte>)
    ensures Less(a, b) || Less(b, a) || a == b
    ensures !(Less(a, b) && Less(b, a)) && !(Less(a, b) && a == b)
    decreases |a|
  {
    if a != [] && b != [] && a[0] == b[0] {
      LessTotal(a[1..], b[1..]);
      assert a == [a[0]] + a[1..] && b == [b[0]] + b[1..];
    }
  }

  lemma {:induction false} LessTransitive(a: seq<byte>, b: seq<byte>, c: seq<byte>)
    requires Less(a, b) && Less(b, c)
    ensures Less(a, c)
    decreases |a|
  {
    if a != [] && a[0] == b[0] && b[0] == c[0] {
      LessTransitive(a[1..], b[1..], c[1..]);
    }
  }

  ghost predicate Sorted(e: seq<Entry>) {
    forall i, j :: 0 <= i < j < |e| ==> Less(e[i].key, e[j].key)
  }

  /** `BTreeMap::insert`. */
  function Insert(e: seq<Entry>, key: seq<byte>, value: Value): seq<Entry> {
    if e == [] then [Entry(key, value)]
    else if e[0].key == key then [Entry(key, value)] + e[1..]
    else if Less(key, e[0].key) then [Entry(key, value)] + e
    else [e[0]] + Insert(e[1..], key, value)
  }

  /** `BTreeMap::get`. */
  function Lookup(e: seq<Entry>, key: seq<byte>): Option<Value> {
    if e == [] then None else if e[0].key == key then Some(e[0].value) else Lookup(e[1..], key)
  }

  /** A value the engine can hold: i64 integers, sorted dictionaries. */
  ghost predicate ValidValue(v: Value) {
    match v
    case Int(n) => I64_MIN <= n <= I64_MAX
    case Bytes(_) => true
    case List(items) => forall i :: 0 <= i < |items| ==> ValidValue(items[i])
    case Dict(entries) => Sorted(entries) && forall i :: 0 <= i < |entries| ==> ValidValue(entries[i].value)
  }

  // ---------------------------------------------------------------- decimal numbers

  predicate IsDigit(b: byte) {
    b == 0x30 || b == 0x31 || b == 0x32 || b == 0x33 || b == 0x34
    || b == 0x35 || b == 0x36 || b == 0x37 || b == 0x38 || b == 0x39
  }

  function DigitOf(b: byte): (d: nat)
    requires IsDigit(b)
    ensures d < 10 && DigitByte(d) == b
  {
    if b == 0x30 then 0 else if b == 0x31 then 1 else if b == 0x32 then 2 else if b == 0x33 then 3
    else if b == 0x34 then 4 else if b == 0x35 then 5 else if b == 0x36 then 6 else if b == 0x37 then 7
    else if b == 0x38 then 8 else 9
  }

  function DigitByte(d: nat): (b: byte)
    requires d < 10
    ensures IsDigit(b)
  {
    if d == 0 then 0x30 else if d == 1 then 0x31 else if d == 2 then 0x32 else if d == 3 then 0x33
    else if d == 4 then 0x34 else if d == 5 then 0x35 else if d == 6 then 0x36 else if d == 7 then 0x37
    else if d == 8 then 0x38 else 0x39
  }

  lemma DigitBack(d: nat)
    requires d < 10
    ensures DigitOf(DigitByte(d)) == d
  {}

  predicate AllDigits(s: seq<byte>) {
    forall k :: 0 <= k < |s| ==> IsDigit(s[k])
  }

  function NumberOf(s: seq<byte>): nat
    requires AllDigits(s)
  {
    if s == [] then 0 else 10 * NumberOf(s[..|s| - 1]) + DigitOf(s[|s| - 1])
  }

  /** The decimal digits of a number. */
  function Decimal(n: nat): (s: seq<byte>)
    ensures AllDigits(s) && s != []
  {
    if n < 10 then [DigitByte(n)] else Decimal(n / 10) + [DigitByte(n % 10)]
  }

  lemma {:induction false} DecimalBack(n: nat)
    ensures NumberOf(Decimal(n)) == n
  {
    hide DigitByte, DigitOf, IsDigit;
    if n < 10 {
      DigitBack(n);
      assert Decimal(n)[..0] == [];
    } else {
      DecimalBack(n / 10);
      DigitBack(n % 10);
      assert Decimal(n)[..|Decimal(n)| - 1] == Decimal(n / 10);
    }
  }

  /** `n.to_string()`. */
  function Signed(n: int): seq<byte> {
    if n < 0 then [MINUS] + Decimal(-n) else Decimal(n)
  }

  /** `parse::<i64>()`: an optional sign and at least one digit, in range. */
  function ParseI64(s: seq<byte>): Option<int> {
    var negative := s != [] && s[0] == MINUS;
    var digits := if s != [] && (s[0] == MINUS || s[0] == PLUS) then s[1..] else s;
    if digits == [] || !AllDigits(digits) then None
    else
      var v: int := if negative then 0 - NumberOf(digits) else NumberOf(digits);
      if I64_MIN <= v <= I64_MAX then Some(v) else None
  }

  /** `parse::<usize>()`: no minus sign. */
  function ParseUsize(s: seq<byte>): (r: Option<nat>)
    ensures r.Some? ==> r.value <= USIZE_MAX
  {
    var digits := if s != [] && s[0] == PLUS then s[1..] else s;
    if digits == [] || !AllDigits(digits) || NumberOf(digits) > USIZE_MAX then None else Some(NumberOf(digits))
  }

  lemma DigitIsNoMark(b: byte)
    requires IsDigit(b)
    ensures b != MINUS && b != PLUS && b != END_MARK && b != COLON
    ensures b != INT_MARK && b != LIST_MARK && b != DICT_MARK
  {}

  lemma ParseSigned(n: int)
    requires I64_MIN <= n <= I64_MAX
    ensures ParseI64(Signed(n)) == Some(n)
    ensures forall k :: 0 <= k < |Signed(n)| ==> Signed(n)[k] != END_MARK
  {
    hide IsDigit, NumberOf, Decimal;
    var d := Decimal(if n < 0 then -n else n);
    DecimalBack(if n < 0 then -n else n);
    forall k | 0 <= k < |d| ensures d[k] != END_MARK && d[k] != MINUS && d[k] != PLUS {
      DigitIsNoMark(d[k]);
    }
    assert n < 0 ==> Signed(n)[1..] == d;
  }

  lemma ParseLength(n: nat)
    ensures ParseUsize(Decimal(n)) == if n <= USIZE_MAX then Some(n) else None
    ensures forall k :: 0 <= k < |Decimal(n)| ==> Decimal(n)[k] != COLON
  {
    hide IsDigit, NumberOf, Decimal;
    var d := Decimal(n);
    DecimalBack(n);
    forall k | 0 <= k < |d| ensures d[k] != COLON && d[k] != PLUS {
      DigitIsNoMark(d[k]);
    }
  }

  // ---------------------------------------------------------------- encoding

  function EncodeBytes(b: seq<byte>): seq<byte> {
    Decimal(|b|) + [COLON] + b
  }

  function Encode(v: Value): (out: seq<byte>)
    ensures out != []
    decreases v, 1
  {
    match v
    case Int(n) => [INT_MARK] + Signed(n) + [END_MARK]
    case Bytes(b) => EncodeBytes(b)
    case List(items) => [LIST_MARK] + EncodeItems(items) + [END_MARK]
    case Dict(entries) => [DICT_MARK] + EncodeEntries(entries) + [END_MARK]
  }

  function EncodeItems(items: seq<Value>): seq<byte>
    decreases items
  {
    if items == [] then [] else Encode(items[0]) + EncodeItems(items[1..])
  }

  function EncodeEntries(entries: seq<Entry>): seq<byte>
    decreases entries
  {
    if entries == [] then []
    else
      EncodeBytes(entries[0].key) + Encode(entries[0].value) + EncodeEntries(entries[1..])
  }

  // ---------------------------------------------------------------- decoding

  /** The first position at or after `i` holding `c`, or the end. */
  function ScanTo(s: seq<byte>, i: nat, c: byte): (j: nat)
    requires i <= |s|
    ensures i <= j <= |s| && (j < |s| ==> s[j] == c) && forall k :: i <= k < j ==> s[k] != c
    decreases |s| - i
  {
    if i == |s| || s[i] == c then i else ScanTo(s, i + 1, c)
  }

  function DecodeInt(s: seq<byte>, i: nat): (r: Decoded<Value>)
    requires i < |s|
    ensures r.Done? ==> i < r.next <= |s|
  {
    var j := ScanTo(s, i + 1, END_MARK);
    if j >= |s| then Fail(UnterminatedInt)
    else
      var n := ParseI64(s[i + 1..j]);
      if n.None? then Fail(BadInt) else Done(Int(n.value), j + 1)
  }

  function DecodeBytes(s: seq<byte>, i: nat): (r: Decoded<Value>)
    requires i < |s|
    ensures r.Done? ==> i < r.next <= |s| && r.value.Bytes?
  {
    var j := ScanTo(s, i, COLON);
    if j >= |s| then Fail(UnterminatedLength)
    else
      var len := ParseUsize(s[i..j]);
      if len.None? then Fail(BadLength)
      else if j + 1 + len.value > USIZE_MAX then Fail(Overflow)
      else if j + 1 + len.value > |s| then Fail(PastEnd)
      else Done(Bytes(s[j + 1..j + 1 + len.value]), j + 1 + len.value)
  }

  /** `decode_at`. A successful decode strictly advances the cursor, within bounds. */
  function DecodeAt(s: seq<byte>, i: nat): (r: Decoded<Value>)
    ensures r.Done? ==> i < r.next <= |s|
    decreases |s| - i, 0
  {
    if i >= |s| then Fail(UnexpectedEnd)
    else if s[i] == INT_MARK then DecodeInt(s, i)
    else if s[i] == LIST_MARK then
      match DecodeItems(s, i + 1, [])
      case Done(items, next) => Done(List(items), next)
      case Fail(why) => Fail(why)
    else if s[i] == DICT_MARK then
      match DecodeEntries(s, i + 1, [])
      case Done(entries, next) => Done(Dict(entries), next)
      case Fail(why) => Fail(why)
    else if IsDigit(s[i]) then DecodeBytes(s, i)
    else Fail(BadMarker)
  }

  /** The loop of `decode_list`, from the cursor on. */
  function DecodeItems(s: seq<byte>, i: nat, acc: seq<Value>): (r: Decoded<seq<Value>>)
    requires i <= |s|
    ensures r.Done? ==> i < r.next <= |s|
    decreases |s| - i, 1
  {
    if i >= |s| then Fail(UnterminatedList)
    else if s[i] == END_MARK then Done(acc, i + 1)
    else
      match DecodeAt(s, i)
      case Done(v, next) => DecodeItems(s, next, acc + [v])
      case Fail(why) => Fail(why)
  }

  /** The loop of `decode_dict`, from the cursor on. */
  function DecodeEntries(s: seq<byte>, i: nat, acc: seq<Entry>): (r: Decoded<seq<Entry>>)
    requires i <= |s|
    ensures r.Done? ==> i < r.next <= |s|
    decreases |s| - i, 1
  {
    if i >= |s| then Fail(UnterminatedDict)
    else if s[i] == END_MARK then Done(acc, i + 1)
    else
      match DecodeAt(s, i)
      case Fail(why) => Fail(why)
      case Done(k, mid) =>
        if !k.Bytes? then Fail(KeyNotString)
        else
          match DecodeAt(s, mid)
          case Fail(why) => Fail(why)
          case Done(v, next) => DecodeEntries(s, next, Insert(acc, k.b, v))
  }

  /** `decode_full`. */
  function DecodeFull(s: seq<byte>): Result<Value, Failure> {
    match DecodeAt(s, 0)
    case Done(v, n) => if n != |s| then Err(Trailing) else Ok(v)
    case Fail(why) => Err(why)
  }

  /** The loop of `find_raw_dict_value`, from the cursor on. */
  function FindFrom(s: seq<byte>, key: seq<byte>, i: nat): (r: Result<(nat, nat), Failure>)
    requires i <= |s|
    ensures r.Ok? ==> r.value.0 <= r.value.1 <= |s|
    decreases |s| - i
  {
    if i >= |s| || s[i] == END_MARK then Err(KeyNotFound)
    else
      match DecodeAt(s, i)
      case Fail(why) => Err(why)
      case Done(k, mid) =>
        if !k.Bytes? then Err(KeyNotString)
        else
          match DecodeAt(s, mid)
          case Fail(why) => Err(why)
          case Done(_, next) => if k.b == key then Ok((mid, next)) else FindFrom(s, key, next)
  }

  /** `find_raw_dict_value`. */
  function FindRaw(s: seq<byte>, key: seq<byte>): Result<seq<byte>, Failure> {
    if s == [] || s[0] != DICT_MARK then Err(NotADict)
    else
      match FindFrom(s, key, 1)
      case Ok(span) => Ok(s[span.0..span.1])
      case Err(why) => Err(why)
  }
}
