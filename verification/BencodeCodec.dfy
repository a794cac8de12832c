/** The recursive-descent decoder with its cursor loops and the appending encoder, as the
    source runs them (`crates/engine/src/bencode.rs`), proved to compute the codec functions. */
module BencodeCodec {
  import opened Wrappers
  import opened Sequences
  import opened Bits
  import opened Bencode

  /** The scanning loop shared by integers and lengths. */
  method SkipTo(input: seq<byte>, start: nat, c: byte) returns (i: nat)
    requires start <= |input|
    ensures i == ScanTo(input, start, c)
  {
    i := start;
    while i < |input| && input[i] != c
      invariant start <= i <= |input| && ScanTo(input, start, c) == ScanTo(input, i, c)
    {
      i := i + 1;
    }
  }

  method ReadInt(input: seq<byte>, at: nat) returns (r: Decoded<Value>)
    requires at < |input|
    ensures r == DecodeInt(input, at)
  {
    hide ParseI64, ScanTo;
    var start := at + 1;
    var i := SkipTo(input, start, END_MARK);
    if i >= |input| {
      return Fail(UnterminatedInt);
    }
    var v := ParseI64(input[start..i]);
    if v.None? {
      return Fail(BadInt);
    }
    return Done(Int(v.value), i + 1);
  }

  method ReadBytes(input: seq<byte>, at: nat) returns (r: Decoded<Value>)
    requires at < |input|
    ensures r == DecodeBytes(input, at)
  {
    hide ParseUsize, ScanTo;
    var i := SkipTo(input, at, COLON);
    if i >= |input| {
      return Fail(UnterminatedLength);
    }
    var len := ParseUsize(input[at..i]);
    if len.None? {
      return Fail(BadLength);
    }
    i := i + 1;
    if i + len.value > USIZE_MAX {
      return Fail(Overflow);
    }
    if i + len.value > |input| {
      return Fail(PastEnd);
    }
    return Done(Bytes(input[i..i + len.value]), i + len.value);
  }

  /** `decode_at`. */
  method ReadAt(input: seq<byte>, i: nat) returns (r: Decoded<Value>)
    ensures r == DecodeAt(input, i)
    decreases |input| - i, 0
  {
    hide DecodeInt, DecodeBytes, IsDigit, DecodeItems, DecodeEntries;
    if i >= |input| {
      return Fail(UnexpectedEnd);
    }
    if input[i] == INT_MARK {
      r := ReadInt(input, i);
    } else if input[i] == LIST_MARK {
      r := ReadList(input, i);
    } else if input[i] == DICT_MARK {
      r := ReadDict(input, i);
    } else if IsDigit(input[i]) {
      r := ReadBytes(input, i);
    } else {
      r := Fail(BadMarker);
    }
  }

  /** `decode_list`. */
  method ReadList(input: seq<byte>, at: nat) returns (r: Decoded<Value>)
    requires at < |input| && input[at] == LIST_MARK
    ensures r == DecodeAt(input, at)
    decreases |input| - at - 1, 2
  {
    var i := at + 1;
    var list: seq<Value> := [];
    ListStart(input, at);
    hide DecodeAt;
    while i < |input| && input[i] != END_MARK
      invariant at < i <= |input|
      invariant DecodeItems(input, at + 1, []) == DecodeItems(input, i, list)
      decreases |input| - i
    {
      var item := ReadAt(input, i);
      if item.Fail? {
        return Fail(item.why);
      }
      list := list + [item.value];
      i := item.next;
    }
    if i >= |input| {
      return Fail(UnterminatedList);
    }
    return Done(List(list), i + 1);
  }

  lemma ListStart(s: seq<byte>, i: nat)
    requires i < |s| && s[i] == LIST_MARK
    ensures var d := DecodeItems(s, i + 1, []);
            DecodeAt(s, i) == if d.Done? then Done(List(d.value), d.next) else Fail(d.why)
  {
    hide DecodeItems;
  }

  /** `decode_dict`. */
  method ReadDict(input: seq<byte>, at: nat) returns (r: Decoded<Value>)
    requires at < |input| && input[at] == DICT_MARK
    ensures r == DecodeAt(input, at)
    decreases |input| - at - 1, 2
  {
    var i := at + 1;
    var entries: seq<Entry> := [];
    DictStart(input, at);
    hide DecodeAt, Insert;
    while i < |input| && input[i] != END_MARK
      invariant at < i <= |input|
      invariant DecodeEntries(input, at + 1, []) == DecodeEntries(input, i, entries)
      decreases |input| - i
    {
      var k := ReadAt(input, i);
      if k.Fail? {
        return Fail(k.why);
      }
      if !k.value.Bytes? {
        return Fail(KeyNotString);
      }
      var v := ReadAt(input, k.next);
      if v.Fail? {
        return Fail(v.why);
      }
      entries := Insert(entries, k.value.b, v.value);
      i := v.next;
    }
    if i >= |input| {
      return Fail(UnterminatedDict);
    }
    return Done(Dict(entries), i + 1);
  }

  lemma DictStart(s: seq<byte>, i: nat)
    requires i < |s| && s[i] == DICT_MARK
    ensures var d := DecodeEntries(s, i + 1, []);
            DecodeAt(s, i) == if d.Done? then Done(Dict(d.value), d.next) else Fail(d.why)
  {
    hide DecodeEntries;
  }

  /** `decode_full`. */
  method ReadFull(input: seq<byte>) returns (r: Result<Value, Failure>)
    ensures r == DecodeFull(input)
  {
    hide DecodeAt;
    var d := ReadAt(input, 0);
    if d.Fail? {
      return Err(d.why);
    }
    if d.next != |input| {
      return Err(Trailing);
    }
    return Ok(d.value);
  }

  /** `find_raw_dict_value`. */
  method FindRawDictValue(input: seq<byte>, key: seq<byte>) returns (r: Result<seq<byte>, Failure>)
    ensures r == FindRaw(input, key)
  {
    hide DecodeAt;
    if input == [] || input[0] != DICT_MARK {
      return Err(NotADict);
    }
    var i := 1;
    while i < |input| && input[i] != END_MARK
      invariant 1 <= i <= |input|
      invariant FindFrom(input, key, 1) == FindFrom(input, key, i)
      decreases |input| - i
    {
      var k := ReadAt(input, i);
      if k.Fail? {
        return Err(k.why);
      }
      if !k.value.Bytes? {
        return Err(KeyNotString);
      }
      var v := ReadAt(input, k.next);
      if v.Fail? {
        return Err(v.why);
      }
      if k.value.b == key {
        return Ok(input[k.next..v.next]);
      }
      i := v.next;
    }
    return Err(KeyNotFound);
  }

  lemma Wrapped(out: seq<byte>, open: byte, w: seq<byte>)
    ensures (out + [open] + w) + [END_MARK] == out + ([open] + w + [END_MARK])
  {}

  /** `encode_into`: appends the encoding. */
  method EncodeInto(value: Value, out0: seq<byte>) returns (out: seq<byte>)
    ensures out == out0 + Encode(value)
    decreases value, 1
  {
    hide Decimal, EncodeItems, EncodeEntries, Signed;
    out := out0;
    match value {
      case Int(n) =>
        out := out + [INT_MARK] + Signed(n) + [END_MARK];
        Wrapped(out0, INT_MARK, Signed(n));
      case Bytes(b) =>
        out := AppendBytes(b, out);
      case List(items) =>
        out := EncodeList(items, out + [LIST_MARK]);
        out := out + [END_MARK];
        Wrapped(out0, LIST_MARK, EncodeItems(items));
      case Dict(entries) =>
        out := EncodeDict(entries, out + [DICT_MARK]);
        out := out + [END_MARK];
        Wrapped(out0, DICT_MARK, EncodeEntries(entries));
    }
  }

  /** The list loop of `encode_into`. */
  method EncodeList(items: seq<Value>, out0: seq<byte>) returns (out: seq<byte>)
    ensures out == out0 + EncodeItems(items)
    decreases items, 0
  {
    hide Encode;
    out := out0;
    var k := 0;
    while k < |items|
      invariant k <= |items|
      invariant out + EncodeItems(items[k..]) == out0 + EncodeItems(items)
    {
      Assoc(out, Encode(items[k]), EncodeItems(items[k + 1..]));
      assert items[k..][1..] == items[k + 1..];
      out := EncodeInto(items[k], out);
      k := k + 1;
    }
    assert items[k..] == [];
  }

  /** The dictionary loop of `encode_into`. */
  method EncodeDict(entries: seq<Entry>, out0: seq<byte>) returns (out: seq<byte>)
    ensures out == out0 + EncodeEntries(entries)
    decreases entries, 0
  {
    hide Encode, EncodeEntries, EncodeBytes;
    out := out0;
    var k := 0;
    while k < |entries|
      invariant k <= |entries|
      invariant out + EncodeEntries(entries[k..]) == out0 + EncodeEntries(entries)
    {
      var key, value := entries[k].key, entries[k].value;
      ghost var before := out;
      EntriesFrom(entries, k, before);
      out := AppendBytes(key, out);
      out := EncodeInto(value, out);
      k := k + 1;
    }
    NoneLeft(entries, k);
  }

  /** Length, colon, bytes. */
  method AppendBytes(b: seq<byte>, out0: seq<byte>) returns (out: seq<byte>)
    ensures out == out0 + EncodeBytes(b)
  {
    hide Decimal;
    out := out0 + Decimal(|b|) + [COLON] + b;
  }

  lemma NoneLeft(entries: seq<Entry>, k: nat)
    requires k == |entries|
    ensures EncodeEntries(entries[k..]) == []
  {}

  lemma EntriesFrom(entries: seq<Entry>, k: nat, out: seq<byte>)
    requires k < |entries|
    ensures ((out + EncodeBytes(entries[k].key)) + Encode(entries[k].value)) + EncodeEntries(entries[k + 1..])
         == out + EncodeEntries(entries[k..])
  {
    hide Encode, EncodeBytes;
    assert entries[k..][1..] == entries[k + 1..] && entries[k..][0] == entries[k];
    var a, b, c := EncodeBytes(entries[k].key), Encode(entries[k].value), EncodeEntries(entries[k + 1..]);
    assert EncodeEntries(entries[k..]) == a + b + c;
    hide EncodeEntries;
    Assoc(out, a, b);
    Assoc(out, a + b, c);
  }
}
