/** What the codec promises: decoding an encoding gives the value back and stops exactly at
    its end, and the raw slice of a key is the encoding of that key's value. */
module BencodeLaws {
  import opened Wrappers
  import opened Bits
  import opened Hashing
  import opened Bencode

  /** `w` stands in `s` at `i`. */
  ghost predicate At(s: seq<byte>, i: nat, w: seq<byte>) {
    i + |w| <= |s| && s[i..i + |w|] == w
  }

  lemma AtSplit(s: seq<byte>, i: nat, a: seq<byte>, b: seq<byte>)
    requires At(s, i, a + b)
    ensures At(s, i, a) && At(s, i + |a|, b)
  {
    assert s[i..i + |a + b|][..|a|] == a && s[i..i + |a + b|][|a|..] == b;
  }

  lemma AtOne(s: seq<byte>, i: nat, c: byte)
    requires At(s, i, [c])
    ensures i < |s| && s[i] == c
  {
    assert s[i..i + 1][0] == c;
  }

  lemma AtHead(s: seq<byte>, i: nat, w: seq<byte>)
    requires At(s, i, w) && w != []
    ensures i < |s| && s[i] == w[0]
  {
    assert s[i..i + |w|][0] == w[0];
  }

  /** A mark that does not occur in `w` but follows it is the first one found. */
  lemma {:induction false} ScanOver(s: seq<byte>, i: nat, w: seq<byte>, c: byte)
    requires At(s, i, w + [c]) && forall k :: 0 <= k < |w| ==> w[k] != c
    ensures ScanTo(s, i, c) == i + |w| && s[i..i + |w|] == w && i + |w| < |s|
  {
    AtSplit(s, i, w, [c]);
    AtOne(s, i + |w|, c);
    forall k | i <= k < i + |w| ensures s[k] != c {
      assert s[k] == s[i..i + |w|][k - i];
    }
  }

  lemma RoundInt(n: int, s: seq<byte>, i: nat)
    requires I64_MIN <= n <= I64_MAX && At(s, i, Encode(Int(n)))
    ensures DecodeAt(s, i) == Done(Int(n), i + |Encode(Int(n))|)
  {
    hide At, ParseI64, Signed, IsDigit, ScanTo, DecodeItems, DecodeEntries, DecodeBytes;
    var w := Signed(n);
    ParseSigned(n);
    Regroup([INT_MARK], w, [], [END_MARK]);
    assert Encode(Int(n)) == [INT_MARK] + (w + [END_MARK]);
    AtSplit(s, i, [INT_MARK], w + [END_MARK]);
    AtOne(s, i, INT_MARK);
    ScanOver(s, i + 1, w, END_MARK);
  }

  lemma Regroup(a: seq<byte>, b: seq<byte>, c: seq<byte>, d: seq<byte>)
    ensures (a + b + c) + d == a + (b + (c + d))
  {}

  lemma RoundBytes(b: seq<byte>, s: seq<byte>, i: nat)
    requires At(s, i, EncodeBytes(b)) && |s| <= BUFFER_MAX
    ensures DecodeAt(s, i) == Done(Bytes(b), i + |EncodeBytes(b)|)
  {
    hide At, ParseUsize, Decimal, IsDigit, ScanTo, DecodeItems, DecodeEntries, DecodeInt;
    var d := Decimal(|b|);
    ParseLength(|b|);
    LengthHead(b, s, i);
    assert EncodeBytes(b) == (d + [COLON]) + b;
    AtSplit(s, i, d + [COLON], b);
    ScanOver(s, i, d, COLON);
    AtEnds(s, i + |d| + 1, b);
  }

  lemma AtEnds(s: seq<byte>, i: nat, w: seq<byte>)
    requires At(s, i, w)
    ensures i + |w| <= |s| && s[i..i + |w|] == w
  {}

  lemma LengthHead(b: seq<byte>, s: seq<byte>, i: nat)
    requires At(s, i, EncodeBytes(b))
    ensures i < |s| && IsDigit(s[i]) && s[i] != INT_MARK && s[i] != LIST_MARK && s[i] != DICT_MARK && s[i] != END_MARK
  {
    hide IsDigit, Decimal;
    AtHead(s, i, EncodeBytes(b));
    DigitIsNoMark(Decimal(|b|)[0]);
  }

  /** Encoding has a leading mark that is not the end mark. */
  lemma EncodeHead(v: Value)
    ensures Encode(v)[0] != END_MARK
  {
    if v.Bytes? {
      DigitIsNoMark(Decimal(|v.b|)[0]);
    }
  }

  /** Decoding a valid value's encoding, wherever it stands and whatever follows, yields the
      value and consumes exactly the encoding. */
  lemma {:induction false} RoundTrip(v: Value, s: seq<byte>, i: nat)
    requires ValidValue(v) && At(s, i, Encode(v)) && |s| <= BUFFER_MAX
    ensures DecodeAt(s, i) == Done(v, i + |Encode(v)|)
    decreases v, 1
  {
    hide At, IsDigit, DecodeInt, DecodeBytes, Encode, DecodeItems, DecodeEntries, EncodeItems, EncodeEntries;
    match v
    case Int(n) => RoundInt(n, s, i);
    case Bytes(b) =>
      EncodedBytes(b);
      RoundBytes(b, s, i);
    case List(items) =>
      ListStands(items, s, i);
      RoundItems(items, s, i + 1, []);
      assert [] + items == items;
    case Dict(entries) =>
      DictStands(entries, s, i);
      RoundEntries(entries, s, i + 1, []);
      assert [] + entries == entries;
  }

  lemma EncodedBytes(b: seq<byte>)
    ensures Encode(Bytes(b)) == EncodeBytes(b)
  {}

  lemma ListStands(items: seq<Value>, s: seq<byte>, i: nat)
    requires At(s, i, Encode(List(items)))
    ensures i < |s| && s[i] == LIST_MARK && At(s, i + 1, EncodeItems(items) + [END_MARK])
    ensures |Encode(List(items))| == |EncodeItems(items)| + 2
  {
    hide At, EncodeItems;
    assert Encode(List(items)) == [LIST_MARK] + (EncodeItems(items) + [END_MARK]);
    AtSplit(s, i, [LIST_MARK], EncodeItems(items) + [END_MARK]);
    AtOne(s, i, LIST_MARK);
  }

  lemma DictStands(entries: seq<Entry>, s: seq<byte>, i: nat)
    requires At(s, i, Encode(Dict(entries)))
    ensures i < |s| && s[i] == DICT_MARK && At(s, i + 1, EncodeEntries(entries) + [END_MARK])
    ensures |Encode(Dict(entries))| == |EncodeEntries(entries)| + 2
  {
    hide At, EncodeEntries;
    assert Encode(Dict(entries)) == [DICT_MARK] + (EncodeEntries(entries) + [END_MARK]);
    AtSplit(s, i, [DICT_MARK], EncodeEntries(entries) + [END_MARK]);
    AtOne(s, i, DICT_MARK);
  }

  lemma {:induction false} RoundItems(items: seq<Value>, s: seq<byte>, i: nat, acc: seq<Value>)
    requires forall k :: 0 <= k < |items| ==> ValidValue(items[k])
    requires At(s, i, EncodeItems(items) + [END_MARK]) && |s| <= BUFFER_MAX
    ensures i <= |s| && DecodeItems(s, i, acc) == Done(acc + items, i + |EncodeItems(items)| + 1)
    decreases items
  {
    hide At, Encode, ValidValue, DecodeAt;
    AtHead(s, i, EncodeItems(items) + [END_MARK]);
    if items == [] {
      assert acc + items == acc;
    } else {
      var first, rest := Encode(items[0]), EncodeItems(items[1..]);
      assert EncodeItems(items) + [END_MARK] == first + (rest + [END_MARK]);
      AtSplit(s, i, first, rest + [END_MARK]);
      EncodeHead(items[0]);
      RoundTrip(items[0], s, i);
      RoundItems(items[1..], s, i + |first|, acc + [items[0]]);
      assert acc + [items[0]] + items[1..] == acc + items;
    }
  }

  ghost predicate AllBelow(acc: seq<Entry>, key: seq<byte>) {
    forall k :: 0 <= k < |acc| ==> Less(acc[k].key, key)
  }

  /** A key above all others goes to the end. */
  lemma {:induction false} InsertLast(acc: seq<Entry>, key: seq<byte>, value: Value)
    requires AllBelow(acc, key)
    ensures Insert(acc, key, value) == acc + [Entry(key, value)]
  {
    hide Less;
    if acc != [] {
      LessTotal(acc[0].key, key);
      InsertLast(acc[1..], key, value);
    }
  }

  lemma {:induction false} RoundEntries(entries: seq<Entry>, s: seq<byte>, i: nat, acc: seq<Entry>)
    requires Sorted(acc + entries)
    requires forall k :: 0 <= k < |entries| ==> ValidValue(entries[k].value)
    requires At(s, i, EncodeEntries(entries) + [END_MARK]) && |s| <= BUFFER_MAX
    ensures i <= |s| && DecodeEntries(s, i, acc) == Done(acc + entries, i + |EncodeEntries(entries)| + 1)
    decreases entries
  {
    hide At, Encode, EncodeBytes, ValidValue, DecodeAt, Insert, Less;
    AtHead(s, i, EncodeEntries(entries) + [END_MARK]);
    if entries == [] {
      assert acc + entries == acc;
    } else {
      var e := entries[0];
      EntryStands(entries, s, i);
      RoundKey(e.key, s, i);
      var mid := i + |EncodeBytes(e.key)|;
      RoundTrip(e.value, s, mid);
      NextKeyIsLast(acc, entries);
      InsertLast(acc, e.key, e.value);
      RoundEntries(entries[1..], s, mid + |Encode(e.value)|, acc + [e]);
      assert acc + [e] + entries[1..] == acc + entries;
    }
  }

  lemma NextKeyIsLast(acc: seq<Entry>, entries: seq<Entry>)
    requires entries != [] && Sorted(acc + entries)
    ensures AllBelow(acc, entries[0].key) && Sorted(acc + [entries[0]] + entries[1..])
  {
    hide Less;
    assert acc + [entries[0]] + entries[1..] == acc + entries;
    forall k | 0 <= k < |acc| ensures Less(acc[k].key, entries[0].key) {
      assert (acc + entries)[k] == acc[k] && (acc + entries)[|acc|] == entries[0];
    }
  }

  /** Where the first entry of a run of entries, and the rest of the run, stand. */
  lemma EntryStands(entries: seq<Entry>, s: seq<byte>, i: nat)
    requires entries != [] && At(s, i, EncodeEntries(entries) + [END_MARK])
    ensures var k, v := EncodeBytes(entries[0].key), Encode(entries[0].value);
            && At(s, i, k) && At(s, i + |k|, v)
            && At(s, i + |k| + |v|, EncodeEntries(entries[1..]) + [END_MARK])
            && i < |s| && s[i] != END_MARK
            && |EncodeEntries(entries)| == |k| + |v| + |EncodeEntries(entries[1..])|
  {
    hide At, EncodeBytes, Encode, IsDigit;
    var k, v, rest := EncodeBytes(entries[0].key), Encode(entries[0].value), EncodeEntries(entries[1..]);
    assert EncodeEntries(entries) == k + v + rest;
    hide EncodeEntries;
    AtThree(s, i, k, v, rest, [END_MARK]);
    LengthHead(entries[0].key, s, i);
  }

  lemma AtThree(s: seq<byte>, i: nat, k: seq<byte>, v: seq<byte>, rest: seq<byte>, end: seq<byte>)
    requires At(s, i, (k + v + rest) + end)
    ensures At(s, i, k) && At(s, i + |k|, v) && At(s, i + |k| + |v|, rest + end)
  {
    hide At;
    Regroup(k, v, rest, end);
    AtSplit(s, i, k, v + (rest + end));
    AtSplit(s, i + |k|, v, rest + end);
  }

  lemma RoundKey(key: seq<byte>, s: seq<byte>, i: nat)
    requires At(s, i, EncodeBytes(key)) && |s| <= BUFFER_MAX
    ensures DecodeAt(s, i) == Done(Bytes(key), i + |EncodeBytes(key)|)
  {
    RoundBytes(key, s, i);
  }

  /** Decoding `encode(v) ++ r` gives `v` and consumes `|encode(v)|`. */
  lemma RoundTripThenSuffix(v: Value, r: seq<byte>)
    requires ValidValue(v) && |Encode(v)| + |r| <= BUFFER_MAX
    ensures DecodeAt(Encode(v) + r, 0) == Done(v, |Encode(v)|)
    ensures r == [] ==> DecodeFull(Encode(v) + r) == Ok(v)
  {
    hide DecodeAt, Encode, ValidValue;
    assert (Encode(v) + r)[0..0 + |Encode(v)|] == Encode(v);
    RoundTrip(v, Encode(v) + r, 0);
  }

  /** Two encodings that begin the same buffer are the same value: the code is injective and
      prefix-free. */
  lemma PrefixFree(v: Value, w: Value, r: seq<byte>, q: seq<byte>)
    requires ValidValue(v) && ValidValue(w) && |Encode(v)| + |r| <= BUFFER_MAX
    requires Encode(v) + r == Encode(w) + q
    ensures v == w && r == q
  {
    hide DecodeAt, Encode, ValidValue;
    RoundTripThenSuffix(v, r);
    RoundTripThenSuffix(w, q);
    assert r == (Encode(v) + r)[|Encode(v)|..] && q == (Encode(w) + q)[|Encode(w)|..];
  }

  // ---------------------------------------------------------------- decoded values are valid

  lemma {:induction false} InsertKeys(e: seq<Entry>, key: seq<byte>, value: Value, j: nat)
    requires j < |Insert(e, key, value)|
    ensures var r := Insert(e, key, value)[j]; r == Entry(key, value) || r in e
  {
    hide Less;
    if e != [] && e[0].key != key && !Less(key, e[0].key) && j > 0 {
      InsertKeys(e[1..], key, value, j - 1);
    }
  }

  lemma {:induction false} InsertSorted(e: seq<Entry>, key: seq<byte>, value: Value)
    requires Sorted(e)
    ensures Sorted(Insert(e, key, value))
  {
    hide Less;
    if e == [] || e[0].key == key {
    } else if Less(key, e[0].key) {
      forall j | 0 <= j < |e| ensures Less(key, e[j].key) {
        if j > 0 {
          LessTransitive(key, e[0].key, e[j].key);
        }
      }
    } else {
      var tail := Insert(e[1..], key, value);
      LessTotal(e[0].key, key);
      InsertSorted(e[1..], key, value);
      forall j | 0 <= j < |tail| ensures Less(e[0].key, tail[j].key) {
        InsertKeys(e[1..], key, value, j);
        if tail[j] in e[1..] {
          var k :| 0 <= k < |e[1..]| && e[1..][k] == tail[j];
          assert e[k + 1] == tail[j];
        }
      }
    }
  }

  /** Inserting sets one key and leaves the others. */
  lemma {:induction false} LookupInsert(e: seq<Entry>, key: seq<byte>, value: Value, other: seq<byte>)
    requires Sorted(e)
    ensures Lookup(Insert(e, key, value), other) == if other == key then Some(value) else Lookup(e, other)
  {
    if e != [] && e[0].key != key && !Less(key, e[0].key) {
      LookupInsert(e[1..], key, value, other);
    } else if e != [] && e[0].key != key {
      LookupAbsent(e, key);
    }
  }

  lemma {:induction false} LookupAbsent(e: seq<Entry>, key: seq<byte>)
    requires Sorted(e) && e != [] && Less(key, e[0].key)
    ensures Lookup(e, key) == None
  {
    hide Less;
    LessTotal(key, e[0].key);
    if |e| > 1 {
      LessTransitive(key, e[0].key, e[1].key);
      LookupAbsent(e[1..], key);
    }
  }

  // ---------------------------------------------------------------- decoding is local

  /** Two buffers agree on a window. */
  ghost predicate SameWindow(s: seq<byte>, i: nat, t: seq<byte>, j: nat, len: nat) {
    i + len <= |s| && j + len <= |t| && s[i..i + len] == t[j..j + len]
  }

  lemma {:induction false} LocalScan(s: seq<byte>, i: nat, t: seq<byte>, j: nat, c: byte)
    requires i <= |s| && ScanTo(s, i, c) < |s| && SameWindow(s, i, t, j, ScanTo(s, i, c) - i + 1)
    ensures ScanTo(t, j, c) - j == ScanTo(s, i, c) - i
  {
    var a := ScanTo(s, i, c) - i;
    var w := s[i..i + a + 1];
    assert t[j + a] == w[a];
    forall k | j <= k < j + a ensures t[k] != c {
      assert t[k] == w[k - j] == s[i + (k - j)];
    }
  }

  lemma LocalSlice(s: seq<byte>, i: nat, t: seq<byte>, j: nat, len: nat, a: nat, b: nat)
    requires SameWindow(s, i, t, j, len) && a <= b <= len
    ensures s[i + a..i + b] == t[j + a..j + b]
  {
    SliceOfSlice(s, i, len, a, b);
    SliceOfSlice(t, j, len, a, b);
  }

  lemma SliceOfSlice(s: seq<byte>, i: nat, len: nat, a: nat, b: nat)
    requires i + len <= |s| && a <= b <= len
    ensures s[i..i + len][a..b] == s[i + a..i + b]
  {
    var w := s[i..i + len];
    forall k | 0 <= k < b - a ensures w[a..b][k] == s[i + a..i + b][k] {
      assert w[a..b][k] == w[a + k] == s[i + (a + k)];
    }
  }

  lemma LocalBytes(s: seq<byte>, i: nat, t: seq<byte>, j: nat)
    requires |t| <= BUFFER_MAX && i < |s| && DecodeBytes(s, i).Done?
    requires SameWindow(s, i, t, j, DecodeBytes(s, i).next - i)
    ensures j < |t| && DecodeBytes(t, j) == Done(DecodeBytes(s, i).value, DecodeBytes(s, i).next - i + j)
  {
    hide ScanTo, ParseUsize;
    var n := DecodeBytes(s, i).next - i;
    var c := ScanTo(s, i, COLON) - i;
    Inner(s, i, t, j, n, 0, c + 1);
    LocalScan(s, i, t, j, COLON);
    LocalSlice(s, i, t, j, n, 0, c);
    LocalSlice(s, i, t, j, n, c + 1, n);
  }

  lemma LocalInt(s: seq<byte>, i: nat, t: seq<byte>, j: nat)
    requires i < |s| && DecodeInt(s, i).Done?
    requires SameWindow(s, i, t, j, DecodeInt(s, i).next - i)
    ensures j < |t| && DecodeInt(t, j) == Done(DecodeInt(s, i).value, DecodeInt(s, i).next - i + j)
  {
    hide ScanTo, ParseI64;
    var n := DecodeInt(s, i).next - i;
    var c := ScanTo(s, i + 1, END_MARK) - i;
    Inner(s, i, t, j, n, 1, n - 1);
    LocalScan(s, i + 1, t, j + 1, END_MARK);
    LocalSlice(s, i, t, j, n, 1, c);
  }

  lemma Inner(s: seq<byte>, i: nat, t: seq<byte>, j: nat, len: nat, off: nat, sub: nat)
    requires SameWindow(s, i, t, j, len) && off + sub <= len
    ensures SameWindow(s, i + off, t, j + off, sub) && i + len <= |s| && j + len <= |t|
    ensures off < len ==> s[i + off] == t[j + off]
  {
    LocalSlice(s, i, t, j, len, off, off + sub);
    if off < len {
      assert s[i..i + len][off] == t[j..j + len][off];
    }
  }

  /** A decode reads nothing outside the bytes it consumes: the same bytes anywhere decode
      to the same value. */
  lemma {:induction false} Local(s: seq<byte>, i: nat, t: seq<byte>, j: nat)
    requires |t| <= BUFFER_MAX && DecodeAt(s, i).Done? && SameWindow(s, i, t, j, DecodeAt(s, i).next - i)
    ensures DecodeAt(t, j) == Done(DecodeAt(s, i).value, DecodeAt(s, i).next - i + j)
    decreases |s| - i, 0
  {
    hide IsDigit, DecodeInt, DecodeBytes, SameWindow, DecodeItems, DecodeEntries;
    var n := DecodeAt(s, i).next - i;
    Inner(s, i, t, j, n, 0, n);
    Inner(s, i, t, j, n, 1, n - 1);
    if s[i] == INT_MARK {
      LocalInt(s, i, t, j);
    } else if s[i] == LIST_MARK {
      LocalItems(s, i + 1, t, j + 1, []);
    } else if s[i] == DICT_MARK {
      LocalEntries(s, i + 1, t, j + 1, []);
    } else {
      LocalBytes(s, i, t, j);
    }
  }

  lemma {:induction false} LocalItems(s: seq<byte>, i: nat, t: seq<byte>, j: nat, acc: seq<Value>)
    requires |t| <= BUFFER_MAX && i <= |s| && DecodeItems(s, i, acc).Done?
    requires SameWindow(s, i, t, j, DecodeItems(s, i, acc).next - i)
    ensures j <= |t|
    ensures DecodeItems(t, j, acc) == Done(DecodeItems(s, i, acc).value, DecodeItems(s, i, acc).next - i + j)
    decreases |s| - i, 1
  {
    hide DecodeAt, SameWindow;
    var n := DecodeItems(s, i, acc).next - i;
    Inner(s, i, t, j, n, 0, n);
    if s[i] != END_MARK {
      var d := DecodeAt(s, i);
      var m := d.next - i;
      Inner(s, i, t, j, n, 0, m);
      Inner(s, i, t, j, n, m, n - m);
      Local(s, i, t, j);
      LocalItems(s, d.next, t, j + m, acc + [d.value]);
    }
  }

  lemma {:induction false} LocalEntries(s: seq<byte>, i: nat, t: seq<byte>, j: nat, acc: seq<Entry>)
    requires |t| <= BUFFER_MAX && i <= |s| && DecodeEntries(s, i, acc).Done?
    requires SameWindow(s, i, t, j, DecodeEntries(s, i, acc).next - i)
    ensures j <= |t|
    ensures DecodeEntries(t, j, acc) == Done(DecodeEntries(s, i, acc).value, DecodeEntries(s, i, acc).next - i + j)
    decreases |s| - i, 1
  {
    hide DecodeAt, Insert, SameWindow, DecodeEntries;
    var n := DecodeEntries(s, i, acc).next - i;
    EntriesEnd(s, i, acc);
    Inner(s, i, t, j, n, 0, n);
    if s[i] == END_MARK {
      EntriesEnd(t, j, acc);
    } else {
      var k := DecodeAt(s, i);
      EntriesStep(s, i, acc);
      var v := DecodeAt(s, k.next);
      var a, b := k.next - i, v.next - i;
      Inner(s, i, t, j, n, 0, a);
      Inner(s, i, t, j, n, a, b - a);
      Inner(s, i, t, j, n, b, n - b);
      Local(s, i, t, j);
      Local(s, k.next, t, j + a);
      EntriesNext(t, j, acc);
      LocalEntries(s, v.next, t, j + b, Insert(acc, k.value.b, v.value));
    }
  }

  lemma EntriesEnd(s: seq<byte>, i: nat, acc: seq<Entry>)
    requires i <= |s|
    ensures DecodeEntries(s, i, acc).Done? ==> i < |s|
    ensures i < |s| && s[i] == END_MARK ==> DecodeEntries(s, i, acc) == Done(acc, i + 1)
  {}

  /** One turn of the dictionary loop that succeeds in the end. */
  lemma EntriesStep(s: seq<byte>, i: nat, acc: seq<Entry>)
    requires i < |s| && s[i] != END_MARK && DecodeEntries(s, i, acc).Done?
    ensures DecodeAt(s, i).Done? && DecodeAt(s, i).value.Bytes?
    ensures var k := DecodeAt(s, i);
            && DecodeAt(s, k.next).Done?
            && DecodeEntries(s, i, acc)
               == DecodeEntries(s, DecodeAt(s, k.next).next, Insert(acc, k.value.b, DecodeAt(s, k.next).value))
  {
    hide DecodeAt, Insert;
  }

  lemma EntriesNext(s: seq<byte>, i: nat, acc: seq<Entry>)
    requires i < |s| && s[i] != END_MARK && DecodeAt(s, i).Done? && DecodeAt(s, i).value.Bytes?
    requires DecodeAt(s, DecodeAt(s, i).next).Done?
    ensures var k := DecodeAt(s, i);
            DecodeEntries(s, i, acc)
            == DecodeEntries(s, DecodeAt(s, k.next).next, Insert(acc, k.value.b, DecodeAt(s, k.next).value))
  {
    hide DecodeAt, Insert;
  }

  /** The bytes a successful decode consumed decode to the same value on their own. */
  lemma SliceDecodes(s: seq<byte>, i: nat)
    requires |s| <= BUFFER_MAX && DecodeAt(s, i).Done?
    ensures DecodeFull(s[i..DecodeAt(s, i).next]) == Ok(DecodeAt(s, i).value)
  {
    var slice := s[i..DecodeAt(s, i).next];
    assert SameWindow(s, i, slice, 0, |slice|);
    Local(s, i, slice, 0);
  }

  // ---------------------------------------------------------------- the raw slice of a key

  /** One key-value pair as it stands in the input. */
  datatype RawEntry = RawEntry(key: seq<byte>, value: Value, start: nat, end: nat)

  /** The pairs of a dictionary body, in input order, as far as they decode. */
  ghost function RawEntries(s: seq<byte>, i: nat): seq<RawEntry>
    requires i <= |s|
    decreases |s| - i
  {
    if i >= |s| || s[i] == END_MARK then []
    else
      var k := DecodeAt(s, i);
      if k.Fail? || !k.value.Bytes? then []
      else
        var v := DecodeAt(s, k.next);
        if v.Fail? then []
        else [RawEntry(k.value.b, v.value, k.next, v.next)] + RawEntries(s, v.next)
  }

  /** The value of the last pair with this key. */
  ghost function LastOf(raws: seq<RawEntry>, key: seq<byte>): Option<Value> {
    if raws == [] then None
    else
      var later := LastOf(raws[1..], key);
      if later.Some? then later else if raws[0].key == key then Some(raws[0].value) else None
  }

  /** The first pair with this key. */
  ghost function FirstOf(raws: seq<RawEntry>, key: seq<byte>): Option<RawEntry> {
    if raws == [] then None else if raws[0].key == key then Some(raws[0]) else FirstOf(raws[1..], key)
  }

  ghost predicate DistinctKeys(raws: seq<RawEntry>) {
    forall i, j :: 0 <= i < j < |raws| ==> raws[i].key != raws[j].key
  }

  /** `decode_dict` keeps the last pair of each key. */
  lemma {:induction false} DictKeepsLast(s: seq<byte>, i: nat, acc: seq<Entry>, key: seq<byte>)
    requires i <= |s| && DecodeEntries(s, i, acc).Done? && Sorted(acc)
    ensures var dict := DecodeEntries(s, i, acc).value; var last := LastOf(RawEntries(s, i), key);
            && Sorted(dict)
            && Lookup(dict, key) == if last.Some? then last else Lookup(acc, key)
    decreases |s| - i
  {
    hide DecodeAt, Insert, Lookup, Sorted;
    if s[i] != END_MARK {
      var k := DecodeAt(s, i);
      var v := DecodeAt(s, k.next);
      var acc' := Insert(acc, k.value.b, v.value);
      InsertSorted(acc, k.value.b, v.value);
      LookupInsert(acc, k.value.b, v.value, key);
      DictKeepsLast(s, v.next, acc', key);
      var raws := RawEntries(s, i);
      assert raws[0] == RawEntry(k.value.b, v.value, k.next, v.next) && raws[1..] == RawEntries(s, v.next);
    }
  }

  /** `find_raw_dict_value` takes the first pair, and its span decodes to its value. */
  lemma {:induction false} FindTakesFirst(s: seq<byte>, i: nat, acc: seq<Entry>, key: seq<byte>)
    requires i <= |s| && DecodeEntries(s, i, acc).Done?
    ensures var first := FirstOf(RawEntries(s, i), key);
            && FindFrom(s, key, i)
               == (if first.Some? then Ok((first.value.start, first.value.end)) else Err(KeyNotFound))
            && (first.Some? ==> DecodeAt(s, first.value.start) == Done(first.value.value, first.value.end))
    decreases |s| - i
  {
    hide DecodeAt, Insert;
    if s[i] != END_MARK {
      var k := DecodeAt(s, i);
      var v := DecodeAt(s, k.next);
      FindTakesFirst(s, v.next, Insert(acc, k.value.b, v.value), key);
      var raws := RawEntries(s, i);
      assert raws[0] == RawEntry(k.value.b, v.value, k.next, v.next) && raws[1..] == RawEntries(s, v.next);
    }
  }

  lemma {:induction false} FirstIsLast(raws: seq<RawEntry>, key: seq<byte>)
    ensures FirstOf(raws, key).Some? <==> LastOf(raws, key).Some?
    ensures DistinctKeys(raws) && FirstOf(raws, key).Some? ==> LastOf(raws, key) == Some(FirstOf(raws, key).value.value)
  {
    if raws != [] {
      FirstIsLast(raws[1..], key);
      if DistinctKeys(raws) && raws[0].key == key {
        NoneLater(raws[1..], key);
      }
    }
  }

  lemma {:induction false} NoneLater(raws: seq<RawEntry>, key: seq<byte>)
    requires forall i :: 0 <= i < |raws| ==> raws[i].key != key
    ensures LastOf(raws, key) == None
  {
    if raws != [] {
      NoneLater(raws[1..], key);
    }
  }

  /** For any accepted root dictionary: a slice is found exactly for the keys the decoder
      stored, the slice decodes on its own, and it decodes to the stored value exactly when
      the first and the last pair with that key carry the same value. */
  lemma RawSliceMeaning(s: seq<byte>, key: seq<byte>)
    requires |s| <= BUFFER_MAX && DecodeFull(s).Ok? && DecodeFull(s).value.Dict?
    ensures var dict := DecodeFull(s).value.entries; var raws := RawEntries(s, 1);
            && (FindRaw(s, key).Ok? <==> Lookup(dict, key).Some?)
            && (FindRaw(s, key).Ok? ==>
                  && FirstOf(raws, key).Some?
                  && DecodeFull(FindRaw(s, key).value) == Ok(FirstOf(raws, key).value.value)
                  && Lookup(dict, key) == LastOf(raws, key))
  {
    RootIsDict(s);
    hide DecodeAt, DecodeEntries, Lookup, FirstOf, LastOf, RawEntries, DecodeFull, FindFrom;
    DictKeepsLast(s, 1, [], key);
    FindTakesFirst(s, 1, [], key);
    FirstIsLast(RawEntries(s, 1), key);
    EmptyLookup(key);
    if FindRaw(s, key).Ok? {
      SliceDecodes(s, FirstOf(RawEntries(s, 1), key).value.start);
    }
  }

  lemma EmptyLookup(key: seq<byte>)
    ensures Lookup([], key) == None
  {}

  lemma RootIsDict(s: seq<byte>)
    requires DecodeFull(s).Ok? && DecodeFull(s).value.Dict?
    ensures s != [] && s[0] == DICT_MARK && DecodeEntries(s, 1, []).Done?
    ensures DecodeEntries(s, 1, []).value == DecodeFull(s).value.entries
  {
    hide DecodeItems, DecodeEntries;
  }

  /** With distinct keys the raw slice decodes to exactly what the decoder stored. */
  lemma DistinctKeysAgree(s: seq<byte>, key: seq<byte>)
    requires |s| <= BUFFER_MAX && DecodeFull(s).Ok? && DecodeFull(s).value.Dict?
    requires DistinctKeys(RawEntries(s, 1)) && Lookup(DecodeFull(s).value.entries, key).Some?
    ensures FindRaw(s, key).Ok?
    ensures DecodeFull(FindRaw(s, key).value) == Ok(Lookup(DecodeFull(s).value.entries, key).value)
  {
    hide DecodeFull, Lookup, RawEntries, FindRaw;
    RootIsDict(s);
    RawSliceMeaning(s, key);
    FirstIsLast(RawEntries(s, 1), key);
  }

  // ---------------------------------------------------------------- on the encoder's output

  lemma {:induction false} FindInEncoded(entries: seq<Entry>, s: seq<byte>, i: nat, key: seq<byte>)
    requires Sorted(entries) && forall k :: 0 <= k < |entries| ==> ValidValue(entries[k].value)
    requires At(s, i, EncodeEntries(entries) + [END_MARK]) && |s| <= BUFFER_MAX
    ensures i <= |s|
    ensures Lookup(entries, key).None? ==> FindFrom(s, key, i) == Err(KeyNotFound)
    ensures Lookup(entries, key).Some? ==>
              && FindFrom(s, key, i).Ok?
              && s[FindFrom(s, key, i).value.0..FindFrom(s, key, i).value.1] == Encode(Lookup(entries, key).value)
    decreases |entries|
  {
    hide At, Encode, EncodeBytes, ValidValue, DecodeAt, Less;
    AtHead(s, i, EncodeEntries(entries) + [END_MARK]);
    if entries != [] {
      var e := entries[0];
      EntryStands(entries, s, i);
      RoundKey(e.key, s, i);
      var mid := i + |EncodeBytes(e.key)|;
      RoundTrip(e.value, s, mid);
      SliceIs(s, mid, Encode(e.value));
      FindInEncoded(entries[1..], s, mid + |Encode(e.value)|, key);
    }
  }

  lemma SliceIs(s: seq<byte>, i: nat, w: seq<byte>)
    requires At(s, i, w)
    ensures i + |w| <= |s| && s[i..i + |w|] == w
  {}

  /** On encoded dictionaries the slice is the encoding of the stored value, byte for byte;
      so the infohash of a re-encoded torrent is the hash of its re-encoded info. */
  lemma EncodedSlice(entries: seq<Entry>, key: seq<byte>, sha1: Sha1)
    requires ValidValue(Dict(entries)) && |Encode(Dict(entries))| <= BUFFER_MAX
    ensures var found := FindRaw(Encode(Dict(entries)), key); var stored := Lookup(entries, key);
            && (stored.Some? ==> found == Ok(Encode(stored.value)) && sha1(found.value) == sha1(Encode(stored.value)))
            && (stored.None? ==> found == Err(KeyNotFound))
  {
    var s := Encode(Dict(entries));
    var body := EncodeEntries(entries) + [END_MARK];
    assert s == [DICT_MARK] + body;
    assert At(s, 1, body);
    hide Encode, At, EncodeEntries, FindFrom, Lookup;
    FindInEncoded(entries, s, 1, key);
  }

  // ---------------------------------------------------------------- where it fails

  /** The slice decodes to the stored value exactly when the first and the last pair with the
      key carry the same value. */
  lemma SliceAgreesExactly(s: seq<byte>, key: seq<byte>)
    requires |s| <= BUFFER_MAX && DecodeFull(s).Ok? && DecodeFull(s).value.Dict? && FindRaw(s, key).Ok?
    ensures s != [] && FirstOf(RawEntries(s, 1), key).Some? && Lookup(DecodeFull(s).value.entries, key).Some?
    ensures DecodeFull(FindRaw(s, key).value) == Ok(Lookup(DecodeFull(s).value.entries, key).value)
       <==> LastOf(RawEntries(s, 1), key) == Some(FirstOf(RawEntries(s, 1), key).value.value)
  {
    hide DecodeFull, Lookup, RawEntries, FindRaw, FirstOf, LastOf;
    RootIsDict(s);
    RawSliceMeaning(s, key);
  }

  /** A root dictionary that repeats a key with two different values is accepted; the slice
      shows the first value, the decoded dictionary holds the second. */
  lemma RepeatedKeyDisagrees(key: seq<byte>, v: Value, w: Value)
    requires ValidValue(v) && ValidValue(w) && v != w
    requires |Encode(Dict([Entry(key, v), Entry(key, w)]))| <= BUFFER_MAX
    ensures var s := Encode(Dict([Entry(key, v), Entry(key, w)]));
            && DecodeFull(s) == Ok(Dict([Entry(key, w)]))
            && FindRaw(s, key) == Ok(Encode(v))
            && DecodeFull(FindRaw(s, key).value) == Ok(v)
  {
    hide At, Encode, EncodeBytes, EncodeEntries, ValidValue, DecodeAt, Less, DecodeEntries, FindFrom;
    var two, one := [Entry(key, v), Entry(key, w)], [Entry(key, w)];
    var s := Encode(Dict(two));
    WholeAt(s);
    DictStands(two, s, 0);
    EntryStands(two, s, 1);
    assert two[1..] == one && one[1..] == [];
    var k := |EncodeBytes(key)|;
    RoundKey(key, s, 1);
    RoundTrip(v, s, 1 + k);
    SliceIs(s, 1 + k, Encode(v));
    var i := 1 + k + |Encode(v)|;
    EntryStands(one, s, i);
    RoundKey(key, s, i);
    RoundTrip(w, s, i + k);
    NoEntries(s, i + k + |Encode(w)|, one);
    TwoTurns(s, key, v, w, 1);
    EntriesLength(two);
    DictAtRoot(s);
    RoundTripThenSuffix(v, []);
    assert Encode(v) + [] == Encode(v);
  }

  lemma DictAtRoot(s: seq<byte>)
    requires s != [] && s[0] == DICT_MARK && DecodeEntries(s, 1, []).Done?
    ensures DecodeAt(s, 0) == Done(Dict(DecodeEntries(s, 1, []).value), DecodeEntries(s, 1, []).next)
  {
    hide DecodeEntries;
  }

  lemma WholeAt(s: seq<byte>)
    ensures At(s, 0, s)
  {}

  lemma NoEntries(s: seq<byte>, i: nat, acc: seq<Entry>)
    requires At(s, i, EncodeEntries([]) + [END_MARK])
    ensures i < |s| && DecodeEntries(s, i, acc) == Done(acc, i + 1) && s[i] == END_MARK
  {
    AtHead(s, i, EncodeEntries([]) + [END_MARK]);
  }

  lemma EntriesLength(e: seq<Entry>)
    requires |e| == 2
    ensures |EncodeEntries(e)| == |EncodeBytes(e[0].key)| + |Encode(e[0].value)|
                                  + |EncodeBytes(e[1].key)| + |Encode(e[1].value)|
  {
    hide Encode, EncodeBytes;
    assert e[1..][1..] == [];
    assert EncodeEntries(e[1..]) == EncodeBytes(e[1].key) + Encode(e[1].value) + EncodeEntries([]);
  }

  lemma TwoTurns(s: seq<byte>, key: seq<byte>, v: Value, w: Value, i: nat)
    requires i < |s| && s[i] != END_MARK
    requires DecodeAt(s, i).Done? && DecodeAt(s, i).value == Bytes(key)
    requires var d := DecodeAt(s, DecodeAt(s, i).next);
             && d.Done? && d.value == v && d.next < |s| && s[d.next] != END_MARK
             && DecodeAt(s, d.next).Done? && DecodeAt(s, d.next).value == Bytes(key)
             && DecodeAt(s, DecodeAt(s, d.next).next).Done?
             && DecodeAt(s, DecodeAt(s, d.next).next).value == w
    ensures var d := DecodeAt(s, DecodeAt(s, i).next); var f := DecodeAt(s, DecodeAt(s, d.next).next);
            && DecodeEntries(s, i, []) == DecodeEntries(s, f.next, [Entry(key, w)])
            && FindFrom(s, key, i) == Ok((DecodeAt(s, i).next, d.next))
  {
    hide DecodeAt, DecodeEntries;
    EntriesNext(s, i, []);
    var d := DecodeAt(s, DecodeAt(s, i).next);
    assert Insert([], key, v) == [Entry(key, v)];
    EntriesNext(s, d.next, [Entry(key, v)]);
    assert Insert([Entry(key, v)], key, w) == [Entry(key, w)];
  }

  /** What becomes of a byte string whose length is spelled by the digits `d`, wherever it
      stands: past 64 bits the length is rejected; where cursor plus length passes 64 bits the
      sum overflows; past the end it is an error; otherwise the bytes are taken. */
  lemma LengthOutcomes(s: seq<byte>, i: nat, d: seq<byte>)
    requires d != [] && AllDigits(d) && At(s, i, d + [COLON])
    ensures var n, start := NumberOf(d), i + |d| + 1;
            DecodeAt(s, i)
            == if n > USIZE_MAX then Fail(BadLength)
               else if start + n > USIZE_MAX then Fail(Overflow)
               else if start + n > |s| then Fail(PastEnd)
               else Done(Bytes(s[start..start + n]), start + n)
  {
    hide ParseUsize, IsDigit, ScanTo, DecodeAt, DecodeBytes, At, NumberOf, AllDigits;
    DigitsHaveNoMarks(d);
    ScanOver(s, i, d, COLON);
    AtSplit(s, i, d, [COLON]);
    AtHead(s, i, d);
    FirstDigit(d);
    DigitStarts(s, i);
    BytesAt(s, i, i + |d|);
  }

  lemma FirstDigit(d: seq<byte>)
    requires d != [] && AllDigits(d)
    ensures IsDigit(d[0])
  {}

  /** The string reader after its colon is found at `j`. */
  lemma BytesAt(s: seq<byte>, i: nat, j: nat)
    requires i <= j < |s| && ScanTo(s, i, COLON) == j
    ensures var len := ParseUsize(s[i..j]);
            DecodeBytes(s, i)
            == if len.None? then Fail(BadLength)
               else if j + 1 + len.value > USIZE_MAX then Fail(Overflow)
               else if j + 1 + len.value > |s| then Fail(PastEnd)
               else Done(Bytes(s[j + 1..j + 1 + len.value]), j + 1 + len.value)
  {
    hide ScanTo, ParseUsize;
  }

  lemma DigitsHaveNoMarks(d: seq<byte>)
    requires d != [] && AllDigits(d)
    ensures forall k :: 0 <= k < |d| ==> d[k] != COLON
    ensures ParseUsize(d) == if NumberOf(d) <= USIZE_MAX then Some(NumberOf(d)) else None
  {
    hide IsDigit, NumberOf;
    forall k | 0 <= k < |d| ensures d[k] != COLON && d[k] != PLUS {
      DigitIsNoMark(d[k]);
    }
  }

  /** The same for a length as the encoder writes it, at the front of a buffer. */
  lemma CanonicalLengthOutcomes(n: nat, r: seq<byte>)
    ensures var s, head := Decimal(n) + [COLON] + r, |Decimal(n)| + 1;
            DecodeAt(s, 0)
            == if n > USIZE_MAX then Fail(BadLength)
               else if head + n > USIZE_MAX then Fail(Overflow)
               else if n > |r| then Fail(PastEnd)
               else Done(Bytes(r[..n]), head + n)
  {
    hide Decimal, DecodeAt, At;
    DecimalBack(n);
    PrefixAt(Decimal(n) + [COLON], r);
    LengthOutcomes(Decimal(n) + [COLON] + r, 0, Decimal(n));
    if n <= |r| {
      TailSlice(Decimal(n) + [COLON], r, n);
    }
  }

  lemma PrefixAt(w: seq<byte>, r: seq<byte>)
    ensures At(w + r, 0, w)
  {}

  lemma TailSlice(w: seq<byte>, r: seq<byte>, n: nat)
    requires n <= |r|
    ensures (w + r)[|w|..|w| + n] == r[..n]
  {}

  lemma DigitStarts(s: seq<byte>, i: nat)
    requires i < |s| && IsDigit(s[i])
    ensures DecodeAt(s, i) == DecodeBytes(s, i)
  {
    DigitIsNoMark(s[i]);
    hide IsDigit, DecodeBytes, DecodeItems, DecodeEntries, DecodeInt;
  }

  /** The overflow is reachable: the largest 64-bit length, with nothing after it. */
  lemma OverflowWitness()
    ensures DecodeAt(Decimal(USIZE_MAX) + [COLON], 0) == Fail(Overflow)
  {
    hide Decimal, DecodeAt;
    CanonicalLengthOutcomes(USIZE_MAX, []);
    assert Decimal(USIZE_MAX) + [COLON] + [] == Decimal(USIZE_MAX) + [COLON];
  }

  // ---------------------------------------------------------------- everything decoded is valid

  lemma {:induction false} InsertValid(e: seq<Entry>, key: seq<byte>, value: Value)
    requires ValidValue(value) && forall k :: 0 <= k < |e| ==> ValidValue(e[k].value)
    ensures forall k :: 0 <= k < |Insert(e, key, value)| ==> ValidValue(Insert(e, key, value)[k].value)
  {
    hide ValidValue, Less;
    forall j | 0 <= j < |Insert(e, key, value)| ensures ValidValue(Insert(e, key, value)[j].value) {
      InsertKeys(e, key, value, j);
    }
  }

  /** Whatever is accepted is a value the engine can hold: integers in range, keys sorted. */
  lemma {:induction false} DecodedValid(s: seq<byte>, i: nat)
    requires DecodeAt(s, i).Done?
    ensures ValidValue(DecodeAt(s, i).value)
    decreases |s| - i, 0
  {
    hide DecodeItems, DecodeEntries;
    if s[i] == LIST_MARK {
      DecodedItemsValid(s, i + 1, []);
    } else if s[i] == DICT_MARK {
      DecodedEntriesValid(s, i + 1, []);
    }
  }

  lemma {:induction false} DecodedItemsValid(s: seq<byte>, i: nat, acc: seq<Value>)
    requires i <= |s| && DecodeItems(s, i, acc).Done? && forall k :: 0 <= k < |acc| ==> ValidValue(acc[k])
    ensures var r := DecodeItems(s, i, acc).value; forall k :: 0 <= k < |r| ==> ValidValue(r[k])
    decreases |s| - i, 1
  {
    hide DecodeAt, ValidValue;
    if s[i] != END_MARK {
      DecodedValid(s, i);
      DecodedItemsValid(s, DecodeAt(s, i).next, acc + [DecodeAt(s, i).value]);
    }
  }

  lemma {:induction false} DecodedEntriesValid(s: seq<byte>, i: nat, acc: seq<Entry>)
    requires i <= |s| && DecodeEntries(s, i, acc).Done? && ValidValue(Dict(acc))
    ensures ValidValue(Dict(DecodeEntries(s, i, acc).value))
    decreases |s| - i, 1
  {
    hide DecodeAt, DecodeEntries, Insert;
    EntriesEnd(s, i, acc);
    if s[i] != END_MARK {
      EntriesStep(s, i, acc);
      var k := DecodeAt(s, i);
      var v := DecodeAt(s, k.next);
      DecodedValid(s, k.next);
      InsertValid(acc, k.value.b, v.value);
      InsertSorted(acc, k.value.b, v.value);
      DecodedEntriesValid(s, v.next, Insert(acc, k.value.b, v.value));
    }
  }
}
