/** Torrents the metainfo reader accepts that show where promises end: the bytes are spelled out
    as the encoder writes them. `decode` is any text decoder that reads the few names used. */
module MetainfoCases {
  import opened Wrappers
  import opened Bits
  import opened Hashing
  import opened Paths
  import opened PathText
  import opened Spans
  import opened Bencode
  import opened Metainfos
  import opened DiskIo
  import BencodeLaws

  // ---------------------------------------------------------------- sizes and keys

  lemma {:induction false} ShortDecimal(n: nat)
    requires n < 1000
    ensures |Decimal(n)| <= 3
  {
    if n >= 100 {
      ShortDecimal(n / 10);
      assert |Decimal(n / 10)| <= 2 by {
        assert n / 10 < 100;
        TwoDigits(n / 10);
      }
    } else {
      TwoDigits(n);
    }
  }

  lemma TwoDigits(n: nat)
    requires n < 100
    ensures |Decimal(n)| <= 2
  {
    if n >= 10 {
      assert n / 10 < 10;
    }
  }

  lemma ShortBytes(b: seq<byte>)
    requires |b| < 1000
    ensures |EncodeBytes(b)| <= |b| + 4 && Encode(Bytes(b)) == EncodeBytes(b)
  {
    hide Decimal;
    ShortDecimal(|b|);
  }

  lemma ShortInt(n: int)
    requires -100 < n < 100
    ensures |Encode(Int(n))| <= 4 + 1 && ValidValue(Int(n))
  {
    hide Decimal;
    TwoDigits(if n < 0 then -n else n);
  }

  lemma EntriesSize(e: seq<Entry>)
    requires e != []
    ensures |EncodeEntries(e)| == |EncodeBytes(e[0].key)| + |Encode(e[0].value)| + |EncodeEntries(e[1..])|
    ensures EncodeEntries([]) == []
  {
    hide Encode, EncodeBytes;
  }

  lemma DictSize(e: seq<Entry>)
    ensures |Encode(Dict(e))| == |EncodeEntries(e)| + 2
  {
    hide EncodeEntries;
  }

  lemma LessCons(x: byte, a: seq<byte>, b: seq<byte>)
    requires Less(a, b)
    ensures Less([x] + a, [x] + b)
  {
    assert ([x] + a)[1..] == a && ([x] + b)[1..] == b;
  }

  lemma {:induction false} LessAfter(common: seq<byte>, a: seq<byte>, b: seq<byte>)
    requires Less(a, b)
    ensures Less(common + a, common + b)
  {
    hide Less;
    if common == [] {
      assert [] + a == a && [] + b == b;
    } else {
      LessAfter(common[1..], a, b);
      LessCons(common[0], common[1..] + a, common[1..] + b);
      assert [common[0]] + (common[1..] + a) == common + a && [common[0]] + (common[1..] + b) == common + b;
    }
  }

  lemma KeysInOrder()
    ensures Less(FILES, PIECE_LENGTH) && Less(FILES, PIECES) && Less(PIECE_LENGTH, PIECES)
    ensures Less(LENGTH, PATH) && Less(LENGTH, PIECE_LENGTH) && Less(LENGTH, PIECES)
    ensures Less(LENGTH, NAME) && Less(NAME, PIECE_LENGTH) && Less(NAME, PIECES)
  {
    var common := PIECES[..5];
    assert common + PIECE_LENGTH[5..] == PIECE_LENGTH && common + PIECES[5..] == PIECES;
    LessAfter(common, PIECE_LENGTH[5..], PIECES[5..]);
  }

  lemma ItemsSize(items: seq<Value>)
    ensures |Encode(List(items))| == |EncodeItems(items)| + 2 && EncodeItems([]) == []
    ensures items != [] ==> |EncodeItems(items)| == |Encode(items[0])| + |EncodeItems(items[1..])|
  {}

  lemma TwoItemsSize(a: Value, b: Value)
    ensures |Encode(List([a, b]))| == |Encode(a)| + |Encode(b)| + 2
  {
    hide Encode, EncodeItems;
    ItemsSize([a, b]);
    ItemsSize([b]);
    assert [a, b][1..] == [b] && [b][1..] == [];
  }

  lemma ThreeEntriesSize(a: Entry, b: Entry, c: Entry)
    ensures |EncodeEntries([a, b, c])|
         == |EncodeBytes(a.key)| + |Encode(a.value)| + |EncodeBytes(b.key)| + |Encode(b.value)|
            + |EncodeBytes(c.key)| + |Encode(c.value)|
    ensures |Encode(Dict([a, b, c]))| == |EncodeEntries([a, b, c])| + 2
  {
    hide Encode, EncodeBytes, EncodeEntries;
    DictSize([a, b, c]);
    EntriesSize([a, b, c]);
    EntriesSize([b, c]);
    EntriesSize([c]);
    assert [a, b, c][1..] == [b, c] && [b, c][1..] == [c] && [c][1..] == [];
  }

  lemma FourEntriesSize(a: Entry, b: Entry, c: Entry, d: Entry)
    ensures |Encode(Dict([a, b, c, d]))|
         == |EncodeBytes(a.key)| + |Encode(a.value)| + |EncodeBytes(b.key)| + |Encode(b.value)|
            + |EncodeBytes(c.key)| + |Encode(c.value)| + |EncodeBytes(d.key)| + |Encode(d.value)| + 2
  {
    hide Encode, EncodeBytes, EncodeEntries;
    DictSize([a, b, c, d]);
    EntriesSize([a, b, c, d]);
    ThreeEntriesSize(b, c, d);
    assert [a, b, c, d][1..] == [b, c, d];
  }

  // ---------------------------------------------------------------- file listings

  /** A listed file. */
  function ListedFile(n: int, path: seq<Value>): Value {
    Dict([Entry(LENGTH, Int(n)), Entry(PATH, List(path))])
  }

  lemma ListedFileFits(n: int, path: seq<Value>, room: nat)
    requires -100 < n < 100 && ValidValue(List(path)) && |Encode(List(path))| <= room
    ensures ValidValue(ListedFile(n, path)) && |Encode(ListedFile(n, path))| <= room + 40
  {
    hide Less, Encode, EncodeBytes, EncodeEntries, EncodeItems;
    KeysInOrder();
    var e := ListedFile(n, path).entries;
    DictSize(e);
    EntriesSize(e);
    EntriesSize(e[1..]);
    assert e[1..][1..] == [];
    ShortBytes(LENGTH);
    ShortBytes(PATH);
    ShortInt(n);
  }

  lemma ListedFileReads(n: int, path: seq<Value>)
    ensures GetInt(ListedFile(n, path), LENGTH) == Some(n) && GetList(ListedFile(n, path), PATH) == Some(path)
  {
    var e := ListedFile(n, path).entries;
    assert Lookup(e, LENGTH) == Some(Int(n));
    assert e[1..][0] == Entry(PATH, List(path)) && PATH != LENGTH;
    assert Lookup(e, PATH) == Lookup(e[1..], PATH) == Some(List(path));
  }

  /** The `info` of two listed files. */
  function Listing(f: Value, g: Value, pieceLength: int, pieces: seq<byte>): Value {
    Dict([Entry(FILES, List([f, g])), Entry(PIECE_LENGTH, Int(pieceLength)), Entry(PIECES, Bytes(pieces))])
  }

  function Torrent(info: Value): Value {
    Dict([Entry(INFO, info)])
  }

  lemma TorrentFits(info: Value, room: nat)
    requires ValidValue(info) && |Encode(info)| <= room
    ensures ValidValue(Torrent(info)) && |Encode(Torrent(info))| <= room + 20
  {
    hide Encode, EncodeBytes, EncodeEntries;
    var e := Torrent(info).entries;
    DictSize(e);
    EntriesSize(e);
    assert e[1..] == [];
    ShortBytes(INFO);
  }

  lemma ListingFits(f: Value, g: Value, pieceLength: int, pieces: seq<byte>, room: nat)
    requires ValidValue(f) && ValidValue(g) && |Encode(f)| <= room && |Encode(g)| <= room
    requires -100 < pieceLength < 100 && |pieces| <= 20
    ensures ValidValue(Listing(f, g, pieceLength, pieces))
    ensures |Encode(Listing(f, g, pieceLength, pieces))| <= 2 * room + 100
  {
    hide Less, Encode, EncodeBytes, EncodeEntries;
    KeysInOrder();
    TwoItemsSize(f, g);
    var e := Listing(f, g, pieceLength, pieces).entries;
    ThreeEntriesSize(e[0], e[1], e[2]);
    ShortBytes(FILES);
    ShortBytes(PIECE_LENGTH);
    ShortBytes(PIECES);
    ShortBytes(pieces);
    ShortInt(pieceLength);
  }

  lemma KeysApart()
    ensures PIECE_LENGTH != FILES && PIECE_LENGTH != PIECES && PIECES != FILES && NAME != FILES
    ensures NAME != PIECE_LENGTH && NAME != PIECES && LENGTH != NAME && LENGTH != PIECES && LENGTH != PIECE_LENGTH
    ensures FILES != LENGTH
  {
    assert PIECES[5] != PIECE_LENGTH[5];
  }

  lemma ListingReads(f: Value, g: Value, pieceLength: int, pieces: seq<byte>)
    ensures var info := Listing(f, g, pieceLength, pieces);
            && GetList(info, FILES) == Some([f, g]) && GetInt(info, PIECE_LENGTH) == Some(pieceLength)
            && GetBytes(info, PIECES) == Some(pieces) && Metainfos.Get(info, NAME) == None
  {
    KeysApart();
    var e := Listing(f, g, pieceLength, pieces).entries;
    assert Lookup(e, FILES) == Some(List([f, g]));
    assert Lookup(e, PIECE_LENGTH) == Lookup(e[1..], PIECE_LENGTH) == Some(Int(pieceLength));
    assert Lookup(e, PIECES) == Lookup(e[1..], PIECES) == Lookup(e[1..][1..], PIECES) == Some(Bytes(pieces));
    assert Lookup(e, NAME) == Lookup(e[1..], NAME) == Lookup(e[1..][1..], NAME) == Lookup([], NAME) == None;
  }

  lemma ListingTotal(f: Value, g: Value, pieceLength: int, pieces: seq<byte>, n: int, m: int)
    requires GetInt(f, LENGTH) == Some(n) && GetInt(g, LENGTH) == Some(m)
    ensures DeclaredTotal(Listing(f, g, pieceLength, pieces)) == AsU64(n) + AsU64(m)
  {
    hide GetInt, GetList, Listing, AsU64;
    ListingReads(f, g, pieceLength, pieces);
    var list := [f, g];
    assert LengthsSum(list, 1) == AsU64(n);
    assert LengthsSum(list, 2) == LengthsSum(list, 1) + AsU64(m);
  }

  /** A root with a single key is accepted as the torrent of its `info`. */
  lemma SingleInfo(info: Value, decode: Decoder)
    requires InfoAcceptable(info, decode) && ValidValue(Torrent(info))
    requires |Encode(Torrent(info))| <= BUFFER_MAX
    ensures var data := Encode(Torrent(info));
            && Acceptable(data, decode) && DecodeFull(data) == Ok(Torrent(info))
            && Metainfos.Get(DecodeFull(data).value, INFO) == Some(info)
  {
    hide Encode, InfoAcceptable, ValidValue, DecodeFull, FindRaw;
    var entries := [Entry(INFO, info)];
    var data := Encode(Dict(entries));
    BencodeLaws.RoundTripThenSuffix(Dict(entries), []);
    assert data + [] == data;
    BencodeLaws.EncodedSlice(entries, INFO, _ => seq(20, _ => 0));
  }

  // ---------------------------------------------------------------- sizes that wrap

  /** Two files whose lengths cast to 2^64 - 1 and 1, and no pieces. */
  function WrappingInfo(): Value {
    Listing(ListedFile(-1, []), ListedFile(1, []), 1, [])
  }

  lemma NoComponents()
    ensures ValidValue(List([])) && |Encode(List([]))| == 2
  {
    ItemsSize([]);
  }

  lemma WrappingInfoFits()
    ensures ValidValue(WrappingInfo()) && |Encode(WrappingInfo())| <= 200
  {
    hide ValidValue, Encode, ListedFile, Listing;
    NoComponents();
    ListedFileFits(-1, [], 2);
    ListedFileFits(1, [], 2);
    ListingFits(ListedFile(-1, []), ListedFile(1, []), 1, [], 42);
  }

  lemma WrappingInfoAccepted(decode: Decoder)
    ensures InfoAcceptable(WrappingInfo(), decode) && DeclaredTotal(WrappingInfo()) == TWO_64
    ensures GetInt(WrappingInfo(), PIECE_LENGTH) == Some(1) && GetBytes(WrappingInfo(), PIECES) == Some([])
  {
    hide Metainfos.Get, GetInt, GetList, GetBytes, ListedFile, Listing, DeclaredTotal;
    ListedFileReads(-1, []);
    ListedFileReads(1, []);
    ListingReads(ListedFile(-1, []), ListedFile(1, []), 1, []);
    ListingTotal(ListedFile(-1, []), ListedFile(1, []), 1, [], -1, 1);
  }

  /** Lengths -1 and 1 with no pieces at all: accepted, and the layout is not well formed. */
  method ParseWrapping(decode: Decoder, sha1: Sha1) returns (r: Result<Metainfo, MetaError>)
    ensures r.Ok? && Checked(r.value) && FromInfo(r.value, WrappingInfo(), decode)
    ensures r.value.totalSize == 0 && r.value.pieceCount == 0 && SizeOfFirst(r.value.files, |r.value.files|) == TWO_64
    ensures forall root: string :: !WellFormed(LayoutOf(r.value, root))
  {
    hide InfoAcceptable, ValidValue, Acceptable, DecodeFull, FindRaw, Encode, WrappingInfo, GetInt, GetBytes, GetText,
         GetList, FilesFit, DeclaredTotal, OffsetsSaturate, SizeOfFirst, CeilDiv, WellFormed, Torrent;
    WrappingInfoAccepted(decode);
    WrappingInfoFits();
    TorrentFits(WrappingInfo(), 200);
    SingleInfo(WrappingInfo(), decode);
    r := ParseBytes(Encode(Torrent(WrappingInfo())), decode, sha1);
    forall root: string ensures !WellFormed(LayoutOf(r.value, root)) {
      AcceptedLayout(r.value, root);
    }
  }

  // ---------------------------------------------------------------- two infos

  /** A root that repeats `info` is read by the last one and hashed by the first. */
  lemma RepeatedInfo(v: Value, w: Value, decode: Decoder)
    requires ValidValue(v) && ValidValue(w) && v != w && InfoAcceptable(w, decode)
    requires |Encode(Dict([Entry(INFO, v), Entry(INFO, w)]))| <= BUFFER_MAX
    ensures var data := Encode(Dict([Entry(INFO, v), Entry(INFO, w)]));
            && Acceptable(data, decode)
            && Metainfos.Get(DecodeFull(data).value, INFO) == Some(w)
            && DecodeFull(FindRaw(data, INFO).value) == Ok(v)
  {
    hide Encode, InfoAcceptable, ValidValue, DecodeFull, FindRaw;
    BencodeLaws.RepeatedKeyDisagrees(INFO, v, w);
  }

  /** A torrent of no bytes. */
  function EmptyInfo(): Value {
    Dict([Entry(LENGTH, Int(0)), Entry(PIECE_LENGTH, Int(1)), Entry(PIECES, Bytes([]))])
  }

  lemma EmptyInfoReads()
    ensures GetInt(EmptyInfo(), LENGTH) == Some(0) && GetInt(EmptyInfo(), PIECE_LENGTH) == Some(1)
    ensures GetBytes(EmptyInfo(), PIECES) == Some([]) && GetList(EmptyInfo(), FILES) == None
  {
    KeysApart();
    var e := EmptyInfo().entries;
    assert Lookup(e, LENGTH) == Some(Int(0));
    assert Lookup(e, PIECE_LENGTH) == Lookup(e[1..], PIECE_LENGTH) == Some(Int(1));
    assert Lookup(e, PIECES) == Lookup(e[1..], PIECES) == Lookup(e[1..][1..], PIECES) == Some(Bytes([]));
    assert Lookup(e, FILES) == Lookup(e[1..], FILES) == Lookup(e[1..][1..], FILES) == Lookup([], FILES) == None;
  }

  lemma EmptyInfoFits()
    ensures ValidValue(EmptyInfo()) && |Encode(EmptyInfo())| <= 100
  {
    hide Less, Encode, EncodeBytes;
    KeysInOrder();
    var e := EmptyInfo().entries;
    ThreeEntriesSize(e[0], e[1], e[2]);
    ShortBytes(LENGTH);
    ShortBytes(PIECE_LENGTH);
    ShortBytes(PIECES);
    ShortBytes([]);
    ShortInt(0);
    ShortInt(1);
  }

  lemma EmptyInfoAccepted(decode: Decoder)
    ensures InfoAcceptable(EmptyInfo(), decode)
  {
    hide Metainfos.Get, GetInt, GetList, GetBytes, EmptyInfo, FileFits;
    EmptyInfoReads();
  }

  /** A first `info` that is the number 0, and a second that is an empty torrent: accepted, and
      the infohash is that of the number. */
  method ParseRepeated(decode: Decoder, sha1: Sha1) returns (r: Result<Metainfo, MetaError>)
    ensures r.Ok? && FromInfo(r.value, EmptyInfo(), decode) && r.value.infohash == sha1(Encode(Int(0)))
    ensures Int(0) != EmptyInfo()
  {
    hide InfoAcceptable, ValidValue, Acceptable, DecodeFull, FindRaw, Encode, FromInfo, EncodeEntries, EncodeBytes;
    EmptyInfoAccepted(decode);
    EmptyInfoFits();
    var entries := [Entry(INFO, Int(0)), Entry(INFO, EmptyInfo())];
    ShortBytes(INFO);
    ShortInt(0);
    DictSize(entries);
    BencodeLaws.EntriesLength(entries);
    RepeatedInfo(Int(0), EmptyInfo(), decode);
    BencodeLaws.RepeatedKeyDisagrees(INFO, Int(0), EmptyInfo());
    r := ParseBytes(Encode(Dict(entries)), decode, sha1);
  }

  // ---------------------------------------------------------------- payloads no disk can hold

  /** Some payload of the layout, or every one, fits on no disk. */
  ghost predicate LosesSome(l: StorageLayout) {
    WellFormed(l) && exists p: seq<byte> :: |p| == l.totalSize && !CanHold(l, p)
  }

  ghost predicate HoldsNothing(l: StorageLayout) {
    WellFormed(l) && forall p: seq<byte> :: |p| == l.totalSize ==> !CanHold(l, p)
  }

  lemma NotPlaceable(l: StorageLayout)
    requires WellFormed(l) && !Placeable(l.files)
    ensures LosesSome(l) && (DistinctPaths(l.files) ==> HoldsNothing(l))
  {
    hide WellFormed, Placeable, CanHold, DistinctPaths;
    var p := UnheldPayload(l);
  }

  const X: seq<byte> := [0x78]

  function Blanks(): (r: seq<byte>)
    ensures |r| == 256
  {
    seq(256, _ => 0x5f)
  }

  function OneHash(): (r: seq<byte>)
    ensures |r| == 20
  {
    seq(20, _ => 0)
  }

  /** The decoder reads the letter x and 256 underscores, as UTF-8 does. */
  ghost predicate ReadsNames(decode: Decoder) {
    decode(X) == Some("x") && decode(Blanks()) == Some(Underscores(256))
  }

  lemma NameX()
    ensures Normalized("x") == Ok("x")
  {
    hide Normalized;
    PlainName("x");
  }

  lemma NameUnknown()
    ensures Normalized("unknown") == Ok("unknown") && NoSlash("unknown")
  {
    hide Normalized;
    PlainName("unknown");
  }

  lemma Names(decode: Decoder)
    requires ReadsNames(decode)
    ensures ComponentOf(Bytes(X), decode) == Some("x") && ComponentOf(Bytes(Blanks()), decode) == Some("")
    ensures Normalized("unknown") == Ok("unknown") && NoSlash("unknown")
  {
    hide Normalized, Underscores, Blanks;
    NameX();
    NameUnknown();
    EmptyWitness();
  }

  lemma ShortPaths()
    ensures ValidValue(List([])) && |Encode(List([]))| <= 300
    ensures ValidValue(List([Bytes(X)])) && |Encode(List([Bytes(X)]))| <= 300
    ensures ValidValue(List([Bytes(Blanks()), Bytes(X)])) && |Encode(List([Bytes(Blanks()), Bytes(X)]))| <= 300
  {
    hide Encode, EncodeBytes, EncodeItems;
    NoComponents();
    ShortBytes(X);
    ShortBytes(Blanks());
    ItemsSize([Bytes(X)]);
    assert [Bytes(X)][1..] == [];
    ItemsSize([]);
    TwoItemsSize(Bytes(Blanks()), Bytes(X));
  }

  /** Two listed files of one byte each, in one piece. */
  function PairInfo(p: seq<Value>, q: seq<Value>): Value {
    Listing(ListedFile(1, p), ListedFile(1, q), 2, OneHash())
  }

  lemma PairFits(p: seq<Value>, q: seq<Value>)
    requires ValidValue(List(p)) && |Encode(List(p))| <= 300 && ValidValue(List(q)) && |Encode(List(q))| <= 300
    ensures ValidValue(PairInfo(p, q)) && |Encode(PairInfo(p, q))| <= 1000
  {
    hide ValidValue, Encode, ListedFile, Listing;
    ListedFileFits(1, p, 300);
    ListedFileFits(1, q, 300);
    ListingFits(ListedFile(1, p), ListedFile(1, q), 2, OneHash(), 340);
  }

  lemma PairAccepted(p: seq<Value>, q: seq<Value>, decode: Decoder)
    requires ComponentsFit(p, decode) && ComponentsFit(q, decode)
    ensures InfoAcceptable(PairInfo(p, q), decode) && DeclaredTotal(PairInfo(p, q)) == 2
  {
    hide Metainfos.Get, GetInt, GetList, GetBytes, ListedFile, Listing, DeclaredTotal, ComponentsFit;
    ListedFileReads(1, p);
    ListedFileReads(1, q);
    ListingReads(ListedFile(1, p), ListedFile(1, q), 2, OneHash());
    ListingTotal(ListedFile(1, p), ListedFile(1, q), 2, OneHash(), 1, 1);
  }

  lemma PairPieceLength(p: seq<Value>, q: seq<Value>)
    ensures GetInt(PairInfo(p, q), PIECE_LENGTH) == Some(2)
  {
    hide GetInt, Listing, ListedFile;
    ListingReads(ListedFile(1, p), ListedFile(1, q), 2, OneHash());
  }

  lemma PairPaths(p: seq<Value>, q: seq<Value>, decode: Decoder, files: seq<FileLayout>)
    requires ReadsNames(decode) && ComponentsFit(p, decode) && ComponentsFit(q, decode)
    requires FilesFit(PairInfo(p, q), decode) && FilesFrom(files, PairInfo(p, q), decode)
    ensures |files| == 2 && files[0].size == files[1].size == 1
    ensures files[0].path == PathOf("unknown", p, decode) && files[1].path == PathOf("unknown", q, decode)
  {
    Names(decode);
    ListedFileReads(1, p);
    ListedFileReads(1, q);
    ListingReads(ListedFile(1, p), ListedFile(1, q), 2, OneHash());
    var info := PairInfo(p, q);
    assert TorrentName(info, decode) == "unknown" by {
      hide Normalized;
    }
    hide Normalized, Metainfos.Get, GetInt, GetList, ListedFile, Listing, OffsetsSaturate, SizeOfFirst, DeclaredTotal,
         ComponentsFit, PathOf, TorrentName;
    assert FileIs([ListedFile(1, p), ListedFile(1, q)][0], "unknown", decode, files[0]);
    assert FileIs([ListedFile(1, p), ListedFile(1, q)][1], "unknown", decode, files[1]);
  }

  /** Parsing such a torrent: accepted, with a well-formed layout under every root. */
  method ParsePair(p: seq<Value>, q: seq<Value>, decode: Decoder, sha1: Sha1) returns (r: Result<Metainfo, MetaError>)
    requires ComponentsFit(p, decode) && ComponentsFit(q, decode)
    requires ValidValue(List(p)) && |Encode(List(p))| <= 300 && ValidValue(List(q)) && |Encode(List(q))| <= 300
    ensures r.Ok? && FromInfo(r.value, PairInfo(p, q), decode)
    ensures forall root: string :: WellFormed(LayoutOf(r.value, root))
  {
    hide InfoAcceptable, ValidValue, Acceptable, DecodeFull, FindRaw, Encode, PairInfo, GetInt, GetBytes, GetText,
         GetList, FilesFit, DeclaredTotal, OffsetsSaturate, SizeOfFirst, CeilDiv, WellFormed, Torrent, ComponentsFit,
         Checked;
    PairAccepted(p, q, decode);
    PairPieceLength(p, q);
    PairFits(p, q);
    TorrentFits(PairInfo(p, q), 1000);
    SingleInfo(PairInfo(p, q), decode);
    r := ParseBytes(Encode(Torrent(PairInfo(p, q))), decode, sha1);
    forall root: string ensures WellFormed(LayoutOf(r.value, root)) {
      SmallIsWellFormed(r.value, root);
    }
  }

  lemma SmallIsWellFormed(m: Metainfo, root: string)
    requires Checked(m) && SizeOfFirst(m.files, |m.files|) < 100 && m.pieceLength < 100
    ensures WellFormed(LayoutOf(m, root)) && m.totalSize == SizeOfFirst(m.files, |m.files|)
  {
    hide WellFormed, SizeOfFirst, OffsetsSaturate;
    AcceptedLayout(m, root);
    SmallQuotient(m.totalSize, m.pieceLength);
  }

  lemma SmallQuotient(a: nat, b: nat)
    requires 0 < b < 100 && a < 100
    ensures CeilDiv(a, b) < 200
  {
    var q := CeilDiv(a, b);
    assert q * b <= a + b - 1;
    assert q * b >= q * 1;
  }

  /** Files `unknown/x`, and the same behind an empty component: both accepted as different
      listings of one place. */
  method ParseShared(decode: Decoder, sha1: Sha1) returns (r: Result<Metainfo, MetaError>)
    requires ReadsNames(decode)
    ensures r.Ok? && FromInfo(r.value, PairInfo([Bytes(X)], [Bytes(Blanks()), Bytes(X)]), decode)
    ensures forall root: string :: LosesSome(LayoutOf(r.value, root))
  {
    hide FromInfo, ValidValue, Encode, PairInfo, WellFormed, LosesSome, Placeable, HoldsNothing;
    Names(decode);
    ShortPaths();
    ShortNames(decode);
    r := ParsePair([Bytes(X)], [Bytes(Blanks()), Bytes(X)], decode, sha1);
    FilesOf(r.value, [Bytes(X)], [Bytes(Blanks()), Bytes(X)], decode);
    SharedPlaces(r.value.files, decode);
    forall root: string ensures LosesSome(LayoutOf(r.value, root)) {
      NotPlaceable(LayoutOf(r.value, root));
    }
  }

  /** A file `unknown` and a file `unknown/x`. */
  method ParseNested(decode: Decoder, sha1: Sha1) returns (r: Result<Metainfo, MetaError>)
    requires ReadsNames(decode)
    ensures r.Ok? && FromInfo(r.value, PairInfo([], [Bytes(X)]), decode)
    ensures forall root: string :: HoldsNothing(LayoutOf(r.value, root))
  {
    hide FromInfo, ValidValue, Encode, PairInfo, WellFormed, LosesSome, Placeable, HoldsNothing, DistinctPaths;
    Names(decode);
    ShortPaths();
    ShortNames(decode);
    r := ParsePair([], [Bytes(X)], decode, sha1);
    FilesOf(r.value, [], [Bytes(X)], decode);
    NestedPlaces(r.value.files, decode);
    forall root: string ensures HoldsNothing(LayoutOf(r.value, root)) {
      NotPlaceable(LayoutOf(r.value, root));
    }
  }

  lemma ShortNames(decode: Decoder)
    requires ReadsNames(decode)
    ensures ComponentsFit([], decode) && ComponentsFit([Bytes(X)], decode)
    ensures ComponentsFit([Bytes(Blanks()), Bytes(X)], decode)
  {
    hide ComponentOf, ReadsNames, ComponentsFit, Blanks;
    Names(decode);
    NoneFit(decode);
    OneFits(Bytes(X), decode);
    TwoFit(Bytes(Blanks()), Bytes(X), decode);
  }

  lemma NoneFit(decode: Decoder)
    ensures ComponentsFit([], decode)
  {}

  lemma OneFits(v: Value, decode: Decoder)
    requires ComponentOf(v, decode).Some?
    ensures ComponentsFit([v], decode)
  {
    hide ComponentOf;
  }

  lemma TwoFit(v: Value, w: Value, decode: Decoder)
    requires ComponentOf(v, decode).Some? && ComponentOf(w, decode).Some?
    ensures ComponentsFit([v, w], decode)
  {
    hide ComponentOf;
  }

  lemma FilesOf(m: Metainfo, p: seq<Value>, q: seq<Value>, decode: Decoder)
    requires ReadsNames(decode) && ComponentsFit(p, decode) && ComponentsFit(q, decode)
    requires FromInfo(m, PairInfo(p, q), decode)
    ensures |m.files| == 2 && m.files[0].size == m.files[1].size == 1
    ensures m.files[0].path == PathOf("unknown", p, decode) && m.files[1].path == PathOf("unknown", q, decode)
  {
    hide PairInfo, FilesFit, FilesFrom, PathOf, ComponentsFit, ReadsNames;
    PairPaths(p, q, decode, m.files);
  }

  lemma NamesOfTwo(a: Value, b: Value, x: string, y: string, decode: Decoder)
    requires ComponentOf(a, decode) == Some(x) && ComponentOf(b, decode) == Some(y)
    ensures ComponentsFit([], decode) && ComponentsFit([a], decode) && ComponentsFit([a, b], decode)
    ensures NamesOf("unknown", [], decode) == ["unknown"]
    ensures NamesOf("unknown", [a], decode) == ["unknown", x]
    ensures NamesOf("unknown", [a, b], decode) == ["unknown", x, y]
  {
    hide ComponentOf;
    assert [a][..0] == [] && [a, b][..1] == [a];
  }

  lemma NamesOfShort(decode: Decoder)
    requires ReadsNames(decode) && ComponentsFit([], decode) && ComponentsFit([Bytes(X)], decode)
    requires ComponentsFit([Bytes(Blanks()), Bytes(X)], decode)
    ensures NamesOf("unknown", [], decode) == ["unknown"]
    ensures NamesOf("unknown", [Bytes(X)], decode) == ["unknown", "x"]
    ensures NamesOf("unknown", [Bytes(Blanks()), Bytes(X)], decode) == ["unknown", "", "x"]
  {
    hide ComponentOf, ComponentsFit, NamesOf, ReadsNames, Blanks;
    Names(decode);
    NamesOfTwo(Bytes(X), Bytes(X), "x", "x", decode);
    NamesOfTwo(Bytes(Blanks()), Bytes(X), "", "x", decode);
  }

  lemma NonEmptyShort()
    ensures NonEmpty([]) == [] && NonEmpty(["unknown"]) == ["unknown"] && NonEmpty(["unknown", ""]) == ["unknown"]
  {
    assert ["unknown"][..0] == [] && ["unknown", ""][..1] == ["unknown"];
  }

  lemma PlainPlace(decode: Decoder)
    requires ReadsNames(decode) && ComponentsFit([Bytes(X)], decode)
    ensures PlaceOf(PathOf("unknown", [Bytes(X)], decode)) == Place(["unknown"], "x")
  {
    hide ComponentsFit, PathOf, NamesOf, NonEmpty, PlaceOf, ReadsNames;
    Names(decode);
    ShortNames(decode);
    NamesOfShort(decode);
    NonEmptyShort();
    ListedPlace("unknown", [Bytes(X)], decode);
    assert ["unknown", "x"][..1] == ["unknown"];
  }

  lemma BlankPlace(decode: Decoder)
    requires ReadsNames(decode) && ComponentsFit([Bytes(Blanks()), Bytes(X)], decode)
    ensures PlaceOf(PathOf("unknown", [Bytes(Blanks()), Bytes(X)], decode)) == Place(["unknown"], "x")
  {
    hide ComponentsFit, PathOf, NamesOf, NonEmpty, PlaceOf, ReadsNames, Blanks;
    Names(decode);
    ShortNames(decode);
    NamesOfShort(decode);
    NonEmptyShort();
    ListedPlace("unknown", [Bytes(Blanks()), Bytes(X)], decode);
    assert ["unknown", "", "x"][..2] == ["unknown", ""];
  }

  lemma SharedPlaces(files: seq<FileLayout>, decode: Decoder)
    requires ReadsNames(decode) && ComponentsFit([Bytes(X)], decode)
    requires ComponentsFit([Bytes(Blanks()), Bytes(X)], decode)
    requires |files| == 2 && files[0].size == files[1].size == 1
    requires files[0].path == PathOf("unknown", [Bytes(X)], decode)
    requires files[1].path == PathOf("unknown", [Bytes(Blanks()), Bytes(X)], decode)
    ensures PlaceOf(files[0].path) == PlaceOf(files[1].path) == Place(["unknown"], "x") && !Placeable(files)
  {
    hide ComponentsFit, PathOf, PlaceOf, ReadsNames, Placeable;
    PlainPlace(decode);
    BlankPlace(decode);
    SharedPair(files);
  }

  lemma SharedPair(files: seq<FileLayout>)
    requires |files| == 2 && files[0].size == files[1].size == 1
    requires PlaceOf(files[0].path) == PlaceOf(files[1].path)
    ensures !Placeable(files)
  {
    hide PlaceOf;
  }

  lemma NestedPlaces(files: seq<FileLayout>, decode: Decoder)
    requires ReadsNames(decode) && ComponentsFit([], decode) && ComponentsFit([Bytes(X)], decode)
    requires |files| == 2 && files[0].size == files[1].size == 1
    requires files[0].path == PathOf("unknown", [], decode)
    requires files[1].path == PathOf("unknown", [Bytes(X)], decode)
    ensures PlaceOf(files[0].path) == Place([], "unknown") && PlaceOf(files[1].path) == Place(["unknown"], "x")
    ensures !Placeable(files) && DistinctPaths(files)
  {
    hide ComponentsFit, PathOf, NamesOf, NonEmpty, PlaceOf, ReadsNames;
    Names(decode);
    ShortNames(decode);
    NamesOfShort(decode);
    NonEmptyShort();
    ListedPlace("unknown", [], decode);
    ListedPlace("unknown", [Bytes(X)], decode);
    assert ["unknown", "x"][..1] == ["unknown"] && ["unknown"][..0] == [];
    NestedPair(files);
  }

  lemma NestedPair(files: seq<FileLayout>)
    requires |files| == 2 && files[0].size == files[1].size == 1
    requires PlaceOf(files[0].path) == Place([], "unknown") && PlaceOf(files[1].path) == Place(["unknown"], "x")
    ensures !Placeable(files) && DistinctPaths(files)
  {
    hide PlaceOf;
    var a, b := PlaceOf(files[0].path), PlaceOf(files[1].path);
    assert a.Full() == [] + ["unknown"] == ["unknown"];
    assert b.Inside(a) && !Compatible(a, b);
  }

  /** One file of one byte whose name is 256 underscores. */
  function NamelessInfo(): Value {
    Dict([Entry(LENGTH, Int(1)), Entry(NAME, Bytes(Blanks())), Entry(PIECE_LENGTH, Int(1)),
          Entry(PIECES, Bytes(OneHash()))])
  }

  lemma NamelessReads()
    ensures GetInt(NamelessInfo(), LENGTH) == Some(1) && GetInt(NamelessInfo(), PIECE_LENGTH) == Some(1)
    ensures GetBytes(NamelessInfo(), PIECES) == Some(OneHash()) && GetList(NamelessInfo(), FILES) == None
    ensures Metainfos.Get(NamelessInfo(), NAME) == Some(Bytes(Blanks()))
  {
    hide Blanks, OneHash;
    KeysApart();
    var e := NamelessInfo().entries;
    var e1, e2, e3 := e[1..], e[1..][1..], e[1..][1..][1..];
    assert Lookup(e, LENGTH) == Some(Int(1));
    assert Lookup(e, NAME) == Lookup(e1, NAME) == Some(Bytes(Blanks()));
    assert Lookup(e, PIECE_LENGTH) == Lookup(e1, PIECE_LENGTH) == Lookup(e2, PIECE_LENGTH) == Some(Int(1));
    assert Lookup(e, PIECES) == Lookup(e1, PIECES) == Lookup(e2, PIECES) == Lookup(e3, PIECES)
           == Some(Bytes(OneHash()));
    assert Lookup(e, FILES) == Lookup(e1, FILES) == Lookup(e2, FILES) == Lookup(e3, FILES) == Lookup([], FILES) == None;
  }

  lemma NamelessFits()
    ensures ValidValue(NamelessInfo()) && |Encode(NamelessInfo())| <= 400
  {
    hide Less, Encode, EncodeBytes, Blanks, OneHash;
    KeysInOrder();
    var e := NamelessInfo().entries;
    FourEntriesSize(e[0], e[1], e[2], e[3]);
    ShortBytes(LENGTH);
    ShortBytes(NAME);
    ShortBytes(PIECE_LENGTH);
    ShortBytes(PIECES);
    ShortBytes(Blanks());
    ShortBytes(OneHash());
    ShortInt(1);
  }

  lemma NamelessAccepted(decode: Decoder)
    ensures InfoAcceptable(NamelessInfo(), decode) && DeclaredTotal(NamelessInfo()) == 1
  {
    hide Metainfos.Get, GetInt, GetList, GetBytes, NamelessInfo, FileFits, OneHash;
    NamelessReads();
  }

  lemma NamelessPath(m: Metainfo, decode: Decoder)
    requires ReadsNames(decode) && FromInfo(m, NamelessInfo(), decode)
    ensures |m.files| == 1 && m.files[0].size == 1 && m.files[0].path == "" && !Placeable(m.files)
    ensures SizeOfFirst(m.files, |m.files|) == 1 && m.pieceLength == 1 && DistinctPaths(m.files)
  {
    NamelessReads();
    EmptyWitness();
    hide Metainfos.Get, GetInt, GetList, GetBytes, NamelessInfo, OneHash, Blanks, Normalized, OffsetsSaturate,
         SizeOfFirst, Underscores;
    assert TorrentName(NamelessInfo(), decode) == "";
    assert !PlaceOf(m.files[0].path).NamesFile();
    assert DeclaredTotal(NamelessInfo()) == 1;
  }

  /** A single file of one byte without a name: its path is the data root itself. */
  method ParseNameless(decode: Decoder, sha1: Sha1) returns (r: Result<Metainfo, MetaError>)
    requires ReadsNames(decode)
    ensures r.Ok? && FromInfo(r.value, NamelessInfo(), decode) && r.value.files[0].path == ""
    ensures forall root: string :: HoldsNothing(LayoutOf(r.value, root))
  {
    hide InfoAcceptable, ValidValue, Acceptable, DecodeFull, FindRaw, Encode, NamelessInfo, FromInfo, SizeOfFirst,
         Checked, WellFormed, Torrent, Placeable, DistinctPaths, HoldsNothing, LosesSome, ReadsNames;
    NamelessAccepted(decode);
    NamelessFits();
    TorrentFits(NamelessInfo(), 400);
    SingleInfo(NamelessInfo(), decode);
    r := ParseBytes(Encode(Torrent(NamelessInfo())), decode, sha1);
    NamelessPath(r.value, decode);
    forall root: string ensures HoldsNothing(LayoutOf(r.value, root)) {
      SmallIsWellFormed(r.value, root);
      NotPlaceable(LayoutOf(r.value, root));
    }
  }
}
