/** Reading a `.torrent` (`crates/engine/src/metainfo.rs`): the infohash slice, the file
    names and offsets, the trackers and the piece-count check, with the casts of the source
    written out. `decode` reads bytes as UTF-8 text. */
module Metainfos {
  import opened Wrappers
  import opened Bits
  import opened Hashing
  import opened Spans
  import opened Bencode
  import opened Paths
  import opened PathText
  import BencodeLaws

  const TWO_32: nat := 0x1_0000_0000
  const TWO_64: nat := 0x1_0000_0000_0000_0000

  const INFO: seq<byte> := [0x69, 0x6e, 0x66, 0x6f]
  const FILES: seq<byte> := [0x66, 0x69, 0x6c, 0x65, 0x73]
  const LENGTH: seq<byte> := [0x6c, 0x65, 0x6e, 0x67, 0x74, 0x68]
  const NAME: seq<byte> := [0x6e, 0x61, 0x6d, 0x65]
  const PRIVATE: seq<byte> := [0x70, 0x72, 0x69, 0x76, 0x61, 0x74, 0x65]
  const ANNOUNCE: seq<byte> := [0x61, 0x6e, 0x6e, 0x6f, 0x75, 0x6e, 0x63, 0x65]
  const ANNOUNCE_LIST: seq<byte> := ANNOUNCE + [0x2d, 0x6c, 0x69, 0x73, 0x74]
  const PATH: seq<byte> := [0x70, 0x61, 0x74, 0x68]
  const PIECES: seq<byte> := [0x70, 0x69, 0x65, 0x63, 0x65, 0x73]
  const PIECE_LENGTH: seq<byte> := [0x70, 0x69, 0x65, 0x63, 0x65, 0x20, 0x6c, 0x65, 0x6e, 0x67, 0x74, 0x68]

  datatype MetaError =
    | Codec(why: Failure) | RootNotDict | MissingInfo | MissingPieceLength | PieceLengthZero | MissingPieces
    | PiecesNotHashes | MissingLength | MissingPath | BadComponent | PieceCountMismatch

  /** The UTF-8 text of some bytes, if they are any. */
  type Decoder = seq<byte> -> Option<string>

  /** `Metainfo`. */
  datatype Metainfo = Metainfo(infohash: Digest, name: string, pieceLength: nat, pieceCount: nat, totalSize: nat,
                               pieces: seq<byte>, files: seq<FileLayout>, isMultiFile: bool, isPrivate: bool,
                               trackers: seq<(nat, string)>, announce: Option<string>)

  // casts to unsigned words
  function AsU32(n: int): (r: nat)
    ensures r < TWO_32 && (0 <= n < TWO_32 ==> r == n) && (n - r) % 0x1_0000_0000 == 0
  {
    n % TWO_32
  }

  function AsU64(n: int): (r: nat)
    ensures r < TWO_64 && (0 <= n < TWO_64 ==> r == n) && (n - r) % 0x1_0000_0000_0000_0000 == 0
  {
    n % TWO_64
  }

  function SaturatingAdd(a: nat, b: nat): nat {
    if a + b >= TWO_64 then TWO_64 - 1 else a + b
  }

  function Get(v: Value, key: seq<byte>): Option<Value> {
    if v.Dict? then Lookup(v.entries, key) else None
  }

  function GetInt(v: Value, key: seq<byte>): Option<int> {
    match Get(v, key) case Some(Int(n)) => Some(n) case _ => None
  }

  function GetBytes(v: Value, key: seq<byte>): Option<seq<byte>> {
    match Get(v, key) case Some(Bytes(b)) => Some(b) case _ => None
  }

  function TextOf(v: Value, decode: Decoder): Option<string> {
    if v.Bytes? then decode(v.b) else None
  }

  function GetText(v: Value, key: seq<byte>, decode: Decoder): Option<string> {
    match Get(v, key) case Some(found) => TextOf(found, decode) case None => None
  }

  function GetList(v: Value, key: seq<byte>): Option<seq<Value>> {
    match Get(v, key) case Some(List(l)) => Some(l) case _ => None
  }

  /** Each offset is the saturated sum of the sizes before it, and sizes fit 64 bits. */
  ghost predicate OffsetsSaturate(files: seq<FileLayout>) {
    && (forall k :: 0 <= k < |files| ==> files[k].size < TWO_64)
    && (forall k {:trigger files[k].offset} :: 0 <= k < |files| ==>
          files[k].offset == if SizeOfFirst(files, k) < TWO_64 then SizeOfFirst(files, k) else TWO_64 - 1)
  }

  lemma {:induction false} SizeOfFirstPrefix(files: seq<FileLayout>, f: FileLayout, n: nat)
    requires n <= |files|
    ensures SizeOfFirst(files + [f], n) == SizeOfFirst(files, n)
  {
    if n > 0 {
      SizeOfFirstPrefix(files, f, n - 1);
    }
  }

  lemma OffsetsExtend(files: seq<FileLayout>, f: FileLayout)
    requires OffsetsSaturate(files) && f.size < TWO_64
    requires f.offset == if SizeOfFirst(files, |files|) < TWO_64 then SizeOfFirst(files, |files|) else TWO_64 - 1
    ensures OffsetsSaturate(files + [f])
    ensures SizeOfFirst(files + [f], |files| + 1) == SizeOfFirst(files, |files|) + f.size
  {
    hide SizeOfFirst;
    forall n | 0 <= n <= |files| ensures SizeOfFirst(files + [f], n) == SizeOfFirst(files, n) {
      SizeOfFirstPrefix(files, f, n);
    }
    LastSize(files + [f]);
  }

  lemma LastSize(files: seq<FileLayout>)
    requires files != []
    ensures SizeOfFirst(files, |files|) == SizeOfFirst(files, |files| - 1) + files[|files| - 1].size
  {}

  /** The on-disk form of one path component. */
  function ComponentOf(v: Value, decode: Decoder): Option<string> {
    match TextOf(v, decode)
    case None => None
    case Some(text) => match Normalized(text) case Ok(c) => Some(c) case Err(_) => None
  }

  /** The directory of a multi-file torrent, or the file of a single-file one. */
  function TorrentName(info: Value, decode: Decoder): string {
    var raw := match GetText(info, NAME, decode) case Some(n) => n case None => "unknown";
    match Normalized(raw) case Ok(n) => n case Err(_) => "unnamed"
  }

  /** A field is read under its key and at its type only; a text must decode. */
  lemma FieldsRead(key: seq<byte>, other: seq<byte>, v: Value, decode: Decoder)
    requires other != key
    ensures var d := Dict([Entry(key, v)]);
            && Get(d, key) == Some(v) && Get(d, other) == None
            && GetInt(d, key) == (if v.Int? then Some(v.n) else None)
            && GetBytes(d, key) == (if v.Bytes? then Some(v.b) else None)
            && GetList(d, key) == (if v.List? then Some(v.items) else None)
            && GetText(d, key, decode) == (if v.Bytes? then decode(v.b) else None)
  {
    assert [Entry(key, v)][1..] == [];
    assert Lookup([Entry(key, v)][1..], other) == None;
  }

  /** A torrent without a readable name is "unknown", one whose name is refused "unnamed". */
  lemma NameDefaults(info: Value, decode: Decoder)
    ensures GetText(info, NAME, decode).None? ==> TorrentName(info, decode) == "unknown"
    ensures GetText(info, NAME, decode).Some? ==>
              TorrentName(info, decode)
              == match Normalized(GetText(info, NAME, decode).value) case Ok(n) => n case Err(_) => "unnamed"
  {
    hide GetText, Normalized;
    var name := "unknown";
    assert forall k :: 0 <= k < |name| ==> !Bad(name[k]);
    PlainName(name);
  }

  /** Every path component has an on-disk form. */
  ghost predicate ComponentsFit(list: seq<Value>, decode: Decoder) {
    forall k :: 0 <= k < |list| ==> ComponentOf(list[k], decode).Some?
  }

  /** The torrent name with the components pushed onto it. */
  ghost function PathOf(name: string, list: seq<Value>, decode: Decoder): string
    requires ComponentsFit(list, decode)
  {
    if list == [] then name
    else Push(PathOf(name, list[..|list| - 1], decode), ComponentOf(list[|list| - 1], decode).value)
  }

  lemma PathNext(name: string, list: seq<Value>, decode: Decoder, k: nat)
    requires k < |list| && ComponentsFit(list[..k + 1], decode)
    ensures ComponentsFit(list[..k], decode) && ComponentOf(list[k], decode).Some?
    ensures PathOf(name, list[..k + 1], decode)
         == Push(PathOf(name, list[..k], decode), ComponentOf(list[k], decode).value)
  {
    hide ComponentOf;
    assert list[..k + 1][..k] == list[..k] && list[..k + 1][k] == list[k];
    assert forall j :: 0 <= j < k ==> list[..k][j] == list[..k + 1][j];
  }

  /** Only safe names are pushed: short, without separators, NUL or control characters, and
      never a current or parent directory. */
  lemma ComponentsAreSafe(list: seq<Value>, decode: Decoder, k: nat)
    requires ComponentsFit(list, decode) && k < |list|
    ensures var c := ComponentOf(list[k], decode).value;
            AllClean(c) && NoSlash(c) && ByteLen(c) <= MAX_COMPONENT_BYTES && c != "." && c != ".."
  {
    hide Normalized, IsControl;
    ComponentIsSafe(TextOf(list[k], decode).value);
  }

  lemma NameIsSafe(info: Value, decode: Decoder)
    ensures NoSlash(TorrentName(info, decode))
  {
    hide Normalized, IsControl;
    var raw := match GetText(info, NAME, decode) case Some(n) => n case None => "unknown";
    if Normalized(raw).Ok? {
      ComponentIsSafe(raw);
    }
  }

  /** The names on the way to a listed file, its own last. */
  ghost function NamesOf(name: string, list: seq<Value>, decode: Decoder): (r: seq<string>)
    requires ComponentsFit(list, decode)
    ensures |r| == |list| + 1
  {
    if list == [] then [name]
    else NamesOf(name, list[..|list| - 1], decode) + [ComponentOf(list[|list| - 1], decode).value]
  }

  function NonEmpty(names: seq<string>): seq<string> {
    if names == [] then []
    else NonEmpty(names[..|names| - 1]) + if names[|names| - 1] == "" then [] else [names[|names| - 1]]
  }

  /** A listed file lies in the directories of its nonempty names but the last; an empty name
      leads nowhere, and as the last it leaves the file without a name. */
  lemma {:induction false} ListedPlace(name: string, list: seq<Value>, decode: Decoder)
    requires ComponentsFit(list, decode) && NoSlash(name)
    ensures var names := NamesOf(name, list, decode); var n := |names| - 1;
            PlaceOf(PathOf(name, list, decode)) == Place(NonEmpty(names[..n]), names[n])
    ensures PlaceOf(PathOf(name, list, decode)).Full() == NonEmpty(NamesOf(name, list, decode))
  {
    hide ComponentOf, Push;
    assert PlaceOf("") == Place([], "");
    hide PlaceOf;
    var names := NamesOf(name, list, decode);
    if list == [] {
      PlaceExtends("", name);
      assert "" + name == name;
      assert names[..0] == [];
    } else {
      var init, c := list[..|list| - 1], ComponentOf(list[|list| - 1], decode).value;
      assert forall k :: 0 <= k < |init| ==> init[k] == list[k];
      ListedPlace(name, init, decode);
      ComponentsAreSafe(list, decode, |list| - 1);
      PushPlace(PathOf(name, init, decode), c);
      assert names[..|list|] == NamesOf(name, init, decode);
    }
  }

  method JoinPath(name: string, list: seq<Value>, decode: Decoder) returns (r: Result<string, MetaError>)
    ensures r.Ok? <==> ComponentsFit(list, decode)
    ensures r.Ok? ==> r.value == PathOf(name, list, decode)
    ensures r.Err? ==> r.error == BadComponent
  {
    hide Normalized;
    var path := name;
    var k := 0;
    while k < |list|
      invariant k <= |list| && ComponentsFit(list[..k], decode)
      invariant path == PathOf(name, list[..k], decode)
    {
      var text := TextOf(list[k], decode);
      if text.None? {
        return Err(BadComponent);
      }
      var component := NormalizePathComponent(text.value);
      if component.Err? {
        return Err(BadComponent);
      }
      PathNext(name, list, decode, k);
      path := Push(path, component.value);
      k := k + 1;
    }
    assert list[..k] == list;
    return Ok(path);
  }

  /** A listed file that can be read: a length and a path of usable components. */
  ghost predicate FileFits(f: Value, decode: Decoder) {
    GetInt(f, LENGTH).Some? && GetList(f, PATH).Some? && ComponentsFit(GetList(f, PATH).value, decode)
  }

  ghost predicate FileIs(f: Value, name: string, decode: Decoder, file: FileLayout)
    requires FileFits(f, decode)
  {
    file.size == AsU64(GetInt(f, LENGTH).value) && file.path == PathOf(name, GetList(f, PATH).value, decode)
  }

  /** `info` describes its files. */
  ghost predicate FilesFit(info: Value, decode: Decoder) {
    if GetList(info, FILES).Some? then
      forall k :: 0 <= k < |GetList(info, FILES).value| ==> FileFits(GetList(info, FILES).value[k], decode)
    else GetInt(info, LENGTH).Some?
  }

  /** The sum of the first `n` listed lengths. */
  ghost function LengthsSum(list: seq<Value>, n: nat): nat
    requires n <= |list|
  {
    if n == 0 then 0
    else LengthsSum(list, n - 1)
         + match GetInt(list[n - 1], LENGTH) case Some(len) => AsU64(len) case None => 0
  }

  ghost function DeclaredTotal(info: Value): nat {
    match GetList(info, FILES)
    case Some(list) => LengthsSum(list, |list|)
    case None => match GetInt(info, LENGTH) case Some(len) => AsU64(len) case None => 0
  }

  /** The files `info` lists, with its paths and sizes, and offsets their running sum. */
  ghost predicate FilesFrom(files: seq<FileLayout>, info: Value, decode: Decoder)
    requires FilesFit(info, decode)
  {
    && OffsetsSaturate(files) && SizeOfFirst(files, |files|) == DeclaredTotal(info)
    && if GetList(info, FILES).Some? then
         && |files| == |GetList(info, FILES).value|
         && forall k :: 0 <= k < |files| ==>
              FileIs(GetList(info, FILES).value[k], TorrentName(info, decode), decode, files[k])
       else
         && |files| == 1 && files[0].size == AsU64(GetInt(info, LENGTH).value)
         && files[0].path == TorrentName(info, decode)
  }

  /** Where an accepted file lies: its nonempty names in order, the torrent's name first, and
      without a name of its own exactly if the last of them is empty. */
  lemma FilePlace(files: seq<FileLayout>, info: Value, decode: Decoder, k: nat)
    requires FilesFit(info, decode) && FilesFrom(files, info, decode) && k < |files|
    ensures var place := PlaceOf(files[k].path); var name := TorrentName(info, decode);
            if GetList(info, FILES).Some? then
              var names := NamesOf(name, GetList(GetList(info, FILES).value[k], PATH).value, decode);
              place.Full() == NonEmpty(names) && place.file == names[|names| - 1]
            else place == Place([], name)
  {
    hide TorrentName, ComponentOf, PathOf, OffsetsSaturate, SizeOfFirst, DeclaredTotal;
    NameIsSafe(info, decode);
    var name := TorrentName(info, decode);
    if GetList(info, FILES).Some? {
      var f := GetList(info, FILES).value[k];
      assert FileFits(f, decode) && FileIs(f, name, decode, files[k]);
      ListedPlace(name, GetList(f, PATH).value, decode);
    } else {
      NamePlace(name);
    }
  }

  lemma NamePlace(name: string)
    requires NoSlash(name)
    ensures PlaceOf(name) == Place([], name)
  {
    PlaceExtends("", name);
    assert "" + name == name;
  }

  /** `parse_files`: succeeds exactly when every file can be read; paths and sizes are the
      listed ones, sizes cast to 64 bits, and offsets their running saturated sum. */
  method ParseFiles(info: Value, decode: Decoder) returns (r: Result<seq<FileLayout>, MetaError>)
    ensures r.Ok? <==> FilesFit(info, decode)
    ensures r.Ok? ==> FilesFrom(r.value, info, decode)
  {
    hide Get, GetInt, GetList, TorrentName, OffsetsSaturate, SizeOfFirst, FileIs, FileFits;
    var name := TorrentName(info, decode);
    var list := GetList(info, FILES);
    if list.Some? {
      r := ParseFileList(name, list.value, decode);
      return;
    }
    var length := GetInt(info, LENGTH);
    if length.None? {
      return Err(MissingLength);
    }
    var only := FileLayout(name, AsU64(length.value), 0, 1);
    NoFiles();
    OffsetsExtend([], only);
    assert [] + [only] == [only];
    return Ok([only]);
  }

  /** The multi-file loop of `parse_files`. */
  method ParseFileList(name: string, list: seq<Value>, decode: Decoder) returns (r: Result<seq<FileLayout>, MetaError>)
    ensures r.Ok? <==> forall k :: 0 <= k < |list| ==> FileFits(list[k], decode)
    ensures r.Ok? ==> OffsetsSaturate(r.value) && |r.value| == |list|
    ensures r.Ok? ==> SizeOfFirst(r.value, |list|) == LengthsSum(list, |list|)
    ensures r.Ok? ==> forall k :: 0 <= k < |list| ==> FileIs(list[k], name, decode, r.value[k])
  {
    hide Get, GetInt, GetList, OffsetsSaturate, SizeOfFirst, AsU64, ComponentsFit, PathOf;
    var out: seq<FileLayout> := [];
    var offset := 0;
    var k := 0;
    NoFiles();
    while k < |list|
      invariant k <= |list| && |out| == k && OffsetsSaturate(out)
      invariant SizeOfFirst(out, |out|) == LengthsSum(list, k)
      invariant offset == if SizeOfFirst(out, |out|) < TWO_64 then SizeOfFirst(out, |out|) else TWO_64 - 1
      invariant forall j :: 0 <= j < k ==> FileFits(list[j], decode) && FileIs(list[j], name, decode, out[j])
    {
      var length := GetInt(list[k], LENGTH);
      if length.None? {
        return Err(MissingLength);
      }
      var pathList := GetList(list[k], PATH);
      if pathList.None? {
        return Err(MissingPath);
      }
      var path := JoinPath(name, pathList.value, decode);
      if path.Err? {
        return Err(BadComponent);
      }
      var file := FileLayout(path.value, AsU64(length.value), offset, 1);
      OffsetsExtend(out, file);
      out := out + [file];
      offset := SaturatingAdd(offset, AsU64(length.value));
      k := k + 1;
    }
    return Ok(out);
  }

  lemma NoFiles()
    ensures OffsetsSaturate([]) && SizeOfFirst([], 0) == 0
  {}

  /** The sum of the sizes, wrapping at 64 bits. */
  method SumSizes(files: seq<FileLayout>) returns (total: nat)
    ensures total == SizeOfFirst(files, |files|) % TWO_64
  {
    total := 0;
    var k := 0;
    while k < |files|
      invariant k <= |files| && total == SizeOfFirst(files, k) % TWO_64
    {
      total := (total + files[k].size) % TWO_64;
      k := k + 1;
    }
  }

  /** The layout a torrent has under a root. */
  function LayoutOf(m: Metainfo, dataRoot: string): StorageLayout {
    StorageLayout(dataRoot, m.pieceLength, m.pieceCount, m.totalSize, m.files)
  }

  /** What `parse_bytes` checked. */
  ghost predicate Checked(m: Metainfo) {
    && 0 < m.pieceLength < TWO_32 && |m.pieces| % 20 == 0 && m.pieceCount == AsU32(|m.pieces| / 20)
    && OffsetsSaturate(m.files) && m.totalSize == SizeOfFirst(m.files, |m.files|) % TWO_64
    && (m.totalSize > 0 ==> AsU32(CeilDiv(m.totalSize, m.pieceLength)) == m.pieceCount)
  }

  /** The input is an acceptable torrent. */
  ghost predicate Acceptable(data: seq<byte>, decode: Decoder) {
    && DecodeFull(data).Ok? && DecodeFull(data).value.Dict? && FindRaw(data, INFO).Ok?
    && var found := Get(DecodeFull(data).value, INFO);
       found.Some? && InfoAcceptable(found.value, decode)
  }

  /** Piece length, hashes, files and piece count all check. */
  ghost predicate InfoAcceptable(info: Value, decode: Decoder) {
    && GetInt(info, PIECE_LENGTH).Some? && AsU32(GetInt(info, PIECE_LENGTH).value) > 0
    && GetBytes(info, PIECES).Some? && |GetBytes(info, PIECES).value| % 20 == 0
    && FilesFit(info, decode)
    && var total := DeclaredTotal(info) % TWO_64;
       total > 0 ==> AsU32(CeilDiv(total, AsU32(GetInt(info, PIECE_LENGTH).value)))
                     == AsU32(|GetBytes(info, PIECES).value| / 20)
  }

  /** The tracker URLs of one tier: its entries that are texts, in order. */
  function TierUrls(tier: nat, urls: seq<Value>, decode: Decoder): seq<(nat, string)> {
    if urls == [] then []
    else
      TierUrls(tier, urls[..|urls| - 1], decode)
      + match TextOf(urls[|urls| - 1], decode) case Some(u) => [(tier, u)] case None => []
  }

  /** All tiers of an announce list: tiers are numbered by position, entries that are no lists
      are skipped. */
  function ListedTrackers(tiers: seq<Value>, decode: Decoder): seq<(nat, string)> {
    if tiers == [] then []
    else
      var last := tiers[|tiers| - 1];
      ListedTrackers(tiers[..|tiers| - 1], decode)
      + if last.List? then TierUrls(|tiers| - 1, last.items, decode) else []
  }

  /** The announce list, or the single announce URL when the list yields nothing. */
  function TrackersOf(root: Value, decode: Decoder): seq<(nat, string)> {
    var listed := match GetList(root, ANNOUNCE_LIST) case Some(tiers) => ListedTrackers(tiers, decode) case None => [];
    if listed == [] && GetText(root, ANNOUNCE, decode).Some? then [(0, GetText(root, ANNOUNCE, decode).value)]
    else listed
  }

  /** `(tier, url)` stands in the announce list: entry `u` of tier `tier` is that text. */
  ghost predicate ListsUrl(tiers: seq<Value>, tier: nat, u: nat, url: string, decode: Decoder) {
    && tier < |tiers| && tiers[tier].List? && u < |tiers[tier].items|
    && TextOf(tiers[tier].items[u], decode) == Some(url)
  }

  lemma {:induction false} TierMembers(tier: nat, urls: seq<Value>, decode: Decoder, t: nat, url: string)
    ensures (t, url) in TierUrls(tier, urls, decode)
       <==> t == tier && exists u: nat :: u < |urls| && TextOf(urls[u], decode) == Some(url)
  {
    hide TextOf;
    if urls != [] {
      var init := urls[..|urls| - 1];
      TierMembers(tier, init, decode, t, url);
      assert forall u :: 0 <= u < |init| ==> init[u] == urls[u];
    }
  }

  lemma {:induction false} ListedMembers(tiers: seq<Value>, decode: Decoder, t: nat, url: string)
    ensures (t, url) in ListedTrackers(tiers, decode) <==> exists u: nat :: ListsUrl(tiers, t, u, url, decode)
  {
    hide TextOf, TierUrls;
    if tiers != [] {
      var init, last := tiers[..|tiers| - 1], tiers[|tiers| - 1];
      ListedMembers(init, decode, t, url);
      if last.List? {
        TierMembers(|tiers| - 1, last.items, decode, t, url);
      }
      ListedStep(tiers, decode, t, url);
    }
  }

  lemma ListedStep(tiers: seq<Value>, decode: Decoder, t: nat, url: string)
    requires tiers != []
    ensures var front := tiers[..|tiers| - 1];
            (exists u: nat :: ListsUrl(tiers, t, u, url, decode))
            <==> (exists u: nat :: ListsUrl(front, t, u, url, decode))
                 || (t == |tiers| - 1 && tiers[t].List?
                     && exists u: nat :: u < |tiers[t].items| && TextOf(tiers[t].items[u], decode) == Some(url))
  {
    hide TextOf;
    var init := tiers[..|tiers| - 1];
    if u: nat :| ListsUrl(tiers, t, u, url, decode) {
      assert t < |init| ==> ListsUrl(init, t, u, url, decode);
    }
    if u: nat :| ListsUrl(init, t, u, url, decode) {
      assert ListsUrl(tiers, t, u, url, decode);
    }
    if t == |tiers| - 1 && tiers[t].List? {
      if u: nat :| u < |tiers[t].items| && TextOf(tiers[t].items[u], decode) == Some(url) {
        assert ListsUrl(tiers, t, u, url, decode);
      }
    }
  }

  /** Within a tier the URLs keep their order, and what is no text is left out. */
  lemma {:induction false} TierKeepsOrder(tier: nat, a: seq<Value>, b: seq<Value>, v: Value, decode: Decoder)
    ensures TierUrls(tier, a + b, decode) == TierUrls(tier, a, decode) + TierUrls(tier, b, decode)
    ensures TierUrls(tier, [v], decode)
            == if v.Bytes? && decode(v.b).Some? then [(tier, decode(v.b).value)] else []
  {
    if b == [] {
      assert a + b == a;
    } else {
      TierKeepsOrder(tier, a, b[..|b| - 1], v, decode);
      assert (a + b)[..|a + b| - 1] == a + b[..|b| - 1];
    }
    assert [v][..0] == [];
  }

  lemma {:induction false} TierOf(tier: nat, urls: seq<Value>, decode: Decoder)
    ensures forall k :: 0 <= k < |TierUrls(tier, urls, decode)| ==> TierUrls(tier, urls, decode)[k].0 == tier
  {
    if urls != [] {
      TierOf(tier, urls[..|urls| - 1], decode);
    }
  }

  /** Trackers of tiers below `n`, in the order of tiers. */
  ghost predicate ByTier(r: seq<(nat, string)>, n: nat) {
    && (forall k :: 0 <= k < |r| ==> r[k].0 < n)
    && forall j, k :: 0 <= j < k < |r| ==> r[j].0 <= r[k].0
  }

  lemma NoTrackers()
    ensures ByTier([], 0)
  {}

  lemma TierAppended(front: seq<(nat, string)>, found: seq<(nat, string)>, n: nat)
    requires ByTier(front, n) && forall k :: 0 <= k < |found| ==> found[k].0 == n
    ensures ByTier(front + found, n + 1)
  {}

  lemma {:induction false} TiersInOrder(tiers: seq<Value>, decode: Decoder)
    ensures ByTier(ListedTrackers(tiers, decode), |tiers|)
  {
    hide TierUrls, ByTier;
    if tiers == [] {
      NoTrackers();
    } else {
      var last := tiers[|tiers| - 1];
      var found := if last.List? then TierUrls(|tiers| - 1, last.items, decode) else [];
      TiersInOrder(tiers[..|tiers| - 1], decode);
      if last.List? {
        TierOf(|tiers| - 1, last.items, decode);
      }
      TierAppended(ListedTrackers(tiers[..|tiers| - 1], decode), found, |tiers| - 1);
    }
  }

  /** The trackers are the texts of the announce list, each under the place of its tier and in
      the order of tiers; if there is none, the single announce URL in tier 0, if there is one. */
  lemma TrackersAre(root: Value, decode: Decoder, t: nat, url: string)
    ensures var r := TrackersOf(root, decode);
            var listed := GetList(root, ANNOUNCE_LIST);
            var tiers := if listed.Some? then listed.value else [];
            && (forall j, k :: 0 <= j < k < |r| ==> r[j].0 <= r[k].0)
            && ((exists x: nat, y: string, u: nat :: ListsUrl(tiers, x, u, y, decode)) ==>
                  ((t, url) in r <==> exists u: nat :: ListsUrl(tiers, t, u, url, decode)))
            && (!(exists x: nat, y: string, u: nat :: ListsUrl(tiers, x, u, y, decode)) ==>
                  r == if GetText(root, ANNOUNCE, decode).Some? then [(0, GetText(root, ANNOUNCE, decode).value)]
                       else [])
  {
    hide GetText, ListsUrl, ListedTrackers;
    var listed := GetList(root, ANNOUNCE_LIST);
    hide GetList;
    var tiers := if listed.Some? then listed.value else [];
    NoTiers(decode);
    TiersInOrder(tiers, decode);
    ListedMembers(tiers, decode, t, url);
    var found := ListedTrackers(tiers, decode);
    if x: nat, y: string, u: nat :| ListsUrl(tiers, x, u, y, decode) {
      ListedMembers(tiers, decode, x, y);
    }
    if found != [] {
      ListedMembers(tiers, decode, found[0].0, found[0].1);
      assert found[0] in found;
    }
  }

  lemma NoTiers(decode: Decoder)
    ensures ListedTrackers([], decode) == []
  {}

  lemma RootKeysSpelled()
    ensures Spells(INFO, "info") && Spells(ANNOUNCE, "announce") && Spells(ANNOUNCE_LIST, "announce-list")
  {}

  lemma InfoKeysSpelled()
    ensures Spells(NAME, "name") && Spells(PIECES, "pieces") && Spells(PRIVATE, "private")
  {}

  lemma FileKeysSpelled()
    ensures Spells(FILES, "files") && Spells(LENGTH, "length") && Spells(PATH, "path")
  {}

  lemma PieceKeySpelled()
    ensures Spells(PIECE_LENGTH, "piece length")
  {}

  /** The dictionary keys, spelled. */
  lemma KeysSpelled()
    ensures Spells(INFO, "info") && Spells(ANNOUNCE, "announce") && Spells(ANNOUNCE_LIST, "announce-list")
    ensures Spells(NAME, "name") && Spells(PIECES, "pieces") && Spells(PRIVATE, "private")
    ensures Spells(PIECE_LENGTH, "piece length")
    ensures Spells(FILES, "files") && Spells(LENGTH, "length") && Spells(PATH, "path")
  {
    hide Spells;
    RootKeysSpelled();
    InfoKeysSpelled();
    FileKeysSpelled();
    PieceKeySpelled();
  }

  /** The bytes are the characters of the text. */
  ghost predicate Spells(key: seq<byte>, text: string) {
    |key| == |text| && forall k :: 0 <= k < |key| ==> (key[k] as int) as char == text[k]
  }

  /** The tracker loops of `parse_bytes`. */
  method ReadTrackers(root: Value, decode: Decoder) returns (trackers: seq<(nat, string)>, announce: Option<string>)
    ensures trackers == TrackersOf(root, decode) && announce == GetText(root, ANNOUNCE, decode)
  {
    hide GetText, GetList, TextOf;
    trackers := [];
    var list := GetList(root, ANNOUNCE_LIST);
    if list.Some? {
      var tier := 0;
      assert list.value[..0] == [];
      while tier < |list.value|
        invariant tier <= |list.value| && trackers == ListedTrackers(list.value[..tier], decode)
      {
        assert list.value[..tier + 1][..tier] == list.value[..tier];
        if list.value[tier].List? {
          var urls := ReadTier(tier, list.value[tier].items, decode);
          trackers := trackers + urls;
        }
        tier := tier + 1;
      }
      assert list.value[..tier] == list.value;
    }
    announce := GetText(root, ANNOUNCE, decode);
    if trackers == [] && announce.Some? {
      trackers := [(0, announce.value)];
    }
  }

  method ReadTier(tier: nat, urls: seq<Value>, decode: Decoder) returns (found: seq<(nat, string)>)
    ensures found == TierUrls(tier, urls, decode)
  {
    hide TextOf;
    found := [];
    var k := 0;
    assert urls[..0] == [];
    while k < |urls|
      invariant k <= |urls| && found == TierUrls(tier, urls[..k], decode)
    {
      assert urls[..k + 1][..k] == urls[..k];
      var url := TextOf(urls[k], decode);
      if url.Some? {
        found := found + [(tier, url.value)];
      }
      k := k + 1;
    }
    assert urls[..k] == urls;
  }

  /** Everything but the trackers, as `info` says it. */
  ghost predicate FromInfo(m: Metainfo, info: Value, decode: Decoder) {
    && GetBytes(info, PIECES) == Some(m.pieces)
    && GetInt(info, PIECE_LENGTH).Some? && m.pieceLength == AsU32(GetInt(info, PIECE_LENGTH).value)
    && m.name == (match GetText(info, NAME, decode) case Some(n) => n case None => "unknown")
    && (m.isPrivate <==> GetInt(info, PRIVATE).Some? && GetInt(info, PRIVATE) != Some(0))
    && (m.isMultiFile <==> GetList(info, FILES).Some?)
    && FilesFit(info, decode) && FilesFrom(m.files, info, decode)
  }

  /** `parse_bytes`: accepts exactly the acceptable torrents. */
  method ParseBytes(data: seq<byte>, decode: Decoder, sha1: Sha1) returns (r: Result<Metainfo, MetaError>)
    ensures r.Ok? <==> Acceptable(data, decode)
    ensures r.Ok? ==> Checked(r.value) && r.value.infohash == sha1(FindRaw(data, INFO).value)
    ensures r.Ok? ==> FromInfo(r.value, Get(DecodeFull(data).value, INFO).value, decode)
    ensures r.Ok? ==> r.value.trackers == TrackersOf(DecodeFull(data).value, decode)
                      && r.value.announce == GetText(DecodeFull(data).value, ANNOUNCE, decode)
  {
    hide DecodeFull, FindRaw, InfoAcceptable, Checked, FromInfo, TrackersOf, GetText;
    var root := DecodeFull(data);
    if root.Err? {
      return Err(Codec(root.error));
    }
    if !root.value.Dict? {
      return Err(RootNotDict);
    }
    var raw := FindRaw(data, INFO);
    if raw.Err? {
      return Err(Codec(raw.error));
    }
    var infohash := sha1(raw.value);
    var info := Get(root.value, INFO);
    if info.None? {
      return Err(MissingInfo);
    }
    var m := ReadInfo(info.value, infohash, decode);
    if m.Err? {
      return m;
    }
    var trackers, announce := ReadTrackers(root.value, decode);
    TrackersAside(m.value, trackers, announce, info.value, decode);
    return Ok(m.value.(trackers := trackers, announce := announce));
  }

  lemma TrackersAside(m: Metainfo, trackers: seq<(nat, string)>, announce: Option<string>, info: Value, decode: Decoder)
    requires Checked(m) && FromInfo(m, info, decode)
    ensures var n := m.(trackers := trackers, announce := announce);
            Checked(n) && FromInfo(n, info, decode) && n.infohash == m.infohash
  {
    hide OffsetsSaturate, SizeOfFirst, CeilDiv, FilesFit, FilesFrom;
  }

  /** The part of `parse_bytes` that reads `info`. */
  method ReadInfo(info: Value, infohash: Digest, decode: Decoder) returns (r: Result<Metainfo, MetaError>)
    ensures r.Ok? <==> InfoAcceptable(info, decode)
    ensures r.Ok? ==> Checked(r.value) && r.value.infohash == infohash && FromInfo(r.value, info, decode)
  {
    hide Get, GetInt, GetBytes, GetText, GetList, FilesFit, OffsetsSaturate, SizeOfFirst, CeilDiv, DeclaredTotal,
         FileIs, TorrentName;
    var name := match GetText(info, NAME, decode) case Some(n) => n case None => "unknown";
    var declared := GetInt(info, PIECE_LENGTH);
    if declared.None? {
      return Err(MissingPieceLength);
    }
    var pieceLength := AsU32(declared.value);
    if pieceLength == 0 {
      return Err(PieceLengthZero);
    }
    var pieces := GetBytes(info, PIECES);
    if pieces.None? {
      return Err(MissingPieces);
    }
    if |pieces.value| % 20 != 0 {
      return Err(PiecesNotHashes);
    }
    var pieceCount := AsU32(|pieces.value| / 20);
    var flag := GetInt(info, PRIVATE);
    var isPrivate := flag.Some? && flag.value != 0;
    var isMultiFile := GetList(info, FILES).Some?;
    var files := ParseFiles(info, decode);
    if files.Err? {
      return Err(files.error);
    }
    var totalSize := SumSizes(files.value);
    if totalSize > 0 && AsU32(CeilDiv(totalSize, pieceLength)) != pieceCount {
      return Err(PieceCountMismatch);
    }
    return Ok(Metainfo(infohash, name, pieceLength, pieceCount, totalSize, pieces.value, files.value, isMultiFile,
                       isPrivate, [], None));
  }

  /** An accepted torrent has a well-formed layout exactly when its sizes sum to less than
      2^64 and it needs fewer than 2^32 pieces. */
  lemma AcceptedLayout(m: Metainfo, dataRoot: string)
    requires Checked(m)
    ensures WellFormed(LayoutOf(m, dataRoot))
       <==> SizeOfFirst(m.files, |m.files|) < TWO_64
            && (m.totalSize > 0 ==> CeilDiv(m.totalSize, m.pieceLength) < TWO_32)
  {
    hide SizeOfFirst, CeilDiv, PieceCountFits;
    var sum := SizeOfFirst(m.files, |m.files|);
    if sum < TWO_64 {
      forall k | 0 <= k <= |m.files| ensures SizeOfFirst(m.files, k) <= sum {
        SizeOfFirstMonotone(m.files, k, |m.files|);
      }
    }
    if m.totalSize > 0 {
      CeilDivFits(m.totalSize, m.pieceLength, m.pieceCount);
    }
  }

  /** The bytes that are hashed decode to the very `info` the other fields are read from,
      unless the root repeats the key with a different value. */
  lemma InfohashCoversInfo(data: seq<byte>)
    requires |data| <= BUFFER_MAX && DecodeFull(data).Ok? && DecodeFull(data).value.Dict?
    requires Get(DecodeFull(data).value, INFO).Some?
    ensures FindRaw(data, INFO).Ok? && data != []
    ensures DecodeFull(FindRaw(data, INFO).value) == Ok(Get(DecodeFull(data).value, INFO).value)
       <==> var raws := BencodeLaws.RawEntries(data, 1); var first := BencodeLaws.FirstOf(raws, INFO);
            first.Some? && BencodeLaws.LastOf(raws, INFO) == Some(first.value.value)
  {
    hide DecodeFull, FindRaw, Lookup, BencodeLaws.RawEntries, BencodeLaws.FirstOf, BencodeLaws.LastOf;
    BencodeLaws.RawSliceMeaning(data, INFO);
    BencodeLaws.SliceAgreesExactly(data, INFO);
  }
}
