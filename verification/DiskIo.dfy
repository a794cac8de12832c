/** Piece reads and writes over file spans, and the recheck built on them
    (`crates/engine/src/disk/read.rs`, `write.rs`, `crates/engine/src/hash/recheck.rs`).
    The disk is a map from absolute path to file content; the torrent on it is a flat
    stream of bytes, some of which may be absent. */
module DiskIo {
  import opened Wrappers
  import opened Sequences
  import opened Bits
  import opened Hashing
  import opened Paths
  import opened Spans

  datatype IoError = BadPiece | WrongLength | Unreadable | BadHashBlob | BufferTooSmall | OpenFailed | WriteFailed

  type Files = map<AbsPath, seq<byte>>

  const HASH_READ_WINDOW: nat := 256 * 1024

  // ---------------------------------------------------------------- the stream view

  ghost function ByteAt(files: Files, path: AbsPath, off: nat): Option<byte> {
    if path in files && off < |files[path]| then Some(files[path][off]) else None
  }

  /** The stream byte at `pos` of a well-formed layout, if it is on disk. */
  ghost function TorrentByte(l: StorageLayout, files: Files, pos: nat): Option<byte> {
    if WellFormed(l) && pos < l.totalSize then
      var f := l.files[FileAt(l, pos)];
      ByteAt(files, l.Absolute(f.path), pos - f.offset)
    else None
  }

  ghost predicate Readable(l: StorageLayout, files: Files, pos: nat, end: nat) {
    forall t :: pos <= t < end ==> TorrentByte(l, files, t).Some?
  }

  ghost function Gather(f: nat -> Option<byte>, pos: nat, end: nat): (r: seq<byte>)
    requires pos <= end && forall t :: pos <= t < end ==> f(t).Some?
    ensures |r| == end - pos
    ensures forall i :: 0 <= i < |r| ==> f(pos + i) == Some(r[i])
  {
    seq(end - pos, i requires 0 <= i < end - pos => f(pos + i).value)
  }

  ghost function StreamBytes(l: StorageLayout, files: Files, pos: nat, end: nat): (r: seq<byte>)
    requires pos <= end && Readable(l, files, pos, end)
    ensures |r| == end - pos
    ensures forall i :: 0 <= i < |r| ==> TorrentByte(l, files, pos + i) == Some(r[i])
  {
    Gather((t: nat) => TorrentByte(l, files, t), pos, end)
  }

  /** Stream range of a valid piece (empty in an empty torrent). */
  ghost function From(l: StorageLayout, index: nat): nat
    requires WellFormed(l) && index < l.pieceCount
  {
    if l.totalSize == 0 then 0 else PieceStart(l, index)
  }

  ghost function Upto(l: StorageLayout, index: nat): (r: nat)
    requires WellFormed(l) && index < l.pieceCount
    ensures From(l, index) <= r <= l.totalSize
    ensures l.PieceSize(index) == Ok(r - From(l, index))
    ensures PieceSpans(l, index) == SpansOf(l, From(l, index), r)
  {
    PieceSizeIs(l, index);
    if l.totalSize == 0 then 0 else PieceEnd(l, index)
  }

  ghost predicate PieceReadable(l: StorageLayout, files: Files, index: nat)
    requires WellFormed(l) && index < l.pieceCount
  {
    Readable(l, files, From(l, index), Upto(l, index))
  }

  ghost function PieceBytes(l: StorageLayout, files: Files, index: nat): seq<byte>
    requires WellFormed(l) && index < l.pieceCount && PieceReadable(l, files, index)
  {
    StreamBytes(l, files, From(l, index), Upto(l, index))
  }

  // ---------------------------------------------------------------- reading

  /** `read_at_exact` after `open_read`: missing and short files are errors. */
  function ReadSpan(files: Files, s: IoSpan): Result<seq<byte>, IoError> {
    if s.path in files && s.fileOffset + s.length <= |files[s.path]|
    then Ok(files[s.path][s.fileOffset..s.fileOffset + s.length])
    else Err(Unreadable)
  }

  /** The span reads exactly the stream bytes from `pos` on. */
  ghost predicate SpanReads(l: StorageLayout, files: Files, pos: nat, s: IoSpan)
    requires WellFormed(l) && pos + s.length <= l.totalSize
  {
    && (ReadSpan(files, s).Ok? <==> Readable(l, files, pos, pos + s.length))
    && (ReadSpan(files, s).Ok? ==> ReadSpan(files, s).value == StreamBytes(l, files, pos, pos + s.length))
  }

  /** A span at stream position `pos` reads exactly the stream bytes it covers. */
  lemma ReadSpanIsStream(l: StorageLayout, files: Files, pos: nat, end: nat)
    requires WellFormed(l) && pos < end <= l.totalSize
    ensures pos + SpanAt(l, pos, end).length <= l.totalSize
    ensures SpanReads(l, files, pos, SpanAt(l, pos, end))
  {
    hide FileAt, WellFormed;
    var s := SpanAt(l, pos, end);
    var k := FileAt(l, pos);
    var f := l.files[k];
    forall t | pos <= t < pos + s.length
      ensures TorrentByte(l, files, t) == ByteAt(files, s.path, s.fileOffset + (t - pos))
    {
      assert f.Covers(t);
    }
    assert s.length > 0 && pos + s.length <= l.totalSize;
    SpanOfBytes(l, files, pos, s);
  }

  lemma SpanOfBytes(l: StorageLayout, files: Files, pos: nat, s: IoSpan)
    requires WellFormed(l) && s.length > 0 && pos + s.length <= l.totalSize
    requires forall t :: pos <= t < pos + s.length ==>
               TorrentByte(l, files, t) == ByteAt(files, s.path, s.fileOffset + (t - pos))
    ensures SpanReads(l, files, pos, s)
  {
    hide WellFormed, TorrentByte, StreamBytes;
    if Readable(l, files, pos, pos + s.length) {
      assert TorrentByte(l, files, pos + s.length - 1).Some?;
    }
  }

  /** The bytes read by a list of spans, in order; an error as soon as one fails. */
  ghost function ReadSpans(files: Files, spans: seq<IoSpan>): Result<seq<byte>, IoError> {
    if spans == [] then Ok([])
    else match ReadSpan(files, spans[0])
      case Err(e) => Err(e)
      case Ok(head) =>
        match ReadSpans(files, spans[1..])
        case Err(e) => Err(e)
        case Ok(rest) => Ok(head + rest)
  }

  lemma {:induction false} ReadSpansIsStream(l: StorageLayout, files: Files, pos: nat, end: nat)
    requires WellFormed(l) && pos <= end <= l.totalSize
    ensures ReadSpans(files, SpansOf(l, pos, end)).Ok? <==> Readable(l, files, pos, end)
    ensures ReadSpans(files, SpansOf(l, pos, end)).Ok?
            ==> ReadSpans(files, SpansOf(l, pos, end)).value == StreamBytes(l, files, pos, end)
    decreases end - pos
  {
    hide WellFormed, TorrentByte, StreamBytes, SpanAt, ReadSpan, Readable;
    if pos < end {
      var s := SpanAt(l, pos, end);
      var mid := pos + s.length;
      var spans := SpansOf(l, pos, end);
      assert spans[0] == s && spans[1..] == SpansOf(l, mid, end);
      ReadSpanIsStream(l, files, pos, end);
      ReadSpansIsStream(l, files, mid, end);
      if Readable(l, files, pos, end) {
        StreamSplit(l, files, pos, mid, end);
      } else if Readable(l, files, pos, mid) && Readable(l, files, mid, end) {
        ReadableJoin(l, files, pos, mid, end);
      }
    } else {
      NothingToRead(l, files, pos);
    }
  }

  lemma NothingToRead(l: StorageLayout, files: Files, pos: nat)
    ensures Readable(l, files, pos, pos) && StreamBytes(l, files, pos, pos) == []
  {
    hide TorrentByte;
  }

  lemma StreamSplit(l: StorageLayout, files: Files, pos: nat, mid: nat, end: nat)
    requires WellFormed(l) && pos <= mid <= end <= l.totalSize && Readable(l, files, pos, end)
    ensures Readable(l, files, pos, mid) && Readable(l, files, mid, end)
    ensures StreamBytes(l, files, pos, end) == StreamBytes(l, files, pos, mid) + StreamBytes(l, files, mid, end)
  {
    hide WellFormed, TorrentByte, StreamBytes;
    var whole := StreamBytes(l, files, pos, end);
    var parts := StreamBytes(l, files, pos, mid) + StreamBytes(l, files, mid, end);
    forall i | 0 <= i < end - pos ensures whole[i] == parts[i] {
      assert TorrentByte(l, files, pos + i) == Some(whole[i]);
      if i >= mid - pos {
        assert TorrentByte(l, files, mid + (i - (mid - pos))) == Some(parts[i]);
      }
    }
  }

  /** Fill `buf` from offset `lo` with the spans, one `read_span` each. */
  method FillFromSpans(files: Files, spans: seq<IoSpan>, buf: array<byte>, ghost total: nat)
    returns (r: Result<nat, IoError>)
    requires total == SpanLengths(spans) <= buf.Length
    modifies buf
    ensures r.Ok? <==> ReadSpans(files, spans).Ok?
    ensures r.Ok? ==> r.value == total && buf[..total] == ReadSpans(files, spans).value
    ensures buf[total..] == old(buf[total..])
    ensures r.Err? ==> r.error == Unreadable
  {
    var off: nat := 0;
    var i := 0;
    assert spans[0..] == spans;
    PrependNothing(buf[..0], ReadSpans(files, spans));
    while i < |spans|
      invariant i <= |spans| && off <= total
      invariant off + SpanLengths(spans[i..]) == total
      invariant ReadSpans(files, spans) == Prepend(buf[..off], ReadSpans(files, spans[i..]))
      invariant buf[total..] == old(buf[total..])
    {
      var n := spans[i].length;
      assert spans[i..][0] == spans[i] && spans[i..][1..] == spans[i + 1..];
      match ReadSpan(files, spans[i])
      case Err(e) =>
        return Err(e);
      case Ok(data) =>
        CopyInto(buf, off, data);
        PrependTwice(buf[..off], data, ReadSpans(files, spans[i + 1..]));
        assert buf[..off + n] == buf[..off] + data;
        off := off + n;
        i := i + 1;
    }
    return Ok(off);
  }

  /** Overwrite `buf[off..off + |data|]`. */
  method CopyInto(buf: array<byte>, off: nat, data: seq<byte>)
    requires off + |data| <= buf.Length
    modifies buf
    ensures buf[off..off + |data|] == data
    ensures buf[..off] == old(buf[..off])
    ensures buf[off + |data|..] == old(buf[off + |data|..])
  {
    forall k | 0 <= k < |data| {
      buf[off + k] := data[k];
    }
  }

  ghost function Prepend(head: seq<byte>, r: Result<seq<byte>, IoError>): Result<seq<byte>, IoError> {
    match r
    case Err(e) => Err(e)
    case Ok(d) => Ok(head + d)
  }

  lemma PrependNothing(a: seq<byte>, r: Result<seq<byte>, IoError>)
    requires a == []
    ensures Prepend(a, r) == r
  {
    if r.Ok? {
      assert a + r.value == r.value;
    }
  }

  lemma PrependTwice(a: seq<byte>, b: seq<byte>, r: Result<seq<byte>, IoError>)
    ensures Prepend(a, Prepend(b, r)) == Prepend(a + b, r)
  {
    if r.Ok? {
      assert a + (b + r.value) == a + b + r.value;
    }
  }

  ghost function SpanLengths(spans: seq<IoSpan>): nat {
    if spans == [] then 0 else spans[0].length + SpanLengths(spans[1..])
  }

  lemma {:induction false} SpanLengthsOf(l: StorageLayout, pos: nat, end: nat)
    requires WellFormed(l) && pos <= end <= l.totalSize
    ensures SpanLengths(SpansOf(l, pos, end)) == end - pos
    decreases end - pos
  {
    hide WellFormed, SpanAt;
    if pos < end {
      var s := SpanAt(l, pos, end);
      SpanLengthsOf(l, pos + s.length, end);
      assert SpansOf(l, pos, end)[1..] == SpansOf(l, pos + s.length, end);
    }
  }

  /** `read_piece`: succeeds exactly when every byte of the piece is on disk, and
      then returns the piece's stretch of the stream. */
  method ReadPiece(l: StorageLayout, files: Files, index: nat) returns (r: Result<seq<byte>, IoError>)
    requires WellFormed(l)
    ensures r.Ok? <==> index < l.pieceCount && PieceReadable(l, files, index)
    ensures r.Ok? ==> r.value == PieceBytes(l, files, index)
    ensures r.Err? ==> r.error == if index < l.pieceCount then Unreadable else BadPiece
  {
    var size := l.PieceSize(index);
    if size.Err? {
      return Err(BadPiece);
    }
    var out := new byte[size.value];
    var spans := SpansForPiece(l, index);
    if spans.Err? {
      return Err(BadPiece);
    }
    SpanLengthsOf(l, From(l, index), Upto(l, index));
    ReadSpansIsStream(l, files, From(l, index), Upto(l, index));
    var filled := FillFromSpans(files, spans.value, out, size.value);
    if filled.Err? {
      return Err(filled.error);
    }
    return Ok(out[..]);
  }

  // ---------------------------------------------------------------- hashing

  /** A running hash: the bytes fed so far. */
  class Hasher {
    var fed: seq<byte>

    constructor ()
      ensures fed == []
    {
      fed := [];
    }

    method Update(data: seq<byte>)
      modifies this
      ensures fed == old(fed) + data
    {
      fed := fed + data;
    }
  }

  /** One window: read the stream range `[off, off + chunk)` into `buf`. */
  method ReadWindow(l: StorageLayout, files: Files, off: nat, chunk: nat, buf: array<byte>)
    returns (r: Result<nat, IoError>)
    requires WellFormed(l) && off + chunk <= l.totalSize && 0 < chunk <= buf.Length
    modifies buf
    ensures r.Ok? <==> Readable(l, files, off, off + chunk)
    ensures r.Ok? ==> r.value == chunk && buf[..chunk] == StreamBytes(l, files, off, off + chunk)
  {
    hide TorrentByte, ReadSpans, StreamBytes, Readable, SpansOf, SpanLengths;
    var spans := SpansForRange(l, off, chunk);
    if spans.Err? {
      return Err(BadPiece);
    }
    SpanLengthsOf(l, off, off + chunk);
    ReadSpansIsStream(l, files, off, off + chunk);
    r := FillFromSpans(files, spans.value, buf, chunk);
  }

  /** `hash_piece_windowed`: window by window, the hasher is fed exactly the bytes
      `ReadPiece` returns, and the call fails exactly when `ReadPiece` does. */
  method HashPieceWindowed(l: StorageLayout, files: Files, index: nat, hasher: Hasher) returns (r: Result<(), IoError>)
    requires WellFormed(l)
    modifies hasher
    ensures r.Ok? <==> index < l.pieceCount && PieceReadable(l, files, index)
    ensures r.Ok? ==> hasher.fed == old(hasher.fed) + PieceBytes(l, files, index)
  {
    var size := l.PieceSize(index);
    if size.Err? {
      return Err(BadPiece);
    }
    var plen := size.value;
    ghost var from, upto := From(l, index), Upto(l, index);
    if plen == 0 {
      assert from == upto;
      assert PieceBytes(l, files, index) == [];
      return Ok(());
    }
    PieceSizeIs(l, index);
    StrideIsProduct(index, l.pieceLength);
    var start := index * l.pieceLength;
    r := HashRange(l, files, start, plen, hasher);
  }

  /** The window loop of `hash_piece_windowed`. */
  method HashRange(l: StorageLayout, files: Files, start: nat, plen: nat, hasher: Hasher)
    returns (r: Result<(), IoError>)
    requires WellFormed(l) && plen > 0 && start + plen <= l.totalSize
    modifies hasher
    ensures r.Ok? <==> Readable(l, files, start, start + plen)
    ensures r.Ok? ==> hasher.fed == old(hasher.fed) + StreamBytes(l, files, start, start + plen)
  {
    hide TorrentByte, WellFormed, Readable, Fed;
    var remaining: nat := plen;
    var torrentOff := start;
    var buf := new byte[Max(Min(HASH_READ_WINDOW, plen), 1)];
    ghost var before := hasher.fed;
    NothingFed(l, files, start, before);
    while remaining > 0
      invariant torrentOff + remaining == start + plen && start <= torrentOff
      invariant remaining <= plen
      invariant Fed(l, files, start, torrentOff, before, hasher.fed)
    {
      var chunk := Min(remaining, HASH_READ_WINDOW);
      ghost var mid := hasher.fed;
      var filled := FeedWindow(l, files, torrentOff, chunk, buf, hasher);
      if filled.Err? {
        NotReadable(l, files, start, torrentOff, torrentOff + chunk, start + plen);
        return filled;
      }
      FedOn(l, files, start, torrentOff, torrentOff + chunk, before, mid, hasher.fed);
      torrentOff := torrentOff + chunk;
      remaining := remaining - chunk;
    }
    FedMeans(l, files, start, start + plen, before, hasher.fed);
    return Ok(());
  }

  /** `after` is `before` followed by the stream range. */
  ghost predicate Fed(l: StorageLayout, files: Files, pos: nat, end: nat, before: seq<byte>, after: seq<byte>) {
    pos <= end && Readable(l, files, pos, end) && after == before + StreamBytes(l, files, pos, end)
  }

  lemma FedMeans(l: StorageLayout, files: Files, pos: nat, end: nat, before: seq<byte>, after: seq<byte>)
    requires Fed(l, files, pos, end, before, after)
    ensures pos <= end && Readable(l, files, pos, end) && after == before + StreamBytes(l, files, pos, end)
  {}

  lemma NothingFed(l: StorageLayout, files: Files, pos: nat, before: seq<byte>)
    ensures Fed(l, files, pos, pos, before, before)
  {
    hide TorrentByte;
    assert StreamBytes(l, files, pos, pos) == [];
  }

  /** Read one window and feed it to the hasher. */
  method FeedWindow(l: StorageLayout, files: Files, off: nat, chunk: nat, buf: array<byte>, hasher: Hasher)
    returns (r: Result<(), IoError>)
    requires WellFormed(l) && off + chunk <= l.totalSize && 0 < chunk <= buf.Length
    modifies buf, hasher
    ensures r.Ok? <==> Readable(l, files, off, off + chunk)
    ensures r.Ok? ==> Fed(l, files, off, off + chunk, old(hasher.fed), hasher.fed)
  {
    hide TorrentByte, WellFormed, Readable, StreamBytes;
    var filled := ReadWindow(l, files, off, chunk, buf);
    if filled.Err? {
      return Err(filled.error);
    }
    hasher.Update(buf[..filled.value]);
    return Ok(());
  }

  lemma FedOn(l: StorageLayout, files: Files, pos: nat, mid: nat, end: nat, a: seq<byte>, b: seq<byte>, c: seq<byte>)
    requires WellFormed(l) && end <= l.totalSize && Fed(l, files, pos, mid, a, b) && Fed(l, files, mid, end, b, c)
    ensures Fed(l, files, pos, end, a, c)
  {
    hide TorrentByte, WellFormed, Readable, StreamBytes;
    ReadableJoin(l, files, pos, mid, end);
    StreamSplit(l, files, pos, mid, end);
    Assoc(a, StreamBytes(l, files, pos, mid), StreamBytes(l, files, mid, end));
  }

  lemma NotReadable(l: StorageLayout, files: Files, start: nat, pos: nat, end: nat, stop: nat)
    requires WellFormed(l) && start <= pos <= end <= stop <= l.totalSize && !Readable(l, files, pos, end)
    ensures !Readable(l, files, start, stop)
  {
    hide WellFormed, TorrentByte;
  }

  lemma ReadableJoin(l: StorageLayout, files: Files, pos: nat, mid: nat, end: nat)
    requires WellFormed(l) && pos <= mid <= end <= l.totalSize
    requires Readable(l, files, pos, mid) && Readable(l, files, mid, end)
    ensures Readable(l, files, pos, end)
  {
    hide TorrentByte, WellFormed;
  }

  // ---------------------------------------------------------------- writing

  /** `pwrite` into a file opened with create and without truncate: a hole before the
      offset reads as zeros. */
  function Overwrite(content: seq<byte>, off: nat, data: seq<byte>): (r: seq<byte>)
    ensures |r| == Max(|content|, off + |data|)
    ensures forall i :: 0 <= i < |r| ==>
              r[i] == if off <= i < off + |data| then data[i - off]
                      else if i < |content| then content[i] else 0
  {
    var padded := if |content| < off then content + seq(off - |content|, _ => 0) else content;
    padded[..off] + data + if off + |data| < |padded| then padded[off + |data|..] else []
  }

  function Content(files: Files, path: AbsPath): seq<byte> {
    if path in files then files[path] else []
  }

  function SpanWritten(files: Files, s: IoSpan, data: seq<byte>): Files {
    files[s.path := Overwrite(Content(files, s.path), s.fileOffset, data)]
  }

  ghost function SpansWritten(files: Files, spans: seq<IoSpan>, data: seq<byte>): Files
    requires |data| == SpanLengths(spans)
    decreases |spans|
  {
    if spans == [] then files
    else
      SpansWritten(SpanWritten(files, spans[0], data[..spans[0].length]), spans[1..], data[spans[0].length..])
  }

  /** `files'` is `files` with the stream range starting at `pos` replaced by `data`:
      other stream bytes that were on disk keep their value, bytes that were not can
      only become a zero of a hole, and no other path is touched. */
  ghost predicate Replaces(l: StorageLayout, files: Files, files': Files, pos: nat, data: seq<byte>)
    requires WellFormed(l) && pos + |data| <= l.totalSize
  {
    && (forall t :: pos <= t < pos + |data| ==> TorrentByte(l, files', t) == Some(data[t - pos]))
    && (forall t :: 0 <= t < l.totalSize && !(pos <= t < pos + |data|) ==>
          || TorrentByte(l, files', t) == TorrentByte(l, files, t)
          || (TorrentByte(l, files, t).None? && TorrentByte(l, files', t) == Some(0)))
  }

  /** The size of the largest of the first `n` files at a place. */
  ghost function SizeAt(files: seq<FileLayout>, place: Place, n: nat): nat
    requires n <= |files|
  {
    if n == 0 then 0
    else
      Max(SizeAt(files, place, n - 1), if PlaceOf(files[n - 1].path) == place then files[n - 1].size else 0)
  }

  lemma {:induction false} SizeAtLeast(files: seq<FileLayout>, k: nat, n: nat)
    requires k < n <= |files|
    ensures files[k].size <= SizeAt(files, PlaceOf(files[k].path), n)
  {
    hide PlaceOf;
    if k < n - 1 {
      SizeAtLeast(files, k, n - 1);
    }
  }

  /** Only paths of files with bytes change, and a write keeps what is at a path within the size
      of a file there. */
  ghost predicate Within(l: StorageLayout, files: Files, files': Files) {
    && (forall p :: p in files && p !in LayoutPaths(l) ==> p in files' && files'[p] == files[p])
    && (forall p :: p in files' && p !in LayoutPaths(l) ==> p in files)
    && (forall k :: 0 <= k < |l.files| ==>
          |Content(files', l.Absolute(l.files[k].path))|
            <= Max(|Content(files, l.Absolute(l.files[k].path))|,
                   SizeAt(l.files, PlaceOf(l.files[k].path), |l.files|)))
    && (forall k :: 0 <= k < |l.files| ==>
          |Content(files', l.Absolute(l.files[k].path))| >= |Content(files, l.Absolute(l.files[k].path))|)
  }

  ghost function LayoutPaths(l: StorageLayout): set<AbsPath> {
    set k | 0 <= k < |l.files| && l.files[k].size > 0 :: l.Absolute(l.files[k].path)
  }

  lemma AbsoluteInjective(l: StorageLayout, j: nat, k: nat)
    requires DistinctPaths(l.files) && j < |l.files| && k < |l.files|
    requires l.files[j].size > 0 && l.files[k].size > 0
    requires l.Absolute(l.files[j].path) == l.Absolute(l.files[k].path)
    ensures j == k
  {
    assert PlaceOf(l.files[j].path) == PlaceOf(l.files[k].path);
  }

  /** A span lies in one file: the write overwrites that file and leaves the others. */
  lemma SpanWriteByFile(l: StorageLayout, files: Files, pos: nat, end: nat, data: seq<byte>, j: nat)
    requires WellFormed(l) && DistinctPaths(l.files) && pos < end <= l.totalSize && j < |l.files|
    requires |data| <= SpanAt(l, pos, end).length && l.files[j].size > 0
    ensures var s := SpanAt(l, pos, end);
            var path := l.Absolute(l.files[j].path);
            Content(SpanWritten(files, s, data), path)
              == if j == FileAt(l, pos) then Overwrite(Content(files, path), pos - l.files[j].offset, data)
                 else Content(files, path)
    ensures j != FileAt(l, pos) ==>
              var path := l.Absolute(l.files[j].path);
              path in SpanWritten(files, SpanAt(l, pos, end), data) <==> path in files
  {
    SpanAtIs(l, pos, end);
    assert l.files[FileAt(l, pos)].size > 0;
    hide WellFormed, DistinctPaths, Overwrite, FileAt, SpanAt, StorageLayout.Absolute, SpanWritten, Content;
    SpanWrittenAt(files, SpanAt(l, pos, end), data, l.Absolute(l.files[j].path));
    if l.Absolute(l.files[j].path) == SpanAt(l, pos, end).path {
      AbsoluteInjective(l, j, FileAt(l, pos));
    }
  }

  lemma SpanWrittenAt(files: Files, s: IoSpan, data: seq<byte>, path: AbsPath)
    ensures Content(SpanWritten(files, s, data), path)
         == if path == s.path then Overwrite(Content(files, path), s.fileOffset, data) else Content(files, path)
    ensures path != s.path ==> (path in SpanWritten(files, s, data) <==> path in files)
  {
    hide Overwrite;
  }

  lemma SpanAtIs(l: StorageLayout, pos: nat, end: nat)
    requires WellFormed(l) && pos < end <= l.totalSize
    ensures SpanAt(l, pos, end).path == l.Absolute(l.files[FileAt(l, pos)].path)
    ensures SpanAt(l, pos, end).fileOffset == pos - l.files[FileAt(l, pos)].offset
    ensures SpanAt(l, pos, end).fileOffset + SpanAt(l, pos, end).length <= l.files[FileAt(l, pos)].size
  {
    hide WellFormed, FileAt;
  }

  lemma SpanWriteByte(l: StorageLayout, files: Files, pos: nat, end: nat, data: seq<byte>, t: nat)
    requires WellFormed(l) && DistinctPaths(l.files) && pos < end <= l.totalSize && t < l.totalSize
    requires |data| <= SpanAt(l, pos, end).length
    ensures var files' := SpanWritten(files, SpanAt(l, pos, end), data);
            if pos <= t < pos + |data| then TorrentByte(l, files', t) == Some(data[t - pos])
            else || TorrentByte(l, files', t) == TorrentByte(l, files, t)
                 || (TorrentByte(l, files, t).None? && TorrentByte(l, files', t) == Some(0))
  {
    hide FileAt, WellFormed, Overwrite, DistinctPaths;
    var k, j := FileAt(l, pos), FileAt(l, t);
    if pos <= t < pos + |data| {
      assert l.files[k].Covers(t);
    }
    SpanWriteByFile(l, files, pos, end, data, j);
  }

  /** Writing one span of the range, or the front of it, has that effect on its stretch of the
      stream. */
  lemma WriteSpanReplaces(l: StorageLayout, files: Files, pos: nat, end: nat, data: seq<byte>)
    requires WellFormed(l) && DistinctPaths(l.files) && pos < end <= l.totalSize
    requires |data| <= SpanAt(l, pos, end).length
    ensures pos + |data| <= l.totalSize
    ensures Replaces(l, files, SpanWritten(files, SpanAt(l, pos, end), data), pos, data)
    ensures Within(l, files, SpanWritten(files, SpanAt(l, pos, end), data))
  {
    hide TorrentByte, WellFormed, SpanWritten, Overwrite, SpanAt;
    var s := SpanAt(l, pos, end);
    assert pos + s.length <= end;
    var files' := SpanWritten(files, s, data);
    assert Replaces(l, files, files', pos, data) by {
      forall t: nat | t < l.totalSize
        ensures pos <= t < pos + |data| ==> TorrentByte(l, files', t) == Some(data[t - pos])
        ensures !(pos <= t < pos + |data|) ==>
          || TorrentByte(l, files', t) == TorrentByte(l, files, t)
          || (TorrentByte(l, files, t).None? && TorrentByte(l, files', t) == Some(0))
      {
        SpanWriteByte(l, files, pos, end, data, t);
      }
    }
    WriteSpanWithin(l, files, pos, end, data);
  }

  lemma WriteSpanWithin(l: StorageLayout, files: Files, pos: nat, end: nat, data: seq<byte>)
    requires WellFormed(l) && pos < end <= l.totalSize
    requires |data| <= SpanAt(l, pos, end).length
    ensures Within(l, files, SpanWritten(files, SpanAt(l, pos, end), data))
  {
    hide WellFormed, Content, Overwrite, FileAt, SizeAt;
    var s := SpanAt(l, pos, end);
    assert s.path in LayoutPaths(l);
    forall j | 0 <= j < |l.files|
      ensures |Content(SpanWritten(files, s, data), l.Absolute(l.files[j].path))|
                <= Max(|Content(files, l.Absolute(l.files[j].path))|,
                       SizeAt(l.files, PlaceOf(l.files[j].path), |l.files|))
      ensures |Content(SpanWritten(files, s, data), l.Absolute(l.files[j].path))|
                >= |Content(files, l.Absolute(l.files[j].path))|
    {
      SpanGrowth(l, files, pos, end, data, j);
    }
    hide SpanAt, LayoutPaths;
  }

  /** A write into a span grows its file to no more than its size. */
  lemma SpanGrowth(l: StorageLayout, files: Files, pos: nat, end: nat, data: seq<byte>, j: nat)
    requires WellFormed(l) && pos < end <= l.totalSize && j < |l.files|
    requires |data| <= SpanAt(l, pos, end).length
    ensures var path := l.Absolute(l.files[j].path);
            var c := Content(SpanWritten(files, SpanAt(l, pos, end), data), path);
            |Content(files, path)| <= |c|
              <= Max(|Content(files, path)|, SizeAt(l.files, PlaceOf(l.files[j].path), |l.files|))
  {
    SpanAtIs(l, pos, end);
    SizeAtLeast(l.files, FileAt(l, pos), |l.files|);
    SpanWrittenAt(files, SpanAt(l, pos, end), data, l.Absolute(l.files[j].path));
    hide WellFormed, FileAt, SpanAt, Content, SpanWritten, SizeAt;
  }

  lemma ReplacesCompose(l: StorageLayout, f0: Files, f1: Files, f2: Files, pos: nat, a: seq<byte>, b: seq<byte>)
    requires WellFormed(l) && pos + |a| + |b| <= l.totalSize
    requires Replaces(l, f0, f1, pos, a) && Replaces(l, f1, f2, pos + |a|, b)
    ensures Replaces(l, f0, f2, pos, a + b)
  {
    hide TorrentByte, WellFormed;
  }

  lemma WithinCompose(l: StorageLayout, f0: Files, f1: Files, f2: Files)
    requires Within(l, f0, f1) && Within(l, f1, f2)
    ensures Within(l, f0, f2)
  {
    hide LayoutPaths, Content;
  }

  lemma WithinReflexive(l: StorageLayout, files: Files)
    ensures Within(l, files, files)
  {}

  /** The spans of a range write the data to exactly that range of the stream. */
  lemma {:induction false} WriteSpansReplaces(l: StorageLayout, files: Files, pos: nat, end: nat, data: seq<byte>)
    requires WellFormed(l) && DistinctPaths(l.files) && pos <= end <= l.totalSize && |data| == end - pos
    requires SpanLengths(SpansOf(l, pos, end)) == |data|
    ensures Replaces(l, files, SpansWritten(files, SpansOf(l, pos, end), data), pos, data)
    ensures Within(l, files, SpansWritten(files, SpansOf(l, pos, end), data))
    decreases end - pos
  {
    hide WellFormed, SpanAt, TorrentByte, Within, SpanWritten;
    if pos < end {
      var s := SpanAt(l, pos, end);
      var mid := pos + s.length;
      var spans := SpansOf(l, pos, end);
      assert spans[0] == s && spans[1..] == SpansOf(l, mid, end);
      var head, tail := data[..s.length], data[s.length..];
      var files1 := SpanWritten(files, s, head);
      WriteSpanReplaces(l, files, pos, end, head);
      WriteSpansReplaces(l, files1, mid, end, tail);
      var files2 := SpansWritten(files1, SpansOf(l, mid, end), tail);
      ReplacesCompose(l, files, files1, files2, pos, head, tail);
      WithinCompose(l, files, files1, files2);
      assert data == head + tail;
    } else {
      WithinReflexive(l, files);
    }
  }

  lemma SpansWrittenStep(files: Files, spans: seq<IoSpan>, i: nat, data: seq<byte>, off: nat)
    requires i < |spans| && off <= |data| && |data| - off == SpanLengths(spans[i..])
    ensures |data| - off == spans[i].length + SpanLengths(spans[i + 1..])
    ensures SpansWritten(files, spans[i..], data[off..])
         == SpansWritten(SpanWritten(files, spans[i], data[off..off + spans[i].length]),
                         spans[i + 1..], data[off + spans[i].length..])
  {
    hide SpanWritten;
    var n := spans[i].length;
    assert spans[i..][0] == spans[i] && spans[i..][1..] == spans[i + 1..];
    assert data[off..][..n] == data[off..off + n] && data[off..][n..] == data[off + n..];
  }

  /** What the operating system does with one span write: all of it, nothing for want of an
      open file, or an error after some bytes. */
  datatype Fate = Works | NotOpened | FailsAfter(n: nat)

  /** The write of `need` bytes goes through. */
  predicate Survives(fate: Fate, need: nat) {
    fate.Works? || (fate.FailsAfter? && fate.n >= need)
  }

  /** A file that was opened for writing exists; one that got no byte did not grow. */
  function PartlyWritten(files: Files, s: IoSpan, data: seq<byte>): Files {
    if data == [] then files[s.path := Content(files, s.path)] else SpanWritten(files, s, data)
  }

  /** Some front of `data` went to the stream at `pos`, and nothing else changed. */
  ghost predicate FrontWritten(l: StorageLayout, files: Files, files': Files, pos: nat, data: seq<byte>)
    requires WellFormed(l) && pos + |data| <= l.totalSize
  {
    Within(l, files, files') && exists m: nat :: m <= |data| && Replaces(l, files, files', pos, data[..m])
  }

  lemma NothingReplaced(l: StorageLayout, files: Files, pos: nat)
    requires WellFormed(l) && pos <= l.totalSize
    ensures Replaces(l, files, files, pos, [])
  {
    hide TorrentByte;
  }

  /** A file opened and not written to. */
  lemma OpenedReplaces(l: StorageLayout, files: Files, pos: nat, end: nat)
    requires WellFormed(l) && DistinctPaths(l.files) && pos < end <= l.totalSize
    ensures var files' := PartlyWritten(files, SpanAt(l, pos, end), []);
            Replaces(l, files, files', pos, []) && Within(l, files, files')
  {
    hide WellFormed, DistinctPaths, FileAt;
    var s := SpanAt(l, pos, end);
    assert s.path in LayoutPaths(l);
    hide SpanAt, LayoutPaths;
  }

  /** A span write that fails leaves a front of its data behind. */
  lemma PartReplaces(l: StorageLayout, files: Files, pos: nat, end: nat, data: seq<byte>)
    requires WellFormed(l) && DistinctPaths(l.files) && pos < end <= l.totalSize
    requires |data| <= SpanAt(l, pos, end).length
    ensures pos + |data| <= l.totalSize
    ensures var files' := PartlyWritten(files, SpanAt(l, pos, end), data);
            Replaces(l, files, files', pos, data) && Within(l, files, files')
  {
    hide SpanAt, Replaces, Within;
    if data == [] {
      OpenedReplaces(l, files, pos, end);
    } else {
      WriteSpanReplaces(l, files, pos, end, data);
    }
  }

  // ---------------------------------------------------------------- files and directories

  /** With files at `keys`, a file can be opened for writing at `p`: the path names one, no file
      is in the place of its directories, and none is in a directory of its name. */
  predicate Openable(keys: set<AbsPath>, p: AbsPath) {
    && p.rel.NamesFile()
    && forall q :: q in keys && q.root == p.root && q != p ==> Compatible(q.rel, p.rel)
  }

  ghost predicate LegalKeys(keys: set<AbsPath>) {
    forall p :: p in keys ==> Openable(keys, p)
  }

  /** A file system can have these files. */
  ghost predicate Legal(files: Files) {
    LegalKeys(files.Keys)
  }

  /** A file that can be opened can be there. */
  lemma OpenedIsLegal(keys: set<AbsPath>, p: AbsPath)
    requires LegalKeys(keys) && Openable(keys, p)
    ensures LegalKeys(keys + {p})
  {
    hide Place.Full, Place.Inside;
  }

  ghost function PathsOf(spans: seq<IoSpan>): set<AbsPath> {
    set s | s in spans :: s.path
  }

  /** Every span opens after those before it were written, and its write goes through. */
  ghost predicate AllSurvive(keys: set<AbsPath>, spans: seq<IoSpan>, fates: nat -> Fate) {
    forall j :: 0 <= j < |spans| ==>
      Openable(keys + PathsOf(spans[..j]), spans[j].path) && Survives(fates(j), spans[j].length)
  }

  lemma PathsOfNext(spans: seq<IoSpan>, i: nat)
    requires i < |spans|
    ensures PathsOf(spans[..i + 1]) == PathsOf(spans[..i]) + {spans[i].path}
  {
    assert spans[..i + 1] == spans[..i] + [spans[i]];
  }

  /** A storage device holding the torrent's files. */
  class Disk {
    var files: Files

    /** `write_span`: refused, without effect, if the buffer is too small; bytes past the
        span's length are not written. */
    method WriteSpan(s: IoSpan, data: seq<byte>, fate: Fate) returns (r: Result<(), IoError>)
      modifies this
      ensures r.Ok? <==> |data| >= s.length && Openable(old(files).Keys, s.path) && Survives(fate, s.length)
      ensures r.Ok? ==> files == SpanWritten(old(files), s, data[..s.length])
      ensures r.Err? ==> r.error == if |data| < s.length then BufferTooSmall
                                    else if fate.NotOpened? || !Openable(old(files).Keys, s.path) then OpenFailed
                                    else WriteFailed
      ensures r.Err? && r.error != WriteFailed ==> files == old(files)
      ensures r.Err? && r.error == WriteFailed ==>
                fate.FailsAfter? && fate.n < s.length && files == PartlyWritten(old(files), s, data[..fate.n])
      ensures Legal(old(files)) ==> Legal(files)
    {
      hide Openable, LegalKeys;
      if |data| < s.length {
        return Err(BufferTooSmall);
      }
      if fate.NotOpened? || !Openable(files.Keys, s.path) {
        return Err(OpenFailed);
      }
      ghost var before := files;
      if fate.FailsAfter? && fate.n < s.length {
        files := PartlyWritten(files, s, data[..fate.n]);
        r := Err(WriteFailed);
      } else {
        files := SpanWritten(files, s, data[..s.length]);
        r := Ok(());
      }
      if Legal(before) {
        OpenedIsLegal(before.Keys, s.path);
        assert files.Keys == before.Keys + {s.path};
      }
    }

    /** `write_piece`: refused, without effect, unless the data has the piece's length;
        otherwise the piece's stretch of the stream becomes the data, or, if a span write
        fails, some front of it does. `fates` says how each span's write goes. */
    method WritePiece(l: StorageLayout, index: nat, data: seq<byte>, fates: nat -> Fate)
      returns (r: Result<(), IoError>)
      requires WellFormed(l)
      modifies this
      ensures r.Ok? ==> index < l.pieceCount && |data| == Upto(l, index) - From(l, index)
      ensures r.Ok? ==> files == PieceWritten(l, old(files), index, data)
      ensures index < l.pieceCount && |data| == Upto(l, index) - From(l, index) ==>
                (r.Ok? <==> AllSurvive(old(files).Keys, SpansOf(l, From(l, index), Upto(l, index)), fates))
      ensures r.Err? && r.error != OpenFailed && r.error != WriteFailed ==>
                files == old(files) && r.error == if index < l.pieceCount then WrongLength else BadPiece
      ensures r.Err? && (r.error == OpenFailed || r.error == WriteFailed) ==>
                && index < l.pieceCount && |data| == Upto(l, index) - From(l, index)
                && (DistinctPaths(l.files) ==> FrontWritten(l, old(files), files, From(l, index), data))
      ensures Legal(old(files)) ==> Legal(files)
    {
      hide SpansOf, SpanAt, SpansWritten, SpanLengths, FrontWritten, AllSurvive, Legal, DistinctPaths;
      var size := l.PieceSize(index);
      if size.Err? {
        return Err(BadPiece);
      }
      if |data| != size.value {
        return Err(WrongLength);
      }
      var spans := SpansForPiece(l, index);
      if spans.Err? {
        return Err(BadPiece);
      }
      SpanLengthsOf(l, From(l, index), Upto(l, index));
      SpansOfNothing(l, index);
      r := WriteAll(l, From(l, index), Upto(l, index), spans.value, data, fates);
    }

    /** The span loop of `write_piece`, with its running offset into the data. */
    method WriteAll(ghost l: StorageLayout, ghost pos: nat, ghost end: nat, spans: seq<IoSpan>, data: seq<byte>,
                    fates: nat -> Fate)
      returns (r: Result<(), IoError>)
      requires WellFormed(l) && pos <= end <= l.totalSize
      requires spans == SpansOf(l, pos, end) && |data| == end - pos == SpanLengths(spans)
      modifies this
      ensures r.Ok? <==> AllSurvive(old(files).Keys, spans, fates)
      ensures r.Ok? ==> files == SpansWritten(old(files), spans, data)
      ensures r.Err? ==> (r.error == OpenFailed || r.error == WriteFailed)
                         && (DistinctPaths(l.files) ==> FrontWritten(l, old(files), files, pos, data))
      ensures Legal(old(files)) ==> Legal(files)
    {
      hide SpansWritten, SpanLengths, SpansOf, SpanAt, WellFormed, FrontSoFar, PartlyWritten, DistinctPaths,
           FrontWritten, Openable, PathsOf, Legal, Overwrite, SoFar, SpanWritten;
      ghost var start := files;
      var off: nat := 0;
      var i := 0;
      SoFarStart(l, pos, end, spans, data, files);
      while i < |spans|
        invariant i <= |spans| && off <= |data| && SoFar(l, pos, end, spans, data, start, files, i, off)
        invariant Legal(start) ==> Legal(files)
        invariant forall j :: 0 <= j < i ==>
          Openable(start.Keys + PathsOf(spans[..j]), spans[j].path) && Survives(fates(j), spans[j].length)
      {
        var n := spans[i].length;
        SoFarShape(l, pos, end, spans, data, start, files, i, off);
        ghost var before := files;
        var w := WriteSpan(spans[i], data[off..off + n], fates(i));
        if w.Err? {
          ghost var m := if w.error == WriteFailed then fates(i).n else 0;
          assert m <= n && data[off..][..m] == data[off..off + n][..m];
          WriteStopped(l, start, before, files, pos, pos + off, end, data, m, w.error == WriteFailed);
          return w;
        }
        assert data[off..off + n][..n] == data[off..off + n];
        SoFarStep(l, pos, end, spans, data, start, before, i, off);
        off := off + n;
        i := i + 1;
      }
      SoFarEnd(l, pos, end, spans, data, start, files, i, off);
      return Ok(());
    }
  }

  /** The state of the span loop before span `i`, with `off` bytes done. */
  ghost predicate SoFar(l: StorageLayout, pos: nat, end: nat, spans: seq<IoSpan>, data: seq<byte>,
                        start: Files, files: Files, i: nat, off: nat)
    requires WellFormed(l) && pos <= end <= l.totalSize && |data| == end - pos == SpanLengths(spans)
    requires i <= |spans| && off <= |data|
  {
    && |data| - off == SpanLengths(spans[i..]) && spans[i..] == SpansOf(l, pos + off, end)
    && SpansWritten(files, spans[i..], data[off..]) == SpansWritten(start, spans, data)
    && FrontSoFar(l, start, files, pos, data, off)
    && files.Keys == start.Keys + PathsOf(spans[..i])
  }

  lemma SoFarStart(l: StorageLayout, pos: nat, end: nat, spans: seq<IoSpan>, data: seq<byte>, files: Files)
    requires WellFormed(l) && pos <= end <= l.totalSize && |data| == end - pos == SpanLengths(spans)
    requires spans == SpansOf(l, pos, end)
    ensures SoFar(l, pos, end, spans, data, files, files, 0, 0)
  {
    hide SpansWritten, SpanLengths, SpansOf, WellFormed, FrontSoFar, PathsOf;
    assert spans[0..] == spans && data[0..] == data;
    NothingSoFar(l, files, pos, data);
    NoPaths(spans);
    assert files.Keys + {} == files.Keys;
  }

  lemma SoFarShape(l: StorageLayout, pos: nat, end: nat, spans: seq<IoSpan>, data: seq<byte>, start: Files,
                   files: Files, i: nat, off: nat)
    requires WellFormed(l) && pos <= end <= l.totalSize && |data| == end - pos == SpanLengths(spans)
    requires i < |spans| && off <= |data| && SoFar(l, pos, end, spans, data, start, files, i, off)
    ensures pos + off < end && spans[i] == SpanAt(l, pos + off, end) && off + spans[i].length <= |data|
    ensures files.Keys == start.Keys + PathsOf(spans[..i]) && FrontSoFar(l, start, files, pos, data, off)
  {
    hide SpansWritten, SpanLengths, SpansOf, WellFormed, FrontSoFar, PathsOf, SpanAt;
    SpansOfHead(l, pos + off, end, spans, i);
  }

  lemma SoFarStep(l: StorageLayout, pos: nat, end: nat, spans: seq<IoSpan>, data: seq<byte>, start: Files,
                  before: Files, i: nat, off: nat)
    requires WellFormed(l) && pos <= end <= l.totalSize && |data| == end - pos == SpanLengths(spans)
    requires i < |spans| && off <= |data| && SoFar(l, pos, end, spans, data, start, before, i, off)
    ensures var n := spans[i].length;
            && off + n <= |data|
            && SoFar(l, pos, end, spans, data, start, SpanWritten(before, spans[i], data[off..off + n]), i + 1, off + n)
  {
    hide SpansWritten, SpanLengths, SpansOf, WellFormed, FrontSoFar, PathsOf, SpanAt, Overwrite;
    var n := spans[i].length;
    SpansOfHead(l, pos + off, end, spans, i);
    SpansWrittenStep(before, spans, i, data, off);
    PathsOfNext(spans, i);
    SpanSoFar(l, start, before, pos, off, end, data);
    assert SpanWritten(before, spans[i], data[off..off + n]).Keys == before.Keys + {spans[i].path};
  }

  lemma SoFarEnd(l: StorageLayout, pos: nat, end: nat, spans: seq<IoSpan>, data: seq<byte>, start: Files,
                 files: Files, i: nat, off: nat)
    requires WellFormed(l) && pos <= end <= l.totalSize && |data| == end - pos == SpanLengths(spans)
    requires i == |spans| && off <= |data| && SoFar(l, pos, end, spans, data, start, files, i, off)
    ensures files == SpansWritten(start, spans, data)
  {
    hide SpansWritten, SpansOf, WellFormed, FrontSoFar, PathsOf;
    SpansWrittenNone(files, spans[i..], data[off..]);
  }

  lemma NoPaths(spans: seq<IoSpan>)
    ensures PathsOf(spans[..0]) == {}
  {}

  /** Where no two files share a place, the first `off` bytes of `data` are written. */
  ghost predicate FrontSoFar(l: StorageLayout, start: Files, files: Files, pos: nat, data: seq<byte>, off: nat)
    requires WellFormed(l) && off <= |data| && pos + |data| <= l.totalSize
  {
    DistinctPaths(l.files) ==> Replaces(l, start, files, pos, data[..off]) && Within(l, start, files)
  }

  lemma NothingSoFar(l: StorageLayout, files: Files, pos: nat, data: seq<byte>)
    requires WellFormed(l) && pos + |data| <= l.totalSize
    ensures FrontSoFar(l, files, files, pos, data, 0)
  {
    hide Replaces, Within, WellFormed;
    NothingReplaced(l, files, pos);
    WithinReflexive(l, files);
    assert data[..0] == [];
  }

  lemma SpanSoFar(l: StorageLayout, start: Files, before: Files, pos: nat, off: nat, end: nat, data: seq<byte>)
    requires WellFormed(l) && pos + off < end <= l.totalSize && |data| == end - pos
    requires FrontSoFar(l, start, before, pos, data, off)
    ensures var s := SpanAt(l, pos + off, end);
            && off + s.length <= |data|
            && FrontSoFar(l, start, SpanWritten(before, s, data[off..off + s.length]), pos, data, off + s.length)
  {
    hide Replaces, Within, WellFormed, SpanAt, SpanWritten, DistinctPaths;
    var n := SpanAt(l, pos + off, end).length;
    if DistinctPaths(l.files) {
      var after := SpanWritten(before, SpanAt(l, pos + off, end), data[off..off + n]);
      WriteSpanReplaces(l, before, pos + off, end, data[off..off + n]);
      ReplacesCompose(l, start, before, after, pos, data[..off], data[off..off + n]);
      WithinCompose(l, start, before, after);
      assert data[..off] + data[off..off + n] == data[..off + n];
    }
  }

  lemma SpansOfNothing(l: StorageLayout, index: nat)
    requires WellFormed(l) && index < l.pieceCount
    ensures PieceSpans(l, index) == SpansOf(l, From(l, index), Upto(l, index))
  {}

  lemma SpansOfHead(l: StorageLayout, pos: nat, end: nat, spans: seq<IoSpan>, i: nat)
    requires WellFormed(l) && pos <= end <= l.totalSize && i < |spans| && spans[i..] == SpansOf(l, pos, end)
    ensures pos < end && spans[i] == SpanAt(l, pos, end) && pos + spans[i].length <= end
    ensures spans[i + 1..] == SpansOf(l, pos + spans[i].length, end)
  {
    hide SpanAt;
    assert spans[i..][1..] == spans[i + 1..];
  }

  /** Where a span write stops short, a front of the whole data has been written. */
  lemma WriteStopped(l: StorageLayout, start: Files, before: Files, after: Files, pos: nat, mid: nat, end: nat,
                     data: seq<byte>, m: nat, touched: bool)
    requires WellFormed(l) && pos <= mid < end <= l.totalSize && |data| == end - pos
    requires FrontSoFar(l, start, before, pos, data, mid - pos) && m <= SpanAt(l, mid, end).length
    requires var rest := data[mid - pos..];
             after == if touched then PartlyWritten(before, SpanAt(l, mid, end), rest[..m]) else before
    ensures DistinctPaths(l.files) ==> FrontWritten(l, start, after, pos, data)
  {
    hide SpanAt, Replaces, Within, PartlyWritten, WellFormed, DistinctPaths;
    if touched && DistinctPaths(l.files) {
      var part := data[mid - pos..][..m];
      PartReplaces(l, before, mid, end, part);
      ReplacesCompose(l, start, before, after, pos, data[..mid - pos], part);
      WithinCompose(l, start, before, after);
      assert data[..mid - pos] + part == data[..mid - pos + m];
    }
  }

  /** A write that failed midway spares the other pieces. */
  lemma FailedWriteSpares(l: StorageLayout, files: Files, after: Files, i: nat, data: seq<byte>, j: nat)
    requires WellFormed(l) && i < l.pieceCount && j < l.pieceCount && i != j
    requires |data| == Upto(l, i) - From(l, i) && FrontWritten(l, files, after, From(l, i), data)
    ensures PieceReadable(l, files, j)
        ==> PieceReadable(l, after, j) && PieceBytes(l, after, j) == PieceBytes(l, files, j)
  {
    hide TorrentByte, WellFormed, Within, Replaces, Readable, StreamBytes;
    var m: nat :| m <= |data| && Replaces(l, files, after, From(l, i), data[..m]);
    PiecesDisjoint(l, i, j);
    if PieceReadable(l, files, j) {
      UntouchedRange(l, files, after, From(l, i), data[..m], From(l, j), Upto(l, j));
    }
  }

  lemma SpansWrittenNone(files: Files, spans: seq<IoSpan>, data: seq<byte>)
    requires spans == [] && |data| == SpanLengths(spans)
    ensures SpansWritten(files, spans, data) == files
  {}

  /** The disk after a piece was written. */
  ghost function PieceWritten(l: StorageLayout, files: Files, index: nat, data: seq<byte>): Files
    requires WellFormed(l) && index < l.pieceCount && |data| == Upto(l, index) - From(l, index)
  {
    SpanLengthsOf(l, From(l, index), Upto(l, index));
    SpansWritten(files, SpansOf(l, From(l, index), Upto(l, index)), data)
  }

  lemma PiecesDisjoint(l: StorageLayout, i: nat, j: nat)
    requires WellFormed(l) && i < l.pieceCount && j < l.pieceCount && i != j
    ensures Upto(l, i) <= From(l, j) || Upto(l, j) <= From(l, i)
  {
    StrideMonotone(Min(i, j), Max(i, j), l.pieceLength);
  }

  /** Reading a piece after writing it returns what was written; every other piece
      that could be read still can, and reads the same. */
  lemma WriteThenRead(l: StorageLayout, files: Files, i: nat, data: seq<byte>, j: nat)
    requires WellFormed(l) && DistinctPaths(l.files) && i < l.pieceCount && j < l.pieceCount
    requires |data| == Upto(l, i) - From(l, i)
    ensures var after := PieceWritten(l, files, i, data);
            && Within(l, files, after)
            && (j == i ==> PieceReadable(l, after, j) && PieceBytes(l, after, j) == data)
            && (j != i && PieceReadable(l, files, j)
                ==> PieceReadable(l, after, j) && PieceBytes(l, after, j) == PieceBytes(l, files, j))
  {
    SpanLengthsOf(l, From(l, i), Upto(l, i));
    WriteSpansReplaces(l, files, From(l, i), Upto(l, i), data);
    var after := PieceWritten(l, files, i, data);
    hide TorrentByte, WellFormed, Within, Replaces, Readable, StreamBytes, PieceWritten, SpansWritten;
    if i != j {
      PiecesDisjoint(l, i, j);
      if PieceReadable(l, files, j) {
        UntouchedRange(l, files, after, From(l, i), data, From(l, j), Upto(l, j));
      }
    } else {
      ReplacedRange(l, files, after, From(l, i), data);
    }
  }

  lemma ReplacedRange(l: StorageLayout, files: Files, after: Files, pos: nat, data: seq<byte>)
    requires WellFormed(l) && pos + |data| <= l.totalSize && Replaces(l, files, after, pos, data)
    ensures Readable(l, after, pos, pos + |data|) && StreamBytes(l, after, pos, pos + |data|) == data
  {
    hide TorrentByte, WellFormed;
  }

  lemma UntouchedRange(l: StorageLayout, files: Files, after: Files, pos: nat, data: seq<byte>, from: nat, upto: nat)
    requires WellFormed(l) && pos + |data| <= l.totalSize && Replaces(l, files, after, pos, data)
    requires from <= upto <= l.totalSize && (upto <= pos || pos + |data| <= from) && Readable(l, files, from, upto)
    ensures Readable(l, after, from, upto) && StreamBytes(l, after, from, upto) == StreamBytes(l, files, from, upto)
  {
    hide TorrentByte, WellFormed;
  }

  // ---------------------------------------------------------------- runs of writes

  datatype Write = Write(index: nat, data: seq<byte>)

  ghost predicate ValidWrites(l: StorageLayout, ws: seq<Write>)
    requires WellFormed(l)
  {
    forall w :: w in ws ==> w.index < l.pieceCount && |w.data| == Upto(l, w.index) - From(l, w.index)
  }

  /** The disk after a sequence of accepted `write_piece` calls. */
  ghost function AfterWrites(l: StorageLayout, files: Files, ws: seq<Write>): Files
    requires WellFormed(l) && ValidWrites(l, ws)
  {
    if ws == [] then files
    else
      var last := ws[|ws| - 1];
      PieceWritten(l, AfterWrites(l, files, ws[..|ws| - 1]), last.index, last.data)
  }

  /** The data of the last write to piece `j`, if any. */
  ghost function LastWrite(ws: seq<Write>, j: nat): Option<seq<byte>> {
    if ws == [] then None
    else if ws[|ws| - 1].index == j then Some(ws[|ws| - 1].data)
    else LastWrite(ws[..|ws| - 1], j)
  }

  /** After any sequence of writes a piece reads as the last data written to it; a
      piece never written keeps its bytes if it had them. */
  lemma {:induction false} ReadAfterWrites(l: StorageLayout, files: Files, ws: seq<Write>, j: nat)
    requires WellFormed(l) && DistinctPaths(l.files) && ValidWrites(l, ws) && j < l.pieceCount
    ensures var after := AfterWrites(l, files, ws);
            && Within(l, files, after)
            && (LastWrite(ws, j).Some? ==>
                  PieceReadable(l, after, j) && PieceBytes(l, after, j) == LastWrite(ws, j).value)
            && (LastWrite(ws, j).None? && PieceReadable(l, files, j) ==>
                  PieceReadable(l, after, j) && PieceBytes(l, after, j) == PieceBytes(l, files, j))
  {
    if ws == [] {
      WithinReflexive(l, files);
    } else {
      hide WellFormed, PieceWritten, PieceReadable, PieceBytes, Within, From, Upto;
      var init, last := ws[..|ws| - 1], ws[|ws| - 1];
      assert last in ws;
      ReadAfterWrites(l, files, init, j);
      var before := AfterWrites(l, files, init);
      WriteThenRead(l, before, last.index, last.data, j);
      WithinCompose(l, files, before, PieceWritten(l, before, last.index, last.data));
    }
  }

  ghost function PiecePayload(l: StorageLayout, payload: seq<byte>, j: nat): (r: seq<byte>)
    requires WellFormed(l) && |payload| == l.totalSize && j < l.pieceCount
    ensures |r| == Upto(l, j) - From(l, j)
  {
    var upto := Upto(l, j);
    payload[From(l, j)..upto]
  }

  /** Each write carries the payload's bytes of its piece. */
  ghost predicate WritesOf(l: StorageLayout, payload: seq<byte>, ws: seq<Write>)
    requires WellFormed(l) && |payload| == l.totalSize
  {
    forall w :: w in ws ==> w.index < l.pieceCount && w.data == PiecePayload(l, payload, w.index)
  }

  ghost predicate Written(ws: seq<Write>, j: nat) {
    exists w :: w in ws && w.index == j
  }

  ghost predicate AllWritten(ws: seq<Write>, pieceCount: nat) {
    forall j: nat :: j < pieceCount ==> Written(ws, j)
  }

  lemma {:induction false} LastWriteExists(ws: seq<Write>, j: nat)
    requires Written(ws, j)
    ensures LastWrite(ws, j).Some?
    ensures Write(j, LastWrite(ws, j).value) in ws
  {
    var init, last := ws[..|ws| - 1], ws[|ws| - 1];
    if last.index != j {
      var w :| w in ws && w.index == j;
      assert w in init;
      LastWriteExists(init, j);
    }
  }

  /** The file contents laid end to end, each cut to its size. */
  ghost function Concatenated(l: StorageLayout, files: Files, n: nat): seq<byte>
    requires n <= |l.files|
  {
    if n == 0 then []
    else
      var c := Content(files, l.Absolute(l.files[n - 1].path));
      Concatenated(l, files, n - 1) + c[..Min(|c|, l.files[n - 1].size)]
  }

  ghost predicate HoldsPayload(l: StorageLayout, files: Files, payload: seq<byte>)
    requires WellFormed(l) && |payload| == l.totalSize
  {
    forall t :: 0 <= t < l.totalSize ==> TorrentByte(l, files, t) == Some(payload[t])
  }

  lemma FileByte(l: StorageLayout, files: Files, k: nat, o: nat)
    requires WellFormed(l) && k < |l.files| && o < l.files[k].size
    ensures l.files[k].End() <= l.totalSize
    ensures TorrentByte(l, files, l.files[k].offset + o) == ByteAt(files, l.Absolute(l.files[k].path), o)
  {
    FileInTotal(l, k);
    assert l.files[k].Covers(l.files[k].offset + o);
  }

  lemma FileHoldsPayload(l: StorageLayout, files: Files, payload: seq<byte>, k: nat)
    requires WellFormed(l) && k < |l.files| && |payload| == l.totalSize && HoldsPayload(l, files, payload)
    ensures var f := l.files[k];
            var c := Content(files, l.Absolute(f.path));
            f.End() <= l.totalSize && f.size <= |c| && c[..f.size] == payload[f.offset..f.End()]
  {
    FileInTotal(l, k);
    hide WellFormed, TorrentByte, StorageLayout.Absolute, HoldsPayload, Content;
    var f := l.files[k];
    var c := Content(files, l.Absolute(f.path));
    FileIsLong(l, files, payload, k);
    forall o: nat | o < f.size ensures c[o] == payload[f.offset + o] {
      FileByteHeld(l, files, payload, k, o);
    }
  }

  lemma FileIsLong(l: StorageLayout, files: Files, payload: seq<byte>, k: nat)
    requires WellFormed(l) && k < |l.files| && |payload| == l.totalSize && HoldsPayload(l, files, payload)
    ensures l.files[k].size <= |Content(files, l.Absolute(l.files[k].path))|
  {
    hide WellFormed, StorageLayout.Absolute, HoldsPayload, Content;
    var c := Content(files, l.Absolute(l.files[k].path));
    if |c| < l.files[k].size {
      FileByteHeld(l, files, payload, k, |c|);
    }
  }

  lemma FileByteHeld(l: StorageLayout, files: Files, payload: seq<byte>, k: nat, o: nat)
    requires WellFormed(l) && k < |l.files| && o < l.files[k].size
    requires |payload| == l.totalSize && HoldsPayload(l, files, payload)
    ensures var c := Content(files, l.Absolute(l.files[k].path));
            o < |c| && l.files[k].offset + o < |payload| && c[o] == payload[l.files[k].offset + o]
  {
    FileInTotal(l, k);
    FileByte(l, files, k, o);
    hide WellFormed, TorrentByte, StorageLayout.Absolute;
    assert TorrentByte(l, files, l.files[k].offset + o) == Some(payload[l.files[k].offset + o]);
  }

  /** If every stream byte is on disk and equals the payload's, the files hold the payload. */
  lemma {:induction false} StreamIsFiles(l: StorageLayout, files: Files, payload: seq<byte>, n: nat)
    requires WellFormed(l) && n <= |l.files| && |payload| == l.totalSize && HoldsPayload(l, files, payload)
    ensures SizeOfFirst(l.files, n) <= l.totalSize
    ensures Concatenated(l, files, n) == payload[..SizeOfFirst(l.files, n)]
  {
    hide WellFormed, HoldsPayload, Content, StorageLayout.Absolute, Concatenated, SizeOfFirst;
    OffsetOfLast(l, n);
    if n > 0 {
      StreamIsFiles(l, files, payload, n - 1);
      FileHoldsPayload(l, files, payload, n - 1);
      LastFile(l, files, n);
      PrefixExtends(payload, SizeOfFirst(l.files, n - 1), l.files[n - 1].size, Concatenated(l, files, n - 1),
                    Content(files, l.Absolute(l.files[n - 1].path))[..l.files[n - 1].size]);
    } else {
      NoFileYet(l, files, payload);
    }
  }

  lemma OffsetOfLast(l: StorageLayout, n: nat)
    requires WellFormed(l) && n <= |l.files|
    ensures SizeOfFirst(l.files, n) <= l.totalSize
    ensures n > 0 ==> l.files[n - 1].offset == SizeOfFirst(l.files, n - 1)
  {
    SizeOfFirstMonotone(l.files, n, |l.files|);
  }

  lemma NoFileYet(l: StorageLayout, files: Files, payload: seq<byte>)
    ensures Concatenated(l, files, 0) == payload[..SizeOfFirst(l.files, 0)]
  {}

  lemma LastFile(l: StorageLayout, files: Files, n: nat)
    requires 0 < n <= |l.files|
    requires l.files[n - 1].size <= |Content(files, l.Absolute(l.files[n - 1].path))|
    ensures Concatenated(l, files, n)
         == Concatenated(l, files, n - 1) + Content(files, l.Absolute(l.files[n - 1].path))[..l.files[n - 1].size]
    ensures SizeOfFirst(l.files, n) == SizeOfFirst(l.files, n - 1) + l.files[n - 1].size
  {
    hide Content;
  }

  lemma PrefixExtends(s: seq<byte>, cut: nat, size: nat, a: seq<byte>, b: seq<byte>)
    requires cut + size <= |s| && a == s[..cut] && b == s[cut..cut + size]
    ensures a + b == s[..cut + size]
  {}

  /** Writing every piece of a payload, in any order and with any repetition, makes
      the files, laid end to end, equal the payload. */
  lemma WriteAllPieces(l: StorageLayout, files: Files, payload: seq<byte>, ws: seq<Write>)
    requires WellFormed(l) && DistinctPaths(l.files) && |payload| == l.totalSize
    requires WritesOf(l, payload, ws) && AllWritten(ws, l.pieceCount)
    ensures ValidWrites(l, ws)
    ensures var after := AfterWrites(l, files, ws);
            && (forall j: nat :: j < l.pieceCount ==>
                  PieceReadable(l, after, j) && PieceBytes(l, after, j) == PiecePayload(l, payload, j))
            && Concatenated(l, after, |l.files|) == payload
  {
    WritesOfValid(l, payload, ws);
    var after := AfterWrites(l, files, ws);
    forall j: nat | j < l.pieceCount
      ensures PieceReadable(l, after, j) && PieceBytes(l, after, j) == PiecePayload(l, payload, j)
    {
      hide WellFormed, PieceReadable, PieceBytes, PiecePayload, AfterWrites, From, Upto;
      assert Written(ws, j);
      LastWriteExists(ws, j);
      ReadAfterWrites(l, files, ws, j);
    }
    PiecesMakeStream(l, after, payload);
    StreamIsFiles(l, after, payload, |l.files|);
    assert payload[..l.totalSize] == payload;
    hide HoldsPayload, PieceBytes, PieceReadable;
  }

  lemma WritesOfValid(l: StorageLayout, payload: seq<byte>, ws: seq<Write>)
    requires WellFormed(l) && |payload| == l.totalSize && WritesOf(l, payload, ws)
    ensures ValidWrites(l, ws)
  {
    hide From, Upto, WellFormed;
  }

  lemma PiecesMakeStream(l: StorageLayout, files: Files, payload: seq<byte>)
    requires WellFormed(l) && |payload| == l.totalSize
    requires forall j: nat :: j < l.pieceCount ==>
               PieceReadable(l, files, j) && PieceBytes(l, files, j) == PiecePayload(l, payload, j)
    ensures HoldsPayload(l, files, payload)
  {
    forall t: nat | t < l.totalSize ensures TorrentByte(l, files, t) == Some(payload[t]) {
      PieceOfByte(l, t, PieceAt(l, t));
      PieceByteAt(l, files, payload, PieceAt(l, t), t);
      hide WellFormed, PieceReadable, PieceBytes, PiecePayload, TorrentByte;
    }
  }

  lemma PieceByteAt(l: StorageLayout, files: Files, payload: seq<byte>, j: nat, t: nat)
    requires WellFormed(l) && |payload| == l.totalSize && j < l.pieceCount && PieceReadable(l, files, j)
    requires PieceStart(l, j) <= t < PieceEnd(l, j)
    requires PieceBytes(l, files, j) == PiecePayload(l, payload, j)
    ensures TorrentByte(l, files, t) == Some(payload[t])
  {
    hide WellFormed, TorrentByte;
    assert From(l, j) <= t < Upto(l, j);
    assert TorrentByte(l, files, From(l, j) + (t - From(l, j))) == Some(PieceBytes(l, files, j)[t - From(l, j)]);
  }

  // ---------------------------------------------------------------- layouts that no disk can hold

  lemma FirstByte(l: StorageLayout, files: Files, k: nat)
    requires WellFormed(l) && k < |l.files| && l.files[k].size > 0
    ensures l.files[k].offset < l.totalSize
    ensures TorrentByte(l, files, l.files[k].offset) == ByteAt(files, l.Absolute(l.files[k].path), 0)
  {
    FileByte(l, files, k, 0);
    hide WellFormed, TorrentByte, ByteAt;
  }

  /** Two files at one path begin with the same byte of it. */
  lemma SharedPathSharesBytes(l: StorageLayout, files: Files, j: nat, k: nat)
    requires WellFormed(l) && j < k < |l.files| && l.files[j].size > 0 && l.files[k].size > 0
    requires PlaceOf(l.files[j].path) == PlaceOf(l.files[k].path)
    ensures l.files[j].offset < l.files[k].offset < l.totalSize
    ensures TorrentByte(l, files, l.files[j].offset) == TorrentByte(l, files, l.files[k].offset)
  {
    hide TorrentByte, ByteAt, WellFormed;
    FilesDisjoint(l, j, k);
    FirstByte(l, files, j);
    FirstByte(l, files, k);
  }

  /** The payload, piece by piece. */
  ghost function PieceWrites(l: StorageLayout, payload: seq<byte>): (ws: seq<Write>)
    requires WellFormed(l) && |payload| == l.totalSize
    ensures |ws| == l.pieceCount
    ensures forall i :: 0 <= i < |ws| ==> ws[i] == Write(i, PiecePayload(l, payload, i))
  {
    seq(l.pieceCount, i requires 0 <= i < l.pieceCount => Write(i, PiecePayload(l, payload, i)))
  }

  lemma PieceWritesCover(l: StorageLayout, payload: seq<byte>)
    requires WellFormed(l) && |payload| == l.totalSize
    ensures WritesOf(l, payload, PieceWrites(l, payload)) && AllWritten(PieceWrites(l, payload), l.pieceCount)
  {
    hide WellFormed, PiecePayload, PieceWrites;
    var ws := PieceWrites(l, payload);
    forall j: nat | j < l.pieceCount ensures Written(ws, j) {
      assert ws[j] in ws && ws[j].index == j;
    }
  }

  /** Some files that a file system can have hold the payload. */
  ghost predicate CanHold(l: StorageLayout, payload: seq<byte>)
    requires WellFormed(l) && |payload| == l.totalSize
  {
    exists files: Files :: Legal(files) && HoldsPayload(l, files, payload)
  }

  /** A layout can hold every payload exactly if it is placeable. The metainfo reader accepts
      layouts that are not. */
  lemma AnyPayloadFits(l: StorageLayout)
    requires WellFormed(l)
    ensures Placeable(l.files) <==> forall payload: seq<byte> :: |payload| == l.totalSize ==> CanHold(l, payload)
  {
    hide WellFormed, CanHold, Placeable;
    if Placeable(l.files) {
      forall payload: seq<byte> | |payload| == l.totalSize ensures CanHold(l, payload) {
        PayloadIsHeld(l, payload);
      }
    } else {
      var payload := UnheldPayload(l);
      assert !CanHold(l, payload);
    }
  }

  /** For a layout that is not placeable, a payload that no disk can hold; no payload at all
      unless it is for a shared place. */
  lemma UnheldPayload(l: StorageLayout) returns (payload: seq<byte>)
    requires WellFormed(l) && !Placeable(l.files)
    ensures |payload| == l.totalSize && !CanHold(l, payload)
    ensures DistinctPaths(l.files) ==> forall p: seq<byte> :: |p| == l.totalSize ==> !CanHold(l, p)
  {
    hide WellFormed, PlaceOf, CanHold, Compatible, Place.NamesFile, DistinctPaths;
    payload := seq(l.totalSize, _ => 0);
    if k :| 0 <= k < |l.files| && l.files[k].size > 0 && !PlaceOf(l.files[k].path).NamesFile() {
      forall p: seq<byte> | |p| == l.totalSize ensures !CanHold(l, p) {
        NamelessUnheld(l, p, k);
      }
    } else {
      var j, k :| 0 <= j < k < |l.files| && l.files[j].size > 0 && l.files[k].size > 0
                  && !Compatible(PlaceOf(l.files[j].path), PlaceOf(l.files[k].path));
      if PlaceOf(l.files[j].path) == PlaceOf(l.files[k].path) {
        NotDistinct(l.files, j, k);
        payload := SharedUnheld(l, j, k);
      } else {
        forall p: seq<byte> | |p| == l.totalSize ensures !CanHold(l, p) {
          IncompatibleUnheld(l, p, j, k);
        }
      }
    }
  }

  lemma NotDistinct(files: seq<FileLayout>, j: nat, k: nat)
    requires j < k < |files| && files[j].size > 0 && files[k].size > 0
    requires PlaceOf(files[j].path) == PlaceOf(files[k].path)
    ensures !DistinctPaths(files)
  {
    hide PlaceOf;
  }

  /** A file with bytes is there if the payload is. */
  lemma HeldFileIsThere(l: StorageLayout, files: Files, payload: seq<byte>, k: nat)
    requires WellFormed(l) && |payload| == l.totalSize && HoldsPayload(l, files, payload)
    requires k < |l.files| && l.files[k].size > 0
    ensures l.Absolute(l.files[k].path) in files
  {
    hide WellFormed, TorrentByte, StorageLayout.Absolute;
    FirstByte(l, files, k);
    assert TorrentByte(l, files, l.files[k].offset) == Some(payload[l.files[k].offset]);
  }

  lemma NamelessUnheld(l: StorageLayout, payload: seq<byte>, k: nat)
    requires WellFormed(l) && |payload| == l.totalSize
    requires k < |l.files| && l.files[k].size > 0 && !PlaceOf(l.files[k].path).NamesFile()
    ensures !CanHold(l, payload)
  {
    hide WellFormed, HoldsPayload, PlaceOf, Place.NamesFile, Compatible;
    forall files: Files | Legal(files) ensures !HoldsPayload(l, files, payload) {
      if HoldsPayload(l, files, payload) {
        HeldFileIsThere(l, files, payload, k);
      }
    }
  }

  lemma IncompatibleUnheld(l: StorageLayout, payload: seq<byte>, j: nat, k: nat)
    requires WellFormed(l) && |payload| == l.totalSize
    requires j < k < |l.files| && l.files[j].size > 0 && l.files[k].size > 0
    requires PlaceOf(l.files[j].path) != PlaceOf(l.files[k].path)
    requires !Compatible(PlaceOf(l.files[j].path), PlaceOf(l.files[k].path))
    ensures !CanHold(l, payload)
  {
    hide WellFormed, HoldsPayload, PlaceOf, Compatible, Place.NamesFile;
    forall files: Files | Legal(files) ensures !HoldsPayload(l, files, payload) {
      if HoldsPayload(l, files, payload) {
        HeldFileIsThere(l, files, payload, j);
        HeldFileIsThere(l, files, payload, k);
      }
    }
  }

  lemma SharedUnheld(l: StorageLayout, j: nat, k: nat) returns (payload: seq<byte>)
    requires WellFormed(l) && j < k < |l.files| && l.files[j].size > 0 && l.files[k].size > 0
    requires PlaceOf(l.files[j].path) == PlaceOf(l.files[k].path)
    ensures |payload| == l.totalSize && !CanHold(l, payload)
  {
    hide WellFormed, TorrentByte, PlaceOf, Legal;
    payload := seq(l.totalSize, i => if i == l.files[k].offset then 1 else 0);
    forall files: Files ensures !HoldsPayload(l, files, payload) {
      SharedPathSharesBytes(l, files, j, k);
    }
  }

  /** The files there leave room for every file of the layout that has bytes. */
  ghost predicate RoomFor(l: StorageLayout, keys: set<AbsPath>) {
    forall k :: 0 <= k < |l.files| && l.files[k].size > 0 ==> Openable(keys, l.Absolute(l.files[k].path))
  }

  lemma CompatibleSwaps(a: Place, b: Place)
    ensures Compatible(a, b) <==> Compatible(b, a)
  {}

  /** Creating one of a placeable layout's files leaves room for the others. */
  lemma RoomKept(l: StorageLayout, keys: set<AbsPath>, j: nat)
    requires Placeable(l.files) && RoomFor(l, keys) && j < |l.files| && l.files[j].size > 0
    ensures RoomFor(l, keys + {l.Absolute(l.files[j].path)})
  {
    hide PlaceOf, Compatible, Place.NamesFile;
    forall k | 0 <= k < |l.files| && l.files[k].size > 0
      ensures Openable(keys + {l.Absolute(l.files[j].path)}, l.Absolute(l.files[k].path))
    {
      CompatibleSwaps(PlaceOf(l.files[j].path), PlaceOf(l.files[k].path));
      assert Openable(keys, l.Absolute(l.files[k].path));
    }
  }

  /** Each span opens after those before it. */
  ghost predicate AllOpen(keys: set<AbsPath>, spans: seq<IoSpan>) {
    forall j :: 0 <= j < |spans| ==> Openable(keys + PathsOf(spans[..j]), spans[j].path)
  }

  /** On a disk with room for a placeable layout every span opens, and there stays room. */
  lemma {:induction false} RoomOpens(l: StorageLayout, keys: set<AbsPath>, pos: nat, end: nat, spans: seq<IoSpan>)
    requires WellFormed(l) && Placeable(l.files) && pos <= end <= l.totalSize && RoomFor(l, keys)
    requires spans == SpansOf(l, pos, end)
    ensures AllOpen(keys, spans) && RoomFor(l, keys + PathsOf(spans))
    decreases end - pos
  {
    hide WellFormed, Placeable, RoomFor, Openable, SpanAt, AllOpen, PathsOf;
    if pos == end {
      NothingOpens(keys);
    } else {
      var s := SpanAt(l, pos, end);
      var rest := SpansOf(l, pos + s.length, end);
      SpanIsRoomy(l, keys, pos, end);
      RoomOpens(l, keys + {s.path}, pos + s.length, end, rest);
      OneMoreOpens(keys, s, rest);
      PathsOfCons(s, rest);
      assert keys + PathsOf(spans) == keys + {s.path} + PathsOf(rest);
    }
  }

  lemma NothingOpens(keys: set<AbsPath>)
    ensures AllOpen(keys, []) && keys + PathsOf([]) == keys
  {}

  lemma OneMoreOpens(keys: set<AbsPath>, s: IoSpan, rest: seq<IoSpan>)
    requires Openable(keys, s.path) && AllOpen(keys + {s.path}, rest)
    ensures AllOpen(keys, [s] + rest)
  {
    hide Openable, PathsOf;
    var spans := [s] + rest;
    forall j | 0 <= j < |spans| ensures Openable(keys + PathsOf(spans[..j]), spans[j].path) {
      if j == 0 {
        NoPaths(spans);
        assert keys + {} == keys;
      } else {
        PathsOfCons(s, rest[..j - 1]);
        assert spans[..j] == [s] + rest[..j - 1];
        assert keys + PathsOf(spans[..j]) == keys + {s.path} + PathsOf(rest[..j - 1]);
      }
    }
  }

  lemma PathsOfCons(s: IoSpan, rest: seq<IoSpan>)
    ensures PathsOf([s] + rest) == {s.path} + PathsOf(rest)
  {
    assert forall x :: x in [s] + rest <==> x == s || x in rest;
  }

  lemma SpanIsRoomy(l: StorageLayout, keys: set<AbsPath>, pos: nat, end: nat)
    requires WellFormed(l) && Placeable(l.files) && pos < end <= l.totalSize && RoomFor(l, keys)
    ensures Openable(keys, SpanAt(l, pos, end).path) && RoomFor(l, keys + {SpanAt(l, pos, end).path})
  {
    SpanAtIs(l, pos, end);
    assert l.files[FileAt(l, pos)].size > 0;
    RoomKept(l, keys, FileAt(l, pos));
    hide WellFormed, Placeable, Openable, SpanAt, FileAt;
  }

  /** So a piece write to it fails only if a span write fails for another reason. */
  lemma RoomMeansWritten(l: StorageLayout, keys: set<AbsPath>, index: nat, fates: nat -> Fate)
    requires WellFormed(l) && Placeable(l.files) && RoomFor(l, keys) && index < l.pieceCount
    ensures var spans := SpansOf(l, From(l, index), Upto(l, index));
            && (AllSurvive(keys, spans, fates) <==>
                  forall j :: 0 <= j < |spans| ==> Survives(fates(j), spans[j].length))
            && RoomFor(l, keys + PathsOf(spans))
  {
    hide WellFormed, Placeable, RoomFor, Openable, From, Upto;
    RoomOpens(l, keys, From(l, index), Upto(l, index), SpansOf(l, From(l, index), Upto(l, index)));
  }

  lemma {:induction false} SpansWrittenKeys(files: Files, spans: seq<IoSpan>, data: seq<byte>)
    requires |data| == SpanLengths(spans)
    ensures SpansWritten(files, spans, data).Keys == files.Keys + PathsOf(spans)
    decreases |spans|
  {
    hide Overwrite;
    if spans != [] {
      SpansWrittenKeys(SpanWritten(files, spans[0], data[..spans[0].length]), spans[1..], data[spans[0].length..]);
      PathsOfCons(spans[0], spans[1..]);
      assert spans == [spans[0]] + spans[1..];
    }
  }

  lemma {:induction false} OpenedAreLegal(keys: set<AbsPath>, spans: seq<IoSpan>, n: nat)
    requires LegalKeys(keys) && n <= |spans| && AllOpen(keys, spans)
    ensures LegalKeys(keys + PathsOf(spans[..n]))
  {
    hide Openable, LegalKeys, PathsOf;
    if n == 0 {
      NoPaths(spans);
      assert keys + {} == keys;
    } else {
      OpenedAreLegal(keys, spans, n - 1);
      PathsOfNext(spans, n - 1);
      OpenedIsLegal(keys + PathsOf(spans[..n - 1]), spans[n - 1].path);
      assert keys + PathsOf(spans[..n]) == keys + PathsOf(spans[..n - 1]) + {spans[n - 1].path};
    }
  }

  /** Any run of piece writes to a placeable layout keeps room and legality. */
  lemma {:induction false} AfterWritesLegal(l: StorageLayout, files: Files, ws: seq<Write>)
    requires WellFormed(l) && Placeable(l.files) && ValidWrites(l, ws) && Legal(files) && RoomFor(l, files.Keys)
    ensures Legal(AfterWrites(l, files, ws)) && RoomFor(l, AfterWrites(l, files, ws).Keys)
  {
    hide WellFormed, Placeable, RoomFor, Legal, Openable, From, Upto, SpansWritten, SpanLengths;
    if ws != [] {
      var init, last := ws[..|ws| - 1], ws[|ws| - 1];
      assert last in ws;
      AfterWritesLegal(l, files, init);
      PieceWriteLegal(l, AfterWrites(l, files, init), last.index, last.data);
    }
  }

  lemma PieceWriteLegal(l: StorageLayout, files: Files, index: nat, data: seq<byte>)
    requires WellFormed(l) && Placeable(l.files) && Legal(files) && RoomFor(l, files.Keys)
    requires index < l.pieceCount && |data| == Upto(l, index) - From(l, index)
    ensures Legal(PieceWritten(l, files, index, data)) && RoomFor(l, PieceWritten(l, files, index, data).Keys)
  {
    hide WellFormed, Placeable, RoomFor, LegalKeys, Openable, From, Upto, SpansWritten, SpanLengths, SpansOf, PathsOf;
    var spans := SpansOf(l, From(l, index), Upto(l, index));
    SpanLengthsOf(l, From(l, index), Upto(l, index));
    RoomOpens(l, files.Keys, From(l, index), Upto(l, index), spans);
    SpansWrittenKeys(files, spans, data);
    OpenedAreLegal(files.Keys, spans, |spans|);
    assert spans[..|spans|] == spans;
  }

  lemma EmptyDiskHasRoom(l: StorageLayout)
    requires Placeable(l.files)
    ensures var none: Files := map[]; Legal(none) && RoomFor(l, none.Keys)
  {
    hide PlaceOf, Compatible, Place.NamesFile;
  }

  lemma PlaceableIsDistinct(files: seq<FileLayout>)
    requires Placeable(files)
    ensures DistinctPaths(files)
  {
    hide PlaceOf, Place.Full, Place.Inside;
  }

  lemma PayloadIsHeld(l: StorageLayout, payload: seq<byte>)
    requires WellFormed(l) && Placeable(l.files) && |payload| == l.totalSize
    ensures CanHold(l, payload)
  {
    hide WellFormed, HoldsPayload, AfterWrites, PieceReadable, PieceBytes, PiecePayload, DistinctPaths, PieceWrites,
         Legal, RoomFor, Placeable;
    var ws := PieceWrites(l, payload);
    PieceWritesCover(l, payload);
    PlaceableIsDistinct(l.files);
    WriteAllPieces(l, map[], payload, ws);
    PiecesMakeStream(l, AfterWrites(l, map[], ws), payload);
    EmptyDiskHasRoom(l);
    AfterWritesLegal(l, map[], ws);
  }

  // ---------------------------------------------------------------- recheck

  datatype RecheckReport = RecheckReport(pieceCount: nat, good: nat, bad: nat, missing: nat, complete: bool)

  /** Piece `i` is on disk and hashes to its entry of the hash table. */
  ghost predicate PieceGood(l: StorageLayout, files: Files, hashes: seq<byte>, sha1: Sha1, i: nat)
    requires WellFormed(l) && i < l.pieceCount && |hashes| == 20 * l.pieceCount
  {
    PieceReadable(l, files, i) && sha1(PieceBytes(l, files, i)) == hashes[20 * i..20 * i + 20]
  }

  /** `check_one_piece`. */
  method CheckOnePiece(l: StorageLayout, files: Files, hashes: seq<byte>, sha1: Sha1, index: nat)
    returns (r: Result<bool, IoError>)
    requires WellFormed(l) && index < l.pieceCount && |hashes| == 20 * l.pieceCount
    ensures r.Ok? <==> PieceReadable(l, files, index)
    ensures r.Ok? ==> (r.value <==> PieceGood(l, files, hashes, sha1, index))
    ensures r.Ok? ==> (r.value <==> sha1(PieceBytes(l, files, index)) == hashes[20 * index..20 * index + 20])
    ensures r.Err? ==> !PieceGood(l, files, hashes, sha1, index)
  {
    hide WellFormed, PieceReadable, PieceBytes;
    var expected := hashes[index * 20..(index + 1) * 20];
    var hasher := new Hasher();
    var h := HashPieceWindowed(l, files, index, hasher);
    if h.Err? {
      return Err(h.error);
    }
    assert hasher.fed == PieceBytes(l, files, index);
    return Ok(sha1(hasher.fed) == expected);
  }

  ghost function CountTrue(have: seq<bool>): nat {
    if have == [] then 0 else CountTrue(have[..|have| - 1]) + if have[|have| - 1] then 1 else 0
  }

  lemma {:induction false} CountTrueBound(have: seq<bool>)
    ensures CountTrue(have) <= |have|
    ensures CountTrue(have) == |have| <==> forall i :: 0 <= i < |have| ==> have[i]
  {
    if have != [] {
      var init := have[..|have| - 1];
      CountTrueBound(init);
      assert forall i :: 0 <= i < |init| ==> init[i] == have[i];
      if CountTrue(have) == |have| {
        assert forall i :: 0 <= i < |init| ==> init[i];
      }
    }
  }

  lemma CountTrueNothing(have: seq<bool>)
    requires have == []
    ensures CountTrue(have) == 0
  {}

  lemma CountTrueNext(have: seq<bool>, i: nat)
    requires i < |have|
    ensures CountTrue(have[..i + 1]) == CountTrue(have[..i]) + if have[i] then 1 else 0
  {
    assert have[..i + 1][..i] == have[..i];
  }

  /** Which pieces cannot be read. */
  ghost function LostPieces(l: StorageLayout, files: Files): (r: seq<bool>)
    requires WellFormed(l)
    ensures |r| == l.pieceCount && forall i :: 0 <= i < |r| ==> (r[i] <==> !PieceReadable(l, files, i))
  {
    seq(l.pieceCount, i requires 0 <= i < l.pieceCount => !PieceReadable(l, files, i))
  }

  /** The verdicts are the pieces' own, and the report counts good, unreadable and other pieces. */
  ghost predicate Reported(l: StorageLayout, files: Files, hashes: seq<byte>, sha1: Sha1,
                           have: seq<bool>, report: RecheckReport)
    requires WellFormed(l) && |hashes| == 20 * l.pieceCount
  {
    && |have| == l.pieceCount == report.pieceCount
    && (forall i :: 0 <= i < |have| ==> (have[i] <==> PieceGood(l, files, hashes, sha1, i)))
    && report.good == CountTrue(have) && report.missing == CountTrue(LostPieces(l, files))
    && report.good + report.bad + report.missing == l.pieceCount
    && (report.complete <==> (l.pieceCount > 0 && forall i :: 0 <= i < |have| ==> have[i]))
  }

  /** The verdicts of the first `i` pieces are in, and so are their counts. */
  ghost predicate CheckedUpTo(l: StorageLayout, files: Files, hashes: seq<byte>, sha1: Sha1, have: seq<bool>,
                              i: nat, good: nat, missing: nat)
    requires WellFormed(l) && |hashes| == 20 * l.pieceCount && i <= l.pieceCount
  {
    && |have| == l.pieceCount
    && (forall j :: 0 <= j < i ==> (have[j] <==> PieceGood(l, files, hashes, sha1, j)))
    && good == CountTrue(have[..i]) && missing == CountTrue(LostPieces(l, files)[..i])
  }

  lemma CheckedNext(l: StorageLayout, files: Files, hashes: seq<byte>, sha1: Sha1, have: seq<bool>,
                    i: nat, good: nat, missing: nat, v: bool, lost: bool)
    requires WellFormed(l) && |hashes| == 20 * l.pieceCount && i < l.pieceCount
    requires CheckedUpTo(l, files, hashes, sha1, have, i, good, missing)
    requires (v <==> PieceGood(l, files, hashes, sha1, i)) && (lost <==> !PieceReadable(l, files, i))
    ensures |have| == l.pieceCount
    ensures CheckedUpTo(l, files, hashes, sha1, have[i := v], i + 1, good + if v then 1 else 0,
                        missing + if lost then 1 else 0)
  {
    hide WellFormed, PieceGood, PieceReadable, CountTrue;
    assert have[i := v][..i] == have[..i];
    CountTrueNext(have[i := v], i);
    CountTrueNext(LostPieces(l, files), i);
  }

  lemma CheckedNothing(l: StorageLayout, files: Files, hashes: seq<byte>, sha1: Sha1, have: seq<bool>)
    requires WellFormed(l) && |hashes| == 20 * l.pieceCount == 20 * |have|
    ensures CheckedUpTo(l, files, hashes, sha1, have, 0, 0, 0)
  {
    hide WellFormed, PieceGood, PieceReadable, CountTrue;
    CountTrueNothing(have[..0]);
    CountTrueNothing(LostPieces(l, files)[..0]);
  }

  lemma CheckedAll(l: StorageLayout, files: Files, hashes: seq<byte>, sha1: Sha1, have: seq<bool>,
                   good: nat, bad: nat, missing: nat)
    requires WellFormed(l) && |hashes| == 20 * l.pieceCount && good + bad + missing == l.pieceCount
    requires CheckedUpTo(l, files, hashes, sha1, have, l.pieceCount, good, missing)
    ensures Reported(l, files, hashes, sha1, have,
                     RecheckReport(l.pieceCount, good, bad, missing, good == l.pieceCount && l.pieceCount > 0))
  {
    hide WellFormed, PieceGood, PieceReadable, CountTrue;
    assert have[..l.pieceCount] == have && LostPieces(l, files)[..l.pieceCount] == LostPieces(l, files);
    CountTrueBound(have);
  }

  /** `recheck_torrent`, up to the catalog update. */
  method RecheckTorrent(l: StorageLayout, files: Files, hashes: seq<byte>, sha1: Sha1)
    returns (r: Result<(seq<bool>, RecheckReport), IoError>)
    requires WellFormed(l)
    ensures r.Ok? <==> |hashes| == 20 * l.pieceCount
    ensures r.Err? ==> r.error == BadHashBlob
    ensures r.Ok? ==> Reported(l, files, hashes, sha1, r.value.0, r.value.1)
  {
    hide WellFormed, PieceReadable, PieceGood, CheckedUpTo, Reported;
    if |hashes| != 20 * l.pieceCount {
      return Err(BadHashBlob);
    }
    var pc := l.pieceCount;
    var have := seq(pc, _ => false);
    var good, bad, missing := 0, 0, 0;
    var i := 0;
    CheckedNothing(l, files, hashes, sha1, have);
    while i < pc
      invariant i <= pc && |have| == pc && good + bad + missing == i
      invariant CheckedUpTo(l, files, hashes, sha1, have, i, good, missing)
    {
      var verdict := CheckOnePiece(l, files, hashes, sha1, i);
      CheckedNext(l, files, hashes, sha1, have, i, good, missing, verdict == Ok(true), verdict.Err?);
      match verdict {
        case Ok(true) =>
          have := have[i := true];
          good := good + 1;
        case Ok(false) =>
          have := have[i := false];
          bad := bad + 1;
        case Err(_) =>
          have := have[i := false];
          missing := missing + 1;
      }
      i := i + 1;
    }
    CheckedAll(l, files, hashes, sha1, have, good, bad, missing);
    return Ok((have, RecheckReport(pc, good, bad, missing, good == pc && pc > 0)));
  }

  /** A recheck after every piece of the payload was written finds every piece good. */
  lemma WriteAllThenRecheck(l: StorageLayout, files: Files, payload: seq<byte>, ws: seq<Write>,
                            hashes: seq<byte>, sha1: Sha1, i: nat)
    requires WellFormed(l) && DistinctPaths(l.files) && |payload| == l.totalSize && i < l.pieceCount
    requires WritesOf(l, payload, ws) && AllWritten(ws, l.pieceCount)
    requires |hashes| == 20 * l.pieceCount
    requires forall j: nat :: j < l.pieceCount ==> hashes[20 * j..20 * j + 20] == sha1(PiecePayload(l, payload, j))
    ensures ValidWrites(l, ws)
    ensures PieceGood(l, AfterWrites(l, files, ws), hashes, sha1, i)
  {
    hide WellFormed, PieceReadable, PieceBytes, PiecePayload, WritesOf, AllWritten, AfterWrites, ValidWrites;
    WriteAllPieces(l, files, payload, ws);
  }
}
