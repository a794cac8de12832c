/** Torrent byte geometry (`crates/engine/src/disk/spans.rs` and the layout checks
    of `crates/engine/src/metainfo.rs`): the torrent stream is the files laid end to
    end, cut into pieces of equal length. */
module Spans {
  import opened Wrappers
  import opened Paths

  datatype SpanError = PieceOutOfRange | RangeExceedsTotal | NoFileCovers

  /** `data_root.join(rel)`; the relative paths of a layout have no root of their own. */
  datatype AbsPath = Join(root: string, rel: Place)

  /** One contiguous read or write region in a single file. */
  datatype IoSpan = IoSpan(path: AbsPath, fileOffset: nat, length: nat)

  datatype FileLayout = FileLayout(path: string, size: nat, offset: nat, priority: int) {
    function End(): nat {
      offset + size
    }

    predicate Wanted() {
      priority > 0
    }

    predicate Covers(pos: nat) {
      offset <= pos < End()
    }
  }

  datatype StorageLayout = StorageLayout(
    dataRoot: string, pieceLength: nat, pieceCount: nat, totalSize: nat, files: seq<FileLayout>)
  {
    function Absolute(rel: string): AbsPath {
      Join(dataRoot, PlaceOf(rel))
    }

    /** Byte length of a piece; the last one may be shorter. */
    function PieceSize(index: nat): Result<nat, SpanError> {
      if index >= pieceCount then Err(PieceOutOfRange)
      else
        var start := Stride(index, pieceLength);
        if start >= totalSize then Ok(0)
        else Ok(Min(start + pieceLength, totalSize) - start)
    }
  }

  /** `n * len`, by repeated addition: the geometry below then needs no products. */
  function Stride(n: nat, len: nat): nat {
    if n == 0 then 0 else Stride(n - 1, len) + len
  }

  lemma {:induction false} StrideIsProduct(n: nat, len: nat)
    ensures Stride(n, len) == n * len
  {
    if n > 0 {
      StrideIsProduct(n - 1, len);
      assert n * len == (n - 1) * len + len;
    }
  }

  lemma {:induction false} StrideMonotone(i: nat, j: nat, len: nat)
    requires i <= j
    ensures Stride(i, len) <= Stride(j, len)
    ensures i < j ==> Stride(i, len) + len <= Stride(j, len)
  {
    if i < j {
      StrideMonotone(i, j - 1, len);
    }
  }

  function Min(a: int, b: int): int {
    if a <= b then a else b
  }

  function Max(a: int, b: int): int {
    if a >= b then a else b
  }

  function CeilDiv(a: nat, b: nat): nat
    requires b > 0
  {
    (a + b - 1) / b
  }

  /** Total bytes of the first `n` files. */
  function SizeOfFirst(files: seq<FileLayout>, n: nat): nat
    requires n <= |files|
  {
    if n == 0 then 0 else SizeOfFirst(files, n - 1) + files[n - 1].size
  }

  /** Offsets are prefix sums of the sizes. */
  ghost predicate Contiguous(files: seq<FileLayout>) {
    forall k {:trigger files[k].offset} :: 0 <= k < |files| ==> files[k].offset == SizeOfFirst(files, k)
  }

  /** No two files that have bytes share a place. */
  ghost predicate DistinctPaths(files: seq<FileLayout>) {
    forall j, k :: 0 <= j < k < |files| && files[j].size > 0 && files[k].size > 0 ==>
      PlaceOf(files[j].path) != PlaceOf(files[k].path)
  }

  /** Every file that has bytes has a name, and no two of them are at one place or one in a
      directory that the other would have to be. */
  ghost predicate Placeable(files: seq<FileLayout>) {
    && (forall k :: 0 <= k < |files| && files[k].size > 0 ==> PlaceOf(files[k].path).NamesFile())
    && (forall j, k :: 0 <= j < k < |files| && files[j].size > 0 && files[k].size > 0 ==>
          Compatible(PlaceOf(files[j].path), PlaceOf(files[k].path)))
  }

  /** `count` pieces of `pieceLength` bytes are just enough for `total` bytes. */
  ghost predicate PieceCountFits(total: nat, pieceLength: nat, count: nat) {
    && total <= Stride(count, pieceLength)
    && (count > 0 ==> Stride(count - 1, pieceLength) < total)
  }

  /** What `Metainfo::parse_bytes` leaves behind: positive piece length, prefix-sum
      offsets, and, unless the torrent is empty, a piece for every `pieceLength` bytes. */
  ghost predicate WellFormed(l: StorageLayout) {
    && l.pieceLength > 0
    && Contiguous(l.files)
    && l.totalSize == SizeOfFirst(l.files, |l.files|)
    && (l.totalSize > 0 ==> PieceCountFits(l.totalSize, l.pieceLength, l.pieceCount))
  }

  lemma {:induction false} SizeOfFirstMonotone(files: seq<FileLayout>, j: nat, k: nat)
    requires j <= k <= |files|
    ensures SizeOfFirst(files, j) <= SizeOfFirst(files, k)
  {
    if j < k {
      SizeOfFirstMonotone(files, j, k - 1);
    }
  }

  /** Files occupy disjoint ranges in order. */
  lemma FilesDisjoint(l: StorageLayout, j: nat, k: nat)
    requires WellFormed(l) && j < k < |l.files|
    ensures l.files[j].End() <= l.files[k].offset
    ensures l.files[k].End() <= l.totalSize
  {
    SizeOfFirstMonotone(l.files, j + 1, k);
    SizeOfFirstMonotone(l.files, k + 1, |l.files|);
  }

  lemma FileInTotal(l: StorageLayout, k: nat)
    requires WellFormed(l) && k < |l.files|
    ensures l.files[k].End() <= l.totalSize
  {
    SizeOfFirstMonotone(l.files, k + 1, |l.files|);
  }

  /** Search the first `n` files, last first, for the one covering `pos`. */
  ghost function CoveringAmong(files: seq<FileLayout>, pos: nat, n: nat): (k: nat)
    requires Contiguous(files) && n <= |files| && pos < SizeOfFirst(files, n)
    ensures k < n && files[k].Covers(pos)
  {
    if pos >= SizeOfFirst(files, n - 1) then n - 1 else CoveringAmong(files, pos, n - 1)
  }

  /** Index of the file the stream byte `pos` lies in. */
  ghost function FileAt(l: StorageLayout, pos: nat): (k: nat)
    requires WellFormed(l) && pos < l.totalSize
    ensures k < |l.files| && l.files[k].Covers(pos)
    ensures forall j {:trigger l.files[j].Covers(pos)} :: 0 <= j < |l.files| && l.files[j].Covers(pos) ==> j == k
  {
    var w := CoveringAmong(l.files, pos, |l.files|);
    assert forall j :: 0 <= j < |l.files| && l.files[j].Covers(pos) ==> j == w by {
      forall j | 0 <= j < |l.files| && l.files[j].Covers(pos) ensures j == w {
        if j < w { FilesDisjoint(l, j, w); }
        if w < j { FilesDisjoint(l, w, j); }
      }
    }
    w
  }

  /** The span starting at stream byte `pos`: up to the end of its file or of the range. */
  ghost function SpanAt(l: StorageLayout, pos: nat, end: nat): (s: IoSpan)
    requires WellFormed(l) && pos < end <= l.totalSize
    ensures 0 < s.length && pos + s.length <= end
  {
    var f := l.files[FileAt(l, pos)];
    IoSpan(l.Absolute(f.path), pos - f.offset, Min(f.End(), end) - pos)
  }

  /** Spans of the stream range `[pos, end)`, one per file it meets. */
  ghost function SpansOf(l: StorageLayout, pos: nat, end: nat): seq<IoSpan>
    requires WellFormed(l) && pos <= end <= l.totalSize
    decreases end - pos
  {
    if pos == end then []
    else [SpanAt(l, pos, end)] + SpansOf(l, pos + SpanAt(l, pos, end).length, end)
  }

  /** `self.files.iter().find(..)`: the first file covering `pos`. */
  method FindFile(files: seq<FileLayout>, pos: nat) returns (r: Option<FileLayout>)
    ensures r.None? <==> forall k {:trigger files[k].Covers(pos)} :: 0 <= k < |files| ==> !files[k].Covers(pos)
    ensures r.Some? ==> exists k {:trigger files[k].Covers(pos)} ::
                          && 0 <= k < |files| && r.value == files[k] && files[k].Covers(pos)
                          && forall j {:trigger files[j].Covers(pos)} :: 0 <= j < k ==> !files[j].Covers(pos)
  {
    var k := 0;
    while k < |files|
      invariant k <= |files|
      invariant forall j {:trigger files[j].Covers(pos)} :: 0 <= j < k ==> !files[j].Covers(pos)
    {
      if files[k].Covers(pos) {
        return Some(files[k]);
      }
      k := k + 1;
    }
    return None;
  }

  lemma SpansOfStep(l: StorageLayout, done: seq<IoSpan>, pos: nat, end: nat)
    requires WellFormed(l) && pos < end <= l.totalSize
    ensures done + SpansOf(l, pos, end)
         == (done + [SpanAt(l, pos, end)]) + SpansOf(l, pos + SpanAt(l, pos, end).length, end)
  {}

  /** One round of the loop below: the span at `pos`, as a one-element list. */
  method NextSpan(l: StorageLayout, pos: nat, end: nat) returns (r: Result<seq<IoSpan>, SpanError>)
    requires WellFormed(l) && pos < end <= l.totalSize
    ensures r == Ok([SpanAt(l, pos, end)])
  {
    var found := FindFile(l.files, pos);
    assert l.files[FileAt(l, pos)].Covers(pos);
    if found.None? {
      return Err(NoFileCovers);
    }
    var file := found.value;
    var intoFile := pos - file.offset;
    var avail := file.size - intoFile;
    var take := Min(avail, end - pos);
    return Ok([IoSpan(l.Absolute(file.path), intoFile, take)]);
  }

  /** Map a stream range to file spans. On a well-formed layout the only error is a
      range past the end. */
  method SpansForRange(l: StorageLayout, start: nat, len: nat) returns (r: Result<seq<IoSpan>, SpanError>)
    requires WellFormed(l)
    ensures r.Err? <==> len > 0 && start + len > l.totalSize
    ensures r.Err? ==> r.error == RangeExceedsTotal
    ensures r.Ok? ==> r.value == if len == 0 then [] else SpansOf(l, start, start + len)
  {
    hide SpanAt, WellFormed;
    if len == 0 {
      return Ok([]);
    }
    var end := start + len;
    if end > l.totalSize {
      return Err(RangeExceedsTotal);
    }
    var spans: seq<IoSpan> := [];
    var pos := start;
    while pos < end
      invariant start <= pos <= end <= l.totalSize
      invariant SpansOf(l, start, end) == spans + SpansOf(l, pos, end)
    {
      var next := NextSpan(l, pos, end);
      if next.Err? {
        return next;
      }
      SpansOfStep(l, spans, pos, end);
      spans := spans + next.value;
      pos := pos + next.value[0].length;
    }
    assert spans + [] == spans;
    return Ok(spans);
  }

  /** First stream byte of a piece and one past its last, clipped to the torrent. */
  ghost function PieceStart(l: StorageLayout, index: nat): nat {
    Stride(index, l.pieceLength)
  }

  ghost function PieceEnd(l: StorageLayout, index: nat): nat {
    Min(PieceStart(l, index) + l.pieceLength, l.totalSize)
  }

  lemma DivStride(a: nat, len: nat, q: nat)
    requires len > 0
    ensures q == a / len <==> Stride(q, len) <= a < Stride(q, len) + len
  {
    StrideIsProduct(q, len);
    QuotientBounds(a, len, q);
  }

  lemma QuotientBounds(a: nat, b: nat, q: nat)
    requires b > 0
    ensures q == a / b <==> q * b <= a < q * b + b
  {
    var d := a / b;
    assert a == d * b + a % b;
    if q < d {
      assert (q + 1) * b <= d * b;
    } else if q > d {
      assert (d + 1) * b <= q * b;
    }
  }

  /** The piece a stream byte falls in. */
  function PieceAt(l: StorageLayout, pos: nat): nat
    requires l.pieceLength > 0
  {
    pos / l.pieceLength
  }

  /** Byte `pos` belongs to piece `pos / pieceLength`, and to no other. */
  lemma PieceOfByte(l: StorageLayout, pos: nat, index: nat)
    requires WellFormed(l) && pos < l.totalSize
    ensures PieceAt(l, pos) < l.pieceCount
    ensures PieceStart(l, index) <= pos < PieceEnd(l, index) <==> index == PieceAt(l, pos)
  {
    var q := PieceAt(l, pos);
    DivStride(pos, l.pieceLength, index);
    DivStride(pos, l.pieceLength, q);
    if q >= l.pieceCount {
      StrideMonotone(l.pieceCount, q, l.pieceLength);
    }
  }

  /** The rounded-up division of the metainfo check is the only count that fits. */
  lemma CeilDivFits(total: nat, pieceLength: nat, count: nat)
    requires pieceLength > 0 && total > 0
    ensures count == CeilDiv(total, pieceLength) <==> PieceCountFits(total, pieceLength, count)
  {
    DivStride(total + pieceLength - 1, pieceLength, count);
  }

  /** Sizes of valid pieces of a well-formed layout. */
  lemma PieceSizeIs(l: StorageLayout, index: nat)
    requires WellFormed(l) && index < l.pieceCount
    ensures l.PieceSize(index).Ok?
    ensures l.totalSize > 0 ==> PieceStart(l, index) < l.totalSize
                                && 0 < l.PieceSize(index).value == PieceEnd(l, index) - PieceStart(l, index)
    ensures l.totalSize == 0 ==> l.PieceSize(index).value == 0
  {
    StrideMonotone(index, l.pieceCount - 1, l.pieceLength);
  }

  /** Spans of a valid piece. */
  ghost function PieceSpans(l: StorageLayout, index: nat): seq<IoSpan>
    requires WellFormed(l) && index < l.pieceCount
  {
    PieceSizeIs(l, index);
    if l.totalSize == 0 then [] else SpansOf(l, PieceStart(l, index), PieceEnd(l, index))
  }

  method SpansForPiece(l: StorageLayout, index: nat) returns (r: Result<seq<IoSpan>, SpanError>)
    requires WellFormed(l)
    ensures r.Err? <==> index >= l.pieceCount
    ensures r.Ok? ==> r.value == PieceSpans(l, index)
  {
    hide SpansOf, SpanAt;
    match l.PieceSize(index)
    case Err(e) =>
      return Err(e);
    case Ok(len) =>
      PieceSizeIs(l, index);
      StrideIsProduct(index, l.pieceLength);
      var start := index * l.pieceLength;
      r := SpansForRange(l, start, len);
  }
}
