/** Counting payload bytes: per piece (`recount_completed_payload`,
    `crates/engine/src/hot/pieces.rs`) and per file (`file_have_bytes`,
    `crates/engine/src/catalog/queries.rs`). Both count the same thing, the stream
    bytes that lie in pieces we have. */
module Progress {
  import opened Bits
  import opened Spans

  /** Number of stream bytes in `[a, b)` that lie in a piece of `have`. */
  ghost function HaveBytes(l: StorageLayout, have: set<nat>, a: nat, b: nat): nat
    requires l.pieceLength > 0
    decreases b
  {
    if b <= a then 0
    else HaveBytes(l, have, a, b - 1) + if PieceAt(l, b - 1) in have then 1 else 0
  }

  lemma {:induction false} HaveBytesSplit(l: StorageLayout, have: set<nat>, a: nat, m: nat, b: nat)
    requires l.pieceLength > 0 && a <= m <= b
    ensures HaveBytes(l, have, a, b) == HaveBytes(l, have, a, m) + HaveBytes(l, have, m, b)
    decreases b
  {
    hide PieceAt;
    if m < b {
      HaveBytesSplit(l, have, a, m, b - 1);
    }
  }

  /** Inside one piece the count is all or nothing. */
  lemma {:induction false} HaveBytesInPiece(l: StorageLayout, have: set<nat>, i: nat, a: nat, b: nat)
    requires WellFormed(l) && PieceStart(l, i) <= a <= b <= PieceEnd(l, i)
    ensures HaveBytes(l, have, a, b) == if i in have then b - a else 0
    decreases b
  {
    if a < b {
      HaveBytesInPiece(l, have, i, a, b - 1);
      PieceOfByte(l, b - 1, i);
    }
  }

  lemma {:induction false} HaveBytesBounded(l: StorageLayout, have: set<nat>, a: nat, b: nat)
    requires l.pieceLength > 0 && a <= b
    ensures HaveBytes(l, have, a, b) <= b - a
    decreases b
  {
    hide PieceAt;
    if a < b {
      HaveBytesBounded(l, have, a, b - 1);
    }
  }

  // ---------------------------------------------------------------- per piece

  function PieceLen(l: StorageLayout, i: nat): nat {
    if i < l.pieceCount then l.PieceSize(i).value else 0
  }

  /** Summed size of the pieces of `have` below `n`. */
  ghost function Payload(l: StorageLayout, have: set<nat>, n: nat): nat {
    if n == 0 then 0
    else Payload(l, have, n - 1) + if n - 1 in have then PieceLen(l, n - 1) else 0
  }

  lemma {:induction false} PayloadAdd(l: StorageLayout, have: set<nat>, i: nat, n: nat)
    requires i < n && i !in have
    ensures Payload(l, have + {i}, n) == Payload(l, have, n) + PieceLen(l, i)
  {
    hide PieceLen;
    if i == n - 1 {
      PayloadSame(l, have, have + {i}, n - 1);
    } else {
      PayloadAdd(l, have, i, n - 1);
    }
  }

  lemma {:induction false} PayloadSame(l: StorageLayout, a: set<nat>, b: set<nat>, n: nat)
    requires forall j: nat :: j < n ==> (j in a <==> j in b)
    ensures Payload(l, a, n) == Payload(l, b, n)
  {
    hide PieceLen;
    if n > 0 {
      PayloadSame(l, a, b, n - 1);
    }
  }

  /** Where the first `n` pieces end. */
  ghost function Reach(l: StorageLayout, n: nat): nat {
    Min(Stride(n, l.pieceLength), l.totalSize)
  }

  /** The per-piece sum counts the stream bytes we have. */
  lemma {:induction false} PayloadIsHaveBytes(l: StorageLayout, have: set<nat>, n: nat)
    requires WellFormed(l) && n <= l.pieceCount
    ensures Payload(l, have, n) == HaveBytes(l, have, 0, Reach(l, n))
  {
    if n > 0 {
      PayloadIsHaveBytes(l, have, n - 1);
      PieceSizeIs(l, n - 1);
      StrideMonotone(n - 1, n, l.pieceLength);
      HaveBytesSplit(l, have, 0, Reach(l, n - 1), Reach(l, n));
      hide WellFormed, HaveBytes;
      if l.totalSize > 0 {
        HaveBytesInPiece(l, have, n - 1, Reach(l, n - 1), Reach(l, n));
      } else {
        HaveBytesBounded(l, have, 0, 0);
      }
    }
  }

  lemma ReachAll(l: StorageLayout)
    requires WellFormed(l)
    ensures Reach(l, l.pieceCount) == l.totalSize
  {}

  lemma PayloadTotal(l: StorageLayout, have: set<nat>)
    requires WellFormed(l)
    ensures Payload(l, have, l.pieceCount) == HaveBytes(l, have, 0, l.totalSize) <= l.totalSize
  {
    PayloadIsHaveBytes(l, have, l.pieceCount);
    ReachAll(l);
    HaveBytesBounded(l, have, 0, l.totalSize);
  }

  /** Having every piece is having every byte. */
  lemma {:induction false} AllBytes(l: StorageLayout, have: set<nat>, b: nat)
    requires WellFormed(l) && have == Range(l.pieceCount) && b <= l.totalSize
    ensures HaveBytes(l, have, 0, b) == b
  {
    if b > 0 {
      AllBytes(l, have, b - 1);
      PieceOfByte(l, b - 1, 0);
    }
  }

  lemma PayloadFull(l: StorageLayout)
    requires WellFormed(l)
    ensures Payload(l, Range(l.pieceCount), l.pieceCount) == l.totalSize
  {
    PayloadTotal(l, Range(l.pieceCount));
    AllBytes(l, Range(l.pieceCount), l.totalSize);
  }

  /** Pieces we have and pieces we lack partition the torrent's bytes. */
  lemma {:induction false} HavePlusLeft(l: StorageLayout, have: set<nat>, b: nat)
    requires WellFormed(l) && b <= l.totalSize
    ensures HaveBytes(l, have, 0, b) + HaveBytes(l, Range(l.pieceCount) - have, 0, b) == b
  {
    if b > 0 {
      HavePlusLeft(l, have, b - 1);
      PieceOfByte(l, b - 1, 0);
    }
  }

  // ---------------------------------------------------------------- per file

  /** The overlap of piece `pi` with the file, as a count of bytes. */
  method Overlap(l: StorageLayout, pi: nat, fileStart: nat, fileEnd: nat) returns (n: nat)
    ensures n == Max(0, Min(PieceEnd(l, pi), fileEnd) - Max(PieceStart(l, pi), fileStart))
  {
    StrideIsProduct(pi, l.pieceLength);
    var pstart := pi * l.pieceLength;
    var pend := Min(pstart + l.pieceLength, l.totalSize);
    var lo := Max(pstart, fileStart);
    var hi := Min(pend, fileEnd);
    n := if hi > lo then hi - lo else 0;
  }

  /** The piece loop of `file_have_bytes`. */
  method SumPieces(l: StorageLayout, bits: seq<byte>, first: nat, last: nat, fileStart: nat, fileEnd: nat)
    returns (sum: nat)
    requires WellFormed(l) && fileStart < fileEnd <= l.totalSize && first <= last < l.pieceCount
    requires Stride(first, l.pieceLength) <= fileStart < Stride(first, l.pieceLength) + l.pieceLength
    requires Stride(last, l.pieceLength) <= fileEnd - 1 < Stride(last, l.pieceLength) + l.pieceLength
    ensures sum == HaveBytes(l, Indices(bits, l.pieceCount), fileStart, fileEnd)
  {
    ghost var have := Indices(bits, l.pieceCount);
    hide WellFormed, HaveBytes, Get, PieceEnd, PieceStart;
    sum := 0;
    var pi := first;
    HaveBytesBounded(l, have, fileStart, fileStart);
    while pi <= last
      invariant first <= pi <= last + 1
      invariant sum == HaveBytes(l, have, fileStart, Clip(l, pi, fileStart, fileEnd))
    {
      PieceStep(l, have, first, last, pi, fileStart, fileEnd);
      if Get(bits, pi) {
        var n := Overlap(l, pi, fileStart, fileEnd);
        sum := sum + n;
      }
      pi := pi + 1;
    }
  }

  /** `file_have_bytes`: the bytes of a file that lie in pieces set in `bits`. */
  method FileHaveBytes(l: StorageLayout, k: nat, bits: seq<byte>) returns (n: nat)
    requires WellFormed(l) && k < |l.files|
    ensures n == HaveBytes(l, Indices(bits, l.pieceCount), l.files[k].offset, l.files[k].End())
  {
    var file := l.files[k];
    if file.size == 0 || l.pieceLength == 0 {
      return 0;
    }
    FileInTotal(l, k);
    var fileStart, fileEnd := file.offset, file.End();
    var first := PieceAt(l, fileStart);
    var last := PieceAt(l, fileEnd - 1);
    PieceOfByte(l, fileEnd - 1, last);
    PieceSizes(l, first, last, fileStart, fileEnd - 1);
    HaveBytesBounded(l, Indices(bits, l.pieceCount), fileStart, fileEnd);
    hide WellFormed, HaveBytes, PieceAt, Get;
    last := Min(last, Max(l.pieceCount - 1, 0));
    var sum := SumPieces(l, bits, first, last, fileStart, fileEnd);
    return Min(sum, file.size);
  }

  /** Start of piece `pi`, kept inside the file. */
  ghost function Clip(l: StorageLayout, pi: nat, fileStart: nat, fileEnd: nat): nat
    requires fileStart <= fileEnd
  {
    Max(fileStart, Min(Stride(pi, l.pieceLength), fileEnd))
  }

  lemma PieceSizes(l: StorageLayout, first: nat, last: nat, a: nat, b: nat)
    requires WellFormed(l) && a <= b < l.totalSize && first == PieceAt(l, a) && last == PieceAt(l, b)
    ensures first <= last
    ensures Stride(first, l.pieceLength) <= a < Stride(first, l.pieceLength) + l.pieceLength
    ensures Stride(last, l.pieceLength) <= b < Stride(last, l.pieceLength) + l.pieceLength
  {
    DivStride(a, l.pieceLength, first);
    DivStride(b, l.pieceLength, last);
    if last < first {
      StrideMonotone(last, first, l.pieceLength);
    }
  }

  /** One round of the loop adds the bytes of one piece. */
  lemma PieceStep(l: StorageLayout, have: set<nat>, first: nat, last: nat, pi: nat, fileStart: nat, fileEnd: nat)
    requires WellFormed(l) && fileStart < fileEnd <= l.totalSize && first <= pi <= last
    requires Stride(first, l.pieceLength) <= fileStart < Stride(first, l.pieceLength) + l.pieceLength
    requires Stride(last, l.pieceLength) <= fileEnd - 1
    ensures var from, to := Clip(l, pi, fileStart, fileEnd), Clip(l, pi + 1, fileStart, fileEnd);
            && from == Max(PieceStart(l, pi), fileStart)
            && to == Min(PieceEnd(l, pi), fileEnd)
            && from < to
            && HaveBytes(l, have, fileStart, to)
                 == HaveBytes(l, have, fileStart, from) + if pi in have then to - from else 0
  {
    StrideMonotone(first, pi, l.pieceLength);
    StrideMonotone(pi, last, l.pieceLength);
    var from, to := Clip(l, pi, fileStart, fileEnd), Clip(l, pi + 1, fileStart, fileEnd);
    hide HaveBytes;
    HaveBytesSplit(l, have, fileStart, from, to);
    HaveBytesInPiece(l, have, pi, from, to);
  }

  /** Per-file counts of the first `n` files, summed. */
  ghost function FilesHaveBytes(l: StorageLayout, have: set<nat>, n: nat): nat
    requires l.pieceLength > 0 && n <= |l.files|
  {
    if n == 0 then 0
    else FilesHaveBytes(l, have, n - 1) + HaveBytes(l, have, l.files[n - 1].offset, l.files[n - 1].End())
  }

  lemma {:induction false} FilesSumPrefix(l: StorageLayout, have: set<nat>, n: nat)
    requires WellFormed(l) && n <= |l.files|
    ensures FilesHaveBytes(l, have, n) == HaveBytes(l, have, 0, SizeOfFirst(l.files, n))
  {
    hide WellFormed, HaveBytes, SizeOfFirst;
    PrefixOf(l, n);
    if n > 0 {
      FilesSumPrefix(l, have, n - 1);
      HaveBytesSplit(l, have, 0, SizeOfFirst(l.files, n - 1), SizeOfFirst(l.files, n));
    } else {
      NoBytes(l, have);
    }
  }

  lemma PrefixOf(l: StorageLayout, n: nat)
    requires WellFormed(l) && n <= |l.files|
    ensures n > 0 ==> l.files[n - 1].offset == SizeOfFirst(l.files, n - 1)
                      && l.files[n - 1].End() == SizeOfFirst(l.files, n) >= SizeOfFirst(l.files, n - 1)
    ensures SizeOfFirst(l.files, n) <= l.totalSize && SizeOfFirst(l.files, 0) == 0 && l.pieceLength > 0
  {
    SizeOfFirstMonotone(l.files, n, |l.files|);
  }

  lemma NoBytes(l: StorageLayout, have: set<nat>)
    requires l.pieceLength > 0
    ensures HaveBytes(l, have, 0, 0) == 0
  {}

  /** Conservation: the per-file counts sum to the completed payload, and completed
      plus left is the whole torrent. */
  lemma ProgressConserved(l: StorageLayout, have: set<nat>)
    requires WellFormed(l)
    ensures FilesHaveBytes(l, have, |l.files|) == Payload(l, have, l.pieceCount)
    ensures Payload(l, have, l.pieceCount) + Payload(l, Range(l.pieceCount) - have, l.pieceCount) == l.totalSize
  {
    FilesSumPrefix(l, have, |l.files|);
    PayloadTotal(l, have);
    PayloadTotal(l, Range(l.pieceCount) - have);
    HavePlusLeft(l, have, l.totalSize);
  }
}
