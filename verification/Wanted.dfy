/** The wanted bitfield (`build_wanted_bitfield`, `crates/engine/src/hot/pieces.rs`):
    the fast form divides each wanted file's byte range into piece indices; the simple
    form asks which pieces have a span in a wanted file. */
module Wanted {
  import opened Bits
  import opened Paths
  import opened Spans

  function PriorityOf(l: StorageLayout, prios: seq<int>, k: nat): int
    requires k < |l.files|
  {
    if k < |prios| then prios[k] else l.files[k].priority
  }

  /** Some byte of file `k` lies in the stream range `[pos, end)`. */
  ghost predicate RangeMeets(l: StorageLayout, pos: nat, end: nat, k: nat)
    requires k < |l.files|
  {
    exists t: nat :: l.files[k].Covers(t) && pos <= t < end
  }

  /** Some byte of file `k` lies in piece `i`. */
  ghost predicate Meets(l: StorageLayout, i: nat, k: nat)
    requires k < |l.files|
  {
    RangeMeets(l, PieceStart(l, i), PieceEnd(l, i), k)
  }

  ghost predicate MeetsWanted(l: StorageLayout, prios: seq<int>, i: nat, n: nat)
    requires n <= |l.files|
  {
    exists k :: 0 <= k < n && PriorityOf(l, prios, k) > 0 && Meets(l, i, k)
  }

  /** Pieces meeting a file of positive priority. */
  ghost function WantedSet(l: StorageLayout, prios: seq<int>): set<nat> {
    set i | i in Range(l.pieceCount) && MeetsWanted(l, prios, i, |l.files|)
  }

  /** A non-empty file meets exactly the pieces between those of its first and last byte. */
  lemma MeetsInterval(l: StorageLayout, i: nat, k: nat)
    requires WellFormed(l) && k < |l.files|
    ensures l.files[k].size == 0 ==> !Meets(l, i, k)
    ensures l.files[k].size > 0 ==>
              var first, last := PieceAt(l, l.files[k].offset), PieceAt(l, l.files[k].End() - 1);
              first <= last < l.pieceCount && (Meets(l, i, k) <==> first <= i <= last)
  {
    var f := l.files[k];
    FileInTotal(l, k);
    if f.size > 0 {
      assert f.End() <= l.totalSize && l.pieceLength > 0;
      hide WellFormed, PieceAt, PieceStart, PieceEnd;
      var last := f.End() - 1;
      PieceAtOrder(l, f.offset, last);
      PieceOfByte(l, last, i);
      if Meets(l, i, k) {
        var t: nat :| f.Covers(t) && PieceStart(l, i) <= t < PieceEnd(l, i);
        PieceOfByte(l, t, i);
        PieceAtOrder(l, f.offset, t);
        PieceAtOrder(l, t, last);
      }
      if PieceAt(l, f.offset) <= i <= PieceAt(l, last) {
        var t := FirstCommonByte(l, f.offset, last, i);
        PieceOfByte(l, t, i);
        assert f.Covers(t) && PieceStart(l, i) <= t < PieceEnd(l, i);
      }
    }
  }

  /** A byte between `a` and `b` in piece `i`, when `i` is between their pieces. */
  lemma FirstCommonByte(l: StorageLayout, a: nat, b: nat, i: nat) returns (t: nat)
    requires l.pieceLength > 0 && a <= b && PieceAt(l, a) <= i <= PieceAt(l, b)
    ensures a <= t <= b && PieceAt(l, t) == i
  {
    var len := l.pieceLength;
    var first, last := PieceAt(l, a), PieceAt(l, b);
    DivStride(a, len, first);
    DivStride(b, len, last);
    StrideMonotone(i, last, len);
    StrideMonotone(first, i, len);
    t := if i == first then a else Stride(i, len);
    DivStride(t, len, i);
  }

  lemma PieceAtOrder(l: StorageLayout, a: nat, b: nat)
    requires l.pieceLength > 0 && a <= b
    ensures PieceAt(l, a) <= PieceAt(l, b)
  {
    var p, q := PieceAt(l, a), PieceAt(l, b);
    DivStride(a, l.pieceLength, p);
    DivStride(b, l.pieceLength, q);
    if q < p {
      StrideMonotone(q, p, l.pieceLength);
    }
  }

  /** A span of the piece's span list that lies in file `k`. */
  ghost predicate SpanInFile(l: StorageLayout, s: IoSpan, k: nat)
    requires k < |l.files|
  {
    s.path == l.Absolute(l.files[k].path) && 0 < s.length && s.fileOffset + s.length <= l.files[k].size
  }

  ghost predicate HasSpanIn(l: StorageLayout, spans: seq<IoSpan>, k: nat)
    requires k < |l.files|
  {
    exists s :: s in spans && SpanInFile(l, s, k)
  }

  /** The spans of a stream range name exactly the files the range meets. */
  lemma {:induction false} SpansNameFiles(l: StorageLayout, pos: nat, end: nat, k: nat)
    requires WellFormed(l) && DistinctPaths(l.files) && pos <= end <= l.totalSize && k < |l.files|
    ensures HasSpanIn(l, SpansOf(l, pos, end), k) <==> RangeMeets(l, pos, end, k)
    decreases end - pos
  {
    hide WellFormed, SpanAt, SpanInFile, DistinctPaths, HasSpanIn, RangeMeets;
    if pos == end {
      NothingMeets(l, pos, k);
    } else {
      var s := SpanAt(l, pos, end);
      var mid := pos + s.length;
      SpansNameFiles(l, mid, end, k);
      SpanAtFile(l, pos, end, k);
      MeetsSplit(l, pos, mid, end, k);
      HasSpanCons(l, s, SpansOf(l, mid, end), k);
    }
  }

  lemma NothingMeets(l: StorageLayout, pos: nat, k: nat)
    requires k < |l.files|
    ensures !HasSpanIn(l, [], k) && !RangeMeets(l, pos, pos, k)
  {}

  lemma HasSpanCons(l: StorageLayout, s: IoSpan, rest: seq<IoSpan>, k: nat)
    requires k < |l.files|
    ensures HasSpanIn(l, [s] + rest, k) <==> SpanInFile(l, s, k) || HasSpanIn(l, rest, k)
  {
    hide SpanInFile;
    assert forall x :: x in [s] + rest <==> x == s || x in rest;
    if SpanInFile(l, s, k) {
      assert s in [s] + rest;
    }
  }

  lemma MeetsSplit(l: StorageLayout, pos: nat, mid: nat, end: nat, k: nat)
    requires pos <= mid <= end && k < |l.files|
    ensures RangeMeets(l, pos, end, k) <==> RangeMeets(l, pos, mid, k) || RangeMeets(l, mid, end, k)
  {
    hide FileLayout.Covers;
  }

  lemma SpanAtFile(l: StorageLayout, pos: nat, end: nat, k: nat)
    requires WellFormed(l) && DistinctPaths(l.files) && pos < end <= l.totalSize && k < |l.files|
    ensures SpanInFile(l, SpanAt(l, pos, end), k)
       <==> RangeMeets(l, pos, pos + SpanAt(l, pos, end).length, k)
  {
    hide WellFormed;
    var j := FileAt(l, pos);
    var s := SpanAt(l, pos, end);
    if SpanInFile(l, s, k) {
      assert j == k by {
        assert PlaceOf(l.files[j].path) == PlaceOf(l.files[k].path);
      }
      assert l.files[k].Covers(pos);
    }
    if RangeMeets(l, pos, pos + s.length, k) {
      var t: nat :| l.files[k].Covers(t) && pos <= t < pos + s.length;
      assert l.files[j].Covers(t);
      assert FileAt(l, t) == j == k;
    }
  }

  /** A piece is wanted exactly when `spans_for_piece` has a span in a file of positive
      priority. */
  lemma WantedIffSpan(l: StorageLayout, prios: seq<int>, i: nat)
    requires WellFormed(l) && DistinctPaths(l.files) && i < l.pieceCount
    ensures i in WantedSet(l, prios)
       <==> exists k :: 0 <= k < |l.files| && HasSpanIn(l, PieceSpans(l, i), k)
                        && (if k < |prios| then prios[k] else l.files[k].priority) > 0
  {
    PieceSizeIs(l, i);
    forall k | 0 <= k < |l.files|
      ensures Meets(l, i, k) <==> HasSpanIn(l, PieceSpans(l, i), k)
    {
      if l.totalSize > 0 {
        SpansNameFiles(l, PieceStart(l, i), PieceEnd(l, i), k);
      } else {
        MeetsInterval(l, i, k);
        FileInTotal(l, k);
      }
      hide WellFormed, HasSpanIn, RangeMeets;
    }
    hide WellFormed, PieceSpans, HasSpanIn, Meets;
  }

  /** Some byte of piece `i` lies in a file whose priority is above zero: the one set for the
      file, or the layout's own where the list is shorter. */
  ghost predicate HasWantedByte(l: StorageLayout, prios: seq<int>, i: nat) {
    exists t: nat, k :: 0 <= k < |l.files| && l.files[k].Covers(t) && PieceStart(l, i) <= t < PieceEnd(l, i)
                        && (if k < |prios| then prios[k] else l.files[k].priority) > 0
  }

  lemma WantedByBytes(l: StorageLayout, prios: seq<int>, i: nat)
    requires i < l.pieceCount
    ensures i in WantedSet(l, prios) <==> HasWantedByte(l, prios, i)
  {
    hide PieceStart, PieceEnd, FileLayout.Covers;
    if t: nat, k :| 0 <= k < |l.files| && l.files[k].Covers(t) && PieceStart(l, i) <= t < PieceEnd(l, i)
                    && (if k < |prios| then prios[k] else l.files[k].priority) > 0
    {
      assert Meets(l, i, k) && PriorityOf(l, prios, k) > 0;
    }
  }

  /** A piece with all its bytes in one file is wanted exactly if that file is. */
  lemma WantedInside(l: StorageLayout, prios: seq<int>, i: nat, f: nat)
    requires WellFormed(l) && i < l.pieceCount && f < |l.files|
    requires forall t: nat :: PieceStart(l, i) <= t < PieceEnd(l, i) ==> l.files[f].Covers(t)
    ensures i in WantedSet(l, prios) ==> (if f < |prios| then prios[f] else l.files[f].priority) > 0
  {
    WantedByBytes(l, prios, i);
    hide PieceStart, PieceEnd;
    if i in WantedSet(l, prios) {
      var t: nat, k :| 0 <= k < |l.files| && l.files[k].Covers(t) && PieceStart(l, i) <= t < PieceEnd(l, i)
                       && (if k < |prios| then prios[k] else l.files[k].priority) > 0;
      FileInTotal(l, k);
      assert l.files[f].Covers(t);
      hide WellFormed;
      assert FileAt(l, t) == k == f;
    }
  }

  /** A piece with a byte in a wanted file is wanted. */
  lemma WantedMeeting(l: StorageLayout, prios: seq<int>, i: nat, f: nat, t: nat)
    requires i < l.pieceCount && f < |l.files|
    requires PieceStart(l, i) <= t < PieceEnd(l, i) && l.files[f].Covers(t)
    requires (if f < |prios| then prios[f] else l.files[f].priority) > 0
    ensures i in WantedSet(l, prios)
  {
    hide PieceStart, PieceEnd, FileLayout.Covers;
    WantedByBytes(l, prios, i);
  }

  /** Mark pieces `start..=end`. */
  method MarkRange(bits: seq<byte>, start: nat, end: nat, pc: nat) returns (r: seq<byte>)
    requires start <= end < pc && |bits| == SizeBytes(pc)
    ensures |r| == |bits|
    ensures forall i: nat :: i < pc ==> (Get(r, i) <==> Get(bits, i) || start <= i <= end)
  {
    hide Get, Set;
    r := bits;
    var idx := start;
    while idx <= end
      invariant start <= idx <= end + 1 && |r| == |bits|
      invariant forall i: nat :: i < pc ==> (Get(r, i) <==> Get(bits, i) || start <= i < idx)
    {
      assert idx / 8 < |r|;
      r := Set(r, idx);
      idx := idx + 1;
    }
  }

  /** `build_wanted_bitfield`: file ranges divided into piece indices. */
  method BuildWantedBitfield(l: StorageLayout, prios: seq<int>) returns (bf: seq<byte>)
    requires WellFormed(l)
    ensures |bf| == SizeBytes(l.pieceCount)
    ensures Indices(bf, l.pieceCount) == WantedSet(l, prios)
    ensures forall i: nat :: i < l.pieceCount ==>
              (Get(bf, i) <==> HasWantedByte(l, prios, i))
  {
    AllWantedByBytes(l, prios);
    bf := MarkWanted(l, prios);
    hide Get, WellFormed, WantedSet, HasWantedByte;
    assert forall i: nat :: i < l.pieceCount ==> (Get(bf, i) <==> i in Indices(bf, l.pieceCount));
  }

  lemma AllWantedByBytes(l: StorageLayout, prios: seq<int>)
    ensures forall i: nat :: i < l.pieceCount ==>
              (i in WantedSet(l, prios) <==> HasWantedByte(l, prios, i))
  {
    hide WantedSet, HasWantedByte;
    forall i: nat | i < l.pieceCount
      ensures i in WantedSet(l, prios) <==> HasWantedByte(l, prios, i)
    {
      WantedByBytes(l, prios, i);
    }
  }

  /** The loop of `build_wanted_bitfield`. */
  method MarkWanted(l: StorageLayout, prios: seq<int>) returns (bf: seq<byte>)
    requires WellFormed(l)
    ensures |bf| == SizeBytes(l.pieceCount)
    ensures Indices(bf, l.pieceCount) == WantedSet(l, prios)
  {
    assert l.pieceLength > 0;
    hide Get, WellFormed, Meets, PieceAt, PriorityOf, MeetsWanted;
    var pc := l.pieceCount;
    bf := Empty(pc);
    NoneMeetsWanted(l, prios);
    if pc == 0 || l.pieceLength == 0 {
      return;
    }
    var last := pc - 1;
    var k := 0;
    while k < |l.files|
      invariant k <= |l.files| && |bf| == SizeBytes(pc)
      invariant forall i: nat :: i < pc ==> (Get(bf, i) <==> MeetsWanted(l, prios, i, k))
    {
      var f := l.files[k];
      var p := PriorityOf(l, prios, k);
      ghost var before := bf;
      if p > 0 && f.size > 0 {
        MeetsInterval(l, 0, k);
        var start := PieceAt(l, f.offset);
        var end := PieceAt(l, f.offset + f.size - 1);
        bf := MarkRange(bf, Min(start, last), Min(end, last), pc);
      }
      forall i: nat | i < pc ensures Get(bf, i) <==> MeetsWanted(l, prios, i, k + 1) {
        MeetsInterval(l, i, k);
        MeetsWantedNext(l, prios, i, k);
      }
      k := k + 1;
    }
  }

  lemma NoneMeetsWanted(l: StorageLayout, prios: seq<int>)
    ensures forall i: nat :: !MeetsWanted(l, prios, i, 0)
  {}

  lemma MeetsWantedNext(l: StorageLayout, prios: seq<int>, i: nat, k: nat)
    requires k < |l.files|
    ensures MeetsWanted(l, prios, i, k + 1)
       <==> MeetsWanted(l, prios, i, k) || (PriorityOf(l, prios, k) > 0 && Meets(l, i, k))
  {
    hide Meets, PriorityOf;
    if MeetsWanted(l, prios, i, k) {
      var j :| 0 <= j < k && PriorityOf(l, prios, j) > 0 && Meets(l, i, j);
      assert 0 <= j < k + 1;
    }
  }
}
