/** Rechecks and activation: from the disk to the catalog row, and from the row to the
    in-memory aggregate (`crates/engine/src/hash/recheck.rs`,
    `crates/engine/src/runtime/recheck_pool.rs`, `crates/engine/src/hot/registry.rs`). The
    layout and the hashes of a torrent, which the catalog keeps in other tables, are
    parameters. */
module Rechecking {
  import opened Wrappers
  import opened Sequences
  import opened Bits
  import opened Hashing
  import opened Spans
  import opened DiskIo
  import opened PieceLog
  import P = Possession
  import Catalogs
  import HotTorrents

  datatype RunError = UnknownTorrent | BadHashes | WorkersStopped | NotComplete

  // ---------------------------------------------------------------- the pool

  /** Results that arrive: pieces of the torrent, none twice. */
  ghost predicate Arrivals(order: seq<nat>, pc: nat) {
    && NoRepeats(order)
    && (forall i :: 0 <= i < |order| ==> order[i] < pc)
  }

  lemma {:induction false} CountTrueSet(s: seq<bool>, i: nat)
    requires i < |s| && !s[i]
    ensures CountTrue(s[i := true]) == CountTrue(s) + 1
    decreases |s|
  {
    var t, n := s[i := true], |s| - 1;
    if i < n {
      assert t[..n] == s[..n][i := true];
      CountTrueSet(s[..n], i);
    } else {
      assert t[..n] == s[..n];
    }
  }

  lemma {:induction false} CountTrueNone(s: seq<bool>)
    requires forall i :: 0 <= i < |s| ==> !s[i]
    ensures CountTrue(s) == 0
    decreases |s|
  {
    if s != [] {
      CountTrueNone(s[..|s| - 1]);
    }
  }

  lemma {:induction false} MembersSize(order: seq<nat>, pc: nat)
    requires Arrivals(order, pc)
    ensures |Members(order)| == |order| && Members(order) <= Range(pc)
    decreases |order|
  {
    if order != [] {
      var init, last := order[..|order| - 1], order[|order| - 1];
      MembersSize(init, pc);
      assert order == init + [last];
      assert Members(order) == Members(init) + {last} && last !in init;
    }
  }

  /** As many results as pieces are the results of all pieces. */
  lemma AllArrived(order: seq<nat>, pc: nat)
    requires Arrivals(order, pc) && |order| == pc
    ensures forall i: nat :: i < pc ==> i in order
  {
    hide Arrivals, Range;
    MembersSize(order, pc);
    RangeSize(pc);
    SubsetSize(Members(order), Range(pc));
    forall i: nat | i < pc ensures i in order {
      assert i in Members(order);
    }
  }

  /** The result loop of `recheck_torrent_with_pool`, for results in any order: when they all
      arrive, the verdicts and the report are those of the serial recheck. */
  method CollectResults(l: StorageLayout, files: Files, hashes: seq<byte>, sha1: Sha1, order: seq<nat>)
    returns (r: Result<(seq<bool>, RecheckReport), RunError>)
    requires WellFormed(l) && |hashes| == 20 * l.pieceCount && Arrivals(order, l.pieceCount)
    ensures r.Ok? <==> |order| == l.pieceCount
    ensures r.Ok? ==> Reported(l, files, hashes, sha1, r.value.0, r.value.1)
    ensures r.Err? ==> r.error == WorkersStopped
  {
    hide WellFormed, PieceReadable, PieceBytes, PieceGood, CountTrue;
    var pc := l.pieceCount;
    var have := seq(pc, _ => false);
    ghost var lost := have;
    CountTrueNone(have);
    var good, bad, missing := 0, 0, 0;
    var k := 0;
    while k < |order|
      invariant k <= |order| && |have| == |lost| == pc
      invariant good == CountTrue(have) && missing == CountTrue(lost) && good + bad + missing == k
      invariant forall i: nat :: i < pc ==>
        (have[i] <==> i in order[..k] && PieceGood(l, files, hashes, sha1, i))
        && (lost[i] <==> i in order[..k] && !PieceReadable(l, files, i))
    {
      var index := order[k];
      assert order[..k + 1] == order[..k] + [index] && index !in order[..k];
      var verdict := CheckOnePiece(l, files, hashes, sha1, index);
      match verdict {
        case Ok(true) =>
          CountTrueSet(have, index);
          have := have[index := true];
          good := good + 1;
        case Ok(false) =>
          bad := bad + 1;
        case Err(_) =>
          CountTrueSet(lost, index);
          lost := lost[index := true];
          missing := missing + 1;
      }
      k := k + 1;
    }
    if |order| != pc {
      return Err(WorkersStopped);
    }
    assert order[..k] == order;
    AllArrived(order, pc);
    assert lost == LostPieces(l, files);
    CountTrueBound(have);
    return Ok((have, RecheckReport(pc, good, bad, missing, good == pc && pc > 0)));
  }

  /** There is one report: the pool's, whatever the order, equals the serial one. */
  lemma OneReport(l: StorageLayout, files: Files, hashes: seq<byte>, sha1: Sha1,
                  have: seq<bool>, report: RecheckReport, have': seq<bool>, report': RecheckReport)
    requires WellFormed(l) && |hashes| == 20 * l.pieceCount
    requires Reported(l, files, hashes, sha1, have, report) && Reported(l, files, hashes, sha1, have', report')
    ensures have == have' && report == report'
  {
    hide WellFormed, PieceGood, LostPieces;
  }

  // ---------------------------------------------------------------- into the catalog

  /** The pieces that are on disk and match their hashes. */
  ghost function GoodPieces(l: StorageLayout, files: Files, hashes: seq<byte>, sha1: Sha1): set<nat>
    requires WellFormed(l) && |hashes| == 20 * l.pieceCount
  {
    set i | i in Range(l.pieceCount) && PieceGood(l, files, hashes, sha1, i)
  }

  lemma GoodAreReported(l: StorageLayout, files: Files, hashes: seq<byte>, sha1: Sha1, have: seq<bool>,
                        report: RecheckReport)
    requires WellFormed(l) && |hashes| == 20 * l.pieceCount && Reported(l, files, hashes, sha1, have, report)
    ensures (set i: nat | i < |have| && have[i]) == GoodPieces(l, files, hashes, sha1)
    ensures report.complete <==> l.pieceCount > 0 && GoodPieces(l, files, hashes, sha1) == Range(l.pieceCount)
  {
    hide WellFormed, PieceGood, CountTrue, LostPieces;
    var good := GoodPieces(l, files, hashes, sha1);
    if good == Range(l.pieceCount) {
      forall i | 0 <= i < |have| ensures have[i] {
        assert i in good;
      }
    }
  }

  /** The row after a recheck: its bits are the good pieces. */
  ghost predicate Rechecked(was: Row, row: Row, good: set<nat>, now: int) {
    && Consistent(row) && HaveOf(row) == good && row.pieceCount == was.pieceCount
    && row.downloaded == was.downloaded && row.phase == Stopped
    && (row.complete <==> was.pieceCount > 0 && good == Range(was.pieceCount))
    && row.finishedAt == if row.complete && was.finishedAt.None? then Some(now) else was.finishedAt
  }

  /** `prepare_recheck`, the pool and `finish_recheck`. If the hash workers stop midway, the
      row keeps its pieces and is left checking. */
  method RecheckWithPool(c: Catalogs.Catalog, tid: int, l: StorageLayout, hashes: seq<byte>, files: Files,
                         sha1: Sha1, order: seq<nat>, now: int)
    returns (r: Result<RecheckReport, RunError>)
    requires c.Valid() && WellFormed(l) && (tid in c.rows ==> c.rows[tid].pieceCount == l.pieceCount)
    requires Arrivals(order, l.pieceCount)
    modifies c
    ensures c.Valid() && c.rows.Keys == old(c.rows.Keys) && c.rows - {tid} == old(c.rows) - {tid}
    ensures r.Ok? <==> tid in old(c.rows) && |hashes| == 20 * l.pieceCount && |order| == l.pieceCount
    ensures r.Ok? ==> Rechecked(old(c.rows)[tid], c.rows[tid], GoodPieces(l, files, hashes, sha1), now)
                      && (r.value.complete <==> c.rows[tid].complete)
    ensures r.Err? && r.error == WorkersStopped ==>
              tid in old(c.rows) && c.rows == old(c.rows)[tid := old(c.rows)[tid].(phase := Checking)]
    ensures r.Err? && r.error != WorkersStopped ==> c.rows == old(c.rows)
  {
    hide Consistent, PieceGood, WellFormed, Reported, HaveOf, GoodPieces, Arrivals;
    if tid !in c.rows {
      return Err(UnknownTorrent);
    }
    if |hashes| != 20 * l.pieceCount {
      return Err(BadHashes);
    }
    PhaseAside(c.rows[tid], Checking);
    c.rows := c.rows[tid := c.rows[tid].(phase := Checking)];
    var collected := CollectResults(l, files, hashes, sha1, order);
    if collected.Err? {
      return Err(collected.error);
    }
    var (have, report) := collected.value;
    GoodAreReported(l, files, hashes, sha1, have, report);
    ReportedLength(l, files, hashes, sha1, have, report);
    var stored := c.SetBitfieldFromRecheck(tid, l.pieceCount, have, now);
    return Ok(report);
  }

  lemma ReportedLength(l: StorageLayout, files: Files, hashes: seq<byte>, sha1: Sha1, have: seq<bool>,
                       report: RecheckReport)
    requires WellFormed(l) && |hashes| == 20 * l.pieceCount && Reported(l, files, hashes, sha1, have, report)
    ensures |have| == l.pieceCount
    ensures report.complete <==> l.pieceCount > 0 && forall i :: 0 <= i < |have| ==> have[i]
  {
    hide WellFormed, PieceGood, CountTrue, LostPieces;
  }

  lemma PhaseAside(r: Row, phase: Phase)
    requires Consistent(r)
    ensures Consistent(r.(phase := phase)) && HaveOf(r.(phase := phase)) == HaveOf(r)
  {}

  // ---------------------------------------------------------------- into memory

  /** `load_from_catalog`: a consistent row becomes a valid torrent that has exactly the
      row's pieces, and mirrors it from then on. */
  method LoadFromCatalog(row: Row, l: StorageLayout, hashes: seq<byte>, allowIncomplete: bool)
    returns (r: Result<HotTorrents.HotTorrent, RunError>)
    requires WellFormed(l) && l.pieceCount == row.pieceCount && Consistent(row)
    ensures r.Ok? <==> row.complete || (allowIncomplete && |hashes| == 20 * row.pieceCount)
    ensures r.Err? ==> r.error == if allowIncomplete then BadHashes else NotComplete
    ensures r.Ok? ==> fresh(r.value) && r.value.Valid() && r.value.layout == l && r.value.inFlight == {}
                      && r.value.complete == row.complete && r.value.Have() == HaveOf(row)
                      && Mirrors(row, r.value.View())
  {
    hide WellFormed, P.WantedExact, P.PayloadExact, Get, Range, SizeBytes, AllSet, Empty;
    var loaded := Load(row);
    if !loaded.complete && !allowIncomplete {
      return Err(NotComplete);
    }
    if !loaded.complete && |hashes| != 20 * row.pieceCount {
      return Err(BadHashes);
    }
    ConsistentLoads(row);
    var hot := new HotTorrents.HotTorrent.FromCatalog(l, hashes, loaded.complete, loaded.bits, loaded.haveCount);
    return Ok(hot);
  }

  lemma ConsistentLoads(row: Row)
    requires Consistent(row)
    ensures row.complete ==> Load(row) == Loaded(true, AllSet(row.pieceCount), row.pieceCount)
    ensures !row.complete && row.pieceCount > 0 ==> HaveOf(row) != Range(row.pieceCount)
    ensures Load(row).bits == [] ==> Empty(row.pieceCount) == []
  {
    hide Get;
    FullCount(Load(row).bits, row.pieceCount);
    RangeSize(row.pieceCount);
  }

  /** From the disk to memory: a recheck and then an activation give a torrent whose pieces
      are the ones on disk that match their hashes. */
  method RecheckAndActivate(c: Catalogs.Catalog, tid: int, l: StorageLayout, hashes: seq<byte>, files: Files,
                            sha1: Sha1, order: seq<nat>, now: int)
    returns (r: Result<HotTorrents.HotTorrent, RunError>)
    requires c.Valid() && WellFormed(l) && (tid in c.rows ==> c.rows[tid].pieceCount == l.pieceCount)
    requires Arrivals(order, l.pieceCount)
    modifies c
    ensures c.Valid() && c.rows.Keys == old(c.rows.Keys)
    ensures r.Ok? <==> tid in old(c.rows) && |hashes| == 20 * l.pieceCount && |order| == l.pieceCount
    ensures r.Ok? ==> fresh(r.value) && r.value.Valid() && r.value.layout == l
                      && r.value.Have() == GoodPieces(l, files, hashes, sha1)
                      && Mirrors(c.rows[tid], r.value.View())
  {
    hide Consistent, WellFormed, HaveOf, GoodPieces, Arrivals, Mirrors, P.Exact;
    var report := RecheckWithPool(c, tid, l, hashes, files, sha1, order, now);
    if report.Err? {
      return Err(report.error);
    }
    KnownConsistent(c, tid);
    r := LoadFromCatalog(c.rows[tid], l, hashes, true);
  }

  /** Once every piece of the payload was written, in any order, all pieces are good: such a
      torrent is activated with everything. */
  lemma AllWrittenAllGood(l: StorageLayout, files: Files, payload: seq<byte>, ws: seq<Write>, hashes: seq<byte>,
                          sha1: Sha1)
    requires WellFormed(l) && DistinctPaths(l.files) && |payload| == l.totalSize
    requires WritesOf(l, payload, ws) && AllWritten(ws, l.pieceCount)
    requires |hashes| == 20 * l.pieceCount
    requires forall j: nat :: j < l.pieceCount ==> hashes[20 * j..20 * j + 20] == sha1(PiecePayload(l, payload, j))
    ensures ValidWrites(l, ws)
    ensures GoodPieces(l, AfterWrites(l, files, ws), hashes, sha1) == Range(l.pieceCount)
  {
    hide WellFormed, DistinctPaths, WritesOf, AllWritten, PieceGood, AfterWrites, ValidWrites;
    WritesOfValid(l, payload, ws);
    forall i | i in Range(l.pieceCount) ensures PieceGood(l, AfterWrites(l, files, ws), hashes, sha1, i) {
      WriteAllThenRecheck(l, files, payload, ws, hashes, sha1, i);
    }
  }

  lemma KnownConsistent(c: Catalogs.Catalog, tid: int)
    requires c.Valid() && tid in c.rows
    ensures Consistent(c.rows[tid])
  {}
}
