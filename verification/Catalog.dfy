/** The catalog as a table of rows, its grouped piece batch and its recheck update
    (`crates/engine/src/catalog/pieces.rs`). A transaction is one update of the table. */
module Catalogs {
  import opened Wrappers
  import opened Sequences
  import opened Bits
  import opened PieceLog

  type Table = map<int, Row>

  datatype CatalogError = NoSuchTorrent(tid: int) | LengthMismatch

  /** One torrent's events, in log order. */
  function ItemsOf(pieces: seq<Event>, tid: int): seq<Item> {
    if pieces == [] then []
    else
      var last := pieces[|pieces| - 1];
      ItemsOf(pieces[..|pieces| - 1], tid) + if last.tid == tid then [(last.index, last.plen)] else []
  }

  ghost function BatchRows(rows: Table, pieces: seq<Event>, now: int): Table {
    map tid | tid in rows :: Applied(rows[tid], ItemsOf(pieces, tid), now)
  }

  ghost function ReplayRows(rows: Table, pieces: seq<Event>, now: int): Table
    decreases |pieces|
  {
    if pieces == [] then rows else ReplayRows(BatchRows(rows, [pieces[0]], now), pieces[1..], now)
  }

  ghost predicate AllConsistent(rows: Table) {
    forall tid | tid in rows :: Consistent(rows[tid])
  }

  ghost predicate AllKnown(rows: Table, pieces: seq<Event>) {
    forall k :: 0 <= k < |pieces| ==> pieces[k].tid in rows
  }

  /** `tid` went from incomplete to complete. */
  ghost predicate BecameComplete(before: Table, after: Table, tid: int) {
    tid in before && tid in after && !before[tid].complete && after[tid].complete
  }

  lemma ItemsOfNext(pieces: seq<Event>, k: nat, tid: int)
    requires k < |pieces|
    ensures ItemsOf(pieces[..k + 1], tid)
         == ItemsOf(pieces[..k], tid) + if pieces[k].tid == tid then [(pieces[k].index, pieces[k].plen)] else []
  {
    assert pieces[..k + 1][..k] == pieces[..k];
  }

  lemma {:induction false} ItemsOfAppend(a: seq<Event>, b: seq<Event>, tid: int)
    ensures ItemsOf(a + b, tid) == ItemsOf(a, tid) + ItemsOf(b, tid)
  {
    if b == [] {
      assert a + b == a;
    } else {
      ItemsOfAppend(a, b[..|b| - 1], tid);
      assert (a + b)[..|a + b| - 1] == a + b[..|b| - 1];
    }
  }

  lemma BatchKeepsConsistent(rows: Table, pieces: seq<Event>, now: int)
    requires AllConsistent(rows)
    ensures AllConsistent(BatchRows(rows, pieces, now))
  {
    hide Consistent, Applied, Listed;
    forall tid | tid in rows ensures Consistent(Applied(rows[tid], ItemsOf(pieces, tid), now)) {
      AppliedConsistent(rows[tid], ItemsOf(pieces, tid), now);
    }
  }

  /** Splitting the log into two batches gives the same table. */
  lemma SplitLog(rows: Table, a: seq<Event>, b: seq<Event>, now: int)
    requires AllConsistent(rows)
    ensures BatchRows(rows, a + b, now) == BatchRows(BatchRows(rows, a, now), b, now)
  {
    hide Applied, Consistent;
    forall tid | tid in rows
      ensures Applied(rows[tid], ItemsOf(a + b, tid), now)
           == Applied(Applied(rows[tid], ItemsOf(a, tid), now), ItemsOf(b, tid), now)
    {
      ItemsOfAppend(a, b, tid);
      SplitBatch(rows[tid], ItemsOf(a, tid), ItemsOf(b, tid), now);
    }
  }

  /** A batch over many torrents equals replaying its events one at a time. */
  lemma {:induction false} BatchIsReplay(rows: Table, pieces: seq<Event>, now: int)
    requires AllConsistent(rows)
    ensures BatchRows(rows, pieces, now) == ReplayRows(rows, pieces, now)
    decreases |pieces|
  {
    hide Applied, Consistent, ItemsOf;
    if pieces == [] {
      NoEvents(rows, pieces, now);
    } else {
      assert pieces == [pieces[0]] + pieces[1..];
      SplitLog(rows, [pieces[0]], pieces[1..], now);
      BatchKeepsConsistent(rows, [pieces[0]], now);
      BatchIsReplay(BatchRows(rows, [pieces[0]], now), pieces[1..], now);
    }
  }

  lemma NoEvents(rows: Table, pieces: seq<Event>, now: int)
    requires pieces == []
    ensures BatchRows(rows, pieces, now) == rows
  {
    forall tid | tid in rows ensures Applied(rows[tid], ItemsOf(pieces, tid), now) == rows[tid] {
      NothingApplied(rows[tid], now);
    }
  }

  /** One torrent's items are its events, one for one. */
  lemma {:induction false} ItemsAreEvents(pieces: seq<Event>, tid: int, item: Item)
    ensures item in ItemsOf(pieces, tid)
       <==> exists k :: 0 <= k < |pieces| && pieces[k] == PieceLog.Event(tid, item.0, item.1)
  {
    if pieces != [] {
      var init, last := pieces[..|pieces| - 1], pieces[|pieces| - 1];
      ItemsAreEvents(init, tid, item);
      assert forall k :: 0 <= k < |init| ==> init[k] == pieces[k];
    }
  }

  /** The whole table after a batch: each torrent has what it had and the pieces the batch names
      of it, and has downloaded the lengths of what is new; no other torrent changes. */
  lemma TableAfterBatch(rows: Table, pieces: seq<Event>, len: (int, nat) -> nat, now: int, tid: int, i: nat)
    requires AllConsistent(rows) && tid in rows
    requires forall k :: 0 <= k < |pieces| ==> pieces[k].plen == len(pieces[k].tid, pieces[k].index)
    ensures var r, q := rows[tid], BatchRows(rows, pieces, now)[tid];
            && (i in HaveOf(q) <==>
                  i in HaveOf(r)
                  || (i < r.pieceCount
                      && exists k :: 0 <= k < |pieces| && pieces[k].tid == tid && pieces[k].index == i))
            && q.downloaded + Weight((x: nat) => len(tid, x), HaveOf(r), r.pieceCount)
               == r.downloaded + Weight((x: nat) => len(tid, x), HaveOf(q), r.pieceCount)
            && ((forall k :: 0 <= k < |pieces| ==> pieces[k].tid != tid) ==> q == r)
  {
    hide Applied, Consistent, HaveOf, Weight, ItemsOf;
    var r, items := rows[tid], ItemsOf(pieces, tid);
    LengthsOfItems(pieces, len, tid);
    ClosedForm(r, items, (x: nat) => len(tid, x), now);
    ListedEvents(pieces, len, tid, r.pieceCount, i);
    if forall k :: 0 <= k < |pieces| ==> pieces[k].tid != tid {
      if items != [] {
        ItemsAreEvents(pieces, tid, items[0]);
      }
      NothingApplied(r, now);
    }
  }

  lemma LengthsOfItems(pieces: seq<Event>, len: (int, nat) -> nat, tid: int)
    requires forall k :: 0 <= k < |pieces| ==> pieces[k].plen == len(pieces[k].tid, pieces[k].index)
    ensures LengthsAre(ItemsOf(pieces, tid), (x: nat) => len(tid, x))
  {
    hide ItemsOf;
    var items := ItemsOf(pieces, tid);
    forall k | 0 <= k < |items| ensures items[k].1 == len(tid, items[k].0) {
      ItemsAreEvents(pieces, tid, items[k]);
    }
  }

  lemma ListedEvents(pieces: seq<Event>, len: (int, nat) -> nat, tid: int, pc: nat, i: nat)
    ensures i in Listed(ItemsOf(pieces, tid), pc)
       <==> i < pc && exists k :: 0 <= k < |pieces| && pieces[k].tid == tid && pieces[k].index == i
  {
    hide ItemsOf;
    var items := ItemsOf(pieces, tid);
    if i in Listed(items, pc) {
      var k :| 0 <= k < |items| && items[k].0 < pc && items[k].0 == i;
      ItemsAreEvents(pieces, tid, items[k]);
    }
    if k :| 0 <= k < |pieces| && pieces[k].tid == tid && pieces[k].index == i {
      ItemsAreEvents(pieces, tid, (i, pieces[k].plen));
      var j :| 0 <= j < |items| && items[j] == (i, pieces[k].plen);
    }
  }

  // ---------------------------------------------------------------- reports

  /** The table after a list of batches, and how many of them reported `tid`. */
  ghost function AfterBatches(rows: Table, log: seq<seq<Event>>, now: int): Table
    decreases |log|
  {
    if log == [] then rows else AfterBatches(BatchRows(rows, log[0], now), log[1..], now)
  }

  ghost function Reports(rows: Table, log: seq<seq<Event>>, now: int, tid: int): nat
    decreases |log|
  {
    if log == [] then 0
    else
      var next := BatchRows(rows, log[0], now);
      (if BecameComplete(rows, next, tid) then 1 else 0) + Reports(next, log[1..], now, tid)
  }

  /** Over any list of batches a torrent is reported complete once if it completes, and
      never otherwise. */
  lemma {:induction false} ReportedOnce(rows: Table, log: seq<seq<Event>>, now: int, tid: int)
    requires AllConsistent(rows) && tid in rows
    ensures tid in AfterBatches(rows, log, now)
    ensures Reports(rows, log, now, tid) == if BecameComplete(rows, AfterBatches(rows, log, now), tid) then 1 else 0
    ensures rows[tid].complete ==> AfterBatches(rows, log, now)[tid].complete
    decreases |log|
  {
    hide Applied, Consistent, ItemsOf, Listed;
    if log != [] {
      BatchKeepsConsistent(rows, log[0], now);
      AppliedConsistent(rows[tid], ItemsOf(log[0], tid), now);
      ReportedOnce(BatchRows(rows, log[0], now), log[1..], now, tid);
    }
  }

  // ---------------------------------------------------------------- the catalog

  class Catalog {
    var rows: Table

    ghost predicate Valid()
      reads this
    {
      AllConsistent(rows)
    }

    /** `mark_pieces_have_batch`: all or nothing, and exactly the newly complete torrents
        are reported, each once, in the order the batch first names them; `at` says where. */
    method MarkPiecesHaveBatch(pieces: seq<Event>, now: int)
      returns (r: Result<seq<int>, CatalogError>, ghost at: seq<nat>)
      requires Valid()
      modifies this
      ensures Valid()
      ensures r.Ok? <==> AllKnown(old(rows), pieces)
      ensures rows == if r.Ok? then BatchRows(old(rows), pieces, now) else old(rows)
      ensures r.Ok? ==> NoRepeats(r.value) && forall tid :: tid in r.value <==> BecameComplete(old(rows), rows, tid)
      ensures r.Ok? ==> SeenInOrder(pieces, r.value, at)
    {
      hide Consistent, Applied, ItemsOf;
      at := [];
      if pieces == [] {
        NoEvents(rows, pieces, now);
        return Ok([]), [];
      }
      var order, byTid, seen := GroupByTorrent(pieces);
      ghost var before := rows;
      BatchKeepsConsistent(before, pieces, now);
      r, at := ApplyGroups(pieces, order, byTid, seen, now);
      if r.Ok? {
        assert rows == BatchRows(before, pieces, now) by {
          Settled(before, rows, pieces, order, now);
        }
      }
    }

    /** The transaction over the groups; an unknown torrent rolls all of it back. */
    method ApplyGroups(pieces: seq<Event>, order: seq<int>, byTid: map<int, seq<Item>>, ghost seen: seq<nat>, now: int)
      returns (r: Result<seq<int>, CatalogError>, ghost at: seq<nat>)
      requires Valid() && Grouped(pieces, order, byTid) && SeenInOrder(pieces, order, seen)
      modifies this
      ensures r.Ok? <==> AllKnown(old(rows), pieces)
      ensures r.Err? ==> rows == old(rows)
      ensures r.Ok? ==> Progressed(old(rows), rows, pieces, order, |order|, now)
      ensures r.Ok? ==> NoRepeats(r.value) && forall tid :: tid in r.value <==> BecameComplete(old(rows), rows, tid)
      ensures r.Ok? ==> SeenInOrder(pieces, r.value, at)
    {
      hide Consistent, ItemsOf;
      at := [];
      var saved := rows;
      var becameComplete: seq<int> := [];
      var k := 0;
      while k < |order|
        invariant k <= |order| && Progressed(saved, rows, pieces, order, k, now)
        invariant forall j :: 0 <= j < k ==> order[j] in saved
        invariant NoRepeats(becameComplete)
        invariant forall tid :: tid in becameComplete <==> BecameComplete(saved, rows, tid)
        invariant SeenInOrder(pieces, becameComplete, at)
        invariant k < |order| ==> forall x :: 0 <= x < |at| ==> at[x] < seen[k]
      {
        var tid := order[k];
        if tid !in rows {
          rows := saved;
          assert tid in order;
          ghost var j :| 0 <= j < |pieces| && pieces[j].tid == tid;
          assert pieces[j].tid !in saved;
          return Err(NoSuchTorrent(tid)), at;
        }
        var row := rows[tid];
        assert row == saved[tid] && !BecameComplete(saved, rows, tid);
        var updated := ApplyItems(row, byTid[tid], now);
        rows := rows[tid := updated];
        if updated.complete && !row.complete {
          becameComplete := becameComplete + [tid];
          at := at + [seen[k]];
        }
        k := k + 1;
      }
      return Ok(becameComplete), at;
    }

    /** One torrent's share: load once, count, write once. */
    method ApplyItems(row: Row, items: seq<Item>, now: int) returns (q: Row)
      ensures q == Applied(row, items, now)
    {
      hide Get, Set, SizeBytes;
      var loaded := Load(row);
      if loaded.complete || row.pieceCount == 0 {
        return row;
      }
      var bits, have, down, changed := loaded.bits, loaded.haveCount, 0, false;
      var k := 0;
      while k < |items|
        invariant k <= |items|
        invariant CountAll(Tally(bits, have, down, changed), row.pieceCount, items[k..])
               == CountAll(Begin(row), row.pieceCount, items)
      {
        var (index, plen) := items[k];
        assert items[k..][1..] == items[k + 1..];
        if index < row.pieceCount && !Get(bits, index) {
          bits := Set(bits, index);
          have := have + 1;
          down := down + plen;
          changed := true;
        }
        k := k + 1;
      }
      if !changed {
        return row;
      }
      q := Written(row, Tally(bits, have, down, changed), loaded.haveCount, now);
    }

    /** `set_bitfield_from_recheck`: the row then reads back as the checked pieces, and is
        complete exactly when every piece is good. A torrent the catalog does not know fails
        the insert's foreign key, which rolls back. */
    method SetBitfieldFromRecheck(tid: int, pieceCount: nat, have: seq<bool>, now: int)
      returns (r: Result<(), CatalogError>)
      requires Valid()
      modifies this
      ensures r.Ok? <==> |have| == pieceCount && tid in old(rows)
      ensures r.Err? ==> rows == old(rows)
                         && r.error == if |have| != pieceCount then LengthMismatch else NoSuchTorrent(tid)
      ensures rows.Keys == old(rows.Keys) && rows - {tid} == old(rows) - {tid}
      ensures r.Ok? ==> rows[tid].pieceCount == old(rows[tid].pieceCount)
                        && rows[tid].downloaded == old(rows[tid].downloaded) && rows[tid].phase == Stopped
      ensures r.Ok? ==> (rows[tid].complete <==> pieceCount > 0 && forall i :: 0 <= i < |have| ==> have[i])
      ensures r.Ok? ==> rows[tid].finishedAt == if rows[tid].complete && old(rows[tid].finishedAt).None?
                                                then Some(now) else old(rows[tid].finishedAt)
      ensures r.Ok? && rows[tid].pieceCount == pieceCount ==> HaveOf(rows[tid]) == (set i: nat | i < |have| && have[i])
      ensures r.Err? || rows[tid].pieceCount == pieceCount ==> Valid()
    {
      hide Consistent, Get;
      if |have| != pieceCount {
        return Err(LengthMismatch);
      }
      var haveCount, bits := BitsOf(have);
      var complete := pieceCount > 0 && haveCount == pieceCount;
      if tid !in rows {
        return Err(NoSuchTorrent(tid));
      }
      var previous := rows[tid];
      var stored := Stored(if complete then None else Some(bits), haveCount);
      var finished := if complete && previous.finishedAt.None? then Some(now) else previous.finishedAt;
      var row := Row(previous.pieceCount, complete, Some(stored), previous.downloaded, finished, Stopped);
      AllGoodCount(have, bits);
      if previous.pieceCount == pieceCount {
        RecheckedRow(have, bits, row);
      }
      rows := rows[tid := row];
      return Ok(());
    }
  }

  lemma AllGoodCount(have: seq<bool>, bits: seq<byte>)
    requires Indices(bits, |have|) == set i: nat | i < |have| && have[i]
    ensures |Indices(bits, |have|)| == |have| <==> forall i :: 0 <= i < |have| ==> have[i]
  {
    hide Get;
    FullCount(bits, |have|);
    if Indices(bits, |have|) == Range(|have|) {
      forall i | 0 <= i < |have| ensures have[i] {
        assert i in Range(|have|);
      }
    }
  }

  /** The two counting loops of `set_bitfield_from_recheck`. */
  method BitsOf(have: seq<bool>) returns (count: nat, bits: seq<byte>)
    ensures |bits| == SizeBytes(|have|)
    ensures Indices(bits, |have|) == set i: nat | i < |have| && have[i]
    ensures count == |Indices(bits, |have|)|
  {
    hide Get, Set, SizeBytes;
    count, bits := 0, Empty(|have|);
    var k := 0;
    while k < |have|
      invariant k <= |have| && |bits| == SizeBytes(|have|)
      invariant Indices(bits, |have|) == set i: nat | i < k && have[i]
      invariant count == |Indices(bits, |have|)|
    {
      if have[k] {
        ghost var before := Indices(bits, |have|);
        SetIndices(bits, k, |have|);
        bits := Set(bits, k);
        assert k !in before;
        count := count + 1;
      }
      k := k + 1;
    }
  }

  lemma RecheckedRow(have: seq<bool>, bits: seq<byte>, row: Row)
    requires |bits| == SizeBytes(|have|) && Indices(bits, |have|) == (set i: nat | i < |have| && have[i])
    requires row.pieceCount == |have|
    requires row.complete == (|have| > 0 && |Indices(bits, |have|)| == |have|)
    requires row.stored == Some(Stored(if row.complete then None else Some(bits), |Indices(bits, |have|)|))
    ensures Consistent(row) && HaveOf(row) == set i: nat | i < |have| && have[i]
  {
    hide Get, SizeBytes;
    FullCount(bits, |have|);
    RangeSize(|have|);
  }

  /** `at[x]` is where the events first name `tids[x]`, and these places increase. */
  ghost predicate SeenInOrder(pieces: seq<Event>, tids: seq<int>, at: seq<nat>) {
    && |at| == |tids|
    && (forall x :: 0 <= x < |tids| ==> at[x] < |pieces| && pieces[at[x]].tid == tids[x])
    && (forall x, j :: 0 <= x < |tids| && 0 <= j < at[x] ==> pieces[j].tid != tids[x])
    && (forall x, y :: 0 <= x < y < |tids| ==> at[x] < at[y])
  }

  /** Events grouped by torrent. */
  ghost predicate Grouped(pieces: seq<Event>, order: seq<int>, byTid: map<int, seq<Item>>) {
    && NoRepeats(order)
    && (forall tid :: tid in order <==> tid in byTid)
    && (forall tid | tid in byTid :: byTid[tid] == ItemsOf(pieces, tid))
    && (forall tid :: tid in byTid <==> ItemsOf(pieces, tid) != [])
    && (forall k :: 0 <= k < |pieces| ==> pieces[k].tid in order)
    && (forall tid | tid in order :: exists k :: 0 <= k < |pieces| && pieces[k].tid == tid)
  }

  /** The torrents in first-seen order, each with its items in log order. */
  method GroupByTorrent(pieces: seq<Event>)
    returns (order: seq<int>, byTid: map<int, seq<Item>>, ghost seen: seq<nat>)
    ensures Grouped(pieces, order, byTid) && SeenInOrder(pieces, order, seen)
  {
    hide Grouped;
    order, byTid, seen := [], map[], [];
    var k := 0;
    NothingGrouped(pieces[..0]);
    while k < |pieces|
      invariant k <= |pieces| && Grouped(pieces[..k], order, byTid)
      invariant SeenInOrder(pieces, order, seen) && forall x :: 0 <= x < |seen| ==> seen[x] < k
    {
      var e := pieces[k];
      GroupNext(pieces, k, order, byTid);
      NamedBefore(pieces, k, order, byTid);
      var items := if e.tid in byTid then byTid[e.tid] else [];
      if e.tid !in byTid {
        order := order + [e.tid];
        seen := seen + [k];
      }
      byTid := byTid[e.tid := items + [(e.index, e.plen)]];
      k := k + 1;
    }
    assert pieces[..k] == pieces;
  }

  lemma NamedBefore(pieces: seq<Event>, k: nat, order: seq<int>, byTid: map<int, seq<Item>>)
    requires k <= |pieces| && Grouped(pieces[..k], order, byTid)
    ensures forall j :: 0 <= j < k ==> pieces[j].tid in byTid
  {
    forall j | 0 <= j < k ensures pieces[j].tid in byTid {
      assert pieces[..k][j].tid in order;
    }
  }

  lemma NothingGrouped(pieces: seq<Event>)
    requires pieces == []
    ensures Grouped(pieces, [], map[])
  {}

  /** One more event joins its torrent's group, or opens one. */
  lemma GroupNext(pieces: seq<Event>, k: nat, order: seq<int>, byTid: map<int, seq<Item>>)
    requires k < |pieces| && Grouped(pieces[..k], order, byTid)
    ensures var e := pieces[k];
            var order' := if e.tid in byTid then order else order + [e.tid];
            var so := if e.tid in byTid then byTid[e.tid] else [];
            Grouped(pieces[..k + 1], order', byTid[e.tid := so + [(e.index, e.plen)]])
  {
    hide ItemsOf;
    var e := pieces[k];
    forall tid ensures ItemsOf(pieces[..k + 1], tid)
                    == ItemsOf(pieces[..k], tid) + if e.tid == tid then [(e.index, e.plen)] else []
    {
      ItemsOfNext(pieces, k, tid);
    }
    var next := pieces[..k + 1];
    assert next == pieces[..k] + [e] && next[k].tid == e.tid;
    forall tid | tid in order ensures exists j :: 0 <= j < |next| && next[j].tid == tid {
      var j :| 0 <= j < |pieces[..k]| && pieces[..k][j].tid == tid;
      assert next[j].tid == tid;
    }
  }

  /** The first `k` torrents of the order are updated, the others untouched. */
  ghost predicate Progressed(before: Table, current: Table, pieces: seq<Event>, order: seq<int>, k: nat, now: int)
    requires k <= |order|
  {
    && current.Keys == before.Keys
    && forall tid | tid in before ::
         current[tid] == if tid in order[..k] then Applied(before[tid], ItemsOf(pieces, tid), now) else before[tid]
  }

  lemma Settled(before: Table, after: Table, pieces: seq<Event>, order: seq<int>, now: int)
    requires Progressed(before, after, pieces, order, |order|, now)
    requires forall tid :: tid in order <==> ItemsOf(pieces, tid) != []
    ensures after == BatchRows(before, pieces, now)
  {
    hide Applied;
    assert order[..|order|] == order;
    forall tid | tid in before && tid !in order
      ensures Applied(before[tid], ItemsOf(pieces, tid), now) == before[tid]
    {
      NothingApplied(before[tid], now);
    }
  }
}
