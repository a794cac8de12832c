/** The catalog's piece state (`crates/engine/src/catalog/pieces.rs`): a compact stored row
    per torrent, and the batch of piece-have events applied in one transaction. */
module PieceLog {
  import opened Wrappers
  import opened Bits
  import P = Possession

  datatype Phase = Stopped | Started | Checking | Failed

  /** A `bitfield` row: NULL bits are `None`. */
  datatype Stored = Stored(bits: Option<seq<byte>>, haveCount: nat)

  /** The columns of one torrent that piece events touch. A missing `bitfield` row is `None`. */
  datatype Row = Row(pieceCount: nat, complete: bool, stored: Option<Stored>, downloaded: nat,
                     finishedAt: Option<int>, phase: Phase)

  datatype Loaded = Loaded(complete: bool, bits: seq<byte>, haveCount: nat)

  type Item = (nat, nat) // piece index, piece length

  datatype Event = Event(tid: int, index: nat, plen: nat)

  /** `load_bitfield_state`: a complete torrent has every bit, NULL bits are none. */
  function Load(r: Row): Loaded {
    if r.complete then Loaded(true, AllSet(r.pieceCount), r.pieceCount)
    else if r.stored.None? then Loaded(false, Empty(r.pieceCount), 0)
    else Loaded(false, if r.stored.value.bits.None? then Empty(r.pieceCount) else r.stored.value.bits.value,
                r.stored.value.haveCount)
  }

  ghost function HaveOf(r: Row): set<nat> {
    Indices(Load(r).bits, r.pieceCount)
  }

  /** What a row stands for: a complete one all pieces, whatever is stored; any other the pieces
      of its stored bits, and none without a bitfield row or with NULL bits. */
  lemma LoadMeans(r: Row, i: nat)
    ensures Load(r).complete == r.complete
    ensures r.complete ==> (i in HaveOf(r) <==> i < r.pieceCount) && Load(r).haveCount == r.pieceCount
    ensures !r.complete && r.stored.None? ==> i !in HaveOf(r) && Load(r).haveCount == 0
    ensures !r.complete && r.stored.Some? ==> Load(r).haveCount == r.stored.value.haveCount
    ensures !r.complete && r.stored.Some? && r.stored.value.bits.None? ==> i !in HaveOf(r)
    ensures !r.complete && r.stored.Some? && r.stored.value.bits.Some? ==>
              (i in HaveOf(r) <==> i < r.pieceCount && Get(r.stored.value.bits.value, i))
  {
    hide Get;
  }

  /** The stored count is the number of set bits, and a row that is not complete lacks a piece. */
  ghost predicate Consistent(r: Row) {
    && |Load(r).bits| == SizeBytes(r.pieceCount)
    && Load(r).haveCount == |HaveOf(r)|
    && (!r.complete && r.pieceCount > 0 ==> |HaveOf(r)| < r.pieceCount)
  }

  // ---------------------------------------------------------------- one torrent's items

  /** What the inner loop carries. */
  datatype Tally = Tally(bits: seq<byte>, have: nat, down: nat, changed: bool)

  predicate Fresh(bits: seq<byte>, pc: nat, index: nat) {
    index < pc && !Get(bits, index)
  }

  function Count(t: Tally, pc: nat, item: Item): Tally {
    if Fresh(t.bits, pc, item.0) then Tally(Set(t.bits, item.0), t.have + 1, t.down + item.1, true) else t
  }

  function CountAll(t: Tally, pc: nat, items: seq<Item>): Tally
    decreases |items|
  {
    if items == [] then t else CountAll(Count(t, pc, items[0]), pc, items[1..])
  }

  /** The row written after a change. */
  function Written(r: Row, t: Tally, prevHave: nat, now: int): Row {
    if t.have >= r.pieceCount then
      r.(stored := Some(Stored(None, r.pieceCount)), downloaded := r.downloaded + t.down, complete := true,
         phase := Started, finishedAt := if r.finishedAt.Some? then r.finishedAt else Some(now))
    else
      r.(stored := Some(Stored(Some(t.bits), t.have)), downloaded := r.downloaded + t.down,
         phase := if prevHave == 0 then Started else r.phase)
  }

  function Begin(r: Row): Tally {
    Tally(Load(r).bits, Load(r).haveCount, 0, false)
  }

  /** One torrent's share of a batch. */
  function Applied(r: Row, items: seq<Item>, now: int): Row {
    if r.complete || r.pieceCount == 0 then r
    else
      var t := CountAll(Begin(r), r.pieceCount, items);
      if t.changed then Written(r, t, Load(r).haveCount, now) else r
  }

  /** One event after the other, each its own batch. */
  function Replayed(r: Row, items: seq<Item>, now: int): Row
    decreases |items|
  {
    if items == [] then r else Replayed(Applied(r, [items[0]], now), items[1..], now)
  }

  lemma {:induction false} CountAllAppend(t: Tally, pc: nat, a: seq<Item>, b: seq<Item>)
    ensures CountAll(t, pc, a + b) == CountAll(CountAll(t, pc, a), pc, b)
    decreases |a|
  {
    hide Count;
    if a == [] {
      assert a + b == b;
    } else {
      CountAllAppend(Count(t, pc, a[0]), pc, a[1..], b);
      assert (a + b)[1..] == a[1..] + b;
    }
  }

  /** The running totals do not influence which items count. */
  lemma {:induction false} CountAllShift(t: Tally, pc: nat, items: seq<Item>, down: nat, changed: bool)
    ensures var u := CountAll(Tally(t.bits, t.have, 0, false), pc, items);
            CountAll(Tally(t.bits, t.have, down, changed), pc, items)
            == Tally(u.bits, u.have, down + u.down, changed || u.changed)
    decreases |items|
  {
    hide Set, Fresh;
    if items != [] {
      var one := Count(Tally(t.bits, t.have, 0, false), pc, items[0]);
      CountAllShift(one, pc, items[1..], one.down, one.changed);
      var two := Count(Tally(t.bits, t.have, down, changed), pc, items[0]);
      CountAllShift(one, pc, items[1..], two.down, two.changed);
    }
  }

  /** The pieces among the items that the torrent has. */
  ghost function Listed(items: seq<Item>, pc: nat): set<nat> {
    set k | 0 <= k < |items| && items[k].0 < pc :: items[k].0
  }

  /** `u` is what counting the pieces `named` makes of `t`: bits are the union, the count
      follows the bits, and no change means nothing was new. */
  ghost predicate CountedTo(t: Tally, u: Tally, pc: nat, named: set<nat>) {
    && |u.bits| == SizeBytes(pc)
    && (forall i: nat :: Get(u.bits, i) <==> Get(t.bits, i) || i in named)
    && Indices(u.bits, pc) == Indices(t.bits, pc) + named
    && u.have == |Indices(u.bits, pc)| && u.have >= t.have
    && (u.changed <==> t.changed || !(named <= Indices(t.bits, pc)))
    && (u.changed ==> t.changed || u.have > t.have) && (!u.changed ==> u == t)
  }

  lemma CountedNothing(t: Tally, pc: nat)
    requires |t.bits| == SizeBytes(pc) && t.have == |Indices(t.bits, pc)|
    ensures CountedTo(t, t, pc, {})
  {
    hide Get, SizeBytes;
  }

  lemma CountedCompose(t: Tally, m: Tally, u: Tally, pc: nat, a: set<nat>, b: set<nat>)
    requires CountedTo(t, m, pc, a) && CountedTo(m, u, pc, b)
    ensures CountedTo(t, u, pc, b + a)
  {
    hide Get, SizeBytes, Indices;
  }

  lemma {:induction false} CountAllBits(t: Tally, pc: nat, items: seq<Item>)
    requires |t.bits| == SizeBytes(pc) && t.have == |Indices(t.bits, pc)|
    ensures CountedTo(t, CountAll(t, pc, items), pc, Listed(items, pc))
    decreases |items|
  {
    hide Get, Set, SizeBytes, CountedTo, Listed, Count, Indices;
    if items == [] {
      NothingListed(pc);
      CountedNothing(t, pc);
    } else {
      var one := if items[0].0 < pc then {items[0].0} else {};
      CountOne(t, pc, items[0]);
      CountedShape(t, Count(t, pc, items[0]), pc, one);
      ListedSplit(items, pc);
      CountAllBits(Count(t, pc, items[0]), pc, items[1..]);
      CountedCompose(t, Count(t, pc, items[0]), CountAll(t, pc, items), pc, one, Listed(items[1..], pc));
    }
  }

  lemma NothingListed(pc: nat)
    ensures Listed([], pc) == {}
  {}

  lemma CountedShape(t: Tally, u: Tally, pc: nat, named: set<nat>)
    requires CountedTo(t, u, pc, named)
    ensures |u.bits| == SizeBytes(pc) && u.have == |Indices(u.bits, pc)|
  {}

  lemma ListedSplit(items: seq<Item>, pc: nat)
    requires items != []
    ensures Listed(items, pc) == Listed(items[1..], pc) + if items[0].0 < pc then {items[0].0} else {}
  {
    assert items == [items[0]] + items[1..];
    forall i | i in Listed(items, pc)
      ensures i in Listed(items[1..], pc) + if items[0].0 < pc then {items[0].0} else {}
    {
      var k :| 0 <= k < |items| && items[k].0 < pc && items[k].0 == i;
      if k > 0 {
        assert items[1..][k - 1] == items[k];
      }
    }
  }

  lemma CountOne(t: Tally, pc: nat, item: Item)
    requires |t.bits| == SizeBytes(pc) && t.have == |Indices(t.bits, pc)|
    ensures CountedTo(t, Count(t, pc, item), pc, if item.0 < pc then {item.0} else {})
  {
    if Fresh(t.bits, pc, item.0) {
      SetIndices(t.bits, item.0, pc);
    }
    hide Set, SizeBytes;
    assert Get(t.bits, item.0) && item.0 < pc ==> item.0 in Indices(t.bits, pc);
  }

  lemma CountAllFull(t: Tally, pc: nat, items: seq<Item>)
    requires |t.bits| == SizeBytes(pc) && t.have == |Indices(t.bits, pc)| == pc && !t.changed
    ensures CountAll(t, pc, items) == t
  {
    hide Get;
    FullCount(t.bits, pc);
    CountAllBits(t, pc, items);
    assert Listed(items, pc) <= Range(pc);
  }

  /** Writing and loading back gives the tally's bits and count, and a consistent row. */
  lemma WrittenLoads(r: Row, t: Tally, now: int)
    requires !r.complete && r.pieceCount > 0 && |t.bits| == SizeBytes(r.pieceCount)
    requires t.have == |Indices(t.bits, r.pieceCount)|
    ensures var w := Written(r, t, Load(r).haveCount, now);
            && Consistent(w) && w.pieceCount == r.pieceCount
            && (w.complete <==> t.have == r.pieceCount)
            && Load(w).haveCount == t.have && HaveOf(w) == Indices(t.bits, r.pieceCount)
            && (!w.complete ==> Load(w).bits == t.bits)
  {
    hide Get, SizeBytes, Set;
    FullCount(t.bits, r.pieceCount);
    RangeSize(r.pieceCount);
  }

  lemma AppliedConsistent(r: Row, items: seq<Item>, now: int)
    requires Consistent(r)
    ensures var q := Applied(r, items, now);
            && Consistent(q) && q.pieceCount == r.pieceCount
            && HaveOf(q) == HaveOf(r) + Listed(items, r.pieceCount)
            && (r.complete ==> q == r)
  {
    hide Get, Set, SizeBytes, Written, Load;
    if !r.complete && r.pieceCount > 0 {
      CountAllBits(Begin(r), r.pieceCount, items);
      WrittenLoads(r, CountAll(Begin(r), r.pieceCount, items), now);
    } else {
      CompleteHasAll(r);
      assert Listed(items, r.pieceCount) <= Range(r.pieceCount);
    }
  }

  lemma CompleteHasAll(r: Row)
    requires r.complete || r.pieceCount == 0
    ensures HaveOf(r) == Range(r.pieceCount)
  {}

  lemma CountAllTidy(r: Row, items: seq<Item>)
    requires Consistent(r) && !r.complete && r.pieceCount > 0
    ensures var t := CountAll(Begin(r), r.pieceCount, items);
            && |t.bits| == SizeBytes(r.pieceCount) && t.have == |Indices(t.bits, r.pieceCount)|
            && (t.changed ==> t.have > 0) && (!t.changed ==> t == Begin(r))
  {
    hide Get, Set;
    CountAllBits(Begin(r), r.pieceCount, items);
  }

  /** One batch equals any split of it into two, for every row the engine keeps. */
  lemma SplitBatch(r: Row, a: seq<Item>, b: seq<Item>, now: int)
    requires Consistent(r)
    ensures Applied(r, a + b, now) == Applied(Applied(r, a, now), b, now)
  {
    var pc := r.pieceCount;
    if !r.complete && pc > 0 {
      var t := CountAll(Begin(r), pc, a);
      CountAllTidy(r, a);
      CountAllAppend(Begin(r), pc, a, b);
      if t.changed {
        SplitChanged(r, t, b, now);
      }
    }
  }

  lemma SplitChanged(r: Row, t: Tally, b: seq<Item>, now: int)
    requires Consistent(r) && !r.complete && r.pieceCount > 0
    requires |t.bits| == SizeBytes(r.pieceCount) && t.have == |Indices(t.bits, r.pieceCount)| > 0 && t.changed
    ensures Written(r, CountAll(t, r.pieceCount, b), Load(r).haveCount, now)
         == Applied(Written(r, t, Load(r).haveCount, now), b, now)
    ensures CountAll(t, r.pieceCount, b).changed
  {
    hide Get, Set, CountAll, Indices, SizeBytes;
    var pc := r.pieceCount;
    var w := Written(r, t, Load(r).haveCount, now);
    WrittenLoads(r, t, now);
    var start := Tally(t.bits, t.have, 0, false);
    CountAllShift(t, pc, b, t.down, t.changed);
    if t.have == pc {
      CountAllFull(start, pc, b);
    } else {
      assert Begin(w) == start;
      CountAllBits(start, pc, b);
      FullCount(CountAll(start, pc, b).bits, pc);
    }
  }

  /** The grouped update equals replaying its events one by one. */
  lemma {:induction false} BatchIsReplay(r: Row, items: seq<Item>, now: int)
    requires Consistent(r)
    ensures Applied(r, items, now) == Replayed(r, items, now)
    decreases |items|
  {
    hide Load, Begin, Written, Listed;
    if items == [] {
      NothingApplied(r, now);
    } else {
      assert items == [items[0]] + items[1..];
      SplitBatch(r, [items[0]], items[1..], now);
      AppliedConsistent(r, [items[0]], now);
      BatchIsReplay(Applied(r, [items[0]], now), items[1..], now);
    }
  }

  lemma NothingApplied(r: Row, now: int)
    ensures Applied(r, [], now) == r
  {}

  // ---------------------------------------------------------------- order does not matter

  /** Lengths are fixed by the index. */
  ghost predicate LengthsAre(items: seq<Item>, len: nat -> nat) {
    forall k :: 0 <= k < |items| ==> items[k].1 == len(items[k].0)
  }

  /** Total length of a set of pieces below `n`. */
  ghost function Weight(len: nat -> nat, s: set<nat>, n: nat): nat {
    if n == 0 then 0 else Weight(len, s, n - 1) + if n - 1 in s then len(n - 1) else 0
  }

  lemma {:induction false} WeightAdd(len: nat -> nat, s: set<nat>, i: nat, n: nat)
    requires i !in s
    ensures Weight(len, s + {i}, n) == Weight(len, s, n) + if i < n then len(i) else 0
  {
    if n > 0 {
      WeightAdd(len, s, i, n - 1);
    }
  }

  lemma {:induction false} CountAllWeight(t: Tally, pc: nat, items: seq<Item>, len: nat -> nat)
    requires |t.bits| == SizeBytes(pc) && t.have == |Indices(t.bits, pc)| && LengthsAre(items, len)
    ensures CountAll(t, pc, items).down + Weight(len, Indices(t.bits, pc), pc)
         == t.down + Weight(len, Indices(CountAll(t, pc, items).bits, pc), pc)
    decreases |items|
  {
    hide Get, Set, SizeBytes, Weight;
    if items != [] {
      CountOne(t, pc, items[0]);
      if Fresh(t.bits, pc, items[0].0) {
        WeightAdd(len, Indices(t.bits, pc), items[0].0, pc);
      }
      assert forall k :: 0 <= k < |items[1..]| ==> items[1..][k] == items[k + 1];
      CountAllWeight(Count(t, pc, items[0]), pc, items[1..], len);
    }
  }

  /** The row after a batch depends only on which pieces the batch names: reordering it,
      or repeating events, changes nothing. */
  lemma OrderIrrelevant(r: Row, a: seq<Item>, b: seq<Item>, len: nat -> nat, now: int)
    requires Consistent(r) && LengthsAre(a, len) && LengthsAre(b, len)
    requires Listed(a, r.pieceCount) == Listed(b, r.pieceCount)
    ensures Applied(r, a, now) == Applied(r, b, now)
  {
    hide Get, Set, SizeBytes, Weight, Listed;
    var pc := r.pieceCount;
    if !r.complete && pc > 0 {
      var t, u := CountAll(Begin(r), pc, a), CountAll(Begin(r), pc, b);
      CountAllBits(Begin(r), pc, a);
      CountAllBits(Begin(r), pc, b);
      Extensional(t.bits, u.bits);
      CountAllWeight(Begin(r), pc, a, len);
      CountAllWeight(Begin(r), pc, b, len);
    }
  }

  /** What a batch makes of the row, in closed form. */
  lemma ClosedForm(r: Row, items: seq<Item>, len: nat -> nat, now: int)
    requires Consistent(r) && LengthsAre(items, len)
    ensures var q := Applied(r, items, now);
            && HaveOf(q) == HaveOf(r) + Listed(items, r.pieceCount)
            && Load(q).haveCount == |HaveOf(q)|
            && q.downloaded + Weight(len, HaveOf(r), r.pieceCount)
               == r.downloaded + Weight(len, HaveOf(q), r.pieceCount)
            && (r.pieceCount > 0 ==> (q.complete <==> HaveOf(q) == Range(r.pieceCount)))
            && (q.finishedAt == if q.complete && !r.complete && r.finishedAt.None? then Some(now) else r.finishedAt)
            && (q.phase == if HaveOf(q) != HaveOf(r) && (q.complete || HaveOf(r) == {}) then Started else r.phase)
  {
    hide Get, Set, SizeBytes, Weight, Listed;
    AppliedConsistent(r, items, now);
    var q := Applied(r, items, now);
    FullCount(Load(q).bits, q.pieceCount);
    if !r.complete && r.pieceCount > 0 {
      CountAllTidy(r, items);
      CountAllWeight(Begin(r), r.pieceCount, items, len);
      WrittenLoads(r, CountAll(Begin(r), r.pieceCount, items), now);
    }
  }

  // ---------------------------------------------------------------- agreement with RAM

  /** The stored row reads back as the in-memory state. */
  ghost predicate Mirrors(r: Row, p: P.State) {
    && r.pieceCount == p.pieceCount
    && Load(r) == Loaded(p.complete, p.bitfield, p.haveCount)
  }

  lemma MirrorsOneGain(r: Row, p: P.State, index: nat, plen: nat, now: int)
    requires Mirrors(r, p) && P.Exact(p) && index < p.pieceCount && !p.complete && !Get(p.bitfield, index)
    ensures Mirrors(Applied(r, [(index, plen)], now), P.Gained(p, index))
    ensures Consistent(r)
  {
    hide Get, Set, AllSet, P.WantedExact, P.PayloadExact, P.ClaimsLive;
    FullCount(p.bitfield, p.pieceCount);
    assert [(index, plen)][1..] == [];
    assert CountAll(Begin(r), r.pieceCount, [(index, plen)]) == Count(Begin(r), r.pieceCount, (index, plen));
  }

  /** A run of `mark_have` calls that each set a new bit. */
  ghost function Gains(p: P.State, log: seq<Item>): P.State
    decreases |log|
  {
    if log == [] then p else Gains(P.Gained(p, log[0].0), log[1..])
  }

  ghost predicate EachNew(p: P.State, log: seq<Item>)
    decreases |log|
  {
    log == [] || (log[0].0 < p.pieceCount && !p.complete && !Get(p.bitfield, log[0].0)
                  && EachNew(P.Gained(p, log[0].0), log[1..]))
  }

  /** Replaying exactly the indices that were newly set in memory reproduces the in-memory
      bitfield, count and completeness, byte for byte. */
  lemma {:induction false} ReplayReproducesRam(r: Row, p: P.State, log: seq<Item>, now: int)
    requires Mirrors(r, p) && P.Exact(p) && EachNew(p, log) && Consistent(r)
    ensures Mirrors(Applied(r, log, now), Gains(p, log))
    decreases |log|
  {
    hide Mirrors, P.Gained, P.Exact, Get, Load, Begin, Written, Listed;
    if log == [] {
      NothingApplied(r, now);
    } else {
      P.GainedExact(p, log[0].0, P.Gained(p, log[0].0));
      MirrorsOneGain(r, p, log[0].0, log[0].1, now);
      AppliedConsistent(r, [log[0]], now);
      ReplayReproducesRam(Applied(r, [log[0]], now), P.Gained(p, log[0].0), log[1..], now);
      assert log == [log[0]] + log[1..];
      SplitBatch(r, [log[0]], log[1..], now);
    }
  }
}
