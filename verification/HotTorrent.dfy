/** What a hot torrent knows about its pieces, as a value: the bitfield, the wanted
    bitfield, the claims, and every counter cached over them
    (`crates/engine/src/hot.rs`, `hot/have.rs`, `hot/pieces.rs`). `Exact` says each cached
    counter agrees with the plain set it caches. */
module Possession {
  import opened Bits
  import opened Spans
  import opened Wanted
  import opened Progress

  datatype State = State(
    layout: StorageLayout, pieceCount: nat,
    bitfield: seq<byte>, complete: bool, haveCount: nat, haveCountAtomic: nat,
    filePriority: seq<int>, wantedBf: seq<byte>, downloadMissing: nat,
    completedPayload: nat, inFlight: set<nat>)
  {
    ghost function Have(): set<nat> {
      Indices(bitfield, pieceCount)
    }

    ghost function Wants(): set<nat> {
      Indices(wantedBf, pieceCount)
    }
  }

  /** The fields have the right shape; nothing yet about the counters. */
  ghost predicate Shape(p: State) {
    && WellFormed(p.layout) && p.layout.pieceCount == p.pieceCount
    && |p.bitfield| == SizeBytes(p.pieceCount) && |p.wantedBf| == SizeBytes(p.pieceCount)
    && |p.filePriority| <= |p.layout.files|
  }

  /** What the cache refreshes need: no more about the bitfield than that a complete torrent
      has every piece. */
  ghost predicate Loadable(p: State) {
    && WellFormed(p.layout) && p.layout.pieceCount == p.pieceCount
    && |p.wantedBf| == SizeBytes(p.pieceCount) && |p.filePriority| <= |p.layout.files|
    && (p.complete ==> p.Have() == Range(p.pieceCount))
  }

  /** Have count and mirror count the set bits; for a nonempty torrent `complete` holds
      exactly when all bits are set. */
  ghost predicate PossessionExact(p: State) {
    && p.haveCount == p.haveCountAtomic == |p.Have()|
    && (p.complete ==> p.Have() == Range(p.pieceCount))
    && (p.pieceCount > 0 && p.Have() == Range(p.pieceCount) ==> p.complete)
  }

  /** The wanted bitfield is the wanted set, and the missing counter counts the wanted
      pieces we lack. */
  ghost predicate WantedExact(p: State) {
    && p.Wants() == WantedSet(p.layout, p.filePriority)
    && p.downloadMissing == |p.Wants() - p.Have()|
  }

  ghost predicate PayloadExact(p: State) {
    p.completedPayload == Payload(p.layout, p.Have(), p.pieceCount)
  }

  /** Claims name real pieces, never one we have. */
  ghost predicate ClaimsLive(p: State) {
    p.inFlight <= Range(p.pieceCount) && p.inFlight !! p.Have()
  }

  ghost predicate Exact(p: State) {
    Shape(p) && PossessionExact(p) && WantedExact(p) && PayloadExact(p) && ClaimsLive(p)
  }

  /** `saturating_sub(1)`. */
  function Decr(n: nat): nat {
    if n == 0 then 0 else n - 1
  }

  /** The state after `mark_have` sets a piece that was not set. */
  ghost function Gained(p: State, index: nat): State {
    var full := p.haveCount + 1 >= p.pieceCount && p.pieceCount > 0;
    var wanted := index < p.pieceCount && Get(p.wantedBf, index);
    var missing := if wanted then Decr(p.downloadMissing) else p.downloadMissing;
    State(
      p.layout, p.pieceCount,
      if full then AllSet(p.pieceCount) else Set(p.bitfield, index),
      p.complete || full,
      if full then p.pieceCount else p.haveCount + 1,
      if full then p.pieceCount else p.haveCount + 1,
      p.filePriority, p.wantedBf,
      if full then 0 else missing,
      if full then p.layout.totalSize else p.completedPayload + PieceLen(p.layout, index),
      p.inFlight - {index})
  }

  /** Gaining a piece adds exactly it to the have set; the torrent is complete exactly
      when that was the last one. */
  lemma GainedSets(p: State, index: nat, q: State)
    requires Exact(p) && index < p.pieceCount && !p.complete && !Get(p.bitfield, index)
    requires q == Gained(p, index)
    ensures index !in p.Have()
    ensures q.Have() == p.Have() + {index}
    ensures q.Wants() == p.Wants()
    ensures q.complete <==> p.Have() + {index} == Range(p.pieceCount)
    ensures |p.Have() + {index}| == p.haveCount + 1 <= p.pieceCount == |Range(p.pieceCount)|
    ensures index in p.Wants() <==> Get(p.wantedBf, index)
  {
    hide Get, Indices, Range, Set, AllSet, WellFormed, WantedSet, Payload, PieceLen;
    BitsGained(p.bitfield, p.wantedBf, index, p.pieceCount);
  }

  lemma GainedMissing(p: State, index: nat, q: State)
    requires Exact(p) && index < p.pieceCount && !p.complete && !Get(p.bitfield, index)
    requires q == Gained(p, index)
    ensures q.downloadMissing == |p.Wants() - (p.Have() + {index})|
  {
    hide Exact, State.Have, State.Wants, Get, AllSet, Set, PieceLen;
    GainedSets(p, index, q);
    MissingIs(p);
    var have' := p.Have() + {index};
    if index in p.Wants() {
      MissingDrops(p.Wants(), p.Have(), index);
    } else {
      assert p.Wants() - have' == p.Wants() - p.Have();
    }
    if p.haveCount + 1 >= p.pieceCount {
      WantsInRange(p);
      assert p.Wants() - have' == {};
    }
  }

  lemma MissingIs(p: State)
    requires Exact(p)
    ensures p.downloadMissing == |p.Wants() - p.Have()|
  {
    hide Shape, PossessionExact, PayloadExact, ClaimsLive, State.Have, State.Wants;
  }

  lemma GainedPayload(p: State, index: nat, q: State)
    requires Exact(p) && index < p.pieceCount && !p.complete && !Get(p.bitfield, index)
    requires q == Gained(p, index)
    ensures q.completedPayload == Payload(p.layout, p.Have() + {index}, p.pieceCount)
  {
    hide Exact, State.Have, State.Wants, Get, AllSet, Set, PieceLen, Payload, Range, WellFormed;
    GainedSets(p, index, q);
    PayloadIs(p);
    PayloadAdd(p.layout, p.Have(), index, p.pieceCount);
    if p.haveCount + 1 >= p.pieceCount {
      PayloadFull(p.layout);
    }
  }

  lemma PayloadIs(p: State)
    requires Exact(p)
    ensures p.completedPayload == Payload(p.layout, p.Have(), p.pieceCount)
    ensures WellFormed(p.layout) && p.layout.pieceCount == p.pieceCount
  {
    hide PossessionExact, WantedExact, ClaimsLive, State.Have, State.Wants, Payload, WellFormed;
  }

  lemma GainedShape(p: State, index: nat, q: State)
    requires Exact(p) && index < p.pieceCount && !p.complete && !Get(p.bitfield, index)
    requires q == Gained(p, index)
    ensures Shape(q) && ClaimsLive(q)
  {
    hide Get, Indices, Range, Set, AllSet, WellFormed, WantedSet, Payload, PieceLen;
    GainedSets(p, index, q);
  }

  lemma GainedPossession(p: State, index: nat, q: State)
    requires Exact(p) && index < p.pieceCount && !p.complete && !Get(p.bitfield, index)
    requires q == Gained(p, index)
    ensures PossessionExact(q)
  {
    hide Get, Indices, Range, Set, AllSet, WellFormed, WantedSet, Payload, PieceLen;
    GainedSets(p, index, q);
  }

  lemma GainedWanted(p: State, index: nat, q: State)
    requires Exact(p) && index < p.pieceCount && !p.complete && !Get(p.bitfield, index)
    requires q == Gained(p, index)
    ensures WantedExact(q) && PayloadExact(q)
  {
    hide Get, Indices, Range, Set, AllSet, WellFormed, WantedSet, Payload, PieceLen;
    GainedSets(p, index, q);
    GainedMissing(p, index, q);
    GainedPayload(p, index, q);
  }

  /** Gaining a piece keeps every counter exact. */
  lemma GainedExact(p: State, index: nat, q: State)
    requires Exact(p) && index < p.pieceCount && !p.complete && !Get(p.bitfield, index)
    requires q == Gained(p, index)
    ensures Exact(q)
  {
    hide Gained, Shape, PossessionExact, WantedExact, PayloadExact, ClaimsLive;
    GainedShape(p, index, q);
    GainedPossession(p, index, q);
    GainedWanted(p, index, q);
  }

  /** Marking an index that is no piece miscounts, or makes the torrent complete without its
      pieces. */
  lemma StrayBreaks(p: State, index: nat, q: State)
    requires Exact(p) && index >= p.pieceCount && !p.complete && q == Gained(p, index)
    ensures !(Exact(q) && q.Have() <= p.Have() + {index})
  {
    hide Get, Range, WellFormed, WantedSet, Payload, PieceLen;
    if p.haveCount + 1 >= p.pieceCount && p.pieceCount > 0 {
      NotAllBut(p.Have(), index, p.pieceCount);
    } else {
      StrayBit(p.bitfield, index, p.pieceCount);
    }
  }

  lemma NotAllBut(have: set<nat>, index: nat, n: nat)
    requires have <= Range(n) && have != Range(n) && index >= n
    ensures !(Range(n) <= have + {index})
  {}

  lemma StrayBit(bits: seq<byte>, index: nat, n: nat)
    requires index >= n
    ensures Indices(Set(bits, index), n) == Indices(bits, n)
  {
    hide Get, Set;
  }

  lemma BitsGained(bits: seq<byte>, wanted: seq<byte>, index: nat, n: nat)
    requires index < n && |bits| == SizeBytes(n) && !Get(bits, index)
    ensures Indices(Set(bits, index), n) == Indices(bits, n) + {index} && index !in Indices(bits, n)
    ensures |Indices(Set(bits, index), n)| == |Indices(bits, n)| + 1 <= n
    ensures |Indices(Set(bits, index), n)| == n <==> Indices(Set(bits, index), n) == Range(n)
    ensures |Range(n)| == n && index in Range(n)
    ensures index in Indices(wanted, n) <==> Get(wanted, index)
  {
    hide Set, Range;
    SetIndices(bits, index, n);
    FullCount(Set(bits, index), n);
    RangeSize(n);
    assert index !in Indices(bits, n);
  }

  lemma BitsInRange(bits: seq<byte>, n: nat)
    ensures Indices(bits, n) <= Range(n)
  {
    hide Get, Range;
  }

  /** Dropping a claim keeps everything exact. */
  lemma ReleasedExact(p: State, index: nat)
    requires Exact(p)
    ensures Exact(p.(inFlight := p.inFlight - {index}))
  {}

  lemma WantsInRange(p: State)
    ensures p.Wants() <= Range(p.pieceCount)
  {
    BitsInRange(p.wantedBf, p.pieceCount);
  }

  lemma MissingDrops(wants: set<nat>, have: set<nat>, i: nat)
    requires i in wants && i !in have
    ensures |wants - (have + {i})| == |wants - have| - 1
  {
    assert wants - (have + {i}) == (wants - have) - {i};
  }

  /** A complete torrent lacks nothing it wants. */
  lemma CompleteLacksNothing(p: State)
    requires p.Have() == Range(p.pieceCount)
    ensures p.Wants() - p.Have() == {}
  {
    WantsInRange(p);
  }

  /** The caches answer what the sets say. */
  lemma CachesAnswer(p: State, index: nat)
    requires Exact(p)
    ensures index < p.pieceCount && (p.complete || Get(p.bitfield, index)) <==> index in p.Have()
    ensures index < p.pieceCount && Get(p.wantedBf, index) <==> index in p.Wants()
    ensures p.downloadMissing == 0 <==> p.Wants() <= p.Have()
  {
    hide Get, WellFormed, WantedSet, Payload;
    MissingNone(p.Wants(), p.Have());
    RangeSize(p.pieceCount);
  }

  lemma MissingNone(wants: set<nat>, have: set<nat>)
    ensures |wants - have| == 0 <==> wants <= have
  {
    if |wants - have| == 0 {
      assert forall i :: i in wants && i !in have ==> i in wants - have;
    }
    assert wants <= have ==> wants - have == {};
  }

  /** A state with a matching bitfield and count, before the caches are computed. */
  lemma Starts(p: State)
    requires WellFormed(p.layout) && p.layout.pieceCount == p.pieceCount
    requires |p.bitfield| == SizeBytes(p.pieceCount) && p.wantedBf == Empty(p.pieceCount)
    requires |p.filePriority| == |p.layout.files| && p.inFlight == {}
    requires p.haveCount == p.haveCountAtomic
    requires p.complete ==> p.bitfield == AllSet(p.pieceCount) && p.haveCount == p.pieceCount
    requires !p.complete ==> p.haveCount == |p.Have()|
    requires !p.complete && p.pieceCount > 0 ==> p.Have() != Range(p.pieceCount)
    ensures Shape(p) && PossessionExact(p) && ClaimsLive(p)
    ensures p.complete ==> p.Have() == Range(p.pieceCount)
  {
    hide Get, Indices, WellFormed, WantedSet, Range;
    RangeSize(p.pieceCount);
  }

  lemma ShapeLoads(p: State)
    requires Shape(p) && PossessionExact(p)
    ensures Loadable(p)
  {
    hide Get, Indices, WellFormed, Range;
  }

  /** A state fresh from a catalog row is sound exactly if the row's bits and count are. */
  lemma LoadedExact(p: State)
    requires Loadable(p) && WantedExact(p) && PayloadExact(p) && p.inFlight == {} && p.haveCount == p.haveCountAtomic
    requires p.complete ==> p.bitfield == AllSet(p.pieceCount) && p.haveCount == p.pieceCount
    ensures Exact(p) <==> p.complete || (|p.bitfield| == SizeBytes(p.pieceCount) && p.haveCount == |p.Have()|
                                         && (p.pieceCount > 0 ==> p.Have() != Range(p.pieceCount)))
  {
    hide Get, Indices, WellFormed, WantedSet, Range, Payload, WantedExact, PayloadExact;
    RangeSize(p.pieceCount);
  }

  lemma EmptyIsNotAll(n: nat)
    ensures n > 0 ==> Range(n) != {}
  {
    assert n > 0 ==> n - 1 in Range(n);
  }

  /** A recomputed wanted bitfield with its missing count. */
  lemma RebuiltExact(p: State, wanted: seq<byte>, n: nat)
    requires Loadable(p) && |wanted| == SizeBytes(p.pieceCount)
    requires Indices(wanted, p.pieceCount) == WantedSet(p.layout, p.filePriority)
    requires n == |Indices(wanted, p.pieceCount) - p.Have()|
    ensures var q := p.(wantedBf := wanted, downloadMissing := n);
            Loadable(q) && WantedExact(q) && q.Have() == p.Have()
            && (Shape(p) ==> Shape(q)) && (PossessionExact(p) ==> PossessionExact(q))
            && (ClaimsLive(p) ==> ClaimsLive(q)) && (PayloadExact(p) ==> PayloadExact(q))
  {
    hide Get, Indices, WellFormed, WantedSet, Range, Payload;
  }

  /** New priorities leave everything but the wanted caches exact. */
  lemma Reprioritized(p: State, prios: seq<int>)
    requires Exact(p) && |prios| <= |p.layout.files|
    ensures var q := p.(filePriority := prios);
            Shape(q) && PossessionExact(q) && ClaimsLive(q) && PayloadExact(q) && q.Have() == p.Have()
  {
    hide Get, Indices, WellFormed, WantedSet, Range, Payload;
  }

  lemma MissingNothing(wanted: seq<byte>, have: seq<byte>)
    ensures |Indices(wanted, 0) - Indices(have, 0)| == 0
  {
    assert Indices(wanted, 0) == {};
  }

  lemma MissingNext(wanted: seq<byte>, have: seq<byte>, i: nat)
    ensures |Indices(wanted, i + 1) - Indices(have, i + 1)|
         == |Indices(wanted, i) - Indices(have, i)| + if Get(wanted, i) && !Get(have, i) then 1 else 0
  {
    hide Get;
    var before := Indices(wanted, i) - Indices(have, i);
    var after := Indices(wanted, i + 1) - Indices(have, i + 1);
    if Get(wanted, i) && !Get(have, i) {
      assert after == before + {i};
    } else {
      assert after == before;
    }
  }

  lemma PayloadNone(l: StorageLayout, have: set<nat>)
    ensures Payload(l, have, 0) == 0
  {}

  lemma PayloadNext(l: StorageLayout, bits: seq<byte>, n: nat, i: nat)
    requires i < n && n == l.pieceCount
    ensures Payload(l, Indices(bits, n), i + 1)
         == Payload(l, Indices(bits, n), i) + if Get(bits, i) then PieceLen(l, i) else 0
  {
    hide Get, PieceLen;
  }
}

/** The in-memory aggregate of an active torrent. Each method is one atomic step. */
module HotTorrents {
  import opened Wrappers
  import opened Sequences
  import opened Bits
  import opened Spans
  import opened Wanted
  import opened Progress
  import opened Picking
  import P = Possession

  const ENDGAME_MAX_MISSING: nat := 8
  const U16_MAX: nat := 0xffff

  class HotTorrent {
    const pieceCount: nat
    var layout: StorageLayout
    var pieceHashes: seq<byte>
    // PieceState
    var bitfield: seq<byte>
    var complete: bool
    var haveCount: nat
    // live settings and caches
    var filePriority: seq<int>
    var wantedBf: seq<byte>
    var downloadMissing: nat
    var haveCountAtomic: nat
    var completedPayload: nat
    var inFlight: set<nat>
    var availability: seq<nat>
    var stagingPool: bool
    /** Indices handed to the HAVE hub, oldest first. */
    var published: seq<nat>

    ghost function View(): P.State
      reads this
    {
      P.State(layout, pieceCount, bitfield, complete, haveCount, haveCountAtomic, filePriority, wantedBf,
              downloadMissing, completedPayload, inFlight)
    }

    ghost function Have(): set<nat>
      reads this
    {
      View().Have()
    }

    ghost function Wants(): set<nat>
      reads this
    {
      View().Wants()
    }

    ghost predicate Valid()
      reads this
    {
      P.Exact(View()) && |availability| == pieceCount
    }

    // -------------------------------------------------------------- construction

    /** `new_complete`: a seeder. */
    constructor NewComplete(l: StorageLayout, hashes: seq<byte>)
      requires WellFormed(l)
      ensures Valid() && fresh(this)
      ensures layout == l && pieceCount == l.pieceCount && complete
      ensures Have() == Range(l.pieceCount) && inFlight == {} && published == []
    {
      hide Get, WellFormed, Range, Set, AllSet, Empty,
           P.Shape, P.PossessionExact, P.WantedExact, P.PayloadExact, P.ClaimsLive;
      pieceCount := l.pieceCount;
      layout := l;
      pieceHashes := if |hashes| == l.pieceCount * 20 then hashes else [];
      bitfield := AllSet(l.pieceCount);
      complete := true;
      haveCount := l.pieceCount;
      filePriority := seq(|l.files|, i requires 0 <= i < |l.files| => l.files[i].priority);
      wantedBf := Empty(l.pieceCount);
      downloadMissing := 0;
      haveCountAtomic := l.pieceCount;
      completedPayload := 0;
      inFlight := {};
      availability := seq(l.pieceCount, _ => 0);
      stagingPool := false;
      published := [];
      new;
      P.EmptyIsNotAll(pieceCount);
      P.Starts(View());
      FinishNew();
    }

    /** `new_empty`: a leecher with nothing. */
    constructor NewEmpty(l: StorageLayout, hashes: seq<byte>)
      requires WellFormed(l)
      ensures Valid() && fresh(this)
      ensures layout == l && pieceCount == l.pieceCount && !complete
      ensures Have() == {} && inFlight == {} && published == []
    {
      hide Get, WellFormed, Range, Set, AllSet, Empty,
           P.Shape, P.PossessionExact, P.WantedExact, P.PayloadExact, P.ClaimsLive;
      pieceCount := l.pieceCount;
      layout := l;
      pieceHashes := hashes;
      bitfield := Empty(l.pieceCount);
      complete := false;
      haveCount := 0;
      filePriority := seq(|l.files|, i requires 0 <= i < |l.files| => l.files[i].priority);
      wantedBf := Empty(l.pieceCount);
      downloadMissing := 0;
      haveCountAtomic := 0;
      completedPayload := 0;
      inFlight := {};
      availability := seq(l.pieceCount, _ => 0);
      stagingPool := false;
      published := [];
      new;
      P.EmptyIsNotAll(pieceCount);
      P.Starts(View());
      FinishNew();
    }

    /** The aggregate `load_from_catalog` builds from a catalog row, whatever the row holds. It
        is valid exactly if the stored bits have the right length, are counted by the stored
        count, and are not all set. */
    constructor FromCatalog(l: StorageLayout, hashes: seq<byte>, rowComplete: bool, bits: seq<byte>, have: nat)
      requires WellFormed(l)
      ensures fresh(this) && layout == l && pieceCount == l.pieceCount && complete == rowComplete
      ensures inFlight == {} && published == []
      ensures haveCount == if rowComplete then l.pieceCount else have
      ensures bitfield == if rowComplete then AllSet(l.pieceCount) else if bits == [] then Empty(l.pieceCount) else bits
      ensures P.WantedExact(View()) && P.PayloadExact(View())
      ensures Valid() <==> rowComplete || (|bitfield| == SizeBytes(pieceCount) && have == |Have()|
                                           && (pieceCount > 0 ==> Have() != Range(pieceCount)))
    {
      hide Get, WellFormed, Range, Set, AllSet, Empty, Indices,
           P.Shape, P.Exact, P.PossessionExact, P.WantedExact, P.PayloadExact, P.ClaimsLive;
      pieceCount := l.pieceCount;
      layout := l;
      pieceHashes := if rowComplete then [] else hashes;
      bitfield := if rowComplete then AllSet(l.pieceCount) else if bits == [] then Empty(l.pieceCount) else bits;
      complete := rowComplete;
      haveCount := if rowComplete then l.pieceCount else have;
      filePriority := seq(|l.files|, i requires 0 <= i < |l.files| => l.files[i].priority);
      wantedBf := Empty(l.pieceCount);
      downloadMissing := 0;
      haveCountAtomic := if rowComplete then l.pieceCount else have;
      completedPayload := 0;
      inFlight := {};
      availability := seq(l.pieceCount, _ => 0);
      stagingPool := false;
      published := [];
      new;
      RefreshCaches();
      P.LoadedExact(View());
    }

    /** `finish_new` of a torrent whose bitfield and counts agree. */
    method FinishNew()
      requires P.Shape(View()) && P.PossessionExact(View()) && P.ClaimsLive(View())
      requires |availability| == pieceCount
      modifies this`wantedBf, this`downloadMissing, this`completedPayload
      ensures Valid()
    {
      hide P.Shape, P.PossessionExact, P.WantedExact, P.PayloadExact, P.ClaimsLive, P.Loadable;
      P.ShapeLoads(View());
      RefreshCaches();
    }

    /** `finish_new`: both caches, from any bitfield. */
    method RefreshCaches()
      requires P.Loadable(View())
      modifies this`wantedBf, this`downloadMissing, this`completedPayload
      ensures P.Loadable(View()) && P.WantedExact(View()) && P.PayloadExact(View())
      ensures P.Shape(old(View())) ==> P.Shape(View())
      ensures P.PossessionExact(old(View())) ==> P.PossessionExact(View())
      ensures P.ClaimsLive(old(View())) ==> P.ClaimsLive(View())
    {
      hide P.Shape, P.PossessionExact, P.WantedExact, P.PayloadExact, P.ClaimsLive, P.Loadable;
      RebuildWantedAndMissing();
      RecountCompletedPayload();
    }

    // -------------------------------------------------------------- reading

    predicate HasPiece(index: nat)
      reads this
    {
      index < pieceCount && (complete || Get(bitfield, index))
    }

    predicate WantsPiece(index: nat)
      reads this
    {
      index < pieceCount && Get(wantedBf, index)
    }

    predicate IsDownloadComplete()
      reads this
    {
      downloadMissing == 0
    }

    /** `has_piece`, `wants_piece` and `is_download_complete` answer from the caches what
        the sets say. */
    lemma CachesAnswer(index: nat)
      requires Valid()
      ensures HasPiece(index) <==> index in Have()
      ensures WantsPiece(index) <==> index in Wants()
      ensures IsDownloadComplete() <==> Wants() <= Have()
    {
      P.CachesAnswer(View(), index);
    }

    /** `next_interest_piece`: the first wanted piece we lack that the peer has. */
    method NextInterestPiece(peerHas: nat -> bool) returns (r: Option<nat>)
      requires Valid()
      ensures r.Some? ==> r.value in Wants() - Have() && peerHas(r.value)
                          && forall j :: j in Wants() - Have() && peerHas(j) ==> r.value <= j
      ensures r.None? ==> forall j :: j in Wants() - Have() ==> !peerHas(j)
    {
      hide Get, Valid, P.Exact, P.State.Have, P.State.Wants;
      ghost var lacking := Wants() - Have();
      ScanFacts();
      CachesAnswer(0);
      if IsDownloadComplete() {
        return None;
      }
      if complete {
        return None;
      }
      var i := 0;
      while i < pieceCount
        invariant i <= pieceCount
        invariant forall j :: j in lacking && j < i ==> !peerHas(j)
      {
        CachesAnswer(i);
        if Get(wantedBf, i) && !Get(bitfield, i) && peerHas(i) {
          return Some(i);
        }
        i := i + 1;
      }
      return None;
    }

    lemma ScanFacts()
      requires Valid()
      ensures complete ==> Wants() - Have() == {}
      ensures forall i :: i in Wants() - Have() ==> i < pieceCount
    {
      hide Get, Indices, WellFormed, WantedSet, Payload;
      P.WantsInRange(View());
      if complete {
        P.CompleteLacksNothing(View());
      }
    }

    /** `should_endgame`: never while some wanted piece could be claimed exclusively and
        more than a handful are missing. */
    method ShouldEndgame() returns (r: bool)
      requires Valid()
      ensures r <==> Wants() - Have() != {} &&
                       (|Wants() - Have()| <= 8 || |inFlight| >= |Wants() - Have()|)
      ensures !r && Wants() - Have() != {} ==> (Wants() - Have()) - inFlight != {}
    {
      hide Get, Indices, WellFormed, WantedSet, Payload;
      var missing := downloadMissing;
      if missing == 0 {
        return false;
      }
      if missing <= ENDGAME_MAX_MISSING {
        return true;
      }
      var claimed := |inFlight|;
      P.MissingNone(Wants() - Have(), inFlight);
      if (Wants() - Have()) - inFlight == {} {
        SubsetSize(Wants() - Have(), inFlight);
      }
      return claimed >= missing;
    }

    /** `left_bytes`: what is completed and what is left make up the torrent. */
    method LeftBytes() returns (left: nat)
      requires Valid()
      ensures left + completedPayload == layout.totalSize
      ensures left == Payload(layout, Range(pieceCount) - Have(), pieceCount)
    {
      hide Get, Indices, WellFormed, WantedSet, Payload;
      ProgressConserved(layout, Have());
      left := Max(layout.totalSize - completedPayload, 0);
    }

    /** `bitfield_snapshot`. */
    method BitfieldSnapshot() returns (bits: seq<byte>)
      requires Valid()
      ensures |bits| == SizeBytes(pieceCount) && Indices(bits, pieceCount) == Have()
    {
      hide Get, Indices, WellFormed, WantedSet, Payload;
      bits := if complete then AllSet(pieceCount) else bitfield;
    }

    // -------------------------------------------------------------- possession

    /** `mark_have`. On a piece we lacked: the set gains it, all counters follow, and it
        is published once. On a piece we had: only a stale claim could go. Past the last piece
        the count goes up without a piece: the counters stay exact, for the set that gained no
        more than the index, exactly if the index is a piece or nothing was left to set. */
    method MarkHave(index: nat) returns (fully: bool)
      requires Valid()
      modifies this
      ensures index < pieceCount ==> Valid() && Have() == old(Have()) + {index} && Wants() == old(Wants())
      ensures (Valid() && Have() <= old(Have()) + {index})
         <==> index < pieceCount || old(complete) || Get(old(bitfield), index)
      ensures inFlight == old(inFlight) - {index}
      ensures published == old(published) + if old(complete) || Get(old(bitfield), index) then [] else [index]
      ensures index < pieceCount ==> (old(complete) || Get(old(bitfield), index) <==> index in old(Have()))
      ensures fully == complete
      ensures published != old(published) ==> pieceHashes == if complete then [] else old(pieceHashes)
      ensures published != old(published) ==> (stagingPool <==> old(stagingPool) && downloadMissing != 0)
      ensures index < pieceCount ==> (downloadMissing == 0 <==> Wants() <= Have())
      ensures published == old(published) ==> pieceHashes == old(pieceHashes) && stagingPool == old(stagingPool)
      ensures layout == old(layout) && filePriority == old(filePriority) && availability == old(availability)
    {
      hide Get, P.Exact, P.State.Have, P.State.Wants, PieceLen, P.Gained;
      ghost var before := View();
      ClaimDropped(index);
      CachesAnswer(index);
      inFlight := inFlight - {index};
      if complete || Get(bitfield, index) {
        CachesAnswer(0);
        return complete;
      }
      fully := MarkNew(before, index);
      if index < pieceCount {
        P.GainedExact(before, index, View());
        P.GainedSets(before, index, View());
        CachesAnswer(0);
      } else {
        P.StrayBreaks(before, index, View());
      }
    }

    lemma ClaimDropped(index: nat)
      requires Valid()
      ensures P.Exact(View()) && P.Exact(View().(inFlight := inFlight - {index})) && |availability| == pieceCount
      ensures index in Have() ==> Have() + {index} == Have()
      ensures View().(inFlight := inFlight - {index}).Have() == Have()
      ensures View().(inFlight := inFlight - {index}).Wants() == Wants()
    {
      hide P.Exact, Indices, Get;
      P.ReleasedExact(View(), index);
    }

    /** `mark_have` on an index whose bit is not set, its claim already dropped. */
    method MarkNew(ghost before: P.State, index: nat) returns (fully: bool)
      requires View() == before.(inFlight := before.inFlight - {index}) && !complete
      modifies this`published, this`pieceHashes, this`stagingPool, this`bitfield, this`complete, this`haveCount,
               this`haveCountAtomic, this`completedPayload, this`downloadMissing
      ensures View() == P.Gained(before, index) && fully == complete
      ensures published == old(published) + [index] && pieceHashes == if complete then [] else old(pieceHashes)
      ensures stagingPool <==> old(stagingPool) && downloadMissing != 0
    {
      hide Get, PieceLen, P.Gained;
      var wanted := WantsPiece(index);
      var plen := PieceLen(layout, index);
      fully := SetPiece(before, index, wanted, plen);
      Announce(index, fully);
    }

    /** The part of `mark_have` after the piece lock is released. */
    method Announce(index: nat, fully: bool)
      modifies this`published, this`pieceHashes, this`stagingPool
      ensures published == old(published) + [index]
      ensures pieceHashes == if fully then [] else old(pieceHashes)
      ensures stagingPool <==> old(stagingPool) && downloadMissing != 0
    {
      published := published + [index];
      if fully {
        pieceHashes := [];
      }
      if IsDownloadComplete() {
        stagingPool := false;
      }
    }

    /** The part of `mark_have` done under the piece lock. */
    method SetPiece(ghost before: P.State, index: nat, wanted: bool, plen: nat) returns (fully: bool)
      requires wanted == WantsPiece(index) && plen == PieceLen(layout, index)
      requires View() == before.(inFlight := before.inFlight - {index})
      modifies this`bitfield, this`complete, this`haveCount, this`haveCountAtomic, this`completedPayload,
               this`downloadMissing
      ensures View() == P.Gained(before, index)
      ensures complete == (before.complete || fully)
    {
      hide Get, Set, AllSet, PieceLen;
      bitfield := Set(bitfield, index);
      haveCount := haveCount + 1;
      haveCountAtomic := haveCount;
      completedPayload := completedPayload + plen;
      if wanted {
        downloadMissing := P.Decr(downloadMissing);
      }
      fully := haveCount >= pieceCount && pieceCount > 0;
      if fully {
        complete := true;
        bitfield := AllSet(pieceCount);
        haveCount := pieceCount;
        haveCountAtomic := pieceCount;
        downloadMissing := 0;
        completedPayload := layout.totalSize;
      }
    }

    /** `recount_completed_payload`. */
    method RecountCompletedPayload()
      requires P.Loadable(View())
      modifies this`completedPayload
      ensures P.Loadable(View()) && P.PayloadExact(View())
      ensures P.WantedExact(old(View())) ==> P.WantedExact(View())
      ensures P.Shape(old(View())) ==> P.Shape(View())
      ensures P.PossessionExact(old(View())) ==> P.PossessionExact(View())
      ensures P.ClaimsLive(old(View())) ==> P.ClaimsLive(View())
    {
      hide Get, Indices, WellFormed, WantedSet, Range, Payload;
      completedPayload := 0;
      if complete {
        completedPayload := layout.totalSize;
        PayloadFull(layout);
        return;
      }
      var n := 0;
      var i := 0;
      P.PayloadNone(layout, Have());
      while i < pieceCount
        invariant i <= pieceCount
        invariant n == Payload(layout, Have(), i)
      {
        P.PayloadNext(layout, bitfield, pieceCount, i);
        if Get(bitfield, i) {
          n := n + PieceLen(layout, i);
        }
        i := i + 1;
      }
      completedPayload := n;
    }

    // -------------------------------------------------------------- wanted set

    /** `rebuild_wanted_and_missing`: a pure cache refresh. */
    method RebuildWantedAndMissing()
      requires P.Loadable(View())
      modifies this`wantedBf, this`downloadMissing
      ensures P.Loadable(View()) && P.WantedExact(View())
      ensures P.Shape(old(View())) ==> P.Shape(View())
      ensures P.PossessionExact(old(View())) ==> P.PossessionExact(View())
      ensures P.ClaimsLive(old(View())) ==> P.ClaimsLive(View())
      ensures P.PayloadExact(old(View())) ==> P.PayloadExact(View())
      ensures forall i: nat :: i < pieceCount ==>
                (i in Wants() <==> HasWantedByte(layout, filePriority, i))
    {
      assert WellFormed(layout) && layout.pieceCount == pieceCount && (complete ==> Have() == Range(pieceCount));
      hide P.Loadable, Range, Get, Indices, WellFormed, WantedSet, P.Shape, P.PossessionExact, P.WantedExact,
           P.ClaimsLive, P.PayloadExact, HasWantedByte;
      var wanted := BuildWantedBitfield(layout, filePriority);
      ghost var before := View();
      if complete {
        P.CompleteLacksNothing(before.(wantedBf := wanted));
        P.RebuiltExact(before, wanted, 0);
        wantedBf := wanted;
        downloadMissing := 0;
        WantsByBytes();
        return;
      }
      var n := CountMissing(wanted);
      P.RebuiltExact(before, wanted, n);
      wantedBf := wanted;
      downloadMissing := n;
      WantsByBytes();
    }

    /** In other words: a piece is wanted exactly if some byte of it lies in a wanted file. */
    lemma WantsByBytes()
      requires P.WantedExact(View()) && layout.pieceCount == pieceCount
      ensures forall i: nat :: i < pieceCount ==>
                (i in Wants() <==> HasWantedByte(layout, filePriority, i))
    {
      hide P.State.Have, P.State.Wants, WantedSet, HasWantedByte;
      AllWantedByBytes(layout, filePriority);
    }

    /** The counting loop of `rebuild_wanted_and_missing`. */
    method CountMissing(wanted: seq<byte>) returns (n: nat)
      ensures n == |Indices(wanted, pieceCount) - Have()|
    {
      hide Get, Indices;
      n := 0;
      var i := 0;
      P.MissingNothing(wanted, bitfield);
      while i < pieceCount
        invariant i <= pieceCount
        invariant n == |Indices(wanted, i) - Indices(bitfield, i)|
      {
        P.MissingNext(wanted, bitfield, i);
        if Get(wanted, i) && !Get(bitfield, i) {
          n := n + 1;
        }
        i := i + 1;
      }
    }

    /** `set_file_priority`: an unknown file changes nothing but the cache refresh. */
    method SetFilePriority(fileIdx: nat, priority: int)
      requires Valid()
      modifies this
      ensures Valid()
      ensures filePriority == WithPriority(old(filePriority), |layout.files|, fileIdx, priority)
      ensures forall k :: 0 <= k < |filePriority| ==>
                filePriority[k] == if k == fileIdx then priority
                                   else if k < |old(filePriority)| then old(filePriority)[k] else 1
      ensures stagingPool <==> !(Wants() <= Have())
      ensures Have() == old(Have()) && complete == old(complete) && inFlight == old(inFlight)
      ensures published == old(published) && layout == old(layout) && availability == old(availability)
      ensures pieceHashes == old(pieceHashes)
      ensures fileIdx < |layout.files| && priority <= 0 ==>
                forall i: nat :: i < pieceCount && LiesIn(layout, i, fileIdx) ==> i !in Wants()
      ensures fileIdx < |layout.files| && priority > 0 ==>
                forall i: nat, t: nat ::
                  i < pieceCount && PieceStart(layout, i) <= t < PieceEnd(layout, i) && layout.files[fileIdx].Covers(t)
                  ==> i in Wants()
    {
      hide Get, Valid, P.Exact, P.Shape, P.PossessionExact, P.WantedExact, P.ClaimsLive, P.PayloadExact,
           P.State.Have, P.State.Wants, PieceStart, PieceEnd, FileLayout.Covers, LiesIn;
      ghost var before := View();
      PrioritiesFit();
      P.Reprioritized(before, WithPriority(filePriority, |layout.files|, fileIdx, priority));
      if fileIdx < |filePriority| {
        filePriority := filePriority[fileIdx := priority];
      } else if fileIdx < |layout.files| {
        filePriority := filePriority + seq(|layout.files| - |filePriority|, _ => 1);
        filePriority := filePriority[fileIdx := priority];
      }
      RefreshAfterPriorities();
      if fileIdx < |layout.files| {
        PriorityReaches(fileIdx, priority);
      }
    }

    /** The priority set for a file decides about the pieces inside it, and a positive one about
        all it meets. */
    lemma PriorityReaches(f: nat, priority: int)
      requires Valid() && f < |layout.files| && f < |filePriority| && filePriority[f] == priority
      ensures priority <= 0 ==> forall i: nat :: i < pieceCount && LiesIn(layout, i, f) ==> i !in Wants()
      ensures priority > 0 ==>
                forall i: nat, t: nat ::
                  i < pieceCount && PieceStart(layout, i) <= t < PieceEnd(layout, i) && layout.files[f].Covers(t)
                  ==> i in Wants()
    {
      WantsAre();
      hide Valid, P.State.Wants, PieceStart, PieceEnd, FileLayout.Covers, WellFormed, WantedSet;
      forall i: nat | i < pieceCount && LiesIn(layout, i, f) && priority <= 0 ensures i !in Wants() {
        WantedInside(layout, filePriority, i, f);
      }
      forall i: nat, t: nat | i < pieceCount && PieceStart(layout, i) <= t < PieceEnd(layout, i)
                              && layout.files[f].Covers(t) && priority > 0
        ensures i in Wants()
      {
        WantedMeeting(layout, filePriority, i, f, t);
      }
    }

    lemma WantsAre()
      requires Valid()
      ensures Wants() == WantedSet(layout, filePriority) && WellFormed(layout) && layout.pieceCount == pieceCount
    {}

    lemma PrioritiesFit()
      requires Valid()
      ensures P.Exact(View()) && |filePriority| <= |layout.files| && |availability| == pieceCount
    {}

    /** The rest of `set_file_priority`: refresh the caches and settle the staging slot. */
    method RefreshAfterPriorities()
      requires P.Shape(View()) && P.PossessionExact(View()) && P.ClaimsLive(View()) && P.PayloadExact(View())
      requires |availability| == pieceCount
      modifies this`wantedBf, this`downloadMissing, this`stagingPool
      ensures Valid() && Have() == old(Have())
      ensures stagingPool <==> !(Wants() <= Have())
    {
      hide Get, P.Shape, P.PossessionExact, P.WantedExact, P.ClaimsLive, P.PayloadExact, Indices, P.Loadable;
      P.ShapeLoads(View());
      RebuildWantedAndMissing();
      CachesAnswer(0);
      stagingPool := !IsDownloadComplete();
    }

    // -------------------------------------------------------------- claims

    /** `try_claim_piece`: exclusive outside endgame, shared in it, never on a piece we have. */
    method TryClaimPiece(index: nat, endgame: bool) returns (r: bool)
      requires Valid()
      modifies this`inFlight
      ensures Valid()
      ensures r <==> index < pieceCount && index !in Have() && (endgame || index !in old(inFlight))
      ensures inFlight == if index < pieceCount && index !in Have() then old(inFlight) + {index} else old(inFlight)
    {
      hide Get, Indices, WellFormed, WantedSet, Payload;
      CachesAnswer(index);
      if index >= pieceCount || HasPiece(index) {
        return false;
      }
      if endgame {
        inFlight := inFlight + {index};
        return true;
      }
      r := index !in inFlight;
      inFlight := inFlight + {index};
    }

    /** `release_piece_claim`. */
    method ReleasePieceClaim(index: nat)
      requires Valid()
      modifies this`inFlight
      ensures Valid() && inFlight == old(inFlight) - {index}
    {
      hide Get, Indices, WellFormed, WantedSet, Payload;
      inFlight := inFlight - {index};
    }

    // -------------------------------------------------------------- picking

    ghost function Snap(): Snapshot
      reads this
    {
      Snapshot(pieceCount, complete, haveCount, if complete then [] else bitfield, wantedBf, availability,
               if complete then 0 else downloadMissing, inFlight)
    }

    /** In a valid state the eligible pieces are wanted and lacked, so their number is at
        most the missing counter. */
    lemma EligibleAreMissing(q: Request)
      requires Valid()
      ensures EligibleSet(Snap(), q) <= Wants() - Have()
      ensures |EligibleSet(Snap(), q)| <= Snap().missing
    {
      if complete {
        assert EligibleSet(Snap(), q) == {};
      } else {
        forall i | i in EligibleSet(Snap(), q) ensures i in Wants() - Have() {
          assert Eligible(Snap(), q, i);
        }
        SubsetSize(EligibleSet(Snap(), q), Wants() - Have());
      }
    }

    /** An eligible piece is one `try_claim_piece` grants in this state. */
    lemma EligibleIsClaimable(q: Request, i: nat)
      requires Valid() && Eligible(Snap(), q, i)
      ensures i < pieceCount && i !in Have() && (q.endgame || i !in inFlight)
    {
      if complete {
        assert false;
      }
    }

    lemma SnapIs(s: Snapshot)
      requires s == Snapshot(pieceCount, complete, haveCount, if complete then [] else bitfield, wantedBf,
                             availability, if complete then 0 else downloadMissing, inFlight)
      ensures s == Snap() && s.pieceCount == pieceCount && s.missing <= downloadMissing
    {}

    /** With nothing in between, eligible pieces are free. */
    lemma EligibleAreFree(q: Request)
      requires Valid()
      ensures EligibleSet(Snap(), q) <= Free(q.endgame)
    {
      hide Eligible, Valid;
      forall i | i in EligibleSet(Snap(), q) ensures i in Free(q.endgame) {
        EligibleIsClaimable(q, i);
      }
    }

    /** `pick_rarest_piece` for any claim closure: rarest first when few pieces are missing, and
        in endgame rarest first among the pieces in flight, then among the rest. */
    method PickRarestPiece(q: Request, claim: (nat, nat) -> bool)
      returns (r: Option<(nat, nat)>, tried: seq<nat>, ghost cut: nat)
      requires Valid()
      ensures r.Some? ==> r.value.0 < pieceCount && layout.PieceSize(r.value.0) == Ok(r.value.1)
      ensures Sound(Snap(), q, claim, tried, if r.Some? then Some(r.value.0) else None)
      ensures r.None? ==> Exhausted(Snap(), q, tried)
      ensures downloadMissing <= 32 && r.Some? && !q.endgame ==>
                forall j :: j in EligibleSet(Snap(), q) && j < pieceCount && j !in tried ==>
                  availability[r.value.0] <= availability[j]
      ensures downloadMissing <= 32 && r.Some? && q.endgame ==>
                forall j :: j in EligibleSet(Snap(), q) && j < pieceCount && j !in tried ==>
                  && (j in inFlight ==> r.value.0 in inFlight)
                  && ((j in inFlight <==> r.value.0 in inFlight) ==> availability[r.value.0] <= availability[j])
      ensures cut <= |tried|
      ensures q.endgame || haveCount >= 4 || pieceCount < 16 || downloadMissing <= 32 ==>
                InRank(Snap(), q.endgame, tried[..cut]) && InRank(Snap(), false, tried[cut..])
    {
      hide Valid, Eligible, InRank, Exhausted, Rarity, EligibleSet, P.Exact;
      var s := Snapshot(pieceCount, complete, haveCount, if complete then [] else bitfield, wantedBf, availability,
                        if complete then 0 else downloadMissing, inFlight);
      SnapIs(s);
      RaritiesAre(s);
      EligibleAreMissing(q);
      var hit, offered, first := Pick(s, q, claim);
      tried, cut := offered, first;
      if hit.None? {
        return None, tried, cut;
      }
      EligibleInRange(s, q, hit.value);
      r := Sized(hit.value);
    }

    /** The snapshot's rarities are the availability counts. */
    lemma RaritiesAre(s: Snapshot)
      requires Valid() && s == Snap()
      ensures |availability| == pieceCount && s.inFlight == inFlight
      ensures forall j: nat :: j < pieceCount ==> Rarity(s, j) == availability[j]
    {}

    /** The pieces `try_claim_piece` grants now. */
    ghost function Free(endgame: bool): set<nat>
      reads this
    {
      Range(pieceCount) - Have() - if endgame then {} else inFlight
    }

    /** Nothing but the claims has changed. */
    twostate predicate OnlyClaimsMoved()
      reads this
    {
      unchanged(`layout, `pieceHashes, `bitfield, `complete, `haveCount, `filePriority, `wantedBf, `downloadMissing,
                `haveCountAtomic, `completedPayload, `availability, `stagingPool, `published)
    }

    /** What other connections do at some moment, call by call. */
    method Interfere(moves: seq<Move>)
      requires Valid()
      modifies this
      ensures Valid() && layout == old(layout) && old(Have()) <= Have()
      ensures moves == [] ==> unchanged(this)
    {
      hide Valid, P.Exact, P.State.Have, P.State.Wants;
      var k := 0;
      while k < |moves|
        invariant k <= |moves| && Valid() && layout == old(layout) && old(Have()) <= Have()
        invariant moves == [] ==> unchanged(this)
      {
        Obey(moves[k]);
        k := k + 1;
      }
    }

    /** One call by another connection. */
    method Obey(move: Move)
      requires Valid()
      modifies this
      ensures Valid() && layout == old(layout) && old(Have()) <= Have()
    {
      hide Valid, P.Exact, Get, Indices;
      match move {
        case Gain(i) =>
          if i < pieceCount {
            var fully := MarkHave(i);
          }
        case Give(i) => ReleasePieceClaim(i);
        case Take(i, endgame) => var granted := TryClaimPiece(i, endgame);
        case Prioritize(file, priority) => SetFilePriority(file, priority);
      }
    }

    /** The claim loop of `pick_rarest_piece` over `try_claim_piece`, other connections acting
        before each offer: the first candidate that is free at its turn is claimed, and a refused
        offer changes nothing. */
    method ClaimFrom(c: seq<Candidate>, endgame: bool, world: nat -> seq<Move>)
      returns (hit: Option<nat>, at: nat, ghost log: seq<Offer>)
      requires Valid()
      modifies this
      ensures Valid() && layout == old(layout) && at <= |c|
      ensures hit.None? ==> at == |c| == |log|
      ensures hit.Some? ==> at < |c| && hit.value == c[at].index && |log| == at + 1
      ensures forall x :: 0 <= x < |log| ==> log[x].piece == c[x].index
      ensures Offered(log, hit)
      ensures log != [] ==> log[|log| - 1].after == inFlight
      ensures log == [] ==> unchanged(this)
      ensures Quiet(world) ==> AllAt(log, old(Free(endgame)), old(inFlight)) && OnlyClaimsMoved()
      ensures Quiet(world) && hit.None? ==> Free(endgame) == old(Free(endgame))
      ensures Quiet(world) ==> inFlight == if hit.Some? then old(inFlight) + {hit.value} else old(inFlight)
    {
      hide Valid, P.Exact, Indices, Range;
      at, log := 0, [];
      while at < |c|
        invariant at <= |c| && Valid() && |log| == at && layout == old(layout)
        invariant forall x :: 0 <= x < at ==> log[x].piece == c[x].index
        invariant Offered(log, None) && (log == [] ==> unchanged(this))
        invariant log != [] ==> log[|log| - 1].after == inFlight
        invariant Quiet(world) ==> OnlyClaimsMoved() && inFlight == old(inFlight)
        invariant Quiet(world) ==> AllAt(log, old(Free(endgame)), old(inFlight))
      {
        Interfere(world(at));
        var i := c[at].index;
        ghost var free, before := Free(endgame), inFlight;
        var granted := TryClaim(i, endgame);
        log := log + [Offer(i, free, before, inFlight)];
        if granted {
          return Some(i), at, log;
        }
        at := at + 1;
      }
      return None, at, log;
    }

    /** `try_claim_piece`, in terms of what is free. */
    method TryClaim(i: nat, endgame: bool) returns (granted: bool)
      requires Valid()
      modifies this`inFlight
      ensures Valid() && (granted <==> i in old(Free(endgame)))
      ensures inFlight == if granted then old(inFlight) + {i} else old(inFlight)
    {
      hide Valid, P.Exact, Indices;
      granted := TryClaimPiece(i, endgame);
    }

    /** A candidate list offered in order: what `try_from` makes of it. */
    method OfferList(s: Snapshot, q: Request, c: seq<Candidate>, world: nat -> seq<Move>)
      returns (r: Option<(nat, nat)>, at: nat, ghost log: seq<Offer>)
      requires Valid() && s.pieceCount == pieceCount && Collected(s, q, c)
      modifies this
      ensures Valid() && layout == old(layout) && at <= |c|
      ensures Offered(log, if r.Some? then Some(r.value.0) else None)
      ensures log != [] ==> log[|log| - 1].after == inFlight
      ensures log == [] ==> unchanged(this)
      ensures |log| <= |c| && forall x :: 0 <= x < |log| ==> log[x].piece == c[x].index
      ensures forall x :: 0 <= x < |log| ==> log[x].piece in EligibleSet(s, q)
      ensures r.Some? ==> at < |c| && r.value.0 == c[at].index && layout.PieceSize(r.value.0) == Ok(r.value.1)
      ensures forall x :: 0 <= x < at ==> c[x].index in Refused(log)
      ensures r.None? ==> at == |c|
      ensures Quiet(world) ==> AllAt(log, old(Free(q.endgame)), old(inFlight)) && OnlyClaimsMoved()
      ensures Quiet(world) && r.None? ==> Free(q.endgame) == old(Free(q.endgame))
      ensures Quiet(world) ==> inFlight == if r.Some? then old(inFlight) + {r.value.0} else old(inFlight)
    {
      hide Valid, EligibleSet, Collected, Free, P.Exact, Offered, AllAt, Refused, Quiet;
      var hit;
      hit, at, log := ClaimFrom(c, q.endgame, world);
      OffersEligible(s, q, c, log);
      RefusedFrom(c, log, hit);
      if hit.None? {
        return None, at, log;
      }
      CandidateEligible(s, q, c, at);
      r := Sized(hit.value);
    }

    /** A candidate list put in order, unless the order drawn is kept, and offered. */
    method OfferRanked(s: Snapshot, q: Request, o: Order, sort: bool, drawn: seq<Candidate>, world: nat -> seq<Move>)
      returns (r: Option<(nat, nat)>, at: nat, ghost log: seq<Offer>, ghost c: seq<Candidate>)
      requires Valid() && s.pieceCount == pieceCount && Collected(s, q, drawn)
      requires o.RacesFirst? ==> o.inFlight == s.inFlight
      modifies this
      ensures Collected(s, q, c) && (WalkedAll(s, q, drawn) ==> WalkedAll(s, q, c))
      ensures sort ==> Picking.Sorted(o, c) && InRank(s, o.RacesFirst?, Pieces(log))
      ensures Valid() && layout == old(layout) && at <= |c|
      ensures Offered(log, if r.Some? then Some(r.value.0) else None)
      ensures log != [] ==> log[|log| - 1].after == inFlight
      ensures log == [] ==> unchanged(this)
      ensures forall x :: 0 <= x < |log| ==> log[x].piece in EligibleSet(s, q)
      ensures r.Some? ==> at < |c| && r.value.0 == c[at].index && layout.PieceSize(r.value.0) == Ok(r.value.1)
      ensures forall x :: 0 <= x < at ==> c[x].index in Refused(log)
      ensures r.None? ==> at == |c|
      ensures Quiet(world) ==> AllAt(log, old(Free(q.endgame)), old(inFlight)) && OnlyClaimsMoved()
      ensures Quiet(world) && r.None? ==> Free(q.endgame) == old(Free(q.endgame))
      ensures Quiet(world) ==> inFlight == if r.Some? then old(inFlight) + {r.value.0} else old(inFlight)
    {
      hide Valid, EligibleSet, Collected, WalkedAll, Free, P.Exact, Offered, AllAt, Refused, Quiet, InRank, Pieces,
           Picking.Sorted;
      var ranked := Rank(s, q, o, sort, drawn);
      r, at, log := OfferList(s, q, ranked, world);
      c := ranked;
      if sort {
        LogInRank(s, q, o, c, log);
      }
    }

    /** `pick_rarest_piece` with `try_claim_piece` as the closure, on a snapshot that other
        connections may have outdated and go on outdating between the offers: what it returns was
        free when claimed, and no other claim is left behind; it gives up only if everything
        eligible, or a cap's worth, was offered and refused. */
    method PickFrom(s: Snapshot, q: Request, world: nat -> seq<Move>, later: nat -> seq<Move>)
      returns (r: Option<(nat, nat)>, ghost log: seq<Offer>, ghost cut: nat)
      requires Valid() && s.pieceCount == pieceCount
      modifies this
      ensures Valid() && layout == old(layout)
      ensures Offered(log, if r.Some? then Some(r.value.0) else None)
      ensures log != [] ==> log[|log| - 1].after == inFlight
      ensures forall x :: 0 <= x < |log| ==> log[x].piece in EligibleSet(s, q)
      ensures r.Some? ==> layout.PieceSize(r.value.0) == Ok(r.value.1)
      ensures r.None? ==> RacedAway(s, q, EligibleSet(s, q) - Refused(log))
      ensures s.missing <= 32 && |EligibleSet(s, q)| <= 32 && r.Some? ==> Rarest(s, q, Refused(log), r.value.0)
      ensures cut <= |log|
      ensures q.endgame || s.haveCount >= 4 || s.pieceCount < 16 || s.missing <= 32 ==>
                InRank(s, q.endgame, Pieces(log[..cut])) && InRank(s, false, Pieces(log[cut..]))
      ensures Quiet(world) && Quiet(later) ==>
                && AllAt(log, old(Free(q.endgame)), old(inFlight)) && OnlyClaimsMoved()
                && inFlight == if r.Some? then old(inFlight) + {r.value.0} else old(inFlight)
    {
      hide Valid, Eligible, Rarity, Before, EligibleSet, Picking.Sorted, RacedAway, Rarest, Collected, WalkedAll,
           Free, P.Exact, Snap, Offered, AllAt, Refused, Quiet, InRank, Pieces;
      NoOffersInRank(s);
      NoPieces();
      if s.pieceCount == 0 {
        NothingEligible(s, q, EligibleSet(s, q) - Refused([]));
        NoOffers(old(Free(q.endgame)), old(inFlight));
        return None, [], 0;
      }
      var candidates, exact := FirstCandidates(s, q);
      var randomFirst := !q.endgame && s.haveCount < INITIAL_RANDOM_PIECES
                         && s.pieceCount >= INITIAL_RANDOM_MIN_PC && s.missing > PICK_CANDIDATE_CAP;
      var at;
      ghost var c;
      r, at, log, c := OfferRanked(s, q, OrderOf(s, q), q.endgame || !randomFirst, candidates, world);
      cut := |log|;
      CutJoin(log, []);
      if r.Some? {
        if s.missing <= PICK_CANDIDATE_CAP && |EligibleSet(s, q)| <= PICK_CANDIDATE_CAP {
          FewEligibleListed(s, q, c);
          FirstFreeIsBest(s, q, c, at, Refused(log));
        }
        return;
      }
      if exact {
        WalkRacedAway(s, q, c, EligibleSet(s, q) - Refused(log));
        return;
      }
      ghost var first := log;
      candidates := ExactWalk(s, q);
      r, at, log, c := OfferRanked(s, q, ByRarity, !randomFirst, candidates, later);
      OffersJoin(first, log, if r.Some? then Some(r.value.0) else None, old(Free(q.endgame)), old(inFlight));
      CutJoin(first, log);
      log := first + log;
      if r.None? {
        WalkRacedAway(s, q, c, EligibleSet(s, q) - Refused(log));
      }
    }

    /** `piece_size(i).ok().map(..)` of a piece of the torrent. */
    method Sized(i: nat) returns (r: Option<(nat, nat)>)
      requires Valid() && i < pieceCount
      ensures r.Some? && r.value.0 == i && layout.PieceSize(i) == Ok(r.value.1)
    {
      PieceSizeIs(layout, i);
      return Some((i, layout.PieceSize(i).value));
    }

    /** The same in one atomic step: a piece is claimed exactly when one is eligible, and with
        few pieces missing it is the rarest; in endgame it is in flight if any eligible piece is,
        and the rarest of those on its side. */
    method PickAndClaim(q: Request) returns (r: Option<(nat, nat)>)
      requires Valid()
      modifies this
      ensures Valid() && OnlyClaimsMoved()
      ensures r.Some? <==> EligibleSet(old(Snap()), q) != {}
      ensures r.Some? ==> r.value.0 in EligibleSet(old(Snap()), q) && r.value.0 in old(Free(q.endgame))
                          && r.value.0 in Wants() - Have() && layout.PieceSize(r.value.0) == Ok(r.value.1)
      ensures inFlight == if r.Some? then old(inFlight) + {r.value.0} else old(inFlight)
      ensures r.Some? ==> r.value.0 < pieceCount
      ensures old(downloadMissing) <= 32 && r.Some? && !q.endgame ==>
                forall j :: j in EligibleSet(old(Snap()), q) && j < pieceCount ==>
                  availability[r.value.0] <= availability[j]
      ensures old(downloadMissing) <= 32 && r.Some? && q.endgame ==>
                forall j :: j in EligibleSet(old(Snap()), q) && j < pieceCount ==>
                  && (j in old(inFlight) ==> r.value.0 in old(inFlight))
                  && ((j in old(inFlight) <==> r.value.0 in old(inFlight)) ==>
                        availability[r.value.0] <= availability[j])
    {
      hide Valid, Eligible, Rarity, Before, EligibleSet, RacedAway, Free, P.Exact, Snap, Refused, Offered,
           AllAt, InRank, Pieces;
      var s := Snapshot(pieceCount, complete, haveCount, if complete then [] else bitfield, wantedBf, availability,
                        if complete then 0 else downloadMissing, inFlight);
      SnapIs(s);
      RaritiesAre(s);
      EligibleAreMissing(q);
      EligibleAreFree(q);
      ghost var log, cut;
      r, log, cut := PickFrom(s, q, _ => [], _ => []);
      NoneRefused(log, if r.Some? then Some(r.value.0) else None, EligibleSet(s, q), old(Free(q.endgame)),
                  old(inFlight));
      RacedAwayAtomic(s, q, EligibleSet(s, q) - Refused(log));
      if r.Some? {
        EligibleBelow(s, q, r.value.0);
      }
    }

    /** The test `start_piece` puts a suggestion to: granted exactly if the piece is eligible. */
    method TakeSuggestion(q: Request, i: nat) returns (granted: bool)
      requires Valid()
      modifies this`inFlight
      ensures Valid() && (granted <==> i in EligibleSet(old(Snap()), q)) && (granted ==> i < pieceCount)
      ensures inFlight == if granted then old(inFlight) + {i} else old(inFlight)
      ensures !granted ==> Snap() == old(Snap())
    {
      hide Valid, EligibleSet, P.Exact, Get;
      Suggestible(q, i);
      if !(WantsPiece(i) && !HasPiece(i) && Get(q.peerBf, i) && !q.inStaging(i) && !q.isHashing(i) && q.pieceOk(i)) {
        return false;
      }
      granted := TryClaimPiece(i, q.endgame);
    }

    lemma Suggestible(q: Request, i: nat)
      requires Valid()
      ensures i in EligibleSet(Snap(), q) <==>
                && WantsPiece(i) && !HasPiece(i) && Get(q.peerBf, i) && !q.inStaging(i) && !q.isHashing(i)
                && q.pieceOk(i) && (q.endgame || i !in inFlight)
      ensures HasPiece(i) <==> i in Have()
      ensures WantsPiece(i) ==> i < pieceCount
      ensures i in Have() ==> i < pieceCount
    {
      hide P.Exact, Get;
      CachesAnswer(i);
    }

    /** What `take_suggested` leaves of a queue whose suggestion `k` is the first eligible one. */
    ghost predicate Taken(q: Request, s: Snapshot, suggested: seq<nat>, hit: Option<nat>, rest: seq<nat>) {
      if hit.Some? then
        exists k {:trigger suggested[k]} ::
          && 0 <= k < |suggested| && suggested[k] == hit.value && hit.value in EligibleSet(s, q)
          && rest == suggested[k + 1..]
          && forall j :: 0 <= j < k ==> suggested[j] !in EligibleSet(s, q)
      else rest == [] && forall j :: 0 <= j < |suggested| ==> suggested[j] !in EligibleSet(s, q)
    }

    /** `take_suggested` with the test of `start_piece`. */
    method TakeSuggested(q: Request, suggested: seq<nat>) returns (hit: Option<nat>, rest: seq<nat>)
      requires Valid()
      modifies this`inFlight
      ensures Valid() && Taken(q, old(Snap()), suggested, hit, rest) && (hit.Some? ==> hit.value < pieceCount)
      ensures inFlight == if hit.Some? then old(inFlight) + {hit.value} else old(inFlight)
      ensures hit.None? ==> Snap() == old(Snap())
    {
      hide Valid, EligibleSet, P.Exact, Snap;
      ghost var s := Snap();
      var k := 0;
      while k < |suggested|
        invariant k <= |suggested| && Valid() && inFlight == old(inFlight) && Snap() == s
        invariant forall j :: 0 <= j < k ==> suggested[j] !in EligibleSet(s, q)
      {
        var granted := TakeSuggestion(q, suggested[k]);
        if granted {
          return Some(suggested[k]), suggested[k + 1..];
        }
        k := k + 1;
      }
      return None, [];
    }

    /** `start_piece`: the first suggested piece that can be claimed, else the picker's. It
        claims a piece exactly when one is eligible. */
    method StartPiece(q: Request, suggested: seq<nat>)
      returns (r: Option<(nat, nat)>, rest: seq<nat>, ghost hit: Option<nat>)
      requires Valid()
      modifies this
      ensures Valid() && OnlyClaimsMoved() && Taken(q, old(Snap()), suggested, hit, rest)
      ensures r.Some? <==> EligibleSet(old(Snap()), q) != {}
      ensures r.Some? ==> r.value.0 in EligibleSet(old(Snap()), q) && layout.PieceSize(r.value.0) == Ok(r.value.1)
      ensures inFlight == if r.Some? then old(inFlight) + {r.value.0} else old(inFlight)
      ensures hit.Some? ==> r.Some? && r.value.0 == hit.value
      ensures r.Some? ==> r.value.0 < pieceCount
      ensures hit.None? && r.Some? && old(downloadMissing) <= 32 && !q.endgame ==>
                forall j :: j in EligibleSet(old(Snap()), q) && j < pieceCount ==>
                  availability[r.value.0] <= availability[j]
      ensures hit.None? && r.Some? && old(downloadMissing) <= 32 && q.endgame ==>
                forall j :: j in EligibleSet(old(Snap()), q) && j < pieceCount ==>
                  && (j in old(inFlight) ==> r.value.0 in old(inFlight))
                  && ((j in old(inFlight) <==> r.value.0 in old(inFlight)) ==>
                        availability[r.value.0] <= availability[j])
    {
      hide Valid, EligibleSet, Free, P.Exact, Snap, Rarity, Before;
      var taken, left := TakeSuggested(q, suggested);
      hit, rest := taken, left;
      if taken.Some? {
        r := Sized(taken.value);
        return;
      }
      r := PickAndClaim(q);
    }

    // -------------------------------------------------------------- availability

    /** `avail_inc`. */
    method AvailInc(index: nat)
      requires Valid()
      modifies this`availability
      ensures Valid() && availability == IncAt(old(availability), index)
    {
      hide Get, Indices, WellFormed, WantedSet, Payload;
      if index < |availability| {
        availability := availability[index := Min(availability[index] + 1, U16_MAX)];
      }
    }

    /** `avail_add_bitfield`. */
    method AvailAddBitfield(bf: seq<byte>)
      requires Valid()
      modifies this`availability
      ensures Valid() && availability == AddBits(old(availability), bf)
    {
      hide Get, Indices, WellFormed, WantedSet, Payload;
      var i := 0;
      var a := availability;
      while i < pieceCount
        invariant i <= pieceCount && |a| == pieceCount
        invariant forall j :: 0 <= j < i ==> a[j] == AddBits(availability, bf)[j]
        invariant forall j :: i <= j < pieceCount ==> a[j] == availability[j]
      {
        if Get(bf, i) {
          a := a[i := Min(a[i] + 1, U16_MAX)];
        }
        i := i + 1;
      }
      availability := a;
    }

    /** `avail_sub_bitfield`. */
    method AvailSubBitfield(bf: seq<byte>)
      requires Valid()
      modifies this`availability
      ensures Valid() && availability == SubBits(old(availability), bf)
    {
      hide Get, Indices, WellFormed, WantedSet, Payload;
      var i := 0;
      var a := availability;
      while i < pieceCount
        invariant i <= pieceCount && |a| == pieceCount
        invariant forall j :: 0 <= j < i ==> a[j] == SubBits(availability, bf)[j]
        invariant forall j :: i <= j < pieceCount ==> a[j] == availability[j]
      {
        if Get(bf, i) {
          a := a[i := P.Decr(a[i])];
        }
        i := i + 1;
      }
      availability := a;
    }
  }

  /** All bytes of piece `i` lie in file `f`. */
  ghost predicate LiesIn(l: StorageLayout, i: nat, f: nat)
    requires f < |l.files|
  {
    forall t: nat :: PieceStart(l, i) <= t < PieceEnd(l, i) ==> l.files[f].Covers(t)
  }

  /** A call another connection makes. */
  datatype Move = Gain(index: nat) | Give(index: nat) | Take(index: nat, endgame: bool)
                | Prioritize(file: nat, priority: int)

  /** No other connection acts. */
  ghost predicate Quiet(world: nat -> seq<Move>) {
    forall k :: world(k) == []
  }

  /** One offer to `try_claim_piece`: what was free, and the claims around it. */
  datatype Offer = Offer(piece: nat, free: set<nat>, before: set<nat>, after: set<nat>)

  /** Refused offers were of pieces not free and changed no claim; a granted one is the last,
      was of a free piece and added exactly its claim. */
  ghost predicate Offered(log: seq<Offer>, hit: Option<nat>) {
    && (forall x :: 0 <= x < |log| && (x < |log| - 1 || hit.None?) ==>
          log[x].piece !in log[x].free && log[x].after == log[x].before)
    && (hit.Some? ==> log != [] && var last := log[|log| - 1];
          last.piece == hit.value && hit.value in last.free && last.after == last.before + {hit.value})
  }

  /** All offers were made in one state of the torrent. */
  ghost predicate AllAt(log: seq<Offer>, free: set<nat>, before: set<nat>) {
    forall x :: 0 <= x < |log| ==> log[x].free == free && log[x].before == before
  }

  /** The pieces that were offered when they were not free. */
  ghost function Refused(log: seq<Offer>): set<nat> {
    set o | o in log && o.piece !in o.free :: o.piece
  }

  /** The pieces of the offers, in order. */
  ghost function Pieces(log: seq<Offer>): (r: seq<nat>)
    ensures |r| == |log| && forall x :: 0 <= x < |r| ==> r[x] == log[x].piece
  {
    seq(|log|, x requires 0 <= x < |log| => log[x].piece)
  }

  lemma NoPieces()
    ensures Pieces([]) == []
  {}

  lemma LogInRank(s: Snapshot, q: Request, o: Order, c: seq<Candidate>, log: seq<Offer>)
    requires Collected(s, q, c) && Picking.Sorted(o, c) && |log| <= |c|
    requires forall x :: 0 <= x < |log| ==> log[x].piece == c[x].index
    requires o.RacesFirst? ==> o.inFlight == s.inFlight
    ensures InRank(s, o.RacesFirst?, Pieces(log))
  {
    hide Collected, Picking.Sorted, InRank;
    assert OffersOf(c, Pieces(log));
    OffersInRank(s, q, o, c, Pieces(log));
  }

  lemma NoOffers(free: set<nat>, before: set<nat>)
    ensures AllAt([], free, before) && Offered([], None) && Refused([]) == {}
  {}

  lemma OffersEligible(s: Snapshot, q: Request, c: seq<Candidate>, log: seq<Offer>)
    requires Collected(s, q, c) && |log| <= |c| && forall x :: 0 <= x < |log| ==> log[x].piece == c[x].index
    ensures forall x :: 0 <= x < |log| ==> log[x].piece in EligibleSet(s, q)
  {
    hide EligibleSet, Collected;
    forall x | 0 <= x < |log| ensures log[x].piece in EligibleSet(s, q) {
      CandidateEligible(s, q, c, x);
    }
  }

  /** The candidates offered in vain are the refused pieces. */
  lemma RefusedFrom(c: seq<Candidate>, log: seq<Offer>, hit: Option<nat>)
    requires |log| <= |c| && Offered(log, hit) && forall x :: 0 <= x < |log| ==> log[x].piece == c[x].index
    ensures forall x :: 0 <= x < |log| && (x < |log| - 1 || hit.None?) ==> c[x].index in Refused(log)
  {
    forall x | 0 <= x < |log| && (x < |log| - 1 || hit.None?) ensures c[x].index in Refused(log) {
      assert log[x] in log;
    }
  }

  /** A list of offers after one that was refused throughout. */
  lemma OffersJoin(first: seq<Offer>, second: seq<Offer>, hit: Option<nat>, free: set<nat>, before: set<nat>)
    requires Offered(first, None) && Offered(second, hit)
    ensures Offered(first + second, hit) && Refused(second) <= Refused(first + second)
    ensures AllAt(first, free, before) && AllAt(second, free, before) ==> AllAt(first + second, free, before)
  {
    forall o | o in second ensures o in first + second {}
  }

  /** In one state, where all that was offered was free, nothing is refused. */
  lemma NoneRefused(log: seq<Offer>, hit: Option<nat>, eligible: set<nat>, free: set<nat>, before: set<nat>)
    requires AllAt(log, free, before) && eligible <= free && Offered(log, hit)
    requires forall x :: 0 <= x < |log| ==> log[x].piece in eligible
    ensures Refused(log) == {} && eligible - Refused(log) == eligible
    ensures hit.Some? ==> hit.value in free && hit.value in eligible
  {}

  /** One priority set; a list shorter than the files is first filled up with 1. */
  function WithPriority(prios: seq<int>, files: nat, fileIdx: nat, priority: int): (r: seq<int>)
    ensures forall k :: 0 <= k < |r| ==>
              r[k] == if k == fileIdx then priority else if k < |prios| then prios[k] else 1
    ensures |r| == if |prios| <= fileIdx < files then files else |prios|
  {
    if fileIdx < |prios| then prios[fileIdx := priority]
    else if fileIdx < files then (prios + seq(files - |prios|, _ => 1))[fileIdx := priority]
    else prios
  }

  function IncAt(a: seq<nat>, index: nat): seq<nat> {
    if index < |a| then a[index := Min(a[index] + 1, U16_MAX)] else a
  }

  /** Saturating +1 at every set bit. */
  function AddBits(a: seq<nat>, bf: seq<byte>): (r: seq<nat>)
    ensures |r| == |a|
  {
    seq(|a|, i requires 0 <= i < |a| => if Get(bf, i) then Min(a[i] + 1, U16_MAX) else a[i])
  }

  /** Saturating -1 at every set bit. */
  function SubBits(a: seq<nat>, bf: seq<byte>): (r: seq<nat>)
    ensures |r| == |a|
  {
    seq(|a|, i requires 0 <= i < |a| => if Get(bf, i) then P.Decr(a[i]) else a[i])
  }
}
