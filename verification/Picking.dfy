/** The piece picker (`pick_rarest_piece`, `crates/engine/src/hot/pieces.rs`). The
    random generator is an arbitrary choice at each use. The caller's claim closure is
    an arbitrary function of how often it was called before and of the index, which
    covers every stateful closure along one run. */
module Picking {
  import opened Wrappers
  import opened Sequences
  import opened Bits

  const PICK_SAMPLE_ATTEMPTS: nat := 256
  const PICK_CANDIDATE_CAP: nat := 32
  const INITIAL_RANDOM_PIECES: nat := 4
  const INITIAL_RANDOM_MIN_PC: nat := 16

  /** What the picker copies out of the torrent under its locks. */
  datatype Snapshot = Snapshot(
    pieceCount: nat, complete: bool, haveCount: nat, haveBf: seq<byte>, wanted: seq<byte>,
    avail: seq<nat>, missing: nat, inFlight: set<nat>)

  /** What the asking connection brings. */
  datatype Request = Request(
    peerBf: seq<byte>, inStaging: nat -> bool, isHashing: nat -> bool, pieceOk: nat -> bool, endgame: bool)

  datatype Candidate = Candidate(index: nat, rarity: nat)

  predicate Eligible(s: Snapshot, q: Request, i: nat) {
    && i < s.pieceCount && !q.isHashing(i) && !q.inStaging(i) && q.pieceOk(i)
    && !s.complete
    && !Get(s.haveBf, i)
    && Get(s.wanted, i)
    && (q.endgame || i !in s.inFlight)
    && Get(q.peerBf, i)
  }

  ghost function EligibleSet(s: Snapshot, q: Request): set<nat> {
    set i | i in Range(s.pieceCount) && Eligible(s, q, i)
  }

  function Rarity(s: Snapshot, i: nat): nat {
    if i < |s.avail| then s.avail[i] else 0
  }

  /** Modes of ordering the candidates. */
  datatype Order = ByRarity | RacesFirst(inFlight: set<nat>)

  /** `a` sorts strictly before `b`. */
  predicate Before(o: Order, a: Candidate, b: Candidate) {
    match o
    case ByRarity => a.rarity < b.rarity
    case RacesFirst(inFlight) =>
      var aRace, bRace := a.index in inFlight, b.index in inFlight;
      if aRace != bRace then aRace else a.rarity < b.rarity
  }

  predicate Sorted(o: Order, c: seq<Candidate>) {
    forall x, y :: 0 <= x < y < |c| ==> !Before(o, c[y], c[x])
  }

  // ---------------------------------------------------------------- sorting

  /** Insert behind the elements that do not sort after `x`: the sort below is stable. */
  function Insert(o: Order, x: Candidate, c: seq<Candidate>): seq<Candidate> {
    if c == [] || !Before(o, x, c[|c| - 1]) then c + [x]
    else Insert(o, x, c[..|c| - 1]) + [c[|c| - 1]]
  }

  /** `sort_by` of the candidate list. */
  function Sort(o: Order, c: seq<Candidate>): seq<Candidate> {
    if c == [] then [] else Insert(o, c[|c| - 1], Sort(o, c[..|c| - 1]))
  }

  lemma {:induction false} InsertPermutes(o: Order, x: Candidate, c: seq<Candidate>)
    ensures multiset(Insert(o, x, c)) == multiset(c) + multiset{x}
  {
    hide Before;
    if c != [] && Before(o, x, c[|c| - 1]) {
      InsertPermutes(o, x, c[..|c| - 1]);
      assert c == c[..|c| - 1] + [c[|c| - 1]];
    }
  }

  lemma {:induction false} InsertMembers(o: Order, x: Candidate, c: seq<Candidate>)
    ensures forall y :: y in Insert(o, x, c) ==> y == x || y in c
  {
    hide Before;
    if c != [] && Before(o, x, c[|c| - 1]) {
      InsertMembers(o, x, c[..|c| - 1]);
    }
  }

  lemma BeforeOrder(o: Order, a: Candidate, b: Candidate, c: Candidate)
    ensures !Before(o, b, a) && !Before(o, c, b) ==> !Before(o, c, a)
    ensures Before(o, a, b) ==> !Before(o, b, a)
  {}

  lemma {:induction false} InsertSorts(o: Order, x: Candidate, c: seq<Candidate>)
    requires Sorted(o, c)
    ensures Sorted(o, Insert(o, x, c))
  {
    hide Before;
    if c == [] {
    } else if !Before(o, x, c[|c| - 1]) {
      forall y | 0 <= y < |c| ensures !Before(o, x, c[y]) {
        BeforeOrder(o, c[y], c[|c| - 1], x);
      }
    } else {
      var last, init := c[|c| - 1], c[..|c| - 1];
      InsertSorts(o, x, init);
      InsertMembers(o, x, init);
      var r := Insert(o, x, init);
      forall y | 0 <= y < |r| ensures !Before(o, last, r[y]) {
        assert r[y] in r;
        BeforeOrder(o, x, last, x);
      }
    }
  }

  lemma {:induction false} SortSorts(o: Order, c: seq<Candidate>)
    ensures Sorted(o, Sort(o, c)) && multiset(Sort(o, c)) == multiset(c)
  {
    hide Before, Insert, Sorted;
    if c == [] {
      EmptySorted(o);
    } else {
      var last, init := c[|c| - 1], c[..|c| - 1];
      SortSorts(o, init);
      InsertSorts(o, last, Sort(o, init));
      InsertPermutes(o, last, Sort(o, init));
      assert c == init + [last];
    }
  }

  lemma EmptySorted(o: Order)
    ensures Sorted(o, [])
  {}

  /** Sorted by rarity the rarest come first; with the races first, those in flight come before
      all others and the rarest come first on either side. */
  lemma RarestFirst(c: seq<Candidate>, inFlight: set<nat>)
    ensures forall x, y :: 0 <= x < y < |Sort(ByRarity, c)| ==>
              Sort(ByRarity, c)[x].rarity <= Sort(ByRarity, c)[y].rarity
    ensures var r := Sort(RacesFirst(inFlight), c);
            forall x, y :: 0 <= x < y < |r| ==>
              && (r[y].index in inFlight ==> r[x].index in inFlight)
              && ((r[x].index in inFlight <==> r[y].index in inFlight) ==> r[x].rarity <= r[y].rarity)
  {
    hide Sort;
    SortSorts(ByRarity, c);
    SortSorts(RacesFirst(inFlight), c);
  }

  /** The candidate, if it is of the same rank as `a`. */
  function IfTied(o: Order, a: Candidate, x: Candidate): seq<Candidate> {
    if Before(o, a, x) || Before(o, x, a) then [] else [x]
  }

  /** The candidates of the same rank as `a`, in order. */
  function Tied(o: Order, a: Candidate, c: seq<Candidate>): seq<Candidate> {
    if c == [] then [] else Tied(o, a, c[..|c| - 1]) + IfTied(o, a, c[|c| - 1])
  }

  lemma TiedAppend(o: Order, a: Candidate, c: seq<Candidate>, x: Candidate)
    ensures Tied(o, a, c + [x]) == Tied(o, a, c) + IfTied(o, a, x)
  {
    hide IfTied;
    assert (c + [x])[..|c|] == c;
  }

  lemma OneIsTied(o: Order, a: Candidate, x: Candidate, y: Candidate)
    requires Before(o, x, y)
    ensures IfTied(o, a, x) == [] || IfTied(o, a, y) == []
  {}

  lemma {:induction false} InsertKeepsTied(o: Order, a: Candidate, x: Candidate, c: seq<Candidate>)
    ensures Tied(o, a, Insert(o, x, c)) == Tied(o, a, c + [x])
  {
    hide Before, IfTied, Tied;
    if c != [] && Before(o, x, c[|c| - 1]) {
      var last, init := c[|c| - 1], c[..|c| - 1];
      InsertKeepsTied(o, a, x, init);
      TiedAppend(o, a, Insert(o, x, init), last);
      TiedAppend(o, a, init, x);
      TiedAppend(o, a, init, last);
      TiedAppend(o, a, c, x);
      assert init + [last] == c;
      OneIsTied(o, a, x, last);
    }
  }

  /** The sort is stable: candidates of one rank stay in the order they were drawn in. */
  lemma {:induction false} SortIsStable(o: Order, a: Candidate, c: seq<Candidate>)
    ensures Tied(o, a, Sort(o, c)) == Tied(o, a, c)
  {
    hide Before, Insert, IfTied, Tied;
    if c != [] {
      var last, init := c[|c| - 1], c[..|c| - 1];
      SortIsStable(o, a, init);
      InsertKeepsTied(o, a, last, Sort(o, init));
      TiedAppend(o, a, Sort(o, init), last);
      TiedAppend(o, a, init, last);
      assert init + [last] == c;
    }
  }

  // ---------------------------------------------------------------- collecting

  ghost predicate Distinct(c: seq<Candidate>) {
    forall x, y :: 0 <= x < y < |c| ==> c[x].index != c[y].index
  }

  ghost predicate Listed(c: seq<Candidate>, i: nat) {
    exists x :: 0 <= x < |c| && c[x].index == i
  }

  ghost predicate AllEligible(s: Snapshot, q: Request, c: seq<Candidate>) {
    forall x :: 0 <= x < |c| ==> Eligible(s, q, c[x].index) && c[x].rarity == Rarity(s, c[x].index)
  }

  /** A candidate list: eligible, distinct, capped. */
  ghost predicate Collected(s: Snapshot, q: Request, c: seq<Candidate>) {
    AllEligible(s, q, c) && Distinct(c) && |c| <= PICK_CANDIDATE_CAP
  }

  ghost function IndexSet(c: seq<Candidate>): (r: set<nat>)
    ensures forall i :: i in r <==> Listed(c, i)
  {
    if c == [] then {}
    else
      var init := c[..|c| - 1];
      assert forall i :: Listed(c, i) <==> Listed(init, i) || i == c[|c| - 1].index by {
        ListedNext(c);
      }
      IndexSet(init) + {c[|c| - 1].index}
  }

  lemma ListedNext(c: seq<Candidate>)
    requires c != []
    ensures forall i :: Listed(c, i) <==> Listed(c[..|c| - 1], i) || i == c[|c| - 1].index
  {
    var init := c[..|c| - 1];
    forall i | Listed(init, i) ensures Listed(c, i) {
      var x :| 0 <= x < |init| && init[x].index == i;
      assert c[x].index == i;
    }
    forall i | Listed(c, i) ensures Listed(init, i) || i == c[|c| - 1].index {
      var x :| 0 <= x < |c| && c[x].index == i;
      if x < |init| {
        assert init[x].index == i;
      }
    }
    assert Listed(c, c[|c| - 1].index);
  }

  lemma {:induction false} IndexSetSize(c: seq<Candidate>)
    requires Distinct(c)
    ensures |IndexSet(c)| == |c|
  {
    if c != [] {
      var init, last := c[..|c| - 1], c[|c| - 1];
      IndexSetSize(init);
      assert !Listed(init, last.index);
    }
  }

  /** A random index; `random_range(0..pc)`. */
  method RandomIndex(pc: nat) returns (i: nat)
    requires pc > 0
    ensures i < pc
  {
    i :| 0 <= i < pc;
  }

  lemma Rotate(start: nat, off: nat, pc: nat)
    requires start < pc && off < pc
    ensures (start + off) % pc == if start + off < pc then start + off else start + off - pc
  {
    if start + off >= pc {
      assert start + off == 1 * pc + (start + off - pc);
    }
  }

  /** Position of index `i` on a walk from `start`. */
  ghost function WalkOffset(start: nat, pc: nat, i: nat): nat
    requires start < pc && i < pc
  {
    if start <= i then i - start else i + pc - start
  }

  /** Walk all indices from a random start until the cap: the list holds every eligible
      piece, or the cap was reached. */
  method ExactWalk(s: Snapshot, q: Request) returns (c: seq<Candidate>)
    requires s.pieceCount > 0
    ensures Collected(s, q, c)
    ensures WalkedAll(s, q, c)
  {
    hide Eligible, Rarity, Collected, Listed, Walked, WalkedAll;
    var pc := s.pieceCount;
    var start := 0;
    if pc > 1 {
      start := RandomIndex(pc);
    }
    c := [];
    var off := 0;
    WalkStart(s, q, start);
    while off < pc && |c| < PICK_CANDIDATE_CAP
      invariant off <= pc
      invariant Collected(s, q, c) && Walked(s, q, start, off, c)
    {
      Rotate(start, off, pc);
      var i := (start + off) % pc;
      ghost var before := c;
      if Eligible(s, q, i) {
        c := c + [Candidate(i, Rarity(s, i))];
        CollectNext(s, q, start, off, before, i);
      }
      WalkNext(s, q, start, off, before, c);
      off := off + 1;
    }
    WalkEnd(s, q, start, off, c);
  }

  /** The list holds exactly what is eligible among the first `off` indices from `start` on. */
  ghost predicate Walked(s: Snapshot, q: Request, start: nat, off: nat, c: seq<Candidate>)
    requires start < s.pieceCount
  {
    && (forall x :: 0 <= x < |c| ==> c[x].index < s.pieceCount && WalkOffset(start, s.pieceCount, c[x].index) < off)
    && forall i: nat :: i < s.pieceCount && WalkOffset(start, s.pieceCount, i) < off && Eligible(s, q, i)
                        ==> Listed(c, i)
  }

  lemma WalkStart(s: Snapshot, q: Request, start: nat)
    requires start < s.pieceCount
    ensures Collected(s, q, []) && Walked(s, q, start, 0, [])
  {}

  lemma WalkEnd(s: Snapshot, q: Request, start: nat, off: nat, c: seq<Candidate>)
    requires start < s.pieceCount && Walked(s, q, start, off, c) && Collected(s, q, c)
    requires off == s.pieceCount || |c| >= PICK_CANDIDATE_CAP
    ensures WalkedAll(s, q, c)
  {
    hide Listed;
    forall i | i in EligibleSet(s, q) ensures off == s.pieceCount ==> Listed(c, i) {
      EligibleInRange(s, q, i);
    }
  }

  /** An eligible piece met for the first time joins the list. */
  lemma CollectNext(s: Snapshot, q: Request, start: nat, off: nat, c: seq<Candidate>, i: nat)
    requires start < s.pieceCount && i < s.pieceCount && WalkOffset(start, s.pieceCount, i) == off
    requires Collected(s, q, c) && Walked(s, q, start, off, c) && |c| < PICK_CANDIDATE_CAP && Eligible(s, q, i)
    ensures var d := c + [Candidate(i, Rarity(s, i))]; Collected(s, q, d) && Listed(d, i)
    ensures var d := c + [Candidate(i, Rarity(s, i))];
            forall x :: 0 <= x < |d| ==> d[x].index < s.pieceCount && WalkOffset(start, s.pieceCount, d[x].index) <= off
  {
    hide Eligible, Rarity;
    var d := c + [Candidate(i, Rarity(s, i))];
    assert d[|d| - 1].index == i;
  }

  /** The walk steps on. */
  lemma WalkNext(s: Snapshot, q: Request, start: nat, off: nat, before: seq<Candidate>, c: seq<Candidate>)
    requires start < s.pieceCount && off < s.pieceCount && Walked(s, q, start, off, before) && before <= c
    requires var at := if start + off < s.pieceCount then start + off else start + off - s.pieceCount;
             Eligible(s, q, at) ==> Listed(c, at)
    requires c == before || forall x :: 0 <= x < |c| ==>
               c[x].index < s.pieceCount && WalkOffset(start, s.pieceCount, c[x].index) <= off
    ensures Walked(s, q, start, off + 1, c)
  {
    hide Eligible;
    var at := if start + off < s.pieceCount then start + off else start + off - s.pieceCount;
    forall i: nat | i < s.pieceCount && WalkOffset(start, s.pieceCount, i) < off + 1 && Eligible(s, q, i)
      ensures Listed(c, i)
    {
      if i != at {
        assert Listed(before, i);
        var x :| 0 <= x < |before| && before[x].index == i;
        assert c[x].index == i;
      }
    }
  }

  lemma EligibleInRange(s: Snapshot, q: Request, i: nat)
    requires Eligible(s, q, i)
    ensures i < s.pieceCount
  {}

  /** Bounded random sample of eligible pieces. */
  method Sample(s: Snapshot, q: Request) returns (c: seq<Candidate>)
    requires s.pieceCount > 0
    ensures Collected(s, q, c)
  {
    hide Eligible, Rarity;
    c := [];
    var n := 0;
    while n < PICK_SAMPLE_ATTEMPTS && |c| < PICK_CANDIDATE_CAP
      invariant Collected(s, q, c)
    {
      var i := RandomIndex(s.pieceCount);
      if Eligible(s, q, i) && !(exists x :: 0 <= x < |c| && c[x].index == i) {
        c := c + [Candidate(i, Rarity(s, i))];
      }
      n := n + 1;
    }
  }

  // ---------------------------------------------------------------- claiming

  /** Claims refused for all but the last entry of `tried`; the last one granted iff `hit`. */
  ghost predicate ClaimsWent(claim: (nat, nat) -> bool, tried: seq<nat>, hit: bool) {
    && (forall k :: 0 <= k < |tried| && (k < |tried| - 1 || !hit) ==> !claim(k, tried[k]))
    && (hit ==> |tried| > 0 && claim(|tried| - 1, tried[|tried| - 1]))
  }

  /** The candidates were offered in order, up to some point. */
  ghost predicate OffersOf(c: seq<Candidate>, offers: seq<nat>) {
    |offers| <= |c| && forall k :: 0 <= k < |offers| ==> offers[k] == c[k].index
  }

  /** Offer the candidates to the claim closure until one is granted. `tried` is the log of
      all offers; the closure may answer by call number as well as by piece. */
  method TryFrom(c: seq<Candidate>, claim: (nat, nat) -> bool, tried0: seq<nat>)
    returns (hit: Option<nat>, tried: seq<nat>)
    requires ClaimsWent(claim, tried0, false)
    ensures tried0 <= tried && OffersOf(c, tried[|tried0|..])
    ensures ClaimsWent(claim, tried, hit.Some?)
    ensures hit.Some? ==> |tried| > |tried0| && tried[|tried| - 1] == hit.value
    ensures hit.None? ==> |tried| == |tried0| + |c|
  {
    tried := tried0;
    var p := 0;
    while p < |c|
      invariant p <= |c| && |tried| == |tried0| + p
      invariant tried0 <= tried
      invariant forall k :: |tried0| <= k < |tried| ==> tried[k] == c[k - |tried0|].index
      invariant ClaimsWent(claim, tried, false)
    {
      var i := c[p].index;
      var granted := claim(|tried|, i);
      tried := tried + [i];
      if granted {
        return Some(i), tried;
      }
      p := p + 1;
    }
    hit := None;
  }

  /** Indices of `EligibleSet` were all offered, or the cap's worth of them were. */
  ghost predicate Exhausted(s: Snapshot, q: Request, tried: seq<nat>) {
    || (forall i :: i in EligibleSet(s, q) ==> i in tried)
    || |Members(tried)| >= PICK_CANDIDATE_CAP
  }

  /** No eligible piece that sorts before `i` was passed over. */
  ghost predicate BestClaimable(s: Snapshot, q: Request, tried: seq<nat>, i: nat) {
    forall j :: j in EligibleSet(s, q) && Before(OrderOf(s, q), Candidate(j, Rarity(s, j)), Candidate(i, Rarity(s, i)))
                ==> j in tried
  }

  /** The offers go from rarest to most common; with the races first, those in flight come
      before all others, and on either side the rarest come first. */
  ghost predicate InRank(s: Snapshot, races: bool, offers: seq<nat>) {
    forall x, y :: 0 <= x < y < |offers| ==>
      && (races && offers[y] in s.inFlight ==> offers[x] in s.inFlight)
      && (!races || (offers[x] in s.inFlight <==> offers[y] in s.inFlight) ==>
            Rarity(s, offers[x]) <= Rarity(s, offers[y]))
  }

  lemma OffersInRank(s: Snapshot, q: Request, o: Order, c: seq<Candidate>, offers: seq<nat>)
    requires Collected(s, q, c) && Sorted(o, c) && OffersOf(c, offers)
    requires o.RacesFirst? ==> o.inFlight == s.inFlight
    ensures InRank(s, o.RacesFirst?, offers)
  {
    hide Eligible, Rarity;
    forall x, y | 0 <= x < y < |offers|
      ensures o.RacesFirst? && offers[y] in s.inFlight ==> offers[x] in s.inFlight
      ensures !o.RacesFirst? || (offers[x] in s.inFlight <==> offers[y] in s.inFlight) ==>
                Rarity(s, offers[x]) <= Rarity(s, offers[y])
    {
      assert !Before(o, c[y], c[x]);
    }
  }

  /** What sorting before means, in the availability counts themselves. */
  lemma BestIsRarest(s: Snapshot, q: Request, pool: set<nat>, i: nat)
    requires forall j :: j in pool ==>
               !Before(OrderOf(s, q), Candidate(j, Rarity(s, j)), Candidate(i, Rarity(s, i)))
    ensures !q.endgame ==> forall j :: j in pool ==> Rarity(s, i) <= Rarity(s, j)
    ensures q.endgame ==> forall j :: j in pool && j in s.inFlight ==> i in s.inFlight
    ensures q.endgame ==>
              forall j :: j in pool && (j in s.inFlight <==> i in s.inFlight) ==> Rarity(s, i) <= Rarity(s, j)
  {
    hide Rarity;
  }

  /** Of the eligible pieces outside `out` none is rarer than `i`; in endgame `i` is in flight if
      one of them is, and is compared with those on its side. */
  ghost predicate Rarest(s: Snapshot, q: Request, out: set<nat>, i: nat) {
    forall j :: j in EligibleSet(s, q) && j !in out ==>
      && (q.endgame && j in s.inFlight ==> i in s.inFlight)
      && (!q.endgame || (j in s.inFlight <==> i in s.inFlight) ==> Rarity(s, i) <= Rarity(s, j))
  }

  /** Every offer was an eligible piece; every refusal was one; the single grant, if any,
      is the result. */
  ghost predicate Sound(s: Snapshot, q: Request, claim: (nat, nat) -> bool, tried: seq<nat>, r: Option<nat>) {
    && (forall k :: 0 <= k < |tried| ==> Eligible(s, q, tried[k]))
    && ClaimsWent(claim, tried, r.Some?)
    && (r.Some? ==> tried[|tried| - 1] == r.value)
  }

  function OrderOf(s: Snapshot, q: Request): Order {
    if q.endgame then RacesFirst(s.inFlight) else ByRarity
  }

  lemma SortedCollected(s: Snapshot, q: Request, o: Order, c: seq<Candidate>)
    requires Collected(s, q, c)
    ensures Collected(s, q, Sort(o, c)) && Sorted(o, Sort(o, c))
    ensures forall i :: Listed(Sort(o, c), i) <==> Listed(c, i)
    ensures |Sort(o, c)| == |c|
  {
    hide Eligible, Rarity, Sorted, Sort;
    SortSorts(o, c);
    var r := Sort(o, c);
    assert |multiset(r)| == |r| && |multiset(c)| == |c|;
    DistinctPermuted(c, r);
    PermutedMembers(c, r);
    PermutedListed(c, r);
    PermutedListed(r, c);
  }

  lemma PermutedMembers(c: seq<Candidate>, r: seq<Candidate>)
    requires multiset(r) == multiset(c)
    ensures forall x :: 0 <= x < |r| ==> r[x] in c
  {
    forall x | 0 <= x < |r| ensures r[x] in c {
      assert r[x] in multiset(r);
    }
  }

  lemma PermutedListed(c: seq<Candidate>, r: seq<Candidate>)
    requires multiset(r) == multiset(c)
    ensures forall i :: Listed(r, i) ==> Listed(c, i)
  {
    PermutedMembers(c, r);
    forall i | Listed(r, i) ensures Listed(c, i) {
      var x :| 0 <= x < |r| && r[x].index == i;
      assert r[x] in c;
    }
  }

  lemma DistinctPermuted(c: seq<Candidate>, r: seq<Candidate>)
    requires multiset(r) == multiset(c) && Distinct(c)
    ensures Distinct(r)
  {
    forall x, y | 0 <= x < y < |r| ensures r[x].index != r[y].index {
      if r[x].index == r[y].index {
        assert r[x] in multiset(r) && r[y] in multiset(r);
        var a :| 0 <= a < |c| && c[a] == r[x];
        var b :| 0 <= b < |c| && c[b] == r[y];
        assert a == b;
        Twice(r, x, y);
        Once(c, a);
      }
    }
  }

  lemma Twice(r: seq<Candidate>, x: nat, y: nat)
    requires x < y < |r| && r[x] == r[y]
    ensures multiset(r)[r[x]] >= 2
  {
    assert r == r[..x] + [r[x]] + r[x + 1..y] + [r[y]] + r[y + 1..];
  }

  lemma Once(c: seq<Candidate>, a: nat)
    requires Distinct(c) && a < |c|
    ensures multiset(c)[c[a]] == 1
  {
    assert c == c[..a] + [c[a]] + c[a + 1..];
    assert c[a] !in c[..a] && c[a] !in c[a + 1..];
  }

  /** After a walk that found nothing claimable, everything eligible was offered, or the
      cap was. */
  lemma WalkExhausts(s: Snapshot, q: Request, c: seq<Candidate>, tried0: seq<nat>, tried: seq<nat>)
    requires Collected(s, q, c)
    requires WalkedAll(s, q, c)
    requires tried0 <= tried && |tried| == |tried0| + |c| && OffersOf(c, tried[|tried0|..])
    ensures Exhausted(s, q, tried)
  {
    hide Eligible, Rarity;
    forall i | Listed(c, i) ensures i in tried {
      var x :| 0 <= x < |c| && c[x].index == i;
      assert tried[|tried0| + x] == tried[|tried0|..][x] == i;
    }
    if |c| == PICK_CANDIDATE_CAP {
      IndexSetSize(c);
      forall i | i in IndexSet(c) ensures i in tried {
        assert Listed(c, i);
      }
      SubsetSize(IndexSet(c), Members(tried));
    }
  }

  /** Offering a complete, sorted list in order passes nothing better over. */
  lemma WalkPicksBest(s: Snapshot, q: Request, c: seq<Candidate>, tried: seq<nat>, i: nat)
    requires Collected(s, q, c) && Sorted(OrderOf(s, q), c)
    requires forall j :: j in EligibleSet(s, q) ==> Listed(c, j)
    requires tried != [] && OffersOf(c, tried) && tried[|tried| - 1] == i
    ensures BestClaimable(s, q, tried, i)
  {
    hide Eligible, Rarity;
    var o := OrderOf(s, q);
    forall j | j in EligibleSet(s, q) && Before(o, Candidate(j, Rarity(s, j)), Candidate(i, Rarity(s, i)))
      ensures j in tried
    {
      var x :| 0 <= x < |c| && c[x].index == j;
      assert c[x] == Candidate(j, Rarity(s, j)) && c[|tried| - 1] == Candidate(i, Rarity(s, i));
      assert x < |tried|;
      assert tried[x] == j;
    }
  }

  lemma FewEligibleListed(s: Snapshot, q: Request, c: seq<Candidate>)
    requires Collected(s, q, c) && |EligibleSet(s, q)| <= PICK_CANDIDATE_CAP
    requires WalkedAll(s, q, c)
    ensures forall i :: i in EligibleSet(s, q) ==> Listed(c, i)
  {
    hide Eligible, Rarity;
    if |c| == PICK_CANDIDATE_CAP {
      IndexSetSize(c);
      forall i | i in IndexSet(c) ensures i in EligibleSet(s, q) {
        var x :| 0 <= x < |c| && c[x].index == i;
        EligibleInRange(s, q, i);
      }
      SubsetSize(IndexSet(c), EligibleSet(s, q));
      forall i | i in EligibleSet(s, q) ensures Listed(c, i) {
        assert i in IndexSet(c);
      }
    }
  }

  /** The list holds everything eligible, or the cap was reached collecting it. */
  ghost predicate WalkedAll(s: Snapshot, q: Request, c: seq<Candidate>) {
    |c| == PICK_CANDIDATE_CAP || forall i :: i in EligibleSet(s, q) ==> Listed(c, i)
  }

  /** First list of candidates, and whether it comes from an exact walk. */
  method FirstCandidates(s: Snapshot, q: Request) returns (c: seq<Candidate>, exact: bool)
    requires s.pieceCount > 0
    ensures Collected(s, q, c)
    ensures exact ==> WalkedAll(s, q, c)
    ensures s.missing <= PICK_CANDIDATE_CAP ==> exact
  {
    hide Collected, EligibleSet;
    if s.pieceCount <= PICK_SAMPLE_ATTEMPTS {
      c := ExactWalk(s, q);
    } else {
      c := Sample(s, q);
    }
    exact := c == [] || s.missing <= PICK_CANDIDATE_CAP;
    if exact {
      c := ExactWalk(s, q);
    }
  }

  /** Put a candidate list in order, unless the random-first mode keeps it as drawn. */
  method Rank(s: Snapshot, q: Request, o: Order, sort: bool, c: seq<Candidate>) returns (r: seq<Candidate>)
    requires Collected(s, q, c)
    ensures Collected(s, q, r) && (WalkedAll(s, q, c) ==> WalkedAll(s, q, r))
    ensures sort ==> Sorted(o, r)
  {
    hide Collected, EligibleSet, Sorted, Sort;
    if sort {
      SortedCollected(s, q, o, c);
      return Sort(o, c);
    }
    return c;
  }

  /** `pick_rarest_piece`, after the snapshot. `tried` lists the indices offered to the
      claim closure, in order; the first `cut` are from the first list of candidates. Early
      in a large torrent the offers are in random order, and in rank otherwise. */
  method Pick(s: Snapshot, q: Request, claim: (nat, nat) -> bool)
    returns (r: Option<nat>, tried: seq<nat>, ghost cut: nat)
    ensures Sound(s, q, claim, tried, r)
    ensures r.None? ==> Exhausted(s, q, tried)
    ensures s.missing <= PICK_CANDIDATE_CAP && |EligibleSet(s, q)| <= PICK_CANDIDATE_CAP && r.Some?
            ==> Rarest(s, q, Members(tried), r.value)
    ensures cut <= |tried|
    ensures q.endgame || s.haveCount >= 4 || s.pieceCount < 16 || s.missing <= 32 ==>
              InRank(s, q.endgame, tried[..cut]) && InRank(s, false, tried[cut..])
  {
    hide Eligible, Rarity, EligibleSet, Exhausted, InRank, Rarest, Sound, Members;
    NoOffersInRank(s);
    if s.pieceCount == 0 {
      NothingToPick(s, q);
      NothingOffered(s, q, claim);
      CutJoin<nat>([], []);
      return None, [], 0;
    }
    var randomFirst := !q.endgame && s.haveCount < INITIAL_RANDOM_PIECES
                       && s.pieceCount >= INITIAL_RANDOM_MIN_PC && s.missing > PICK_CANDIDATE_CAP;
    var exact;
    r, tried, exact := PickFirst(s, q, claim, !randomFirst);
    cut := |tried|;
    CutJoin(tried, []);
    if r.None? && !exact {
      r, tried := PickAgain(s, q, claim, !randomFirst, tried);
    }
  }

  /** The first part of `pick_rarest_piece`: a sample, or a full walk where few pieces are
      missing or the sample found nothing. */
  method PickFirst(s: Snapshot, q: Request, claim: (nat, nat) -> bool, sort: bool)
    returns (r: Option<nat>, tried: seq<nat>, exact: bool)
    requires s.pieceCount > 0 && (q.endgame || s.missing <= PICK_CANDIDATE_CAP ==> sort)
    ensures Sound(s, q, claim, tried, r)
    ensures r.None? && exact ==> Exhausted(s, q, tried)
    ensures s.missing <= PICK_CANDIDATE_CAP && |EligibleSet(s, q)| <= PICK_CANDIDATE_CAP && r.Some?
            ==> Rarest(s, q, Members(tried), r.value)
    ensures s.missing <= PICK_CANDIDATE_CAP ==> exact
    ensures sort ==> InRank(s, q.endgame, tried)
  {
    hide Eligible, Rarity, Before, EligibleSet, Sorted, Exhausted, InRank, WalkedAll, Rarest, Collected, Sound,
         ClaimsWent, Members, OffersOf;
    NothingOffered(s, q, claim);
    var candidates;
    candidates, exact := FirstCandidates(s, q);
    candidates := Rank(s, q, OrderOf(s, q), sort, candidates);
    r, tried := TryFrom(candidates, claim, []);
    assert tried[0..] == tried;
    OffersSound(s, q, claim, candidates, [], tried, r);
    if sort {
      OffersInRank(s, q, OrderOf(s, q), candidates, tried);
    }
    if r.None? && exact {
      WalkExhausts(s, q, candidates, [], tried);
    }
    if r.Some? && s.missing <= PICK_CANDIDATE_CAP && |EligibleSet(s, q)| <= PICK_CANDIDATE_CAP {
      FirstOfferedBest(s, q, candidates, tried, r.value);
    }
  }

  /** With few pieces eligible the first one granted off a sorted walk is the rarest. */
  lemma FirstOfferedBest(s: Snapshot, q: Request, c: seq<Candidate>, tried: seq<nat>, i: nat)
    requires Collected(s, q, c) && WalkedAll(s, q, c) && Sorted(OrderOf(s, q), c)
    requires |EligibleSet(s, q)| <= PICK_CANDIDATE_CAP
    requires tried != [] && OffersOf(c, tried) && tried[|tried| - 1] == i
    ensures Rarest(s, q, Members(tried), i)
  {
    hide Eligible, Rarity, Before, Sorted, Collected, WalkedAll, EligibleSet, BestClaimable, Rarest, Listed;
    FewEligibleListed(s, q, c);
    WalkPicksBest(s, q, c, tried, i);
    ClaimableIsRarest(s, q, tried, i);
  }

  /** The second part of `pick_rarest_piece`: a full walk after a sample all refused. */
  method PickAgain(s: Snapshot, q: Request, claim: (nat, nat) -> bool, sort: bool, first: seq<nat>)
    returns (r: Option<nat>, tried: seq<nat>)
    requires s.pieceCount > 0 && Sound(s, q, claim, first, None)
    ensures Sound(s, q, claim, tried, r)
    ensures r.None? ==> Exhausted(s, q, tried)
    ensures first <= tried && tried[..|first|] == first
    ensures sort ==> InRank(s, false, tried[|first|..])
  {
    hide Eligible, Rarity, Before, EligibleSet, Sorted, Exhausted, InRank, WalkedAll, Collected, ClaimsWent, OffersOf;
    var candidates := ExactWalk(s, q);
    candidates := Rank(s, q, ByRarity, sort, candidates);
    r, tried := TryFrom(candidates, claim, first);
    OffersSound(s, q, claim, candidates, first, tried, r);
    if sort {
      OffersInRank(s, q, ByRarity, candidates, tried[|first|..]);
    }
    if r.None? {
      WalkExhausts(s, q, candidates, first, tried);
    }
  }

  lemma NothingOffered(s: Snapshot, q: Request, claim: (nat, nat) -> bool)
    ensures Sound(s, q, claim, [], None) && ClaimsWent(claim, [], false)
  {}

  /** Offers off a candidate list after a list all refused. */
  lemma OffersSound(s: Snapshot, q: Request, claim: (nat, nat) -> bool, c: seq<Candidate>, tried0: seq<nat>,
                    tried: seq<nat>, hit: Option<nat>)
    requires Collected(s, q, c) && Sound(s, q, claim, tried0, None)
    requires tried0 <= tried && OffersOf(c, tried[|tried0|..])
    requires ClaimsWent(claim, tried, hit.Some?)
    requires hit.Some? ==> tried[|tried| - 1] == hit.value
    ensures Sound(s, q, claim, tried, hit)
    ensures hit.None? ==> ClaimsWent(claim, tried, false)
  {
    hide Eligible, Rarity, ClaimsWent;
    forall k | 0 <= k < |tried| ensures Eligible(s, q, tried[k]) {
      if k < |tried0| {
        assert tried[k] == tried0[k];
      } else {
        assert tried[k] == tried[|tried0|..][k - |tried0|];
      }
    }
  }

  lemma NoOffersInRank(s: Snapshot)
    ensures InRank(s, true, []) && InRank(s, false, [])
  {}

  lemma NothingToPick(s: Snapshot, q: Request)
    requires s.pieceCount == 0
    ensures Exhausted(s, q, [])
  {}

  lemma MembersOfNone(tried: seq<nat>)
    ensures tried == [] ==> Members(tried) == {}
  {}

  /** With every claim on an eligible piece granted, the picker finds one whenever one
      exists: an exhausted list of refusals would be empty. */
  lemma PicksWhenClaimsSucceed(s: Snapshot, q: Request, claim: (nat, nat) -> bool, tried: seq<nat>, r: Option<nat>)
    requires Sound(s, q, claim, tried, r) && (r.None? ==> Exhausted(s, q, tried))
    requires forall k: nat, i: nat :: Eligible(s, q, i) ==> claim(k, i)
    requires EligibleSet(s, q) != {}
    ensures r.Some?
  {
    hide Eligible;
    MembersOfNone(tried);
  }

  /** When the answer of the claim depends only on the piece, the piece picked is
      claimable and no eligible claimable piece is rarer; in endgame it is in flight if any
      claimable one is. */
  lemma RarestClaimable(s: Snapshot, q: Request, free: set<nat>, claim: (nat, nat) -> bool, tried: seq<nat>,
                        i: nat, j: nat)
    requires Sound(s, q, claim, tried, Some(i)) && Rarest(s, q, Members(tried), i)
    requires forall k: nat, x: nat :: claim(k, x) <==> x in free
    requires j in EligibleSet(s, q) && j in free
    ensures i in free && i in EligibleSet(s, q)
    ensures !q.endgame ==> Rarity(s, i) <= Rarity(s, j)
    ensures q.endgame && j in s.inFlight ==> i in s.inFlight
    ensures q.endgame && (j in s.inFlight <==> i in s.inFlight) ==> Rarity(s, i) <= Rarity(s, j)
  {
    hide Eligible, Rarity;
    EligibleInRange(s, q, i);
  }

  // ---------------------------------------------------------------- with a claim that is granted or not by piece

  /** Nothing eligible is free, or a cap's worth of eligible pieces is not. */
  ghost predicate RacedAway(s: Snapshot, q: Request, free: set<nat>) {
    EligibleSet(s, q) !! free || |EligibleSet(s, q) - free| >= PICK_CANDIDATE_CAP
  }

  /** A walk all of whose candidates are refused leaves nothing free behind, up to the cap. */
  lemma WalkRacedAway(s: Snapshot, q: Request, c: seq<Candidate>, free: set<nat>)
    requires Collected(s, q, c) && WalkedAll(s, q, c)
    requires forall x :: 0 <= x < |c| ==> c[x].index !in free
    ensures RacedAway(s, q, free)
  {
    hide Eligible, Rarity;
    if |c| == PICK_CANDIDATE_CAP {
      IndexSetSize(c);
      forall i | i in IndexSet(c) ensures i in EligibleSet(s, q) - free {
        var x :| 0 <= x < |c| && c[x].index == i;
        EligibleInRange(s, q, i);
      }
      SubsetSize(IndexSet(c), EligibleSet(s, q) - free);
    } else {
      forall i | i in EligibleSet(s, q) ensures i !in free {
        var x :| 0 <= x < |c| && c[x].index == i;
      }
    }
  }

  /** The first free candidate of a complete, sorted list is the rarest free piece; with the
      races first it is in flight if any free one is. */
  lemma FirstFreeIsBest(s: Snapshot, q: Request, c: seq<Candidate>, at: nat, out: set<nat>)
    requires Collected(s, q, c) && Sorted(OrderOf(s, q), c) && at < |c|
    requires forall j :: j in EligibleSet(s, q) ==> Listed(c, j)
    requires forall x :: 0 <= x < at ==> c[x].index in out
    ensures Rarest(s, q, out, c[at].index)
  {
    hide Eligible, Rarity;
    var o, i := OrderOf(s, q), c[at].index;
    forall j | j in EligibleSet(s, q) && j !in out
      ensures !Before(o, Candidate(j, Rarity(s, j)), Candidate(i, Rarity(s, i)))
    {
      var x :| 0 <= x < |c| && c[x].index == j;
      assert c[x] == Candidate(j, Rarity(s, j)) && c[at] == Candidate(i, Rarity(s, i));
      assert at <= x;
      if x == at {
        BeforeOrder(o, c[at], c[at], c[at]);
      }
    }
    BestIsRarest(s, q, EligibleSet(s, q) - out, i);
    BestIsRarest(s, q, EligibleSet(s, q) - out, i);
  }

  lemma ClaimableIsRarest(s: Snapshot, q: Request, tried: seq<nat>, i: nat)
    requires BestClaimable(s, q, tried, i)
    ensures Rarest(s, q, Members(tried), i)
  {
    hide Eligible, Rarity, Before, EligibleSet;
    BestIsRarest(s, q, EligibleSet(s, q) - Members(tried), i);
  }

  lemma EligibleBelow(s: Snapshot, q: Request, i: nat)
    requires i in EligibleSet(s, q)
    ensures i < s.pieceCount
  {}

  lemma NothingEligible(s: Snapshot, q: Request, free: set<nat>)
    requires s.pieceCount == 0
    ensures RacedAway(s, q, free)
  {}

  lemma CandidateEligible(s: Snapshot, q: Request, c: seq<Candidate>, x: nat)
    requires Collected(s, q, c) && x < |c|
    ensures c[x].index in EligibleSet(s, q) && c[x].index < s.pieceCount
  {}

  /** When everything eligible is free, giving up means nothing was eligible. */
  lemma RacedAwayAtomic(s: Snapshot, q: Request, free: set<nat>)
    requires EligibleSet(s, q) <= free
    ensures RacedAway(s, q, free) ==> EligibleSet(s, q) == {}
  {
    hide EligibleSet;
    assert EligibleSet(s, q) - free == {};
    assert EligibleSet(s, q) * free == EligibleSet(s, q);
  }
}
