/** One connection's contribution to the swarm's per-piece availability
    (`crates/engine/src/hot/peer_avail.rs`), and the whole swarm as a state machine whose
    steps are the single lock sections of the source. */
module PeerAvailabilities {
  import opened Bits
  import opened HotTorrents
  import opened Spans
  import P = Possession

  class PeerAvailability {
    const torrent: HotTorrent
    var bf: seq<byte>

    ghost predicate Valid()
      reads this, torrent
    {
      torrent.Valid() && |bf| == SizeBytes(torrent.pieceCount)
    }

    constructor (t: HotTorrent)
      requires t.Valid()
      ensures Valid() && torrent == t && bf == Empty(t.pieceCount)
    {
      torrent := t;
      bf := Empty(t.pieceCount);
    }

    /** `on_bitfield`: take the old contribution out, then put the new one in. */
    method OnBitfield(wire: seq<byte>)
      requires Valid()
      modifies this`bf, torrent`availability
      ensures Valid() && bf == Fitted(wire, torrent.pieceCount)
      ensures torrent.availability == AddBits(SubBits(old(torrent.availability), old(bf)), bf)
      ensures forall i: nat :: i < torrent.pieceCount ==> (Get(bf, i) <==> Get(wire, i))
    {
      hide HotTorrent.Valid, Get, AddBits, SubBits;
      torrent.AvailSubBitfield(bf);
      var n := if |wire| < |bf| then |wire| else |bf|;
      bf := seq(|bf|, _ => 0);
      bf := wire[..n] + bf[n..];
      torrent.AvailAddBitfield(bf);
    }

    /** `on_have`: out of range or already known indices change nothing. */
    method OnHave(index: nat)
      requires Valid()
      modifies this`bf, torrent`availability
      ensures Valid()
      ensures bf == Learned(old(bf), torrent.pieceCount, index)
      ensures torrent.availability
           == if News(old(bf), torrent.pieceCount, index) then IncAt(old(torrent.availability), index)
              else old(torrent.availability)
      ensures forall i: nat :: i < torrent.pieceCount ==> (Get(bf, i) <==> Get(old(bf), i) || i == index)
      ensures |torrent.availability| == |old(torrent.availability)|
      ensures forall i :: 0 <= i < |torrent.availability| ==>
                torrent.availability[i] == if i == index && !Get(old(bf), i)
                                           then Min(old(torrent.availability)[i] + 1, 65535)
                                           else old(torrent.availability)[i]
    {
      HaveMeans(torrent.availability, bf, torrent.pieceCount, index);
      hide HotTorrent.Valid, Get, IncAt, Learned, News;
      if index >= torrent.pieceCount || Get(bf, index) {
        return;
      }
      bf := Set(bf, index);
      torrent.AvailInc(index);
    }

    /** `drop`. */
    method Drop()
      requires Valid()
      modifies torrent`availability
      ensures Valid() && torrent.availability == SubBits(old(torrent.availability), bf)
    {
      hide HotTorrent.Valid, Get, SubBits;
      torrent.AvailSubBitfield(bf);
    }
  }

  lemma HaveMeans(a: seq<nat>, bf: seq<byte>, n: nat, index: nat)
    requires |bf| == SizeBytes(n)
    ensures !News(bf, n, index) <==> index >= n || Get(bf, index)
    ensures forall i: nat :: i < n ==> (Get(Learned(bf, n, index), i) <==> Get(bf, i) || i == index)
    ensures |IncAt(a, index)| == |a|
    ensures forall i :: 0 <= i < |a| ==> IncAt(a, index)[i] == if i == index then Min(a[i] + 1, 65535) else a[i]
  {
    hide Get, Set;
    assert index < n ==> index / 8 < |bf|;
  }

  /** A wire bitfield cut or zero-filled to the torrent's length. */
  function Fitted(wire: seq<byte>, n: nat): (r: seq<byte>)
    ensures |r| == SizeBytes(n)
    ensures forall i: nat :: i < n ==> (Get(r, i) <==> Get(wire, i))
  {
    var k := if |wire| < SizeBytes(n) then |wire| else SizeBytes(n);
    wire[..k] + seq(SizeBytes(n) - k, _ => 0)
  }

  predicate News(bf: seq<byte>, n: nat, index: nat) {
    index < n && !Get(bf, index)
  }

  function Learned(bf: seq<byte>, n: nat, index: nat): seq<byte> {
    if News(bf, n, index) then Set(bf, index) else bf
  }

  // ---------------------------------------------------------------- the swarm

  /** A live connection: what it advertises, and whether that is counted right now.
      Between the two halves of `on_bitfield` nothing of it is counted. */
  datatype Conn = Settled(bf: seq<byte>) | Swapping(next: seq<byte>)

  predicate Counts(c: Conn, i: nat) {
    c.Settled? && Get(c.bf, i)
  }

  datatype Swarm = Swarm(avail: seq<nat>, conns: map<nat, Conn>)

  datatype Event =
    | Opened(id: nat)
    | BitfieldOut(id: nat, wire: seq<byte>)
    | BitfieldIn(id: nat)
    | HaveSeen(id: nat, index: nat)
    | Closed(id: nat)

  /** One lock section of one connection. */
  ghost predicate Next(s: Swarm, e: Event, t: Swarm) {
    var n := |s.avail|;
    match e
    case Opened(id) =>
      id !in s.conns && t == Swarm(s.avail, s.conns[id := Settled(Empty(n))])
    case BitfieldOut(id, wire) =>
      && id in s.conns && s.conns[id].Settled?
      && t == Swarm(SubBits(s.avail, s.conns[id].bf), s.conns[id := Swapping(Fitted(wire, n))])
    case BitfieldIn(id) =>
      && id in s.conns && s.conns[id].Swapping?
      && t == Swarm(AddBits(s.avail, s.conns[id].next), s.conns[id := Settled(s.conns[id].next)])
    case HaveSeen(id, index) =>
      && id in s.conns && s.conns[id].Settled?
      && t == Swarm(if News(s.conns[id].bf, n, index) then IncAt(s.avail, index) else s.avail,
                    s.conns[id := Settled(Learned(s.conns[id].bf, n, index))])
    case Closed(id) =>
      && id in s.conns && s.conns[id].Settled?
      && t == Swarm(SubBits(s.avail, s.conns[id].bf), s.conns - {id})
  }

  /** The live connections advertising piece `i`. */
  ghost function Advertisers(conns: map<nat, Conn>, i: nat): set<nat> {
    set c | c in conns && Counts(conns[c], i)
  }

  /** The counters are 16 bits wide and every bitfield has the torrent's length. */
  ghost predicate Shaped(s: Swarm) {
    && (forall i :: 0 <= i < |s.avail| ==> s.avail[i] <= U16_MAX)
    && (forall c | c in s.conns ::
          |if s.conns[c].Settled? then s.conns[c].bf else s.conns[c].next| == SizeBytes(|s.avail|))
  }

  /** The counter of piece `i` is the number of its advertisers. */
  ghost predicate PieceExact(s: Swarm, i: nat)
    requires i < |s.avail|
  {
    s.avail[i] == |Advertisers(s.conns, i)|
  }

  ghost predicate CountsExact(s: Swarm) {
    forall i :: 0 <= i < |s.avail| ==> PieceExact(s, i)
  }

  /** At most 65535 connections advertise piece `i`. */
  ghost predicate PieceFits(s: Swarm, i: nat) {
    |Advertisers(s.conns, i)| <= U16_MAX
  }

  lemma FewAdvertisers(conns: map<nat, Conn>, i: nat)
    ensures |Advertisers(conns, i)| <= |conns|
  {
    SubsetSize(Advertisers(conns, i), conns.Keys);
  }

  /** How the advertisers of one piece move when one connection is replaced. */
  lemma AdvertisersMove(conns: map<nat, Conn>, id: nat, c: Conn, i: nat)
    ensures id !in conns ==> Advertisers(conns[id := c], i) == Advertisers(conns, i) + if Counts(c, i) then {id} else {}
    ensures id !in Advertisers(conns, i) - {id}
    ensures Advertisers(conns[id := c], i) == (Advertisers(conns, i) - {id}) + if Counts(c, i) then {id} else {}
    ensures Advertisers(conns - {id}, i) == Advertisers(conns, i) - {id}
    ensures id in Advertisers(conns, i) <==> id in conns && Counts(conns[id], i)
  {
    hide Counts;
  }

  lemma ReplaceCount(conns: map<nat, Conn>, id: nat, c: Conn, i: nat)
    requires id in conns
    ensures |Advertisers(conns[id := c], i)|
         == |Advertisers(conns, i)| - (if Counts(conns[id], i) then 1 else 0) + (if Counts(c, i) then 1 else 0)
    ensures |Advertisers(conns - {id}, i)| == |Advertisers(conns, i)| - (if Counts(conns[id], i) then 1 else 0)
  {
    hide Counts, Advertisers;
    AdvertisersMove(conns, id, c, i);
  }

  lemma OpenCount(conns: map<nat, Conn>, id: nat, n: nat, i: nat)
    requires id !in conns
    ensures |Advertisers(conns[id := Settled(Empty(n))], i)| == |Advertisers(conns, i)|
  {
    hide Advertisers;
    AdvertisersMove(conns, id, Settled(Empty(n)), i);
  }

  /** One lock section at one piece whose count is exact: the count stays exact exactly when
      the advertisers still fit 16 bits, and is one short when they do not. */
  lemma StepCount(s: Swarm, e: Event, t: Swarm, i: nat)
    requires Shaped(s) && Next(s, e, t) && i < |s.avail| && PieceExact(s, i)
    ensures |t.avail| == |s.avail|
    ensures PieceExact(t, i) <==> PieceFits(t, i)
    ensures !PieceFits(t, i) ==> t.avail[i] == |Advertisers(t.conns, i)| - 1
  {
    hide Get, Advertisers, Set;
    match e
    case Opened(id) => OpenCount(s.conns, id, |s.avail|, i);
    case BitfieldOut(id, wire) => ReplaceCount(s.conns, id, t.conns[id], i);
    case BitfieldIn(id) => ReplaceCount(s.conns, id, t.conns[id], i);
    case HaveSeen(id, index) => ReplaceCount(s.conns, id, t.conns[id], i);
    case Closed(id) => ReplaceCount(s.conns, id, Settled([]), i);
  }

  lemma StepShaped(s: Swarm, e: Event, t: Swarm)
    requires Shaped(s) && Next(s, e, t)
    ensures Shaped(t) && |t.avail| == |s.avail|
  {
    hide Get;
  }

  /** One lock section keeps all counts exact exactly when every piece's advertisers still
      fit 16 bits, however many connections are live. */
  lemma StepExact(s: Swarm, e: Event, t: Swarm)
    requires CountsExact(s) && Shaped(s) && Next(s, e, t)
    ensures |t.avail| == |s.avail| && Shaped(t)
    ensures CountsExact(t) <==> forall i :: 0 <= i < |s.avail| ==> PieceFits(t, i)
  {
    StepShaped(s, e, t);
    hide Next, Shaped, PieceExact, PieceFits;
    forall i | 0 <= i < |t.avail| ensures PieceExact(t, i) <==> PieceFits(t, i) {
      StepCount(s, e, t, i);
    }
  }

  /** A run: nobody connected at first, every event one lock section. */
  ghost predicate IsRun(pieces: nat, events: seq<Event>, states: seq<Swarm>) {
    && |states| == |events| + 1
    && states[0] == Swarm(seq(pieces, _ => 0), map[])
    && forall k :: 0 <= k < |events| ==> Next(states[k], events[k], states[k + 1])
  }

  /** The counters have their width and length in every run. */
  lemma {:induction false} RunShape(pieces: nat, events: seq<Event>, states: seq<Swarm>, k: nat)
    requires IsRun(pieces, events, states) && k < |states|
    ensures |states[k].avail| == pieces && Shaped(states[k])
  {
    hide Next;
    if k > 0 {
      RunShape(pieces, events, states, k - 1);
      assert Next(states[k - 1], events[k - 1], states[k - 1 + 1]);
      StepShaped(states[k - 1], events[k - 1], states[k]);
    }
  }

  /** If a piece never has more than 65535 advertisers, its count is exact throughout. */
  lemma {:induction false} FittingCountsExactly(pieces: nat, events: seq<Event>, states: seq<Swarm>, k: nat, i: nat)
    requires IsRun(pieces, events, states) && k < |states| && i < pieces
    requires forall j :: 0 <= j <= k ==> PieceFits(states[j], i)
    ensures |states[k].avail| == pieces && PieceExact(states[k], i)
  {
    hide Next, PieceExact, PieceFits, Shaped;
    RunShape(pieces, events, states, k);
    if k == 0 {
      NobodyCounts(pieces, i);
    } else {
      FittingCountsExactly(pieces, events, states, k - 1, i);
      RunShape(pieces, events, states, k - 1);
      assert Next(states[k - 1], events[k - 1], states[k - 1 + 1]);
      StepCount(states[k - 1], events[k - 1], states[k], i);
    }
  }

  lemma NobodyCounts(pieces: nat, i: nat)
    requires i < pieces
    ensures PieceExact(Swarm(seq(pieces, _ => 0), map[]), i)
  {
    assert Advertisers(map[], i) == {};
  }

  /** In every run and for every piece: availability is the number of advertising connections
      at every moment up to now exactly when at no moment more than 65535 advertised it. */
  lemma AvailabilityCountsAdvertisers(pieces: nat, events: seq<Event>, states: seq<Swarm>, k: nat, i: nat)
    requires IsRun(pieces, events, states) && k < |states| && i < pieces
    ensures forall j :: 0 <= j <= k ==> |states[j].avail| == pieces
    ensures (forall j :: 0 <= j <= k ==> PieceExact(states[j], i))
       <==> (forall j :: 0 <= j <= k ==> PieceFits(states[j], i))
  {
    hide IsRun;
    forall j | 0 <= j <= k ensures |states[j].avail| == pieces && Shaped(states[j]) {
      RunShape(pieces, events, states, j);
    }
    if forall j :: 0 <= j <= k ==> PieceFits(states[j], i) {
      forall j | 0 <= j <= k ensures PieceExact(states[j], i) {
        FittingCountsExactly(pieces, events, states, j, i);
      }
    } else {
      var j :| 0 <= j <= k && !PieceFits(states[j], i);
      assert !PieceExact(states[j], i);
    }
  }

  /** In particular no count is ever lost while at most 65535 connections are live. */
  lemma FewConnectionsCountExactly(pieces: nat, events: seq<Event>, states: seq<Swarm>, k: nat, i: nat)
    requires IsRun(pieces, events, states) && k < |states| && i < pieces
    requires forall j :: 0 <= j <= k ==> |states[j].conns| <= U16_MAX
    ensures |states[k].avail| == pieces && PieceExact(states[k], i)
  {
    hide IsRun, Advertisers, PieceExact;
    forall j | 0 <= j <= k ensures PieceFits(states[j], i) {
      FewAdvertisers(states[j].conns, i);
    }
    FittingCountsExactly(pieces, events, states, k, i);
  }

  /** Past the bound, by a HAVE or by a bitfield, the new advertiser is not counted; and when
      an advertiser leaves, the counter is one short of those that remain. */
  lemma PastTheBoundACountIsLost(s: Swarm, e: Event, t: Swarm, i: nat, id: nat, u: Swarm)
    requires Shaped(s) && i < |s.avail| && PieceExact(s, i)
    requires Next(s, e, t) && !PieceFits(t, i)
    requires Next(t, Closed(id), u) && Get(t.conns[id].bf, i)
    ensures t.avail[i] == |Advertisers(t.conns, i)| - 1 == 65535
    ensures |u.avail| == |s.avail| && u.avail[i] == |Advertisers(u.conns, i)| - 1
  {
    StepCount(s, e, t, i);
    StepShaped(s, e, t);
    hide Get, Advertisers;
    ReplaceCount(t.conns, id, Settled([]), i);
  }

  /** What connection `id` said last about piece `i` in the first `k` events: its newest bitfield
      had the bit, or a HAVE came since. */
  ghost predicate Announced(events: seq<Event>, k: nat, id: nat, i: nat)
    requires k <= |events|
  {
    k > 0 && match events[k - 1]
             case Opened(c) => c != id && Announced(events, k - 1, id, i)
             case BitfieldOut(c, wire) => if c == id then Get(wire, i) else Announced(events, k - 1, id, i)
             case BitfieldIn(_) => Announced(events, k - 1, id, i)
             case HaveSeen(c, index) => (c == id && index == i) || Announced(events, k - 1, id, i)
             case Closed(c) => c != id && Announced(events, k - 1, id, i)
  }

  /** A connection was opened and not closed since. */
  ghost predicate Live(events: seq<Event>, k: nat, id: nat)
    requires k <= |events|
  {
    k > 0 && match events[k - 1]
             case Opened(c) => c == id || Live(events, k - 1, id)
             case Closed(c) => c != id && Live(events, k - 1, id)
             case _ => Live(events, k - 1, id)
  }

  function BitsOf(c: Conn): seq<byte> {
    if c.Settled? then c.bf else c.next
  }

  lemma StepBits(s: Swarm, e: Event, t: Swarm, id: nat, i: nat)
    requires Next(s, e, t) && Shaped(s) && i < |s.avail| && id in t.conns
    ensures match e
            case Opened(c) => Get(BitsOf(t.conns[id]), i) <==> c != id && Get(BitsOf(s.conns[id]), i)
            case BitfieldOut(c, wire) =>
              id in s.conns && (Get(BitsOf(t.conns[id]), i) <==> Get(if c == id then wire else BitsOf(s.conns[id]), i))
            case HaveSeen(c, index) =>
              id in s.conns
              && (Get(BitsOf(t.conns[id]), i) <==> (c == id && index == i) || Get(BitsOf(s.conns[id]), i))
            case _ => id in s.conns && (Get(BitsOf(t.conns[id]), i) <==> Get(BitsOf(s.conns[id]), i))
  {
    hide Get, AddBits, SubBits;
  }

  /** In every run the connections kept are those opened and not closed, and the bits kept for
      one are what it announced last, whatever happened to the others. */
  lemma {:induction false} BitsAreAnnounced(pieces: nat, events: seq<Event>, states: seq<Swarm>, k: nat, id: nat,
                                            i: nat)
    requires IsRun(pieces, events, states) && k < |states| && i < pieces
    ensures id in states[k].conns <==> Live(events, k, id)
    ensures id in states[k].conns ==> (Get(BitsOf(states[k].conns[id]), i) <==> Announced(events, k, id, i))
  {
    hide Get, Set, Empty, Next, BitsOf;
    if k > 0 {
      BitsAreAnnounced(pieces, events, states, k - 1, id, i);
      RunShape(pieces, events, states, k - 1);
      assert Next(states[k - 1], events[k - 1], states[k - 1 + 1]);
      StepLive(states[k - 1], events[k - 1], states[k], id);
      if id in states[k].conns {
        StepBits(states[k - 1], events[k - 1], states[k], id, i);
      }
    }
  }

  lemma StepLive(s: Swarm, e: Event, t: Swarm, id: nat)
    requires Next(s, e, t)
    ensures id in t.conns <==> (e == Opened(id) || id in s.conns) && e != Closed(id)
  {
    hide Get, AddBits, SubBits, Fitted;
  }

  // ---------------------------------------------------------------- the bound is reached

  /** `n` connections that each announced piece 0. */
  ghost function Crowd(n: nat): map<nat, Conn> {
    map c: nat | c in Range(n) :: Settled(Set(Empty(1), 0))
  }

  ghost function CrowdSwarm(n: nat): Swarm {
    Swarm([if n <= U16_MAX then n else U16_MAX], Crowd(n))
  }

  lemma CrowdAdvertises(n: nat)
    ensures |Advertisers(Crowd(n), 0)| == n && |Crowd(n)| == n
  {
    SetIndices(Empty(1), 0, 1);
    assert Get(Set(Empty(1), 0), 0);
    assert Advertisers(Crowd(n), 0) == Range(n) && Crowd(n).Keys == Range(n);
    RangeSize(n);
  }

  lemma CrowdGrows(n: nat, mid: Swarm)
    requires mid == Swarm(CrowdSwarm(n).avail, Crowd(n)[n := Settled(Empty(1))])
    ensures Next(CrowdSwarm(n), Opened(n), mid) && Next(mid, HaveSeen(n, 0), CrowdSwarm(n + 1))
  {
    hide Set, Get;
    assert !Get(Empty(1), 0);
    assert mid.conns[n := Settled(Set(Empty(1), 0))] == Crowd(n + 1);
  }

  lemma {:induction false} CrowdRun(n: nat) returns (events: seq<Event>, states: seq<Swarm>)
    ensures IsRun(1, events, states) && |states| == 2 * n + 1
    ensures forall m :: 0 <= m <= n ==> states[2 * m] == CrowdSwarm(m)
  {
    hide Next, CrowdSwarm;
    if n == 0 {
      NoCrowd();
      return [], [CrowdSwarm(0)];
    }
    var e, q := CrowdRun(n - 1);
    var last := CrowdSwarm(n - 1);
    assert q[|q| - 1] == q[2 * (n - 1)] == last;
    var mid := Swarm(last.avail, Crowd(n - 1)[n - 1 := Settled(Empty(1))]);
    CrowdGrows(n - 1, mid);
    events := e + [Opened(n - 1), HaveSeen(n - 1, 0)];
    states := q + [mid, CrowdSwarm(n)];
    forall k | 0 <= k < |events| ensures Next(states[k], events[k], states[k + 1]) {
      if k < |e| {
        assert Next(q[k], e[k], q[k + 1]);
      }
    }
  }

  lemma NoCrowd()
    ensures CrowdSwarm(0) == Swarm(seq(1, _ => 0), map[])
  {}

  /** The failure happens: when 65536 connections each announce piece 0 of a one-piece
      torrent, the counter stands at 65535. */
  lemma BoundIsReached() returns (events: seq<Event>, states: seq<Swarm>, k: nat)
    ensures IsRun(1, events, states) && k < |states| && |states[k].avail| == 1
    ensures |Advertisers(states[k].conns, 0)| == U16_MAX + 1 && states[k].avail[0] == U16_MAX
    ensures !PieceExact(states[k], 0)
  {
    hide IsRun, Advertisers, Crowd;
    events, states := CrowdRun(U16_MAX + 1);
    k := 2 * (U16_MAX + 1);
    CrowdAdvertises(U16_MAX + 1);
  }
}
