/** HAVE fan-out (`crates/engine/src/hot.rs`): the subscriber list itself, and the run of
    piece writers, publishers and connections at the grain of single lock sections. */
module HaveHubs {
  import opened Sequences

  /** An unbounded channel; `open` while its receiver is alive. */
  class Channel {
    var queue: seq<nat>
    var open: bool

    constructor ()
      ensures queue == [] && open
    {
      queue := [];
      open := true;
    }
  }

  /** The members of a list that are in `keep`, in order. */
  ghost function Kept(subs: seq<Channel>, keep: set<Channel>): seq<Channel> {
    if subs == [] then []
    else Kept(subs[..|subs| - 1], keep) + if subs[|subs| - 1] in keep then [subs[|subs| - 1]] else []
  }

  ghost function Alive(subs: seq<Channel>): set<Channel>
    reads subs
  {
    set c | c in subs && c.open
  }

  /** Keeping members neither adds, loses nor repeats any. */
  lemma {:induction false} KeptMembers(subs: seq<Channel>, keep: set<Channel>)
    ensures forall c :: c in Kept(subs, keep) <==> c in subs && c in keep
    ensures NoRepeats(subs) ==> NoRepeats(Kept(subs, keep))
  {
    if subs != [] {
      KeptMembers(subs[..|subs| - 1], keep);
      assert subs == subs[..|subs| - 1] + [subs[|subs| - 1]];
    }
  }

  lemma KeptNext(subs: seq<Channel>, keep: set<Channel>, i: nat)
    requires i < |subs|
    ensures Kept(subs[..i + 1], keep) == Kept(subs[..i], keep) + if subs[i] in keep then [subs[i]] else []
  {
    assert subs[..i + 1][..i] == subs[..i];
  }

  class HaveHub {
    var subs: seq<Channel>

    ghost predicate Valid()
      reads this
    {
      NoRepeats(subs)
    }

    constructor ()
      ensures Valid() && subs == []
    {
      subs := [];
    }

    method Subscribe() returns (rx: Channel)
      requires Valid()
      modifies this
      ensures Valid() && fresh(rx) && rx.open && rx.queue == []
      ensures subs == old(subs) + [rx]
    {
      rx := new Channel();
      subs := subs + [rx];
    }

    /** `publish`: every live subscriber receives the index once, the dead ones go. */
    method Publish(index: nat)
      requires Valid()
      modifies this, subs`queue
      ensures Valid() && subs == Kept(old(subs), old(Alive(subs)))
      ensures forall c :: c in old(subs) ==>
                c.queue == if c.open then old(c.queue) + [index] else old(c.queue)
    {
      ghost var all, alive := subs, Alive(subs);
      KeptMembers(all, alive);
      hide Kept;
      var kept: seq<Channel> := [];
      var i := 0;
      assert Kept(all[..0], alive) == [] by {
        NoneKept(all, alive);
      }
      while i < |subs|
        invariant i <= |subs| && subs == all
        invariant kept == Kept(all[..i], alive)
        invariant forall j :: 0 <= j < i ==>
                    all[j].queue == if all[j].open then old(all[j].queue) + [index] else old(all[j].queue)
        invariant forall j :: i <= j < |all| ==> all[j].queue == old(all[j].queue)
      {
        var tx := subs[i];
        KeptNext(all, alive, i);
        if tx.open {
          tx.queue := tx.queue + [index];
          kept := kept + [tx];
        }
        i := i + 1;
      }
      assert all[..i] == all;
      subs := kept;
    }
  }

  lemma NoneKept(subs: seq<Channel>, keep: set<Channel>)
    ensures Kept(subs[..0], keep) == []
  {}

  // ---------------------------------------------------------------- runs

  /** One connection's end: what waits in its channel, what it already took out, and the
      bitfield it took (after subscribing), if it has. */
  datatype Peer = Peer(queue: seq<nat>, drained: seq<nat>, open: bool, snapped: bool, snapshot: set<nat>)

  /** `pending` are pieces whose bit is set but whose writer has not yet published. */
  datatype Fan = Fan(have: set<nat>, pending: set<nat>, published: seq<nat>, subs: set<nat>, peers: map<nat, Peer>)

  datatype Event =
    | BitSet(index: nat)
    | Published(index: nat)
    | Subscribed(id: nat)
    | Snapped(id: nat)
    | Drained(id: nat)
    | Hung(id: nat)

  function Deliver(p: Peer, subscribed: bool, index: nat): Peer {
    if subscribed && p.open then p.(queue := p.queue + [index]) else p
  }

  ghost predicate Next(s: Fan, e: Event, t: Fan) {
    match e
    case BitSet(i) =>
      t == if i in s.have then s else s.(have := s.have + {i}, pending := s.pending + {i})
    case Published(i) =>
      && i in s.pending
      && t == s.(pending := s.pending - {i}, published := s.published + [i],
                 subs := (set id | id in s.subs && id in s.peers && s.peers[id].open),
                 peers := (map id | id in s.peers :: Deliver(s.peers[id], id in s.subs, i)))
    case Subscribed(id) =>
      id !in s.peers && t == s.(subs := s.subs + {id}, peers := s.peers[id := Peer([], [], true, false, {})])
    case Snapped(id) =>
      && id in s.peers && s.peers[id].open && !s.peers[id].snapped
      && t == s.(peers := s.peers[id := s.peers[id].(snapped := true, snapshot := s.have)])
    case Drained(id) =>
      && id in s.peers && s.peers[id].open && s.peers[id].queue != []
      && var p := s.peers[id];
         t == s.(peers := s.peers[id := p.(queue := p.queue[1..], drained := p.drained + [p.queue[0]])])
    case Hung(id) =>
      id in s.peers && t == s.(peers := s.peers[id := s.peers[id].(open := false)])
  }

  ghost function Elems(q: seq<nat>): set<nat> {
    set i | i in q
  }

  /** What a connection can know: its snapshot and everything handed to its channel. */
  ghost function Known(p: Peer): set<nat> {
    p.snapshot + Elems(p.drained) + Elems(p.queue)
  }

  /** A subscribed-then-snapped connection knows every piece except those still waiting to
      be published, and knows of no piece that is not there. */
  ghost predicate Covered(s: Fan) {
    forall id | id in s.peers ::
      && Known(s.peers[id]) <= s.have
      && (s.peers[id].open && s.peers[id].snapped ==> s.have <= Known(s.peers[id]) + s.pending)
  }

  ghost predicate Wired(s: Fan) {
    forall id | id in s.peers :: s.peers[id].open ==> id in s.subs
  }

  /** Every piece gained since the start is either pending or was published, once. */
  ghost predicate PublishedOnce(s: Fan, start: set<nat>) {
    && s.have == start + Elems(s.published) + s.pending
    && start !! Elems(s.published) && start !! s.pending && Elems(s.published) !! s.pending
    && NoRepeats(s.published)
  }

  ghost predicate IsRun(start: set<nat>, events: seq<Event>, states: seq<Fan>) {
    && |states| == |events| + 1
    && states[0] == Fan(start, {}, [], {}, map[])
    && forall k :: 0 <= k < |events| ==> Next(states[k], events[k], states[k + 1])
  }

  lemma ElemsAppend(q: seq<nat>, i: nat)
    ensures Elems(q + [i]) == Elems(q) + {i}
  {}

  lemma ElemsSplit(q: seq<nat>)
    requires q != []
    ensures Elems(q) == {q[0]} + Elems(q[1..])
  {
    assert q == [q[0]] + q[1..];
  }

  lemma PeerCovered(s: Fan, e: Event, t: Fan, id: nat)
    requires Covered(s) && Wired(s) && s.pending <= s.have && Next(s, e, t) && id in t.peers
    ensures Known(t.peers[id]) <= t.have
    ensures t.peers[id].open && t.peers[id].snapped ==> t.have <= Known(t.peers[id]) + t.pending
    ensures t.peers[id].open ==> id in t.subs
  {
    hide Elems;
    match e
    case BitSet(i) =>
    case Published(i) => ElemsAppend(s.peers[id].queue, i);
    case Subscribed(id') =>
      assert Elems([]) == {} by {
        NothingIn([]);
      }
    case Snapped(id') =>
    case Drained(id') =>
      ElemsSplit(s.peers[id'].queue);
      ElemsAppend(s.peers[id'].drained, s.peers[id'].queue[0]);
    case Hung(id') =>
  }

  lemma NothingIn(q: seq<nat>)
    ensures q == [] ==> Elems(q) == {}
  {}

  lemma StepPublishes(s: Fan, e: Event, t: Fan, start: set<nat>)
    requires PublishedOnce(s, start) && Next(s, e, t)
    ensures PublishedOnce(t, start)
  {
    if e.Published? {
      ElemsAppend(s.published, e.index);
      assert e.index !in s.published;
    }
  }

  lemma StepCovered(s: Fan, e: Event, t: Fan)
    requires Covered(s) && Wired(s) && s.pending <= s.have && Next(s, e, t)
    ensures Covered(t) && Wired(t)
  {
    hide Next, Known;
    forall id | id in t.peers
      ensures Known(t.peers[id]) <= t.have
      ensures t.peers[id].open && t.peers[id].snapped ==> t.have <= Known(t.peers[id]) + t.pending
      ensures t.peers[id].open ==> id in t.subs
    {
      PeerCovered(s, e, t, id);
    }
  }

  /** In every interleaving: possession is covered by snapshot, received indices and
      indices not yet published; and no index is published twice. */
  lemma {:induction false} FanOutCovers(start: set<nat>, events: seq<Event>, states: seq<Fan>, k: nat)
    requires IsRun(start, events, states) && k < |states|
    ensures Covered(states[k]) && Wired(states[k]) && PublishedOnce(states[k], start)
  {
    hide Next, Covered, Wired;
    if k == 0 {
      NothingIn([]);
      assert Covered(states[0]) && Wired(states[0]) by {
        NobodyUncovered(states[0]);
      }
    } else {
      FanOutCovers(start, events, states, k - 1);
      assert Next(states[k - 1], events[k - 1], states[k - 1 + 1]);
      StepCovered(states[k - 1], events[k - 1], states[k]);
      StepPublishes(states[k - 1], events[k - 1], states[k], start);
    }
  }

  lemma NobodyUncovered(s: Fan)
    requires s.peers == map[]
    ensures Covered(s) && Wired(s)
  {}

  /** Once nothing is pending and a connection has emptied its channel, its snapshot plus
      what it drained is exactly what the torrent has. */
  lemma DrainedPeersKnowAll(start: set<nat>, events: seq<Event>, states: seq<Fan>, k: nat, id: nat)
    requires IsRun(start, events, states) && k < |states|
    requires id in states[k].peers && states[k].peers[id].open && states[k].peers[id].snapped
    requires states[k].pending == {} && states[k].peers[id].queue == []
    ensures states[k].peers[id].snapshot + Elems(states[k].peers[id].drained) == states[k].have
  {
    FanOutCovers(start, events, states, k);
    hide Next;
    NothingIn(states[k].peers[id].queue);
  }

  /** The order matters: a bitfield taken before subscribing misses a piece that is gained
      and published in between, for good. */
  lemma SnapshotBeforeSubscribeMisses(s: Fan, i: nat, id: nat, a: Fan, b: Fan, c: Fan)
    requires i !in s.have && Next(s, BitSet(i), a) && Next(a, Published(i), b) && Next(b, Subscribed(id), c)
    ensures i in c.have && i !in c.pending
    ensures i !in s.have + Elems(c.peers[id].drained) + Elems(c.peers[id].queue)
  {
    NothingIn([]);
  }
}
