/** The control plane (`crates/engine/src/control/`): one UI thread, the control loop, the
    serial mutation worker and the catalog reader, as a machine over their queues. Every step
    is one queue operation, one catalog commit or one catalog read. */
module Control {
  import opened Wrappers
  import opened Sequences

  type Id = int

  datatype Command = ListCatalog(gen: nat) | SoftDelete(id: Id) | Recheck(id: Id)

  datatype Job = DeleteJob(id: Id) | RecheckJob(id: Id)

  datatype Event =
    | SoftDeleted(id: Id) | SoftDeleteFailed(id: Id)
    | CatalogList(rows: set<Id>, gen: nat) | CatalogListFailed(gen: nat)

  /** Where the reader is: waiting, coalescing with the newest generation in hand, past the
      empty-queue check, or holding a reply it has not sent. */
  datatype Reader = Idle | Coalescing(gen: nat) | Settled(gen: nat) | Answering(reply: Event)

  /** The mutation worker: between jobs, past the recheck test of a delete, or past its commit. */
  datatype Mutator = Free | Cleared(id: Id) | Deleted(id: Id)

  /** `bumped` is the generation the UI thread has drawn but not sent yet; `listed` are the
      torrents catalog lists show; `claims` and `running` belong to rechecks. */
  datatype Plane = Plane(counter: nat, bumped: Option<nat>, commands: seq<Command>, lists: seq<nat>, jobs: seq<Job>,
                         listed: set<Id>, reader: Reader, mutator: Mutator, events: seq<Event>, received: seq<Event>,
                         claims: set<Id>, running: multiset<Id>)

  datatype Step =
    | UiBump | UiSendList | UiSendDelete(id: Id) | UiSendRecheck(id: Id) | UiReceive
    | Route
    | ReaderTake | ReaderCoalesce | ReaderSettle | ReaderScan | ReaderFail | ReaderReply
    | DeleteRefuse | DeleteClear | DeleteCommit | DeleteFail | DeleteReport
    | RecheckTake | RecheckEnd(id: Id)
    | Added(id: Id)

  predicate Initial(s: Plane) {
    && s.counter == 0 && s.bumped == None && s.commands == [] && s.lists == [] && s.jobs == []
    && s.reader == Idle && s.mutator == Free && s.events == [] && s.received == []
    && s.claims == {} && s.running == multiset{}
  }

  predicate Next(s: Plane, e: Step, t: Plane) {
    match e
    // the UI thread: a list request draws its generation, then sends it
    case UiBump => s.bumped == None && t == s.(counter := s.counter + 1, bumped := Some(s.counter + 1))
    case UiSendList =>
      s.bumped.Some? && t == s.(bumped := None, commands := s.commands + [ListCatalog(s.bumped.value)])
    case UiSendDelete(id) => s.bumped == None && t == s.(commands := s.commands + [SoftDelete(id)])
    case UiSendRecheck(id) => s.bumped == None && t == s.(commands := s.commands + [Recheck(id)])
    case UiReceive =>
      s.bumped == None && s.events != [] && t == s.(received := s.received + [s.events[0]], events := s.events[1..])
    // the control loop
    case Route =>
      && s.commands != []
      && t == (match s.commands[0]
               case ListCatalog(g) => s.(commands := s.commands[1..], lists := s.lists + [g])
               case SoftDelete(id) => s.(commands := s.commands[1..], jobs := s.jobs + [DeleteJob(id)])
               case Recheck(id) => s.(commands := s.commands[1..], jobs := s.jobs + [RecheckJob(id)]))
    // the catalog reader
    case ReaderTake =>
      s.reader.Idle? && s.lists != [] && t == s.(reader := Coalescing(s.lists[0]), lists := s.lists[1..])
    case ReaderCoalesce =>
      s.reader.Coalescing? && s.lists != [] && t == s.(reader := Coalescing(s.lists[0]), lists := s.lists[1..])
    case ReaderSettle => s.reader.Coalescing? && s.lists == [] && t == s.(reader := Settled(s.reader.gen))
    case ReaderScan => s.reader.Settled? && t == s.(reader := Answering(CatalogList(s.listed, s.reader.gen)))
    case ReaderFail => s.reader.Settled? && t == s.(reader := Answering(CatalogListFailed(s.reader.gen)))
    case ReaderReply => s.reader.Answering? && t == s.(reader := Idle, events := s.events + [s.reader.reply])
    // the mutation worker: a delete is refused while a recheck of the torrent has its claim;
    // else it commits or fails, and then reports
    case DeleteRefuse =>
      && s.mutator.Free? && s.jobs != [] && s.jobs[0].DeleteJob? && s.jobs[0].id in s.claims
      && t == s.(jobs := s.jobs[1..], events := s.events + [SoftDeleteFailed(s.jobs[0].id)])
    case DeleteClear =>
      && s.mutator.Free? && s.jobs != [] && s.jobs[0].DeleteJob? && s.jobs[0].id !in s.claims
      && t == s.(jobs := s.jobs[1..], mutator := Cleared(s.jobs[0].id))
    case DeleteCommit =>
      s.mutator.Cleared? && t == s.(listed := s.listed - {s.mutator.id}, mutator := Deleted(s.mutator.id))
    case DeleteFail =>
      s.mutator.Cleared? && t == s.(mutator := Free, events := s.events + [SoftDeleteFailed(s.mutator.id)])
    case DeleteReport =>
      s.mutator.Deleted? && t == s.(mutator := Free, events := s.events + [SoftDeleted(s.mutator.id)])
    // a recheck job claims its torrent or is refused; the detached thread gives the claim back
    case RecheckTake =>
      && s.mutator.Free? && s.jobs != [] && s.jobs[0].RecheckJob?
      && var id := s.jobs[0].id;
         t == if id in s.claims then s.(jobs := s.jobs[1..])
              else s.(jobs := s.jobs[1..], claims := s.claims + {id}, running := s.running + multiset{id})
    case RecheckEnd(id) =>
      id in s.running && t == s.(claims := s.claims - {id}, running := s.running - multiset{id})
    // a torrent is added by anyone, at any time
    case Added(id) => t == s.(listed := s.listed + {id})
  }

  ghost predicate IsRun(steps: seq<Step>, states: seq<Plane>) {
    && |states| == |steps| + 1 && Initial(states[0])
    && forall k :: 0 <= k < |steps| ==> Next(states[k], steps[k], states[k + 1])
  }

  // ---------------------------------------------------------------- generations

  predicate IsReply(e: Event) {
    e.CatalogList? || e.CatalogListFailed?
  }

  function GenOf(e: Event): seq<nat> {
    if IsReply(e) then [e.gen] else []
  }

  function ReplyGens(events: seq<Event>): seq<nat> {
    if events == [] then [] else GenOf(events[0]) + ReplyGens(events[1..])
  }

  function AskOf(c: Command): seq<nat> {
    if c.ListCatalog? then [c.gen] else []
  }

  function ListGens(commands: seq<Command>): seq<nat> {
    if commands == [] then [] else AskOf(commands[0]) + ListGens(commands[1..])
  }

  function ReaderGens(r: Reader): seq<nat> {
    match r
    case Idle => []
    case Coalescing(g) => [g]
    case Settled(g) => [g]
    case Answering(e) => GenOf(e)
  }

  /** All generations in flight, oldest first: received, sent, in the reader's hand, queued
      for it, queued for the control loop, drawn. */
  function Pipeline(s: Plane): seq<nat> {
    Laid(ReplyGens(s.received) + ReplyGens(s.events), ReaderGens(s.reader), s.lists, ListGens(s.commands), Drawn(s))
  }

  function Drawn(s: Plane): seq<nat> {
    if s.bumped.Some? then [s.bumped.value] else []
  }

  function Laid(down: seq<nat>, reader: seq<nat>, lists: seq<nat>, commands: seq<nat>, drawn: seq<nat>): seq<nat> {
    down + (reader + (lists + (commands + drawn)))
  }

  ghost predicate Increasing(q: seq<nat>) {
    forall i, j :: 0 <= i < j < |q| ==> q[i] < q[j]
  }

  ghost predicate InOrder(s: Plane) {
    && Increasing(Pipeline(s))
    && (forall i :: 0 <= i < |Pipeline(s)| ==> Pipeline(s)[i] <= s.counter)
    && (s.reader.Answering? ==> IsReply(s.reader.reply))
  }

  lemma {:induction false} ReplyGensAppend(a: seq<Event>, e: Event)
    ensures ReplyGens(a + [e]) == ReplyGens(a) + GenOf(e)
    decreases |a|
  {
    hide GenOf;
    if a == [] {
      assert ([] + [e])[1..] == [];
      Unit(GenOf(e));
    } else {
      assert (a + [e])[1..] == a[1..] + [e];
      ReplyGensAppend(a[1..], e);
      Assoc(GenOf(a[0]), ReplyGens(a[1..]), GenOf(e));
    }
  }

  lemma {:induction false} ListGensAppend(a: seq<Command>, c: Command)
    ensures ListGens(a + [c]) == ListGens(a) + AskOf(c)
    decreases |a|
  {
    hide AskOf;
    if a == [] {
      assert ([] + [c])[1..] == [];
      Unit(AskOf(c));
    } else {
      assert (a + [c])[1..] == a[1..] + [c];
      ListGensAppend(a[1..], c);
      Assoc(AskOf(a[0]), ListGens(a[1..]), AskOf(c));
    }
  }

  /** Receiving moves a generation from sent to received. */
  lemma ReceiveKeeps(received: seq<Event>, events: seq<Event>)
    requires events != []
    ensures ReplyGens(received + [events[0]]) + ReplyGens(events[1..]) == ReplyGens(received) + ReplyGens(events)
  {
    ReplyGensAppend(received, events[0]);
    hide GenOf;
    Assoc(ReplyGens(received), GenOf(events[0]), ReplyGens(events[1..]));
  }

  // moving the head of one part to the end of the part before it
  lemma TakeMoves(d: seq<nat>, l: seq<nat>, c: seq<nat>, b: seq<nat>)
    requires l != []
    ensures Laid(d, [l[0]], l[1..], c, b) == Laid(d, [], l, c, b)
  {
    assert l == [l[0]] + l[1..];
    Assoc([l[0]], l[1..], c + b);
    Unit(l + (c + b));
  }

  lemma RouteMoves(d: seq<nat>, r: seq<nat>, l: seq<nat>, c: seq<nat>, g: seq<nat>, rest: seq<nat>, b: seq<nat>)
    requires c == g + rest
    ensures Laid(d, r, l + g, rest, b) == Laid(d, r, l, c, b)
  {
    Assoc(l, g, rest + b);
    Assoc(g, rest, b);
  }

  lemma SendMoves(d: seq<nat>, r: seq<nat>, l: seq<nat>, c: seq<nat>, b: seq<nat>)
    ensures Laid(d, r, l, c + b, []) == Laid(d, r, l, c, b)
  {
    Unit(c + b);
  }

  lemma ReplyMoves(d: seq<nat>, r: seq<nat>, l: seq<nat>, c: seq<nat>, b: seq<nat>)
    ensures Laid(d + r, [], l, c, b) == Laid(d, r, l, c, b)
  {
    Assoc(d, r, l + (c + b));
    Unit(l + (c + b));
  }

  lemma DrawMoves(d: seq<nat>, r: seq<nat>, l: seq<nat>, c: seq<nat>, g: nat)
    ensures Laid(d, r, l, c, [g]) == Laid(d, r, l, c, []) + [g]
  {
    var a := c + [g];
    Unit(c);
    Assoc(l, c, [g]);
    Assoc(r, l + c, [g]);
    Assoc(d, r + (l + c), [g]);
  }

  lemma CoalesceMoves(d: seq<nat>, g: nat, l: seq<nat>, c: seq<nat>, b: seq<nat>)
    requires l != []
    ensures var was := Laid(d, [g], l, c, b);
            |d| + 1 < |was| && Laid(d, [l[0]], l[1..], c, b) == was[..|d|] + was[|d| + 1..]
  {
    TakeMoves(d, l, c, b);
    Unit(l + (c + b));
    var tail := l + (c + b);
    assert (d + ([g] + tail))[..|d|] == d;
    assert (d + ([g] + tail))[|d| + 1..] == tail;
  }

  /** What a step does to the generations in flight. */
  datatype Effect = Same | Dropped(at: nat) | Grown

  ghost predicate Has(x: Effect, s: Plane, t: Plane) {
    match x
    case Same => Pipeline(t) == Pipeline(s) && t.counter == s.counter
    case Dropped(at) =>
      at + 1 < |Pipeline(s)| && Pipeline(t) == Pipeline(s)[..at] + Pipeline(s)[at + 1..] && t.counter == s.counter
    case Grown => Pipeline(t) == Pipeline(s) + [t.counter] && t.counter == s.counter + 1
  }

  predicate FromUi(e: Step) {
    e.UiBump? || e.UiSendList? || e.UiSendDelete? || e.UiSendRecheck? || e.Route?
  }

  lemma UiEffect(s: Plane, e: Step, t: Plane) returns (x: Effect)
    requires Next(s, e, t) && FromUi(e)
    ensures Has(x, s, t) && t.reader == s.reader
  {
    hide ReplyGens, ListGens, Laid, ReaderGens;
    x := Same;
    var d, r := ReplyGens(s.received) + ReplyGens(s.events), ReaderGens(s.reader);
    var l, c, b := s.lists, ListGens(s.commands), Drawn(s);
    match e
    case UiBump =>
      x := Grown;
      DrawMoves(d, r, l, c, t.counter);
    case UiSendList =>
      ListGensAppend(s.commands, ListCatalog(s.bumped.value));
      SendMoves(d, r, l, c, b);
    case UiSendDelete(id) =>
      ListGensAppend(s.commands, SoftDelete(id));
      Unit(c);
    case UiSendRecheck(id) =>
      ListGensAppend(s.commands, Recheck(id));
      Unit(c);
    case Route =>
      RouteSplits(s.commands);
      RouteMoves(d, r, l, c, AskOf(s.commands[0]), ListGens(s.commands[1..]), b);
      Unit(l);
  }

  lemma StepEffect(s: Plane, e: Step, t: Plane) returns (x: Effect)
    requires Next(s, e, t) && (s.reader.Answering? ==> IsReply(s.reader.reply))
    ensures Has(x, s, t)
    ensures t.reader.Answering? ==> IsReply(t.reader.reply)
  {
    hide ReplyGens, ListGens, Laid;
    x := Same;
    if FromUi(e) {
      x := UiEffect(s, e, t);
      return;
    }
    var d, r := ReplyGens(s.received) + ReplyGens(s.events), ReaderGens(s.reader);
    var l, c, b := s.lists, ListGens(s.commands), Drawn(s);
    match e
    case UiReceive => ReceiveKeeps(s.received, s.events);
    case ReaderTake => TakeMoves(d, l, c, b);
    case ReaderCoalesce =>
      x := Dropped(|d|);
      CoalesceMoves(d, s.reader.gen, l, c, b);
    case ReaderReply =>
      ReplyGensAppend(s.events, s.reader.reply);
      Assoc(ReplyGens(s.received), ReplyGens(s.events), r);
      ReplyMoves(d, r, l, c, b);
    case DeleteRefuse =>
      ReplyGensAppend(s.events, SoftDeleteFailed(s.jobs[0].id));
      Unit(ReplyGens(s.events));
    case DeleteFail =>
      ReplyGensAppend(s.events, SoftDeleteFailed(s.mutator.id));
      Unit(ReplyGens(s.events));
    case DeleteReport =>
      ReplyGensAppend(s.events, SoftDeleted(s.mutator.id));
      Unit(ReplyGens(s.events));
    case _ =>
  }

  lemma RouteSplits(commands: seq<Command>)
    requires commands != []
    ensures ListGens(commands) == AskOf(commands[0]) + ListGens(commands[1..])
  {}

  lemma StepInOrder(s: Plane, e: Step, t: Plane)
    requires InOrder(s) && Next(s, e, t)
    ensures InOrder(t)
  {
    var x := StepEffect(s, e, t);
    hide Next, Pipeline, Increasing;
    EffectOrders(Pipeline(s), Pipeline(t), s.counter, t.counter, x);
  }

  /** Dropping a generation or adding one above all keeps them increasing. */
  lemma EffectOrders(q: seq<nat>, r: seq<nat>, n: nat, m: nat, x: Effect)
    requires Increasing(q) && forall i :: 0 <= i < |q| ==> q[i] <= n
    requires x.Same? ==> r == q && m == n
    requires x.Dropped? ==> x.at < |q| && r == q[..x.at] + q[x.at + 1..] && m == n
    requires x.Grown? ==> r == q + [m] && m == n + 1
    ensures Increasing(r) && forall i :: 0 <= i < |r| ==> r[i] <= m
  {
    if x.Dropped? {
      assert forall i :: 0 <= i < |r| ==> r[i] == if i < x.at then q[i] else q[i + 1];
    }
  }

  lemma InitialInOrder(s: Plane)
    requires Initial(s)
    ensures InOrder(s)
  {}

  lemma {:induction false} RunInOrder(steps: seq<Step>, states: seq<Plane>, k: nat)
    requires IsRun(steps, states) && k < |states|
    ensures InOrder(states[k])
  {
    hide InOrder, Next, Initial;
    if k == 0 {
      InitialInOrder(states[0]);
    } else {
      RunInOrder(steps, states, k - 1);
      assert Next(states[k - 1], steps[k - 1], states[k - 1 + 1]);
      StepInOrder(states[k - 1], steps[k - 1], states[k]);
    }
  }

  /** The UI sees list replies, failed ones included, in strictly increasing generations,
      although the reader drops coalesced requests. */
  lemma RepliesIncrease(steps: seq<Step>, states: seq<Plane>, k: nat)
    requires IsRun(steps, states) && k < |states|
    ensures Increasing(ReplyGens(states[k].received))
  {
    RunInOrder(steps, states, k);
    hide IsRun, ReplyGens, ListGens;
    var s := states[k];
    assert Pipeline(s)[..|ReplyGens(s.received)|] == ReplyGens(s.received);
  }

  // ---------------------------------------------------------------- deletes and lists

  /** `e` is a list that shows `id` and carries a generation above `g`. */
  predicate ShowsAfter(e: Event, id: Id, g: nat) {
    e.CatalogList? && id in e.rows && e.gen > g
  }

  /** No list on its way, or received, shows `id` above generation `g`. */
  ghost predicate NotShown(s: Plane, id: Id, g: nat) {
    && (forall i :: 0 <= i < |s.events| ==> !ShowsAfter(s.events[i], id, g))
    && (forall i :: 0 <= i < |s.received| ==> !ShowsAfter(s.received[i], id, g))
    && (s.reader.Answering? ==> !ShowsAfter(s.reader.reply, id, g))
  }

  lemma {:induction false} ReplyGenAt(events: seq<Event>, i: nat)
    requires i < |events| && IsReply(events[i])
    ensures events[i].gen in ReplyGens(events)
  {
    if i > 0 {
      ReplyGenAt(events[1..], i - 1);
    }
  }

  lemma InPipeline(s: Plane, g: nat)
    requires InOrder(s) && (g in ReplyGens(s.events) || g in ReplyGens(s.received) || g in ReaderGens(s.reader))
    ensures g <= s.counter
  {
    hide ReplyGens, ListGens, ReaderGens;
    assert g in Pipeline(s);
  }

  /** At any moment nothing carries a generation above the counter. */
  lemma NothingAboveCounter(s: Plane, id: Id)
    requires InOrder(s)
    ensures NotShown(s, id, s.counter)
  {
    hide InOrder;
    forall i | 0 <= i < |s.events| ensures !ShowsAfter(s.events[i], id, s.counter) {
      if s.events[i].CatalogList? {
        ReplyGenAt(s.events, i);
        InPipeline(s, s.events[i].gen);
      }
    }
    forall i | 0 <= i < |s.received| ensures !ShowsAfter(s.received[i], id, s.counter) {
      if s.received[i].CatalogList? {
        ReplyGenAt(s.received, i);
        InPipeline(s, s.received[i].gen);
      }
    }
    if s.reader.Answering? && s.reader.reply.CatalogList? {
      InPipeline(s, s.reader.reply.gen);
    }
  }

  /** The index of the last commit of deleting `id` before step `a`. */
  ghost predicate LastCommit(steps: seq<Step>, states: seq<Plane>, id: Id, a: nat, p: nat)
    requires IsRun(steps, states) && a <= |steps|
  {
    && p < a && Commits(states[p], steps[p], id)
    && forall q :: p < q < a ==> !Commits(states[q], steps[q], id)
  }

  predicate Commits(s: Plane, e: Step, id: Id) {
    e == DeleteCommit && s.mutator == Cleared(id)
  }

  predicate Receives(s: Plane, e: Step, x: Event) {
    e == UiReceive && s.events != [] && s.events[0] == x
  }

  /** A delete is announced somewhere: waiting to be reported, on its way, or received. */
  ghost predicate Announced(s: Plane, id: Id) {
    s.mutator == Deleted(id) || SoftDeleted(id) in s.events || SoftDeleted(id) in s.received
  }

  lemma AnnouncedStep(s: Plane, e: Step, t: Plane, id: Id)
    requires Next(s, e, t) && Announced(t, id) && InOrder(s)
    ensures Announced(s, id) || Commits(s, e, id)
  {
    hide Pipeline, Increasing;
    if e == UiReceive {
      assert s.events == [s.events[0]] + s.events[1..];
      assert SoftDeleted(id) in t.events ==> SoftDeleted(id) in s.events;
    }
  }

  lemma {:induction false} AnnouncedAfterCommit(steps: seq<Step>, states: seq<Plane>, id: Id, k: nat) returns (p: nat)
    requires IsRun(steps, states) && k < |states| && Announced(states[k], id)
    ensures LastCommit(steps, states, id, k, p)
  {
    hide Next, Announced, InOrder;
    if k == 0 {
      NothingAnnounced(states[0], id);
    } else {
      assert Next(states[k - 1], steps[k - 1], states[k - 1 + 1]);
      RunInOrder(steps, states, k - 1);
      AnnouncedStep(states[k - 1], steps[k - 1], states[k], id);
      if Commits(states[k - 1], steps[k - 1], id) {
        p := k - 1;
      } else {
        p := AnnouncedAfterCommit(steps, states, id, k - 1);
      }
    }
  }

  lemma NothingAnnounced(s: Plane, id: Id)
    requires Initial(s)
    ensures !Announced(s, id)
  {}

  /** Without an `Added(id)` a deleted torrent stays out of the catalog lists. */
  lemma {:induction false} StaysUnlisted(steps: seq<Step>, states: seq<Plane>, id: Id, p: nat, k: nat)
    requires IsRun(steps, states) && p < k <= |steps| && Commits(states[p], steps[p], id)
    requires forall q :: p < q < k ==> steps[q] != Added(id)
    ensures id !in states[k].listed
  {
    hide Initial;
    assert Next(states[k - 1], steps[k - 1], states[k - 1 + 1]);
    if p < k - 1 {
      StaysUnlisted(steps, states, id, p, k - 1);
    }
  }

  lemma NotShownStep(s: Plane, e: Step, t: Plane, id: Id, g: nat)
    requires NotShown(s, id, g) && Next(s, e, t) && id !in s.listed
    ensures NotShown(t, id, g)
  {}

  lemma {:induction false} StaysNotShown(steps: seq<Step>, states: seq<Plane>, id: Id, p: nat, a: nat, k: nat)
    requires IsRun(steps, states) && p < a <= k <= |steps| && Commits(states[p], steps[p], id)
    requires forall q :: p < q < k ==> steps[q] != Added(id)
    ensures NotShown(states[k], id, states[a].counter)
  {
    hide Next, NotShown, InOrder;
    if k == a {
      RunInOrder(steps, states, a);
      NothingAboveCounter(states[a], id);
    } else {
      StaysNotShown(steps, states, id, p, a, k - 1);
      StaysUnlisted(steps, states, id, p, k - 1);
      assert Next(states[k - 1], steps[k - 1], states[k - 1 + 1]);
      NotShownStep(states[k - 1], steps[k - 1], states[k], id, states[a].counter);
    }
  }

  lemma {:induction false} CounterGrows(steps: seq<Step>, states: seq<Plane>, i: nat, j: nat)
    requires IsRun(steps, states) && i <= j < |states|
    ensures states[i].counter <= states[j].counter
  {
    hide Initial;
    if i < j {
      CounterGrows(steps, states, i, j - 1);
      assert Next(states[j - 1], steps[j - 1], states[j - 1 + 1]);
    }
  }

  /** The UI receives `SoftDeleted(id)` at step `a`, draws a list generation at a later step
      `b`, and at step `c` receives a list of that or a later generation. If the list shows
      `id`, then the torrent was added again after the last commit that deleted it. */
  lemma ListAfterDelete(steps: seq<Step>, states: seq<Plane>, id: Id, a: nat, b: nat, c: nat, rows: set<Id>, gen: nat)
    returns (p: nat)
    requires IsRun(steps, states) && a < b < c < |steps|
    requires Receives(states[a], steps[a], SoftDeleted(id))
    requires steps[b] == UiBump && gen >= states[b + 1].counter
    requires Receives(states[c], steps[c], CatalogList(rows, gen))
    ensures LastCommit(steps, states, id, a, p)
    ensures id in rows ==> exists q :: p < q < c && steps[q] == Added(id)
  {
    hide Next, Initial;
    p := AnnouncedAfterCommit(steps, states, id, a);
    if !(exists q :: p < q < c && steps[q] == Added(id)) {
      StaysNotShown(steps, states, id, p, a, c);
      CounterGrows(steps, states, a, b);
      assert Next(states[b], steps[b], states[b + 1]);
      BumpRaises(states[b], states[b + 1]);
      assert !ShowsAfter(states[c].events[0], id, states[a].counter);
    }
  }

  lemma BumpRaises(s: Plane, t: Plane)
    requires Next(s, UiBump, t)
    ensures t.counter == s.counter + 1
  {}

  // ---------------------------------------------------------------- what a list shows

  /** The reply is on its way or received. */
  ghost predicate Under(s: Plane, x: Event) {
    x in s.events || x in s.received || s.reader == Answering(x)
  }

  lemma UnderStep(s: Plane, e: Step, t: Plane, x: Event)
    requires Next(s, e, t) && Under(t, x) && x.CatalogList?
    ensures Under(s, x) || (e == ReaderScan && x.rows == s.listed && s.reader == Settled(x.gen))
  {
    if e == UiReceive {
      assert s.events == [s.events[0]] + s.events[1..];
    }
  }

  /** Each list was read off the catalog at some moment when its generation was drawn already. */
  lemma {:induction false} ListWasScanned(steps: seq<Step>, states: seq<Plane>, n: nat, x: Event) returns (k: nat)
    requires IsRun(steps, states) && n < |states| && Under(states[n], x) && x.CatalogList?
    ensures k < n && x.rows == states[k].listed && x.gen <= states[k].counter
  {
    hide Next, Under, InOrder;
    if n == 0 {
      NothingUnder(states[0], x);
    } else {
      assert Next(states[n - 1], steps[n - 1], states[n - 1 + 1]);
      UnderStep(states[n - 1], steps[n - 1], states[n], x);
      if Under(states[n - 1], x) {
        k := ListWasScanned(steps, states, n - 1, x);
      } else {
        k := n - 1;
        RunInOrder(steps, states, k);
        InPipeline(states[k], x.gen);
      }
    }
  }

  lemma NothingUnder(s: Plane, x: Event)
    requires Initial(s) && x.CatalogList?
    ensures !Under(s, x)
  {}

  /** A list that answers the request drawn at step `b` shows the catalog exactly as it was at
      some moment after the request was drawn and before the list was received. */
  lemma ListShowsCatalog(steps: seq<Step>, states: seq<Plane>, b: nat, c: nat, rows: set<Id>, gen: nat)
    returns (k: nat)
    requires IsRun(steps, states) && b < c < |steps|
    requires steps[b] == UiBump && gen >= states[b + 1].counter
    requires Receives(states[c], steps[c], CatalogList(rows, gen))
    ensures b < k <= c && rows == states[k].listed
  {
    k := ListWasScanned(steps, states, c, CatalogList(rows, gen));
    assert Next(states[b], steps[b], states[b + 1]);
    if k <= b {
      CounterGrows(steps, states, k, b);
    }
  }

  /** A torrent listed all the while from the request to the answer is in the answer, and one
      never listed in that time is not. */
  lemma ListIsComplete(steps: seq<Step>, states: seq<Plane>, b: nat, c: nat, rows: set<Id>, gen: nat, id: Id)
    requires IsRun(steps, states) && b < c < |steps|
    requires steps[b] == UiBump && gen >= states[b + 1].counter
    requires Receives(states[c], steps[c], CatalogList(rows, gen))
    ensures (forall k :: b < k <= c ==> id in states[k].listed) ==> id in rows
    ensures (forall k :: b < k <= c ==> id !in states[k].listed) ==> id !in rows
  {
    hide Next, IsRun;
    var k := ListShowsCatalog(steps, states, b, c, rows, gen);
  }

  // ---------------------------------------------------------------- nothing is lost

  /** The newest generation drawn is always in flight or answered, whatever is coalesced. */
  ghost predicate NewestLast(s: Plane) {
    s.counter > 0 ==> Pipeline(s) != [] && Pipeline(s)[|Pipeline(s)| - 1] == s.counter
  }

  lemma RepliesOnly(s: Plane)
    requires InOrder(s)
    ensures s.reader.Answering? ==> IsReply(s.reader.reply)
  {}

  lemma EffectKeepsLast(q: seq<nat>, r: seq<nat>, n: nat, m: nat, x: Effect)
    requires n > 0 ==> q != [] && q[|q| - 1] == n
    requires x.Same? ==> r == q && m == n
    requires x.Dropped? ==> x.at + 1 < |q| && r == q[..x.at] + q[x.at + 1..] && m == n
    requires x.Grown? ==> r == q + [m] && m == n + 1
    ensures m > 0 ==> r != [] && r[|r| - 1] == m
  {}

  /** Coalescing drops a generation only with a newer one behind it. */
  lemma StepKeepsLast(s: Plane, e: Step, t: Plane)
    requires NewestLast(s) && Next(s, e, t) && (s.reader.Answering? ==> IsReply(s.reader.reply))
    ensures NewestLast(t)
  {
    hide Next, Pipeline;
    var x := StepEffect(s, e, t);
    EffectKeepsLast(Pipeline(s), Pipeline(t), s.counter, t.counter, x);
  }

  lemma {:induction false} NewestNeverLost(steps: seq<Step>, states: seq<Plane>, k: nat)
    requires IsRun(steps, states) && k < |states|
    ensures NewestLast(states[k])
  {
    hide NewestLast, Next, Initial, InOrder;
    if k == 0 {
      assert NewestLast(states[0]) by {
        FreshNewest(states[0]);
      }
    } else {
      NewestNeverLost(steps, states, k - 1);
      RunInOrder(steps, states, k - 1);
      RepliesOnly(states[k - 1]);
      assert Next(states[k - 1], steps[k - 1], states[k - 1 + 1]);
      StepKeepsLast(states[k - 1], steps[k - 1], states[k]);
    }
  }

  lemma FreshNewest(s: Plane)
    requires Initial(s)
    ensures NewestLast(s)
  {}

  /** No list request is anywhere between the UI and the reader's answer, and no answer is on
      its way. */
  predicate ListsQuiet(s: Plane) {
    s.bumped == None && s.commands == [] && s.lists == [] && s.reader == Idle && s.events == []
  }

  /** Once all is quiet the last reply received answers the newest request. */
  lemma NewestIsAnswered(steps: seq<Step>, states: seq<Plane>, k: nat)
    requires IsRun(steps, states) && k < |states| && ListsQuiet(states[k]) && states[k].counter > 0
    ensures var gens := ReplyGens(states[k].received);
            gens != [] && gens[|gens| - 1] == states[k].counter
  {
    NewestNeverLost(steps, states, k);
    hide IsRun;
    Unit(ReplyGens(states[k].received));
  }

  /** What the steps before `k` did, in order. */
  ghost function Trace<X>(steps: seq<Step>, states: seq<Plane>, k: nat, what: (Plane, Step) -> seq<X>): seq<X>
    requires k <= |steps| < |states|
  {
    if k == 0 then [] else Trace(steps, states, k - 1, what) + what(states[k - 1], steps[k - 1])
  }

  /** The parts of a queue, laid end to end. */
  ghost function Flat<A, X>(part: A -> seq<X>, q: seq<A>): seq<X> {
    if q == [] then [] else Flat(part, q[..|q| - 1]) + part(q[|q| - 1])
  }

  lemma FlatAppend<A, X>(part: A -> seq<X>, q: seq<A>, a: A)
    ensures Flat(part, q + [a]) == Flat(part, q) + part(a)
  {
    assert (q + [a])[..|q|] == q;
  }

  lemma {:induction false} FlatHead<A, X>(part: A -> seq<X>, q: seq<A>)
    requires q != []
    ensures Flat(part, q) == part(q[0]) + Flat(part, q[1..])
  {
    if |q| == 1 {
      assert q[..0] == [] && q[1..] == [];
      Unit(part(q[0]));
    } else {
      var init, last := q[..|q| - 1], q[|q| - 1];
      FlatHead(part, init);
      assert init[1..] + [last] == q[1..];
      FlatAppend(part, init[1..], last);
      Assoc(part(q[0]), Flat(part, init[1..]), part(last));
    }
  }

  // the mutations a step sends, takes off the queue, and those in a command
  function SentJob(s: Plane, e: Step): seq<Job> {
    match e
    case UiSendDelete(id) => [DeleteJob(id)]
    case UiSendRecheck(id) => [RecheckJob(id)]
    case _ => []
  }

  function TakenJob(s: Plane, e: Step): seq<Job> {
    if (e.DeleteRefuse? || e.DeleteClear? || e.RecheckTake?) && s.jobs != [] then [s.jobs[0]] else []
  }

  function JobIn(c: Command): seq<Job> {
    match c
    case ListCatalog(_) => []
    case SoftDelete(id) => [DeleteJob(id)]
    case Recheck(id) => [RecheckJob(id)]
  }

  /** The jobs still to be taken: queued, and in commands not routed yet. */
  ghost function JobsAhead(s: Plane): seq<Job> {
    s.jobs + Flat(JobIn, s.commands)
  }

  lemma SendStep(s: Plane, e: Step, t: Plane)
    requires Next(s, e, t) && (e.UiSendList? || e.UiSendDelete? || e.UiSendRecheck?)
    ensures JobsAhead(t) == JobsAhead(s) + SentJob(s, e)
  {
    hide Flat;
    var c := if e.UiSendList? then ListCatalog(s.bumped.value)
             else if e.UiSendDelete? then SoftDelete(e.id) else Recheck(e.id);
    FlatAppend(JobIn, s.commands, c);
    Assoc(s.jobs, Flat(JobIn, s.commands), JobIn(c));
  }

  lemma RouteStep(s: Plane, t: Plane)
    requires Next(s, Route, t)
    ensures JobsAhead(t) == JobsAhead(s)
  {
    hide Flat;
    FlatHead(JobIn, s.commands);
    Assoc(s.jobs, JobIn(s.commands[0]), Flat(JobIn, s.commands[1..]));
    Unit(s.jobs);
  }

  lemma TakeStep(s: Plane, e: Step, t: Plane)
    requires Next(s, e, t) && (e.DeleteRefuse? || e.DeleteClear? || e.RecheckTake?)
    ensures s.jobs != [] && [s.jobs[0]] + JobsAhead(t) == JobsAhead(s)
  {
    hide Flat;
    assert s.jobs == [s.jobs[0]] + s.jobs[1..];
    Assoc([s.jobs[0]], s.jobs[1..], Flat(JobIn, s.commands));
  }

  lemma RestStep(s: Plane, e: Step, t: Plane)
    requires Next(s, e, t) && !e.Route? && TakenJob(s, e) == [] && SentJob(s, e) == [] && !e.UiSendList?
    ensures JobsAhead(t) == JobsAhead(s)
  {
    hide Flat;
  }

  lemma JobStep(s: Plane, e: Step, t: Plane)
    requires Next(s, e, t)
    ensures TakenJob(s, e) + JobsAhead(t) == JobsAhead(s) + SentJob(s, e)
  {
    hide JobsAhead, Next;
    Unit(JobsAhead(t));
    Unit(JobsAhead(s));
    if e.UiSendList? || e.UiSendDelete? || e.UiSendRecheck? {
      SendStep(s, e, t);
    } else if e.Route? {
      RouteStep(s, t);
    } else if e.DeleteRefuse? || e.DeleteClear? || e.RecheckTake? {
      TakeStep(s, e, t);
    } else {
      RestStep(s, e, t);
    }
  }

  /** The mutation worker takes the jobs in the order they were sent, each once: what it has
      taken, what waits for it and what waits for the control loop is all that was sent. */
  lemma {:induction false} JobsInOrder(steps: seq<Step>, states: seq<Plane>, k: nat)
    requires IsRun(steps, states) && k < |states|
    ensures Trace(steps, states, k, TakenJob) + JobsAhead(states[k]) == Trace(steps, states, k, SentJob)
  {
    hide Next, TakenJob, SentJob, JobsAhead;
    if k == 0 {
      NothingSent(states[0]);
    } else {
      var s, e, t := states[k - 1], steps[k - 1], states[k];
      JobsInOrder(steps, states, k - 1);
      assert Next(states[k - 1], steps[k - 1], states[k - 1 + 1]);
      JobStep(s, e, t);
      Assoc(Trace(steps, states, k - 1, TakenJob), TakenJob(s, e), JobsAhead(t));
      Assoc(Trace(steps, states, k - 1, TakenJob), JobsAhead(s), SentJob(s, e));
    }
  }

  lemma NothingSent(s: Plane)
    requires Initial(s)
    ensures JobsAhead(s) == []
  {}

  // the deletes a step takes, and how they are answered
  function TakenDelete(s: Plane, e: Step): seq<Id> {
    if (e.DeleteRefuse? || e.DeleteClear?) && s.jobs != [] then [s.jobs[0].id] else []
  }

  function AnswerTo(x: Event): seq<Id> {
    match x
    case SoftDeleted(id) => [id]
    case SoftDeleteFailed(id) => [id]
    case _ => []
  }

  function InHand(m: Mutator): seq<Id> {
    match m
    case Free => []
    case Cleared(id) => [id]
    case Deleted(id) => [id]
  }

  // the deletes a step commits, and how they are announced
  function CommittedDelete(s: Plane, e: Step): seq<Id> {
    if e.DeleteCommit? && s.mutator.Cleared? then [s.mutator.id] else []
  }

  function SuccessOf(x: Event): seq<Id> {
    if x.SoftDeleted? then [x.id] else []
  }

  function Unreported(m: Mutator): seq<Id> {
    if m.Deleted? then [m.id] else []
  }

  /** What the UI has received and what is on its way to it. */
  ghost function Down(part: Event -> seq<Id>, s: Plane): seq<Id> {
    Flat(part, s.received) + Flat(part, s.events)
  }

  lemma DownStep(part: Event -> seq<Id>, s: Plane, t: Plane)
    requires t.received == s.received && exists x :: t.events == s.events + [x]
    ensures Down(part, t) == Down(part, s) + part(t.events[|s.events|])
  {
    var x :| t.events == s.events + [x];
    FlatAppend(part, s.events, x);
    Assoc(Flat(part, s.received), Flat(part, s.events), part(x));
  }

  lemma DownReceived(part: Event -> seq<Id>, s: Plane, t: Plane)
    requires Next(s, UiReceive, t)
    ensures Down(part, t) == Down(part, s)
  {
    FlatAppend(part, s.received, s.events[0]);
    FlatHead(part, s.events);
    Assoc(Flat(part, s.received), part(s.events[0]), Flat(part, s.events[1..]));
  }

  lemma DownSame(part: Event -> seq<Id>, s: Plane, t: Plane)
    requires t.received == s.received && t.events == s.events
    ensures Down(part, t) == Down(part, s) + []
  {
    Unit(Down(part, s));
  }

  /** A step sends at most one event. */
  lemma DownMoves(part: Event -> seq<Id>, s: Plane, e: Step, t: Plane)
    requires Next(s, e, t)
    ensures t.events == s.events || e == UiReceive || |t.events| == |s.events| + 1
    ensures Down(part, t) == Down(part, s) + if |t.events| > |s.events| then part(t.events[|s.events|]) else []
  {
    hide Down;
    if e == UiReceive {
      DownReceived(part, s, t);
    } else if t.events != s.events {
      assert t.events == s.events + [t.events[|s.events|]];
      DownStep(part, s, t);
    } else {
      DownSame(part, s, t);
    }
  }

  lemma AnswerStep(s: Plane, e: Step, t: Plane)
    requires Next(s, e, t) && (s.reader.Answering? ==> IsReply(s.reader.reply))
    ensures Down(AnswerTo, t) + InHand(t.mutator) == Down(AnswerTo, s) + InHand(s.mutator) + TakenDelete(s, e)
  {
    hide Down;
    DownMoves(AnswerTo, s, e, t);
    Unit(Down(AnswerTo, s));
    Unit(Down(AnswerTo, s) + InHand(s.mutator));
  }

  lemma SuccessStep(s: Plane, e: Step, t: Plane)
    requires Next(s, e, t) && (s.reader.Answering? ==> IsReply(s.reader.reply))
    ensures Down(SuccessOf, t) + Unreported(t.mutator)
            == Down(SuccessOf, s) + Unreported(s.mutator) + CommittedDelete(s, e)
  {
    hide Down;
    DownMoves(SuccessOf, s, e, t);
    Unit(Down(SuccessOf, s));
    Unit(Down(SuccessOf, s) + Unreported(s.mutator));
  }

  /** Each delete taken is answered once, in order, or in the worker's hand; and the successes
      are exactly the commits, in order. */
  lemma {:induction false} DeletesAnswered(steps: seq<Step>, states: seq<Plane>, k: nat)
    requires IsRun(steps, states) && k < |states|
    ensures Down(AnswerTo, states[k]) + InHand(states[k].mutator) == Trace(steps, states, k, TakenDelete)
    ensures Down(SuccessOf, states[k]) + Unreported(states[k].mutator) == Trace(steps, states, k, CommittedDelete)
  {
    hide Next, Down, TakenDelete, CommittedDelete, AnswerTo, SuccessOf, InHand, Unreported, InOrder;
    if k == 0 {
      NothingAnswered(states[0]);
    } else {
      DeletesAnswered(steps, states, k - 1);
      RunInOrder(steps, states, k - 1);
      RepliesOnly(states[k - 1]);
      assert Next(states[k - 1], steps[k - 1], states[k - 1 + 1]);
      AnswerStep(states[k - 1], steps[k - 1], states[k]);
      SuccessStep(states[k - 1], steps[k - 1], states[k]);
    }
  }

  lemma NothingAnswered(s: Plane)
    requires Initial(s)
    ensures Down(AnswerTo, s) + InHand(s.mutator) == []
    ensures Down(SuccessOf, s) + Unreported(s.mutator) == []
  {}

  // ---------------------------------------------------------------- rechecks

  /** At most one recheck of a torrent runs at a time: the claims are exactly the running ones. */
  ghost predicate ClaimsExact(s: Plane) {
    forall id: Id :: s.running[id] == if id in s.claims then 1 else 0
  }

  lemma {:induction false} OneRecheckAtATime(steps: seq<Step>, states: seq<Plane>, k: nat)
    requires IsRun(steps, states) && k < |states|
    ensures ClaimsExact(states[k])
  {
    if k > 0 {
      OneRecheckAtATime(steps, states, k - 1);
      assert Next(states[k - 1], steps[k - 1], states[k - 1 + 1]);
    }
  }

  function BegunRecheck(s: Plane, e: Step): seq<Id> {
    if e.RecheckTake? && s.jobs != [] && s.jobs[0].id !in s.claims then [s.jobs[0].id] else []
  }

  function EndedRecheck(s: Plane, e: Step): seq<Id> {
    if e.RecheckEnd? then [e.id] else []
  }

  /** A recheck job taken begins exactly if its torrent has no claim: what has begun and not
      ended is what runs. */
  lemma {:induction false} RechecksRun(steps: seq<Step>, states: seq<Plane>, k: nat)
    requires IsRun(steps, states) && k < |states|
    ensures multiset(Trace(steps, states, k, BegunRecheck))
            == states[k].running + multiset(Trace(steps, states, k, EndedRecheck))
  {
    hide Next, BegunRecheck, EndedRecheck;
    if k > 0 {
      RechecksRun(steps, states, k - 1);
      assert Next(states[k - 1], steps[k - 1], states[k - 1 + 1]);
      RecheckStep(states[k - 1], steps[k - 1], states[k]);
      TraceCounts(steps, states, k, BegunRecheck);
      TraceCounts(steps, states, k, EndedRecheck);
      MovesOver(multiset(Trace(steps, states, k - 1, BegunRecheck)),
                multiset(Trace(steps, states, k - 1, EndedRecheck)), states[k - 1], steps[k - 1], states[k]);
    }
  }

  lemma TraceCounts(steps: seq<Step>, states: seq<Plane>, k: nat, what: (Plane, Step) -> seq<Id>)
    requires 0 < k <= |steps| < |states|
    ensures multiset(Trace(steps, states, k, what))
            == multiset(Trace(steps, states, k - 1, what)) + multiset(what(states[k - 1], steps[k - 1]))
  {}

  lemma MovesOver(begun: multiset<Id>, ended: multiset<Id>, s: Plane, e: Step, t: Plane)
    requires begun == s.running + ended
    requires s.running + multiset(BegunRecheck(s, e)) == t.running + multiset(EndedRecheck(s, e))
    ensures begun + multiset(BegunRecheck(s, e)) == t.running + (ended + multiset(EndedRecheck(s, e)))
  {
    hide BegunRecheck, EndedRecheck;
    assert begun + multiset(BegunRecheck(s, e)) == ended + (s.running + multiset(BegunRecheck(s, e)));
  }

  lemma RecheckStep(s: Plane, e: Step, t: Plane)
    requires Next(s, e, t)
    ensures s.running + multiset(BegunRecheck(s, e)) == t.running + multiset(EndedRecheck(s, e))
  {}

  /** A torrent whose delete has passed the recheck test has no recheck claim. */
  ghost predicate ClearedIsUnclaimed(s: Plane) {
    s.mutator.Cleared? ==> s.mutator.id !in s.claims
  }

  lemma {:induction false} ClearedStaysUnclaimed(steps: seq<Step>, states: seq<Plane>, k: nat)
    requires IsRun(steps, states) && k < |states|
    ensures ClearedIsUnclaimed(states[k])
  {
    if k > 0 {
      ClearedStaysUnclaimed(steps, states, k - 1);
      assert Next(states[k - 1], steps[k - 1], states[k - 1 + 1]);
    }
  }

  /** A delete never commits while a recheck of that torrent runs. */
  lemma NoDeleteDuringRecheck(steps: seq<Step>, states: seq<Plane>, id: Id, k: nat)
    requires IsRun(steps, states) && k < |steps| && Commits(states[k], steps[k], id)
    ensures states[k].running[id] == 0 && states[k + 1].running[id] == 0
  {
    ClearedStaysUnclaimed(steps, states, k);
    OneRecheckAtATime(steps, states, k);
    OneRecheckAtATime(steps, states, k + 1);
    assert Next(states[k], steps[k], states[k + 1]);
  }

  predicate Begins(s: Plane, e: Step, id: Id) {
    e == RecheckTake && s.jobs != [] && s.jobs[0] == RecheckJob(id) && id !in s.claims
  }

  /** From the moment a recheck of `id` begins until it ends, no delete of `id` commits: a
      commit after the beginning has an end of that recheck in between. */
  lemma {:induction false} RecheckShutsOutDelete(steps: seq<Step>, states: seq<Plane>, id: Id, p: nat, k: nat)
    requires IsRun(steps, states) && p < k < |steps| && Begins(states[p], steps[p], id)
    requires Commits(states[k], steps[k], id)
    ensures exists q :: p < q < k && steps[q] == RecheckEnd(id)
  {
    NoDeleteDuringRecheck(steps, states, id, k);
    if !(exists q :: p < q < k && steps[q] == RecheckEnd(id)) {
      StillRunning(steps, states, id, p, k);
    }
  }

  lemma {:induction false} StillRunning(steps: seq<Step>, states: seq<Plane>, id: Id, p: nat, k: nat)
    requires IsRun(steps, states) && p < k <= |steps| && Begins(states[p], steps[p], id)
    requires forall q :: p < q < k ==> steps[q] != RecheckEnd(id)
    ensures states[k].running[id] > 0
  {
    hide Initial;
    assert Next(states[k - 1], steps[k - 1], states[k - 1 + 1]);
    if p < k - 1 {
      StillRunning(steps, states, id, p, k - 1);
    }
  }
}
