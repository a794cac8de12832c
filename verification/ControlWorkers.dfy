/** The loops of the control threads over their queues
    (`crates/engine/src/control/reader.rs`, `plane.rs`). */
module ControlWorkers {
  import opened Wrappers

  datatype ReadJob = ListJob(filter: string, gen: nat) | StopReading

  datatype Reply<Rows> = Listing(filter: string, rows: Rows, gen: nat) | ListingFailed(filter: string, gen: nat)

  /** The job the reader answers: the newest of a burst without a shutdown. */
  ghost predicate Burst(jobs: seq<ReadJob>) {
    jobs != [] && forall i :: 0 <= i < |jobs| ==> jobs[i].ListJob?
  }

  class CatalogReader<Rows> {
    var inbox: seq<ReadJob>
    var replies: seq<Reply<Rows>>
    /** A catalog connection is cached. */
    var connected: bool

    constructor (jobs: seq<ReadJob>)
      ensures inbox == jobs && replies == [] && !connected
    {
      inbox, replies, connected := jobs, [], false;
    }

    /** One turn of `catalog_reader_worker` over the jobs queued now. A burst gets one reply,
        carrying the newest generation and filter; a shutdown in it drops the whole burst. A
        failed query forgets the connection. */
    method Turn(canOpen: bool, query: string -> Option<Rows>, limitsOk: bool) returns (stop: bool)
      requires inbox != []
      modifies this
      ensures stop <==> StopReading in old(inbox)
      ensures stop ==> replies == old(replies) && connected == old(connected)
      ensures !stop ==>
                var last := old(inbox)[|old(inbox)| - 1];
                var up := old(connected) || canOpen;
                var answered := up && query(last.filter).Some? && limitsOk;
                && Burst(old(inbox)) && inbox == []
                && replies == old(replies) + [if answered then Listing(last.filter, query(last.filter).value, last.gen)
                                              else ListingFailed(last.filter, last.gen)]
                && connected == (up && answered)
    {
      ghost var jobs := inbox;
      var first := inbox[0];
      inbox := inbox[1..];
      if first.StopReading? {
        return true;
      }
      var filter, gen := first.filter, first.gen;
      ghost var taken := 1;
      while inbox != []
        invariant 1 <= taken <= |jobs| && inbox == jobs[taken..]
        invariant jobs[taken - 1] == ListJob(filter, gen)
        invariant forall i :: 0 <= i < taken ==> jobs[i].ListJob?
        invariant replies == old(replies) && connected == old(connected)
        decreases |inbox|
      {
        var more := inbox[0];
        inbox := inbox[1..];
        if more.StopReading? {
          return true;
        }
        filter, gen := more.filter, more.gen;
        taken := taken + 1;
      }
      stop := false;
      if !connected {
        connected := canOpen;
      }
      if !connected {
        replies := replies + [ListingFailed(filter, gen)];
        return;
      }
      var rows := query(filter);
      if rows.Some? && limitsOk {
        replies := replies + [Listing(filter, rows.value, gen)];
      } else {
        connected := false;
        replies := replies + [ListingFailed(filter, gen)];
      }
    }
  }

  datatype Command =
    | Start(id: int) | Stop(id: int) | Recheck(id: int) | SetPriority(id: int, fileIdx: nat, priority: int)
    | Relocate(id: int, root: string) | SoftDelete(id: int) | Remove(id: int) | SetLimits
    | List(filter: string, gen: nat)
    | Shutdown

  datatype Job =
    | DoStart(id: int) | DoStop(id: int) | DoRecheck(id: int) | DoSetPriority(id: int, fileIdx: nat, priority: int)
    | DoRelocate(id: int, root: string) | DoSoftDelete(id: int) | DoRemove(id: int) | DoSetLimits
    | StopMutating

  /** The mutation job a command becomes; list requests become none. */
  function JobOf(c: Command): seq<Job> {
    match c
    case Start(id) => [DoStart(id)]
    case Stop(id) => [DoStop(id)]
    case Recheck(id) => [DoRecheck(id)]
    case SetPriority(id, f, p) => [DoSetPriority(id, f, p)]
    case Relocate(id, root) => [DoRelocate(id, root)]
    case SoftDelete(id) => [DoSoftDelete(id)]
    case Remove(id) => [DoRemove(id)]
    case SetLimits => [DoSetLimits]
    case List(_, _) => []
    case Shutdown => [StopMutating]
  }

  function ReadOf(c: Command): seq<ReadJob> {
    match c
    case List(f, g) => [ListJob(f, g)]
    case Shutdown => [StopReading]
    case _ => []
  }

  function JobsOf(cs: seq<Command>): seq<Job> {
    if cs == [] then [] else JobsOf(cs[..|cs| - 1]) + JobOf(cs[|cs| - 1])
  }

  function ReadsOf(cs: seq<Command>): seq<ReadJob> {
    if cs == [] then [] else ReadsOf(cs[..|cs| - 1]) + ReadOf(cs[|cs| - 1])
  }

  /** Which worker queues still have a receiver. */
  datatype Alive = Alive(jobs: bool, lists: bool)

  /** The command reaches its worker; a shutdown ignores the answer. */
  predicate Delivered(c: Command, alive: Alive) {
    c.Shutdown? || if c.List? then alive.lists else alive.jobs
  }

  lemma RoutedNext(cs: seq<Command>, k: nat)
    requires k < |cs|
    ensures JobsOf(cs[..k + 1]) == JobsOf(cs[..k]) + JobOf(cs[k])
    ensures ReadsOf(cs[..k + 1]) == ReadsOf(cs[..k]) + ReadOf(cs[k])
  {
    assert cs[..k + 1][..k] == cs[..k];
  }

  /** The command loop of `control_thread_main`. It handles the first `n` commands: mutations
      reach the mutation queue and list requests the reader's queue, each in command order. It
      ends at the first shutdown, or at the hang-up behind the last command, with one shutdown
      for each worker still there; or, without any, at the first command that a dead worker
      does not take. */
  method ControlLoop(cs: seq<Command>, up: nat -> Alive) returns (jobs: seq<Job>, lists: seq<ReadJob>, n: nat)
    ensures n <= |cs| && forall i :: 0 <= i < n ==> cs[i] != Shutdown && Delivered(cs[i], up(i))
    ensures n < |cs| && cs[n] != Shutdown ==> !Delivered(cs[n], up(n))
    ensures n < |cs| && cs[n] != Shutdown ==> jobs == JobsOf(cs[..n]) && lists == ReadsOf(cs[..n])
    ensures n == |cs| || cs[n] == Shutdown ==>
              && jobs == JobsOf(cs[..n]) + (if up(n).jobs then [StopMutating] else [])
              && lists == ReadsOf(cs[..n]) + (if up(n).lists then [StopReading] else [])
  {
    hide JobOf, ReadOf;
    jobs, lists := [], [];
    n := 0;
    assert cs[..0] == [];
    while n < |cs| && cs[n] != Shutdown
      invariant n <= |cs| && jobs == JobsOf(cs[..n]) && lists == ReadsOf(cs[..n])
      invariant forall i :: 0 <= i < n ==> cs[i] != Shutdown && Delivered(cs[i], up(i))
    {
      if !Delivered(cs[n], up(n)) {
        return;
      }
      RoutedNext(cs, n);
      var job, list := RouteOne(cs[n]);
      jobs := jobs + job;
      lists := lists + list;
      n := n + 1;
    }
    if up(n).lists {
      lists := lists + [StopReading];
    }
    if up(n).jobs {
      jobs := jobs + [StopMutating];
    }
  }

  /** The `match` of the command loop. */
  method RouteOne(c: Command) returns (job: seq<Job>, list: seq<ReadJob>)
    ensures job == JobOf(c) && list == ReadOf(c)
    ensures c.Start? ==> job == [DoStart(c.id)]
    ensures c.Stop? ==> job == [DoStop(c.id)]
    ensures c.Recheck? ==> job == [DoRecheck(c.id)]
    ensures c.SetPriority? ==> job == [DoSetPriority(c.id, c.fileIdx, c.priority)]
    ensures c.Relocate? ==> job == [DoRelocate(c.id, c.root)]
    ensures c.SoftDelete? ==> job == [DoSoftDelete(c.id)]
    ensures c.Remove? ==> job == [DoRemove(c.id)]
    ensures c.SetLimits? ==> job == [DoSetLimits]
    ensures c.List? ==> job == [] && list == [ListJob(c.filter, c.gen)]
    ensures c.Shutdown? ==> job == [StopMutating] && list == [StopReading]
    ensures !c.List? && !c.Shutdown? ==> list == []
  {
    job, list := [], [];
    match c {
      case Start(id) => job := [DoStart(id)];
      case Stop(id) => job := [DoStop(id)];
      case Recheck(id) => job := [DoRecheck(id)];
      case SetPriority(id, f, p) => job := [DoSetPriority(id, f, p)];
      case Relocate(id, root) => job := [DoRelocate(id, root)];
      case SoftDelete(id) => job := [DoSoftDelete(id)];
      case Remove(id) => job := [DoRemove(id)];
      case SetLimits => job := [DoSetLimits];
      case List(f, g) => list := [ListJob(f, g)];
      case Shutdown => list, job := [StopReading], [StopMutating];
    }
  }
}
