/** Moving a torrent's payload between data roots (`crates/engine/src/disk/relocate.rs`) over
    a file system of directory entries and inodes, with every intermediate state recorded: a
    crash can leave the disk in any of them. Directory symlinks are a fixed resolution of
    paths to entries. */
module Relocation {
  import opened Bits
  import opened Paths
  import opened Spans

  /** A directory entry after resolving the directories of a path. */
  type Name = nat

  /** Entries name inodes, inodes hold bytes; `root` is the catalog's current data root. */
  datatype Disk = Disk(entries: map<Name, nat>, inodes: map<nat, seq<byte>>, next: nat, root: string)

  ghost predicate Tidy(d: Disk) {
    && (forall n | n in d.entries :: d.entries[n] in d.inodes)
    && (forall i | i in d.inodes :: i < d.next)
  }

  /** What opening a name reads. */
  ghost function Read(d: Disk, n: Name): seq<seq<byte>> {
    if n in d.entries && d.entries[n] in d.inodes then [d.inodes[d.entries[n]]] else []
  }

  /** A relocation: the payload files, both roots, and the disk it starts from. */
  datatype Plan = Plan(resolve: AbsPath -> Name, files: seq<FileLayout>, oldRoot: string, newRoot: string, start: Disk)
  {
    function Src(k: nat): Name
      requires k < |files|
    {
      resolve(Join(oldRoot, PlaceOf(files[k].path)))
    }

    function Dst(k: nat): Name
      requires k < |files|
    {
      resolve(Join(newRoot, PlaceOf(files[k].path)))
    }

    function Under(root: string, k: nat): Name
      requires k < |files|
    {
      resolve(Join(root, PlaceOf(files[k].path)))
    }

    ghost predicate Existed(k: nat)
      requires k < |files|
    {
      Src(k) in start.entries
    }

    /** No existing file's new name is an old name that goes away. */
    ghost predicate ClashFree() {
      forall j, k :: 0 <= j < |files| && 0 <= k < |files| && Existed(j) && Dst(j) == Src(k) ==> Src(k) == Dst(k)
    }

    /** Both files existed and were one inode. */
    ghost predicate SameInode(j: nat, k: nat)
      requires j < |files| && k < |files|
    {
      Existed(j) && Existed(k) && start.entries[Src(j)] == start.entries[Src(k)]
    }

    /** Existing files that come to one new name hold the same bytes, and are one inode where
        that name is already an old name of theirs. */
    ghost predicate Mergeable() {
      forall j, k :: 0 <= j < |files| && 0 <= k < |files| && Existed(j) && Existed(k) && Dst(j) == Dst(k) ==>
        Read(start, Src(j)) == Read(start, Src(k)) && (Src(j) == Dst(j) ==> SameInode(j, k))
    }

    /** What a caller can check before relocating. */
    ghost predicate Movable() {
      ClashFree() && Mergeable()
    }

    /** A name of the payload: an old name, or the new name of a file that existed. */
    ghost predicate Mine(n: Name) {
      exists j :: 0 <= j < |files| && (Src(j) == n || (Existed(j) && Dst(j) == n))
    }
  }

  /** Every payload file that existed reads its original bytes under the current root. */
  ghost predicate Safe(p: Plan, d: Disk) {
    forall k :: 0 <= k < |p.files| && p.Existed(k) ==> Read(d, p.Under(d.root, k)) == Read(p.start, p.Src(k))
  }

  /** Every name that is none of the payload's reads what it read before. */
  ghost predicate OthersKept(p: Plan, d: Disk) {
    forall n: Name :: !p.Mine(n) ==> Read(d, n) == Read(p.start, n)
  }

  ghost predicate Good(p: Plan, d: Disk) {
    Safe(p, d) && OthersKept(p, d)
  }

  ghost predicate AllGood(p: Plan, trace: seq<Disk>) {
    forall i :: 0 <= i < |trace| ==> Good(p, trace[i])
  }

  /** The inodes of the start are all there, unchanged. */
  ghost predicate OldInodesKept(p: Plan, d: Disk) {
    p.start.next <= d.next && forall i | i in p.start.inodes :: i in d.inodes && d.inodes[i] == p.start.inodes[i]
  }

  /** The old names of existing files still name their inodes. */
  ghost predicate SourcesKept(p: Plan, d: Disk) {
    forall j :: 0 <= j < |p.files| && p.Existed(j) ==>
      p.Src(j) in d.entries && d.entries[p.Src(j)] == p.start.entries[p.Src(j)]
  }

  /** The old name of a missing file appears only if it is its new name too. */
  ghost predicate AbsentKept(p: Plan, d: Disk) {
    forall m :: 0 <= m < |p.files| && !p.Existed(m) && p.Src(m) in d.entries ==> p.Src(m) == p.Dst(m)
  }

  /** The first `k` files that existed read their bytes under the new root, leaving out
      those that come to the name `but`. */
  ghost predicate PublishedBut(p: Plan, d: Disk, k: nat, but: Name)
    requires k <= |p.files|
  {
    forall j :: 0 <= j < k && p.Existed(j) && p.Dst(j) != but ==> Read(d, p.Dst(j)) == Read(p.start, p.Src(j))
  }

  ghost predicate PublishedUpTo(p: Plan, d: Disk, k: nat)
    requires k <= |p.files|
  {
    forall j :: 0 <= j < k && p.Existed(j) ==> Read(d, p.Dst(j)) == Read(p.start, p.Src(j))
  }

  /** What holds all the time while files are being published. */
  ghost predicate Standing(p: Plan, d: Disk) {
    && d.root == p.oldRoot && Tidy(d) && OldInodesKept(p, d) && SourcesKept(p, d) && AbsentKept(p, d)
    && OthersKept(p, d)
  }

  /** The state between two files. */
  ghost predicate Publishing(p: Plan, d: Disk, k: nat)
    requires k <= |p.files|
  {
    Standing(p, d) && PublishedUpTo(p, d, k)
  }

  /** The state inside the publishing of file `k`. */
  ghost predicate Midway(p: Plan, d: Disk, k: nat)
    requires k < |p.files|
  {
    Standing(p, d) && PublishedBut(p, d, k, p.Dst(k))
  }

  /** The state while the old names are being removed. */
  ghost predicate Unpublishing(p: Plan, d: Disk) {
    d.root == p.newRoot && Tidy(d) && PublishedUpTo(p, d, |p.files|) && OthersKept(p, d)
  }

  // ---------------------------------------------------------------- what steps keep

  lemma StandingIsGood(p: Plan, d: Disk)
    requires Tidy(p.start) && Standing(p, d)
    ensures Good(p, d)
  {
    hide AbsentKept, OthersKept;
    forall j | 0 <= j < |p.files| && p.Existed(j)
      ensures Read(d, p.Under(d.root, j)) == Read(p.start, p.Src(j))
    {
      SourceReads(p, d, j);
    }
  }

  lemma SourceReads(p: Plan, d: Disk, j: nat)
    requires Tidy(p.start) && OldInodesKept(p, d) && SourcesKept(p, d) && j < |p.files| && p.Existed(j)
    ensures Read(d, p.Src(j)) == Read(p.start, p.Src(j)) != []
  {}

  /** Two disks that differ only in one entry and in inodes no other entry uses. */
  ghost predicate DiffersAt(d: Disk, e: Disk, n: Name) {
    && e.root == d.root && d.next <= e.next
    && (forall m: Name | m != n ::
          (m in e.entries <==> m in d.entries) && (m in e.entries ==> e.entries[m] == d.entries[m]))
    && (forall i | i in d.inodes :: i in e.inodes && e.inodes[i] == d.inodes[i])
  }

  lemma OtherReads(d: Disk, e: Disk, n: Name, m: Name)
    requires Tidy(d) && DiffersAt(d, e, n) && m != n
    ensures Read(e, m) == Read(d, m)
  {}

  lemma OldInodesStep(p: Plan, d: Disk, e: Disk, n: Name)
    requires OldInodesKept(p, d) && DiffersAt(d, e, n)
    ensures OldInodesKept(p, e)
  {}

  lemma OthersStep(p: Plan, d: Disk, e: Disk, n: Name)
    requires Tidy(d) && OthersKept(p, d) && DiffersAt(d, e, n) && p.Mine(n)
    ensures OthersKept(p, e)
  {
    hide Read, DiffersAt, Plan.Mine, Tidy;
    forall m: Name | !p.Mine(m) ensures Read(e, m) == Read(p.start, m) {
      OtherReads(d, e, n, m);
    }
  }

  /** No existing file's old name is the name being changed. */
  ghost predicate NoSource(p: Plan, n: Name) {
    forall j :: 0 <= j < |p.files| && p.Existed(j) ==> p.Src(j) != n
  }

  lemma SourcesStep(p: Plan, d: Disk, e: Disk, n: Name)
    requires SourcesKept(p, d) && DiffersAt(d, e, n) && NoSource(p, n)
    ensures SourcesKept(p, e)
  {}

  lemma AbsentStep(p: Plan, d: Disk, e: Disk, k: nat)
    requires p.ClashFree() && k < |p.files| && p.Existed(k) && AbsentKept(p, d) && DiffersAt(d, e, p.Dst(k))
    ensures AbsentKept(p, e)
  {}

  lemma StandingStep(p: Plan, d: Disk, e: Disk, k: nat)
    requires p.ClashFree() && k < |p.files| && p.Existed(k) && NoSource(p, p.Dst(k))
    requires Standing(p, d) && DiffersAt(d, e, p.Dst(k)) && Tidy(e)
    ensures Standing(p, e)
  {
    assert e.root == d.root;
    assert p.Mine(p.Dst(k));
    hide Tidy, DiffersAt, OldInodesKept, SourcesKept, AbsentKept, OthersKept, NoSource, Plan.ClashFree, Plan.Mine;
    OldInodesStep(p, d, e, p.Dst(k));
    SourcesStep(p, d, e, p.Dst(k));
    AbsentStep(p, d, e, k);
    OthersStep(p, d, e, p.Dst(k));
  }

  lemma PublishedStep(p: Plan, d: Disk, e: Disk, k: nat)
    requires k < |p.files| && Tidy(d) && PublishedBut(p, d, k, p.Dst(k)) && DiffersAt(d, e, p.Dst(k))
    ensures PublishedBut(p, e, k, p.Dst(k))
  {
    hide Read, DiffersAt, Tidy, Plan.Existed;
    forall j | 0 <= j < k && p.Existed(j) && p.Dst(j) != p.Dst(k)
      ensures Read(e, p.Dst(j)) == Read(p.start, p.Src(j))
    {
      OtherReads(d, e, p.Dst(k), p.Dst(j));
    }
  }

  /** Changing the new name of file `k` disturbs neither the sources nor what was published
      under other names. */
  lemma PublishStep(p: Plan, d: Disk, e: Disk, k: nat)
    requires p.Movable() && k < |p.files| && p.Existed(k) && NoSource(p, p.Dst(k))
    requires Midway(p, d, k) && DiffersAt(d, e, p.Dst(k)) && Tidy(e)
    ensures Midway(p, e, k)
  {
    hide Tidy, DiffersAt, NoSource, PublishedBut, Plan.ClashFree, Plan.Mergeable, OldInodesKept, SourcesKept,
         AbsentKept, OthersKept;
    StandingStep(p, d, e, k);
    PublishedStep(p, d, e, k);
  }

  /** Once file `k` reads right under its new name, so do all that share the name. */
  lemma PublishDone(p: Plan, d: Disk, k: nat)
    requires p.Movable() && k < |p.files| && Midway(p, d, k)
    requires p.Existed(k) ==> Read(d, p.Dst(k)) == Read(p.start, p.Src(k))
    requires !p.Existed(k) ==> PublishedUpTo(p, d, k)
    ensures Publishing(p, d, k + 1)
  {
    hide Standing, Read, Plan.ClashFree, Plan.SameInode;
  }

  lemma BetweenIsMidway(p: Plan, d: Disk, k: nat)
    requires k < |p.files| && Publishing(p, d, k)
    ensures Midway(p, d, k)
  {
    hide Standing, Read;
  }

  /** A file whose source and destination are one inode by now is published as it stands. */
  lemma AlreadyThere(p: Plan, d: Disk, k: nat)
    requires Tidy(p.start) && p.Movable() && k < |p.files| && p.Existed(k) && Midway(p, d, k)
    requires p.Src(k) in d.entries && p.Dst(k) in d.entries && d.entries[p.Src(k)] == d.entries[p.Dst(k)]
    ensures Publishing(p, d, k + 1)
  {
    SourceReads(p, d, k);
    hide Standing, Plan.Movable;
    assert Read(d, p.Dst(k)) == Read(d, p.Src(k));
    PublishDone(p, d, k);
  }

  /** If the source and destination of a file are apart, no existing file's old name is its
      destination. */
  lemma ApartIsNoSource(p: Plan, d: Disk, k: nat)
    requires p.Movable() && k < |p.files| && p.Existed(k) && SourcesKept(p, d)
    requires !(p.Dst(k) in d.entries && p.Src(k) in d.entries && d.entries[p.Src(k)] == d.entries[p.Dst(k)])
    ensures NoSource(p, p.Dst(k))
  {
    forall j | 0 <= j < |p.files| && p.Existed(j) ensures p.Src(j) != p.Dst(k) {
      assert p.Src(j) == p.Dst(k) ==> p.Src(j) == p.Dst(j) && p.SameInode(j, k);
    }
  }

  lemma SwapStep(p: Plan, d: Disk)
    requires Publishing(p, d, |p.files|)
    ensures Unpublishing(p, d.(root := p.newRoot))
  {
    var e := d.(root := p.newRoot);
    assert forall n: Name :: Read(e, n) == Read(d, n);
    hide Read, Plan.Mine, OldInodesKept, SourcesKept, AbsentKept;
  }

  lemma UnpublishingIsGood(p: Plan, d: Disk)
    requires Unpublishing(p, d)
    ensures Good(p, d)
  {
    hide Read, Plan.Mine, Tidy;
  }

  /** Removing an old name that is not also the file's new one. */
  lemma UnpublishStep(p: Plan, d: Disk, k: nat)
    requires p.ClashFree() && k < |p.files| && Unpublishing(p, d) && p.Src(k) != p.Dst(k)
    ensures Unpublishing(p, Removed(d, p.Src(k)))
  {
    var e := Removed(d, p.Src(k));
    assert p.Mine(p.Src(k));
    assert forall n: Name :: n != p.Src(k) ==> Read(e, n) == Read(d, n);
    forall j | 0 <= j < |p.files| && p.Existed(j) ensures p.Dst(j) != p.Src(k) {}
    hide Read, Plan.Mine;
  }

  // ---------------------------------------------------------------- primitive effects

  function Removed(d: Disk, n: Name): Disk {
    d.(entries := d.entries - {n})
  }

  function HardLinked(d: Disk, src: Name, dst: Name): Disk
    requires src in d.entries
  {
    d.(entries := d.entries[dst := d.entries[src]])
  }

  /** A new file at `dst` holding `bytes`. */
  function Fresh(d: Disk, dst: Name, bytes: seq<byte>): Disk {
    d.(entries := d.entries[dst := d.next], inodes := d.inodes[d.next := bytes], next := d.next + 1)
  }

  lemma RemovedDiffers(d: Disk, n: Name)
    requires Tidy(d)
    ensures Tidy(Removed(d, n)) && DiffersAt(d, Removed(d, n), n)
    ensures Read(Removed(d, n), n) == []
  {}

  lemma LinkedDiffers(d: Disk, src: Name, dst: Name)
    requires Tidy(d) && src in d.entries
    ensures Tidy(HardLinked(d, src, dst)) && DiffersAt(d, HardLinked(d, src, dst), dst)
    ensures Read(HardLinked(d, src, dst), dst) == Read(d, src)
  {}

  lemma FreshDiffers(d: Disk, dst: Name, bytes: seq<byte>)
    requires Tidy(d)
    ensures Tidy(Fresh(d, dst, bytes)) && DiffersAt(d, Fresh(d, dst, bytes), dst)
    ensures Read(Fresh(d, dst, bytes), dst) == [bytes]
  {}

  /** Both names stand, on different inodes. */
  predicate Apart(d: Disk, a: Name, b: Name) {
    a in d.entries && b in d.entries && d.entries[a] != d.entries[b]
  }

  lemma FreshApart(d: Disk, src: Name, dst: Name, bytes: seq<byte>)
    requires Tidy(d) && src in d.entries && src != dst
    ensures Apart(Fresh(d, dst, bytes), src, dst) && Read(Fresh(d, dst, bytes), src) == Read(d, src)
  {}

  lemma TidyReads(d: Disk, n: Name)
    requires Tidy(d) && n in d.entries
    ensures d.entries[n] in d.inodes && Read(d, n) == [d.inodes[d.entries[n]]]
  {}

  // ---------------------------------------------------------------- why the condition is needed

  /** Of the first `k` files that existed, none was moved onto an existing file's old name
      that is another inode. */
  ghost predicate MergedUpTo(p: Plan, k: nat)
    requires k <= |p.files|
  {
    forall m, j :: 0 <= m < k && 0 <= j < |p.files| && p.Existed(m) && p.Existed(j) && p.Src(j) == p.Dst(m) ==>
      p.SameInode(j, m)
  }

  /** As long as every state shown was good, no source has lost its inode: a source can only
      be replaced after a state in which it was missing. */
  ghost predicate Witnessed(p: Plan, d: Disk, trace: seq<Disk>, k: nat)
    requires k <= |p.files|
  {
    AllGood(p, trace) ==> SourcesKept(p, d) && MergedUpTo(p, k)
  }

  /** Removing an existing file's old name while the old root is current shows a bad state. */
  lemma RemovalIsBad(p: Plan, d: Disk, n: Name)
    requires Tidy(p.start) && d.root == p.oldRoot && !NoSource(p, n)
    ensures !Good(p, Removed(d, n))
  {
    var j :| 0 <= j < |p.files| && p.Existed(j) && p.Src(j) == n;
    TidyReads(p.start, n);
    assert Read(Removed(d, n), p.Under(d.root, j)) == [];
  }

  lemma RemoveWitnessed(p: Plan, d: Disk, trace: seq<Disk>, k: nat)
    requires Tidy(p.start) && Tidy(d) && k < |p.files| && d.root == p.oldRoot && Witnessed(p, d, trace, k)
    ensures Witnessed(p, Removed(d, p.Dst(k)), trace + [Removed(d, p.Dst(k))], k)
  {
    hide Tidy, Good, AllGood, MergedUpTo, SourcesKept, NoSource, DiffersAt, Removed;
    var e := Removed(d, p.Dst(k));
    RemovedDiffers(d, p.Dst(k));
    if AllGood(p, trace + [e]) {
      GoodBefore(p, trace, e);
      if !NoSource(p, p.Dst(k)) {
        RemovalIsBad(p, d, p.Dst(k));
      } else {
        SourcesStep(p, d, e, p.Dst(k));
      }
    }
  }

  lemma GoodBefore(p: Plan, trace: seq<Disk>, e: Disk)
    requires AllGood(p, trace + [e])
    ensures AllGood(p, trace) && Good(p, e)
  {
    hide Good;
    var longer := trace + [e];
    assert forall i :: 0 <= i < |trace| ==> longer[i] == trace[i];
    assert longer[|trace|] == e;
  }

  /** Creating a name that does not stand replaces no source. */
  lemma CreateWitnessed(p: Plan, d: Disk, e: Disk, trace: seq<Disk>, longer: seq<Disk>, k: nat)
    requires k < |p.files| && p.Dst(k) !in d.entries && DiffersAt(d, e, p.Dst(k)) && Witnessed(p, d, trace, k)
    requires trace <= longer
    ensures Witnessed(p, e, longer, k + 1)
  {
    hide Good, DiffersAt;
    if AllGood(p, longer) {
      assert AllGood(p, trace);
      assert NoSource(p, p.Dst(k));
      SourcesStep(p, d, e, p.Dst(k));
    }
  }

  /** A file whose destination was absent, or one inode with its source, passes. */
  lemma MergedNext(p: Plan, d: Disk, trace: seq<Disk>, k: nat)
    requires k < |p.files| && Witnessed(p, d, trace, k)
    requires p.Existed(k) && AllGood(p, trace) ==>
               NoSource(p, p.Dst(k)) || (p.Src(k) in d.entries && p.Dst(k) in d.entries
                                         && d.entries[p.Src(k)] == d.entries[p.Dst(k)])
    ensures Witnessed(p, d, trace, k + 1)
  {
    hide Good, AllGood;
  }

  datatype PublishHow = Linked | Copied | SamePath

  datatype TransferStats = TransferStats(linked: nat, copied: nat, missing: nat)

  /** The machine the relocation runs on, with all states it ever showed. */
  class Machine {
    var disk: Disk
    ghost var trace: seq<Disk>

    constructor (d: Disk)
      ensures disk == d && trace == [d]
    {
      disk := d;
      trace := [d];
    }

    ghost predicate AllSafe(p: Plan)
      reads this
    {
      AllGood(p, trace)
    }

    /** Going well for a movable plan, and honest about any other. */
    ghost predicate Ongoing(p: Plan, k: nat)
      requires k <= |p.files|
      reads this
    {
      && (p.Movable() ==> Publishing(p, disk, k) && AllGood(p, trace))
      && Witnessed(p, disk, trace, k)
    }

    /** The same, inside the publishing of file `k`. */
    ghost predicate Busy(p: Plan, k: nat)
      requires k < |p.files|
      reads this
    {
      && (p.Movable() ==> p.Existed(k) && Midway(p, disk, k) && AllGood(p, trace))
      && Witnessed(p, disk, trace, k)
    }

    /** The last state recorded is the current one. */
    ghost predicate Shown()
      reads this
    {
      trace != [] && trace[|trace| - 1] == disk
    }

    /** One effect that a crash can follow. */
    method Step(d: Disk)
      modifies this
      ensures disk == d && trace == old(trace) + [d]
    {
      disk := d;
      trace := trace + [d];
    }

    predicate IsSamePath(a: Name, b: Name)
      reads this
    {
      a in disk.entries && b in disk.entries && a == b
    }

    predicate IsSameInode(a: Name, b: Name)
      reads this
    {
      a in disk.entries && b in disk.entries && disk.entries[a] == disk.entries[b]
    }

    /** Copying: an empty file, then every longer prefix, shows before the whole copy does. */
    method Copy(src: Name, dst: Name, ghost p: Plan, ghost k: nat)
      requires Tidy(disk) && src in disk.entries && dst !in disk.entries && src != dst
      requires k < |p.files| && src == p.Src(k) && dst == p.Dst(k) && Tidy(p.start) && Busy(p, k)
      modifies this
      ensures Tidy(disk) && disk.root == old(disk.root) && disk.entries.Keys == old(disk.entries.Keys) + {dst}
      ensures old(trace) <= trace && disk.next == old(disk.next) + 1
      ensures Apart(disk, src, dst) && Read(disk, dst) == Read(disk, src) == old(Read(disk, src))
      ensures Ongoing(p, k + 1)
    {
      hide Publishing, Midway, Tidy, AllGood, Plan.Movable, Plan.Existed, Read, DiffersAt, Apart, Witnessed;
      ghost var shown := trace;
      TidyReads(disk, src);
      var bytes := disk.inodes[disk.entries[src]];
      var base := disk;
      var n := 0;
      CopyShows(p, base, k, bytes, 0);
      MoreGood(p, trace, Fresh(base, dst, bytes[..0]));
      Step(Fresh(base, dst, bytes[..0]));
      while n < |bytes|
        invariant n <= |bytes| && disk == Fresh(base, dst, bytes[..n])
        invariant shown <= trace && (p.Movable() ==> AllGood(p, trace))
      {
        n := n + 1;
        CopyShows(p, base, k, bytes, n);
        MoreGood(p, trace, Fresh(base, dst, bytes[..n]));
        Step(Fresh(base, dst, bytes[..n]));
      }
      CopyShows(p, base, k, bytes, n);
      assert bytes[..n] == bytes;
      FreshApart(base, src, dst, bytes);
      FreshDiffers(base, dst, bytes);
      CreateWitnessed(p, base, disk, shown, trace, k);
    }

    /** `publish_file`. */
    method PublishFile(src: Name, dst: Name, canLink: (Name, Name) -> bool, ghost p: Plan, ghost k: nat)
      returns (how: PublishHow)
      requires Tidy(disk) && src in disk.entries && disk.root == p.oldRoot
      requires k < |p.files| && src == p.Src(k) && dst == p.Dst(k) && Tidy(p.start)
      requires Ongoing(p, k)
      modifies this
      ensures Tidy(disk) && disk.root == old(disk.root)
      ensures disk.entries.Keys <= old(disk.entries.Keys) + {dst} && (src == dst ==> disk == old(disk))
      ensures old(trace) <= trace
      ensures how == SamePath <==> src == dst
      ensures how == Linked ==> IsSameInode(src, dst)
      ensures how == Copied ==> Apart(disk, src, dst) && Read(disk, dst) == Read(disk, src)
      ensures disk.next == old(disk.next) + if how == Copied then 1 else 0
      ensures Ongoing(p, k + 1)
    {
      hide Publishing, Midway, Tidy, AllGood, Plan.Movable, Plan.Existed, Read, DiffersAt, Apart, Witnessed;
      if IsSamePath(src, dst) {
        SameShows(p, disk, trace, k);
        return SamePath;
      }
      StrayShows(p, disk, k);
      if dst in disk.entries && !IsSameInode(src, dst) {
        RemoveShows(p, disk, trace, k);
        Step(Removed(disk, dst));
      }
      if dst in disk.entries && IsSameInode(src, dst) {
        LinkedShows(p, disk, trace, k);
        return Linked;
      }
      if canLink(src, dst) {
        LinkShows(p, disk, trace, k);
        Step(HardLinked(disk, src, dst));
        return Linked;
      }
      Copy(src, dst, p, k);
      return Copied;
    }

    /** `transfer_payload_files`: sources are left in place. Exactly the files counted as copied
        have new inodes, and every file is counted unless its name does not change. */
    method TransferPayloadFiles(resolve: AbsPath -> Name, files: seq<FileLayout>, oldRoot: string, newRoot: string,
                                canLink: (Name, Name) -> bool, ghost p: Plan)
      returns (stats: TransferStats)
      requires p == Plan(resolve, files, oldRoot, newRoot, disk) && disk.root == oldRoot
      requires Tidy(disk) && trace == [disk]
      modifies this
      ensures Tidy(disk) && disk.root == oldRoot && stats.linked + stats.copied + stats.missing <= |files|
      ensures old(trace) <= trace
      ensures disk.next == old(disk.next) + stats.copied
      ensures oldRoot != newRoot && (forall k :: 0 <= k < |files| ==> p.Src(k) != p.Dst(k)) ==>
                stats.linked + stats.copied + stats.missing == |files|
      ensures Ongoing(p, |files|)
      ensures p.Movable() && oldRoot != newRoot ==> stats.missing == Absent(p, |files|)
    {
      hide Publishing, Tidy, AllGood, Plan.Movable, Read, Witnessed, Born;
      stats := TransferStats(0, 0, 0);
      Begins(p);
      if oldRoot == newRoot {
        NothingToMove(p);
        return;
      }
      var k := 0;
      while k < |files|
        invariant k <= |files| && Tidy(disk) && disk.root == oldRoot && old(trace) <= trace
        invariant stats.linked + stats.copied + stats.missing <= k
        invariant disk.next == old(disk.next) + stats.copied
        invariant (forall j :: 0 <= j < |files| ==> p.Src(j) != p.Dst(j)) ==>
                    stats.linked + stats.copied + stats.missing == k
        invariant Ongoing(p, k)
        invariant p.Movable() ==> Born(p, disk, k) && stats.missing == Absent(p, k)
      {
        var src := resolve(Join(oldRoot, PlaceOf(files[k].path)));
        var dst := resolve(Join(newRoot, PlaceOf(files[k].path)));
        SourceStands(p, disk, k);
        if src !in disk.entries {
          SkipShows(p, disk, trace, k);
          stats := stats.(missing := stats.missing + 1);
        } else {
          ghost var before := disk;
          var how := PublishFile(src, dst, canLink, p, k);
          BornNext(p, before, disk, k);
          match how {
            case Linked => stats := stats.(linked := stats.linked + 1);
            case Copied => stats := stats.(copied := stats.copied + 1);
            case SamePath =>
          }
        }
        k := k + 1;
      }
    }

    /** `unpublish_payload_files`: old names go, unless they are also the new ones, and empty
        directories, which hold no entry of a file. With `wipe` the whole old root goes, whose
        names are `below`; the payload survives that exactly if none of its new names is there. */
    method UnpublishPayloadFiles(resolve: AbsPath -> Name, files: seq<FileLayout>, oldRoot: string, newRoot: string,
                                 wipe: bool, below: set<Name>, ghost p: Plan)
      requires p.resolve == resolve && p.files == files && p.oldRoot == oldRoot && p.newRoot == newRoot
      requires Shown() && Tidy(p.start) && (p.Movable() ==> Unpublishing(p, disk) && AllSafe(p))
      modifies this
      ensures Shown() && old(trace) <= trace && disk.root == old(disk.root)
      ensures p.Movable() && !wipe ==> Unpublishing(p, disk) && AllSafe(p)
      ensures p.Movable() && wipe ==> (Safe(p, disk) <==> NoneBelow(p, below))
      ensures p.Movable() && wipe && NoneBelow(p, below) ==> forall i :: 0 <= i < |trace| ==> Safe(p, trace[i])
      ensures forall j :: 0 <= j < |files| && p.Src(j) != p.Dst(j) ==> p.Src(j) !in disk.entries
      ensures wipe ==> forall n :: n in below ==> n !in disk.entries
    {
      RemoveOldNames(resolve, files, oldRoot, newRoot, p);
      if wipe {
        WipeRoot(below, p);
      }
    }

    /** `remove_dir_all`, one entry at a time in any order. */
    method WipeRoot(below: set<Name>, ghost p: Plan)
      requires Shown() && Tidy(p.start) && (p.Movable() ==> Unpublishing(p, disk) && AllSafe(p))
      modifies this
      ensures Shown() && old(trace) <= trace && disk.root == old(disk.root)
      ensures disk.entries == old(disk.entries) - below
      ensures p.Movable() ==> (Safe(p, disk) <==> NoneBelow(p, below))
      ensures p.Movable() && NoneBelow(p, below) ==> forall i :: 0 <= i < |trace| ==> Safe(p, trace[i])
    {
      hide Unpublishing, AllGood, Plan.Movable, NoneBelow, Safe, Tidy;
      ghost var start := disk;
      var rest := below;
      ghost var gone: set<Name> := {};
      if p.Movable() {
        AllGoodIsSafe(p, trace);
      }
      assert start.entries - {} == start.entries;
      while rest != {}
        invariant gone + rest == below && gone !! rest && Shown() && old(trace) <= trace
        invariant disk == start.(entries := start.entries - gone)
        invariant p.Movable() && NoneBelow(p, below) ==> forall i :: 0 <= i < |trace| ==> Safe(p, trace[i])
        decreases |rest|
      {
        var n :| n in rest;
        if p.Movable() && NoneBelow(p, below) {
          WipedSafe(p, start, gone + {n}, below);
        }
        assert start.entries - gone - {n} == start.entries - (gone + {n});
        Step(Removed(disk, n));
        rest, gone := rest - {n}, gone + {n};
      }
      assert gone == below;
      if p.Movable() {
        WipedExactly(p, start, below);
      }
    }

    /** The loop of `unpublish_payload_files`. */
    method RemoveOldNames(resolve: AbsPath -> Name, files: seq<FileLayout>, oldRoot: string, newRoot: string,
                          ghost p: Plan)
      requires p.resolve == resolve && p.files == files && p.oldRoot == oldRoot && p.newRoot == newRoot
      requires Shown() && (p.Movable() ==> Unpublishing(p, disk) && AllSafe(p))
      modifies this
      ensures Shown() && old(trace) <= trace && disk.root == old(disk.root)
      ensures p.Movable() ==> Unpublishing(p, disk) && AllSafe(p)
      ensures forall j :: 0 <= j < |files| && p.Src(j) != p.Dst(j) ==> p.Src(j) !in disk.entries
    {
      hide Unpublishing, AllGood, Plan.Mergeable, Plan.ClashFree, Read;
      var k := 0;
      while k < |files|
        invariant k <= |files| && disk.root == old(disk.root) && Shown() && old(trace) <= trace
        invariant p.Movable() ==> Unpublishing(p, disk) && AllSafe(p)
        invariant forall j :: 0 <= j < k && p.Src(j) != p.Dst(j) ==> p.Src(j) !in disk.entries
      {
        var src := resolve(Join(oldRoot, PlaceOf(files[k].path)));
        var dst := resolve(Join(newRoot, PlaceOf(files[k].path)));
        if !IsSamePath(src, dst) {
          if src in disk.entries {
            if p.Movable() {
              UnpublishStep(p, disk, k);
              UnpublishingIsGood(p, Removed(disk, src));
            }
            MoreGood(p, trace, Removed(disk, src));
            Step(Removed(disk, src));
          }
        }
        k := k + 1;
      }
    }

    /** `relocate_torrent_data`: after every step each payload file that existed reads its
        original bytes under the catalog's current root, and foreign names read what they
        read, exactly when the plan is movable. */
    method RelocateTorrentData(resolve: AbsPath -> Name, files: seq<FileLayout>, newRoot: string,
                               canLink: (Name, Name) -> bool)
      returns (ghost p: Plan, stats: TransferStats)
      requires Tidy(disk) && trace == [disk] // recording starts here
      modifies this
      ensures p == Plan(resolve, files, old(disk.root), newRoot, old(disk)) && disk.root == newRoot
      ensures Shown() && trace[0] == old(disk)
      ensures AllSafe(p) <==> p.Movable()
      ensures !p.ClashFree() ==> !Safe(p, disk)
    {
      hide Publishing, Unpublishing, Tidy, AllGood, Plan.Movable, Plan.ClashFree, Read, Safe, OthersKept, Witnessed;
      var oldRoot := disk.root;
      p := Plan(resolve, files, oldRoot, newRoot, disk);
      StartGood(p);
      stats := TransferStats(0, 0, 0);
      if oldRoot == newRoot {
        SameRootMovable(p);
        return;
      }
      stats := TransferPayloadFiles(resolve, files, oldRoot, newRoot, canLink, p);
      ghost var transferred, moved := trace, disk;
      if p.Movable() {
        SwapStep(p, disk);
        UnpublishingIsGood(p, disk.(root := newRoot));
      }
      MoreGood(p, trace, disk.(root := newRoot));
      Step(disk.(root := newRoot));
      UnpublishPayloadFiles(resolve, files, oldRoot, newRoot, false, {}, p);
      StartsWith(trace, old(trace));
      GoodMeansMovable(p, moved, transferred, trace, disk);
    }
  }

  // ---------------------------------------------------------------- wiping the old root

  /** No file that existed has its new name there. */
  ghost predicate NoneBelow(p: Plan, below: set<Name>) {
    forall j :: 0 <= j < |p.files| && p.Existed(j) ==> p.Dst(j) !in below
  }

  lemma AllGoodIsSafe(p: Plan, trace: seq<Disk>)
    requires AllGood(p, trace)
    ensures forall i :: 0 <= i < |trace| ==> Safe(p, trace[i])
  {
    hide Safe, OthersKept;
  }

  lemma WipedSafe(p: Plan, d: Disk, gone: set<Name>, below: set<Name>)
    requires Unpublishing(p, d) && gone <= below && NoneBelow(p, below)
    ensures Safe(p, d.(entries := d.entries - gone))
  {
    var e := d.(entries := d.entries - gone);
    assert forall n: Name :: n !in gone ==> Read(e, n) == Read(d, n);
    hide Read, Tidy, OthersKept;
  }

  lemma WipedExactly(p: Plan, d: Disk, below: set<Name>)
    requires Tidy(p.start) && Unpublishing(p, d)
    ensures Safe(p, d.(entries := d.entries - below)) <==> NoneBelow(p, below)
  {
    var e := d.(entries := d.entries - below);
    if NoneBelow(p, below) {
      WipedSafe(p, d, below, below);
    } else {
      var j :| 0 <= j < |p.files| && p.Existed(j) && p.Dst(j) in below;
      TidyReads(p.start, p.Src(j));
      assert Read(e, p.Under(e.root, j)) == [];
    }
  }

  // ---------------------------------------------------------------- the states shown

  lemma StartsWith(longer: seq<Disk>, trace: seq<Disk>)
    requires trace <= longer
    ensures trace != [] ==> longer != [] && longer[0] == trace[0]
  {}

  lemma MoreGood(p: Plan, trace: seq<Disk>, d: Disk)
    requires p.Movable() ==> AllGood(p, trace) && Good(p, d)
    ensures p.Movable() ==> AllGood(p, trace + [d])
  {
    hide Good, Plan.Movable;
  }

  lemma CopyShows(p: Plan, d: Disk, k: nat, bytes: seq<byte>, n: nat)
    requires Tidy(p.start) && Tidy(d) && k < |p.files| && n <= |bytes|
    requires p.Dst(k) !in d.entries && Read(d, p.Src(k)) == [bytes]
    requires p.Movable() ==> p.Existed(k) && Midway(p, d, k)
    ensures Tidy(Fresh(d, p.Dst(k), bytes[..n]))
    ensures p.Movable() ==> Good(p, Fresh(d, p.Dst(k), bytes[..n]))
    ensures p.Movable() && n == |bytes| ==> Publishing(p, Fresh(d, p.Dst(k), bytes[..n]), k + 1)
  {
    hide Read, Fresh, Tidy, DiffersAt, Good, Plan.Movable, NoSource, OldInodesKept, SourcesKept, AbsentKept,
         OthersKept, PublishedBut, PublishedUpTo, Plan.Existed;
    FreshDiffers(d, p.Dst(k), bytes[..n]);
    if p.Movable() {
      var e := Fresh(d, p.Dst(k), bytes[..n]);
      ApartIsNoSource(p, d, k);
      PublishStep(p, d, e, k);
      StandingIsGood(p, e);
      if n == |bytes| {
        assert bytes[..n] == bytes;
        SourceReads(p, d, k);
        PublishDone(p, e, k);
      }
    }
  }

  lemma RemoveShows(p: Plan, d: Disk, trace: seq<Disk>, k: nat)
    requires Tidy(p.start) && Tidy(d) && k < |p.files| && d.root == p.oldRoot && Witnessed(p, d, trace, k)
    requires p.Src(k) in d.entries && p.Dst(k) in d.entries && d.entries[p.Src(k)] != d.entries[p.Dst(k)]
    requires p.Movable() ==> p.Existed(k) && Midway(p, d, k) && AllGood(p, trace)
    ensures var e := Removed(d, p.Dst(k));
            && Tidy(e) && Witnessed(p, e, trace + [e], k) && e.root == d.root
            && e.entries.Keys <= d.entries.Keys && p.Dst(k) !in e.entries
            && (p.Src(k) in e.entries)
            && (p.Movable() ==> Midway(p, e, k) && AllGood(p, trace + [e]))
  {
    assert Removed(d, p.Dst(k)).entries.Keys <= d.entries.Keys && p.Src(k) in Removed(d, p.Dst(k)).entries;
    hide Read, Removed, Tidy, DiffersAt, Good, Plan.Movable, NoSource, OldInodesKept, SourcesKept, AbsentKept,
         OthersKept, PublishedBut, Witnessed, Plan.Existed, AllGood;
    RemovedDiffers(d, p.Dst(k));
    RemoveWitnessed(p, d, trace, k);
    if p.Movable() {
      var e := Removed(d, p.Dst(k));
      ApartIsNoSource(p, d, k);
      PublishStep(p, d, e, k);
      StandingIsGood(p, e);
      MoreGood(p, trace, e);
    }
  }

  lemma LinkShows(p: Plan, d: Disk, trace: seq<Disk>, k: nat)
    requires Tidy(p.start) && Tidy(d) && k < |p.files| && Witnessed(p, d, trace, k)
    requires p.Src(k) in d.entries && p.Dst(k) !in d.entries
    requires p.Movable() ==> p.Existed(k) && Midway(p, d, k) && AllGood(p, trace)
    ensures var e := HardLinked(d, p.Src(k), p.Dst(k));
            && Tidy(e) && Witnessed(p, e, trace + [e], k + 1)
            && (p.Movable() ==> Publishing(p, e, k + 1) && AllGood(p, trace + [e]))
  {
    hide Read, HardLinked, Tidy, DiffersAt, Good, Plan.Movable, NoSource, OldInodesKept, SourcesKept, AbsentKept,
         OthersKept, PublishedBut, PublishedUpTo, Witnessed, Plan.Existed, AllGood;
    var e := HardLinked(d, p.Src(k), p.Dst(k));
    LinkedDiffers(d, p.Src(k), p.Dst(k));
    CreateWitnessed(p, d, e, trace, trace + [e], k);
    if p.Movable() {
      ApartIsNoSource(p, d, k);
      PublishStep(p, d, e, k);
      StandingIsGood(p, e);
      SourceReads(p, d, k);
      PublishDone(p, e, k);
      MoreGood(p, trace, e);
    }
  }

  /** A destination that is already a hard link of the source is published as it stands. */
  lemma LinkedShows(p: Plan, d: Disk, trace: seq<Disk>, k: nat)
    requires Tidy(p.start) && k < |p.files| && Witnessed(p, d, trace, k)
    requires p.Src(k) in d.entries && p.Dst(k) in d.entries && d.entries[p.Src(k)] == d.entries[p.Dst(k)]
    requires p.Movable() ==> p.Existed(k) && Midway(p, d, k)
    ensures Witnessed(p, d, trace, k + 1) && (p.Movable() ==> Publishing(p, d, k + 1))
  {
    hide Plan.Movable, Midway, Publishing, AllGood, Witnessed, Plan.Existed;
    MergedNext(p, d, trace, k);
    if p.Movable() {
      AlreadyThere(p, d, k);
    }
  }

  /** A file that is its own destination needs nothing. */
  lemma SameShows(p: Plan, d: Disk, trace: seq<Disk>, k: nat)
    requires Tidy(p.start) && k < |p.files| && Witnessed(p, d, trace, k)
    requires p.Src(k) in d.entries && p.Src(k) == p.Dst(k) && (p.Movable() ==> Publishing(p, d, k))
    ensures Witnessed(p, d, trace, k + 1) && (p.Movable() ==> Publishing(p, d, k + 1))
  {
    hide Plan.Movable, Standing, AllGood, Witnessed, Plan.Existed, PublishedUpTo, PublishedBut;
    MergedNext(p, d, trace, k);
    if p.Movable() {
      BetweenIsMidway(p, d, k);
      if p.Existed(k) {
        AlreadyThere(p, d, k);
      } else {
        PublishDone(p, d, k);
      }
    }
  }

  /** In a movable plan a source that stands and is not its own destination existed. */
  lemma StrayShows(p: Plan, d: Disk, k: nat)
    requires k < |p.files| && p.Src(k) in d.entries && p.Src(k) != p.Dst(k)
    requires p.Movable() ==> Publishing(p, d, k)
    ensures p.Movable() ==> p.Existed(k) && Midway(p, d, k)
  {
    if p.Movable() {
      BetweenIsMidway(p, d, k);
    }
    hide OldInodesKept, SourcesKept, OthersKept, PublishedUpTo, PublishedBut, Plan.ClashFree, Plan.Mergeable;
  }

  /** A source that does not stand is skipped. */
  lemma SkipShows(p: Plan, d: Disk, trace: seq<Disk>, k: nat)
    requires Tidy(p.start) && k < |p.files| && Witnessed(p, d, trace, k) && p.Src(k) !in d.entries
    requires p.Movable() ==> Publishing(p, d, k)
    ensures Witnessed(p, d, trace, k + 1) && (p.Movable() ==> Publishing(p, d, k + 1))
  {
    hide Plan.Movable, AllGood, OldInodesKept, AbsentKept, OthersKept, Tidy, PublishedUpTo, PublishedBut;
    MergedNext(p, d, trace, k);
    if p.Movable() {
      BetweenIsMidway(p, d, k);
      PublishDone(p, d, k);
    }
  }

  // ---------------------------------------------------------------- missing files

  /** Names that stand were there at the start or are new names of earlier files. */
  ghost predicate Born(p: Plan, d: Disk, k: nat)
    requires k <= |p.files|
  {
    forall n | n in d.entries :: n in p.start.entries || Arrived(p, n, k)
  }

  ghost predicate Arrived(p: Plan, n: Name, k: nat)
    requires k <= |p.files|
  {
    exists j :: 0 <= j < k && p.Existed(j) && p.Dst(j) == n
  }

  /** How many of the first `k` files are missing at their turn: they did not exist, and no
      earlier file has come to their name. */
  ghost function Absent(p: Plan, k: nat): nat
    requires k <= |p.files|
  {
    if k == 0 then 0
    else Absent(p, k - 1) + if p.Existed(k - 1) || Arrived(p, p.Src(k - 1), k - 1) then 0 else 1
  }

  lemma SourceStands(p: Plan, d: Disk, k: nat)
    requires k < |p.files| && Tidy(p.start) && (p.Movable() ==> Publishing(p, d, k) && Born(p, d, k))
    ensures p.Movable() ==> (p.Src(k) in d.entries <==> p.Existed(k) || Arrived(p, p.Src(k), k))
    ensures p.Movable() && p.Src(k) !in d.entries ==> Born(p, d, k + 1)
  {
    if p.Movable() {
      hide Plan.Movable, AbsentKept, OthersKept;
      if Arrived(p, p.Src(k), k) {
        var j :| 0 <= j < k && p.Existed(j) && p.Dst(j) == p.Src(k);
        SourceReads(p, d, j);
        assert Read(d, p.Dst(j)) == Read(p.start, p.Src(j));
      }
    }
  }

  lemma BornNext(p: Plan, d: Disk, e: Disk, k: nat)
    requires k < |p.files| && p.Src(k) in d.entries && e.entries.Keys <= d.entries.Keys + {p.Dst(k)}
    requires p.Src(k) == p.Dst(k) ==> e == d
    requires p.Movable() ==> Publishing(p, d, k) && Born(p, d, k)
    ensures p.Movable() ==> Born(p, e, k + 1)
  {
    if p.Movable() {
      assert p.Existed(k) || p.Src(k) == p.Dst(k);
      hide Plan.Movable, Publishing;
      forall n | n in e.entries ensures n in p.start.entries || Arrived(p, n, k + 1) {
        if n in d.entries {
          assert n in p.start.entries || Arrived(p, n, k);
        } else {
          assert n == p.Dst(k) && p.Existed(k);
        }
      }
    }
  }

  // ---------------------------------------------------------------- start and end

  lemma Begins(p: Plan)
    requires Tidy(p.start) && p.start.root == p.oldRoot
    ensures Publishing(p, p.start, 0) && AllGood(p, [p.start]) && Witnessed(p, p.start, [p.start], 0)
    ensures Born(p, p.start, 0)
  {
    StandingIsGood(p, p.start);
  }

  /** With one root for both, every file is its own destination. */
  lemma NothingToMove(p: Plan)
    requires Tidy(p.start) && p.start.root == p.oldRoot == p.newRoot
    ensures Publishing(p, p.start, |p.files|) && Witnessed(p, p.start, [p.start], |p.files|)
  {
    Begins(p);
    assert forall k :: 0 <= k < |p.files| ==> p.Src(k) == p.Dst(k);
    hide Good, AllGood;
  }

  lemma StartGood(p: Plan)
    requires p.start.root == p.oldRoot
    ensures AllGood(p, [p.start])
  {}

  lemma SameRootMovable(p: Plan)
    requires p.oldRoot == p.newRoot
    ensures p.Movable()
  {
    assert forall k :: 0 <= k < |p.files| ==> p.Src(k) == p.Dst(k);
  }

  /** With a clash, a file's new name is removed as another file's old one. */
  lemma ClashLosesAFile(p: Plan, d: Disk)
    requires !p.ClashFree() && Tidy(p.start) && d.root == p.newRoot
    requires forall j :: 0 <= j < |p.files| && p.Src(j) != p.Dst(j) ==> p.Src(j) !in d.entries
    ensures !Safe(p, d)
  {
    var j, k :| 0 <= j < |p.files| && 0 <= k < |p.files| && p.Existed(j) && p.Dst(j) == p.Src(k)
                && p.Src(k) != p.Dst(k);
    TidyReads(p.start, p.Src(j));
    assert Read(d, p.Under(d.root, j)) == [];
  }

  /** Files with different bytes cannot both be read under one name, and a source that is
      another inode was missing for a moment before it was replaced. */
  lemma UnmergeableShows(p: Plan, trace: seq<Disk>, d: Disk)
    requires !p.Mergeable() && MergedUpTo(p, |p.files|) && d.root == p.newRoot
    ensures !Safe(p, d)
  {
    var j, k :| 0 <= j < |p.files| && 0 <= k < |p.files| && p.Existed(j) && p.Existed(k) && p.Dst(j) == p.Dst(k)
                && !(Read(p.start, p.Src(j)) == Read(p.start, p.Src(k))
                     && (p.Src(j) == p.Dst(j) ==> p.SameInode(j, k)));
    if p.Src(j) == p.Dst(j) {
      assert p.SameInode(j, k);
    }
    assert p.Under(d.root, j) == p.Under(d.root, k);
  }

  /** A run all of whose states were good had a movable plan. */
  lemma GoodMeansMovable(p: Plan, moved: Disk, transferred: seq<Disk>, trace: seq<Disk>, d: Disk)
    requires Tidy(p.start) && Witnessed(p, moved, transferred, |p.files|) && transferred <= trace
    requires trace != [] && trace[|trace| - 1] == d && d.root == p.newRoot
    requires forall j :: 0 <= j < |p.files| && p.Src(j) != p.Dst(j) ==> p.Src(j) !in d.entries
    ensures AllGood(p, trace) ==> p.Movable()
    ensures !p.ClashFree() ==> !Safe(p, d)
  {
    hide Safe, Plan.ClashFree, Plan.Mergeable, MergedUpTo, SourcesKept, OthersKept;
    if !p.ClashFree() {
      ClashLosesAFile(p, d);
    }
    if AllGood(p, trace) {
      assert AllGood(p, transferred) && Good(p, d);
      if !p.Mergeable() {
        UnmergeableShows(p, trace, d);
      }
    }
  }

  // ---------------------------------------------------------------- a payload that loses a file

  /** Root and place together name an entry: two payload files, and room for where they go. */
  function NestedName(a: AbsPath): Name {
    if a == Join("d", Place(["t"], "f")) then 0
    else if a == Join("d", Place(["t", "t"], "f")) || a == Join("d/t", Place(["t"], "f")) then 1
    else if a == Join("d/t", Place(["t", "t"], "f")) then 2 else 3
  }

  /** A torrent with the files `t/f` and `t/t/f`, moved from `d` down into `d/t`. */
  function NestedPlan(): Plan {
    Plan(NestedName, [FileLayout("t/f", 1, 0, 1), FileLayout("t/t/f", 1, 1, 1)], "d", "d/t",
         Disk(map[0 := 0, 1 := 1], map[0 := [1], 1 := [2]], 2, "d"))
  }

  lemma NestedNames()
    ensures var p := NestedPlan();
            p.Src(0) == 0 && p.Src(1) == 1 && p.Dst(0) == 1 && p.Dst(1) == 2
  {
    NestedPlaces();
  }

  lemma OneSlash(a: string, b: string)
    requires NoSlash(a) && NoSlash(b) && a != "" && b != ""
    ensures PlaceOf(a + "/" + b) == Place([a], b)
  {
    assert PlaceOf("").Full() == [];
    hide PlaceOf, Push, NoSlash;
    PushPlace("", a);
    PushOnto(a, b);
    PushPlace(a, b);
    assert [] + [a] == [a];
  }

  lemma PushOnto(a: string, b: string)
    requires NoSlash(a) && a != ""
    ensures Push("", a) == a && Push(a, b) == a + "/" + b
  {
    assert "" + a == a;
  }

  lemma TwoSlashes(a: string, b: string, c: string)
    requires NoSlash(a) && NoSlash(b) && NoSlash(c) && a != "" && b != "" && c != ""
    ensures PlaceOf(a + "/" + b + "/" + c) == Place([a, b], c)
  {
    hide PlaceOf;
    OneSlash(a, b);
    PushPlace(a + "/" + b, c);
    assert [a] + [b] == [a, b];
  }

  lemma NestedPlaces()
    ensures PlaceOf("t/f") == Place(["t"], "f") && PlaceOf("t/t/f") == Place(["t", "t"], "f")
  {
    hide PlaceOf;
    OneSlash("t", "f");
    TwoSlashes("t", "t", "f");
    assert "t" + "/" + "f" == "t/f" && "t" + "/" + "t" + "/" + "f" == "t/t/f";
  }

  /** Both files exist, and the first comes to the old name of the second. */
  lemma NestedClash()
    ensures Tidy(NestedPlan().start) && NestedPlan().Existed(0) && NestedPlan().Existed(1)
    ensures !NestedPlan().ClashFree()
  {
    NestedNames();
    var p := NestedPlan();
    assert p.Existed(0) && p.Dst(0) == p.Src(1) && p.Src(1) != p.Dst(1);
  }

  /** Running it: the relocation reports success and a payload file is gone. */
  method RelocateNested(canLink: (Name, Name) -> bool) returns (m: Machine, ghost p: Plan)
    ensures p == NestedPlan() && m.disk.root == "d/t" && !Safe(p, m.disk)
  {
    hide Safe, Tidy, Plan.ClashFree, Plan.Movable;
    NestedClash();
    m := new Machine(NestedPlan().start);
    var stats;
    p, stats := m.RelocateTorrentData(NestedPlan().resolve, NestedPlan().files, NestedPlan().newRoot, canLink);
  }
}
