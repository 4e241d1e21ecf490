/** The mount table (kernel/src/fs/virtual_file_system.rs) on values: the two resolvers and `mount`. */
module Mounts {
  import opened Wrappers
  import opened Disks

  /** `subtree` is mounted on `point`. */
  datatype Mount = Mount(point: Node, subtree: FsId)

  /** The first mount on a node. */
  function MountOn(mounts: seq<Mount>, node: Node): (r: Option<Mount>)
    ensures r.Some? ==> r.value in mounts && SameNode(r.value.point, node)
    ensures r.None? ==> forall m | m in mounts :: !SameNode(m.point, node)
  {
    if |mounts| == 0 then None
    else if SameNode(mounts[0].point, node) then Some(mounts[0])
    else MountOn(mounts[1..], node)
  }

  /** The first mount of a subtree. */
  function MountOf(mounts: seq<Mount>, fs: FsId): (r: Option<Mount>)
    ensures r.Some? ==> r.value in mounts && r.value.subtree == fs
    ensures r.None? ==> forall m | m in mounts :: m.subtree != fs
  {
    if |mounts| == 0 then None
    else if mounts[0].subtree == fs then Some(mounts[0])
    else MountOf(mounts[1..], fs)
  }

  // ---- The order of mounting ----

  /** The position of a file system in the order of mounting: the root file system comes first. */
  function Rank(root: FsId, mounts: seq<Mount>, fs: FsId): (r: nat)
    ensures r <= |mounts| + 1
    ensures r == 0 <==> fs == root
    ensures fs != root ==> (r <= |mounts| <==> exists m :: m in mounts && m.subtree == fs)
  {
    if fs == root then 0
    else if |mounts| == 0 then 1
    else
      var before := Rank(root, mounts[..|mounts| - 1], fs);
      if before <= |mounts| - 1 then before
      else if mounts[|mounts| - 1].subtree == fs then assert mounts[|mounts| - 1] in mounts; |mounts|
      else |mounts| + 1
  }

  predicate Attached(root: FsId, mounts: seq<Mount>, fs: FsId)
  {
    Rank(root, mounts, fs) <= |mounts|
  }

  /** Every mount point lies in the root file system or in one mounted earlier, and no subtree is
      mounted twice: the mount graph has no cycle. */
  predicate Acyclic(root: FsId, mounts: seq<Mount>)
  {
    |mounts| == 0 ||
    var last := mounts[|mounts| - 1];
    var before := mounts[..|mounts| - 1];
    && Acyclic(root, before)
    && Attached(root, before, last.point.fs)
    && !Attached(root, before, last.subtree)
  }

  lemma RankStable(root: FsId, mounts: seq<Mount>, m: Mount, fs: FsId)
    ensures Attached(root, mounts, fs) ==> Rank(root, mounts + [m], fs) == Rank(root, mounts, fs)
    ensures !Attached(root, mounts, fs) ==>
              Rank(root, mounts + [m], fs) == if fs == m.subtree then |mounts| + 1 else |mounts| + 2
  {
    assert (mounts + [m])[..|mounts|] == mounts;
  }

  /** Mounting climbs: a mount point ranks below what is mounted on it. */
  lemma {:induction false} MountsClimb(root: FsId, mounts: seq<Mount>, m: Mount)
    requires Acyclic(root, mounts) && m in mounts
    ensures Rank(root, mounts, m.point.fs) < Rank(root, mounts, m.subtree) <= |mounts|
    decreases |mounts|
  {
    var before, last := mounts[..|mounts| - 1], mounts[|mounts| - 1];
    assert mounts == before + [last];
    RankStable(root, before, last, m.point.fs);
    RankStable(root, before, last, m.subtree);
    if m in before {
      MountsClimb(root, before, m);
    }
  }

  /** Each subtree is mounted at most once. */
  lemma {:induction false} SubtreeMountedOnce(root: FsId, mounts: seq<Mount>, i: nat, j: nat)
    requires Acyclic(root, mounts) && i < j < |mounts|
    ensures mounts[i].subtree != mounts[j].subtree
    decreases |mounts|
  {
    var before := mounts[..|mounts| - 1];
    if j < |mounts| - 1 {
      SubtreeMountedOnce(root, before, i, j);
    } else {
      assert before[i] in before;
    }
  }

  lemma MountOfIsUnique(root: FsId, mounts: seq<Mount>, m: Mount)
    requires Acyclic(root, mounts) && m in mounts
    ensures MountOf(mounts, m.subtree) == Some(m)
  {
    var found := MountOf(mounts, m.subtree).value;
    var i :| 0 <= i < |mounts| && mounts[i] == m;
    var j :| 0 <= j < |mounts| && mounts[j] == found;
    if i < j {
      SubtreeMountedOnce(root, mounts, i, j);
    } else if j < i {
      SubtreeMountedOnce(root, mounts, j, i);
    }
  }

  // ---- The resolvers ----

  /** `resolve_subtree`: up, from mount point to mounted root, as far as it goes. */
  ghost function Subtree(root: FsId, mounts: seq<Mount>, node: Node): Node
    requires Acyclic(root, mounts)
    decreases |mounts| + 1 - Rank(root, mounts, node.fs)
  {
    var m := MountOn(mounts, node);
    if m.None? then node
    else
      MountsClimb(root, mounts, m.value);
      Subtree(root, mounts, RootNode(m.value.subtree))
  }

  /** `resolve_mount_point`: down, from mounted root to mount point, as far as it goes. */
  ghost function MountPoint(root: FsId, mounts: seq<Mount>, node: Node): Node
    requires Acyclic(root, mounts)
    decreases Rank(root, mounts, node.fs)
  {
    var m := MountOf(mounts, node.fs);
    if !SameNode(node, RootNode(node.fs)) || m.None? then node
    else
      MountsClimb(root, mounts, m.value);
      MountPoint(root, mounts, m.value.point)
  }

  /** No node has two mounts directly on it. */
  predicate UniquePoints(mounts: seq<Mount>)
  {
    forall i, j | 0 <= i < j < |mounts| :: !SameNode(mounts[i].point, mounts[j].point)
  }

  lemma MountOnIsUnique(mounts: seq<Mount>, m: Mount)
    requires UniquePoints(mounts) && m in mounts
    ensures MountOn(mounts, m.point) == Some(m)
  {
    var found := MountOn(mounts, m.point).value;
    var i :| 0 <= i < |mounts| && mounts[i] == m;
    var j :| 0 <= j < |mounts| && mounts[j] == found;
  }

  // ---- Laws ----

  lemma MountOnRespects(mounts: seq<Mount>, a: Node, b: Node)
    requires SameNode(a, b)
    ensures MountOn(mounts, a) == MountOn(mounts, b)
  {
  }

  lemma ResolversRespect(root: FsId, mounts: seq<Mount>, a: Node, b: Node)
    requires Acyclic(root, mounts) && SameNode(a, b)
    ensures SameNode(Subtree(root, mounts, a), Subtree(root, mounts, b))
    ensures SameNode(MountPoint(root, mounts, a), MountPoint(root, mounts, b))
  {
    MountOnRespects(mounts, a, b);
  }

  lemma {:induction false} SubtreeIsTop(root: FsId, mounts: seq<Mount>, node: Node)
    requires Acyclic(root, mounts)
    ensures MountOn(mounts, Subtree(root, mounts, node)).None?
    ensures Rank(root, mounts, node.fs) <= Rank(root, mounts, Subtree(root, mounts, node).fs)
    ensures MountOn(mounts, node).Some? ==> Rank(root, mounts, node.fs) < Rank(root, mounts, Subtree(root, mounts, node).fs)
    decreases |mounts| + 1 - Rank(root, mounts, node.fs)
  {
    var m := MountOn(mounts, node);
    if m.Some? {
      MountsClimb(root, mounts, m.value);
      SubtreeIsTop(root, mounts, RootNode(m.value.subtree));
    }
  }

  predicate GoesDown(mounts: seq<Mount>, node: Node)
  {
    SameNode(node, RootNode(node.fs)) && MountOf(mounts, node.fs).Some?
  }

  lemma {:induction false} MountPointIsBottom(root: FsId, mounts: seq<Mount>, node: Node)
    requires Acyclic(root, mounts)
    ensures !GoesDown(mounts, MountPoint(root, mounts, node))
    ensures Rank(root, mounts, MountPoint(root, mounts, node).fs) <= Rank(root, mounts, node.fs)
    ensures GoesDown(mounts, node) ==> Rank(root, mounts, MountPoint(root, mounts, node).fs) < Rank(root, mounts, node.fs)
    decreases Rank(root, mounts, node.fs)
  {
    if GoesDown(mounts, node) {
      var m := MountOf(mounts, node.fs).value;
      MountsClimb(root, mounts, m);
      MountPointIsBottom(root, mounts, m.point);
    }
  }

  /** The resolvers are idempotent, and each says `changed` exactly when the node differs. */
  lemma ResolversIdempotent(root: FsId, mounts: seq<Mount>, node: Node)
    requires Acyclic(root, mounts)
    ensures var top := Subtree(root, mounts, node);
            && Subtree(root, mounts, top) == top
            && (MountOn(mounts, node).Some? <==> !SameNode(top, node))
    ensures var bottom := MountPoint(root, mounts, node);
            && MountPoint(root, mounts, bottom) == bottom
            && (GoesDown(mounts, node) <==> !SameNode(bottom, node))
  {
    SubtreeIsTop(root, mounts, node);
    MountPointIsBottom(root, mounts, node);
  }

  /** The way down from the top of the chain ends where the way down from inside it does. */
  lemma {:induction false} DownAfterUp(root: FsId, mounts: seq<Mount>, node: Node)
    requires Acyclic(root, mounts)
    ensures SameNode(MountPoint(root, mounts, Subtree(root, mounts, node)), MountPoint(root, mounts, node))
    decreases |mounts| + 1 - Rank(root, mounts, node.fs)
  {
    var m := MountOn(mounts, node);
    if m.Some? {
      MountsClimb(root, mounts, m.value);
      DownAfterUp(root, mounts, RootNode(m.value.subtree));
      MountOfIsUnique(root, mounts, m.value);
      ResolversRespect(root, mounts, m.value.point, node);
    }
  }

  /** The way up from the bottom of the chain ends where the way up from inside it does. */
  lemma {:induction false} UpAfterDown(root: FsId, mounts: seq<Mount>, node: Node)
    requires Acyclic(root, mounts) && UniquePoints(mounts)
    ensures SameNode(Subtree(root, mounts, MountPoint(root, mounts, node)), Subtree(root, mounts, node))
    decreases Rank(root, mounts, node.fs)
  {
    if GoesDown(mounts, node) {
      var m := MountOf(mounts, node.fs).value;
      MountsClimb(root, mounts, m);
      UpAfterDown(root, mounts, m.point);
      MountOnIsUnique(mounts, m);
      ResolversRespect(root, mounts, RootNode(m.subtree), node);
    }
  }

  // ---- `mount` ----

  /** The second half of `mount`, under the lock: the checks and the push. */
  function PushMount(mounts: seq<Mount>, point: Node, subtree: FsId): (seq<Mount>, Result<()>)
  {
    if point.kind != Directory || MountOf(mounts, subtree).Some? then (mounts, Err)
    else (mounts + [Mount(point, subtree)], Ok(()))
  }

  /** A whole call with no other in between. */
  ghost function AfterMount(root: FsId, mounts: seq<Mount>, point: Node, subtree: FsId): (seq<Mount>, Result<()>)
    requires Acyclic(root, mounts)
  {
    PushMount(mounts, Subtree(root, mounts, point), subtree)
  }

  /** `mount` succeeds exactly when what covers the point is a directory and the subtree is not mounted yet; then
      the table gains exactly that mount, otherwise it stays. */
  lemma MountSucceedsExactly(root: FsId, mounts: seq<Mount>, point: Node, subtree: FsId)
    requires Acyclic(root, mounts)
    ensures var (mounts', r) := AfterMount(root, mounts, point, subtree);
            && (r.Ok? <==> Subtree(root, mounts, point).kind == Directory && forall m | m in mounts :: m.subtree != subtree)
            && mounts' == if r.Ok? then mounts + [Mount(Subtree(root, mounts, point), subtree)] else mounts
  {
  }

  lemma SubtreeAttached(root: FsId, mounts: seq<Mount>, node: Node)
    requires Acyclic(root, mounts)
    ensures Attached(root, mounts, Subtree(root, mounts, node).fs) <==> Attached(root, mounts, node.fs)
    decreases |mounts| + 1 - Rank(root, mounts, node.fs)
  {
    var m := MountOn(mounts, node);
    if m.Some? {
      MountsClimb(root, mounts, m.value);
      SubtreeAttached(root, mounts, RootNode(m.value.subtree));
    }
  }

  lemma PushKeepsOrder(root: FsId, mounts: seq<Mount>, point: Node, subtree: FsId)
    requires Acyclic(root, mounts)
    ensures var (mounts', r) := PushMount(mounts, point, subtree);
            && (r.Err? ==> mounts' == mounts)
            && (r.Ok? ==> (Acyclic(root, mounts') <==> Attached(root, mounts, point.fs) && subtree != root))
  {
    var (mounts', r) := PushMount(mounts, point, subtree);
    if r.Ok? {
      assert mounts'[..|mounts'| - 1] == mounts;
    }
  }

  /** A successful `mount` goes on with the order of mounting exactly when the subtree is not the root file
      system and the mount point belongs to an attached one: neither is checked by the source. The order is
      enough for the resolvers to end; `MountLoops` says exactly when they do. */
  lemma MountKeepsOrder(root: FsId, mounts: seq<Mount>, point: Node, subtree: FsId)
    requires Acyclic(root, mounts)
    ensures var (mounts', r) := AfterMount(root, mounts, point, subtree);
            && (r.Err? ==> mounts' == mounts)
            && (r.Ok? ==> (Acyclic(root, mounts') <==> Attached(root, mounts, point.fs) && subtree != root))
            && (UniquePoints(mounts) ==> UniquePoints(mounts'))
  {
    SubtreeAttached(root, mounts, point);
    SubtreeIsTop(root, mounts, point);
    PushKeepsOrder(root, mounts, Subtree(root, mounts, point), subtree);
    var (mounts', r) := AfterMount(root, mounts, point, subtree);
    forall i, j | UniquePoints(mounts) && 0 <= i < j < |mounts'|
      ensures !SameNode(mounts'[i].point, mounts'[j].point)
    {
      if j == |mounts| {
        assert mounts[i] in mounts;
      }
    }
  }

  /** After a mount, the point resolves to the root of what was mounted last. */
  lemma MountCovers(root: FsId, mounts: seq<Mount>, point: Node, subtree: FsId)
    requires Acyclic(root, mounts) && Attached(root, mounts, point.fs) && subtree != root
    requires AfterMount(root, mounts, point, subtree).1.Ok?
    ensures Acyclic(root, AfterMount(root, mounts, point, subtree).0)
    ensures Subtree(root, AfterMount(root, mounts, point, subtree).0, point) == RootNode(subtree)
    decreases |mounts| + 1 - Rank(root, mounts, point.fs)
  {
    MountKeepsOrder(root, mounts, point, subtree);
    var mounts' := AfterMount(root, mounts, point, subtree).0;
    var top := Subtree(root, mounts, point);
    MountOnPush(mounts, Mount(top, subtree), point);
    if MountOn(mounts, point).Some? {
      var m := MountOn(mounts, point).value;
      MountsClimb(root, mounts, m);
      MountCovers(root, mounts, RootNode(m.subtree), subtree);
    } else {
      NothingOnTop(root, mounts, Mount(top, subtree));
      MountOnPush(mounts, Mount(top, subtree), RootNode(subtree));
    }
  }

  lemma {:induction false} MountOnPush(mounts: seq<Mount>, m: Mount, node: Node)
    ensures MountOn(mounts + [m], node) ==
            if MountOn(mounts, node).Some? then MountOn(mounts, node) else if SameNode(m.point, node) then Some(m) else None
  {
    if |mounts| == 0 {
      assert MountOn((mounts + [m])[1..], node).None?;
    } else {
      assert (mounts + [m])[1..] == mounts[1..] + [m];
      MountOnPush(mounts[1..], m, node);
    }
  }

  lemma {:induction false} PointsAttached(root: FsId, mounts: seq<Mount>, m: Mount)
    requires Acyclic(root, mounts) && m in mounts
    ensures Attached(root, mounts, m.point.fs)
  {
    MountsClimb(root, mounts, m);
  }

  // No mount is on a node of the file system that is just being mounted.
  lemma NothingOnTop(root: FsId, mounts: seq<Mount>, m: Mount)
    requires Acyclic(root, mounts) && Acyclic(root, mounts + [m])
    ensures MountOn(mounts, RootNode(m.subtree)).None? && m.point.fs != m.subtree
  {
    assert (mounts + [m])[..|mounts|] == mounts;
    if MountOn(mounts, RootNode(m.subtree)).Some? {
      PointsAttached(root, mounts, MountOn(mounts, RootNode(m.subtree)).value);
    }
  }

  // ---- Runs ----

  datatype Call = Call(point: Node, subtree: FsId)

  ghost predicate CanMountAll(root: FsId, calls: seq<Call>)
    decreases |calls|, 0
  {
    |calls| == 0 ||
    var before := calls[..|calls| - 1];
    var last := calls[|calls| - 1];
    && CanMountAll(root, before)
    && Attached(root, MountAll(root, before), last.point.fs)
    && last.subtree != root
  }

  /** The table after a sequence of calls, none overlapping another. */
  ghost function MountAll(root: FsId, calls: seq<Call>): (mounts: seq<Mount>)
    requires CanMountAll(root, calls)
    ensures Acyclic(root, mounts)
    decreases |calls|, 1
  {
    if |calls| == 0 then []
    else
      var mounts := MountAll(root, calls[..|calls| - 1]);
      var last := calls[|calls| - 1];
      MountKeepsOrder(root, mounts, last.point, last.subtree);
      AfterMount(root, mounts, last.point, last.subtree).0
  }

  lemma {:induction false} SequentialMountsAreUnique(root: FsId, calls: seq<Call>)
    requires CanMountAll(root, calls)
    ensures UniquePoints(MountAll(root, calls))
    decreases |calls|
  {
    if |calls| > 0 {
      var before := calls[..|calls| - 1];
      var last := calls[|calls| - 1];
      SequentialMountsAreUnique(root, before);
      MountKeepsOrder(root, MountAll(root, before), last.point, last.subtree);
    }
  }

  /** After any sequence of sequential mounts the resolvers are opposite walks of one chain. */
  lemma ResolversAreOpposite(root: FsId, calls: seq<Call>, node: Node)
    requires CanMountAll(root, calls)
    ensures var mounts := MountAll(root, calls);
            var top := Subtree(root, mounts, node);
            var bottom := MountPoint(root, mounts, node);
            && Subtree(root, mounts, top) == top && MountPoint(root, mounts, bottom) == bottom
            && SameNode(Subtree(root, mounts, bottom), top)
            && SameNode(MountPoint(root, mounts, top), bottom)
  {
    SequentialMountsAreUnique(root, calls);
    ResolversIdempotent(root, MountAll(root, calls), node);
    UpAfterDown(root, MountAll(root, calls), node);
    DownAfterUp(root, MountAll(root, calls), node);
  }

  // ---- Overlapping calls: the lock is released between the two halves ----

  datatype Event = Begin(caller: nat, point: Node) | Finish(caller: nat, subtree: FsId)

  /** A call between its halves: the node it resolved, and how many mounts there were at that time. */
  datatype Pending = Pending(point: Node, seen: nat)

  datatype Overlap = Overlap(mounts: seq<Mount>, pending: map<nat, Pending>)

  ghost predicate PendingOk(root: FsId, mounts: seq<Mount>, p: Pending)
  {
    && Attached(root, mounts, p.point.fs)
    && p.seen <= |mounts|
    && forall i | 0 <= i < p.seen :: !SameNode(mounts[i].point, p.point)
  }

  ghost predicate OverlapOk(root: FsId, s: Overlap)
  {
    Acyclic(root, s.mounts) && forall c | c in s.pending :: PendingOk(root, s.mounts, s.pending[c])
  }

  predicate CanStep(root: FsId, s: Overlap, e: Event)
  {
    match e
    case Begin(_, point) => Attached(root, s.mounts, point.fs)
    case Finish(c, subtree) => c in s.pending && subtree != root
  }

  ghost function Step(root: FsId, s: Overlap, e: Event): Overlap
    requires Acyclic(root, s.mounts) && CanStep(root, s, e)
  {
    match e
    case Begin(c, point) => s.(pending := s.pending[c := Pending(Subtree(root, s.mounts, point), |s.mounts|)])
    case Finish(c, subtree) => Overlap(PushMount(s.mounts, s.pending[c].point, subtree).0, s.pending - {c})
  }

  lemma PendingStable(root: FsId, mounts: seq<Mount>, m: Mount, p: Pending)
    requires PendingOk(root, mounts, p)
    ensures PendingOk(root, mounts + [m], p)
  {
    RankStable(root, mounts, m, p.point.fs);
  }

  /** Acyclicity survives every overlap of the two halves. */
  lemma OverlapKeepsAcyclic(root: FsId, s: Overlap, e: Event)
    requires OverlapOk(root, s) && CanStep(root, s, e)
    ensures OverlapOk(root, Step(root, s, e))
  {
    match e {
      case Begin(c, point) =>
        SubtreeAttached(root, s.mounts, point);
        SubtreeIsTop(root, s.mounts, point);
        assert forall i | 0 <= i < |s.mounts| :: s.mounts[i] in s.mounts;
      case Finish(c, subtree) =>
        PushKeepsOrder(root, s.mounts, s.pending[c].point, subtree);
        var s' := Step(root, s, e);
        forall c' | c' in s'.pending
          ensures PendingOk(root, s'.mounts, s'.pending[c'])
        {
          PendingStable(root, s.mounts, Mount(s.pending[c].point, subtree), s.pending[c']);
        }
    }
  }

  ghost predicate CanRun(root: FsId, s: Overlap, events: seq<Event>)
    requires OverlapOk(root, s)
    decreases |events|
  {
    |events| == 0 ||
    (&& CanStep(root, s, events[0])
     && (OverlapKeepsAcyclic(root, s, events[0]); CanRun(root, Step(root, s, events[0]), events[1..])))
  }

  ghost function Run(root: FsId, s: Overlap, events: seq<Event>): (s': Overlap)
    requires OverlapOk(root, s) && CanRun(root, s, events)
    ensures OverlapOk(root, s')
    decreases |events|
  {
    if |events| == 0 then s
    else
      OverlapKeepsAcyclic(root, s, events[0]);
      Run(root, Step(root, s, events[0]), events[1..])
  }

  /** The two halves with nothing in between are a sequential call. */
  lemma BeginThenFinish(root: FsId, s: Overlap, c: nat, point: Node, subtree: FsId)
    requires OverlapOk(root, s) && Attached(root, s.mounts, point.fs) && subtree != root
    ensures var begun := Step(root, s, Begin(c, point));
            && CanStep(root, begun, Finish(c, subtree))
            && Step(root, begun, Finish(c, subtree)).mounts == AfterMount(root, s.mounts, point, subtree).0
            && c !in Step(root, begun, Finish(c, subtree)).pending
  {
  }

  /** In any interleaving of any number of `mount` calls the graph stays acyclic, so both resolver
      loops end, and no subtree is mounted twice. */
  lemma InterleavedMountsStayAcyclic(root: FsId, events: seq<Event>, i: nat, j: nat)
    requires CanRun(root, Overlap([], map[]), events)
    ensures var mounts := Run(root, Overlap([], map[]), events).mounts;
            Acyclic(root, mounts) && (i < j < |mounts| ==> mounts[i].subtree != mounts[j].subtree)
  {
    var mounts := Run(root, Overlap([], map[]), events).mounts;
    if i < j < |mounts| {
      SubtreeMountedOnce(root, mounts, i, j);
    }
  }

  // ---- Unique mount points under overlap ----

  /** A push keeps the points unique exactly when its node has no mount yet. */
  lemma PushKeepsUniqueExactly(mounts: seq<Mount>, point: Node, subtree: FsId)
    requires UniquePoints(mounts) && PushMount(mounts, point, subtree).1.Ok?
    ensures UniquePoints(PushMount(mounts, point, subtree).0) <==> MountOn(mounts, point).None?
  {
    var mounts' := PushMount(mounts, point, subtree).0;
    if MountOn(mounts, point).Some? {
      var i :| 0 <= i < |mounts| && mounts[i] == MountOn(mounts, point).value;
      assert SameNode(mounts'[i].point, mounts'[|mounts|].point);
    } else {
      assert forall i | 0 <= i < |mounts| :: mounts[i] in mounts;
    }
  }

  /** The call succeeds on a node that was mounted on since it resolved it. */
  predicate Overtaken(s: Overlap, e: Event)
  {
    && e.Finish? && e.caller in s.pending
    && var p := s.pending[e.caller];
       && PushMount(s.mounts, p.point, e.subtree).1.Ok?
       && exists i :: p.seen <= i < |s.mounts| && SameNode(s.mounts[i].point, p.point)
  }

  lemma StepKeepsUniqueExactly(root: FsId, s: Overlap, e: Event)
    requires OverlapOk(root, s) && CanStep(root, s, e) && UniquePoints(s.mounts)
    ensures UniquePoints(Step(root, s, e).mounts) <==> !Overtaken(s, e)
  {
    if e.Finish? {
      var p := s.pending[e.caller];
      assert PendingOk(root, s.mounts, p);
      if PushMount(s.mounts, p.point, e.subtree).1.Ok? {
        PushKeepsUniqueExactly(s.mounts, p.point, e.subtree);
        if MountOn(s.mounts, p.point).Some? {
          var i :| 0 <= i < |s.mounts| && s.mounts[i] == MountOn(s.mounts, p.point).value;
          assert p.seen <= i && SameNode(s.mounts[i].point, p.point);
        } else {
          assert forall i | 0 <= i < |s.mounts| :: s.mounts[i] in s.mounts;
        }
      }
    }
  }

  ghost predicate NeverOvertaken(root: FsId, s: Overlap, events: seq<Event>)
    requires OverlapOk(root, s) && CanRun(root, s, events)
    decreases |events|
  {
    |events| == 0 ||
    (&& !Overtaken(s, events[0])
     && (OverlapKeepsAcyclic(root, s, events[0]); NeverOvertaken(root, Step(root, s, events[0]), events[1..])))
  }

  // A shared mount point stays shared.
  lemma {:induction false} SharedForGood(root: FsId, s: Overlap, events: seq<Event>)
    requires OverlapOk(root, s) && CanRun(root, s, events) && !UniquePoints(s.mounts)
    ensures !UniquePoints(Run(root, s, events).mounts)
    decreases |events|
  {
    if |events| > 0 {
      OverlapKeepsAcyclic(root, s, events[0]);
      var s' := Step(root, s, events[0]);
      var i, j :| 0 <= i < j < |s.mounts| && SameNode(s.mounts[i].point, s.mounts[j].point);
      assert SameNode(s'.mounts[i].point, s'.mounts[j].point);
      SharedForGood(root, s', events[1..]);
    }
  }

  /** After any interleaving of any number of calls the mount points are unique exactly when no call
      succeeded on a node that was mounted on between its two halves. */
  lemma {:induction false} RunKeepsUniqueExactly(root: FsId, s: Overlap, events: seq<Event>)
    requires OverlapOk(root, s) && CanRun(root, s, events) && UniquePoints(s.mounts)
    ensures UniquePoints(Run(root, s, events).mounts) <==> NeverOvertaken(root, s, events)
    decreases |events|
  {
    if |events| > 0 {
      OverlapKeepsAcyclic(root, s, events[0]);
      StepKeepsUniqueExactly(root, s, events[0]);
      var s' := Step(root, s, events[0]);
      if UniquePoints(s'.mounts) {
        RunKeepsUniqueExactly(root, s', events[1..]);
      } else {
        SharedForGood(root, s', events[1..]);
      }
    }
  }

  /** Such a run: two calls resolve the same node before either pushes, and leave two mounts on it. */
  lemma InterleavedMountsShareAPoint(root: FsId, a: FsId, b: FsId)
    requires a != root && b != root && a != b
    ensures var p := RootNode(root);
            var events := [Begin(0, p), Begin(1, p), Finish(0, a), Finish(1, b)];
            && CanRun(root, Overlap([], map[]), events)
            && Run(root, Overlap([], map[]), events).mounts == [Mount(p, a), Mount(p, b)]
            && !UniquePoints([Mount(p, a), Mount(p, b)])
  {
    var p := RootNode(root);
    var s0 := Overlap([], map[]);
    var s1 := Step(root, s0, Begin(0, p));
    assert s1 == Overlap([], map[0 := Pending(p, 0)]);
    var s2 := Step(root, s1, Begin(1, p));
    assert s2 == Overlap([], map[0 := Pending(p, 0), 1 := Pending(p, 0)]);
    var s3 := Step(root, s2, Finish(0, a));
    assert s3 == Overlap([Mount(p, a)], map[1 := Pending(p, 0)]);
    var s4 := Step(root, s3, Finish(1, b));
    assert s4 == Overlap([Mount(p, a), Mount(p, b)], map[]);
    assert !UniquePoints(s4.mounts) by { assert SameNode(s4.mounts[0].point, s4.mounts[1].point); }
    OverlapKeepsAcyclic(root, s0, Begin(0, p));
    OverlapKeepsAcyclic(root, s1, Begin(1, p));
    OverlapKeepsAcyclic(root, s2, Finish(0, a));
    OverlapKeepsAcyclic(root, s3, Finish(1, b));
    RunUnfolds(root, s3, Finish(1, b), []);
    RunUnfolds(root, s2, Finish(0, a), [Finish(1, b)]);
    RunUnfolds(root, s1, Begin(1, p), [Finish(0, a), Finish(1, b)]);
    RunUnfolds(root, s0, Begin(0, p), [Begin(1, p), Finish(0, a), Finish(1, b)]);
  }

  lemma RunUnfolds(root: FsId, s: Overlap, e: Event, events: seq<Event>)
    requires OverlapOk(root, s) && CanStep(root, s, e) && OverlapOk(root, Step(root, s, e)) && CanRun(root, Step(root, s, e), events)
    ensures CanRun(root, s, [e] + events) && Run(root, s, [e] + events) == Run(root, Step(root, s, e), events)
  {
    assert ([e] + events)[1..] == events;
  }
}
