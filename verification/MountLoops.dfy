/** When the loops of `resolve_subtree` and `resolve_mount_point` (kernel/src/fs/virtual_file_system.rs) end, for any
    mount table at all: exactly which `mount` calls keep them ending. */
module MountLoops {
  import opened Wrappers
  import opened Disks
  import opened Mounts

  /** One of the two loops over a mount table. */
  datatype Loop = Up(mounts: seq<Mount>) | Down(mounts: seq<Mount>)

  /** One turn: the next node, or `None` where the loop ends. */
  function Turn(l: Loop, node: Node): Option<Node>
  {
    match l
    case Up(mounts) =>
      var m := MountOn(mounts, node);
      if m.None? then None else Some(RootNode(m.value.subtree))
    case Down(mounts) =>
      if GoesDown(mounts, node) then Some(MountOf(mounts, node.fs).value.point) else None
  }

  /** The node after `n` turns: `None` once the loop has ended. */
  function Turns(l: Loop, node: Node, n: nat): Option<Node>
    decreases n
  {
    if n == 0 then Some(node)
    else
      var next := Turn(l, node);
      if next.None? then None else Turns(l, next.value, n - 1)
  }

  ghost predicate Ends(l: Loop, node: Node)
  {
    exists n: nat :: Turns(l, node, n).None?
  }

  /** The loop ends from every node. */
  ghost predicate Halts(l: Loop)
  {
    forall node :: Ends(l, node)
  }

  /** The node where the loop ends, given that it does within `n` turns. */
  ghost function EndIn(l: Loop, node: Node, n: nat): Node
    requires Turns(l, node, n).None?
    decreases n
  {
    var next := Turn(l, node);
    if next.None? then node else EndIn(l, next.value, n - 1)
  }

  lemma {:induction false} EndInAgrees(l: Loop, node: Node, n: nat, m: nat)
    requires Turns(l, node, n).None? && Turns(l, node, m).None?
    ensures EndIn(l, node, n) == EndIn(l, node, m)
    decreases n
  {
    var next := Turn(l, node);
    if next.Some? {
      EndInAgrees(l, next.value, n - 1, m - 1);
    }
  }

  /** What the resolver returns. */
  ghost function End(l: Loop, node: Node): Node
    requires Ends(l, node)
  {
    var n: nat :| Turns(l, node, n).None?;
    EndIn(l, node, n)
  }

  lemma EndIs(l: Loop, node: Node, n: nat)
    requires Turns(l, node, n).None?
    ensures Ends(l, node) && End(l, node) == EndIn(l, node, n)
  {
    var m: nat :| Turns(l, node, m).None? && End(l, node) == EndIn(l, node, m);
    EndInAgrees(l, node, m, n);
  }

  lemma TurnRespects(l: Loop, a: Node, b: Node)
    requires SameNode(a, b)
    ensures Turn(l, a) == Turn(l, b)
  {
    if l.Up? {
      MountOnRespects(l.mounts, a, b);
    }
  }

  lemma {:induction false} EndIsEnd(l: Loop, node: Node, n: nat)
    requires Turns(l, node, n).None?
    ensures Turn(l, EndIn(l, node, n)).None?
    decreases n
  {
    var next := Turn(l, node);
    if next.Some? {
      EndIsEnd(l, next.value, n - 1);
    }
  }

  // ---- One new edge ----

  /** `l'` is `l` with one more edge, from `a`, where `l` ends, to `b`. */
  ghost predicate OneEdge(l: Loop, l': Loop, a: Node, b: Node)
  {
    Turn(l, a).None? && forall node {:trigger EdgeAt(l, l', a, b, node)} :: EdgeAt(l, l', a, b, node)
  }

  ghost predicate EdgeAt(l: Loop, l': Loop, a: Node, b: Node, node: Node)
  {
    Turn(l', node) == if SameNode(node, a) then Some(b) else Turn(l, node)
  }

  // A walk that does not end at `a` does not see the edge.
  lemma {:induction false} EdgeAvoided(l: Loop, l': Loop, a: Node, b: Node, node: Node, n: nat)
    requires OneEdge(l, l', a, b) && Turns(l, node, n).None? && !SameNode(EndIn(l, node, n), a)
    ensures Turns(l', node, n).None?
    decreases n
  {
    assert EdgeAt(l, l', a, b, node);
    if SameNode(node, a) {
      TurnRespects(l, node, a);
    }
    var next := Turn(l, node);
    if next.Some? {
      EdgeAvoided(l, l', a, b, next.value, n - 1);
    }
  }

  // A walk that ends at `a` goes on along the edge.
  lemma {:induction false} EdgeTaken(l: Loop, l': Loop, a: Node, b: Node, node: Node, n: nat, m: nat) returns (k: nat)
    requires OneEdge(l, l', a, b) && Turns(l, node, n).None? && SameNode(EndIn(l, node, n), a) && Turns(l', b, m).None?
    ensures Turns(l', node, k).None?
    decreases n
  {
    assert EdgeAt(l, l', a, b, node);
    if SameNode(node, a) {
      k := m + 1;
    } else {
      var j := EdgeTaken(l, l', a, b, Turn(l, node).value, n - 1, m);
      k := j + 1;
    }
  }

  // If the walk from `b` comes back to `a`, every walk that reaches `a` goes round for ever.
  lemma {:induction false} EdgeCloses(l: Loop, l': Loop, a: Node, b: Node, m: nat, node: Node, n: nat, k: nat)
    requires OneEdge(l, l', a, b) && Turns(l, b, m).None? && SameNode(EndIn(l, b, m), a)
    requires Turns(l, node, n).None? && SameNode(EndIn(l, node, n), a)
    ensures Turns(l', node, k).Some?
    decreases k
  {
    if k > 0 {
      assert EdgeAt(l, l', a, b, node);
      if SameNode(node, a) {
        EdgeCloses(l, l', a, b, m, b, m, k - 1);
      } else {
        EdgeCloses(l, l', a, b, m, Turn(l, node).value, n - 1, k - 1);
      }
    }
  }

  /** With one more edge the loop still ends from everywhere exactly when the walk from the edge's
      target does not end at its source. */
  lemma EdgeHaltsExactly(l: Loop, l': Loop, a: Node, b: Node)
    requires Halts(l) && OneEdge(l, l', a, b)
    ensures Halts(l') <==> !SameNode(End(l, b), a)
  {
    assert Ends(l, b);
    var m: nat :| Turns(l, b, m).None?;
    EndIs(l, b, m);
    if SameNode(End(l, b), a) {
      forall k: nat
        ensures Turns(l', b, k).Some?
      {
        EdgeCloses(l, l', a, b, m, b, m, k);
      }
      assert !Ends(l', b);
    } else {
      EdgeAvoided(l, l', a, b, b, m);
      forall node
        ensures Ends(l', node)
      {
        assert Ends(l, node);
        var n: nat :| Turns(l, node, n).None?;
        if SameNode(EndIn(l, node, n), a) {
          var k := EdgeTaken(l, l', a, b, node, n, m);
        } else {
          EdgeAvoided(l, l', a, b, node, n);
        }
      }
    }
  }

  // ---- `mount` ----

  lemma {:induction false} MountOfPush(mounts: seq<Mount>, m: Mount, fs: FsId)
    ensures MountOf(mounts + [m], fs) ==
            if MountOf(mounts, fs).Some? then MountOf(mounts, fs) else if m.subtree == fs then Some(m) else None
  {
    if |mounts| == 0 {
      assert MountOf((mounts + [m])[1..], fs).None?;
    } else {
      assert (mounts + [m])[1..] == mounts[1..] + [m];
      MountOfPush(mounts[1..], m, fs);
    }
  }

  lemma UpEdge(mounts: seq<Mount>, top: Node, subtree: FsId)
    requires MountOn(mounts, top).None?
    ensures OneEdge(Up(mounts), Up(mounts + [Mount(top, subtree)]), top, RootNode(subtree))
  {
    forall node
      ensures EdgeAt(Up(mounts), Up(mounts + [Mount(top, subtree)]), top, RootNode(subtree), node)
    {
      MountOnPush(mounts, Mount(top, subtree), node);
      if SameNode(node, top) {
        MountOnRespects(mounts, node, top);
      }
    }
  }

  lemma DownEdge(mounts: seq<Mount>, top: Node, subtree: FsId)
    requires MountOf(mounts, subtree).None?
    ensures OneEdge(Down(mounts), Down(mounts + [Mount(top, subtree)]), RootNode(subtree), top)
  {
    forall node
      ensures EdgeAt(Down(mounts), Down(mounts + [Mount(top, subtree)]), RootNode(subtree), top, node)
    {
      MountOfPush(mounts, Mount(top, subtree), node.fs);
    }
  }

  /** `mount` on any table on which the resolvers end. */
  ghost function MountOnto(mounts: seq<Mount>, point: Node, subtree: FsId): (seq<Mount>, Result<()>)
    requires Halts(Up(mounts))
  {
    assert Ends(Up(mounts), point);
    PushMount(mounts, End(Up(mounts), point), subtree)
  }

  /** What a caller can ask before the call: `resolve_subtree` of the subtree's root is not
      `resolve_subtree` of the mount point. */
  ghost predicate Apart(mounts: seq<Mount>, point: Node, subtree: FsId)
    requires Halts(Up(mounts))
  {
    assert Ends(Up(mounts), RootNode(subtree)) && Ends(Up(mounts), point);
    !SameNode(End(Up(mounts), RootNode(subtree)), End(Up(mounts), point))
  }

  /** The same question for the way down: `resolve_mount_point` of the resolved mount point is not the
      subtree's root. */
  ghost predicate ApartBelow(mounts: seq<Mount>, point: Node, subtree: FsId)
    requires Halts(Up(mounts)) && Halts(Down(mounts))
  {
    assert Ends(Up(mounts), point);
    assert Ends(Down(mounts), End(Up(mounts), point));
    !SameNode(End(Down(mounts), End(Up(mounts), point)), RootNode(subtree))
  }

  lemma EndHasNoMount(mounts: seq<Mount>, node: Node)
    requires Halts(Up(mounts))
    ensures Ends(Up(mounts), node) && MountOn(mounts, End(Up(mounts), node)).None?
  {
    assert Ends(Up(mounts), node);
    var n: nat :| Turns(Up(mounts), node, n).None?;
    EndIs(Up(mounts), node, n);
    EndIsEnd(Up(mounts), node, n);
  }

  /** The second half of any call, also of one that another call has overtaken: a push on a node that has
      a mount by now is never found on the way up. */
  lemma PushHaltsExactly(mounts: seq<Mount>, point: Node, subtree: FsId)
    requires Halts(Up(mounts)) && Halts(Down(mounts)) && PushMount(mounts, point, subtree).1.Ok?
    ensures Ends(Up(mounts), RootNode(subtree)) && Ends(Down(mounts), point)
    ensures var mounts' := PushMount(mounts, point, subtree).0;
            && (Halts(Up(mounts')) <==> MountOn(mounts, point).Some? || !SameNode(End(Up(mounts), RootNode(subtree)), point))
            && (Halts(Down(mounts')) <==> !SameNode(End(Down(mounts), point), RootNode(subtree)))
  {
    assert Ends(Up(mounts), RootNode(subtree)) && Ends(Down(mounts), point);
    var mounts' := PushMount(mounts, point, subtree).0;
    DownEdge(mounts, point, subtree);
    EdgeHaltsExactly(Down(mounts), Down(mounts'), RootNode(subtree), point);
    if MountOn(mounts, point).None? {
      UpEdge(mounts, point, subtree);
      EdgeHaltsExactly(Up(mounts), Up(mounts'), point, RootNode(subtree));
    } else {
      forall node
        ensures Ends(Up(mounts'), node)
      {
        assert Ends(Up(mounts), node);
        var n: nat :| Turns(Up(mounts), node, n).None?;
        CoveredPush(mounts, Mount(point, subtree), node, n);
      }
    }
  }

  lemma {:induction false} CoveredPush(mounts: seq<Mount>, m: Mount, node: Node, n: nat)
    requires MountOn(mounts, m.point).Some?
    ensures Turns(Up(mounts + [m]), node, n) == Turns(Up(mounts), node, n)
    decreases n
  {
    if n > 0 {
      MountOnPush(mounts, m, node);
      if SameNode(m.point, node) {
        MountOnRespects(mounts, m.point, node);
      }
      var next := Turn(Up(mounts), node);
      if next.Some? {
        CoveredPush(mounts, m, next.value, n - 1);
      }
    }
  }

  /** A successful `mount` keeps each resolver ending from every node exactly when the caller's
      question for it is answered with yes. */
  lemma MountHaltsExactly(mounts: seq<Mount>, point: Node, subtree: FsId)
    requires Halts(Up(mounts)) && Halts(Down(mounts))
    ensures var (mounts', r) := MountOnto(mounts, point, subtree);
            && (r.Err? ==> mounts' == mounts)
            && (r.Ok? ==> (Halts(Up(mounts')) <==> Apart(mounts, point, subtree)))
            && (r.Ok? ==> (Halts(Down(mounts')) <==> ApartBelow(mounts, point, subtree)))
  {
    EndHasNoMount(mounts, point);
    if MountOnto(mounts, point, subtree).1.Ok? {
      PushHaltsExactly(mounts, End(Up(mounts), point), subtree);
    }
  }

  // ---- The order of mounting is enough ----

  lemma {:induction false} OrderEndsUp(root: FsId, mounts: seq<Mount>, node: Node) returns (n: nat)
    requires Acyclic(root, mounts)
    ensures Turns(Up(mounts), node, n).None? && EndIn(Up(mounts), node, n) == Subtree(root, mounts, node)
    decreases |mounts| + 1 - Rank(root, mounts, node.fs)
  {
    var m := MountOn(mounts, node);
    if m.None? {
      n := 1;
    } else {
      MountsClimb(root, mounts, m.value);
      var k := OrderEndsUp(root, mounts, RootNode(m.value.subtree));
      n := k + 1;
    }
  }

  lemma {:induction false} OrderEndsDown(root: FsId, mounts: seq<Mount>, node: Node) returns (n: nat)
    requires Acyclic(root, mounts)
    ensures Turns(Down(mounts), node, n).None? && EndIn(Down(mounts), node, n) == MountPoint(root, mounts, node)
    decreases Rank(root, mounts, node.fs)
  {
    if !GoesDown(mounts, node) {
      n := 1;
    } else {
      var m := MountOf(mounts, node.fs).value;
      MountsClimb(root, mounts, m);
      var k := OrderEndsDown(root, mounts, m.point);
      n := k + 1;
    }
  }

  /** On a table in mounting order both loops end, where the resolvers on values say. */
  lemma OrderHalts(root: FsId, mounts: seq<Mount>, node: Node)
    requires Acyclic(root, mounts)
    ensures Halts(Up(mounts)) && Halts(Down(mounts))
    ensures Ends(Up(mounts), node) && End(Up(mounts), node) == Subtree(root, mounts, node)
    ensures Ends(Down(mounts), node) && End(Down(mounts), node) == MountPoint(root, mounts, node)
  {
    forall x
      ensures Ends(Up(mounts), x) && Ends(Down(mounts), x)
    {
      var n := OrderEndsUp(root, mounts, x);
      var k := OrderEndsDown(root, mounts, x);
    }
    var n := OrderEndsUp(root, mounts, node);
    EndIs(Up(mounts), node, n);
    var k := OrderEndsDown(root, mounts, node);
    EndIs(Down(mounts), node, k);
  }

  // ---- The resolvers as opposite walks, on every table on which they end ----

  predicate OncePerSubtree(mounts: seq<Mount>)
  {
    forall i, j | 0 <= i < j < |mounts| :: mounts[i].subtree != mounts[j].subtree
  }

  lemma TurnEnds(l: Loop, node: Node)
    requires Halts(l)
    ensures Ends(l, node)
    ensures var next := Turn(l, node);
            if next.None? then End(l, node) == node else Ends(l, next.value) && End(l, node) == End(l, next.value)
  {
    assert Ends(l, node);
    var n: nat :| Turns(l, node, n).None?;
    EndIs(l, node, n);
    if Turn(l, node).Some? {
      EndIs(l, Turn(l, node).value, n - 1);
    }
  }

  lemma EndRespects(l: Loop, a: Node, b: Node)
    requires Halts(l) && SameNode(a, b)
    ensures Ends(l, a) && Ends(l, b) && SameNode(End(l, a), End(l, b))
  {
    TurnRespects(l, a, b);
    TurnEnds(l, a);
    TurnEnds(l, b);
  }

  // A turn up is undone by a turn down.
  lemma UpThenDown(mounts: seq<Mount>, node: Node)
    requires OncePerSubtree(mounts) && Turn(Up(mounts), node).Some?
    ensures var back := Turn(Down(mounts), Turn(Up(mounts), node).value);
            back.Some? && SameNode(back.value, node)
  {
    var m := MountOn(mounts, node).value;
    var found := MountOf(mounts, m.subtree).value;
    var i :| 0 <= i < |mounts| && mounts[i] == m;
    var j :| 0 <= j < |mounts| && mounts[j] == found;
    assert i == j;
  }

  // A turn down is undone by a turn up.
  lemma DownThenUp(mounts: seq<Mount>, node: Node)
    requires UniquePoints(mounts) && Turn(Down(mounts), node).Some?
    ensures var back := Turn(Up(mounts), Turn(Down(mounts), node).value);
            back.Some? && SameNode(back.value, node)
  {
    MountOnIsUnique(mounts, MountOf(mounts, node.fs).value);
  }

  // The end of `l'` from the end of `l` is the end of `l'`, when `l'` undoes each turn of `l`.
  lemma {:induction false} BackFromEnd(l: Loop, l': Loop, node: Node, n: nat)
    requires Halts(l) && Halts(l') && Turns(l, node, n).None?
    requires forall x {:trigger Undone(l, l', x)} :: Undone(l, l', x)
    ensures Ends(l, node) && Ends(l', node) && Ends(l', End(l, node))
    ensures SameNode(End(l', End(l, node)), End(l', node))
    decreases n
  {
    TurnEnds(l, node);
    TurnEnds(l', node);
    TurnEnds(l', End(l, node));
    if Turn(l, node).Some? {
      var next := Turn(l, node).value;
      BackFromEnd(l, l', next, n - 1);
      TurnEnds(l', next);
      assert Undone(l, l', node);
      EndRespects(l', Turn(l', next).value, node);
    }
  }

  ghost predicate Undone(l: Loop, l': Loop, node: Node)
  {
    Turn(l, node).Some? ==>
      var back := Turn(l', Turn(l, node).value); back.Some? && SameNode(back.value, node)
  }

  /** On every table with unique subtrees and points on which the resolvers end, each undoes the other. */
  lemma EndsAreOpposite(mounts: seq<Mount>, node: Node)
    requires Halts(Up(mounts)) && Halts(Down(mounts)) && OncePerSubtree(mounts) && UniquePoints(mounts)
    ensures Ends(Up(mounts), node) && Ends(Down(mounts), node)
    ensures Ends(Down(mounts), End(Up(mounts), node)) && Ends(Up(mounts), End(Down(mounts), node))
    ensures SameNode(End(Down(mounts), End(Up(mounts), node)), End(Down(mounts), node))
    ensures SameNode(End(Up(mounts), End(Down(mounts), node)), End(Up(mounts), node))
  {
    assert Ends(Up(mounts), node) && Ends(Down(mounts), node);
    forall x
      ensures Undone(Up(mounts), Down(mounts), x) && Undone(Down(mounts), Up(mounts), x)
    {
      if Turn(Up(mounts), x).Some? {
        UpThenDown(mounts, x);
      }
      if Turn(Down(mounts), x).Some? {
        DownThenUp(mounts, x);
      }
    }
    var n: nat :| Turns(Up(mounts), node, n).None?;
    BackFromEnd(Up(mounts), Down(mounts), node, n);
    var k: nat :| Turns(Down(mounts), node, k).None?;
    BackFromEnd(Down(mounts), Up(mounts), node, k);
  }

  /** On such a table the two questions are one. */
  lemma OneQuestion(mounts: seq<Mount>, point: Node, subtree: FsId)
    requires Halts(Up(mounts)) && Halts(Down(mounts)) && OncePerSubtree(mounts) && UniquePoints(mounts)
    requires MountOf(mounts, subtree).None?
    ensures Apart(mounts, point, subtree) <==> ApartBelow(mounts, point, subtree)
  {
    var rootNode := RootNode(subtree);
    EndHasNoMount(mounts, point);
    var top := End(Up(mounts), point);
    EndsAreOpposite(mounts, rootNode);
    EndsAreOpposite(mounts, top);
    TurnEnds(Down(mounts), rootNode);
    TurnEnds(Up(mounts), top);
    if SameNode(End(Up(mounts), rootNode), top) {
      EndRespects(Down(mounts), End(Up(mounts), rootNode), top);
    }
    if SameNode(End(Down(mounts), top), rootNode) {
      EndRespects(Up(mounts), End(Down(mounts), top), rootNode);
    }
  }

  // ---- Sequential calls ----

  ghost predicate Sound(mounts: seq<Mount>)
  {
    Halts(Up(mounts)) && Halts(Down(mounts)) && OncePerSubtree(mounts) && UniquePoints(mounts)
  }

  lemma MountOntoKeepsUnique(mounts: seq<Mount>, point: Node, subtree: FsId)
    requires Sound(mounts)
    ensures OncePerSubtree(MountOnto(mounts, point, subtree).0) && UniquePoints(MountOnto(mounts, point, subtree).0)
  {
    EndHasNoMount(mounts, point);
    var mounts' := MountOnto(mounts, point, subtree).0;
    forall i, j | 0 <= i < j < |mounts'|
      ensures mounts'[i].subtree != mounts'[j].subtree && !SameNode(mounts'[i].point, mounts'[j].point)
    {
      if j == |mounts| {
        assert mounts[i] in mounts;
      }
    }
  }

  /** After a successful call with no other in between, both loops still end from every node exactly when
      `resolve_subtree` told the subtree's root and the mount point apart; otherwise neither does. */
  lemma SequentialMountHaltsExactly(mounts: seq<Mount>, point: Node, subtree: FsId)
    requires Sound(mounts) && MountOnto(mounts, point, subtree).1.Ok?
    ensures var mounts' := MountOnto(mounts, point, subtree).0;
            && (Halts(Up(mounts')) <==> Apart(mounts, point, subtree))
            && (Halts(Down(mounts')) <==> Apart(mounts, point, subtree))
            && (Sound(mounts') <==> Apart(mounts, point, subtree))
  {
    MountHaltsExactly(mounts, point, subtree);
    OneQuestion(mounts, point, subtree);
    MountOntoKeepsUnique(mounts, point, subtree);
  }

  /** Every call of the sequence either failed or told the two apart. */
  ghost predicate Checked(calls: seq<Call>)
    decreases |calls|, 0
  {
    |calls| == 0 ||
    var before := calls[..|calls| - 1];
    var last := calls[|calls| - 1];
    && Checked(before)
    && (|| MountOnto(Table(before), last.point, last.subtree).1.Err?
        || Apart(Table(before), last.point, last.subtree))
  }

  /** The table after sequential calls that were all checked: whatever file systems they name, attached or
      not, the root file system among them, the resolvers end. */
  ghost function Table(calls: seq<Call>): (mounts: seq<Mount>)
    requires Checked(calls)
    ensures Sound(mounts)
    decreases |calls|, 1
  {
    if |calls| == 0 then EmptyIsSound(); []
    else
      var before := Table(calls[..|calls| - 1]);
      var last := calls[|calls| - 1];
      CheckedStep(before, last.point, last.subtree);
      MountOnto(before, last.point, last.subtree).0
  }

  lemma CheckedStep(mounts: seq<Mount>, point: Node, subtree: FsId)
    requires Sound(mounts) && (MountOnto(mounts, point, subtree).1.Err? || Apart(mounts, point, subtree))
    ensures Sound(MountOnto(mounts, point, subtree).0)
  {
    if MountOnto(mounts, point, subtree).1.Ok? {
      SequentialMountHaltsExactly(mounts, point, subtree);
    }
  }

  lemma EmptyIsSound()
    ensures Sound([])
  {
    forall node
      ensures Ends(Up([]), node) && Ends(Down([]), node)
    {
      assert Turns(Up([]), node, 1).None? && Turns(Down([]), node, 1).None?;
    }
  }

  // ---- Two calls that fail the question ----

  /** Mounting the root file system on its own root succeeds, and then `resolve_subtree` never ends. */
  lemma {:induction false} MountingTheRootLoops(root: FsId, n: nat)
    ensures AfterMount(root, [], RootNode(root), root) == ([Mount(RootNode(root), root)], Ok(()))
    ensures Turns(Up([Mount(RootNode(root), root)]), RootNode(root), n).Some?
    decreases n
  {
    assert MountOn([], RootNode(root)).None? && [] + [Mount(RootNode(root), root)] == [Mount(RootNode(root), root)];
    if n > 0 {
      MountingTheRootLoops(root, n - 1);
    }
  }

  /** Mounting on a detached file system that is itself mounted on the first later: both succeed, and
      then `resolve_subtree` never ends. */
  lemma {:induction false} DetachedMountsLoop(a: FsId, b: FsId, n: nat)
    requires a != b
    ensures var first := PushMount([], RootNode(b), a).0;
            && first == [Mount(RootNode(b), a)]
            && MountOn(first, RootNode(a)).None?
            && PushMount(first, RootNode(a), b) == ([Mount(RootNode(b), a), Mount(RootNode(a), b)], Ok(()))
    ensures var both := [Mount(RootNode(b), a), Mount(RootNode(a), b)];
            Turns(Up(both), RootNode(a), n).Some? && Turns(Up(both), RootNode(b), n).Some?
    decreases n
  {
    var first := PushMount([], RootNode(b), a).0;
    assert first == [Mount(RootNode(b), a)];
    assert first[1..] == [];
    assert first + [Mount(RootNode(a), b)] == [Mount(RootNode(b), a), Mount(RootNode(a), b)];
    if n > 0 {
      DetachedMountsLoop(a, b, n - 1);
    }
  }
}
