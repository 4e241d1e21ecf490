/** Path resolution through mounts and disks (kernel/src/fs/file_manager.rs and
    kernel/src/fs/virtual_file_system.rs) on values. */
module Vfs {
  import opened Wrappers
  import opened Disks
  import opened Mounts
  import opened Paths

  /** The private root file system, the mount table, and every file system by its identity. */
  datatype World = World(root: FsId, mounts: seq<Mount>, disks: map<FsId, Disk>)

  ghost predicate WorldOk(w: World)
  {
    && Acyclic(w.root, w.mounts)
    && w.root in w.disks
    && (forall m | m in w.mounts :: MountOk(w, m))
    && (forall fs {:trigger DiskAtOk(w, fs)} :: DiskAtOk(w, fs))
  }

  ghost predicate DiskAtOk(w: World, fs: FsId)
  {
    fs in w.disks ==> DiskOk(fs, w.disks[fs])
  }

  /** A mount point exists as a directory, and so does the file system mounted on it. */
  ghost predicate MountOk(w: World, m: Mount)
  {
    m.subtree in w.disks && m.point.kind == Directory && m.point.fs in w.disks && m.point.id in w.disks[m.point.fs].directories
  }

  /** The first link of that name. */
  function Find(links: seq<NodeLink>, name: string): Option<Node>
  {
    if |links| == 0 then None
    else if links[0].name == name then Some(links[0].node)
    else Find(links[1..], name)
  }

  /** `resolve_subtree` */
  ghost function Top(w: World, node: Node): Node
    requires Acyclic(w.root, w.mounts)
  {
    Subtree(w.root, w.mounts, node)
  }

  /** `opendir` and the scan of its links: one step of `walk`. */
  ghost function Lookup(w: World, node: Node, name: string): Result<Node>
    requires Acyclic(w.root, w.mounts)
  {
    var dir := Top(w, node);
    if dir.kind != Directory || dir.fs !in w.disks || dir.id !in w.disks[dir.fs].directories then Err
    else
      var found := Find(w.disks[dir.fs].directories[dir.id], name);
      if found.None? then Err else Ok(found.value)
  }

  ghost function Walk(w: World, node: Node, tokens: seq<PathToken>): Result<Node>
    requires Acyclic(w.root, w.mounts)
    decreases |tokens|
  {
    if |tokens| == 0 then Ok(node)
    else
      var next := Lookup(w, node, ToStr(tokens[0]));
      if next.Err? then Err else Walk(w, next.value, tokens[1..])
  }

  /** `mkdir` or `mknod` of a file system, by the kind of the new node. */
  function Make(d: Disk, dir: Node, name: string, kind: NodeType): (Disk, Result<()>)
  {
    if kind == Directory then AfterMkdir(d, dir, name) else AfterMknod(d, dir, name)
  }

  /** `mkdir` and `mknod` of the virtual file system. */
  ghost function MakeIn(w: World, parent: Node, name: string, kind: NodeType): (World, Result<()>)
    requires Acyclic(w.root, w.mounts)
  {
    var dir := Top(w, parent);
    if dir.kind != Directory || name == CURRENT || name == PARENT || dir.fs !in w.disks then (w, Err)
    else
      var (d, r) := Make(w.disks[dir.fs], dir, name, kind);
      (w.(disks := w.disks[dir.fs := d]), r)
  }

  /** `mkdir` and `mknod` of the file manager. */
  ghost function MakeAt(w: World, start: Node, tokens: seq<PathToken>, kind: NodeType): (World, Result<()>)
    requires Acyclic(w.root, w.mounts)
  {
    var parent := Walk(w, start, ParentTokens(tokens));
    if parent.Err? then (w, Err)
    else if |tokens| > 0 && tokens[|tokens| - 1].Literal? then MakeIn(w, parent.value, tokens[|tokens| - 1].name, kind)
    else (w, Err)
  }

  // ---- What a lookup finds ----

  /** `k` is the first link of that name. */
  predicate FirstNamed(links: seq<NodeLink>, name: string, k: nat)
  {
    k < |links| && links[k].name == name && forall j | 0 <= j < k :: links[j].name != name
  }

  predicate Names(links: seq<NodeLink>, name: string)
  {
    exists k :: 0 <= k < |links| && links[k].name == name
  }

  /** The scan finds the first link of the name, and nothing exactly when no link has it. */
  lemma {:induction false} FindMeaning(links: seq<NodeLink>, name: string)
    ensures Find(links, name).Some? <==> Names(links, name)
    ensures Find(links, name).Some? ==> exists k: nat :: FirstNamed(links, name, k) && links[k].node == Find(links, name).value
  {
    if |links| > 0 {
      if links[0].name == name {
        assert FirstNamed(links, name, 0);
      } else {
        FindMeaning(links[1..], name);
        if Find(links, name).Some? {
          var j: nat :| FirstNamed(links[1..], name, j) && links[1..][j].node == Find(links, name).value;
          assert FirstNamed(links, name, j + 1);
        }
      }
    }
  }

  /** A directory with its table entry. */
  predicate IsDirectory(w: World, dir: Node)
  {
    dir.kind == Directory && dir.fs in w.disks && dir.id in w.disks[dir.fs].directories
  }

  function LinksOfDirectory(w: World, dir: Node): seq<NodeLink>
    requires IsDirectory(w, dir)
  {
    w.disks[dir.fs].directories[dir.id]
  }

  /** A step of the walk succeeds exactly when the covering node is a directory that lists the name, and leads
      to the node of the first such link. */
  lemma LookupMeaning(w: World, node: Node, name: string)
    requires Acyclic(w.root, w.mounts)
    ensures Lookup(w, node, name).Ok? <==> IsDirectory(w, Top(w, node)) && Names(LinksOfDirectory(w, Top(w, node)), name)
    ensures Lookup(w, node, name).Ok? ==>
              exists k: nat :: FirstNamed(LinksOfDirectory(w, Top(w, node)), name, k) &&
                LinksOfDirectory(w, Top(w, node))[k].node == Lookup(w, node, name).value
  {
    if IsDirectory(w, Top(w, node)) {
      FindMeaning(LinksOfDirectory(w, Top(w, node)), name);
    }
  }

  // ---- Resolved paths stay resolved ----

  /** Directories only gain links, at their end; mounts stay. */
  ghost predicate Extends(w: World, w': World)
  {
    && w'.root == w.root && w'.mounts == w.mounts && w'.disks.Keys == w.disks.Keys
    && forall fs, id {:trigger Kept(w, w', fs, id)} :: Kept(w, w', fs, id)
  }

  ghost predicate Kept(w: World, w': World, fs: FsId, id: nat)
  {
    fs in w.disks && fs in w'.disks && id in w.disks[fs].directories ==>
      id in w'.disks[fs].directories && w.disks[fs].directories[id] <= w'.disks[fs].directories[id]
  }

  lemma {:induction false} FindStable(links: seq<NodeLink>, links': seq<NodeLink>, name: string)
    requires links <= links' && Find(links, name).Some?
    ensures Find(links', name) == Find(links, name)
    decreases |links|
  {
    if links[0].name != name {
      FindStable(links[1..], links'[1..], name);
    }
  }

  lemma LookupStable(w: World, w': World, node: Node, name: string)
    requires Acyclic(w.root, w.mounts) && Extends(w, w') && Lookup(w, node, name).Ok?
    ensures Lookup(w', node, name) == Lookup(w, node, name)
  {
    var dir := Top(w, node);
    assert Kept(w, w', dir.fs, dir.id);
    FindStable(w.disks[dir.fs].directories[dir.id], w'.disks[dir.fs].directories[dir.id], name);
  }

  /** A path that resolves keeps its node. */
  lemma {:induction false} WalkStable(w: World, w': World, node: Node, tokens: seq<PathToken>)
    requires Acyclic(w.root, w.mounts) && Extends(w, w') && Walk(w, node, tokens).Ok?
    ensures Walk(w', node, tokens) == Walk(w, node, tokens)
    decreases |tokens|
  {
    if |tokens| > 0 {
      LookupStable(w, w', node, ToStr(tokens[0]));
      WalkStable(w, w', Lookup(w, node, ToStr(tokens[0])).value, tokens[1..]);
    }
  }

  lemma {:induction false} WalkConcat(w: World, node: Node, a: seq<PathToken>, b: seq<PathToken>)
    requires Acyclic(w.root, w.mounts)
    ensures Walk(w, node, a + b) ==
            var mid := Walk(w, node, a); if mid.Err? then Err else Walk(w, mid.value, b)
    decreases |a|
  {
    if |a| == 0 {
      assert a + b == b;
    } else {
      assert (a + b)[1..] == a[1..] + b;
      var next := Lookup(w, node, ToStr(a[0]));
      if next.Ok? {
        WalkConcat(w, next.value, a[1..], b);
      }
    }
  }

  // ---- What creating a node does ----

  lemma MakeKeepsOk(fs: FsId, d: Disk, dir: Node, name: string, kind: NodeType)
    requires DiskOk(fs, d) && dir == Node(fs, dir.id, Directory)
    ensures DiskOk(fs, Make(d, dir, name, kind).0)
    ensures forall id | id in d.directories ::
              id in Make(d, dir, name, kind).0.directories && d.directories[id] <= Make(d, dir, name, kind).0.directories[id]
    ensures Make(d, dir, name, kind).1.Ok? <==> dir.id in d.directories
  {
    if kind == Directory {
      MkdirKeepsOk(fs, d, dir, name);
      if dir.id in d.directories {
        MkdirGrows(fs, d, dir, name);
      }
    } else {
      MknodKeepsOk(fs, d, dir, name);
      if dir.id in d.directories {
        MknodGrows(fs, d, dir, name);
      }
    }
  }

  lemma DiskReplaced(w: World, fs: FsId, d: Disk)
    requires WorldOk(w) && fs in w.disks && DiskOk(fs, d)
    requires forall id | id in w.disks[fs].directories :: id in d.directories && w.disks[fs].directories[id] <= d.directories[id]
    ensures WorldOk(w.(disks := w.disks[fs := d])) && Extends(w, w.(disks := w.disks[fs := d]))
  {
    var w' := w.(disks := w.disks[fs := d]);
    forall fs', id: nat
      ensures Kept(w, w', fs', id)
    {
    }
    forall fs'
      ensures DiskAtOk(w', fs')
    {
      assert DiskAtOk(w, fs');
    }
    forall m | m in w'.mounts
      ensures MountOk(w', m)
    {
      assert MountOk(w, m);
      assert Kept(w, w', m.point.fs, m.point.id);
    }
  }

  /** Creating a node anywhere, failing or not, keeps the world's invariant and only extends directories. */
  lemma MakeInExtends(w: World, parent: Node, name: string, kind: NodeType)
    requires WorldOk(w)
    ensures WorldOk(MakeIn(w, parent, name, kind).0) && Extends(w, MakeIn(w, parent, name, kind).0)
  {
    var dir := Top(w, parent);
    assert Extends(w, w);
    assert DiskAtOk(w, dir.fs);
    if dir.fs in w.disks && dir.kind == Directory {
      MakeKeepsOk(dir.fs, w.disks[dir.fs], dir, name, kind);
      DiskReplaced(w, dir.fs, Make(w.disks[dir.fs], dir, name, kind).0);
    }
  }

  lemma MakeAtExtends(w: World, start: Node, tokens: seq<PathToken>, kind: NodeType)
    requires WorldOk(w)
    ensures WorldOk(MakeAt(w, start, tokens, kind).0) && Extends(w, MakeAt(w, start, tokens, kind).0)
  {
    var parent := Walk(w, start, ParentTokens(tokens));
    assert Extends(w, w);
    if parent.Ok? && |tokens| > 0 && tokens[|tokens| - 1].Literal? {
      MakeInExtends(w, parent.value, tokens[|tokens| - 1].name, kind);
    }
  }

  lemma {:induction false} FindAppended(links: seq<NodeLink>, links': seq<NodeLink>, link: NodeLink)
    requires links < links' && Find(links, link.name).None? && links'[|links|] == link
    ensures Find(links', link.name) == Some(link.node)
    decreases |links|
  {
    if |links| > 0 {
      FindAppended(links[1..], links'[1..], link);
    }
  }

  lemma MakeGrows(fs: FsId, d: Disk, dir: Node, name: string, kind: NodeType)
    requires DiskOk(fs, d) && dir.id in d.directories && kind != CharacterDevice
    ensures Grown(d, Make(d, dir, name, kind).0, dir, NodeLink(name, Node(dir.fs, d.counter, kind)))
  {
    if kind == Directory {
      MkdirGrows(fs, d, dir, name);
    } else {
      MknodGrows(fs, d, dir, name);
    }
  }

  /** The node that the next creation under `parent` will make. */
  ghost function Fresh(w: World, parent: Node, kind: NodeType): Node
    requires Acyclic(w.root, w.mounts) && Top(w, parent).fs in w.disks
  {
    Node(Top(w, parent).fs, w.disks[Top(w, parent).fs].counter, kind)
  }

  lemma FreshIsFree(w: World, parent: Node, kind: NodeType)
    requires WorldOk(w) && Top(w, parent).fs in w.disks
    ensures var d := w.disks[Top(w, parent).fs];
            var child := Fresh(w, parent, kind);
            child.id !in d.directories && child.id !in d.files && Top(w, child) == child
  {
    assert DiskAtOk(w, Top(w, parent).fs);
  }

  // One step: the name that was missing is found, and ".." of a new directory leads back.
  lemma NewName(w: World, parent: Node, name: string, kind: NodeType)
    requires WorldOk(w) && kind != CharacterDevice && MakeIn(w, parent, name, kind).1.Ok? && Lookup(w, parent, name).Err?
    ensures Top(w, parent).fs in w.disks
    ensures var w' := MakeIn(w, parent, name, kind).0;
            var child := Fresh(w, parent, kind);
            && Acyclic(w'.root, w'.mounts)
            && Lookup(w', parent, name) == Ok(child)
            && (kind == Directory ==> Lookup(w', child, PARENT) == Ok(Top(w, parent)))
  {
    var dir := Top(w, parent);
    var d := w.disks[dir.fs];
    assert DiskAtOk(w, dir.fs);
    MakeKeepsOk(dir.fs, d, dir, name, kind);
    MakeGrows(dir.fs, d, dir, name, kind);
    FreshIsFree(w, parent, kind);
    var d' := Make(d, dir, name, kind).0;
    var child := Fresh(w, parent, kind);
    FindAppended(d.directories[dir.id], d'.directories[dir.id], NodeLink(name, child));
    if kind == Directory {
      FindParent(child, dir);
    }
  }

  lemma FindParent(self: Node, parent: Node)
    ensures Find(DotLinks(self, parent), PARENT) == Some(parent)
  {
    assert DotLinks(self, parent)[1..] == [NodeLink(PARENT, parent)];
  }

  lemma OneStep(w: World, node: Node, t: PathToken)
    requires Acyclic(w.root, w.mounts)
    ensures Walk(w, node, [t]) == Lookup(w, node, ToStr(t))
  {
    var next := Lookup(w, node, ToStr(t));
    if next.Ok? {
      assert Walk(w, next.value, [t][1..]) == next;
    }
  }

  /** If a path did not resolve and creating it succeeds, it now resolves to a fresh node that no
      mount covers; for a directory, "p/.." is the directory that the parent path leads to. */
  lemma NewPathResolves(w: World, start: Node, tokens: seq<PathToken>, kind: NodeType)
    requires WorldOk(w) && kind != CharacterDevice
    requires MakeAt(w, start, tokens, kind).1.Ok? && Walk(w, start, tokens).Err?
    ensures Walk(w, start, ParentTokens(tokens)).Ok?
    ensures var w' := MakeAt(w, start, tokens, kind).0;
            var parent := Walk(w, start, ParentTokens(tokens)).value;
            && Acyclic(w'.root, w'.mounts) && Top(w, parent).fs in w.disks
            && Walk(w', start, tokens) == Ok(Fresh(w, parent, kind))
            && Top(w', Fresh(w, parent, kind)) == Fresh(w, parent, kind)
            && Fresh(w, parent, kind).id !in w.disks[Top(w, parent).fs].directories
            && Fresh(w, parent, kind).id !in w.disks[Top(w, parent).fs].files
            && (kind == Directory ==> Walk(w', start, tokens + [Parent]) == Ok(Top(w, parent)))
  {
    var w' := MakeAt(w, start, tokens, kind).0;
    var init, parent, name := NewPathParts(w, start, tokens, kind);
    NewName(w, parent, name, kind);
    FreshIsFree(w, parent, kind);
    MakeAtExtends(w, start, tokens, kind);
    WalkStable(w, w', start, init);
    WalkOne(w', start, init, Literal(name));
    WalkOne(w', start, tokens, Parent);
  }

  lemma WalkOne(w: World, start: Node, init: seq<PathToken>, t: PathToken)
    requires Acyclic(w.root, w.mounts)
    ensures Walk(w, start, init + [t]) ==
            var mid := Walk(w, start, init); if mid.Err? then Err else Lookup(w, mid.value, ToStr(t))
  {
    WalkConcat(w, start, init, [t]);
    if Walk(w, start, init).Ok? {
      OneStep(w, Walk(w, start, init).value, t);
    }
  }

  lemma NewPathParts(w: World, start: Node, tokens: seq<PathToken>, kind: NodeType) returns (init: seq<PathToken>, parent: Node, name: string)
    requires WorldOk(w) && MakeAt(w, start, tokens, kind).1.Ok? && Walk(w, start, tokens).Err?
    ensures tokens == init + [Literal(name)] && init == ParentTokens(tokens) && Walk(w, start, init) == Ok(parent)
    ensures Lookup(w, parent, name).Err? && MakeAt(w, start, tokens, kind) == MakeIn(w, parent, name, kind)
  {
    init, name := tokens[..|tokens| - 1], tokens[|tokens| - 1].name;
    assert tokens == init + [Literal(name)];
    parent := Walk(w, start, init).value;
    WalkOne(w, start, init, Literal(name));
  }

  // ---- When creating by path succeeds ----

  /** The path ends in a name other than "." and "..", and what is before it leads to a directory. */
  ghost predicate CanMake(w: World, start: Node, tokens: seq<PathToken>)
    requires Acyclic(w.root, w.mounts)
  {
    && |tokens| > 0 && tokens[|tokens| - 1].Literal?
    && tokens[|tokens| - 1].name != CURRENT && tokens[|tokens| - 1].name != PARENT
    && var parent := Walk(w, start, tokens[..|tokens| - 1]);
       parent.Ok? && IsDirectory(w, Top(w, parent.value))
  }

  /** `mkdir` and `mknod` succeed exactly then; a success grows that directory by the new node and changes nothing
      else, a failure leaves every directory as it was. */
  lemma MakeAtSucceedsExactly(w: World, start: Node, tokens: seq<PathToken>, kind: NodeType)
    requires WorldOk(w) && kind != CharacterDevice
    ensures var (w', r) := MakeAt(w, start, tokens, kind);
            && (r.Ok? <==> CanMake(w, start, tokens))
            && w' == w.(disks := w'.disks) && w'.disks.Keys == w.disks.Keys
            && (r.Ok? ==>
                  var parent := Walk(w, start, tokens[..|tokens| - 1]).value;
                  var dir := Top(w, parent);
                  && (forall fs | fs in w.disks && fs != dir.fs :: w'.disks[fs] == w.disks[fs])
                  && Grown(w.disks[dir.fs], w'.disks[dir.fs], dir, NodeLink(tokens[|tokens| - 1].name, Fresh(w, parent, kind))))
            && (r.Err? ==> forall fs | fs in w.disks :: w'.disks[fs].directories == w.disks[fs].directories)
  {
    var parent := Walk(w, start, ParentTokens(tokens));
    if parent.Ok? && |tokens| > 0 && tokens[|tokens| - 1].Literal? {
      MakeInSucceedsExactly(w, parent.value, tokens[|tokens| - 1].name, kind);
    }
  }

  lemma MakeInSucceedsExactly(w: World, parent: Node, name: string, kind: NodeType)
    requires WorldOk(w) && kind != CharacterDevice
    ensures var (w', r) := MakeIn(w, parent, name, kind);
            var dir := Top(w, parent);
            && (r.Ok? <==> IsDirectory(w, dir) && name != CURRENT && name != PARENT)
            && w' == w.(disks := w'.disks) && w'.disks.Keys == w.disks.Keys
            && (r.Ok? ==>
                  && (forall fs | fs in w.disks && fs != dir.fs :: w'.disks[fs] == w.disks[fs])
                  && Grown(w.disks[dir.fs], w'.disks[dir.fs], dir, NodeLink(name, Fresh(w, parent, kind))))
            && (r.Err? ==> forall fs | fs in w.disks :: w'.disks[fs].directories == w.disks[fs].directories)
  {
    var dir := Top(w, parent);
    assert DiskAtOk(w, dir.fs);
    if dir.fs in w.disks && dir.kind == Directory {
      MakeKeepsOk(dir.fs, w.disks[dir.fs], dir, name, kind);
      if dir.id in w.disks[dir.fs].directories {
        MakeGrows(dir.fs, w.disks[dir.fs], dir, name, kind);
      }
    }
  }

  // ---- Runs ----

  datatype Op = Op(start: Node, tokens: seq<PathToken>, kind: NodeType)

  ghost function Run(w: World, ops: seq<Op>): (w': World)
    requires WorldOk(w)
    ensures WorldOk(w')
    decreases |ops|
  {
    if |ops| == 0 then w
    else
      MakeAtExtends(w, ops[0].start, ops[0].tokens, ops[0].kind);
      Run(MakeAt(w, ops[0].start, ops[0].tokens, ops[0].kind).0, ops[1..])
  }

  /** No run of `mkdir` and `mknod`, with duplicate names and failing calls, ever changes what a path
      that resolved resolves to. */
  lemma {:induction false} RunsKeepPaths(w: World, ops: seq<Op>, node: Node, tokens: seq<PathToken>)
    requires WorldOk(w) && Walk(w, node, tokens).Ok?
    ensures Walk(Run(w, ops), node, tokens) == Walk(w, node, tokens)
    decreases |ops|
  {
    if |ops| > 0 {
      MakeAtExtends(w, ops[0].start, ops[0].tokens, ops[0].kind);
      var w' := MakeAt(w, ops[0].start, ops[0].tokens, ops[0].kind).0;
      WalkStable(w, w', node, tokens);
      RunsKeepPaths(w', ops[1..], node, tokens);
    }
  }

  // ---- Mounting by path ----

  /** `mount` of the file manager. */
  ghost function MountAt(w: World, start: Node, tokens: seq<PathToken>, subtree: FsId): (World, Result<()>)
    requires Acyclic(w.root, w.mounts)
  {
    var point := Walk(w, start, tokens);
    if point.Err? then (w, Err)
    else
      var (mounts, r) := AfterMount(w.root, w.mounts, point.value, subtree);
      (w.(mounts := mounts), r)
  }

  /** A node of an attached file system that has its table entry if it is a directory. */
  ghost predicate Known(w: World, node: Node)
  {
    && Attached(w.root, w.mounts, node.fs)
    && node.fs in w.disks
    && (node.kind == Directory ==> node.id in w.disks[node.fs].directories)
  }

  lemma {:induction false} TopKnown(w: World, node: Node)
    requires WorldOk(w) && Known(w, node)
    ensures Known(w, Top(w, node))
    decreases |w.mounts| + 1 - Rank(w.root, w.mounts, node.fs)
  {
    var m := MountOn(w.mounts, node);
    if m.Some? {
      MountsClimb(w.root, w.mounts, m.value);
      assert MountOk(w, m.value) && DiskAtOk(w, m.value.subtree);
      TopKnown(w, RootNode(m.value.subtree));
    }
  }

  lemma {:induction false} FindIsLink(links: seq<NodeLink>, name: string) returns (k: nat)
    requires Find(links, name).Some?
    ensures k < |links| && links[k].node == Find(links, name).value
  {
    if links[0].name == name {
      k := 0;
    } else {
      var j := FindIsLink(links[1..], name);
      k := j + 1;
    }
  }

  // Every link of a directory leads to a node with its table entry.
  lemma LinkKnown(fs: FsId, d: Disk, id: nat, k: nat)
    requires DiskOk(fs, d) && id in d.directories && k < |d.directories[id]|
    ensures var node := d.directories[id][k].node; node.fs == fs && (node.kind == Directory ==> node.id in d.directories)
  {
    assert DotsOk(fs, d, id);
    if k < 2 {
      assert d.directories[id][k] == d.directories[id][..2][k];
    } else {
      assert ChildOk(fs, d, id, k);
    }
  }

  lemma LookupKnown(w: World, node: Node, name: string)
    requires WorldOk(w) && Known(w, node) && Lookup(w, node, name).Ok?
    ensures Known(w, Lookup(w, node, name).value)
  {
    TopKnown(w, node);
    var dir := Top(w, node);
    assert DiskAtOk(w, dir.fs);
    var links := w.disks[dir.fs].directories[dir.id];
    var k := FindIsLink(links, name);
    LinkKnown(dir.fs, w.disks[dir.fs], dir.id, k);
  }

  lemma {:induction false} WalkKnown(w: World, node: Node, tokens: seq<PathToken>)
    requires WorldOk(w) && Known(w, node) && Walk(w, node, tokens).Ok?
    ensures Known(w, Walk(w, node, tokens).value)
    decreases |tokens|
  {
    if |tokens| > 0 {
      LookupKnown(w, node, ToStr(tokens[0]));
      WalkKnown(w, Lookup(w, node, ToStr(tokens[0])).value, tokens[1..]);
    }
  }

  /** Mounting by path keeps the invariant; after success the path leads through to the new subtree. */
  lemma MountAtKeepsOk(w: World, start: Node, tokens: seq<PathToken>, subtree: FsId)
    requires WorldOk(w) && Known(w, start) && subtree in w.disks && subtree != w.root
    ensures var (w', r) := MountAt(w, start, tokens, subtree);
            && WorldOk(w')
            && (UniquePoints(w.mounts) ==> UniquePoints(w'.mounts))
            && (r.Ok? ==> Walk(w, start, tokens).Ok? && Top(w', Walk(w, start, tokens).value) == RootNode(subtree))
  {
    var point := Walk(w, start, tokens);
    if point.Ok? {
      WalkKnown(w, start, tokens);
      TopKnown(w, point.value);
      MountKeepsOrder(w.root, w.mounts, point.value, subtree);
      var (w', r) := MountAt(w, start, tokens, subtree);
      MountedWorldOk(w, w', Top(w, point.value), subtree);
      if r.Ok? {
        MountCovers(w.root, w.mounts, point.value, subtree);
      }
    }
  }

  lemma MountedWorldOk(w: World, w': World, top: Node, subtree: FsId)
    requires WorldOk(w) && Acyclic(w.root, w'.mounts) && w' == w.(mounts := w'.mounts)
    requires w'.mounts == w.mounts || (w'.mounts == w.mounts + [Mount(top, subtree)] && top.kind == Directory)
    requires Known(w, top) && subtree in w.disks
    ensures WorldOk(w')
  {
    forall fs
      ensures DiskAtOk(w', fs)
    {
      assert DiskAtOk(w, fs);
    }
    forall m | m in w'.mounts
      ensures MountOk(w', m)
    {
      if m in w.mounts {
        assert MountOk(w, m);
      }
    }
  }

  /** Mounting by path succeeds exactly when the path resolves to something covered by a directory, and the
      subtree is not mounted yet; then the table gains exactly that mount. */
  lemma MountAtSucceedsExactly(w: World, start: Node, tokens: seq<PathToken>, subtree: FsId)
    requires Acyclic(w.root, w.mounts)
    ensures var (w', r) := MountAt(w, start, tokens, subtree);
            && (r.Ok? <==>
                  && Walk(w, start, tokens).Ok?
                  && Top(w, Walk(w, start, tokens).value).kind == Directory
                  && forall m | m in w.mounts :: m.subtree != subtree)
            && w' == if r.Ok? then w.(mounts := w.mounts + [Mount(Top(w, Walk(w, start, tokens).value), subtree)]) else w
  {
    var point := Walk(w, start, tokens);
    if point.Ok? {
      MountSucceedsExactly(w.root, w.mounts, point.value, subtree);
    }
  }

  // ---- Names ----

  /** From a known directory a step succeeds exactly when the covering directory lists the name; "." leads to
      that directory itself, and ".." to the one it was created in. */
  lemma StepFromDirectory(w: World, node: Node, t: PathToken)
    requires WorldOk(w) && Known(w, node) && Top(w, node).kind == Directory
    ensures IsDirectory(w, Top(w, node)) && |LinksOfDirectory(w, Top(w, node))| >= 2
    ensures Walk(w, node, [t]).Ok? <==> Names(LinksOfDirectory(w, Top(w, node)), ToStr(t))
    ensures Walk(w, node, [Current]) == Ok(Top(w, node))
    ensures Walk(w, node, [Parent]) ==
            Ok(Node(Top(w, node).fs, ParentId(w.disks[Top(w, node).fs], Top(w, node).id), Directory))
  {
    TopKnown(w, node);
    var dir := Top(w, node);
    assert DiskAtOk(w, dir.fs);
    assert DotsOk(dir.fs, w.disks[dir.fs], dir.id);
    OneStep(w, node, t);
    OneStep(w, node, Current);
    OneStep(w, node, Parent);
    LookupMeaning(w, node, ToStr(t));
    FindDots(LinksOfDirectory(w, dir), dir, LinksOfDirectory(w, dir)[1].node);
  }

  lemma FindDots(links: seq<NodeLink>, self: Node, parent: Node)
    requires |links| >= 2 && links[..2] == DotLinks(self, parent)
    ensures Find(links, CURRENT) == Some(self) && Find(links, PARENT) == Some(parent)
  {
    assert links[0] == links[..2][0] && links[1] == links[..2][1];
    assert links[1..][0] == links[1];
  }

  // The entry behind a name other than "." and "..".
  lemma NamedEntry(w: World, node: Node, name: string) returns (k: nat)
    requires WorldOk(w) && Known(w, node) && Lookup(w, node, name).Ok? && name != CURRENT && name != PARENT
    ensures IsDirectory(w, Top(w, node)) && 2 <= k < |LinksOfDirectory(w, Top(w, node))|
    ensures LinksOfDirectory(w, Top(w, node))[k] == NodeLink(name, Lookup(w, node, name).value)
    ensures Lookup(w, node, name).value.fs == Top(w, node).fs
  {
    TopKnown(w, node);
    LookupMeaning(w, node, name);
    var dir := Top(w, node);
    var links := LinksOfDirectory(w, dir);
    k :| FirstNamed(links, name, k) && links[k].node == Lookup(w, node, name).value;
    assert DiskAtOk(w, dir.fs);
    assert DotsOk(dir.fs, w.disks[dir.fs], dir.id);
    assert links[0] == links[..2][0] && links[1] == links[..2][1];
    assert ChildOk(dir.fs, w.disks[dir.fs], dir.id, k);
  }

  /** One node has one name in one directory: lookups of different names, or in different directories, never
      lead to the same node. */
  lemma NamesAreDistinct(w: World, a: Node, x: string, b: Node, y: string)
    requires WorldOk(w) && Known(w, a) && Known(w, b)
    requires x != CURRENT && x != PARENT && y != CURRENT && y != PARENT
    requires Lookup(w, a, x).Ok? && Lookup(w, b, y).Ok? && SameNode(Lookup(w, a, x).value, Lookup(w, b, y).value)
    ensures SameNode(Top(w, a), Top(w, b)) && x == y
  {
    var j := NamedEntry(w, a, x);
    var k := NamedEntry(w, b, y);
    var fs := Top(w, a).fs;
    assert DiskAtOk(w, fs);
    assert OneName(w.disks[fs], Top(w, a).id, j, Top(w, b).id, k);
  }

  /** Paths that differ in their last name resolve to different nodes. */
  lemma PathsAreDistinct(w: World, start: Node, a: seq<PathToken>, x: string, b: seq<PathToken>, y: string)
    requires WorldOk(w) && Known(w, start) && x != y
    requires x != CURRENT && x != PARENT && y != CURRENT && y != PARENT
    requires Walk(w, start, a + [Literal(x)]).Ok? && Walk(w, start, b + [Literal(y)]).Ok?
    ensures !SameNode(Walk(w, start, a + [Literal(x)]).value, Walk(w, start, b + [Literal(y)]).value)
  {
    WalkOne(w, start, a, Literal(x));
    WalkOne(w, start, b, Literal(y));
    var p, q := Walk(w, start, a).value, Walk(w, start, b).value;
    WalkKnown(w, start, a);
    WalkKnown(w, start, b);
    if SameNode(Lookup(w, p, x).value, Lookup(w, q, y).value) {
      NamesAreDistinct(w, p, x, q, y);
    }
  }

  // ---- From the first file system on ----

  /** Any file systems, none mounted. */
  lemma NewWorldOk(root: FsId, disks: map<FsId, Disk>)
    requires root in disks && forall fs | fs in disks :: DiskOk(fs, disks[fs])
    ensures WorldOk(World(root, [], disks)) && Known(World(root, [], disks), RootNode(root))
  {
    var w := World(root, [], disks);
    forall fs
      ensures DiskAtOk(w, fs)
    {
    }
  }

  /** `VirtualFileSystem::new`: only the private root file system, and it is new. */
  lemma FirstWorldOk(root: FsId)
    ensures WorldOk(World(root, [], map[root := NewDisk(root)]))
  {
    NewDiskOk(root);
    NewWorldOk(root, map[root := NewDisk(root)]);
  }

  datatype Change =
    | NewFs(fs: FsId)                                                 // another file system is created
    | MakeChange(start: Node, tokens: seq<PathToken>, kind: NodeType)
    | MountChange(start: Node, tokens: seq<PathToken>, subtree: FsId)

  /** Paths start at known nodes; what is mounted exists and is not the root file system. */
  ghost predicate CanChange(w: World, c: Change)
  {
    match c
    case NewFs(fs) => fs !in w.disks
    case MakeChange(_, _, _) => true
    case MountChange(start, _, subtree) => Known(w, start) && subtree in w.disks && subtree != w.root
  }

  ghost function Changed(w: World, c: Change): World
    requires Acyclic(w.root, w.mounts)
  {
    match c
    case NewFs(fs) => w.(disks := w.disks[fs := NewDisk(fs)])
    case MakeChange(start, tokens, kind) => MakeAt(w, start, tokens, kind).0
    case MountChange(start, tokens, subtree) => MountAt(w, start, tokens, subtree).0
  }

  lemma NewFsKeepsOk(w: World, fs: FsId)
    requires WorldOk(w) && fs !in w.disks
    ensures WorldOk(w.(disks := w.disks[fs := NewDisk(fs)]))
  {
    NewDiskOk(fs);
    var w' := w.(disks := w.disks[fs := NewDisk(fs)]);
    forall other
      ensures DiskAtOk(w', other)
    {
      assert DiskAtOk(w, other);
    }
    forall m | m in w'.mounts
      ensures MountOk(w', m)
    {
      assert MountOk(w, m);
    }
  }

  lemma ChangeKeepsOk(w: World, c: Change)
    requires WorldOk(w) && UniquePoints(w.mounts) && CanChange(w, c)
    ensures WorldOk(Changed(w, c)) && UniquePoints(Changed(w, c).mounts)
  {
    match c {
      case NewFs(fs) => NewFsKeepsOk(w, fs);
      case MakeChange(start, tokens, kind) => MakeAtExtends(w, start, tokens, kind);
      case MountChange(start, tokens, subtree) => MountAtKeepsOk(w, start, tokens, subtree);
    }
  }

  ghost predicate CanChangeAll(root: FsId, changes: seq<Change>)
    decreases |changes|, 0
  {
    |changes| == 0 ||
    (CanChangeAll(root, changes[..|changes| - 1]) && CanChange(History(root, changes[..|changes| - 1]), changes[|changes| - 1]))
  }

  /** The world after any run of creations and mounts, from the first file system on: its invariant holds and
      no node has two mounts. */
  ghost function History(root: FsId, changes: seq<Change>): (w: World)
    requires CanChangeAll(root, changes)
    ensures WorldOk(w) && UniquePoints(w.mounts)
    decreases |changes|, 1
  {
    if |changes| == 0 then FirstWorldOk(root); World(root, [], map[root := NewDisk(root)])
    else
      var before := History(root, changes[..|changes| - 1]);
      ChangeKeepsOk(before, changes[|changes| - 1]);
      Changed(before, changes[|changes| - 1])
  }
}
