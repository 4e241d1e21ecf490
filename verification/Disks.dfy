/** The state of a temporary file system (kernel/src/fs/tmpfs.rs), the tree that it keeps, and node identity (kernel/src/fs/node.rs). */
module Disks {
  import opened Wrappers
  import opened PhysicalMemory

  const CURRENT: string := "."
  const PARENT: string := ".."

  /** The identity of a file system: what comparing its pointers compares. */
  type FsId = nat

  datatype NodeType = CharacterDevice | Directory | File

  datatype Node = Node(fs: FsId, id: nat, kind: NodeType)

  datatype NodeLink = NodeLink(name: string, node: Node)

  /** `Node` equality: the type does not count. */
  predicate SameNode(a: Node, b: Node)
  {
    a.fs == b.fs && a.id == b.id
  }

  /** The state of one file system. */
  datatype Disk = Disk(counter: nat, directories: map<nat, seq<NodeLink>>, files: map<nat, seq<Byte>>)

  function RootNode(fs: FsId): Node { Node(fs, 0, Directory) }

  function DotLinks(self: Node, parent: Node): seq<NodeLink>
  {
    [NodeLink(CURRENT, self), NodeLink(PARENT, parent)]
  }

  function NewDisk(fs: FsId): Disk
  {
    Disk(1, map[0 := DotLinks(RootNode(fs), RootNode(fs))], map[])
  }

  /** `mkdir`: the counter advances even on failure, and the new link is pushed twice. */
  function AfterMkdir(d: Disk, dir: Node, name: string): (Disk, Result<()>)
  {
    var child := Node(dir.fs, d.counter, Directory);
    var counted := d.(counter := d.counter + 1);
    if dir.id !in d.directories then (counted, Err)
    else
      var linked := d.directories[dir.id := d.directories[dir.id] + [NodeLink(name, child)]];
      var made := linked[d.counter := DotLinks(child, dir)];
      (counted.(directories := made[dir.id := made[dir.id] + [NodeLink(name, child)]]), Ok(()))
  }

  /** `mknod`: the counter advances and the file exists even on failure. */
  function AfterMknod(d: Disk, dir: Node, name: string): (Disk, Result<()>)
  {
    var child := Node(dir.fs, d.counter, File);
    var made := d.(counter := d.counter + 1, files := d.files[d.counter := []]);
    if dir.id !in d.directories then (made, Err)
    else (made.(directories := d.directories[dir.id := d.directories[dir.id] + [NodeLink(name, child)]]), Ok(()))
  }

  // ---- The tree invariant ----

  /** "." is the directory itself; ".." is a directory with a smaller id, or the root for the root. */
  ghost predicate DotsOk(fs: FsId, d: Disk, id: nat)
  {
    && id in d.directories
    && |d.directories[id]| >= 2
    && var parent := d.directories[id][1].node;
       && d.directories[id][..2] == DotLinks(Node(fs, id, Directory), parent)
       && parent == Node(fs, parent.id, Directory)
       && parent.id in d.directories
       && (if id == 0 then parent.id == 0 else parent.id < id)
  }

  function ParentId(d: Disk, id: nat): nat
    requires id in d.directories && |d.directories[id]| >= 2
  {
    d.directories[id][1].node.id
  }

  /** Entry `k` of directory `id` names a child: it has its table entry, and a child directory's ".." leads back. */
  ghost predicate ChildOk(fs: FsId, d: Disk, id: nat, k: nat)
  {
    && id in d.directories && k < |d.directories[id]|
    && var child := d.directories[id][k].node;
       && child.fs == fs && id < child.id < d.counter
       && (child.kind == Directory ==>
             child.id in d.directories && |d.directories[child.id]| >= 2 && ParentId(d, child.id) == id)
       && (child.kind != Directory ==> child.kind == File && child.id in d.files)
  }

  /** The directory that ".." names lists this one. */
  ghost predicate Listed(d: Disk, id: nat)
  {
    && id in d.directories && |d.directories[id]| >= 2 && ParentId(d, id) in d.directories
    && exists k :: 2 <= k < |d.directories[ParentId(d, id)]| && d.directories[ParentId(d, id)][k].node.id == id
  }

  /** Two entries for one node are in one directory, under one name. */
  ghost predicate OneName(d: Disk, a: nat, j: nat, b: nat, k: nat)
  {
    a in d.directories && b in d.directories && j < |d.directories[a]| && k < |d.directories[b]| &&
    d.directories[a][j].node.id == d.directories[b][k].node.id ==>
      a == b && d.directories[a][j] == d.directories[b][k]
  }

  ghost predicate DiskOk(fs: FsId, d: Disk)
  {
    && 0 in d.directories && 0 < d.counter
    && (forall id | id in d.directories :: id < d.counter && id !in d.files)
    && (forall id | id in d.files :: id < d.counter)
    && (forall id {:trigger DotsOk(fs, d, id)} | id in d.directories :: DotsOk(fs, d, id))
    && (forall id, k: nat {:trigger ChildOk(fs, d, id, k)} | id in d.directories && 2 <= k < |d.directories[id]| :: ChildOk(fs, d, id, k))
    && (forall id {:trigger Listed(d, id)} | id in d.directories && id != 0 :: Listed(d, id))
    && (forall a, j: nat, b, k: nat {:trigger OneName(d, a, j, b, k)} | 2 <= j && 2 <= k :: OneName(d, a, j, b, k))
  }

  lemma NewDiskOk(fs: FsId)
    ensures DiskOk(fs, NewDisk(fs))
  {
  }

  // ---- Every operation keeps it ----

  /** What creating a child leaves: the list of `dir` grows at its end by links to the new node
      `link.node`, and that node gets its table entry; nothing else changes. */
  ghost predicate Grown(d: Disk, d': Disk, dir: Node, link: NodeLink)
  {
    && dir.id in d.directories && dir.id in d'.directories
    && d'.counter == d.counter + 1
    && link.node.fs == dir.fs && link.node.id == d.counter && link.node.kind != CharacterDevice
    && d.directories[dir.id] < d'.directories[dir.id]
    && (forall k | |d.directories[dir.id]| <= k < |d'.directories[dir.id]| :: d'.directories[dir.id][k] == link)
    && (forall id | id in d.directories && id != dir.id :: id in d'.directories && d'.directories[id] == d.directories[id])
    && (if link.node.kind == Directory
        then && d'.directories.Keys == d.directories.Keys + {d.counter} && d'.files == d.files
             && d'.directories[d.counter] == DotLinks(link.node, dir)
        else d'.directories.Keys == d.directories.Keys && d'.files == d.files[d.counter := []])
  }

  lemma MkdirGrows(fs: FsId, d: Disk, dir: Node, name: string)
    requires DiskOk(fs, d) && dir.id in d.directories
    ensures AfterMkdir(d, dir, name).1.Ok?
    ensures Grown(d, AfterMkdir(d, dir, name).0, dir, NodeLink(name, Node(dir.fs, d.counter, Directory)))
  {
  }

  lemma MknodGrows(fs: FsId, d: Disk, dir: Node, name: string)
    requires DiskOk(fs, d) && dir.id in d.directories
    ensures AfterMknod(d, dir, name).1.Ok?
    ensures Grown(d, AfterMknod(d, dir, name).0, dir, NodeLink(name, Node(dir.fs, d.counter, File)))
  {
  }

  /** On a missing directory the calls fail: `mkdir` only uses up an id, `mknod` leaves an empty file without a name. */
  lemma MissingDirectoryFails(d: Disk, dir: Node, name: string)
    requires dir.id !in d.directories
    ensures AfterMkdir(d, dir, name) == (d.(counter := d.counter + 1), Err)
    ensures AfterMknod(d, dir, name) == (d.(counter := d.counter + 1, files := d.files[d.counter := []]), Err)
  {
  }

  lemma GrownDots(fs: FsId, d: Disk, d': Disk, dir: Node, link: NodeLink, id: nat)
    requires DiskOk(fs, d) && dir == Node(fs, dir.id, Directory) && Grown(d, d', dir, link) && id in d'.directories
    ensures DotsOk(fs, d', id)
  {
    if id in d.directories {
      assert DotsOk(fs, d, id);
      assert d'.directories[id][..2] == d.directories[id][..2];
    } else {
      assert d'.directories[id][..2] == d'.directories[id];
    }
  }

  lemma GrownChild(fs: FsId, d: Disk, d': Disk, dir: Node, link: NodeLink, id: nat, k: nat)
    requires DiskOk(fs, d) && dir == Node(fs, dir.id, Directory) && Grown(d, d', dir, link)
    requires id in d'.directories && 2 <= k < |d'.directories[id]|
    ensures ChildOk(fs, d', id, k)
  {
    assert id in d.directories;
    if k < |d.directories[id]| {
      assert ChildOk(fs, d, id, k);
      assert d'.directories[id][k] == d.directories[id][k];
    }
  }

  lemma GrownLists(fs: FsId, d: Disk, d': Disk, dir: Node, link: NodeLink, id: nat)
    requires DiskOk(fs, d) && dir == Node(fs, dir.id, Directory) && Grown(d, d', dir, link)
    requires id in d'.directories && id != 0
    ensures Listed(d', id)
  {
    GrownDots(fs, d, d', dir, link, id);
    if id in d.directories {
      var p := ParentId(d, id);
      assert DotsOk(fs, d, id) && Listed(d, id);
      var k :| 2 <= k < |d.directories[p]| && d.directories[p][k].node.id == id;
      assert d'.directories[p][k] == d.directories[p][k];
    } else {
      var k := |d.directories[dir.id]|;
      assert DotsOk(fs, d, dir.id);
      assert d'.directories[dir.id][k] == link;
    }
  }

  lemma GrownOneName(fs: FsId, d: Disk, d': Disk, dir: Node, link: NodeLink, a: nat, j: nat, b: nat, k: nat)
    requires DiskOk(fs, d) && dir == Node(fs, dir.id, Directory) && Grown(d, d', dir, link) && 2 <= j && 2 <= k
    ensures OneName(d', a, j, b, k)
  {
    if a in d'.directories && b in d'.directories && j < |d'.directories[a]| && k < |d'.directories[b]| {
      EntryOrigin(fs, d, d', dir, link, a, j);
      EntryOrigin(fs, d, d', dir, link, b, k);
      assert OneName(d, a, j, b, k);
    }
  }

  // Each entry of the grown disk is an old one, with an old id, or the new one.
  lemma EntryOrigin(fs: FsId, d: Disk, d': Disk, dir: Node, link: NodeLink, id: nat, k: nat)
    requires DiskOk(fs, d) && dir == Node(fs, dir.id, Directory) && Grown(d, d', dir, link)
    requires id in d'.directories && 2 <= k < |d'.directories[id]|
    ensures id in d.directories
    ensures if k < |d.directories[id]| then d'.directories[id][k] == d.directories[id][k] && d.directories[id][k].node.id < d.counter
            else id == dir.id && d'.directories[id][k] == link
  {
    if id in d.directories && k < |d.directories[id]| {
      assert ChildOk(fs, d, id, k);
    }
  }

  lemma GrownOk(fs: FsId, d: Disk, d': Disk, dir: Node, link: NodeLink)
    requires DiskOk(fs, d) && dir == Node(fs, dir.id, Directory) && Grown(d, d', dir, link)
    ensures DiskOk(fs, d')
  {
    forall id | id in d'.directories
      ensures DotsOk(fs, d', id)
    {
      GrownDots(fs, d, d', dir, link, id);
    }
    forall id, k: nat | id in d'.directories && 2 <= k < |d'.directories[id]|
      ensures ChildOk(fs, d', id, k)
    {
      GrownChild(fs, d, d', dir, link, id, k);
    }
    forall id | id in d'.directories && id != 0
      ensures Listed(d', id)
    {
      GrownLists(fs, d, d', dir, link, id);
    }
    forall a: nat, j: nat, b: nat, k: nat | 2 <= j && 2 <= k
      ensures OneName(d', a, j, b, k)
    {
      GrownOneName(fs, d, d', dir, link, a, j, b, k);
    }
  }

  // The counter, file contents and files without a name do not touch the tree.
  lemma SameDirectoriesOk(fs: FsId, d: Disk, d': Disk)
    requires DiskOk(fs, d) && d'.directories == d.directories && d.counter <= d'.counter
    requires d.files.Keys <= d'.files.Keys && forall id | id in d'.files :: id < d'.counter && id !in d.directories
    ensures DiskOk(fs, d')
  {
    forall id | id in d'.directories
      ensures DotsOk(fs, d', id)
    {
      assert DotsOk(fs, d, id);
    }
    forall id, k: nat | id in d'.directories && 2 <= k < |d'.directories[id]|
      ensures ChildOk(fs, d', id, k)
    {
      assert ChildOk(fs, d, id, k);
    }
    forall id | id in d'.directories && id != 0
      ensures Listed(d', id)
    {
      assert Listed(d, id);
    }
    forall a: nat, j: nat, b: nat, k: nat | 2 <= j && 2 <= k
      ensures OneName(d', a, j, b, k)
    {
      assert OneName(d, a, j, b, k);
    }
  }

  lemma MkdirKeepsOk(fs: FsId, d: Disk, dir: Node, name: string)
    requires DiskOk(fs, d) && dir == Node(fs, dir.id, Directory)
    ensures DiskOk(fs, AfterMkdir(d, dir, name).0)
  {
    if dir.id in d.directories {
      MkdirGrows(fs, d, dir, name);
      GrownOk(fs, d, AfterMkdir(d, dir, name).0, dir, NodeLink(name, Node(dir.fs, d.counter, Directory)));
    } else {
      SameDirectoriesOk(fs, d, AfterMkdir(d, dir, name).0);
    }
  }

  lemma MknodKeepsOk(fs: FsId, d: Disk, dir: Node, name: string)
    requires DiskOk(fs, d) && dir == Node(fs, dir.id, Directory)
    ensures DiskOk(fs, AfterMknod(d, dir, name).0)
  {
    if dir.id in d.directories {
      MknodGrows(fs, d, dir, name);
      GrownOk(fs, d, AfterMknod(d, dir, name).0, dir, NodeLink(name, Node(dir.fs, d.counter, File)));
    } else {
      SameDirectoriesOk(fs, d, AfterMknod(d, dir, name).0);
    }
  }

  // ---- Whole runs ----

  datatype Op = MkdirOp(dir: nat, name: string) | MknodOp(dir: nat, name: string)

  function Step(fs: FsId, d: Disk, op: Op): Disk
  {
    match op
    case MkdirOp(dir, name) => AfterMkdir(d, Node(fs, dir, Directory), name).0
    case MknodOp(dir, name) => AfterMknod(d, Node(fs, dir, Directory), name).0
  }

  function Run(fs: FsId, ops: seq<Op>): Disk
  {
    if |ops| == 0 then NewDisk(fs) else Step(fs, Run(fs, ops[..|ops| - 1]), ops[|ops| - 1])
  }

  /** The tree invariant holds after every run, failing calls included. */
  lemma {:induction false} RunKeepsTree(fs: FsId, ops: seq<Op>)
    ensures DiskOk(fs, Run(fs, ops))
  {
    if |ops| == 0 {
      NewDiskOk(fs);
    } else {
      var d := Run(fs, ops[..|ops| - 1]);
      RunKeepsTree(fs, ops[..|ops| - 1]);
      match ops[|ops| - 1]
      case MkdirOp(dir, name) => MkdirKeepsOk(fs, d, Node(fs, dir, Directory), name);
      case MknodOp(dir, name) => MknodKeepsOk(fs, d, Node(fs, dir, Directory), name);
    }
  }

  /** The directory reached by following ".." `n` times. */
  ghost function Up(fs: FsId, d: Disk, id: nat, n: nat): (r: nat)
    requires DiskOk(fs, d) && id in d.directories
    ensures r in d.directories
    decreases n
  {
    if n == 0 then id
    else
      assert DotsOk(fs, d, id);
      Up(fs, d, ParentId(d, id), n - 1)
  }

  /** From every directory the ".." links reach the root, in at most as many steps as its id. */
  lemma {:induction false} ParentsReachRoot(fs: FsId, d: Disk, id: nat, n: nat)
    requires DiskOk(fs, d) && id in d.directories && id <= n
    ensures Up(fs, d, id, n) == 0
    decreases n
  {
    if n > 0 {
      assert DotsOk(fs, d, id);
      ParentsReachRoot(fs, d, ParentId(d, id), n - 1);
    }
  }
}
