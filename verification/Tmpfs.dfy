/** The classes of kernel/src/fs/tmpfs.rs, kernel/src/fs/file.rs and kernel/src/fs/directory.rs, proved against the
    disk and file contents on values. The mutexes make each call atomic. */
module Tmpfs {
  import opened Wrappers
  import opened Disks
  import opened FileContents

  class Tmpfs {
    const id: FsId
    var nodeCounter: nat
    var directories: map<nat, seq<NodeLink>>
    var files: map<nat, Bytes>

    ghost function State(): Disk
      reads this
    {
      Disk(nodeCounter, directories, files)
    }

    ghost predicate Valid()
      reads this
    {
      DiskOk(id, State())
    }

    constructor (id: FsId)
      ensures this.id == id && State() == NewDisk(id) && Valid()
    {
      NewDiskOk(id);
      this.id := id;
      nodeCounter := 1;
      directories := map[0 := DotLinks(RootNode(id), RootNode(id))];
      files := map[];
    }

    method Mkdir(dir: Node, name: string) returns (r: Result<()>)
      requires Valid() && dir == Node(id, dir.id, Directory)
      modifies this
      ensures Valid()
      ensures (State(), r) == AfterMkdir(old(State()), dir, name)
    {
      MkdirKeepsOk(id, State(), dir, name);
      var nodeId := nodeCounter;
      nodeCounter := nodeCounter + 1;
      var child := Node(dir.fs, nodeId, Directory);
      if dir.id !in directories {
        return Err;
      }
      directories := directories[dir.id := directories[dir.id] + [NodeLink(name, child)]];
      directories := directories[nodeId := DotLinks(child, dir)];
      directories := directories[dir.id := directories[dir.id] + [NodeLink(name, child)]];
      return Ok(());
    }

    method Mknod(dir: Node, name: string) returns (r: Result<()>)
      requires Valid() && dir == Node(id, dir.id, Directory)
      modifies this
      ensures Valid()
      ensures (State(), r) == AfterMknod(old(State()), dir, name)
    {
      MknodKeepsOk(id, State(), dir, name);
      var nodeId := nodeCounter;
      nodeCounter := nodeCounter + 1;
      var child := Node(dir.fs, nodeId, File);
      files := files[nodeId := []];
      if dir.id !in directories {
        return Err;
      }
      directories := directories[dir.id := directories[dir.id] + [NodeLink(name, child)]];
      return Ok(());
    }

    method Readdir(node: Node, position: nat) returns (r: Result<Option<NodeLink>>)
      ensures r.Ok? <==> node.id in directories
      ensures r.Ok? ==>
                r.value == if position < |directories[node.id]| then Some(directories[node.id][position]) else None
    {
      if node.id !in directories {
        return Err;
      }
      if position < |directories[node.id]| {
        return Ok(Some(directories[node.id][position]));
      }
      return Ok(None);
    }

    method Read(node: Node, position: nat, count: nat) returns (r: Result<Bytes>)
      requires node.id in files ==> position <= |files[node.id]|
      ensures r == if node.id in files then Ok(ReadAt(files[node.id], position, count)) else Err
    {
      if node.id !in files {
        return Err;
      }
      var end := position + count;
      if end > |files[node.id]| {
        end := |files[node.id]|;
      }
      return Ok(files[node.id][position..end]);
    }

    method Write(node: Node, position: nat, buf: Bytes) returns (r: Result<nat>)
      requires Valid()
      modifies this`files
      ensures Valid()
      ensures r == if node.id in old(files) then Ok(|buf|) else Err
      ensures files == if r.Ok? then old(files)[node.id := WriteAt(old(files)[node.id], position, buf)] else old(files)
    {
      if node.id !in files {
        return Err;
      }
      var file := files[node.id];
      var end := position + |buf|;
      if end > |file| {
        file := file + Zeros(end - |file|);
      }
      files := files[node.id := file[..position] + buf + file[end..]];
      SameDirectoriesOk(id, old(State()), State());
      return Ok(|buf|);
    }
  }

  /** An open file: a node and a cursor. */
  class File {
    const fs: Tmpfs
    const node: Node
    var position: nat

    constructor (fs: Tmpfs, node: Node)
      ensures this.fs == fs && this.node == node && position == 0
    {
      this.fs, this.node, position := fs, node, 0;
    }

    /** The file and this cursor as one handle over it. */
    ghost function View(): Open
      reads this, fs
      requires node.id in fs.files
    {
      OneHandle(fs.files[node.id], position)
    }

    method Seek(position: nat) returns (r: Result<()>)
      modifies this
      ensures r == Ok(()) && this.position == position
      ensures node.id in fs.files ==> View() == FileContents.Step(old(View()), FileContents.Seek(0, position)).0
    {
      this.position := position;
      return Ok(());
    }

    method Read(count: nat) returns (r: Result<Bytes>)
      requires node.id in fs.files ==> position <= |fs.files[node.id]|
      modifies this
      ensures r.Ok? <==> node.id in fs.files
      ensures r.Ok? ==> r.value == ReadAt(fs.files[node.id], old(position), count) && position == old(position) + |r.value|
      ensures r.Ok? ==> var (view, buf) := FileContents.Step(old(View()), FileContents.Read(0, count)); View() == view && r.value == buf
      ensures r.Err? ==> position == old(position)
    {
      r := fs.Read(node, position, count);
      if r.Ok? {
        position := position + |r.value|;
      }
    }

    method Write(buf: Bytes) returns (r: Result<nat>)
      requires fs.Valid()
      modifies this, fs`files
      ensures fs.Valid()
      ensures r == if node.id in old(fs.files) then Ok(|buf|) else Err
      ensures r.Ok? ==> node.id in fs.files && View() == FileContents.Step(old(View()), FileContents.Write(0, buf)).0
      ensures r.Err? ==> fs.files == old(fs.files) && position == old(position)
      ensures forall id | id in old(fs.files) && id != node.id :: id in fs.files && fs.files[id] == old(fs.files)[id]
    {
      r := fs.Write(node, position, buf);
      if r.Ok? {
        position := position + r.value;
      }
    }
  }

  /** An open directory: a node and a cursor over its links. */
  class Directory {
    const fs: Tmpfs
    const node: Node
    var position: nat

    constructor (fs: Tmpfs, node: Node)
      ensures this.fs == fs && this.node == node && position == 0
    {
      this.fs, this.node, position := fs, node, 0;
    }

    method Readdir() returns (r: Result<Option<NodeLink>>)
      modifies this
      ensures r.Ok? <==> node.id in fs.directories
      ensures r.Ok? ==>
                var links := fs.directories[node.id];
                r.value == if old(position) < |links| then Some(links[old(position)]) else None
      ensures position == if r.Ok? then old(position) + 1 else old(position)
    {
      r := fs.Readdir(node, position);
      if r.Ok? {
        position := position + 1;
      }
    }
  }
}
