/** The file manager (kernel/src/fs/file_manager.rs): the walk along a path, and what is done at its end. */
module FileManager {
  import opened Wrappers
  import opened Disks
  import opened Paths
  import opened Vfs
  import V = VirtualFileSystem
  import T = Tmpfs

  /** The first link of that name that the directory has yet to read. */
  method Search(directory: T.Directory, name: string) returns (r: Result<Node>)
    requires directory.position == 0
    modifies directory
    ensures directory.node.id !in directory.fs.directories ==> r == Err
    ensures directory.node.id in directory.fs.directories ==>
              var found := Find(directory.fs.directories[directory.node.id], name);
              r == if found.None? then Err else Ok(found.value)
    ensures r.Ok? <==> directory.node.id in directory.fs.directories && Names(directory.fs.directories[directory.node.id], name)
  {
    if directory.node.id in directory.fs.directories {
      FindMeaning(directory.fs.directories[directory.node.id], name);
    }
    ghost var links := if directory.node.id in directory.fs.directories then directory.fs.directories[directory.node.id] else [];
    while true
      invariant directory.node.id in directory.fs.directories ==>
                  directory.position <= |links| && Find(links, name) == Find(links[directory.position..], name)
      invariant directory.node.id !in directory.fs.directories ==> directory.position == 0
      decreases |links| - directory.position
    {
      var link := directory.Readdir();
      if link.Err? {
        return Err;
      }
      if link.value.None? {
        return Err;
      }
      if link.value.value.name == name {
        return Ok(link.value.value.node);
      }
    }
  }

  class FileManager {
    const fileSystem: V.VirtualFileSystem

    constructor (fileSystem: V.VirtualFileSystem)
      ensures this.fileSystem == fileSystem
    {
      this.fileSystem := fileSystem;
    }

    /** One turn of the walk: opens the directory and scans its links. */
    method Step(node: Node, name: string) returns (r: Result<Node>)
      requires fileSystem.Valid()
      ensures r == Lookup(fileSystem.State(), node, name)
    {
      var directory := fileSystem.Opendir(node);
      if directory.Err? {
        return Err;
      }
      r := Search(directory.value, name);
    }

    method Walk(start: Node, tokens: seq<PathToken>) returns (r: Result<Node>)
      requires fileSystem.Valid()
      ensures r == Vfs.Walk(fileSystem.State(), start, tokens)
    {
      var current := start;
      for i := 0 to |tokens|
        invariant Vfs.Walk(fileSystem.State(), start, tokens) == Vfs.Walk(fileSystem.State(), current, tokens[i..])
      {
        assert tokens[i..][0] == tokens[i] && tokens[i..][1..] == tokens[i + 1..];
        var next := Step(current, ToStr(tokens[i]));
        if next.Err? {
          return Err;
        }
        current := next.value;
      }
      return Ok(current);
    }

    method Mkdir(start: Node, tokens: seq<PathToken>) returns (r: Result<()>)
      requires fileSystem.Valid()
      modifies fileSystem.fileSystems.Values
      ensures fileSystem.Valid()
      ensures (fileSystem.State(), r) == MakeAt(old(fileSystem.State()), start, tokens, Directory)
      ensures r.Ok? <==> CanMake(old(fileSystem.State()), start, tokens)
    {
      MakeAtSucceedsExactly(fileSystem.State(), start, tokens, Directory);
      var parent := Walk(start, ParentTokens(tokens));
      if parent.Err? {
        return Err;
      }
      if |tokens| > 0 && tokens[|tokens| - 1].Literal? {
        r := fileSystem.Mkdir(parent.value, tokens[|tokens| - 1].name);
      } else {
        return Err;
      }
    }

    method Mknod(start: Node, tokens: seq<PathToken>) returns (r: Result<()>)
      requires fileSystem.Valid()
      modifies fileSystem.fileSystems.Values
      ensures fileSystem.Valid()
      ensures (fileSystem.State(), r) == MakeAt(old(fileSystem.State()), start, tokens, File)
      ensures r.Ok? <==> CanMake(old(fileSystem.State()), start, tokens)
    {
      MakeAtSucceedsExactly(fileSystem.State(), start, tokens, File);
      var parent := Walk(start, ParentTokens(tokens));
      if parent.Err? {
        return Err;
      }
      if |tokens| > 0 && tokens[|tokens| - 1].Literal? {
        r := fileSystem.Mknod(parent.value, tokens[|tokens| - 1].name);
      } else {
        return Err;
      }
    }

    method Mount(start: Node, tokens: seq<PathToken>, subtree: FsId) returns (r: Result<()>)
      requires fileSystem.Valid() && Known(fileSystem.State(), start)
      requires subtree in fileSystem.fileSystems && subtree != fileSystem.rootFileSystem
      modifies fileSystem
      ensures fileSystem.Valid()
      ensures (fileSystem.State(), r) == MountAt(old(fileSystem.State()), start, tokens, subtree)
      ensures r.Ok? <==>
              var w := old(fileSystem.State());
              && Vfs.Walk(w, start, tokens).Ok?
              && Top(w, Vfs.Walk(w, start, tokens).value).kind == Directory
              && forall m | m in w.mounts :: m.subtree != subtree
    {
      MountAtSucceedsExactly(fileSystem.State(), start, tokens, subtree);
      MountAtKeepsOk(fileSystem.State(), start, tokens, subtree);
      var point := Walk(start, tokens);
      if point.Err? {
        return Err;
      }
      r := fileSystem.Mount(point.value, subtree);
    }

    /** `open`: the file stands at the node that the path leads to, through any mount. */
    method Open(start: Node, tokens: seq<PathToken>) returns (r: Result<T.File>)
      requires fileSystem.Valid()
      ensures var node := Vfs.Walk(fileSystem.State(), start, tokens);
              && (r.Ok? <==> node.Ok? && Top(fileSystem.State(), node.value).kind != Directory && Top(fileSystem.State(), node.value).fs in fileSystem.fileSystems)
              && (r.Ok? ==>
                    && fresh(r.value)
                    && r.value.node == Top(fileSystem.State(), node.value) && r.value.position == 0
                    && r.value.fs == fileSystem.fileSystems[r.value.node.fs])
    {
      var node := Walk(start, tokens);
      if node.Err? {
        return Err;
      }
      r := fileSystem.Open(node.value);
    }
  }
}
