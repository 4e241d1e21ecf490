/** The classes of kernel/src/fs/virtual_file_system.rs and kernel/src/fs/file_manager.rs, proved against the
    world on values. Every mutex makes its critical section atomic. */
module VirtualFileSystem {
  import opened Wrappers
  import opened Disks
  import opened Mounts
  import opened Vfs
  import T = Tmpfs

  class VirtualFileSystem {
    const rootFileSystem: FsId
    const fileSystems: map<FsId, T.Tmpfs>
    var mounts: seq<Mount>

    /** `VirtualFileSystem::new`: creates the private root file system. `others` are the file systems that
        exist beside it and may be mounted later. */
    constructor (root: FsId, others: map<FsId, T.Tmpfs>)
      requires root !in others && forall fs | fs in others :: others[fs].id == fs && others[fs].Valid()
      ensures Valid() && rootFileSystem == root && mounts == []
      ensures fileSystems.Keys == others.Keys + {root} && forall fs | fs in others :: fileSystems[fs] == others[fs]
      ensures fresh(fileSystems[root]) && fileSystems[root].State() == NewDisk(root)
    {
      var rootFs := new T.Tmpfs(root);
      rootFileSystem := root;
      fileSystems := others[root := rootFs];
      mounts := [];
      new;
      NewWorldOk(root, State().disks);
    }

    ghost function State(): World
      reads this, fileSystems.Values
    {
      World(rootFileSystem, mounts, map fs | fs in fileSystems :: fileSystems[fs].State())
    }

    ghost predicate Valid()
      reads this, fileSystems.Values
    {
      WorldOk(State()) && forall fs | fs in fileSystems :: fileSystems[fs].id == fs
    }

    /** `resolve_subtree` */
    method ResolveSubtree(start: Node) returns (node: Node, changed: bool)
      requires Acyclic(rootFileSystem, mounts)
      ensures node == Subtree(rootFileSystem, mounts, start)
      ensures changed <==> !SameNode(node, start)
    {
      ResolversIdempotent(rootFileSystem, mounts, start);
      node, changed := start, false;
      var mount := MountOn(mounts, node);
      while mount.Some?
        invariant mount == MountOn(mounts, node)
        invariant Subtree(rootFileSystem, mounts, node) == Subtree(rootFileSystem, mounts, start)
        invariant if changed then MountOn(mounts, start).Some? else node == start
        decreases |mounts| + 1 - Rank(rootFileSystem, mounts, node.fs)
      {
        MountsClimb(rootFileSystem, mounts, mount.value);
        node, changed := RootNode(mount.value.subtree), true;
        mount := MountOn(mounts, node);
      }
    }

    /** `resolve_mount_point` */
    method ResolveMountPoint(start: Node) returns (node: Node, changed: bool)
      requires Acyclic(rootFileSystem, mounts)
      ensures node == MountPoint(rootFileSystem, mounts, start)
      ensures changed <==> !SameNode(node, start)
    {
      ResolversIdempotent(rootFileSystem, mounts, start);
      node, changed := start, false;
      while true
        invariant MountPoint(rootFileSystem, mounts, node) == MountPoint(rootFileSystem, mounts, start)
        invariant if changed then GoesDown(mounts, start) else node == start
        decreases Rank(rootFileSystem, mounts, node.fs)
      {
        if !SameNode(node, RootNode(node.fs)) {
          break;
        }
        var mount := MountOf(mounts, node.fs);
        if mount.Some? {
          MountsClimb(rootFileSystem, mounts, mount.value);
          node, changed := mount.value.point, true;
        } else {
          break;
        }
      }
    }

    /** `mount`, with no other call in between. */
    method Mount(point: Node, subtree: FsId) returns (r: Result<()>)
      requires Acyclic(rootFileSystem, mounts)
      modifies this
      ensures (mounts, r) == AfterMount(rootFileSystem, old(mounts), point, subtree)
      ensures r.Ok? <==>
              Subtree(rootFileSystem, old(mounts), point).kind == Directory && forall m | m in old(mounts) :: m.subtree != subtree
      ensures State() == old(State()).(mounts := mounts)
    {
      var node, changed := ResolveSubtree(point);
      if node.kind != Directory {
        return Err;
      }
      if MountOf(mounts, subtree).Some? {
        return Err;
      }
      mounts := mounts + [Mounts.Mount(node, subtree)];
      return Ok(());
    }

    method Mkdir(parent: Node, name: string) returns (r: Result<()>)
      requires Valid()
      modifies fileSystems.Values
      ensures Valid()
      ensures (State(), r) == MakeIn(old(State()), parent, name, Directory)
    {
      MakeInExtends(State(), parent, name, Directory);
      var dir, changed := ResolveSubtree(parent);
      if dir.kind != Directory || name == CURRENT || name == PARENT || dir.fs !in fileSystems {
        return Err;
      }
      assert DiskAtOk(State(), dir.fs);
      r := MkdirOn(dir, name);
    }

    method MkdirOn(dir: Node, name: string) returns (r: Result<()>)
      requires dir.fs in fileSystems && fileSystems[dir.fs].Valid() && dir == Node(dir.fs, dir.id, Directory)
      requires forall fs | fs in fileSystems :: fileSystems[fs].id == fs
      modifies fileSystems.Values
      ensures var d := old(State()).disks[dir.fs];
              && State() == old(State()).(disks := old(State()).disks[dir.fs := Make(d, dir, name, Directory).0])
              && r == Make(d, dir, name, Directory).1
    {
      r := fileSystems[dir.fs].Mkdir(dir, name);
      assert State().disks == old(State()).disks[dir.fs := fileSystems[dir.fs].State()];
    }

    method Mknod(parent: Node, name: string) returns (r: Result<()>)
      requires Valid()
      modifies fileSystems.Values
      ensures Valid()
      ensures (State(), r) == MakeIn(old(State()), parent, name, File)
    {
      MakeInExtends(State(), parent, name, File);
      var dir, changed := ResolveSubtree(parent);
      if dir.kind != Directory || name == CURRENT || name == PARENT || dir.fs !in fileSystems {
        return Err;
      }
      assert DiskAtOk(State(), dir.fs);
      r := MknodOn(dir, name);
    }

    method MknodOn(dir: Node, name: string) returns (r: Result<()>)
      requires dir.fs in fileSystems && fileSystems[dir.fs].Valid() && dir == Node(dir.fs, dir.id, Directory)
      requires forall fs | fs in fileSystems :: fileSystems[fs].id == fs
      modifies fileSystems.Values
      ensures var d := old(State()).disks[dir.fs];
              && State() == old(State()).(disks := old(State()).disks[dir.fs := Make(d, dir, name, File).0])
              && r == Make(d, dir, name, File).1
    {
      r := fileSystems[dir.fs].Mknod(dir, name);
      assert State().disks == old(State()).disks[dir.fs := fileSystems[dir.fs].State()];
    }

    method Opendir(node: Node) returns (r: Result<T.Directory>)
      requires Valid()
      ensures var dir := Top(State(), node);
              && (r.Ok? <==> dir.kind == Directory && dir.fs in fileSystems)
              && (r.Ok? ==> fresh(r.value) && r.value.fs == fileSystems[dir.fs] && r.value.node == dir && r.value.position == 0)
    {
      var dir, changed := ResolveSubtree(node);
      if dir.kind != Directory || dir.fs !in fileSystems {
        return Err;
      }
      var directory := new T.Directory(fileSystems[dir.fs], dir);
      return Ok(directory);
    }

    method Open(node: Node) returns (r: Result<T.File>)
      requires Valid()
      ensures var top := Top(State(), node);
              && (r.Ok? <==> top.kind != Directory && top.fs in fileSystems)
              && (r.Ok? ==> fresh(r.value) && r.value.fs == fileSystems[top.fs] && r.value.node == top && r.value.position == 0)
    {
      var top, changed := ResolveSubtree(node);
      if top.kind == Directory || top.fs !in fileSystems {
        return Err;
      }
      var file := new T.File(fileSystems[top.fs], top);
      return Ok(file);
    }
  }
}
