/**
 Mounting devices and creating files on the inode tree (fs/vfs.c:70-93, 194-210; fs/devfs.c:18-44, 97-118;
 syscall/syscalls.c:137-179).
 */
module VfsOps {

  import opened Basics
  import opened Paths
  import opened Vfs
  import opened Volumes
  import Ext2Dir

  // ---- mounting ----------------------------------------------------------------------------------

  /** Node `mount` takes the place of child k of p. */
  function Mounted(nodes: Nodes, p: Ref, ks: seq<Ref>, k: nat, mount: Ref): Nodes
    requires p in nodes && Children(nodes, p, ks) && k < |ks| && mount in nodes
  {
    var to := nodes[ks[k]];
    var moved := nodes[mount := nodes[mount].(siblings := to.siblings, parent := to.parent, name := to.name)];
    if k == 0 then moved[p := moved[p].(children := mount)]
    else moved[ks[k - 1] := moved[ks[k - 1]].(siblings := mount)]
  }

  function Replaced(ks: seq<Ref>, k: nat, r: Ref): seq<Ref>
    requires k < |ks|
  {
    ks[k := r]
  }

  /** Exactly one child is replaced; the order and the names of the list stay. */
  lemma MountedList(nodes: Nodes, p: Ref, ks: seq<Ref>, k: nat, mount: Ref)
    requires ListOk(nodes, p, ks) && k < |ks| && mount in nodes && mount !in ks && mount != p && p !in ks
    ensures ListOk(Mounted(nodes, p, ks, k, mount), p, Replaced(ks, k, mount))
    ensures forall i: nat | i < |ks| :: NameOf(Mounted(nodes, p, ks, k, mount), Replaced(ks, k, mount), i) == NameOf(nodes, ks, i)
  {
    var t, all := Mounted(nodes, p, ks, k, mount), Replaced(ks, k, mount);
    forall i: nat | i < |ks|
      ensures NameOf(t, all, i) == NameOf(nodes, ks, i)
      ensures SiblingOf(t, all, i) == Nth(all, i + 1)
    {
      assert SiblingOf(nodes, ks, i) == Nth(ks, i + 1);
      if i != k && k > 0 && i != k - 1 {
        ChildrenDiffer(nodes, p, ks, if i < k - 1 then i else k - 1, if i < k - 1 then k - 1 else i);
      }
    }
  }

  lemma MountedOther(nodes: Nodes, p: Ref, ks: seq<Ref>, k: nat, mount: Ref, n: Ref, ns: seq<Ref>)
    requires ListOk(nodes, p, ks) && k < |ks| && mount in nodes && mount !in ns
    requires ListOk(nodes, n, ns) && n != p
    ensures ListOk(Mounted(nodes, p, ks, k, mount), n, ns)
  {
    var t := Mounted(nodes, p, ks, k, mount);
    forall i: nat | i < |ns|
      ensures SiblingOf(t, ns, i) == SiblingOf(nodes, ns, i) && NameOf(t, ns, i) == NameOf(nodes, ns, i)
    {
      assert ns[i] in nodes && nodes[ns[i]].parent == n;
    }
  }

  /** A node without parent is in no list. */
  lemma Orphan(nodes: Nodes, kids: map<Ref, seq<Ref>>, mount: Ref, n: Ref)
    requires Shaped(nodes, kids) && mount in nodes && nodes[mount].parent == NULL && n in nodes
    ensures mount !in kids[n]
  {
    assert ListOk(nodes, n, kids[n]);
  }

  lemma MountedLists(nodes: Nodes, kids: map<Ref, seq<Ref>>, p: Ref, k: nat, mount: Ref, n: Ref)
    requires Shaped(nodes, kids) && p in nodes && k < |kids[p]| && n in nodes
    requires mount in nodes && nodes[mount].parent == NULL && mount != p
    ensures Children(nodes, p, kids[p])
    ensures ListOk(Mounted(nodes, p, kids[p], k, mount), n, if n == p then Replaced(kids[p], k, mount) else kids[n])
  {
    assert ListOk(nodes, p, kids[p]);
    Orphan(nodes, kids, mount, n);
    if n == p {
      MountedList(nodes, p, kids[p], k, mount);
    } else {
      assert ListOk(nodes, n, kids[n]);
      MountedOther(nodes, p, kids[p], k, mount, n, kids[n]);
    }
  }

  lemma MountedShaped(nodes: Nodes, kids: map<Ref, seq<Ref>>, p: Ref, k: nat, mount: Ref)
    requires Shaped(nodes, kids) && p in nodes && k < |kids[p]|
    requires mount in nodes && nodes[mount].parent == NULL && mount != p
    ensures Children(nodes, p, kids[p])
    ensures Shaped(Mounted(nodes, p, kids[p], k, mount), kids[p := Replaced(kids[p], k, mount)])
  {
    assert ListOk(nodes, p, kids[p]);
    Orphan(nodes, kids, mount, p);
    var t, kids' := Mounted(nodes, p, kids[p], k, mount), kids[p := Replaced(kids[p], k, mount)];
    MountedFields(nodes, p, kids[p], k, mount, p);
    assert kids'.Keys == t.Keys;
    var to := kids[p][k];
    assert to in nodes;
    forall n | n in t
      ensures NodeOk(t, kids', n)
    {
      MountedLists(nodes, kids, p, k, mount, n);
      MountedFields(nodes, p, kids[p], k, mount, n);
    }
  }

  lemma MountedFields(nodes: Nodes, p: Ref, ks: seq<Ref>, k: nat, mount: Ref, n: Ref)
    requires p in nodes && Children(nodes, p, ks) && k < |ks| && mount in nodes && mount !in ks && mount != p
    ensures var t := Mounted(nodes, p, ks, k, mount);
            && t.Keys == nodes.Keys
            && (n in nodes ==> t[n].number == nodes[n].number && t[n].fs == nodes[n].fs)
            && (n in nodes && n != mount ==> t[n].name == nodes[n].name && t[n].parent == nodes[n].parent)
            && t[mount].name == nodes[ks[k]].name && t[mount].parent == p
  {
  }

  /** The child in front of `to`. */
  method Before(tree: Tree, first: Ref, to: Ref, ghost p: Ref, ghost ks: seq<Ref>, ghost k: nat) returns (i: Ref)
    requires NULL !in tree.nodes && ListOk(tree.nodes, p, ks) && k < |ks| && ks[k] == to
    requires first == Nth(ks, 0) && first != to
    ensures k > 0 && i == ks[k - 1]
  {
    i := first;
    ghost var j := 0;
    while tree.nodes[i].siblings != to
      invariant 0 <= j < k && i == ks[j]
      decreases k - j
    {
      assert SiblingOf(tree.nodes, ks, j) == Nth(ks, j + 1);
      i := tree.nodes[i].siblings;
      j := j + 1;
    }
    assert SiblingOf(tree.nodes, ks, j) == Nth(ks, j + 1);
    if j + 1 < k {
      ChildrenDiffer(tree.nodes, p, ks, j + 1, k);
    }
  }

  lemma MountedAgreesAt(nodes: Nodes, kids: map<Ref, seq<Ref>>, disk: Disk, p: Ref, k: nat, mount: Ref, n: Ref, i: nat)
    requires Shaped(nodes, kids) && Agrees(nodes, kids, disk) && p in nodes && k < |kids[p]| && n in nodes && i < |kids[n]|
    requires mount in nodes && nodes[mount].parent == NULL && mount != p && nodes[mount].fs.Devfs?
    ensures Children(nodes, p, kids[p])
    ensures var t, c := Mounted(nodes, p, kids[p], k, mount), if n == p && i == k then mount else kids[n][i];
            c in t && AgreesAt(disk, t[n], t[c])
  {
    assert ListOk(nodes, p, kids[p]) && ListOk(nodes, n, kids[n]);
    Orphan(nodes, kids, mount, p);
    Orphan(nodes, kids, mount, n);
    assert AgreesAt(disk, nodes[n], nodes[kids[n][i]]);
    MountedFields(nodes, p, kids[p], k, mount, n);
    MountedFields(nodes, p, kids[p], k, mount, kids[n][i]);
    MountedFields(nodes, p, kids[p], k, mount, mount);
  }

  /** A device may take the place of whatever the disk has under that name. */
  lemma MountedAgrees(nodes: Nodes, kids: map<Ref, seq<Ref>>, disk: Disk, p: Ref, k: nat, mount: Ref)
    requires Shaped(nodes, kids) && Agrees(nodes, kids, disk) && p in nodes && k < |kids[p]|
    requires mount in nodes && nodes[mount].parent == NULL && mount != p && nodes[mount].fs.Devfs?
    ensures Children(nodes, p, kids[p])
    ensures Agrees(Mounted(nodes, p, kids[p], k, mount), kids[p := Replaced(kids[p], k, mount)], disk)
  {
    assert ListOk(nodes, p, kids[p]);
    var t, kids' := Mounted(nodes, p, kids[p], k, mount), kids[p := Replaced(kids[p], k, mount)];
    Orphan(nodes, kids, mount, p);
    MountedFields(nodes, p, kids[p], k, mount, p);
    forall n, i | n in t && n in kids' && 0 <= i < |kids'[n]| && kids'[n][i] in t
      ensures AgreesAt(disk, t[n], t[kids'[n][i]])
    {
      MountedAgreesAt(nodes, kids, disk, p, k, mount, n, i);
    }
  }

  /** A node is in one list, and there once. */
  lemma OneSlot(nodes: Nodes, kids: map<Ref, seq<Ref>>, n: Ref, i: nat, p: Ref, k: nat)
    requires Shaped(nodes, kids) && n in nodes && p in nodes && i < |kids[n]| && k < |kids[p]| && kids[n][i] == kids[p][k]
    ensures n == p && i == k
  {
    assert ListOk(nodes, n, kids[n]) && ListOk(nodes, p, kids[p]);
    if i != k {
      ChildrenDiffer(nodes, p, kids[p], if i < k then i else k, if i < k then k else i);
    }
  }

  lemma MountedName(nodes: Nodes, kids: map<Ref, seq<Ref>>, p: Ref, k: nat, mount: Ref, t: Nodes, n: Ref, i: nat)
    requires Shaped(nodes, kids) && p in nodes && k < |kids[p]| && Children(nodes, p, kids[p])
    requires mount in nodes && nodes[mount].parent == NULL && mount != p
    requires t == Mounted(nodes, p, kids[p], k, mount) && n in nodes && i < |kids[n]|
    ensures NameOf(t, if n == p then Replaced(kids[p], k, mount) else kids[n], i) == NameOf(nodes, kids[n], i)
  {
    assert ListOk(nodes, n, kids[n]);
    Orphan(nodes, kids, mount, p);
    Orphan(nodes, kids, mount, n);
    MountedFields(nodes, p, kids[p], k, mount, kids[n][i]);
  }

  /** Children other than the mount point stay where they are. */
  lemma MountedChild(nodes: Nodes, kids: map<Ref, seq<Ref>>, p: Ref, k: nat, mount: Ref, t: Nodes, kids': map<Ref, seq<Ref>>,
                     n: Ref, name: string, c: Ref)
    requires Shaped(nodes, kids) && p in nodes && k < |kids[p]| && Children(nodes, p, kids[p])
    requires mount in nodes && nodes[mount].parent == NULL && mount != p
    requires t == Mounted(nodes, p, kids[p], k, mount) && kids' == kids[p := Replaced(kids[p], k, mount)]
    requires Child(nodes, kids, n, name, c)
    ensures Child(t, kids', n, name, if c == kids[p][k] then mount else c)
  {
    var i: nat :| i < |kids[n]| && kids[n][i] == c && NameOf(nodes, kids[n], i) == name;
    if c == kids[p][k] {
      OneSlot(nodes, kids, n, i, p, k);
    }
    MountedName(nodes, kids, p, k, mount, t, n, i);
    assert kids'[n][i] == if c == kids[p][k] then mount else c;
  }

  /** Every path that led to the mount point now leads to what is mounted on it. */
  lemma {:induction false} MountedReached(nodes: Nodes, kids: map<Ref, seq<Ref>>, p: Ref, k: nat, mount: Ref,
                                          t: Nodes, kids': map<Ref, seq<Ref>>, n: Ref, names: seq<string>)
    requires Shaped(nodes, kids) && p in nodes && k < |kids[p]| && Children(nodes, p, kids[p])
    requires mount in nodes && nodes[mount].parent == NULL && mount != p
    requires t == Mounted(nodes, p, kids[p], k, mount) && kids' == kids[p := Replaced(kids[p], k, mount)]
    requires kids[kids[p][k]] == [] && names != [] && Cached(nodes, kids, n, names, kids[p][k])
    ensures Cached(t, kids', n, names, mount)
    decreases |names|
  {
    var c :| Child(nodes, kids, n, names[0], c) && Cached(nodes, kids, c, names[1..], kids[p][k]);
    MountedChild(nodes, kids, p, k, mount, t, kids', n, names[0], c);
    if names[1..] == [] {
      assert Cached(t, kids', mount, names[1..], mount);
    } else {
      MountedReached(nodes, kids, p, k, mount, t, kids', c, names[1..]);
    }
  }

  lemma MountedAll(nodes: Nodes, kids: map<Ref, seq<Ref>>, disk: Disk, p: Ref, k: nat, mount: Ref)
    returns (t: Nodes, kids': map<Ref, seq<Ref>>)
    requires Shaped(nodes, kids) && p in nodes && k < |kids[p]|
    requires mount in nodes && nodes[mount].parent == NULL && mount != p
    ensures Children(nodes, p, kids[p])
    ensures t == Mounted(nodes, p, kids[p], k, mount) && kids' == kids[p := Replaced(kids[p], k, mount)]
    ensures Shaped(t, kids') && t.Keys == nodes.Keys && forall n | n in nodes :: t[n].fs == nodes[n].fs
    ensures Agrees(nodes, kids, disk) && nodes[mount].fs.Devfs? ==> Agrees(t, kids', disk)
  {
    MountedShaped(nodes, kids, p, k, mount);
    t, kids' := Mounted(nodes, p, kids[p], k, mount), kids[p := Replaced(kids[p], k, mount)];
    if Agrees(nodes, kids, disk) && nodes[mount].fs.Devfs? {
      MountedAgrees(nodes, kids, disk, p, k, mount);
    }
    Orphan(nodes, kids, mount, p);
    forall n | n in nodes
      ensures t[n].fs == nodes[n].fs
    {
      MountedFields(nodes, p, kids[p], k, mount, n);
    }
  }

  /** The pointers that vfs_mount writes. */
  method Relink(tree: Tree, mount: Ref, to: Ref, ghost p: Ref, ghost ks: seq<Ref>, ghost k: nat)
    requires NULL !in tree.nodes && ListOk(tree.nodes, p, ks) && k < |ks| && ks[k] == to
    requires mount in tree.nodes && mount !in ks && mount != p && p !in ks
    modifies tree`nodes
    ensures Children(old(tree.nodes), p, ks) && tree.nodes == Mounted(old(tree.nodes), p, ks, k, mount)
  {
    var from := tree.nodes[to];
    var i := tree.nodes[from.parent].children;
    if i == to {
      if k > 0 {
        ChildrenDiffer(tree.nodes, p, ks, 0, k);
      }
      tree.nodes := tree.nodes[mount := tree.nodes[mount].(siblings := from.siblings, parent := from.parent, name := from.name)];
      tree.nodes := tree.nodes[from.parent := tree.nodes[from.parent].(children := mount)];
    } else {
      i := Before(tree, i, to, p, ks, k);
      tree.nodes := tree.nodes[mount := tree.nodes[mount].(siblings := from.siblings, parent := from.parent, name := from.name)];
      tree.nodes := tree.nodes[i := tree.nodes[i].(siblings := mount)];
    }
  }

  /** Node `mount` has taken the place of child k of p. */
  ghost predicate Moved(nodes: Nodes, kids: map<Ref, seq<Ref>>, p: Ref, k: nat, mount: Ref, nodes': Nodes,
                        kids': map<Ref, seq<Ref>>) {
    && p in nodes && p in kids && mount in nodes && k < |kids[p]| && Children(nodes, p, kids[p])
    && nodes' == Mounted(nodes, p, kids[p], k, mount) && kids' == kids[p := Replaced(kids[p], k, mount)]
  }

  method Mount(tree: Tree, mount: Ref, to: Ref, ghost p: Ref, ghost k: nat)
    requires Shaped(tree.nodes, tree.kids) && mount in tree.nodes && tree.nodes[mount].parent == NULL && mount != p
    requires p in tree.nodes && k < |tree.kids[p]| && tree.kids[p][k] == to
    modifies tree`nodes, tree`kids
    ensures Moved(old(tree.nodes), old(tree.kids), p, k, mount, tree.nodes, tree.kids)
  {
    assert ListOk(tree.nodes, p, tree.kids[p]);
    Orphan(tree.nodes, tree.kids, mount, p);
    Relink(tree, mount, to, p, tree.kids[p], k);
    tree.kids := tree.kids[p := Replaced(tree.kids[p], k, mount)];
  }

  /** vfs_mount; halts when `to` has children or no parent. */
  method VfsMount(tree: Tree, mount: Ref, to: Ref, ghost k: nat, ghost disk: Disk) returns (halted: bool)
    requires tree.Valid(disk) && mount in tree.nodes && to in tree.nodes
    requires tree.nodes[mount].parent == NULL && tree.nodes[mount].fs.Devfs? && mount != tree.nodes[to].parent
    requires var p := tree.nodes[to].parent;
             p != NULL ==> p in tree.nodes && k < |tree.kids[p]| && tree.kids[p][k] == to
    modifies tree
    ensures tree.Valid(disk)
    ensures halted <==> old(tree.nodes)[to].children != NULL || old(tree.nodes)[to].parent == NULL
    ensures halted ==> tree.nodes == old(tree.nodes) && tree.kids == old(tree.kids)
    ensures !halted ==> Moved(old(tree.nodes), old(tree.kids), old(tree.nodes)[to].parent, k, mount, tree.nodes, tree.kids)
  {
    if tree.nodes[to].children != NULL || tree.nodes[to].parent == NULL {
      return true;
    }
    ghost var p := tree.nodes[to].parent;
    ghost var t, kids' := MountedAll(tree.nodes, tree.kids, disk, p, k, mount);
    Mount(tree, mount, to, p, k);
    return false;
  }

  // ---- devfs -------------------------------------------------------------------------------------

  lemma OrphanShaped(nodes: Nodes, kids: map<Ref, seq<Ref>>, node: Ref, t: Nodes, kids': map<Ref, seq<Ref>>)
    requires Shaped(nodes, kids) && node !in nodes && node != NULL
    requires t == nodes[node := Inode(0, "", NULL, NULL, NULL, Devfs)] && kids' == kids[node := []]
    ensures Shaped(t, kids')
  {
    forall n | n in t
      ensures NodeOk(t, kids', n)
    {
      if n != node {
        OrphanList(nodes, node, t, n, kids[n]);
      }
    }
  }

  lemma OrphanList(nodes: Nodes, node: Ref, t: Nodes, n: Ref, ks: seq<Ref>)
    requires ListOk(nodes, n, ks) && node !in nodes && t == nodes[node := Inode(0, "", NULL, NULL, NULL, Devfs)]
    ensures ListOk(t, n, ks)
  {
    forall k: nat | k < |ks|
      ensures SiblingOf(t, ks, k) == SiblingOf(nodes, ks, k) && NameOf(t, ks, k) == NameOf(nodes, ks, k)
    {
      assert ks[k] in nodes;
    }
  }

  /** devfs_init: a device without parent. */
  method DevfsInit(tree: Tree, ghost disk: Disk) returns (node: Ref)
    requires tree.Valid(disk)
    modifies tree
    ensures tree.Valid(disk) && node !in old(tree.nodes)
    ensures tree.nodes == old(tree.nodes)[node := Inode(0, "", NULL, NULL, NULL, Devfs)]
    ensures tree.kids == old(tree.kids)[node := []]
  {
    ghost var nodes, kids := tree.nodes, tree.kids;
    node := tree.next;
    tree.next := tree.next + 1;
    tree.nodes := tree.nodes[node := Inode(0, "", NULL, NULL, NULL, Devfs)];
    tree.kids := tree.kids[node := []];
    OrphanShaped(nodes, kids, node, tree.nodes, tree.kids);
  }

  /** devfs_mknod of a new name. */
  method DevfsMknod(tree: Tree, devfs: Ref, name: string, number: nat, ghost disk: Disk) returns (node: Ref)
    requires tree.Valid(disk) && devfs in tree.nodes && tree.nodes[devfs].fs.Devfs?
    requires NameOk(name) && Absent(tree.nodes, tree.kids[devfs], name)
    modifies tree
    ensures tree.Valid(disk) && Extends(old(tree.nodes), old(tree.kids), tree.nodes, tree.kids)
    ensures node in tree.nodes && tree.nodes[node].number == number && tree.nodes[node].fs.Devfs?
    ensures Child(tree.nodes, tree.kids, devfs, name, node) && tree.kids == KidsAppended(old(tree.kids), devfs, node)
  {
    ghost var t, kids' := AppendedAll(tree.nodes, tree.kids, disk, devfs, tree.next, number, name);
    node := tree.Join(devfs, number, name, t, kids');
  }

  // ---- creating ----------------------------------------------------------------------------------

  lemma {:induction false} WalkSnoc(disk: Disk, d: nat, names: seq<string>, x: string)
    ensures Walk(disk, d, names + [x]) ==
            match Walk(disk, d, names) case None => None case Some(e) => Find(disk, e, x)
    decreases |names|
  {
    if names == [] {
      assert (names + [x])[1..] == [];
      match Find(disk, d, x)
      case None =>
      case Some(e) => assert Walk(disk, e, []) == Some(e);
    } else {
      assert (names + [x])[1..] == names[1..] + [x];
      match Find(disk, d, names[0])
      case None =>
      case Some(e) => WalkSnoc(disk, e, names[1..], x);
    }
  }

  /** A walk that succeeds still does after a new name has been added anywhere. */
  lemma {:induction false} WalkKept(disk: Disk, key: (nat, string), v: nat, d: nat, names: seq<string>)
    requires key !in disk && Walk(disk, d, names).Some?
    ensures Walk(disk[key := v], d, names) == Walk(disk, d, names)
    decreases |names|
  {
    if names != [] {
      WalkKept(disk, key, v, Find(disk, d, names[0]).value, names[1..]);
    }
  }

  /** A new file in an existing directory is found where it was created, and nothing that was found
      before is found elsewhere. */
  lemma CreatedIsFound(disk: Disk, d: nat, dirs: seq<string>, name: string, dir: nat, number: nat)
    requires Walk(disk, d, dirs) == Some(dir) && Find(disk, dir, name) == None
    ensures Walk(disk[(dir, name) := number], d, dirs + [name]) == Some(number)
    ensures forall names | Walk(disk, d, names).Some? :: Walk(disk[(dir, name) := number], d, names) == Walk(disk, d, names)
  {
    WalkKept(disk, (dir, name), number, d, dirs);
    WalkSnoc(disk[(dir, name) := number], d, dirs, name);
    forall names | Walk(disk, d, names).Some?
      ensures Walk(disk[(dir, name) := number], d, names) == Walk(disk, d, names)
    {
      WalkKept(disk, (dir, name), number, d, names);
    }
  }

  lemma {:induction false} HasToken(cur: string, s: string, k: nat)
    requires k < |s| && s[k] != SLASH
    ensures Split(cur, s) != []
    decreases |s|
  {
    if s[0] == SLASH {
      HasToken("", s[1..], k - 1);
    } else {
      NotEmpty(cur + [s[0]], s[1..]);
    }
  }

  lemma {:induction false} NotEmpty(cur: string, s: string)
    requires cur != ""
    ensures Split(cur, s) != []
    decreases |s|
  {
    if s != "" && s[0] != SLASH {
      NotEmpty(cur + [s[0]], s[1..]);
    }
  }

  /** An absolute path that does not end in a slash and fits the buffer of the walk. */
  predicate FilePath(path: string) {
    |path| >= 2 && NameOk(path) && path[0] == SLASH && path[|path| - 1] != SLASH
  }

  lemma IsFilePath(path: string)
    requires path != "" && Plain(path) && |path| < 256 && path[0] == SLASH && path[|path| - 1] != SLASH
    ensures FilePath(path)
  {
  }

  /** Of an absolute path that does not end in a slash, dirname has all components but the last, which
      basename is. */
  lemma Parts(path: string)
    requires FilePath(path)
    ensures Tokens(path) != [] && Tokens(path) == Tokens(Dirname(path)) + [Basename(path)]
    ensures NameOk(Dirname(path)) && Tokens("/") == []
  {
    HasToken("", path, |path| - 1);
    DirnameDropsLastIff(path);
    BasenameIsLastIff(path);
    SomeSlash(path, 0);
    RootHasNone();
    LastSlashIs(path);
    var all := Tokens(path);
    assert all == all[..|all| - 1] + [all[|all| - 1]];
  }

  /** A name that is not on disk is not cached. */
  lemma AbsentFromCache(nodes: Nodes, kids: map<Ref, seq<Ref>>, disk: Disk, dir: Ref, name: string)
    requires Shaped(nodes, kids) && Agrees(nodes, kids, disk) && dir in nodes && nodes[dir].fs.Ext2?
    requires Find(disk, nodes[dir].number, name) == None
    ensures Absent(nodes, kids[dir], name)
  {
    assert ListOk(nodes, dir, kids[dir]);
  }

  lemma ValidWithMore(tree: Tree, disk: Disk, key: (nat, string), v: nat)
    requires tree.Valid(disk) && key !in disk
    ensures tree.Valid(disk[key := v])
  {
  }

  /** The new record on disk and the new node in the cache. */
  method NewFile(tree: Tree, vol: Volume, dir: Ref, name: string, number: nat, ghost disk: Disk)
    returns (node: Ref, ghost disk': Disk)
    requires tree.Valid(disk) && vol.Holds(disk) && dir in tree.nodes && tree.nodes[dir].fs.Ext2? && NameOk(name)
    requires Find(disk, tree.nodes[dir].number, name) == None
    requires vol.Room(tree.nodes[dir].number, number, name) && number !in vol.dirs
    modifies tree, vol.img
    ensures disk' == disk[(old(tree.nodes)[dir].number, name) := number]
    ensures tree.Valid(disk') && vol.Holds(disk') && Grows(old(tree.nodes), old(tree.kids), tree.nodes, tree.kids)
    ensures node in tree.nodes && tree.nodes[node].number == number && tree.nodes[node].fs.Ext2?
    ensures Child(tree.nodes, tree.kids, dir, name, node)
  {
    var d := tree.nodes[dir].number;
    AbsentFromCache(tree.nodes, tree.kids, disk, dir, name);
    vol.Insert(d, number, name, disk);
    disk' := disk[(d, name) := number];
    ValidWithMore(tree, disk, (d, name), number);
    node := tree.AddFound(dir, number, name, disk');
  }

  /** vfs_new_inode in a directory of the disk with room, which gives the new file inode `number`; a device has
      no action for it. */
  method VfsNewInode(tree: Tree, vol: Volume, dir: Ref, path: string, number: nat, ghost disk: Disk)
    returns (node: Ref, ghost disk': Disk)
    requires tree.Valid(disk) && vol.Holds(disk) && dir in tree.nodes && NameOk(Basename(path))
    requires tree.nodes[dir].fs.Ext2? ==>
               && Find(disk, tree.nodes[dir].number, Basename(path)) == None
               && vol.Room(tree.nodes[dir].number, number, Basename(path)) && number !in vol.dirs
    modifies tree, vol.img
    ensures tree.Valid(disk') && vol.Holds(disk') && Grows(old(tree.nodes), old(tree.kids), tree.nodes, tree.kids)
    ensures node == NULL <==> old(tree.nodes)[dir].fs.Devfs?
    ensures node == NULL ==>
              && disk' == disk && vol.img[..] == old(vol.img[..])
              && tree.nodes == old(tree.nodes) && tree.kids == old(tree.kids)
    ensures node != NULL ==>
              && disk' == disk[(old(tree.nodes)[dir].number, Basename(path)) := number]
              && node in tree.nodes && tree.nodes[node].number == number && tree.nodes[node].fs.Ext2?
              && Child(tree.nodes, tree.kids, dir, Basename(path), node)
              && Has(vol.img[..], vol.bs, vol.dirs, old(tree.nodes)[dir].number, Bytes(Basename(path))) == Some(number)
  {
    if tree.nodes[dir].fs.Devfs? {
      NoDevicesRefl(tree.nodes, tree.kids);
      return NULL, disk;
    }
    var d := tree.nodes[dir].number;
    node, disk' := NewFile(tree, vol, dir, Basename(path), number, disk);
    assert Find(disk', d, Basename(path)) == Some(number);
  }

  /** A number that is no directory has no names. */
  lemma NoNames(vol: Volume, disk: Disk, number: nat, name: string)
    requires vol.Holds(disk) && number !in vol.dirs && Plain(name)
    ensures (number, name) !in disk
  {
    assert Find(disk, number, name) == None;
  }

  lemma ValidWithDirectory(tree: Tree, disk: Disk, number: nat)
    requires tree.Valid(disk) && (number, ".") !in disk && (number, "..") !in disk
    ensures tree.Valid(WithDirectory(disk, number))
  {
    ValidWithMore(tree, disk, (number, "."), number);
    ValidWithMore(tree, disk[(number, ".") := number], (number, ".."), number);
  }

  /** The same for a directory, whose block the allocator takes from the free ones. */
  method NewDirectory(tree: Tree, vol: Volume, dir: Ref, name: string, number: nat, base: nat, ghost disk: Disk)
    returns (node: Ref, ghost disk': Disk)
    requires tree.Valid(disk) && vol.Holds(disk) && dir in tree.nodes && tree.nodes[dir].fs.Ext2? && NameOk(name)
    requires Find(disk, tree.nodes[dir].number, name) == None && vol.Room(tree.nodes[dir].number, number, name)
    requires number !in vol.dirs && FreeBlock(vol.img[..], vol.bs, vol.dirs, base) && 2 * Ext2Dir.RECORD <= vol.bs < 0x10000
    modifies tree, vol`dirs, vol.img
    ensures disk' == WithDirectory(disk[(old(tree.nodes)[dir].number, name) := number], number)
    ensures tree.Valid(disk') && vol.Holds(disk') && vol.dirs == old(vol.dirs)[number := base]
    ensures Grows(old(tree.nodes), old(tree.kids), tree.nodes, tree.kids)
    ensures node in tree.nodes && tree.nodes[node].number == number && Child(tree.nodes, tree.kids, dir, name, node)
  {
    NoNames(vol, disk, number, ".");
    NoNames(vol, disk, number, "..");
    ghost var disk1;
    node, disk1 := NewFile(tree, vol, dir, name, number, disk);
    ValidWithDirectory(tree, disk1, number);
    vol.MakeDirectory(number, base, disk1);
    disk' := WithDirectory(disk1, number);
  }

  /** What vfs_search from the root finds: the root alone is "/", and any other path without components
      is not found. */
  function Searched(disk: Disk, root: nat, path: string): Option<nat> {
    if path == "/" then Some(root) else if Tokens(path) == [] then None else Walk(disk, root, Tokens(path))
  }

  datatype Opened = TooLong | Exists | NoEntry | Found(node: Ref) | Created(node: Ref)

  /** A path that enters a device with its last component is cached. */
  lemma {:induction false} EntersLast(nodes: Nodes, kids: map<Ref, seq<Ref>>, n: Ref, names: seq<string>,
                                      x: string) returns (r: Ref)
    requires Enters(nodes, kids, n, names + [x]) && !Enters(nodes, kids, n, names)
    ensures Cached(nodes, kids, n, names + [x], r)
    decreases |names|
  {
    var all := names + [x];
    var c :| Child(nodes, kids, n, all[0], c) && Enters(nodes, kids, c, all[1..]);
    if names == [] {
      assert all[1..] == [];
      r := c;
      assert Cached(nodes, kids, c, all[1..], r);
    } else {
      assert all[1..] == names[1..] + [x];
      r := EntersLast(nodes, kids, c, names[1..], x);
    }
  }

  lemma {:induction false} EntersMore(nodes: Nodes, kids: map<Ref, seq<Ref>>, n: Ref, names: seq<string>, x: string)
    requires Enters(nodes, kids, n, names)
    ensures Enters(nodes, kids, n, names + [x])
    decreases |names|
  {
    if !(n in nodes && nodes[n].fs.Devfs?) {
      var c :| Child(nodes, kids, n, names[0], c) && Enters(nodes, kids, c, names[1..]);
      EntersMore(nodes, kids, c, names[1..], x);
      assert (names + [x])[1..] == names[1..] + [x];
    }
  }

  /** What a search for the path from the root finds. */
  ghost predicate FromRoot(nodes: Nodes, kids: map<Ref, seq<Ref>>, disk: Disk, root: Ref, path: string, names: seq<string>,
                           nodes': Nodes, kids': map<Ref, seq<Ref>>, r: Ref)
    requires root in nodes
  {
    && (r != NULL ==> r in nodes' && Cached(nodes', kids', root, names, r))
    && (r != NULL ==> (nodes'[r].fs.Devfs? <==> Enters(nodes, kids, root, names)))
    && if Enters(nodes, kids, root, names) then
         && nodes' == nodes && kids' == kids
         && (r == NULL ==> forall x :: !Cached(nodes, kids, root, names, x))
       else
         Searched(disk, nodes[root].number, path) == if r == NULL then None else Some(nodes'[r].number)
  }

  lemma {:induction false} CachedIn(nodes: Nodes, kids: map<Ref, seq<Ref>>, n: Ref, names: seq<string>, r: Ref)
    requires Shaped(nodes, kids) && n in nodes && Cached(nodes, kids, n, names, r)
    ensures r in nodes
    decreases |names|
  {
    if names != [] {
      var c :| Child(nodes, kids, n, names[0], c) && Cached(nodes, kids, c, names[1..], r);
      ChildUnique(nodes, kids, n, names[0], c, c);
      CachedIn(nodes, kids, c, names[1..], r);
    }
  }

  lemma FoundFromRoot(nodes: Nodes, kids: map<Ref, seq<Ref>>, disk: Disk, root: Ref, path: string, names: seq<string>,
                      nodes': Nodes, kids': map<Ref, seq<Ref>>, r: Ref)
    requires root in nodes && names == Tokens(path) != [] && path != "/"
    requires NULL !in nodes && Shaped(nodes, kids) && Finds(nodes, kids, disk, root, names, nodes', kids', r)
    ensures FromRoot(nodes, kids, disk, root, path, names, nodes', kids', r)
  {
    forall x | Cached(nodes, kids, root, names, x)
      ensures x != NULL
    {
      CachedIn(nodes, kids, root, names, x);
    }
  }

  /** A search from the root, with "/" as the path without components. */
  method SearchRoot(tree: Tree, vol: Volume, path: string, ghost disk: Disk) returns (r: Ref)
    requires tree.Valid(disk) && vol.Holds(disk) && NameOk(path)
    modifies tree
    ensures tree.Valid(disk) && Grows(old(tree.nodes), old(tree.kids), tree.nodes, tree.kids)
    ensures FromRoot(old(tree.nodes), old(tree.kids), disk, tree.root, path, Tokens(path), tree.nodes, tree.kids, r)
  {
    RootHasNone();
    ghost var nodes, kids := tree.nodes, tree.kids;
    r := VfsSearch(tree, tree.root, path, vol, disk);
    ghost var names := Tokens(path);
    if path != "/" && names != [] {
      FoundFromRoot(nodes, kids, disk, tree.root, path, names, tree.nodes, tree.kids, r);
    }
  }

  lemma ParentEnters(nodes: Nodes, kids: map<Ref, seq<Ref>>, root: Ref, dirs: seq<string>, x: string)
    requires Enters(nodes, kids, root, dirs + [x]) ==> forall r :: !Cached(nodes, kids, root, dirs + [x], r)
    ensures Enters(nodes, kids, root, dirs) <==> Enters(nodes, kids, root, dirs + [x])
  {
    if Enters(nodes, kids, root, dirs) {
      EntersMore(nodes, kids, root, dirs, x);
    } else if Enters(nodes, kids, root, dirs + [x]) {
      var r := EntersLast(nodes, kids, root, dirs, x);
    }
  }

  /** What the answer promises of the tree and the disk afterwards. */
  ghost predicate Names(nodes: Nodes, kids: map<Ref, seq<Ref>>, disk: Disk, root: Ref, path: string, names: seq<string>,
                        number: nat, r: Opened)
    requires root in nodes
  {
    && (r.Found? || r.Created? ==>
          && r.node in nodes && Cached(nodes, kids, root, names, r.node)
          && (nodes[r.node].fs.Ext2? ==> Walk(disk, nodes[root].number, names) == Some(nodes[r.node].number)))
    && (r.Created? ==> nodes[r.node].number == number && nodes[r.node].fs.Ext2?)
  }

  /** Where a path leads: into a device, or to what the disk has for all its components and for all but the last,
      which is `name`.  The directory of a name in the root is not found behind three slashes or more. */
  datatype Place = Device(there: bool) | File(found: Option<nat>, dir: Option<nat>, name: string)

  ghost function PlaceOf(nodes: Nodes, kids: map<Ref, seq<Ref>>, disk: Disk, root: Ref, path: string,
                         names: seq<string>): Place
    requires root in nodes
  {
    if Enters(nodes, kids, root, names) then Device(exists x :: Cached(nodes, kids, root, names, x))
    else if names == [] then File(if path == "/" then Some(nodes[root].number) else None, None, "")
    else
      var last := |names| - 1;
      var found, dir := Walk(disk, nodes[root].number, names), Walk(disk, nodes[root].number, names[..last]);
      File(found, if last == 0 && |path| > 2 && path[2] == SLASH then None else dir, names[last])
  }

  predicate There(p: Place) {
    match p case Device(there) => there case File(found, _, _) => found.Some?
  }

  /** The directory in which a file is created. */
  function Parent(p: Place): Option<nat> {
    if There(p) || p.Device? then None else p.dir
  }

  /** Every outcome of the lookup. */
  predicate Outcome(p: Place, create: bool, exclusive: bool, number: nat, r: Opened, disk: Disk, disk': Disk) {
    && (!r.Created? ==> disk' == disk)
    && if There(p) then (if create && exclusive then r == Exists else r.Found?)
       else
         match Parent(p)
         case Some(d) => if create then r.Created? && disk' == disk[(d, p.name) := number] else r == NoEntry
         case None => r == NoEntry
  }

  /** The directory in which a file is created has room for it. */
  ghost predicate RoomAt(vol: Volume, p: Place, number: nat)
    reads vol, vol.img
  {
    Parent(p).Some? ==> vol.Room(Parent(p).value, number, p.name) && number !in vol.dirs
  }

  lemma FoundPlace(nodes: Nodes, kids: map<Ref, seq<Ref>>, disk: Disk, root: Ref, path: string, names: seq<string>,
                   nodes': Nodes, kids': map<Ref, seq<Ref>>, r: Ref, number: nat)
    requires root in nodes && Grows(nodes, kids, nodes', kids') && names == Tokens(path)
    requires FromRoot(nodes, kids, disk, root, path, names, nodes', kids', r)
    ensures r != NULL <==> There(PlaceOf(nodes, kids, disk, root, path, names))
    ensures root in nodes' && Names(nodes', kids', disk, root, path, names, number, if r == NULL then NoEntry else Found(r))
    ensures r == NULL ==> PlaceOf(nodes', kids', disk, root, path, names) == PlaceOf(nodes, kids, disk, root, path, names)
  {
    assert EntersOnly(nodes, kids, nodes', kids', root, names);
    RootHasNone();
    if r != NULL && Enters(nodes, kids, root, names) {
      assert Cached(nodes, kids, root, names, r);
    }
  }

  /** The search of _open. */
  method SearchPlace(tree: Tree, vol: Volume, path: string, ghost disk: Disk, ghost p: Place,
                     ghost number: nat) returns (r: Ref)
    requires tree.Valid(disk) && vol.Holds(disk) && NameOk(path)
    requires p == PlaceOf(tree.nodes, tree.kids, disk, tree.root, path, Tokens(path))
    modifies tree
    ensures tree.Valid(disk) && Grows(old(tree.nodes), old(tree.kids), tree.nodes, tree.kids)
    ensures r != NULL <==> There(p)
    ensures Names(tree.nodes, tree.kids, disk, tree.root, path, Tokens(path), number, if r == NULL then NoEntry else Found(r))
    ensures r == NULL ==> p == PlaceOf(tree.nodes, tree.kids, disk, tree.root, path, Tokens(path))
  {
    ghost var nodes, kids := tree.nodes, tree.kids;
    r := SearchRoot(tree, vol, path, disk);
    FoundPlace(nodes, kids, disk, tree.root, path, Tokens(path), tree.nodes, tree.kids, r, number);
  }

  /** What is known of a path that is not there. */
  lemma MissingPlace(nodes: Nodes, kids: map<Ref, seq<Ref>>, disk: Disk, root: Ref, path: string, names: seq<string>,
                     p: Place)
    requires root in nodes && p == PlaceOf(nodes, kids, disk, root, path, names) && !There(p)
    requires FilePath(path) && names == Tokens(path)
    ensures p.Device? <==> Enters(nodes, kids, root, names)
    ensures p.Device? ==> forall x :: !Cached(nodes, kids, root, names, x)
    ensures p.File? ==>
              && Walk(disk, nodes[root].number, names) == None && p.dir == Searched(disk, nodes[root].number, Dirname(path))
              && p.name == Basename(path)
  {
    Parts(path);
    var last := |names| - 1;
    assert names[..last] == Tokens(Dirname(path)) && names[last] == Basename(path);
    DirnameSearched(disk, nodes[root].number, path);
  }

  /** The directory part is found where its components lead, except that the root is found as "/" only. */
  lemma DirnameSearched(disk: Disk, root: nat, path: string)
    requires FilePath(path)
    ensures var dirs := Tokens(Dirname(path));
            Searched(disk, root, Dirname(path)) == if dirs == [] && |path| > 2 && path[2] == SLASH then None else Walk(disk, root, dirs)
  {
    var dir := Dirname(path);
    DirnameAbsolute(path);
    RootHasNone();
    if Tokens(dir) == [] {
      forall k | 0 <= k < |dir|
        ensures dir[k] == SLASH
      {
        if dir[k] != SLASH {
          HasToken("", dir, k);
        }
      }
      LastSlashIs(path);
    }
  }

  /** The part of _open that creates the file. */
  method CreatePath(tree: Tree, vol: Volume, path: string, number: nat, ghost disk: Disk, ghost p: Place)
    returns (r: Opened, ghost disk': Disk)
    requires tree.Valid(disk) && vol.Holds(disk) && FilePath(path)
    requires p == PlaceOf(tree.nodes, tree.kids, disk, tree.root, path, Tokens(path)) && !There(p) && RoomAt(vol, p, number)
    modifies tree, vol.img
    ensures tree.Valid(disk') && vol.Holds(disk') && Grows(old(tree.nodes), old(tree.kids), tree.nodes, tree.kids)
    ensures Outcome(p, true, false, number, r, disk, disk')
    ensures r == NoEntry ==> vol.img[..] == old(vol.img[..])
    ensures Names(tree.nodes, tree.kids, disk', tree.root, path, Tokens(path), number, r)
  {
    ghost var dirs := Tokens(Dirname(path));
    Parts(path);
    ComponentNames("", path);
    MissingPlace(tree.nodes, tree.kids, disk, tree.root, path, Tokens(path), p);
    ParentEnters(tree.nodes, tree.kids, tree.root, dirs, Basename(path));
    WalkSnoc(disk, tree.nodes[tree.root].number, dirs, Basename(path));
    var dir := SearchRoot(tree, vol, Dirname(path), disk);
    if dir == NULL {
      return NoEntry, disk;
    }
    ghost var nodes0, kids0 := tree.nodes, tree.kids;
    assert Basename(path) in Tokens(path);
    var inode;
    inode, disk' := VfsNewInode(tree, vol, dir, path, number, disk);
    GrowsTrans(old(tree.nodes), old(tree.kids), nodes0, kids0, tree.nodes, tree.kids);
    if inode == NULL {
      return NoEntry, disk';
    }
    CreatedIsFound(disk, tree.nodes[tree.root].number, dirs, Basename(path), nodes0[dir].number, number);
    CachedNext(nodes0, kids0, tree.nodes, tree.kids, tree.root, dirs, dir, Basename(path), inode);
    return Created(inode), disk';
  }

  /** The lookup of _open for a path that fits the buffer of the walk. */
  method Lookup(tree: Tree, vol: Volume, path: string, create: bool, exclusive: bool, number: nat, ghost disk: Disk,
                ghost p: Place)
    returns (r: Opened, ghost disk': Disk)
    requires tree.Valid(disk) && vol.Holds(disk) && NameOk(path)
    requires p == PlaceOf(tree.nodes, tree.kids, disk, tree.root, path, Tokens(path))
    requires create ==> FilePath(path) && RoomAt(vol, p, number)
    modifies tree, vol.img
    ensures tree.Valid(disk') && vol.Holds(disk') && Grows(old(tree.nodes), old(tree.kids), tree.nodes, tree.kids)
    ensures r != TooLong && (!r.Created? ==> vol.img[..] == old(vol.img[..])) && Outcome(p, create, exclusive, number, r, disk, disk')
    ensures Names(tree.nodes, tree.kids, disk', tree.root, path, Tokens(path), number, r)
  {
    ghost var nodes, kids := tree.nodes, tree.kids;
    var inode := SearchPlace(tree, vol, path, disk, p, number);
    if inode != NULL {
      return if create && exclusive then Exists else Found(inode), disk;
    }
    if !create {
      return NoEntry, disk;
    }
    ghost var mid, midk := tree.nodes, tree.kids;
    r, disk' := CreatePath(tree, vol, path, number, disk, p);
    GrowsTrans(nodes, kids, mid, midk, tree.nodes, tree.kids);
  }

  /** The lookup part of _open for an absolute path, with or without O_CREAT and O_EXCL: what is opened is
      what the path names from then on, in the cache and on disk.  The walk has a buffer of 256 characters. */
  method OpenPath(tree: Tree, vol: Volume, path: string, create: bool, exclusive: bool, number: nat,
                  ghost disk: Disk, pathMax: nat)
    returns (r: Opened, ghost disk': Disk)
    requires tree.Valid(disk) && vol.Holds(disk) && path != "" && Plain(path) && path[0] == SLASH
    requires var p := PlaceOf(tree.nodes, tree.kids, disk, tree.root, path, Tokens(path));
             create ==> path[|path| - 1] != SLASH && RoomAt(vol, p, number)
    requires |path| < 256 <= pathMax || 256 <= pathMax <= |path|
    modifies tree, vol.img
    ensures tree.Valid(disk') && vol.Holds(disk') && Grows(old(tree.nodes), old(tree.kids), tree.nodes, tree.kids)
    ensures r == TooLong <==> |path| >= pathMax
    ensures !r.Created? ==> disk' == disk && vol.img[..] == old(vol.img[..])
    ensures r != TooLong ==>
              var p := PlaceOf(old(tree.nodes), old(tree.kids), disk, tree.root, path, Tokens(path));
              && (r == Exists <==> There(p) && create && exclusive)
              && (r.Found? <==> There(p) && !(create && exclusive))
              && (r.Created? <==> !There(p) && create && p.File? && p.dir.Some?)
              && (r.Created? ==> disk' == disk[(p.dir.value, p.name) := number])
              && Names(tree.nodes, tree.kids, disk', tree.root, path, Tokens(path), number, r)
  {
    if |path| >= pathMax {
      NoDevicesRefl(tree.nodes, tree.kids);
      return TooLong, disk;
    }
    ghost var p := PlaceOf(tree.nodes, tree.kids, disk, tree.root, path, Tokens(path));
    if create {
      IsFilePath(path);
    }
    r, disk' := Lookup(tree, vol, path, create, exclusive, number, disk, p);
  }

  // ---- booting -----------------------------------------------------------------------------------

  lemma DevTokens()
    ensures Tokens("/dev") == ["dev"] && NameOk("/dev")
  {
    var s := "/dev";
    assert s[1..] == "dev" && "dev"[1..] == "ev" && "ev"[1..] == "v" && "v"[1..] == "";
    assert "" + ['d'] == "d" && "d" + ['e'] == "de" && "de" + ['v'] == "dev";
    assert Split("dev", "") == ["dev"] && Split("de", "v") == ["dev"] && Split("d", "ev") == ["dev"];
    assert Split("", "dev") == ["dev"];
  }

  /** In a tree without anything below the root, the disk decides. */
  lemma NothingCached(nodes: Nodes, kids: map<Ref, seq<Ref>>, disk: Disk, root: Ref, name: string)
    requires Shaped(nodes, kids) && root in nodes && nodes[root].fs.Ext2? && kids[root] == []
    ensures !Enters(nodes, kids, root, [name]) && forall x :: !Cached(nodes, kids, root, [name], x)
    ensures Walk(disk, nodes[root].number, [name]) == Find(disk, nodes[root].number, name)
  {
    assert forall c :: !Child(nodes, kids, root, name, c);
    assert [name][1..] == [];
  }

  lemma ChildOf(nodes: Nodes, kids: map<Ref, seq<Ref>>, root: Ref, name: string, r: Ref) returns (k: nat)
    requires Shaped(nodes, kids) && Cached(nodes, kids, root, [name], r)
    ensures root in nodes && k < |kids[root]| && kids[root][k] == r && r in nodes && nodes[r].parent == root
    ensures nodes[r].children == NULL <==> kids[r] == []
  {
    var c :| Child(nodes, kids, root, name, c) && Cached(nodes, kids, c, [name][1..], r);
    assert [name][1..] == [];
    k :| k < |kids[root]| && kids[root][k] == r && NameOf(nodes, kids[root], k) == name;
    assert NodeOk(nodes, kids, root) && NodeOk(nodes, kids, r);
  }

  /** The first search of all, beside which `other` stays as it was. */
  method SearchDev(tree: Tree, vol: Volume, ghost disk: Disk, ghost other: Ref) returns (r: Ref)
    requires tree.Valid(disk) && vol.Holds(disk) && tree.kids[tree.root] == [] && other in tree.nodes
    modifies tree
    ensures tree.Valid(disk) && other in tree.nodes
    ensures tree.nodes[other].parent == old(tree.nodes)[other].parent && tree.nodes[other].fs == old(tree.nodes)[other].fs
    ensures r != NULL <==> Find(disk, old(tree.nodes)[tree.root].number, "dev").Some?
    ensures r != NULL ==> r in tree.nodes && tree.kids[r] == [] && Cached(tree.nodes, tree.kids, tree.root, ["dev"], r)
  {
    DevTokens();
    NothingCached(tree.nodes, tree.kids, disk, tree.root, "dev");
    r := VfsSearch(tree, tree.root, "/dev", vol, disk);
  }

  /** A mount on a child of the root that has no children. */
  method MountBelowRoot(tree: Tree, mount: Ref, at: Ref, name: string, ghost disk: Disk)
    requires tree.Valid(disk) && Cached(tree.nodes, tree.kids, tree.root, [name], at) && at in tree.kids && tree.kids[at] == []
    requires mount in tree.nodes && tree.nodes[mount].parent == NULL && tree.nodes[mount].fs.Devfs?
    modifies tree
    ensures tree.Valid(disk) && mount in tree.nodes && tree.nodes[mount].fs.Devfs?
    ensures Cached(tree.nodes, tree.kids, tree.root, [name], mount)
  {
    ghost var nodes, kids := tree.nodes, tree.kids;
    ghost var k := ChildOf(nodes, kids, tree.root, name, at);
    var halted := VfsMount(tree, mount, at, k, disk);
    MountedReached(nodes, kids, tree.root, k, mount, tree.nodes, tree.kids, tree.root, [name]);
    Orphan(nodes, kids, mount, tree.root);
    MountedFields(nodes, tree.root, kids[tree.root], k, mount, mount);
  }

  /** The boot-time mount: devfs is what "/dev" leads to, exactly when the disk has that name. */
  method MountDevices(tree: Tree, vol: Volume, ghost disk: Disk) returns (devfs: Ref, mounted: bool)
    requires tree.Valid(disk) && vol.Holds(disk) && tree.kids[tree.root] == []
    modifies tree
    ensures tree.Valid(disk)
    ensures mounted <==> Find(disk, old(tree.nodes)[tree.root].number, "dev").Some?
    ensures mounted ==>
              && devfs in tree.nodes && tree.nodes[devfs].fs.Devfs?
              && Cached(tree.nodes, tree.kids, tree.root, ["dev"], devfs)
  {
    devfs := DevfsInit(tree, disk);
    var at := SearchDev(tree, vol, disk, devfs);
    mounted := at != NULL;
    if mounted {
      MountBelowRoot(tree, devfs, at, "dev", disk);
    }
  }
}
