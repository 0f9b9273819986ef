/**
 The inode tree of the virtual file system (fs/vfs.c:7-93, 194-210): children and siblings lists that
 cache what lookups have found on disk.
 */
module Vfs {

  import opened Basics
  import opened Paths
  import opened Volumes

  // ---- inodes in memory --------------------------------------------------------------------------

  /** Whose actions an inode has. */
  datatype Fs = Ext2 | Devfs

  datatype Inode = Inode(number: nat, name: string, parent: Ref, children: Ref, siblings: Ref, fs: Fs)

  type Nodes = map<Ref, Inode>

  /** The sibling pointer and the name of the k-th child. */
  function SiblingOf(nodes: Nodes, ks: seq<Ref>, k: nat): Ref {
    if k < |ks| && ks[k] in nodes then nodes[ks[k]].siblings else NULL
  }

  function NameOf(nodes: Nodes, ks: seq<Ref>, k: nat): string {
    if k < |ks| && ks[k] in nodes then nodes[ks[k]].name else ""
  }

  predicate Children(nodes: Nodes, n: Ref, ks: seq<Ref>) {
    forall k | 0 <= k < |ks| :: ks[k] in nodes && nodes[ks[k]].parent == n
  }

  /** The children list of n spells out ks, whose names are pairwise different. */
  ghost predicate ListOk(nodes: Nodes, n: Ref, ks: seq<Ref>) {
    && n in nodes && nodes[n].children == Nth(ks, 0) && Children(nodes, n, ks)
    && (forall k: nat {:trigger SiblingOf(nodes, ks, k)} | k < |ks| :: SiblingOf(nodes, ks, k) == Nth(ks, k + 1))
    && (forall i: nat, j: nat | i < j < |ks| :: NameOf(nodes, ks, i) != NameOf(nodes, ks, j))
  }

  predicate NameOk(name: string) {
    |name| < 256 && Plain(name)
  }

  ghost predicate NodeOk(nodes: Nodes, kids: map<Ref, seq<Ref>>, n: Ref) {
    n in kids && ListOk(nodes, n, kids[n]) && NameOk(nodes[n].name) && nodes[n].parent != n
  }

  /** All lists are in order; `kids` says which children each node has. */
  ghost predicate Shaped(nodes: Nodes, kids: map<Ref, seq<Ref>>) {
    && NULL !in nodes && kids.Keys == nodes.Keys
    && forall n | n in nodes :: NodeOk(nodes, kids, n)
  }

  /** A cached child c of n is what the disk has under that name, or it is a device that is mounted on that
      name; what is below a device is a device. */
  predicate AgreesAt(disk: Disk, n: Inode, c: Inode) {
    match n.fs
    case Devfs => c.fs.Devfs?
    case Ext2 =>
      var found := Find(disk, n.number, c.name);
      found.Some? && (c.fs.Ext2? ==> found.value == c.number)
  }

  ghost predicate Agrees(nodes: Nodes, kids: map<Ref, seq<Ref>>, disk: Disk) {
    forall n, k | n in nodes && n in kids && 0 <= k < |kids[n]| && kids[n][k] in nodes ::
      AgreesAt(disk, nodes[n], nodes[kids[n][k]])
  }

  lemma ChildrenDiffer(nodes: Nodes, n: Ref, ks: seq<Ref>, i: nat, j: nat)
    requires ListOk(nodes, n, ks) && i < j < |ks|
    ensures ks[i] != ks[j]
  {
    assert NameOf(nodes, ks, i) != NameOf(nodes, ks, j);
  }

  // ---- appending a child -----------------------------------------------------------------------

  /** The nodes once `node` has been put at the end of the children ks of dir. */
  function Appended(nodes: Nodes, dir: Ref, ks: seq<Ref>, node: Ref, number: nat, name: string): Nodes
    requires dir in nodes && Children(nodes, dir, ks)
  {
    var linked :=
      if ks == [] then nodes[dir := nodes[dir].(children := node)]
      else nodes[ks[|ks| - 1] := nodes[ks[|ks| - 1]].(siblings := node)];
    linked[node := Inode(number, name, dir, NULL, NULL, nodes[dir].fs)]
  }

  predicate Absent(nodes: Nodes, ks: seq<Ref>, name: string) {
    forall k: nat | k < |ks| :: NameOf(nodes, ks, k) != name
  }

  lemma AppendedOther(nodes: Nodes, dir: Ref, ds: seq<Ref>, node: Ref, number: nat, name: string, n: Ref, ks: seq<Ref>)
    requires ListOk(nodes, dir, ds) && ListOk(nodes, n, ks) && node !in nodes && n != dir
    ensures ListOk(Appended(nodes, dir, ds, node, number, name), n, ks)
  {
    var t := Appended(nodes, dir, ds, node, number, name);
    forall k: nat | k < |ks|
      ensures SiblingOf(t, ks, k) == SiblingOf(nodes, ks, k) && NameOf(t, ks, k) == NameOf(nodes, ks, k)
    {
      assert ks[k] in nodes && nodes[ks[k]].parent == n;
    }
  }

  lemma AppendedDir(nodes: Nodes, dir: Ref, ks: seq<Ref>, node: Ref, number: nat, name: string)
    requires ListOk(nodes, dir, ks) && node !in nodes && dir !in ks && Absent(nodes, ks, name)
    ensures ListOk(Appended(nodes, dir, ks, node, number, name), dir, ks + [node])
  {
    var t, all := Appended(nodes, dir, ks, node, number, name), ks + [node];
    forall k: nat | k < |all|
      ensures SiblingOf(t, all, k) == Nth(all, k + 1)
      ensures NameOf(t, all, k) == if k < |ks| then NameOf(nodes, ks, k) else name
    {
      if k < |ks| {
        assert SiblingOf(nodes, ks, k) == Nth(ks, k + 1);
        if k < |ks| - 1 {
          ChildrenDiffer(nodes, dir, ks, k, |ks| - 1);
        }
      }
    }
  }

  function KidsAppended(kids: map<Ref, seq<Ref>>, dir: Ref, node: Ref): map<Ref, seq<Ref>>
    requires dir in kids
  {
    kids[dir := kids[dir] + [node]][node := []]
  }

  lemma AppendedList(nodes: Nodes, kids: map<Ref, seq<Ref>>, dir: Ref, node: Ref, number: nat, name: string, n: Ref)
    requires Shaped(nodes, kids) && dir in nodes && node !in nodes && node != NULL && (n in nodes || n == node)
    requires NameOk(name) && Absent(nodes, kids[dir], name)
    ensures Children(nodes, dir, kids[dir])
    ensures ListOk(Appended(nodes, dir, kids[dir], node, number, name), n, KidsAppended(kids, dir, node)[n])
  {
    assert ListOk(nodes, dir, kids[dir]);
    if n == dir {
      AppendedDir(nodes, dir, kids[dir], node, number, name);
    } else if n != node {
      AppendedOther(nodes, dir, kids[dir], node, number, name, n, kids[n]);
    }
  }

  lemma AppendedName(nodes: Nodes, kids: map<Ref, seq<Ref>>, dir: Ref, node: Ref, number: nat, name: string, n: Ref)
    requires Shaped(nodes, kids) && dir in nodes && node !in nodes && node != NULL && (n in nodes || n == node)
    requires NameOk(name)
    ensures Children(nodes, dir, kids[dir])
    ensures var t := Appended(nodes, dir, kids[dir], node, number, name);
            t.Keys == nodes.Keys + {node} && NameOk(t[n].name) && t[n].parent != n
  {
    assert ListOk(nodes, dir, kids[dir]);
    AppendedFields(nodes, dir, kids[dir], node, number, name, n);
  }

  /** Appending keeps all lists in order. */
  lemma AppendedShaped(nodes: Nodes, kids: map<Ref, seq<Ref>>, dir: Ref, node: Ref, number: nat, name: string)
    requires Shaped(nodes, kids) && dir in nodes && node !in nodes && node != NULL
    requires NameOk(name) && Absent(nodes, kids[dir], name)
    ensures Children(nodes, dir, kids[dir])
    ensures Shaped(Appended(nodes, dir, kids[dir], node, number, name), KidsAppended(kids, dir, node))
  {
    AppendedName(nodes, kids, dir, node, number, name, dir);
    var t, kids' := Appended(nodes, dir, kids[dir], node, number, name), KidsAppended(kids, dir, node);
    forall n | n in t
      ensures NodeOk(t, kids', n)
    {
      AppendedList(nodes, kids, dir, node, number, name, n);
      AppendedName(nodes, kids, dir, node, number, name, n);
    }
  }

  lemma AppendedFields(nodes: Nodes, dir: Ref, ks: seq<Ref>, node: Ref, number: nat, name: string, n: Ref)
    requires dir in nodes && Children(nodes, dir, ks) && node !in nodes && dir != node
    ensures var t := Appended(nodes, dir, ks, node, number, name);
            && t.Keys == nodes.Keys + {node}
            && (n in nodes ==>
                  && t[n].name == nodes[n].name && t[n].number == nodes[n].number && t[n].parent == nodes[n].parent
                  && t[n].fs == nodes[n].fs)
            && t[node] == Inode(number, name, dir, NULL, NULL, nodes[dir].fs)
  {
  }

  /** What may be appended to dir: in a directory of the disk, what is on it. */
  predicate Fitting(disk: Disk, dir: Inode, number: nat, name: string) {
    dir.fs.Ext2? ==> Find(disk, dir.number, name) == Some(number)
  }

  /** The cache still agrees with the disk when what is appended is on it. */
  lemma AppendedAgrees(nodes: Nodes, kids: map<Ref, seq<Ref>>, disk: Disk, dir: Ref, node: Ref, number: nat, name: string)
    requires Shaped(nodes, kids) && Agrees(nodes, kids, disk) && dir in nodes && node !in nodes && node != NULL
    requires Fitting(disk, nodes[dir], number, name)
    ensures Children(nodes, dir, kids[dir])
    ensures Agrees(Appended(nodes, dir, kids[dir], node, number, name), KidsAppended(kids, dir, node), disk)
  {
    assert ListOk(nodes, dir, kids[dir]);
    var t, kids' := Appended(nodes, dir, kids[dir], node, number, name), KidsAppended(kids, dir, node);
    forall n, k | n in t && n in kids' && 0 <= k < |kids'[n]| && kids'[n][k] in t
      ensures AgreesAt(disk, t[n], t[kids'[n][k]])
    {
      AppendedAgreesAt(nodes, kids, disk, dir, node, number, name, n, k);
    }
  }

  lemma AppendedAgreesAt(nodes: Nodes, kids: map<Ref, seq<Ref>>, disk: Disk, dir: Ref, node: Ref, number: nat, name: string,
                         n: Ref, k: nat)
    requires Shaped(nodes, kids) && Agrees(nodes, kids, disk) && dir in nodes && node !in nodes && node != NULL
    requires Fitting(disk, nodes[dir], number, name)
    requires n in KidsAppended(kids, dir, node) && k < |KidsAppended(kids, dir, node)[n]|
    ensures Children(nodes, dir, kids[dir])
    ensures var t, c := Appended(nodes, dir, kids[dir], node, number, name), KidsAppended(kids, dir, node)[n][k];
            n in t && c in t && AgreesAt(disk, t[n], t[c])
  {
    assert ListOk(nodes, dir, kids[dir]);
    var c := KidsAppended(kids, dir, node)[n][k];
    AppendedFields(nodes, dir, kids[dir], node, number, name, n);
    AppendedFields(nodes, dir, kids[dir], node, number, name, c);
    assert ListOk(nodes, n, kids[n]);
    if c != node {
      assert kids[n][k] == c;
    }
  }

  /** The comparison of names_eq: memcmp over the longer length, reading the terminator of the shorter. */
  method NamesEq(a: string, b: string) returns (r: int)
    requires NameOk(a) && NameOk(b)
    ensures r == 0 <==> a == b
  {
    var n := if |a| > |b| then |a| else |b|;
    for i := 0 to n
      invariant i <= |a| && i <= |b| && a[..i] == b[..i]
    {
      var x, y := if i < |a| then a[i] else NUL, if i < |b| then b[i] else NUL;
      assert (i < |a| ==> a[i] in a) && (i < |b| ==> b[i] in b);
      if x < y {
        return -1;
      } else if x > y {
        return 1;
      }
    }
    assert a == a[..n] && b == b[..n];
    return 0;
  }

  // ---- the tree ----------------------------------------------------------------------------------

  /** Child k of n has that name, or n has no child with that name and k is their number. */
  ghost predicate Named(nodes: Nodes, ks: seq<Ref>, name: string, k: nat) {
    && k <= |ks| && (k < |ks| ==> NameOf(nodes, ks, k) == name)
    && forall j: nat | j < k :: NameOf(nodes, ks, j) != name
  }

  /** Old nodes are still there as they were, and their children in the same order. */
  ghost predicate Extends(nodes: Nodes, kids: map<Ref, seq<Ref>>, nodes': Nodes, kids': map<Ref, seq<Ref>>) {
    forall n | n in nodes && n in kids ::
      && n in nodes' && n in kids' && kids[n] <= kids'[n]
      && nodes'[n].number == nodes[n].number && nodes'[n].name == nodes[n].name && nodes'[n].parent == nodes[n].parent
      && nodes'[n].fs == nodes[n].fs
  }

  class Tree {
    const root: Ref
    var nodes: Nodes
    var next: Ref      // references from here on are not in use
    ghost var kids: map<Ref, seq<Ref>>

    ghost predicate Valid(disk: Disk)
      reads this
    {
      && Shaped(nodes, kids) && Agrees(nodes, kids, disk)
      && root in nodes && nodes[root].fs.Ext2? && next > 0 && forall n | n in nodes :: n < next
    }

    constructor (number: nat)
      ensures Valid(map[]) && nodes[root].number == number && kids[root] == []
    {
      root := 1;
      nodes := map[1 := Inode(number, "", NULL, NULL, NULL, Ext2)];
      next := 2;
      kids := map[1 := []];
    }

    method LastChild(dir: Ref, ghost ks: seq<Ref>) returns (i: Ref)
      requires NULL !in nodes && ListOk(nodes, dir, ks) && nodes[dir].children != NULL
      ensures ks != [] && i == ks[|ks| - 1]
    {
      i := nodes[dir].children;
      ghost var k := 0;
      while nodes[i].siblings != NULL
        invariant 0 <= k < |ks| && i == ks[k]
        decreases |ks| - k
      {
        assert SiblingOf(nodes, ks, k) == Nth(ks, k + 1);
        i := nodes[i].siblings;
        k := k + 1;
      }
      assert SiblingOf(nodes, ks, k) == Nth(ks, k + 1);
    }

    /** A new child at the end of the list of `dir` (fs/vfs.c:47-57, 80-90). */
    method AddChild(dir: Ref, number: nat, name: string) returns (node: Ref)
      requires NULL !in nodes && dir in kids && ListOk(nodes, dir, kids[dir]) && next !in nodes
      modifies this
      ensures node == old(next) && next == node + 1 && kids == KidsAppended(old(kids), dir, node)
      ensures Children(old(nodes), dir, old(kids)[dir]) && nodes == Appended(old(nodes), dir, old(kids)[dir], node, number, name)
    {
      node := next;
      next := next + 1;
      if nodes[dir].children == NULL {
        assert kids[dir] == [];
        nodes := nodes[dir := nodes[dir].(children := node)];
      } else {
        var last := LastChild(dir, kids[dir]);
        nodes := nodes[last := nodes[last].(siblings := node)];
      }
      nodes := nodes[node := Inode(number, name, dir, NULL, NULL, nodes[dir].fs)];
      kids := kids[dir := kids[dir] + [node]][node := []];
    }

    /** The first child with that name, in the order of the list. */
    method Scan(w: Ref, name: string, ghost ks: seq<Ref>) returns (r: Ref, ghost k: nat)
      requires NULL !in nodes && ListOk(nodes, w, ks) && NameOk(name)
      requires forall i: nat | i < |ks| :: NameOk(NameOf(nodes, ks, i))
      ensures Named(nodes, ks, name, k) && r == Nth(ks, k)
    {
      r := nodes[w].children;
      k := 0;
      while r != NULL
        invariant k <= |ks| && r == Nth(ks, k)
        invariant forall j: nat | j < k :: NameOf(nodes, ks, j) != name
        decreases |ks| - k
      {
        assert NameOf(nodes, ks, k) == nodes[r].name;
        var c := NamesEq(name, nodes[r].name);
        if c == 0 {
          return;
        }
        assert SiblingOf(nodes, ks, k) == Nth(ks, k + 1);
        r := nodes[r].siblings;
        k := k + 1;
      }
    }

    /** The child of w with that name in the cache, or NULL. */
    method FindCached(w: Ref, name: string) returns (r: Ref)
      requires Shaped(nodes, kids) && w in nodes && NameOk(name)
      ensures r == NULL <==> Absent(nodes, kids[w], name)
      ensures r != NULL ==> Child(nodes, kids, w, name, r)
    {
      assert ListOk(nodes, w, kids[w]);
      ghost var k;
      r, k := Scan(w, name, kids[w]);
    }

    /** A child that the disk has under that name joins the cache. */
    method AddFound(dir: Ref, number: nat, name: string, ghost disk: Disk) returns (node: Ref)
      requires Valid(disk) && dir in nodes && NameOk(name) && Absent(nodes, kids[dir], name)
      requires nodes[dir].fs.Ext2? && Find(disk, nodes[dir].number, name) == Some(number)
      modifies this
      ensures Valid(disk) && Grows(old(nodes), old(kids), nodes, kids)
      ensures node in nodes && nodes[node].number == number && nodes[node].fs.Ext2? && kids[node] == []
      ensures Child(nodes, kids, dir, name, node)
    {
      ghost var t, kids' := AppendedGrows(nodes, kids, disk, dir, next, number, name);
      node := Join(dir, number, name, t, kids');
    }

    method Join(dir: Ref, number: nat, name: string, ghost t: Nodes, ghost kids': map<Ref, seq<Ref>>) returns (node: Ref)
      requires NULL !in nodes && next !in nodes && Joined(nodes, kids, dir, next, number, name, t, kids')
      modifies this
      ensures nodes == t && kids == kids' && node == old(next) && next == node + 1
    {
      node := AddChild(dir, number, name);
    }

    /** searchfunc: the cached child, or in a directory of the disk what is on it, which is then cached. */
    method SearchFunc(w: Ref, name: string, vol: Volume, ghost disk: Disk) returns (r: Ref)
      requires Valid(disk) && vol.Holds(disk) && (w == NULL || w in nodes) && NameOk(name)
      modifies this
      ensures Valid(disk) && Grows(old(nodes), old(kids), nodes, kids)
      ensures w == NULL ==> r == NULL
      ensures r == NULL ==> nodes == old(nodes) && kids == old(kids)
      ensures w != NULL ==> Answered(old(nodes), old(kids), disk, w, name, nodes, kids, r)
    {
      NoDevicesRefl(nodes, kids);
      if w == NULL {
        return NULL;
      }
      r := FindCached(w, name);
      if r != NULL {
        return;
      }
      if nodes[w].fs.Devfs? {
        return NULL;
      }
      var found := vol.Search(nodes[w].number, name, disk);
      if found.Some? {
        r := AddFound(w, found.value, name, disk);
      }
    }
  }

  /** The answer for one name in w, whose children in the cache are kids[w]. */
  ghost predicate Answered(nodes: Nodes, kids: map<Ref, seq<Ref>>, disk: Disk, w: Ref, name: string,
                           nodes': Nodes, kids': map<Ref, seq<Ref>>, r: Ref)
    requires w in nodes && w in kids
  {
    if !Absent(nodes, kids[w], name) then
      nodes' == nodes && kids' == kids && r != NULL && Child(nodes, kids, w, name, r)
    else if nodes[w].fs.Devfs? || Find(disk, nodes[w].number, name) == None then
      nodes' == nodes && kids' == kids && r == NULL
    else
      && r != NULL && Child(nodes', kids', w, name, r) && r in nodes' && r in kids' && kids'[r] == []
      && nodes'[r].fs.Ext2? && Find(disk, nodes[w].number, name) == Some(nodes'[r].number)
  }

  /** r is the child of n with that name. */
  ghost predicate Child(nodes: Nodes, kids: map<Ref, seq<Ref>>, n: Ref, name: string, r: Ref) {
    n in kids && exists k: nat :: k < |kids[n]| && kids[n][k] == r && NameOf(nodes, kids[n], k) == name
  }

  lemma AppendedExtends(nodes: Nodes, kids: map<Ref, seq<Ref>>, dir: Ref, node: Ref, number: nat, name: string)
    requires Shaped(nodes, kids) && dir in nodes && node !in nodes && node != NULL
    ensures Children(nodes, dir, kids[dir])
    ensures var t, kids' := Appended(nodes, dir, kids[dir], node, number, name), KidsAppended(kids, dir, node);
            Extends(nodes, kids, t, kids') && Child(t, kids', dir, name, node)
  {
    assert ListOk(nodes, dir, kids[dir]);
    var t, kids' := Appended(nodes, dir, kids[dir], node, number, name), KidsAppended(kids, dir, node);
    forall n | n in nodes && n in kids
      ensures n in t && kids[n] <= kids'[n]
      ensures t[n].number == nodes[n].number && t[n].name == nodes[n].name && t[n].parent == nodes[n].parent
      ensures t[n].fs == nodes[n].fs
    {
      AppendedFields(nodes, dir, kids[dir], node, number, name, n);
    }
    assert kids'[dir][|kids[dir]|] == node && NameOf(t, kids'[dir], |kids[dir]|) == name;
  }

  // ---- paths through the cache -------------------------------------------------------------------

  /** Following the names from n, all in the cache, leads to r. */
  ghost predicate Cached(nodes: Nodes, kids: map<Ref, seq<Ref>>, n: Ref, names: seq<string>, r: Ref)
    decreases |names|
  {
    if names == [] then r == n
    else exists c :: Child(nodes, kids, n, names[0], c) && Cached(nodes, kids, c, names[1..], r)
  }

  lemma ChildUnique(nodes: Nodes, kids: map<Ref, seq<Ref>>, n: Ref, name: string, c: Ref, d: Ref)
    requires Shaped(nodes, kids) && Child(nodes, kids, n, name, c) && Child(nodes, kids, n, name, d)
    ensures c == d && c in nodes && !Absent(nodes, kids[n], name)
  {
    assert ListOk(nodes, n, kids[n]);
    var i: nat :| i < |kids[n]| && kids[n][i] == c && NameOf(nodes, kids[n], i) == name;
    var j: nat :| j < |kids[n]| && kids[n][j] == d && NameOf(nodes, kids[n], j) == name;
    assert i == j;
  }

  lemma {:induction false} CachedExtends(nodes: Nodes, kids: map<Ref, seq<Ref>>, nodes': Nodes, kids': map<Ref, seq<Ref>>,
                                         n: Ref, names: seq<string>, r: Ref)
    requires Shaped(nodes, kids) && Extends(nodes, kids, nodes', kids') && Cached(nodes, kids, n, names, r)
    ensures Cached(nodes', kids', n, names, r)
    decreases |names|
  {
    if names != [] {
      var c :| Child(nodes, kids, n, names[0], c) && Cached(nodes, kids, c, names[1..], r);
      ChildExtends(nodes, kids, nodes', kids', n, names[0], c);
      CachedExtends(nodes, kids, nodes', kids', c, names[1..], r);
    }
  }

  lemma ChildExtends(nodes: Nodes, kids: map<Ref, seq<Ref>>, nodes': Nodes, kids': map<Ref, seq<Ref>>, n: Ref,
                     name: string, c: Ref)
    requires Shaped(nodes, kids) && Extends(nodes, kids, nodes', kids') && Child(nodes, kids, n, name, c)
    ensures Child(nodes', kids', n, name, c)
  {
    ChildUnique(nodes, kids, n, name, c, c);
    var i: nat :| i < |kids[n]| && kids[n][i] == c && NameOf(nodes, kids[n], i) == name;
    assert kids'[n][i] == c && NameOf(nodes', kids'[n], i) == name;
  }

  lemma {:induction false} CachedSnoc(nodes: Nodes, kids: map<Ref, seq<Ref>>, n: Ref, names: seq<string>, m: Ref,
                                      name: string, r: Ref)
    requires Cached(nodes, kids, n, names, m) && Child(nodes, kids, m, name, r)
    ensures Cached(nodes, kids, n, names + [name], r)
    decreases |names|
  {
    if names == [] {
      assert (names + [name])[1..] == [];
      assert Cached(nodes, kids, r, [], r);
    } else {
      var c :| Child(nodes, kids, n, names[0], c) && Cached(nodes, kids, c, names[1..], m);
      CachedSnoc(nodes, kids, c, names[1..], m, name, r);
      assert (names + [name])[1..] == names[1..] + [name];
    }
  }

  lemma {:induction false} CachedUnique(nodes: Nodes, kids: map<Ref, seq<Ref>>, n: Ref, names: seq<string>, r: Ref, q: Ref)
    requires Shaped(nodes, kids) && Cached(nodes, kids, n, names, r) && Cached(nodes, kids, n, names, q)
    ensures r == q
    decreases |names|
  {
    if names != [] {
      var c :| Child(nodes, kids, n, names[0], c) && Cached(nodes, kids, c, names[1..], r);
      var d :| Child(nodes, kids, n, names[0], d) && Cached(nodes, kids, d, names[1..], q);
      ChildUnique(nodes, kids, n, names[0], c, d);
      CachedUnique(nodes, kids, c, names[1..], r, q);
    }
  }

  // ---- devices -----------------------------------------------------------------------------------

  /** Following the names from n, as far as they are cached, leads to a device. */
  ghost predicate Enters(nodes: Nodes, kids: map<Ref, seq<Ref>>, n: Ref, names: seq<string>)
    decreases |names|
  {
    || (n in nodes && nodes[n].fs.Devfs?)
    || (names != [] && exists c :: Child(nodes, kids, n, names[0], c) && Enters(nodes, kids, c, names[1..]))
  }

  /** No path from an old node enters a device that did not before. */
  ghost predicate NoNewDevices(nodes: Nodes, kids: map<Ref, seq<Ref>>, nodes': Nodes, kids': map<Ref, seq<Ref>>) {
    forall n, names :: EntersOnly(nodes, kids, nodes', kids', n, names)
  }

  ghost predicate EntersOnly(nodes: Nodes, kids: map<Ref, seq<Ref>>, nodes': Nodes, kids': map<Ref, seq<Ref>>,
                             n: Ref, names: seq<string>) {
    n in nodes && Enters(nodes', kids', n, names) ==> Enters(nodes, kids, n, names)
  }

  lemma NoDevicesRefl(nodes: Nodes, kids: map<Ref, seq<Ref>>)
    ensures NoNewDevices(nodes, kids, nodes, kids)
  {
  }

  /** What a lookup does to the tree. */
  ghost predicate Grows(nodes: Nodes, kids: map<Ref, seq<Ref>>, nodes': Nodes, kids': map<Ref, seq<Ref>>) {
    nodes.Keys == kids.Keys && Extends(nodes, kids, nodes', kids') && NoNewDevices(nodes, kids, nodes', kids')
  }

  lemma GrowsTrans(a: Nodes, ka: map<Ref, seq<Ref>>, b: Nodes, kb: map<Ref, seq<Ref>>, c: Nodes, kc: map<Ref, seq<Ref>>)
    requires Grows(a, ka, b, kb) && Grows(b, kb, c, kc)
    ensures Grows(a, ka, c, kc)
  {
    forall n, names
      ensures EntersOnly(a, ka, c, kc, n, names)
    {
      assert EntersOnly(a, ka, b, kb, n, names) && EntersOnly(b, kb, c, kc, n, names);
    }
  }

  /** A child after the append is the appended node or was a child before. */
  lemma AppendedChild(nodes: Nodes, kids: map<Ref, seq<Ref>>, dir: Ref, node: Ref, number: nat, name: string, n: Ref,
                      x: string, c: Ref)
    requires Shaped(nodes, kids) && dir in nodes && node !in nodes && node != NULL && n in nodes
    requires Children(nodes, dir, kids[dir])
    requires Child(Appended(nodes, dir, kids[dir], node, number, name), KidsAppended(kids, dir, node), n, x, c)
    ensures c == node || (c in nodes && Child(nodes, kids, n, x, c))
  {
    var t, kids' := Appended(nodes, dir, kids[dir], node, number, name), KidsAppended(kids, dir, node);
    assert ListOk(nodes, n, kids[n]);
    var k: nat :| k < |kids'[n]| && kids'[n][k] == c && NameOf(t, kids'[n], k) == x;
    if c != node {
      assert kids[n][k] == c;
      AppendedFields(nodes, dir, kids[dir], node, number, name, c);
      assert NameOf(nodes, kids[n], k) == x;
    }
  }

  lemma {:induction false} AppendedEnters(nodes: Nodes, kids: map<Ref, seq<Ref>>, dir: Ref, node: Ref, number: nat,
                                          name: string,
                                          t: Nodes, kids': map<Ref, seq<Ref>>, n: Ref, names: seq<string>)
    requires Shaped(nodes, kids) && dir in nodes && node !in nodes && node != NULL && n in nodes && nodes[dir].fs.Ext2?
    requires Children(nodes, dir, kids[dir])
    requires t == Appended(nodes, dir, kids[dir], node, number, name) && kids' == KidsAppended(kids, dir, node)
    requires Enters(t, kids', n, names)
    ensures Enters(nodes, kids, n, names)
    decreases |names|
  {
    AppendedFields(nodes, dir, kids[dir], node, number, name, n);
    if !nodes[n].fs.Devfs? {
      var c :| Child(t, kids', n, names[0], c) && Enters(t, kids', c, names[1..]);
      AppendedChild(nodes, kids, dir, node, number, name, n, names[0], c);
      assert c != node;
      AppendedEnters(nodes, kids, dir, node, number, name, t, kids', c, names[1..]);
    }
  }

  lemma AppendedNoDevices(nodes: Nodes, kids: map<Ref, seq<Ref>>, dir: Ref, node: Ref, number: nat, name: string)
    requires Shaped(nodes, kids) && dir in nodes && node !in nodes && node != NULL && nodes[dir].fs.Ext2?
    ensures Children(nodes, dir, kids[dir])
    ensures NoNewDevices(nodes, kids, Appended(nodes, dir, kids[dir], node, number, name), KidsAppended(kids, dir, node))
  {
    assert ListOk(nodes, dir, kids[dir]);
    var t, kids' := Appended(nodes, dir, kids[dir], node, number, name), KidsAppended(kids, dir, node);
    forall n, names
      ensures EntersOnly(nodes, kids, t, kids', n, names)
    {
      if n in nodes && Enters(t, kids', n, names) {
        AppendedEnters(nodes, kids, dir, node, number, name, t, kids', n, names);
      }
    }
  }

  lemma AppendedAll(nodes: Nodes, kids: map<Ref, seq<Ref>>, disk: Disk, dir: Ref, node: Ref, number: nat, name: string)
    returns (t: Nodes, kids': map<Ref, seq<Ref>>)
    requires Shaped(nodes, kids) && Agrees(nodes, kids, disk) && dir in nodes && node !in nodes && node != NULL
    requires NameOk(name) && Absent(nodes, kids[dir], name) && Fitting(disk, nodes[dir], number, name)
    ensures ListOk(nodes, dir, kids[dir])
    ensures t == Appended(nodes, dir, kids[dir], node, number, name) && kids' == KidsAppended(kids, dir, node)
    ensures Shaped(t, kids') && Agrees(t, kids', disk) && Extends(nodes, kids, t, kids') && Child(t, kids', dir, name, node)
    ensures t.Keys == nodes.Keys + {node} && t[node].number == number && t[node].fs == nodes[dir].fs && kids'[node] == []
  {
    AppendedShaped(nodes, kids, dir, node, number, name);
    AppendedAgrees(nodes, kids, disk, dir, node, number, name);
    AppendedExtends(nodes, kids, dir, node, number, name);
    AppendedFields(nodes, dir, kids[dir], node, number, name, dir);
    t, kids' := Appended(nodes, dir, kids[dir], node, number, name), KidsAppended(kids, dir, node);
  }

  /** What AddChild leaves. */
  ghost predicate Joined(nodes: Nodes, kids: map<Ref, seq<Ref>>, dir: Ref, node: Ref, number: nat, name: string,
                         t: Nodes, kids': map<Ref, seq<Ref>>)
  {
    && dir in kids && ListOk(nodes, dir, kids[dir])
    && t == Appended(nodes, dir, kids[dir], node, number, name) && kids' == KidsAppended(kids, dir, node)
  }

  lemma AppendedGrows(nodes: Nodes, kids: map<Ref, seq<Ref>>, disk: Disk, dir: Ref, node: Ref, number: nat, name: string)
    returns (t: Nodes, kids': map<Ref, seq<Ref>>)
    requires Shaped(nodes, kids) && Agrees(nodes, kids, disk) && dir in nodes && node !in nodes && node != NULL
    requires NameOk(name) && Absent(nodes, kids[dir], name)
    requires nodes[dir].fs.Ext2? && Find(disk, nodes[dir].number, name) == Some(number)
    ensures Joined(nodes, kids, dir, node, number, name, t, kids') && t.Keys == nodes.Keys + {node}
    ensures Shaped(t, kids') && Agrees(t, kids', disk) && Grows(nodes, kids, t, kids') && Child(t, kids', dir, name, node)
    ensures t[node].number == number && t[node].fs.Ext2? && kids'[node] == []
    ensures forall n | n in nodes :: t[n].fs == nodes[n].fs
  {
    t, kids' := AppendedAll(nodes, kids, disk, dir, node, number, name);
    AppendedNoDevices(nodes, kids, dir, node, number, name);
  }

  // ---- what a path names -------------------------------------------------------------------------

  datatype Answer = Node(r: Ref) | Fresh(number: nat) | NoFile | NoDevice

  function OfDisk(found: Option<nat>): Answer {
    match found case None => NoFile case Some(number) => Fresh(number)
  }

  /** What the names lead to from n: the cache as far as it goes, then the disk; a device has no more than
      what is cached. */
  ghost function Resolve(nodes: Nodes, kids: map<Ref, seq<Ref>>, disk: Disk, n: Ref, names: seq<string>): Answer
    decreases |names|
  {
    if names == [] then Node(n)
    else if exists c :: Child(nodes, kids, n, names[0], c) then
      var c :| Child(nodes, kids, n, names[0], c);
      Resolve(nodes, kids, disk, c, names[1..])
    else if n in nodes && nodes[n].fs.Ext2? then OfDisk(Walk(disk, nodes[n].number, names))
    else NoDevice
  }

  lemma ResolveHit(nodes: Nodes, kids: map<Ref, seq<Ref>>, disk: Disk, n: Ref, names: seq<string>, c: Ref)
    requires Shaped(nodes, kids) && names != [] && Child(nodes, kids, n, names[0], c)
    ensures Resolve(nodes, kids, disk, n, names) == Resolve(nodes, kids, disk, c, names[1..])
  {
    var d :| Child(nodes, kids, n, names[0], d) && Resolve(nodes, kids, disk, n, names) == Resolve(nodes, kids, disk, d, names[1..]);
    ChildUnique(nodes, kids, n, names[0], c, d);
  }

  lemma ResolveMiss(nodes: Nodes, kids: map<Ref, seq<Ref>>, disk: Disk, n: Ref, names: seq<string>)
    requires Shaped(nodes, kids) && names != [] && n in nodes && Absent(nodes, kids[n], names[0])
    ensures Resolve(nodes, kids, disk, n, names) ==
            if nodes[n].fs.Ext2? then OfDisk(Walk(disk, nodes[n].number, names)) else NoDevice
  {
    assert !exists c :: Child(nodes, kids, n, names[0], c);
  }

  /** A path that is cached as a whole leads to its node. */
  lemma {:induction false} CachedResolves(nodes: Nodes, kids: map<Ref, seq<Ref>>, disk: Disk, n: Ref,
                                          names: seq<string>, x: Ref)
    requires Shaped(nodes, kids) && Cached(nodes, kids, n, names, x)
    ensures Resolve(nodes, kids, disk, n, names) == Node(x)
    decreases |names|
  {
    if names != [] {
      var c :| Child(nodes, kids, n, names[0], c) && Cached(nodes, kids, c, names[1..], x);
      ResolveHit(nodes, kids, disk, n, names, c);
      CachedResolves(nodes, kids, disk, c, names[1..], x);
    }
  }

  lemma {:induction false} ResolvesCached(nodes: Nodes, kids: map<Ref, seq<Ref>>, disk: Disk, n: Ref, names: seq<string>)
    requires Resolve(nodes, kids, disk, n, names).Node?
    ensures Cached(nodes, kids, n, names, Resolve(nodes, kids, disk, n, names).r)
    decreases |names|
  {
    if names != [] {
      var c :| Child(nodes, kids, n, names[0], c) && Resolve(nodes, kids, disk, n, names) == Resolve(nodes, kids, disk, c, names[1..]);
      ResolvesCached(nodes, kids, disk, c, names[1..]);
    }
  }

  lemma ChildAgrees(nodes: Nodes, kids: map<Ref, seq<Ref>>, disk: Disk, n: Ref, name: string, c: Ref)
    requires Shaped(nodes, kids) && Agrees(nodes, kids, disk) && Child(nodes, kids, n, name, c)
    ensures n in nodes && c in nodes && nodes[c].name == name && AgreesAt(disk, nodes[n], nodes[c])
  {
    ChildUnique(nodes, kids, n, name, c, c);
    var i: nat :| i < |kids[n]| && kids[n][i] == c && NameOf(nodes, kids[n], i) == name;
  }

  /** A path that enters a device leads to a device or nowhere. */
  lemma {:induction false} ResolveInDevice(nodes: Nodes, kids: map<Ref, seq<Ref>>, disk: Disk, n: Ref, names: seq<string>)
    requires Shaped(nodes, kids) && Agrees(nodes, kids, disk) && n in nodes && Enters(nodes, kids, n, names)
    ensures var a := Resolve(nodes, kids, disk, n, names);
            a == NoDevice || (a.Node? && a.r in nodes && nodes[a.r].fs.Devfs?)
    decreases |names|
  {
    if names != [] {
      if c :| Child(nodes, kids, n, names[0], c) {
        ChildAgrees(nodes, kids, disk, n, names[0], c);
        ResolveHit(nodes, kids, disk, n, names, c);
        if !nodes[n].fs.Devfs? {
          var d :| Child(nodes, kids, n, names[0], d) && Enters(nodes, kids, d, names[1..]);
          ChildUnique(nodes, kids, n, names[0], c, d);
        }
        ResolveInDevice(nodes, kids, disk, c, names[1..]);
      }
    }
  }

  /** A path that does not enter a device leads to what the search on disk alone finds. */
  lemma {:induction false} ResolveOnDisk(nodes: Nodes, kids: map<Ref, seq<Ref>>, disk: Disk, n: Ref, names: seq<string>)
    requires Shaped(nodes, kids) && Agrees(nodes, kids, disk) && n in nodes && !Enters(nodes, kids, n, names)
    ensures var a := Resolve(nodes, kids, disk, n, names);
            match Walk(disk, nodes[n].number, names)
            case None => a == NoFile
            case Some(m) => a == Fresh(m) || (a.Node? && a.r in nodes && nodes[a.r].fs.Ext2? && nodes[a.r].number == m)
    decreases |names|
  {
    if names != [] {
      if c :| Child(nodes, kids, n, names[0], c) {
        ChildAgrees(nodes, kids, disk, n, names[0], c);
        ResolveHit(nodes, kids, disk, n, names, c);
        ResolveOnDisk(nodes, kids, disk, c, names[1..]);
      }
    }
  }

  /** Components of a path that fits the buffer are names that fit an inode. */
  lemma {:induction false} ComponentNames(cur: string, s: string)
    requires Plain(cur) && Plain(s) && |cur| + |s| < 256
    ensures forall c | c in Split(cur, s) :: NameOk(c)
    decreases |s|
  {
    if s != "" {
      if s[0] == SLASH {
        ComponentNames("", s[1..]);
      } else {
        ComponentNames(cur + [s[0]], s[1..]);
      }
    }
  }

  lemma MoveName(done: seq<string>, rest: seq<string>)
    requires rest != []
    ensures done + [rest[0]] + rest[1..] == done + rest
  {
  }

  /** The components that strtok finds in a copy of the path, in order. */
  method Components(path: string) returns (names: seq<string>)
    requires NameOk(path)
    ensures names == Tokens(path)
  {
    var buf := new char[256](i => if 0 <= i < |path| then path[i] else NUL);
    PathInBuffer(buf[..], path);
    var tok := new Tokenizer();
    ghost var rest := Tokens(path);
    var p := tok.Strtok(buf, Some(0));
    names := [];
    while p.Some?
      invariant names + rest == Tokens(path) && (p.None? <==> rest == [])
      invariant tok.lastp.Some? ==> Terminated(buf[..], tok.lastp.value)
      invariant p.Some? ==> Terminated(buf[..], p.value) && CStr(buf[..], p.value) == rest[0] && tok.Pending(buf[..]) == rest[1..]
      decreases |rest|
    {
      MoveName(names, rest);
      names := names + [CStr(buf[..], p.value)];
      rest := rest[1..];
      p := tok.Strtok(buf, None);
    }
  }

  lemma PathInBuffer(s: seq<char>, path: string)
    requires |path| < |s| && NUL !in path
    requires forall i | 0 <= i < |s| :: s[i] == if i < |path| then path[i] else NUL
    ensures Terminated(s, 0) && CStr(s, 0) == path
  {
    assert s[0..|path|] == path;
    CStrPrefix(s, 0, |path|);
    assert CStr(s, |path|) == "";
  }

  /** Where a walk that began in (nodes, kids) stands at w in (now, nowKids), with `rest` to go: nowhere, still
      in what was cached, or in what it has just found on disk. */
  ghost predicate Midway(nodes: Nodes, kids: map<Ref, seq<Ref>>, now: Nodes, nowKids: map<Ref, seq<Ref>>, disk: Disk,
                         w: Ref, rest: seq<string>, goal: Answer)
  {
    if w == NULL then goal == NoFile || (goal == NoDevice && now == nodes && nowKids == kids)
    else
      && w in now && w in nowKids
      && (|| (now == nodes && nowKids == kids && goal == Resolve(nodes, kids, disk, w, rest))
          || (nowKids[w] == [] && now[w].fs.Ext2? && goal == OfDisk(Walk(disk, now[w].number, rest))))
  }

  /** One component further. */
  lemma Stepped(nodes: Nodes, kids: map<Ref, seq<Ref>>, now: Nodes, nowKids: map<Ref, seq<Ref>>, disk: Disk, w: Ref,
                rest: seq<string>,
                goal: Answer, after: Nodes, afterKids: map<Ref, seq<Ref>>, r: Ref)
    requires Shaped(now, nowKids) && rest != [] && w != NULL && Midway(nodes, kids, now, nowKids, disk, w, rest, goal)
    requires Answered(now, nowKids, disk, w, rest[0], after, afterKids, r)
    ensures Midway(nodes, kids, after, afterKids, disk, r, rest[1..], goal)
  {
    if Absent(now, nowKids[w], rest[0]) {
      ResolveMiss(now, nowKids, disk, w, rest);
    } else {
      ChildUnique(now, nowKids, w, rest[0], r, r);
      ResolveHit(now, nowKids, disk, w, rest, r);
    }
  }

  lemma CachedNext(nodes: Nodes, kids: map<Ref, seq<Ref>>, nodes': Nodes, kids': map<Ref, seq<Ref>>, n: Ref,
                   names: seq<string>,
                   m: Ref, name: string, r: Ref)
    requires Shaped(nodes, kids) && Extends(nodes, kids, nodes', kids') && Cached(nodes, kids, n, names, m)
    requires Child(nodes', kids', m, name, r)
    ensures Cached(nodes', kids', n, names + [name], r)
  {
    CachedExtends(nodes, kids, nodes', kids', n, names, m);
    CachedSnoc(nodes', kids', n, names, m, name, r);
  }

  /** One component of the walk. */
  method WalkOne(tree: Tree, vol: Volume, ghost disk: Disk, w: Ref, name: string, ghost node: Ref, ghost done: seq<string>,
                 ghost rest: seq<string>, ghost goal: Answer, ghost nodes: Nodes, ghost kids: map<Ref, seq<Ref>>)
    returns (r: Ref)
    requires tree.Valid(disk) && vol.Holds(disk) && NameOk(name) && rest != [] && rest[0] == name
    requires Grows(nodes, kids, tree.nodes, tree.kids) && Midway(nodes, kids, tree.nodes, tree.kids, disk, w, rest, goal)
    requires w != NULL ==> Cached(tree.nodes, tree.kids, node, done, w)
    modifies tree
    ensures tree.Valid(disk) && Grows(nodes, kids, tree.nodes, tree.kids)
    ensures Midway(nodes, kids, tree.nodes, tree.kids, disk, r, rest[1..], goal)
    ensures r != NULL ==> Cached(tree.nodes, tree.kids, node, done + [name], r)
  {
    ghost var now, nowKids := tree.nodes, tree.kids;
    r := tree.SearchFunc(w, name, vol, disk);
    GrowsTrans(nodes, kids, now, nowKids, tree.nodes, tree.kids);
    if w != NULL {
      Stepped(nodes, kids, now, nowKids, disk, w, rest, goal, tree.nodes, tree.kids, r);
    }
    if r != NULL {
      CachedNext(now, nowKids, tree.nodes, tree.kids, node, done, w, name, r);
    }
  }

  /** What a walk along the names finds: where they are all cached that node, on disk what is there, and
      below a device only what is cached. */
  ghost predicate Finds(nodes: Nodes, kids: map<Ref, seq<Ref>>, disk: Disk, node: Ref, names: seq<string>,
                        nodes': Nodes, kids': map<Ref, seq<Ref>>, r: Ref)
    requires node in nodes
  {
    && (r != NULL ==> r in nodes' && Cached(nodes', kids', node, names, r))
    && (r != NULL ==> Cached(nodes, kids, node, names, r) || (r in kids' && kids'[r] == []))
    && (forall x | Cached(nodes, kids, node, names, x) :: r == x && nodes' == nodes && kids' == kids)
    && if Enters(nodes, kids, node, names) then
         nodes' == nodes && kids' == kids && (r != NULL ==> nodes[r].fs.Devfs?)
       else
         match Walk(disk, nodes[node].number, names)
         case None => r == NULL
         case Some(number) => r != NULL && nodes'[r].number == number && nodes'[r].fs.Ext2?
  }

  /** The end of the walk. */
  lemma Arrived(nodes: Nodes, kids: map<Ref, seq<Ref>>, now: Nodes, nowKids: map<Ref, seq<Ref>>, disk: Disk,
                node: Ref, names: seq<string>, r: Ref)
    requires Shaped(nodes, kids) && Agrees(nodes, kids, disk) && node in nodes
    requires Midway(nodes, kids, now, nowKids, disk, r, [], Resolve(nodes, kids, disk, node, names))
    requires r != NULL ==> Cached(now, nowKids, node, names, r)
    ensures Finds(nodes, kids, disk, node, names, now, nowKids, r)
  {
    if Resolve(nodes, kids, disk, node, names).Node? {
      ResolvesCached(nodes, kids, disk, node, names);
    }
    forall x | Cached(nodes, kids, node, names, x)
      ensures r == x && now == nodes && nowKids == kids
    {
      CachedResolves(nodes, kids, disk, node, names, x);
    }
    if Enters(nodes, kids, node, names) {
      ResolveInDevice(nodes, kids, disk, node, names);
    } else {
      ResolveOnDisk(nodes, kids, disk, node, names);
    }
  }

  lemma NextName(names: seq<string>, i: nat)
    requires i < |names|
    ensures names[i..] != [] && names[i..][0] == names[i] && names[i] in names
    ensures names[..i] + [names[i]] == names[..i + 1] && names[i..][1..] == names[i + 1..]
  {
  }

  /** The loop over the components. */
  method WalkAll(tree: Tree, node: Ref, names: seq<string>, vol: Volume, ghost disk: Disk, ghost goal: Answer,
                 ghost nodes: Nodes, ghost kids: map<Ref, seq<Ref>>)
    returns (r: Ref)
    requires tree.Valid(disk) && vol.Holds(disk) && node in tree.nodes && forall c | c in names :: NameOk(c)
    requires Grows(nodes, kids, tree.nodes, tree.kids) && Midway(nodes, kids, tree.nodes, tree.kids, disk, node, names, goal)
    modifies tree
    ensures tree.Valid(disk) && Grows(nodes, kids, tree.nodes, tree.kids) && Midway(nodes, kids, tree.nodes, tree.kids, disk, r, [], goal)
    ensures r != NULL ==> Cached(tree.nodes, tree.kids, node, names, r)
  {
    r := node;
    assert names[0..] == names && names[..|names|] == names && names[|names|..] == [];
    for i := 0 to |names|
      invariant tree.Valid(disk) && Grows(nodes, kids, tree.nodes, tree.kids)
      invariant Midway(nodes, kids, tree.nodes, tree.kids, disk, r, names[i..], goal)
      invariant r != NULL ==> Cached(tree.nodes, tree.kids, node, names[..i], r)
    {
      NextName(names, i);
      r := WalkOne(tree, vol, disk, r, names[i], node, names[..i], names[i..], goal, nodes, kids);
    }
  }

  /** vfs_search: the same answer as the search without a cache, and an answer that stays. */
  method VfsSearch(tree: Tree, node: Ref, path: string, vol: Volume, ghost disk: Disk) returns (r: Ref)
    requires tree.Valid(disk) && vol.Holds(disk) && node in tree.nodes && NameOk(path)
    modifies tree
    ensures tree.Valid(disk) && Grows(old(tree.nodes), old(tree.kids), tree.nodes, tree.kids)
    ensures path == "/" ==> r == tree.root
    ensures path != "/" && Tokens(path) == [] ==> r == NULL
    ensures path == "/" || Tokens(path) == [] ==> tree.nodes == old(tree.nodes) && tree.kids == old(tree.kids)
    ensures path != "/" && Tokens(path) != [] ==>
              Finds(old(tree.nodes), old(tree.kids), disk, node, Tokens(path), tree.nodes, tree.kids, r)
  {
    ghost var nodes, kids := tree.nodes, tree.kids;
    NoDevicesRefl(nodes, kids);
    if |path| == 1 && path[0] == SLASH {
      return tree.root;
    }
    ComponentNames("", path);
    var names := Components(path);
    if names == [] {
      return NULL;
    }
    r := WalkAll(tree, node, names, vol, disk, Resolve(nodes, kids, disk, node, names), nodes, kids);
    Arrived(nodes, kids, tree.nodes, tree.kids, disk, node, names, r);
  }
}
