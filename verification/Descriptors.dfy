/**
 Open files and descriptor tables (syscall/syscalls.c:58-85, 147-192, 354-382; task/process.c:41-52,
 151-162; fs/vfs.c:95-175): the reference count of an open file against the slots that hold it.
 */
module Descriptors {

  import opened Basics

  const FD_MAX := 256

  type Pid = nat

  /** The inode behind a file is the root of the file system, or has a parent. */
  datatype Kind = RootNode | ChildNode

  datatype File = File(refcount: nat, kind: Kind)

  type Table = t: seq<Ref> | |t| == 256 witness seq(256, _ => 0)

  // ---- counting slots ----------------------------------------------------------------------------

  /** The descriptor slots of all processes that hold file f. */
  ghost function Slots(fds: map<Pid, Table>, f: Ref): set<(Pid, nat)> {
    set p, i | p in fds && 0 <= i < FD_MAX && fds[p][i] == f :: (p, i)
  }

  function Put(t: Table, i: nat, g: Ref): Table
    requires i < FD_MAX
  {
    t[i := g]
  }

  lemma WrittenSlots(fds: map<Pid, Table>, p: Pid, i: nat, g: Ref, f: Ref)
    requires p in fds && i < FD_MAX
    ensures Slots(fds[p := Put(fds[p], i, g)], f) == Slots(fds, f) - {(p, i)} + if g == f then {(p, i)} else {}
  {
    var fds' := fds[p := Put(fds[p], i, g)];
    forall q, k
      ensures (q, k) in Slots(fds', f) <==> (q, k) in Slots(fds, f) - {(p, i)} + if g == f then {(p, i)} else {}
    {
      if q in fds && 0 <= k < FD_MAX && (q, k) != (p, i) {
        assert fds'[q][k] == fds[q][k];
      }
    }
  }

  /** Writing g into one slot moves that slot from the file it held to g. */
  lemma SlotWritten(fds: map<Pid, Table>, p: Pid, i: nat, g: Ref, f: Ref)
    requires p in fds && i < FD_MAX
    ensures |Slots(fds[p := Put(fds[p], i, g)], f)| ==
            |Slots(fds, f)| - (if fds[p][i] == f then 1 else 0) + (if g == f then 1 else 0)
  {
    WrittenSlots(fds, p, i, g, f);
    var was := Slots(fds, f);
    assert (p, i) in was <==> fds[p][i] == f;
    if fds[p][i] != f {
      assert was - {(p, i)} == was;
    }
  }

  /** A process with an empty table holds nothing. */
  lemma ProcessAdded(fds: map<Pid, Table>, p: Pid, t: Table, f: Ref)
    requires p !in fds && f != NULL && forall i | 0 <= i < FD_MAX :: t[i] == NULL
    ensures Slots(fds[p := t], f) == Slots(fds, f)
  {
  }

  // ---- the invariant -----------------------------------------------------------------------------

  /** The count of a file of a child node is the number of its slots, plus one when it was opened by a
      call that found no free slot; the count of a file of the root is never less, nor zero. */
  ghost predicate Counts(fds: map<Pid, Table>, files: map<Ref, File>, lost: set<Ref>, f: Ref)
    requires f in files
  {
    var n := |Slots(fds, f)| + if f in lost then 1 else 0;
    match files[f].kind
    case ChildNode => files[f].refcount == n
    case RootNode => files[f].refcount >= n && files[f].refcount >= 1
  }

  ghost predicate Valid(fds: map<Pid, Table>, files: map<Ref, File>, lost: set<Ref>) {
    && NULL !in files && lost <= files.Keys
    && (forall p, i | p in fds && 0 <= i < FD_MAX && fds[p][i] != NULL :: fds[p][i] in files)
    && (forall f | f in files :: Counts(fds, files, lost, f))
  }

  /** A file that some slot holds has a positive count. */
  lemma HeldIsPositive(fds: map<Pid, Table>, files: map<Ref, File>, lost: set<Ref>, p: Pid, i: nat)
    requires Valid(fds, files, lost) && p in fds && i < FD_MAX && fds[p][i] != NULL
    ensures fds[p][i] in files && files[fds[p][i]].refcount > 0
  {
    var f := fds[p][i];
    assert Counts(fds, files, lost, f);
    assert (p, i) in Slots(fds, f);
  }

  /** Dropping one slot together with one count, and filling one together with one count, keep the
      invariant; so does doing either to NULL slots of other files. */
  lemma DropKeeps(fds: map<Pid, Table>, files: map<Ref, File>, lost: set<Ref>, p: Pid, i: nat, files': map<Ref, File>)
    requires Valid(fds, files, lost) && p in fds && i < FD_MAX && fds[p][i] != NULL
    requires var f := fds[p][i];
             files' == if files[f].kind == RootNode || files[f].refcount == 0 then files
                       else files[f := files[f].(refcount := files[f].refcount - 1)]
    ensures Valid(fds[p := Put(fds[p], i, NULL)], files', lost)
  {
    HeldIsPositive(fds, files, lost, p, i);
    var fds' := fds[p := Put(fds[p], i, NULL)];
    forall g | g in files'
      ensures Counts(fds', files', lost, g)
    {
      assert Counts(fds, files, lost, g);
      SlotWritten(fds, p, i, NULL, g);
    }
  }

  lemma FillKeeps(fds: map<Pid, Table>, files: map<Ref, File>, lost: set<Ref>, p: Pid, i: nat, f: Ref)
    requires Valid(fds, files, lost) && p in fds && i < FD_MAX && fds[p][i] == NULL && f in files
    ensures Valid(fds[p := Put(fds[p], i, f)], files[f := files[f].(refcount := files[f].refcount + 1)], lost)
  {
    var fds', files' := fds[p := Put(fds[p], i, f)], files[f := files[f].(refcount := files[f].refcount + 1)];
    forall g | g in files'
      ensures Counts(fds', files', lost, g)
    {
      assert Counts(fds, files, lost, g);
      SlotWritten(fds, p, i, f, g);
    }
  }

  /** A file whose count is zero is in no slot, and can be freed. */
  lemma FreeKeeps(fds: map<Pid, Table>, files: map<Ref, File>, lost: set<Ref>, f: Ref)
    requires Valid(fds, files, lost) && f in files && files[f].refcount == 0
    ensures Slots(fds, f) == {} && f !in lost && Valid(fds, files - {f}, lost)
  {
    assert Counts(fds, files, lost, f);
    assert Slots(fds, f) == {};
    forall p, i | p in fds && 0 <= i < FD_MAX && fds[p][i] != NULL
      ensures fds[p][i] in files - {f}
    {
      assert (p, i) in Slots(fds, fds[p][i]);
    }
    forall g | g in files - {f}
      ensures Counts(fds, files - {f}, lost, g)
    {
      assert Counts(fds, files, lost, g);
    }
  }

  lemma OpenKeeps(fds: map<Pid, Table>, files: map<Ref, File>, lost: set<Ref>, f: Ref, kind: Kind)
    requires Valid(fds, files, lost) && f !in files && f != NULL
    ensures Valid(fds, files[f := File(1, kind)], lost + {f})
    ensures forall p, i | p in fds && 0 <= i < FD_MAX && fds[p][i] == NULL ::
              Valid(fds[p := Put(fds[p], i, f)], files[f := File(1, kind)], lost)
  {
    NotHeld(fds, files, lost, f);
    var files' := files[f := File(1, kind)];
    forall g | g in files'
      ensures Counts(fds, files', lost + {f}, g)
    {
      if g != f {
        assert Counts(fds, files, lost, g);
      }
    }
    forall p, i | p in fds && 0 <= i < FD_MAX && fds[p][i] == NULL
      ensures Valid(fds[p := Put(fds[p], i, f)], files', lost)
    {
      SlotTaken(fds, files, lost, p, i, f, kind);
    }
  }

  lemma NotHeld(fds: map<Pid, Table>, files: map<Ref, File>, lost: set<Ref>, f: Ref)
    requires Valid(fds, files, lost) && f !in files && f != NULL
    ensures Slots(fds, f) == {} && f !in lost
  {
    assert forall p, i | p in fds && 0 <= i < FD_MAX :: fds[p][i] != f;
  }

  lemma SlotTaken(fds: map<Pid, Table>, files: map<Ref, File>, lost: set<Ref>, p: Pid, i: nat, f: Ref, kind: Kind)
    requires Valid(fds, files, lost) && f !in files && f != NULL && p in fds && i < FD_MAX && fds[p][i] == NULL
    ensures Valid(fds[p := Put(fds[p], i, f)], files[f := File(1, kind)], lost)
  {
    NotHeld(fds, files, lost, f);
    var fds', files' := fds[p := Put(fds[p], i, f)], files[f := File(1, kind)];
    forall g | g in files'
      ensures Counts(fds', files', lost, g)
    {
      if g != f {
        assert Counts(fds, files, lost, g);
      }
      SlotWritten(fds, p, i, f, g);
    }
  }

  /** A file in two slots keeps a positive count when one of them goes. */
  lemma HeldTwice(fds: map<Pid, Table>, files: map<Ref, File>, lost: set<Ref>, p: Pid, i: nat, j: nat)
    requires Valid(fds, files, lost) && p in fds && i < FD_MAX && j < FD_MAX && i != j && fds[p][i] != NULL
    ensures fds[p][i] in files
    ensures fds[p][i] == fds[p][j] ==> |Slots(fds, fds[p][i])| >= 2
  {
    var s := Slots(fds, fds[p][i]);
    if fds[p][i] == fds[p][j] {
      assert {(p, i), (p, j)} <= s;
      SubsetSize({(p, i), (p, j)}, s);
    }
  }

  lemma SubsetSize<T>(a: set<T>, b: set<T>)
    requires a <= b
    ensures |a| <= |b|
  {
    assert |b| == |a| + |b - a|;
  }

  lemma ChildStarts(fds: map<Pid, Table>, files: map<Ref, File>, lost: set<Ref>, child: Pid)
    requires Valid(fds, files, lost) && child !in fds
    ensures Valid(fds[child := seq(256, _ => NULL)], files, lost)
  {
    var t: Table := seq(256, _ => NULL);
    forall f | f in files
      ensures Counts(fds[child := t], files, lost, f)
    {
      assert Counts(fds, files, lost, f);
      ProcessAdded(fds, child, t, f);
    }
  }

  /** Changing g and then f leaves the other files alone. */
  lemma OthersKept(files: map<Ref, File>, files': map<Ref, File>, f: Ref, g: Ref)
    requires files' - {g} == files - {g} && f in files && (f == g ==> f in files')
    ensures f in files' && files' - {f, g} == files - {f, g} && (f != g ==> files'[f] == files[f])
  {
    assert f != g ==> f in files - {g};
    forall x | x != g
      ensures x in files' <==> x in files
      ensures x in files ==> files'[x] == files[x]
    {
      assert x in files' - {g} <==> x in files - {g};
    }
  }

  // ---- the calls ---------------------------------------------------------------------------------

  /** The count of f has moved by as much as its slots. */
  ghost predicate Counted(fds: map<Pid, Table>, files: map<Ref, File>, fds': map<Pid, Table>, files': map<Ref, File>,
                          f: Ref) {
    && f in files && f in files' && files'[f].kind == files[f].kind
    && files'[f].refcount - files[f].refcount == |Slots(fds', f)| - |Slots(fds, f)|
  }

  const EBADF := 9
  const EINVAL := 22
  const EMFILE := 24

  class Kernel {
    var fds: map<Pid, Table>
    var files: map<Ref, File>
    var current: Pid
    var nextPid: Pid
    var next: Ref            // references from here on are not in use
    ghost var lost: set<Ref> // files opened by a call that found no free slot

    ghost predicate Inv()
      reads this
    {
      && Valid(fds, files, lost) && current in fds && next > 0
      && (forall f | f in files :: f < next) && (forall p | p in fds :: p < nextPid)
    }

    constructor (pid: Pid)
      ensures Inv() && fds.Keys == {pid} && files == map[] && current == pid
    {
      fds := map[pid := seq(256, _ => NULL)];
      files, current, nextPid, next, lost := map[], pid, pid + 1, 1, {};
    }

    /** Any process may run next. */
    method Switch(p: Pid)
      requires Inv() && p in fds
      modifies this`current
      ensures Inv() && current == p
    {
      current := p;
    }

    /** newfd: the first free slot of the current process, or -1. */
    method NewFd(f: Ref) returns (fd: int)
      requires current in fds
      modifies this`fds
      ensures -1 <= fd < 256
      ensures fd == -1 ==> fds == old(fds) && forall i | 0 <= i < 256 :: fds[current][i] != NULL
      ensures fd >= 0 ==>
                && old(fds)[current][fd] == NULL && fds == old(fds)[current := Put(old(fds)[current], fd, f)]
                && forall i | 0 <= i < fd :: old(fds)[current][i] != NULL
    {
      for i := 0 to FD_MAX
        invariant fds == old(fds)
        invariant forall k | 0 <= k < i :: fds[current][k] != NULL
      {
        if fds[current][i] == NULL {
          fds := fds[current := Put(fds[current], i, f)];
          return i;
        }
      }
      return -1;
    }

    /** The end of _open: a new file structure with count 1, in the first free slot. */
    method Open(kind: Kind) returns (fd: int)
      requires Inv()
      modifies this
      ensures Inv() && current == old(current) && files == old(files)[old(next) := File(1, kind)]
      ensures -1 <= fd < FD_MAX
      ensures fd >= 0 ==>
                && old(fds)[current][fd] == NULL && (forall i | 0 <= i < fd :: old(fds)[current][i] != NULL)
                && fds == old(fds)[current := Put(old(fds)[current], fd, old(next))] && lost == old(lost)
      ensures fd == -1 ==>
                && (forall i | 0 <= i < FD_MAX :: old(fds)[current][i] != NULL)
                && fds == old(fds) && lost == old(lost) + {old(next)}
    {
      var f := next;
      OpenKeeps(fds, files, lost, f, kind);
      next := next + 1;
      files := files[f := File(1, kind)];
      fd := NewFd(f);
      if fd < 0 {
        lost := lost + {f};
      }
    }

    /** vfs_close on the count alone; halts when it is zero. */
    method VfsClose(f: Ref) returns (halted: bool)
      requires f in files
      modifies this`files
      ensures halted <==> old(files)[f].refcount == 0
      ensures files == if halted || old(files)[f].kind == RootNode then old(files)
                       else old(files)[f := old(files)[f].(refcount := old(files)[f].refcount - 1)]
    {
      if files[f].refcount == 0 {
        return true;
      }
      if files[f].kind == RootNode {
        return false;
      }
      files := files[f := files[f].(refcount := files[f].refcount - 1)];
      return false;
    }

    /** _close frees the file exactly when the slot was its last one; the halt on a zero count is
        never reached. */
    method Close(fd: nat) returns (r: int, halted: bool)
      requires Inv() && fd < FD_MAX
      modifies this`fds, this`files
      ensures Inv() && !halted
      ensures fds == old(fds)[current := Put(old(fds)[current], fd, NULL)]
      ensures var f := old(fds)[current][fd];
              if f == NULL then r == -9 && files == old(files)
              else
                && r == 0 && f in old(files) && files - {f} == old(files) - {f}
                && (f !in files <==> old(files)[f].kind == ChildNode && |Slots(old(fds), f)| == 1 && f !in lost)
                && old(files)[f].refcount > 0
                && (f in files ==> files[f] == if old(files)[f].kind == RootNode then old(files)[f]
                                              else old(files)[f].(refcount := old(files)[f].refcount - 1))
    {
      var f := fds[current][fd];
      if f == NULL {
        assert Put(fds[current], fd, NULL) == fds[current];
        return -EBADF, false;
      }
      HeldIsPositive(fds, files, lost, current, fd);
      assert Counts(fds, files, lost, f);
      ghost var fds0, files0 := fds, files;
      halted := VfsClose(f);
      DropKeeps(fds0, files0, lost, current, fd, files);
      if files[f].refcount == 0 {
        FreeKeeps(fds[current := Put(fds[current], fd, NULL)], files, lost, f);
        files := files - {f};
      }
      fds := fds[current := Put(fds[current], fd, NULL)];
      r := 0;
    }

    /** _dup2: afterwards both slots hold the file of the first, which is never freed on the way, even
        when the second slot held it already; another file in the second slot is freed exactly when that
        was its last slot. */
    method Dup2(oldfd: nat, newfd: nat) returns (r: int, halted: bool)
      requires Inv() && oldfd < FD_MAX && newfd < FD_MAX
      modifies this`fds, this`files
      ensures Inv() && !halted
      ensures var f := old(fds)[current][oldfd];
              if f == NULL then r == -9 && fds == old(fds) && files == old(files)
              else
                && r == (if oldfd == newfd then newfd else 0) && f in files
                && f in old(files)
                && (var k := old(files)[f];
                    files[f] == if oldfd == newfd || (old(fds)[current][newfd] == f && k.kind == ChildNode) then k
                                else k.(refcount := k.refcount + 1))
                && fds == old(fds)[current := Put(old(fds)[current], newfd, f)]
                && var g := old(fds)[current][newfd];
                   && files - {f, g} == old(files) - {f, g}
                   && (g != NULL && g != f ==>
                         && g in old(files)
                         && (g !in files <==> old(files)[g].kind == ChildNode && |Slots(old(fds), g)| == 1 && g !in lost))
    {
      var f := fds[current][oldfd];
      if f == NULL {
        return -EBADF, false;
      }
      if oldfd == newfd {
        assert Put(fds[current], newfd, f) == fds[current];
        return newfd, false;
      }
      HeldTwice(fds, files, lost, current, oldfd, newfd);
      ghost var t, g, files0 := fds[current], fds[current][newfd], files;
      r, halted := Close(newfd);
      OthersKept(files0, files, f, g);
      assert Put(Put(t, newfd, NULL), newfd, f) == Put(t, newfd, f);
      FillSlot(newfd, f, g);
      r := 0;
    }

    /** The end of _dup2: the empty slot gets the file, which counts once more. */
    method FillSlot(fd: nat, f: Ref, ghost g: Ref)
      requires Inv() && fd < FD_MAX && fds[current][fd] == NULL && f in files
      modifies this`fds, this`files
      ensures Inv() && fds == old(fds)[current := Put(old(fds)[current], fd, f)]
      ensures f in files && files[f] == old(files)[f].(refcount := old(files)[f].refcount + 1)
      ensures files - {f, g} == old(files) - {f, g} && (g in files <==> g in old(files))
    {
      FillKeeps(fds, files, lost, current, fd, f);
      files := files[f := files[f].(refcount := files[f].refcount + 1)];
      fds := fds[current := Put(fds[current], fd, f)];
    }

    /** _fcntl with F_DUPFD: the first free slot from `arg` on gets the file of slot fd. */
    method DupFd(fd: int, arg: nat) returns (r: int, halted: bool)
      requires Inv()
      modifies this`fds, this`files
      ensures Inv() && !halted
      ensures r < 0 ==> fds == old(fds) && files == old(files)
      ensures r == -22 <==> fd < 0 || fd >= FD_MAX
      ensures r == -24 <==> 0 <= fd < FD_MAX && forall i | arg <= i < FD_MAX :: old(fds)[current][i] != NULL
      ensures r == -9 <==>
                && 0 <= fd < FD_MAX && old(fds)[current][fd] == NULL
                && exists i :: arg <= i < FD_MAX && old(fds)[current][i] == NULL
      ensures r < 0 ==> r == -22 || r == -24 || r == -9
      ensures r >= 0 ==>
                && 0 <= fd < FD_MAX && arg <= r < FD_MAX && old(fds)[current][r] == NULL && old(fds)[current][fd] != NULL
                && (forall i | arg <= i < r :: old(fds)[current][i] != NULL)
                && fds == old(fds)[current := Put(old(fds)[current], r, old(fds)[current][fd])]
    {
      if fd < 0 || fd >= FD_MAX {
        return -EINVAL, false;
      }
      var i := arg;
      while i < FD_MAX
        invariant arg <= i && (forall k | arg <= k < i && k < FD_MAX :: fds[current][k] != NULL)
        decreases FD_MAX - i
      {
        if fds[current][i] == NULL {
          r, halted := Dup2(fd, i);
          if r < 0 {
            return r, halted;
          }
          return i, halted;
        }
        i := i + 1;
      }
      return -EMFILE, false;
    }

    /** The descriptor part of fork: the child has the parent's slots, each of them counted. */
    method Fork() returns (child: Pid)
      requires Inv()
      modifies this`fds, this`files, this`nextPid
      ensures Inv() && child == old(nextPid) && nextPid == child + 1 && child !in old(fds)
      ensures fds == old(fds)[child := old(fds)[current]] && files.Keys == old(files).Keys
      ensures forall f | f in files :: Counted(old(fds), old(files), fds, files, f)
    {
      child := nextPid;
      nextPid := nextPid + 1;
      ghost var fds0, t := fds, fds[current];
      ChildStarts(fds, files, lost, child);
      forall f | f in files
        ensures Slots(fds[child := seq(256, _ => NULL)], f) == Slots(fds, f)
      {
        ProcessAdded(fds, child, seq(256, _ => NULL), f);
      }
      fds := fds[child := seq(256, _ => NULL)];
      for i := 0 to FD_MAX
        invariant Inv() && files.Keys == old(files).Keys
        invariant forall f | f in files :: Counted(old(fds), old(files), fds, files, f)
        invariant nextPid == child + 1 && child in fds && fds == fds0[child := fds[child]]
        invariant forall k | 0 <= k < FD_MAX :: fds[child][k] == if k < i then t[k] else NULL
      {
        ghost var fds1, files1 := fds, files;
        CopySlot(child, i);
        forall f | f in files
          ensures Counted(old(fds), old(files), fds, files, f)
        {
          assert Counted(old(fds), old(files), fds1, files1, f);
          SlotWritten(fds1, child, i, fds1[current][i], f);
        }
      }
      assert fds[child] == t;
    }

    /** The loop body of copy_open_resources. */
    method CopySlot(child: Pid, i: nat)
      requires Inv() && child in fds && child != current && i < FD_MAX && fds[child][i] == NULL
      modifies this`fds, this`files
      ensures Inv() && files.Keys == old(files).Keys
      ensures fds == old(fds)[child := Put(old(fds)[child], i, old(fds)[current][i])]
      ensures forall f | f in files :: files[f] == old(files)[f].(refcount := old(files)[f].refcount + if old(fds)[current][i] == f then 1 else 0)
    {
      var f := fds[current][i];
      if f != NULL {
        FillKeeps(fds, files, lost, child, i, f);
        fds := fds[child := Put(fds[child], i, f)];
        files := files[f := files[f].(refcount := files[f].refcount + 1)];
      } else {
        assert Put(fds[child], i, NULL) == fds[child];
        assert fds[child := Put(fds[child], i, NULL)] == fds;
        fds := fds[child := Put(fds[child], i, NULL)];
      }
    }

    /** The descriptor part of _exit: every slot of the process is closed, and no file structure freed. */
    method Exit() returns (halted: bool)
      requires Inv()
      modifies this`fds, this`files
      ensures Inv() && !halted && files.Keys == old(files).Keys
      ensures fds.Keys == old(fds).Keys && (forall i | 0 <= i < 256 :: fds[current][i] == NULL)
      ensures forall p | p in fds && p != current :: fds[p] == old(fds)[p]
      ensures forall f | f in files :: files[f].kind == old(files)[f].kind && (files[f].kind == RootNode ==> files[f] == old(files)[f])
    {
      halted := false;
      for i := 0 to FD_MAX
        invariant Inv() && !halted && files.Keys == old(files).Keys && fds.Keys == old(fds).Keys
        invariant forall k | 0 <= k < i :: fds[current][k] == NULL
        invariant forall p | p in fds && p != current :: fds[p] == old(fds)[p]
        invariant forall f | f in files :: files[f].kind == old(files)[f].kind && (files[f].kind == RootNode ==> files[f] == old(files)[f])
      {
        halted := DropSlot(i);
      }
    }

    /** The loop body of _exit. */
    method DropSlot(i: nat) returns (halted: bool)
      requires Inv() && i < FD_MAX
      modifies this`fds, this`files
      ensures Inv() && !halted && files.Keys == old(files).Keys
      ensures fds == old(fds)[current := Put(old(fds)[current], i, NULL)]
      ensures forall f | f in files :: files[f].kind == old(files)[f].kind && (files[f].kind == RootNode ==> files[f] == old(files)[f])
    {
      var f := fds[current][i];
      if f == NULL {
        assert Put(fds[current], i, NULL) == fds[current];
        assert fds[current := Put(fds[current], i, NULL)] == fds;
        return false;
      }
      HeldIsPositive(fds, files, lost, current, i);
      ghost var files0 := files;
      halted := VfsClose(f);
      DropKeeps(fds, files0, lost, current, i, files);
      fds := fds[current := Put(fds[current], i, NULL)];
    }
  }
}
