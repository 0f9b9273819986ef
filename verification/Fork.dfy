/**
 What cloning a directory means for the address spaces: isolation of the child, and what every other
 address space keeps (mem/vmm.c:119-164).
 */
module Fork {
  import opened Paging
  import opened Vmm
  import opened Cloning

  lemma ChildDirectory(s: Spaces, s': Spaces, cr3: FrameNo, src: FrameNo, r: FrameNo, copy: bool, i: Index)
    requires Clonable(s, cr3, src, r) && Cloned(s, s', src, r, copy) && i < SELF
    ensures KERNEL <= i < SHARED ==> s'.mem[r][i] == s.mem[s.kernel][i]
    ensures i < KERNEL && copy && s.mem[src][i] != ZERO && src != s.kernel ==>
              && Private(s.mem, src, s.kernel, i) && s'.mem[r][i].Present()
              && s'.mem[r][i].addr == s.n + Need(s.mem, src, s.kernel, i)
    ensures s'.mem[r][i] == ZERO || KERNEL <= i < SHARED ||
            (i < KERNEL && copy && Private(s.mem, src, s.kernel, i)
             && s'.mem[r][i].Present() && s'.mem[r][i].addr == s.n + Need(s.mem, src, s.kernel, i))
  {
    if i < SHARED {
      assert ClonedAt(s.mem, s.n, src, s.kernel, copy, s'.mem, r, i);
      if KERNEL <= i {
        SharedTable(s, src, s.kernel, i);
      } else {
        assert s.mem[s.kernel][i] == ZERO;
      }
    }
  }

  /** No page of any older address space changes. */
  lemma OthersKeepTheirPages(s: Spaces, s': Spaces, cr3: FrameNo, src: FrameNo, r: FrameNo, copy: bool)
    requires Clonable(s, cr3, src, r) && Cloned(s, s', src, r, copy)
    ensures SamePages(s, s')
  {
    forall d: FrameNo, p: Index, q: Index | d in s.dirs && p < SELF
      ensures Entry(s'.mem, d, p, q) == Entry(s.mem, d, p, q)
    {
      if HasTable(s, d, p) {
        assert s.mem[d][p].addr < s.n && s.mem[d][p].addr != r;
      }
    }
  }

  /** Whose table is where, after the cloning. */
  lemma TableOrigin(s: Spaces, s': Spaces, cr3: FrameNo, src: FrameNo, r: FrameNo, copy: bool, d: FrameNo, i: nat)
    requires Clonable(s, cr3, src, r) && Cloned(s, s', src, r, copy) && HasTable(s', d, i)
    ensures d != r ==> HasTable(s, d, i) && s'.mem[d][i] == s.mem[d][i]
    ensures d == r && KERNEL <= i < SHARED ==> HasTable(s, s.kernel, i) && s'.mem[d][i] == s.mem[s.kernel][i]
    ensures d == r && !(KERNEL <= i < SHARED) ==>
              i < KERNEL && copy && Private(s.mem, src, s.kernel, i) && s'.mem[d][i].addr == s.n + Need(s.mem, src, s.kernel, i)
  {
    if d == r {
      ChildDirectory(s, s', cr3, src, r, copy, i);
      if KERNEL <= i < SHARED {
        SharedTable(s, s.kernel, s.kernel, i);
      }
    } else {
      assert s'.mem[d] == s.mem[d];
    }
  }

  lemma TablesStayApart(s: Spaces, s': Spaces, cr3: FrameNo, src: FrameNo, r: FrameNo, copy: bool,
                        d: FrameNo, i: nat, e: FrameNo, k: nat)
    requires Clonable(s, cr3, src, r) && Cloned(s, s', src, r, copy)
    requires HasTable(s', d, i) && HasTable(s', e, k)
    ensures s'.mem[d][i].addr < s'.n && s'.mem[d][i].addr !in s'.dirs
    ensures s'.mem[d][i].addr == s'.mem[e][k].addr ==> i == k && (d == e || KERNEL <= i < SHARED)
  {
    TableOrigin(s, s', cr3, src, r, copy, d, i);
    TableOrigin(s, s', cr3, src, r, copy, e, k);
    if d == r && i < KERNEL {
      NeedGrows(s.mem, src, s.kernel, i, SHARED);
    }
    if d == r && e == r && i < KERNEL && k < KERNEL && i != k {
      NeedDiffers(s.mem, src, s.kernel, i, k);
    }
  }

  lemma NeedDiffers(m: Memory, src: FrameNo, kernel: FrameNo, i: Index, k: Index)
    requires i < KERNEL && k < KERNEL && i != k && Private(m, src, kernel, i) && Private(m, src, kernel, k)
    ensures Need(m, src, kernel, i) != Need(m, src, kernel, k)
  {
    if i < k {
      NeedGrows(m, src, kernel, i, k);
    } else {
      NeedGrows(m, src, kernel, k, i);
    }
  }

  lemma CloneKeepsDirectories(s: Spaces, s': Spaces, cr3: FrameNo, src: FrameNo, r: FrameNo, copy: bool)
    requires Clonable(s, cr3, src, r) && Cloned(s, s', src, r, copy)
    ensures Directories(s')
  {
    forall d: FrameNo, i: nat | d in s'.dirs && i < SELF
      ensures s'.mem[d][i].Present() || s'.mem[d][i] == ZERO
    {
      if d == r {
        if KERNEL <= i < SHARED {
          SharedTable(s, s.kernel, s.kernel, i);
        }
        ChildDirectory(s, s', cr3, src, r, copy, i);
      } else {
        assert s'.mem[d] == s.mem[d];
      }
    }
  }

  lemma CloneKeepsCoherence(s: Spaces, s': Spaces, cr3: FrameNo, src: FrameNo, r: FrameNo, copy: bool)
    requires Clonable(s, cr3, src, r) && Cloned(s, s', src, r, copy)
    ensures Coherent(s')
  {
    forall d: FrameNo, i: nat {:trigger s'.mem[d][i]} | d in s'.dirs && KERNEL <= i < SHARED
      ensures s'.mem[d][i].Present() && s'.mem[d][i] == s'.mem[s'.kernel][i]
    {
      SharedTable(s, s.kernel, s.kernel, i);
      if d == r {
        ChildDirectory(s, s', cr3, src, r, copy, i);
      } else {
        SharedTable(s, d, s.kernel, i);
      }
    }
  }

  /** Cloning keeps every invariant of the address spaces, and so kernel-half coherence. */
  lemma CloneKeepsValid(s: Spaces, s': Spaces, cr3: FrameNo, src: FrameNo, r: FrameNo, copy: bool)
    requires Clonable(s, cr3, src, r) && Cloned(s, s', src, r, copy)
    ensures Valid(s')
  {
    CloneKeepsDirectories(s, s', cr3, src, r, copy);
    CloneKeepsCoherence(s, s', cr3, src, r, copy);
    forall d: FrameNo, i: nat, e: FrameNo, k: nat | HasTable(s', d, i) && HasTable(s', e, k)
      ensures s'.mem[d][i].addr < s'.n && s'.mem[d][i].addr !in s'.dirs
      ensures s'.mem[d][i].addr == s'.mem[e][k].addr ==> i == k && (d == e || KERNEL <= i < SHARED)
    {
      TablesStayApart(s, s', cr3, src, r, copy, d, i, e, k);
    }
  }

  /** The frame of the child's copy of page (i, j). */
  function ChildFrame(s: Spaces, src: FrameNo, i: Index, j: Index): nat
    requires i < KERNEL
  {
    s.n + Need(s.mem, src, s.kernel, i) + 1 + Used(s.mem[s.mem[src][i].addr], j)
  }

  /** Fork isolation, page by page: an unmapped page stays unmapped; a mapped one has, in the child,
      the parent's contents in a frame that was free, present, writable and open to user mode in both the table
      and the directory, while the parent keeps its page and contents. */
  lemma ForkIsolates(s: Spaces, s': Spaces, cr3: FrameNo, src: FrameNo, r: FrameNo, i: Index, j: Index)
    requires Clonable(s, cr3, src, r) && Cloned(s, s', src, r, true) && src != s.kernel && i < KERNEL
    ensures var e, c := Entry(s.mem, src, i, j), Entry(s'.mem, r, i, j);
            && Entry(s'.mem, src, i, j) == e
            && (e == ZERO ==> c == ZERO)
            && (e != ZERO ==>
                  && c.addr == ChildFrame(s, src, i, j) && s.n <= c.addr < s'.n
                  && c.flags == Flags(true, true, true, e.flags.others) && s'.mem[r][i].flags == Flags(true, true, true, 0)
                  && s'.mem[c.addr] == s.mem[e.addr] && s'.mem[e.addr] == s.mem[e.addr])
  {
    OthersKeepTheirPages(s, s', cr3, src, r, true);
    ChildDirectory(s, s', cr3, src, r, true, i);
    if Entry(s.mem, src, i, j) != ZERO {
      PageCopied(s, s', cr3, src, r, i, j);
    } else if s.mem[src][i] != ZERO {
      TableCopied(s.mem, s.n, src, s.kernel, s'.mem, r, i, j);
      assert HasTable(s, src, i);
    }
  }

  lemma TableCopied(m: Memory, n: nat, src: FrameNo, kernel: FrameNo, m': Memory, r: FrameNo, i: Index, j: Index)
    requires ClonedUpTo(m, n, src, kernel, true, m', r, SHARED) && i < SHARED && Private(m, src, kernel, i)
    ensures var t := n + Need(m, src, kernel, i);
            t < FRAMES && m'[r][i] == Word(t, ALL) && Copied(m, m[src][i].addr, m', t, t + 1, j)
  {
    assert ClonedAt(m, n, src, kernel, true, m', r, i);
  }

  lemma PageCopied(s: Spaces, s': Spaces, cr3: FrameNo, src: FrameNo, r: FrameNo, i: Index, j: Index)
    requires Clonable(s, cr3, src, r) && Cloned(s, s', src, r, true) && src != s.kernel && i < KERNEL
    requires Entry(s.mem, src, i, j) != ZERO
    ensures var e, c := Entry(s.mem, src, i, j), Entry(s'.mem, r, i, j);
            && c.addr == ChildFrame(s, src, i, j) && s.n <= c.addr < s'.n && c.flags == Flags(true, true, true, e.flags.others)
            && s'.mem[r][i].flags == Flags(true, true, true, 0)
            && s'.mem[c.addr] == s.mem[e.addr] && s'.mem[e.addr] == s.mem[e.addr]
  {
    ChildDirectory(s, s', cr3, src, r, true, i);
    TableCopied(s.mem, s.n, src, s.kernel, s'.mem, r, i, j);
    assert HasTable(s, src, i);
    var p := s.mem[src][i].addr;
    assert LeavesOk(s.mem, p, s.n, s.mem[cr3][TEMP].addr, r);
    UsedGrows(s.mem[p], j, 1024);
    NeedGrows(s.mem, src, s.kernel, i, SHARED);
  }

  /** Different pages of the child are in different frames. */
  lemma ChildFramesDistinct(s: Spaces, src: FrameNo, i: Index, j: Index, p: Index, q: Index)
    requires i < KERNEL && p < KERNEL && (i, j) != (p, q)
    requires Private(s.mem, src, s.kernel, i) && s.mem[s.mem[src][i].addr][j] != ZERO
    requires Private(s.mem, src, s.kernel, p) && s.mem[s.mem[src][p].addr][q] != ZERO
    ensures ChildFrame(s, src, i, j) != ChildFrame(s, src, p, q)
  {
    UsedGrows(s.mem[s.mem[src][i].addr], j, 1024);
    UsedGrows(s.mem[s.mem[src][p].addr], q, 1024);
    if i < p {
      NeedGrows(s.mem, src, s.kernel, i, p);
    } else if p < i {
      NeedGrows(s.mem, src, s.kernel, p, i);
    } else if j < q {
      UsedGrows(s.mem[s.mem[src][i].addr], j, q);
    } else {
      UsedGrows(s.mem[s.mem[src][i].addr], q, j);
    }
  }

  /** The frame of a page of the child is no table and no directory. */
  lemma ChildFrameIsPage(s: Spaces, s': Spaces, cr3: FrameNo, src: FrameNo, r: FrameNo, i: Index, j: Index,
                         d: FrameNo, k: nat)
    requires Clonable(s, cr3, src, r) && Cloned(s, s', src, r, true) && i < KERNEL
    requires Private(s.mem, src, s.kernel, i) && s.mem[s.mem[src][i].addr][j] != ZERO && HasTable(s', d, k)
    ensures s'.mem[d][k].addr != ChildFrame(s, src, i, j)
  {
    TableOrigin(s, s', cr3, src, r, true, d, k);
    UsedGrows(s.mem[s.mem[src][i].addr], j, 1024);
    if d == r && k < i {
      NeedGrows(s.mem, src, s.kernel, k, i);
    } else if d == r && i < k < KERNEL {
      NeedGrows(s.mem, src, s.kernel, i, k);
    }
  }

  /** After a fork, whatever the child stores in a page of its own changes no mapping of any address
      space and no page that was in use before; the parent's stores in its pages miss the child's. */
  lemma WritesStayPrivate(s: Spaces, s': Spaces, cr3: FrameNo, src: FrameNo, r: FrameNo, i: Index, j: Index,
                          k: Index, w: Word)
    requires Clonable(s, cr3, src, r) && Cloned(s, s', src, r, true) && src != s.kernel && i < KERNEL
    requires Entry(s'.mem, r, i, j) != ZERO
    ensures var after := Put(s'.mem, Entry(s'.mem, r, i, j).addr, k, w);
            && (forall d: FrameNo, p: Index, q: Index | d in s'.dirs && p < SELF ::
                  Entry(after, d, p, q) == Entry(s'.mem, d, p, q))
            && (forall f: FrameNo | f < s.n && f != r :: after[f] == s.mem[f])
    ensures forall p: Index, q: Index | p < KERNEL && Entry(s'.mem, src, p, q) != ZERO ::
              Entry(s'.mem, src, p, q).addr != Entry(s'.mem, r, i, j).addr
  {
    ForkIsolates(s, s', cr3, src, r, i, j);
    ChildDirectory(s, s', cr3, src, r, true, i);
    var c := ChildFrame(s, src, i, j);
    forall d: FrameNo, p: Index, q: Index | d in s'.dirs && p < SELF
      ensures Entry(Put(s'.mem, c, k, w), d, p, q) == Entry(s'.mem, d, p, q)
    {
      ChildStoreKeeps(s, s', cr3, src, r, i, j, k, w, d, p, q);
    }
    forall p: Index, q: Index | p < KERNEL && Entry(s'.mem, src, p, q) != ZERO
      ensures Entry(s'.mem, src, p, q).addr < s.n
    {
      ParentFrameIsOld(s, s', cr3, src, r, p, q);
    }
  }

  lemma ChildStoreKeeps(s: Spaces, s': Spaces, cr3: FrameNo, src: FrameNo, r: FrameNo, i: Index, j: Index, k: Index, w: Word,
                        d: FrameNo, p: Index, q: Index)
    requires Clonable(s, cr3, src, r) && Cloned(s, s', src, r, true) && i < KERNEL
    requires Private(s.mem, src, s.kernel, i) && s.mem[s.mem[src][i].addr][j] != ZERO
    requires ChildFrame(s, src, i, j) < FRAMES && d in s'.dirs && p < SELF
    ensures Entry(Put(s'.mem, ChildFrame(s, src, i, j), k, w), d, p, q) == Entry(s'.mem, d, p, q)
  {
    if HasTable(s', d, p) {
      ChildFrameIsPage(s, s', cr3, src, r, i, j, d, p);
    }
  }

  lemma ParentFrameIsOld(s: Spaces, s': Spaces, cr3: FrameNo, src: FrameNo, r: FrameNo, p: Index, q: Index)
    requires Clonable(s, cr3, src, r) && Cloned(s, s', src, r, true) && src != s.kernel && p < KERNEL
    requires Entry(s'.mem, src, p, q) != ZERO
    ensures Entry(s'.mem, src, p, q).addr < s.n
  {
    ForkIsolates(s, s', cr3, src, r, p, q);
    assert HasTable(s, src, p);
    assert LeavesOk(s.mem, s.mem[src][p].addr, s.n, s.mem[cr3][TEMP].addr, r);
  }

  /** Without copying, the new address space has the kernel half and nothing else. */
  lemma EmptyUserHalf(s: Spaces, s': Spaces, cr3: FrameNo, src: FrameNo, r: FrameNo, i: Index, j: Index)
    requires Clonable(s, cr3, src, r) && Cloned(s, s', src, r, false) && i < SHARED
    ensures Entry(s'.mem, r, i, j) == if i < KERNEL then ZERO else Entry(s.mem, src, i, j)
  {
    ChildDirectory(s, s', cr3, src, r, false, i);
    if KERNEL <= i {
      SharedTable(s, src, s.kernel, i);
      assert HasTable(s, src, i);
    }
  }
}
