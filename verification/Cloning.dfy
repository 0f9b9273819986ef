/**
 Cloning of page directories (mem/vmm.c:88-164): fork copies every private page of an address space
 into fresh frames, working through two borrowed directory slots and two temporary pages.
 */
module Cloning {
  import opened Paging
  import opened Vmm

  const SRC: nat := 1021    // slot that shows the source directory's tables, at 0xFF400000
  const DST: nat := 1022    // slot that shows the new directory's tables, at 0xFF800000
  const ALL := PRESENT.Or(READWRITE).Or(USERMODE)
  const TEMP: nat := 960    // directory index of the temporary pages 0xF0000000 and 0xF0001000

  /** The indices used here are those of the addresses in the code. */
  lemma Layout()
    ensures DirIndex(0xC0000000) == KERNEL && DirIndex(0xFFC00000) == SELF
    ensures DirIndex(0xFF400000) == SRC && DirIndex(0xFF800000) == DST
    ensures DirIndex(0xF0000000) == TEMP && TableIndex(0xF0000000) == 0
    ensures DirIndex(0xF0001000) == TEMP && TableIndex(0xF0001000) == 1
  {
  }

  // ---- one page --------------------------------------------------------------------------------

  /** memcpy of one page, word by word. */
  method CopyWords(vm: AddressSpaces, i: Index, j: Index, p: Index, q: Index)
    requires Translates(vm.mem, vm.cr3, i, j) && Translates(vm.mem, vm.cr3, p, q)
    requires var to := Target(vm.mem, vm.cr3, p, q);
             && to != Target(vm.mem, vm.cr3, i, j) && to != vm.cr3
             && to != vm.mem[vm.cr3][i].addr && to != vm.mem[vm.cr3][p].addr
    modifies vm`mem
    ensures vm.mem == old(vm.mem)[Target(old(vm.mem), vm.cr3, p, q) := old(vm.mem)[Target(old(vm.mem), vm.cr3, i, j)]]
  {
    ghost var m, from, to := vm.mem, Target(vm.mem, vm.cr3, i, j), Target(vm.mem, vm.cr3, p, q);
    for k := 0 to 1024
      invariant vm.mem == m[to := vm.mem[to]]
      invariant vm.mem[to][..k] == m[from][..k]
    {
      var w := vm.Load(i, j, k);
      vm.Store(p, q, k, w);
    }
    assert vm.mem[to] == m[from];
  }

  /** The temporary pages have a table and are not mapped. */
  ghost predicate TempFree(m: Memory, cr3: FrameNo, n: nat) {
    var k := m[cr3][TEMP];
    k.Present() && k.addr != cr3 && k.addr < n && m[k.addr][0] == ZERO && m[k.addr][1] == ZERO
  }

  /** The two slots show directories `src` and `dst`, which both have a table at index i. */
  ghost predicate SlotsShow(m: Memory, cr3: FrameNo, src: FrameNo, dst: FrameNo, i: Index) {
    && m[cr3][SRC].Present() && m[cr3][SRC].addr == src && m[src][i].Present()
    && m[cr3][DST].Present() && m[cr3][DST].addr == dst && m[dst][i].Present()
  }

  /** Frame t is apart from all frames that the copying goes through. */
  ghost predicate Apart(m: Memory, cr3: FrameNo, src: FrameNo, dst: FrameNo, i: Index, n: nat) {
    var t, k, p := m[dst][i].addr, m[cr3][TEMP].addr, m[src][i].addr;
    && t < n && p < n && src < n && dst < n
    && t != k && t != cr3 && t != src && t != dst && t != p
    && k != src && k != dst && k != p
  }

  lemma TempRestored(m: Memory, k: FrameNo, w: Word, v: Word, t: FrameNo, j: Index, x: Word, f: FrameNo, a: FrameNo)
    requires k != t && k != f && k != a && t != f && t != a && a != f
    requires m[k][0] == ZERO && m[k][1] == ZERO
    ensures var m3 := Put(Put(Put(m, k, 0, w), k, 1, v), t, j, x);
            var m4 := m3[f := m3[a]];
            Put(Put(m4, k, 0, ZERO), k, 1, ZERO) == Put(m[f := m[a]], t, j, x)
  {
    var m3 := Put(Put(Put(m, k, 0, w), k, 1, v), t, j, x);
    var m4 := m3[f := m3[a]];
    var m6 := Put(Put(m4, k, 0, ZERO), k, 1, ZERO);
    var goal := Put(m[f := m[a]], t, j, x);
    assert m6[k] == m[k];
    assert m6[t] == goal[t] && m6[f] == goal[f];
    assert m6 == goal;
  }

  /** One non-empty entry of the source table: its page is copied to the next free frame. */
  method CopyPage(vm: AddressSpaces, i: Index, j: Index, ghost src: FrameNo, ghost dst: FrameNo)
    requires vm.Sound() && vm.n < FRAMES
    requires TempFree(vm.mem, vm.cr3, vm.n) && SlotsShow(vm.mem, vm.cr3, src, dst, i)
    requires Apart(vm.mem, vm.cr3, src, dst, i, vm.n)
    requires var a := vm.mem[vm.mem[src][i].addr][j].addr;
             0 < a < vm.n && a != vm.mem[vm.cr3][TEMP].addr && a != vm.mem[dst][i].addr
    modifies vm`mem, vm`n, vm.frames.bitmap
    ensures vm.Sound() && vm.n == old(vm.n) + 1
    ensures var m := old(vm.mem); var w := m[m[src][i].addr][j];
            vm.mem == Put(m[old(vm.n) := m[w.addr]], m[dst][i].addr, j, Word(old(vm.n), w.flags.Or(ALL)))
  {
    ghost var m, f, k, t := vm.mem, vm.n, vm.mem[vm.cr3][TEMP].addr, vm.mem[dst][i].addr;
    var w := vm.LoadWindow(SRC_WINDOW, i, j, SRC);
    var r := vm.KallocPageFrom(Word(w.addr, NONE), TEMP, 0, true, false);
    r := vm.KallocPage(TEMP, 1, true, true);
    var e := vm.GetPageTableEntry(TEMP, 1);
    vm.StoreWindow(DST_WINDOW, i, j, Word(e.addr, w.flags.Or(ALL)), DST);
    CopyWords(vm, TEMP, 0, TEMP, 1);
    vm.SetPageTableEntry(TEMP, 0, ZERO);
    vm.SetPageTableEntry(TEMP, 1, ZERO);
    TempRestored(m, k, Word(w.addr, PRESENT), Word(f, PRESENT.Or(READWRITE)), t, j, Word(f, w.flags.Or(ALL)), f, w.addr);
  }

  // ---- one table -------------------------------------------------------------------------------

  /** How many of the first j entries of a table are non-zero. */
  function Used(p: Page, j: nat): nat
    requires j <= 1024
  {
    if j == 0 then 0 else Used(p, j - 1) + if p[j - 1] == ZERO then 0 else 1
  }

  lemma {:induction false} UsedGrows(p: Page, j: nat, k: nat)
    requires j <= k <= 1024
    ensures Used(p, j) <= Used(p, k) <= Used(p, j) + (k - j)
    ensures j < k && p[j] != ZERO ==> Used(p, j) < Used(p, k)
    decreases k - j
  {
    if j < k {
      UsedGrows(p, j + 1, k);
    }
  }

  /** The frame that entry j of table p is copied to, when copies go to frames base, base + 1, ... */
  function CopyFrame(p: Page, base: nat, j: Index): nat {
    base + Used(p, j)
  }

  /** Entry j of table t is a copy of entry j of table p of memory m0. */
  ghost predicate Copied(m0: Memory, p: FrameNo, m: Memory, t: FrameNo, base: nat, j: Index) {
    var w, f := m0[p][j], CopyFrame(m0[p], base, j);
    if w == ZERO then m[t][j] == ZERO
    else f < FRAMES && m[t][j] == Word(f, w.flags.Or(ALL)) && m[f] == m0[w.addr]
  }

  ghost predicate CopiedUpTo(m0: Memory, p: FrameNo, m: Memory, t: FrameNo, base: nat, k: nat) {
    forall j: Index | j < k :: Copied(m0, p, m, t, base, j)
  }

  /** Frames below n, other than ret, are the same. */
  ghost predicate SameBelow(m0: Memory, m: Memory, n: nat, ret: FrameNo) {
    forall f: FrameNo | f < n && f != ret :: m[f] == m0[f]
  }

  /** The pages of table p are frames in use, and none of them is frame k or frame t. */
  ghost predicate LeavesOk(m: Memory, p: FrameNo, n: nat, k: FrameNo, t: FrameNo) {
    forall j: Index | m[p][j] != ZERO :: 0 < m[p][j].addr < n && m[p][j].addr != k && m[p][j].addr != t
  }

  lemma CopiedOneMore(m0: Memory, p: FrameNo, m: Memory, t: FrameNo, n0: nat, j: Index, m': Memory)
    requires CopiedUpTo(m0, p, m, t, n0, j) && SameBelow(m0, m, n0, t) && t < n0
    requires m0[p][j] != ZERO && m0[p][j].addr < n0 && m0[p][j].addr != t && CopyFrame(m0[p], n0, j) < FRAMES
    requires var f, w := CopyFrame(m0[p], n0, j), m0[p][j];
             m' == Put(m[f := m[w.addr]], t, j, Word(f, w.flags.Or(ALL)))
    ensures CopiedUpTo(m0, p, m', t, n0, j + 1) && SameBelow(m0, m', n0, t)
  {
    forall k: Index | k < j + 1
      ensures Copied(m0, p, m', t, n0, k)
    {
      if k < j {
        assert Copied(m0, p, m, t, n0, k);
        UsedGrows(m0[p], k, j);
      }
    }
  }

  lemma EmptyOneMore(m0: Memory, p: FrameNo, m: Memory, t: FrameNo, n0: nat, j: Index, m': Memory)
    requires CopiedUpTo(m0, p, m, t, n0, j) && SameBelow(m0, m, n0, t) && t < n0
    requires m0[p][j] == ZERO && m' == Put(m, t, j, ZERO)
    ensures CopiedUpTo(m0, p, m', t, n0, j + 1) && SameBelow(m0, m', n0, t)
  {
    forall k: Index | k < j + 1
      ensures Copied(m0, p, m', t, n0, k)
    {
      if k < j {
        assert Copied(m0, p, m, t, n0, k);
      }
    }
  }

  method ClonePageTable(vm: AddressSpaces, i: Index, ghost src: FrameNo, ghost dst: FrameNo)
    requires vm.Sound()
    requires TempFree(vm.mem, vm.cr3, vm.n) && SlotsShow(vm.mem, vm.cr3, src, dst, i)
    requires Apart(vm.mem, vm.cr3, src, dst, i, vm.n)
    requires LeavesOk(vm.mem, vm.mem[src][i].addr, vm.n, vm.mem[vm.cr3][TEMP].addr, vm.mem[dst][i].addr)
    requires vm.n + Used(vm.mem[vm.mem[src][i].addr], 1024) <= FRAMES
    modifies vm`mem, vm`n, vm.frames.bitmap
    ensures vm.Sound() && vm.n == old(vm.n) + Used(old(vm.mem)[old(vm.mem)[src][i].addr], 1024)
    ensures var m := old(vm.mem);
            && SameBelow(m, vm.mem, old(vm.n), m[dst][i].addr)
            && CopiedUpTo(m, m[src][i].addr, vm.mem, m[dst][i].addr, old(vm.n), 1024)
  {
    ghost var m, n, p, t := vm.mem, vm.n, vm.mem[vm.mem[vm.cr3][SRC].addr][i].addr, vm.mem[dst][i].addr;
    for j := 0 to 1024
      invariant vm.Sound() && vm.n == n + Used(m[p], j)
      invariant SameBelow(m, vm.mem, n, t)
      invariant CopiedUpTo(m, p, vm.mem, t, n, j)
    {
      UsedGrows(m[p], j, 1024);
      ghost var before := vm.mem;
      var w := vm.LoadWindow(SRC_WINDOW, i, j, SRC);
      if w != ZERO {
        CopyPage(vm, i, j, src, dst);
        CopiedOneMore(m, p, before, t, n, j, vm.mem);
      } else {
        vm.StoreWindow(DST_WINDOW, i, j, ZERO, DST);
        EmptyOneMore(m, p, before, t, n, j, vm.mem);
      }
    }
  }

  // ---- one directory ---------------------------------------------------------------------------

  datatype VPage = VPage(i: Index, j: Index)

  /** Entry i of directory src is neither empty nor the kernel's. */
  predicate Private(m: Memory, src: FrameNo, kernel: FrameNo, i: Index) {
    m[src][i] != ZERO && m[src][i] != m[kernel][i]
  }

  /** The frames needed to copy the private tables below index i, and their pages. */
  function Need(m: Memory, src: FrameNo, kernel: FrameNo, i: nat): nat
    requires i <= SHARED
  {
    if i == 0 then 0
    else Need(m, src, kernel, i - 1) +
         if Private(m, src, kernel, i - 1) then 1 + Used(m[m[src][i - 1].addr], 1024) else 0
  }

  /** Page v is seen as frame f, through a table that the copying leaves alone. */
  ghost predicate Shows(m: Memory, cr3: FrameNo, n: nat, ret: FrameNo, v: VPage, f: FrameNo) {
    && v.i < SHARED && Translates(m, cr3, v.i, v.j) && Target(m, cr3, v.i, v.j) == f
    && f < n && m[cr3][v.i].addr < n && m[cr3][v.i].addr != ret
  }

  /** What the loop over directory entries relies on. */
  ghost predicate Ready(m: Memory, n: nat, cr3: FrameNo, src: FrameNo, ret: FrameNo, kernel: FrameNo) {
    && cr3 < n && src < n && ret < n && kernel < n && SelfMapped(m, cr3)
    && ret != cr3 && ret != src && ret != kernel
    && m[cr3][SRC].Present() && m[cr3][SRC].addr == src
    && m[cr3][DST].Present() && m[cr3][DST].addr == ret
    && TempFree(m, cr3, n) && m[cr3][TEMP].addr != src && m[cr3][TEMP].addr != ret
    && forall i: Index | i < SHARED && Private(m, src, kernel, i) :: TableReady(m, n, m[cr3][TEMP].addr, ret, m[src][i])
  }

  /** A private table that can be copied: in use, apart from the frames written to, and so are its pages. */
  ghost predicate TableReady(m: Memory, n: nat, temp: FrameNo, ret: FrameNo, e: Word) {
    && e.Present() && e.addr < n && e.addr != temp && e.addr != ret
    && LeavesOk(m, e.addr, n, temp, ret)
  }

  lemma SameSource(m0: Memory, m: Memory, p: FrameNo, m': Memory, t: FrameNo, base: nat)
    requires m[p] == m0[p] && CopiedUpTo(m, p, m', t, base, 1024)
    requires forall j: Index | m0[p][j] != ZERO :: m[m0[p][j].addr] == m0[m0[p][j].addr]
    ensures CopiedUpTo(m0, p, m', t, base, 1024)
  {
    forall j: Index | j < 1024
      ensures Copied(m0, p, m', t, base, j)
    {
      assert Copied(m, p, m', t, base, j);
    }
  }

  /** The new directory gets a table at index i, and that table a copy of each page of the source's. */
  method CopyTable(vm: AddressSpaces, i: Index, ret: VPage,
                   ghost s: FrameNo, ghost r: FrameNo, ghost k: FrameNo, ghost m0: Memory, ghost n0: nat)
    requires vm.Sound() && i < SHARED && n0 <= vm.n
    requires Ready(m0, n0, vm.cr3, s, r, k) && SameBelow(m0, vm.mem, n0, r) && Shows(m0, vm.cr3, n0, r, ret, r)
    requires Private(m0, s, k, i) && vm.n + 1 + Used(m0[m0[s][i].addr], 1024) <= FRAMES
    modifies vm`mem, vm`n, vm.frames.bitmap
    ensures vm.Sound() && vm.n == old(vm.n) + 1 + Used(m0[m0[s][i].addr], 1024)
    ensures vm.mem[r] == old(vm.mem)[r][i := Word(old(vm.n), ALL)]
    ensures SameBelow(old(vm.mem), vm.mem, old(vm.n), r)
    ensures CopiedUpTo(m0, m0[s][i].addr, vm.mem, old(vm.n), old(vm.n) + 1, 1024)
  {
    ghost var p := m0[s][i].addr;
    assert TableReady(m0, n0, m0[vm.cr3][TEMP].addr, r, m0[s][i]);
    var t := vm.NextFrame();
    vm.Store(ret.i, ret.j, i, Word(t, ALL));
    ghost var m, base := vm.mem, vm.n;
    ClonePageTable(vm, i, s, r);
    SameSource(m0, m, p, vm.mem, t, base);
  }

  /** The loop body of clone_page_directory_internal for entry i. */
  method CloneEntry(vm: AddressSpaces, i: Index, src: VPage, ret: VPage, kernel: VPage, copy: bool,
                    ghost s: FrameNo, ghost r: FrameNo, ghost k: FrameNo, ghost m0: Memory, ghost n0: nat)
    requires vm.Sound() && i < SHARED && n0 <= vm.n
    requires Ready(m0, n0, vm.cr3, s, r, k) && SameBelow(m0, vm.mem, n0, r)
    requires Shows(m0, vm.cr3, n0, r, src, s) && Shows(m0, vm.cr3, n0, r, ret, r) && Shows(m0, vm.cr3, n0, r, kernel, k)
    requires copy && Private(m0, s, k, i) ==> vm.n + 1 + Used(m0[m0[s][i].addr], 1024) <= FRAMES
    modifies vm`mem, vm`n, vm.frames.bitmap
    ensures vm.Sound()
    ensures !Private(m0, s, k, i) ==> vm.n == old(vm.n) && vm.mem == Put(old(vm.mem), r, i, m0[s][i])
    ensures Private(m0, s, k, i) && !copy ==> vm.n == old(vm.n) && vm.mem == old(vm.mem)
    ensures Private(m0, s, k, i) && copy ==>
              && vm.n == old(vm.n) + 1 + Used(m0[m0[s][i].addr], 1024)
              && vm.mem[r] == old(vm.mem)[r][i := Word(old(vm.n), ALL)]
              && SameBelow(old(vm.mem), vm.mem, old(vm.n), r)
              && CopiedUpTo(m0, m0[s][i].addr, vm.mem, old(vm.n), old(vm.n) + 1, 1024)
  {
    var e := vm.Load(src.i, src.j, i);
    if e == ZERO {
      vm.Store(ret.i, ret.j, i, ZERO);
      return;
    }
    var ke := vm.Load(kernel.i, kernel.j, i);
    if e == ke {
      vm.Store(ret.i, ret.j, i, ke);
    } else if copy {
      CopyTable(vm, i, ret, s, r, k, m0, n0);
    }
  }

  /** The first i entries of the new directory, with the tables and pages below them. */
  ghost predicate ClonedUpTo(m0: Memory, n0: nat, src: FrameNo, kernel: FrameNo, copy: bool, m: Memory, r: FrameNo, i: nat)
    requires i <= SHARED
  {
    forall k: Index | k < i :: ClonedAt(m0, n0, src, kernel, copy, m, r, k)
  }

  ghost predicate ClonedAt(m0: Memory, n0: nat, src: FrameNo, kernel: FrameNo, copy: bool, m: Memory, r: FrameNo, i: Index)
    requires i < SHARED
  {
    if !Private(m0, src, kernel, i) then m[r][i] == m0[src][i]
    else if !copy then m[r][i] == ZERO
    else
      var t := n0 + Need(m0, src, kernel, i);
      && t + 1 + Used(m0[m0[src][i].addr], 1024) <= FRAMES
      && m[r][i] == Word(t, ALL)
      && CopiedUpTo(m0, m0[src][i].addr, m, t, t + 1, 1024)
  }

  lemma {:induction false} NeedGrows(m: Memory, src: FrameNo, kernel: FrameNo, i: nat, k: nat)
    requires i <= k <= SHARED
    ensures Need(m, src, kernel, i) <= Need(m, src, kernel, k)
    ensures i < k && Private(m, src, kernel, i) ==>
              Need(m, src, kernel, i) + 1 + Used(m[m[src][i].addr], 1024) <= Need(m, src, kernel, k)
    decreases k - i
  {
    if i < k {
      NeedGrows(m, src, kernel, i + 1, k);
    }
  }

  /** What has been cloned stays cloned when only new frames and later entries are written. */
  lemma StillCloned(m0: Memory, n0: nat, src: FrameNo, kernel: FrameNo, copy: bool, m: Memory, m': Memory,
                    r: FrameNo, i: Index)
    requires i < SHARED && r < n0
    requires ClonedUpTo(m0, n0, src, kernel, copy, m, r, i)
    requires m'[r][..i] == m[r][..i]
    requires copy ==> SameBelow(m, m', n0 + Need(m0, src, kernel, i), r)
    ensures ClonedUpTo(m0, n0, src, kernel, copy, m', r, i)
  {
    forall k: Index | k < i
      ensures ClonedAt(m0, n0, src, kernel, copy, m', r, k)
    {
      assert ClonedAt(m0, n0, src, kernel, copy, m, r, k);
      assert m'[r][k] == m[r][k] by {
        assert m'[r][..i][k] == m[r][..i][k];
      }
      if Private(m0, src, kernel, k) && copy {
        NeedGrows(m0, src, kernel, k, i);
        var t := n0 + Need(m0, src, kernel, k);
        StillCopied(m0, m0[src][k].addr, m, m', t, t + 1, r, n0 + Need(m0, src, kernel, i));
      }
    }
  }

  lemma StillCopied(m0: Memory, p: FrameNo, m: Memory, m': Memory, t: FrameNo, base: nat, r: FrameNo, n: nat)
    requires CopiedUpTo(m0, p, m, t, base, 1024) && SameBelow(m, m', n, r)
    requires r < t < base && base + Used(m0[p], 1024) <= n
    ensures CopiedUpTo(m0, p, m', t, base, 1024)
  {
    forall j: Index | j < 1024
      ensures Copied(m0, p, m', t, base, j)
    {
      assert Copied(m0, p, m, t, base, j);
      UsedGrows(m0[p], j, 1024);
    }
  }

  /** Memory m shows the cloning the same source as m0. */
  ghost predicate SameView(m0: Memory, m: Memory, src: FrameNo, kernel: FrameNo) {
    && (forall i: Index | i < SHARED :: m[src][i] == m0[src][i] && m[kernel][i] == m0[kernel][i])
    && (forall i: Index | i < SHARED && Private(m0, src, kernel, i) :: SameTable(m0, m, m0[src][i].addr))
  }

  ghost predicate SameTable(m0: Memory, m: Memory, p: FrameNo) {
    && m[p] == m0[p]
    && forall j: Index | m0[p][j] != ZERO :: m[m0[p][j].addr] == m0[m0[p][j].addr]
  }

  lemma {:induction false} NeedSame(m0: Memory, m: Memory, src: FrameNo, kernel: FrameNo, i: nat)
    requires i <= SHARED && SameView(m0, m, src, kernel)
    ensures Need(m, src, kernel, i) == Need(m0, src, kernel, i)
  {
    if i > 0 {
      NeedSame(m0, m, src, kernel, i - 1);
    }
  }

  lemma ClonedSame(m0: Memory, m: Memory, n: nat, src: FrameNo, kernel: FrameNo, copy: bool, m': Memory, r: FrameNo)
    requires SameView(m0, m, src, kernel) && ClonedUpTo(m, n, src, kernel, copy, m', r, SHARED)
    ensures ClonedUpTo(m0, n, src, kernel, copy, m', r, SHARED)
  {
    forall i: Index | i < SHARED
      ensures ClonedAt(m0, n, src, kernel, copy, m', r, i)
    {
      assert ClonedAt(m, n, src, kernel, copy, m', r, i);
      NeedSame(m0, m, src, kernel, i);
      if Private(m0, src, kernel, i) && copy {
        var t := n + Need(m0, src, kernel, i);
        assert SameTable(m0, m, m0[src][i].addr);
        SameSource(m0, m, m0[src][i].addr, m', t, t + 1);
      }
    }
  }

  // ---- what the whole operation needs ----------------------------------------------------------

  /** The page that becomes the directory is nobody's table and nobody's directory. */
  ghost predicate Unowned(s: Spaces, r: FrameNo) {
    r < s.n && r !in s.dirs && forall d: FrameNo, i: nat | HasTable(s, d, i) :: s.mem[d][i].addr != r
  }

  /** User pages are used frames that hold neither directories nor the tables and pages written to. */
  ghost predicate UserPagesOk(s: Spaces, src: FrameNo, temp: FrameNo, r: FrameNo) {
    forall i: nat | i < KERNEL && HasTable(s, src, i) :: LeavesOk(s.mem, s.mem[src][i].addr, s.n, temp, r)
      && forall j: Index | s.mem[s.mem[src][i].addr][j] != ZERO :: s.mem[s.mem[src][i].addr][j].addr !in s.dirs
  }

  ghost predicate Clonable(s: Spaces, cr3: FrameNo, src: FrameNo, r: FrameNo) {
    && Valid(s) && cr3 in s.dirs && src in s.dirs
    && (forall i: nat | i < KERNEL :: s.mem[s.kernel][i] == ZERO)
    && Entry(s.mem, cr3, TEMP, 0) == ZERO && Entry(s.mem, cr3, TEMP, 1) == ZERO
    && Unowned(s, r) && UserPagesOk(s, src, s.mem[cr3][TEMP].addr, r)
  }

  /** Page v of the kernel half is frame f. */
  ghost predicate KernelPage(s: Spaces, cr3: FrameNo, v: VPage, f: FrameNo) {
    KERNEL <= v.i < SHARED && Entry(s.mem, cr3, v.i, v.j).Present() && Entry(s.mem, cr3, v.i, v.j).addr == f
  }

  /** Memory once the new directory is cleared and both slots are borrowed. */
  function Borrowed(m: Memory, cr3: FrameNo, src: FrameNo, r: FrameNo): Memory {
    Put(Put(m[r := ZeroPage()], cr3, SRC, Word(src, PRESENT.Or(READWRITE))), cr3, DST, Word(r, PRESENT.Or(READWRITE)))
  }

  lemma PrivateIsUser(s: Spaces, src: FrameNo, i: Index)
    requires Valid(s) && src in s.dirs && i < SHARED && Private(s.mem, src, s.kernel, i)
    ensures i < KERNEL && HasTable(s, src, i)
  {
    if i >= KERNEL {
      SharedTable(s, src, s.kernel, i);
    }
  }

  lemma BorrowedReady(s: Spaces, cr3: FrameNo, src: FrameNo, r: FrameNo)
    requires Clonable(s, cr3, src, r)
    ensures Ready(Borrowed(s.mem, cr3, src, r), s.n, cr3, src, r, s.kernel)
    ensures SameView(s.mem, Borrowed(s.mem, cr3, src, r), src, s.kernel)
  {
    var m := Borrowed(s.mem, cr3, src, r);
    assert forall f: FrameNo | f != r && f != cr3 :: m[f] == s.mem[f];
    assert forall i: Index | i < SHARED || i == SELF :: m[cr3][i] == s.mem[cr3][i];
    SharedTable(s, cr3, s.kernel, TEMP);
    assert HasTable(s, cr3, TEMP);
    forall i: Index | i < SHARED && Private(s.mem, src, s.kernel, i)
      ensures SameTable(s.mem, m, s.mem[src][i].addr)
      ensures TableReady(m, s.n, s.mem[cr3][TEMP].addr, r, s.mem[src][i])
    {
      PrivateIsUser(s, src, i);
      assert LeavesOk(s.mem, s.mem[src][i].addr, s.n, s.mem[cr3][TEMP].addr, r);
    }
  }

  lemma BorrowedShows(s: Spaces, cr3: FrameNo, src: FrameNo, r: FrameNo, v: VPage, f: FrameNo)
    requires Clonable(s, cr3, src, r) && KernelPage(s, cr3, v, f) && f < s.n
    ensures Shows(Borrowed(s.mem, cr3, src, r), cr3, s.n, r, v, f)
  {
    SharedTable(s, cr3, s.kernel, v.i);
    assert HasTable(s, cr3, v.i);
  }

  // ---- the whole operation ---------------------------------------------------------------------

  /** The loop of clone_page_directory_internal over the directory entries. */
  method CloneEntries(vm: AddressSpaces, src: VPage, ret: VPage, kernel: VPage, copy: bool,
                      ghost s: FrameNo, ghost r: FrameNo, ghost k: FrameNo)
    requires vm.Sound() && Ready(vm.mem, vm.n, vm.cr3, s, r, k) && vm.mem[r] == ZeroPage()
    requires Shows(vm.mem, vm.cr3, vm.n, r, src, s) && Shows(vm.mem, vm.cr3, vm.n, r, ret, r)
    requires Shows(vm.mem, vm.cr3, vm.n, r, kernel, k)
    requires copy ==> vm.n + Need(vm.mem, s, k, SHARED) <= FRAMES
    modifies vm`mem, vm`n, vm.frames.bitmap
    ensures vm.Sound() && vm.n == old(vm.n) + if copy then Need(old(vm.mem), s, k, SHARED) else 0
    ensures SameBelow(old(vm.mem), vm.mem, old(vm.n), r)
    ensures ClonedUpTo(old(vm.mem), old(vm.n), s, k, copy, vm.mem, r, SHARED)
    ensures forall q: Index | SHARED <= q :: vm.mem[r][q] == ZERO
  {
    ghost var m, n := vm.mem, vm.n;
    for i := 0 to SHARED
      invariant vm.Sound() && vm.n == n + if copy then Need(m, s, k, i) else 0
      invariant SameBelow(m, vm.mem, n, r)
      invariant ClonedUpTo(m, n, s, k, copy, vm.mem, r, i)
      invariant forall q: Index | i <= q :: vm.mem[r][q] == ZERO
    {
      ghost var before := vm.mem;
      NeedGrows(m, s, k, i, SHARED);
      CloneEntry(vm, i, src, ret, kernel, copy, s, r, k, m, n);
      assert vm.mem[r][..i] == before[r][..i];
      StillCloned(m, n, s, k, copy, before, vm.mem, r, i);
      assert ClonedAt(m, n, s, k, copy, vm.mem, r, i);
    }
  }

  /** The result: the new directory in frame r, every older frame as it was. */
  ghost predicate Cloned(s: Spaces, s': Spaces, src: FrameNo, r: FrameNo, copy: bool) {
    && s'.n == s.n + (if copy then Need(s.mem, src, s.kernel, SHARED) else 0) <= FRAMES
    && s'.kernel == s.kernel && s'.dirs == s.dirs + {r}
    && SameBelow(s.mem, s'.mem, s.n, r)
    && ClonedUpTo(s.mem, s.n, src, s.kernel, copy, s'.mem, r, SHARED)
    && s'.mem[r][SRC] == ZERO && s'.mem[r][DST] == ZERO && s'.mem[r][SELF] == Word(r, Flags(true, false, false, 0))
  }

  /** memset of one page. */
  method ClearWords(vm: AddressSpaces, v: VPage)
    requires Translates(vm.mem, vm.cr3, v.i, v.j)
    requires var to := Target(vm.mem, vm.cr3, v.i, v.j); to != vm.cr3 && to != vm.mem[vm.cr3][v.i].addr
    modifies vm`mem
    ensures vm.mem == old(vm.mem)[Target(old(vm.mem), vm.cr3, v.i, v.j) := ZeroPage()]
  {
    ghost var m, to := vm.mem, Target(vm.mem, vm.cr3, v.i, v.j);
    for k := 0 to 1024
      invariant vm.mem == m[to := vm.mem[to]]
      invariant vm.mem[to][..k] == ZeroPage()[..k]
    {
      vm.Store(v.i, v.j, k, ZERO);
    }
    assert vm.mem[to] == ZeroPage();
  }

  /** Giving the slots back restores the current directory. */
  lemma SlotsRestored(m0: Memory, cr3: FrameNo, src: FrameNo, r: FrameNo, m: Memory, n: nat, m': Memory)
    requires cr3 < n && r < n && cr3 != r && SameBelow(Borrowed(m0, cr3, src, r), m, n, r)
    requires m' == Put(Put(Put(m, cr3, SRC, m0[cr3][SRC]), cr3, DST, m0[cr3][DST]), r, SELF, Word(r, PRESENT))
    ensures SameBelow(m0, m', n, r)
    ensures m'[r] == m[r][SELF := Word(r, PRESENT)]
    ensures forall f: FrameNo | n <= f :: m'[f] == m[f]
  {
    assert m'[cr3] == m0[cr3];
  }

  lemma ClonedKept(m0: Memory, n: nat, src: FrameNo, kernel: FrameNo, copy: bool, m: Memory, m': Memory, r: FrameNo)
    requires ClonedUpTo(m0, n, src, kernel, copy, m, r, SHARED) && r < n
    requires m'[r] == m[r][SELF := Word(r, PRESENT)]
    requires forall f: FrameNo | n <= f :: m'[f] == m[f]
    ensures ClonedUpTo(m0, n, src, kernel, copy, m', r, SHARED)
  {
    forall i: Index | i < SHARED
      ensures ClonedAt(m0, n, src, kernel, copy, m', r, i)
    {
      assert ClonedAt(m0, n, src, kernel, copy, m, r, i);
      if Private(m0, src, kernel, i) && copy {
        var p, t := m0[src][i].addr, n + Need(m0, src, kernel, i);
        var base := t + 1;
        forall j: Index | j < 1024
          ensures Copied(m0, p, m', t, base, j)
        {
          assert Copied(m0, p, m, t, base, j);
        }
      }
    }
  }

  lemma KernelPageShows(s: Spaces, cr3: FrameNo, src: FrameNo, r: FrameNo, v: VPage, f: FrameNo)
    requires Clonable(s, cr3, src, r) && KernelPage(s, cr3, v, f) && f < s.n
    ensures Shows(s.mem, cr3, s.n, r, v, f) && s.mem[cr3][v.i].addr != cr3
    ensures Shows(Borrowed(s.mem, cr3, src, r), cr3, s.n, r, v, f)
  {
    BorrowedShows(s, cr3, src, r, v, f);
    SharedTable(s, cr3, s.kernel, v.i);
    assert HasTable(s, cr3, v.i);
  }

  /** Clears the new directory and borrows the slots (mem/vmm.c:122-131). */
  method BorrowSlots(vm: AddressSpaces, src: VPage, ret: VPage, ghost s: FrameNo, ghost r: FrameNo)
    returns (tmp1021: Word, tmp1022: Word)
    requires vm.Sound() && r != vm.cr3
    requires Shows(vm.mem, vm.cr3, vm.n, r, src, s) && Shows(vm.mem, vm.cr3, vm.n, r, ret, r)
    modifies vm`mem
    ensures vm.Sound() && vm.mem == Borrowed(old(vm.mem), vm.cr3, s, r)
    ensures tmp1021 == old(vm.mem)[vm.cr3][SRC] && tmp1022 == old(vm.mem)[vm.cr3][DST]
  {
    ClearWords(vm, ret);
    var srcEntry := vm.GetPageTableEntry(src.i, src.j);
    var retEntry := vm.GetPageTableEntry(ret.i, ret.j);
    tmp1021 := vm.GetPageTableEntry(SELF, SRC);
    tmp1022 := vm.GetPageTableEntry(SELF, DST);
    vm.SetPageTableEntry(SELF, SRC, Word(srcEntry.addr, PRESENT.Or(READWRITE)));
    vm.SetPageTableEntry(SELF, DST, Word(retEntry.addr, PRESENT.Or(READWRITE)));
  }

  /** Gives the slots back and lets the new directory map itself (mem/vmm.c:150-152). */
  method GiveBackSlots(vm: AddressSpaces, ret: VPage, tmp1021: Word, tmp1022: Word, ghost r: FrameNo)
    requires vm.Sound() && r != vm.cr3 && Shows(vm.mem, vm.cr3, vm.n, r, ret, r)
    requires vm.mem[vm.cr3][ret.i].addr != vm.cr3
    modifies vm`mem
    ensures vm.Sound()
    ensures vm.mem == Put(Put(Put(old(vm.mem), vm.cr3, SRC, tmp1021), vm.cr3, DST, tmp1022), r, SELF, Word(r, PRESENT))
  {
    vm.SetPageTableEntry(SELF, SRC, tmp1021);
    vm.SetPageTableEntry(SELF, DST, tmp1022);
    var retEntry := vm.GetPageTableEntry(ret.i, ret.j);
    vm.Store(ret.i, ret.j, SELF, Word(retEntry.addr, PRESENT));
  }

  lemma AllCloned(s: Spaces, cr3: FrameNo, src: FrameNo, r: FrameNo, copy: bool, m: Memory, s': Spaces)
    requires cr3 < s.n && r < s.n && cr3 != r && SameView(s.mem, Borrowed(s.mem, cr3, src, r), src, s.kernel)
    requires EntriesCloned(Borrowed(s.mem, cr3, src, r), s.n, src, s.kernel, copy, m, s'.n, r)
    requires s'.kernel == s.kernel && s'.dirs == s.dirs + {r}
    requires s'.mem == Put(Put(Put(m, cr3, SRC, s.mem[cr3][SRC]), cr3, DST, s.mem[cr3][DST]), r, SELF, Word(r, PRESENT))
    ensures Cloned(s, s', src, r, copy)
  {
    var b := Borrowed(s.mem, cr3, src, r);
    NeedSame(s.mem, b, src, s.kernel, SHARED);
    SlotsRestored(s.mem, cr3, src, r, m, s.n, s'.mem);
    ClonedKept(b, s.n, src, s.kernel, copy, m, s'.mem, r);
    ClonedSame(s.mem, b, s.n, src, s.kernel, copy, s'.mem, r);
  }

  lemma PreparedPages(s: Spaces, cr3: FrameNo, sf: FrameNo, r: FrameNo, src: VPage, ret: VPage, kernel: VPage)
    requires Clonable(s, cr3, sf, r)
    requires KernelPage(s, cr3, src, sf) && KernelPage(s, cr3, ret, r) && KernelPage(s, cr3, kernel, s.kernel)
    ensures Shows(s.mem, cr3, s.n, r, src, sf) && Shows(s.mem, cr3, s.n, r, ret, r)
    ensures var b := Borrowed(s.mem, cr3, sf, r);
            && Shows(b, cr3, s.n, r, src, sf) && Shows(b, cr3, s.n, r, ret, r) && Shows(b, cr3, s.n, r, kernel, s.kernel)
            && s.mem[cr3][ret.i].addr != cr3
  {
    KernelPageShows(s, cr3, sf, r, src, sf);
    KernelPageShows(s, cr3, sf, r, ret, r);
    KernelPageShows(s, cr3, sf, r, kernel, s.kernel);
  }

  lemma Prepared(s: Spaces, cr3: FrameNo, sf: FrameNo, r: FrameNo)
    requires Clonable(s, cr3, sf, r)
    ensures r != cr3
    ensures var b := Borrowed(s.mem, cr3, sf, r);
            && Ready(b, s.n, cr3, sf, r, s.kernel) && b[r] == ZeroPage()
            && Need(b, sf, s.kernel, SHARED) == Need(s.mem, sf, s.kernel, SHARED)
            && forall i: Index | i < SHARED :: b[cr3][i] == s.mem[cr3][i]
  {
    BorrowedReady(s, cr3, sf, r);
    NeedSame(s.mem, Borrowed(s.mem, cr3, sf, r), sf, s.kernel, SHARED);
  }

  lemma StillShows(m: Memory, m': Memory, cr3: FrameNo, n: nat, n': nat, r: FrameNo, v: VPage)
    requires Shows(m, cr3, n, r, v, r) && SameBelow(m, m', n, r) && cr3 < n <= n' && cr3 != r
    ensures Shows(m', cr3, n', r, v, r) && m'[cr3] == m[cr3]
  {
  }

  /** Both slots are borrowed, and the three directories can be reached. */
  ghost predicate SlotsReady(m: Memory, n: nat, cr3: FrameNo, s: FrameNo, r: FrameNo, k: FrameNo, src: VPage,
                             ret: VPage, kernel: VPage) {
    && Ready(m, n, cr3, s, r, k) && m[r] == ZeroPage() && r != cr3
    && Shows(m, cr3, n, r, src, s) && Shows(m, cr3, n, r, ret, r) && Shows(m, cr3, n, r, kernel, k)
    && m[cr3][ret.i].addr != cr3
  }

  /** All entries have been cloned, with the frames counted beforehand. */
  ghost predicate EntriesCloned(b: Memory, n: nat, src: FrameNo, kernel: FrameNo, copy: bool, m: Memory, n': nat,
                                r: FrameNo) {
    && n' == n + (if copy then Need(b, src, kernel, SHARED) else 0) <= FRAMES
    && SameBelow(b, m, n, r) && ClonedUpTo(b, n, src, kernel, copy, m, r, SHARED)
    && forall q: Index | SHARED <= q :: m[r][q] == ZERO
  }

  /** The entries, and then the slots back (mem/vmm.c:133-152). */
  method CloneAndGiveBack(vm: AddressSpaces, src: VPage, ret: VPage, kernel: VPage, copy: bool, tmp1021: Word, tmp1022: Word,
                          ghost s: FrameNo, ghost r: FrameNo) returns (ghost m: Memory)
    requires vm.Sound() && SlotsReady(vm.mem, vm.n, vm.cr3, s, r, vm.kernelDir, src, ret, kernel)
    requires copy ==> vm.n + Need(vm.mem, s, vm.kernelDir, SHARED) <= FRAMES
    modifies vm`mem, vm`n, vm.frames.bitmap
    ensures vm.Sound() && EntriesCloned(old(vm.mem), old(vm.n), s, vm.kernelDir, copy, m, vm.n, r)
    ensures vm.mem == Put(Put(Put(m, vm.cr3, SRC, tmp1021), vm.cr3, DST, tmp1022), r, SELF, Word(r, PRESENT))
  {
    ghost var b, n := vm.mem, vm.n;
    CloneEntries(vm, src, ret, kernel, copy, s, r, vm.kernelDir);
    m := vm.mem;
    StillShows(b, m, vm.cr3, n, vm.n, r, ret);
    GiveBackSlots(vm, ret, tmp1021, tmp1022, r);
  }

  ghost predicate CanBorrow(m: Memory, n: nat, cr3: FrameNo, s: FrameNo, r: FrameNo, k: FrameNo, src: VPage,
                            ret: VPage, kernel: VPage) {
    && r != cr3 && Shows(m, cr3, n, r, src, s) && Shows(m, cr3, n, r, ret, r)
    && SlotsReady(Borrowed(m, cr3, s, r), n, cr3, s, r, k, src, ret, kernel)
  }

  /** With the slots borrowed, the entries can be cloned. */
  lemma BorrowedSlots(s: Spaces, cr3: FrameNo, sf: FrameNo, r: FrameNo, src: VPage, ret: VPage, kernel: VPage)
    requires Clonable(s, cr3, sf, r)
    requires KernelPage(s, cr3, src, sf) && KernelPage(s, cr3, ret, r) && KernelPage(s, cr3, kernel, s.kernel)
    ensures CanBorrow(s.mem, s.n, cr3, sf, r, s.kernel, src, ret, kernel)
    ensures SameView(s.mem, Borrowed(s.mem, cr3, sf, r), sf, s.kernel)
    ensures Need(Borrowed(s.mem, cr3, sf, r), sf, s.kernel, SHARED) == Need(s.mem, sf, s.kernel, SHARED)
  {
    BorrowedReady(s, cr3, sf, r);
    Prepared(s, cr3, sf, r);
    PreparedPages(s, cr3, sf, r, src, ret, kernel);
    assert Borrowed(s.mem, cr3, sf, r)[cr3][ret.i] == s.mem[cr3][ret.i];
  }

  /** All of it but the entry of the new directory in the ghost set of directories. */
  method CloneThroughSlots(vm: AddressSpaces, src: VPage, ret: VPage, kernel: VPage, copy: bool,
                           ghost s: FrameNo, ghost r: FrameNo, ghost b: Memory) returns (ghost m: Memory)
    requires vm.Sound() && b == Borrowed(vm.mem, vm.cr3, s, r)
    requires CanBorrow(vm.mem, vm.n, vm.cr3, s, r, vm.kernelDir, src, ret, kernel)
    requires copy ==> vm.n + Need(b, s, vm.kernelDir, SHARED) <= FRAMES
    modifies vm`mem, vm`n, vm.frames.bitmap
    ensures vm.Sound() && EntriesCloned(b, old(vm.n), s, vm.kernelDir, copy, m, vm.n, r)
    ensures vm.mem == Put(Put(Put(m, vm.cr3, SRC, old(vm.mem)[vm.cr3][SRC]), vm.cr3, DST, old(vm.mem)[vm.cr3][DST]),
                          r, SELF, Word(r, PRESENT))
  {
    var tmp1021, tmp1022 := BorrowSlots(vm, src, ret, s, r);
    m := CloneAndGiveBack(vm, src, ret, kernel, copy, tmp1021, tmp1022, s, r);
  }

  /** The same, with the new directory among the others. */
  method CloneAndEnter(vm: AddressSpaces, src: VPage, ret: VPage, kernel: VPage, copy: bool,
                       ghost s: FrameNo, ghost r: FrameNo, ghost b: Memory)
    requires vm.Sound() && b == Borrowed(vm.mem, vm.cr3, s, r) && SameView(vm.mem, b, s, vm.kernelDir)
    requires CanBorrow(vm.mem, vm.n, vm.cr3, s, r, vm.kernelDir, src, ret, kernel)
    requires copy ==> vm.n + Need(b, s, vm.kernelDir, SHARED) <= FRAMES
    modifies vm`mem, vm`n, vm`dirs, vm.frames.bitmap
    ensures vm.Sound() && Cloned(old(vm.Space()), vm.Space(), s, r, copy)
  {
    ghost var m := CloneThroughSlots(vm, src, ret, kernel, copy, s, r, b);
    vm.dirs := vm.dirs + {r};
    AllCloned(old(vm.Space()), vm.cr3, s, r, copy, m, vm.Space());
  }

  /** clone_page_directory_internal, with the page that kmalloc returned for the directory. */
  method ClonePageDirectory(vm: AddressSpaces, src: VPage, ret: VPage, kernel: VPage, copy: bool,
                            ghost s: FrameNo, ghost r: FrameNo)
    requires vm.Sound() && Clonable(vm.Space(), vm.cr3, s, r)
    requires KernelPage(vm.Space(), vm.cr3, src, s) && KernelPage(vm.Space(), vm.cr3, ret, r)
    requires KernelPage(vm.Space(), vm.cr3, kernel, vm.kernelDir)
    requires copy ==> vm.n + Need(vm.mem, s, vm.kernelDir, SHARED) <= FRAMES
    modifies vm`mem, vm`n, vm`dirs, vm.frames.bitmap
    ensures vm.Sound() && Cloned(old(vm.Space()), vm.Space(), s, r, copy)
  {
    BorrowedSlots(vm.Space(), vm.cr3, s, r, src, ret, kernel);
    CloneAndEnter(vm, src, ret, kernel, copy, s, r, Borrowed(vm.mem, vm.cr3, s, r));
  }
}
