/**
 setup_vmm (mem/vmm.c:166-199): from the boot page directory to the invariant that every later run keeps.
 */
module Setup {

  import opened Paging
  import opened Vmm
  import opened Cloning
  import opened Isolation

  /** The boot directory: the identity map in its first table, the kernel in its table 768, and nothing
      else; the two tables and the directory are three frames of the kernel image. */
  ghost predicate BootDirectory(m: Memory, d: FrameNo, n: nat) {
    && d < n <= FRAMES && SelfMapped(m, d)
    && m[d][0].Present() && m[d][0].addr < n && m[d][0].addr != d
    && m[d][KERNEL].Present() && m[d][KERNEL].addr < n && m[d][KERNEL].addr != d
    && m[d][0].addr != m[d][KERNEL].addr
    && forall i: nat | 0 < i < SELF && i != KERNEL :: m[d][i] == ZERO
  }

  const FIRST: nat := 769   // tables 769..1022 are created in advance

  /** The directory once tables FIRST..i-1 are in frames n, n+1, ..., and that of the identity map is empty. */
  ghost predicate Tables(m: Memory, m0: Memory, d: FrameNo, n: nat, i: nat) {
    && SelfMapped(m, d) && m[d][KERNEL] == m0[d][KERNEL] && m[m0[d][0].addr] == ZeroPage()
    && (forall k: nat | k < SELF && k != KERNEL && !(FIRST <= k < i) :: m[d][k] == ZERO)
    && (forall k: nat | FIRST <= k < i && k < SELF ::
          && m[d][k].addr == n + (k - FIRST) && m[m[d][k].addr] == ZeroPage()
          && m[d][k].flags.present && m[d][k].flags.readwrite && !m[d][k].flags.user)
    && (forall f: FrameNo | f < n && f != d && f != m0[d][0].addr :: m[f] == m0[f])
  }

  /** The tables are those of one coherent address space, with an empty user half. */
  lemma TablesValid(s: Spaces, m0: Memory, n: nat)
    requires BootDirectory(m0, s.kernel, n) && s.dirs == {s.kernel}
    requires Tables(s.mem, m0, s.kernel, n, SELF) && s.n == n + (SELF - FIRST) <= FRAMES
    ensures Valid(s)
  {
    var d := s.kernel;
    forall i: nat | i < SELF
      ensures s.mem[d][i].Present() <==> KERNEL <= i
      ensures s.mem[d][i].Present() || s.mem[d][i] == ZERO
      ensures KERNEL < i ==> s.mem[d][i].addr == n + (i - FIRST)
    {
    }
  }

  /** The part of setup_vmm up to the ramfs mapping. */
  method CreateTables(vm: AddressSpaces)
    requires vm.Sound() && vm.cr3 == vm.kernelDir && vm.dirs == {vm.kernelDir}
    requires BootDirectory(vm.mem, vm.cr3, vm.n) && vm.n + (SELF - FIRST) <= FRAMES
    modifies vm`mem, vm`n, vm.frames.bitmap
    ensures vm.Sound() && Valid(vm.Space()) && vm.n == old(vm.n) + (SELF - FIRST)
    ensures Tables(vm.mem, old(vm.mem), vm.cr3, old(vm.n), SELF)
  {
    ghost var m0, n, d := vm.mem, vm.n, vm.cr3;
    for i := 0 to 1024
      invariant vm.Sound() && vm.n == n
      invariant forall f: FrameNo | f != m0[d][0].addr :: vm.mem[f] == m0[f]
      invariant forall k: nat | k < i :: vm.mem[m0[d][0].addr][k] == ZERO
    {
      vm.SetPageTableEntry(0, i, ZERO);
    }
    assert vm.mem[m0[d][0].addr] == ZeroPage();
    vm.SetPageTableEntry(SELF, 0, ZERO);
    for i := FIRST to SELF
      invariant vm.Sound() && vm.n == n + (i - FIRST)
      invariant Tables(vm.mem, m0, d, n, i)
    {
      vm.NewPageTable(i, true, true);
    }
    TablesValid(vm.Space(), m0, n);
  }

  const BASE := 0xC0000   // page number of 0xC0000000

  /** Pages of [BASE, v) that were absent map the frame BASE below them; nothing else changed. */
  ghost predicate ImageMapped(s: Spaces, s': Spaces, v: nat) {
    && Kept(s, s') && s'.n == s.n && s'.mem[s.kernel] == s.mem[s.kernel]
    && forall p: Index, q: Index | p < SELF :: ImagePage(s, s', v, p, q)
  }

  ghost predicate ImagePage(s: Spaces, s': Spaces, v: nat, p: Index, q: Index) {
    var e, e' := Entry(s.mem, s.kernel, p, q), Entry(s'.mem, s.kernel, p, q);
    if BASE <= PageNo(p, q) < v && !e.Present()
    then e' == Word(PageNo(p, q) - BASE, Flags(true, false, true, 0))
    else e' == e
  }

  lemma ImageOneMore(s: Spaces, t: Spaces, s': Spaces, v: nat, i: Index, j: Index, w: Word)
    requires ImageMapped(s, t, v) && BASE <= v == PageNo(i, j) && KERNEL <= i < SHARED && s.kernel in s.dirs
    requires Kept(t, s') && s'.n == t.n && s'.mem[s.kernel] == t.mem[s.kernel]
    requires if Entry(t.mem, s.kernel, i, j).Present() then s' == t
             else Inserted(t, s', s.kernel, i, j, w) && w == Word(v - BASE, AccessFlags(false, false))
    ensures ImageMapped(s, s', v + 1)
  {
    var next := v + 1;
    forall p: Index, q: Index | p < SELF
      ensures ImagePage(s, s', next, p, q)
    {
      assert ImagePage(s, t, v, p, q);
      assert PageNo(p, q) == v <==> p == i && q == j;
    }
  }

  /** One page of the image: mapped to the frame BASE below it unless it is present. */
  method MapImagePage(vm: AddressSpaces, i: Index, j: Index, frame: FrameNo)
    requires vm.Sound() && Valid(vm.Space()) && vm.cr3 in vm.dirs && KERNEL <= i < SHARED && frame < vm.n
    requires frame == 0 ==> Entry(vm.mem, vm.cr3, i, j).Present()
    modifies vm`mem, vm`n, vm.frames.bitmap
    ensures vm.Sound() && Kept(old(vm.Space()), vm.Space()) && vm.n == old(vm.n) && vm.mem[vm.cr3] == old(vm.mem)[vm.cr3]
    ensures if Entry(old(vm.mem), vm.cr3, i, j).Present() then vm.Space() == old(vm.Space())
            else Inserted(old(vm.Space()), vm.Space(), vm.cr3, i, j, Word(frame, AccessFlags(false, false)))
  {
    ghost var t := vm.Space();
    SharedTable(t, vm.cr3, vm.cr3, i);
    assert HasTable(t, vm.cr3, i);
    var e := vm.GetPageTableEntry(i, j);
    if !e.Present() {
      KallocPageFromInserts(t, vm.cr3, Word(frame, NONE), i, j, AccessFlags(false, false));
      var r := vm.KallocPageFrom(Word(frame, NONE), i, j, false, false);
      assert r == Mapped;
    }
  }

  /** The page with number v. */
  method MapNextImagePage(vm: AddressSpaces, v: nat, ghost s: Spaces)
    requires vm.Sound() && Valid(s) && s.kernel == vm.kernelDir == vm.cr3 && ImageMapped(s, vm.Space(), v)
    requires BASE <= v < BASE + 0x30000 && v - BASE < vm.n && Entry(s.mem, s.kernel, KERNEL, 0).Present()
    modifies vm`mem, vm`n, vm.frames.bitmap
    ensures vm.Sound() && ImageMapped(s, vm.Space(), v + 1)
  {
    ghost var t := vm.Space();
    var i: Index, j: Index := v / 1024, v % 1024;
    assert PageNo(i, j) == v;
    assert ImagePage(s, t, v, KERNEL, 0);
    MapImagePage(vm, i, j, v - BASE);
    ImageOneMore(s, t, vm.Space(), v, i, j, Word(v - BASE, AccessFlags(false, false)));
  }

  /** The loop over the pages. */
  method MapImagePages(vm: AddressSpaces, last: nat)
    requires vm.Sound() && Valid(vm.Space()) && vm.cr3 == vm.kernelDir
    requires BASE <= last <= BASE + 0x30000 && last - BASE <= vm.n && Entry(vm.mem, vm.cr3, KERNEL, 0).Present()
    modifies vm`mem, vm`n, vm.frames.bitmap
    ensures vm.Sound() && ImageMapped(old(vm.Space()), vm.Space(), last)
  {
    ghost var s := vm.Space();
    var v := BASE;
    while v < last
      invariant BASE <= v <= last
      invariant vm.Sound() && ImageMapped(s, vm.Space(), v)
    {
      MapNextImagePage(vm, v, s);
      v := v + 1;
    }
  }

  /** The ramfs mapping: afterwards every page of the image, up to its end, is present. */
  method MapImage(vm: AddressSpaces, kernelEnd: nat)
    requires vm.Sound() && Valid(vm.Space()) && vm.cr3 == vm.kernelDir
    requires kernelEnd % 0x1000 == 0 && kernelEnd <= 0x30000000 && kernelEnd / 0x1000 <= vm.n
    requires Entry(vm.mem, vm.cr3, KERNEL, 0).Present()
    modifies vm`mem, vm`n, vm.frames.bitmap
    ensures vm.Sound() && ImageMapped(old(vm.Space()), vm.Space(), BASE + kernelEnd / 0x1000)
  {
    MapImagePages(vm, BASE + kernelEnd / 0x1000);
  }

  /** Booted address spaces are tidy: there is one, its user half is empty and so are the temporary pages. */
  lemma BootIsTidy(s: Spaces, s': Spaces, m0: Memory, n: nat, last: nat)
    requires BootDirectory(m0, s.kernel, n) && s.dirs == {s.kernel}
    requires Tables(s.mem, m0, s.kernel, n, SELF) && s.n == n + (SELF - FIRST) <= FRAMES
    requires ImageMapped(s, s', last) && last <= BASE + 0x30000
    ensures Tidy(s')
  {
    assert ImagePage(s, s', last, TEMP, 0) && ImagePage(s, s', last, TEMP, 1);
    assert s.mem[s.kernel][TEMP].Present();
    forall d: FrameNo, i: Index, j: Index | d in s'.dirs && i < KERNEL
      ensures !UserEntry(s', d, i, j)
    {
    }
  }

  /** The directories and tables of setup_vmm, up to the cloning. */
  method BootTables(vm: AddressSpaces, kernelEnd: nat)
    requires vm.Sound() && vm.cr3 == vm.kernelDir && vm.dirs == {vm.kernelDir}
    requires BootDirectory(vm.mem, vm.cr3, vm.n) && vm.n + (SELF - FIRST) <= FRAMES
    requires kernelEnd % 0x1000 == 0 && kernelEnd <= 0x30000000 && kernelEnd / 0x1000 <= vm.n
    requires vm.mem[vm.mem[vm.cr3][KERNEL].addr][0].Present()
    modifies vm`mem, vm`n, vm.frames.bitmap
    ensures vm.Sound() && Good(World(vm.Space(), vm.cr3)) && vm.cr3 == vm.kernelDir
    ensures forall i: nat | FIRST <= i < SHARED :: !vm.mem[vm.kernelDir][i].flags.user
  {
    CreateTables(vm);
    ghost var s := vm.Space();
    MapImage(vm, kernelEnd);
    BootIsTidy(s, vm.Space(), old(vm.mem), old(vm.n), BASE + kernelEnd / 0x1000);
  }
}
