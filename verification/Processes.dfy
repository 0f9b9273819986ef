/**
 The directories of processes over their life (mem/vmm.c:119-164; syscall/syscalls.c:105-135, 247-301;
 task/process.c:79-131, 238-272): a directory is a page of the kernel heap, cloned into and later freed, and
 loading a program and moving its break keep what the runs of all address spaces rely on.
 */
module Processes {

  import opened Basics
  import opened Paging
  import opened Vmm
  import opened Cloning
  import opened Fork
  import opened Isolation
  import H = Heap
  import K = Kmalloc
  import B = Break

  // ---- loading and the break ---------------------------------------------------------------------

  lemma UserRunGentle(s: Spaces, t: Spaces, cur: FrameNo, v: nat, k: nat, frames: seq<FrameNo>)
    requires Tidy(s) && cur in s.dirs && cur != s.kernel && v + k <= B.LIMIT / PAGE && |frames| <= k && Given(s, frames)
    requires MapsRun(s, t, cur, v, k, frames, B.USER)
    ensures Gentle(s, t, frames)
  {
    MapsRunGentle(s, t, cur, v, k, frames, B.USER);
  }

  /** _sbrk disturbs no address space. */
  method Sbrk(program: B.Program, increment: nat) returns (r: B.Result)
    requires program.Loaded() && Tidy(program.vm.Space()) && program.vm.cr3 != program.vm.kernelDir
    requires B.NextBreak(program.brk, increment) < B.LIMIT
    requires program.vm.n + 2 * (B.NextBreak(program.brk, increment) / PAGE - program.brk / PAGE) <= FRAMES
    modifies program`brk, program.vm`mem, program.vm`n, program.vm.frames.bitmap
    ensures program.Loaded() && r == B.Break(old(program.brk)) && program.brk == B.NextBreak(old(program.brk), increment)
    ensures Gentle(old(program.vm.Space()), program.vm.Space(), [])
  {
    ghost var s, brk := program.vm.Space(), program.brk;
    r := program.Sbrk(increment);
    UserRunGentle(s, program.vm.Space(), program.vm.cr3, brk / PAGE + 1, program.brk / PAGE - brk / PAGE, []);
  }

  /** Loading a program disturbs no address space, when the pages of the buffer are spare. */
  method Load(vm: AddressSpaces, buffer: seq<FrameNo>, vaddr: nat, filesz: nat, memsz: nat) returns (program: B.Program)
    requires vaddr % PAGE == 0 && vaddr > 0 && filesz <= memsz && B.InitialBreak(vaddr + memsz) < B.LIMIT
    requires B.Ready(vm, vaddr / PAGE) && |buffer| > filesz / PAGE
    requires Tidy(vm.Space()) && vm.cr3 != vm.kernelDir && Given(vm.Space(), buffer[..filesz / PAGE + 1])
    requires forall j | 0 <= j <= filesz / PAGE :: 0 < buffer[j] < vm.n
    requires vm.n + (filesz / PAGE + 1) + 2 * ((memsz - filesz) / PAGE + 2) <= FRAMES
    modifies vm`mem, vm`n, vm.frames.bitmap
    ensures fresh(program) && program.vm == vm && program.Loaded() && program.brk == B.InitialBreak(vaddr + memsz)
    ensures Gentle(old(vm.Space()), vm.Space(), buffer[..filesz / PAGE + 1])
  {
    ghost var s := vm.Space();
    program := new B.Program(vm, buffer, vaddr, filesz, memsz);
    UserRunGentle(s, vm.Space(), vm.cr3, program.base, program.pages, program.frames);
  }

  /** A forked child is loaded as its parent is: the same pages are mapped, up to the same break. */
  lemma ChildIsLoaded(s: Spaces, s': Spaces, cr3: FrameNo, src: FrameNo, r: FrameNo, base: nat, top: nat)
    requires Tidy(s) && Clonable(s, cr3, src, r) && Cloned(s, s', src, r, true) && src != s.kernel && top <= B.LIMIT / PAGE
    requires MappedPages(s, src, base, top) && Unmapped(s, src, top, B.LIMIT / PAGE)
    ensures MappedPages(s', r, base, top) && Unmapped(s', r, top, B.LIMIT / PAGE)
  {
    forall p: Index, q: Index | p < SELF && PageNo(p, q) < B.LIMIT / PAGE
      ensures Entry(s'.mem, r, p, q).Present() <==> Entry(s.mem, src, p, q).Present()
    {
      ForkIsolates(s, s', cr3, src, r, p, q);
      assert UserEntry(s, src, p, q) ==> Entry(s.mem, src, p, q).Present();
    }
  }

  // ---- the pages of the heap ---------------------------------------------------------------------

  /** Pages v, ..., v+k-1 of the kernel half are in spare frames. */
  ghost predicate PagesSpare(s: Spaces, cur: FrameNo, v: nat, k: nat) {
    forall p: Index, q: Index | p < SELF && v <= PageNo(p, q) < v + k ::
      Entry(s.mem, cur, p, q).Present() && Spare(s, Entry(s.mem, cur, p, q).addr)
  }

  lemma SpareStays(s: Spaces, t: Spaces, cur: FrameNo, v: nat, k: nat)
    requires PagesSpare(s, cur, v, k) && Gentle(s, t, []) && cur in s.dirs
    ensures PagesSpare(t, cur, v, k)
  {
    assert PagesStay(s, t, cur);
  }

  /** Pages from v up to page hi are in different frames in use. */
  ghost predicate Frames(s: Spaces, cur: FrameNo, v: nat, hi: nat) {
    && (forall p: Index, q: Index | p < SELF && v <= PageNo(p, q) < hi ::
          Entry(s.mem, cur, p, q).Present() && Entry(s.mem, cur, p, q).addr < s.n)
    && (forall p: Index, q: Index, i: Index, j: Index | p < SELF && i < SELF && v <= PageNo(p, q) < PageNo(i, j) < hi ::
          Entry(s.mem, cur, p, q).addr != Entry(s.mem, cur, i, j).addr)
  }

  lemma FramesStay(s: Spaces, t: Spaces, cur: FrameNo, v: nat, hi: nat)
    requires Frames(s, cur, v, hi) && PagesStay(s, t, cur) && s.n <= t.n
    ensures Frames(t, cur, v, hi)
  {
    forall p: Index, q: Index | p < SELF && v <= PageNo(p, q) < hi
      ensures Entry(t.mem, cur, p, q) == Entry(s.mem, cur, p, q)
    {
    }
  }

  /** One page more, in a frame that was free. */
  lemma FramesNext(s: Spaces, t: Spaces, cur: FrameNo, v: nat, hi: nat)
    requires Frames(s, cur, v, hi) && PagesStay(s, t, cur) && s.n < t.n
    requires forall p: Index, q: Index | p < SELF && PageNo(p, q) == hi ::
               Entry(t.mem, cur, p, q).Present() && Entry(t.mem, cur, p, q).addr == s.n
    ensures Frames(t, cur, v, hi + 1)
  {
    FramesStay(s, t, cur, v, hi);
    forall p: Index, q: Index | p < SELF && v <= PageNo(p, q) < hi
      ensures Entry(t.mem, cur, p, q).addr < s.n
    {
      assert Entry(t.mem, cur, p, q) == Entry(s.mem, cur, p, q);
    }
  }

  /** Directories and the tables of user pages are the same. */
  ghost predicate SameUser(s: Spaces, t: Spaces) {
    && (forall d | d in s.dirs :: t.mem[d] == s.mem[d])
    && (forall d: FrameNo, i: nat | HasTable(s, d, i) && i < KERNEL :: t.mem[s.mem[d][i].addr] == s.mem[s.mem[d][i].addr])
  }

  lemma PageSameUser(s: Spaces, t: Spaces, cur: FrameNo, u: nat, access: Flags)
    requires Valid(s) && cur in s.dirs && KERNEL * 1024 <= u < SHARED * 1024 && MapsPage(s, t, cur, u, None, access)
    ensures SameUser(s, t) && t.n == s.n + 1
  {
    SharedTable(s, cur, cur, u / 1024);
    assert HasTable(s, cur, u / 1024);
  }

  /** What a page more behind the heap does. */
  ghost predicate Widened(s: Spaces, t: Spaces, k: nat) {
    Gentle(s, t, []) && SameUser(s, t) && t.n == s.n + k
  }

  lemma WidenedTrans(s: Spaces, m: Spaces, t: Spaces, j: nat, k: nat)
    requires Widened(s, m, j) && Widened(m, t, k)
    ensures Widened(s, t, j + k)
  {
    GentleTrans(s, m, t, [], [], []);
    SameUserTrans(s, m, t);
  }

  lemma SameUserTrans(s: Spaces, m: Spaces, t: Spaces)
    requires SameUser(s, m) && SameUser(m, t) && m.dirs == s.dirs
    ensures SameUser(s, t)
  {
    assert forall d: FrameNo, i: nat | HasTable(s, d, i) :: HasTable(m, d, i);
  }

  /** One page of a growing heap. */
  lemma GrowPage(s: Spaces, t: Spaces, cur: FrameNo, v: nat, k: nat, u: nat, access: Flags)
    requires Tidy(s) && cur in s.dirs && KERNEL * 1024 <= v <= u < v + k <= TEMP * 1024 && access.present && access.others == 0
    requires MapsPage(s, t, cur, u, None, access)
    ensures Widened(s, t, 1) && Spare(t, s.n)
    ensures forall p: Index, q: Index | p < SELF && PageNo(p, q) == u ::
              Entry(t.mem, cur, p, q).Present() && Entry(t.mem, cur, p, q).addr == s.n
  {
    MapsPageGentle(s, t, cur, v, k, u, access);
    PageSameUser(s, t, cur, u, access);
    KallocPageInserts(s, cur, u / 1024, u % 1024, access);
  }

  lemma GrowRun(ss: seq<Spaces>, cur: FrameNo, lo: nat, v: nat, n: nat, access: Flags)
    requires MapRun(ss, cur, v, [], access) && |ss| == n + 1 && Tidy(ss[0]) && cur in ss[0].dirs && Frames(ss[0], cur, lo, v)
    requires KERNEL * 1024 <= v && v + n <= TEMP * 1024 && access.present && access.others == 0
    ensures Widened(ss[0], ss[n], n) && PagesSpare(ss[n], cur, v, n) && Frames(ss[n], cur, lo, v + n)
  {
    GrowNone(ss[0], cur, lo, v);
    for k := 0 to n
      invariant Widened(ss[0], ss[k], k) && PagesSpare(ss[k], cur, v, k) && Frames(ss[k], cur, lo, v + k)
    {
      assert MapStep(ss, cur, v, [], access, k);
      GrowNext(ss[0], ss[k], ss[k + 1], cur, lo, v, n, k, access);
    }
  }

  lemma GrowNone(s: Spaces, cur: FrameNo, lo: nat, v: nat)
    requires Tidy(s) && Frames(s, cur, lo, v)
    ensures Widened(s, s, 0) && PagesSpare(s, cur, v, 0) && Frames(s, cur, lo, v + 0)
  {
    GentleRefl(s);
  }

  lemma GrowNext(s: Spaces, m: Spaces, t: Spaces, cur: FrameNo, lo: nat, v: nat, n: nat, k: nat, access: Flags)
    requires Widened(s, m, k) && PagesSpare(m, cur, v, k) && Frames(m, cur, lo, v + k) && cur in s.dirs && k < n
    requires KERNEL * 1024 <= v && v + n <= TEMP * 1024 && access.present && access.others == 0
    requires MapsPage(m, t, cur, v + k, None, access)
    ensures Widened(s, t, k + 1) && PagesSpare(t, cur, v, k + 1) && Frames(t, cur, lo, v + k + 1)
  {
    GrowPage(m, t, cur, v, n, v + k, access);
    WidenedTrans(s, m, t, k, 1);
    SpareStays(m, t, cur, v, k);
    FramesNext(m, t, cur, lo, v + k);
  }

  /** New pages behind the heap are spare, and all its pages are still in different frames. */
  lemma GrownHeap(s: Spaces, t: Spaces, cur: FrameNo, lo: nat, v: nat, k: nat, access: Flags)
    requires MapsRun(s, t, cur, v, k, [], access) && Tidy(s) && cur in s.dirs && Frames(s, cur, lo, v)
    requires KERNEL * 1024 <= v && v + k <= TEMP * 1024 && access.present && access.others == 0
    ensures Widened(s, t, k) && PagesSpare(t, cur, v, k) && Frames(t, cur, lo, v + k)
  {
    var ss :| MapRun(ss, cur, v, [], access) && |ss| == k + 1 && ss[0] == s && ss[k] == t;
    GrowRun(ss, cur, lo, v, k, access);
  }

  // ---- kmalloc -----------------------------------------------------------------------------------

  /** The pages of free blocks are spare. */
  ghost predicate FreeSpare(s: Spaces, cur: FrameNo, b: seq<H.Block>) {
    forall i | 0 <= i < |b| && !b[i].reserved :: PagesSpare(s, cur, b[i].ptr / PAGE, b[i].size)
  }

  lemma FreeStays(s: Spaces, t: Spaces, cur: FrameNo, b: seq<H.Block>)
    requires FreeSpare(s, cur, b) && Gentle(s, t, []) && cur in s.dirs
    ensures FreeSpare(t, cur, b)
  {
    forall i | 0 <= i < |b| && !b[i].reserved
      ensures PagesSpare(t, cur, b[i].ptr / PAGE, b[i].size)
    {
      SpareStays(s, t, cur, b[i].ptr / PAGE, b[i].size);
    }
  }

  lemma TailPage(ptr: nat, size: nat, amount: nat)
    requires amount <= size && ptr % PAGE == 0
    ensures (ptr + (size - amount) * PAGE) / PAGE == ptr / PAGE + (size - amount)
  {
  }

  /** What a free block serves is spare, and so is what is left free. */
  lemma TakeSpare(s: Spaces, cur: FrameNo, b: seq<H.Block>, lo: nat, hi: nat, i: nat, amount: nat)
    requires FreeSpare(s, cur, b) && H.Tiles(b, lo, hi) && i < |b| && H.Fits(b[i], amount) && amount > 0
    ensures PagesSpare(s, cur, H.TailOf(b[i], amount) / PAGE, amount) && FreeSpare(s, cur, H.Take(b, i, amount))
  {
    var t := H.Take(b, i, amount);
    assert H.BlockOk(b[i], lo, hi);
    TailPage(b[i].ptr, b[i].size, amount);
    assert PagesSpare(s, cur, b[i].ptr / PAGE, b[i].size);
    forall k | 0 <= k < |t| && !t[k].reserved
      ensures PagesSpare(s, cur, t[k].ptr / PAGE, t[k].size)
    {
      assert PagesSpare(s, cur, b[k].ptr / PAGE, b[k].size);
    }
  }

  /** What kmalloc starts from and leaves, in terms of the address spaces. */
  ghost predicate HeapTidy(s: Spaces, cur: FrameNo, meta: nat, end: nat, b: seq<H.Block>) {
    Tidy(s) && cur in s.dirs && FreeSpare(s, cur, b) && Frames(s, cur, meta / PAGE, end / PAGE)
  }

  lemma StartTidy(s: Spaces, t: Spaces, cur: FrameNo, end: nat, meta: nat)
    requires Tidy(s) && cur in s.dirs && K.Started(s, t, cur, end, meta) && end == 0
    requires 0xC0000000 <= meta && meta % PAGE == 0 && meta + PAGE <= K.LIMIT
    ensures Widened(s, t, 1) && HeapTidy(t, cur, meta, meta + PAGE, [])
  {
    GrownHeap(s, t, cur, meta / PAGE, meta / PAGE, 1, AccessFlags(true, true));
    K.EndPage(meta, 1);
  }

  lemma GrowTidy(s: Spaces, t: Spaces, cur: FrameNo, meta: nat, end: nat, b: seq<H.Block>, amount: nat)
    requires HeapTidy(s, cur, meta, end, b) && MapsRun(s, t, cur, end / PAGE, amount, [], AccessFlags(false, true))
    requires 0xC0000000 <= end && end % PAGE == 0 && end + amount * PAGE <= K.LIMIT
    ensures Widened(s, t, amount) && PagesSpare(t, cur, end / PAGE, amount)
    ensures HeapTidy(t, cur, meta, end + amount * PAGE, b + [H.Block(true, amount, end)])
  {
    K.EndPage(end, amount);
    GrownHeap(s, t, cur, meta / PAGE, end / PAGE, amount, AccessFlags(false, true));
    FreeStays(s, t, cur, b);
  }

  /** One successful request, from the address spaces t after the first call's own page. */
  lemma ServedTidy(t: Spaces, s': Spaces, cur: FrameNo, meta: nat, h: H.Arena, amount: nat, h': H.Arena, ptr: nat)
    requires HeapTidy(t, cur, meta, h.end, h.blocks) && H.Tiles(h.blocks, meta + PAGE, h.end) && amount > 0
    requires 0xC0000000 <= h.end && h.end % PAGE == 0 && h.end + amount * PAGE <= K.LIMIT
    requires H.Step(h, H.Malloc(amount)) == Some(h') && ptr == K.Answer(h.blocks, h.end, amount)
    requires K.Supplied(t, s', cur, H.FirstFit(h.blocks, amount, 0) < |h.blocks|, ptr, amount)
    ensures PagesSpare(s', cur, ptr / PAGE, amount) && HeapTidy(s', cur, meta, h'.end, h'.blocks)
    ensures Widened(t, s', 0) || Widened(t, s', amount)
  {
    var i := H.FirstFit(h.blocks, amount, 0);
    if i < |h.blocks| {
      TakeSpare(t, cur, h.blocks, meta + PAGE, h.end, i, amount);
      GentleRefl(t);
    } else {
      GrowTidy(t, s', cur, meta, h.end, h.blocks, amount);
    }
  }

  ghost predicate HeapOk(heap: K.KernelHeap)
    reads heap, heap.table, heap.vm, heap.vm.frames, heap.vm.frames.bitmap
  {
    && heap.Intact()
    && if heap.heapEnd == 0 then Tidy(heap.vm.Space())
       else HeapTidy(heap.vm.Space(), heap.vm.cr3, heap.Meta(), heap.heapEnd, heap.Blocks())
  }

  /** What a request for `amount` pages that was answered with ptr leaves. */
  ghost predicate Answered(s: Spaces, s': Spaces, cur: FrameNo, meta: nat, end: nat, b: seq<H.Block>, amount: nat,
                           ptr: nat) {
    && WidenedUpTo(s, s', amount + 1) && PagesSpare(s', cur, ptr / PAGE, amount)
    && HeapTidy(s', cur, meta, end, b) && H.Block(true, amount, ptr) in b
  }

  method Request(heap: K.KernelHeap, size: nat, ghost h: H.Arena) returns (r: K.Result)
    requires heap.Intact() && size > 0 && heap.EndOrStart() + H.Pages(size) * PAGE <= K.LIMIT
    requires h == heap.View() && HeapState(heap.vm.Space(), heap.vm.cr3, heap.Meta(), heap.heapEnd, h)
    modifies heap`heapEnd, heap`count, heap.table, heap.vm`mem, heap.vm`n, heap.vm.frames.bitmap
    ensures r == K.Halt || r.Ptr?
    ensures var n := old(heap.vm.n) + (if old(heap.heapEnd) == 0 then 1 else 0); r == K.Halt <==> K.Halts(h.blocks, H.Pages(size), n)
    ensures r.Ptr? ==>
              && heap.Intact() && heap.heapEnd != 0
              && Answered(old(heap.vm.Space()), heap.vm.Space(), heap.vm.cr3, heap.Meta(), heap.heapEnd, heap.Blocks(), H.Pages(size), r.ptr)
  {
    ghost var s, end := heap.vm.Space(), heap.heapEnd;
    ghost var t;
    r, t := heap.Kmalloc(size);
    if r.Ptr? {
      KmallocTidy(s, t, heap.vm.Space(), heap.vm.cr3, heap.Meta(), end, h, H.Pages(size), heap.View(), r.ptr);
    }
  }

  /** kmalloc answers with pages that are no directory, no table and no user page, and disturbs no address space. */
  method Kmalloc(heap: K.KernelHeap, size: nat) returns (r: K.Result)
    requires HeapOk(heap) && size > 0 && heap.EndOrStart() + H.Pages(size) * PAGE <= K.LIMIT
    modifies heap`heapEnd, heap`count, heap.table, heap.vm`mem, heap.vm`n, heap.vm.frames.bitmap
    ensures r == K.Halt || r.Ptr?
    ensures var n := old(heap.vm.n) + (if old(heap.heapEnd) == 0 then 1 else 0);
            r == K.Halt <==> K.Halts(old(heap.Blocks()), H.Pages(size), n)
    ensures r.Ptr? ==>
              && HeapOk(heap) && heap.heapEnd != 0 && WidenedUpTo(old(heap.vm.Space()), heap.vm.Space(), H.Pages(size) + 1)
              && PagesSpare(heap.vm.Space(), heap.vm.cr3, r.ptr / PAGE, H.Pages(size))
              && H.Block(true, H.Pages(size), r.ptr) in heap.Blocks()
  {
    HeapStarts(heap);
    r := Request(heap, size, heap.View());
  }

  ghost predicate WidenedUpTo(s: Spaces, t: Spaces, k: nat) {
    Gentle(s, t, []) && SameUser(s, t) && t.n <= s.n + k
  }

  /** The heap before a request; `end` is 0 when it is the first. */
  ghost predicate HeapState(s: Spaces, cur: FrameNo, meta: nat, end: nat, h: H.Arena) {
    && Tidy(s) && cur in s.dirs && 0xC0000000 <= meta && meta % PAGE == 0 && meta + PAGE <= h.end && h.end % PAGE == 0
    && (if end == 0 then h == H.Arena([], meta + PAGE) else h.end == end && HeapTidy(s, cur, meta, h.end, h.blocks))
    && H.Tiles(h.blocks, meta + PAGE, h.end)
  }

  lemma HeapStarts(heap: K.KernelHeap)
    requires HeapOk(heap)
    ensures HeapState(heap.vm.Space(), heap.vm.cr3, heap.Meta(), heap.heapEnd, heap.View())
  {
  }

  /** One successful request. */
  lemma KmallocTidy(s: Spaces, t: Spaces, s': Spaces, cur: FrameNo, meta: nat, end: nat, h: H.Arena, amount: nat,
                    h': H.Arena, ptr: nat)
    requires HeapState(s, cur, meta, end, h) && K.Started(s, t, cur, end, meta) && amount > 0 && h.end + amount * PAGE <= K.LIMIT
    requires H.Step(h, H.Malloc(amount)) == Some(h') && ptr == K.Answer(h.blocks, h.end, amount)
    requires K.Supplied(t, s', cur, H.FirstFit(h.blocks, amount, 0) < |h.blocks|, ptr, amount)
    ensures WidenedUpTo(s, s', amount + 1) && PagesSpare(s', cur, ptr / PAGE, amount) && HeapTidy(s', cur, meta, h'.end, h'.blocks)
  {
    if end == 0 {
      StartTidy(s, t, cur, end, meta);
    } else {
      GentleRefl(s);
    }
    ServedTidy(t, s', cur, meta, h, amount, h', ptr);
    if Widened(t, s', 0) {
      WidenedTrans(s, t, s', t.n - s.n, 0);
    } else {
      WidenedTrans(s, t, s', t.n - s.n, amount);
    }
  }

  lemma GentleRefl(s: Spaces)
    requires Tidy(s)
    ensures Gentle(s, s, [])
  {
  }

  // ---- cloning into a page of the heap -----------------------------------------------------------

  lemma NeedStays(s: Spaces, t: Spaces, src: FrameNo)
    requires Tidy(s) && src in s.dirs && Gentle(s, t, []) && SameUser(s, t)
    ensures Need(t.mem, src, s.kernel, SHARED) == Need(s.mem, src, s.kernel, SHARED)
  {
    forall i: Index | i < SHARED && Private(s.mem, src, s.kernel, i)
      ensures SameTable(s.mem, t.mem, s.mem[src][i].addr)
    {
      PrivateIsUser(s, src, i);
      UserTableStays(s, t, src, i);
    }
    NeedSame(s.mem, t.mem, src, s.kernel, SHARED);
  }

  lemma UserTableStays(s: Spaces, t: Spaces, src: FrameNo, i: Index)
    requires Tidy(s) && HasTable(s, src, i) && i < KERNEL && Gentle(s, t, []) && SameUser(s, t)
    ensures SameTable(s.mem, t.mem, s.mem[src][i].addr)
  {
    var a := s.mem[src][i].addr;
    forall j: Index | s.mem[a][j] != ZERO
      ensures t.mem[s.mem[a][j].addr] == s.mem[s.mem[a][j].addr]
    {
      assert UserEntry(s, src, i, j) && FrameOk(s, Entry(s.mem, src, i, j));
      assert ContentsStay(s, t, src);
    }
  }

  /** Spare frames other than the new directory stay spare. */
  lemma CloneSpare(s: Spaces, s': Spaces, cr3: FrameNo, src: FrameNo, r: FrameNo, copy: bool, g: FrameNo)
    requires Tidy(s) && Spare(s, r) && Clonable(s, cr3, src, r) && Cloned(s, s', src, r, copy) && Spare(s, g) && g != r
    ensures Spare(s', g)
  {
    CloneTables(s, s', cr3, src, r, copy);
    StaysUnowned(s, s', g);
    CloneNoUserPage(s, s', cr3, src, r, copy, g);
  }

  lemma CloneNoUserPage(s: Spaces, s': Spaces, cr3: FrameNo, src: FrameNo, r: FrameNo, copy: bool, g: FrameNo)
    requires Tidy(s) && Clonable(s, cr3, src, r) && Cloned(s, s', src, r, copy) && NoUserPage(s, g) && g < s.n
    ensures NoUserPage(s', g)
  {
    OthersKeepTheirPages(s, s', cr3, src, r, copy);
    forall d: FrameNo, i: Index, j: Index | UserEntry(s', d, i, j)
      ensures Entry(s'.mem, d, i, j).addr != g
    {
      if d == r {
        ChildUserPage(s, s', cr3, src, r, copy, i, j);
      } else {
        assert UserEntry(s, d, i, j);
      }
    }
  }

  /** The page at ptr is that of frame f, and belongs to a live allocation. */
  ghost predicate Holds(s: Spaces, cur: FrameNo, b: seq<H.Block>, ptr: nat, f: FrameNo) {
    && ptr % PAGE == 0 && H.Block(true, 1, ptr) in b
    && forall p: Index, q: Index | p < SELF && PageNo(p, q) == ptr / PAGE ::
         Entry(s.mem, cur, p, q).Present() && Entry(s.mem, cur, p, q).addr == f
  }

  /** No page of a free block is in the frame of that page. */
  lemma FreeApart(s: Spaces, cur: FrameNo, meta: nat, hi: nat, b: seq<H.Block>, ptr: nat, f: FrameNo, i: nat,
                  p: Index, q: Index)
    requires H.Tiles(b, meta + PAGE, hi) && Frames(s, cur, meta / PAGE, hi / PAGE) && Holds(s, cur, b, ptr, f)
    requires i < |b| && !b[i].reserved && p < SELF && b[i].ptr / PAGE <= PageNo(p, q) < b[i].ptr / PAGE + b[i].size
    requires hi <= K.LIMIT && hi % PAGE == 0
    ensures Entry(s.mem, cur, p, q).addr != f
  {
    var k :| 0 <= k < |b| && b[k] == H.Block(true, 1, ptr);
    assert H.BlockOk(b[i], meta + PAGE, hi) && H.BlockOk(b[k], meta + PAGE, hi);
    assert H.Disjoint(b[if i < k then i else k], b[if i < k then k else i]);
    PagesOf(b[i].ptr, b[i].size, ptr, PageNo(p, q));
    InHeap(meta, hi, ptr);
    var u: nat := ptr / PAGE;
    var x: Index, y: Index := u / 1024, u % 1024;
    assert PageNo(x, y) == u;
    InHeapBlock(meta, hi, b[i].ptr, b[i].size, PageNo(p, q));
  }

  lemma PagesOf(a: nat, size: nat, ptr: nat, u: nat)
    requires a % PAGE == 0 && ptr % PAGE == 0 && (a + size * PAGE <= ptr || ptr + PAGE <= a) && a / PAGE <= u < a / PAGE + size
    ensures u != ptr / PAGE
  {
    TailPage(a, size, 0);
  }

  lemma InHeap(meta: nat, hi: nat, ptr: nat)
    requires meta + PAGE <= ptr && ptr + PAGE <= hi <= K.LIMIT
    ensures meta / PAGE <= ptr / PAGE < hi / PAGE && ptr / PAGE < SELF * 1024
  {
  }

  lemma InHeapBlock(meta: nat, hi: nat, a: nat, size: nat, u: nat)
    requires meta + PAGE <= a && a % PAGE == 0 && a + size * PAGE <= hi && a / PAGE <= u < a / PAGE + size
    ensures meta / PAGE <= u < hi / PAGE
  {
    TailPage(a, size, 0);
    B.PagesGrow(meta, a);
    B.PagesGrow(a + size * PAGE, hi);
  }

  lemma CloneHeap(s: Spaces, s': Spaces, cr3: FrameNo, src: FrameNo, r: FrameNo, copy: bool, meta: nat, hi: nat,
                  b: seq<H.Block>, ptr: nat)
    requires HeapTidy(s, cr3, meta, hi, b) && Spare(s, r) && src in s.dirs && Cloned(s, s', src, r, copy)
    requires H.Tiles(b, meta + PAGE, hi) && Holds(s, cr3, b, ptr, r) && hi <= K.LIMIT && hi % PAGE == 0
    ensures HeapTidy(s', cr3, meta, hi, b) && Holds(s', cr3, b, ptr, r)
  {
    TidyClonable(s, cr3, src, r);
    CloneKeepsTidy(s, s', cr3, src, r, copy);
    CloneKeepsContents(s, s', cr3, src, r, copy, cr3);
    FramesStay(s, s', cr3, meta / PAGE, hi / PAGE);
    forall i | 0 <= i < |b| && !b[i].reserved
      ensures PagesSpare(s', cr3, b[i].ptr / PAGE, b[i].size)
    {
      CloneFree(s, s', cr3, src, r, copy, meta, hi, b, ptr, i);
    }
  }

  lemma CloneFree(s: Spaces, s': Spaces, cr3: FrameNo, src: FrameNo, r: FrameNo, copy: bool, meta: nat, hi: nat,
                  b: seq<H.Block>,
                  ptr: nat, i: nat)
    requires HeapTidy(s, cr3, meta, hi, b) && Spare(s, r) && Clonable(s, cr3, src, r) && Cloned(s, s', src, r, copy)
    requires H.Tiles(b, meta + PAGE, hi) && Holds(s, cr3, b, ptr, r) && hi <= K.LIMIT && hi % PAGE == 0
    requires PagesStay(s, s', cr3) && i < |b| && !b[i].reserved
    ensures PagesSpare(s', cr3, b[i].ptr / PAGE, b[i].size)
  {
    forall p: Index, q: Index | p < SELF && b[i].ptr / PAGE <= PageNo(p, q) < b[i].ptr / PAGE + b[i].size
      ensures Entry(s'.mem, cr3, p, q).Present() && Spare(s', Entry(s'.mem, cr3, p, q).addr)
    {
      assert PagesSpare(s, cr3, b[i].ptr / PAGE, b[i].size);
      FreeApart(s, cr3, meta, hi, b, ptr, r, i, p, q);
      CloneSpare(s, s', cr3, src, r, copy, Entry(s.mem, cr3, p, q).addr);
    }
  }

  function PageAt(ptr: nat): VPage
    requires ptr < K.LIMIT
  {
    VPage(ptr / PAGE / 1024, ptr / PAGE % 1024)
  }

  /** The page that kmalloc has answered. */
  lemma NewPage(s: Spaces, cur: FrameNo, meta: nat, hi: nat, b: seq<H.Block>, ptr: nat) returns (f: FrameNo)
    requires PagesSpare(s, cur, ptr / PAGE, 1) && H.Tiles(b, meta + PAGE, hi) && H.Block(true, 1, ptr) in b
    requires 0xC0000000 <= meta && hi <= K.LIMIT
    requires Valid(s) && cur in s.dirs && HeapTidy(s, cur, meta, hi, b) && hi % PAGE == 0 && K.HeapPages(s, cur, meta, hi)
    ensures SparePage(s, cur, meta, hi, b, ptr, f)
  {
    var k :| 0 <= k < |b| && b[k] == H.Block(true, 1, ptr);
    assert H.BlockOk(b[k], meta + PAGE, hi);
    var v := PageAt(ptr);
    assert PageNo(v.i, v.j) == ptr / PAGE;
    f := Entry(s.mem, cur, v.i, v.j).addr;
    forall p: Index, q: Index | p < SELF && PageNo(p, q) == ptr / PAGE
      ensures p == v.i && q == v.j
    {
    }
  }

  /** A heap one of whose pages is f, spare and known to the running process as page ptr. */
  ghost predicate SparePage(s: Spaces, cr3: FrameNo, meta: nat, hi: nat, b: seq<H.Block>, ptr: nat, f: FrameNo) {
    && Valid(s) && cr3 in s.dirs && HeapTidy(s, cr3, meta, hi, b) && H.Tiles(b, meta + PAGE, hi)
    && hi <= K.LIMIT && hi % PAGE == 0 && K.HeapPages(s, cr3, meta, hi)
    && Spare(s, f) && Holds(s, cr3, b, ptr, f) && ptr < K.LIMIT && KernelPage(s, cr3, PageAt(ptr), f)
  }

  ghost predicate HeapKept(s: Spaces, cr3: FrameNo, meta: nat, hi: nat, b: seq<H.Block>, ptr: nat, f: FrameNo) {
    && Valid(s) && cr3 in s.dirs && HeapTidy(s, cr3, meta, hi, b) && K.HeapPages(s, cr3, meta, hi) && Holds(s, cr3, b, ptr, f)
  }

  lemma CloneKeepsHeap(s: Spaces, s': Spaces, cr3: FrameNo, src: FrameNo, f: FrameNo, copy: bool, meta: nat, hi: nat,
                       b: seq<H.Block>, ptr: nat)
    requires SparePage(s, cr3, meta, hi, b, ptr, f) && src in s.dirs && Cloned(s, s', src, f, copy)
    ensures HeapKept(s', cr3, meta, hi, b, ptr, f)
  {
    TidyClonable(s, cr3, src, f);
    CloneKeepsValid(s, s', cr3, src, f, copy);
    OthersKeepTheirPages(s, s', cr3, src, f, copy);
    CloneHeap(s, s', cr3, src, f, copy, meta, hi, b, ptr);
  }

  /** The source and the kernel's directory, as the running process sees them, and the frames a copy takes. */
  ghost predicate Sources(s: Spaces, cr3: FrameNo, src: VPage, kernel: VPage, copy: bool, sf: FrameNo, spend: nat) {
    && sf in s.dirs && KernelPage(s, cr3, src, sf) && KernelPage(s, cr3, kernel, s.kernel)
    && (copy ==> Need(s.mem, sf, s.kernel, SHARED) == 0 || s.n + spend + Need(s.mem, sf, s.kernel, SHARED) <= FRAMES)
  }

  /** Cloning a directory into a page of the heap. */
  method CloneInto(vm: AddressSpaces, src: VPage, kernel: VPage, ptr: nat, copy: bool, ghost sf: FrameNo, ghost f: FrameNo,
                   ghost meta: nat, ghost hi: nat, ghost b: seq<H.Block>)
    requires vm.Sound() && SparePage(vm.Space(), vm.cr3, meta, hi, b, ptr, f) && ptr < K.LIMIT
    requires Sources(vm.Space(), vm.cr3, src, kernel, copy, sf, 0)
    modifies vm`mem, vm`n, vm`dirs, vm.frames.bitmap
    ensures vm.Sound() && HeapKept(vm.Space(), vm.cr3, meta, hi, b, ptr, f) && Cloned(old(vm.Space()), vm.Space(), sf, f, copy)
  {
    ghost var s := vm.Space();
    TidyClonable(s, vm.cr3, sf, f);
    ClonePageDirectory(vm, src, PageAt(ptr), kernel, copy, sf, f);
    CloneKeepsHeap(s, vm.Space(), vm.cr3, sf, f, copy, meta, hi, b, ptr);
  }

  /** The fields of a heap in use whose blocks are b. */
  ghost predicate Fields(heap: K.KernelHeap, b: seq<H.Block>)
    reads heap, heap.table, heap.vm, heap.vm.frames
  {
    && heap.kernelEnd % PAGE == 0 && heap.vm.frames.bitmap as object != heap.table
    && heap.table.Length == H.MAX_BLOCKS && heap.count <= H.MAX_BLOCKS && heap.Blocks() == b
    && heap.heapEnd % PAGE == 0 && heap.Meta() + PAGE <= heap.heapEnd <= K.LIMIT
  }

  lemma HeapAgain(heap: K.KernelHeap, b: seq<H.Block>, ptr: nat, f: FrameNo)
    requires heap.vm.Sound() && Fields(heap, b) && H.Tiles(b, heap.Meta() + PAGE, heap.heapEnd)
    requires HeapKept(heap.vm.Space(), heap.vm.cr3, heap.Meta(), heap.heapEnd, b, ptr, f)
    ensures HeapOk(heap) && Holds(heap.vm.Space(), heap.vm.cr3, heap.Blocks(), ptr, f)
  {
  }

  lemma NowInUse(heap: K.KernelHeap)
    requires heap.Intact() && heap.heapEnd != 0
    ensures Fields(heap, heap.Blocks())
  {
  }

  method CloneHere(heap: K.KernelHeap, src: VPage, kernel: VPage, ptr: nat, copy: bool, ghost sf: FrameNo,
                   ghost f: FrameNo, ghost b: seq<H.Block>)
    requires heap.vm.Sound() && Fields(heap, b) && ptr < K.LIMIT
    requires SparePage(heap.vm.Space(), heap.vm.cr3, heap.Meta(), heap.heapEnd, b, ptr, f)
    requires Sources(heap.vm.Space(), heap.vm.cr3, src, kernel, copy, sf, 0)
    modifies heap.vm`mem, heap.vm`n, heap.vm`dirs, heap.vm.frames.bitmap
    ensures HeapOk(heap) && Cloned(old(heap.vm.Space()), heap.vm.Space(), sf, f, copy)
    ensures Holds(heap.vm.Space(), heap.vm.cr3, heap.Blocks(), ptr, f)
  {
    CloneInto(heap.vm, src, kernel, ptr, copy, sf, f, heap.Meta(), heap.heapEnd, b);
    assert Fields(heap, b);
    HeapAgain(heap, b, ptr, f);
  }

  lemma SourcesStay(s: Spaces, t: Spaces, cr3: FrameNo, src: VPage, kernel: VPage, copy: bool, sf: FrameNo)
    requires Tidy(s) && WidenedUpTo(s, t, 2) && cr3 in s.dirs && Sources(s, cr3, src, kernel, copy, sf, 2)
    ensures Sources(t, cr3, src, kernel, copy, sf, 0)
  {
    assert PagesStay(s, t, cr3);
    NeedStays(s, t, sf);
  }

  lemma ReadyToClone(heap: K.KernelHeap, s: Spaces, src: VPage, kernel: VPage, ptr: nat, copy: bool,
                     sf: FrameNo) returns (f: FrameNo)
    requires HeapOk(heap) && heap.heapEnd != 0 && WidenedUpTo(s, heap.vm.Space(), 2)
    requires PagesSpare(heap.vm.Space(), heap.vm.cr3, ptr / PAGE, 1) && H.Block(true, 1, ptr) in heap.Blocks()
    requires Tidy(s) && heap.vm.cr3 in s.dirs && Sources(s, heap.vm.cr3, src, kernel, copy, sf, 2)
    ensures Fields(heap, heap.Blocks()) && Sources(heap.vm.Space(), heap.vm.cr3, src, kernel, copy, sf, 0)
    ensures SparePage(heap.vm.Space(), heap.vm.cr3, heap.Meta(), heap.heapEnd, heap.Blocks(), ptr, f)
  {
    f := NewPage(heap.vm.Space(), heap.vm.cr3, heap.Meta(), heap.heapEnd, heap.Blocks(), ptr);
    SourcesStay(s, heap.vm.Space(), heap.vm.cr3, src, kernel, copy, sf);
    NowInUse(heap);
  }

  /** clone_page_directory_internal as a whole: the directory is a page from kmalloc, which is no directory, no table
      and no user page of anyone; t are the address spaces before the cloning. */
  method NewDirectory(heap: K.KernelHeap, src: VPage, kernel: VPage, copy: bool, ghost sf: FrameNo)
    returns (r: K.Result, ghost f: FrameNo, ghost t: Spaces)
    requires HeapOk(heap) && heap.EndOrStart() + PAGE <= K.LIMIT && Sources(heap.vm.Space(), heap.vm.cr3, src, kernel, copy, sf, 2)
    modifies heap`heapEnd, heap`count, heap.table, heap.vm`mem, heap.vm`n, heap.vm`dirs, heap.vm.frames.bitmap
    ensures r == K.Halt || r.Ptr?
    ensures var n := old(heap.vm.n) + (if old(heap.heapEnd) == 0 then 1 else 0); r == K.Halt <==> K.Halts(old(heap.Blocks()), 1, n)
    ensures r.Ptr? ==>
              && HeapOk(heap) && heap.heapEnd != 0 && Holds(heap.vm.Space(), heap.vm.cr3, heap.Blocks(), r.ptr, f)
              && Gentle(old(heap.vm.Space()), t, []) && Spare(t, f) && Cloned(t, heap.vm.Space(), sf, f, copy)
  {
    ghost var s := heap.vm.Space();
    f := 0;
    r := Kmalloc(heap, 0x1000);
    t := heap.vm.Space();
    if r.Ptr? {
      f := ReadyToClone(heap, s, src, kernel, r.ptr, copy, sf);
      CloneHere(heap, src, kernel, r.ptr, copy, sf, f, heap.Blocks());
    }
  }

  // ---- the heap over a process's life -----------------------------------------------------------

  /** What disturbs no address space and takes no spare page leaves the heap as it is. */
  lemma GentleHeap(s: Spaces, t: Spaces, cur: FrameNo, meta: nat, end: nat, b: seq<H.Block>)
    requires HeapTidy(s, cur, meta, end, b) && Gentle(s, t, [])
    ensures HeapTidy(t, cur, meta, end, b)
  {
    FreeStays(s, t, cur, b);
    assert PagesStay(s, t, cur);
    FramesStay(s, t, cur, meta / PAGE, end / PAGE);
  }

  /** The heap is the same for every process. */
  lemma SwitchHeap(s: Spaces, cur: FrameNo, e: FrameNo, meta: nat, end: nat, b: seq<H.Block>)
    requires HeapTidy(s, cur, meta, end, b) && K.HeapPages(s, cur, meta, end) && e in s.dirs
    requires H.Tiles(b, meta + PAGE, end) && 0xC0000000 <= meta && meta + PAGE <= end <= K.LIMIT && end % PAGE == 0
    ensures HeapTidy(s, e, meta, end, b) && K.HeapPages(s, e, meta, end)
  {
    forall p: Index, q: Index | 0xC0000000 / PAGE <= PageNo(p, q) < K.LIMIT / PAGE
      ensures Entry(s.mem, e, p, q) == Entry(s.mem, cur, p, q)
    {
      KernelPagesAgree(s, e, cur, p, q);
    }
    B.PagesGrow(0xC0000000, meta);
    B.PagesGrow(meta, end);
    B.PagesGrow(end, K.LIMIT);
    forall i | 0 <= i < |b| && !b[i].reserved
      ensures PagesSpare(s, e, b[i].ptr / PAGE, b[i].size)
    {
      SwitchBlock(s, cur, e, meta, end, b, i);
    }
  }

  lemma SwitchBlock(s: Spaces, cur: FrameNo, e: FrameNo, meta: nat, end: nat, b: seq<H.Block>, i: nat)
    requires FreeSpare(s, cur, b) && H.Tiles(b, meta + PAGE, end) && i < |b| && !b[i].reserved
    requires 0xC0000000 / PAGE <= meta / PAGE && end / PAGE <= K.LIMIT / PAGE
    requires forall p: Index, q: Index | 0xC0000000 / PAGE <= PageNo(p, q) < K.LIMIT / PAGE :: Entry(s.mem, e, p, q) == Entry(s.mem, cur, p, q)
    ensures PagesSpare(s, e, b[i].ptr / PAGE, b[i].size)
  {
    assert H.BlockOk(b[i], meta + PAGE, end) && PagesSpare(s, cur, b[i].ptr / PAGE, b[i].size);
    forall p: Index, q: Index | p < SELF && b[i].ptr / PAGE <= PageNo(p, q) < b[i].ptr / PAGE + b[i].size
      ensures Entry(s.mem, e, p, q) == Entry(s.mem, cur, p, q)
    {
      InHeapBlock(meta, end, b[i].ptr, b[i].size, PageNo(p, q));
    }
  }

  /** A directory that is none any more is spare, and so is what was. */
  lemma ReleasedSpare(s: Spaces, d: FrameNo, f: FrameNo)
    requires Tidy(s) && d != s.kernel && d in s.dirs && (f == d || Spare(s, f))
    ensures Spare(s.(dirs := s.dirs - {d}), f)
  {
    var s' := s.(dirs := s.dirs - {d});
    assert forall e: FrameNo, k: nat :: HasTable(s', e, k) ==> HasTable(s, e, k);
    forall e: FrameNo, i: Index, j: Index | UserEntry(s', e, i, j)
      ensures Entry(s'.mem, e, i, j).addr != f
    {
      assert UserEntry(s, e, i, j) && FrameOk(s, Entry(s.mem, e, i, j));
    }
  }

  /** Freeing the directory of a process that is not running. */
  lemma ReleaseHeap(s: Spaces, cur: FrameNo, f: FrameNo, meta: nat, end: nat, b: seq<H.Block>, ptr: nat, k: nat)
    requires HeapTidy(s, cur, meta, end, b) && Holds(s, cur, b, ptr, f) && f in s.dirs && f != s.kernel && f != cur
    requires k < |b| && b[k] == H.Block(true, 1, ptr)
    ensures HeapTidy(s.(dirs := s.dirs - {f}), cur, meta, end, H.Release(b, k))
  {
    var t := s.(dirs := s.dirs - {f});
    ReleaseKeepsTidy(s, f);
    forall i | 0 <= i < |b| && (!b[i].reserved || i == k)
      ensures PagesSpare(t, cur, b[i].ptr / PAGE, b[i].size)
    {
      forall p: Index, q: Index | p < SELF && b[i].ptr / PAGE <= PageNo(p, q) < b[i].ptr / PAGE + b[i].size
        ensures Entry(t.mem, cur, p, q).Present() && Spare(t, Entry(t.mem, cur, p, q).addr)
      {
        assert i != k ==> PagesSpare(s, cur, b[i].ptr / PAGE, b[i].size);
        ReleasedSpare(s, f, Entry(s.mem, cur, p, q).addr);
      }
    }
    assert Frames(t, cur, meta / PAGE, end / PAGE);
  }

  lemma OneStart(b: seq<H.Block>, lo: nat, hi: nat, ptr: nat) returns (k: nat)
    requires H.Tiles(b, lo, hi) && H.Block(true, 1, ptr) in b
    ensures k < |b| && b[k] == H.Block(true, 1, ptr) && H.FindStart(b, ptr, 0) == k
    ensures forall x | x in b && x.ptr == ptr :: x == b[k]
  {
    k :| 0 <= k < |b| && b[k] == H.Block(true, 1, ptr);
    forall i | 0 <= i < |b| && i != k
      ensures b[i].ptr != ptr
    {
      H.StartsDiffer(b, lo, hi, if i < k then i else k, if i < k then k else i);
    }
  }

  method FreeBlock(heap: K.KernelHeap, ptr: nat, ghost k: nat) returns (halted: bool)
    requires heap.Intact() && heap.heapEnd != 0 && k < |heap.Blocks()| && heap.Blocks()[k] == H.Block(true, 1, ptr)
    modifies heap.table
    ensures !halted && heap.Intact() && heap.Blocks() == H.Release(old(heap.Blocks()), k)
  {
    ghost var k' := OneStart(heap.Blocks(), heap.Meta() + PAGE, heap.heapEnd, ptr);
    halted := heap.Kfree(ptr);
  }

  /** The heap after the address space of directory f is gone. */
  lemma GoneHeap(heap: K.KernelHeap, s: Spaces, f: FrameNo)
    requires heap.count <= heap.table.Length && Fields(heap, heap.Blocks()) && H.Tiles(heap.Blocks(), heap.Meta() + PAGE, heap.heapEnd)
    requires heap.vm.Sound() && heap.vm.Space() == s.(dirs := s.dirs - {f}) && K.HeapPages(s, heap.vm.cr3, heap.Meta(), heap.heapEnd)
    requires HeapTidy(heap.vm.Space(), heap.vm.cr3, heap.Meta(), heap.heapEnd, heap.Blocks())
    ensures HeapOk(heap)
  {
  }

  /** kfree of the directory of a process that is not running: its page becomes spare. */
  method ReleaseDirectory(heap: K.KernelHeap, ptr: nat, ghost f: FrameNo) returns (halted: bool, ghost k: nat)
    requires HeapOk(heap) && heap.heapEnd != 0 && Holds(heap.vm.Space(), heap.vm.cr3, heap.Blocks(), ptr, f)
    requires f in heap.vm.dirs && f != heap.vm.kernelDir && f != heap.vm.cr3
    modifies heap.table, heap.vm`dirs
    ensures !halted && HeapOk(heap) && heap.vm.dirs == old(heap.vm.dirs) - {f} && Spare(heap.vm.Space(), f)
    ensures k < |old(heap.Blocks())| && old(heap.Blocks())[k] == H.Block(true, 1, ptr) && heap.Blocks() == H.Release(old(heap.Blocks()), k)
  {
    ghost var s, b := heap.vm.Space(), heap.Blocks();
    k := OneStart(b, heap.Meta() + PAGE, heap.heapEnd, ptr);
    ReleaseHeap(s, heap.vm.cr3, f, heap.Meta(), heap.heapEnd, b, ptr, k);
    ReleasedSpare(s, f, f);
    halted := FreeBlock(heap, ptr, k);
    NowInUse(heap);
    heap.vm.dirs := heap.vm.dirs - {f};
    GoneHeap(heap, s, f);
  }

  /** change_pdir: the heap, and every page of it, is the same for the process that goes on. */
  method ChangePdir(heap: K.KernelHeap, v: VPage, ghost f: FrameNo)
    requires HeapOk(heap) && heap.heapEnd != 0 && f in heap.vm.dirs && KernelPage(heap.vm.Space(), heap.vm.cr3, v, f)
    modifies heap.vm`cr3
    ensures HeapOk(heap) && heap.vm.cr3 == f
    ensures forall ptr: nat, g: FrameNo | Holds(old(heap.vm.Space()), old(heap.vm.cr3), heap.Blocks(), ptr, g) ::
              Holds(heap.vm.Space(), f, heap.Blocks(), ptr, g)
  {
    ghost var s, cur, b := heap.vm.Space(), heap.vm.cr3, heap.Blocks();
    SwitchHeap(s, cur, f, heap.Meta(), heap.heapEnd, b);
    SwitchHolds(s, cur, f, heap.Meta(), heap.heapEnd, b);
    SharedTable(s, cur, cur, v.i);
    var e := heap.vm.GetPageTableEntry(v.i, v.j);
    heap.vm.cr3 := e.addr;
  }

  lemma SwitchHolds(s: Spaces, cur: FrameNo, e: FrameNo, meta: nat, end: nat, b: seq<H.Block>)
    requires Valid(s) && cur in s.dirs && e in s.dirs && H.Tiles(b, meta + PAGE, end) && 0xC0000000 <= meta && end <= K.LIMIT
    ensures forall ptr: nat, g: FrameNo | Holds(s, cur, b, ptr, g) :: Holds(s, e, b, ptr, g)
  {
    forall ptr: nat, g: FrameNo | Holds(s, cur, b, ptr, g)
      ensures Holds(s, e, b, ptr, g)
    {
      var k :| 0 <= k < |b| && b[k] == H.Block(true, 1, ptr);
      assert H.BlockOk(b[k], meta + PAGE, end);
      forall p: Index, q: Index | p < SELF && PageNo(p, q) == ptr / PAGE
        ensures Entry(s.mem, e, p, q) == Entry(s.mem, cur, p, q)
      {
        KernelPagesAgree(s, e, cur, p, q);
      }
    }
  }

  /** The first directory, before it becomes current. */
  lemma FirstHeap(heap: K.KernelHeap, t: Spaces, ptr: nat, f: FrameNo)
    requires HeapOk(heap) && heap.heapEnd != 0 && Holds(heap.vm.Space(), heap.vm.cr3, heap.Blocks(), ptr, f)
    requires Tidy(t) && Spare(t, f) && heap.vm.cr3 in t.dirs && t.kernel in t.dirs && Cloned(t, heap.vm.Space(), t.kernel, f, true)
    ensures f in heap.vm.dirs && ptr < K.LIMIT && KernelPage(heap.vm.Space(), heap.vm.cr3, PageAt(ptr), f)
    ensures EmptyUser(heap.vm.mem, f)
  {
    HeldPage(heap.vm.Space(), heap.vm.cr3, heap.Meta(), heap.heapEnd, heap.Blocks(), ptr, f);
    TidyClonable(t, heap.vm.cr3, t.kernel, f);
    forall i: Index, j: Index | i < KERNEL
      ensures Entry(heap.vm.mem, f, i, j) == ZERO
    {
      ChildDirectory(t, heap.vm.Space(), heap.vm.cr3, t.kernel, f, true, i);
    }
  }

  lemma HeldPage(s: Spaces, cur: FrameNo, meta: nat, end: nat, b: seq<H.Block>, ptr: nat, f: FrameNo)
    requires Holds(s, cur, b, ptr, f) && H.Tiles(b, meta + PAGE, end) && 0xC0000000 <= meta && end <= K.LIMIT
    ensures ptr < K.LIMIT && KernelPage(s, cur, PageAt(ptr), f)
  {
    var k :| 0 <= k < |b| && b[k] == H.Block(true, 1, ptr);
    assert H.BlockOk(b[k], meta + PAGE, end);
    assert PageNo(PageAt(ptr).i, PageAt(ptr).j) == ptr / PAGE;
  }

  ghost predicate EmptyUser(m: Memory, d: FrameNo) {
    forall i: Index, j: Index | i < KERNEL :: Entry(m, d, i, j) == ZERO
  }

  lemma {:induction false} KernelNeedsNothing(m: Memory, kernel: FrameNo, i: nat)
    requires i <= SHARED
    ensures Need(m, kernel, kernel, i) == 0
  {
    if i > 0 {
      KernelNeedsNothing(m, kernel, i - 1);
    }
  }

  /** The end of setup_vmm on the heap: the first process directory is a clone of the kernel's in a page from
      kmalloc, and becomes current.  Runs start here. */
  method FirstDirectory(heap: K.KernelHeap, kernel: VPage) returns (r: K.Result)
    requires HeapOk(heap) && heap.EndOrStart() + PAGE <= K.LIMIT && KernelPage(heap.vm.Space(), heap.vm.cr3, kernel, heap.vm.kernelDir)
    modifies heap`heapEnd, heap`count, heap.table, heap.vm`mem, heap.vm`n, heap.vm`dirs, heap.vm`cr3, heap.vm.frames.bitmap
    ensures r == K.Halt || r.Ptr?
    ensures var n := old(heap.vm.n) + (if old(heap.heapEnd) == 0 then 1 else 0); r == K.Halt <==> K.Halts(old(heap.Blocks()), 1, n)
    ensures r.Ptr? ==>
              && HeapOk(heap) && Good(World(heap.vm.Space(), heap.vm.cr3))
              && Holds(heap.vm.Space(), heap.vm.cr3, heap.Blocks(), r.ptr, heap.vm.cr3)
              && heap.vm.dirs == old(heap.vm.dirs) + {heap.vm.cr3} && heap.vm.cr3 !in old(heap.vm.dirs)
              && EmptyUser(heap.vm.mem, heap.vm.cr3)
  {
    ghost var f, t;
    KernelNeedsNothing(heap.vm.mem, heap.vm.kernelDir, SHARED);
    r, f, t := NewDirectory(heap, kernel, kernel, true, heap.vm.kernelDir);
    if r.Ptr? {
      FirstHeap(heap, t, r.ptr, f);
      ChangePdir(heap, PageAt(r.ptr), f);
    }
  }
}
