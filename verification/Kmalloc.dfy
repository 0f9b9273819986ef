/**
 The kernel heap on top of the virtual memory manager (mem/kmalloc.c:66-120).
 */
module Kmalloc {

  import opened Basics
  import opened Heap
  import opened Paging
  import opened Vmm

  const LIMIT := 0xF0000000   // the heap stays below the temporary pages of the directory cloning

  datatype Result = Halt | NullPtr | Ptr(ptr: nat)

  /** Pages v, v+1, ..., v+k-1 have been mapped to the k next frames in all address spaces. */
  ghost predicate Grown(s: Spaces, s': Spaces, v: nat, k: nat, flags: Flags) {
    && Kept(s, s') && s'.n == s.n + k
    && forall d: FrameNo, p: Index, q: Index | d in s.dirs && p < SELF ::
         if v <= PageNo(p, q) < v + k
         then Entry(s'.mem, d, p, q).addr == s.n + (PageNo(p, q) - v) && Entry(s'.mem, d, p, q).flags == flags
         else Entry(s'.mem, d, p, q) == Entry(s.mem, d, p, q)
  }

  lemma GrownOneMore(s: Spaces, t: Spaces, s': Spaces, cur: FrameNo, v: nat, k: nat, flags: Flags, i: Index, j: Index)
    requires Grown(s, t, v, k, flags) && t.n < FRAMES && KERNEL <= i < SHARED && PageNo(i, j) == v + k
    requires Kept(t, s') && s'.n == t.n + 1 && Inserted(t, s', cur, i, j, Word(t.n, flags))
    ensures Grown(s, s', v, k + 1, flags)
  {
    forall d: FrameNo, p: Index, q: Index | d in s.dirs && p < SELF
      ensures if v <= PageNo(p, q) < v + k + 1
              then Entry(s'.mem, d, p, q).addr == s.n + (PageNo(p, q) - v) && Entry(s'.mem, d, p, q).flags == flags
              else Entry(s'.mem, d, p, q) == Entry(s.mem, d, p, q)
    {
      assert PageNo(p, q) == v + k <==> p == i && q == j;
      assert d in t.dirs;
    }
  }

  /** A run of calls for pages of the kernel half has that effect. */
  lemma {:induction false} RunGrown(ss: seq<Spaces>, cur: FrameNo, v: nat, flags: Flags, k: nat)
    requires MapRun(ss, cur, v, [], flags) && k < |ss| && Valid(ss[0]) && cur in ss[0].dirs && flags.present && flags.others == 0
    requires KERNEL * 1024 <= v && v + |ss| - 1 <= SHARED * 1024
    ensures Grown(ss[0], ss[k], v, k, flags)
    decreases k
  {
    if k > 0 {
      RunGrown(ss, cur, v, flags, k - 1);
      assert MapStep(ss, cur, v, [], flags, k - 1);
      PageGrown(ss[0], ss[k - 1], ss[k], cur, v, k - 1, flags);
    }
  }

  lemma PageGrown(s: Spaces, t: Spaces, s': Spaces, cur: FrameNo, v: nat, k: nat, flags: Flags)
    requires Grown(s, t, v, k, flags) && cur in s.dirs && MapsPage(t, s', cur, v + k, None, flags) && flags.present && flags.others == 0
    requires KERNEL * 1024 <= v && v + k < SHARED * 1024
    ensures Grown(s, s', v, k + 1, flags)
  {
    var i: Index, j: Index := (v + k) / 1024, (v + k) % 1024;
    SharedTable(t, cur, cur, i);
    KallocPageInserts(t, cur, i, j, flags);
    GrownOneMore(s, t, s', cur, v, k, flags, i, j);
  }

  lemma GrownPages(s: Spaces, s': Spaces, d: FrameNo, v: nat, k: nat, flags: Flags, from: nat, to: nat)
    requires Grown(s, s', v, k, flags) && d in s.dirs
    requires flags.present
    ensures MappedPages(s, d, from, v) ==> MappedPages(s', d, from, v + k)
    ensures Unmapped(s, d, v, to) ==> Unmapped(s', d, v + k, to)
  {
  }

  /** Every page that some address space has is still there. */
  ghost predicate PresentStay(s: Spaces, s': Spaces) {
    forall d: FrameNo, p: Index, q: Index | d in s.dirs && p < SELF && Entry(s.mem, d, p, q).Present() ::
      d in s'.dirs && Entry(s'.mem, d, p, q) == Entry(s.mem, d, p, q)
  }

  /** Growing where nothing is mapped leaves every present page alone, in every address space. */
  lemma GrownStays(s: Spaces, s': Spaces, cur: FrameNo, v: nat, k: nat, flags: Flags)
    requires Valid(s) && cur in s.dirs && Grown(s, s', v, k, flags) && Unmapped(s, cur, v, v + k)
    requires KERNEL * 1024 <= v && v + k <= SHARED * 1024
    ensures PresentStay(s, s')
  {
    forall d: FrameNo, p: Index, q: Index | d in s.dirs && p < SELF && Entry(s.mem, d, p, q).Present()
      ensures d in s'.dirs && Entry(s'.mem, d, p, q) == Entry(s.mem, d, p, q)
    {
      if v <= PageNo(p, q) < v + k {
        KernelPagesAgree(s, d, cur, p, q);
      }
    }
  }

  lemma PresentTrans(s: Spaces, t: Spaces, s': Spaces)
    requires PresentStay(s, t) && PresentStay(t, s')
    ensures PresentStay(s, s')
  {
  }

  lemma EndPage(end: nat, amount: nat)
    requires end % PAGE == 0
    ensures (end + amount * PAGE) % PAGE == 0 && (end + amount * PAGE) / PAGE == end / PAGE + amount
  {
  }

  /** The pages from address lo to address hi are mapped, the ones behind them are not. */
  ghost predicate HeapPages(s: Spaces, cur: FrameNo, lo: nat, hi: nat) {
    MappedPages(s, cur, lo / PAGE, hi / PAGE) && Unmapped(s, cur, hi / PAGE, LIMIT / PAGE)
  }

  /** What is mapped after a run of calls behind a heap that started at lo and ended at hi. */
  lemma RunPages(s: Spaces, t: Spaces, cur: FrameNo, lo: nat, hi: nat, k: nat, flags: Flags)
    requires Valid(s) && cur in s.dirs && HeapPages(s, cur, lo, hi) && flags.present && flags.others == 0
    requires MapsRun(s, t, cur, hi / PAGE, k, [], flags)
    requires 0xC0000000 <= hi && hi % PAGE == 0 && hi + k * PAGE <= LIMIT
    ensures t.n == s.n + k && HeapPages(t, cur, lo, hi + k * PAGE) && PresentStay(s, t)
  {
    var v := hi / PAGE;
    var ss :| MapRun(ss, cur, v, [], flags) && |ss| == k + 1 && ss[0] == s && ss[k] == t;
    EndPage(hi, k);
    RunGrown(ss, cur, v, flags, k);
    GrownPages(s, t, cur, v, k, flags, lo / PAGE, LIMIT / PAGE);
    GrownStays(s, t, cur, v, k, flags);
  }

  /** The page of the block table, when this is the first call. */
  ghost predicate Started(s: Spaces, s': Spaces, cur: FrameNo, end: nat, meta: nat) {
    if end == 0 then MapsRun(s, s', cur, meta / PAGE, 1, [], AccessFlags(true, true)) else s' == s
  }

  /** The pages of an answer: those of a free block, or new ones. */
  ghost predicate Supplied(s: Spaces, s': Spaces, cur: FrameNo, fits: bool, ptr: nat, amount: nat) {
    if fits then s' == s else MapsRun(s, s', cur, ptr / PAGE, amount, [], AccessFlags(false, true))
  }

  /** With n frames in use, a request for `amount` pages halts: a split or growth finds the block table
      full, or growth finds too few frames. */
  predicate Halts(b: seq<Block>, amount: nat, n: nat) {
    var i := FirstFit(b, amount, 0);
    n > FRAMES || if i < |b| then amount < b[i].size && |b| == MAX_BLOCKS else n + amount > FRAMES || |b| == MAX_BLOCKS
  }

  /** A first free block of the right size serves a request even when the table is full; a larger one does not. */
  lemma FitHaltsIff(b: seq<Block>, amount: nat, n: nat, i: nat)
    requires n <= FRAMES && i < |b| && !b[i].reserved && b[i].size >= amount
    requires forall k | 0 <= k < i :: b[k].reserved || b[k].size < amount
    ensures Halts(b, amount, n) <==> b[i].size > amount && |b| == MAX_BLOCKS
  {
    assert FirstFit(b, amount, 0) == i;
  }

  /** Without one a request is served exactly when there is a record left and a frame for every page. */
  lemma GrowthHaltsIff(b: seq<Block>, amount: nat, n: nat)
    requires forall x | x in b :: x.reserved || x.size < amount
    ensures Halts(b, amount, n) <==> n + amount > FRAMES || |b| == MAX_BLOCKS
  {
    forall k | 0 <= k < |b|
      ensures !Fits(b[k], amount)
    {
      assert b[k] in b;
    }
  }

  /** What a successful request for `amount` pages returns, with the blocks b and the heap end e before. */
  ghost function Answer(b: seq<Block>, e: nat, amount: nat): nat {
    var i := FirstFit(b, amount, 0);
    if i < |b| then TailOf(b[i], amount) else e
  }

  lemma GrowStep(b: seq<Block>, end: nat, amount: nat, h: Arena)
    requires FirstFit(b, amount, 0) == |b| && amount > 0 && h == Arena(b + [Block(true, amount, end)], end + amount * PAGE)
    ensures Step(Arena(b, end), Malloc(amount)) == Some(h) && Answer(b, end, amount) == end
  {
  }

  lemma OneNew(h: Arena, lo: nat, amount: nat)
    requires Sane(h, lo) && amount > 0
    ensures var got := Block(true, amount, Answer(h.blocks, h.end, amount));
            && got !in Live(h.blocks)
            && Live(Step(h, Malloc(amount)).value.blocks) == Live(h.blocks) + {got}
  {
    var i := FirstFit(h.blocks, amount, 0);
    if i < |h.blocks| {
      TakeLive(h.blocks, lo, h.end, i, amount);
    } else {
      GrowTiles(h.blocks, lo, h.end, amount);
    }
  }

  class KernelHeap {
    const vm: AddressSpaces
    const kernelEnd: nat
    var heapEnd: nat
    const table: array<Block>
    var count: nat

    /** The page of the block table; blocks start right after it. */
    ghost function Meta(): nat {
      0xC0000000 + kernelEnd + PAGE
    }

    ghost function Blocks(): seq<Block>
      requires count <= table.Length
      reads this, table
    {
      table[..count]
    }

    /** The address spaces the heap lives in. */
    ghost predicate Spaced()
      reads this, vm, vm.frames, vm.frames.bitmap
    {
      && vm.Sound() && Valid(vm.Space()) && vm.cr3 in vm.dirs
      && kernelEnd % PAGE == 0 && Meta() + PAGE <= LIMIT
      && vm.frames.bitmap as object != table
    }

    /** Blocks tile the heap, its pages are mapped and the pages after it are not. */
    ghost predicate Intact()
      reads this, table, vm, vm.frames, vm.frames.bitmap
    {
      && Spaced() && table.Length == MAX_BLOCKS && count <= MAX_BLOCKS
      && if heapEnd == 0 then count == 0 && Unmapped(vm.Space(), vm.cr3, Meta() / PAGE, LIMIT / PAGE)
         else
           && heapEnd % PAGE == 0 && Meta() + PAGE <= heapEnd <= LIMIT
           && Tiles(Blocks(), Meta() + PAGE, heapEnd) && HeapPages(vm.Space(), vm.cr3, Meta(), heapEnd)
    }

    constructor (vm: AddressSpaces, kernelEnd: nat)
      requires vm.Sound() && Valid(vm.Space()) && vm.cr3 in vm.dirs
      requires kernelEnd % PAGE == 0 && 0xC0000000 + kernelEnd + 2 * PAGE <= LIMIT
      requires Unmapped(vm.Space(), vm.cr3, (0xC0000000 + kernelEnd + PAGE) / PAGE, LIMIT / PAGE)
      ensures Intact() && heapEnd == 0 && this.vm == vm && this.kernelEnd == kernelEnd && fresh(table)
      ensures table.Length == 340 && Meta() == 0xC0000000 + kernelEnd + 0x1000
    {
      this.vm, this.kernelEnd := vm, kernelEnd;
      heapEnd, count := 0, 0;
      table := new Block[MAX_BLOCKS](_ => Block(false, 0, 0));
    }

    /** Maps `amount` pages from address `from` on; fails when the frames run out. */
    method MapPages(from: nat, amount: nat, kernel: bool) returns (ok: bool)
      requires Spaced() && from % PAGE == 0 && 0xC0000000 <= from && from + amount * PAGE <= LIMIT
      requires Unmapped(vm.Space(), vm.cr3, from / PAGE, LIMIT / PAGE)
      modifies vm`mem, vm`n, vm.frames.bitmap
      ensures ok <==> old(vm.n) + amount <= FRAMES
      ensures ok ==> Spaced() && Grown(old(vm.Space()), vm.Space(), from / PAGE, amount, AccessFlags(kernel, true))
      ensures ok ==> MapsRun(old(vm.Space()), vm.Space(), vm.cr3, from / PAGE, amount, [], AccessFlags(kernel, true))
    {
      ghost var s, v, flags := vm.Space(), from / PAGE, AccessFlags(kernel, true);
      NoRun(s, vm.cr3, v, [], flags);
      for i := 0 to amount
        invariant Spaced() && Grown(s, vm.Space(), v, i, flags) && MapsRun(s, vm.Space(), vm.cr3, v, i, [], flags)
      {
        ok := MapPage(from / PAGE + i, kernel, s, v, i);
        if !ok {
          return;
        }
      }
      return true;
    }

    /** The same behind a heap that starts at lo. */
    method MapBehind(hi: nat, amount: nat, kernel: bool, ghost lo: nat, ghost end: nat) returns (ok: bool)
      requires Spaced() && hi % PAGE == 0 && 0xC0000000 <= hi && end == hi + amount * PAGE <= LIMIT
      requires HeapPages(vm.Space(), vm.cr3, lo, hi)
      modifies vm`mem, vm`n, vm.frames.bitmap
      ensures ok <==> old(vm.n) + amount <= FRAMES
      ensures ok ==> Spaced() && HeapPages(vm.Space(), vm.cr3, lo, end) && vm.n == old(vm.n) + amount && end % PAGE == 0
      ensures ok ==> MapsRun(old(vm.Space()), vm.Space(), vm.cr3, hi / PAGE, amount, [], AccessFlags(kernel, true))
    {
      ghost var s := vm.Space();
      ok := MapPages(hi, amount, kernel);
      if ok {
        EndPage(hi, amount);
        RunPages(s, vm.Space(), vm.cr3, lo, hi, amount, AccessFlags(kernel, true));
      }
    }

    /** kalloc_page on page u, when the i pages from v to u have been mapped since s. */
    method MapPage(u: nat, kernel: bool, ghost s: Spaces, ghost v: nat, ghost i: nat) returns (ok: bool)
      requires Spaced() && u == v + i && KERNEL * 1024 <= v && u < LIMIT / PAGE && Unmapped(s, vm.cr3, v, LIMIT / PAGE)
      requires Grown(s, vm.Space(), v, i, AccessFlags(kernel, true)) && vm.cr3 in s.dirs
      requires MapsRun(s, vm.Space(), vm.cr3, v, i, [], AccessFlags(kernel, true))
      modifies vm`mem, vm`n, vm.frames.bitmap
      ensures ok <==> old(vm.n) < FRAMES
      ensures ok ==> Spaced() && Grown(s, vm.Space(), v, i + 1, AccessFlags(kernel, true))
      ensures ok ==> MapsRun(s, vm.Space(), vm.cr3, v, i + 1, [], AccessFlags(kernel, true))
    {
      ghost var t, flags := vm.Space(), AccessFlags(kernel, true);
      var p: Index, q: Index := u / 1024, u % 1024;
      assert PageNo(p, q) == u;
      assert !Entry(t.mem, vm.cr3, p, q).Present();
      SharedTable(t, vm.cr3, vm.cr3, p);
      KallocPageInserts(t, vm.cr3, p, q, flags);
      var r := vm.KallocPage(p, q, kernel, true);
      if r != Mapped {
        return false;
      }
      GrownOneMore(s, t, vm.Space(), vm.cr3, v, i, flags, p, q);
      RunNext(s, t, vm.Space(), vm.cr3, v, i, [], flags);
      return true;
    }

    /** insert_block; fails when the size is zero or the table is full. */
    method InsertBlock(size: nat, ptr: nat) returns (ok: bool)
      requires table.Length == MAX_BLOCKS && count <= MAX_BLOCKS
      modifies table, this`count
      ensures ok <==> size > 0 && old(count) < MAX_BLOCKS
      ensures count == old(count) + if ok then 1 else 0
      ensures ok ==> Blocks() == old(Blocks()) + [Block(false, size, ptr)]
      ensures !ok ==> table[..] == old(table[..])
    {
      if size == 0 || count + 1 > MAX_BLOCKS {
        return false;
      }
      table[count] := Block(false, size, ptr);
      count := count + 1;
      return true;
    }

    /** insert_block followed by the reservation of the new block. */
    method InsertReserved(size: nat, ptr: nat, ghost lo: nat, ghost end: nat) returns (ok: bool)
      requires table.Length == MAX_BLOCKS && count <= MAX_BLOCKS
      requires Tiles(Blocks(), lo, ptr) && ptr % PAGE == 0 && lo <= ptr && end == ptr + size * PAGE
      modifies table, this`count
      ensures ok <==> size > 0 && old(count) < MAX_BLOCKS
      ensures ok ==> count == old(count) + 1 && Blocks() == old(Blocks()) + [Block(true, size, ptr)]
      ensures ok ==> Tiles(Blocks(), lo, end)
    {
      ghost var b := Blocks();
      ok := InsertBlock(size, ptr);
      if ok {
        table[count - 1] := Block(true, size, ptr);
        assert Blocks() == b + [Block(true, size, ptr)];
        GrowTiles(b, lo, ptr, size);
      }
    }

    method FindFreeBlocks(amount: nat) returns (r: Result)
      requires table.Length == MAX_BLOCKS && count <= MAX_BLOCKS && amount > 0
      modifies table, this`count
      ensures count <= MAX_BLOCKS
      ensures var b := old(Blocks()); var i := FirstFit(b, amount, 0);
              if i == |b| then r == NullPtr && Blocks() == b
              else if amount < b[i].size && |b| == MAX_BLOCKS then r == Halt
              else r == Ptr(TailOf(b[i], amount)) && Blocks() == Take(b, i, amount)
    {
      ghost var b := Blocks();
      for i := 0 to count
        invariant count == |b| && Blocks() == b
        invariant FirstFit(b, amount, 0) == FirstFit(b, amount, i)
      {
        var bi := table[i];
        assert bi == b[i];
        if !bi.reserved && bi.size >= amount {
          if amount < bi.size {
            var ptr := bi.ptr + (bi.size - amount) * PAGE;
            var ok := InsertBlock(amount, ptr);
            if !ok {
              return Halt;
            }
            table[count - 1] := Block(true, amount, ptr);
            table[i] := Block(bi.reserved, bi.size - amount, bi.ptr);
            return Ptr(ptr);
          }
          table[i] := Block(true, bi.size, bi.ptr);
          return Ptr(bi.ptr);
        }
      }
      return NullPtr;
    }

    /** Where the blocks end, once the block table exists. */
    ghost function EndOrStart(): nat
      reads this
    {
      if heapEnd == 0 then Meta() + PAGE else heapEnd
    }

    ghost function View(): Arena
      requires count <= table.Length
      reads this, table
    {
      Arena(Blocks(), EndOrStart())
    }

    /** The first call maps the page of the block table. */
    method Start() returns (ok: bool)
      requires Intact() && heapEnd == 0
      modifies this`heapEnd, this`count, vm`mem, vm`n, vm.frames.bitmap
      ensures ok <==> old(vm.n) < FRAMES
      ensures ok ==> Intact() && heapEnd == Meta() + PAGE && count == 0
      ensures ok ==> vm.n == old(vm.n) + 1
      ensures ok ==> MapsRun(old(vm.Space()), vm.Space(), vm.cr3, Meta() / PAGE, 1, [], AccessFlags(true, true))
      ensures ok ==> PresentStay(old(vm.Space()), vm.Space())
    {
      ghost var s := vm.Space();
      heapEnd := 0xC0000000 + kernelEnd + PAGE;
      ok := MapBehind(heapEnd, 1, true, Meta(), heapEnd + PAGE);
      if ok {
        RunPages(s, vm.Space(), vm.cr3, Meta(), Meta(), 1, AccessFlags(true, true));
        count := 0;
        heapEnd := heapEnd + PAGE;
      }
    }

    /** No block fits: the heap grows by the pages requested. */
    method Grow(amount: nat) returns (r: Result)
      requires Intact() && heapEnd != 0 && amount > 0 && heapEnd + amount * PAGE <= LIMIT
      modifies this`heapEnd, this`count, table, vm`mem, vm`n, vm.frames.bitmap
      ensures r == Halt <==> old(vm.n) + amount > FRAMES || old(count) == MAX_BLOCKS
      ensures r != Halt ==>
                && r == Ptr(old(heapEnd)) && Intact() && heapEnd == old(heapEnd) + amount * PAGE
                && Blocks() == old(Blocks()) + [Block(true, amount, old(heapEnd))]
                && MapsRun(old(vm.Space()), vm.Space(), vm.cr3, old(heapEnd) / PAGE, amount, [], AccessFlags(false, true))
    {
      var ret, end := heapEnd, heapEnd + amount * PAGE;
      var ok := MapBehind(heapEnd, amount, false, Meta(), end);
      if !ok {
        return Halt;
      }
      heapEnd := end;
      ok := InsertReserved(amount, ret, Meta() + PAGE, end);
      return if ok then Ptr(ret) else Halt;
    }

    /** The block table exists from the first call on. */
    method Prepare() returns (ok: bool)
      requires Intact()
      modifies this`heapEnd, this`count, vm`mem, vm`n, vm.frames.bitmap
      ensures ok <==> old(heapEnd) != 0 || old(vm.n) < FRAMES
      ensures ok ==> Intact() && heapEnd == old(EndOrStart()) != 0 && count == old(count)
      ensures ok ==> vm.n == old(vm.n) + if old(heapEnd) == 0 then 1 else 0
      ensures ok ==> PresentStay(old(vm.Space()), vm.Space()) && Started(old(vm.Space()), vm.Space(), vm.cr3, old(heapEnd), Meta())
    {
      ok := true;
      if heapEnd == 0 {
        ok := Start();
      }
    }

    /** A request that a free block serves. */
    method TakeBlock(amount: nat) returns (r: Result)
      requires Intact() && heapEnd != 0 && amount > 0
      modifies this`count, table
      ensures r == NullPtr <==> FirstFit(old(Blocks()), amount, 0) == |old(Blocks())|
      ensures r == NullPtr ==> Intact() && View() == old(View())
      ensures r != NullPtr ==> (r == Halt <==> Halts(old(Blocks()), amount, vm.n))
      ensures r.Ptr? ==>
                && Intact() && Step(old(View()), Malloc(amount)) == Some(View())
                && r == Ptr(Answer(old(Blocks()), heapEnd, amount))
    {
      ghost var b, i := Blocks(), FirstFit(Blocks(), amount, 0);
      r := FindFreeBlocks(amount);
      if r.Ptr? {
        TakeTiles(b, Meta() + PAGE, heapEnd, i, amount);
      }
    }

    /** The part of kmalloc after its first call: first fit, or growth when nothing fits. */
    method Serve(amount: nat) returns (r: Result)
      requires Intact() && heapEnd != 0 && amount > 0 && heapEnd + amount * PAGE <= LIMIT
      modifies this`heapEnd, this`count, table, vm`mem, vm`n, vm.frames.bitmap
      ensures r == Halt <==> Halts(old(Blocks()), amount, old(vm.n))
      ensures r != Halt ==>
                && Intact() && heapEnd != 0 && Step(old(View()), Malloc(amount)) == Some(View())
                && r == Ptr(Answer(old(Blocks()), old(heapEnd), amount))
                && Supplied(old(vm.Space()), vm.Space(), vm.cr3, FirstFit(old(Blocks()), amount, 0) < |old(Blocks())|, r.ptr, amount)
    {
      r := TakeBlock(amount);
      if r == NullPtr {
        ghost var b, end := Blocks(), heapEnd;
        r := Grow(amount);
        if r != Halt {
          GrowStep(b, end, amount, View());
        }
      }
    }

    /** The same, with what the answer is for the caller. */
    method ServeNew(amount: nat) returns (r: Result)
      requires Intact() && heapEnd != 0 && amount > 0 && heapEnd + amount * PAGE <= LIMIT
      modifies this`heapEnd, this`count, table, vm`mem, vm`n, vm.frames.bitmap
      ensures r == Halt <==> Halts(old(Blocks()), amount, old(vm.n))
      ensures r != Halt ==>
                && Intact() && heapEnd != 0 && Step(old(View()), Malloc(amount)) == Some(View())
                && r == Ptr(Answer(old(Blocks()), old(heapEnd), amount))
                && Supplied(old(vm.Space()), vm.Space(), vm.cr3, FirstFit(old(Blocks()), amount, 0) < |old(Blocks())|, r.ptr, amount)
                && PresentStay(old(vm.Space()), vm.Space())
      ensures r != Halt ==> var got := Block(true, amount, r.ptr);
                got !in Live(old(Blocks())) && Live(Blocks()) == Live(old(Blocks())) + {got}
    {
      ghost var h, s, end := View(), vm.Space(), heapEnd;
      r := Serve(amount);
      if r.Ptr? {
        OneNew(h, Meta() + PAGE, amount);
        if vm.Space() != s {
          RunPages(s, vm.Space(), vm.cr3, Meta(), end, amount, AccessFlags(false, true));
        }
      }
    }

    /** kmalloc.  Halting is exact; otherwise the first fitting free block serves the request, and the
        heap grows only when there is none.  The answer is one new live allocation. */
    method Kmalloc(size: nat) returns (r: Result, ghost t: Spaces)
      requires Intact() && EndOrStart() + Pages(size) * PAGE <= LIMIT
      modifies this`heapEnd, this`count, table, vm`mem, vm`n, vm.frames.bitmap
      ensures r == NullPtr <==> size == 0
      ensures size == 0 ==> heapEnd == old(heapEnd) && Intact() && Blocks() == old(Blocks()) && vm.Space() == old(vm.Space())
      ensures var n := old(vm.n) + (if old(heapEnd) == 0 then 1 else 0);
              r == Halt <==> size > 0 && Halts(old(Blocks()), Pages(size), n)
      ensures r.Ptr? ==>
                && Intact() && heapEnd != 0 && Step(old(View()), Malloc(Pages(size))) == Some(View())
                && r.ptr == Answer(old(Blocks()), old(EndOrStart()), Pages(size))
      ensures r.Ptr? ==> var got := Block(true, Pages(size), r.ptr);
                got !in Live(old(Blocks())) && Live(Blocks()) == Live(old(Blocks())) + {got}
      ensures r.Ptr? ==>
                && PresentStay(old(vm.Space()), vm.Space()) && Started(old(vm.Space()), t, vm.cr3, old(heapEnd), Meta())
                && Supplied(t, vm.Space(), vm.cr3, FirstFit(old(Blocks()), Pages(size), 0) < |old(Blocks())|, r.ptr, Pages(size))
    {
      t := vm.Space();
      if size == 0 {
        return NullPtr, t;
      }
      ghost var s := t;
      var ok := Prepare();
      if !ok {
        return Halt, t;
      }
      var amount := if size % 0x1000 == 0 then size / 0x1000 else size / 0x1000 + 1;
      t := vm.Space();
      r := ServeNew(amount);
      if r.Ptr? {
        PresentTrans(s, t, vm.Space());
      }
    }

    /** kfree: releases the one block that starts at ptr, halts when that block is free already, and
        does nothing when no block starts there. */
    method Kfree(ptr: nat) returns (halted: bool)
      requires Intact() && heapEnd != 0
      modifies table
      ensures halted <==> exists b | b in old(Blocks()) :: b.ptr == ptr && !b.reserved
      ensures Step(old(View()), Free(ptr)) == if halted then None else Some(View())
      ensures !halted ==> Intact() && Live(Blocks()) == set b | b in Live(old(Blocks())) && b.ptr != ptr
      ensures halted ==> Blocks() == old(Blocks())
    {
      ghost var b := Blocks();
      for i := 0 to count
        invariant Blocks() == b
        invariant FindStart(b, ptr, 0) == FindStart(b, ptr, i)
        invariant forall k | 0 <= k < i :: b[k].ptr != ptr
      {
        assert table[i] == b[i];
        if table[i].ptr == ptr {
          forall k | 0 <= k < |b| && k != i
            ensures b[k].ptr != ptr
          {
            StartsDiffer(b, Meta() + PAGE, heapEnd, if k < i then k else i, if k < i then i else k);
          }
          if !table[i].reserved {
            return true;
          }
          table[i] := table[i].(reserved := false);
          assert Blocks() == Release(b, i);
          ReleaseTiles(b, Meta() + PAGE, heapEnd, i);
          return false;
        }
      }
      return false;
    }
  }
}
