/**
 The program break (syscall/syscalls.c:105-135; task/process.c:238-270): a loaded program and its heap have
 every page up to the break mapped, each of them once.
 */
module Break {

  import opened Basics
  import opened Paging
  import opened Vmm

  const LIMIT := 0xB0000000   // the user stack starts here

  const USER := AccessFlags(false, true)

  // ---- mapping runs of user pages -----------------------------------------------------------------

  /** From s to s', pages v, ..., v+k-1 of directory cur have become present, for the user to read and
      write; no other page of any directory has changed. */
  ghost predicate Mapping(s: Spaces, s': Spaces, cur: FrameNo, v: nat, k: nat) {
    && Kept(s, s')
    && (forall p: Index, q: Index | p < SELF ::
          if v <= PageNo(p, q) < v + k then Entry(s'.mem, cur, p, q).flags == Flags(true, true, true, 0)
          else Entry(s'.mem, cur, p, q) == Entry(s.mem, cur, p, q))
    && (forall d: FrameNo, p: Index, q: Index | d in s.dirs && d != cur && p < SELF ::
          Entry(s'.mem, d, p, q) == Entry(s.mem, d, p, q))
  }

  lemma MappingOneMore(s: Spaces, t: Spaces, s': Spaces, cur: FrameNo, v: nat, k: nat, i: Index, j: Index, w: Word)
    requires cur in s.dirs && Mapping(s, t, cur, v, k) && i < KERNEL && PageNo(i, j) == v + k
    requires Kept(t, s') && Inserted(t, s', cur, i, j, w) && w.flags == USER
    ensures Mapping(s, s', cur, v, k + 1)
  {
    forall p: Index, q: Index | p < SELF
      ensures if v <= PageNo(p, q) < v + k + 1 then Entry(s'.mem, cur, p, q).flags == Flags(true, true, true, 0)
              else Entry(s'.mem, cur, p, q) == Entry(s.mem, cur, p, q)
    {
      assert PageNo(p, q) == v + k <==> p == i && q == j;
    }
  }

  lemma MappingPages(s: Spaces, s': Spaces, cur: FrameNo, v: nat, k: nat, from: nat, to: nat)
    requires Mapping(s, s', cur, v, k)
    ensures from <= v && MappedPages(s, cur, from, v) ==> MappedPages(s', cur, from, v + k)
    ensures Unmapped(s, cur, v, to) ==> Unmapped(s', cur, v + k, to)
  {
  }

  lemma MappingTrans(a: Spaces, b: Spaces, c: Spaces, cur: FrameNo, v: nat, k: nat, m: nat)
    requires Mapping(a, b, cur, v, k) && Mapping(b, c, cur, v + k, m)
    ensures Mapping(a, c, cur, v, k + m)
  {
  }

  /** Pages v, ..., v+k-1 are in different frames, none of them below lo. */
  ghost predicate Backed(s: Spaces, cur: FrameNo, v: nat, k: nat, lo: nat) {
    && (forall p: Index, q: Index | p < SELF && v <= PageNo(p, q) < v + k :: lo <= Entry(s.mem, cur, p, q).addr < s.n)
    && (forall p: Index, q: Index, i: Index, j: Index | p < SELF && i < SELF && v <= PageNo(p, q) < PageNo(i, j) < v + k ::
          Entry(s.mem, cur, p, q).addr < Entry(s.mem, cur, i, j).addr)
  }

  ghost predicate PageIs(s: Spaces, cur: FrameNo, v: nat, frame: nat) {
    forall p: Index, q: Index | p < SELF && PageNo(p, q) == v :: Entry(s.mem, cur, p, q).addr == frame
  }

  lemma BackedOneMore(t: Spaces, s': Spaces, cur: FrameNo, v: nat, k: nat, lo: nat)
    requires Backed(t, cur, v, k, lo) && Mapping(t, s', cur, v + k, 1) && lo <= t.n < s'.n && PageIs(s', cur, v + k, t.n)
    ensures Backed(s', cur, v, k + 1, lo)
  {
    forall p: Index, q: Index | p < SELF && v <= PageNo(p, q) < v + k
      ensures Entry(s'.mem, cur, p, q) == Entry(t.mem, cur, p, q)
    {
    }
  }

  /** The pages in use of directory cr3 can be extended at page v. */
  ghost predicate Ready(vm: AddressSpaces, v: nat)
    reads vm, vm.frames, vm.frames.bitmap
  {
    vm.Sound() && Valid(vm.Space()) && vm.cr3 in vm.dirs && v > 0 && Unmapped(vm.Space(), vm.cr3, v, LIMIT / PAGE)
  }

  /** kalloc_page on the first unmapped page. */
  method MapNext(vm: AddressSpaces, v: nat)
    requires Ready(vm, v) && v < LIMIT / PAGE && vm.n + 2 <= FRAMES
    modifies vm`mem, vm`n, vm.frames.bitmap
    ensures Ready(vm, v + 1) && old(vm.n) < vm.n <= old(vm.n) + 2
    ensures Mapping(old(vm.Space()), vm.Space(), vm.cr3, v, 1) && PageIs(vm.Space(), vm.cr3, v, old(vm.n))
    ensures MapsPage(old(vm.Space()), vm.Space(), vm.cr3, v, None, USER)
  {
    ghost var t := vm.Space();
    var i: Index, j: Index := v / 1024, v % 1024;
    assert PageNo(i, j) == v;
    assert !Entry(t.mem, vm.cr3, i, j).Present();
    KallocPageInserts(t, vm.cr3, i, j, AccessFlags(false, true));
    var r := vm.KallocPage(i, j, false, true);
    assert r == Mapped;
    NothingMapped(t, vm.cr3, v);
    MappingOneMore(t, t, vm.Space(), vm.cr3, v, 0, i, j, Word(t.n, AccessFlags(false, true)));
    MappingPages(t, vm.Space(), vm.cr3, v, 1, v, LIMIT / PAGE);
  }

  lemma NothingMapped(s: Spaces, cur: FrameNo, v: nat)
    requires Valid(s)
    ensures Mapping(s, s, cur, v, 0)
  {
  }

  // ---- what a run of calls has done ----------------------------------------------------------------

  lemma PageMapping(s: Spaces, t: Spaces, cur: FrameNo, u: nat, from: Option<FrameNo>)
    requires Valid(s) && cur in s.dirs && u < LIMIT / PAGE && MapsPage(s, t, cur, u, from, USER)
    ensures Mapping(s, t, cur, u, 1) && s.n <= t.n <= s.n + 2 && (from.None? ==> s.n < t.n)
    ensures PageIs(t, cur, u, match from case Some(f) => f case None => s.n)
  {
    var i: Index, j: Index := u / 1024, u % 1024;
    assert PageNo(i, j) == u;
    NothingMapped(s, cur, u);
    match from
    case Some(f) =>
      KallocPageFromInserts(s, cur, Word(f, NONE), i, j, USER);
      MappingOneMore(s, s, t, cur, u, 0, i, j, Word(f, NONE.Or(USER)));
    case None =>
      KallocPageInserts(s, cur, i, j, USER);
      MappingOneMore(s, s, t, cur, u, 0, i, j, Word(s.n, USER));
  }

  /** Of the k pages from v on, the first ones are in the frames given and the others in different frames, none
      of them below lo. */
  ghost predicate Placed(s: Spaces, cur: FrameNo, v: nat, k: nat, frames: seq<FrameNo>, lo: nat) {
    && (forall j | 0 <= j < k && j < |frames| :: PageIs(s, cur, v + j, frames[j]))
    && Backed(s, cur, v + |frames|, if k < |frames| then 0 else k - |frames|, lo)
  }

  lemma PlacedKept(s: Spaces, t: Spaces, cur: FrameNo, v: nat, k: nat, frames: seq<FrameNo>)
    requires Mapping(s, t, cur, v + k, 1) && forall j | 0 <= j < k && j < |frames| :: PageIs(s, cur, v + j, frames[j])
    ensures forall j | 0 <= j < k && j < |frames| :: PageIs(t, cur, v + j, frames[j])
  {
    forall j | 0 <= j < k && j < |frames|
      ensures PageIs(t, cur, v + j, frames[j])
    {
      assert PageIs(s, cur, v + j, frames[j]);
    }
  }

  lemma PlacedNext(s: Spaces, t: Spaces, cur: FrameNo, v: nat, k: nat, frames: seq<FrameNo>, lo: nat)
    requires Placed(s, cur, v, k, frames, lo) && Valid(s) && cur in s.dirs && v + k < LIMIT / PAGE && lo <= s.n
    requires MapsPage(s, t, cur, v + k, FrameAt(frames, k), USER)
    ensures Placed(t, cur, v, k + 1, frames, lo)
  {
    PageMapping(s, t, cur, v + k, FrameAt(frames, k));
    PlacedKept(s, t, cur, v, k, frames);
    if k >= |frames| {
      BackedOneMore(s, t, cur, v + |frames|, k - |frames|, lo);
    }
  }

  lemma {:induction false} RunPlaces(ss: seq<Spaces>, cur: FrameNo, v: nat, frames: seq<FrameNo>, k: nat)
    requires MapRun(ss, cur, v, frames, USER) && k < |ss| && Valid(ss[0]) && cur in ss[0].dirs && v + |ss| - 1 <= LIMIT / PAGE
    ensures Mapping(ss[0], ss[k], cur, v, k) && Placed(ss[k], cur, v, k, frames, ss[0].n)
    ensures ss[0].n <= ss[k].n <= ss[0].n + 2 * k
    decreases k
  {
    if k == 0 {
      NothingMapped(ss[0], cur, v);
    } else {
      RunPlaces(ss, cur, v, frames, k - 1);
      assert MapStep(ss, cur, v, frames, USER, k - 1);
      PlacesNext(ss[0], ss[k - 1], ss[k], cur, v, k - 1, frames);
    }
  }

  lemma PlacesNext(s: Spaces, m: Spaces, t: Spaces, cur: FrameNo, v: nat, k: nat, frames: seq<FrameNo>)
    requires Mapping(s, m, cur, v, k) && Placed(m, cur, v, k, frames, s.n) && s.n <= m.n && cur in s.dirs && v + k < LIMIT / PAGE
    requires MapsPage(m, t, cur, v + k, FrameAt(frames, k), USER)
    ensures Mapping(s, t, cur, v, k + 1) && Placed(t, cur, v, k + 1, frames, s.n) && m.n <= t.n <= m.n + 2
  {
    PageMapping(m, t, cur, v + k, FrameAt(frames, k));
    MappingTrans(s, m, t, cur, v, k, 1);
    PlacedNext(m, t, cur, v, k, frames, s.n);
  }

  /** A run of calls for k user pages maps exactly these pages, each to its own frame. */
  lemma UserRun(s: Spaces, t: Spaces, cur: FrameNo, v: nat, k: nat, frames: seq<FrameNo>)
    requires MapsRun(s, t, cur, v, k, frames, USER) && Valid(s) && cur in s.dirs && v + k <= LIMIT / PAGE
    ensures Mapping(s, t, cur, v, k) && Placed(t, cur, v, k, frames, s.n) && s.n <= t.n <= s.n + 2 * k
  {
    var ss :| MapRun(ss, cur, v, frames, USER) && |ss| == k + 1 && ss[0] == s && ss[k] == t;
    RunPlaces(ss, cur, v, frames, k);
  }

  // ---- sbrk -----------------------------------------------------------------------------------------

  datatype Result = Halt | Break(was: nat)

  /** The break after a request for `increment` bytes: rounded up to 8. */
  function NewBreak(brk: nat, increment: nat): (b: nat)
    ensures brk + increment <= b < brk + increment + 8 && b % 8 == 0
  {
    (brk + increment + 7) / 8 * 8
  }

  /** The break after one call. */
  function NextBreak(brk: nat, increment: nat): (b: nat)
    ensures brk % 8 == 0 ==> brk + increment <= b < brk + increment + 8 && b % 8 == 0
  {
    if increment == 0 then brk else NewBreak(brk, increment)
  }

  /** A request moves the break from brk to next, which is on that page. */
  ghost predicate Follows(brk: nat, increment: nat, next: nat, page: nat) {
    next == NextBreak(brk, increment) && page == next / PAGE
  }

  class Program {
    const vm: AddressSpaces
    const base: nat    // the first page of the program
    var brk: nat
    ghost var pages: nat             // how many pages loading has mapped
    ghost var frames: seq<FrameNo>   // and to which frames the first of them

    /** All pages from the first one of the program to that of the break are mapped, none above it. */
    ghost predicate Loaded()
      reads this, vm, vm.frames, vm.frames.bitmap
    {
      && Ready(vm, brk / PAGE + 1) && brk % 8 == 0 && base <= brk / PAGE && brk < LIMIT
      && MappedPages(vm.Space(), vm.cr3, base, brk / PAGE + 1)
    }

    /** A program is loaded from one segment; its break is behind it. */
    constructor (vm: AddressSpaces, buffer: seq<FrameNo>, vaddr: nat, filesz: nat, memsz: nat)
      requires vaddr % PAGE == 0 && vaddr > 0 && filesz <= memsz && InitialBreak(vaddr + memsz) < LIMIT
      requires Ready(vm, vaddr / PAGE) && |buffer| > filesz / PAGE
      requires forall j | 0 <= j <= filesz / PAGE :: 0 < buffer[j] < vm.n
      requires vm.n + (filesz / PAGE + 1) + 2 * ((memsz - filesz) / PAGE + 2) <= FRAMES
      modifies vm`mem, vm`n, vm.frames.bitmap
      ensures Loaded() && this.vm == vm && base == vaddr / PAGE && brk == InitialBreak(vaddr + memsz) && |frames| <= pages
      ensures base + pages == brk / PAGE + 1 && frames == buffer[..filesz / PAGE + 1]
      ensures MapsRun(old(vm.Space()), vm.Space(), vm.cr3, base, pages, frames, USER)
      ensures Mapping(old(vm.Space()), vm.Space(), vm.cr3, base, pages)
      ensures Placed(vm.Space(), vm.cr3, base, pages, frames, old(vm.n))
    {
      this.vm, this.base := vm, vaddr / PAGE;
      new;
      ghost var s, v := vm.Space(), 0;
      brk, v, pages, frames := LoadSegment(vm, buffer, vaddr, filesz, memsz);
      BreakPage(vaddr, memsz);
      MappingPages(s, vm.Space(), vm.cr3, base, pages, base, base);
    }

    /** _sbrk: answers the old break, and exactly the pages from the old to the new break are mapped, each
        for the first time. */
    method Sbrk(increment: int) returns (r: Result)
      requires Loaded() && (increment >= 0 ==> NextBreak(brk, increment) < LIMIT)
      requires increment >= 0 ==> vm.n + 2 * (NextBreak(brk, increment) / PAGE - brk / PAGE) <= FRAMES
      modifies this`brk, vm`mem, vm`n, vm.frames.bitmap
      ensures r == Halt <==> increment < 0
      ensures r == Halt || increment == 0 ==> brk == old(brk) && vm.Space() == old(vm.Space())
      ensures r != Halt ==> Loaded() && r.was == old(brk)
      ensures increment >= 0 ==>
                && brk == NextBreak(old(brk), increment) && old(vm.n) <= vm.n <= old(vm.n) + 2 * (brk / PAGE - old(brk) / PAGE)
                && Mapping(old(vm.Space()), vm.Space(), vm.cr3, old(brk) / PAGE + 1, brk / PAGE - old(brk) / PAGE)
                && Backed(vm.Space(), vm.cr3, old(brk) / PAGE + 1, brk / PAGE - old(brk) / PAGE, old(vm.n))
                && MapsRun(old(vm.Space()), vm.Space(), vm.cr3, old(brk) / PAGE + 1, brk / PAGE - old(brk) / PAGE, [], USER)
    {
      if increment < 0 {
        return Halt;
      }
      ghost var t := vm.Space();
      r := Break(brk);
      MoveBreak(increment);
      UserRun(t, vm.Space(), vm.cr3, r.was / PAGE + 1, brk / PAGE - r.was / PAGE, []);
    }

    /** The same for a request that is not negative, when k pages from `first` on have been mapped since s. */
    method SbrkNext(increment: nat, ghost next: nat, ghost page: nat, ghost first: nat, ghost k: nat, ghost s: Spaces)
      returns (was: nat, ghost m: nat)
      requires Loaded() && Follows(brk, increment, next, page) && next < LIMIT && first + k == brk / PAGE + 1
      requires s.n <= vm.n <= s.n + 2 * k && s.n + 2 * (page + 1 - first) <= FRAMES
      requires MapsRun(s, vm.Space(), vm.cr3, first, k, [], USER)
      modifies this`brk, vm`mem, vm`n, vm.frames.bitmap
      ensures Loaded() && brk == next && was == old(brk) && first + m == page + 1 && s.n <= vm.n <= s.n + 2 * m
      ensures MapsRun(s, vm.Space(), vm.cr3, first, m, [], USER)
    {
      ghost var t := vm.Space();
      ghost var j;
      was, j := SbrkOne(increment, next, page, first + k);
      m := k + j;
      RunTrans(s, t, vm.Space(), vm.cr3, first, k, j, [], USER);
    }

    /** The break moves over j pages, of which `first` is the first. */
    method SbrkOne(increment: nat, ghost next: nat, ghost page: nat, ghost first: nat) returns (was: nat, ghost j: nat)
      requires Loaded() && Follows(brk, increment, next, page) && next < LIMIT && first == brk / PAGE + 1
      requires vm.n + 2 * (page + 1 - first) <= FRAMES
      modifies this`brk, vm`mem, vm`n, vm.frames.bitmap
      ensures Loaded() && brk == next && was == old(brk) && first + j == page + 1 && old(vm.n) <= vm.n <= old(vm.n) + 2 * j
      ensures MapsRun(old(vm.Space()), vm.Space(), vm.cr3, first, j, [], USER)
    {
      var r := Sbrk(increment);
      was, j := r.was, page + 1 - first;
    }

    /** The part of _sbrk that changes anything. */
    method MoveBreak(increment: nat)
      requires Loaded() && NextBreak(brk, increment) < LIMIT
      requires vm.n + 2 * (NextBreak(brk, increment) / PAGE - brk / PAGE) <= FRAMES
      modifies this`brk, vm`mem, vm`n, vm.frames.bitmap
      ensures Loaded() && brk == NextBreak(old(brk), increment)
      ensures MapsRun(old(vm.Space()), vm.Space(), vm.cr3, old(brk) / PAGE + 1, brk / PAGE - old(brk) / PAGE, [], USER)
    {
      if increment == 0 {
        NoRun(vm.Space(), vm.cr3, brk / PAGE + 1, [], USER);
        return;
      }
      var oldbrk := brk;
      var newbrk := (brk + increment + 7) / 8 * 8;
      var pagediff := newbrk / PAGE - oldbrk / PAGE;
      MapUpTo(vm, oldbrk / PAGE + 1, pagediff, base);
      brk := newbrk;
    }
  }

  lemma BreakPage(vaddr: nat, memsz: nat)
    ensures var brk := InitialBreak(vaddr + memsz); brk % 8 == 0 && vaddr / PAGE <= brk / PAGE
  {
    var x := (vaddr + memsz + PAGE) / PAGE;
    assert InitialBreak(vaddr + memsz) == 8 * (512 * x);
    PagesGrow(vaddr, vaddr + memsz + PAGE);
  }

  lemma PagesGrow(a: nat, b: nat)
    requires a <= b
    ensures a / PAGE <= b / PAGE
  {
  }

  /** The memory from address a to address a + len is mapped. */
  ghost predicate RegionMapped(s: Spaces, cur: FrameNo, a: nat, len: nat) {
    MappedPages(s, cur, a / PAGE, (a + len) / PAGE + 1)
  }

  /** Every run of calls: each request gets a region of its own, all of them are mapped at the end, and the
      pages in between were mapped for the first time, to different frames that were free. */
  method SbrkRun(program: Program, requests: seq<nat>) returns (regions: seq<nat>, ghost pagesMapped: nat)
    requires program.Loaded() && BreakAfter(program.brk, requests) < LIMIT
    requires program.vm.n + 2 * (BreakAfter(program.brk, requests) / PAGE - program.brk / PAGE) <= FRAMES
    modifies program`brk, program.vm`mem, program.vm`n, program.vm.frames.bitmap
    ensures program.Loaded() && program.brk == BreakAfter(old(program.brk), requests) && |regions| == |requests|
    ensures forall i | 0 <= i < |requests| ::
              regions[i] >= old(program.brk) && RegionMapped(program.vm.Space(), program.vm.cr3, regions[i], requests[i])
    ensures forall i, j | 0 <= i < j < |requests| :: regions[i] + requests[i] <= regions[j]
    ensures program.brk >= old(program.brk) && program.brk / PAGE == old(program.brk) / PAGE + pagesMapped
    ensures var first, k := old(program.brk) / PAGE + 1, pagesMapped;
            && Unmapped(old(program.vm.Space()), program.vm.cr3, first, first + k)
            && Mapping(old(program.vm.Space()), program.vm.Space(), program.vm.cr3, first, k)
            && Backed(program.vm.Space(), program.vm.cr3, first, k, old(program.vm.n))
            && MapsRun(old(program.vm.Space()), program.vm.Space(), program.vm.cr3, first, k, [], USER)
  {
    ghost var brk, s := program.brk, program.vm.Space();
    ghost var breaks, pages := MovesOf(brk, requests);
    regions, pagesMapped := SbrkAll(program, requests, breaks, pages);
    UserRun(s, program.vm.Space(), program.vm.cr3, brk / PAGE + 1, pagesMapped, []);
    RegionsLie(program.vm.Space(), program.vm.cr3, program.base, brk, requests, regions);
  }

  /** The regions of a run are mapped when everything up to the last break is, and disjoint. */
  lemma RegionsLie(s: Spaces, cur: FrameNo, base: nat, brk: nat, requests: seq<nat>, regions: seq<nat>)
    requires brk % 8 == 0 && base <= brk / PAGE && MappedPages(s, cur, base, BreakAfter(brk, requests) / PAGE + 1)
    requires |regions| == |requests| && forall i | 0 <= i < |requests| :: regions[i] == BreakAfter(brk, requests[..i])
    ensures forall i | 0 <= i < |requests| :: regions[i] >= brk && RegionMapped(s, cur, regions[i], requests[i])
    ensures forall i, j | 0 <= i < j < |requests| :: regions[i] + requests[i] <= regions[j]
    ensures BreakAfter(brk, requests) >= brk
  {
    BreakGrows(brk, requests);
    forall i | 0 <= i < |requests|
      ensures regions[i] >= brk && RegionMapped(s, cur, regions[i], requests[i])
    {
      RegionEnds(brk, requests, i);
      BreakGrows(brk, requests[..i]);
    }
    forall i, j | 0 <= i < j < |requests|
      ensures regions[i] + requests[i] <= regions[j]
    {
      RegionsDisjoint(brk, requests, i, j);
    }
  }

  /** Where the break is before each of the requests and after the last, and on which page. */
  ghost predicate Moves(breaks: seq<nat>, pages: seq<nat>, requests: seq<nat>) {
    && |breaks| == |requests| + 1 && |pages| == |requests| + 1 && pages[0] == breaks[0] / PAGE
    && forall i | 0 <= i < |requests| :: MoveAt(breaks, pages, requests, i)
  }

  ghost predicate MoveAt(breaks: seq<nat>, pages: seq<nat>, requests: seq<nat>, i: nat)
    requires i < |requests| && |requests| < |breaks| && |requests| < |pages|
  {
    && Follows(breaks[i], requests[i], breaks[i + 1], pages[i + 1])
    && breaks[i + 1] <= breaks[|requests|] && pages[i + 1] <= pages[|requests|]
  }

  /** The calls of a run one after the other. */
  method SbrkAll(program: Program, requests: seq<nat>, ghost breaks: seq<nat>, ghost pages: seq<nat>)
    returns (regions: seq<nat>, ghost k: nat)
    requires program.Loaded() && Moves(breaks, pages, requests) && breaks[0] == program.brk && breaks[|requests|] < LIMIT
    requires pages[0] <= pages[|requests|] && program.vm.n + 2 * (pages[|requests|] - pages[0]) <= FRAMES
    modifies program`brk, program.vm`mem, program.vm`n, program.vm.frames.bitmap
    ensures program.Loaded() && program.brk == breaks[|requests|] && regions == breaks[..|requests|]
    ensures pages[0] + k == pages[|requests|]
    ensures MapsRun(old(program.vm.Space()), program.vm.Space(), program.vm.cr3, pages[0] + 1, k, [], USER)
  {
    ghost var s, first := program.vm.Space(), pages[0] + 1;
    regions, k := [], 0;
    NoRun(s, program.vm.cr3, first, [], USER);
    for i := 0 to |requests|
      invariant program.Loaded() && program.brk == breaks[i] && regions == breaks[..i]
      invariant first + k == pages[i] + 1 == program.brk / PAGE + 1 && s.n <= program.vm.n <= s.n + 2 * k
      invariant MapsRun(s, program.vm.Space(), program.vm.cr3, first, k, [], USER)
    {
      assert MoveAt(breaks, pages, requests, i);
      var was;
      was, k := program.SbrkNext(requests[i], breaks[i + 1], pages[i + 1], first, k, s);
      regions := regions + [was];
    }
  }

  lemma MovesOf(brk: nat, requests: seq<nat>) returns (breaks: seq<nat>, pages: seq<nat>)
    requires brk % 8 == 0
    ensures Moves(breaks, pages, requests) && breaks[0] == brk && breaks[|requests|] == BreakAfter(brk, requests)
    ensures forall i | 0 <= i < |requests| :: breaks[i] == BreakAfter(brk, requests[..i])
    ensures pages[0] == brk / PAGE <= pages[|requests|] == BreakAfter(brk, requests) / PAGE
  {
    breaks := seq(|requests| + 1, i requires 0 <= i <= |requests| => BreakAfter(brk, requests[..i]));
    pages := seq(|requests| + 1, i requires 0 <= i <= |requests| => breaks[i] / PAGE);
    MovesAre(brk, requests, breaks, pages);
    BreakGrows(brk, requests);
    PagesGrow(brk, BreakAfter(brk, requests));
  }

  lemma MovesAre(brk: nat, requests: seq<nat>, breaks: seq<nat>, pages: seq<nat>)
    requires brk % 8 == 0 && |breaks| == |requests| + 1 && |pages| == |requests| + 1
    requires forall i | 0 <= i <= |requests| :: breaks[i] == BreakAfter(brk, requests[..i])
    requires forall i | 0 <= i <= |requests| :: pages[i] == breaks[i] / PAGE
    ensures Moves(breaks, pages, requests) && breaks[0] == brk && breaks[|requests|] == BreakAfter(brk, requests)
  {
    assert requests[..|requests|] == requests;
    forall i | 0 <= i < |requests|
      ensures MoveAt(breaks, pages, requests, i)
    {
      var a, b := requests[..i + 1], requests[i + 1..];
      assert a == requests[..i] + [requests[i]] && requests == a + b && [requests[i]][1..] == [];
      BreakSplit(brk, requests[..i], [requests[i]]);
      BreakSplit(brk, a, b);
      BreakGrows(brk, a);
      BreakGrows(BreakAfter(brk, a), b);
      PagesGrow(breaks[i + 1], breaks[|requests|]);
    }
  }

  /** The loop of _sbrk: page i of the loop is page i of the run. */
  method MapUpTo(vm: AddressSpaces, v: nat, k: nat, ghost base: nat)
    requires Ready(vm, v) && v + k <= LIMIT / PAGE && vm.n + 2 * k <= FRAMES && base <= v && MappedPages(vm.Space(), vm.cr3, base, v)
    modifies vm`mem, vm`n, vm.frames.bitmap
    ensures Ready(vm, v + k) && MappedPages(vm.Space(), vm.cr3, base, v + k)
    ensures MapsRun(old(vm.Space()), vm.Space(), vm.cr3, v, k, [], USER)
  {
    ghost var s := vm.Space();
    NoRun(s, vm.cr3, v, [], USER);
    for i := 0 to k
      invariant Ready(vm, v + i) && vm.n <= s.n + 2 * i && MapsRun(s, vm.Space(), vm.cr3, v, i, [], USER)
    {
      MapOneMore(vm, v + i, v, i, [], s);
    }
    UserRun(s, vm.Space(), vm.cr3, v, k, []);
    MappingPages(s, vm.Space(), vm.cr3, v, k, base, LIMIT / PAGE);
  }

  /** One call more, for page u, when the k pages from v to u have been mapped since s. */
  method MapOneMore(vm: AddressSpaces, u: nat, ghost v: nat, ghost k: nat, ghost frames: seq<FrameNo>, ghost s: Spaces)
    requires u == v + k && k >= |frames| && Ready(vm, u) && u < LIMIT / PAGE && vm.n + 2 <= FRAMES
    requires MapsRun(s, vm.Space(), vm.cr3, v, k, frames, USER)
    modifies vm`mem, vm`n, vm.frames.bitmap
    ensures Ready(vm, v + k + 1) && vm.n <= old(vm.n) + 2 && MapsRun(s, vm.Space(), vm.cr3, v, k + 1, frames, USER)
  {
    ghost var t := vm.Space();
    MapNext(vm, u);
    RunNext(s, t, vm.Space(), vm.cr3, v, k, frames, USER);
  }

  /** Every break after a run of non-negative requests. */
  function BreakAfter(brk: nat, requests: seq<nat>): nat
    decreases |requests|
  {
    if requests == [] then brk
    else BreakAfter(NextBreak(brk, requests[0]), requests[1..])
  }

  lemma {:induction false} BreakGrows(brk: nat, requests: seq<nat>)
    requires brk % 8 == 0
    ensures BreakAfter(brk, requests) >= brk && BreakAfter(brk, requests) % 8 == 0
    decreases |requests|
  {
    if requests != [] {
      BreakGrows(NextBreak(brk, requests[0]), requests[1..]);
    }
  }

  lemma {:induction false} BreakSplit(brk: nat, a: seq<nat>, b: seq<nat>)
    ensures BreakAfter(brk, a + b) == BreakAfter(BreakAfter(brk, a), b)
    decreases |a|
  {
    if a == [] {
      assert a + b == b;
    } else {
      assert (a + b)[1..] == a[1..] + b;
      BreakSplit(NextBreak(brk, a[0]), a[1..], b);
    }
  }

  /** The regions that two requests of a run get never overlap: the earlier one ends before the later one
      starts, and both end below the last break. */
  lemma RegionsDisjoint(brk: nat, requests: seq<nat>, i: nat, j: nat)
    requires brk % 8 == 0 && i < j < |requests|
    ensures BreakAfter(brk, requests[..i]) + requests[i] <= BreakAfter(brk, requests[..j])
    ensures BreakAfter(brk, requests[..j]) + requests[j] <= BreakAfter(brk, requests)
  {
    RegionEnds(brk, requests[..j], i);
    RegionEnds(brk, requests, j);
    assert requests[..j][..i] == requests[..i];
  }

  lemma RegionEnds(brk: nat, requests: seq<nat>, i: nat)
    requires brk % 8 == 0 && i < |requests|
    ensures BreakAfter(brk, requests[..i]) + requests[i] <= BreakAfter(brk, requests)
  {
    var start := BreakAfter(brk, requests[..i]);
    assert requests == requests[..i] + requests[i..];
    BreakSplit(brk, requests[..i], requests[i..]);
    BreakGrows(brk, requests[..i]);
    BreakGrows(NextBreak(start, requests[i]), requests[i..][1..]);
  }

  // ---- loading a segment -------------------------------------------------------------------------------

  /** kalloc_page_from of a frame in use on the first unmapped page. */
  method MapNextFrom(vm: AddressSpaces, frame: FrameNo, v: nat)
    requires Ready(vm, v) && v < LIMIT / PAGE && vm.n + 1 <= FRAMES && 0 < frame < vm.n
    modifies vm`mem, vm`n, vm.frames.bitmap
    ensures Ready(vm, v + 1) && vm.n <= old(vm.n) + 1
    ensures Mapping(old(vm.Space()), vm.Space(), vm.cr3, v, 1)
    ensures PageIs(vm.Space(), vm.cr3, v, frame) && MapsPage(old(vm.Space()), vm.Space(), vm.cr3, v, Some(frame), USER)
  {
    ghost var t := vm.Space();
    var i: Index, j: Index := v / 1024, v % 1024;
    assert PageNo(i, j) == v;
    assert !Entry(t.mem, vm.cr3, i, j).Present();
    var from := Word(frame, NONE);
    KallocPageFromInserts(t, vm.cr3, from, i, j, AccessFlags(false, true));
    var r := vm.KallocPageFrom(from, i, j, false, true);
    assert r == Mapped;
    NothingMapped(t, vm.cr3, v);
    MappingOneMore(t, t, vm.Space(), vm.cr3, v, 0, i, j, Word(frame, NONE.Or(AccessFlags(false, true))));
    MappingPages(t, vm.Space(), vm.cr3, v, 1, v, LIMIT / PAGE);
  }

  /** The break that loading ends with: the start of the page after the last one of bss. */
  function InitialBreak(end: nat): (b: nat)
    ensures b % PAGE == 0 && end < b <= end + PAGE
  {
    (end + PAGE) / PAGE * PAGE
  }

  lemma PageOf(a: nat, i: nat)
    ensures (a + i * PAGE) / PAGE == a / PAGE + i
  {
  }

  lemma AlignedPage(vaddr: nat, size: nat)
    requires vaddr % PAGE == 0
    ensures (vaddr + size) / PAGE == vaddr / PAGE + size / PAGE
  {
    assert vaddr == vaddr / PAGE * PAGE;
    PageOf(size, vaddr / PAGE);
  }

  /** The bss pages end at the page of the initial break, or at the one before it. */
  lemma BssPages(start: nat, end: nat)
    requires start <= end
    ensures var last := start / PAGE + ((end - start) / PAGE + 1);
            || (InitialBreak(end) == last * PAGE && InitialBreak(end) / PAGE == last)
            || (InitialBreak(end) == (last + 1) * PAGE && InitialBreak(end) / PAGE == last + 1)
  {
  }

  /** The loading of one page-aligned segment: file pages share the frames of the buffer the file was read
      into, bss pages are new, and afterwards every page from the start of the segment to that of the break
      is mapped, each having been mapped once. */
  method LoadSegment(vm: AddressSpaces, buffer: seq<FrameNo>, vaddr: nat, filesz: nat, memsz: nat)
    returns (brk: nat, ghost v: nat, ghost k: nat, ghost frames: seq<FrameNo>)
    requires vaddr % PAGE == 0 && vaddr > 0 && filesz <= memsz && InitialBreak(vaddr + memsz) < LIMIT
    requires Ready(vm, vaddr / PAGE) && |buffer| > filesz / PAGE
    requires forall j | 0 <= j <= filesz / PAGE :: 0 < buffer[j] < vm.n
    requires vm.n + (filesz / PAGE + 1) + 2 * ((memsz - filesz) / PAGE + 2) <= FRAMES
    modifies vm`mem, vm`n, vm.frames.bitmap
    ensures brk == InitialBreak(vaddr + memsz) && v == vaddr / PAGE && v + k == brk / PAGE + 1
    ensures frames == buffer[..filesz / PAGE + 1] && |frames| <= k && Ready(vm, v + k)
    ensures MapsRun(old(vm.Space()), vm.Space(), vm.cr3, v, k, frames, USER)
    ensures Mapping(old(vm.Space()), vm.Space(), vm.cr3, v, k) && Placed(vm.Space(), vm.cr3, v, k, frames, old(vm.n))
  {
    SegmentFits(vaddr, filesz, memsz);
    ghost var s := vm.Space();
    v, frames := vaddr / PAGE, buffer[..filesz / PAGE + 1];
    ghost var m;
    brk, m := MapFileAndBss(vm, buffer, vaddr, filesz / PAGE + 1, vaddr + filesz, vaddr + memsz, v);
    k := |frames| + m;
    UserRun(s, vm.Space(), vm.cr3, v, k, frames);
  }

  /** The two loops one after the other: k pages of the file from page v on, and m pages behind them. */
  method MapFileAndBss(vm: AddressSpaces, buffer: seq<FrameNo>, vaddr: nat, k: nat, start: nat, end: nat, ghost v: nat)
    returns (brk: nat, ghost m: nat)
    requires vaddr % PAGE == 0 && v == vaddr / PAGE && start <= end && InitialBreak(end) < LIMIT
    requires start / PAGE + 1 == v + k <= LIMIT / PAGE && vm.n + k + 2 * ((end - start) / PAGE + 2) <= FRAMES
    requires Ready(vm, v) && k <= |buffer| && forall j | 0 <= j < k :: 0 < buffer[j] < vm.n
    modifies vm`mem, vm`n, vm.frames.bitmap
    ensures brk == InitialBreak(end) && v + k + m == brk / PAGE + 1 && Ready(vm, v + k + m)
    ensures MapsRun(old(vm.Space()), vm.Space(), vm.cr3, v, k + m, buffer[..k], USER)
  {
    ghost var s := vm.Space();
    MapFile(vm, buffer, vaddr, k, v);
    brk, m := MapBss(vm, start, end, v, k, buffer[..k], s);
  }

  lemma SegmentFits(vaddr: nat, filesz: nat, memsz: nat)
    requires vaddr % PAGE == 0 && filesz <= memsz && InitialBreak(vaddr + memsz) < LIMIT
    ensures (vaddr + filesz) / PAGE + 1 == vaddr / PAGE + (filesz / PAGE + 1) <= LIMIT / PAGE
  {
    AlignedPage(vaddr, filesz);
  }

  /** The loop over the pages of the file. */
  method MapFile(vm: AddressSpaces, buffer: seq<FrameNo>, vaddr: nat, k: nat, ghost v: nat)
    requires vaddr % PAGE == 0 && v == vaddr / PAGE && Ready(vm, v) && k <= |buffer| && v + k <= LIMIT / PAGE
    requires (forall j | 0 <= j < k :: 0 < buffer[j] < vm.n) && vm.n + k <= FRAMES
    modifies vm`mem, vm`n, vm.frames.bitmap
    ensures Ready(vm, v + k) && vm.n <= old(vm.n) + k
    ensures MapsRun(old(vm.Space()), vm.Space(), vm.cr3, v, k, buffer[..k], USER)
  {
    ghost var s := vm.Space();
    NoRun(s, vm.cr3, v, buffer[..k], USER);
    for j := 0 to k
      invariant Ready(vm, v + j) && s.n <= vm.n <= s.n + j && MapsRun(s, vm.Space(), vm.cr3, v, j, buffer[..k], USER)
    {
      PageOf(vaddr, j);
      MapFilePage(vm, buffer[j], (vaddr + j * PAGE) / PAGE, v, j, buffer[..k], s);
    }
  }

  method MapFilePage(vm: AddressSpaces, frame: FrameNo, u: nat, ghost v: nat, ghost j: nat,
                     ghost frames: seq<FrameNo>, ghost s: Spaces)
    requires u == v + j && Ready(vm, u) && u < LIMIT / PAGE && vm.n + 1 <= FRAMES && 0 < frame < vm.n
    requires j < |frames| && frames[j] == frame && MapsRun(s, vm.Space(), vm.cr3, v, j, frames, USER)
    modifies vm`mem, vm`n, vm.frames.bitmap
    ensures Ready(vm, v + j + 1) && old(vm.n) <= vm.n <= old(vm.n) + 1 && MapsRun(s, vm.Space(), vm.cr3, v, j + 1, frames, USER)
  {
    ghost var t := vm.Space();
    MapNextFrom(vm, frame, u);
    RunNext(s, t, vm.Space(), vm.cr3, v, j, frames, USER);
  }

  /** The bss pages and the page of the initial break, when the k pages from v on have been mapped since s. */
  method MapBss(vm: AddressSpaces, start: nat, end: nat, ghost v: nat, ghost k: nat, ghost frames: seq<FrameNo>,
                ghost s: Spaces)
    returns (brk: nat, ghost m: nat)
    requires start <= end && InitialBreak(end) < LIMIT && v + k == start / PAGE + 1 && k >= |frames|
    requires Ready(vm, v + k) && vm.n + 2 * ((end - start) / PAGE + 2) <= FRAMES
    requires MapsRun(s, vm.Space(), vm.cr3, v, k, frames, USER)
    modifies vm`mem, vm`n, vm.frames.bitmap
    ensures brk == InitialBreak(end) && v + k + m == brk / PAGE + 1 && Ready(vm, v + k + m)
    ensures MapsRun(s, vm.Space(), vm.cr3, v, k + m, frames, USER)
  {
    BssPages(start, end);
    brk := InitialBreak(end);
    m := MapBssTo(vm, start, (end - start) / PAGE + 1, brk, v, k, frames, s);
  }

  method MapBssTo(vm: AddressSpaces, start: nat, pages: nat, end: nat, ghost v: nat, ghost k: nat,
                  ghost frames: seq<FrameNo>, ghost s: Spaces)
    returns (ghost m: nat)
    requires v + k == start / PAGE + 1 && k >= |frames| && Ready(vm, v + k) && pages > 0 && vm.n + 2 * (pages + 1) <= FRAMES
    requires var last := start / PAGE + pages; (end == last * PAGE || end == (last + 1) * PAGE) && end < LIMIT
    requires MapsRun(s, vm.Space(), vm.cr3, v, k, frames, USER)
    modifies vm`mem, vm`n, vm.frames.bitmap
    ensures v + k + m == end / PAGE + 1 && Ready(vm, v + k + m) && MapsRun(s, vm.Space(), vm.cr3, v, k + m, frames, USER)
  {
    var brk := MapBssPages(vm, start, pages, v, k, frames, s);
    m := pages;
    if brk != end {
      MapOneMore(vm, end / PAGE, v, k + pages, frames, s);
      m := m + 1;
    }
  }

  /** The loop over the bss pages, which start behind the last page of the file. */
  method MapBssPages(vm: AddressSpaces, start: nat, pages: nat, ghost v: nat, ghost k: nat,
                     ghost frames: seq<FrameNo>, ghost s: Spaces)
    returns (brk: nat)
    requires v + k == start / PAGE + 1 && k >= |frames| && Ready(vm, v + k) && pages > 0 && v + k + pages <= LIMIT / PAGE
    requires vm.n + 2 * pages <= FRAMES && MapsRun(s, vm.Space(), vm.cr3, v, k, frames, USER)
    modifies vm`mem, vm`n, vm.frames.bitmap
    ensures brk == (start / PAGE + pages) * PAGE && Ready(vm, v + k + pages) && vm.n <= old(vm.n) + 2 * pages
    ensures MapsRun(s, vm.Space(), vm.cr3, v, k + pages, frames, USER)
  {
    brk := 0;
    for i := 1 to pages + 1
      invariant Ready(vm, v + k + (i - 1)) && vm.n <= old(vm.n) + 2 * (i - 1)
      invariant MapsRun(s, vm.Space(), vm.cr3, v, k + (i - 1), frames, USER)
      invariant i > 1 ==> brk == (start / PAGE + (i - 1)) * PAGE
    {
      brk := MapBssPage(vm, start, i, v, k + (i - 1), frames, s);
    }
  }

  method MapBssPage(vm: AddressSpaces, start: nat, i: nat, ghost v: nat, ghost k: nat, ghost frames: seq<FrameNo>,
                    ghost s: Spaces)
    returns (brk: nat)
    requires v + k == start / PAGE + i < LIMIT / PAGE && k >= |frames| && Ready(vm, v + k) && vm.n + 2 <= FRAMES
    requires MapsRun(s, vm.Space(), vm.cr3, v, k, frames, USER)
    modifies vm`mem, vm`n, vm.frames.bitmap
    ensures brk == (start / PAGE + i) * PAGE && Ready(vm, v + k + 1) && vm.n <= old(vm.n) + 2
    ensures MapsRun(s, vm.Space(), vm.cr3, v, k + 1, frames, USER)
  {
    PageOf(start, i);
    var u := (start + i * PAGE) / PAGE;
    brk := u * PAGE;
    MapOneMore(vm, u, v, k, frames, s);
  }
}
