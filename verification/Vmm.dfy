/**
 The virtual memory manager (mem/vmm.c): page tables edited through the window that the directory's
 last slot opens on itself.
 */
module Vmm {

  import opened Basics
  import opened Paging
  import Pmm

  const PRESENT := Flags(true, false, false, 0)
  const READWRITE := Flags(false, true, false, 0)
  const USERMODE := Flags(false, false, true, 0)

  datatype Outcome = Panic | Null | Mapped

  function AccessFlags(kernel: bool, readwrite: bool): (x: Flags)
    ensures x.present && (x.readwrite <==> readwrite) && (x.user <==> !kernel) && x.others == 0
  {
    PRESENT.Or(if readwrite then READWRITE else NONE).Or(if kernel then NONE else USERMODE)
  }

  // ---- the operations as functions of all address spaces ---------------------------------------

  /** The directory gets an empty table, in the next free frame, when it has none at index i. */
  function WithTable(s: Spaces, cur: FrameNo, i: Index, flags: Flags): Spaces
    requires s.mem[cur][i].Present() || s.n < FRAMES
  {
    if s.mem[cur][i].Present() then s
    else s.(mem := Put(s.mem, cur, i, Word(s.n, flags))[s.n := ZeroPage()], n := s.n + 1)
  }

  function KallocPageFromSpec(s: Spaces, cur: FrameNo, from: Word, i: Index, j: Index, access: Flags): (Outcome, Spaces)
    requires from == ZERO || s.mem[cur][i].Present() || s.n < FRAMES
  {
    if from == ZERO then (Panic, s)
    else if i == 0 && j == 0 then (Null, s)
    else if s.mem[cur][i].Present() && s.mem[s.mem[cur][i].addr][j].Present() then (Null, s)
    else
      var t := WithTable(s, cur, i, access);
      if from.addr >= t.n then (Panic, t)
      else (Mapped, t.(mem := Put(t.mem, t.mem[cur][i].addr, j, Word(from.addr, from.flags.Or(access)))))
  }

  function KallocPageSpec(s: Spaces, cur: FrameNo, i: Index, j: Index, access: Flags): (Outcome, Spaces)
    requires s.mem[cur][i].Present() || s.n != FRAMES - 1
    requires s.n <= FRAMES
  {
    if i == 0 && j == 0 then (Null, s)
    else if s.n == FRAMES then (Panic, s)
    else KallocPageFromSpec(s.(n := s.n + 1), cur, Word(s.n, NONE), i, j, access)
  }

  /** Page (i, j) holds w in all address spaces that see it from `cur`; no other page changes. */
  ghost predicate Inserted(s: Spaces, s': Spaces, cur: FrameNo, i: Index, j: Index, w: Word) {
    forall d: FrameNo, p: Index, q: Index | d in s.dirs && p < SELF ::
      Entry(s'.mem, d, p, q) == if Sees(cur, d, i) && p == i && q == j then w else Entry(s.mem, d, p, q)
  }

  ghost predicate SamePages(s: Spaces, s': Spaces) {
    forall d: FrameNo, p: Index, q: Index | d in s.dirs && p < SELF ::
      Entry(s'.mem, d, p, q) == Entry(s.mem, d, p, q)
  }

  ghost predicate Kept(s: Spaces, s': Spaces) {
    Valid(s') && s'.dirs == s.dirs && s'.kernel == s.kernel && s.n <= s'.n
  }

  /** kalloc_page_from is insert-if-absent on the map from virtual pages to frames and flags: it
      inserts exactly when the page is neither page 0 nor mapped and the frame is in use. */
  lemma KallocPageFromInserts(s: Spaces, cur: FrameNo, from: Word, i: Index, j: Index, access: Flags)
    requires Valid(s) && cur in s.dirs && i < SELF && access.present && access.others == 0
    requires s.mem[cur][i].Present() || s.n < FRAMES
    ensures var (r, s') := KallocPageFromSpec(s, cur, from, i, j, access);
            var w := Word(from.addr, Flags(true, from.flags.readwrite || access.readwrite, from.flags.user || access.user, from.flags.others));
            && Kept(s, s')
            && (r == Mapped <==> from != ZERO && (i, j) != (0, 0) && !Entry(s.mem, cur, i, j).Present() && from.addr < s'.n)
            && (r == Mapped ==> Inserted(s, s', cur, i, j, w))
            && (r != Mapped ==> SamePages(s, s'))
  {
    if from != ZERO && (i, j) != (0, 0) && !Entry(s.mem, cur, i, j).Present() {
      var t := WithTable(s, cur, i, access);
      WithTableKept(s, t, cur, i, access);
      if from.addr < t.n {
        var w := Word(from.addr, from.flags.Or(access));
        EntryInserted(s, t, t.(mem := Put(t.mem, t.mem[cur][i].addr, j, w)), cur, i, j, w);
      }
    }
  }

  /** When it answers NULL, when it halts, and what a table it has to make is entered with. */
  lemma KallocPageFromAnswers(s: Spaces, cur: FrameNo, from: Word, i: Index, j: Index, access: Flags)
    requires Valid(s) && cur in s.dirs && i < SELF && (s.mem[cur][i].Present() || s.n < FRAMES)
    ensures var (r, s') := KallocPageFromSpec(s, cur, from, i, j, access);
            && (r == Null <==> from != ZERO && ((i, j) == (0, 0) || Entry(s.mem, cur, i, j).Present()))
            && (r == Panic <==> from == ZERO || ((i, j) != (0, 0) && !Entry(s.mem, cur, i, j).Present() && from.addr >= s'.n))
            && s'.mem[cur][i] == (if r == Null || from == ZERO || s.mem[cur][i].Present() then s.mem[cur][i] else Word(s.n, access))
  {
    assert s.mem[cur][i].Present() ==> HasTable(s, cur, i);
  }

  lemma EntryInserted(s: Spaces, t: Spaces, s': Spaces, cur: FrameNo, i: Index, j: Index, w: Word)
    requires Kept(s, t) && SamePages(s, t) && HasTable(t, cur, i) && s' == t.(mem := Put(t.mem, t.mem[cur][i].addr, j, w))
    ensures Kept(s, s') && Inserted(s, s', cur, i, j, w)
  {
    SetEntry(t, s', cur, i, j, w);
  }

  lemma WithTableKept(s: Spaces, t: Spaces, cur: FrameNo, i: Index, access: Flags)
    requires Valid(s) && cur in s.dirs && i < SELF && access.present && access.others == 0
    requires (s.mem[cur][i].Present() || s.n < FRAMES) && t == WithTable(s, cur, i, access)
    ensures Kept(s, t) && SamePages(s, t) && HasTable(t, cur, i)
  {
    if !s.mem[cur][i].Present() {
      NewTable(s, t, cur, i, access);
    }
  }

  /** kalloc_page maps an absent page to a frame that was free, and leaves a present one alone. */
  lemma KallocPageInserts(s: Spaces, cur: FrameNo, i: Index, j: Index, access: Flags)
    requires Valid(s) && cur in s.dirs && i < SELF && access.present && access.others == 0
    requires s.mem[cur][i].Present() || s.n != FRAMES - 1
    ensures var (r, s') := KallocPageSpec(s, cur, i, j, access);
            && Kept(s, s')
            && (r == Mapped <==> (i, j) != (0, 0) && s.n < FRAMES && !Entry(s.mem, cur, i, j).Present())
            && (r == Mapped ==> Inserted(s, s', cur, i, j, Word(s.n, access)))
            && (r != Mapped ==> SamePages(s, s'))
  {
    if s.n < FRAMES && (i, j) != (0, 0) {
      var s1 := s.(n := s.n + 1);
      OneMoreFrame(s, s1);
      KallocPageFromInserts(s1, cur, Word(s.n, NONE), i, j, access);
      var (r, s') := KallocPageFromSpec(s1, cur, Word(s.n, NONE), i, j, access);
      assert KallocPageSpec(s, cur, i, j, access) == (r, s');
      SameStart(s, s1, s', cur, i, j, Word(s.n, access));
    }
  }

  lemma KallocPageAnswers(s: Spaces, cur: FrameNo, i: Index, j: Index, access: Flags)
    requires Valid(s) && cur in s.dirs && i < SELF && (s.mem[cur][i].Present() || s.n != FRAMES - 1)
    ensures var (r, s') := KallocPageSpec(s, cur, i, j, access);
            && (r == Null <==> (i, j) == (0, 0) || (s.n < FRAMES && Entry(s.mem, cur, i, j).Present()))
            && (r == Panic <==> (i, j) != (0, 0) && s.n == FRAMES)
  {
    if s.n < FRAMES && (i, j) != (0, 0) {
      OneMoreFrame(s, s.(n := s.n + 1));
      KallocPageFromAnswers(s.(n := s.n + 1), cur, Word(s.n, NONE), i, j, access);
    }
  }

  lemma SameStart(s: Spaces, t: Spaces, s': Spaces, cur: FrameNo, i: Index, j: Index, w: Word)
    requires t == s.(n := s.n + 1) && Kept(t, s')
    ensures Kept(s, s')
    ensures Inserted(t, s', cur, i, j, w) ==> Inserted(s, s', cur, i, j, w)
    ensures SamePages(t, s') ==> SamePages(s, s')
  {
  }

  lemma OneMoreFrame(s: Spaces, s': Spaces)
    requires Valid(s) && s.n < FRAMES && s' == s.(n := s.n + 1)
    ensures Valid(s')
  {
    assert forall d: FrameNo, i: nat :: HasTable(s', d, i) == HasTable(s, d, i);
  }

  // ---- many calls --------------------------------------------------------------------------------

  /** One successful call for page u of directory cur leads from s to t: kalloc_page_from when a frame is given,
      kalloc_page otherwise. */
  ghost predicate MapsPage(s: Spaces, t: Spaces, cur: FrameNo, u: nat, from: Option<FrameNo>, access: Flags) {
    && 0 < u < SELF * 1024 && s.n <= FRAMES && !Entry(s.mem, cur, u / 1024, u % 1024).Present()
    && match from
       case Some(f) =>
         && (s.mem[cur][u / 1024].Present() || s.n < FRAMES) && 0 < f < s.n
         && t == KallocPageFromSpec(s, cur, Word(f, NONE), u / 1024, u % 1024, access).1
       case None =>
         && s.n < FRAMES && (s.mem[cur][u / 1024].Present() || s.n != FRAMES - 1)
         && t == KallocPageSpec(s, cur, u / 1024, u % 1024, access).1
  }

  function FrameAt(frames: seq<FrameNo>, k: nat): Option<FrameNo> {
    if k < |frames| then Some(frames[k]) else None
  }

  /** The calls for the pages from v on, the first ones with the frames given; ss are the address spaces before
      and after each of them. */
  ghost predicate MapRun(ss: seq<Spaces>, cur: FrameNo, v: nat, frames: seq<FrameNo>, access: Flags) {
    ss != [] && forall k | 0 <= k < |ss| - 1 :: MapStep(ss, cur, v, frames, access, k)
  }

  ghost predicate MapStep(ss: seq<Spaces>, cur: FrameNo, v: nat, frames: seq<FrameNo>, access: Flags, k: nat)
    requires k + 1 < |ss|
  {
    MapsPage(ss[k], ss[k + 1], cur, v + k, FrameAt(frames, k), access)
  }

  /** k calls lead from s to t. */
  ghost predicate MapsRun(s: Spaces, t: Spaces, cur: FrameNo, v: nat, k: nat, frames: seq<FrameNo>, access: Flags) {
    exists ss :: MapRun(ss, cur, v, frames, access) && |ss| == k + 1 && ss[0] == s && ss[k] == t
  }

  lemma NoRun(s: Spaces, cur: FrameNo, v: nat, frames: seq<FrameNo>, access: Flags)
    ensures MapsRun(s, s, cur, v, 0, frames, access)
  {
    assert MapRun([s], cur, v, frames, access);
  }

  lemma RunNext(s: Spaces, m: Spaces, t: Spaces, cur: FrameNo, v: nat, k: nat, frames: seq<FrameNo>, access: Flags)
    requires MapsRun(s, m, cur, v, k, frames, access) && MapsPage(m, t, cur, v + k, FrameAt(frames, k), access)
    ensures MapsRun(s, t, cur, v, k + 1, frames, access)
  {
    var ss :| MapRun(ss, cur, v, frames, access) && |ss| == k + 1 && ss[0] == s && ss[k] == m;
    MapRunNext(ss, t, cur, v, frames, access);
    assert (ss + [t])[0] == s && (ss + [t])[k + 1] == t;
  }

  lemma MapRunNext(ss: seq<Spaces>, t: Spaces, cur: FrameNo, v: nat, frames: seq<FrameNo>, access: Flags)
    requires MapRun(ss, cur, v, frames, access)
    requires MapsPage(ss[|ss| - 1], t, cur, v + |ss| - 1, FrameAt(frames, |ss| - 1), access)
    ensures MapRun(ss + [t], cur, v, frames, access)
  {
    forall k | 0 <= k < |ss|
      ensures MapStep(ss + [t], cur, v, frames, access, k)
    {
      if k < |ss| - 1 {
        assert MapStep(ss, cur, v, frames, access, k);
      }
    }
  }

  /** Calls without frames go on where calls with frames end. */
  lemma {:induction false} RunOn(s: Spaces, ss: seq<Spaces>, cur: FrameNo, v: nat, k: nat, frames: seq<FrameNo>,
                                 access: Flags, m: nat)
    requires m < |ss| && k >= |frames| && MapRun(ss, cur, v + k, [], access) && MapsRun(s, ss[0], cur, v, k, frames, access)
    ensures MapsRun(s, ss[m], cur, v, k + m, frames, access)
    decreases m
  {
    if m > 0 {
      RunOn(s, ss, cur, v, k, frames, access, m - 1);
      assert MapStep(ss, cur, v + k, [], access, m - 1);
      RunNext(s, ss[m - 1], ss[m], cur, v, k + m - 1, frames, access);
    }
  }

  lemma RunTrans(s: Spaces, t: Spaces, u: Spaces, cur: FrameNo, v: nat, k: nat, m: nat, frames: seq<FrameNo>, access: Flags)
    requires k >= |frames| && MapsRun(s, t, cur, v, k, frames, access) && MapsRun(t, u, cur, v + k, m, [], access)
    ensures MapsRun(s, u, cur, v, k + m, frames, access)
  {
    var ss :| MapRun(ss, cur, v + k, [], access) && |ss| == m + 1 && ss[0] == t && ss[m] == u;
    RunOn(s, ss, cur, v, k, frames, access, m);
  }

  // ---- the manager itself ----------------------------------------------------------------------

  class AddressSpaces {
    var mem: Memory
    var cr3: FrameNo
    const frames: Pmm.FrameAllocator
    const kernelDir: FrameNo
    ghost var n: nat              // frames below n are in use, the others are free
    ghost var dirs: set<FrameNo>  // the page directories of all address spaces

    ghost predicate Sound()
      reads this, frames, frames.bitmap
    {
      && frames.Valid() && Pmm.InitialSegment(frames.Bits(), n)
      && cr3 < n && SelfMapped(mem, cr3)
    }

    ghost function Space(): Spaces
      reads this
    {
      Spaces(mem, n, kernelDir, dirs)
    }

    /** The state in which setup_vmm starts, after it has pointed the last slot of the boot
        directory at the directory (mem/vmm.c:168-173). */
    constructor (boot: Memory, dir: FrameNo, allocator: Pmm.FrameAllocator, ghost used: nat)
      requires allocator.Valid() && Pmm.InitialSegment(allocator.Bits(), used) && dir < used
      ensures mem == Put(boot, dir, SELF, Word(dir, Flags(true, true, false, 0)))
      ensures cr3 == kernelDir == dir && frames == allocator && n == used && dirs == {dir}
      ensures Sound()
    {
      mem := Put(boot, dir, SELF, Word(dir, PRESENT.Or(READWRITE)));
      cr3, kernelDir, frames := dir, dir, allocator;
      n, dirs := used, {dir};
    }

    /** A store by the processor to word k of virtual page (i, j). */
    method Store(i: Index, j: Index, k: Index, w: Word)
      requires Translates(mem, cr3, i, j)
      modifies this`mem
      ensures mem == Put(old(mem), Target(old(mem), cr3, i, j), k, w)
    {
      mem := Put(mem, Target(mem, cr3, i, j), k, w);
    }

    method Load(i: Index, j: Index, k: Index) returns (w: Word)
      requires Translates(mem, cr3, i, j)
      ensures w == mem[Target(mem, cr3, i, j)][k]
    {
      w := mem[Target(mem, cr3, i, j)][k];
    }

    /** A store by the processor to the word at an address. */
    method StoreAt(addr: nat, w: Word)
      requires addr < 0x1_0000_0000 && Translates(mem, cr3, DirIndex(addr), TableIndex(addr))
      modifies this`mem
      ensures mem == Put(old(mem), Target(old(mem), cr3, DirIndex(addr), TableIndex(addr)), WordIndex(addr), w)
    {
      Store(DirIndex(addr), TableIndex(addr), WordIndex(addr), w);
    }

    method LoadAt(addr: nat) returns (w: Word)
      requires addr < 0x1_0000_0000 && Translates(mem, cr3, DirIndex(addr), TableIndex(addr))
      ensures w == mem[Target(mem, cr3, DirIndex(addr), TableIndex(addr))][WordIndex(addr)]
    {
      w := Load(DirIndex(addr), TableIndex(addr), WordIndex(addr));
    }

    /** An assignment to element p * 0x400 + q of the words at a window. */
    method StoreWindow(window: nat, p: Index, q: Index, w: Word, ghost slot: Index)
      requires IsWindow(window, slot) && Translates(mem, cr3, slot, p)
      modifies this`mem
      ensures mem == Put(old(mem), Target(old(mem), cr3, slot, p), q, w)
    {
      WindowAddresses(window, slot, p, q);
      StoreAt(window + 4 * (p * 0x400 + q), w);
    }

    method LoadWindow(window: nat, p: Index, q: Index, ghost slot: Index) returns (w: Word)
      requires IsWindow(window, slot) && Translates(mem, cr3, slot, p)
      ensures w == mem[Target(mem, cr3, slot, p)][q]
    {
      WindowAddresses(window, slot, p, q);
      w := LoadAt(window + 4 * (p * 0x400 + q));
    }

    /** set_page_table_entry, and set_page of the address with indices p and q. */
    method SetPageTableEntry(p: Index, q: Index, w: Word)
      requires SelfMapped(mem, cr3) && mem[cr3][p].Present()
      modifies this`mem
      ensures mem == Put(old(mem), old(mem)[cr3][p].addr, q, w)
    {
      WindowReachesEntry(mem, cr3, p);
      StoreWindow(WINDOW, p, q, w, SELF);
    }

    /** get_page_table_entry, and get_page of the address with indices p and q. */
    method GetPageTableEntry(p: Index, q: Index) returns (w: Word)
      requires SelfMapped(mem, cr3) && mem[cr3][p].Present()
      ensures w == mem[mem[cr3][p].addr][q]
      ensures p == SELF ==> w == mem[cr3][q]
      ensures p != SELF ==> w == Entry(mem, cr3, p, q)
    {
      WindowReachesEntry(mem, cr3, p);
      w := LoadWindow(WINDOW, p, q, SELF);
    }

    /** kalloc_page_frame; frame 0 reports that there is none left. */
    method NextFrame() returns (f: FrameNo)
      requires Sound()
      modifies this`n, frames.bitmap
      ensures Sound()
      ensures old(n) < FRAMES ==> f == old(n) && n == old(n) + 1
      ensures old(n) == FRAMES ==> f == 0 && n == old(n)
    {
      if n < FRAMES {
        Pmm.AllocTakesNext(frames.Bits(), n);
      } else {
        Pmm.AllocExhausted(frames.Bits());
      }
      var addr := frames.KallocPageFrame();
      f := addr / PAGE;
      if n < FRAMES {
        n := n + 1;
      }
    }

    method NewPageTable(pdi: Index, kernel: bool, readwrite: bool)
      requires Sound() && n < FRAMES && pdi < SELF
      modifies this`mem, this`n, frames.bitmap
      ensures Sound() && n == old(n) + 1
      ensures mem == Put(old(mem), cr3, pdi, Word(old(n), AccessFlags(kernel, readwrite)))[old(n) := ZeroPage()]
    {
      var paddr := NextFrame();
      var flags := PRESENT;
      if !kernel {
        flags := flags.Or(USERMODE);
      }
      if readwrite {
        flags := flags.Or(READWRITE);
      }
      SetPageTableEntry(SELF, pdi, Word(paddr, flags));
      ghost var m := mem;
      for i := 0 to 1024
        invariant Sound() && n == old(n) + 1 && mem[cr3] == m[cr3]
        invariant forall k | 0 <= k < i :: mem[paddr][k] == ZERO
        invariant mem == m[paddr := mem[paddr]]
      {
        SetPageTableEntry(pdi, i, ZERO);
      }
      assert mem[paddr] == ZeroPage();
    }

    method KallocPageFrom(from: Word, i: Index, j: Index, kernel: bool, readwrite: bool) returns (r: Outcome)
      requires Sound() && (from == ZERO || mem[cr3][i].Present() || n < FRAMES)
      modifies this`mem, this`n, frames.bitmap
      ensures (i == SELF || !old(mem)[cr3][i].Present() || old(mem)[cr3][i].addr != cr3) ==> Sound()
      ensures (r, Space()) == KallocPageFromSpec(old(Space()), cr3, from, i, j, AccessFlags(kernel, readwrite))
    {
      if from == ZERO {
        return Panic;
      }
      if i == 0 && j == 0 {
        return Null;
      }
      var table := GetPageTableEntry(SELF, i);
      if !table.Present() {
        NewPageTable(i, kernel, readwrite);
      } else {
        var entry := GetPageTableEntry(i, j);
        if entry.Present() {
          return Null;
        }
      }
      var free := frames.IsFreePage(from.addr * PAGE);
      if free {
        return Panic;
      }
      var flags := PRESENT;
      if readwrite {
        flags := flags.Or(READWRITE);
      }
      if !kernel {
        flags := flags.Or(USERMODE);
      }
      SetPageTableEntry(i, j, Word(from.addr, from.flags.Or(flags)));
      return Mapped;
    }

    method KallocPage(i: Index, j: Index, kernel: bool, readwrite: bool) returns (r: Outcome)
      requires Sound() && (mem[cr3][i].Present() || n != FRAMES - 1)
      modifies this`mem, this`n, frames.bitmap
      ensures (i == SELF || !old(mem)[cr3][i].Present() || old(mem)[cr3][i].addr != cr3) ==> Sound()
      ensures (r, Space()) == KallocPageSpec(old(Space()), cr3, i, j, AccessFlags(kernel, readwrite))
    {
      if i == 0 && j == 0 {
        return Null;
      }
      var f := NextFrame();
      r := KallocPageFrom(Word(f, NONE), i, j, kernel, readwrite);
    }
  }
}
