/**
 Two-level page tables in physical memory, as values (mem/vmm.h, and the 32-bit paging format of
 section 4.3 of the Intel 64 and IA-32 Architectures Software Developer's Manual, volume 3A).

 A word is split the way page_directory_entry in mem/vmm.h splits it: 20 address bits and 12 flag
 bits.  A page is 1024 words; virtual pages are named by directory index and table index.
 */
module Paging {
  import Pmm

  const FRAMES := Pmm.FRAMES
  const KERNEL: nat := 768      // first directory index of the kernel half, 0xC0000000 >> 22
  const SHARED: nat := 1021     // indices KERNEL..SHARED are the same tables in every directory
  const SELF: nat := 1023       // the slot through which a directory maps itself

  type FrameNo = f: nat | f < 0x100000
  type Index = k: nat | k < 1024

  /** The 12 flag bits of an entry: present, read/write, user/supervisor, and the nine others. */
  datatype Flags = Flags(present: bool, readwrite: bool, user: bool, others: nat) {
    /** flags|x, for an x that has none of the nine others. */
    function Or(x: Flags): Flags {
      Flags(present || x.present, readwrite || x.readwrite, user || x.user, others)
    }
  }

  datatype Word = Word(addr: FrameNo, flags: Flags) {
    predicate Present() {
      flags.present
    }
  }

  const NONE := Flags(false, false, false, 0)
  const ZERO := Word(0, NONE)

  type Page = p: seq<Word> | |p| == 1024 witness seq(1024, _ => Word(0, Flags(false, false, false, 0)))
  type Memory = m: seq<Page> | |m| == 0x100000 witness seq(0x100000, _ => seq(1024, _ => Word(0, Flags(false, false, false, 0))))

  function ZeroPage(): Page {
    seq(1024, _ => ZERO)
  }

  function Put(m: Memory, f: FrameNo, k: Index, w: Word): Memory {
    m[f := m[f][k := w]]
  }

  // ---- what the processor does -----------------------------------------------------------------

  predicate Translates(m: Memory, cr3: FrameNo, i: Index, j: Index) {
    m[cr3][i].Present() && m[m[cr3][i].addr][j].Present()
  }

  /** The frame behind virtual page (i, j) under directory `cr3`. */
  function Target(m: Memory, cr3: FrameNo, i: Index, j: Index): FrameNo {
    m[m[cr3][i].addr][j].addr
  }

  /** The last slot of the directory points at the directory. */
  predicate SelfMapped(m: Memory, d: FrameNo) {
    m[d][SELF].Present() && m[d][SELF].addr == d
  }

  /** The window at 0xFFC00000: word q of its page p is entry q of table p, and of the directory
      itself when p is the last slot; it is reachable exactly when that table is present. */
  lemma WindowReachesEntry(m: Memory, cr3: FrameNo, p: Index)
    requires SelfMapped(m, cr3)
    ensures Translates(m, cr3, SELF, p) <==> m[cr3][p].Present()
    ensures Target(m, cr3, SELF, p) == m[cr3][p].addr
    ensures Translates(m, cr3, SELF, SELF) && Target(m, cr3, SELF, SELF) == cr3
  {
  }

  const WINDOW := 0xFFC00000       // PAGE_DIRECTORY, through the slot of the directory itself
  const SRC_WINDOW := 0xFF400000   // through slot 1021
  const DST_WINDOW := 0xFF800000   // through slot 1022

  /** The window that a directory in this slot opens on its tables. */
  predicate IsWindow(window: nat, slot: Index) {
    || (window == WINDOW && slot == SELF)
    || (window == SRC_WINDOW && slot == 1021)
    || (window == DST_WINDOW && slot == 1022)
  }

  /** How the processor splits an address: directory index, table index and word. */
  function DirIndex(addr: nat): Index
    requires addr < 0x1_0000_0000
  {
    addr / 0x400000
  }

  function TableIndex(addr: nat): Index {
    addr / 0x1000 % 1024
  }

  function WordIndex(addr: nat): Index {
    addr % 0x1000 / 4
  }

  /** Element p * 0x400 + q of an array of words at one of the windows is word q of page p there. */
  lemma WindowAddresses(window: nat, slot: Index, p: Index, q: Index)
    requires IsWindow(window, slot)
    ensures var a := window + 4 * (p * 0x400 + q);
            a < 0x1_0000_0000 && DirIndex(a) == slot && TableIndex(a) == p && WordIndex(a) == q
  {
  }

  // ---- the abstract map ------------------------------------------------------------------------

  /** The entry for virtual page (i, j) under directory d; zero when it has no table. */
  function Entry(m: Memory, d: FrameNo, i: Index, j: Index): Word {
    if m[d][i].Present() then m[m[d][i].addr][j] else ZERO
  }

  /** All address spaces: directories `dirs`, all frames in use below `n`. */
  datatype Spaces = Spaces(mem: Memory, n: nat, kernel: FrameNo, dirs: set<FrameNo>)

  ghost predicate HasTable(s: Spaces, d: FrameNo, i: nat) {
    d in s.dirs && i < SELF && s.mem[d][i].Present()
  }

  ghost predicate Directories(s: Spaces) {
    && s.n <= FRAMES && s.kernel in s.dirs
    && (forall d | d in s.dirs :: d < s.n && SelfMapped(s.mem, d))
    && (forall d: FrameNo, i: nat {:trigger s.mem[d][i]} | d in s.dirs && i < SELF :: s.mem[d][i].Present() || s.mem[d][i] == ZERO)
  }

  /** Kernel-half coherence. */
  ghost predicate Coherent(s: Spaces) {
    forall d: FrameNo, i: nat {:trigger s.mem[d][i]} | d in s.dirs && KERNEL <= i < SHARED ::
      s.mem[d][i].Present() && s.mem[d][i] == s.mem[s.kernel][i]
  }

  /** Tables are used frames, are not directories, and only the shared ones have two users. */
  ghost predicate TablesApart(s: Spaces) {
    && (forall d: FrameNo, i: nat | HasTable(s, d, i) :: s.mem[d][i].addr < s.n && s.mem[d][i].addr !in s.dirs)
    && (forall d: FrameNo, i: nat, e: FrameNo, k: nat | HasTable(s, d, i) && HasTable(s, e, k) && s.mem[d][i].addr == s.mem[e][k].addr ::
          i == k && (d == e || KERNEL <= i < SHARED))
  }

  ghost predicate Valid(s: Spaces) {
    Directories(s) && Coherent(s) && TablesApart(s)
  }

  /** A page of the kernel half, once mapped, is the same page in every address space. */
  lemma KernelPagesAgree(s: Spaces, d: FrameNo, e: FrameNo, i: Index, j: Index)
    requires Valid(s) && d in s.dirs && e in s.dirs && KERNEL <= i < SHARED
    ensures Entry(s.mem, d, i, j) == Entry(s.mem, e, i, j)
  {
    SharedTable(s, d, e, i);
  }

  /** Whether a change of page (i, j) made under directory `cur` is a change of (i, j) under d. */
  predicate Sees(cur: FrameNo, d: FrameNo, i: nat) {
    d == cur || KERNEL <= i < SHARED
  }

  lemma SharedTable(s: Spaces, d: FrameNo, e: FrameNo, i: Index)
    requires Coherent(s) && d in s.dirs && e in s.dirs && KERNEL <= i < SHARED
    ensures s.mem[d][i].Present() && s.mem[d][i] == s.mem[e][i]
  {
    assert s.mem[d][i] == s.mem[s.kernel][i];
    assert s.mem[e][i] == s.mem[s.kernel][i];
  }

  /** Overwriting one table entry changes one page, in the spaces that share the table. */
  lemma SetEntry(s: Spaces, s': Spaces, cur: FrameNo, p: Index, q: Index, w: Word)
    requires Valid(s) && HasTable(s, cur, p)
    requires s' == s.(mem := Put(s.mem, s.mem[cur][p].addr, q, w))
    ensures Valid(s')
    ensures forall d: FrameNo, i: nat, j: Index | d in s.dirs && i < SELF ::
              Entry(s'.mem, d, i, j) == if Sees(cur, d, p) && i == p && j == q then w else Entry(s.mem, d, i, j)
  {
    var t := s.mem[cur][p].addr;
    assert forall d | d in s.dirs :: s'.mem[d] == s.mem[d];
    forall d: FrameNo, i: nat, j: Index | d in s.dirs && i < SELF
      ensures Entry(s'.mem, d, i, j) == if Sees(cur, d, p) && i == p && j == q then w else Entry(s.mem, d, i, j)
    {
      if HasTable(s, d, i) && s.mem[d][i].addr == t {
        assert i == p && Sees(cur, d, p);
      }
      if KERNEL <= p < SHARED && i == p {
        SharedTable(s, cur, d, p);
      }
    }
    assert forall d: FrameNo, i: nat :: HasTable(s', d, i) == HasTable(s, d, i);
  }

  /** A new empty table in an unused frame changes no page at all. */
  lemma NewTable(s: Spaces, s': Spaces, cur: FrameNo, p: Index, flags: Flags)
    requires Valid(s) && s.n < FRAMES && cur in s.dirs && p < SELF && !s.mem[cur][p].Present()
    requires flags.present
    requires s' == s.(mem := Put(s.mem, cur, p, Word(s.n, flags))[s.n := ZeroPage()], n := s.n + 1)
    ensures Valid(s')
    ensures forall d: FrameNo, i: nat, j: Index | d in s.dirs && i < SELF :: Entry(s'.mem, d, i, j) == Entry(s.mem, d, i, j)
  {
    if KERNEL <= p < SHARED {
      SharedTable(s, cur, cur, p);
    }
    assert forall d | d in s.dirs && d != cur :: s'.mem[d] == s.mem[d];
    assert forall i: nat | i < 1024 && i != p :: s'.mem[cur][i] == s.mem[cur][i];
    assert s'.mem[cur][p] == Word(s.n, flags);
    forall d: FrameNo, i: nat | HasTable(s', d, i)
      ensures if d == cur && i == p then s'.mem[d][i].addr == s.n else HasTable(s, d, i) && s'.mem[d][i] == s.mem[d][i]
    {
    }
    forall d: FrameNo, i: nat, j: Index | d in s.dirs && i < SELF
      ensures Entry(s'.mem, d, i, j) == Entry(s.mem, d, i, j)
    {
      if HasTable(s, d, i) {
        assert s.mem[d][i].addr < s.n && s.mem[d][i].addr !in s.dirs;
      }
    }
  }

  // ---- page numbers ----------------------------------------------------------------------------

  /** The virtual page number: the address of page (p, q) divided by the page size. */
  function PageNo(p: Index, q: Index): nat {
    p * 1024 + q
  }

  ghost predicate Unmapped(s: Spaces, d: FrameNo, from: nat, to: nat) {
    forall p: Index, q: Index | p < SELF && from <= PageNo(p, q) < to :: !Entry(s.mem, d, p, q).Present()
  }

  ghost predicate MappedPages(s: Spaces, d: FrameNo, from: nat, to: nat) {
    forall p: Index, q: Index | p < SELF && from <= PageNo(p, q) < to :: Entry(s.mem, d, p, q).Present()
  }
}
