/**
 All address spaces over every run of mapping, cloning, switching, storing and releasing directories
 (mem/vmm.c:119-164, 201-251; syscall/syscalls.c:58-83, 235-301): the kernel half stays coherent, and the
 user pages of a process change only by its own stores.
 */
module Isolation {

  import opened Paging
  import opened Vmm
  import opened Cloning
  import opened Fork
  import opened Basics

  // ---- the invariant -----------------------------------------------------------------------------

  ghost predicate UserEntry(s: Spaces, d: FrameNo, i: Index, j: Index) {
    d in s.dirs && i < KERNEL && Entry(s.mem, d, i, j) != ZERO
  }

  /** No user page of any address space is in frame f. */
  ghost predicate NoUserPage(s: Spaces, f: FrameNo) {
    forall d: FrameNo, i: Index, j: Index | UserEntry(s, d, i, j) :: Entry(s.mem, d, i, j).addr != f
  }

  /** A page that may become a directory or a user page: in use, and no directory, table or user page. */
  ghost predicate Spare(s: Spaces, f: FrameNo) {
    Unowned(s, f) && NoUserPage(s, f)
  }

  /** User pages are present, in frames in use, which hold no directory and no table. */
  ghost predicate UserFrames(s: Spaces) {
    forall d: FrameNo, i: Index, j: Index | UserEntry(s, d, i, j) :: FrameOk(s, Entry(s.mem, d, i, j))
  }

  ghost predicate FrameOk(s: Spaces, e: Word) {
    e.Present() && e.addr > 0 && Unowned(s, e.addr)
  }

  /** No two user pages, of one or of two address spaces, share a frame. */
  ghost predicate Exclusive(s: Spaces) {
    forall d: FrameNo, i: Index, j: Index, e: FrameNo, p: Index, q: Index | UserEntry(s, d, i, j) && UserEntry(s, e, p, q) ::
      Entry(s.mem, d, i, j).addr == Entry(s.mem, e, p, q).addr ==> d == e && i == p && j == q
  }

  ghost predicate TempEmpty(s: Spaces) {
    Entry(s.mem, s.kernel, TEMP, 0) == ZERO && Entry(s.mem, s.kernel, TEMP, 1) == ZERO
  }

  ghost predicate KernelHasNoUserHalf(s: Spaces) {
    forall i: Index | i < KERNEL :: s.mem[s.kernel][i] == ZERO
  }

  ghost predicate Tidy(s: Spaces) {
    Valid(s) && KernelHasNoUserHalf(s) && TempEmpty(s) && UserFrames(s) && Exclusive(s)
  }

  /** In tidy address spaces every directory can be cloned into every spare page. */
  lemma TidyClonable(s: Spaces, cr3: FrameNo, src: FrameNo, r: FrameNo)
    requires Tidy(s) && cr3 in s.dirs && src in s.dirs && Spare(s, r)
    ensures Clonable(s, cr3, src, r)
  {
    KernelPagesAgree(s, cr3, s.kernel, TEMP, 0);
    KernelPagesAgree(s, cr3, s.kernel, TEMP, 1);
    SharedTable(s, cr3, s.kernel, TEMP);
    assert HasTable(s, cr3, TEMP);
    var temp := s.mem[cr3][TEMP].addr;
    forall i: nat, j: Index | i < KERNEL && HasTable(s, src, i) && s.mem[s.mem[src][i].addr][j] != ZERO
      ensures var a := s.mem[s.mem[src][i].addr][j].addr; 0 < a < s.n && a != temp && a != r && a !in s.dirs
    {
      assert UserEntry(s, src, i, j);
    }
  }

  // ---- cloning -----------------------------------------------------------------------------------

  /** The tables of s' are tables of s, or in frames that s did not use. */
  ghost predicate TablesFrom(s: Spaces, s': Spaces) {
    forall d: FrameNo, k: nat | HasTable(s', d, k) ::
      s'.mem[d][k].addr >= s.n || exists e: FrameNo :: HasTable(s, e, k) && s.mem[e][k].addr == s'.mem[d][k].addr
  }

  lemma StaysUnowned(s: Spaces, s': Spaces, f: FrameNo)
    requires Unowned(s, f) && TablesFrom(s, s') && s.n <= s'.n && f !in s'.dirs
    ensures Unowned(s', f)
  {
  }

  lemma CloneTables(s: Spaces, s': Spaces, cr3: FrameNo, src: FrameNo, r: FrameNo, copy: bool)
    requires Clonable(s, cr3, src, r) && Cloned(s, s', src, r, copy)
    ensures TablesFrom(s, s')
  {
    forall d: FrameNo, k: nat | HasTable(s', d, k)
      ensures s'.mem[d][k].addr >= s.n || exists e: FrameNo :: HasTable(s, e, k) && s.mem[e][k].addr == s'.mem[d][k].addr
    {
      TableOrigin(s, s', cr3, src, r, copy, d, k);
    }
  }

  /** What a user page of the new address space is. */
  lemma ChildUserPage(s: Spaces, s': Spaces, cr3: FrameNo, src: FrameNo, r: FrameNo, copy: bool, i: Index, j: Index)
    requires Tidy(s) && Clonable(s, cr3, src, r) && Cloned(s, s', src, r, copy) && UserEntry(s', r, i, j)
    ensures copy && src != s.kernel && UserEntry(s, src, i, j)
    ensures var c := Entry(s'.mem, r, i, j).addr;
            c == ChildFrame(s, src, i, j) && s.n <= c < s'.n && Private(s.mem, src, s.kernel, i) && Unowned(s', c)
    ensures FrameOk(s', Entry(s'.mem, r, i, j))
  {
    ChildDirectory(s, s', cr3, src, r, copy, i);
    if copy && src != s.kernel {
      ForkIsolates(s, s', cr3, src, r, i, j);
      var c := ChildFrame(s, src, i, j);
      forall d: FrameNo, k: nat | HasTable(s', d, k)
        ensures s'.mem[d][k].addr != c
      {
        ChildFrameIsPage(s, s', cr3, src, r, i, j, d, k);
      }
    }
  }

  lemma CloneUserFrame(s: Spaces, s': Spaces, cr3: FrameNo, src: FrameNo, r: FrameNo, copy: bool, d: FrameNo,
                       i: Index, j: Index)
    requires Tidy(s) && Spare(s, r) && Clonable(s, cr3, src, r) && Cloned(s, s', src, r, copy) && TablesFrom(s, s')
    requires UserEntry(s', d, i, j)
    ensures FrameOk(s', Entry(s'.mem, d, i, j))
  {
    if d == r {
      ChildUserPage(s, s', cr3, src, r, copy, i, j);
    } else {
      OldUserFrame(s, s', cr3, src, r, copy, d, i, j);
    }
  }

  lemma OldUserFrame(s: Spaces, s': Spaces, cr3: FrameNo, src: FrameNo, r: FrameNo, copy: bool, d: FrameNo, i: Index,
                     j: Index)
    requires Tidy(s) && Spare(s, r) && Clonable(s, cr3, src, r) && Cloned(s, s', src, r, copy) && TablesFrom(s, s')
    requires UserEntry(s', d, i, j) && d != r
    ensures FrameOk(s', Entry(s'.mem, d, i, j))
  {
    OthersKeepTheirPages(s, s', cr3, src, r, copy);
    OldFrameStays(s, s', r, d, i, j);
  }

  lemma OldFrameStays(s: Spaces, s': Spaces, r: FrameNo, d: FrameNo, i: Index, j: Index)
    requires UserFrames(s) && NoUserPage(s, r) && SamePages(s, s') && TablesFrom(s, s') && s.n <= s'.n && s'.dirs == s.dirs + {r}
    requires UserEntry(s', d, i, j) && d != r
    ensures FrameOk(s', Entry(s'.mem, d, i, j))
  {
    assert UserEntry(s, d, i, j);
    StaysUnowned(s, s', Entry(s.mem, d, i, j).addr);
  }

  lemma CloneExclusive(s: Spaces, s': Spaces, cr3: FrameNo, src: FrameNo, r: FrameNo, copy: bool,
                       d: FrameNo, i: Index, j: Index, e: FrameNo, p: Index, q: Index)
    requires Tidy(s) && Spare(s, r) && Clonable(s, cr3, src, r) && Cloned(s, s', src, r, copy)
    requires UserEntry(s', d, i, j) && UserEntry(s', e, p, q)
    requires Entry(s'.mem, d, i, j).addr == Entry(s'.mem, e, p, q).addr
    ensures d == e && i == p && j == q
  {
    OthersKeepTheirPages(s, s', cr3, src, r, copy);
    if d == r {
      ChildUserPage(s, s', cr3, src, r, copy, i, j);
    } else {
      assert UserEntry(s, d, i, j);
    }
    if e == r {
      ChildUserPage(s, s', cr3, src, r, copy, p, q);
    } else {
      assert UserEntry(s, e, p, q);
    }
    if d == r && e == r && (i, j) != (p, q) {
      ChildFramesDistinct(s, src, i, j, p, q);
    }
  }

  lemma CloneKeepsTidy(s: Spaces, s': Spaces, cr3: FrameNo, src: FrameNo, r: FrameNo, copy: bool)
    requires Tidy(s) && Spare(s, r) && Clonable(s, cr3, src, r) && Cloned(s, s', src, r, copy)
    ensures Tidy(s')
  {
    CloneKeepsValid(s, s', cr3, src, r, copy);
    CloneTables(s, s', cr3, src, r, copy);
    OthersKeepTheirPages(s, s', cr3, src, r, copy);
    forall d: FrameNo, i: Index, j: Index | UserEntry(s', d, i, j)
      ensures FrameOk(s', Entry(s'.mem, d, i, j))
    {
      CloneUserFrame(s, s', cr3, src, r, copy, d, i, j);
    }
    forall d: FrameNo, i: Index, j: Index, e: FrameNo, p: Index, q: Index
      | UserEntry(s', d, i, j) && UserEntry(s', e, p, q) && Entry(s'.mem, d, i, j).addr == Entry(s'.mem, e, p, q).addr
      ensures d == e && i == p && j == q
    {
      CloneExclusive(s, s', cr3, src, r, copy, d, i, j, e, p, q);
    }
  }

  // ---- mapping -----------------------------------------------------------------------------------

  lemma SameKeepsTidy(s: Spaces, s': Spaces)
    requires Tidy(s) && Kept(s, s') && SamePages(s, s') && TablesFrom(s, s') && s'.mem[s.kernel][..KERNEL] == s.mem[s.kernel][..KERNEL]
    ensures Tidy(s')
  {
    forall i: Index | i < KERNEL
      ensures s'.mem[s.kernel][i] == ZERO
    {
      assert s'.mem[s.kernel][..KERNEL][i] == s.mem[s.kernel][..KERNEL][i];
    }
    SameUserFrames(s, s');
    SameExclusive(s, s');
  }

  lemma SameUserFrames(s: Spaces, s': Spaces)
    requires Tidy(s) && Kept(s, s') && SamePages(s, s') && TablesFrom(s, s')
    ensures UserFrames(s')
  {
    forall d: FrameNo, i: Index, j: Index | UserEntry(s', d, i, j)
      ensures FrameOk(s', Entry(s'.mem, d, i, j))
    {
      assert UserEntry(s, d, i, j);
      StaysUnowned(s, s', Entry(s.mem, d, i, j).addr);
    }
  }

  lemma SameExclusive(s: Spaces, s': Spaces)
    requires Tidy(s) && Kept(s, s') && SamePages(s, s')
    ensures Exclusive(s')
  {
    forall d: FrameNo, i: Index, j: Index | UserEntry(s', d, i, j)
      ensures UserEntry(s, d, i, j) && Entry(s'.mem, d, i, j) == Entry(s.mem, d, i, j)
    {
    }
  }

  /** The page that w maps at (i, j) is a new user page, when it is one at all. */
  ghost predicate NewUserPage(s: Spaces, s': Spaces, i: Index, w: Word) {
    i < KERNEL ==> FrameOk(s', w) && NoUserPage(s, w.addr)
  }

  lemma InsertUserFrames(s: Spaces, s': Spaces, cur: FrameNo, i: Index, j: Index, w: Word)
    requires Tidy(s) && Kept(s, s') && Inserted(s, s', cur, i, j, w) && TablesFrom(s, s') && NewUserPage(s, s', i, w)
    ensures UserFrames(s')
  {
    forall d: FrameNo, p: Index, q: Index | UserEntry(s', d, p, q)
      ensures FrameOk(s', Entry(s'.mem, d, p, q))
    {
      if !(Sees(cur, d, i) && p == i && q == j) {
        assert UserEntry(s, d, p, q);
        StaysUnowned(s, s', Entry(s.mem, d, p, q).addr);
      }
    }
  }

  lemma InsertExclusive(s: Spaces, s': Spaces, cur: FrameNo, i: Index, j: Index, w: Word)
    requires Tidy(s) && Kept(s, s') && Inserted(s, s', cur, i, j, w) && NewUserPage(s, s', i, w)
    ensures Exclusive(s')
  {
    forall d: FrameNo, p: Index, q: Index | UserEntry(s', d, p, q)
      ensures if d == cur && p == i && q == j then Entry(s'.mem, d, p, q) == w
              else UserEntry(s, d, p, q) && Entry(s'.mem, d, p, q) == Entry(s.mem, d, p, q)
    {
    }
  }

  lemma InsertKeepsTidy(s: Spaces, s': Spaces, cur: FrameNo, i: Index, j: Index, w: Word)
    requires Tidy(s) && Kept(s, s') && Inserted(s, s', cur, i, j, w) && TablesFrom(s, s') && NewUserPage(s, s', i, w)
    requires KernelHasNoUserHalf(s') && (i, j) != (TEMP, 0) && (i, j) != (TEMP, 1)
    ensures Tidy(s')
  {
    InsertUserFrames(s, s', cur, i, j, w);
    InsertExclusive(s, s', cur, i, j, w);
  }

  /** Of the directories only entry i of cur may have changed, from absent to a table in a new frame; frames
      that are neither directories nor tables are the same. */
  ghost predicate OneTable(s: Spaces, s': Spaces, cur: FrameNo, i: Index) {
    && s.n <= s'.n && s'.dirs == s.dirs && s'.kernel == s.kernel
    && (forall d: FrameNo, k: nat {:trigger s'.mem[d][k]} | d in s.dirs && k < 1024 ::
          s'.mem[d][k] == s.mem[d][k] || (d == cur && k == i && !s.mem[d][k].Present() && s'.mem[d][k].addr >= s.n))
    && (forall f: FrameNo | Unowned(s, f) :: s'.mem[f] == s.mem[f])
  }

  lemma OneTableFrom(s: Spaces, s': Spaces, cur: FrameNo, i: Index)
    requires OneTable(s, s', cur, i)
    ensures TablesFrom(s, s')
  {
    forall d: FrameNo, k: nat | HasTable(s', d, k)
      ensures s'.mem[d][k].addr >= s.n || (HasTable(s, d, k) && s.mem[d][k].addr == s'.mem[d][k].addr)
    {
      assert s'.mem[d][k] == s.mem[d][k] || s'.mem[d][k].addr >= s.n;
    }
  }

  lemma WithTableMemory(s: Spaces, cur: FrameNo, i: Index, access: Flags)
    requires Valid(s) && cur in s.dirs && i < SELF && (s.mem[cur][i].Present() || s.n < FRAMES)
    ensures OneTable(s, WithTable(s, cur, i, access), cur, i)
  {
  }

  lemma TableWritten(s: Spaces, t: Spaces, cur: FrameNo, i: Index, j: Index, w: Word)
    requires Valid(s) && OneTable(s, t, cur, i) && Valid(t) && HasTable(t, cur, i)
    ensures OneTable(s, t.(mem := Put(t.mem, t.mem[cur][i].addr, j, w)), cur, i)
  {
    var a := t.mem[cur][i].addr;
    var s' := t.(mem := Put(t.mem, a, j, w));
    assert forall d | d in t.dirs :: s'.mem[d] == t.mem[d];
    forall f: FrameNo | Unowned(s, f)
      ensures s'.mem[f] == s.mem[f]
    {
      assert t.mem[cur][i] == s.mem[cur][i] || t.mem[cur][i].addr >= s.n;
      assert s.mem[cur][i] == t.mem[cur][i] ==> HasTable(s, cur, i);
    }
  }

  lemma KallocFromMemory(s: Spaces, cur: FrameNo, from: Word, i: Index, j: Index, access: Flags, s': Spaces)
    requires Valid(s) && cur in s.dirs && i < SELF && access.present && access.others == 0
    requires s.mem[cur][i].Present() || s.n < FRAMES
    requires s' == KallocPageFromSpec(s, cur, from, i, j, access).1
    ensures OneTable(s, s', cur, i)
  {
    var t := WithTable(s, cur, i, access);
    if s' != s {
      WithTableMemory(s, cur, i, access);
    }
    if s' != s && s' != t {
      if !s.mem[cur][i].Present() {
        NewTable(s, t, cur, i, access);
      }
      TableWritten(s, t, cur, i, j, Word(from.addr, from.flags.Or(access)));
    }
  }

  /** Every page that was present in d still is, and the same. */
  ghost predicate PagesStay(s: Spaces, s': Spaces, d: FrameNo) {
    && d in s'.dirs
    && forall p: Index, q: Index | p < SELF && Entry(s.mem, d, p, q).Present() ::
         Entry(s'.mem, d, p, q) == Entry(s.mem, d, p, q)
  }

  /** And so are the contents of its user pages. */
  ghost predicate ContentsStay(s: Spaces, s': Spaces, d: FrameNo) {
    forall p: Index, q: Index | p < KERNEL && Entry(s.mem, d, p, q).Present() ::
      s'.mem[Entry(s.mem, d, p, q).addr] == s.mem[Entry(s.mem, d, p, q).addr]
  }

  /** Page (i, j) may be mapped under cur: not one of the temporary pages, and no user page of the kernel. */
  ghost predicate Mappable(s: Spaces, cur: FrameNo, i: Index, j: Index, access: Flags) {
    && cur in s.dirs && i < SELF && (i, j) != (TEMP, 0) && (i, j) != (TEMP, 1) && (i < KERNEL ==> cur != s.kernel)
    && access.present && access.others == 0
  }

  lemma OneTableContents(s: Spaces, s': Spaces, cur: FrameNo, i: Index, d: FrameNo)
    requires Tidy(s) && OneTable(s, s', cur, i) && d in s.dirs
    ensures ContentsStay(s, s', d)
  {
    forall p: Index, q: Index | p < KERNEL && Entry(s.mem, d, p, q).Present()
      ensures s'.mem[Entry(s.mem, d, p, q).addr] == s.mem[Entry(s.mem, d, p, q).addr]
    {
      assert UserEntry(s, d, p, q);
    }
  }

  lemma OneTableKernel(s: Spaces, s': Spaces, cur: FrameNo, i: Index)
    requires Tidy(s) && OneTable(s, s', cur, i) && (i < KERNEL ==> cur != s.kernel)
    ensures KernelHasNoUserHalf(s') && s'.mem[s.kernel][..KERNEL] == s.mem[s.kernel][..KERNEL]
  {
    forall k: Index | k < KERNEL
      ensures s'.mem[s.kernel][k] == s.mem[s.kernel][k]
    {
    }
  }

  lemma InsertPagesStay(s: Spaces, s': Spaces, cur: FrameNo, i: Index, j: Index, w: Word, d: FrameNo)
    requires Valid(s) && cur in s.dirs && d in s.dirs && !Entry(s.mem, cur, i, j).Present()
    requires Kept(s, s') && Inserted(s, s', cur, i, j, w)
    ensures PagesStay(s, s', d)
  {
    if Sees(cur, d, i) && d != cur {
      KernelPagesAgree(s, cur, d, i, j);
    }
  }

  /** The address spaces stay tidy, and d keeps its present pages and the contents of its user pages. */
  ghost predicate Undisturbed(s: Spaces, s': Spaces, d: FrameNo) {
    Tidy(s') && s'.dirs == s.dirs && s'.kernel == s.kernel && PagesStay(s, s', d) && ContentsStay(s, s', d)
  }

  /** kalloc_page_from disturbs no address space; a frame that becomes a user page must be spare. */
  lemma KallocFromKeeps(s: Spaces, cur: FrameNo, from: Word, i: Index, j: Index, access: Flags, d: FrameNo, s': Spaces)
    requires Tidy(s) && Mappable(s, cur, i, j, access) && d in s.dirs
    requires s.mem[cur][i].Present() || s.n < FRAMES
    requires i < KERNEL ==> from.addr > 0 && Spare(s, from.addr)
    requires s' == KallocPageFromSpec(s, cur, from, i, j, access).1
    ensures Undisturbed(s, s', d)
  {
    KallocPageFromInserts(s, cur, from, i, j, access);
    KallocFromMemory(s, cur, from, i, j, access, s');
    var mapped := KallocPageFromSpec(s, cur, from, i, j, access).0 == Mapped;
    OneTableKeeps(s, s', cur, i, j, Word(from.addr, from.flags.Or(access)), mapped, d);
  }

  lemma OneTableKeeps(s: Spaces, s': Spaces, cur: FrameNo, i: Index, j: Index, w: Word, mapped: bool, d: FrameNo)
    requires Tidy(s) && cur in s.dirs && d in s.dirs && Kept(s, s') && OneTable(s, s', cur, i)
    requires (i, j) != (TEMP, 0) && (i, j) != (TEMP, 1) && (i < KERNEL ==> cur != s.kernel)
    requires if mapped then Inserted(s, s', cur, i, j, w) && !Entry(s.mem, cur, i, j).Present() else SamePages(s, s')
    requires i < KERNEL ==> w.Present() && w.addr > 0 && Spare(s, w.addr)
    ensures Undisturbed(s, s', d)
  {
    OneTableFrom(s, s', cur, i);
    OneTableContents(s, s', cur, i, d);
    OneTableKernel(s, s', cur, i);
    if mapped {
      if i < KERNEL {
        StaysUnowned(s, s', w.addr);
      }
      InsertKeepsTidy(s, s', cur, i, j, w);
      InsertPagesStay(s, s', cur, i, j, w, d);
    } else {
      SameKeepsTidy(s, s');
    }
  }

  lemma OneMoreTidy(s: Spaces)
    requires Tidy(s) && s.n < FRAMES
    ensures Tidy(s.(n := s.n + 1)) && s.n > 0 && Spare(s.(n := s.n + 1), s.n)
  {
    var t := s.(n := s.n + 1);
    OneMoreFrame(s, t);
    assert forall d: FrameNo, k: nat :: HasTable(t, d, k) == HasTable(s, d, k);
    forall d: FrameNo, i: Index, j: Index | UserEntry(t, d, i, j)
      ensures UserEntry(s, d, i, j) && Unowned(t, Entry(t.mem, d, i, j).addr) && Entry(t.mem, d, i, j).addr != s.n
    {
      assert UserEntry(s, d, i, j);
    }
  }

  /** kalloc_page: the same, for a frame that was free. */
  lemma KallocKeeps(s: Spaces, cur: FrameNo, i: Index, j: Index, access: Flags, d: FrameNo, s': Spaces)
    requires Tidy(s) && Mappable(s, cur, i, j, access) && d in s.dirs
    requires s.mem[cur][i].Present() || s.n != FRAMES - 1
    requires s' == KallocPageSpec(s, cur, i, j, access).1
    ensures Undisturbed(s, s', d)
  {
    if s' != s {
      var t := s.(n := s.n + 1);
      OneMoreTidy(s);
      KallocFromKeeps(t, cur, Word(s.n, NONE), i, j, access, d, s');
      SameMemoryStays(s, t, s', d);
    }
  }

  /** A spare frame stays spare, unless it becomes a user page. */
  lemma KallocFromSpare(s: Spaces, cur: FrameNo, from: Word, i: Index, j: Index, access: Flags, s': Spaces, f: FrameNo)
    requires Tidy(s) && Mappable(s, cur, i, j, access) && (s.mem[cur][i].Present() || s.n < FRAMES)
    requires s' == KallocPageFromSpec(s, cur, from, i, j, access).1
    requires Spare(s, f) && (i >= KERNEL || f != from.addr)
    ensures Spare(s', f)
  {
    KallocPageFromInserts(s, cur, from, i, j, access);
    KallocFromMemory(s, cur, from, i, j, access, s');
    OneTableFrom(s, s', cur, i);
    StaysUnowned(s, s', f);
    forall d: FrameNo, p: Index, q: Index | UserEntry(s', d, p, q)
      ensures Entry(s'.mem, d, p, q).addr != f
    {
      assert Entry(s'.mem, d, p, q) == Entry(s.mem, d, p, q) ==> UserEntry(s, d, p, q);
    }
  }

  lemma KallocSpare(s: Spaces, cur: FrameNo, i: Index, j: Index, access: Flags, s': Spaces, f: FrameNo)
    requires Tidy(s) && Mappable(s, cur, i, j, access) && s.n < FRAMES && (s.mem[cur][i].Present() || s.n != FRAMES - 1)
    requires s' == KallocPageSpec(s, cur, i, j, access).1
    requires Spare(s, f) || (f == s.n && i >= KERNEL)
    ensures Spare(s', f)
  {
    var t := s.(n := s.n + 1);
    OneMoreTidy(s);
    if i == 0 && j == 0 {
      return;
    }
    if f != s.n {
      OneMoreSpare(s, f);
    }
    KallocFromSpare(t, cur, Word(s.n, NONE), i, j, access, s', f);
  }

  lemma OneMoreSpare(s: Spaces, f: FrameNo)
    requires Spare(s, f)
    ensures Spare(s.(n := s.n + 1), f)
  {
    var t := s.(n := s.n + 1);
    assert forall d: FrameNo, k: nat :: HasTable(t, d, k) ==> HasTable(s, d, k);
    assert forall d: FrameNo, i: Index, j: Index :: UserEntry(t, d, i, j) ==> UserEntry(s, d, i, j);
  }

  lemma SameMemoryStays(s: Spaces, t: Spaces, s': Spaces, d: FrameNo)
    requires t.mem == s.mem && PagesStay(t, s', d) && ContentsStay(t, s', d)
    ensures PagesStay(s, s', d) && ContentsStay(s, s', d)
  {
  }

  /** Cloning changes no frame in use but the new directory. */
  lemma CloneKeepsContents(s: Spaces, s': Spaces, cr3: FrameNo, src: FrameNo, r: FrameNo, copy: bool, d: FrameNo)
    requires Tidy(s) && Spare(s, r) && Clonable(s, cr3, src, r) && Cloned(s, s', src, r, copy) && d in s.dirs
    ensures PagesStay(s, s', d) && ContentsStay(s, s', d)
  {
    OthersKeepTheirPages(s, s', cr3, src, r, copy);
    forall p: Index, q: Index | p < KERNEL && Entry(s.mem, d, p, q).Present()
      ensures s'.mem[Entry(s.mem, d, p, q).addr] == s.mem[Entry(s.mem, d, p, q).addr]
    {
      assert UserEntry(s, d, p, q);
    }
  }

  // ---- storing and releasing ---------------------------------------------------------------------

  function Stored(s: Spaces, f: FrameNo, k: Index, w: Word): Spaces {
    s.(mem := Put(s.mem, f, k, w))
  }

  /** A store in a frame that is no directory and no table changes no mapping. */
  lemma StoreKeepsPages(s: Spaces, f: FrameNo, k: Index, w: Word)
    requires Valid(s) && Unowned(s, f)
    ensures Valid(Stored(s, f, k, w)) && SamePages(s, Stored(s, f, k, w))
    ensures forall d: FrameNo, i: nat :: HasTable(Stored(s, f, k, w), d, i) == HasTable(s, d, i)
    ensures forall d: FrameNo | d in s.dirs :: Stored(s, f, k, w).mem[d] == s.mem[d]
  {
    var s' := Stored(s, f, k, w);
    assert forall d: FrameNo | d in s.dirs :: s'.mem[d] == s.mem[d];
    assert forall d: FrameNo, i: nat :: HasTable(s', d, i) == HasTable(s, d, i);
    forall d: FrameNo, p: Index, q: Index | d in s.dirs && p < SELF
      ensures Entry(s'.mem, d, p, q) == Entry(s.mem, d, p, q)
    {
      assert s.mem[d][p].Present() ==> HasTable(s, d, p);
    }
  }

  lemma StoreKeepsTidy(s: Spaces, f: FrameNo, k: Index, w: Word)
    requires Tidy(s) && Unowned(s, f)
    ensures Tidy(Stored(s, f, k, w))
  {
    StoreKeepsPages(s, f, k, w);
    var s' := Stored(s, f, k, w);
    forall d: FrameNo, k: nat | HasTable(s', d, k)
      ensures HasTable(s, d, k) && s.mem[d][k].addr == s'.mem[d][k].addr
    {
    }
    SameKeepsTidy(s, s');
  }

  lemma ReleaseKeepsTidy(s: Spaces, d: FrameNo)
    requires Tidy(s) && d != s.kernel
    ensures Tidy(s.(dirs := s.dirs - {d}))
  {
    var s' := s.(dirs := s.dirs - {d});
    assert forall e: FrameNo, k: nat :: HasTable(s', e, k) ==> HasTable(s, e, k);
    forall e: FrameNo, i: Index, j: Index | UserEntry(s', e, i, j)
      ensures UserEntry(s, e, i, j) && Entry(s'.mem, e, i, j).addr > 0 && Unowned(s', Entry(s'.mem, e, i, j).addr)
    {
      assert UserEntry(s, e, i, j);
    }
  }

  // ---- mapping many pages ------------------------------------------------------------------------

  /** Pages v, ..., v+k-1 may be mapped under cur: user pages of a process, or pages of the kernel half that
      are not temporary ones. */
  ghost predicate Range(s: Spaces, cur: FrameNo, v: nat, k: nat) {
    cur in s.dirs && if v < KERNEL * 1024 then cur != s.kernel && v + k <= KERNEL * 1024 else v + k <= TEMP * 1024
  }

  lemma RangePage(s: Spaces, cur: FrameNo, v: nat, k: nat, u: nat, access: Flags)
    requires Range(s, cur, v, k) && v <= u < v + k && access.present && access.others == 0
    ensures Mappable(s, cur, u / 1024, u % 1024, access) && (u / 1024 >= KERNEL <==> v >= KERNEL * 1024)
  {
  }

  /** What a run of calls does to the address spaces: all of them are undisturbed, and spare frames stay spare
      unless they are among the frames given. */
  ghost predicate Gentle(s: Spaces, t: Spaces, frames: seq<FrameNo>) {
    && Tidy(t) && s.n <= t.n && t.dirs == s.dirs && t.kernel == s.kernel
    && (forall d | d in s.dirs :: PagesStay(s, t, d) && ContentsStay(s, t, d))
    && (forall f: FrameNo | Spare(s, f) && f !in frames :: Spare(t, f))
  }

  lemma GentleTrans(s: Spaces, m: Spaces, t: Spaces, a: seq<FrameNo>, b: seq<FrameNo>, c: seq<FrameNo>)
    requires Gentle(s, m, a) && Gentle(m, t, b) && (forall f | f in a :: f in c) && (forall f | f in b :: f in c)
    ensures Gentle(s, t, c)
  {
    forall d | d in s.dirs
      ensures PagesStay(s, t, d) && ContentsStay(s, t, d)
    {
      StayTrans(s, m, t, d);
    }
  }

  /** The frame of the new page, when it is one of the kernel half, is spare. */
  lemma MapsPageGentle(s: Spaces, t: Spaces, cur: FrameNo, v: nat, k: nat, u: nat, access: Flags)
    requires Tidy(s) && Range(s, cur, v, k) && v <= u < v + k && access.present && access.others == 0
    requires MapsPage(s, t, cur, u, None, access)
    ensures Gentle(s, t, []) && (v >= KERNEL * 1024 ==> Spare(t, s.n))
  {
    var i, j := u / 1024, u % 1024;
    RangePage(s, cur, v, k, u, access);
    KallocPageInserts(s, cur, i, j, access);
    forall d | d in s.dirs
      ensures Undisturbed(s, t, d)
    {
      KallocKeeps(s, cur, i, j, access, d, t);
    }
    forall f: FrameNo | Spare(s, f) || (f == s.n && i >= KERNEL)
      ensures Spare(t, f)
    {
      KallocSpare(s, cur, i, j, access, t, f);
    }
  }

  lemma MapsFromGentle(s: Spaces, t: Spaces, cur: FrameNo, v: nat, k: nat, u: nat, from: FrameNo, access: Flags)
    requires Tidy(s) && Range(s, cur, v, k) && v <= u < v + k && access.present && access.others == 0
    requires MapsPage(s, t, cur, u, Some(from), access) && Spare(s, from)
    ensures Gentle(s, t, [from])
  {
    var i, j, w := u / 1024, u % 1024, Word(from, NONE);
    RangePage(s, cur, v, k, u, access);
    KallocPageFromInserts(s, cur, w, i, j, access);
    forall d | d in s.dirs
      ensures Undisturbed(s, t, d)
    {
      KallocFromKeeps(s, cur, w, i, j, access, d, t);
    }
    forall f: FrameNo | Spare(s, f) && f !in [from]
      ensures Spare(t, f)
    {
      KallocFromSpare(s, cur, w, i, j, access, t, f);
    }
  }

  /** The frames for a run of calls are spare and different. */
  ghost predicate Given(s: Spaces, frames: seq<FrameNo>) {
    && (forall k | 0 <= k < |frames| :: Spare(s, frames[k]))
    && (forall i, j | 0 <= i < j < |frames| :: frames[i] != frames[j])
  }

  /** The frames that the first k calls of a run take. */
  function Taken(frames: seq<FrameNo>, k: nat): seq<FrameNo> {
    if k < |frames| then frames[..k] else frames
  }

  lemma TakenNext(frames: seq<FrameNo>, k: nat)
    ensures forall f | f in Taken(frames, k) :: f in Taken(frames, k + 1)
    ensures k < |frames| ==> frames[k] in Taken(frames, k + 1)
  {
    assert k < |frames| ==> Taken(frames, k + 1)[k] == frames[k];
  }

  lemma GentleNext(s: Spaces, m: Spaces, t: Spaces, cur: FrameNo, v: nat, n: nat, frames: seq<FrameNo>,
                   access: Flags, k: nat)
    requires Gentle(s, m, Taken(frames, k)) && MapsPage(m, t, cur, v + k, FrameAt(frames, k), access) && k < n
    requires Range(s, cur, v, n) && Given(s, frames) && access.present && access.others == 0
    ensures Gentle(s, t, Taken(frames, k + 1))
  {
    TakenNext(frames, k);
    if k < |frames| {
      assert frames[k] !in Taken(frames, k);
      MapsFromGentle(m, t, cur, v, n, v + k, frames[k], access);
      GentleTrans(s, m, t, Taken(frames, k), [frames[k]], Taken(frames, k + 1));
    } else {
      MapsPageGentle(m, t, cur, v, n, v + k, access);
      GentleTrans(s, m, t, Taken(frames, k), [], Taken(frames, k + 1));
    }
  }

  lemma {:induction false} MapRunGentle(ss: seq<Spaces>, cur: FrameNo, v: nat, frames: seq<FrameNo>, access: Flags, k: nat)
    requires MapRun(ss, cur, v, frames, access) && k < |ss| && access.present && access.others == 0
    requires Tidy(ss[0]) && Range(ss[0], cur, v, |ss| - 1) && Given(ss[0], frames)
    ensures Gentle(ss[0], ss[k], Taken(frames, k))
    decreases k
  {
    if k > 0 {
      MapRunGentle(ss, cur, v, frames, access, k - 1);
      assert MapStep(ss, cur, v, frames, access, k - 1);
      GentleNext(ss[0], ss[k - 1], ss[k], cur, v, |ss| - 1, frames, access, k - 1);
    }
  }

  /** Mapping a run of pages, of a process or of the kernel, disturbs no address space. */
  lemma MapsRunGentle(s: Spaces, t: Spaces, cur: FrameNo, v: nat, k: nat, frames: seq<FrameNo>, access: Flags)
    requires Tidy(s) && Range(s, cur, v, k) && Given(s, frames) && access.present && access.others == 0
    requires MapsRun(s, t, cur, v, k, frames, access) && |frames| <= k
    ensures Gentle(s, t, frames)
  {
    var ss :| MapRun(ss, cur, v, frames, access) && |ss| == k + 1 && ss[0] == s && ss[k] == t;
    MapRunGentle(ss, cur, v, frames, access, k);
  }

  // ---- every run ---------------------------------------------------------------------------------

  /** All address spaces, and the directory in cr3. */
  datatype World = World(s: Spaces, cur: FrameNo)

  ghost predicate Good(w: World) {
    Tidy(w.s) && w.cur in w.s.dirs
  }

  datatype Action =
    | KallocPage(i: Index, j: Index, access: Flags)
    | KallocPageFrom(from: Word, i: Index, j: Index, access: Flags)
    | Clone(src: FrameNo, r: FrameNo, copy: bool)
    | ChangePdir(d: FrameNo)
    | Store(i: Index, j: Index, k: Index, v: Word)
    | ReleasePdir(d: FrameNo)

  /** What each operation does, by the contracts of the methods.  Stores in the kernel half go to the
      kernel's own data; a process whose directory is released runs no more. */
  ghost predicate Step(w: World, a: Action, w': World) {
    match a
    case KallocPage(i, j, access) =>
      && Mappable(w.s, w.cur, i, j, access) && w.s.n <= FRAMES && (w.s.mem[w.cur][i].Present() || w.s.n != FRAMES - 1)
      && w' == World(KallocPageSpec(w.s, w.cur, i, j, access).1, w.cur)
    case KallocPageFrom(from, i, j, access) =>
      && Mappable(w.s, w.cur, i, j, access) && (w.s.mem[w.cur][i].Present() || w.s.n < FRAMES)
      && (i < KERNEL ==> from.addr > 0 && Spare(w.s, from.addr))
      && w' == World(KallocPageFromSpec(w.s, w.cur, from, i, j, access).1, w.cur)
    case Clone(src, r, copy) =>
      && src in w.s.dirs && Spare(w.s, r) && w'.cur == w.cur && Cloned(w.s, w'.s, src, r, copy)
    case ChangePdir(d) =>
      d in w.s.dirs && w' == World(w.s, d)
    case Store(i, j, k, v) =>
      var e := Entry(w.s.mem, w.cur, i, j);
      && i < SHARED && e.Present() && (i >= KERNEL ==> Spare(w.s, e.addr))
      && w' == World(Stored(w.s, e.addr, k, v), w.cur)
    case ReleasePdir(d) =>
      && d in w.s.dirs && d != w.s.kernel && w'.s == w.s.(dirs := w.s.dirs - {d})
      && w'.cur in w'.s.dirs && (w.cur != d ==> w'.cur == w.cur)
  }

  lemma StoreKeeps(s: Spaces, cur: FrameNo, i: Index, j: Index, k: Index, v: Word, d: FrameNo)
    requires Tidy(s) && cur in s.dirs && d in s.dirs && Entry(s.mem, cur, i, j).Present()
    requires i < KERNEL || Spare(s, Entry(s.mem, cur, i, j).addr)
    ensures var s' := Stored(s, Entry(s.mem, cur, i, j).addr, k, v);
            Tidy(s') && PagesStay(s, s', d) && (cur != d ==> ContentsStay(s, s', d))
  {
    var f := Entry(s.mem, cur, i, j).addr;
    if i < KERNEL {
      assert UserEntry(s, cur, i, j);
    }
    StoreKeepsTidy(s, f, k, v);
    StoreKeepsPages(s, f, k, v);
    forall p: Index, q: Index | p < KERNEL && Entry(s.mem, d, p, q).Present() && cur != d
      ensures Entry(s.mem, d, p, q).addr != f
    {
      assert UserEntry(s, d, p, q);
    }
  }

  lemma StepKeeps(w: World, a: Action, w': World, d: FrameNo)
    requires Good(w) && Step(w, a, w') && d in w.s.dirs && a != ReleasePdir(d)
    ensures Good(w') && w'.s.kernel == w.s.kernel && PagesStay(w.s, w'.s, d)
    ensures !(a.Store? && w.cur == d) ==> ContentsStay(w.s, w'.s, d)
  {
    match a
    case KallocPage(i, j, access) => KallocKeeps(w.s, w.cur, i, j, access, d, w'.s);
    case KallocPageFrom(from, i, j, access) => KallocFromKeeps(w.s, w.cur, from, i, j, access, d, w'.s);
    case Clone(src, r, copy) =>
      TidyClonable(w.s, w.cur, src, r);
      CloneKeepsTidy(w.s, w'.s, w.cur, src, r, copy);
      CloneKeepsContents(w.s, w'.s, w.cur, src, r, copy, d);
    case ChangePdir(e) =>
    case Store(i, j, k, v) => StoreKeeps(w.s, w.cur, i, j, k, v, d);
    case ReleasePdir(e) => ReleaseKeepsTidy(w.s, e);
  }

  ghost predicate Run(ws: seq<World>, acts: seq<Action>) {
    && |ws| == |acts| + 1 && Good(ws[0])
    && forall k: nat | k < |acts| :: StepAt(ws, acts, k)
  }

  ghost predicate StepAt(ws: seq<World>, acts: seq<Action>, k: nat)
    requires k < |acts| && |ws| == |acts| + 1
  {
    Step(ws[k], acts[k], ws[k + 1])
  }

  /** Directory d is not released between steps b and k. */
  ghost predicate Alive(acts: seq<Action>, d: FrameNo, b: nat, k: nat) {
    k <= |acts| && forall m | b <= m < k :: acts[m] != ReleasePdir(d)
  }

  /** No process stores under directory d between steps b and k. */
  ghost predicate Quiet(ws: seq<World>, acts: seq<Action>, d: FrameNo, b: nat, k: nat) {
    k <= |acts| < |ws| && forall m | b <= m < k :: !(acts[m].Store? && ws[m].cur == d)
  }

  /** Every reachable state is good. */
  lemma {:induction false} RunIsGood(ws: seq<World>, acts: seq<Action>, k: nat)
    requires Run(ws, acts) && k < |ws|
    ensures Good(ws[k]) && ws[k].s.kernel == ws[0].s.kernel
    decreases k
  {
    if k > 0 {
      RunIsGood(ws, acts, k - 1);
      assert StepAt(ws, acts, k - 1);
      StepKeeps(ws[k - 1], acts[k - 1], ws[k], ws[k - 1].s.kernel);
    }
  }

  /** Over every run, what a directory maps stays mapped as long as it is not released, and its user pages
      keep their contents as long as nothing is stored under it: neither other processes, nor forks of it,
      nor the kernel's own work change them. */
  lemma {:induction false} OnlyOwnStoresChangePages(ws: seq<World>, acts: seq<Action>, b: nat, k: nat, d: FrameNo)
    requires Run(ws, acts) && b <= k < |ws| && d in ws[b].s.dirs && Alive(acts, d, b, k)
    ensures PagesStay(ws[b].s, ws[k].s, d)
    ensures Quiet(ws, acts, d, b, k) ==> ContentsStay(ws[b].s, ws[k].s, d)
    decreases k
  {
    if k > b {
      OnlyOwnStoresChangePages(ws, acts, b, k - 1, d);
      OneStep(ws, acts, k - 1, d);
      StayTrans(ws[b].s, ws[k - 1].s, ws[k].s, d);
    }
  }

  lemma OneStep(ws: seq<World>, acts: seq<Action>, k: nat, d: FrameNo)
    requires Run(ws, acts) && k < |acts| && d in ws[k].s.dirs && acts[k] != ReleasePdir(d)
    ensures PagesStay(ws[k].s, ws[k + 1].s, d)
    ensures !(acts[k].Store? && ws[k].cur == d) ==> ContentsStay(ws[k].s, ws[k + 1].s, d)
  {
    RunIsGood(ws, acts, k);
    assert StepAt(ws, acts, k);
    StepKeeps(ws[k], acts[k], ws[k + 1], d);
  }

  lemma StayTrans(s: Spaces, t: Spaces, u: Spaces, d: FrameNo)
    requires PagesStay(s, t, d) && PagesStay(t, u, d)
    ensures PagesStay(s, u, d)
    ensures ContentsStay(s, t, d) && ContentsStay(t, u, d) ==> ContentsStay(s, u, d)
  {
  }

  /** Kernel-half coherence over every run: a kernel page that some address space has at the start is,
      at every later point and in every address space there is then, that same page. */
  lemma KernelPagesForever(ws: seq<World>, acts: seq<Action>, k: nat, d: FrameNo, e: FrameNo, i: Index, j: Index)
    requires Run(ws, acts) && k < |ws| && KERNEL <= i < SHARED
    requires d in ws[0].s.dirs && Entry(ws[0].s.mem, d, i, j).Present() && e in ws[k].s.dirs
    ensures Entry(ws[k].s.mem, e, i, j) == Entry(ws[0].s.mem, d, i, j)
  {
    var kernel := ws[0].s.kernel;
    KernelPagesAgree(ws[0].s, d, kernel, i, j);
    RunIsGood(ws, acts, k);
    KernelStays(ws, acts, k);
    OnlyOwnStoresChangePages(ws, acts, 0, k, kernel);
    KernelPagesAgree(ws[k].s, e, kernel, i, j);
  }

  lemma KernelStays(ws: seq<World>, acts: seq<Action>, k: nat)
    requires Run(ws, acts) && k < |ws|
    ensures Alive(acts, ws[0].s.kernel, 0, k)
  {
    forall m | 0 <= m < k
      ensures acts[m] != ReleasePdir(ws[0].s.kernel)
    {
      RunIsGood(ws, acts, m);
      assert StepAt(ws, acts, m);
    }
  }

  /** Fork over whole runs: as long as the child stores nothing itself, its pages are those its parent had
      when it forked, whatever the parent and all others do meanwhile. */
  lemma ForkIsSnapshot(ws: seq<World>, acts: seq<Action>, b: nat, k: nat, src: FrameNo, r: FrameNo, i: Index, j: Index)
    requires Run(ws, acts) && b < k < |ws| && acts[b] == Clone(src, r, true) && src != ws[b].s.kernel
    requires Alive(acts, r, b + 1, k) && Quiet(ws, acts, r, b + 1, k)
    requires i < KERNEL && Entry(ws[b].s.mem, src, i, j).Present()
    ensures var was, e := Entry(ws[b].s.mem, src, i, j), Entry(ws[k].s.mem, r, i, j);
            e.flags == Flags(true, true, true, was.flags.others) && ws[k].s.mem[e.addr] == ws[b].s.mem[was.addr]
  {
    RunIsGood(ws, acts, b);
    assert StepAt(ws, acts, b);
    TidyClonable(ws[b].s, ws[b].cur, src, r);
    ForkIsolates(ws[b].s, ws[b + 1].s, ws[b].cur, src, r, i, j);
    OnlyOwnStoresChangePages(ws, acts, b + 1, k, r);
  }
}
