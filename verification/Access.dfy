/**
 Who may use which pages (mem/vmm.c:75-148, 201-237): over every run the tables of the kernel half keep their
 access flags, and the tables of user halves are open to user mode.
 */
module Access {

  import opened Paging
  import opened Vmm
  import opened Cloning
  import opened Isolation

  // ---- the kernel half ---------------------------------------------------------------------------

  lemma KernelTablesStay(w: World, a: Action, w': World, i: Index)
    requires Good(w) && Step(w, a, w') && KERNEL <= i < SHARED
    ensures w'.s.mem[w.s.kernel][i] == w.s.mem[w.s.kernel][i]
  {
    var d := w.s.kernel;
    SharedTable(w.s, d, d, i);
    match a
    case KallocPage(p, q, access) =>
      if w'.s != w.s {
        OneMoreTidy(w.s);
        KallocFromMemory(w.s.(n := w.s.n + 1), w.cur, Word(w.s.n, NONE), p, q, access, w'.s);
      }
    case KallocPageFrom(from, p, q, access) => KallocFromMemory(w.s, w.cur, from, p, q, access, w'.s);
    case Clone(src, r, copy) =>
    case ChangePdir(e) =>
    case Store(p, q, k, v) =>
      var f := Entry(w.s.mem, w.cur, p, q).addr;
      assert p < KERNEL ==> UserEntry(w.s, w.cur, p, q);
      StoreKeepsPages(w.s, f, k, v);
    case ReleasePdir(e) =>
  }

  lemma {:induction false} KernelTablesKept(ws: seq<World>, acts: seq<Action>, k: nat, i: Index)
    requires Run(ws, acts) && k < |ws| && KERNEL <= i < SHARED
    ensures ws[k].s.mem[ws[0].s.kernel][i] == ws[0].s.mem[ws[0].s.kernel][i]
    decreases k
  {
    if k > 0 {
      KernelTablesKept(ws, acts, k - 1, i);
      RunIsGood(ws, acts, k - 1);
      assert StepAt(ws, acts, k - 1);
      KernelTablesStay(ws[k - 1], acts[k - 1], ws[k], i);
    }
  }

  /** Over every run the directory entries of the kernel half, access flags included, are those of the start, in
      every address space there is: what user mode could not reach through them it never can. */
  lemma KernelTablesForever(ws: seq<World>, acts: seq<Action>, k: nat, e: FrameNo, i: Index)
    requires Run(ws, acts) && k < |ws| && e in ws[k].s.dirs && KERNEL <= i < SHARED
    ensures ws[k].s.mem[e][i] == ws[0].s.mem[ws[0].s.kernel][i]
  {
    RunIsGood(ws, acts, k);
    SharedTable(ws[k].s, e, ws[k].s.kernel, i);
    KernelTablesKept(ws, acts, k, i);
  }

  // ---- user halves -------------------------------------------------------------------------------

  /** All tables of user halves let user mode read and write; the entries of the tables decide the rest. */
  ghost predicate Open(s: Spaces) {
    forall d: FrameNo, i: nat | HasTable(s, d, i) && i < KERNEL :: s.mem[d][i].flags.readwrite && s.mem[d][i].flags.user
  }

  /** What is mapped in a user half is mapped for user mode to read and write. */
  predicate ForUser(a: Action) {
    match a
    case KallocPage(i, _, access) => i < KERNEL ==> access.readwrite && access.user
    case KallocPageFrom(_, i, _, access) => i < KERNEL ==> access.readwrite && access.user
    case _ => true
  }

  lemma KallocFromOpen(s: Spaces, cur: FrameNo, from: Word, i: Index, j: Index, access: Flags, s': Spaces)
    requires Valid(s) && Open(s) && cur in s.dirs && i < SELF && access.present && access.others == 0
    requires s.mem[cur][i].Present() || s.n < FRAMES
    requires i < KERNEL ==> access.readwrite && access.user
    requires s' == KallocPageFromSpec(s, cur, from, i, j, access).1
    ensures Open(s')
  {
    KallocPageFromAnswers(s, cur, from, i, j, access);
    KallocFromMemory(s, cur, from, i, j, access, s');
    forall d: FrameNo, k: nat | HasTable(s', d, k) && k < KERNEL
      ensures s'.mem[d][k].flags.readwrite && s'.mem[d][k].flags.user
    {
      assert s'.mem[d][k] == s.mem[d][k] || (d == cur && k == i && !s.mem[d][k].Present());
      assert s.mem[d][k].Present() ==> HasTable(s, d, k);
    }
  }

  lemma KallocOpen(s: Spaces, cur: FrameNo, i: Index, j: Index, access: Flags, s': Spaces)
    requires Tidy(s) && Open(s) && cur in s.dirs && i < SELF && access.present && access.others == 0
    requires s.mem[cur][i].Present() || s.n != FRAMES - 1
    requires i < KERNEL ==> access.readwrite && access.user
    requires s' == KallocPageSpec(s, cur, i, j, access).1 != s
    ensures Open(s')
  {
    OneMoreTidy(s);
    var t := s.(n := s.n + 1);
    assert forall d: FrameNo, k: nat :: HasTable(t, d, k) == HasTable(s, d, k);
    KallocFromOpen(t, cur, Word(s.n, NONE), i, j, access, s');
  }

  lemma StoreOpen(s: Spaces, f: FrameNo, k: Index, v: Word)
    requires Valid(s) && Open(s) && Unowned(s, f)
    ensures Open(Stored(s, f, k, v))
  {
    StoreKeepsPages(s, f, k, v);
  }

  lemma CloneOpen(s: Spaces, s': Spaces, cr3: FrameNo, src: FrameNo, r: FrameNo, copy: bool)
    requires Tidy(s) && Open(s) && Clonable(s, cr3, src, r) && Cloned(s, s', src, r, copy)
    ensures Open(s')
  {
    forall d: FrameNo, i: nat | HasTable(s', d, i) && i < KERNEL
      ensures s'.mem[d][i].flags.readwrite && s'.mem[d][i].flags.user
    {
      if d == r {
        assert ClonedAt(s.mem, s.n, src, s.kernel, copy, s'.mem, r, i);
      } else {
        assert HasTable(s, d, i);
      }
    }
  }

  lemma StepOpen(w: World, a: Action, w': World)
    requires Good(w) && Step(w, a, w') && Open(w.s) && ForUser(a)
    ensures Open(w'.s)
  {
    match a
    case KallocPage(i, j, access) =>
      if w'.s != w.s {
        KallocOpen(w.s, w.cur, i, j, access, w'.s);
      }
    case KallocPageFrom(from, i, j, access) => KallocFromOpen(w.s, w.cur, from, i, j, access, w'.s);
    case Clone(src, r, copy) =>
      TidyClonable(w.s, w.cur, src, r);
      CloneOpen(w.s, w'.s, w.cur, src, r, copy);
    case ChangePdir(e) =>
    case Store(i, j, k, v) =>
      assert i < KERNEL ==> UserEntry(w.s, w.cur, i, j);
      StoreOpen(w.s, Entry(w.s.mem, w.cur, i, j).addr, k, v);
    case ReleasePdir(e) =>
      assert forall d: FrameNo, k: nat :: HasTable(w'.s, d, k) ==> HasTable(w.s, d, k);
  }

  /** Over every run that maps user pages for user mode, forks included, no table of any address space keeps user
      mode from a page of its own. */
  lemma {:induction false} UserTablesOpen(ws: seq<World>, acts: seq<Action>, k: nat)
    requires Run(ws, acts) && k < |ws| && Open(ws[0].s) && forall a | a in acts :: ForUser(a)
    ensures Open(ws[k].s)
    decreases k
  {
    if k > 0 {
      UserTablesOpen(ws, acts, k - 1);
      RunIsGood(ws, acts, k - 1);
      assert StepAt(ws, acts, k - 1);
      StepOpen(ws[k - 1], acts[k - 1], ws[k]);
    }
  }
}
