/**
 The kernel heap (mem/kmalloc.c), as a table of blocks of whole pages: first fit, splitting from the
 tail of a free block, growing at the end.
 */
module Heap {

  import opened Basics

  const MAX_BLOCKS := (0x1000 - 16) / 12   // one page, minus its header, of 12-byte records

  datatype Block = Block(reserved: bool, size: nat, ptr: nat) {
    function End(): nat {
      ptr + size * PAGE
    }
  }

  /** The pages needed for a request of `size` bytes. */
  function Pages(size: nat): (n: nat)
    ensures size <= n * PAGE < size + PAGE
  {
    if size % PAGE == 0 then size / PAGE else size / PAGE + 1
  }

  // ---- tiling ----------------------------------------------------------------------------------

  predicate Covers(b: Block, a: int) {
    b.ptr <= a < b.End()
  }

  ghost predicate Covered(blocks: seq<Block>, a: int) {
    exists i :: 0 <= i < |blocks| && Covers(blocks[i], a)
  }

  predicate BlockOk(b: Block, lo: nat, hi: nat) {
    b.size > 0 && b.ptr % PAGE == 0 && lo <= b.ptr && b.End() <= hi
  }

  predicate Disjoint(a: Block, b: Block) {
    a.End() <= b.ptr || b.End() <= a.ptr
  }

  /** Every block is a non-empty run of pages in [lo, hi), no two overlap, and together they are all of it. */
  ghost predicate Tiles(blocks: seq<Block>, lo: nat, hi: nat) {
    && (forall i | 0 <= i < |blocks| :: BlockOk(blocks[i], lo, hi))
    && (forall i, j | 0 <= i < j < |blocks| :: Disjoint(blocks[i], blocks[j]))
    && (forall a {:trigger Covered(blocks, a)} | lo <= a < hi :: Covered(blocks, a))
  }

  /** The live allocations. */
  function Live(blocks: seq<Block>): set<Block> {
    set b | b in blocks && b.reserved
  }

  /** Live allocations never overlap. */
  lemma LiveDisjoint(blocks: seq<Block>, lo: nat, hi: nat, a: Block, b: Block)
    requires Tiles(blocks, lo, hi) && a in Live(blocks) && b in Live(blocks) && a != b
    ensures Disjoint(a, b) && a.ptr != b.ptr
  {
    var i :| 0 <= i < |blocks| && blocks[i] == a;
    var j :| 0 <= j < |blocks| && blocks[j] == b;
    assert BlockOk(blocks[i], lo, hi) && BlockOk(blocks[j], lo, hi);
    if i < j {
      assert Disjoint(blocks[i], blocks[j]);
    } else {
      assert Disjoint(blocks[j], blocks[i]);
    }
  }

  /** No two blocks start at the same address. */
  lemma StartsDiffer(blocks: seq<Block>, lo: nat, hi: nat, i: nat, j: nat)
    requires Tiles(blocks, lo, hi) && i < j < |blocks|
    ensures blocks[i].ptr != blocks[j].ptr && blocks[i] != blocks[j]
  {
    assert BlockOk(blocks[i], lo, hi) && BlockOk(blocks[j], lo, hi) && Disjoint(blocks[i], blocks[j]);
  }

  // ---- the operations on the block table ---------------------------------------------------------

  predicate Fits(b: Block, amount: nat) {
    !b.reserved && b.size >= amount
  }

  /** The least index from `from` on of a free block with `amount` pages; the length when there is none. */
  function FirstFit(blocks: seq<Block>, amount: nat, from: nat): (i: nat)
    requires from <= |blocks|
    ensures from <= i <= |blocks|
    ensures forall k | from <= k < i :: !Fits(blocks[k], amount)
    ensures i < |blocks| ==> Fits(blocks[i], amount)
    decreases |blocks| - from
  {
    if from == |blocks| || Fits(blocks[from], amount) then from else FirstFit(blocks, amount, from + 1)
  }

  /** Where an allocation of `amount` pages out of block b starts: at the tail. */
  function TailOf(b: Block, amount: nat): nat
    requires amount <= b.size
  {
    b.ptr + (b.size - amount) * PAGE
  }

  /** The table after block i has served `amount` pages. */
  function Take(blocks: seq<Block>, i: nat, amount: nat): seq<Block>
    requires i < |blocks| && amount <= blocks[i].size
  {
    var b := blocks[i];
    if amount < b.size then blocks[i := b.(size := b.size - amount)] + [Block(true, amount, TailOf(b, amount))]
    else blocks[i := b.(reserved := true)]
  }

  function Release(blocks: seq<Block>, i: nat): seq<Block>
    requires i < |blocks|
  {
    blocks[i := blocks[i].(reserved := false)]
  }

  lemma CoveredKept(blocks: seq<Block>, blocks': seq<Block>, i: nat, a: int)
    requires i < |blocks| <= |blocks'| && Covered(blocks, a)
    requires forall k | 0 <= k < |blocks| && k != i :: blocks'[k].ptr == blocks[k].ptr && blocks'[k].size == blocks[k].size
    requires Covers(blocks[i], a) ==> Covered(blocks', a)
    ensures Covered(blocks', a)
  {
    var k :| 0 <= k < |blocks| && Covers(blocks[k], a);
    if k != i {
      assert Covers(blocks'[k], a);
    }
  }

  /** Serving from a free block keeps the tiling and the end of the heap, and adds one allocation,
      which covers the request and nothing live before. */
  lemma TakeTiles(blocks: seq<Block>, lo: nat, hi: nat, i: nat, amount: nat)
    requires Tiles(blocks, lo, hi) && i < |blocks| && Fits(blocks[i], amount) && amount > 0
    ensures Tiles(Take(blocks, i, amount), lo, hi)
  {
    var b, t := blocks[i], Take(blocks, i, amount);
    assert BlockOk(b, lo, hi);
    forall k | 0 <= k < |t|
      ensures BlockOk(t[k], lo, hi)
    {
      if k < |blocks| {
        assert BlockOk(blocks[k], lo, hi);
      }
    }
    forall k, l | 0 <= k < l < |t|
      ensures Disjoint(t[k], t[l])
    {
      if l < |blocks| {
        assert Disjoint(blocks[k], blocks[l]);
      } else if k != i {
        assert Disjoint(blocks[if k < i then k else i], blocks[if k < i then i else k]);
      }
    }
    forall a {:trigger Covered(t, a)} | lo <= a < hi
      ensures Covered(t, a)
    {
      assert Covered(blocks, a);
      if Covers(b, a) {
        if amount < b.size && TailOf(b, amount) <= a {
          assert Covers(t[|blocks|], a);
        } else {
          assert Covers(t[i], a);
        }
      }
      CoveredKept(blocks, t, i, a);
    }
  }

  lemma TakeLive(blocks: seq<Block>, lo: nat, hi: nat, i: nat, amount: nat)
    requires Tiles(blocks, lo, hi) && i < |blocks| && Fits(blocks[i], amount) && amount > 0
    ensures var got := Block(true, amount, TailOf(blocks[i], amount));
            && got !in Live(blocks)
            && Live(Take(blocks, i, amount)) == Live(blocks) + {got}
  {
    var b, t := blocks[i], Take(blocks, i, amount);
    var got := Block(true, amount, TailOf(b, amount));
    var at := if amount < b.size then |blocks| else i;
    assert t[at] == got;
    assert BlockOk(b, lo, hi);
    forall k | 0 <= k < |blocks|
      ensures blocks[k] != got
    {
      assert BlockOk(blocks[k], lo, hi);
      if k != i {
        assert Disjoint(blocks[if k < i then k else i], blocks[if k < i then i else k]);
      }
    }
    forall x
      ensures x in Live(t) <==> x in Live(blocks) || x == got
    {
      if x in Live(t) {
        var k :| 0 <= k < |t| && t[k] == x;
        assert k == at || blocks[k] == x;
      }
      if x in Live(blocks) {
        var k :| 0 <= k < |blocks| && blocks[k] == x;
        assert t[k] == x;
      }
    }
  }

  /** Growing adds one allocation at the end. */
  lemma GrowTiles(blocks: seq<Block>, lo: nat, hi: nat, amount: nat)
    requires Tiles(blocks, lo, hi) && amount > 0 && hi % PAGE == 0 && lo <= hi
    ensures var got := Block(true, amount, hi);
            && Tiles(blocks + [got], lo, hi + amount * PAGE)
            && got !in Live(blocks) && Live(blocks + [got]) == Live(blocks) + {got}
  {
    var got := Block(true, amount, hi);
    var t := blocks + [got];
    assert t[|blocks|] == got;
    forall k | 0 <= k < |blocks|
      ensures t[k] == blocks[k] && BlockOk(t[k], lo, hi) && Disjoint(t[k], got) && t[k] != got
    {
      assert BlockOk(blocks[k], lo, hi);
    }
    forall k, l | 0 <= k < l < |t|
      ensures Disjoint(t[k], t[l])
    {
      if l < |blocks| {
        assert Disjoint(blocks[k], blocks[l]);
      }
    }
    forall a {:trigger Covered(t, a)} | lo <= a < hi + amount * PAGE
      ensures Covered(t, a)
    {
      if a < hi {
        assert Covered(blocks, a);
        var k :| 0 <= k < |blocks| && Covers(blocks[k], a);
        assert Covers(t[k], a);
      } else {
        assert Covers(t[|blocks|], a);
      }
    }
  }

  /** Freeing keeps the tiling and removes exactly the one allocation that starts there. */
  lemma ReleaseTiles(blocks: seq<Block>, lo: nat, hi: nat, i: nat)
    requires Tiles(blocks, lo, hi) && i < |blocks| && blocks[i].reserved
    ensures Tiles(Release(blocks, i), lo, hi)
    ensures blocks[i] in Live(blocks) && Live(Release(blocks, i)) == Live(blocks) - {blocks[i]}
  {
    var t := Release(blocks, i);
    forall k | 0 <= k < |t|
      ensures BlockOk(t[k], lo, hi)
    {
      assert BlockOk(blocks[k], lo, hi);
    }
    forall k, l | 0 <= k < l < |t|
      ensures Disjoint(t[k], t[l])
    {
      assert Disjoint(blocks[k], blocks[l]);
    }
    forall a {:trigger Covered(t, a)} | lo <= a < hi
      ensures Covered(t, a)
    {
      assert Covered(blocks, a);
      if Covers(blocks[i], a) {
        assert Covers(t[i], a);
      }
      CoveredKept(blocks, t, i, a);
    }
    ReleaseLive(blocks, lo, hi, i);
  }

  lemma ReleaseLive(blocks: seq<Block>, lo: nat, hi: nat, i: nat)
    requires Tiles(blocks, lo, hi) && i < |blocks| && blocks[i].reserved
    ensures Live(Release(blocks, i)) == Live(blocks) - {blocks[i]}
  {
    var t := Release(blocks, i);
    forall x
      ensures x in Live(t) <==> x in Live(blocks) && x != blocks[i]
    {
      if x in Live(t) {
        var k :| 0 <= k < |t| && t[k] == x;
        assert k != i && blocks[k] == x;
        StartsDiffer(blocks, lo, hi, if k < i then k else i, if k < i then i else k);
      }
      if x in Live(blocks) && x != blocks[i] {
        var k :| 0 <= k < |blocks| && blocks[k] == x;
        assert t[k] == x;
      }
    }
  }

  // ---- every run -------------------------------------------------------------------------------

  datatype Op = Malloc(amount: nat) | Free(ptr: nat)

  /** The block table and the end of the heap. */
  datatype Arena = Arena(blocks: seq<Block>, end: nat)

  function FindStart(blocks: seq<Block>, ptr: nat, from: nat): (i: nat)
    requires from <= |blocks|
    ensures from <= i <= |blocks|
    ensures forall k | from <= k < i :: blocks[k].ptr != ptr
    ensures i < |blocks| ==> blocks[i].ptr == ptr
    decreases |blocks| - from
  {
    if from == |blocks| || blocks[from].ptr == ptr then from else FindStart(blocks, ptr, from + 1)
  }

  /** One call, as the methods of the heap specify it when frames and block records suffice; None when
      it halts on a double free. */
  function Step(h: Arena, op: Op): Option<Arena> {
    match op
    case Malloc(0) => Some(h)
    case Malloc(amount) =>
      var i := FirstFit(h.blocks, amount, 0);
      if i < |h.blocks| then Some(h.(blocks := Take(h.blocks, i, amount)))
      else Some(Arena(h.blocks + [Block(true, amount, h.end)], h.end + amount * PAGE))
    case Free(ptr) =>
      var i := FindStart(h.blocks, ptr, 0);
      if i == |h.blocks| then Some(h)
      else if !h.blocks[i].reserved then None
      else Some(h.(blocks := Release(h.blocks, i)))
  }

  /** Nothing but freeing what is free already halts, and neither an empty request nor a pointer that starts no
      block changes anything. */
  lemma HaltsIff(h: Arena, lo: nat, op: Op)
    requires Sane(h, lo)
    ensures Step(h, op) == None <==> op.Free? && exists b | b in h.blocks :: b.ptr == op.ptr && !b.reserved
    ensures op == Malloc(0) || (op.Free? && forall b | b in h.blocks :: b.ptr != op.ptr) ==> Step(h, op) == Some(h)
  {
    if op.Free? {
      var i := FindStart(h.blocks, op.ptr, 0);
      forall k | 0 <= k < |h.blocks| && k != i && i < |h.blocks|
        ensures h.blocks[k].ptr != op.ptr
      {
        StartsDiffer(h.blocks, lo, h.end, if k < i then k else i, if k < i then i else k);
      }
    }
  }

  /** A request grows the heap, by as many pages, exactly when no free block is large enough. */
  lemma GrowsIff(h: Arena, amount: nat)
    requires amount > 0
    ensures Step(h, Malloc(amount)).Some?
    ensures var g := Step(h, Malloc(amount)).value;
            && (g.end != h.end <==> forall b | b in h.blocks :: b.reserved || b.size < amount)
            && (g.end != h.end ==> g == Arena(h.blocks + [Block(true, amount, h.end)], h.end + amount * PAGE))
  {
    var i := FirstFit(h.blocks, amount, 0);
    if i < |h.blocks| {
      assert h.blocks[i] in h.blocks;
    }
  }

  /** Otherwise the first free block that is large enough serves it: as a whole, or with its last pages, what is
      left staying free where the block started. */
  lemma FirstServes(h: Arena, amount: nat, i: nat)
    requires amount > 0 && i < |h.blocks| && !h.blocks[i].reserved && h.blocks[i].size >= amount
    requires forall k | 0 <= k < i :: h.blocks[k].reserved || h.blocks[k].size < amount
    ensures var b := h.blocks[i]; var rest: nat := b.size - amount;
            Step(h, Malloc(amount)) ==
            Some(h.(blocks := if rest == 0 then h.blocks[i := Block(true, amount, b.ptr)]
                              else h.blocks[i := Block(false, rest, b.ptr)] + [Block(true, amount, b.ptr + rest * PAGE)]))
  {
    assert FirstFit(h.blocks, amount, 0) == i;
  }

  function Run(h: Arena, ops: seq<Op>): Option<Arena>
    decreases |ops|
  {
    if ops == [] then Some(h)
    else match Step(h, ops[0]) case None => None case Some(g) => Run(g, ops[1..])
  }

  ghost predicate Sane(h: Arena, lo: nat) {
    lo <= h.end && h.end % PAGE == 0 && Tiles(h.blocks, lo, h.end)
  }

  lemma StepKeeps(h: Arena, lo: nat, op: Op, b: Block)
    requires Sane(h, lo) && Step(h, op).Some?
    ensures Sane(Step(h, op).value, lo)
    ensures b in Live(h.blocks) && op != Free(b.ptr) ==> b in Live(Step(h, op).value.blocks)
  {
    match op
    case Malloc(amount) =>
      if amount > 0 {
        var i := FirstFit(h.blocks, amount, 0);
        if i < |h.blocks| {
          TakeTiles(h.blocks, lo, h.end, i, amount);
          TakeLive(h.blocks, lo, h.end, i, amount);
        } else {
          GrowTiles(h.blocks, lo, h.end, amount);
        }
      }
    case Free(ptr) =>
      var i := FindStart(h.blocks, ptr, 0);
      if i < |h.blocks| {
        ReleaseTiles(h.blocks, lo, h.end, i);
      }
  }

  /** Over every run of allocations and frees the blocks tile the heap, and an allocation stays live,
      at its address and with its length, until it is freed itself. */
  lemma {:induction false} RunKeeps(h: Arena, lo: nat, ops: seq<Op>, b: Block)
    requires Sane(h, lo) && Run(h, ops).Some?
    ensures Sane(Run(h, ops).value, lo)
    ensures b in Live(h.blocks) && Free(b.ptr) !in ops ==> b in Live(Run(h, ops).value.blocks)
    decreases |ops|
  {
    if ops != [] {
      StepKeeps(h, lo, ops[0], b);
      RunKeeps(Step(h, ops[0]).value, lo, ops[1..], b);
    }
  }
}
