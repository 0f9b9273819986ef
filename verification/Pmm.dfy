/**
 The physical frame bitmap (mem/pmm.c) and the bit-scan macro it allocates with (util/util.h).

 A bitmap word holds 32 frames, the first frame in the most significant bit.  Frame numbers are
 physical addresses divided by the page size.
 */
module Pmm {

  import opened Basics

  const WORDS := 32768
  const FRAMES := 0x100000
  const ADDRESSES := 0x1_0000_0000
  const TOP: nat := 31

  // ---- bits of a 32-bit word ------------------------------------------------------------------

  type Word = w: int | 0 <= w < 0x1_0000_0000

  /** (w >> k) & 1 */
  function Bit(w: nat, k: nat): (b: nat)
    ensures b <= 1
    decreases k
  {
    if k == 0 then w % 2 else Bit(w / 2, k - 1)
  }

  /** w | (1 << k) */
  function SetBit(w: nat, k: nat): nat
    decreases k
  {
    if k == 0 then w - w % 2 + 1 else SetBit(w / 2, k - 1) * 2 + w % 2
  }

  /** w & ~(1 << k) */
  function ClearBit(w: nat, k: nat): nat
    decreases k
  {
    if k == 0 then w - w % 2 else ClearBit(w / 2, k - 1) * 2 + w % 2
  }

  function Pow2(k: nat): (p: nat)
    ensures p >= 1
  {
    if k == 0 then 1 else 2 * Pow2(k - 1)
  }

  lemma {:induction false} SetBitBits(w: nat, k: nat, j: nat)
    ensures Bit(SetBit(w, k), j) == 1 <==> (j == k || Bit(w, j) == 1)
    decreases k
  {
    if k > 0 && j > 0 {
      SetBitBits(w / 2, k - 1, j - 1);
    }
  }

  lemma {:induction false} ClearBitBits(w: nat, k: nat, j: nat)
    ensures Bit(ClearBit(w, k), j) == 1 <==> (j != k && Bit(w, j) == 1)
    decreases k
  {
    if k > 0 && j > 0 {
      ClearBitBits(w / 2, k - 1, j - 1);
    }
  }

  lemma {:induction false} BitsBounded(w: nat, n: nat, k: nat)
    requires w < Pow2(n) && k < n
    ensures SetBit(w, k) < Pow2(n) && ClearBit(w, k) < Pow2(n)
    decreases k
  {
    if k > 0 {
      BitsBounded(w / 2, n - 1, k - 1);
    }
  }

  lemma {:induction false} BitsDetermine(w: nat, v: nat, n: nat)
    requires w < Pow2(n) && v < Pow2(n)
    requires forall k: nat | k < n :: Bit(w, k) == Bit(v, k)
    ensures w == v
    decreases n
  {
    if n > 0 {
      assert Bit(w, 0) == Bit(v, 0);
      forall k: nat | k < n - 1
        ensures Bit(w / 2, k) == Bit(v / 2, k)
      {
        assert Bit(w, k + 1) == Bit(v, k + 1);
      }
      BitsDetermine(w / 2, v / 2, n - 1);
    }
  }

  lemma {:induction false} ZeroBits(k: nat)
    ensures Bit(0, k) == 0
  {
    if k > 0 {
      ZeroBits(k - 1);
    }
  }

  lemma {:induction false} OnesBits(n: nat, k: nat)
    requires k < n
    ensures Bit(Pow2(n) - 1, k) == 1
    decreases k
  {
    var p := Pow2(n - 1);
    assert (2 * p - 1) % 2 == 1 && (2 * p - 1) / 2 == p - 1;
    if k > 0 {
      OnesBits(n - 1, k - 1);
    }
  }

  lemma Width()
    ensures Pow2(32) == 0x1_0000_0000
  {
    assert Pow2(8) == 256;
    assert Pow2(16) == 0x10000;
    assert Pow2(24) == 0x1000000;
  }

  lemma FullBits(w: Word, k: nat)
    requires w == 0xFFFFFFFF && k < 32
    ensures Bit(w, k) == 1
  {
    Width();
    OnesBits(32, k);
  }

  lemma BitsFull(w: Word)
    requires forall k: nat | k < 32 :: Bit(w, k) == 1
    ensures w == 0xFFFFFFFF
  {
    Width();
    var ones := Pow2(32) - 1;
    forall k: nat | k < 32
      ensures Bit(w, k) == Bit(ones, k)
    {
      OnesBits(32, k);
    }
    BitsDetermine(w, ones, 32);
  }

  lemma BitsZero(w: Word)
    requires forall k: nat | k < 32 :: Bit(w, k) == 0
    ensures w == 0
  {
    Width();
    var zero := Pow2(0) - 1;
    forall k: nat | k < 32
      ensures Bit(w, k) == Bit(zero, k)
    {
      ZeroBits(k);
    }
    BitsDetermine(w, zero, 32);
  }

  lemma Hole(w: Word) returns (k: nat)
    requires w != 0xFFFFFFFF
    ensures k < 32 && Bit(w, k) == 0
  {
    if forall k: nat | k < 32 :: Bit(w, k) == 1 {
      BitsFull(w);
    }
    k :| k < 32 && Bit(w, k) == 0;
  }

  lemma SomeBit(w: Word)
    requires w != 0
    ensures exists k: nat :: k < 32 && Bit(w, k) == 1
  {
    if forall k: nat | k < 32 :: Bit(w, k) == 0 {
      BitsZero(w);
    }
  }

  function Set(w: Word, k: nat): Word
    requires k < 32
  {
    Width();
    BitsBounded(w, 32, k);
    SetBit(w, k)
  }

  function Clear(w: Word, k: nat): Word
    requires k < 32
  {
    Width();
    BitsBounded(w, 32, k);
    ClearBit(w, k)
  }

  /** The bsf instruction: index of the least significant set bit, and 0 for a zero word. */
  function BitScanForward(w: Word): (k: nat)
    ensures k < 32
    ensures w == 0 ==> k == 0
    ensures w != 0 ==> Bit(w, k) == 1 && forall j: nat | j < k :: Bit(w, j) == 0
  {
    if w == 0 then 0 else
      SomeBit(w);
      ScanFrom(w, 0)
  }

  function ScanFrom(w: Word, from: nat): (k: nat)
    requires from < 32
    requires exists j: nat :: from <= j < 32 && Bit(w, j) == 1
    ensures from <= k < 32 && Bit(w, k) == 1 && forall j: nat | from <= j < k :: Bit(w, j) == 0
    decreases 32 - from
  {
    if Bit(w, from) == 1 then from else ScanFrom(w, from + 1)
  }

  // ---- the bitmap as a set of reserved frames --------------------------------------------------

  type Bitmap = b: seq<Word> | |b| == WORDS witness seq(WORDS, _ => 0)

  predicate Reserved(b: Bitmap, frame: nat)
    requires frame < FRAMES
  {
    Bit(b[frame / 32], 31 - frame % 32) == 1
  }

  /** `b'` reserves what `b` reserves, except that `frame` is now reserved exactly when `on` is. */
  ghost predicate Updated(b: Bitmap, b': Bitmap, frame: nat, on: bool)
    requires frame < FRAMES
  {
    forall f: nat | f < FRAMES :: Reserved(b', f) <==> if f == frame then on else Reserved(b, f)
  }

  /** The reserved frames are exactly those below `n`. */
  ghost predicate InitialSegment(b: Bitmap, n: nat) {
    n <= FRAMES && forall f: nat | f < FRAMES :: Reserved(b, f) <==> f < n
  }

  ghost predicate Exhausted(b: Bitmap) {
    forall f: nat | f < FRAMES :: Reserved(b, f)
  }

  /** Changing one bit of one word changes one frame. */
  lemma OneBit(b: Bitmap, b': Bitmap, i: nat, k: nat, on: bool)
    requires i < WORDS && k < 32
    requires b' == b[i := if on then Set(b[i], k) else Clear(b[i], k)]
    ensures Updated(b, b', i * 32 + (31 - k), on)
  {
    forall f: nat | f < FRAMES
      ensures Reserved(b', f) <==> if f == i * 32 + (31 - k) then on else Reserved(b, f)
    {
      if f / 32 == i {
        SetBitBits(b[i], k, 31 - f % 32);
        ClearBitBits(b[i], k, 31 - f % 32);
      }
    }
  }

  // ---- allocation as a function of the bitmap --------------------------------------------------

  function FirstNotFull(b: Bitmap, from: nat): (i: nat)
    requires from <= WORDS
    ensures from <= i <= WORDS
    ensures forall j | from <= j < i :: b[j] == 0xFFFFFFFF
    ensures i < WORDS ==> b[i] != 0xFFFFFFFF
    decreases WORDS - from
  {
    if from == WORDS || b[from] != 0xFFFFFFFF then from else FirstNotFull(b, from + 1)
  }

  /** The bitmap after one allocation, and the address the allocator answers with. */
  function Alloc(b: Bitmap): (r: (Bitmap, int))
  {
    var i := FirstNotFull(b, 0);
    if i == WORDS then (b, 0) else
      var k := BelowLowest(b[i]);
      (b[i := Set(b[i], k)], (i * 32 + (31 - k)) * PAGE)
  }

  /** The bit that is set: the one below the lowest set bit, or the top bit when there is none. */
  function BelowLowest(w: Word): (k: nat)
    ensures k < 32
  {
    var lowest := BitScanForward(w);
    if lowest > 0 then lowest - 1 else TOP
  }

  lemma FrameOfBit(b: Bitmap, i: nat, k: nat)
    requires i < WORDS && k < 32
    ensures i * 32 + (31 - k) < FRAMES
    ensures Reserved(b, i * 32 + (31 - k)) <==> Bit(b[i], k) == 1
  {
    var f := i * 32 + (31 - k);
    assert f / 32 == i && f % 32 == 31 - k;
  }

  /** Address 0 is the answer on exhaustion, and then nothing is reserved. */
  lemma AllocExhausted(b: Bitmap)
    ensures FirstNotFull(b, 0) == WORDS <==> Exhausted(b)
    ensures Exhausted(b) ==> Alloc(b) == (b, 0)
  {
    var i := FirstNotFull(b, 0);
    if i == WORDS {
      forall f: nat | f < FRAMES
        ensures Reserved(b, f)
      {
        FullBits(b[f / 32], 31 - f % 32);
      }
    } else {
      var k := Hole(b[i]);
      FrameOfBit(b, i, k);
    }
  }

  /** Otherwise the answer is a page-aligned frame of the first word with a hole, and the bit that is
      set is the bit of the frame that is returned. */
  lemma AllocReservesItsAnswer(b: Bitmap)
    requires !Exhausted(b)
    ensures FirstNotFull(b, 0) < WORDS
    ensures var (b', addr) := Alloc(b);
            && 0 <= addr < ADDRESSES && addr % PAGE == 0
            && addr / PAGE / 32 == FirstNotFull(b, 0)
            && Updated(b, b', addr / PAGE, true)
  {
    AllocExhausted(b);
    var i := FirstNotFull(b, 0);
    var k := BelowLowest(b[i]);
    OneBit(b, b[i := Set(b[i], k)], i, k, true);
    FrameAddress(i, k, i * 32 + (31 - k));
  }

  lemma FrameAddress(i: nat, k: nat, f: nat)
    requires i < WORDS && k < 32 && f == i * 32 + (31 - k)
    ensures f < FRAMES && f * PAGE < ADDRESSES && f * PAGE % PAGE == 0 && f * PAGE / PAGE == f && f / 32 == i
  {
  }

  /** The answer was free before exactly when the first or the last frame of that word was. */
  lemma AllocFreshIff(b: Bitmap) returns (i: nat, frame: nat)
    requires !Exhausted(b)
    ensures i == FirstNotFull(b, 0) < WORDS
    ensures frame < FRAMES && Alloc(b).1 == frame * PAGE
    ensures !Reserved(b, frame) <==> !Reserved(b, i * 32) || !Reserved(b, i * 32 + 31)
  {
    AllocExhausted(b);
    i := FirstNotFull(b, 0);
    frame := i * 32 + (31 - BelowLowest(b[i]));
    FrameOfBit(b, i, BelowLowest(b[i]));
    EndsOfWord(b, i, TOP);
  }

  lemma EndsOfWord(b: Bitmap, i: nat, top: nat)
    requires i < WORDS && top == TOP
    ensures Bit(b[i], BelowLowest(b[i])) == 0 <==> !Reserved(b, i * 32) || !Reserved(b, i * 32 + 31)
  {
    FrameOfBit(b, i, 0);
    FrameOfBit(b, i, top);
    BelowLowestFree(b[i], top);
  }

  lemma BelowLowestFree(w: Word, top: nat)
    requires top == TOP
    ensures Bit(w, BelowLowest(w)) == 0 <==> Bit(w, 0) == 0 || Bit(w, top) == 0
  {
    if w == 0 {
      ZeroBits(0);
      ZeroBits(top);
    }
  }

  /** Where both are reserved, the answer is a frame in use and the bitmap does not change at all:
      freeing any frame but the first and the last of a full word leads there. */
  lemma AllocRepeats(b: Bitmap, i: nat, k: nat)
    requires i < WORDS && 0 < k < TOP
    requires forall f: nat | f < i * 32 + 32 :: Reserved(b, f)
    ensures var freed := b[i := Clear(b[i], k)];
            && !Reserved(freed, i * 32 + (31 - k))
            && Reserved(freed, i * 32)
            && Alloc(freed).0 == freed && Alloc(freed).1 == i * 32 * PAGE
  {
    var top := TOP;
    var freed := b[i := Clear(b[i], k)];
    forall j | 0 <= j < i
      ensures freed[j] == 0xFFFFFFFF
    {
      ReservedWord(b, j);
      BitsFull(b[j]);
    }
    ReservedWord(b, i);
    PunchedWord(b[i], k, top);
    AllocFrom(freed, i, top);
    assert freed[i := Set(freed[i], top)] == freed;
    FrameOfBit(freed, i, k);
    FrameOfBit(freed, i, top);
  }

  lemma ReservedWord(b: Bitmap, i: nat)
    requires i < WORDS
    requires forall f: nat | f < i * 32 + 32 :: Reserved(b, f)
    ensures forall k: nat | k < 32 :: Bit(b[i], k) == 1
  {
    forall k: nat | k < 32
      ensures Bit(b[i], k) == 1
    {
      FrameOfBit(b, i, k);
    }
  }

  lemma AllocFrom(b: Bitmap, i: nat, k: nat)
    requires i < WORDS && b[i] != 0xFFFFFFFF && k == BelowLowest(b[i])
    requires forall j | 0 <= j < i :: b[j] == 0xFFFFFFFF
    ensures Alloc(b) == (b[i := Set(b[i], k)], (i * 32 + (31 - k)) * PAGE)
  {
    assert FirstNotFull(b, 0) == i;
  }

  lemma PunchedWord(full: Word, k: nat, top: nat)
    requires 0 < k < top == TOP
    requires forall m: nat | m < 32 :: Bit(full, m) == 1
    ensures var w := Clear(full, k);
            && w != 0xFFFFFFFF && Bit(w, k) == 0 && Bit(w, top) == 1
            && BelowLowest(w) == top && Set(w, top) == w
  {
    var w := Clear(full, k);
    ClearBitBits(full, k, k);
    ClearBitBits(full, k, 0);
    ClearBitBits(full, k, top);
    if w == 0xFFFFFFFF {
      FullBits(w, k);
    }
    SetSetBit(w, top);
  }

  lemma SetSetBit(w: Word, k: nat)
    requires k < 32 && Bit(w, k) == 1
    ensures Set(w, k) == w
  {
    forall j: nat | j < 32
      ensures Bit(Set(w, k), j) == Bit(w, j)
    {
      SetBitBits(w, k, j);
    }
    Width();
    BitsDetermine(Set(w, k), w, 32);
  }

  /** On an initial segment the answer is the next frame, and the segment grows by one. */
  lemma AllocTakesNext(b: Bitmap, n: nat)
    requires InitialSegment(b, n) && n < FRAMES
    ensures Alloc(b).1 == n * PAGE
    ensures InitialSegment(Alloc(b).0, n + 1)
  {
    assert !Reserved(b, n);
    AllocReservesItsAnswer(b);
    FirstNotFullOfSegment(b, n);
    var i := n / 32;
    var lowest := BitScanForward(b[i]);
    FrameOfBit(b, i, 0);
    if b[i] == 0 {
      ZeroBits(TOP);
      FrameOfBit(b, i, TOP);
    } else {
      FrameOfBit(b, i, lowest);
      if lowest > 0 {
        FrameOfBit(b, i, lowest - 1);
      }
    }
  }

  lemma FirstNotFullOfSegment(b: Bitmap, n: nat)
    requires InitialSegment(b, n) && n < FRAMES
    ensures FirstNotFull(b, 0) == n / 32
  {
    var i := n / 32;
    forall j | 0 <= j < i
      ensures b[j] == 0xFFFFFFFF
    {
      forall k: nat | k < 32
        ensures Bit(b[j], k) == 1
      {
        FrameOfBit(b, j, k);
      }
      BitsFull(b[j]);
    }
    assert !Reserved(b, n);
    if b[i] == 0xFFFFFFFF {
      FullBits(b[i], 31 - n % 32);
    }
  }

  /** The bitmap after `k` allocations. */
  ghost function AfterAllocs(b: Bitmap, k: nat): Bitmap {
    if k == 0 then b else Alloc(AfterAllocs(b, k - 1)).0
  }

  /** Every allocation-only run from an initial segment answers with consecutive frames, so no
      frame is ever answered twice, until address 0 reports exhaustion. */
  lemma {:induction false} AllocRun(b: Bitmap, n: nat, k: nat)
    requires InitialSegment(b, n)
    ensures n + k <= FRAMES ==> InitialSegment(AfterAllocs(b, k), n + k)
    ensures n + k >= FRAMES ==> Exhausted(AfterAllocs(b, k))
    ensures Alloc(AfterAllocs(b, k)).1 == if n + k < FRAMES then (n + k) * PAGE else 0
  {
    if k == 0 {
      AllocStep(b, n);
    } else {
      AllocRun(b, n, k - 1);
      var b' := AfterAllocs(b, k - 1);
      AllocStep(b', n + k - 1);
      AllocStep(Alloc(b').0, n + k);
    }
  }

  /** One allocation with n frames asked for so far. */
  lemma AllocStep(b: Bitmap, n: nat)
    requires if n < FRAMES then InitialSegment(b, n) else Exhausted(b)
    ensures Alloc(b).1 == if n < FRAMES then n * PAGE else 0
    ensures if n + 1 < FRAMES then InitialSegment(Alloc(b).0, n + 1) else Exhausted(Alloc(b).0)
    ensures n + 1 == FRAMES ==> InitialSegment(Alloc(b).0, n + 1)
  {
    AllocExhausted(b);
    if n < FRAMES {
      AllocTakesNext(b, n);
    }
  }

  // ---- the allocator itself --------------------------------------------------------------------

  class FrameAllocator {
    const bitmap: array<Word>

    ghost predicate Valid()
      reads this
    {
      bitmap.Length == WORDS
    }

    ghost function Bits(): Bitmap
      requires Valid()
      reads this, bitmap
    {
      bitmap[..]
    }

    /** setup_bitmap: every frame below the end of the kernel image is reserved, no other. */
    constructor (kernelEnd: nat)
      requires kernelEnd <= ADDRESSES - PAGE
      ensures Valid() && fresh(bitmap)
      ensures InitialSegment(Bits(), (kernelEnd + PAGE - 1) / PAGE)
    {
      bitmap := new Word[WORDS];
      new;
      for i := 0 to WORDS
        invariant forall j | 0 <= j < i :: bitmap[j] == 0
      {
        bitmap[i] := 0;
      }
      forall f: nat | f < FRAMES
        ensures !Reserved(Bits(), f)
      {
        ZeroBits(31 - f % 32);
      }
      var i := 0;
      while i < kernelEnd
        invariant i % PAGE == 0 && i <= kernelEnd + PAGE - 1
        invariant InitialSegment(Bits(), i / PAGE)
      {
        SetPageReserved(i, true);
        i := i + PAGE;
      }
    }

    method IsFreePage(addr: nat) returns (free: bool)
      requires Valid() && addr < ADDRESSES
      ensures free <==> !Reserved(Bits(), addr / PAGE)
    {
      var i := addr / 0x20000;
      var offset := (addr % 0x20000) / PAGE;
      free := Bit(bitmap[i], 31 - offset) == 0;
    }

    method SetPageReserved(addr: nat, on: bool)
      requires Valid() && addr < ADDRESSES
      modifies bitmap
      ensures Updated(old(Bits()), Bits(), addr / PAGE, on)
    {
      var i := addr / 0x20000;
      var offset := (addr % 0x20000) / PAGE;
      ghost var b := Bits();
      if on {
        bitmap[i] := Set(bitmap[i], 31 - offset);
      } else {
        bitmap[i] := Clear(bitmap[i], 31 - offset);
      }
      OneBit(b, Bits(), i, 31 - offset, on);
    }

    method KallocPageFrame() returns (addr: nat)
      requires Valid()
      modifies bitmap
      ensures (Bits(), addr as int) == Alloc(old(Bits()))
    {
      ghost var b := Bits();
      for i := 0 to WORDS
        invariant Bits() == b
        invariant FirstNotFull(b, 0) == FirstNotFull(b, i)
      {
        if bitmap[i] != 0xFFFFFFFF {
          var msb := GetAndSetMsb(i);
          return i * 0x1000 * 32 + (32 - msb) * 0x1000;
        }
      }
      return 0;
    }

    /** The macro GET_AND_SET_MSB on word `i`. */
    method GetAndSetMsb(i: nat) returns (out: nat)
      requires Valid() && i < WORDS
      modifies bitmap
      ensures 1 <= out <= 32
      ensures out - 1 == BelowLowest(old(bitmap[i]))
      ensures Bits() == old(Bits())[i := Set(old(bitmap[i]), out - 1)]
    {
      out := BitScanForward(bitmap[i]);
      if out > 0 {
        bitmap[i] := Set(bitmap[i], out - 1);
      } else {
        bitmap[i] := Set(bitmap[i], TOP);
      }
      if out == 0 {
        out := 32;
      }
    }
  }
}
