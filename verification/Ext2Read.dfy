/**
 Reading a file through direct, singly and doubly indirect blocks (fs/ext2.c:347-420).

 The file system image is a sequence of bytes; a byte outside it reads as 0.
 */
module Ext2Read {

  import opened Basics

  function Min(a: int, b: int): int {
    if a < b then a else b
  }

  function At(disk: seq<Byte>, i: nat): Byte {
    if i < |disk| then disk[i] else 0
  }

  /** Byte t of block n. */
  function BlockByte(disk: seq<Byte>, bs: nat, n: nat, t: nat): Byte {
    At(disk, n * bs + t)
  }

  /** The little-endian 32-bit word at byte offset o. */
  function WordAt(s: seq<Byte>, o: nat): nat {
    At(s, o) + At(s, o + 1) * 0x100 + At(s, o + 2) * 0x10000 + At(s, o + 3) * 0x1000000
  }

  /** Pointer j of the block `block` of block numbers. */
  function Pointer(disk: seq<Byte>, bs: nat, block: nat, j: nat): nat {
    WordAt(disk, block * bs + 4 * j)
  }

  /** Block numbers are stored with the least significant byte first. */
  lemma PointerStored(disk: seq<Byte>, bs: nat, block: nat, j: nat, x: nat)
    requires x < 0x1_0000_0000 && block * bs + 4 * j + 4 <= |disk|
    requires var o := block * bs + 4 * j;
             && disk[o] == x % 0x100 && disk[o + 1] == x / 0x100 % 0x100
             && disk[o + 2] == x / 0x10000 % 0x100 && disk[o + 3] == x / 0x1000000
    ensures Pointer(disk, bs, block, j) == x
  {
    BytesOf(x);
  }

  lemma BytesOf(x: nat)
    ensures x == x % 0x100 + x / 0x100 % 0x100 * 0x100 + x / 0x10000 % 0x100 * 0x10000 + x / 0x1000000 * 0x1000000
  {
    assert x / 0x100 == x / 0x10000 * 0x100 + x / 0x100 % 0x100;
    assert x / 0x10000 == x / 0x1000000 * 0x100 + x / 0x10000 % 0x100;
  }

  // ---- the flat file ---------------------------------------------------------------------------

  /** Block b of the file `content` is block n of the disk. */
  ghost predicate BlockIs(content: seq<Byte>, disk: seq<Byte>, bs: nat, b: nat, n: nat) {
    forall t | 0 <= t < bs && b * bs + t < |content| :: content[b * bs + t] == BlockByte(disk, bs, n, t)
  }

  /** The file block behind the first pointer of pointer i of the doubly indirect block. */
  function Behind(p: nat, i: nat): nat {
    if i == 0 then 12 + p else Behind(p, i - 1) + p
  }

  /** All blocks behind doubly indirect block `block` are those of the file from block 12 + p on. */
  ghost predicate DoublyStores(content: seq<Byte>, disk: seq<Byte>, bs: nat, block: nat) {
    var p := bs / 4;
    forall i, j | 0 <= i < p && 0 <= j < p ::
      BlockIs(content, disk, bs, Behind(p, i) + j, Pointer(disk, bs, Pointer(disk, bs, block, i), j))
  }

  /** The disk stores `content` under the block pointers `blocks` of an inode, without triple
      indirection; p is the number of pointers in a block. */
  ghost predicate Stores(disk: seq<Byte>, bs: nat, blocks: seq<nat>, content: seq<Byte>)
    requires |blocks| == 15
  {
    var p := bs / 4;
    && |content| <= (12 + p + p * p) * bs
    && (|content| > 12 * bs ==> blocks[12] != 0)
    && (|content| > (12 + p) * bs ==> blocks[13] != 0)
    && (forall b | 0 <= b < 12 :: BlockIs(content, disk, bs, b, blocks[b]))
    && (forall j | 0 <= j < p :: BlockIs(content, disk, bs, 12 + j, Pointer(disk, bs, blocks[12], j)))
    && DoublyStores(content, disk, bs, blocks[13])
  }

  // ---- what is delivered -----------------------------------------------------------------------

  /** Where in the file the delivered bytes start: at the block of pos, or at block 12 beyond it. */
  function Base(pos: nat, bs: nat): nat
    requires bs > 0
  {
    Min(pos / bs, 12) * bs
  }

  /** How many bytes a read delivers: none from the end of the file on, and before it as many as asked for or
      as there are. */
  function Length(pos: nat, size: nat, count: nat): nat {
    if pos >= size then 0 else Min(count, size - pos)
  }

  class OpenFile {
    var pos: nat
    const size: nat

    constructor (size: nat)
      ensures this.size == size && pos == 0
    {
      this.size := size;
      pos := 0;
    }
  }

  /** The read so far: `ret` bytes from `base` on are in `to`, and either they are all of it or the next
      block to read is block nb of the file. */
  ghost predicate Progress(content: seq<Byte>, bs: nat, base: nat, len: nat, to: seq<Byte>, ret: nat, nb: nat) {
    && ret <= len && ret <= |to| && base + len <= |content|
    && to[..ret] == content[base..base + ret]
    && (ret == len || base + ret == nb * bs)
  }

  method ReadBlock(disk: seq<Byte>, bs: nat, f: OpenFile?, block: nat, to: array<Byte>, off: nat, count: nat)
    returns (ret: nat)
    requires off + count <= to.Length && (f != null ==> f as object != to)
    modifies to, f
    ensures ret == if f == null then Min(bs, count) else Min(bs, Length(old(f.pos), f.size, count))
    ensures f != null ==> f.pos == old(f.pos) + ret
    ensures forall k | 0 <= k < to.Length ::
              to[k] == if off <= k < off + ret then BlockByte(disk, bs, block, k - off) else old(to[k])
  {
    var pos := 0;
    ret := 0;
    var i := 0;
    while i < bs
      invariant ret == pos == i <= bs && i <= count
      invariant f != null ==> f.pos == old(f.pos) && (i > 0 ==> f.pos + i <= f.size)
      invariant forall k | 0 <= k < to.Length ::
                  to[k] == if off <= k < off + i then BlockByte(disk, bs, block, k - off) else old(to[k])
    {
      if i == count || (f != null && pos + f.pos >= f.size) {
        break;
      }
      to[off + pos] := BlockByte(disk, bs, block, i);
      pos := pos + 1;
      i, ret := i + 1, ret + 1;
    }
    if f != null {
      f.pos := f.pos + pos;
    }
  }

  /** Reading block nb of the file, whichever disk block holds it, makes progress by one block; once
      all is read, reading any block changes nothing. */
  lemma OneBlock(content: seq<Byte>, disk: seq<Byte>, bs: nat, base: nat, len: nat,
                 to: seq<Byte>, to': seq<Byte>, ret: nat, r: nat, nb: nat, n: nat)
    requires Progress(content, bs, base, len, to, ret, nb)
    requires ret == len || BlockIs(content, disk, bs, nb, n)
    requires r == Min(bs, len - ret) && |to'| == |to| && ret + r <= |to|
    requires forall k | 0 <= k < |to| :: to'[k] == if ret <= k < ret + r then BlockByte(disk, bs, n, k - ret) else to[k]
    ensures Progress(content, bs, base, len, to', ret + r, nb + 1)
  {
    forall k | 0 <= k < ret + r
      ensures to'[k] == content[base + k]
    {
      if k < ret {
        assert to'[k] == to[..ret][k];
      } else {
        assert content[nb * bs + (k - ret)] == BlockByte(disk, bs, n, k - ret);
      }
    }
    assert (nb + 1) * bs == nb * bs + bs;
  }

  /** What is still to be delivered is what the remaining count and the file size leave. */
  ghost predicate Remaining(f: OpenFile, len: nat, ret: nat, count: nat)
    reads f
  {
    ret <= len && len - ret == Length(f.pos, f.size, count)
  }

  /** read_block of a data block: block nb of the file, or any block once all is read. */
  method ReadDataBlock(disk: seq<Byte>, bs: nat, f: OpenFile, block: nat, to: array<Byte>, off: nat, count: nat,
                       ghost content: seq<Byte>, ghost base: nat, ghost len: nat, ghost nb: nat)
    returns (ret: nat)
    requires off + count <= to.Length && f as object != to
    requires Progress(content, bs, base, len, to[..], off, nb) && Remaining(f, len, off, count)
    requires off == len || BlockIs(content, disk, bs, nb, block)
    modifies to, f
    ensures ret <= count && f.pos == old(f.pos) + ret
    ensures Progress(content, bs, base, len, to[..], off + ret, nb + 1)
    ensures Remaining(f, len, off + ret, count - ret)
    ensures forall k | off + ret <= k < to.Length :: to[k] == old(to[k])
  {
    ghost var before := to[..];
    ret := ReadBlock(disk, bs, f, block, to, off, count);
    OneBlock(content, disk, bs, base, len, before, to[..], off, ret, nb, block);
  }

  /** Once all is read, no matter which block would be next. */
  lemma Finished(content: seq<Byte>, bs: nat, base: nat, len: nat, to: seq<Byte>, nb: nat, nb': nat)
    requires Progress(content, bs, base, len, to, len, nb)
    ensures Progress(content, bs, base, len, to, len, nb')
  {
  }

  method ReadIndirectBlock(disk: seq<Byte>, bs: nat, f: OpenFile, block: nat, to: array<Byte>, off: nat, count: nat,
                           ghost content: seq<Byte>, ghost base: nat, ghost len: nat, ghost nb: nat)
    returns (ret: nat)
    requires off + count <= to.Length && f as object != to
    requires Progress(content, bs, base, len, to[..], off, nb) && Remaining(f, len, off, count)
    requires off == len || forall j | 0 <= j < bs / 4 :: BlockIs(content, disk, bs, nb + j, Pointer(disk, bs, block, j))
    modifies to, f
    ensures ret <= count && f.pos == old(f.pos) + ret
    ensures Progress(content, bs, base, len, to[..], off + ret, nb + bs / 4)
    ensures Remaining(f, len, off + ret, count - ret)
    ensures forall k | off + ret <= k < to.Length :: to[k] == old(to[k])
  {
    ret := ReadPointers(disk, bs, f, block, bs / 4, to, off, count, content, base, len, nb);
  }

  /** The loop over the pointers of a block. */
  method ReadPointers(disk: seq<Byte>, bs: nat, f: OpenFile, block: nat, blockcount: nat, to: array<Byte>, off: nat,
                      count: nat,
                      ghost content: seq<Byte>, ghost base: nat, ghost len: nat, ghost nb: nat)
    returns (ret: nat)
    requires off + count <= to.Length && f as object != to
    requires Progress(content, bs, base, len, to[..], off, nb) && Remaining(f, len, off, count)
    requires off == len || forall j | 0 <= j < blockcount :: BlockIs(content, disk, bs, nb + j, Pointer(disk, bs, block, j))
    modifies to, f
    ensures ret <= count && f.pos == old(f.pos) + ret
    ensures Progress(content, bs, base, len, to[..], off + ret, nb + blockcount)
    ensures Remaining(f, len, off + ret, count - ret)
    ensures forall k | off + ret <= k < to.Length :: to[k] == old(to[k])
  {
    ret := 0;
    for i := 0 to blockcount
      invariant ret <= count && f.pos == old(f.pos) + ret
      invariant Progress(content, bs, base, len, to[..], off + ret, nb + i)
      invariant Remaining(f, len, off + ret, count - ret)
      invariant forall k | off + ret <= k < to.Length :: to[k] == old(to[k])
    {
      var r, done := ReadBehind(disk, bs, f, Pointer(disk, bs, block, i), to, off + ret, count - ret, content, base, len,
                                nb + i, nb + blockcount);
      ret := ret + r;
      if done {
        break;
      }
    }
  }

  /** The loop body: whether the loop ends here is known after the read. */
  method ReadBehind(disk: seq<Byte>, bs: nat, f: OpenFile, block: nat, to: array<Byte>, off: nat, count: nat,
                    ghost content: seq<Byte>, ghost base: nat, ghost len: nat, ghost nb: nat, ghost end: nat)
    returns (ret: nat, done: bool)
    requires off + count <= to.Length && f as object != to
    requires Progress(content, bs, base, len, to[..], off, nb) && Remaining(f, len, off, count)
    requires off == len || BlockIs(content, disk, bs, nb, block)
    modifies to, f
    ensures ret <= count && f.pos == old(f.pos) + ret
    ensures Progress(content, bs, base, len, to[..], off + ret, if done then end else nb + 1)
    ensures Remaining(f, len, off + ret, count - ret)
    ensures forall k | off + ret <= k < to.Length :: to[k] == old(to[k])
  {
    ret := ReadDataBlock(disk, bs, f, block, to, off, count, content, base, len, nb);
    done := ret >= count || f.pos >= f.size;
    if done {
      Finished(content, bs, base, len, to[..], nb + 1, end);
    }
  }

  /** The block of a position, and the start of that block. */
  lemma BlockOf(pos: nat, bs: nat)
    requires bs > 0
    ensures pos / bs * bs <= pos < pos / bs * bs + bs
    ensures pos / bs >= 12 <==> pos >= 12 * bs
    ensures Base(pos, bs) <= pos
  {
    if pos / bs >= 12 {
      assert 12 * bs <= pos / bs * bs;
    } else {
      assert pos / bs * bs <= 11 * bs;
    }
  }

  /** The direct blocks. */
  method ReadDirectBlocks(disk: seq<Byte>, bs: nat, f: OpenFile, blocks: seq<nat>, to: array<Byte>, count: nat,
                          ghost content: seq<Byte>, ghost base: nat, ghost len: nat)
    returns (ret: nat)
    requires bs > 0 && |blocks| == 15 && count <= to.Length && f as object != to
    requires base == Base(f.pos, bs) && base + len <= |content| && Remaining(f, len, 0, count)
    requires forall b | 0 <= b < 12 :: BlockIs(content, disk, bs, b, blocks[b])
    modifies to, f
    ensures ret <= count && f.pos == old(f.pos) + ret
    ensures Progress(content, bs, base, len, to[..], ret, 12) && Remaining(f, len, ret, count - ret)
    ensures forall k | ret <= k < to.Length :: to[k] == old(to[k])
  {
    ret := 0;
    var b := f.pos / bs;
    ghost var nb := Min(b, 12);
    while b <= 11
      invariant nb == Min(b, 12) && ret <= count && f.pos == old(f.pos) + ret
      invariant Progress(content, bs, base, len, to[..], ret, nb) && Remaining(f, len, ret, count - ret)
      invariant forall k | ret <= k < to.Length :: to[k] == old(to[k])
    {
      var r := ReadDataBlock(disk, bs, f, blocks[b], to, ret, count - ret, content, base, len, nb);
      ret := ret + r;
      if ret >= count || f.pos >= f.size {
        Finished(content, bs, base, len, to[..], nb + 1, 12);
        nb := 12;
        break;
      }
      b := b + 1;
      nb := nb + 1;
    }
  }

  lemma CopiedPointer(disk: seq<Byte>, bs: nat, block: nat, temp: seq<Byte>, i: nat)
    requires bs % 4 == 0 && |temp| == 4 * bs && i < bs / 4
    requires forall k | 0 <= k < bs :: temp[k] == BlockByte(disk, bs, block, k)
    ensures WordAt(temp, 4 * i) == Pointer(disk, bs, block, i)
  {
    assert temp[4 * i] == BlockByte(disk, bs, block, 4 * i);
    assert temp[4 * i + 1] == BlockByte(disk, bs, block, 4 * i + 1);
    assert temp[4 * i + 2] == BlockByte(disk, bs, block, 4 * i + 2);
    assert temp[4 * i + 3] == BlockByte(disk, bs, block, 4 * i + 3);
  }

  lemma {:induction false} BehindIs(p: nat, i: nat)
    ensures Behind(p, i) == 12 + p + i * p
  {
    if i > 0 {
      BehindIs(p, i - 1);
      assert i * p == (i - 1) * p + p;
    }
  }

  /** The blocks behind pointer i of the doubly indirect block. */
  lemma BehindPointer(content: seq<Byte>, disk: seq<Byte>, bs: nat, block: nat, i: nat, nb: nat)
    requires DoublyStores(content, disk, bs, block) && i < bs / 4 && nb == Behind(bs / 4, i)
    ensures forall j | 0 <= j < bs / 4 :: BlockIs(content, disk, bs, nb + j, Pointer(disk, bs, Pointer(disk, bs, block, i), j))
  {
  }

  /** A copy of the doubly indirect block, in a buffer for four times as many pointers. */
  method LoadPointers(disk: seq<Byte>, bs: nat, block: nat) returns (temp: array<Byte>)
    requires bs % 4 == 0
    ensures fresh(temp) && temp.Length == 4 * bs
    ensures forall i | 0 <= i < bs / 4 :: WordAt(temp[..], 4 * i) == Pointer(disk, bs, block, i)
  {
    temp := new Byte[4 * bs](_ => 0);
    var _ := ReadBlock(disk, bs, null, block, temp, 0, bs);
    forall i | 0 <= i < bs / 4
      ensures WordAt(temp[..], 4 * i) == Pointer(disk, bs, block, i)
    {
      CopiedPointer(disk, bs, block, temp[..], i);
    }
  }

  /** After p times p blocks nothing is left. */
  lemma NothingLeft(content: seq<Byte>, bs: nat, base: nat, len: nat, to: seq<Byte>, ret: nat, p: nat)
    requires Progress(content, bs, base, len, to, ret, Behind(p, p)) && |content| <= (12 + p + p * p) * bs
    ensures ret == len
  {
    BehindIs(p, p);
  }

  /** Before pointer i: all is read, or the next block is the first one behind it. */
  ghost predicate AtPointer(p: nat, i: nat, nb: nat, ret: nat, len: nat) {
    ret == len || (i < p && nb == Behind(p, i))
  }

  /** One iteration of the doubly indirect loop. */
  method ReadPointer(disk: seq<Byte>, bs: nat, f: OpenFile, pointers: seq<Byte>, i: nat, to: array<Byte>, off: nat,
                     count: nat,
                     ghost content: seq<Byte>, ghost base: nat, ghost len: nat, ghost nb: nat, ghost block: nat)
    returns (ret: nat)
    requires off + count <= to.Length && f as object != to
    requires Progress(content, bs, base, len, to[..], off, nb) && Remaining(f, len, off, count)
    requires |content| <= (12 + bs / 4 + bs / 4 * (bs / 4)) * bs
    requires AtPointer(bs / 4, i, nb, off, len)
    requires off == len || DoublyStores(content, disk, bs, block)
    requires i < bs / 4 ==> WordAt(pointers, 4 * i) == Pointer(disk, bs, block, i)
    modifies to, f
    ensures ret <= count && f.pos == old(f.pos) + ret
    ensures Progress(content, bs, base, len, to[..], off + ret, nb + bs / 4)
    ensures Remaining(f, len, off + ret, count - ret)
    ensures AtPointer(bs / 4, i + 1, nb + bs / 4, off + ret, len)
    ensures forall k | off + ret <= k < to.Length :: to[k] == old(to[k])
  {
    ghost var p := bs / 4;
    if off != len {
      BehindPointer(content, disk, bs, block, i, nb);
    }
    ret := ReadIndirectBlock(disk, bs, f, WordAt(pointers, 4 * i), to, off, count, content, base, len, nb);
    if off + ret != len && i + 1 == p {
      NothingLeft(content, bs, base, len, to[..], off + ret, p);
    }
  }

  /** The doubly indirect part: its loop runs over four times as many pointers as a block has, the
      surplus ones being zero. */
  method ReadDoublyIndirect(disk: seq<Byte>, bs: nat, f: OpenFile, block: nat, to: array<Byte>, off: nat, count: nat,
                            ghost content: seq<Byte>, ghost base: nat, ghost len: nat)
    returns (ret: nat)
    requires bs > 0 && bs % 4 == 0 && off + count <= to.Length && f as object != to
    requires Progress(content, bs, base, len, to[..], off, 12 + bs / 4) && Remaining(f, len, off, count)
    requires |content| <= (12 + bs / 4 + bs / 4 * (bs / 4)) * bs
    requires off == len || DoublyStores(content, disk, bs, block)
    modifies to, f
    ensures ret <= count && f.pos == old(f.pos) + ret && off + ret == len
    ensures Progress(content, bs, base, len, to[..], len, 0)
    ensures forall k | off + ret <= k < to.Length :: to[k] == old(to[k])
  {
    var temp := LoadPointers(disk, bs, block);
    ret := ReadThrough(disk, bs, f, temp[..], to, off, count, content, base, len, block);
  }

  /** The loop over the pointers. */
  method ReadThrough(disk: seq<Byte>, bs: nat, f: OpenFile, pointers: seq<Byte>, to: array<Byte>, off: nat, count: nat,
                     ghost content: seq<Byte>, ghost base: nat, ghost len: nat, ghost block: nat)
    returns (ret: nat)
    requires bs > 0 && bs % 4 == 0 && off + count <= to.Length && f as object != to
    requires Progress(content, bs, base, len, to[..], off, 12 + bs / 4) && Remaining(f, len, off, count)
    requires |content| <= (12 + bs / 4 + bs / 4 * (bs / 4)) * bs
    requires off == len || DoublyStores(content, disk, bs, block)
    requires forall i | 0 <= i < bs / 4 :: WordAt(pointers, 4 * i) == Pointer(disk, bs, block, i)
    modifies to, f
    ensures ret <= count && f.pos == old(f.pos) + ret && off + ret == len
    ensures Progress(content, bs, base, len, to[..], len, 0)
    ensures forall k | off + ret <= k < to.Length :: to[k] == old(to[k])
  {
    ret := 0;
    ghost var nb: nat := 12 + bs / 4;
    for i := 0 to bs
      invariant ret <= count && f.pos == old(f.pos) + ret
      invariant Progress(content, bs, base, len, to[..], off + ret, nb) && Remaining(f, len, off + ret, count - ret)
      invariant AtPointer(bs / 4, i, nb, off + ret, len)
      invariant forall k | off + ret <= k < to.Length :: to[k] == old(to[k])
    {
      var r := ReadPointer(disk, bs, f, pointers, i, to, off + ret, count - ret, content, base, len, nb, block);
      ret := ret + r;
      nb := nb + bs / 4;
    }
  }

  // ---- the whole read --------------------------------------------------------------------------

  datatype Outcome = Panic | Read(n: nat)

  /** The bytes that a read of `count` bytes at `pos` delivers from the file `content`. */
  function Delivered(content: seq<Byte>, bs: nat, pos: nat, count: nat): (d: seq<Byte>)
    requires bs > 0
    ensures if pos < |content| then |d| <= count && pos + |d| <= |content| && (|d| == count || pos + |d| == |content|) else d == []
  {
    var len := Length(pos, |content|, count);
    if len == 0 then []
    else
      BlockOf(pos, bs);
      content[Base(pos, bs)..Base(pos, bs) + len]
  }

  /** The singly indirect part: skipped only when nothing is left to read. */
  method SinglyPart(disk: seq<Byte>, bs: nat, f: OpenFile, blocks: seq<nat>, to: array<Byte>, off: nat, count: nat,
                    ghost content: seq<Byte>, ghost base: nat, ghost len: nat)
    returns (ret: nat)
    requires |blocks| == 15 && off + count <= to.Length && f as object != to
    requires Stores(disk, bs, blocks, content) && base + off <= f.pos
    requires Progress(content, bs, base, len, to[..], off, 12) && Remaining(f, len, off, count)
    modifies to, f
    ensures ret <= count && f.pos == old(f.pos) + ret
    ensures Progress(content, bs, base, len, to[..], off + ret, 12 + bs / 4)
    ensures Remaining(f, len, off + ret, count - ret)
    ensures forall k | off + ret <= k < to.Length :: to[k] == old(to[k])
  {
    ret := 0;
    if blocks[12] != 0 && f.pos >= 12 * bs {
      ret := ReadIndirectBlock(disk, bs, f, blocks[12], to, off, count, content, base, len, 12);
    }
  }

  /** The doubly indirect part: its guard counts 256 pointers to a block, which no block size undercuts. */
  method DoublyPart(disk: seq<Byte>, bs: nat, f: OpenFile, blocks: seq<nat>, to: array<Byte>, off: nat, count: nat,
                    ghost content: seq<Byte>, ghost base: nat, ghost len: nat)
    returns (ret: nat)
    requires bs >= 1024 && bs % 4 == 0 && |blocks| == 15 && off + count <= to.Length && f as object != to
    requires Stores(disk, bs, blocks, content) && base + off <= f.pos
    requires Progress(content, bs, base, len, to[..], off, 12 + bs / 4) && Remaining(f, len, off, count)
    modifies to, f
    ensures f.pos == old(f.pos) + ret && off + ret == len
    ensures Progress(content, bs, base, len, to[..], len, 0)
    ensures forall k | len <= k < to.Length :: to[k] == old(to[k])
  {
    ret := 0;
    if off < len {
      assert 268 * bs <= (12 + bs / 4) * bs;
    }
    if blocks[13] != 0 && f.pos >= 12 * bs + 256 * bs {
      ret := ReadDoublyIndirect(disk, bs, f, blocks[13], to, off, count, content, base, len);
    }
  }

  /** The three parts in turn. */
  method ReadParts(disk: seq<Byte>, bs: nat, f: OpenFile, blocks: seq<nat>, to: array<Byte>, count: nat,
                   ghost content: seq<Byte>)
    returns (ret: nat)
    requires bs >= 1024 && bs % 4 == 0 && |blocks| == 15 && count <= to.Length && f as object != to
    requires f.pos < f.size == |content| && Stores(disk, bs, blocks, content)
    modifies to, f
    ensures ret == Length(old(f.pos), f.size, count) && f.pos == old(f.pos) + ret
    ensures Progress(content, bs, Base(old(f.pos), bs), ret, to[..], ret, 0)
    ensures forall k | ret <= k < to.Length :: to[k] == old(to[k])
  {
    ghost var base, len := Base(f.pos, bs), Length(f.pos, f.size, count);
    BlockOf(f.pos, bs);
    ret := ReadDirectBlocks(disk, bs, f, blocks, to, count, content, base, len);
    var n := SinglyPart(disk, bs, f, blocks, to, ret, count - ret, content, base, len);
    ret := ret + n;
    n := DoublyPart(disk, bs, f, blocks, to, ret, count - ret, content, base, len);
    ret := ret + n;
  }

  /** read_blocks delivers, from any position, exactly the bytes of the file from Base(pos) on, as many
      as the count and the size leave from pos, and advances the position by as many; it halts on a
      file with a triply indirect block. */
  method ReadBlocks(disk: seq<Byte>, bs: nat, f: OpenFile, blocks: seq<nat>, to: array<Byte>, count: nat,
                    ghost content: seq<Byte>)
    returns (r: Outcome)
    requires bs >= 1024 && bs % 4 == 0 && |blocks| == 15 && count <= to.Length && f as object != to
    requires f.size == |content| && Stores(disk, bs, blocks, content)
    modifies to, f
    ensures r == Panic <==> old(f.pos) < f.size && blocks[14] != 0
    ensures r.Read? && old(f.pos) >= f.size ==> r.n == 0
    ensures r.Read? && old(f.pos) < f.size ==>
              r.n <= count && old(f.pos) + r.n <= f.size && (r.n == count || old(f.pos) + r.n == f.size)
    ensures r.Read? ==>
              && r.n <= to.Length && f.pos == old(f.pos) + r.n && to[r.n..] == old(to[r.n..])
              && to[..r.n] == Delivered(content, bs, old(f.pos), count)
  {
    if f.pos >= f.size {
      return Read(0);
    }
    var ret := ReadParts(disk, bs, f, blocks, to, count, content);
    if blocks[14] != 0 {
      return Panic;
    }
    return Read(ret);
  }

  /** The delivered bytes are those from the start of the block of the position on, or of block 12 beyond it. */
  lemma DeliveredFrom(content: seq<Byte>, bs: nat, pos: nat, count: nat, k: nat)
    requires bs > 0 && k < |Delivered(content, bs, pos, count)|
    ensures var start := if pos < 12 * bs then pos - pos % bs else 12 * bs;
            start + k < |content| && Delivered(content, bs, pos, count)[k] == content[start + k]
  {
    BaseIs(pos, bs);
    BlockOf(pos, bs);
  }

  lemma BaseIs(pos: nat, bs: nat)
    requires bs > 0
    ensures Base(pos, bs) == if pos < 12 * bs then pos - pos % bs else 12 * bs
  {
    BlockOf(pos, bs);
  }

  /** A position is where its delivered bytes start exactly when it is a block boundary no further than
      block 12. */
  lemma BaseIsPos(pos: nat, bs: nat)
    requires bs > 0
    ensures Base(pos, bs) == pos <==> pos % bs == 0 && pos <= 12 * bs
  {
    BlockOf(pos, bs);
    if pos / bs < 12 {
      assert pos == pos / bs * bs + pos % bs;
    } else if pos == 12 * bs {
      assert pos % bs == 0;
    }
  }

  /** The slice that a read at pos is meant to deliver. */
  function Wanted(content: seq<Byte>, pos: nat, count: nat): (d: seq<Byte>)
    ensures if pos < |content| then |d| <= count && pos + |d| <= |content| && (|d| == count || pos + |d| == |content|) else d == []
    ensures forall k | 0 <= k < |d| :: d[k] == content[pos + k]
  {
    if pos >= |content| then [] else content[pos..Min(pos + count, |content|)]
  }

  /** For every file of a given size, the read is right exactly when it delivers nothing or starts at a
      block boundary no further than block 12. */
  lemma ReadRightIff(size: nat, bs: nat, pos: nat, count: nat)
    requires bs > 0
    ensures (forall content: seq<Byte> | |content| == size :: Delivered(content, bs, pos, count) == Wanted(content, pos, count))
            <==> pos >= size || count == 0 || (pos % bs == 0 && pos <= 12 * bs)
  {
    BaseIsPos(pos, bs);
    BlockOf(pos, bs);
    var base, len := Base(pos, bs), Length(pos, size, count);
    if len != 0 && base != pos {
      var content: seq<Byte> := seq(size, k => if k == base then 1 else 0);
      assert Delivered(content, bs, pos, count)[0] == 1;
      assert Wanted(content, pos, count)[0] == 0;
    }
  }
}
