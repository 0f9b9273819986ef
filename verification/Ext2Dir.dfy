/**
 Directory blocks, byte by byte (fs/ext2.c:70-94, 112-220, 258-275): searching, listing, and inserting by
 splitting the last record.

 A record has a 4-byte inode number, a 2-byte size, a 1-byte name length, a type byte, and the name.
 */
module Ext2Dir {

  import opened Basics

  const HEADER := 8
  const RECORD := 12   // sizeof(ext2_directory)

  /** b << 8 */
  function Shl8(b: nat): nat {
    if b == 0 then 0 else Shl8(b - 1) + 0x100
  }

  lemma {:induction false} Shl8Is(b: nat)
    ensures Shl8(b) == b * 0x100
  {
    if b > 0 {
      Shl8Is(b - 1);
    }
  }

  /** x & 0xFF */
  function Low8(x: nat): Byte {
    if x < 0x100 then x else Low8(x - 0x100)
  }

  /** x >> 8 */
  function Shr8(x: nat): nat {
    if x < 0x100 then 0 else Shr8(x - 0x100) + 1
  }

  lemma {:induction false} Split8(x: nat)
    ensures x == Low8(x) + Shl8(Shr8(x))
  {
    if x >= 0x100 {
      Split8(x - 0x100);
    }
  }

  lemma {:induction false} Shr8Bound(x: nat, k: nat)
    requires x < k * 0x100
    ensures Shr8(x) < k
  {
    if x >= 0x100 {
      Shr8Bound(x - 0x100, k - 1);
    }
  }

  function Word16(a: nat, b: nat): nat {
    a + Shl8(b)
  }

  function Word32(a: nat, b: nat, c: nat, d: nat): nat {
    a + Shl8(b + Shl8(c + Shl8(d)))
  }

  function Inode(img: seq<Byte>, o: nat): nat
    requires o + HEADER <= |img|
  {
    Word32(img[o], img[o + 1], img[o + 2], img[o + 3])
  }

  function Size(img: seq<Byte>, o: nat): nat
    requires o + HEADER <= |img|
  {
    Word16(img[o + 4], img[o + 5])
  }

  function NameLen(img: seq<Byte>, o: nat): Byte
    requires o + HEADER <= |img|
  {
    img[o + 6]
  }

  /** The fields of a record, in the byte order of the ext2 format. */
  lemma RecordLayout(img: seq<Byte>, o: nat)
    requires o + 8 <= |img|
    ensures Inode(img, o) == (img[o] as int) + 0x100 * (img[o + 1] as int) + 0x10000 * (img[o + 2] as int) + 0x1000000 * (img[o + 3] as int)
    ensures Size(img, o) == (img[o + 4] as int) + 0x100 * (img[o + 5] as int) && NameLen(img, o) == img[o + 6]
  {
    Shl8Is(img[o + 5]);
    Shl8Is(img[o + 3]);
    Shl8Is(img[o + 2] + Shl8(img[o + 3]));
    Shl8Is(img[o + 1] + Shl8(img[o + 2] + Shl8(img[o + 3])));
  }

  // ---- a block as a list of entries --------------------------------------------------------------

  datatype Entry = Entry(inode: nat, name: seq<Byte>)

  /** A record at o that ends inside the block and has room for its name. */
  predicate RecordOk(img: seq<Byte>, o: nat, end: nat) {
    && o + HEADER <= end <= |img|
    && HEADER + NameLen(img, o) <= Size(img, o) && o + Size(img, o) <= end
  }

  /** Records tile the bytes from o to end exactly. */
  predicate Tiled(img: seq<Byte>, o: nat, end: nat)
    decreases end - o
  {
    if o >= end then o == end else RecordOk(img, o, end) && Tiled(img, o + Size(img, o), end)
  }

  function EntryAt(img: seq<Byte>, o: nat, end: nat): Entry
    requires RecordOk(img, o, end)
  {
    Entry(Inode(img, o), img[o + HEADER..o + HEADER + NameLen(img, o)])
  }

  function Entries(img: seq<Byte>, o: nat, end: nat): seq<Entry>
    requires Tiled(img, o, end)
    decreases end - o
  {
    if o >= end then [] else [EntryAt(img, o, end)] + Entries(img, o + Size(img, o), end)
  }

  /** The inode of the first entry with that name. */
  function Lookup(es: seq<Entry>, name: seq<Byte>): Option<nat> {
    if es == [] then None else if es[0].name == name then Some(es[0].inode) else Lookup(es[1..], name)
  }

  lemma {:induction false} LookupAppend(es: seq<Entry>, e: Entry, name: seq<Byte>)
    ensures Lookup(es + [e], name) ==
            if Lookup(es, name).Some? then Lookup(es, name) else if e.name == name then Some(e.inode) else None
  {
    if es != [] {
      assert (es + [e])[1..] == es[1..] + [e];
      LookupAppend(es[1..], e, name);
    }
  }

  lemma LookupStep(img: seq<Byte>, o: nat, end: nat, name: seq<Byte>)
    requires Tiled(img, o, end) && o < end
    ensures Lookup(Entries(img, o, end), name) ==
            if EntryAt(img, o, end).name == name then Some(EntryAt(img, o, end).inode)
            else Lookup(Entries(img, o + Size(img, o), end), name)
  {
    assert Entries(img, o, end)[1..] == Entries(img, o + Size(img, o), end);
  }

  lemma TiledStep(img: seq<Byte>, o: nat, end: nat)
    requires Tiled(img, o, end) && o < end
    ensures RecordOk(img, o, end) && o < o + Size(img, o) <= end && Tiled(img, o + Size(img, o), end)
  {
  }

  /** advance: the record after the one at o. */
  method Advance(img: array<Byte>, o: nat, ghost end: nat, ghost s: seq<Byte>) returns (next: nat)
    requires s == img[..] && RecordOk(s, o, end)
    ensures next == o + Size(s, o)
  {
    next := o + Word16(img[o + 4], img[o + 5]);
  }

  /** Whether the record at o has that name. */
  method HasName(img: array<Byte>, o: nat, name: seq<Byte>, ghost end: nat, ghost s: seq<Byte>) returns (hit: bool)
    requires s == img[..] && RecordOk(s, o, end)
    ensures hit <==> EntryAt(s, o, end).name == name
  {
    var len := img[o + 6];
    hit := |name| == len && img[o + HEADER..o + HEADER + len] == name;
  }

  method InodeOf(img: array<Byte>, o: nat, ghost end: nat, ghost s: seq<Byte>) returns (inode: nat)
    requires s == img[..] && RecordOk(s, o, end)
    ensures inode == EntryAt(s, o, end).inode
  {
    inode := Word32(img[o], img[o + 1], img[o + 2], img[o + 3]);
  }

  /** The search from record o on. */
  ghost function Found(img: seq<Byte>, o: nat, end: nat, name: seq<Byte>): Option<nat>
    requires Tiled(img, o, end)
    decreases end - o
  {
    if o >= end then None
    else if EntryAt(img, o, end).name == name then Some(EntryAt(img, o, end).inode)
    else Found(img, o + Size(img, o), end, name)
  }

  lemma {:induction false} FoundIsLookup(img: seq<Byte>, o: nat, end: nat, name: seq<Byte>)
    requires Tiled(img, o, end)
    ensures Found(img, o, end, name) == Lookup(Entries(img, o, end), name)
    decreases end - o
  {
    if o < end {
      FoundIsLookup(img, o + Size(img, o), end, name);
      LookupStep(img, o, end, name);
    }
  }

  /** ext2_search in the block from base to base + bs. */
  method Search(img: array<Byte>, base: nat, bs: nat, name: seq<Byte>) returns (r: Option<nat>)
    requires base + bs <= img.Length && Tiled(img[..], base, base + bs)
    ensures r == Lookup(Entries(img[..], base, base + bs), name)
  {
    FoundIsLookup(img[..], base, base + bs, name);
    r := SearchFrom(img, base, base + bs, name);
  }

  /** The loop of ext2_search. */
  method SearchFrom(img: array<Byte>, base: nat, end: nat, name: seq<Byte>) returns (r: Option<nat>)
    requires base <= end <= img.Length && Tiled(img[..], base, end)
    ensures r == Found(img[..], base, end, name)
  {
    ghost var s := img[..];
    ghost var goal := Found(s, base, end, name);
    var dir := base;
    while dir < end
      invariant dir <= end && Tiled(s, dir, end) && goal == Found(s, dir, end, name)
      decreases end - dir
    {
      var done;
      done, r, dir := SearchAt(img, dir, end, name, s);
      if done {
        return;
      }
    }
    return None;
  }

  /** One record of the loop. */
  method SearchAt(img: array<Byte>, dir: nat, end: nat, name: seq<Byte>, ghost s: seq<Byte>)
    returns (done: bool, r: Option<nat>, next: nat)
    requires s == img[..] && dir < end <= img.Length && Tiled(s, dir, end)
    ensures done ==> r == Found(s, dir, end, name)
    ensures !done ==> dir < next <= end && Tiled(s, next, end) && Found(s, next, end, name) == Found(s, dir, end, name)
  {
    TiledStep(s, dir, end);
    done := HasName(img, dir, name, end, s);
    if done {
      var inode := InodeOf(img, dir, end, s);
      return true, Some(inode), dir;
    }
    next := Advance(img, dir, end, s);
    r := None;
  }

  /** Where the last record of a non-empty block starts. */
  function Last(img: seq<Byte>, o: nat, end: nat): (l: nat)
    requires Tiled(img, o, end) && o < end
    ensures o <= l < end && RecordOk(img, l, end) && l + Size(img, l) == end
    decreases end - o
  {
    if o + Size(img, o) == end then o else Last(img, o + Size(img, o), end)
  }

  method AdvanceToLast(img: array<Byte>, base: nat, bs: nat) returns (dir: nat)
    requires base + bs <= img.Length && bs > 0 && Tiled(img[..], base, base + bs)
    ensures dir == Last(img[..], base, base + bs)
  {
    ghost var s, end := img[..], base + bs;
    dir := base;
    var d := base;
    while d - base < bs
      invariant base <= dir <= d <= end && Tiled(s, d, end)
      invariant d < end ==> Last(s, base, end) == Last(s, d, end)
      invariant d == end ==> dir == Last(s, base, end)
      decreases end - d
    {
      dir := d;
      d := d + Size(img[..], d);
    }
  }

  // ---- inserting ---------------------------------------------------------------------------------

  /** calculate_dir_size: the header and name, rounded up to 4 bytes and at least a whole record. */
  function DirSize(len: Byte): (size: nat)
    ensures size >= RECORD && size >= HEADER + len && size % 4 == 0 && (size == RECORD || size < HEADER + len + 4)
  {
    if len > RECORD - HEADER then
      var ret := len + HEADER;
      if ret % 4 != 0 then ret + (4 - ret % 4) else ret
    else RECORD
  }

  function NameLength(name: seq<Byte>): nat {
    if |name| < 256 then |name| else 256
  }

  lemma SizeBound(img: seq<Byte>, o: nat)
    requires o + HEADER <= |img|
    ensures Size(img, o) < 0x10000
  {
    Shl8Is(img[o + 5]);
  }

  /** The bytes of the fields that an insertion writes: the size of the record that shrinks, and the
      inode, size and name length of the new one. */
  datatype Fields = Fields(s0: Byte, s1: Byte, i0: Byte, i1: Byte, i2: Byte, i3: Byte, z0: Byte, z1: Byte, len: Byte)

  function FieldsOf(size: nat, left: nat, inode: nat, len: nat): Fields {
    var p := Shr8(inode);
    var q := Shr8(p);
    Fields(Low8(size), Low8(Shr8(size)), Low8(inode), Low8(p), Low8(q), Low8(Shr8(q)), Low8(left), Low8(Shr8(left)), Low8(len))
  }

  /** What is left of a record, as a 16-bit difference. */
  function Left(whole: nat, taken: nat): nat
    requires taken < 0x10000
  {
    if whole < taken then whole + 0x10000 - taken else whole - taken
  }

  /** Byte k after the fields and the name have been written to records o and n. */
  function WrittenByte(img: seq<Byte>, o: nat, n: nat, f: Fields, name: seq<Byte>, k: nat): Byte
    requires k < |img|
  {
    if k == o + 4 then f.s0
    else if k == o + 5 then f.s1
    else if k == n then f.i0
    else if k == n + 1 then f.i1
    else if k == n + 2 then f.i2
    else if k == n + 3 then f.i3
    else if k == n + 4 then f.z0
    else if k == n + 5 then f.z1
    else if k == n + 6 then f.len
    else if k == n + 7 then 2
    else if n + 8 <= k <= n + 8 + NameLength(name) then (if k - n - 8 < |name| then name[k - n - 8] else 0)
    else img[k]
  }

  function Written(img: seq<Byte>, o: nat, n: nat, f: Fields, name: seq<Byte>): (r: seq<Byte>) {
    seq(|img|, k requires 0 <= k < |img| => WrittenByte(img, o, n, f, name, k))
  }

  /** The image after an insertion behind the last record, at o. */
  function Insert(img: seq<Byte>, o: nat, inode: nat, name: seq<Byte>): (r: seq<Byte>)
    requires o + HEADER <= |img|
    ensures |r| == |img|
  {
    var size := DirSize(NameLen(img, o));
    Written(img, o, o + size, FieldsOf(size, Left(Size(img, o), size), inode, NameLength(name)), name)
  }

  /** An insertion fits when the last record has room for the new header, the name and its terminator. */
  predicate Fits(img: seq<Byte>, o: nat, name: seq<Byte>)
    requires o + HEADER <= |img|
  {
    DirSize(NameLen(img, o)) + HEADER + |name| + 1 <= Size(img, o)
  }

  lemma FieldsDecode(size: nat, left: nat, inode: nat, len: nat)
    requires size < 0x10000 && left < 0x10000 && inode < 0x1_0000_0000 && len < 256
    ensures var f := FieldsOf(size, left, inode, len);
            Word16(f.s0, f.s1) == size && Word16(f.z0, f.z1) == left && f.len == len &&
            Word32(f.i0, f.i1, f.i2, f.i3) == inode
  {
    var p := Shr8(inode);
    var q := Shr8(p);
    Split8(inode);
    Split8(p);
    Split8(q);
    Split8(size);
    Split8(left);
    Shr8Bound(inode, 0x1000000);
    Shr8Bound(p, 0x10000);
    Shr8Bound(q, 0x100);
    Shr8Bound(size, 0x100);
    Shr8Bound(left, 0x100);
  }

  /** The last record keeps its entry and shrinks. */
  lemma FirstHalf(img: seq<Byte>, o: nat, n: nat, end: nat, f: Fields, name: seq<Byte>)
    requires RecordOk(img, o, end) && o + HEADER + NameLen(img, o) <= n <= end && o + RECORD <= n
    requires o + Word16(f.s0, f.s1) == n
    ensures var t := Written(img, o, n, f, name);
            RecordOk(t, o, end) && o + Size(t, o) == n && EntryAt(t, o, end) == EntryAt(img, o, end)
  {
    var t := Written(img, o, n, f, name);
    assert forall k | o <= k < n && k != o + 4 && k != o + 5 :: t[k] == img[k];
  }

  /** What it loses becomes the new record. */
  lemma SecondHalf(img: seq<Byte>, o: nat, n: nat, end: nat, f: Fields, inode: nat, name: seq<Byte>)
    requires o + RECORD <= n && n + HEADER + |name| <= end <= |img| && |name| <= 255
    requires n + Word16(f.z0, f.z1) == end && Word32(f.i0, f.i1, f.i2, f.i3) == inode && f.len == |name|
    ensures var t := Written(img, o, n, f, name);
            RecordOk(t, n, end) && n + Size(t, n) == end && EntryAt(t, n, end) == Entry(inode, name)
  {
    var t := Written(img, o, n, f, name);
    assert Inode(t, n) == inode && Size(t, n) == end - n && NameLen(t, n) == |name|;
    assert t[n + HEADER..n + HEADER + |name|] == name;
  }

  lemma SameRecord(img: seq<Byte>, t: seq<Byte>, o: nat, end: nat)
    requires RecordOk(img, o, end) && |t| == |img|
    requires forall k | o <= k < o + Size(img, o) :: t[k] == img[k]
    ensures RecordOk(t, o, end) && Size(t, o) == Size(img, o) && EntryAt(t, o, end) == EntryAt(img, o, end)
  {
  }

  lemma EntriesStep(img: seq<Byte>, o: nat, end: nat)
    requires RecordOk(img, o, end) && Tiled(img, o + Size(img, o), end) && o < end
    ensures Tiled(img, o, end) && Entries(img, o, end) == [EntryAt(img, o, end)] + Entries(img, o + Size(img, o), end)
  {
  }

  /** A block whose last record alone has been split in two has one entry more. */
  lemma {:induction false} SplitAppends(img: seq<Byte>, t: seq<Byte>, base: nat, end: nat, l: nat, e: Entry)
    requires Tiled(img, base, end) && base < end && l == Last(img, base, end) && |t| == |img|
    requires forall k | base <= k < l :: t[k] == img[k]
    requires RecordOk(t, l, end) && EntryAt(t, l, end) == EntryAt(img, l, end)
    requires var n := l + Size(t, l); RecordOk(t, n, end) && n + Size(t, n) == end && EntryAt(t, n, end) == e
    ensures Tiled(t, base, end) && Entries(t, base, end) == Entries(img, base, end) + [e]
    decreases end - base
  {
    if base == l {
      SplitLast(img, t, l, end, e);
    } else {
      LastStep(img, base, end);
      SplitAppends(img, t, base + Size(img, base), end, l, e);
      SameRecord(img, t, base, end);
      SplitBefore(img, t, base, base + Size(img, base), end, e);
    }
  }

  /** The record that is split. */
  lemma SplitLast(img: seq<Byte>, t: seq<Byte>, l: nat, end: nat, e: Entry)
    requires RecordOk(img, l, end) && l + Size(img, l) == end
    requires RecordOk(t, l, end) && EntryAt(t, l, end) == EntryAt(img, l, end)
    requires var n := l + Size(t, l); RecordOk(t, n, end) && n + Size(t, n) == end && EntryAt(t, n, end) == e
    ensures Tiled(img, l, end) && Tiled(t, l, end) && Entries(t, l, end) == Entries(img, l, end) + [e]
  {
    LastEntry(img, l, end);
    LastEntry(t, l + Size(t, l), end);
    EntriesStep(t, l, end);
  }

  /** A record before it. */
  lemma SplitBefore(img: seq<Byte>, t: seq<Byte>, o: nat, next: nat, end: nat, e: Entry)
    requires RecordOk(img, o, end) && o < end && next == o + Size(img, o)
    requires RecordOk(t, o, end) && next == o + Size(t, o) && EntryAt(t, o, end) == EntryAt(img, o, end)
    requires Tiled(img, next, end) && Tiled(t, next, end) && Entries(t, next, end) == Entries(img, next, end) + [e]
    ensures Tiled(img, o, end) && Tiled(t, o, end) && Entries(t, o, end) == Entries(img, o, end) + [e]
  {
    EntriesStep(img, o, end);
    EntriesStep(t, o, end);
    Assoc(EntryAt(img, o, end), Entries(img, next, end), e);
  }

  lemma Assoc(a: Entry, es: seq<Entry>, e: Entry)
    ensures [a] + (es + [e]) == [a] + es + [e]
  {
  }

  lemma LastStep(img: seq<Byte>, o: nat, end: nat)
    requires Tiled(img, o, end) && o < end && o != Last(img, o, end)
    ensures var next := o + Size(img, o);
            o < next < end && Tiled(img, next, end) && next <= Last(img, o, end) == Last(img, next, end)
  {
  }

  lemma LastEntry(img: seq<Byte>, l: nat, end: nat)
    requires RecordOk(img, l, end) && l + Size(img, l) == end
    ensures Tiled(img, l, end) && Entries(img, l, end) == [EntryAt(img, l, end)]
  {
    assert Entries(img, end, end) == [];
  }

  /** Insertion keeps the records tiling the block and adds the entry after all others. */
  lemma InsertAppends(img: seq<Byte>, base: nat, end: nat, inode: nat, name: seq<Byte>)
    requires Tiled(img, base, end) && base < end && Fits(img, Last(img, base, end), name)
    requires |name| <= 255 && inode < 0x1_0000_0000
    ensures var t := Insert(img, Last(img, base, end), inode, name);
            Tiled(t, base, end) && Entries(t, base, end) == Entries(img, base, end) + [Entry(inode, name)]
  {
    var l := Last(img, base, end);
    var n, f := InsertIsWritten(img, l, end, inode, name);
    WrittenAppends(img, base, end, l, n, f, inode, name);
  }

  /** The fields that an insertion writes stand for the sizes and numbers they are made from. */
  lemma InsertIsWritten(img: seq<Byte>, l: nat, end: nat, inode: nat, name: seq<Byte>) returns (n: nat, f: Fields)
    requires RecordOk(img, l, end) && l + Size(img, l) == end && Fits(img, l, name)
    requires |name| <= 255 && inode < 0x1_0000_0000
    ensures Insert(img, l, inode, name) == Written(img, l, n, f, name)
    ensures l + HEADER + NameLen(img, l) <= n && l + RECORD <= n && n + HEADER + |name| < end
    ensures l + Word16(f.s0, f.s1) == n && n + Word16(f.z0, f.z1) == end
    ensures Word32(f.i0, f.i1, f.i2, f.i3) == inode && f.len == |name|
  {
    var size := DirSize(NameLen(img, l));
    SizeBound(img, l);
    FieldsDecode(size, Left(Size(img, l), size), inode, NameLength(name));
    n, f := l + size, FieldsOf(size, Left(Size(img, l), size), inode, NameLength(name));
  }

  lemma WrittenAppends(img: seq<Byte>, base: nat, end: nat, l: nat, n: nat, f: Fields, inode: nat, name: seq<Byte>)
    requires Tiled(img, base, end) && base < end && l == Last(img, base, end)
    requires l + HEADER + NameLen(img, l) <= n && l + RECORD <= n && n + HEADER + |name| <= end && |name| <= 255
    requires l + Word16(f.s0, f.s1) == n && n + Word16(f.z0, f.z1) == end
    requires Word32(f.i0, f.i1, f.i2, f.i3) == inode && f.len == |name|
    ensures var t := Written(img, l, n, f, name);
            Tiled(t, base, end) && Entries(t, base, end) == Entries(img, base, end) + [Entry(inode, name)]
  {
    FirstHalf(img, l, n, end, f, name);
    SecondHalf(img, l, n, end, f, inode, name);
    SplitAppends(img, Written(img, l, n, f, name), base, end, l, Entry(inode, name));
  }

  /** The record that an insertion adds is marked as a directory whatever it names, and the name is terminated. */
  lemma InsertedRecord(img: seq<Byte>, l: nat, end: nat, inode: nat, name: seq<Byte>)
    requires RecordOk(img, l, end) && l + Size(img, l) == end && Fits(img, l, name)
    requires |name| <= 255 && inode < 0x1_0000_0000
    ensures var t := Insert(img, l, inode, name); var n := l + Size(t, l);
            && l < n && n + 8 + |name| < end
            && Inode(t, n) == inode && n + Size(t, n) == end && t[n + 6] == |name| && t[n + 7] == 2
            && t[n + 8..n + 8 + |name|] == name && t[n + 8 + |name|] == 0
  {
    var n, f := InsertIsWritten(img, l, end, inode, name);
    FirstHalf(img, l, n, end, f, name);
    SecondHalf(img, l, n, end, f, inode, name);
    WrittenRecord(img, l, n, f, name);
  }

  lemma WrittenRecord(img: seq<Byte>, l: nat, n: nat, f: Fields, name: seq<Byte>)
    requires l + RECORD <= n && n + 8 + |name| < |img| && |name| <= 255
    ensures var t := Written(img, l, n, f, name);
            t[n + 6] == f.len && t[n + 7] == 2 && t[n + 8..n + 8 + |name|] == name && t[n + 8 + |name|] == 0
  {
  }

  /** Whether it fits or not, what is left for the new record is a 16-bit difference, and of a name of 256 bytes or
      more the length is lost. */
  lemma InsertedFields(img: seq<Byte>, l: nat, inode: nat, name: seq<Byte>)
    requires l + 8 <= |img| && l + DirSize(NameLen(img, l)) + 8 + 257 <= |img|
    ensures var t := Insert(img, l, inode, name); var n := l + DirSize(NameLen(img, l));
            && Size(t, l) == n - l && (Size(t, n) + (n - l)) % 0x10000 == Size(img, l)
            && (|name| >= 256 ==> t[n + 6] == 0 && forall k | 0 <= k < 256 :: t[n + 8 + k] == name[k])
  {
    var size := DirSize(NameLen(img, l));
    SizeBound(img, l);
    FieldsDecode(size, Left(Size(img, l), size), 0, 0);
    FieldsSizes(size, Left(Size(img, l), size), inode, NameLength(name));
  }

  lemma FieldsSizes(size: nat, left: nat, inode: nat, len: nat)
    ensures var f, g := FieldsOf(size, left, inode, len), FieldsOf(size, left, 0, 0);
            f.s0 == g.s0 && f.s1 == g.s1 && f.z0 == g.z0 && f.z1 == g.z1 && (len == 256 ==> f.len == 0)
  {
  }

  /** Insertion is a map update: the new name, absent before, is found with its inode, and every other
      name as before. */
  lemma InsertIsUpdate(img: seq<Byte>, base: nat, end: nat, inode: nat, name: seq<Byte>, other: seq<Byte>)
    requires Tiled(img, base, end) && base < end && Fits(img, Last(img, base, end), name)
    requires |name| <= 255 && inode < 0x1_0000_0000 && Lookup(Entries(img, base, end), name) == None
    ensures var t := Insert(img, Last(img, base, end), inode, name);
            && Tiled(t, base, end)
            && Lookup(Entries(t, base, end), other) ==
               if other == name then Some(inode) else Lookup(Entries(img, base, end), other)
  {
    InsertAppends(img, base, end, inode, name);
    LookupAppend(Entries(img, base, end), Entry(inode, name), other);
  }

  /** The bytes outside the block are those of s. */
  ghost predicate SameOutside(s: seq<Byte>, t: seq<Byte>, base: nat, end: nat) {
    |t| == |s| && forall k | 0 <= k < |s| && !(base <= k < end) :: t[k] == s[k]
  }

  ghost predicate SameBlock(s: seq<Byte>, t: seq<Byte>, base: nat, end: nat) {
    |t| == |s| && forall k | 0 <= k < |s| && base <= k < end :: t[k] == s[k]
  }

  /** Insertion writes nothing outside the block, whatever is stored there, exactly when it fits. */
  lemma InsertInsideIff(img: seq<Byte>, base: nat, end: nat, inode: nat, name: seq<Byte>)
    requires Tiled(img, base, end) && base < end && |name| <= 255
    requires Last(img, base, end) + DirSize(NameLen(img, Last(img, base, end))) + HEADER + |name| + 1 <= |img|
    ensures (forall s | SameBlock(img, s, base, end) ::
               SameOutside(s, Insert(s, Last(img, base, end), inode, name), base, end))
            <==> Fits(img, Last(img, base, end), name)
  {
    var l := Last(img, base, end);
    var x := l + DirSize(NameLen(img, l)) + HEADER + |name|;
    if Fits(img, l, name) {
      forall s | SameBlock(img, s, base, end)
        ensures SameOutside(s, Insert(s, l, inode, name), base, end)
      {
        assert NameLen(s, l) == NameLen(img, l);
      }
    } else {
      var s := img[x := 1];
      assert SameBlock(img, s, base, end);
      assert NameLen(s, l) == NameLen(img, l);
      assert Insert(s, l, inode, name)[x] == 0;
    }
  }

  /** strncpy of the first n characters of a name, and its terminator. */
  method CopyName(img: array<Byte>, o: nat, name: seq<Byte>, n: nat)
    requires o + n <= img.Length && n <= |name| + 1 && 0 !in name
    modifies img
    ensures forall k | 0 <= k < img.Length ::
              img[k] == if o <= k < o + n then (if k - o < |name| then name[k - o] else 0) else old(img[k])
  {
    for i := 0 to n
      invariant forall k | 0 <= k < img.Length ::
                  img[k] == if o <= k < o + i then (if k - o < |name| then name[k - o] else 0) else old(img[k])
    {
      var c := if i < |name| then name[i] else 0;
      img[o + i] := c;
      if c == 0 {
        assert i == |name|;
        break;
      }
    }
  }

  /** Writes the header of the record at n. */
  method PutHeader(img: array<Byte>, n: nat, f: Fields)
    requires n + HEADER <= img.Length
    modifies img
    ensures forall k | 0 <= k < img.Length && !(n <= k < n + HEADER) :: img[k] == old(img[k])
    ensures img[n] == f.i0 && img[n + 1] == f.i1 && img[n + 2] == f.i2 && img[n + 3] == f.i3
    ensures img[n + 4] == f.z0 && img[n + 5] == f.z1 && img[n + 6] == f.len && img[n + 7] == 2
  {
    img[n + 7] := 2;
    img[n + 6] := f.len;
    img[n], img[n + 1], img[n + 2], img[n + 3] := f.i0, f.i1, f.i2, f.i3;
    img[n + 4], img[n + 5] := f.z0, f.z1;
  }

  /** do_insert, for a name that is a C string. */
  method DoInsert(img: array<Byte>, base: nat, bs: nat, inode: nat, name: seq<Byte>)
    requires base + bs <= img.Length && bs > 0 && Tiled(img[..], base, base + bs) && 0 !in name
    requires var o := Last(img[..], base, base + bs);
             o + DirSize(NameLen(img[..], o)) + HEADER + NameLength(name) + 1 <= img.Length
    modifies img
    ensures img[..] == Insert(old(img[..]), Last(old(img[..]), base, base + bs), inode, name)
  {
    var dir := AdvanceToLast(img, base, bs);
    var oldsize := Size(img[..], dir);
    var newsize := DirSize(NameLen(img[..], dir));
    var f := FieldsOf(newsize, Left(oldsize, newsize), inode, NameLength(name));
    WriteRecords(img, dir, dir + newsize, f, name);
  }

  method WriteRecords(img: array<Byte>, o: nat, n: nat, f: Fields, name: seq<Byte>)
    requires o + RECORD <= n && n + HEADER + NameLength(name) + 1 <= img.Length && 0 !in name
    modifies img
    ensures img[..] == Written(old(img[..]), o, n, f, name)
  {
    ghost var s := img[..];
    img[o + 4], img[o + 5] := f.s0, f.s1;
    CopyName(img, n + HEADER, name, NameLength(name) + 1);
    PutHeader(img, n, f);
    forall k | 0 <= k < img.Length
      ensures img[k] == WrittenByte(s, o, n, f, name, k)
    {
    }
  }

  // ---- a new directory ---------------------------------------------------------------------------

  const DOT: Byte := 46

  /** write_directory_structure: a fresh block holds '.' and '..', both with the directory's own inode. */
  method WriteDirectoryStructure(img: array<Byte>, base: nat, bs: nat, inode: nat)
    requires base + bs <= img.Length && 2 * RECORD <= bs < 0x10000 && inode < 0x1_0000_0000
    modifies img
    ensures Tiled(img[..], base, base + bs)
    ensures Entries(img[..], base, base + bs) == [Entry(inode, [DOT]), Entry(inode, [DOT, DOT])]
    ensures SameOutside(old(img[..]), img[..], base, base + bs)
    ensures Size(img[..], base) == 12 && img[base + 7] == 255 && img[base + 12 + 7] == 255
  {
    var first := DirSize(1);
    FieldsDecode(0, first, inode, 1);
    FieldsDecode(0, bs - first, inode, 2);
    WriteDots(img, base, base + first, base + bs, FieldsOf(0, first, inode, 1), FieldsOf(0, bs - first, inode, 2), inode);
  }

  method WriteDots(img: array<Byte>, o: nat, n: nat, end: nat, f: Fields, g: Fields, ghost inode: nat)
    requires o + RECORD == n && n + RECORD <= end <= img.Length
    requires o + Word16(f.z0, f.z1) == n && Word32(f.i0, f.i1, f.i2, f.i3) == inode && f.len == 1
    requires n + Word16(g.z0, g.z1) == end && Word32(g.i0, g.i1, g.i2, g.i3) == inode && g.len == 2
    modifies img
    ensures Tiled(img[..], o, end)
    ensures Entries(img[..], o, end) == [Entry(inode, [DOT]), Entry(inode, [DOT, DOT])]
    ensures SameOutside(old(img[..]), img[..], o, end)
    ensures Size(img[..], o) == RECORD && img[o + 7] == 255 && img[n + 7] == 255
  {
    PutHeader(img, o, f);
    img[o + 7] := 255;
    img[o + HEADER] := DOT;
    PutHeader(img, n, g);
    img[n + 7] := 255;
    img[n + HEADER], img[n + HEADER + 1] := DOT, DOT;
    DotEntries(img[..], o, n, end, inode);
  }

  lemma DotEntries(t: seq<Byte>, o: nat, n: nat, end: nat, inode: nat)
    requires o + RECORD == n && n + RECORD <= end <= |t|
    requires Size(t, o) == RECORD && NameLen(t, o) == 1 && Inode(t, o) == inode && t[o + HEADER] == DOT
    requires n + Size(t, n) == end && NameLen(t, n) == 2 && Inode(t, n) == inode
    requires t[n + HEADER] == DOT && t[n + HEADER + 1] == DOT
    ensures Tiled(t, o, end) && Entries(t, o, end) == [Entry(inode, [DOT]), Entry(inode, [DOT, DOT])]
  {
    assert EntryAt(t, o, end) == Entry(inode, [DOT]);
    assert EntryAt(t, n, end) == Entry(inode, [DOT, DOT]);
    assert Tiled(t, end, end) && Entries(t, end, end) == [];
    assert Tiled(t, n, end) && Entries(t, n, end) == [Entry(inode, [DOT, DOT])];
  }

  // ---- listing -----------------------------------------------------------------------------------

  /** The static variables of ext2_readdir: the node of the previous call, and a position in its block. */
  datatype Cursor = Idle | Reading(node: nat, dir: nat)

  /** One call on directory `node`, whose block is [base, end): the entry returned, and the cursor after. */
  function ReaddirStep(img: seq<Byte>, base: nat, end: nat, c: Cursor, node: nat): (Option<Entry>, Cursor)
    requires Tiled(img, base, end) && base < end
    requires c.Reading? && c.node == node ==> base <= c.dir <= end && Tiled(img, c.dir, end)
  {
    if c.Reading? && c.node == node then
      if c.dir < end then (Some(EntryAt(img, c.dir, end)), Reading(node, c.dir + Size(img, c.dir))) else (None, Idle)
    else (Some(EntryAt(img, base, end)), Reading(node, base + Size(img, base)))
  }

  /** ext2_readdir on directories: the cursor outlives the calls. */
  class DirectoryReader {
    var cursor: Cursor

    constructor ()
      ensures cursor == Idle
    {
      cursor := Idle;
    }

    method Readdir(img: array<Byte>, base: nat, bs: nat, node: nat) returns (r: Option<Entry>)
      requires base + bs <= img.Length && bs > 0 && Tiled(img[..], base, base + bs)
      requires cursor.Reading? && cursor.node == node ==> base <= cursor.dir <= base + bs && Tiled(img[..], cursor.dir, base + bs)
      modifies this
      ensures (r, cursor) == ReaddirStep(img[..], base, base + bs, old(cursor), node)
      ensures cursor.Reading? ==> cursor.node == node && base <= cursor.dir <= base + bs && Tiled(img[..], cursor.dir, base + bs)
    {
      var dir := base;
      if cursor.Reading? && cursor.node == node {
        dir := cursor.dir;
        if dir - base >= bs {
          cursor := Idle;
          return None;
        }
      }
      ghost var s, end := img[..], base + bs;
      TiledStep(s, dir, end);
      var e := ReadEntry(img, dir, end, s);
      var next := Advance(img, dir, end, s);
      cursor := Reading(node, next);
      return Some(e);
    }
  }

  /** The record at o copied into the dirent. */
  method ReadEntry(img: array<Byte>, o: nat, ghost end: nat, ghost s: seq<Byte>) returns (e: Entry)
    requires s == img[..] && RecordOk(s, o, end)
    ensures e == EntryAt(s, o, end)
  {
    var inode := InodeOf(img, o, end, s);
    e := Entry(inode, img[o + HEADER..o + HEADER + img[o + 6]]);
  }

  /** Where record j starts. */
  function Start(img: seq<Byte>, o: nat, end: nat, j: nat): (p: nat)
    requires Tiled(img, o, end) && j <= |Entries(img, o, end)|
    ensures o <= p <= end && Tiled(img, p, end)
    ensures j == 0 ==> p == o
    decreases end - o
  {
    if j == 0 then o else Start(img, o + Size(img, o), end, j - 1)
  }

  lemma {:induction false} StartOfRecord(img: seq<Byte>, o: nat, end: nat, j: nat)
    requires Tiled(img, o, end) && j < |Entries(img, o, end)|
    ensures var p := Start(img, o, end, j);
            && p < end && EntryAt(img, p, end) == Entries(img, o, end)[j]
            && p + Size(img, p) == Start(img, o, end, j + 1)
    decreases j
  {
    assert o < end;
    EntriesStep(img, o, end);
    if j > 0 {
      StartOfRecord(img, o + Size(img, o), end, j - 1);
    } else {
      assert Start(img, o, end, 1) == Start(img, o + Size(img, o), end, 0);
    }
  }

  lemma CallAt(img: seq<Byte>, base: nat, end: nat, node: nat, p: nat)
    requires Tiled(img, base, end) && base <= p < end && Tiled(img, p, end)
    ensures ReaddirStep(img, base, end, Reading(node, p), node) == (Some(EntryAt(img, p, end)), Reading(node, p + Size(img, p)))
  {
  }

  lemma {:induction false} StartOfEnd(img: seq<Byte>, o: nat, end: nat)
    requires Tiled(img, o, end)
    ensures Start(img, o, end, |Entries(img, o, end)|) == end
    decreases end - o
  {
    if o < end {
      StartOfEnd(img, o + Size(img, o), end);
    }
  }

  /** The cursor after r calls of a pass that starts idle. */
  function CursorAt(img: seq<Byte>, base: nat, end: nat, node: nat, r: nat): Cursor
    requires Tiled(img, base, end) && r <= |Entries(img, base, end)|
  {
    if r == 0 then Idle else Reading(node, Start(img, base, end, r))
  }

  lemma CallReturnsEntry(img: seq<Byte>, base: nat, end: nat, node: nat, r: nat)
    requires Tiled(img, base, end) && base < end && r < |Entries(img, base, end)|
    ensures ReaddirStep(img, base, end, CursorAt(img, base, end, node, r), node) ==
            (Some(Entries(img, base, end)[r]), Reading(node, Start(img, base, end, r + 1)))
  {
    StartOfRecord(img, base, end, r);
    if r > 0 {
      CallAt(img, base, end, node, Start(img, base, end, r));
    }
  }

  /** Call number r of a pass returns entry r, the call after the last entry returns nothing, and the next
      call starts over. */
  lemma OneCall(img: seq<Byte>, base: nat, end: nat, node: nat, r: nat)
    requires Tiled(img, base, end) && base < end && r <= |Entries(img, base, end)|
    ensures var es := Entries(img, base, end);
            ReaddirStep(img, base, end, CursorAt(img, base, end, node, r), node) ==
            if r < |es| then (Some(es[r]), CursorAt(img, base, end, node, r + 1)) else (None, Idle)
  {
    if r < |Entries(img, base, end)| {
      CallReturnsEntry(img, base, end, node, r);
    } else {
      StartOfEnd(img, base, end);
    }
  }

  /** What k calls in a row on one node return, from a cursor. */
  ghost predicate Calls(img: seq<Byte>, base: nat, end: nat, node: nat, c: Cursor, outs: seq<Option<Entry>>)
    requires Tiled(img, base, end) && base < end
    decreases |outs|
  {
    outs == [] ||
    (&& (c.Reading? && c.node == node ==> base <= c.dir <= end && Tiled(img, c.dir, end))
     && ReaddirStep(img, base, end, c, node).0 == outs[0]
     && Calls(img, base, end, node, ReaddirStep(img, base, end, c, node).1, outs[1..]))
  }

  /** The place in the pass after k more calls. */
  function Phase(r: nat, k: nat, m: nat): nat
    decreases k
  {
    if k == 0 then r else Phase(if r < m then r + 1 else 0, k - 1, m)
  }

  lemma {:induction false} PhaseIs(r: nat, k: nat, m: nat)
    requires r <= m
    ensures Phase(r, k, m) == (r + k) % (m + 1)
    decreases k
  {
    if k == 0 {
      assert r % (m + 1) == r;
    } else if r < m {
      PhaseIs(r + 1, k - 1, m);
    } else {
      PhaseIs(0, k - 1, m);
      assert r + k == (k - 1) + 1 * (m + 1);
      AddOne(k - 1, m + 1);
    }
  }

  lemma AddOne(a: nat, d: nat)
    requires d > 0
    ensures (a + d) % d == a % d
  {
    var x := (a + d) / d - 1 - a / d;
    assert x * d == a % d - (a + d) % d;
    Multiple(x, d);
  }

  lemma Multiple(x: int, d: int)
    requires d > 0
    ensures x >= 1 ==> x * d >= d
    ensures x <= -1 ==> x * d <= -d
  {
  }

  /** Calls on one directory, however many, list every entry once in order, then nothing, and over again. */
  lemma {:induction false} ReaddirPhases(img: seq<Byte>, base: nat, end: nat, node: nat, r: nat,
                                         outs: seq<Option<Entry>>, k: nat)
    requires Tiled(img, base, end) && base < end && r <= |Entries(img, base, end)|
    requires Calls(img, base, end, node, CursorAt(img, base, end, node, r), outs) && k < |outs|
    ensures var es := Entries(img, base, end); var i := Phase(r, k, |es|);
            outs[k] == if i < |es| then Some(es[i]) else None
    decreases k
  {
    OneCall(img, base, end, node, r);
    if k > 0 {
      ReaddirPhases(img, base, end, node, if r < |Entries(img, base, end)| then r + 1 else 0, outs[1..], k - 1);
    }
  }

  lemma ReaddirCycles(img: seq<Byte>, base: nat, end: nat, node: nat, outs: seq<Option<Entry>>, k: nat)
    requires Tiled(img, base, end) && base < end
    requires Calls(img, base, end, node, Idle, outs) && k < |outs|
    ensures var es := Entries(img, base, end); var i := k % (|es| + 1);
            outs[k] == if i < |es| then Some(es[i]) else None
  {
    ReaddirPhases(img, base, end, node, 0, outs, k);
    PhaseIs(0, k, |Entries(img, base, end)|);
  }
}
