/**
 An ext2 image as the virtual file system sees it (fs/ext2.c:101-110, 159-191, 206-228, 277-338): which inode
 numbers are directories, and what the record list in the block of each of them maps names to.
 */
module Volumes {

  import opened Basics
  import E = Ext2Dir

  /** What is on disk: the inode number behind each name of each directory inode. */
  type Disk = map<(nat, string), nat>

  function Find(disk: Disk, dir: nat, name: string): Option<nat> {
    if (dir, name) in disk then Some(disk[(dir, name)]) else None
  }

  /** The search without a cache, component by component. */
  function Walk(disk: Disk, dir: nat, names: seq<string>): Option<nat>
    decreases |names|
  {
    if names == [] then Some(dir)
    else match Find(disk, dir, names[0])
      case None => None
      case Some(next) => Walk(disk, next, names[1..])
  }

  // ---- names as bytes ----------------------------------------------------------------------------

  /** The characters of a C string are bytes other than the terminator. */
  predicate Plain(name: string) {
    forall i | 0 <= i < |name| :: 0 < name[i] as int < 256
  }

  function ByteOf(c: char): Byte {
    if c as int < 256 then c as int else 0
  }

  function Bytes(name: string): seq<Byte> {
    seq(|name|, i requires 0 <= i < |name| => ByteOf(name[i]))
  }

  lemma BytesDiffer(a: string, b: string)
    requires Plain(a) && Plain(b) && Bytes(a) == Bytes(b)
    ensures a == b
  {
    assert |Bytes(a)| == |a| && |Bytes(b)| == |b|;
    forall i | 0 <= i < |a|
      ensures a[i] == b[i]
    {
      assert Bytes(a)[i] == Bytes(b)[i];
    }
  }

  /** Every string of bytes without the terminator is the name of some characters. */
  lemma NameOfBytes(b: seq<Byte>) returns (name: string)
    requires 0 !in b
    ensures Plain(name) && Bytes(name) == b
  {
    name := seq(|b|, i requires 0 <= i < |b| => (b[i] as int) as char);
  }

  lemma BytesHaveNoNul(a: string)
    requires Plain(a)
    ensures 0 !in Bytes(a)
  {
    assert forall i | 0 <= i < |a| :: Bytes(a)[i] != 0;
  }

  // ---- the image ---------------------------------------------------------------------------------

  /** The block of directory d lies in the image and is tiled by records. */
  ghost predicate BlockOk(img: seq<Byte>, bs: nat, dirs: map<nat, nat>, d: nat) {
    d in dirs && bs > 0 && dirs[d] + bs <= |img| && E.Tiled(img, dirs[d], dirs[d] + bs)
  }

  predicate Apart(bs: nat, dirs: map<nat, nat>, d: nat, e: nat) {
    d in dirs && e in dirs && (dirs[d] + bs <= dirs[e] || dirs[e] + bs <= dirs[d])
  }

  /** Directory blocks are in order and do not overlap. */
  ghost predicate Formatted(img: seq<Byte>, bs: nat, dirs: map<nat, nat>) {
    && (forall d {:trigger BlockOk(img, bs, dirs, d)} | d in dirs :: BlockOk(img, bs, dirs, d))
    && (forall d, e {:trigger Apart(bs, dirs, d, e)} | d in dirs && e in dirs && d != e :: Apart(bs, dirs, d, e))
  }

  ghost function Listed(img: seq<Byte>, bs: nat, dirs: map<nat, nat>, d: nat): seq<E.Entry>
    requires BlockOk(img, bs, dirs, d)
  {
    E.Entries(img, dirs[d], dirs[d] + bs)
  }

  /** What ext2_search answers for a name: nothing in an inode that is no directory. */
  ghost function Has(img: seq<Byte>, bs: nat, dirs: map<nat, nat>, d: nat, name: seq<Byte>): Option<nat>
    requires Formatted(img, bs, dirs)
  {
    if d in dirs then
      assert BlockOk(img, bs, dirs, d);
      E.Lookup(Listed(img, bs, dirs, d), name)
    else None
  }

  /** The map `disk` is what the image holds. */
  ghost predicate Represents(img: seq<Byte>, bs: nat, dirs: map<nat, nat>, disk: Disk) {
    && Formatted(img, bs, dirs)
    && forall d, name {:trigger Find(disk, d, name)} | Plain(name) :: Find(disk, d, name) == Has(img, bs, dirs, d, Bytes(name))
  }

  /** A block whose bytes are the same has the same records. */
  lemma {:induction false} SameEntries(img: seq<Byte>, t: seq<Byte>, o: nat, end: nat)
    requires E.Tiled(img, o, end) && end <= |img| == |t| && forall k | o <= k < end :: t[k] == img[k]
    ensures E.Tiled(t, o, end) && E.Entries(t, o, end) == E.Entries(img, o, end)
    decreases end - o
  {
    if o < end {
      E.TiledStep(img, o, end);
      E.SameRecord(img, t, o, end);
      SameEntries(img, t, o + E.Size(img, o), end);
      E.EntriesStep(img, o, end);
      E.EntriesStep(t, o, end);
    }
  }

  // ---- a record more -----------------------------------------------------------------------------

  /** The last record of directory d has room for another one with that name. */
  ghost predicate HasRoom(img: seq<Byte>, bs: nat, dirs: map<nat, nat>, d: nat, number: nat, name: seq<Byte>)
    requires BlockOk(img, bs, dirs, d)
  {
    E.Fits(img, E.Last(img, dirs[d], dirs[d] + bs), name) && |name| <= 255 && number < 0x1_0000_0000
  }

  /** Only the block of directory d differs between img and t. */
  ghost predicate OneBlock(img: seq<Byte>, t: seq<Byte>, bs: nat, dirs: map<nat, nat>, d: nat) {
    |t| == |img| && BlockOk(t, bs, dirs, d) && E.SameOutside(img, t, dirs[d], dirs[d] + bs)
  }

  lemma SameListed(img: seq<Byte>, t: seq<Byte>, bs: nat, dirs: map<nat, nat>, base: nat, e: nat)
    requires BlockOk(img, bs, dirs, e) && |t| == |img| && E.SameOutside(img, t, base, base + bs)
    requires dirs[e] + bs <= base || base + bs <= dirs[e]
    ensures BlockOk(t, bs, dirs, e) && Listed(t, bs, dirs, e) == Listed(img, bs, dirs, e)
  {
    SameEntries(img, t, dirs[e], dirs[e] + bs);
  }

  lemma OneBlockOthers(img: seq<Byte>, t: seq<Byte>, bs: nat, dirs: map<nat, nat>, d: nat, e: nat)
    requires Formatted(img, bs, dirs) && OneBlock(img, t, bs, dirs, d) && e in dirs && e != d
    ensures BlockOk(img, bs, dirs, e) && BlockOk(t, bs, dirs, e) && Listed(t, bs, dirs, e) == Listed(img, bs, dirs, e)
  {
    assert BlockOk(img, bs, dirs, e) && Apart(bs, dirs, d, e);
    SameListed(img, t, bs, dirs, dirs[d], e);
  }

  lemma OneBlockFormatted(img: seq<Byte>, t: seq<Byte>, bs: nat, dirs: map<nat, nat>, d: nat)
    requires Formatted(img, bs, dirs) && OneBlock(img, t, bs, dirs, d)
    ensures Formatted(t, bs, dirs)
  {
    forall e | e in dirs
      ensures BlockOk(t, bs, dirs, e)
    {
      if e != d {
        OneBlockOthers(img, t, bs, dirs, d, e);
      }
    }
  }

  /** An insertion that fits changes one block, and there what one name is mapped to. */
  lemma InsertChanges(img: seq<Byte>, base: nat, end: nat, number: nat, name: seq<Byte>, t: seq<Byte>)
    requires E.Tiled(img, base, end) && base < end && end <= |img| && |name| <= 255 && number < 0x1_0000_0000
    requires E.Fits(img, E.Last(img, base, end), name) && t == E.Insert(img, E.Last(img, base, end), number, name)
    ensures |t| == |img| && E.SameOutside(img, t, base, end) && E.Tiled(t, base, end)
    ensures E.Entries(t, base, end) == E.Entries(img, base, end) + [E.Entry.Entry(number, name)]
  {
    E.InsertAppends(img, base, end, number, name);
    E.InsertInsideIff(img, base, end, number, name);
    assert E.SameBlock(img, img, base, end);
  }

  lemma OneBlockHas(img: seq<Byte>, t: seq<Byte>, bs: nat, dirs: map<nat, nat>, d: nat, number: nat, name: seq<Byte>,
                    e: nat, other: seq<Byte>)
    requires Formatted(img, bs, dirs) && BlockOk(img, bs, dirs, d) && OneBlock(img, t, bs, dirs, d) && Formatted(t, bs, dirs)
    requires Listed(t, bs, dirs, d) == Listed(img, bs, dirs, d) + [E.Entry.Entry(number, name)]
    requires Has(img, bs, dirs, d, name) == None
    ensures Has(t, bs, dirs, e, other) == if e == d && other == name then Some(number) else Has(img, bs, dirs, e, other)
  {
    if e == d {
      E.LookupAppend(Listed(img, bs, dirs, d), E.Entry.Entry(number, name), other);
    } else if e in dirs {
      OneBlockOthers(img, t, bs, dirs, d, e);
    }
  }

  /** A record more in one block refines the update of the map. */
  lemma InsertRepresents(img: seq<Byte>, t: seq<Byte>, bs: nat, dirs: map<nat, nat>, disk: Disk, d: nat, number: nat,
                         name: string)
    requires Represents(img, bs, dirs, disk) && Plain(name) && Find(disk, d, name) == None
    requires BlockOk(img, bs, dirs, d) && OneBlock(img, t, bs, dirs, d)
    requires Listed(t, bs, dirs, d) == Listed(img, bs, dirs, d) + [E.Entry.Entry(number, Bytes(name))]
    ensures Represents(t, bs, dirs, disk[(d, name) := number])
  {
    var disk' := disk[(d, name) := number];
    OneBlockFormatted(img, t, bs, dirs, d);
    forall e, other | Plain(other)
      ensures Find(disk', e, other) == Has(t, bs, dirs, e, Bytes(other))
    {
      assert Find(disk, e, other) == Has(img, bs, dirs, e, Bytes(other));
      OneBlockHas(img, t, bs, dirs, d, number, Bytes(name), e, Bytes(other));
      if Bytes(other) == Bytes(name) {
        BytesDiffer(other, name);
      }
    }
  }

  // ---- a new directory ---------------------------------------------------------------------------

  /** The disk with an empty directory `number`. */
  function WithDirectory(disk: Disk, number: nat): Disk {
    disk[(number, ".") := number][(number, "..") := number]
  }

  /** The block [base, base + bs) belongs to no directory. */
  ghost predicate FreeBlock(img: seq<Byte>, bs: nat, dirs: map<nat, nat>, base: nat) {
    base + bs <= |img| && forall d | d in dirs :: dirs[d] + bs <= base || base + bs <= dirs[d]
  }

  function Dots(number: nat): seq<E.Entry> {
    [E.Entry.Entry(number, [E.DOT]), E.Entry.Entry(number, [E.DOT, E.DOT])]
  }

  lemma NewBlockOthers(img: seq<Byte>, t: seq<Byte>, bs: nat, dirs: map<nat, nat>, base: nat, number: nat, e: nat)
    requires Formatted(img, bs, dirs) && FreeBlock(img, bs, dirs, base) && |t| == |img| && E.SameOutside(img, t, base, base + bs)
    requires e in dirs && e != number
    ensures BlockOk(img, bs, dirs, e) && BlockOk(t, bs, dirs[number := base], e)
    ensures Listed(t, bs, dirs[number := base], e) == Listed(img, bs, dirs, e)
  {
    assert BlockOk(img, bs, dirs, e);
    SameListed(img, t, bs, dirs, base, e);
  }

  lemma NewBlockFormatted(img: seq<Byte>, t: seq<Byte>, bs: nat, dirs: map<nat, nat>, base: nat, number: nat)
    requires Formatted(img, bs, dirs) && FreeBlock(img, bs, dirs, base) && |t| == |img| && E.SameOutside(img, t, base, base + bs)
    requires BlockOk(t, bs, dirs[number := base], number) && number !in dirs
    ensures Formatted(t, bs, dirs[number := base])
  {
    var dirs' := dirs[number := base];
    forall e | e in dirs'
      ensures BlockOk(t, bs, dirs', e)
    {
      if e != number {
        NewBlockOthers(img, t, bs, dirs, base, number, e);
      }
    }
    forall d, e | d in dirs' && e in dirs' && d != e
      ensures Apart(bs, dirs', d, e)
    {
      assert d != number && e != number ==> Apart(bs, dirs, d, e);
    }
  }

  lemma DotsLookup(number: nat, name: string, es: seq<E.Entry>)
    requires Plain(name) && es == Dots(number)
    ensures E.Lookup(es, Bytes(name)) == if name == "." || name == ".." then Some(number) else None
  {
    var b := Bytes(name);
    assert Bytes(".") == [E.DOT] && Bytes("..") == [E.DOT, E.DOT];
    if b == Bytes(".") {
      BytesDiffer(name, ".");
    }
    if b == Bytes("..") {
      BytesDiffer(name, "..");
    }
    assert es[1..] == [es[1]] && [es[1]][1..] == [];
    assert E.Lookup([], b) == None;
    assert E.Lookup([es[1]], b) == if es[1].name == b then Some(number) else None;
  }

  /** The two dots in a free block refine the disk with a new directory. */
  lemma NewDirectoryRepresents(img: seq<Byte>, t: seq<Byte>, bs: nat, dirs: map<nat, nat>, disk: Disk, base: nat,
                               number: nat)
    requires Represents(img, bs, dirs, disk) && FreeBlock(img, bs, dirs, base) && number !in dirs
    requires |t| == |img| && E.SameOutside(img, t, base, base + bs)
    requires BlockOk(t, bs, dirs[number := base], number) && Listed(t, bs, dirs[number := base], number) == Dots(number)
    ensures Represents(t, bs, dirs[number := base], WithDirectory(disk, number))
  {
    NewBlockFormatted(img, t, bs, dirs, base, number);
    forall e, name | Plain(name)
      ensures Find(WithDirectory(disk, number), e, name) == Has(t, bs, dirs[number := base], e, Bytes(name))
    {
      assert Find(disk, e, name) == Has(img, bs, dirs, e, Bytes(name));
      if e == number {
        DotsLookup(number, name, Listed(t, bs, dirs[number := base], number));
      } else if e in dirs {
        NewBlockOthers(img, t, bs, dirs, base, number, e);
      }
    }
  }

  class Volume {
    const img: array<Byte>
    const bs: nat
    var dirs: map<nat, nat>   // the first block of each directory inode

    constructor (img: array<Byte>, bs: nat, dirs: map<nat, nat>)
      ensures this.img == img && this.bs == bs && this.dirs == dirs
    {
      this.img, this.bs, this.dirs := img, bs, dirs;
    }

    ghost predicate Holds(disk: Disk)
      reads this, img
    {
      Represents(img[..], bs, dirs, disk)
    }

    /** Inode d is a directory with room for that name. */
    ghost predicate Room(d: nat, number: nat, name: string)
      reads this, img
    {
      BlockOk(img[..], bs, dirs, d) && HasRoom(img[..], bs, dirs, d, number, Bytes(name))
    }

    /** ext2_search: what the disk has under that name. */
    method Search(d: nat, name: string, ghost disk: Disk) returns (r: Option<nat>)
      requires Holds(disk) && Plain(name)
      ensures r == Find(disk, d, name)
      ensures d !in dirs ==> r == None
    {
      assert Find(disk, d, name) == Has(img[..], bs, dirs, d, Bytes(name));
      if d !in dirs {
        return None;
      }
      assert BlockOk(img[..], bs, dirs, d);
      r := E.Search(img, dirs[d], bs, Bytes(name));
    }

    /** The bytes that an insertion into the block of d changes, and what is listed there afterwards. */
    method WriteEntry(d: nat, number: nat, name: string)
      requires Plain(name) && Room(d, number, name)
      modifies img
      ensures OneBlock(old(img[..]), img[..], bs, dirs, d)
      ensures Listed(img[..], bs, dirs, d) == Listed(old(img[..]), bs, dirs, d) + [E.Entry.Entry(number, Bytes(name))]
    {
      BytesHaveNoNul(name);
      E.DoInsert(img, dirs[d], bs, number, Bytes(name));
      InsertChanges(old(img[..]), dirs[d], dirs[d] + bs, number, Bytes(name), img[..]);
    }

    /** insert_inode_to_directory, in a directory whose last record has room. */
    method Insert(d: nat, number: nat, name: string, ghost disk: Disk)
      requires Holds(disk) && Plain(name) && Find(disk, d, name) == None && Room(d, number, name)
      modifies img
      ensures Holds(disk[(d, name) := number])
    {
      ghost var s := img[..];
      WriteEntry(d, number, name);
      InsertRepresents(s, img[..], bs, dirs, disk, d, number, name);
    }

    /** The part of ext2_new_inode for directories: the block that the allocator gave gets the two dots. */
    method MakeDirectory(number: nat, base: nat, ghost disk: Disk)
      requires Holds(disk) && number !in dirs && number < 0x1_0000_0000
      requires FreeBlock(img[..], bs, dirs, base) && 2 * E.RECORD <= bs < 0x10000
      modifies this`dirs, img
      ensures dirs == old(dirs)[number := base] && Holds(WithDirectory(disk, number))
    {
      ghost var s := img[..];
      E.WriteDirectoryStructure(img, base, bs, number);
      NewDirectoryRepresents(s, img[..], bs, dirs, disk, base, number);
      dirs := dirs[number := base];
    }
  }
}
