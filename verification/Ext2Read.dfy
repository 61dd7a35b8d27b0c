/** ext2_read and ext2_seek of src/drivers/ext2.c. */
module Ext2Read {
  import opened Bytes
  import opened Ext2Volume
  import opened Ext2Cursor

  /** struct VFS_File with the in-memory inode it points to. */
  class File {
    var head: nat
    var inode: Inode
    const meta: nat

    constructor (inode: Inode, meta: nat)
      ensures this.inode == inode && this.meta == meta && head == 0
    {
      this.inode := inode;
      this.meta := meta;
      head := 0;
    }

    /** ext2_seek to a position that is not negative. */
    method Seek(offset: int, whence: int) returns (r: int)
      requires SeekTarget(head, Size(inode), offset, whence) >= 0
      modifies this`head
      ensures head == SeekTarget(old(head), Size(inode), offset, whence)
      ensures r == if whence in {SEEK_SET, SEEK_CUR, SEEK_END} then head else -1
    {
      if whence == SEEK_SET {
        head := offset;
      } else if whence == SEEK_CUR {
        head := head + offset;
      } else if whence == SEEK_END {
        head := head + Size(inode) + offset;
      } else {
        return -1;
      }
      r := head;
    }
  }

  const SEEK_SET: int := 0
  const SEEK_CUR: int := 1
  const SEEK_END: int := 2

  /** Where ext2_seek leaves the head. */
  function SeekTarget(head: nat, size: nat, offset: int, whence: int): int {
    if whence == SEEK_SET then offset
    else if whence == SEEK_CUR then head + offset
    else if whence == SEEK_END then head + size + offset
    else head
  }

  /** Seeking from the end goes there exactly from the start of the file: after four bytes have been
      read, the end of a file of ten bytes lies at 14. */
  lemma EndSeek(head: nat, size: nat, offset: int)
    ensures SeekTarget(head, size, offset, SEEK_END) == size + offset <==> head == 0
    ensures SeekTarget(4, 10, 0, SEEK_END) == 14
  {
  }

  /** A seek relative to the head moves it by that much, wherever it was put before, and such seeks add up. */
  lemma SeeksAdd(head: nat, size: nat, a: int, b: int)
    requires a >= 0 && head + a >= 0
    ensures SeekTarget(SeekTarget(head, size, a, SEEK_SET), size, b, SEEK_CUR) == a + b
    ensures SeekTarget(SeekTarget(head, size, a, SEEK_CUR), size, b, SEEK_CUR) ==
            SeekTarget(head, size, a + b, SEEK_CUR)
    ensures SeekTarget(head, size, 0, SEEK_CUR) == head
    ensures SeekTarget(SeekTarget(head, size, a, SEEK_CUR), size, -a, SEEK_CUR) == head
  {
  }

  /** How many blocks a call that starts at file block `b` can load. */
  function Loads(p: nat, b: nat): (n: nat)
    requires p > 254 && StartInTables(p, b)
  {
    if b == 11 + p then Capacity(p) - b + 1
    else if b < DIRECT + p then Capacity(p) - b
    else
      var o := b - 11 - p;
      DoubleStartPlace(p, b, (o / p) * p % 255, o % p - 1);
      Capacity(p) - DoubleStart(p, b)
  }

  lemma LastLoad(p: nat, c: Cursor, b: nat, k: nat)
    requires p > 254 && StartInTables(p, b) && After(p, c, b, k) && k < Loads(p, b)
    ensures c.block == 14 <==> k + 1 == Loads(p, b)
    ensures c.block <= 14
  {
    hide DoubleStart;
    if Position(p, b, k + 1) != ZERO_BLOCK { RegularNext(p, c); }
  }

  lemma SomeLoads(p: nat, b: nat)
    requires p > 254 && StartInTables(p, b)
    ensures Loads(p, b) > 0
  {
    if b >= DIRECT + p {
      hide DoubleStart, TableOf, EntryOf;
      DoubleStartPlace(p, b, ((b - 11 - p) / p) * p % 255, (b - 11 - p) % p - 1);
    }
  }

  /** The data block of load `k` is on the volume. */
  ghost predicate Loadable(g: Geometry, img: Image, inode: Inode, b: nat, k: nat)
    requires g.Valid() && ValidImage(g, img) && StartInTables(g.Pointers(), b)
  {
    CanVisit(g, img, inode, b, k) && Visit(g, img, inode, b, k) <= g.blockCount
  }

  /** A call over `n` bytes from offset `off` of file block `b` uses the block of load `k`. */
  ghost predicate UsesLoad(g: Geometry, b: nat, off: nat, n: nat, k: nat)
    requires g.Valid() && StartInTables(g.Pointers(), b)
  {
    k < Loads(g.Pointers(), b) && n > 0 && g.Place(k, 0) < off + n
  }

  /** Such a call looks load `k` up: it uses it, or it ends where that load begins. */
  ghost predicate LooksUp(g: Geometry, b: nat, off: nat, n: nat, k: nat)
    requires g.Valid() && StartInTables(g.Pointers(), b)
  {
    k < Loads(g.Pointers(), b) && g.Place(k, 0) <= off + n
  }

  /** No null pointer is followed in a call over `n` bytes from offset `off` of file block `b`:
      the data blocks it uses are on the volume, and so are the tables of the block it reads
      ahead. */
  ghost predicate Followable(g: Geometry, img: Image, inode: Inode, b: nat, off: nat, n: nat)
    requires g.Valid() && ValidImage(g, img)
  {
    && StartInTables(g.Pointers(), b)
    && (forall k: nat :: LooksUp(g, b, off, n, k) ==> CanVisit(g, img, inode, b, k))
    && (forall k: nat :: UsesLoad(g, b, off, n, k) ==> Loadable(g, img, inode, b, k))
  }

  /** The number of bytes such a call transfers: all, unless it runs off the block map. */
  ghost function Transfer(g: Geometry, b: nat, off: nat, n: nat): int
    requires g.Valid() && StartInTables(g.Pointers(), b)
  {
    var room := g.Place(Loads(g.Pointers(), b), 0) - off;
    if n <= room then n else room
  }

  /** Byte `r` of the block loaded as number `k` is byte Place(k, r) - off of the data. */
  ghost predicate Delivered(g: Geometry, img: Image, inode: Inode, b: nat, off: nat, data: seq<byte>)
    requires g.Valid() && ValidImage(g, img) && StartInTables(g.Pointers(), b)
  {
    forall k: nat, r: nat :: r < g.blockSize && off <= g.Place(k, r) < off + |data| ==>
      Loadable(g, img, inode, b, k) && data[g.Place(k, r) - off] == img[Visit(g, img, inode, b, k)][r]
  }

  method Read(fs: Volume, file: File, dst: array<byte>, n: nat) returns (count: nat)
    requires fs.Valid() && dst != fs.buf && n <= dst.Length
    requires Followable(fs.g, fs.Image(), file.inode, fs.g.BlockOf(file.head), fs.g.OffsetOf(file.head), n)
    modifies fs.buf, dst, file`head
    ensures fs.Valid() && file.head == old(file.head) + count
    ensures var b, off := fs.g.BlockOf(old(file.head)), fs.g.OffsetOf(old(file.head));
            count == Transfer(fs.g, b, off, n) <= n && Delivered(fs.g, fs.Image(), file.inode, b, off, dst[..count])
    ensures dst[count..] == old(dst[count..])
  {
    var head := file.head;
    count := ReadFrom(fs, file, fs.g.BlockOf(head), fs.g.OffsetOf(head), dst, n);
  }

  method ReadFrom(fs: Volume, file: File, b: nat, off: nat, dst: array<byte>, n: nat) returns (count: nat)
    requires fs.Valid() && dst != fs.buf && n <= dst.Length && off < fs.g.blockSize
    requires Followable(fs.g, fs.Image(), file.inode, b, off, n)
    modifies fs.buf, dst, file`head
    ensures fs.Valid() && file.head == old(file.head) + count
    ensures count == Transfer(fs.g, b, off, n) <= n
    ensures Delivered(fs.g, fs.Image(), file.inode, b, off, dst[..count])
    ensures dst[count..] == old(dst[count..])
  {
    hide Visit, CanVisit, After, Position, Padded, CanStep, Loads, StartInTables, Loadable, Geometry.Place, Delivered;
    hide UsesLoad, LooksUp, Followable, Geometry.WholeInodes;
    var g, inode := fs.g, file.inode;
    var bs := g.blockSize;
    ghost var p, img := g.Pointers(), fs.Image();
    PlaceStep(g, 0, off);
    FirstFollows(g, img, inode, b, off, n);
    var c, id, ok := FirstBlock(fs, inode, b);
    var idx: nat, blockHead: nat := 0, off;
    ghost var k := 0;
    NothingYet(g, img, inode, b, off);
    while blockHead < bs && idx < n
      invariant fs.Valid() && fs.Image() == img
      invariant idx <= n && blockHead <= bs && k < Loads(p, b) && off + idx == g.Place(k, blockHead)
      invariant After(p, c, b, k) && CanVisit(g, img, inode, b, k) && id == Visit(g, img, inode, b, k)
      invariant ok == (id <= g.blockCount) && (ok ==> fs.buf[..] == Padded(img[id], fs.buf.Length))
      invariant blockHead == bs ==> k + 1 == Loads(p, b)
      invariant file.head == old(file.head) + idx
      invariant Delivered(g, img, inode, b, off, dst[..idx])
      invariant dst[idx..] == old(dst[idx..])
      decreases n - idx
    {
      PlaceStep(g, k, blockHead);
      UsedFollows(g, img, inode, b, off, n, k, blockHead);
      PaddedAt(img[id], fs.buf.Length, blockHead);
      dst[idx] := fs.buf[blockHead];
      OneMore(g, img, inode, b, off, dst[..idx], k, blockHead, dst[idx]);
      assert dst[..idx + 1] == dst[..idx] + [dst[idx]];
      assert dst[idx + 1..] == old(dst[idx..])[1..];
      file.head := file.head + 1;
      idx := idx + 1;
      blockHead := blockHead + 1;
      if blockHead == bs {
        LastLoad(p, c, b, k);
        if c.block > 13 { break; }
        NextFollows(g, img, inode, b, off, n, k + 1);
        c, id, ok := Advance(fs, inode, c, b, k);
        k := k + 1;
        blockHead := 0;
      }
    }
    count := idx;
    EndOfRead(g, b, off, n, k, blockHead, idx);
  }

  lemma FirstFollows(g: Geometry, img: Image, inode: Inode, b: nat, off: nat, n: nat)
    requires g.Valid() && ValidImage(g, img) && Followable(g, img, inode, b, off, n)
    ensures 0 < Loads(g.Pointers(), b) && CanVisit(g, img, inode, b, 0) && StartInTables(g.Pointers(), b)
  {
    hide Loads, CanVisit, Loadable, StartInTables;
    PlaceStep(g, 0, 0);
    SomeLoads(g.Pointers(), b);
    assert LooksUp(g, b, off, n, 0);
  }

  /** A load that a byte of the call lies in is on the volume. */
  lemma UsedFollows(g: Geometry, img: Image, inode: Inode, b: nat, off: nat, n: nat, k: nat, r: nat)
    requires g.Valid() && ValidImage(g, img) && Followable(g, img, inode, b, off, n)
    requires k < Loads(g.Pointers(), b) && n > 0 && g.Place(k, r) < off + n
    ensures UsesLoad(g, b, off, n, k) && Loadable(g, img, inode, b, k)
    ensures CanVisit(g, img, inode, b, k) && Visit(g, img, inode, b, k) <= g.blockCount
  {
    hide Loads, CanVisit, Visit, StartInTables, Geometry.Place;
    PlaceStep(g, k, r);
    assert UsesLoad(g, b, off, n, k);
  }

  lemma NextFollows(g: Geometry, img: Image, inode: Inode, b: nat, off: nat, n: nat, k: nat)
    requires g.Valid() && ValidImage(g, img) && Followable(g, img, inode, b, off, n)
    requires k < Loads(g.Pointers(), b) && g.Place(k, 0) <= off + n
    ensures StartInTables(g.Pointers(), b) && LooksUp(g, b, off, n, k) && CanVisit(g, img, inode, b, k)
  {
    hide Loads, CanVisit, StartInTables, Geometry.Place, Loadable;
    assert LooksUp(g, b, off, n, k);
  }

  lemma EndOfRead(g: Geometry, b: nat, off: nat, n: nat, k: nat, blockHead: nat, idx: nat)
    requires g.Valid() && StartInTables(g.Pointers(), b) && k < Loads(g.Pointers(), b)
    requires idx <= n && off + idx == g.Place(k, blockHead) && blockHead <= g.blockSize
    requires if blockHead == g.blockSize then k + 1 == Loads(g.Pointers(), b) else idx == n
    ensures idx == Transfer(g, b, off, n)
  {
    hide Loads, StartInTables, Geometry.Place;
    PlaceStep(g, k, blockHead);
    if blockHead < g.blockSize { PlaceMonotone(g, k, blockHead, Loads(g.Pointers(), b), 0); }
  }

  lemma NothingYet(g: Geometry, img: Image, inode: Inode, b: nat, off: nat)
    requires g.Valid() && ValidImage(g, img) && StartInTables(g.Pointers(), b)
    ensures Delivered(g, img, inode, b, off, [])
  {
  }

  /** The next byte extends what was delivered. */
  lemma OneMore(g: Geometry, img: Image, inode: Inode, b: nat, off: nat, data: seq<byte>, k: nat, r: nat, x: byte)
    requires g.Valid() && ValidImage(g, img) && StartInTables(g.Pointers(), b)
    requires Delivered(g, img, inode, b, off, data) && Loadable(g, img, inode, b, k)
    requires r < g.blockSize && off + |data| == g.Place(k, r)
    requires x == img[Visit(g, img, inode, b, k)][r]
    ensures Delivered(g, img, inode, b, off, data + [x])
  {
    hide Visit, CanVisit, Geometry.Place, StartInTables;
    forall k': nat, r': nat | r' < g.blockSize && off <= g.Place(k', r') < off + |data| + 1
      ensures Loadable(g, img, inode, b, k')
           && (data + [x])[g.Place(k', r') - off] == img[Visit(g, img, inode, b, k')][r']
    {
      if g.Place(k', r') == off + |data| { SamePlace(g, k, r, k', r'); }
    }
  }

  lemma PaddedAt(block: seq<byte>, size: nat, i: nat)
    requires |block| <= size && i < |block|
    ensures Padded(block, size)[i] == block[i]
  {
  }

  /** NextBlock, told as positions of the call. */
  method Advance(fs: Volume, inode: Inode, c: Cursor, ghost b: nat, ghost k: nat)
    returns (c': Cursor, id: nat, ok: bool)
    requires fs.Valid() && StartInTables(fs.g.Pointers(), b) && After(fs.g.Pointers(), c, b, k)
    requires c.block < 14 && CanVisit(fs.g, fs.Image(), inode, b, k + 1)
    modifies fs.buf
    ensures fs.Valid() && After(fs.g.Pointers(), c', b, k + 1)
    ensures id == Visit(fs.g, fs.Image(), inode, b, k + 1) && ok == (id <= fs.g.blockCount)
    ensures ok ==> fs.buf[..] == Padded(fs.disk[id], fs.buf.Length)
  {
    hide Position, Padded, DoubleStart, Regular, Next, Resolvable, BlockId;
    AfterStep(fs.g, fs.Image(), inode, b, k, c);
    c', id, ok := NextBlock(fs, inode, c);
  }
}
