/** The block device and inode table of src/drivers/ext2.c. The drive is an array of blocks on
    which reads and writes always succeed; `buf` is the one scratch buffer that every
    operation shares. */
module Ext2Volume {
  import opened Arithmetic
  import opened Bytes

  type Block = seq<byte>
  type Image = seq<Block>

  /** struct EXT2_Inode as it lies in memory and on disk. */
  type Inode = s: seq<byte> | |s| == 128 witness seq(128, _ => 0)

  const NUM_POINTERS: nat := 15
  const AT_TYPE: nat := 0
  const AT_SIZE: nat := 4
  const AT_SECTORS: nat := 28
  const AT_POINTERS: nat := 40

  function Size(inode: Inode): (n: nat)
    ensures n < TWO32
  {
    U32(inode, AT_SIZE)
  }

  function Pointer(inode: Inode, i: nat): (id: nat)
    requires i < NUM_POINTERS
    ensures id < TWO32
  {
    U32(inode, AT_POINTERS + 4 * i)
  }

  /** Where the bytes of a record lie, least significant first. */
  lemma InodeLayout(inode: Inode, i: nat)
    requires i < NUM_POINTERS
    ensures U16(inode, AT_TYPE) == Little(inode[0..2]) && Size(inode) == Little(inode[4..8])
    ensures U32(inode, AT_SECTORS) == Little(inode[28..32])
    ensures Pointer(inode, i) == Little(inode[40 + 4 * i..44 + 4 * i])
  {
    hide U16, U32, Little;
    WordIsLittle(inode, 0);
    WordIsLittle(inode, 4);
    WordIsLittle(inode, 28);
    WordIsLittle(inode, 40 + 4 * i);
  }

  /** The geometry read from the super block and the group descriptors. */
  datatype Geometry = Geometry(
    blockSize: nat, blockCount: nat, blocksPerGroup: nat,
    inodeSize: nat, inodeCount: nat, inodesPerGroup: nat, sectorsPerBlock: nat,
    blockMaps: seq<nat>, inodeMaps: seq<nat>, inodeTables: seq<nat>)
  {
    ghost predicate Valid() {
      && 1024 <= blockSize < TWO16 && blockSize % 4 == 0
      && 128 <= inodeSize && WholeInodes()
      && 0 < inodesPerGroup && 0 < blocksPerGroup
      && blockCount < TWO32 - 1 && inodeCount < TWO32
    }

    ghost predicate WholeInodes()
      requires inodeSize > 0
    {
      blockSize % inodeSize == 0
    }

    /** 32-bit pointers per block. */
    function Pointers(): nat { blockSize / 4 }

    /** The file block and the offset within it of byte `x`. */
    function BlockOf(x: nat): nat
      requires blockSize > 0
    {
      x / blockSize
    }

    function OffsetOf(x: nat): (r: nat)
      requires blockSize > 0
      ensures r < blockSize
    {
      x % blockSize
    }

    /** The inverse: byte `r` of block `k`. */
    function Place(k: nat, r: nat): nat { k * blockSize + r }

    function InodesPerBlock(): nat
      requires Valid()
    {
      blockSize / inodeSize
    }

    function Group(idx: nat): nat
      requires Valid() && idx > 0
    {
      (idx - 1) / inodesPerGroup
    }

    function Rank(idx: nat): nat
      requires Valid() && idx > 0
    {
      (idx - 1) % inodesPerGroup
    }

    /** The inode's group is described and its table block is on the volume. */
    ghost predicate HasInode(idx: nat)
      requires Valid()
    {
      idx > 0 && Group(idx) < |inodeTables| && InodeBlock(idx) <= blockCount
    }

    function InodeBlock(idx: nat): nat
      requires Valid() && idx > 0 && Group(idx) < |inodeTables|
    {
      inodeTables[Group(idx)] + Rank(idx) / InodesPerBlock()
    }

    function InodeOffset(idx: nat): nat
      requires Valid() && idx > 0
    {
      (Rank(idx) % InodesPerBlock()) * inodeSize
    }
  }

  ghost predicate ValidImage(g: Geometry, img: Image) {
    && |img| == g.blockCount + 1
    && forall id :: 0 <= id < |img| ==> |img[id]| == g.blockSize
  }

  /** What the scratch buffer holds after block `b` was read into it. */
  function Padded(b: Block, size: nat): (s: seq<byte>)
    requires |b| <= size
    ensures |s| == size
  {
    b + Zeros(size - |b|)
  }

  lemma PaddedFront(block: Block, size: nat)
    requires |block| <= size
    ensures Padded(block, size)[..|block|] == block
  {
  }

  /** struct EXT2_FS with its drive. The guard of the block routines lets through every id up
      to and including block_count, so the device has one block more than that. */
  class Volume {
    const g: Geometry
    const disk: array<Block>
    const buf: array<byte>

    ghost predicate Valid()
      reads disk, buf
    {
      && g.Valid()
      && ValidImage(g, disk[..])
      && g.blockSize + 8 <= buf.Length
      && forall i :: g.blockSize <= i < buf.Length ==> buf[i] == 0
    }

    ghost function Image(): Image
      reads disk
    {
      disk[..]
    }

    constructor (g: Geometry, img: Image, size: nat)
      requires g.Valid() && ValidImage(g, img) && g.blockSize + 8 <= size
      ensures Valid() && this.g == g && Image() == img
      ensures fresh(disk) && fresh(buf)
    {
      this.g := g;
      disk := new Block[|img|](i requires 0 <= i < |img| => img[i]);
      buf := new byte[size](_ => 0);
    }

    /** ext2_read_block: false stands for the null pointer. */
    method ReadBlock(id: nat) returns (ok: bool)
      requires Valid()
      modifies buf
      ensures Valid()
      ensures ok == (id <= g.blockCount)
      ensures buf[..] == if ok then Padded(disk[id], buf.Length) else old(buf[..])
    {
      if id > g.blockCount { return false; }
      Copy(buf, 0, disk[id]);
      assert buf[..] == Padded(disk[id], buf.Length);
      return true;
    }

    /** ext2_write_block, always called on the scratch buffer. */
    method WriteBlock(id: nat) returns (ok: bool)
      requires Valid()
      modifies disk
      ensures Valid()
      ensures ok == (id <= g.blockCount)
      ensures Image() == if ok then old(Image())[id := buf[..g.blockSize]] else old(Image())
    {
      if id > g.blockCount { return false; }
      disk[id] := buf[..g.blockSize];
      return true;
    }

    /** Where the source's arithmetic finds inode `idx`. */
    method LocateInode(idx: nat) returns (id: nat, offset: nat)
      requires Valid() && g.HasInode(idx)
      ensures id == g.InodeBlock(idx) && offset == g.InodeOffset(idx)
    {
      var group := (idx - 1) / g.inodesPerGroup;
      var inGroup := idx - group * g.inodesPerGroup;
      var blockOffset := (inGroup - 1) * g.inodeSize / g.blockSize;
      var offsetInBlock := (inGroup - 1) - blockOffset * (g.blockSize / g.inodeSize);
      assert inGroup - 1 == g.Rank(idx);
      SlotArithmetic(g.blockSize, g.inodeSize, g.Rank(idx));
      id := g.inodeTables[group] + blockOffset;
      offset := offsetInBlock * g.inodeSize;
    }

    /** ext2_read_inode_data */
    method ReadInode(idx: nat) returns (inode: Inode)
      requires Valid() && g.HasInode(idx)
      modifies buf
      ensures Valid() && inode == InodeAt(g, Image(), idx)
    {
      InodeFits(g, idx);
      var id, offset := LocateInode(idx);
      var ok := ReadBlock(id);
      inode := buf[offset..offset + 128];
    }

    /** ext2_write_inode_data */
    method WriteInode(inode: Inode, idx: nat)
      requires Valid() && g.HasInode(idx)
      modifies buf, disk
      ensures Valid() && Image() == WithInode(g, old(Image()), idx, inode)
    {
      InodeFits(g, idx);
      var id, offset := LocateInode(idx);
      var ok := ReadBlock(id);
      Copy(buf, offset, inode);
      assert buf[..g.blockSize] == Splice(disk[id], offset, inode);
      ok := WriteBlock(id);
    }
  }

  // ---- Inode table

  function InodeAt(g: Geometry, img: Image, idx: nat): Inode
    requires g.Valid() && ValidImage(g, img) && g.HasInode(idx)
  {
    InodeFits(g, idx);
    img[g.InodeBlock(idx)][g.InodeOffset(idx)..g.InodeOffset(idx) + 128]
  }

  function WithInode(g: Geometry, img: Image, idx: nat, inode: Inode): Image
    requires g.Valid() && ValidImage(g, img) && g.HasInode(idx)
  {
    InodeFits(g, idx);
    var id := g.InodeBlock(idx);
    img[id := Splice(img[id], g.InodeOffset(idx), inode)]
  }

  /** The inode tables of different groups do not share a block. */
  ghost predicate TablesApart(g: Geometry)
    requires g.Valid()
  {
    forall a, b :: 0 <= a < b < |g.inodeTables| ==>
      g.inodeTables[a] + (g.inodesPerGroup - 1) / g.InodesPerBlock() < g.inodeTables[b] ||
      g.inodeTables[b] + (g.inodesPerGroup - 1) / g.InodesPerBlock() < g.inodeTables[a]
  }

  lemma SameTableBlock(g: Geometry, img: Image, img': Image, idx: nat)
    requires g.Valid() && ValidImage(g, img) && ValidImage(g, img') && g.HasInode(idx)
    requires img'[g.InodeBlock(idx)] == img[g.InodeBlock(idx)]
    ensures InodeAt(g, img', idx) == InodeAt(g, img, idx)
  {
  }

  /** Inodes count from 1, and those of a group lie one behind the other in its table. */
  lemma TableLayout(g: Geometry, idx: nat)
    requires g.Valid() && g.HasInode(idx)
    ensures var group := (idx - 1) / g.inodesPerGroup;
            && group < |g.inodeTables| && g.InodeBlock(idx) >= g.inodeTables[group]
            && g.InodeOffset(idx) + g.inodeSize <= g.blockSize
            && (g.InodeBlock(idx) - g.inodeTables[group]) * g.blockSize + g.InodeOffset(idx)
               == (idx - 1) % g.inodesPerGroup * g.inodeSize
  {
    var q, rank := g.InodesPerBlock(), g.Rank(idx);
    SlotArithmetic(g.blockSize, g.inodeSize, rank);
    var b, m := rank / q, rank % q;
    assert g.blockSize == g.inodeSize * q;
    assert rank == q * b + m;
    TableProduct(g.inodeSize, q, b, m);
    InodeFits(g, idx);
  }

  lemma TableProduct(n: nat, q: nat, b: nat, m: nat)
    requires m < q
    ensures b * (n * q) + m * n == (q * b + m) * n
    ensures m * n + n <= n * q
  {
    assert b * (n * q) == (q * b) * n;
    NonNegative(q - m - 1, n);
    assert (q - m - 1) * n == n * q - m * n - n;
  }

  /** Writing one inode is what reading it returns, and no other inode notices. */
  lemma InodeReadBack(g: Geometry, img: Image, idx: nat, inode: Inode, other: nat)
    requires g.Valid() && ValidImage(g, img) && TablesApart(g)
    requires g.HasInode(idx) && g.HasInode(other)
    ensures ValidImage(g, WithInode(g, img, idx, inode))
    ensures InodeAt(g, WithInode(g, img, idx, inode), other) ==
            if other == idx then inode else InodeAt(g, img, other)
  {
    InodeFits(g, idx);
    InodeFits(g, other);
    if other != idx && g.InodeBlock(idx) == g.InodeBlock(other) {
      SlotsApart(g, idx, other);
    }
  }

  /** Two inodes in one block of the table occupy different slots. */
  lemma SlotsApart(g: Geometry, i: nat, j: nat)
    requires g.Valid() && TablesApart(g) && g.HasInode(i) && g.HasInode(j)
    requires i != j && g.InodeBlock(i) == g.InodeBlock(j)
    ensures g.InodeOffset(i) + g.inodeSize <= g.InodeOffset(j) || g.InodeOffset(j) + g.inodeSize <= g.InodeOffset(i)
  {
    var q := g.InodesPerBlock();
    var a, b := g.Rank(i), g.Rank(j);
    SlotArithmetic(g.blockSize, g.inodeSize, 0);
    SameGroup(g, i, j);
    SplitsDiffer(i - 1, j - 1, g.inodesPerGroup);
    SplitsDiffer(a, b, q);
    OrderedSlots(a % q, b % q, g.inodeSize);
  }

  lemma SameGroup(g: Geometry, i: nat, j: nat)
    requires g.Valid() && TablesApart(g) && g.HasInode(i) && g.HasInode(j)
    requires g.InodeBlock(i) == g.InodeBlock(j)
    ensures g.Group(i) == g.Group(j)
  {
    hide Geometry.InodeBlock, Geometry.Group, Geometry.Rank;
    WithinTable(g, i);
    WithinTable(g, j);
  }

  /** The block of an inode belongs to its group's table. */
  lemma WithinTable(g: Geometry, i: nat)
    requires g.Valid() && g.HasInode(i)
    ensures g.InodesPerBlock() > 0 && g.Group(i) < |g.inodeTables|
    ensures var first := g.inodeTables[g.Group(i)];
            first <= g.InodeBlock(i) <= first + (g.inodesPerGroup - 1) / g.InodesPerBlock()
  {
    SlotArithmetic(g.blockSize, g.inodeSize, 0);
    QuotientMonotone(g.Rank(i), g.inodesPerGroup - 1, g.InodesPerBlock());
  }

  lemma SplitsDiffer(a: nat, b: nat, q: nat)
    requires q > 0 && a != b
    ensures a / q != b / q || a % q != b % q
  {
    assert a == q * (a / q) + a % q && b == q * (b / q) + b % q;
  }

  lemma OrderedSlots(r: nat, s: nat, n: nat)
    requires r != s
    ensures r * n + n <= s * n || s * n + n <= r * n
  {
    if r < s {
      NonNegative(s - r - 1, n);
      assert (s - r - 1) * n == s * n - r * n - n;
    } else {
      NonNegative(r - s - 1, n);
      assert (r - s - 1) * n == r * n - s * n - n;
    }
  }

  lemma InodeFits(g: Geometry, idx: nat)
    requires g.Valid() && idx > 0
    ensures g.InodeOffset(idx) + 128 <= g.InodeOffset(idx) + g.inodeSize <= g.blockSize
  {
    SlotFits(g.blockSize, g.inodeSize, g.Rank(idx) % g.InodesPerBlock());
  }

  lemma SlotFits(total: nat, n: nat, r: nat)
    requires n > 0 && total % n == 0 && r < total / n
    ensures r * n + n <= total
  {
    var q := total / n;
    assert total == n * q;
    NonNegative(q - r - 1, n);
    assert (q - r - 1) * n == q * n - r * n - n;
  }

  /** The offsets the source computes with products and quotients are the quotient and the
      remainder by the number of inodes in a block. */
  lemma SlotArithmetic(total: nat, n: nat, r: nat)
    requires n > 0 && total > 0 && total % n == 0
    ensures total / n > 0
    ensures r * n / total == r / (total / n)
    ensures r - (r / (total / n)) * (total / n) == r % (total / n)
  {
    var q := total / n;
    assert total == n * q;
    assert q > 0;
    var b, m := r / q, r % q;
    assert r == q * b + m;
    assert r * n == total * b + m * n by {
      assert (q * b + m) * n == q * b * n + m * n;
      assert q * b * n == (n * q) * b;
    }
    SlotFits(total, n, m);
    NonNegative(m, n);
    QuotientIs(r * n, total, b, m * n);
    assert b * q == q * b;
  }

  // ---- Byte positions

  lemma PlaceStep(g: Geometry, k: nat, r: nat)
    ensures g.Place(0, r) == r && g.Place(k, r + 1) == g.Place(k, r) + 1
    ensures g.Place(k, g.blockSize) == g.Place(k + 1, 0)
    ensures g.Place(k, r) == g.Place(k, 0) + r
  {
  }

  lemma PlaceMonotone(g: Geometry, k: nat, r: nat, k': nat, r': nat)
    requires r < g.blockSize && k < k'
    ensures g.Place(k, r) < g.Place(k', 0) <= g.Place(k', r')
  {
    NonNegative(k' - k - 1, g.blockSize);
    assert (k' - k - 1) * g.blockSize == k' * g.blockSize - k * g.blockSize - g.blockSize;
  }

  lemma SamePlace(g: Geometry, k: nat, r: nat, k': nat, r': nat)
    requires r < g.blockSize && r' < g.blockSize && g.Place(k, r) == g.Place(k', r')
    ensures k == k' && r == r'
  {
    if k < k' { PlaceMonotone(g, k, r, k', r'); }
    if k' < k { PlaceMonotone(g, k', r', k, r); }
  }

  lemma PlaceOfByte(g: Geometry, x: nat)
    requires g.blockSize > 0
    ensures g.Place(g.BlockOf(x), g.OffsetOf(x)) == x
  {
    assert x == g.blockSize * (x / g.blockSize) + x % g.blockSize;
  }

  /** Shifting by whole blocks. */
  lemma PlaceShift(g: Geometry, b: nat, k: nat, r: nat)
    ensures g.Place(b + k, r) == g.Place(b, 0) + g.Place(k, r)
  {
    assert (b + k) * g.blockSize == b * g.blockSize + k * g.blockSize;
  }
}
