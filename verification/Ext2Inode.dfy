/** ext2_alloc_inode and ext2_extendFile of src/drivers/ext2.c. */
module Ext2Inode {
  import opened Arithmetic
  import opened Bytes
  import opened Ext2Volume
  import opened Ext2Alloc

  const DIRECTORY: nat := 0x4000
  const REGULAR_FILE: nat := 0x8000
  const FIRST_INODE: nat := 11

  // ---- Fields of an inode

  predicate Words(ids: seq<nat>) { forall i :: 0 <= i < |ids| ==> ids[i] < TWO32 }

  lemma SameWord(s: seq<byte>, t: seq<byte>, i: nat)
    requires i + 4 <= |s| == |t| && forall k :: i <= k < i + 4 ==> s[k] == t[k]
    ensures U32(s, i) == U32(t, i)
  {
  }

  function PutPointer(inode: Inode, i: nat, id: nat): (r: Inode)
    requires i < NUM_POINTERS && id < TWO32
    ensures forall k :: 0 <= k < 128 && !(AT_POINTERS + 4 * i <= k < AT_POINTERS + 4 * i + 4) ==> r[k] == inode[k]
    ensures forall k :: 0 <= k < NUM_POINTERS ==> Pointer(r, k) == if k == i then id else Pointer(inode, k)
  {
    OnePointer(inode, i, id);
    PutU32(inode, AT_POINTERS + 4 * i, id)
  }

  lemma OnePointer(inode: Inode, i: nat, id: nat)
    requires i < NUM_POINTERS && id < TWO32
    ensures var r := PutU32(inode, AT_POINTERS + 4 * i, id);
            forall k :: 0 <= k < NUM_POINTERS ==> Pointer(r, k) == if k == i then id else Pointer(inode, k)
  {
    hide U32, PutU32;
    var r := PutU32(inode, AT_POINTERS + 4 * i, id);
    forall k | 0 <= k < NUM_POINTERS && k != i ensures Pointer(r, k) == Pointer(inode, k) {
      SameWord(r, inode, AT_POINTERS + 4 * k);
    }
  }

  /** Pointers `start`, `start` + 1, ... set to `ids`. */
  function PutFrom(inode: Inode, start: nat, ids: seq<nat>): (r: Inode)
    requires start + |ids| <= NUM_POINTERS && Words(ids)
    ensures forall k :: 0 <= k < 128 && !(AT_POINTERS + 4 * start <= k < AT_POINTERS + 4 * (start + |ids|)) ==>
            r[k] == inode[k]
    ensures forall k :: start <= k < start + |ids| ==> Pointer(r, k) == ids[k - start]
    ensures forall k :: 0 <= k < NUM_POINTERS && !(start <= k < start + |ids|) ==> Pointer(r, k) == Pointer(inode, k)
  {
    if ids == [] then inode
    else
      var n := |ids| - 1;
      PutPointer(PutFrom(inode, start, ids[..n]), start + n, ids[n])
  }

  /** How many blocks a file of that size has, as the code counts them. */
  function BlockCount(g: Geometry, size: nat): nat
    requires g.Valid()
  {
    g.BlockOf(size) + 1
  }

  /** The fields that ext2_alloc_inode writes before it allocates blocks. */
  function InitInode(g: Geometry, inode: Inode, kind: nat, size: nat): (r: Inode)
    requires g.Valid() && kind < TWO16 && size < TWO32
  {
    var a := PutU16(inode, AT_TYPE, kind);
    var b := PutU32(PutU32(PutU32(PutU32(a, AT_SIZE, size), 8, 100), 12, 100), 16, 100);
    var c := PutU32(PutU32(b, 20, 0xFFFF_FFFF), AT_SECTORS, BlockCount(g, size) * g.sectorsPerBlock % TWO32);
    PutU32(PutFrom(c, 0, seq(NUM_POINTERS, _ => 0)), 108, 0)
  }

  // ---- Free inodes

  function InodeMap(g: Geometry, img: Image): seq<byte>
    requires OneGroup(g) && ValidImage(g, img)
  {
    img[g.inodeMaps[0]]
  }

  /** ext2_get_freeInodeIdx: the least free inode from 11 on, below inode_count; else 0. */
  function FreeInode(g: Geometry, img: Image): (idx: nat)
    requires OneGroup(g) && ValidImage(g, img)
    ensures idx != 0 ==> FIRST_INODE <= idx < g.inodeCount
  {
    if g.inodeCount <= FIRST_INODE then 0
    else
      var bit := FirstFree(InodeMap(g, img), FIRST_INODE - 1, g.inodeCount - 1);
      if bit < g.inodeCount - 1 then bit + 1 else 0
  }

  /** The inode found is the least clear bit from the eleventh inode on, and 0 exactly when there is none. */
  lemma FreeInodeIsLeast(g: Geometry, img: Image)
    requires OneGroup(g) && ValidImage(g, img)
    ensures var idx := FreeInode(g, img);
            && (idx != 0 ==> 11 <= idx < g.inodeCount && !Marked(InodeMap(g, img), idx - 1))
            && (forall bit :: 10 <= bit < g.inodeCount - 1 && !Marked(InodeMap(g, img), bit) ==> 0 < idx <= bit + 1)
  {
    hide Marked;
    if g.inodeCount > FIRST_INODE {
      var first := FirstFree(InodeMap(g, img), FIRST_INODE - 1, g.inodeCount - 1);
    }
  }

  method GetFreeInode(fs: Volume) returns (idx: nat)
    requires fs.Valid() && OneGroup(fs.g)
    modifies fs.buf
    ensures fs.Valid() && idx == FreeInode(fs.g, fs.Image())
  {
    hide FirstFree, Bit, Geometry.HasInode, Geometry.WholeInodes;
    var group: int := -1;
    ghost var bits := InodeMap(fs.g, fs.Image());
    var i := FIRST_INODE;
    if i >= fs.g.inodeCount { return 0; }
    ghost var first := FirstFree(bits, FIRST_INODE - 1, fs.g.inodeCount - 1);
    while i < fs.g.inodeCount
      invariant fs.Valid() && FIRST_INODE <= i <= first + 1
      invariant group == (if i == FIRST_INODE then -1 else 0)
      invariant i > FIRST_INODE ==> fs.buf[..] == Padded(bits, fs.buf.Length)
    {
      var wanted := (i - 1) / fs.g.inodesPerGroup;
      Small(i - 1, fs.g.inodesPerGroup);
      if group != wanted {
        group := wanted;
        var ok := fs.ReadBlock(fs.g.inodeMaps[group]);
      }
      assert fs.buf[..][(i - 1) / 8] == bits[(i - 1) / 8];
      assert Marked(bits, i - 1) <==> Bit(fs.buf[(i - 1) / 8], (i - 1) % 8);
      if !Bit(fs.buf[(i - 1) / 8], (i - 1) % 8) { return i; }
      i := i + 1;
    }
    return 0;
  }

  // ---- Allocation of an inode with its blocks

  /** `n` successive block allocations. */
  ghost function Grant(g: Geometry, img: Image, n: nat): (r: (Image, seq<nat>))
    requires OneGroup(g) && ValidImage(g, img)
    ensures ValidImage(g, r.0) && |r.1| == n && Words(r.1)
  {
    if n == 0 then (img, [])
    else
      var (before, ids) := Grant(g, img, n - 1);
      (Allocate(g, before), ids + [FreeBlock(g, before)])
  }

  function BlocksFor(g: Geometry, kind: nat, size: nat): (n: nat)
    requires g.Valid()
    ensures n <= 12
  {
    if kind == DIRECTORY then 1
    else if kind == REGULAR_FILE then (if BlockCount(g, size) < 12 then BlockCount(g, size) else 12)
    else 0
  }

  /** `ids` followed by zeros, one per pointer. */
  function PointerList(ids: seq<nat>): (r: seq<nat>)
    requires |ids| <= NUM_POINTERS && Words(ids)
    ensures |r| == NUM_POINTERS && Words(r)
  {
    ids + seq(NUM_POINTERS - |ids|, _ => 0)
  }

  /** The volume once inode `idx` is claimed and initialised. */
  ghost function Claim(g: Geometry, img: Image, idx: nat, kind: nat, size: nat): (r: Image)
    requires OneGroup(g) && ValidImage(g, img) && 0 < idx <= g.inodeCount && kind < TWO16 && size < TWO32
    ensures ValidImage(g, r)
  {
    var marked := img[g.inodeMaps[0] := Mark(InodeMap(g, img), idx - 1)];
    WithInodeValid(g, marked, idx, InitInode(g, InodeAt(g, marked, idx), kind, size));
    WithInode(g, marked, idx, InitInode(g, InodeAt(g, marked, idx), kind, size))
  }

  /** The volume after ext2_alloc_inode. */
  ghost function Create(g: Geometry, img: Image, idx: nat, kind: nat, size: nat): (r: Image)
    requires OneGroup(g) && ValidImage(g, img) && 0 < idx <= g.inodeCount && kind < TWO16 && size < TWO32
  {
    var (granted, ids) := Grant(g, Claim(g, img, idx, kind, size), BlocksFor(g, kind, size));
    WithInode(g, granted, idx, PutFrom(InodeAt(g, granted, idx), 0, PointerList(ids)))
  }

  lemma WithInodeValid(g: Geometry, img: Image, idx: nat, inode: Inode)
    requires g.Valid() && ValidImage(g, img) && g.HasInode(idx)
    ensures ValidImage(g, WithInode(g, img, idx, inode))
  {
    InodeFits(g, idx);
  }

  /** ext2_alloc_inode, on a volume with a free inode. */
  method AllocInode(fs: Volume, kind: nat, size: nat) returns (idx: nat)
    requires fs.Valid() && OneGroup(fs.g) && kind < TWO16 && size < TWO32
    requires FreeInode(fs.g, fs.Image()) != 0
    modifies fs.buf, fs.disk
    ensures fs.Valid() && idx == FreeInode(fs.g, old(fs.Image()))
    ensures fs.Image() == Create(fs.g, old(fs.Image()), idx, kind, size)
  {
    hide FirstFree, Mark, InitInode, PutFrom, InodeAt, WithInode, Allocate, FreeBlock, FreeInode, Geometry.WholeInodes;
    idx := GetFreeInode(fs);
    FreeInodeRange(fs.g, fs.Image());
    Small(idx - 1, fs.g.inodesPerGroup);
    var group := (idx - 1) / fs.g.inodesPerGroup;
    SetBit(fs, fs.g.inodeMaps[group], idx - 1);
    var inode := fs.ReadInode(idx);
    fs.WriteInode(InitInode(fs.g, inode, kind, size), idx);
    ghost var claimed := fs.Image();

    var n := BlocksFor(fs.g, kind, size);
    var ids: seq<nat> := [];
    for i := 0 to n
      invariant fs.Valid() && (fs.Image(), ids) == Grant(fs.g, claimed, i)
    {
      var id := AllocBlock(fs);
      ids := ids + [id];
    }
    inode := fs.ReadInode(idx);
    fs.WriteInode(PutFrom(inode, 0, PointerList(ids)), idx);
  }

  lemma FreeInodeRange(g: Geometry, img: Image)
    requires OneGroup(g) && ValidImage(g, img) && FreeInode(g, img) != 0
    ensures FIRST_INODE <= FreeInode(g, img) < g.inodeCount
  {
  }

  // ---- What creation guarantees

  /** The bitmaps and the inode table are marked in use and do not overlap. */
  ghost predicate Sound(g: Geometry, img: Image)
    requires OneGroup(g) && ValidImage(g, img)
  {
    && MapMarked(g, img) && TablesApart(g)
    && InUse(g, img, g.inodeMaps[0]) && g.inodeMaps[0] != g.blockMaps[0]
    && forall j :: 0 < j <= g.inodeCount ==> TableBlock(g, img, j)
  }

  ghost predicate InUse(g: Geometry, img: Image, id: nat)
    requires OneGroup(g) && ValidImage(g, img)
  {
    id < g.blockCount && Marked(BlockMap(g, img), id)
  }

  ghost predicate TableBlock(g: Geometry, img: Image, j: nat)
    requires OneGroup(g) && ValidImage(g, img) && 0 < j <= g.inodeCount
  {
    InUse(g, img, g.InodeBlock(j)) && g.InodeBlock(j) != g.blockMaps[0] && g.InodeBlock(j) != g.inodeMaps[0]
  }

  function AllocSteps(n: nat): (s: seq<Step>)
    ensures |s| == n
  {
    if n == 0 then [] else AllocSteps(n - 1) + [Alloc]
  }

  lemma {:induction false} GrantIsRun(g: Geometry, img: Image, n: nat)
    requires OneGroup(g) && ValidImage(g, img)
    ensures forall s :: s in AllocSteps(n) ==> s == Alloc
    ensures Grant(g, img, n) == Play(g, img, AllocSteps(n)) && Allocs(AllocSteps(n)) == n
  {
    hide FreeBlock, Allocate, OneGroup, ValidImage;
    AllAlloc(n);
    if n > 0 {
      GrantIsRun(g, img, n - 1);
      LastAlloc(n);
    }
  }

  lemma {:induction false} AllAlloc(n: nat)
    ensures forall s :: s in AllocSteps(n) ==> s == Alloc
  {
    if n > 0 { AllAlloc(n - 1); }
  }

  lemma LastAlloc(n: nat)
    requires n > 0
    ensures AllocSteps(n)[n - 1] == Alloc && AllocSteps(n)[..n - 1] == AllocSteps(n - 1)
  {
  }

  /** `n` allocations from a volume with enough free blocks. */
  lemma GrantSafe(g: Geometry, img: Image, n: nat)
    requires OneGroup(g) && ValidImage(g, img) && MapMarked(g, img) && n <= FreeCount(g, img)
    ensures var (end, ids) := Grant(g, img, n);
            && MapMarked(g, end)
            && (forall i :: 0 <= i < n ==> ids[i] < g.blockCount && !Marked(BlockMap(g, img), ids[i]))
            && (forall i, j :: 0 <= i < j < n ==> ids[i] < ids[j])
            && (forall b :: 0 <= b < g.blockCount ==>
                  Marked(BlockMap(g, end), b) == (b in ids || Marked(BlockMap(g, img), b)))
            && (forall b :: 0 <= b < g.blockCount && b != g.blockMaps[0] && Marked(BlockMap(g, img), b) ==>
                  end[b] == img[b])
  {
    hide FreeBlock, Allocate, Geometry.HasInode, Geometry.WholeInodes, Marked, FreeCount, MapMarked, Play, Grant;
    GrantIsRun(g, img, n);
    RunSafe(g, img, AllocSteps(n));
    forall b | b != g.blockMaps[0] ensures Untouched(g, AllocSteps(n), b) {}
  }

  /** The granted blocks are filled with zeros. */
  lemma {:induction false} GrantZeroes(g: Geometry, img: Image, n: nat)
    requires OneGroup(g) && ValidImage(g, img) && MapMarked(g, img) && n <= FreeCount(g, img)
    ensures var (end, ids) := Grant(g, img, n);
            forall i :: 0 <= i < n ==> ids[i] < |end| && end[ids[i]] == Zeros(g.blockSize)
  {
    hide FreeBlock, Allocate, Geometry.HasInode, Geometry.WholeInodes, Marked, FreeCount;
    if n > 0 {
      GrantZeroes(g, img, n - 1);
      GrantSafe(g, img, n - 1);
      GrantLeaves(g, img, n - 1);
      AllocateTakesLeast(g, Grant(g, img, n - 1).0);
    }
  }

  lemma GrantLeaves(g: Geometry, img: Image, n: nat)
    requires OneGroup(g) && ValidImage(g, img) && MapMarked(g, img) && n <= FreeCount(g, img)
    ensures FreeCount(g, Grant(g, img, n).0) == FreeCount(g, img) - n
  {
    hide FreeBlock, Allocate, Geometry.HasInode, Geometry.WholeInodes, Marked, FreeCount, MapMarked, Play, Grant;
    GrantIsRun(g, img, n);
    RunSafe(g, img, AllocSteps(n));
  }

  /** Allocations write to nothing but the bitmap and the blocks they hand out. */
  lemma {:induction false} GrantElsewhere(g: Geometry, img: Image, n: nat)
    requires OneGroup(g) && ValidImage(g, img)
    ensures var (end, ids) := Grant(g, img, n);
            forall b :: 0 <= b < |img| && b != g.blockMaps[0] && b !in ids ==> end[b] == img[b]
  {
    hide FreeBlock, Mark, Geometry.HasInode, Geometry.WholeInodes;
    if n > 0 { GrantElsewhere(g, img, n - 1); }
  }

  /** Two images agree on the bitmaps of inodes, and on every inode but `idx`. */
  ghost predicate OthersKept(g: Geometry, img: Image, end: Image, idx: nat)
    requires OneGroup(g) && ValidImage(g, img) && ValidImage(g, end)
  {
    forall j :: 0 < j <= g.inodeCount && j != idx ==> InodeAt(g, end, j) == InodeAt(g, img, j)
  }

  /** Rewriting one inode of a sound volume. */
  lemma RewriteInode(g: Geometry, img: Image, idx: nat, inode: Inode)
    requires OneGroup(g) && ValidImage(g, img) && Sound(g, img) && 0 < idx <= g.inodeCount
    ensures var end := WithInode(g, img, idx, inode);
            && ValidImage(g, end) && Sound(g, end)
            && BlockMap(g, end) == BlockMap(g, img) && InodeMap(g, end) == InodeMap(g, img)
            && InodeAt(g, end, idx) == inode && OthersKept(g, img, end, idx)
            && (forall b :: 0 <= b < |img| && b != g.InodeBlock(idx) ==> end[b] == img[b])
  {
    hide Marked, InodeAt, Geometry.HasInode, Geometry.WholeInodes;
    WithInodeValid(g, img, idx, inode);
    assert TableBlock(g, img, idx);
    InodeReadBack(g, img, idx, inode, idx);
    var end := WithInode(g, img, idx, inode);
    WithInodeElsewhere(g, img, idx, inode);
    forall j | 0 < j <= g.inodeCount && j != idx ensures InodeAt(g, end, j) == InodeAt(g, img, j) {
      InodeReadBack(g, img, idx, inode, j);
    }
    forall j | 0 < j <= g.inodeCount ensures TableBlock(g, end, j) { assert TableBlock(g, img, j); }
  }

  lemma WithInodeElsewhere(g: Geometry, img: Image, idx: nat, inode: Inode)
    requires g.Valid() && ValidImage(g, img) && g.HasInode(idx)
    ensures |WithInode(g, img, idx, inode)| == |img|
    ensures forall b :: 0 <= b < |img| && b != g.InodeBlock(idx) ==> WithInode(g, img, idx, inode)[b] == img[b]
  {
  }

  /** Marking an inode in its bitmap. */
  lemma ClaimBit(g: Geometry, img: Image, idx: nat)
    requires OneGroup(g) && ValidImage(g, img) && Sound(g, img) && 0 < idx <= g.inodeCount
    ensures var end := img[g.inodeMaps[0] := Mark(InodeMap(g, img), idx - 1)];
            && ValidImage(g, end) && Sound(g, end) && BlockMap(g, end) == BlockMap(g, img)
            && (forall j :: 0 < j <= g.inodeCount ==> InodeAt(g, end, j) == InodeAt(g, img, j))
  {
    hide Marked, Mark, Geometry.HasInode, Geometry.WholeInodes;
    var end := img[g.inodeMaps[0] := Mark(InodeMap(g, img), idx - 1)];
    forall j | 0 < j <= g.inodeCount ensures InodeAt(g, end, j) == InodeAt(g, img, j) && TableBlock(g, end, j) {
      assert TableBlock(g, img, j);
    }
  }

  /** Block allocation leaves the inode side of a sound volume alone. */
  lemma GrantKeepsInodes(g: Geometry, img: Image, n: nat)
    requires OneGroup(g) && ValidImage(g, img) && Sound(g, img) && n <= FreeCount(g, img)
    ensures var end := Grant(g, img, n).0;
            && Sound(g, end) && InodeMap(g, end) == InodeMap(g, img)
            && (forall j :: 0 < j <= g.inodeCount ==> InodeAt(g, end, j) == InodeAt(g, img, j))
  {
    hide Marked, Grant, FreeCount, Geometry.HasInode, Geometry.WholeInodes;
    GrantSafe(g, img, n);
    var end := Grant(g, img, n).0;
    forall j | 0 < j <= g.inodeCount ensures InodeAt(g, end, j) == InodeAt(g, img, j) && TableBlock(g, end, j) {
      assert TableBlock(g, img, j);
      InodeFits(g, j);
    }
  }

  /** The inode that creation leaves at `idx`. */
  ghost function CreatedInode(g: Geometry, img: Image, idx: nat, kind: nat, size: nat): Inode
    requires OneGroup(g) && ValidImage(g, img) && 0 < idx <= g.inodeCount && kind < TWO16 && size < TWO32
  {
    PutFrom(InitInode(g, InodeAt(g, img, idx), kind, size), 0, PointerList(CreatedBlocks(g, img, idx, kind, size)))
  }

  ghost function CreatedBlocks(g: Geometry, img: Image, idx: nat, kind: nat, size: nat): (ids: seq<nat>)
    requires OneGroup(g) && ValidImage(g, img) && 0 < idx <= g.inodeCount && kind < TWO16 && size < TWO32
    ensures |ids| == BlocksFor(g, kind, size) && Words(ids)
  {
    Grant(g, Claim(g, img, idx, kind, size), BlocksFor(g, kind, size)).1
  }

  /** The blocks are pairwise distinct, were free, are zeroed, and no other block became marked. */
  ghost predicate BlocksTaken(g: Geometry, img: Image, end: Image, ids: seq<nat>)
    requires OneGroup(g) && ValidImage(g, img) && ValidImage(g, end)
  {
    && (forall i :: 0 <= i < |ids| ==> ids[i] < g.blockCount && !Marked(BlockMap(g, img), ids[i]))
    && (forall i, j :: 0 <= i < j < |ids| ==> ids[i] < ids[j])
    && (forall i :: 0 <= i < |ids| ==> end[ids[i]] == Zeros(g.blockSize))
    && (forall b :: 0 <= b < g.blockCount ==> Marked(BlockMap(g, end), b) == (b in ids || Marked(BlockMap(g, img), b)))
  }

  /** No block changed but the bitmaps, the one that holds inode `idx`, and `ids`. */
  ghost predicate NothingElse(g: Geometry, img: Image, end: Image, idx: nat, ids: seq<nat>)
    requires OneGroup(g) && ValidImage(g, img) && ValidImage(g, end) && 0 < idx <= g.inodeCount
  {
    forall b :: 0 <= b < |img| && b !in ids && b !in {g.blockMaps[0], g.inodeMaps[0], g.InodeBlock(idx)} ==>
      end[b] == img[b]
  }

  /** Creating an inode on a sound volume with enough free blocks: it gets the least free inode,
      exactly that inode's bit is set, its record holds the type, the size and pairwise distinct
      blocks that were free, every other inode's record is unchanged, and so is every other block, in
      particular all data of other files. */
  lemma CreateIsSafe(g: Geometry, img: Image, kind: nat, size: nat)
    requires OneGroup(g) && ValidImage(g, img) && Sound(g, img) && kind < TWO16 && size < TWO32
    requires FreeInode(g, img) != 0 && BlocksFor(g, kind, size) <= FreeCount(g, img)
    ensures var idx := FreeInode(g, img);
            var end, ids := Create(g, img, idx, kind, size), CreatedBlocks(g, img, idx, kind, size);
            && ValidImage(g, end) && Sound(g, end)
            && !Marked(InodeMap(g, img), idx - 1) && InodeMap(g, end) == Mark(InodeMap(g, img), idx - 1)
            && InodeAt(g, end, idx) == CreatedInode(g, img, idx, kind, size)
            && OthersKept(g, img, end, idx) && BlocksTaken(g, img, end, ids) && NothingElse(g, img, end, idx, ids)
  {
    hide Marked, Mark, InodeAt, WithInode, InitInode, PutFrom, Grant, Geometry.HasInode, Geometry.WholeInodes,
         FirstFree;
    var idx, n := FreeInode(g, img), BlocksFor(g, kind, size);
    var marked := img[g.inodeMaps[0] := Mark(InodeMap(g, img), idx - 1)];
    ClaimBit(g, img, idx);
    RewriteInode(g, marked, idx, InitInode(g, InodeAt(g, marked, idx), kind, size));
    var claimed := Claim(g, img, idx, kind, size);
    assert BlockMap(g, claimed) == BlockMap(g, img);
    GrantSafe(g, claimed, n);
    GrantKeepsInodes(g, claimed, n);
    GrantZeroes(g, claimed, n);
    GrantElsewhere(g, claimed, n);
    assert TableBlock(g, claimed, idx);
    var (granted, ids) := Grant(g, claimed, n);
    RewriteInode(g, granted, idx, PutFrom(InodeAt(g, granted, idx), 0, PointerList(ids)));
  }

  /** The created record, field by field. */
  lemma CreatedFields(g: Geometry, img: Image, idx: nat, kind: nat, size: nat)
    requires OneGroup(g) && ValidImage(g, img) && 0 < idx <= g.inodeCount && kind < TWO16 && size < TWO32
    ensures var inode, ids := CreatedInode(g, img, idx, kind, size), CreatedBlocks(g, img, idx, kind, size);
            && U16(inode, AT_TYPE) == kind && Size(inode) == size
            && (forall k :: 0 <= k < |ids| ==> Pointer(inode, k) == ids[k])
            && (forall k :: |ids| <= k < NUM_POINTERS ==> Pointer(inode, k) == 0)
  {
    hide Grant, InodeAt, CreatedBlocks, PutFrom, U32;
    var before, ids := InodeAt(g, img, idx), CreatedBlocks(g, img, idx, kind, size);
    InitFields(g, before, kind, size);
    var inode := CreatedInode(g, img, idx, kind, size);
    SameWord(inode, InitInode(g, before, kind, size), AT_SIZE);
    forall k | |ids| <= k < NUM_POINTERS ensures Pointer(inode, k) == 0 { assert PointerList(ids)[k] == 0; }
  }

  /** A regular file gets the blocks its bytes need, and the one behind when they fill them, up to twelve; a
      directory gets one. */
  lemma BlocksForBytes(g: Geometry, kind: nat, size: nat)
    requires g.Valid()
    ensures var n := BlocksFor(g, kind, size);
            && (kind == DIRECTORY ==> n == 1)
            && (kind == REGULAR_FILE ==> 0 < n <= 12 && (n - 1) * g.blockSize <= size)
            && (kind == REGULAR_FILE && n < 12 ==> size < n * g.blockSize)
            && (kind != DIRECTORY && kind != REGULAR_FILE ==> n == 0)
  {
    var q := size / g.blockSize;
    assert size == g.blockSize * q + size % g.blockSize;
    if q > 11 {
      NonNegative(q - 11, g.blockSize);
      assert (q - 11) * g.blockSize == q * g.blockSize - 11 * g.blockSize;
    }
  }

  /** The rest of the created record: sector count, times, no upper half of the size; the bytes of no field
      that creation writes are those found on disk. */
  lemma CreatedRest(g: Geometry, img: Image, idx: nat, kind: nat, size: nat)
    requires OneGroup(g) && ValidImage(g, img) && 0 < idx <= g.inodeCount && kind < TWO16 && size < TWO32
    ensures var inode := CreatedInode(g, img, idx, kind, size);
            && U32(inode, AT_SECTORS) == (size / g.blockSize + 1) * g.sectorsPerBlock % TWO32
            && U32(inode, 8) == U32(inode, 12) == U32(inode, 16) == 100 && U32(inode, 20) == 0xFFFF_FFFF
            && U32(inode, 108) == 0
            && forall k :: 2 <= k < 4 || 24 <= k < 28 || 32 <= k < 40 || 100 <= k < 108 || 112 <= k < 128 ==>
                 inode[k] == InodeAt(g, img, idx)[k]
  {
    hide Grant, InodeAt, CreatedBlocks, PutFrom, U32;
    var before, inode := InodeAt(g, img, idx), CreatedInode(g, img, idx, kind, size);
    InitRest(g, before, kind, size);
    var start := InitInode(g, before, kind, size);
    SameWord(inode, start, AT_SECTORS);
    SameWord(inode, start, 8);
    SameWord(inode, start, 12);
    SameWord(inode, start, 16);
    SameWord(inode, start, 20);
    SameWord(inode, start, 108);
  }

  lemma InitRest(g: Geometry, inode: Inode, kind: nat, size: nat)
    requires g.Valid() && kind < TWO16 && size < TWO32
    ensures var r := InitInode(g, inode, kind, size);
            && U32(r, AT_SECTORS) == (size / g.blockSize + 1) * g.sectorsPerBlock % TWO32
            && U32(r, 8) == U32(r, 12) == U32(r, 16) == 100 && U32(r, 20) == 0xFFFF_FFFF && U32(r, 108) == 0
            && forall k :: 2 <= k < 4 || 24 <= k < 28 || 32 <= k < 40 || 100 <= k < 108 || 112 <= k < 128 ==>
                 r[k] == inode[k]
  {
    hide PutU32, PutFrom, U32;
    var a := PutU16(inode, AT_TYPE, kind);
    var b := PutU32(PutU32(PutU32(PutU32(a, AT_SIZE, size), 8, 100), 12, 100), 16, 100);
    var c := PutU32(PutU32(b, 20, 0xFFFF_FFFF), AT_SECTORS, BlockCount(g, size) * g.sectorsPerBlock % TWO32);
    var r := InitInode(g, inode, kind, size);
    SameWord(r, c, AT_SECTORS);
    SameWord(r, PutU32(b, 20, 0xFFFF_FFFF), 20);
    SameWord(r, b, 16);
    SameWord(b, PutU32(PutU32(PutU32(a, AT_SIZE, size), 8, 100), 12, 100), 12);
    SameWord(b, PutU32(PutU32(a, AT_SIZE, size), 8, 100), 8);
    SameWord(r, b, 12);
    SameWord(r, b, 8);
  }

  lemma InitFields(g: Geometry, inode: Inode, kind: nat, size: nat)
    requires g.Valid() && kind < TWO16 && size < TWO32
    ensures U16(InitInode(g, inode, kind, size), AT_TYPE) == kind && Size(InitInode(g, inode, kind, size)) == size
  {
    hide PutU32, PutFrom, U32;
    var a := PutU16(inode, AT_TYPE, kind);
    var s := PutU32(a, AT_SIZE, size);
    SameWord(InitInode(g, inode, kind, size), s, AT_SIZE);
  }

  // ---- Growing a file

  /** blocks_needed; never negative because the size only grows. */
  function BlocksNeeded(g: Geometry, inode: Inode, amount: nat): int
    requires g.Valid()
  {
    BlockCount(g, Size(inode) + amount) - BlockCount(g, Size(inode))
  }

  /** How many blocks ext2_extendFile allocates: it starts one pointer past the first new one. */
  function BlocksAdded(g: Geometry, inode: Inode, amount: nat): nat
    requires g.Valid()
  {
    var start, needed := BlockCount(g, Size(inode)) + 1, BlocksNeeded(g, inode, amount);
    if needed <= 0 || start >= 12 then 0 else if start + needed <= 12 then needed else 12 - start
  }

  /** The record with its new size and sector count. */
  function Grown(g: Geometry, inode: Inode, amount: nat): Inode
    requires g.Valid() && Size(inode) + amount < TWO32
  {
    var sectors := U32(inode, AT_SECTORS) + BlocksNeeded(g, inode, amount) * g.blockSize / 512;
    PutU32(PutU32(inode, AT_SIZE, Size(inode) + amount), AT_SECTORS, sectors % TWO32)
  }

  /** The blocks that the new size needs beyond those of the old one. */
  function Needed(g: Geometry, size: nat, amount: nat): nat
    requires g.Valid()
  {
    QuotientMonotone(size, size + amount, g.blockSize);
    (size + amount) / g.blockSize - size / g.blockSize
  }

  /** Nothing but the size differs. */
  ghost predicate OnlySizeDiffers(before: Inode, after: Inode) {
    && (forall k :: 0 <= k < 128 && !(AT_SIZE <= k < AT_SIZE + 4) ==> after[k] == before[k])
    && U16(after, AT_TYPE) == U16(before, AT_TYPE) && U32(after, AT_SECTORS) == U32(before, AT_SECTORS)
  }

  /** A byte of the size, the sector count, or one of `n` pointers from `start` on. */
  predicate GrowthByte(k: nat, start: nat, n: nat) {
    || AT_SIZE <= k < AT_SIZE + 4
    || AT_SECTORS <= k < AT_SECTORS + 4
    || AT_POINTERS + 4 * start <= k < AT_POINTERS + 4 * (start + n)
  }

  /** Growing writes the size, the sector count and `n` pointers from `start` on, and nothing else; the sector
      count grows by that of the blocks needed. */
  ghost predicate GrownRecord(g: Geometry, before: Inode, after: Inode, amount: nat, start: nat, n: nat)
    requires g.Valid()
  {
    && Size(after) == Size(before) + amount && U16(after, AT_TYPE) == U16(before, AT_TYPE)
    && U32(after, AT_SECTORS) == (U32(before, AT_SECTORS) + Needed(g, Size(before), amount) * g.blockSize / 512) % TWO32
    && forall k :: 0 <= k < 128 && !GrowthByte(k, start, n) ==> after[k] == before[k]
  }

  lemma GrownBytes(g: Geometry, inode: Inode, amount: nat, start: nat, ids: seq<nat>)
    requires g.Valid() && Size(inode) + amount < TWO32 && start + |ids| <= NUM_POINTERS && Words(ids)
    ensures GrownRecord(g, inode, PutFrom(Grown(g, inode, amount), start, ids), amount, start, |ids|)
  {
    hide U32, PutU32, PutFrom, BlockCount;
    var sized := PutU32(inode, AT_SIZE, Size(inode) + amount);
    var base := Grown(g, inode, amount);
    var after := PutFrom(base, start, ids);
    CountIsQuotient(g, Size(inode), amount);
    SameWord(after, base, AT_SIZE);
    SameWord(base, sized, AT_SIZE);
    SameWord(after, base, AT_SECTORS);
    assert U16(after, AT_TYPE) == U16(inode, AT_TYPE) by { assert after[0] == inode[0] && after[1] == inode[1]; }
  }

  lemma CountIsQuotient(g: Geometry, size: nat, amount: nat)
    requires g.Valid()
    ensures BlockCount(g, size + amount) - BlockCount(g, size) == Needed(g, size, amount)
  {
  }

  /** Where no block is needed, growing changes the size alone. */
  lemma GrowthWithin(g: Geometry, before: Inode, after: Inode, amount: nat, start: nat)
    requires g.Valid() && GrownRecord(g, before, after, amount, start, 0) && Needed(g, Size(before), amount) == 0
    ensures OnlySizeDiffers(before, after)
  {
    hide U32, Size;
    WordBytes(after, before, AT_SECTORS);
  }

  /** The volume after ext2_extendFile. */
  ghost function Extend(g: Geometry, img: Image, idx: nat, amount: nat): Image
    requires g.Valid() && ValidImage(g, img) && g.HasInode(idx)
    requires Size(InodeAt(g, img, idx)) + amount < TWO32
    requires BlocksAdded(g, InodeAt(g, img, idx), amount) > 0 ==> OneGroup(g)
  {
    var inode := InodeAt(g, img, idx);
    var n, start := BlocksAdded(g, inode, amount), BlockCount(g, Size(inode)) + 1;
    if start > 12 then img
    else if n == 0 then WithInode(g, img, idx, Grown(g, inode, amount))
    else
      var (granted, ids) := Grant(g, img, n);
      WithInode(g, granted, idx, PutFrom(Grown(g, inode, amount), start, ids))
  }

  method ExtendFile(fs: Volume, idx: nat, amount: nat) returns (r: nat)
    requires fs.Valid() && fs.g.HasInode(idx)
    requires Size(InodeAt(fs.g, fs.Image(), idx)) + amount < TWO32
    requires BlocksAdded(fs.g, InodeAt(fs.g, fs.Image(), idx), amount) > 0 ==> OneGroup(fs.g)
    modifies fs.buf, fs.disk
    ensures fs.Valid() && fs.Image() == Extend(fs.g, old(fs.Image()), idx, amount)
    ensures var before, after := InodeAt(fs.g, old(fs.Image()), idx), InodeAt(fs.g, fs.Image(), idx);
            if BlockCount(fs.g, Size(before)) >= 12 then after == before
            else GrownRecord(fs.g, before, after, amount,
                             BlockCount(fs.g, Size(before)) + 1, BlocksAdded(fs.g, before, amount))
  {
    hide InodeAt, WithInode, FreeBlock, Allocate, PutFrom, U32, Geometry.WholeInodes, Geometry.HasInode, GrownRecord;
    var g := fs.g;
    ghost var img := fs.Image();
    var inode := fs.ReadInode(idx);
    ghost var was := inode;
    var count := Size(inode) / g.blockSize + 1;
    var newCount := (Size(inode) + amount) / g.blockSize + 1;
    var needed := newCount - count;
    inode := Grown(g, inode, amount);
    if count >= 12 { return 1; }
    var start, i := count + 1, 0;
    ghost var ids: seq<nat> := [];
    ghost var n := BlocksAdded(g, was, amount);
    while i < needed && start + i < 12
      invariant fs.Valid() && 0 <= i <= n
      invariant i > 0 ==> n > 0 && OneGroup(g) && (fs.Image(), ids) == Grant(g, img, i)
      invariant i == 0 ==> fs.Image() == img && ids == []
      invariant |ids| == i && Words(ids)
      invariant inode == PutFrom(Grown(g, was, amount), start, ids)
      decreases n - i
    {
      if i == 0 { assert (fs.Image(), ids) == Grant(g, img, 0); }
      var id := AllocBlock(fs);
      PutFromNext(Grown(g, was, amount), start, ids, id);
      ids := ids + [id];
      inode := PutPointer(inode, start + i, id);
      i := i + 1;
    }
    GrownBytes(g, was, amount, start, ids);
    WrittenInode(g, fs.Image(), idx, inode);
    fs.WriteInode(inode, idx);
    return 0;
  }

  /** Growing a file writes to no block but the block bitmap, the inode's table block, and the new ones. */
  lemma ExtendElsewhere(g: Geometry, img: Image, idx: nat, amount: nat)
    requires OneGroup(g) && ValidImage(g, img) && g.HasInode(idx)
    requires Size(InodeAt(g, img, idx)) + amount < TWO32
    ensures var ids := Grant(g, img, BlocksAdded(g, InodeAt(g, img, idx), amount)).1;
            var end := Extend(g, img, idx, amount);
            && |end| == |img|
            && forall b :: 0 <= b < |img| && b !in ids && b !in {g.blockMaps[0], g.InodeBlock(idx)} ==> end[b] == img[b]
  {
    hide InodeAt, Grant, Grown, PutFrom, Size;
    GrantElsewhere(g, img, BlocksAdded(g, InodeAt(g, img, idx), amount));
  }

  lemma WrittenInode(g: Geometry, img: Image, idx: nat, inode: Inode)
    requires g.Valid() && ValidImage(g, img) && g.HasInode(idx)
    ensures ValidImage(g, WithInode(g, img, idx, inode)) && InodeAt(g, WithInode(g, img, idx, inode), idx) == inode
  {
    InodeFits(g, idx);
  }

  lemma PutFromNext(inode: Inode, start: nat, ids: seq<nat>, id: nat)
    requires start + |ids| < NUM_POINTERS && Words(ids) && id < TWO32
    ensures Words(ids + [id])
    ensures PutFrom(inode, start, ids + [id]) == PutPointer(PutFrom(inode, start, ids), start + |ids|, id)
  {
    assert (ids + [id])[..|ids|] == ids;
  }

  /** The new pointers start one too far: the first new file block keeps its old pointer. */
  lemma FirstNewBlockSkipped(g: Geometry, inode: Inode, amount: nat, ids: seq<nat>)
    requires g.Valid() && Size(inode) + amount < TWO32 && BlockCount(g, Size(inode)) < 12
    requires |ids| == BlocksAdded(g, inode, amount) && Words(ids)
    ensures var grown := PutFrom(Grown(g, inode, amount), BlockCount(g, Size(inode)) + 1, ids);
            && Size(grown) == Size(inode) + amount
            && (forall k :: 0 <= k <= BlockCount(g, Size(inode)) ==> Pointer(grown, k) == Pointer(inode, k))
  {
    hide U32, PutU32;
    var start := BlockCount(g, Size(inode)) + 1;
    var base := Grown(g, inode, amount);
    var grown := PutFrom(base, start, ids);
    SameWord(grown, base, AT_SIZE);
    SameWord(base, PutU32(inode, AT_SIZE, Size(inode) + amount), AT_SIZE);
    forall k | 0 <= k < start ensures Pointer(grown, k) == Pointer(inode, k) {
      SameWord(grown, inode, AT_POINTERS + 4 * k);
    }
  }

  /** Pointers 0..n-1 lead somewhere other than block 0. */
  ghost predicate Covers(inode: Inode, n: nat) {
    n <= 12 && forall k :: 0 <= k < n ==> Pointer(inode, k) != 0
  }

  /** A file that covered its size, with no block behind, covers its new size after growing exactly
      when the growth needed no block. */
  lemma GrowthCovered(g: Geometry, inode: Inode, amount: nat, ids: seq<nat>)
    requires g.Valid() && Size(inode) + amount < TWO32
    requires BlockCount(g, Size(inode)) < 12
    requires Covers(inode, BlockCount(g, Size(inode)))
    requires Pointer(inode, BlockCount(g, Size(inode))) == 0
    requires |ids| == BlocksAdded(g, inode, amount) && Words(ids)
    ensures var grown := PutFrom(Grown(g, inode, amount), BlockCount(g, Size(inode)) + 1, ids);
            Covers(grown, BlockCount(g, Size(grown))) <==> BlocksNeeded(g, inode, amount) == 0
  {
    hide U32, PutU32, PutFrom, Grown, BlockCount, Pointer, Size;
    FirstNewBlockSkipped(g, inode, amount, ids);
    MoreBlocks(g, Size(inode), amount);
    var n := BlockCount(g, Size(inode));
    var grown := PutFrom(Grown(g, inode, amount), n + 1, ids);
    assert Pointer(grown, n) == 0;
    if BlockCount(g, Size(grown)) > n { assert !Covers(grown, BlockCount(g, Size(grown))); }
  }

  lemma MoreBlocks(g: Geometry, size: nat, amount: nat)
    requires g.Valid()
    ensures BlockCount(g, size) <= BlockCount(g, size + amount)
  {
    QuotientMonotone(size, size + amount, g.blockSize);
  }
}
