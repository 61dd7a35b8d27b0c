/** Block and inode allocation of src/drivers/ext2.c on a volume with one block group. */
module Ext2Alloc {
  import opened Arithmetic
  import opened Bytes
  import opened Ext2Volume

  // ---- Bits of a byte

  /** n & (1 << j) is not zero. */
  predicate Bit(n: nat, j: nat) {
    if j == 0 then n % 2 == 1 else Bit(n / 2, j - 1)
  }

  /** n | (1 << j) */
  function OrBit(n: nat, j: nat): nat {
    if j == 0 then 2 * (n / 2) + 1 else 2 * OrBit(n / 2, j - 1) + n % 2
  }

  lemma {:induction false} OrBitSets(n: nat, j: nat, i: nat)
    ensures Bit(OrBit(n, j), i) <==> i == j || Bit(n, i)
  {
    if j > 0 && i > 0 { OrBitSets(n / 2, j - 1, i - 1); }
  }

  lemma OrBitStaysByte(n: nat, j: nat)
    requires n < 256 && j < 8
    ensures OrBit(n, j) < 256
  {
    OrBitWidth(n, j, 8);
    assert Width(4) == 16;
  }

  function Width(w: nat): nat { if w == 0 then 1 else 2 * Width(w - 1) }

  lemma {:induction false} OrBitWidth(n: nat, j: nat, w: nat)
    requires n < Width(w) && j < w
    ensures OrBit(n, j) < Width(w)
  {
    var half := Width(w - 1);
    assert n / 2 < half;
    if j > 0 { OrBitWidth(n / 2, j - 1, w - 1); }
  }

  /** Bit `j` is the parity of the quotient by two to the `j`. */
  lemma {:induction false} BitIsQuotient(n: nat, j: nat)
    ensures Width(j) > 0 && (Bit(n, j) <==> n / Width(j) % 2 == 1)
  {
    if j > 0 {
      BitIsQuotient(n / 2, j - 1);
      HalfFirst(n, Width(j - 1));
    }
  }

  lemma HalfFirst(n: nat, w: nat)
    requires w > 0
    ensures n / 2 / w == n / (2 * w)
  {
    var a := n / 2;
    var q := a / w;
    assert n == (2 * w) * q + (2 * (a % w) + n % 2);
    QuotientIs(n, 2 * w, q, 2 * (a % w) + n % 2);
  }

  // ---- Bitmaps

  /** Bit `i` of a bitmap block. */
  predicate Marked(bits: seq<byte>, i: nat)
    requires i / 8 < |bits|
  {
    Bit(bits[i / 8], i % 8)
  }

  function Mark(bits: seq<byte>, i: nat): (r: seq<byte>)
    requires i / 8 < |bits|
    ensures |r| == |bits|
  {
    OrBitStaysByte(bits[i / 8], i % 8);
    bits[i / 8 := OrBit(bits[i / 8], i % 8)]
  }

  lemma MarkSets(bits: seq<byte>, i: nat, j: nat)
    requires i / 8 < |bits| && j / 8 < |bits|
    ensures Marked(Mark(bits, i), j) <==> j == i || Marked(bits, j)
  {
    OrBitSets(bits[i / 8], i % 8, j % 8);
  }

  /** The first clear bit from `i` on, below `end`. */
  function FirstFree(bits: seq<byte>, i: nat, end: nat): (r: nat)
    requires i <= end <= 8 * |bits|
    ensures i <= r <= end
    ensures r < end ==> !Marked(bits, r)
    ensures forall k :: i <= k < r ==> Marked(bits, k)
    decreases end - i
  {
    if i == end || !Marked(bits, i) then i else FirstFree(bits, i + 1, end)
  }

  // ---- Blocks

  /** A volume with one block group, first data block 0, whose bitmaps are on the volume. */
  ghost predicate OneGroup(g: Geometry) {
    && g.Valid()
    && g.blockCount <= g.blocksPerGroup && g.blockCount <= 8 * g.blockSize
    && g.inodeCount <= g.inodesPerGroup && g.inodeCount <= 8 * g.blockSize
    && |g.blockMaps| > 0 && g.blockMaps[0] <= g.blockCount
    && |g.inodeMaps| > 0 && g.inodeMaps[0] <= g.blockCount
    && |g.inodeTables| > 0
    && (forall idx :: 0 < idx <= g.inodeCount ==> g.HasInode(idx))
  }

  function BlockMap(g: Geometry, img: Image): seq<byte>
    requires OneGroup(g) && ValidImage(g, img)
  {
    img[g.blockMaps[0]]
  }

  /** ext2_get_freeBlockIdx: the least free block, or 0 when all are marked. */
  function FreeBlock(g: Geometry, img: Image): (id: nat)
    requires OneGroup(g) && ValidImage(g, img)
    ensures id <= g.blockCount
  {
    var id := FirstFree(BlockMap(g, img), 0, g.blockCount);
    if id < g.blockCount then id else 0
  }

  /** The volume after ext2_alloc_block. */
  function Allocate(g: Geometry, img: Image): (r: Image)
    requires OneGroup(g) && ValidImage(g, img)
    ensures ValidImage(g, r)
  {
    var id := FreeBlock(g, img);
    img[g.blockMaps[0] := Mark(BlockMap(g, img), id)][id := Zeros(g.blockSize)]
  }

  method GetFreeBlock(fs: Volume) returns (id: nat)
    requires fs.Valid() && OneGroup(fs.g)
    modifies fs.buf
    ensures fs.Valid() && id == FreeBlock(fs.g, fs.Image())
  {
    hide FirstFree, Bit, Geometry.HasInode, Geometry.WholeInodes;
    var group: int := -1;
    ghost var bits := BlockMap(fs.g, fs.Image());
    ghost var first := FirstFree(bits, 0, fs.g.blockCount);
    var i := 0;
    while i < fs.g.blockCount
      invariant fs.Valid() && i <= first && group == (if i == 0 then -1 else 0)
      invariant i > 0 ==> fs.buf[..] == Padded(bits, fs.buf.Length)
    {
      var wanted := i / fs.g.blocksPerGroup;
      Small(i, fs.g.blocksPerGroup);
      if group != wanted {
        group := wanted;
        var ok := fs.ReadBlock(fs.g.blockMaps[group]);
      }
      assert fs.buf[..][i / 8] == bits[i / 8];
      assert Marked(bits, i) <==> Bit(fs.buf[i / 8], i % 8);
      if !Bit(fs.buf[i / 8], i % 8) { return i; }
      i := i + 1;
    }
    return 0;
  }

  lemma Small(i: nat, m: nat)
    requires i < m
    ensures i / m == 0
  {
  }

  /** Read the bitmap block `id`, set one bit and write it back. */
  method SetBit(fs: Volume, id: nat, i: nat)
    requires fs.Valid() && id <= fs.g.blockCount && i / 8 < fs.g.blockSize
    modifies fs.buf, fs.disk
    ensures fs.Valid() && fs.Image() == old(fs.Image())[id := Mark(old(fs.disk[id]), i)]
  {
    hide OrBit, Geometry.WholeInodes;
    ghost var bits := fs.disk[id];
    var ok := fs.ReadBlock(id);
    OrBitStaysByte(fs.buf[i / 8], i % 8);
    assert fs.buf[i / 8] == bits[i / 8];
    fs.buf[i / 8] := OrBit(fs.buf[i / 8], i % 8);
    assert fs.buf[..fs.g.blockSize] == Mark(bits, i);
    ok := fs.WriteBlock(id);
  }

  /** ext2_alloc_block */
  method AllocBlock(fs: Volume) returns (id: nat)
    requires fs.Valid() && OneGroup(fs.g)
    modifies fs.buf, fs.disk
    ensures fs.Valid() && id == FreeBlock(fs.g, old(fs.Image())) && fs.Image() == Allocate(fs.g, old(fs.Image()))
  {
    hide FreeBlock, Mark, OneGroup, Geometry.WholeInodes;
    ghost var img := fs.Image();
    FreeBlockFits(fs.g, img);
    id := GetFreeBlock(fs);
    var group := id / fs.g.blocksPerGroup;
    SetBit(fs, fs.g.blockMaps[group], id);
    ClearBlock(fs, id);
  }

  /** The block handed out belongs to group 0 and has its bit in the bitmap. */
  lemma FreeBlockFits(g: Geometry, img: Image)
    requires OneGroup(g) && ValidImage(g, img)
    ensures FreeBlock(g, img) <= g.blockCount && FreeBlock(g, img) / 8 < g.blockSize
    ensures g.blocksPerGroup > 0 && FreeBlock(g, img) / g.blocksPerGroup == 0
    ensures |g.blockMaps| > 0 && g.blockMaps[0] <= g.blockCount
  {
    hide FirstFree, Geometry.HasInode, Geometry.WholeInodes;
    ZeroOrSmall(FreeBlock(g, img), g.blocksPerGroup);
  }

  /** Reads block `id`, clears it in the scratch buffer and writes it back. */
  method ClearBlock(fs: Volume, id: nat)
    requires fs.Valid() && id <= fs.g.blockCount
    modifies fs.buf, fs.disk
    ensures fs.Valid() && fs.Image() == old(fs.Image())[id := Zeros(fs.g.blockSize)]
  {
    hide Geometry.WholeInodes;
    var ok := fs.ReadBlock(id);
    Copy(fs.buf, 0, Zeros(fs.g.blockSize));
    assert fs.buf[..fs.g.blockSize] == Zeros(fs.g.blockSize);
    ok := fs.WriteBlock(id);
  }

  lemma ZeroOrSmall(i: nat, m: nat)
    requires m > 0 && (i == 0 || i < m)
    ensures i / m == 0
  {
  }

  // ---- One allocation

  /** The bitmap block itself is in use. */
  ghost predicate MapMarked(g: Geometry, img: Image)
    requires OneGroup(g) && ValidImage(g, img)
  {
    g.blockMaps[0] < g.blockCount && Marked(BlockMap(g, img), g.blockMaps[0])
  }

  /** The number of clear bits in [i, end). */
  function CountFree(bits: seq<byte>, i: nat, end: nat): nat
    requires i <= end <= 8 * |bits|
    decreases end - i
  {
    if i == end then 0 else (if Marked(bits, i) then 0 else 1) + CountFree(bits, i + 1, end)
  }

  function FreeCount(g: Geometry, img: Image): nat
    requires OneGroup(g) && ValidImage(g, img)
  {
    CountFree(BlockMap(g, img), 0, g.blockCount)
  }

  lemma {:induction false} FreeCountFinds(bits: seq<byte>, i: nat, end: nat)
    requires i <= end <= 8 * |bits|
    ensures CountFree(bits, i, end) > 0 <==> FirstFree(bits, i, end) < end
    decreases end - i
  {
    if i < end { FreeCountFinds(bits, i + 1, end); }
  }

  lemma {:induction false} MarkCounts(bits: seq<byte>, x: nat, i: nat, end: nat)
    requires i <= end <= 8 * |bits| && x < end && !Marked(bits, x)
    ensures CountFree(Mark(bits, x), i, end) == CountFree(bits, i, end) - (if i <= x then 1 else 0)
    decreases end - i
  {
    hide Marked, Mark;
    if i < end {
      MarkSets(bits, x, i);
      MarkCounts(bits, x, i + 1, end);
    }
  }

  /** While a free block exists, allocation takes the least one, sets exactly its bit, zeroes it
      and touches nothing else. */
  lemma AllocateTakesLeast(g: Geometry, img: Image)
    requires OneGroup(g) && ValidImage(g, img) && MapMarked(g, img) && FreeCount(g, img) > 0
    ensures var id, after := FreeBlock(g, img), Allocate(g, img);
            && id < g.blockCount && id != g.blockMaps[0] && !Marked(BlockMap(g, img), id)
            && (forall i :: 0 <= i < id ==> Marked(BlockMap(g, img), i))
            && (forall i :: 0 <= i < g.blockCount ==>
                  Marked(BlockMap(g, after), i) == (i == id || Marked(BlockMap(g, img), i)))
            && after[id] == Zeros(g.blockSize)
            && (forall i :: 0 <= i < |img| && i != id && i != g.blockMaps[0] ==> after[i] == img[i])
            && FreeCount(g, after) == FreeCount(g, img) - 1 && MapMarked(g, after)
  {
    hide Marked, Mark, Geometry.HasInode, Geometry.WholeInodes;
    var bits := BlockMap(g, img);
    FreeCountFinds(bits, 0, g.blockCount);
    var id := FreeBlock(g, img);
    MarkCounts(bits, id, 0, g.blockCount);
    assert BlockMap(g, Allocate(g, img)) == Mark(bits, id);
    forall i | 0 <= i < g.blockCount ensures Marked(Mark(bits, id), i) == (i == id || Marked(bits, i)) {
      MarkSets(bits, id, i);
    }
  }

  /** The block handed out was free exactly when the volume had a free block. A full volume
      hands out block 0 and zeroes it. */
  lemma FreshExactlyWhenNotFull(g: Geometry, img: Image)
    requires OneGroup(g) && ValidImage(g, img) && g.blockCount > 0
    ensures !Marked(BlockMap(g, img), FreeBlock(g, img)) <==> FreeCount(g, img) > 0
    ensures FreeCount(g, img) == 0 ==> FreeBlock(g, img) == 0 && Allocate(g, img)[0] == Zeros(g.blockSize)
  {
    hide Marked, Mark, Geometry.HasInode, Geometry.WholeInodes;
    FreeCountFinds(BlockMap(g, img), 0, g.blockCount);
  }

  // ---- Runs

  /** Allocations interleaved with arbitrary block writes by the holders of blocks. */
  datatype Step = Alloc | Store(id: nat, data: Block)

  ghost predicate StepAllowed(g: Geometry, s: Step)
    requires OneGroup(g)
  {
    s.Store? ==> s.id <= g.blockCount && s.id != g.blockMaps[0] && |s.data| == g.blockSize
  }

  function Allocs(steps: seq<Step>): nat {
    if steps == [] then 0 else Allocs(steps[..|steps| - 1]) + (if steps[|steps| - 1].Alloc? then 1 else 0)
  }

  /** The volume after the steps, and the blocks handed out in order. */
  ghost function Play(g: Geometry, img: Image, steps: seq<Step>): (r: (Image, seq<nat>))
    requires OneGroup(g) && ValidImage(g, img) && forall s :: s in steps ==> StepAllowed(g, s)
    ensures ValidImage(g, r.0)
  {
    if steps == [] then (img, [])
    else
      var (before, grants) := Play(g, img, steps[..|steps| - 1]);
      var last := steps[|steps| - 1];
      assert last in steps && StepAllowed(g, last);
      if last.Alloc? then (Allocate(g, before), grants + [FreeBlock(g, before)])
      else (before[last.id := last.data], grants)
  }

  /** Block `b` is not the bitmap and no holder stores to it. */
  ghost predicate Untouched(g: Geometry, steps: seq<Step>, b: nat)
    requires OneGroup(g)
  {
    b != g.blockMaps[0] && forall s :: s in steps && s.Store? ==> s.id != b
  }

  /** Over every run with enough free blocks: each block handed out was free at the start, none
      is handed out twice, and a block that was marked at the start and not stored to by its
      holder keeps its contents. */
  lemma {:induction false} RunSafe(g: Geometry, img: Image, steps: seq<Step>)
    requires OneGroup(g) && ValidImage(g, img) && MapMarked(g, img)
    requires forall s :: s in steps ==> StepAllowed(g, s)
    requires Allocs(steps) <= FreeCount(g, img)
    ensures var (end, grants) := Play(g, img, steps);
            && MapMarked(g, end) && FreeCount(g, end) == FreeCount(g, img) - Allocs(steps)
            && (forall i :: 0 <= i < |grants| ==> grants[i] < g.blockCount && !Marked(BlockMap(g, img), grants[i]))
            && (forall i, j :: 0 <= i < j < |grants| ==> grants[i] < grants[j])
            && (forall b :: 0 <= b < g.blockCount ==>
                  Marked(BlockMap(g, end), b) == (b in grants || Marked(BlockMap(g, img), b)))
            && (forall i, b :: 0 <= i < |grants| && 0 <= b <= grants[i] ==> Marked(BlockMap(g, end), b))
            && (forall b :: 0 <= b < g.blockCount && Marked(BlockMap(g, img), b) && Untouched(g, steps, b) ==>
                  end[b] == img[b])
  {
    hide Marked, FreeCount, FreeBlock, Allocate, Geometry.HasInode, Geometry.WholeInodes;
    if steps != [] {
      var init, last := steps[..|steps| - 1], steps[|steps| - 1];
      RunSafe(g, img, init);
      var (before, grants) := Play(g, img, init);
      assert last in steps;
      if last.Alloc? {
        AllocateTakesLeast(g, before);
      } else {
        StoreKeepsMap(g, before, last.id, last.data);
      }
    }
  }

  /** The blocks were free at the start and none is handed out twice. */
  ghost predicate Fresh(g: Geometry, img: Image, grants: seq<nat>)
    requires OneGroup(g) && ValidImage(g, img)
  {
    && (forall i :: 0 <= i < |grants| ==> grants[i] < g.blockCount && !Marked(BlockMap(g, img), grants[i]))
    && (forall i, j :: 0 <= i < j < |grants| ==> grants[i] != grants[j])
  }

  /** Over all runs: what was handed out is fresh exactly when the free blocks sufficed. */
  lemma RunFreshExactly(g: Geometry, img: Image, steps: seq<Step>)
    requires OneGroup(g) && ValidImage(g, img) && MapMarked(g, img)
    requires forall s :: s in steps ==> StepAllowed(g, s)
    ensures Fresh(g, img, Play(g, img, steps).1) <==> Allocs(steps) <= FreeCount(g, img)
  {
    hide Marked, Play, Allocs, FreeCount;
    if Allocs(steps) <= FreeCount(g, img) {
      RunSafe(g, img, steps);
    }
    if Fresh(g, img, Play(g, img, steps).1) {
      GrantCount(g, img, steps);
      FreshFew(g, img, Play(g, img, steps).1);
    }
  }

  lemma {:induction false} GrantCount(g: Geometry, img: Image, steps: seq<Step>)
    requires OneGroup(g) && ValidImage(g, img) && forall s :: s in steps ==> StepAllowed(g, s)
    ensures |Play(g, img, steps).1| == Allocs(steps)
  {
    hide Allocate, FreeBlock, StepAllowed, OneGroup;
    if steps != [] { GrantCount(g, img, steps[..|steps| - 1]); }
  }

  lemma FreshFew(g: Geometry, img: Image, grants: seq<nat>)
    requires OneGroup(g) && ValidImage(g, img) && Fresh(g, img, grants)
    ensures |grants| <= FreeCount(g, img)
  {
    ClearBitsBound(BlockMap(g, img), g.blockCount, grants);
  }

  /** Different clear bits are at most as many as there are. */
  lemma {:induction false} ClearBitsBound(bits: seq<byte>, end: nat, ids: seq<nat>)
    requires end <= 8 * |bits|
    requires forall i :: 0 <= i < |ids| ==> ids[i] < end && !Marked(bits, ids[i])
    requires forall i, j :: 0 <= i < j < |ids| ==> ids[i] != ids[j]
    ensures |ids| <= CountFree(bits, 0, end)
    decreases |ids|
  {
    hide Marked, Mark, CountFree;
    if ids != [] {
      MarkCounts(bits, ids[0], 0, end);
      forall i | 0 <= i < |ids[1..]| ensures ids[1..][i] < end && !Marked(Mark(bits, ids[0]), ids[1..][i]) {
        MarkSets(bits, ids[0], ids[1..][i]);
      }
      ClearBitsBound(Mark(bits, ids[0]), end, ids[1..]);
    }
  }

  lemma StoreKeepsMap(g: Geometry, img: Image, id: nat, data: Block)
    requires OneGroup(g) && ValidImage(g, img) && StepAllowed(g, Store(id, data))
    ensures ValidImage(g, img[id := data]) && BlockMap(g, img[id := data]) == BlockMap(g, img)
    ensures FreeCount(g, img[id := data]) == FreeCount(g, img)
  {
  }
}
