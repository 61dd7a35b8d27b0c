/** ext2_write of src/drivers/ext2.c, for writes that need no new block. */
module Ext2Write {
  import opened Bytes
  import opened Ext2Volume
  import opened Ext2Cursor
  import opened Ext2Read

  // ---- The blocks a write goes through

  /** The contents of the block loaded as number `k` once the first `upto` bytes of the data
      have been copied. */
  ghost function Fill(g: Geometry, block: Block, k: nat, off: nat, data: seq<byte>, upto: nat): (r: Block)
    requires upto <= |data|
    ensures |r| == |block|
  {
    seq(|block|, r requires 0 <= r < |block| =>
      if off <= g.Place(k, r) < off + upto then data[g.Place(k, r) - off] else block[r])
  }

  /** The first `m` blocks of the call can be written. */
  ghost predicate Writable(g: Geometry, img: Image, inode: Inode, b: nat, m: nat)
    requires g.Valid() && ValidImage(g, img) && StartInTables(g.Pointers(), b)
  {
    forall k: nat :: k < m ==> Loadable(g, img, inode, b, k)
  }

  /** The volume after the first `m` blocks of the call have been written. */
  ghost function Stage(g: Geometry, img: Image, inode: Inode, b: nat, off: nat, data: seq<byte>, m: nat): (r: Image)
    requires g.Valid() && ValidImage(g, img) && StartInTables(g.Pointers(), b)
    requires Writable(g, img, inode, b, m)
    ensures ValidImage(g, r)
  {
    if m == 0 then img
    else
      assert Loadable(g, img, inode, b, m - 1);
      var before := Stage(g, img, inode, b, off, data, m - 1);
      var id := Visit(g, img, inode, b, m - 1);
      before[id := Fill(g, before[id], m - 1, off, data, |data|)]
  }

  /** The table blocks that the lookup of load `k` goes through. */
  ghost function TablesOf(g: Geometry, img: Image, inode: Inode, b: nat, k: nat): set<nat>
    requires g.Valid() && ValidImage(g, img) && StartInTables(g.Pointers(), b) && CanVisit(g, img, inode, b, k)
  {
    var at := Position(g.Pointers(), b, k);
    if at == ZERO_BLOCK then {Pointer(inode, 12)} else TableIds(g, img, inode, at)
  }

  /** No block the call writes is a table that one of its lookups goes through. */
  ghost predicate TablesApartFromData(g: Geometry, img: Image, inode: Inode, b: nat, off: nat, n: nat)
    requires g.Valid() && ValidImage(g, img) && Followable(g, img, inode, b, off, n)
  {
    forall i: nat, k: nat :: UsesLoad(g, b, off, n, i) && LooksUp(g, b, off, n, k) ==> Apart(g, img, inode, b, i, k)
  }

  ghost predicate Apart(g: Geometry, img: Image, inode: Inode, b: nat, i: nat, k: nat)
    requires g.Valid() && ValidImage(g, img) && StartInTables(g.Pointers(), b)
  {
    CanVisit(g, img, inode, b, i) && CanVisit(g, img, inode, b, k) ==>
      Visit(g, img, inode, b, i) !in TablesOf(g, img, inode, b, k)
  }

  /** Lookups do not notice changes outside their tables. */
  lemma SameLookup(g: Geometry, img: Image, img': Image, inode: Inode, b: nat, k: nat)
    requires g.Valid() && ValidImage(g, img) && ValidImage(g, img') && StartInTables(g.Pointers(), b)
    requires CanVisit(g, img, inode, b, k)
    requires forall id :: id in TablesOf(g, img, inode, b, k) && id < |img| ==> img'[id] == img[id]
    ensures CanVisit(g, img', inode, b, k) && Visit(g, img', inode, b, k) == Visit(g, img, inode, b, k)
  {
    hide Entry, DoubleStart, TableOf, EntryOf, Capacity, Geometry.WholeInodes, Resolvable, BlockId, TableIds;
    var at := Position(g.Pointers(), b, k);
    if at != ZERO_BLOCK { SameBlockId(g, img, img', inode, inode, at); }
  }

  /** Blocks that the first `m` loads do not reach are as before. */
  lemma {:induction false} StageKeeps(g: Geometry, img: Image, inode: Inode, b: nat, off: nat, data: seq<byte>,
                                      m: nat, id: nat)
    requires g.Valid() && ValidImage(g, img) && StartInTables(g.Pointers(), b)
    requires Writable(g, img, inode, b, m) && id < |img|
    requires forall k: nat :: k < m ==> NotVisited(g, img, inode, b, k, id)
    ensures Stage(g, img, inode, b, off, data, m)[id] == img[id]
  {
    hide Visit, CanVisit, Fill, StartInTables, Geometry.WholeInodes;
    if m > 0 {
      StageKeeps(g, img, inode, b, off, data, m - 1, id);
      assert Loadable(g, img, inode, b, m - 1) && NotVisited(g, img, inode, b, m - 1, id);
    }
  }

  ghost predicate NotVisited(g: Geometry, img: Image, inode: Inode, b: nat, k: nat, id: nat)
    requires g.Valid() && ValidImage(g, img) && StartInTables(g.Pointers(), b)
  {
    CanVisit(g, img, inode, b, k) ==> Visit(g, img, inode, b, k) != id
  }

  // ---- One block being filled

  lemma FillNone(g: Geometry, block: Block, k: nat, off: nat, data: seq<byte>, upto: nat)
    requires upto <= |data| && (upto == 0 || off + upto <= g.Place(k, 0))
    ensures Fill(g, block, k, off, data, upto) == block
  {
    hide Geometry.Place;
    forall r | 0 <= r < |block| ensures Fill(g, block, k, off, data, upto)[r] == block[r] { PlaceStep(g, k, r); }
  }

  lemma FillMore(g: Geometry, block: Block, k: nat, off: nat, data: seq<byte>, upto: nat, r: nat)
    requires upto < |data| && r < |block| == g.blockSize && g.Place(k, r) == off + upto
    ensures Fill(g, block, k, off, data, upto)[r := data[upto]] == Fill(g, block, k, off, data, upto + 1)
  {
    hide Geometry.Place;
    forall i | 0 <= i < |block| && i != r
      ensures Fill(g, block, k, off, data, upto)[i] == Fill(g, block, k, off, data, upto + 1)[i]
    {
      if g.Place(k, i) == off + upto { SamePlace(g, k, r, k, i); }
    }
  }

  lemma FillAll(g: Geometry, block: Block, k: nat, off: nat, data: seq<byte>, upto: nat)
    requires upto <= |data| && |block| == g.blockSize && g.Place(k, g.blockSize) <= off + upto
    ensures Fill(g, block, k, off, data, upto) == Fill(g, block, k, off, data, |data|)
  {
    hide Geometry.Place;
    forall i | 0 <= i < |block|
      ensures Fill(g, block, k, off, data, upto)[i] == Fill(g, block, k, off, data, |data|)[i]
    {
      PlaceStep(g, k, i);
      PlaceStep(g, k, g.blockSize);
    }
  }

  // ---- The method

  /** Loads 0..m-1 are used by the call. */
  ghost predicate AllUsed(g: Geometry, b: nat, off: nat, n: nat, m: nat)
    requires g.Valid() && StartInTables(g.Pointers(), b)
  {
    forall i: nat :: i < m ==> UsesLoad(g, b, off, n, i)
  }

  /** After the blocks of loads 0..m-1 were written, load `k` is looked up as before. */
  lemma StageLookup(g: Geometry, img: Image, inode: Inode, b: nat, off: nat, data: seq<byte>, m: nat, k: nat)
    requires g.Valid() && ValidImage(g, img) && Followable(g, img, inode, b, off, |data|)
    requires TablesApartFromData(g, img, inode, b, off, |data|)
    requires Writable(g, img, inode, b, m) && AllUsed(g, b, off, |data|, m) && LooksUp(g, b, off, |data|, k)
    ensures CanVisit(g, img, inode, b, k)
    ensures var now := Stage(g, img, inode, b, off, data, m);
            CanVisit(g, now, inode, b, k) && Visit(g, now, inode, b, k) == Visit(g, img, inode, b, k)
  {
    hide Visit, CanVisit, Stage, Geometry.WholeInodes, StartInTables, UsesLoad, LooksUp, TablesOf, Apart, Loadable;
    var now := Stage(g, img, inode, b, off, data, m);
    forall id | id in TablesOf(g, img, inode, b, k) && id < |img| ensures now[id] == img[id] {
      forall i: nat | i < m ensures NotVisited(g, img, inode, b, i, id) {
        assert UsesLoad(g, b, off, |data|, i);
        ApartNotVisited(g, img, inode, b, i, k, id);
      }
      StageKeeps(g, img, inode, b, off, data, m, id);
    }
    SameLookup(g, img, now, inode, b, k);
  }

  lemma ApartNotVisited(g: Geometry, img: Image, inode: Inode, b: nat, i: nat, k: nat, id: nat)
    requires g.Valid() && ValidImage(g, img) && StartInTables(g.Pointers(), b) && Apart(g, img, inode, b, i, k)
    requires CanVisit(g, img, inode, b, k) && id in TablesOf(g, img, inode, b, k)
    ensures NotVisited(g, img, inode, b, i, id)
  {
    hide Visit, CanVisit, StartInTables, TablesOf;
  }

  /** Loads 0..m-1 are those that the call uses. */
  ghost predicate UsedLoads(g: Geometry, b: nat, off: nat, len: nat, m: nat)
    requires g.Valid() && StartInTables(g.Pointers(), b)
  {
    forall k: nat :: k < m <==> UsesLoad(g, b, off, len, k)
  }

  /** The blocks of loads 0..m-1 are on disk, and nothing else has changed. */
  ghost predicate Staged(fs: Volume, img: Image, inode: Inode, b: nat, off: nat, data: seq<byte>, m: nat)
    requires fs.g.Valid() && ValidImage(fs.g, img) && StartInTables(fs.g.Pointers(), b)
    reads fs.buf, fs.disk
  {
    && fs.Valid() && Writable(fs.g, img, inode, b, m) && AllUsed(fs.g, b, off, |data|, m)
    && fs.Image() == Stage(fs.g, img, inode, b, off, data, m)
  }

  /** The scratch buffer holds block `id`, load number `k`, with the first `idx` bytes copied. */
  ghost predicate Filling(fs: Volume, id: nat, k: nat, off: nat, data: seq<byte>, idx: nat)
    reads fs.buf, fs.disk
  {
    && fs.Valid() && idx <= |data| && id <= fs.g.blockCount
    && fs.buf[..] == Padded(Fill(fs.g, fs.disk[id], k, off, data, idx), fs.buf.Length)
  }

  /** The copying loop of ext2_write. The blocks written are those of loads 0..m-1. */
  method WriteFrom(fs: Volume, file: File, b: nat, off: nat, data: seq<byte>) returns (count: nat, ghost m: nat)
    requires fs.Valid() && off < fs.g.blockSize
    requires Followable(fs.g, fs.Image(), file.inode, b, off, |data|)
    requires TablesApartFromData(fs.g, fs.Image(), file.inode, b, off, |data|)
    modifies fs.buf, fs.disk, file`head
    ensures fs.Valid() && file.head == old(file.head) + count && count == Transfer(fs.g, b, off, |data|) <= |data|
    ensures UsedLoads(fs.g, b, off, |data|, m)
    ensures Writable(fs.g, old(fs.Image()), file.inode, b, m)
    ensures fs.Image() == Stage(fs.g, old(fs.Image()), file.inode, b, off, data, m)
  {
    hide Visit, CanVisit, After, Position, Loads, StartInTables, Loadable, Geometry.Place, Stage, Filling;
    hide TablesApartFromData, Followable, UsesLoad, LooksUp, AllUsed, Writable, Geometry.WholeInodes;
    var g, inode := fs.g, file.inode;
    var bs, n := g.blockSize, |data|;
    ghost var p, img := g.Pointers(), fs.Image();
    PlaceStep(g, 0, off);
    FirstFollows(g, img, inode, b, off, n);
    NothingStaged(fs, inode, b, off, data);
    var c, id, ok := FirstLoad(fs, inode, b, off, data);
    var idx: nat, blockHead: nat := 0, off;
    ghost var k := 0;
    m := 0;
    while blockHead < bs && idx < n
      invariant Staged(fs, img, inode, b, off, data, m)
      invariant idx <= n && blockHead <= bs && k < Loads(p, b) && off + idx == g.Place(k, blockHead)
      invariant m == k && blockHead < bs
      invariant After(p, c, b, k) && CanVisit(g, img, inode, b, k) && id == Visit(g, img, inode, b, k)
      invariant ok == (id <= g.blockCount) && (ok ==> Filling(fs, id, k, off, data, idx))
      invariant file.head == old(file.head) + idx
      decreases n - idx
    {
      PlaceStep(g, k, blockHead);
      UsedFollows(g, img, inode, b, off, n, k, blockHead);
      PutByte(fs, file, id, k, off, data, idx, blockHead);
      idx := idx + 1;
      blockHead := blockHead + 1;
      if blockHead == bs {
        ok := StoreLoad(fs, img, inode, b, off, data, id, k, idx);
        m := k + 1;
        LastLoad(p, c, b, k);
        if c.block > 13 { break; }
        c, id, ok := NextLoad(fs, img, inode, b, off, data, c, k, idx);
        k := k + 1;
        blockHead := 0;
      }
    }
    count := idx;
    EndOfLoop(g, b, off, n, k, blockHead, idx);
    if blockHead == bs {
      ok := StoreBuffer(fs, id, fs.disk[id]);
    } else if n > 0 && blockHead > 0 {
      PlaceStep(g, k, blockHead);
      UsedFollows(g, img, inode, b, off, n, k, 0);
      ok := StoreLoad(fs, img, inode, b, off, data, id, k, idx);
      m := k + 1;
    } else {
      ok := StoreUnused(fs, id, k, off, data, idx);
    }
  }

  lemma NothingStaged(fs: Volume, inode: Inode, b: nat, off: nat, data: seq<byte>)
    requires fs.Valid() && StartInTables(fs.g.Pointers(), b)
    ensures Staged(fs, fs.Image(), inode, b, off, data, 0)
  {
    hide Loadable, UsesLoad, StartInTables, Geometry.WholeInodes;
  }

  /** The first block of the call in the scratch buffer. */
  method FirstLoad(fs: Volume, inode: Inode, b: nat, ghost off: nat, ghost data: seq<byte>)
    returns (c: Cursor, id: nat, ok: bool)
    requires fs.Valid() && StartInTables(fs.g.Pointers(), b) && CanVisit(fs.g, fs.Image(), inode, b, 0)
    modifies fs.buf
    ensures fs.Valid() && After(fs.g.Pointers(), c, b, 0)
    ensures id == Visit(fs.g, fs.Image(), inode, b, 0) && ok == (id <= fs.g.blockCount)
    ensures ok ==> Filling(fs, id, 0, off, data, 0)
  {
    hide Visit, CanVisit, After, StartInTables, Padded, Fill, Geometry.WholeInodes;
    c, id, ok := FirstBlock(fs, inode, b);
    if ok { FillNone(fs.g, fs.disk[id], 0, off, data, 0); }
  }

  /** One byte of the data goes to place `r` of the scratch buffer. */
  method PutByte(fs: Volume, file: File, ghost id: nat, ghost k: nat, ghost off: nat, data: seq<byte>, idx: nat, r: nat)
    requires Filling(fs, id, k, off, data, idx) && idx < |data| && r < fs.g.blockSize && off + idx == fs.g.Place(k, r)
    modifies fs.buf, file`head
    ensures fs.Valid() && Filling(fs, id, k, off, data, idx + 1) && file.head == old(file.head) + 1
  {
    hide Padded, Fill, Geometry.Place, Geometry.WholeInodes;
    FillMore(fs.g, fs.disk[id], k, off, data, idx, r);
    PaddedUpdate(Fill(fs.g, fs.disk[id], k, off, data, idx), fs.buf.Length, r, data[idx]);
    PaddedTail(Fill(fs.g, fs.disk[id], k, off, data, idx), fs.buf.Length);
    fs.buf[r] := data[idx];
    file.head := file.head + 1;
  }

  lemma PaddedTail(block: Block, size: nat)
    requires |block| <= size
    ensures forall i :: |block| <= i < size ==> Padded(block, size)[i] == 0
  {
  }

  /** The block of load `k`, with all it gets from the data, goes to disk. */
  method StoreLoad(fs: Volume, ghost img: Image, ghost inode: Inode, ghost b: nat, ghost off: nat,
                   ghost data: seq<byte>, id: nat, ghost k: nat, ghost idx: nat) returns (ok: bool)
    requires fs.g.Valid() && ValidImage(fs.g, img) && StartInTables(fs.g.Pointers(), b)
    requires Staged(fs, img, inode, b, off, data, k) && Filling(fs, id, k, off, data, idx)
    requires Loadable(fs.g, img, inode, b, k) && id == Visit(fs.g, img, inode, b, k) &&
             UsesLoad(fs.g, b, off, |data|, k)
    requires idx == |data| || fs.g.Place(k, fs.g.blockSize) <= off + idx
    modifies fs.disk
    ensures ok && Staged(fs, img, inode, b, off, data, k + 1)
    ensures fs.buf[..] == Padded(fs.disk[id], fs.buf.Length)
  {
    hide Visit, CanVisit, StartInTables, Padded, Fill, Stage, Loadable, UsesLoad, Geometry.Place, Geometry.WholeInodes;
    if idx < |data| { FillAll(fs.g, fs.disk[id], k, off, data, idx); }
    StageNext(fs.g, img, inode, b, off, data, k);
    ok := StoreBuffer(fs, id, Fill(fs.g, fs.disk[id], k, off, data, idx));
  }

  /** The next block of the call in the scratch buffer. */
  method NextLoad(fs: Volume, ghost img: Image, inode: Inode, ghost b: nat, ghost off: nat, ghost data: seq<byte>,
                  c: Cursor, ghost k: nat, ghost idx: nat) returns (c': Cursor, id: nat, ok: bool)
    requires fs.g.Valid() && ValidImage(fs.g, img) && Followable(fs.g, img, inode, b, off, |data|)
    requires TablesApartFromData(fs.g, img, inode, b, off, |data|)
    requires Staged(fs, img, inode, b, off, data, k + 1) && After(fs.g.Pointers(), c, b, k) && c.block < 14
    requires k + 1 < Loads(fs.g.Pointers(), b) && idx <= |data| && off + idx == fs.g.Place(k + 1, 0)
    modifies fs.buf
    ensures fs.Valid() && After(fs.g.Pointers(), c', b, k + 1) && CanVisit(fs.g, img, inode, b, k + 1)
    ensures id == Visit(fs.g, img, inode, b, k + 1) && ok == (id <= fs.g.blockCount)
    ensures ok ==> Filling(fs, id, k + 1, off, data, idx)
  {
    hide Visit, CanVisit, After, StartInTables, Padded, Fill, Stage, Loadable, UsesLoad, LooksUp, Followable;
    hide TablesApartFromData, Writable, Loads, Geometry.Place, Geometry.WholeInodes;
    NextFollows(fs.g, img, inode, b, off, |data|, k + 1);
    StageLookup(fs.g, img, inode, b, off, data, k + 1, k + 1);
    c', id, ok := Advance(fs, inode, c, b, k);
    if ok { FillNone(fs.g, fs.disk[id], k + 1, off, data, idx); }
  }

  /** The write behind the loop of a block that got no byte. */
  method StoreUnused(fs: Volume, id: nat, ghost k: nat, ghost off: nat, ghost data: seq<byte>, ghost idx: nat)
    returns (ok: bool)
    requires fs.Valid() && idx <= |data| && (idx == 0 || off + idx <= fs.g.Place(k, 0))
    requires id <= fs.g.blockCount ==> Filling(fs, id, k, off, data, idx)
    modifies fs.disk
    ensures fs.Valid() && fs.Image() == old(fs.Image())
  {
    hide Padded, Fill, Geometry.Place, Geometry.WholeInodes;
    if id <= fs.g.blockCount {
      FillNone(fs.g, fs.disk[id], k, off, data, idx);
      ok := StoreBuffer(fs, id, fs.disk[id]);
    } else {
      ok := fs.WriteBlock(id);
    }
  }

  /** Which loads the loop has used, and how many bytes it moved, when it stops. */
  lemma EndOfLoop(g: Geometry, b: nat, off: nat, n: nat, k: nat, blockHead: nat, idx: nat)
    requires g.Valid() && StartInTables(g.Pointers(), b) && off < g.blockSize && k < Loads(g.Pointers(), b)
    requires idx <= n && off + idx == g.Place(k, blockHead) && blockHead <= g.blockSize
    requires if blockHead == g.blockSize then k + 1 == Loads(g.Pointers(), b) && idx > 0 else idx == n
    ensures idx == Transfer(g, b, off, n)
    ensures var used := if n > 0 && blockHead > 0 then k + 1 else if n > 0 then k else 0;
            UsedLoads(g, b, off, n, used)
    ensures n == 0 || blockHead == 0 ==> idx == 0 || off + idx <= g.Place(k, 0)
    ensures n == 0 ==> k == 0
  {
    hide Loads, Geometry.Place, StartInTables, Geometry.WholeInodes;
    var last := Loads(g.Pointers(), b);
    PlaceStep(g, k, blockHead);
    PlaceStep(g, 0, off);
    if blockHead < g.blockSize { PlaceMonotone(g, k, blockHead, last, 0); }
    if n == 0 && k > 0 { PlaceMonotone(g, 0, off, k, 0); }
    forall i: nat
      ensures i < k ==> g.Place(i, 0) < g.Place(k, 0)
      ensures i > k && blockHead < g.blockSize ==> g.Place(i, 0) > g.Place(k, blockHead)
    {
      if i < k { PlaceMonotone(g, i, 0, k, 0); }
      if i > k && blockHead < g.blockSize { PlaceMonotone(g, k, blockHead, i, 0); }
    }
  }

  /** ext2_write_block of a scratch buffer whose block part is `block`. */
  method StoreBuffer(fs: Volume, id: nat, ghost block: Block) returns (ok: bool)
    requires fs.Valid() && id <= fs.g.blockCount && |block| == fs.g.blockSize
    requires fs.buf[..] == Padded(block, fs.buf.Length)
    modifies fs.disk
    ensures fs.Valid() && ok && fs.Image() == old(fs.Image())[id := block]
  {
    PaddedFront(block, fs.buf.Length);
    assert fs.buf[..fs.g.blockSize] == fs.buf[..][..fs.g.blockSize] == block;
    ok := fs.WriteBlock(id);
  }

  lemma PaddedUpdate(block: Block, size: nat, r: nat, x: byte)
    requires |block| <= size && r < |block|
    ensures Padded(block, size)[r := x] == Padded(block[r := x], size)
  {
  }

  lemma StageNext(g: Geometry, img: Image, inode: Inode, b: nat, off: nat, data: seq<byte>, k: nat)
    requires g.Valid() && ValidImage(g, img) && StartInTables(g.Pointers(), b)
    requires Writable(g, img, inode, b, k) && Loadable(g, img, inode, b, k)
    ensures Writable(g, img, inode, b, k + 1)
    ensures var before, id := Stage(g, img, inode, b, off, data, k), Visit(g, img, inode, b, k);
            Stage(g, img, inode, b, off, data, k + 1) == before[id := Fill(g, before[id], k, off, data, |data|)]
  {
  }
}
