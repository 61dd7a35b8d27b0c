/** Files as byte sequences: what ext2_read and ext2_write mean for the file they are called on. */
module Ext2File {
  import opened Arithmetic
  import opened Bytes
  import opened Ext2Alloc
  import opened Ext2Volume
  import opened Ext2Cursor
  import opened Ext2Read
  import opened Ext2Inode
  import opened Ext2Write

  // ---- The abstract file

  ghost predicate Mapped(g: Geometry, img: Image, inode: Inode, b: nat)
    requires g.Valid() && ValidImage(g, img)
  {
    Resolvable(g, img, inode, b) && BlockId(g, img, inode, b) <= g.blockCount
  }

  /** Byte `x` of the file, through the closed form of the block map. */
  ghost function FileByte(g: Geometry, img: Image, inode: Inode, x: nat): byte
    requires g.Valid() && ValidImage(g, img) && Mapped(g, img, inode, g.BlockOf(x))
  {
    img[BlockId(g, img, inode, g.BlockOf(x))][g.OffsetOf(x)]
  }

  /** `data` is what the file holds from byte `head` on. */
  ghost predicate Holds(g: Geometry, img: Image, inode: Inode, head: nat, data: seq<byte>)
    requires g.Valid() && ValidImage(g, img)
  {
    forall j :: 0 <= j < |data| ==> HoldsAt(g, img, inode, head + j, data[j])
  }

  ghost predicate HoldsAt(g: Geometry, img: Image, inode: Inode, x: nat, v: byte)
    requires g.Valid() && ValidImage(g, img)
  {
    Mapped(g, img, inode, g.BlockOf(x)) && FileByte(g, img, inode, x) == v
  }

  /** The number of blocks a call over `n` bytes from offset `off` of a block uses. */
  function Used(g: Geometry, off: nat, n: nat): nat
    requires g.blockSize > 0
  {
    if n == 0 then 1 else g.BlockOf(off + n - 1) + 1
  }

  /** The call starts and ends where the cursor follows the block map. */
  predicate ExactCall(g: Geometry, head: nat, n: nat)
    requires g.blockSize > 0 && g.Pointers() > 254
  {
    && StartInTables(g.Pointers(), g.BlockOf(head))
    && ExactStart(g.Pointers(), g.BlockOf(head), Used(g, g.OffsetOf(head), n))
  }

  /** In an exact call load `k` is file block BlockOf(head) + k, as far as the bytes go. */
  lemma ExactLoad(g: Geometry, head: nat, n: nat, k: nat, r: nat)
    requires g.Valid() && ExactCall(g, head, n)
    requires r < g.blockSize && g.Place(k, r) < g.OffsetOf(head) + n
    ensures Position(g.Pointers(), g.BlockOf(head), k) == g.BlockOf(head) + k
  {
    hide Position, Geometry.Place, ExactStart, StartInTables, Geometry.WholeInodes, Geometry.BlockOf, Used;
    LoadIsUsed(g, g.OffsetOf(head), n, k, r);
    CursorFollowsMap(g.Pointers(), g.BlockOf(head), Used(g, g.OffsetOf(head), n));
  }

  lemma LoadIsUsed(g: Geometry, off: nat, n: nat, k: nat, r: nat)
    requires g.Valid() && off < g.blockSize && r < g.blockSize && g.Place(k, r) < off + n
    ensures k < Used(g, off, n)
  {
    hide Geometry.Place, Geometry.WholeInodes, Geometry.BlockOf, Geometry.OffsetOf;
    PlaceStep(g, 0, off);
    if n == 0 {
      if k > 0 { PlaceMonotone(g, 0, off, k, r); }
    } else {
      var x := off + n - 1;
      PlaceOfByte(g, x);
      if k > g.BlockOf(x) { PlaceMonotone(g, g.BlockOf(x), g.OffsetOf(x), k, r); }
    }
  }

  /** Byte j of the data lies in load k at offset r, and in file block BlockOf(head) + k. */
  lemma BytePlace(g: Geometry, head: nat, j: nat) returns (k: nat, r: nat)
    requires g.Valid()
    ensures r < g.blockSize && g.Place(k, r) == g.OffsetOf(head) + j
    ensures g.BlockOf(head + j) == g.BlockOf(head) + k && g.OffsetOf(head + j) == r
  {
    hide Geometry.Place, Geometry.WholeInodes, Geometry.BlockOf, Geometry.OffsetOf;
    var b, off := g.BlockOf(head), g.OffsetOf(head);
    k, r := g.BlockOf(off + j), g.OffsetOf(off + j);
    PlaceOfByte(g, off + j);
    PlaceOfByte(g, head);
    PlaceOfByte(g, head + j);
    PlaceStep(g, b, off);
    PlaceShift(g, b, k, r);
    SamePlace(g, b + k, r, g.BlockOf(head + j), g.OffsetOf(head + j));
  }

  /** What an exact read delivers is the file. */
  lemma DeliveredIsFile(g: Geometry, img: Image, inode: Inode, head: nat, data: seq<byte>)
    requires g.Valid() && ValidImage(g, img) && ExactCall(g, head, |data|)
    requires Delivered(g, img, inode, g.BlockOf(head), g.OffsetOf(head), data)
    ensures Holds(g, img, inode, head, data)
  {
    forall j | 0 <= j < |data| ensures HoldsAt(g, img, inode, head + j, data[j]) {
      DeliveredByte(g, img, inode, head, data, j);
    }
  }

  lemma DeliveredByte(g: Geometry, img: Image, inode: Inode, head: nat, data: seq<byte>, j: nat)
    requires g.Valid() && ValidImage(g, img) && ExactCall(g, head, |data|) && j < |data|
    requires Delivered(g, img, inode, g.BlockOf(head), g.OffsetOf(head), data)
    ensures HoldsAt(g, img, inode, head + j, data[j])
  {
    hide Position, Geometry.Place, Geometry.WholeInodes, Geometry.BlockOf, Geometry.OffsetOf, StartInTables,
         Resolvable, BlockId, ExactStart;
    var k, r := BytePlace(g, head, j);
    ExactLoad(g, head, |data|, k, r);
    assert Loadable(g, img, inode, g.BlockOf(head), k)
        && data[g.Place(k, r) - g.OffsetOf(head)] == img[Visit(g, img, inode, g.BlockOf(head), k)][r];
  }

  // ---- A file that owns its blocks

  ghost predicate Distinct(g: Geometry, img: Image, inode: Inode, i: nat, j: nat)
    requires g.Valid() && ValidImage(g, img)
  {
    Resolvable(g, img, inode, i) && Resolvable(g, img, inode, j) && i != j ==>
      BlockId(g, img, inode, i) != BlockId(g, img, inode, j)
  }

  ghost predicate OffTables(g: Geometry, img: Image, inode: Inode, i: nat, j: nat)
    requires g.Valid() && ValidImage(g, img)
  {
    Resolvable(g, img, inode, i) && Resolvable(g, img, inode, j) ==>
      BlockId(g, img, inode, i) !in TableIds(g, img, inode, j)
  }

  /** The first `n` blocks of the file are mapped, to pairwise distinct disk blocks that are no
      tables of its first `t` blocks; those tables can be read. */
  ghost predicate Owned(g: Geometry, img: Image, inode: Inode, n: nat, t: nat)
    requires g.Valid() && ValidImage(g, img)
  {
    && n <= t && n <= Capacity(g.Pointers())
    && (forall i: nat :: i < n ==> Mapped(g, img, inode, i))
    && (forall i: nat :: i < t && i < Capacity(g.Pointers()) ==> Resolvable(g, img, inode, i))
    && (forall i: nat, j: nat :: i < n && j < n ==> Distinct(g, img, inode, i, j))
    && (forall i: nat, j: nat :: i < n && j < t && j < Capacity(g.Pointers()) ==> OffTables(g, img, inode, i, j))
  }

  /** Block `id` is neither one of the first `n` blocks of the file nor a table of its first `t`. */
  ghost predicate Foreign(g: Geometry, img: Image, inode: Inode, n: nat, t: nat, id: nat)
    requires g.Valid() && ValidImage(g, img)
  {
    && (forall i: nat :: i < n ==> NotBlock(g, img, inode, i, id))
    && (forall i: nat :: i < t && i < Capacity(g.Pointers()) ==> NotTable(g, img, inode, i, id))
  }

  ghost predicate NotBlock(g: Geometry, img: Image, inode: Inode, i: nat, id: nat)
    requires g.Valid() && ValidImage(g, img)
  {
    Resolvable(g, img, inode, i) ==> BlockId(g, img, inode, i) != id
  }

  ghost predicate NotTable(g: Geometry, img: Image, inode: Inode, i: nat, id: nat)
    requires g.Valid() && ValidImage(g, img)
  {
    Resolvable(g, img, inode, i) ==> id !in TableIds(g, img, inode, i)
  }

  /** The call lies inside the first `n` blocks. When it ends exactly with the last of them, the
      code looks ahead, and the tables of the block behind must be readable as well. */
  ghost predicate Within(g: Geometry, head: nat, len: nat, n: nat, t: nat) {
    && head < g.Place(n, 0) && head + len <= g.Place(n, 0)
    && n <= t && (head + len == g.Place(n, 0) ==> n < t)
  }

  /** Every load of an exact call, read-ahead included, is in step with the file or is the
      harmless look at block 0 after the last single-indirect block. */
  lemma ExactPosition(g: Geometry, head: nat, len: nat, k: nat)
    requires g.Valid() && ExactCall(g, head, len) && g.Place(k, 0) <= g.OffsetOf(head) + len
    ensures var at := Position(g.Pointers(), g.BlockOf(head), k);
            at == g.BlockOf(head) + k ||
            (&& at == ZERO_BLOCK && k == 1 && g.BlockOf(head) == 11 + g.Pointers()
             && g.OffsetOf(head) + len <= g.Place(1, 0))
  {
    hide Geometry.Place, Geometry.WholeInodes, Geometry.BlockOf, DoubleStart, Used;
    var b, off := g.BlockOf(head), g.OffsetOf(head);
    CursorFollowsMap(g.Pointers(), b, 1);
    assert Position(g.Pointers(), b, 0) == b + 0 by { UsedPositive(g, off, len); }
    if b == 11 + g.Pointers() {
      if g.Place(1, 0) < off + len { PlaceStep(g, 1, 0); LoadIsUsed(g, off, len, 1, 0); }
      if k > 1 { PlaceStep(g, 1, 0); PlaceMonotone(g, 1, 0, k, 0); }
    }
  }

  lemma UsedPositive(g: Geometry, off: nat, n: nat)
    requires g.blockSize > 0
    ensures Used(g, off, n) > 0
  {
  }

  /** File blocks that the call touches are among the first `n`, those it looks up among the first `t`. */
  lemma CallInside(g: Geometry, head: nat, len: nat, n: nat, t: nat, k: nat)
    requires g.Valid() && Within(g, head, len, n, t) && g.Place(k, 0) <= g.OffsetOf(head) + len
    ensures g.BlockOf(head) + k <= n && g.BlockOf(head) + k < t
    ensures k == 0 || g.Place(k, 0) < g.OffsetOf(head) + len ==> g.BlockOf(head) + k < n
  {
    hide Geometry.Place, Geometry.WholeInodes, Geometry.BlockOf, Geometry.OffsetOf;
    var b, off := g.BlockOf(head), g.OffsetOf(head);
    PlaceOfByte(g, head);
    PlaceStep(g, b, off);
    PlaceStep(g, 0, 0);
    PlaceShift(g, b, k, 0);
    if n < b + k { PlaceMonotone(g, n, 0, b + k, 0); }
  }

  /** The file block `j` whose tables load `k` goes through. */
  lemma LoadTarget(g: Geometry, head: nat, len: nat, n: nat, t: nat, b: nat, k: nat) returns (j: nat)
    requires g.Valid() && ExactCall(g, head, len) && Within(g, head, len, n, t) && b == g.BlockOf(head)
    requires n <= Capacity(g.Pointers())
    requires k < Loads(g.Pointers(), b) && g.Place(k, 0) <= g.OffsetOf(head) + len
    ensures j < t && j < Capacity(g.Pointers())
    ensures Position(g.Pointers(), b, k) == j ||
            (Position(g.Pointers(), b, k) == ZERO_BLOCK && j == b == 11 + g.Pointers())
  {
    hide Geometry.Place, Geometry.WholeInodes, Geometry.BlockOf, Geometry.OffsetOf, DoubleStart, Used, ExactStart,
         StartInTables, Within, Loads, Position, Capacity;
    ExactPosition(g, head, len, k);
    CallInside(g, head, len, n, t, k);
    PlaceStep(g, 0, 0);
    CallInside(g, head, len, n, t, 0);
    if Position(g.Pointers(), b, k) == ZERO_BLOCK {
      j := b;
      SinglesInCapacity(g.Pointers());
    } else {
      j := b + k;
      InCapacity(g, head, len, b, k);
    }
  }

  lemma SinglesInCapacity(p: nat)
    ensures 11 + p < Capacity(p)
  {
    NonNegative(p, p);
  }

  lemma OwnedTables(g: Geometry, img: Image, inode: Inode, n: nat, b: nat, k: nat, j: nat)
    requires g.Valid() && ValidImage(g, img) && StartInTables(g.Pointers(), b) && Resolvable(g, img, inode, j)
    requires Position(g.Pointers(), b, k) == j ||
             (Position(g.Pointers(), b, k) == ZERO_BLOCK && j == b == 11 + g.Pointers())
    ensures CanVisit(g, img, inode, b, k) && TablesOf(g, img, inode, b, k) == TableIds(g, img, inode, j)
  {
    hide Position, Entry, DoubleStart, TableOf, EntryOf, Geometry.WholeInodes;
  }

  lemma InCapacity(g: Geometry, head: nat, len: nat, b: nat, k: nat)
    requires g.Valid() && ExactCall(g, head, len) && b == g.BlockOf(head) && k < Loads(g.Pointers(), b)
    requires Position(g.Pointers(), b, k) == b + k
    ensures b + k < Capacity(g.Pointers())
  {
    hide Geometry.WholeInodes, Geometry.BlockOf, Geometry.OffsetOf, Used;
  }

  lemma OwnedUsed(g: Geometry, img: Image, inode: Inode, head: nat, len: nat, n: nat, t: nat, b: nat, k: nat)
    requires g.Valid() && ValidImage(g, img) && Owned(g, img, inode, n, t)
    requires ExactCall(g, head, len) && Within(g, head, len, n, t) && b == g.BlockOf(head)
    requires len > 0 && g.Place(k, 0) < g.OffsetOf(head) + len
    ensures Loadable(g, img, inode, b, k) && b + k < n && Resolvable(g, img, inode, b + k)
    ensures Visit(g, img, inode, b, k) == BlockId(g, img, inode, b + k)
  {
    hide Geometry.Place, Geometry.WholeInodes, Geometry.BlockOf, Geometry.OffsetOf, DoubleStart, Used, Entry,
         BlockId, Resolvable;
    hide Distinct, OffTables;
    ExactPosition(g, head, len, k);
    CallInside(g, head, len, n, t, k);
    assert Mapped(g, img, inode, b + k);
  }

  /** A call inside an owned file follows no null pointer and writes into no table. */
  lemma OwnedCallWorks(g: Geometry, img: Image, inode: Inode, head: nat, len: nat, n: nat, t: nat)
    requires g.Valid() && ValidImage(g, img) && Owned(g, img, inode, n, t)
    requires ExactCall(g, head, len) && Within(g, head, len, n, t)
    ensures Followable(g, img, inode, g.BlockOf(head), g.OffsetOf(head), len)
    ensures TablesApartFromData(g, img, inode, g.BlockOf(head), g.OffsetOf(head), len)
  {
    hide Visit, CanVisit, Loadable, Position, Loads, Geometry.Place, Geometry.WholeInodes, Geometry.BlockOf,
         Geometry.OffsetOf;
    hide ExactStart, Within, Resolvable, StartInTables, Mapped, Distinct, Used;
    var b, off := g.BlockOf(head), g.OffsetOf(head);
    forall k: nat | LooksUp(g, b, off, len, k) ensures CanVisit(g, img, inode, b, k) {
      var j := LoadTarget(g, head, len, n, t, b, k);
      OwnedTables(g, img, inode, n, b, k, j);
    }
    forall k: nat | UsesLoad(g, b, off, len, k) ensures Loadable(g, img, inode, b, k) {
      OwnedUsed(g, img, inode, head, len, n, t, b, k);
    }
    assert Followable(g, img, inode, b, off, len);
    forall i: nat, k: nat | UsesLoad(g, b, off, len, i) && LooksUp(g, b, off, len, k)
      ensures Apart(g, img, inode, b, i, k)
    {
      OwnedUsed(g, img, inode, head, len, n, t, b, i);
      var j := LoadTarget(g, head, len, n, t, b, k);
      OwnedTables(g, img, inode, n, b, k, j);
      assert OffTables(g, img, inode, b + i, j);
    }
  }

  lemma OwnedTransfer(g: Geometry, head: nat, len: nat, n: nat, t: nat)
    requires g.Valid() && ExactCall(g, head, len) && Within(g, head, len, n, t) && n <= Capacity(g.Pointers())
    ensures Transfer(g, g.BlockOf(head), g.OffsetOf(head), len) == len
  {
    hide Geometry.Place, Geometry.WholeInodes, Geometry.BlockOf, Geometry.OffsetOf, Capacity, Loads, ExactStart,
         StartInTables;
    var p, b, off := g.Pointers(), g.BlockOf(head), g.OffsetOf(head);
    LoadsCover(g, head, len);
    PlaceOfByte(g, head);
    PlaceStep(g, b, off);
    PlaceShift(g, b, Loads(p, b), 0);
    if n < b + Loads(p, b) { PlaceMonotone(g, n, 0, b + Loads(p, b), 0); }
  }

  // ---- What a write leaves

  ghost predicate VisitsDiffer(g: Geometry, img: Image, inode: Inode, b: nat, i: nat, k: nat)
    requires g.Valid() && ValidImage(g, img) && StartInTables(g.Pointers(), b)
  {
    CanVisit(g, img, inode, b, i) && CanVisit(g, img, inode, b, k) ==>
      Visit(g, img, inode, b, i) != Visit(g, img, inode, b, k)
  }

  /** Each block written holds its old bytes overlaid with the data. */
  lemma {:induction false} StageBlock(g: Geometry, img: Image, inode: Inode, b: nat, off: nat, data: seq<byte>,
                                      m: nat, k: nat)
    requires g.Valid() && ValidImage(g, img) && StartInTables(g.Pointers(), b)
    requires Writable(g, img, inode, b, m) && k < m
    requires forall i: nat :: i < m && i != k ==> VisitsDiffer(g, img, inode, b, i, k)
    ensures Loadable(g, img, inode, b, k)
    ensures var id := Visit(g, img, inode, b, k);
            Stage(g, img, inode, b, off, data, m)[id] == Fill(g, img[id], k, off, data, |data|)
  {
    hide Visit, CanVisit, Fill, StartInTables, Geometry.WholeInodes;
    assert Loadable(g, img, inode, b, k);
    var id := Visit(g, img, inode, b, k);
    if k == m - 1 {
      forall i: nat | i < m - 1 ensures NotVisited(g, img, inode, b, i, id) {
        assert VisitsDiffer(g, img, inode, b, i, k);
      }
      StageKeeps(g, img, inode, b, off, data, m - 1, id);
    } else {
      assert Loadable(g, img, inode, b, m - 1) && VisitsDiffer(g, img, inode, b, m - 1, k);
      StageBlock(g, img, inode, b, off, data, m - 1, k);
    }
  }

  /** The file as the caller sees it after a write. */
  ghost predicate Overlaid(g: Geometry, img: Image, inode: Inode, img': Image, inode': Inode, n: nat, head: nat,
                           data: seq<byte>)
    requires g.Valid() && ValidImage(g, img) && ValidImage(g, img')
  {
    forall x: nat :: g.BlockOf(x) < n ==> ByteOverlaid(g, img, inode, img', inode', head, data, x)
  }

  ghost predicate ByteOverlaid(g: Geometry, img: Image, inode: Inode, img': Image, inode': Inode, head: nat,
                               data: seq<byte>, x: nat)
    requires g.Valid() && ValidImage(g, img) && ValidImage(g, img')
  {
    && Mapped(g, img, inode, g.BlockOf(x)) && Mapped(g, img', inode', g.BlockOf(x))
    && FileByte(g, img', inode', x) == if head <= x < head + |data| then data[x - head] else FileByte(g, img, inode, x)
  }

  /** The lookups of an owned file are the same in the written image. */
  lemma WrittenLookup(g: Geometry, img: Image, inode: Inode, head: nat, data: seq<byte>, m: nat, n: nat, t: nat, j: nat)
    requires g.Valid() && ValidImage(g, img) && Owned(g, img, inode, n, t)
    requires ExactCall(g, head, |data|) && Within(g, head, |data|, n, t) &&
             UsedLoads(g, g.BlockOf(head), g.OffsetOf(head), |data|, m)
    requires Writable(g, img, inode, g.BlockOf(head), m)
    requires j < t && j < Capacity(g.Pointers())
    ensures var end := Stage(g, img, inode, g.BlockOf(head), g.OffsetOf(head), data, m);
            && Resolvable(g, img, inode, j) && Resolvable(g, end, inode, j)
            && BlockId(g, end, inode, j) == BlockId(g, img, inode, j)
            && TableIds(g, end, inode, j) == TableIds(g, img, inode, j)
  {
    hide Visit, CanVisit, Stage, Loads, Position, Geometry.Place, Geometry.WholeInodes, Geometry.BlockOf,
         Geometry.OffsetOf;
    hide ExactStart, Within, Resolvable, BlockId, TableIds, Mapped, Distinct, Used, Fill, Capacity;
    var b, off := g.BlockOf(head), g.OffsetOf(head);
    var end := Stage(g, img, inode, b, off, data, m);
    assert Resolvable(g, img, inode, j);
    forall id | id in TableIds(g, img, inode, j) && id < |img| ensures end[id] == img[id] {
      forall k: nat | k < m ensures NotVisited(g, img, inode, b, k, id) {
        assert UsesLoad(g, b, off, |data|, k);
        OwnedUsed(g, img, inode, head, |data|, n, t, b, k);
        assert OffTables(g, img, inode, b + k, j);
      }
      StageKeeps(g, img, inode, b, off, data, m, id);
    }
    SameBlockId(g, img, end, inode, inode, j);
  }

  /** A block that is none of the file's keeps its contents. */
  lemma WrittenElsewhere(g: Geometry, img: Image, inode: Inode, head: nat, data: seq<byte>, m: nat, n: nat, t: nat,
                         id: nat)
    requires g.Valid() && ValidImage(g, img) && Owned(g, img, inode, n, t) && id < |img|
    requires ExactCall(g, head, |data|) && Within(g, head, |data|, n, t) &&
             UsedLoads(g, g.BlockOf(head), g.OffsetOf(head), |data|, m)
    requires Writable(g, img, inode, g.BlockOf(head), m)
    requires forall i: nat :: i < n ==> NotBlock(g, img, inode, i, id)
    ensures Stage(g, img, inode, g.BlockOf(head), g.OffsetOf(head), data, m)[id] == img[id]
  {
    hide Visit, CanVisit, Stage, Loads, Position, Geometry.Place, Geometry.WholeInodes, Geometry.BlockOf,
         Geometry.OffsetOf;
    hide ExactStart, Within, Resolvable, BlockId, TableIds, Mapped, Distinct, Used, Fill, Capacity;
    var b, off := g.BlockOf(head), g.OffsetOf(head);
    forall k: nat | k < m ensures NotVisited(g, img, inode, b, k, id) {
      assert UsesLoad(g, b, off, |data|, k);
      OwnedUsed(g, img, inode, head, |data|, n, t, b, k);
      assert NotBlock(g, img, inode, b + k, id);
    }
    StageKeeps(g, img, inode, b, off, data, m, id);
  }

  /** The new contents of file block `i`. */
  lemma WrittenBlock(g: Geometry, img: Image, inode: Inode, head: nat, data: seq<byte>, m: nat, n: nat, t: nat, i: nat)
    requires g.Valid() && ValidImage(g, img) && Owned(g, img, inode, n, t) && i < n
    requires ExactCall(g, head, |data|) && Within(g, head, |data|, n, t) &&
             UsedLoads(g, g.BlockOf(head), g.OffsetOf(head), |data|, m)
    requires Writable(g, img, inode, g.BlockOf(head), m)
    ensures Mapped(g, img, inode, i)
    ensures var b, off := g.BlockOf(head), g.OffsetOf(head);
            var id := BlockId(g, img, inode, i);
            Stage(g, img, inode, b, off, data, m)[id] ==
            if b <= i < b + m then Fill(g, img[id], i - b, off, data, |data|) else img[id]
  {
    hide Visit, CanVisit, Stage, Loads, Position, Geometry.Place, Geometry.WholeInodes, Geometry.BlockOf,
         Geometry.OffsetOf;
    hide ExactStart, Within, Resolvable, BlockId, TableIds, Used, Fill, Capacity;
    var b, off := g.BlockOf(head), g.OffsetOf(head);
    assert Mapped(g, img, inode, i);
    var id := BlockId(g, img, inode, i);
    forall k: nat | k < m
      ensures Loadable(g, img, inode, b, k) && b + k < n && Resolvable(g, img, inode, b + k)
      ensures Visit(g, img, inode, b, k) == BlockId(g, img, inode, b + k)
      ensures b + k != i ==> NotVisited(g, img, inode, b, k, id)
    {
      assert UsesLoad(g, b, off, |data|, k);
      OwnedUsed(g, img, inode, head, |data|, n, t, b, k);
      assert Distinct(g, img, inode, b + k, i);
    }
    if b <= i < b + m {
      var at: nat := i - b;
      forall k: nat | k < m && k != at ensures VisitsDiffer(g, img, inode, b, k, at) {
        assert NotVisited(g, img, inode, b, k, id);
      }
      StageBlock(g, img, inode, b, off, data, m, at);
    } else {
      StageKeeps(g, img, inode, b, off, data, m, id);
    }
  }

  /** Byte `x` of the file after the write. */
  lemma WrittenByte(g: Geometry, img: Image, inode: Inode, head: nat, data: seq<byte>, m: nat, n: nat, t: nat, x: nat)
    requires g.Valid() && ValidImage(g, img) && Owned(g, img, inode, n, t) && g.BlockOf(x) < n
    requires ExactCall(g, head, |data|) && Within(g, head, |data|, n, t) &&
             UsedLoads(g, g.BlockOf(head), g.OffsetOf(head), |data|, m)
    requires Writable(g, img, inode, g.BlockOf(head), m)
    ensures var end := Stage(g, img, inode, g.BlockOf(head), g.OffsetOf(head), data, m);
            ByteOverlaid(g, img, inode, end, inode, head, data, x)
  {
    hide Visit, CanVisit, Stage, Position, Geometry.Place, Geometry.WholeInodes, Geometry.BlockOf, Geometry.OffsetOf;
    hide ExactStart, Within, Resolvable, BlockId, TableIds, Used, Capacity, Distinct, OffTables, Loads, StartInTables;
    var b, off, i, r := g.BlockOf(head), g.OffsetOf(head), g.BlockOf(x), g.OffsetOf(x);
    WrittenLookup(g, img, inode, head, data, m, n, t, i);
    WrittenBlock(g, img, inode, head, data, m, n, t, i);
    InCall(g, head, |data|, m, n, t, x);
  }

  /** Byte `x` is among those the call moves exactly when its block is among those written and
      its place in the block falls into the data. */
  lemma InCall(g: Geometry, head: nat, len: nat, m: nat, n: nat, t: nat, x: nat)
    requires g.Valid() && ExactCall(g, head, len) && UsedLoads(g, g.BlockOf(head), g.OffsetOf(head), len, m)
    requires Within(g, head, len, n, t) && n <= Capacity(g.Pointers()) && g.BlockOf(x) < n
    ensures var b, off, i, r := g.BlockOf(head), g.OffsetOf(head), g.BlockOf(x), g.OffsetOf(x);
            && (head <= x < head + len <==> b <= i < b + m && off <= g.Place(i - b, r) < off + len)
            && (b <= i ==> g.Place(i - b, r) - off == x - head)
  {
    hide Geometry.Place, Geometry.WholeInodes, Geometry.BlockOf, Geometry.OffsetOf, Loads, Capacity, ExactStart,
         StartInTables, Within;
    var b, off, i, r := g.BlockOf(head), g.OffsetOf(head), g.BlockOf(x), g.OffsetOf(x);
    PlaceOfByte(g, head);
    PlaceOfByte(g, x);
    PlaceStep(g, b, off);
    if b <= i {
      var k: nat := i - b;
      PlaceShift(g, b, k, r);
      PlaceStep(g, k, r);
      LoadsCover(g, head, len);
      assert g.Place(k, 0) <= g.Place(k, r);
      assert k < m <==> UsesLoad(g, b, off, len, k);
    } else {
      PlaceMonotone(g, i, r, b, off);
    }
  }

  lemma LoadsCover(g: Geometry, head: nat, len: nat)
    requires g.Valid() && ExactCall(g, head, len)
    ensures g.BlockOf(head) + Loads(g.Pointers(), g.BlockOf(head)) >= Capacity(g.Pointers())
  {
    hide Geometry.WholeInodes, Geometry.BlockOf, Geometry.OffsetOf, DoubleStart, Used, Capacity;
    var p, b := g.Pointers(), g.BlockOf(head);
    CursorFollowsMap(p, b, 1);
    UsedPositive(g, g.OffsetOf(head), len);
    assert Position(p, b, 0) == b + 0 by { assert ExactStart(p, b, 1); }
  }

  // ---- The size on disk

  /** The in-memory and on-disk inode after the growth step of a write that ends at byte `end`. */
  function Resized(g: Geometry, inode: Inode, end: nat): (r: Inode)
    requires g.Valid() && end < TWO32
    ensures Size(r) == if end >= Size(inode) && BlockCount(g, Size(inode)) < 12 then end else Size(inode)
    ensures forall i :: 0 <= i < NUM_POINTERS ==> Pointer(r, i) == Pointer(inode, i)
    ensures NoNewBlock(g, inode, end) ==> OnlySizeDiffers(inode, r)
  {
    if end >= Size(inode) && BlockCount(g, Size(inode)) < 12 then
      GrownFields(g, inode, end - Size(inode)); Grown(g, inode, end - Size(inode))
    else inode
  }

  lemma GrownFields(g: Geometry, inode: Inode, amount: nat)
    requires g.Valid() && Size(inode) + amount < TWO32
    ensures Size(Grown(g, inode, amount)) == Size(inode) + amount
    ensures forall i :: 0 <= i < NUM_POINTERS ==> Pointer(Grown(g, inode, amount), i) == Pointer(inode, i)
    ensures NoNewBlock(g, inode, Size(inode) + amount) && BlockCount(g, Size(inode)) < 12 ==>
              OnlySizeDiffers(inode, Grown(g, inode, amount))
  {
    hide U32, PutU32, OnlySizeDiffers, GrownRecord, Needed;
    GrownBytes(g, inode, amount, 0, []);
    CountIsQuotient(g, Size(inode), amount);
    if Needed(g, Size(inode), amount) == 0 { GrowthWithin(g, inode, Grown(g, inode, amount), amount, 0); }
    var r := Grown(g, inode, amount);
    SameWord(r, PutU32(inode, AT_SIZE, Size(inode) + amount), AT_SIZE);
    forall i | 0 <= i < NUM_POINTERS ensures Pointer(r, i) == Pointer(inode, i) {
      SameWord(r, inode, AT_POINTERS + 4 * i);
    }
  }

  /** The write fits into blocks the file already has. */
  ghost predicate NoNewBlock(g: Geometry, inode: Inode, end: nat)
    requires g.Valid()
  {
    end >= Size(inode) && BlockCount(g, Size(inode)) < 12 ==> BlockCount(g, end) == BlockCount(g, Size(inode))
  }

  /** The growth step of ext2_write. */
  method GrowTo(fs: Volume, file: File, end: nat)
    requires fs.Valid() && fs.g.HasInode(file.meta) && file.inode == InodeAt(fs.g, fs.Image(), file.meta)
    requires end < TWO32 && NoNewBlock(fs.g, file.inode, end)
    modifies fs.buf, fs.disk, file`inode
    ensures fs.Valid() && file.inode == Resized(fs.g, old(file.inode), end)
    ensures OnlySizeDiffers(old(file.inode), file.inode)
    ensures fs.Image() == WithInode(fs.g, old(fs.Image()), file.meta, file.inode)
  {
    hide WithInode, InodeAt, Grown, Geometry.HasInode, Geometry.WholeInodes, BlockCount;
    WithInodeItself(fs.g, fs.Image(), file.meta);
    if end >= Size(file.inode) {
      ghost var grown := Resized(fs.g, file.inode, end);
      WrittenInode(fs.g, fs.Image(), file.meta, grown);
      var r := ExtendFile(fs, file.meta, end - Size(file.inode));
      file.inode := fs.ReadInode(file.meta);
    }
  }

  lemma WithInodeItself(g: Geometry, img: Image, idx: nat)
    requires g.Valid() && ValidImage(g, img) && g.HasInode(idx)
    ensures WithInode(g, img, idx, InodeAt(g, img, idx)) == img
  {
    InodeFits(g, idx);
    var id, off := g.InodeBlock(idx), g.InodeOffset(idx);
    assert Splice(img[id], off, img[id][off..off + 128]) == img[id];
  }

  /** Rewriting the inode table leaves a file alone that does not own the table block. */
  lemma ResizeKeepsFile(g: Geometry, img: Image, img': Image, inode: Inode, inode': Inode, n: nat, t: nat, id: nat)
    requires g.Valid() && ValidImage(g, img) && ValidImage(g, img') && Owned(g, img, inode, n, t)
    requires Foreign(g, img, inode, n, t, id)
    requires forall k :: 0 <= k < |img| && k != id ==> img'[k] == img[k]
    requires forall i :: 0 <= i < NUM_POINTERS ==> Pointer(inode', i) == Pointer(inode, i)
    ensures Owned(g, img', inode', n, t) && Foreign(g, img', inode', n, t, id)
    ensures forall i: nat :: i < n ==> BlockKept(g, img, img', inode, inode', i)
  {
    hide Resolvable, BlockId, TableIds, Pointer, Capacity, Geometry.WholeInodes;
    forall i: nat | i < t && i < Capacity(g.Pointers())
      ensures SameLookups(g, img, img', inode, inode', i)
    {
      assert NotTable(g, img, inode, i, id);
      SameBlockId(g, img, img', inode, inode', i);
    }
    OwnedCarriesOver(g, img, img', inode, inode', n, t, id);
    forall i: nat | i < n ensures BlockKept(g, img, img', inode, inode', i) {
      assert Mapped(g, img, inode, i) && NotBlock(g, img, inode, i, id) && SameLookups(g, img, img', inode, inode', i);
    }
  }

  ghost predicate SameLookups(g: Geometry, img: Image, img': Image, inode: Inode, inode': Inode, i: nat)
    requires g.Valid() && ValidImage(g, img) && ValidImage(g, img')
  {
    && Resolvable(g, img, inode, i) && Resolvable(g, img', inode', i)
    && BlockId(g, img', inode', i) == BlockId(g, img, inode, i)
    && TableIds(g, img', inode', i) == TableIds(g, img, inode, i)
  }

  ghost predicate BlockKept(g: Geometry, img: Image, img': Image, inode: Inode, inode': Inode, i: nat)
    requires g.Valid() && ValidImage(g, img) && ValidImage(g, img')
  {
    && Mapped(g, img, inode, i) && Mapped(g, img', inode', i)
    && BlockId(g, img', inode', i) == BlockId(g, img, inode, i)
    && img'[BlockId(g, img, inode, i)] == img[BlockId(g, img, inode, i)]
  }

  /** Ownership depends on the lookups only. */
  lemma OwnedCarriesOver(g: Geometry, img: Image, img': Image, inode: Inode, inode': Inode, n: nat, t: nat, id: nat)
    requires g.Valid() && ValidImage(g, img) && ValidImage(g, img') && Owned(g, img, inode, n, t)
    requires Foreign(g, img, inode, n, t, id)
    requires forall i: nat :: i < t && i < Capacity(g.Pointers()) ==> SameLookups(g, img, img', inode, inode', i)
    ensures Owned(g, img', inode', n, t) && Foreign(g, img', inode', n, t, id)
  {
    hide Resolvable, BlockId, TableIds, Pointer, Capacity, Geometry.WholeInodes;
    var p := g.Pointers();
    forall i: nat | i < t && i < Capacity(p)
      ensures Resolvable(g, img', inode', i) && NotTable(g, img', inode', i, id)
      ensures i < n ==> Mapped(g, img', inode', i) && NotBlock(g, img', inode', i, id)
    {
      assert SameLookups(g, img, img', inode, inode', i) && NotTable(g, img, inode, i, id);
      if i < n { assert Mapped(g, img, inode, i) && NotBlock(g, img, inode, i, id); }
    }
    forall i: nat, j: nat | i < n && j < t && j < Capacity(p)
      ensures OffTables(g, img', inode', i, j) && (j < n ==> Distinct(g, img', inode', i, j))
    {
      assert SameLookups(g, img, img', inode, inode', i) && SameLookups(g, img, img', inode, inode', j);
      assert OffTables(g, img, inode, i, j);
      if j < n { assert Distinct(g, img, inode, i, j); }
    }
  }

  // ---- Main results

  /** Blocks outside the file and the inode table keep their contents. */
  ghost predicate OthersUntouched(g: Geometry, img: Image, inode: Inode, img': Image, n: nat, id: nat)
    requires g.Valid() && ValidImage(g, img) && ValidImage(g, img')
  {
    forall k :: 0 <= k < |img| && k != id && NotInFile(g, img, inode, n, k) ==> img'[k] == img[k]
  }

  /** In the table block of inode `idx` nothing but its record differs. */
  ghost predicate OnlySlotDiffers(g: Geometry, img: Image, img': Image, idx: nat)
    requires g.Valid() && ValidImage(g, img) && ValidImage(g, img') && g.HasInode(idx)
  {
    var id, off := g.InodeBlock(idx), g.InodeOffset(idx);
    forall k :: 0 <= k < g.blockSize && !(off <= k < off + 128) ==> img'[id][k] == img[id][k]
  }

  /** All other inodes of that block are as before. */
  lemma NeighboursKept(g: Geometry, img: Image, img': Image, idx: nat, other: nat)
    requires g.Valid() && TablesApart(g) && ValidImage(g, img) && ValidImage(g, img')
    requires g.HasInode(idx) && g.HasInode(other) && other != idx && g.InodeBlock(other) == g.InodeBlock(idx)
    requires OnlySlotDiffers(g, img, img', idx)
    ensures InodeAt(g, img', other) == InodeAt(g, img, other)
  {
    SlotsApart(g, idx, other);
    InodeFits(g, other);
  }

  ghost predicate NotInFile(g: Geometry, img: Image, inode: Inode, n: nat, id: nat)
    requires g.Valid() && ValidImage(g, img)
  {
    forall i: nat :: i < n ==> NotBlock(g, img, inode, i, id)
  }

  /** The data loop on a file that owns its first `n` blocks. */
  lemma StageIsFile(g: Geometry, img: Image, inode: Inode, head: nat, data: seq<byte>, m: nat, n: nat, t: nat, id: nat)
    requires g.Valid() && ValidImage(g, img) && Owned(g, img, inode, n, t) && Foreign(g, img, inode, n, t, id)
    requires ExactCall(g, head, |data|) && Within(g, head, |data|, n, t) &&
             UsedLoads(g, g.BlockOf(head), g.OffsetOf(head), |data|, m)
    requires Writable(g, img, inode, g.BlockOf(head), m) && id < |img|
    ensures var end := Stage(g, img, inode, g.BlockOf(head), g.OffsetOf(head), data, m);
            && Owned(g, end, inode, n, t) && Foreign(g, end, inode, n, t, id)
            && Overlaid(g, img, inode, end, inode, n, head, data)
            && end[id] == img[id] && OthersUntouched(g, img, inode, end, n, id)
  {
    hide Stage, Loads, Geometry.Place, Geometry.WholeInodes, Geometry.BlockOf, Geometry.OffsetOf, Loadable, Mapped;
    hide ExactStart, Within, Resolvable, BlockId, TableIds, Used, Capacity, Distinct, OffTables, StartInTables,
         ByteOverlaid;
    var end := Stage(g, img, inode, g.BlockOf(head), g.OffsetOf(head), data, m);
    forall i: nat | i < t && i < Capacity(g.Pointers()) ensures SameLookups(g, img, end, inode, inode, i) {
      WrittenLookup(g, img, inode, head, data, m, n, t, i);
    }
    OwnedCarriesOver(g, img, end, inode, inode, n, t, id);
    forall x: nat | g.BlockOf(x) < n ensures ByteOverlaid(g, img, inode, end, inode, head, data, x) {
      WrittenByte(g, img, inode, head, data, m, n, t, x);
    }
    WrittenElsewhere(g, img, inode, head, data, m, n, t, id);
    forall k | 0 <= k < |img| && k != id && NotInFile(g, img, inode, n, k) ensures end[k] == img[k] {
      WrittenElsewhere(g, img, inode, head, data, m, n, t, k);
    }
  }

  /** The growth step and the data loop together. */
  lemma Compose(g: Geometry, img: Image, mid: Image, end: Image, inode: Inode, inode': Inode, n: nat, head: nat,
                data: seq<byte>, id: nat)
    requires g.Valid() && ValidImage(g, img) && ValidImage(g, mid) && ValidImage(g, end)
    requires forall i: nat :: i < n ==> BlockKept(g, img, mid, inode, inode', i)
    requires forall k :: 0 <= k < |img| && k != id ==> mid[k] == img[k]
    requires Overlaid(g, mid, inode', end, inode', n, head, data) && OthersUntouched(g, mid, inode', end, n, id)
    ensures Overlaid(g, img, inode, end, inode', n, head, data) && OthersUntouched(g, img, inode, end, n, id)
  {
    hide Geometry.WholeInodes, Geometry.BlockOf, Geometry.OffsetOf, Resolvable, BlockId;
    forall x: nat | g.BlockOf(x) < n ensures ByteOverlaid(g, img, inode, end, inode', head, data, x) {
      assert ByteOverlaid(g, mid, inode', end, inode', head, data, x);
      assert BlockKept(g, img, mid, inode, inode', g.BlockOf(x));
    }
    forall k | 0 <= k < |img| && k != id && NotInFile(g, img, inode, n, k) ensures end[k] == img[k] {
      forall i: nat | i < n ensures NotBlock(g, mid, inode', i, k) {
        assert BlockKept(g, img, mid, inode, inode', i) && NotBlock(g, img, inode, i, k);
      }
      assert NotInFile(g, mid, inode', n, k);
    }
  }

  /** A file that can be written: its inode agrees with the disk and its first `n` blocks are
      its own with the tables of the first `t`, apart from the table block that holds the inode. */
  ghost predicate Ready(fs: Volume, file: File, n: nat, t: nat)
    reads file, fs.disk, fs.buf
  {
    && fs.Valid() && fs.g.HasInode(file.meta) && file.inode == InodeAt(fs.g, fs.Image(), file.meta)
    && Owned(fs.g, fs.Image(), file.inode, n, t)
    && Foreign(fs.g, fs.Image(), file.inode, n, t, fs.g.InodeBlock(file.meta))
  }

  /** ext2_write: exactly the bytes head..head+|data|-1 of the file change, to the data; the size
      becomes the end of the write if that is larger and the file has fewer than 12 blocks; no
      block outside the file changes but the one that holds the inode; the head advances. */
  method Write(fs: Volume, file: File, data: seq<byte>, ghost n: nat, ghost t: nat) returns (count: nat)
    requires Ready(fs, file, n, t)
    requires ExactCall(fs.g, file.head, |data|) && Within(fs.g, file.head, |data|, n, t)
    requires file.head + |data| < TWO32 && NoNewBlock(fs.g, file.inode, file.head + |data|)
    modifies fs.buf, fs.disk, file
    ensures Ready(fs, file, n, t) && count == |data| && file.head == old(file.head) + |data|
    ensures file.inode == Resized(fs.g, old(file.inode), file.head) && OnlySizeDiffers(old(file.inode), file.inode)
    ensures OnlySlotDiffers(fs.g, old(fs.Image()), fs.Image(), file.meta)
    ensures Overlaid(fs.g, old(fs.Image()), old(file.inode), fs.Image(), file.inode, n, old(file.head), data)
    ensures OthersUntouched(fs.g, old(fs.Image()), old(file.inode), fs.Image(), n, fs.g.InodeBlock(file.meta))
  {
    hide Overlaid, OthersUntouched, Owned, Foreign, InodeAt, WithInode, Resized, ExactCall, Within, NoNewBlock,
         BlockKept;
    hide Geometry.WholeInodes;
    ghost var g, img, inode, id := fs.g, fs.Image(), file.inode, fs.g.InodeBlock(file.meta);
    ghost var head := file.head;
    ResizedPointers(g, img, file.meta, inode, head + |data|);
    GrowTo(fs, file, file.head + |data|);
    ghost var mid := fs.Image();
    ResizeKeepsFile(g, img, mid, inode, file.inode, n, t, id);
    count := WriteData(fs, file, data, n, t);
    Compose(g, img, mid, fs.Image(), inode, file.inode, n, head, data, id);
  }

  /** The part of ext2_write after the growth step. */
  method WriteData(fs: Volume, file: File, data: seq<byte>, ghost n: nat, ghost t: nat) returns (count: nat)
    requires Ready(fs, file, n, t) && ExactCall(fs.g, file.head, |data|) && Within(fs.g, file.head, |data|, n, t)
    modifies fs.buf, fs.disk, file`head
    ensures Ready(fs, file, n, t) && count == |data| && file.head == old(file.head) + |data|
    ensures Overlaid(fs.g, old(fs.Image()), file.inode, fs.Image(), file.inode, n, old(file.head), data)
    ensures OthersUntouched(fs.g, old(fs.Image()), file.inode, fs.Image(), n, fs.g.InodeBlock(file.meta))
    ensures fs.Image()[fs.g.InodeBlock(file.meta)] == old(fs.Image())[fs.g.InodeBlock(file.meta)]
  {
    hide Overlaid, OthersUntouched, Foreign, InodeAt, Stage, UsedLoads, Within, ExactStart, Followable, Transfer,
         TablesApartFromData, Writable;
    hide Owned, Geometry.WholeInodes, Geometry.BlockOf, Geometry.OffsetOf, Geometry.Group, Geometry.Rank, StartInTables;
    var g, head := fs.g, file.head;
    ghost var img, inode, id, m := fs.Image(), file.inode, g.InodeBlock(file.meta), 0;
    OwnedCallWorks(g, img, inode, head, |data|, n, t);
    OwnedFits(g, img, inode, n, t);
    OwnedTransfer(g, head, |data|, n, t);
    count, m := WriteFrom(fs, file, g.BlockOf(head), g.OffsetOf(head), data);
    StageIsFile(g, img, inode, head, data, m, n, t, id);
    SameTableBlock(g, img, fs.Image(), file.meta);
  }

  lemma ResizedPointers(g: Geometry, img: Image, idx: nat, inode: Inode, end: nat)
    requires g.Valid() && ValidImage(g, img) && g.HasInode(idx) && end < TWO32
    ensures var inode' := Resized(g, inode, end);
            && ValidImage(g, WithInode(g, img, idx, inode'))
            && InodeAt(g, WithInode(g, img, idx, inode'), idx) == inode'
            && OnlySlotDiffers(g, img, WithInode(g, img, idx, inode'), idx)
            && (forall i :: 0 <= i < NUM_POINTERS ==> Pointer(inode', i) == Pointer(inode, i))
            && (forall k :: 0 <= k < |img| && k != g.InodeBlock(idx) ==> WithInode(g, img, idx, inode')[k] == img[k])
  {
    hide Resized, Pointer;
    InodeFits(g, idx);
  }

  lemma OwnedFits(g: Geometry, img: Image, inode: Inode, n: nat, t: nat)
    requires g.Valid() && ValidImage(g, img) && Owned(g, img, inode, n, t)
    ensures n <= Capacity(g.Pointers())
  {
  }

  /** ext2_read on owned blocks returns all of the bytes asked for, and they are the file's. */
  method ReadOwned(fs: Volume, file: File, dst: array<byte>, len: nat, ghost n: nat, ghost t: nat) returns (count: nat)
    requires fs.Valid() && Owned(fs.g, fs.Image(), file.inode, n, t) && dst != fs.buf && len <= dst.Length
    requires ExactCall(fs.g, file.head, len) && Within(fs.g, file.head, len, n, t)
    modifies fs.buf, dst, file`head
    ensures fs.Valid() && count == len && file.head == old(file.head) + len
    ensures Holds(fs.g, fs.Image(), file.inode, old(file.head), dst[..len])
    ensures dst[len..] == old(dst[len..])
  {
    hide Owned, Holds, Followable, Transfer, TablesApartFromData, Delivered, Within, ExactStart, StartInTables;
    hide Geometry.WholeInodes, Geometry.BlockOf, Geometry.OffsetOf;
    ghost var g, img, head := fs.g, fs.Image(), file.head;
    OwnedCallWorks(g, img, file.inode, head, len, n, t);
    OwnedFits(g, img, file.inode, n, t);
    OwnedTransfer(g, head, len, n, t);
    count := Read(fs, file, dst, len);
    assert count == len;
    DeliveredIsFile(g, img, file.inode, head, dst[..len]);
  }

  /** Write, seek back, read: the data comes back. */
  method WriteSeekRead(fs: Volume, file: File, data: seq<byte>, dst: array<byte>, ghost n: nat, ghost t: nat)
    returns (count: nat)
    requires Ready(fs, file, n, t) && dst != fs.buf && |data| <= dst.Length
    requires ExactCall(fs.g, file.head, |data|) && Within(fs.g, file.head, |data|, n, t)
    requires file.head + |data| < TWO32 && NoNewBlock(fs.g, file.inode, file.head + |data|)
    modifies fs.buf, fs.disk, file, dst
    ensures count == |data| && dst[..count] == data && file.head == old(file.head) + |data| && Ready(fs, file, n, t)
    ensures file.inode == Resized(fs.g, old(file.inode), file.head) && OnlySizeDiffers(old(file.inode), file.inode)
    ensures OnlySlotDiffers(fs.g, old(fs.Image()), fs.Image(), file.meta)
    ensures OthersUntouched(fs.g, old(fs.Image()), old(file.inode), fs.Image(), n, fs.g.InodeBlock(file.meta))
  {
    hide Overlaid, Owned, Foreign, Holds, ExactCall, Within, NoNewBlock, Resized, OthersUntouched, Geometry.WholeInodes;
    var head := file.head;
    ghost var g, img, inode := fs.g, fs.Image(), file.inode;
    count := Write(fs, file, data, n, t);
    var r := file.Seek(head, SEEK_SET);
    count := ReadOwned(fs, file, dst, |data|, n, t);
    assert file.head == head + |data|;
    HoldsOverlay(g, img, inode, fs.Image(), file.inode, n, t, head, data, dst[..count]);
  }

  lemma HoldsOverlay(g: Geometry, img: Image, inode: Inode, img': Image, inode': Inode, n: nat, t: nat, head: nat,
                     data: seq<byte>, got: seq<byte>)
    requires g.Valid() && ValidImage(g, img) && ValidImage(g, img') && |got| == |data|
    requires Overlaid(g, img, inode, img', inode', n, head, data) && Holds(g, img', inode', head, got)
    requires Within(g, head, |data|, n, t)
    ensures got == data
  {
    hide Geometry.Place, Geometry.WholeInodes, Geometry.BlockOf, Geometry.OffsetOf, Mapped;
    forall j | 0 <= j < |data| ensures got[j] == data[j] {
      assert HoldsAt(g, img', inode', head + j, got[j]);
      InsideBlocks(g, head, |data|, n, t, j);
      assert ByteOverlaid(g, img, inode, img', inode', head, data, head + j);
    }
  }

  lemma InsideBlocks(g: Geometry, head: nat, len: nat, n: nat, t: nat, j: nat)
    requires g.Valid() && Within(g, head, len, n, t) && j < len
    ensures g.BlockOf(head + j) < n
  {
    hide Geometry.Place, Geometry.WholeInodes, Geometry.BlockOf, Geometry.OffsetOf;
    var x := head + j;
    PlaceOfByte(g, x);
    PlaceStep(g, g.BlockOf(x), g.OffsetOf(x));
    PlaceStep(g, n, 0);
    if n < g.BlockOf(x) { PlaceMonotone(g, n, 0, g.BlockOf(x), 0); }
  }

  // ---- From creation on

  /** A new regular file owns its blocks, and its inode's table block is none of them. */
  lemma CreatedIsOwned(g: Geometry, img: Image, size: nat)
    requires OneGroup(g) && ValidImage(g, img) && Sound(g, img) && size < TWO32
    requires FreeInode(g, img) != 0 && BlocksFor(g, REGULAR_FILE, size) <= FreeCount(g, img)
    ensures var idx, n := FreeInode(g, img), BlocksFor(g, REGULAR_FILE, size);
            var end := Create(g, img, idx, REGULAR_FILE, size);
            && ValidImage(g, end)
            && Size(InodeAt(g, end, idx)) == size && U16(InodeAt(g, end, idx), AT_TYPE) == REGULAR_FILE
            && Owned(g, end, InodeAt(g, end, idx), n, n)
            && Foreign(g, end, InodeAt(g, end, idx), n, n, g.InodeBlock(idx))
  {
    hide Create, InodeAt, CreatedBlocks, Sound, Owned, Foreign, FreeCount, FreeInode, BlocksFor, Pointer, Size,
         OneGroup;
    var idx := FreeInode(g, img);
    CreatedPointers(g, img, size);
    var end := Create(g, img, idx, REGULAR_FILE, size);
    DirectOwned(g, end, InodeAt(g, end, idx), CreatedBlocks(g, img, idx, REGULAR_FILE, size), g.InodeBlock(idx));
  }

  lemma CreatedPointers(g: Geometry, img: Image, size: nat)
    requires OneGroup(g) && ValidImage(g, img) && Sound(g, img) && size < TWO32
    requires FreeInode(g, img) != 0 && BlocksFor(g, REGULAR_FILE, size) <= FreeCount(g, img)
    ensures g.Valid() && 0 < FreeInode(g, img) <= g.inodeCount && REGULAR_FILE < TWO16
    ensures var idx := FreeInode(g, img);
            var end, ids := Create(g, img, idx, REGULAR_FILE, size), CreatedBlocks(g, img, idx, REGULAR_FILE, size);
            && g.HasInode(idx) && ValidImage(g, end)
            && Size(InodeAt(g, end, idx)) == size && U16(InodeAt(g, end, idx), AT_TYPE) == REGULAR_FILE
            && |ids| == BlocksFor(g, REGULAR_FILE, size) <= DIRECT && g.InodeBlock(idx) !in ids
            && (forall k :: 0 <= k < |ids| ==> Pointer(InodeAt(g, end, idx), k) == ids[k] <= g.blockCount)
            && (forall i, j :: 0 <= i < j < |ids| ==> ids[i] != ids[j])
  {
    hide Create, InodeAt, CreatedInode, CreatedBlocks, Marked, Pointer, Size, OthersKept, NothingElse;
    hide Geometry.HasInode, Geometry.WholeInodes, Geometry.InodeBlock, FreeInode, Mark, BlocksFor;
    var idx := FreeInode(g, img);
    CreateIsSafe(g, img, REGULAR_FILE, size);
    CreatedFields(g, img, idx, REGULAR_FILE, size);
    assert TableBlock(g, img, idx);
  }

  /** An inode whose first pointers lead to distinct blocks owns them. */
  lemma DirectOwned(g: Geometry, img: Image, inode: Inode, ids: seq<nat>, other: nat)
    requires g.Valid() && ValidImage(g, img) && |ids| <= DIRECT && other !in ids
    requires forall k :: 0 <= k < |ids| ==> Pointer(inode, k) == ids[k] <= g.blockCount
    requires forall i, j :: 0 <= i < j < |ids| ==> ids[i] != ids[j]
    ensures Owned(g, img, inode, |ids|, |ids|) && Foreign(g, img, inode, |ids|, |ids|, other)
  {
    hide Pointer, Entry, Geometry.WholeInodes;
    forall i: nat | i < |ids|
      ensures i < Capacity(g.Pointers()) && Resolvable(g, img, inode, i) && BlockId(g, img, inode, i) == ids[i]
      ensures TableIds(g, img, inode, i) == {}
    {
      SinglesInCapacity(g.Pointers());
    }
  }

  /** Block `b` is in use and neither a bitmap nor the table block of inode `idx`. */
  ghost predicate OtherData(g: Geometry, img: Image, idx: nat, b: nat)
    requires OneGroup(g) && ValidImage(g, img) && 0 < idx <= g.inodeCount
  {
    b < g.blockCount && Marked(BlockMap(g, img), b) && b !in {g.blockMaps[0], g.inodeMaps[0], g.InodeBlock(idx)}
  }

  /** Creating a file and writing into it leaves the data of all others alone. */
  lemma OtherDataKept(g: Geometry, img: Image, end: Image, size: nat, b: nat)
    requires OneGroup(g) && ValidImage(g, img) && Sound(g, img) && size < TWO32 && ValidImage(g, end)
    requires FreeInode(g, img) != 0 && BlocksFor(g, REGULAR_FILE, size) <= FreeCount(g, img)
    requires OtherData(g, img, FreeInode(g, img), b)
    requires var idx, n := FreeInode(g, img), BlocksFor(g, REGULAR_FILE, size);
             var mid := Create(g, img, idx, REGULAR_FILE, size);
             ValidImage(g, mid) && OthersUntouched(g, mid, InodeAt(g, mid, idx), end, n, g.InodeBlock(idx))
    ensures end[b] == img[b]
  {
    hide Create, InodeAt, CreatedInode, CreatedBlocks, Marked, Pointer, OthersKept, Sound;
    hide Geometry.HasInode, Geometry.WholeInodes, Geometry.InodeBlock, FreeInode, Mark, BlocksFor, FreeCount;
    var idx, n := FreeInode(g, img), BlocksFor(g, REGULAR_FILE, size);
    CreateIsSafe(g, img, REGULAR_FILE, size);
    CreatedPointers(g, img, size);
    var mid := Create(g, img, idx, REGULAR_FILE, size);
    forall i: nat | i < n ensures NotBlock(g, mid, InodeAt(g, mid, idx), i, b) {}
    assert NotInFile(g, mid, InodeAt(g, mid, idx), n, b);
  }

  /** A new regular file is ready to be written. */
  method CreateFile(fs: Volume, size: nat) returns (file: File)
    requires fs.Valid() && OneGroup(fs.g) && Sound(fs.g, fs.Image()) && size < TWO32
    requires FreeInode(fs.g, fs.Image()) != 0 && BlocksFor(fs.g, REGULAR_FILE, size) <= FreeCount(fs.g, fs.Image())
    modifies fs.buf, fs.disk
    ensures fresh(file) && file.head == 0 && Size(file.inode) == size && U16(file.inode, AT_TYPE) == REGULAR_FILE
    ensures file.meta == FreeInode(fs.g, old(fs.Image()))
    ensures fs.Valid() && fs.Image() == Create(fs.g, old(fs.Image()), file.meta, REGULAR_FILE, size)
    ensures Ready(fs, file, BlocksFor(fs.g, REGULAR_FILE, size), BlocksFor(fs.g, REGULAR_FILE, size))
  {
    hide Sound, Create, InodeAt, Owned, Foreign, FreeInode, FreeCount, BlocksFor, Size;
    CreatedIsOwned(fs.g, fs.Image(), size);
    var idx := AllocInode(fs, REGULAR_FILE, size);
    var inode := fs.ReadInode(idx);
    file := new File(inode, idx);
  }

  /** Create a regular file, write from its start, seek back, read: the data comes back, and the data
      of all other files is as before. */
  method CreateWriteRead(fs: Volume, size: nat, data: seq<byte>, dst: array<byte>) returns (file: File, count: nat)
    requires fs.Valid() && OneGroup(fs.g) && Sound(fs.g, fs.Image()) && size < TWO32
    requires FreeInode(fs.g, fs.Image()) != 0 && BlocksFor(fs.g, REGULAR_FILE, size) <= FreeCount(fs.g, fs.Image())
    requires |data| <= size && |data| < fs.g.Place(BlocksFor(fs.g, REGULAR_FILE, size), 0)
    requires dst != fs.buf && |data| <= dst.Length
    modifies fs.buf, fs.disk, dst
    ensures fs.Valid() && fresh(file) && file.meta == FreeInode(fs.g, old(fs.Image()))
    ensures Size(file.inode) == size && U16(file.inode, AT_TYPE) == REGULAR_FILE
    ensures count == |data| && dst[..count] == data
    ensures forall b :: 0 <= b < fs.g.blockCount && OtherData(fs.g, old(fs.Image()), file.meta, b) ==>
              fs.Image()[b] == old(fs.Image())[b]
  {
    hide Sound, Create, InodeAt, Owned, Foreign, OthersUntouched, OtherData, FreeInode, FreeCount, BlocksFor, Size;
    hide Geometry.Place, ExactCall, Within, NoNewBlock, Geometry.WholeInodes, Resized, OneGroup, Geometry.HasInode;
    ghost var g, img, n := fs.g, fs.Image(), BlocksFor(fs.g, REGULAR_FILE, size);
    file := CreateFile(fs, size);
    FromStart(g, file.inode, size, |data|, n);
    count := WriteSeekRead(fs, file, data, dst, n, n);
    forall b | 0 <= b < g.blockCount && OtherData(g, img, file.meta, b) ensures fs.Image()[b] == img[b] {
      OtherDataKept(g, img, fs.Image(), size, b);
    }
  }

  lemma FromStart(g: Geometry, inode: Inode, size: nat, len: nat, n: nat)
    requires g.Valid() && Size(inode) == size && len <= size && len < g.Place(n, 0)
    ensures ExactCall(g, 0, len) && Within(g, 0, len, n, n) && NoNewBlock(g, inode, len)
    ensures len < TWO32 && Size(Resized(g, inode, len)) == size
  {
  }
}
