/** From file position to disk block: the closed form of the ext2 block map, and the cursor
    that ext2_read and ext2_write step through it. */
module Ext2Cursor {
  import opened Arithmetic
  import opened Bytes
  import opened Ext2Volume

  // ---- File blocks, with `p` pointers in a block

  const DIRECT: nat := 12

  /** Blocks per file with `p` pointers in a block: direct, single- and double-indirect. */
  function Capacity(p: nat): nat { DIRECT + p + p * p }

  /** Where block `b` of the double-indirect range lies: table and entry. */
  function TableOf(p: nat, b: nat): nat
    requires p > 0 && b >= DIRECT + p
  {
    (b - DIRECT - p) / p
  }

  function EntryOf(p: nat, b: nat): nat
    requires p > 0 && b >= DIRECT + p
  {
    (b - DIRECT - p) % p
  }

  lemma DoubleRange(p: nat, b: nat)
    requires p > 0 && DIRECT + p <= b < Capacity(p)
    ensures TableOf(p, b) < p && EntryOf(p, b) < p
    ensures b == DIRECT + p + TableOf(p, b) * p + EntryOf(p, b)
  {
    var o := b - DIRECT - p;
    assert o == p * (o / p) + o % p;
    QuotientBelow(o, p, p);
  }

  // ---- The cursor

  /** block_idx, single_indirect_idx and double_indirect_idx. */
  datatype Cursor = Cursor(block: nat, single: nat, double: nat)

  /** The file block that the cursor will load next. */
  ghost function Next(p: nat, c: Cursor): nat {
    if c.block < DIRECT then c.block + 1
    else if c.block == DIRECT then DIRECT + c.single
    else DIRECT + p + c.double * p + c.single
  }

  ghost predicate Regular(p: nat, c: Cursor) {
    if c.block < DIRECT then c.single == 0 && c.double == 0
    else if c.block == DIRECT then c.single < p && c.double == 0
    else if c.block == 13 then c.single < p && c.double < p
    else c.block == 14 && c.single == 0 && c.double == p
  }

  lemma RegularNext(p: nat, c: Cursor)
    requires p > 254 && Regular(p, c)
    ensures Next(p, c) <= Capacity(p)
    ensures Next(p, c) == Capacity(p) <==> c.block == 14
    ensures c.block == 13 ==> TableOf(p, Next(p, c)) == c.double && EntryOf(p, Next(p, c)) == c.single
  {
    if c.block == 13 {
      var o := c.double * p + c.single;
      assert p * c.double == c.double * p;
      QuotientIs(o, p, c.double, c.single);
      NonNegative(p - c.double - 1, p);
      assert (p - c.double - 1) * p == p * p - c.double * p - p;
    }
  }

  /** Start of a read or write at file block `b`, as the three branches compute it. A start in
      the double-indirect range takes its table index modulo 255. */
  function DoubleStart(p: nat, b: nat): nat
    requires p > 254 && b >= DIRECT + p
  {
    var o := b - 11 - p;
    DIRECT + p + ((o / p) * p % 255) * p + (o % p - 1)
  }

  /** Starts at which every table index the source computes lies inside its table. */
  predicate StartInTables(p: nat, b: nat)
    requires p > 254
  {
    b < DIRECT + p || (b - 11 - p) % p != 0
  }

  const ZERO_BLOCK: int := -1

  /** Named by the word in front of the scratch buffer. */
  const WILD_BLOCK: int := -2

  /** The file block loaded as number `k` by a call that starts at file block `b`. A call that
      starts in the last single-indirect block has already moved its index one past the table:
      next it loads disk block 0, and from there on lags one behind. A call that starts at the
      last entry of a double-indirect table first looks one entry in front of a table. */
  function Position(p: nat, b: nat, k: nat): int
    requires p > 254
  {
    if b < DIRECT + p then
      if b == 11 + p && k > 0 then (if k == 1 then ZERO_BLOCK else b + k - 1) else b + k
    else if k == 0 && !StartInTables(p, b) then WILD_BLOCK
    else DoubleStart(p, b) + k
  }

  /** The cursor after load number `k`. */
  ghost predicate After(p: nat, c: Cursor, b: nat, k: nat)
    requires p > 254 && StartInTables(p, b)
  {
    var next := Position(p, b, k + 1);
    if next == ZERO_BLOCK then c == Cursor(12, p, 0)
    else Regular(p, c) && Next(p, c) == next
  }

  // ---- When the cursor follows the block map

  /** The guard a caller can check before the call. */
  predicate ExactStart(p: nat, b: nat, loads: nat)
    requires p > 254
  {
    if b < 11 + p then true
    else if b == 11 + p then loads <= 1
    else StartInTables(p, b) && var t := (b - 11 - p) / p; t * p % 255 == t
  }

  /** From whatever block it starts, a call that loads at least one block visits consecutive file
      blocks exactly when it starts before the last single-indirect block, or stays inside that one,
      or starts in the double-indirect range at an entry other than the last of a table whose index
      survives the reduction modulo 255. */
  lemma CursorFollowsMap(p: nat, b: nat, loads: nat)
    requires p > 254 && loads > 0
    ensures (forall k: nat :: k < loads ==> Position(p, b, k) == b + k) <==> ExactStart(p, b, loads)
  {
    if b >= DIRECT + p && !StartInTables(p, b) {
      assert Position(p, b, 0) == WILD_BLOCK;
    } else if b >= DIRECT + p {
      hide DoubleStart;
      DoubleStartIs(p, b);
      assert Position(p, b, 0) == DoubleStart(p, b);
    } else if b == 11 + p && loads > 1 {
      assert Position(p, b, 1) == ZERO_BLOCK;
    }
  }

  /** With blocks of 4096 bytes, file block 2060 is entry 1 of table 1; the call reads table 4 instead. */
  lemma TableAstray()
    ensures Position(1024, 2060, 0) == 5132 && !ExactStart(1024, 2060, 1)
  {
  }

  lemma DoubleStartIs(p: nat, b: nat)
    requires p > 254 && b >= DIRECT + p
    ensures DoubleStart(p, b) == b <==> (b - 11 - p) / p * p % 255 == (b - 11 - p) / p
  {
    var o := b - 11 - p;
    var t, d := o / p, (o / p) * p % 255;
    assert o == p * t + o % p;
    Distribute(p, d, t);
    if d != t { NoSmallMultiple(p, d - t); }
  }

  // ---- The block map

  /** Entry `i` of a table of block pointers. */
  function Entry(table: seq<byte>, i: nat): (id: nat)
    requires 4 * i + 4 <= |table|
    ensures id < TWO32
  {
    U32(table, 4 * i)
  }

  lemma EntryLayout(table: seq<byte>, i: nat)
    requires 4 * i + 4 <= |table|
    ensures Entry(table, i) == Little(table[4 * i..4 * i + 4])
  {
    WordIsLittle(table, 4 * i);
  }

  /** The table blocks on the way to block `b` are on the volume. */
  ghost predicate Resolvable(g: Geometry, img: Image, inode: Inode, b: nat)
    requires g.Valid() && ValidImage(g, img)
  {
    if b < DIRECT then true
    else if b < DIRECT + g.Pointers() then Pointer(inode, 12) <= g.blockCount
    else
      && b < Capacity(g.Pointers())
      && Pointer(inode, 13) <= g.blockCount
      && (DoubleRange(g.Pointers(), b); Entry(img[Pointer(inode, 13)], TableOf(g.Pointers(), b)) <= g.blockCount)
  }

  /** The disk block that holds block `b` of the file. */
  ghost function BlockId(g: Geometry, img: Image, inode: Inode, b: nat): (id: nat)
    requires g.Valid() && ValidImage(g, img) && Resolvable(g, img, inode, b)
    ensures id < TWO32
  {
    if b < DIRECT then Pointer(inode, b)
    else if b < DIRECT + g.Pointers() then Entry(img[Pointer(inode, 12)], b - DIRECT)
    else
      DoubleRange(g.Pointers(), b);
      Entry(img[Entry(img[Pointer(inode, 13)], TableOf(g.Pointers(), b))], EntryOf(g.Pointers(), b))
  }

  /** The table blocks that the lookup of block `b` goes through. */
  ghost function TableIds(g: Geometry, img: Image, inode: Inode, b: nat): set<nat>
    requires g.Valid() && ValidImage(g, img) && Resolvable(g, img, inode, b)
  {
    if b < DIRECT then {}
    else if b < DIRECT + g.Pointers() then {Pointer(inode, 12)}
    else
      DoubleRange(g.Pointers(), b);
      {Pointer(inode, 13), Entry(img[Pointer(inode, 13)], TableOf(g.Pointers(), b))}
  }

  /** Lookups depend on the pointers and on their tables only. */
  lemma SameBlockId(g: Geometry, img: Image, img': Image, inode: Inode, inode': Inode, b: nat)
    requires g.Valid() && ValidImage(g, img) && ValidImage(g, img') && Resolvable(g, img, inode, b)
    requires forall i :: 0 <= i < NUM_POINTERS ==> Pointer(inode', i) == Pointer(inode, i)
    requires forall id :: id in TableIds(g, img, inode, b) && id < |img| ==> img'[id] == img[id]
    ensures Resolvable(g, img', inode', b) && BlockId(g, img', inode', b) == BlockId(g, img, inode, b)
    ensures TableIds(g, img', inode', b) == TableIds(g, img, inode, b)
  {
    hide Entry, Pointer, TableOf, EntryOf, Capacity, Geometry.WholeInodes;
    if b >= DIRECT + g.Pointers() { DoubleRange(g.Pointers(), b); }
  }

  /** The tables needed for load number `k` are on the volume. */
  ghost predicate CanVisit(g: Geometry, img: Image, inode: Inode, b: nat, k: nat)
    requires g.Valid() && ValidImage(g, img) && StartInTables(g.Pointers(), b)
  {
    var at := Position(g.Pointers(), b, k);
    if at == ZERO_BLOCK then Pointer(inode, 12) <= g.blockCount else Resolvable(g, img, inode, at)
  }

  /** The disk block loaded as number `k`. */
  ghost function Visit(g: Geometry, img: Image, inode: Inode, b: nat, k: nat): (id: nat)
    requires g.Valid() && ValidImage(g, img) && StartInTables(g.Pointers(), b) && CanVisit(g, img, inode, b, k)
    ensures id < TWO32
  {
    var at := Position(g.Pointers(), b, k);
    if at == ZERO_BLOCK then 0 else BlockId(g, img, inode, at)
  }

  // ---- The code

  /** The opening branches: load file block `b`, or what the source takes for it. */
  method FirstBlock(fs: Volume, inode: Inode, b: nat) returns (c: Cursor, id: nat, ok: bool)
    requires fs.Valid() && StartInTables(fs.g.Pointers(), b) && CanVisit(fs.g, fs.Image(), inode, b, 0)
    modifies fs.buf
    ensures fs.Valid() && After(fs.g.Pointers(), c, b, 0)
    ensures id == Visit(fs.g, fs.Image(), inode, b, 0) && ok == (id <= fs.g.blockCount)
    ensures ok ==> fs.buf[..] == Padded(fs.disk[id], fs.buf.Length)
  {
    hide DoubleStart, Entry, Padded, TableOf, EntryOf;
    var p := fs.g.blockSize / 4;
    if b < DIRECT {
      c := Cursor(b, 0, 0);
      id := Pointer(inode, b);
      ok := fs.ReadBlock(id);
    } else if b < DIRECT + p {
      ok := fs.ReadBlock(Pointer(inode, 12));
      id := LoadEntry(fs, Pointer(inode, 12), b - DIRECT);
      ok := fs.ReadBlock(id);
      c := Cursor(12, b - DIRECT + 1, 0);
    } else {
      var offset := b - (11 + p);
      var single := offset % p - 1;
      var double := (offset / p) * p % 255;
      DoubleStartPlace(p, b, double, single);
      BlockIdDouble(fs.g, fs.Image(), inode, DoubleStart(p, b), double, single);
      id, ok := LoadDouble(fs, inode, double, single);
      c := Cursor(13, single + 1, double);
    }
  }

  lemma DoubleStartPlace(p: nat, b: nat, double: nat, single: nat)
    requires p > 254 && StartInTables(p, b) && b >= DIRECT + p
    requires single == (b - 11 - p) % p - 1
    requires double == ((b - 11 - p) / p) * p % 255
    ensures double < p && single + 1 < p
    ensures DIRECT + p <= DoubleStart(p, b) < Capacity(p)
    ensures TableOf(p, DoubleStart(p, b)) == double && EntryOf(p, DoubleStart(p, b)) == single
    ensures Next(p, Cursor(13, single + 1, double)) == DoubleStart(p, b) + 1
  {
    hide TableOf, EntryOf, Capacity, Next, Regular;
    var o := b - 11 - p;
    NextDoubleIs(p, double, single);
  }

  /** The block at entry `single` of table `double`. */
  lemma NextDoubleIs(p: nat, double: nat, single: nat)
    requires p > 254 && double < p && single + 1 < p
    ensures var at := DIRECT + p + double * p + single;
            && DIRECT + p <= at < Capacity(p) && TableOf(p, at) == double && EntryOf(p, at) == single
            && Next(p, Cursor(13, single + 1, double)) == at + 1
  {
    hide TableOf, EntryOf, Capacity;
    NonNegative(double, p);
    RegularNext(p, Cursor(13, single, double));
  }

  /** The double-indirect lookup of a block whose table and entry are known. */
  lemma BlockIdDouble(g: Geometry, img: Image, inode: Inode, b: nat, double: nat, single: nat)
    requires g.Valid() && ValidImage(g, img) && DIRECT + g.Pointers() <= b && Resolvable(g, img, inode, b)
    requires TableOf(g.Pointers(), b) == double < g.Pointers() && EntryOf(g.Pointers(), b) == single < g.Pointers()
    ensures Pointer(inode, 13) <= g.blockCount && Entry(img[Pointer(inode, 13)], double) <= g.blockCount
    ensures BlockId(g, img, inode, b) == Entry(img[Entry(img[Pointer(inode, 13)], double)], single)
  {
    hide Entry, TableOf, EntryOf;
  }

  /** A pointer out of the table that is in the scratch buffer. */
  method LoadEntry(fs: Volume, table: nat, i: nat) returns (id: nat)
    requires fs.Valid() && table <= fs.g.blockCount && i < fs.g.Pointers()
    requires fs.buf[..] == Padded(fs.disk[table], fs.buf.Length)
    ensures id == Entry(fs.disk[table], i)
  {
    EntryPadded(fs.disk[table], fs.buf.Length, i);
    id := Entry(fs.buf[..], i);
  }

  lemma EntryPadded(table: seq<byte>, size: nat, i: nat)
    requires |table| <= size && 4 * i + 4 <= |table|
    ensures Entry(Padded(table, size), i) == Entry(table, i)
  {
    var s, j := Padded(table, size), 4 * i;
    assert s[j] == table[j] && s[j + 1] == table[j + 1] && s[j + 2] == table[j + 2] && s[j + 3] == table[j + 3];
  }

  /** The cursor can step: its next block lies in the map and its tables are on the volume. */
  ghost predicate CanStep(g: Geometry, img: Image, inode: Inode, c: Cursor)
    requires g.Valid() && ValidImage(g, img)
  {
    var p := g.Pointers();
    if c == Cursor(12, p, 0) then Pointer(inode, 12) <= g.blockCount
    else Regular(p, c) && c.block < 14 && Resolvable(g, img, inode, Next(p, c))
  }

  /** The body of the loops when a block is used up: step the cursor and load the next block.
      One past the end of the single-indirect table the zero tail of the buffer is read. */
  method NextBlock(fs: Volume, inode: Inode, c: Cursor) returns (c': Cursor, id: nat, ok: bool)
    requires fs.Valid() && CanStep(fs.g, fs.Image(), inode, c)
    modifies fs.buf
    ensures fs.Valid() && ok == (id <= fs.g.blockCount)
    ensures ok ==> fs.buf[..] == Padded(fs.disk[id], fs.buf.Length)
    ensures var p := fs.g.Pointers();
            if c == Cursor(12, p, 0) then id == 0 && c' == Cursor(13, 0, 0)
            else && id == BlockId(fs.g, fs.Image(), inode, Next(p, c))
                 && Regular(p, c') && Next(p, c') == Next(p, c) + 1
  {
    hide Entry, Padded, TableOf, EntryOf, Capacity;
    c' := c;
    if c.block < DIRECT {
      c' := c.(block := c.block + 1);
      id := Pointer(inode, c'.block);
      ok := fs.ReadBlock(id);
    }
    if c'.block == DIRECT {
      c', id, ok := LoadIndirect(fs, inode, c');
    } else if c'.block == 13 {
      c', id, ok := NextDouble(fs, inode, c');
    }
  }

  /** handle_first_double_indirect */
  method NextDouble(fs: Volume, inode: Inode, c: Cursor) returns (c': Cursor, id: nat, ok: bool)
    requires fs.Valid() && c.block == 13 && CanStep(fs.g, fs.Image(), inode, c)
    modifies fs.buf
    ensures fs.Valid() && ok == (id <= fs.g.blockCount)
    ensures ok ==> fs.buf[..] == Padded(fs.disk[id], fs.buf.Length)
    ensures id == BlockId(fs.g, fs.Image(), inode, Next(fs.g.Pointers(), c))
    ensures Regular(fs.g.Pointers(), c') && Next(fs.g.Pointers(), c') == Next(fs.g.Pointers(), c) + 1
  {
    hide Entry, Padded, TableOf, EntryOf, Capacity, Resolvable, BlockId, CanStep, Next, Regular;
    StepInDouble(fs.g, fs.Image(), inode, c);
    BlockIdDouble(fs.g, fs.Image(), inode, Next(fs.g.Pointers(), c), c.double, c.single);
    id, ok := LoadDouble(fs, inode, c.double, c.single);
    c' := StepDouble(fs.g, c);
  }

  lemma StepInDouble(g: Geometry, img: Image, inode: Inode, c: Cursor)
    requires g.Valid() && ValidImage(g, img) && c.block == 13 && CanStep(g, img, inode, c)
    ensures Regular(g.Pointers(), c) && c.single < g.Pointers() && c.double < g.Pointers()
    ensures DIRECT + g.Pointers() <= Next(g.Pointers(), c) && Resolvable(g, img, inode, Next(g.Pointers(), c))
    ensures TableOf(g.Pointers(), Next(g.Pointers(), c)) == c.double &&
            EntryOf(g.Pointers(), Next(g.Pointers(), c)) == c.single
  {
    hide Resolvable, TableOf, EntryOf, Capacity, Geometry.WholeInodes;
    NonNegative(c.double, g.Pointers());
    RegularNext(g.Pointers(), c);
  }

  /** handle_first_indirect */
  method LoadIndirect(fs: Volume, inode: Inode, c: Cursor) returns (c': Cursor, id: nat, ok: bool)
    requires fs.Valid() && Pointer(inode, 12) <= fs.g.blockCount
    requires c.block == 12 && c.single <= fs.g.Pointers() && c.double == 0
    modifies fs.buf
    ensures fs.Valid() && ok == (id <= fs.g.blockCount)
    ensures id == if c.single < fs.g.Pointers() then Entry(fs.disk[Pointer(inode, 12)], c.single) else 0
    ensures ok ==> fs.buf[..] == Padded(fs.disk[id], fs.buf.Length)
    ensures c' == if c.single + 1 < fs.g.Pointers() then Cursor(12, c.single + 1, 0) else Cursor(13, 0, 0)
  {
    hide Padded, ValidImage;
    ok := fs.ReadBlock(Pointer(inode, 12));
    if c.single < fs.g.Pointers() {
      id := LoadEntry(fs, Pointer(inode, 12), c.single);
    } else {
      id := Entry(fs.buf[..], c.single);
      ZeroWord(fs.buf[..], 4 * c.single);
    }
    ok := fs.ReadBlock(id);
    c' := c.(single := c.single + 1);
    if c'.single * 4 >= fs.g.blockSize {
      c' := c'.(block := 13, single := 0);
    }
  }

  /** The two table lookups of the double-indirect range. */
  method LoadDouble(fs: Volume, inode: Inode, double: nat, single: nat) returns (id: nat, ok: bool)
    requires fs.Valid() && Pointer(inode, 13) <= fs.g.blockCount
    requires double < fs.g.Pointers() && single < fs.g.Pointers()
    requires Entry(fs.disk[Pointer(inode, 13)], double) <= fs.g.blockCount
    modifies fs.buf
    ensures fs.Valid() && ok == (id <= fs.g.blockCount)
    ensures id == Entry(fs.disk[Entry(fs.disk[Pointer(inode, 13)], double)], single)
    ensures ok ==> fs.buf[..] == Padded(fs.disk[id], fs.buf.Length)
  {
    hide Entry, Padded;
    ok := fs.ReadBlock(Pointer(inode, 13));
    var table := LoadEntry(fs, Pointer(inode, 13), double);
    ok := fs.ReadBlock(table);
    id := LoadEntry(fs, table, single);
    ok := fs.ReadBlock(id);
  }

  /** The index updates after a double-indirect load. */
  method StepDouble(g: Geometry, c: Cursor) returns (c': Cursor)
    requires g.Valid() && c.block == 13 && Regular(g.Pointers(), c)
    ensures Regular(g.Pointers(), c') && Next(g.Pointers(), c') == Next(g.Pointers(), c) + 1
  {
    c' := c.(single := c.single + 1);
    if c'.single * 4 >= g.blockSize {
      c' := c'.(double := c'.double + 1, single := 0);
      assert (c.double + 1) * g.Pointers() == c.double * g.Pointers() + g.Pointers();
    }
    if c'.double * 4 >= g.blockSize {
      c' := c'.(block := 14);
    }
  }

  /** Stepping follows the positions. */
  lemma AfterStep(g: Geometry, img: Image, inode: Inode, b: nat, k: nat, c: Cursor)
    requires g.Valid() && ValidImage(g, img) && StartInTables(g.Pointers(), b) && After(g.Pointers(), c, b, k)
    requires c.block < 14
    ensures CanVisit(g, img, inode, b, k + 1) ==> CanStep(g, img, inode, c)
    ensures c == Cursor(12, g.Pointers(), 0) <==> Position(g.Pointers(), b, k + 1) == ZERO_BLOCK
    ensures c == Cursor(12, g.Pointers(), 0) ==> After(g.Pointers(), Cursor(13, 0, 0), b, k + 1)
    ensures forall c' | c != Cursor(12, g.Pointers(), 0) && Regular(g.Pointers(), c')
                        && Next(g.Pointers(), c') == Next(g.Pointers(), c) + 1 :: After(g.Pointers(), c', b, k + 1)
  {
  }
}
