/** Directory blocks of src/drivers/ext2.c: a chain of records whose lengths partition the block. */
module Ext2Dir {
  import opened Bytes
  import opened Ext2Alloc
  import opened Ext2Volume
  import opened Ext2Inode

  const HEADER: nat := 8
  const MAX_NAME: nat := 19

  datatype Entry = Entry(inode: nat, kind: nat, name: seq<byte>)

  // ---- Records

  function SizeAt(s: seq<byte>, pos: nat): (n: nat)
    requires pos + HEADER <= |s|
    ensures n < TWO16
  {
    U16(s, pos + 4)
  }

  function NameLength(s: seq<byte>, pos: nat): (n: nat)
    requires pos + HEADER <= |s|
    ensures n < 256
  {
    s[pos + 6]
  }

  function EntryAt(s: seq<byte>, pos: nat): Entry
    requires pos + HEADER <= |s| && pos + HEADER + NameLength(s, pos) <= |s|
  {
    Entry(U32(s, pos), s[pos + 7], s[pos + HEADER..pos + HEADER + NameLength(s, pos)])
  }

  /** Where the bytes of a directory record lie: inode, record length, name length, type, name. */
  lemma RecordLayout(s: seq<byte>, pos: nat)
    requires pos + HEADER <= |s| && pos + HEADER + s[pos + 6] <= |s|
    ensures SizeAt(s, pos) == Little(s[pos + 4..pos + 6])
    ensures var e := EntryAt(s, pos);
            && e.inode == Little(s[pos..pos + 4])
            && e.kind == s[pos + 7] && e.name == s[pos + 8..pos + 8 + s[pos + 6]]
  {
    hide U16, U32, Little;
    WordIsLittle(s, pos);
    WordIsLittle(s, pos + 4);
  }

  /** A record that fits into the block, is 4-aligned and holds a name that lookup can handle. */
  predicate RecordAt(s: seq<byte>, pos: nat) {
    && pos + HEADER <= |s|
    && SizeAt(s, pos) % 4 == 0 && pos + SizeAt(s, pos) <= |s|
    && NameLength(s, pos) <= MAX_NAME && HEADER + NameLength(s, pos) <= SizeAt(s, pos)
    && forall k :: pos + HEADER <= k < pos + HEADER + NameLength(s, pos) ==> s[k] != 0
  }

  /** From `pos` on the record lengths add up to the end of the block exactly. */
  predicate Chain(s: seq<byte>, pos: nat)
    decreases |s| - pos
  {
    pos == |s| || (RecordAt(s, pos) && Chain(s, pos + SizeAt(s, pos)))
  }

  function Entries(s: seq<byte>, pos: nat): seq<Entry>
    requires Chain(s, pos)
    decreases |s| - pos
  {
    if pos == |s| then [] else [EntryAt(s, pos)] + Entries(s, pos + SizeAt(s, pos))
  }

  /** The inode of the first entry called `name`, or 0. */
  function Find(entries: seq<Entry>, name: seq<byte>): nat {
    if entries == [] then 0
    else if entries[0].name == name then entries[0].inode
    else Find(entries[1..], name)
  }

  // ---- Lookup

  /** A C string: no zero byte inside. */
  predicate CString(name: seq<byte>) { forall k :: 0 <= k < |name| ==> name[k] != 0 }

  /** strcmp(name, work_buf) == 0, for a buffer of 20 zeros into which an entry name was copied. */
  method SameName(name: seq<byte>, buf: array<byte>, pos: nat) returns (same: bool)
    requires CString(name) && RecordAt(buf[..], pos)
    ensures same == (EntryAt(buf[..], pos).name == name)
  {
    var work := buf[pos + HEADER..pos + HEADER + NameLength(buf[..], pos)] + Zeros(20 - NameLength(buf[..], pos));
    ghost var own := EntryAt(buf[..], pos).name;
    assert work[..|own|] == own && work[|own|] == 0;
    assert forall k :: 0 <= k < |own| ==> own[k] != 0;
    var terminated := name + [0];
    var i := 0;
    while terminated[i] != 0 && terminated[i] == work[i]
      invariant 0 <= i <= |name| && i <= |own|
      invariant name[..i] == own[..i]
      decreases |name| - i
    {
      assert i < |own|;
      i := i + 1;
    }
    same := terminated[i] == work[i];
    if same {
      assert i == |name|;
      assert i == |own|;
      assert name == name[..i] && own == own[..i];
    } else {
      if own == name { assert i < |name|; assert work[i] == own[i]; }
    }
  }

  /** ext2_get_direntry_inode */
  method Lookup(fs: Volume, dir: nat, name: seq<byte>) returns (idx: nat)
    requires fs.Valid() && fs.g.HasInode(dir) && CString(name)
    requires Pointer(InodeAt(fs.g, fs.Image(), dir), 0) <= fs.g.blockCount
    requires Chain(fs.disk[Pointer(InodeAt(fs.g, fs.Image(), dir), 0)], 0)
    modifies fs.buf
    ensures fs.Valid()
    ensures idx == Find(Entries(fs.disk[Pointer(InodeAt(fs.g, fs.Image(), dir), 0)], 0), name)
  {
    hide InodeAt, Padded, U16, U32, NameLength, SizeAt, RecordAt, Chain, Entries, EntryAt, Find,
         Geometry.WholeInodes, Geometry.HasInode;
    var inode := fs.ReadInode(dir);
    ghost var block := fs.disk[Pointer(inode, 0)];
    var ok := fs.ReadBlock(Pointer(inode, 0));
    var pos := 0;
    while SizeAt(fs.buf[..], pos) != 0
      invariant fs.Valid() && pos <= |block| && Chain(block, pos)
      invariant fs.buf[..] == Padded(block, fs.buf.Length)
      invariant Find(Entries(block, 0), name) == Find(Entries(block, pos), name)
      decreases |block| - pos
    {
      PaddedRecord(block, fs.buf.Length, pos);
      FindStep(block, pos, name);
      var same := SameName(name, fs.buf, pos);
      if same { return U32(fs.buf[..], pos); }
      pos := pos + SizeAt(fs.buf[..], pos);
    }
    PaddedRecord(block, fs.buf.Length, pos);
    FindStep(block, pos, name);
    return 0;
  }

  lemma FindStep(block: Block, pos: nat, name: seq<byte>)
    requires pos <= |block| && Chain(block, pos)
    ensures pos == |block| ==> Find(Entries(block, pos), name) == 0
    ensures pos < |block| ==>
      && RecordAt(block, pos) && SizeAt(block, pos) > 0 && Chain(block, pos + SizeAt(block, pos))
      && pos + SizeAt(block, pos) <= |block|
      && Find(Entries(block, pos), name) ==
         if EntryAt(block, pos).name == name then EntryAt(block, pos).inode
         else Find(Entries(block, pos + SizeAt(block, pos)), name)
  {
  }

  /** What the scratch buffer shows of a chain: the same records, and a zero length after them. */
  lemma PaddedRecord(block: Block, size: nat, pos: nat)
    requires Chain(block, pos) && pos <= |block| && |block| + HEADER <= size
    ensures pos < |block| ==>
              RecordAt(Padded(block, size), pos) && SizeAt(Padded(block, size), pos) == SizeAt(block, pos)
    ensures pos < |block| ==> EntryAt(Padded(block, size), pos) == EntryAt(block, pos)
    ensures pos < |block| ==> U32(Padded(block, size), pos) == EntryAt(block, pos).inode
    ensures SizeAt(Padded(block, size), pos) == 0 <==> pos == |block|
  {
    var s := Padded(block, size);
    if pos < |block| {
      assert forall k :: pos <= k < |block| ==> s[k] == block[k];
      assert s[pos..pos + HEADER] == block[pos..pos + HEADER];
      assert EntryAt(s, pos).name == EntryAt(block, pos).name;
    }
  }

  // ---- Append

  /** The length to which the last record is cut: its header and name, then one to four bytes up
      to the next multiple of four. */
  function Shrunk(length: nat): (n: nat)
    ensures n % 4 == 0 && HEADER + length < n <= HEADER + length + 4
  {
    var n := HEADER + length;
    n + (4 - n % 4)
  }

  /** Position of the last record. */
  function LastRecord(s: seq<byte>, pos: nat): (last: nat)
    requires Chain(s, pos) && pos < |s|
    ensures pos <= last < |s| && RecordAt(s, last) && last + SizeAt(s, last) == |s|
    decreases |s| - pos
  {
    if pos + SizeAt(s, pos) == |s| then pos else LastRecord(s, pos + SizeAt(s, pos))
  }

  /** A record as its bytes: header, then name. */
  function RecordBytes(inode: nat, size: nat, kind: byte, name: seq<byte>): (r: seq<byte>)
    requires inode < TWO32 && size < TWO16 && |name| < 256
    ensures |r| == HEADER + |name|
  {
    Encode32(inode) + Encode16(size) + [|name|, kind] + name
  }

  /** The record at `pos` becomes the last one, with the given fields. */
  function PutLast(s: Block, pos: nat, inode: nat, kind: byte, name: seq<byte>): (r: Block)
    requires inode < TWO32 && |name| < 256 && pos + HEADER + |name| <= |s| < TWO16
    ensures |r| == |s|
  {
    Splice(s, pos, RecordBytes(inode, |s| - pos, kind, name))
  }

  /** There is room for a record of a name of length `length` behind the last one. */
  predicate Room(s: Block, length: nat)
    requires Chain(s, 0) && 0 < |s|
  {
    var last := LastRecord(s, 0);
    last + Shrunk(NameLength(s, last)) + HEADER + length <= |s|
  }

  /** The block after an append behind the last record. */
  function Append(s: Block, inode: nat, kind: byte, name: seq<byte>): (r: Block)
    requires inode < TWO32 && |name| < 256 && 0 < |s| < TWO16 && Chain(s, 0) && Room(s, |name|)
    ensures |r| == |s|
  {
    var last := LastRecord(s, 0);
    var cut := Shrunk(NameLength(s, last));
    PutLast(PutU16(s, last + 4, cut), last + cut, inode, kind, name)
  }

  /** The fields of a record that starts the given bytes. */
  ghost predicate StartsWithRecord(r: seq<byte>, inode: nat, size: nat, kind: byte, name: seq<byte>) {
    && HEADER + |name| <= |r| && |name| < 256
    && U32(r, 0) == inode && U16(r, 4) == size && r[6] == |name| && r[7] == kind
    && r[HEADER..HEADER + |name|] == name
  }

  lemma RecordStarts(inode: nat, size: nat, kind: byte, name: seq<byte>)
    requires inode < TWO32 && size < TWO16 && |name| < 256
    ensures StartsWithRecord(RecordBytes(inode, size, kind, name), inode, size, kind, name)
  {
    hide Encode32, Encode16;
    var a, b := Encode32(inode), Encode16(size);
    var r := RecordBytes(inode, size, kind, name);
    assert r == a + (b + [|name|, kind] + name);
    assert r[0] == a[0] && r[1] == a[1] && r[2] == a[2] && r[3] == a[3] && r[4] == b[0] && r[5] == b[1];
  }

  lemma PutLastFields(s: Block, pos: nat, inode: nat, kind: byte, name: seq<byte>)
    requires inode < TWO32 && |name| < 256 && pos + HEADER + |name| <= |s| < TWO16
    ensures var r := PutLast(s, pos, inode, kind, name);
            && U32(r, pos) == inode && SizeAt(r, pos) == |s| - pos && NameLength(r, pos) == |name| && r[pos + 7] == kind
            && r[pos + HEADER..pos + HEADER + |name|] == name
  {
    hide RecordBytes;
    var r, bytes := PutLast(s, pos, inode, kind, name), RecordBytes(inode, |s| - pos, kind, name);
    RecordStarts(inode, |s| - pos, kind, name);
    assert r[pos] == bytes[0] && r[pos + 1] == bytes[1] && r[pos + 2] == bytes[2] && r[pos + 3] == bytes[3];
    assert r[pos + 4] == bytes[4] && r[pos + 5] == bytes[5] && r[pos + 6] == bytes[6] && r[pos + 7] == bytes[7];
    assert r[pos + HEADER..pos + HEADER + |name|] == bytes[HEADER..HEADER + |name|];
  }

  lemma PutLastRecord(s: Block, pos: nat, inode: nat, kind: byte, name: seq<byte>)
    requires inode < TWO32 && |name| <= MAX_NAME && pos + HEADER + |name| <= |s| < TWO16
    requires pos % 4 == 0 && |s| % 4 == 0 && CString(name)
    ensures var r := PutLast(s, pos, inode, kind, name);
            && RecordAt(r, pos) && SizeAt(r, pos) == |s| - pos && EntryAt(r, pos) == Entry(inode, kind, name)
            && Chain(r, pos) && Entries(r, pos) == [Entry(inode, kind, name)]
  {
    var r := PutLast(s, pos, inode, kind, name);
    hide PutLast, U32, SizeAt, NameLength, RecordBytes, Chain, Entries, CString;
    PutLastFields(s, pos, inode, kind, name);
    NoZeroInside(r, pos + HEADER, name);
    OneRecord(r, pos);
  }

  lemma NoZeroInside(r: seq<byte>, at: nat, name: seq<byte>)
    requires at + |name| <= |r| && r[at..at + |name|] == name && CString(name)
    ensures forall k :: at <= k < at + |name| ==> r[k] != 0
  {
    forall k | at <= k < at + |name| ensures r[k] != 0 { assert r[k] == name[k - at]; }
  }

  /** A record that ends the block is a chain of its own. */
  lemma OneRecord(s: Block, pos: nat)
    requires RecordAt(s, pos) && pos + SizeAt(s, pos) == |s|
    ensures Chain(s, pos) && Entries(s, pos) == [EntryAt(s, pos)]
  {
    assert pos < |s| && Entries(s, |s|) == [];
  }

  /** Records before the last one are untouched, the last one keeps its inode, type and name. */
  lemma {:induction false} AppendFrom(s: Block, inode: nat, kind: byte, name: seq<byte>, pos: nat)
    requires inode < TWO32 && |name| <= MAX_NAME && CString(name) && 0 < |s| < TWO16 && |s| % 4 == 0
    requires Chain(s, 0) && Room(s, |name|)
    requires Chain(s, pos) && pos < |s| && pos % 4 == 0 && LastRecord(s, pos) == LastRecord(s, 0)
    ensures var r := Append(s, inode, kind, name);
            Chain(r, pos) && Entries(r, pos) == Entries(s, pos) + [Entry(inode, kind, name)]
    decreases |s| - pos
  {
    hide Append, RecordAt, EntryAt, SizeAt, NameLength, Shrunk, Room, Chain, Entries, LastRecord;
    var r := Append(s, inode, kind, name);
    AppendBytes(s, inode, kind, name);
    ChainStep(s, pos);
    KeptRecord(s, r, pos);
    if pos != LastRecord(s, 0) {
      AppendFrom(s, inode, kind, name, pos + SizeAt(s, pos));
      SameSize(s, r, pos);
    }
    ChainBuild(r, pos);
  }

  lemma ChainStep(s: Block, pos: nat)
    requires Chain(s, pos) && pos < |s|
    ensures RecordAt(s, pos) && HEADER + NameLength(s, pos) <= SizeAt(s, pos) && SizeAt(s, pos) % 4 == 0
    ensures var next := pos + SizeAt(s, pos);
            && pos < next <= |s| && Chain(s, next) && Entries(s, pos) == [EntryAt(s, pos)] + Entries(s, next)
            && LastRecord(s, pos) == (if next == |s| then pos else LastRecord(s, next))
            && (next < |s| ==> next <= LastRecord(s, pos))
            && (next == |s| ==> Entries(s, next) == [])
  {
  }

  lemma {:induction false} LastAligned(s: Block, pos: nat)
    requires Chain(s, pos) && pos < |s| && pos % 4 == 0
    ensures LastRecord(s, pos) % 4 == 0
    decreases |s| - pos
  {
    hide RecordAt, SizeAt, Chain, LastRecord, Entries, EntryAt, NameLength;
    ChainStep(s, pos);
    var next := pos + SizeAt(s, pos);
    if next < |s| { LastAligned(s, next); }
  }

  lemma ChainBuild(s: Block, pos: nat)
    requires RecordAt(s, pos) && Chain(s, pos + SizeAt(s, pos))
    ensures Chain(s, pos) && Entries(s, pos) == [EntryAt(s, pos)] + Entries(s, pos + SizeAt(s, pos))
  {
  }

  lemma SameSize(s: Block, r: Block, pos: nat)
    requires |r| == |s| && pos + HEADER <= |s| && r[pos + 4] == s[pos + 4] && r[pos + 5] == s[pos + 5]
    ensures SizeAt(r, pos) == SizeAt(s, pos)
  {
  }

  /** What Append changes: the length of the last record, and what lies behind its name. */
  lemma AppendBytes(s: Block, inode: nat, kind: byte, name: seq<byte>)
    requires inode < TWO32 && |name| <= MAX_NAME && CString(name) && 0 < |s| < TWO16 && |s| % 4 == 0
    requires Chain(s, 0) && Room(s, |name|)
    ensures var r, last := Append(s, inode, kind, name), LastRecord(s, 0);
            var cut := Shrunk(NameLength(s, last));
            && (forall k :: 0 <= k < last + HEADER + NameLength(s, last) && k != last + 4 && k != last + 5 ==>
                  r[k] == s[k])
            && RecordAt(r, last) && SizeAt(r, last) == cut && Chain(r, last + cut)
            && Entries(r, last + cut) == [Entry(inode, kind, name)]
  {
    hide PutU16, EntryAt, Encode16, U16, Chain, Entries, PutLast, RecordAt, SizeAt, Splice, CString, Shrunk,
         NameLength, LastRecord;
    RoomMeans(s, |name|);
    var last := LastRecord(s, 0);
    var cut := Shrunk(NameLength(s, last));
    var c := PutU16(s, last + 4, cut);
    LastAligned(s, 0);
    PutLastRecord(c, last + cut, inode, kind, name);
    AppendFront(s, last, cut, inode, kind, name);
  }

  /** Cutting a record and putting another one behind it. */
  lemma AppendFront(s: Block, last: nat, cut: nat, inode: nat, kind: byte, name: seq<byte>)
    requires inode < TWO32 && |name| < 256 && RecordAt(s, last) && cut % 4 == 0 && HEADER + NameLength(s, last) <= cut
    requires last + cut + HEADER + |name| <= |s| < TWO16
    ensures var r := PutLast(PutU16(s, last + 4, cut), last + cut, inode, kind, name);
            && (forall k :: 0 <= k < last + HEADER + NameLength(s, last) && k != last + 4 && k != last + 5 ==>
                  r[k] == s[k])
            && RecordAt(r, last) && SizeAt(r, last) == cut
  {
    hide PutU16, U16, PutLast, RecordAt, SizeAt, NameLength, Splice;
    var c := PutU16(s, last + 4, cut);
    var r := PutLast(c, last + cut, inode, kind, name);
    assert last + HEADER <= |s| by { RecordFits(s, last); }
    PutLastKeeps(c, last + cut, inode, kind, name);
    SameSize(c, r, last);
    CutSize(s, last, cut);
    CutRecord(s, r, last, cut);
  }

  lemma RecordFits(s: Block, pos: nat)
    requires RecordAt(s, pos)
    ensures pos + HEADER <= |s|
  {
  }

  lemma RoomMeans(s: Block, length: nat)
    requires Chain(s, 0) && 0 < |s| && Room(s, length)
    ensures var last := LastRecord(s, 0);
            && RecordAt(s, last) && last + HEADER <= |s| && HEADER + NameLength(s, last) <= Shrunk(NameLength(s, last))
            && last + Shrunk(NameLength(s, last)) + HEADER + length <= |s|
  {
    hide Chain;
  }

  lemma CutSize(s: Block, pos: nat, cut: nat)
    requires pos + HEADER <= |s| && cut < TWO16
    ensures SizeAt(PutU16(s, pos + 4, cut), pos) == cut
  {
  }

  lemma CutRecord(s: Block, r: Block, pos: nat, cut: nat)
    requires |r| == |s| && RecordAt(s, pos) && pos + cut <= |r|
    requires forall k :: pos <= k < pos + HEADER + NameLength(s, pos) && k != pos + 4 && k != pos + 5 ==> r[k] == s[k]
    requires SizeAt(r, pos) == cut && cut % 4 == 0 && HEADER + NameLength(s, pos) <= cut
    ensures RecordAt(r, pos)
  {
  }

  lemma PutLastKeeps(s: Block, pos: nat, inode: nat, kind: byte, name: seq<byte>)
    requires inode < TWO32 && |name| < 256 && pos + HEADER + |name| <= |s| < TWO16
    ensures forall k :: 0 <= k < pos ==> PutLast(s, pos, inode, kind, name)[k] == s[k]
  {
  }

  /** A record whose header and name bytes agree, up to its length. */
  lemma KeptRecord(s: Block, r: Block, pos: nat)
    requires |r| == |s| && RecordAt(s, pos)
    requires forall k :: pos <= k < pos + HEADER + NameLength(s, pos) && k != pos + 4 && k != pos + 5 ==> r[k] == s[k]
    ensures NameLength(r, pos) == NameLength(s, pos) && EntryAt(r, pos) == EntryAt(s, pos)
    ensures SizeAt(r, pos) == SizeAt(s, pos) ==> RecordAt(r, pos)
  {
    assert r[pos + HEADER..pos + HEADER + NameLength(s, pos)] == s[pos + HEADER..pos + HEADER + NameLength(s, pos)];
  }

  // ---- Main results

  ghost predicate Named(entries: seq<Entry>, name: seq<byte>) {
    exists i :: 0 <= i < |entries| && entries[i].name == name
  }

  lemma {:induction false} FindAppended(entries: seq<Entry>, e: Entry, name: seq<byte>)
    ensures Find(entries + [e], name) ==
            if Named(entries, name) then Find(entries, name) else if name == e.name then e.inode else 0
    ensures !Named(entries, name) ==> Find(entries, name) == 0
  {
    if entries != [] {
      assert (entries + [e])[1..] == entries[1..] + [e];
      FindAppended(entries[1..], e, name);
      if entries[0].name != name && Named(entries, name) {
        var i :| 0 <= i < |entries| && entries[i].name == name;
        assert entries[1..][i - 1].name == name;
      }
    }
  }

  /** An append to a well-formed block with room keeps the record lengths an exact 4-aligned
      partition of the block and adds one entry at the end of the list. */
  lemma AppendAddsEntry(s: Block, inode: nat, kind: byte, name: seq<byte>)
    requires inode < TWO32 && |name| <= MAX_NAME && CString(name) && 0 < |s| < TWO16 && |s| % 4 == 0
    requires Chain(s, 0) && Room(s, |name|)
    ensures var r := Append(s, inode, kind, name);
            Chain(r, 0) && Entries(r, 0) == Entries(s, 0) + [Entry(inode, kind, name)]
  {
    AppendFrom(s, inode, kind, name, 0);
  }

  /** After an append of a fresh name, looking it up finds the child, and every other lookup
      answers as before. */
  lemma AppendLookup(s: Block, inode: nat, kind: byte, name: seq<byte>, other: seq<byte>)
    requires inode < TWO32 && |name| <= MAX_NAME && CString(name) && 0 < |s| < TWO16 && |s| % 4 == 0
    requires Chain(s, 0) && Room(s, |name|) && !Named(Entries(s, 0), name)
    ensures var r := Append(s, inode, kind, name);
            Chain(r, 0) && Find(Entries(r, 0), other) == if other == name then inode else Find(Entries(s, 0), other)
  {
    AppendAddsEntry(s, inode, kind, name);
    FindAppended(Entries(s, 0), Entry(inode, kind, name), other);
  }

  // ---- The method

  predicate IsDirectory(inode: Inode) { U16(inode, AT_TYPE) / 0x1000 == DIRECTORY / 0x1000 }

  /** Of the inodes that creation leaves, exactly those of the directory types are directories. */
  lemma TypeDecides(g: Geometry, img: Image, idx: nat, kind: nat, size: nat)
    requires OneGroup(g) && ValidImage(g, img) && 0 < idx <= g.inodeCount && kind < TWO16 && size < TWO32
    ensures IsDirectory(CreatedInode(g, img, idx, kind, size)) <==> 0x4000 <= kind < 0x5000
  {
    hide CreatedInode;
    CreatedFields(g, img, idx, kind, size);
  }

  /** The directory block after ext2_make_dir_entry. */
  function WithEntry(s: Block, inode: nat, kind: byte, name: seq<byte>, newDir: bool): (r: Block)
    requires inode < TWO32 && |name| < 256 && HEADER + |name| <= |s| < TWO16
    requires newDir || SizeAt(s, 0) == 0 || (Chain(s, 0) && Room(s, |name|))
    ensures |r| == |s|
  {
    if newDir || SizeAt(s, 0) == 0 then PutLast(s, 0, inode, kind, name) else Append(s, inode, kind, name)
  }

  /** The entries of a directory block before an entry is made: a new directory has none. */
  function Listed(s: Block, newDir: bool): seq<Entry>
    requires HEADER <= |s| && (newDir || SizeAt(s, 0) == 0 || Chain(s, 0))
  {
    if newDir || SizeAt(s, 0) == 0 then [] else Entries(s, 0)
  }

  /** The block holds `entries` and nothing else. */
  ghost predicate HoldsList(s: Block, entries: seq<Entry>) { Chain(s, 0) && Entries(s, 0) == entries }

  /** The block left by ext2_make_dir_entry holds the old entries and the new one behind them. */
  lemma EntryIsAdded(s: Block, inode: nat, kind: byte, name: seq<byte>, newDir: bool)
    requires inode < TWO32 && |name| <= MAX_NAME && CString(name) && HEADER + |name| <= |s| < TWO16 && |s| % 4 == 0
    requires newDir || SizeAt(s, 0) == 0 || (Chain(s, 0) && Room(s, |name|))
    ensures HoldsList(WithEntry(s, inode, kind, name, newDir), Listed(s, newDir) + [Entry(inode, kind, name)])
  {
    hide PutLast, Append, Chain, Entries, Room, SizeAt, CString;
    if newDir || SizeAt(s, 0) == 0 {
      PutLastRecord(s, 0, inode, kind, name);
      assert [] + [Entry(inode, kind, name)] == [Entry(inode, kind, name)];
    } else {
      AppendAddsEntry(s, inode, kind, name);
    }
  }

  method MakeDirEntry(fs: Volume, dir: nat, name: seq<byte>, child: nat, kind: byte, newDir: bool)
    requires fs.Valid() && fs.g.HasInode(dir) && CString(name) && |name| < 256 && child < TWO32
    requires IsDirectory(InodeAt(fs.g, fs.Image(), dir)) ==>
               && Pointer(InodeAt(fs.g, fs.Image(), dir), 0) <= fs.g.blockCount
               && (newDir || SizeAt(fs.disk[Pointer(InodeAt(fs.g, fs.Image(), dir), 0)], 0) == 0
                   || (&& Chain(fs.disk[Pointer(InodeAt(fs.g, fs.Image(), dir), 0)], 0)
                       && Room(fs.disk[Pointer(InodeAt(fs.g, fs.Image(), dir), 0)], |name|)))
    modifies fs.buf, fs.disk
    ensures fs.Valid()
    ensures var inode := InodeAt(fs.g, old(fs.Image()), dir);
            fs.Image() == if !IsDirectory(inode) then old(fs.Image())
                          else old(fs.Image())[Pointer(inode, 0) :=
                                 WithEntry(old(fs.Image())[Pointer(inode, 0)], child, kind, name, newDir)]
    ensures var inode := InodeAt(fs.g, old(fs.Image()), dir);
            IsDirectory(inode) && |name| <= MAX_NAME ==>
              HoldsList(fs.Image()[Pointer(inode, 0)],
                        Listed(old(fs.Image())[Pointer(inode, 0)], newDir) + [Entry(child, kind, name)])
  {
    hide InodeAt, U16, U32, SizeAt, Chain, Room, WithEntry, Geometry.WholeInodes, Geometry.HasInode;
    var inode := fs.ReadInode(dir);
    if !IsDirectory(inode) { return; }
    ghost var block := fs.disk[Pointer(inode, 0)];
    var ok := fs.ReadBlock(Pointer(inode, 0));
    PutEntry(fs, block, name, child, kind, newDir);
    PaddedFront(WithEntry(block, child, kind, name, newDir), fs.buf.Length);
    assert fs.buf[..][..fs.g.blockSize] == WithEntry(block, child, kind, name, newDir);
    ok := fs.WriteBlock(Pointer(inode, 0));
    Copy(fs.buf, 0, Zeros(fs.g.blockSize));
    if |name| <= MAX_NAME { EntryIsAdded(block, child, kind, name, newDir); }
  }

  /** The changes to the directory block in the scratch buffer. */
  method PutEntry(fs: Volume, ghost block: Block, name: seq<byte>, child: nat, kind: byte, newDir: bool)
    requires fs.Valid() && |block| == fs.g.blockSize && fs.buf[..] == Padded(block, fs.buf.Length)
    requires CString(name) && |name| < 256 && child < TWO32
    requires newDir || SizeAt(block, 0) == 0 || (Chain(block, 0) && Room(block, |name|))
    modifies fs.buf
    ensures fs.Valid() && fs.buf[..] == Padded(WithEntry(block, child, kind, name, newDir), fs.buf.Length)
  {
    hide U16, U32, NameLength, SizeAt, RecordAt, Chain, EntryAt, LastRecord, PutLast, PutU16, Padded,
         Geometry.WholeInodes;
    PaddedSize(block, fs.buf.Length);
    var pos := 0;
    ghost var cut := block;
    if !newDir && SizeAt(fs.buf[..], 0) != 0 {
      pos := CutLast(fs, block);
      cut := PutU16(block, LastRecord(block, 0) + 4, pos - LastRecord(block, 0));
    }
    WriteRecord(fs, cut, pos, child, kind, name);
  }

  /** Walk to the last record and cut its length to what its name needs. */
  method CutLast(fs: Volume, ghost block: Block) returns (pos: nat)
    requires fs.Valid() && |block| == fs.g.blockSize && fs.buf[..] == Padded(block, fs.buf.Length)
    requires Chain(block, 0) && Room(block, 0)
    modifies fs.buf
    ensures fs.Valid() && pos == LastRecord(block, 0) + Shrunk(NameLength(block, LastRecord(block, 0)))
    ensures var last := LastRecord(block, 0);
            fs.buf[..] == Padded(PutU16(block, last + 4, Shrunk(NameLength(block, last))), fs.buf.Length)
  {
    hide U16, U32, NameLength, Chain, EntryAt, LastRecord, Encode16, Splice, Geometry.WholeInodes;
    pos := SeekLast(fs, block);
    var length := Shrunk(NameLength(fs.buf[..], pos));
    PaddedPut(block, fs.buf.Length, pos + 4, Encode16(length));
    Copy(fs.buf, pos + 4, Encode16(length));
    pos := pos + length;
  }

  lemma PaddedSize(block: Block, size: nat)
    requires HEADER <= |block| <= size
    ensures SizeAt(Padded(block, size), 0) == SizeAt(block, 0)
  {
  }

  lemma PaddedPut(block: Block, size: nat, at: nat, bytes: seq<byte>)
    requires |block| <= size && at + |bytes| <= |block|
    ensures Splice(Padded(block, size), at, bytes) == Padded(Splice(block, at, bytes), size)
  {
  }

  /** The loop that walks to the record which ends the block. */
  method SeekLast(fs: Volume, ghost block: Block) returns (pos: nat)
    requires fs.Valid() && |block| == fs.g.blockSize && fs.buf[..] == Padded(block, fs.buf.Length) && Chain(block, 0)
    ensures pos == LastRecord(block, 0)
    ensures NameLength(fs.buf[..], pos) == NameLength(block, pos)
  {
    hide U16, U32, NameLength, Chain, EntryAt, LastRecord, Geometry.WholeInodes;
    pos := 0;
    PaddedRecord(block, fs.buf.Length, 0);
    ChainStep(block, 0);
    while fs.g.blockSize - SizeAt(fs.buf[..], pos) - pos != 0
      invariant pos < |block| && Chain(block, pos) && LastRecord(block, pos) == LastRecord(block, 0)
      invariant SizeAt(fs.buf[..], pos) == SizeAt(block, pos)
      decreases |block| - pos
    {
      ChainStep(block, pos);
      pos := pos + SizeAt(fs.buf[..], pos);
      PaddedRecord(block, fs.buf.Length, pos);
    }
    ChainStep(block, pos);
    PaddedName(block, fs.buf.Length, pos);
  }

  lemma PaddedName(block: Block, size: nat, pos: nat)
    requires RecordAt(block, pos) && |block| <= size
    ensures NameLength(Padded(block, size), pos) == NameLength(block, pos)
  {
  }

  /** The field assignments and the name loop at the end of ext2_make_dir_entry. */
  method WriteRecord(fs: Volume, ghost block: Block, pos: nat, child: nat, kind: byte, name: seq<byte>)
    requires fs.Valid() && |block| == fs.g.blockSize && fs.buf[..] == Padded(block, fs.buf.Length)
    requires child < TWO32 && CString(name) && |name| < 256 && pos + HEADER + |name| <= |block|
    modifies fs.buf
    ensures fs.Valid() && fs.buf[..] == Padded(PutLast(block, pos, child, kind, name), fs.buf.Length)
  {
    hide Padded, Splice, Geometry.WholeInodes;
    var size := fs.g.blockSize - pos;
    PutHeader(fs, block, pos, child, size, kind);
    var i := 0;
    while i < |name|
      invariant 0 <= i <= |name| && fs.Valid()
      invariant fs.buf[..] == Padded(Splice(block, pos, RecordBytes(child, size, kind, name[..i])), fs.buf.Length)
    {
      NameStep(block, fs.buf.Length, pos, child, size, kind, name, i);
      fs.buf[pos + HEADER + i] := name[i];
      fs.buf[pos + 6] := fs.buf[pos + 6] + 1;
      i := i + 1;
    }
    assert name[..i] == name;
  }

  method PutHeader(fs: Volume, ghost block: Block, pos: nat, child: nat, size: nat, kind: byte)
    requires fs.Valid() && |block| == fs.g.blockSize && fs.buf[..] == Padded(block, fs.buf.Length)
    requires child < TWO32 && size < TWO16 && pos + HEADER <= |block|
    modifies fs.buf
    ensures fs.Valid() && fs.buf[..] == Padded(Splice(block, pos, RecordBytes(child, size, kind, [])), fs.buf.Length)
  {
    hide Encode16, Encode32, Geometry.WholeInodes, Padded, Splice, RecordBytes;
    HeaderBytes(block, fs.buf.Length, pos, child, size, kind);
    Copy(fs.buf, pos, Encode32(child));
    fs.buf[pos + 6] := 0;
    fs.buf[pos + 7] := kind;
    Copy(fs.buf, pos + 4, Encode16(size));
  }

  lemma HeaderBytes(block: Block, total: nat, pos: nat, child: nat, size: nat, kind: byte)
    requires child < TWO32 && size < TWO16 && pos + HEADER <= |block| <= total
    ensures Splice(Splice(Padded(block, total), pos, Encode32(child))[pos + 6 := 0][pos + 7 := kind], pos + 4,
            Encode16(size))
         == Padded(Splice(block, pos, RecordBytes(child, size, kind, [])), total)
  {
    hide Encode16, Encode32;
  }

  /** One round of the name loop. */
  lemma NameStep(block: Block, total: nat, pos: nat, child: nat, size: nat, kind: byte, name: seq<byte>, i: nat)
    requires child < TWO32 && size < TWO16 && i < |name| < 256 && pos + HEADER + |name| <= |block| <= total
    ensures var s := Padded(Splice(block, pos, RecordBytes(child, size, kind, name[..i])), total);
            && s[pos + 6] == i
            && s[pos + HEADER + i := name[i]][pos + 6 := i + 1]
               == Padded(Splice(block, pos, RecordBytes(child, size, kind, name[..i + 1])), total)
  {
    hide Encode16, Encode32;
  }

  // ---- Making an entry and looking up

  /** Make an entry, then look up a name: a fresh name is found at the child, and every other name as before. */
  method MakeAndLookup(fs: Volume, dir: nat, name: seq<byte>, child: nat, kind: byte, newDir: bool, other: seq<byte>)
    returns (idx: nat)
    requires fs.Valid() && fs.g.HasInode(dir) && CString(name) && |name| <= MAX_NAME && child < TWO32 && CString(other)
    requires IsDirectory(InodeAt(fs.g, fs.Image(), dir))
    requires Pointer(InodeAt(fs.g, fs.Image(), dir), 0) <= fs.g.blockCount
    requires Pointer(InodeAt(fs.g, fs.Image(), dir), 0) != fs.g.InodeBlock(dir)
    requires newDir || SizeAt(fs.disk[Pointer(InodeAt(fs.g, fs.Image(), dir), 0)], 0) == 0
          || (&& Chain(fs.disk[Pointer(InodeAt(fs.g, fs.Image(), dir), 0)], 0)
              && Room(fs.disk[Pointer(InodeAt(fs.g, fs.Image(), dir), 0)], |name|))
    modifies fs.buf, fs.disk
    ensures fs.Valid()
    ensures var before := Listed(old(fs.Image())[Pointer(InodeAt(fs.g, old(fs.Image()), dir), 0)], newDir);
            !Named(before, name) ==> idx == if other == name then child else Find(before, other)
  {
    hide InodeAt, U16, U32, SizeAt, Chain, Room, Entries, WithEntry, Find, IsDirectory, CString, Listed;
    hide Geometry.WholeInodes, Geometry.InodeBlock;
    ghost var img, inode := fs.Image(), InodeAt(fs.g, fs.Image(), dir);
    ghost var block := img[Pointer(inode, 0)];
    MakeDirEntry(fs, dir, name, child, kind, newDir);
    SameTableBlock(fs.g, img, fs.Image(), dir);
    idx := Lookup(fs, dir, other);
    FindAppended(Listed(block, newDir), Entry(child, kind, name), other);
  }
}
