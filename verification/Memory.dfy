/** The 4 MiB region table of src/memory.c and the page directory of src/paging.c. */
module Memory {

  const PAGE: nat := 0x400000
  const COUNT: nat := 1024
  const WORD: nat := 0x1_0000_0000

  datatype Kind = Unset | Kernel | Driver | Alloc | System | Other | Program | Undefined | Framebuffer | Available
                | Stack

  datatype Region = Region(present: bool, available: bool, kind: Kind, physical: nat, virtual: nat) {
    predicate Usable() { present && available }
  }

  /** `pages` holds page directory entries: a frame address plus flags, or 0 for no page. */
  datatype Tables = Tables(regions: seq<Region>, pages: seq<nat>) {
    predicate Sized() { |regions| == COUNT && |pages| == COUNT }
  }

  function Aligned(address: nat): nat { address / PAGE * PAGE }

  function Flag(kind: Kind): nat { if kind == Framebuffer then 0x93 else 0x83 }

  function Blocks(size: nat): nat { size / PAGE + (if size % PAGE != 0 then 1 else 0) }

  /** get_physical: what the hardware makes of an address. */
  function Physical(pages: seq<nat>, address: nat): nat
    requires |pages| == COUNT && address < WORD
  {
    Aligned(pages[address / PAGE]) + address % PAGE
  }

  // ---- Reserving and freeing

  function ReserveOne(m: Tables, physical: nat, virtual: nat, kind: Kind): (r: Tables)
    requires m.Sized() && physical < WORD && virtual < WORD
    ensures r.Sized()
  {
    Tables(m.regions[physical / PAGE := Region(true, false, kind, Aligned(physical), Aligned(virtual))],
           m.pages[virtual / PAGE := Aligned(physical) + Flag(kind)])
  }

  function Reserve(m: Tables, start: nat, base: nat, n: nat, kind: Kind): (r: Tables)
    requires m.Sized()
    ensures r.Sized()
  {
    if n == 0 then m
    else ReserveOne(Reserve(m, start, base, n - 1, kind),
                    (start + (n - 1) * PAGE) % WORD, (base + (n - 1) * PAGE) % WORD, kind)
  }

  /** The first region that carries this virtual address, or COUNT. */
  function FirstAt(regions: seq<Region>, virtual: nat, from: nat := 0): (i: nat)
    requires from <= |regions|
    ensures from <= i <= |regions| && (i < |regions| ==> regions[i].virtual == virtual)
    ensures forall j :: from <= j < i ==> regions[j].virtual != virtual
    decreases |regions| - from
  {
    if from == |regions| || regions[from].virtual == virtual then from else FirstAt(regions, virtual, from + 1)
  }

  function FreeOne(m: Tables, virtual: nat): (r: Tables)
    requires m.Sized() && virtual < WORD
    ensures r.Sized()
  {
    var i := FirstAt(m.regions, Aligned(virtual));
    if i == COUNT then m
    else Tables(m.regions[i := m.regions[i].(present := true, available := true)], m.pages[virtual / PAGE := 0])
  }

  function Free(m: Tables, virtual: nat, n: nat): (r: Tables)
    requires m.Sized()
    ensures r.Sized()
  {
    if n == 0 then m else FreeOne(Free(m, virtual, n - 1), (virtual + (n - 1) * PAGE) % WORD)
  }

  // ---- Finding

  predicate RunAt(regions: seq<Region>, i: nat, n: nat) {
    i + n <= |regions| && forall j :: i <= j < i + n ==> regions[j].Usable()
  }

  /** The least start of `n` usable regions in a row, or -1; a search for none finds none. */
  function FindRun(regions: seq<Region>, n: nat, from: nat := 0): (r: int)
    ensures n == 0 ==> r == -1
    ensures r == -1 || (from <= r && RunAt(regions, r, n))
    ensures n > 0 ==> forall i :: from <= i && (r == -1 || i < r) ==> !RunAt(regions, i, n)
    decreases |regions| - from
  {
    if n == 0 || from + n > |regions| then -1
    else if RunAt(regions, from, n) then from
    else FindRun(regions, n, from + 1)
  }

  // ---- Allocations

  datatype Block = Block(idx: nat, n: nat) {
    predicate Has(b: nat) { idx <= b < idx + n }
    predicate Apart(other: Block) { idx + n <= other.idx || other.idx + other.n <= idx }
  }

  /** The live allocations beside the tables. */
  datatype State = State(m: Tables, live: seq<Block>)

  datatype Op = Allocate(size: nat, kind: Kind) | Release(k: nat)

  function Step(s: State, op: Op): (r: State)
    requires s.m.Sized()
    ensures r.m.Sized()
  {
    match op
    case Allocate(size, kind) =>
      var i := FindRun(s.m.regions, Blocks(size));
      if i == -1 then s
      else State(Reserve(s.m, i * PAGE, i * PAGE, Blocks(size), kind), s.live + [Block(i, Blocks(size))])
    case Release(k) =>
      if k >= |s.live| then s
      else State(Free(s.m, s.live[k].idx * PAGE, s.live[k].n), s.live[..k] + s.live[k + 1..])
  }

  function Run(s: State, ops: seq<Op>): (r: State)
    requires s.m.Sized()
    ensures r.m.Sized()
    decreases |ops|
  {
    if ops == [] then s else Run(Step(s, ops[0]), ops[1..])
  }

  // ---- Agreement of the two tables

  predicate Maps(page: nat, b: nat) { page != 0 && page / PAGE == b }

  /** No other region claims the virtual address of `b`, and no other page maps its frame. */
  predicate Private(m: Tables, b: nat)
    requires m.Sized()
  {
    forall i :: 0 <= i < COUNT && i != b ==> m.regions[i].virtual != b * PAGE && !Maps(m.pages[i], b)
  }

  predicate Reserved(m: Tables, b: nat)
    requires m.Sized() && b < COUNT
  {
    && m.regions[b].present && !m.regions[b].available
    && m.regions[b].physical == m.regions[b].virtual == b * PAGE
    && Maps(m.pages[b], b)
  }

  predicate Unused(m: Tables, b: nat)
    requires m.Sized() && b < COUNT
  {
    m.regions[b].Usable() && m.pages[b] == 0
  }

  predicate Holds(live: seq<Block>, b: nat) { exists k :: 0 <= k < |live| && live[k].Has(b) }

  predicate Disjoint(live: seq<Block>) { forall k, l :: 0 <= k < l < |live| ==> live[k].Apart(live[l]) }

  predicate Inv(s: State) {
    && s.m.Sized() && Disjoint(s.live)
    && (forall k :: 0 <= k < |s.live| ==> s.live[k].n > 0 && s.live[k].idx + s.live[k].n <= COUNT)
    && (forall b :: 0 <= b < COUNT && Holds(s.live, b) ==> Reserved(s.m, b) && Private(s.m, b))
    && (forall b :: 0 <= b < COUNT && s.m.regions[b].Usable() ==> Unused(s.m, b) && Private(s.m, b))
  }

  // ---- What reserving and freeing a run do

  /** Reserving leads every address of the virtual page to the same place of the physical block. */
  lemma ReserveMaps(m: Tables, physical: nat, virtual: nat, kind: Kind, offset: nat)
    requires m.Sized() && physical < WORD && virtual < WORD && offset < PAGE
    ensures var r := ReserveOne(m, physical, virtual, kind);
            && virtual / PAGE * PAGE + offset < WORD
            && Physical(r.pages, virtual / PAGE * PAGE + offset) == physical / PAGE * PAGE + offset
            && r.regions[physical / PAGE].virtual == virtual / PAGE * PAGE && !r.regions[physical / PAGE].Usable()
  {
    var at := virtual / PAGE * PAGE + offset;
    assert at / PAGE == virtual / PAGE && at % PAGE == offset;
    assert (physical / PAGE * PAGE + Flag(kind)) / PAGE == physical / PAGE;
  }

  lemma BlockAddress(idx: nat, i: nat)
    requires idx + i < COUNT
    ensures (idx * PAGE + i * PAGE) % WORD == (idx + i) * PAGE < WORD
    ensures (idx + i) * PAGE / PAGE == idx + i && Aligned((idx + i) * PAGE) == (idx + i) * PAGE
  {
  }

  lemma ReserveBlock(m: Tables, b: nat, kind: Kind)
    requires m.Sized() && b < COUNT
    ensures b * PAGE < WORD
    ensures ReserveOne(m, b * PAGE, b * PAGE, kind)
         == Tables(m.regions[b := Region(true, false, kind, b * PAGE, b * PAGE)], m.pages[b := b * PAGE + Flag(kind)])
    ensures EntryFor(b * PAGE + Flag(kind), b, kind)
  {
    BlockAddress(b, 0);
  }

  lemma FreeBlock(m: Tables, b: nat)
    requires m.Sized() && b < COUNT && m.regions[b].virtual == b * PAGE
    requires forall i :: 0 <= i < b ==> m.regions[i].virtual != b * PAGE
    ensures b * PAGE < WORD
    ensures FreeOne(m, b * PAGE)
         == Tables(m.regions[b := m.regions[b].(present := true, available := true)], m.pages[b := 0])
  {
    BlockAddress(b, 0);
    var i := FirstAt(m.regions, b * PAGE);
    assert i == b;
  }

  /** Frame `b`, present, writable, of 4 MiB, and not cached if it belongs to the frame buffer. */
  predicate EntryFor(page: nat, b: nat, kind: Kind) {
    && page / PAGE == b
    && page % PAGE == PRESENT + WRITABLE + LARGE + (if kind == Framebuffer then UNCACHED else 0)
  }

  const PRESENT: nat := 0x01
  const WRITABLE: nat := 0x02
  const UNCACHED: nat := 0x10
  const LARGE: nat := 0x80

  ghost predicate ReservedIn(m: Tables, r: Tables, run: Block, kind: Kind)
    requires m.Sized() && r.Sized()
  {
    forall b :: 0 <= b < COUNT ==>
      (&& r.regions[b] == (if run.Has(b) then Region(true, false, kind, b * PAGE, b * PAGE) else m.regions[b])
       && (if run.Has(b) then EntryFor(r.pages[b], b, kind) else r.pages[b] == m.pages[b]))
  }

  ghost predicate FreedIn(m: Tables, r: Tables, run: Block)
    requires m.Sized() && r.Sized()
  {
    forall b :: 0 <= b < COUNT ==>
      (&& r.regions[b] == (if run.Has(b) then m.regions[b].(present := true, available := true) else m.regions[b])
       && r.pages[b] == (if run.Has(b) then 0 else m.pages[b]))
  }

  /** Reserving at identical addresses changes exactly the entries of the run, in both tables. */
  lemma {:induction false} ReserveRun(m: Tables, idx: nat, n: nat, kind: Kind)
    requires m.Sized() && idx + n <= COUNT
    ensures ReservedIn(m, Reserve(m, idx * PAGE, idx * PAGE, n, kind), Block(idx, n), kind)
  {
    hide ReserveOne, Flag, EntryFor;
    if n > 0 {
      ReserveRun(m, idx, n - 1, kind);
      BlockAddress(idx, n - 1);
      ReserveBlock(Reserve(m, idx * PAGE, idx * PAGE, n - 1, kind), idx + n - 1, kind);
    }
  }

  /** Freeing a run whose virtual addresses nobody else claims changes exactly its entries. */
  lemma {:induction false} FreeRun(m: Tables, idx: nat, n: nat)
    requires m.Sized() && idx + n <= COUNT
    requires forall b :: idx <= b < idx + n ==> m.regions[b].virtual == b * PAGE && Private(m, b)
    ensures FreedIn(m, Free(m, idx * PAGE, n), Block(idx, n))
  {
    hide FreeOne;
    if n > 0 {
      FreeRun(m, idx, n - 1);
      BlockAddress(idx, n - 1);
      var r, b := Free(m, idx * PAGE, n - 1), idx + n - 1;
      assert Private(m, b) && r.regions[b] == m.regions[b];
      forall i | 0 <= i < b ensures r.regions[i].virtual != b * PAGE {
        assert r.regions[i].virtual == m.regions[i].virtual;
      }
      FreeBlock(r, b);
    }
  }

  // ---- Runs

  /** From block `i` on there are enough usable blocks for `size` bytes. */
  ghost predicate RoomAt(regions: seq<Region>, i: nat, size: nat) {
    exists n: nat :: size <= n * PAGE && RunAt(regions, i, n)
  }

  lemma BlocksCover(size: nat, n: nat)
    ensures size <= Blocks(size) * PAGE < size + PAGE
    ensures size <= n * PAGE <==> Blocks(size) <= n
  {
  }

  lemma RoomIsRun(regions: seq<Region>, i: nat, size: nat)
    ensures RoomAt(regions, i, size) <==> RunAt(regions, i, Blocks(size))
  {
    hide Blocks;
    BlocksCover(size, 0);
    if RoomAt(regions, i, size) {
      var n: nat :| size <= n * PAGE && RunAt(regions, i, n);
      BlocksCover(size, n);
    }
  }

  /** The search for `size` bytes finds the least place with room for them, exactly when there is one. */
  lemma FindsRoom(regions: seq<Region>, size: nat)
    ensures var i := FindRun(regions, Blocks(size));
            && (i == -1 <==> size == 0 || forall k: nat :: !RoomAt(regions, k, size))
            && (i != -1 ==> RoomAt(regions, i, size) && forall k: nat :: k < i ==> !RoomAt(regions, k, size))
  {
    hide Blocks, FindRun, RunAt, RoomAt;
    BlocksCover(size, 0);
    forall k: nat ensures RoomAt(regions, k, size) <==> RunAt(regions, k, Blocks(size)) { RoomIsRun(regions, k, size); }
  }

  /** An allocation takes the least place with room for its bytes, in no more blocks than they need,
      disjoint from every live one; it fails exactly when nothing was asked for or there is no room. */
  lemma AllocateTakesLeast(s: State, size: nat, kind: Kind)
    requires Inv(s)
    ensures var r := Step(s, Allocate(size, kind));
            && Inv(r)
            && (r == s <==> size == 0 || forall i: nat :: !RoomAt(s.m.regions, i, size))
            && (r != s ==>
                && |r.live| == |s.live| + 1 && r.live[..|s.live|] == s.live
                && var b := r.live[|s.live|];
                && size <= b.n * PAGE < size + PAGE && RunAt(s.m.regions, b.idx, b.n) && ReservedIn(s.m, r.m, b, kind)
                && (forall i: nat :: i < b.idx ==> !RoomAt(s.m.regions, i, size))
                && (forall k :: 0 <= k < |s.live| ==> s.live[k].Apart(b)))
  {
    hide Reserve, Inv, Blocks, RoomAt;
    InvSized(s);
    BlocksCover(size, 0);
    FindsRoom(s.m.regions, size);
    var n, i := Blocks(size), FindRun(s.m.regions, Blocks(size));
    if i != -1 {
      ReserveRun(s.m, i, n, kind);
      InvReserved(s, Reserve(s.m, i * PAGE, i * PAGE, n, kind), Block(i, n), kind);
    }
  }

  lemma InvSized(s: State)
    requires Inv(s)
    ensures s.m.Sized()
  {
  }

  lemma InvReserved(s: State, m: Tables, run: Block, kind: Kind)
    requires Inv(s) && m.Sized() && run.n > 0 && RunAt(s.m.regions, run.idx, run.n) && ReservedIn(s.m, m, run, kind)
    ensures Inv(State(m, s.live + [run]))
    ensures forall k :: 0 <= k < |s.live| ==> s.live[k].Apart(run)
  {
    hide Private, Reserved, Unused;
    var live := s.live + [run];
    forall k | 0 <= k < |s.live| ensures s.live[k].Apart(run) {
      LiveIsApart(s, k, run);
    }
    forall b | 0 <= b < COUNT && Holds(live, b) ensures Reserved(m, b) && Private(m, b) {
      var k :| 0 <= k < |live| && live[k].Has(b);
      if k < |s.live| { assert Holds(s.live, b) && s.live[k].Apart(run); }
      StaysPrivate(s, m, run, kind, b);
    }
    forall b | 0 <= b < COUNT && m.regions[b].Usable() ensures Unused(m, b) && Private(m, b) {
      StaysPrivate(s, m, run, kind, b);
    }
  }

  /** Live blocks are not usable, so a run of usable blocks lies apart from them. */
  lemma LiveIsApart(s: State, k: nat, run: Block)
    requires Inv(s) && k < |s.live| && run.n > 0 && RunAt(s.m.regions, run.idx, run.n)
    ensures s.live[k].Apart(run)
  {
    hide Private;
    var l := s.live[k];
    var b := if l.idx < run.idx then run.idx else l.idx;
    assert l.Has(b) ==> Holds(s.live, b);
    assert run.Has(b) ==> s.m.regions[b].Usable();
  }

  lemma StaysPrivate(s: State, m: Tables, run: Block, kind: Kind, b: nat)
    requires Inv(s) && m.Sized() && RunAt(s.m.regions, run.idx, run.n) && ReservedIn(s.m, m, run, kind) && b < COUNT
    requires run.Has(b) || Holds(s.live, b) || m.regions[b].Usable()
    ensures Private(m, b)
    ensures run.Has(b) ==> Reserved(m, b)
    ensures !run.Has(b) && Holds(s.live, b) ==> Reserved(m, b)
    ensures m.regions[b].Usable() ==> !run.Has(b) && Unused(m, b)
  {
    hide Holds, RunAt;
    assert s.m.regions[b].Usable() || Holds(s.live, b) by {
      if run.Has(b) { UsableIn(s.m.regions, run, b); }
    }
    assert Private(s.m, b);
    forall i | 0 <= i < COUNT && i != b
      ensures m.regions[i].virtual != b * PAGE && !Maps(m.pages[i], b)
    {
    }
  }

  lemma UsableIn(regions: seq<Region>, run: Block, b: nat)
    requires RunAt(regions, run.idx, run.n) && run.Has(b)
    ensures regions[b].Usable()
  {
  }

  /** Releasing frees and unmaps exactly the blocks of that allocation. */
  lemma ReleaseFreesExactly(s: State, k: nat)
    requires Inv(s) && k < |s.live|
    ensures var r := Step(s, Release(k));
            Inv(r) && FreedIn(s.m, r.m, s.live[k]) && r.live == s.live[..k] + s.live[k + 1..]
    ensures forall b :: 0 <= b < COUNT && s.live[k].Has(b) ==> Unused(Step(s, Release(k)).m, b)
  {
    hide Free, Private, Maps;
    var l := s.live[k];
    forall b | l.idx <= b < l.idx + l.n ensures s.m.regions[b].virtual == b * PAGE && Private(s.m, b) {
      assert Holds(s.live, b) && Reserved(s.m, b);
    }
    FreeRun(s.m, l.idx, l.n);
    InvFreed(s, Free(s.m, l.idx * PAGE, l.n), k);
  }

  /** A block that another allocation holds is none of allocation `k`. */
  lemma StillHeld(live: seq<Block>, k: nat, b: nat)
    requires Disjoint(live) && k < |live| && Holds(live[..k] + live[k + 1..], b)
    ensures Holds(live, b) && !live[k].Has(b)
  {
    var rest := live[..k] + live[k + 1..];
    var j :| 0 <= j < |rest| && rest[j].Has(b);
    if j < k {
      assert rest[j] == live[j] && live[j].Apart(live[k]);
    } else {
      assert rest[j] == live[j + 1] && live[k].Apart(live[j + 1]);
    }
  }

  lemma InvFreed(s: State, m: Tables, k: nat)
    requires Inv(s) && k < |s.live| && m.Sized() && FreedIn(s.m, m, s.live[k])
    ensures Inv(State(m, s.live[..k] + s.live[k + 1..]))
  {
    hide Private, Reserved, Unused;
    var live, l := s.live[..k] + s.live[k + 1..], s.live[k];
    forall b | 0 <= b < COUNT && Holds(live, b) ensures Reserved(m, b) && Private(m, b) {
      StillHeld(s.live, k, b);
      FreedStays(s, m, l, b);
    }
    forall b | 0 <= b < COUNT && m.regions[b].Usable() ensures Unused(m, b) && Private(m, b) {
      if l.Has(b) { assert Holds(s.live, b); }
      FreedStays(s, m, l, b);
    }
  }

  lemma FreedStays(s: State, m: Tables, l: Block, b: nat)
    requires Inv(s) && m.Sized() && FreedIn(s.m, m, l) && b < COUNT
    requires Holds(s.live, b) || s.m.regions[b].Usable()
    ensures Private(m, b)
    ensures !l.Has(b) && Holds(s.live, b) ==> Reserved(m, b)
    ensures m.regions[b].Usable() ==> Unused(m, b)
  {
    hide Holds;
    assert Private(s.m, b);
    forall i | 0 <= i < COUNT && i != b
      ensures m.regions[i].virtual != b * PAGE && !Maps(m.pages[i], b)
    {
    }
  }

  lemma {:induction false} AgreeAlways(s: State, ops: seq<Op>)
    requires Inv(s)
    ensures Inv(Run(s, ops))
    decreases |ops|
  {
    hide Inv, Step;
    InvSized(s);
    if ops != [] {
      InvStep(s, ops[0]);
      AgreeAlways(Step(s, ops[0]), ops[1..]);
    }
  }

  lemma InvStep(s: State, op: Op)
    requires Inv(s)
    ensures Inv(Step(s, op))
  {
    match op
    case Allocate(size, kind) => AllocateTakesLeast(s, size, kind);
    case Release(k) => if k < |s.live| { ReleaseFreesExactly(s, k); }
  }

  /** After any run, the live allocations are disjoint, each address inside one is mapped to itself,
      and no other address reaches its memory. */
  lemma LiveIsMapped(s: State, ops: seq<Op>, k: nat, address: nat)
    requires Inv(s) && address < WORD
    ensures var r := Run(s, ops);
            && Disjoint(r.live)
            && (k < |r.live| && r.live[k].Has(address / PAGE) ==>
                  && Physical(r.m.pages, address) == address
                  && r.m.pages[address / PAGE] / PAGE == address / PAGE
                  && forall i :: 0 <= i < COUNT && i != address / PAGE ==> !Maps(r.m.pages[i], address / PAGE))
  {
    hide Run;
    AgreeAlways(s, ops);
    var r := Run(s, ops);
    if k < |r.live| && r.live[k].Has(address / PAGE) {
      assert Holds(r.live, address / PAGE);
    }
  }

  /** No step of the run releases allocation `b`. */
  ghost predicate NotReleased(s: State, ops: seq<Op>, b: Block)
    requires s.m.Sized()
    decreases |ops|
  {
    ops != [] ==>
      (&& (ops[0].Release? && ops[0].k < |s.live| ==> s.live[ops[0].k] != b)
       && NotReleased(Step(s, ops[0]), ops[1..], b))
  }

  lemma {:induction false} StaysLive(s: State, ops: seq<Op>, b: Block)
    requires Inv(s) && b in s.live && NotReleased(s, ops, b)
    ensures Inv(Run(s, ops)) && b in Run(s, ops).live
    decreases |ops|
  {
    hide Inv, Step;
    InvSized(s);
    if ops != [] {
      InvStep(s, ops[0]);
      StepKeeps(s, ops[0], b);
      StaysLive(Step(s, ops[0]), ops[1..], b);
    }
  }

  lemma StepKeeps(s: State, op: Op, b: Block)
    requires s.m.Sized() && b in s.live && (op.Release? && op.k < |s.live| ==> s.live[op.k] != b)
    ensures b in Step(s, op).live
  {
    hide Reserve, Free;
    if op.Release? && op.k < |s.live| { OthersStay(s.live, op.k, b); }
  }

  lemma OthersStay(live: seq<Block>, k: nat, b: Block)
    requires k < |live| && b in live && live[k] != b
    ensures b in live[..k] + live[k + 1..]
  {
    var i :| 0 <= i < |live| && live[i] == b;
    assert (live[..k] + live[k + 1..])[if i < k then i else i - 1] == b;
  }

  /** Each of the bytes asked for can be used until the allocation is released: over every run its address
      leads to the memory of that address, no other page does, and no other allocation has its block. */
  lemma AllocationLasts(s: State, size: nat, kind: Kind, ops: seq<Op>, offset: nat)
    requires Inv(s) && Step(s, Allocate(size, kind)) != s && offset < size
    requires var r := Step(s, Allocate(size, kind)); |r.live| > |s.live| && NotReleased(r, ops, r.live[|s.live|])
    ensures var r := Step(s, Allocate(size, kind));
            var b, end := r.live[|s.live|], Run(r, ops);
            var address, page := b.idx * PAGE + offset, (b.idx * PAGE + offset) / PAGE;
            && b in end.live && address < WORD && b.Has(page)
            && Physical(end.m.pages, address) == address && end.m.pages[page] / PAGE == page
            && (forall i :: 0 <= i < COUNT && i != page ==> !Maps(end.m.pages[i], page))
            && (forall other :: other in end.live && other != b ==> !other.Has(page))
  {
    hide Step, Run, Inv, NotReleased, Private, ReservedIn, RoomAt;
    InvSized(s);
    AllocateTakesLeast(s, size, kind);
    var r := Step(s, Allocate(size, kind));
    var b := r.live[|s.live|];
    StaysLive(r, ops, b);
    ByteInside(b, Run(r, ops), size, offset);
    var k :| 0 <= k < |Run(r, ops).live| && Run(r, ops).live[k] == b;
    LiveIsMapped(r, ops, k, b.idx * PAGE + offset);
  }

  lemma ByteInside(b: Block, end: State, size: nat, offset: nat)
    requires Inv(end) && b in end.live && offset < size <= b.n * PAGE
    ensures var address := b.idx * PAGE + offset;
            && address < WORD && b.Has(address / PAGE)
            && forall other :: other in end.live && other != b ==> !other.Has(address / PAGE)
  {
    hide Reserved, Private, Unused, Holds;
    var page := (b.idx * PAGE + offset) / PAGE;
    assert b.Has(page);
    forall other | other in end.live && other != b ensures !other.Has(page) {
      var i :| 0 <= i < |end.live| && end.live[i] == b;
      var j :| 0 <= j < |end.live| && end.live[j] == other;
      assert if i < j then b.Apart(other) else other.Apart(b);
    }
  }

  /** Allocating and releasing leaves the same blocks usable and the page directory as it was. */
  lemma AllocateReleaseRestores(s: State, size: nat, kind: Kind)
    requires Inv(s) && Step(s, Allocate(size, kind)) != s
    ensures var r := Step(Step(s, Allocate(size, kind)), Release(|s.live|));
            && r.live == s.live && r.m.pages == s.m.pages
            && forall b :: 0 <= b < COUNT ==> r.m.regions[b].Usable() == s.m.regions[b].Usable()
  {
    hide Step, Private, Holds;
    AllocateTakesLeast(s, size, kind);
    var t := Step(s, Allocate(size, kind));
    ReleaseFreesExactly(t, |s.live|);
    var r, l := Step(t, Release(|s.live|)), t.live[|s.live|];
    assert t.live == s.live + [l];
    forall b | 0 <= b < COUNT
      ensures r.m.pages[b] == s.m.pages[b] && r.m.regions[b].Usable() == s.m.regions[b].Usable()
    {
      if l.Has(b) { UsableIn(s.m.regions, l, b); }
    }
  }

  // ---- The tables at boot

  const NO_ADDRESS: nat := 0x68

  /** get_virtual: the first page whose frame is the given address, mapped or not; none for an address
      inside a frame. */
  function Virtual(pages: seq<nat>, address: nat, from: nat := 0): (v: nat)
    requires |pages| == COUNT && from <= COUNT
    ensures v == NO_ADDRESS
         || exists i :: from <= i < COUNT && Aligned(pages[i]) == address && v == i * PAGE + address % PAGE
    decreases COUNT - from
  {
    if from == COUNT then NO_ADDRESS
    else if Aligned(pages[from]) == address then from * PAGE + address % PAGE
    else Virtual(pages, address, from + 1)
  }

  /** The last of the first `n` pages that maps frame `b`, or -1. */
  function LastMap(pages: seq<nat>, n: nat, b: nat): (i: int)
    requires n <= |pages|
    ensures -1 <= i < n && (i >= 0 ==> Maps(pages[i], b))
    ensures forall j :: i < j < n ==> !Maps(pages[j], b)
  {
    if n == 0 then -1 else if Maps(pages[n - 1], b) then n - 1 else LastMap(pages, n - 1, b)
  }

  const KERNEL_REGIONS: nat := 3
  const FIRST_ABSENT: nat := 0x300

  /** MEM_populateRegions, one region: the memory map, overridden by what the first `n` pages map.
      The table starts zeroed. */
  function BootRegion(pages: seq<nat>, n: nat, b: nat): Region
    requires |pages| == COUNT && n <= COUNT
  {
    var i := LastMap(pages, n, b);
    if i >= 0 then Region(true, false, Kernel, b * PAGE, i * PAGE)
    else if b < KERNEL_REGIONS then Region(true, false, Kernel, b * PAGE, Virtual(pages, b * PAGE))
    else if b < FIRST_ABSENT then Region(true, true, Available, b * PAGE, Virtual(pages, b * PAGE))
    else Region(false, false, Unset, 0, 0)
  }

  function Boot(pages: seq<nat>): (m: Tables)
    requires |pages| == COUNT
    ensures m.Sized()
  {
    Tables(seq(COUNT, b requires 0 <= b < COUNT => BootRegion(pages, COUNT, b)), pages)
  }

  /** Frame `b` is not handed out; or slot `b` is empty and is not what get_virtual answers for
      frame 0, which it does for an empty slot when no page maps that frame. */
  predicate BootClear(pages: seq<nat>, b: nat)
    requires |pages| == COUNT && b < COUNT
  {
    LastMap(pages, COUNT, b) >= 0 || (pages[b] == 0 && (LastMap(pages, COUNT, 0) >= 0 || Virtual(pages, 0) != b * PAGE))
  }

  /** Exactly when the tables agree at boot. */
  lemma BootAgrees(pages: seq<nat>)
    requires |pages| == COUNT
    ensures Inv(State(Boot(pages), []))
       <==> forall b :: KERNEL_REGIONS <= b < FIRST_ABSENT ==> BootClear(pages, b)
  {
    hide Virtual, LastMap;
    var m := Boot(pages);
    if forall b :: KERNEL_REGIONS <= b < FIRST_ABSENT ==> BootClear(pages, b) {
      forall b | 0 <= b < COUNT && m.regions[b].Usable() ensures Unused(m, b) && Private(m, b) {
        assert BootClear(pages, b);
        BootPrivate(pages, b);
      }
    } else {
      var b :| KERNEL_REGIONS <= b < FIRST_ABSENT && !BootClear(pages, b);
      assert m.regions[b].Usable();
      assert pages[b] == 0 ==> m.regions[0].virtual == b * PAGE;
    }
  }

  /** A page directory with one page, in slot `k`, that maps frame 0. */
  function OnePage(k: nat): (pages: seq<nat>)
    ensures |pages| == COUNT
  {
    seq(COUNT, i requires 0 <= i < COUNT => if i == k then 0x83 else 0)
  }

  /** With frame 0 mapped through the slot of a frame that is handed out, the tables do not agree. */
  lemma BootDisagrees(k: nat)
    requires KERNEL_REGIONS <= k < FIRST_ABSENT
    ensures !Inv(State(Boot(OnePage(k)), []))
  {
    hide LastMap;
    assert !BootClear(OnePage(k), k);
    BootAgrees(OnePage(k));
  }

  lemma BootPrivate(pages: seq<nat>, b: nat)
    requires |pages| == COUNT && KERNEL_REGIONS <= b < FIRST_ABSENT
    requires BootClear(pages, b) && LastMap(pages, COUNT, b) == -1
    ensures Private(Boot(pages), b)
  {
    hide Virtual, LastMap, Maps;
    var m := Boot(pages);
    forall i | 0 <= i < COUNT && i != b ensures m.regions[i].virtual != b * PAGE && !Maps(m.pages[i], b) {
      assert !Maps(pages[b], i) by { EmptyMapsNothing(i); }
      if i > 0 && LastMap(pages, COUNT, i) < 0 { VirtualUnmapped(pages, i); }
    }
  }

  lemma EmptyMapsNothing(i: nat)
    ensures !Maps(0, i)
  {
  }

  /** For an aligned address that some page has, get_virtual finds one that get_physical leads back. */
  lemma VirtualLeadsBack(pages: seq<nat>, b: nat, i: nat)
    requires |pages| == COUNT && i < COUNT && b < COUNT && Aligned(pages[i]) == b * PAGE
    ensures Virtual(pages, b * PAGE) < WORD && Physical(pages, Virtual(pages, b * PAGE)) == b * PAGE
  {
    hide Virtual;
    VirtualFound(pages, b, 0, i);
  }

  lemma {:induction false} VirtualFound(pages: seq<nat>, b: nat, from: nat, i: nat)
    requires |pages| == COUNT && from <= i < COUNT && b < COUNT && Aligned(pages[i]) == b * PAGE
    ensures exists j :: 0 <= j < COUNT && Aligned(pages[j]) == b * PAGE && Virtual(pages, b * PAGE, from) == j * PAGE
    decreases i - from
  {
    if Aligned(pages[from]) != b * PAGE { VirtualFound(pages, b, from + 1, i); }
  }

  /** get_virtual finds no address for a frame other than 0 that no page maps. */
  lemma VirtualUnmapped(pages: seq<nat>, b: nat)
    requires |pages| == COUNT && b > 0 && LastMap(pages, COUNT, b) == -1
    ensures Virtual(pages, b * PAGE) == NO_ADDRESS
  {
    hide Virtual, LastMap;
    forall j | 0 <= j < COUNT ensures Aligned(pages[j]) != b * PAGE {
      assert !Maps(pages[j], b);
    }
  }
}
