/** The region table and the page directory as the code changes them, proved against Memory. */
module MemoryTable {
  import opened Memory

  class MemoryManager {
    const regions: array<Region>
    const pages: array<nat>

    ghost predicate Shape()
      reads this
    {
      regions.Length == COUNT && pages.Length == COUNT
    }

    ghost function View(): (m: Tables)
      requires Shape()
      reads this, regions, pages
      ensures m.Sized()
    {
      Tables(regions[..], pages[..])
    }

    /** `MEM_reserveRegion`. */
    method ReserveRegion(physical: nat, virtual: nat, kind: Kind)
      requires Shape() && physical < WORD && virtual < WORD
      modifies regions, pages
      ensures View() == ReserveOne(old(View()), physical, virtual, kind)
    {
      var aligned := Aligned(physical);
      var idx := aligned / PAGE;
      regions[idx] := Region(true, false, kind, aligned, Aligned(virtual));
      pages[virtual / PAGE] := aligned + Flag(kind);
    }

    /** `MEM_reserveRegionBlock`; a base of 0 asks for identical addresses. */
    method ReserveRegionBlock(idx: int, size: nat, base: nat, kind: Kind) returns (start: nat)
      requires Shape() && base < WORD
      modifies regions, pages
      ensures start == idx * PAGE % WORD
      ensures View() == Reserve(old(View()), start, if base == 0 then start else base, Blocks(size), kind)
    {
      start := idx * PAGE % WORD;
      var virtual: nat := if base == 0 then start else base;
      var i: nat := 0;
      while i < Blocks(size)
        invariant i <= Blocks(size)
        invariant View() == Reserve(old(View()), start, virtual, i, kind)
      {
        hide ReserveOne;
        ReserveRegion((start + i * PAGE) % WORD, (virtual + i * PAGE) % WORD, kind);
        i := i + 1;
      }
    }

    /** `MEM_freeRegion`: only the first region that carries the address. */
    method FreeRegion(virtual: nat)
      requires Shape() && virtual < WORD
      modifies regions, pages
      ensures View() == FreeOne(old(View()), virtual)
    {
      var i: nat := 0;
      while i < COUNT && regions[i].virtual != Aligned(virtual)
        invariant i <= COUNT && FirstAt(regions[..], Aligned(virtual)) == FirstAt(regions[..], Aligned(virtual), i)
      {
        i := i + 1;
      }
      if i < COUNT {
        regions[i] := regions[i].(present := true, available := true);
        pages[virtual / PAGE] := 0;
      }
    }

    /** `MEM_freeRegionBlock`. */
    method FreeRegionBlock(virtual: nat, size: nat)
      requires Shape() && virtual < WORD
      modifies regions, pages
      ensures View() == Free(old(View()), virtual, Blocks(size))
    {
      var i: nat := 0;
      while i < Blocks(size)
        invariant i <= Blocks(size) && View() == Free(old(View()), virtual, i)
      {
        hide FreeOne;
        FreeRegion((virtual + i * PAGE) % WORD);
        i := i + 1;
      }
    }

    /** `get_virtual`. */
    method GetVirtual(address: nat) returns (v: nat)
      requires Shape() && address < WORD
      ensures v == Virtual(pages[..], address)
    {
      var i: nat := 0;
      while i < COUNT
        invariant i <= COUNT && Virtual(pages[..], address) == Virtual(pages[..], address, i)
      {
        if Aligned(pages[i]) == address { return i * PAGE + address % PAGE; }
        i := i + 1;
      }
      return NO_ADDRESS;
    }

    /** `MEM_populateRegions`, on a zeroed table. */
    method PopulateRegions()
      requires Shape() && forall b :: FIRST_ABSENT <= b < COUNT ==> regions[b] == Region(false, false, Unset, 0, 0)
      modifies regions
      ensures View() == Boot(pages[..])
    {
      hide Virtual, LastMap, Maps;
      var b: nat := 0;
      while b < FIRST_ABSENT
        invariant b <= FIRST_ABSENT
        invariant forall j :: 0 <= j < b || FIRST_ABSENT <= j < COUNT ==> regions[j] == BootRegion(pages[..], 0, j)
      {
        var v := GetVirtual(b * PAGE);
        regions[b] := if b < KERNEL_REGIONS then Region(true, false, Kernel, b * PAGE, v)
                      else Region(true, true, Available, b * PAGE, v);
        NoMapYet(pages[..], b);
        b := b + 1;
      }
      var i: nat := 0;
      while i < COUNT
        invariant i <= COUNT && forall j :: 0 <= j < COUNT ==> regions[j] == BootRegion(pages[..], i, j)
      {
        NextMap(pages[..], i);
        if pages[i] != 0 && pages[i] / PAGE < COUNT {
          var frame := pages[i] / PAGE;
          regions[frame] := Region(true, false, Kernel, frame * PAGE, i * PAGE);
        }
        i := i + 1;
      }
    }

    /** `MEM_findRegionIdx`. */
    method FindRegionIdx(size: nat) returns (idx: int)
      requires Shape()
      ensures idx == FindRun(regions[..], Blocks(size))
      ensures idx == -1 <==> size == 0 || forall k: nat :: !RoomAt(regions[..], k, size)
      ensures idx != -1 ==> RoomAt(regions[..], idx, size) && forall k: nat :: k < idx ==> !RoomAt(regions[..], k, size)
    {
      FindsRoom(regions[..], size);
      hide RoomAt;
      var needed := Blocks(size);
      var start: int, length: int := -1, -1;
      var i: nat := 0;
      while i < COUNT
        invariant i <= COUNT
        invariant start == -1 || (0 <= start && 0 < length == i - start && RunAt(regions[..], start, length))
        invariant needed > 0 && start != -1 ==> length < needed
        invariant start > 0 ==> !regions[start - 1].Usable()
        invariant start == -1 && i > 0 ==> !regions[i - 1].Usable()
        invariant needed > 0 ==> NoneUpTo(regions[..], needed, if start == -1 then i else start)
      {
        if !regions[i].available || !regions[i].present {
          BrokenBy(regions[..], needed, if start == -1 then i else start, i);
          start, length := -1, -1;
        } else {
          if start == -1 { start, length := i, 0; }
          length := length + 1;
          if length == needed {
            FoundAt(regions[..], needed, start);
            return start;
          }
        }
        i := i + 1;
      }
      NoneLeft(regions[..], needed, if start == -1 then i else start);
      return -1;
    }
  }

  lemma NoMapYet(pages: seq<nat>, b: nat)
    ensures LastMap(pages, 0, b) == -1
  {
  }

  lemma NextMap(pages: seq<nat>, i: nat)
    requires |pages| == COUNT && i < COUNT
    ensures forall b: nat :: b < COUNT ==>
              BootRegion(pages, i + 1, b) ==
                if pages[i] != 0 && pages[i] / PAGE == b then Region(true, false, Kernel, b * PAGE, i * PAGE)
                else BootRegion(pages, i, b)
  {
    hide Virtual;
    forall b: nat | b < COUNT
      ensures LastMap(pages, i + 1, b) == if Maps(pages[i], b) then i else LastMap(pages, i, b)
    {
    }
  }

  /** No run of `n` starts below `i`. */
  ghost predicate NoneUpTo(regions: seq<Region>, n: nat, i: nat) {
    forall j :: 0 <= j < i ==> !RunAt(regions, j, n)
  }

  /** A region that is not usable rules out every run that would contain it. */
  lemma BrokenBy(regions: seq<Region>, n: nat, start: nat, i: nat)
    requires start <= i < |regions| && !regions[i].Usable() && (n > 0 ==> NoneUpTo(regions, n, start) && i - start < n)
    ensures n > 0 ==> NoneUpTo(regions, n, i + 1)
  {
  }

  lemma FoundAt(regions: seq<Region>, n: nat, start: nat)
    requires n > 0 && NoneUpTo(regions, n, start) && RunAt(regions, start, n)
    ensures FindRun(regions, n) == start
  {
    var r := FindRun(regions, n);
    assert r != -1;
  }

  lemma NoneLeft(regions: seq<Region>, n: nat, start: nat)
    requires start <= |regions| && (n > 0 ==> NoneUpTo(regions, n, start) && |regions| - start < n)
    ensures FindRun(regions, n) == -1
  {
    var r := FindRun(regions, n);
  }
}
