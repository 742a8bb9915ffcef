/** `mmap`, `munmap` and `is_mapped` of `vmm.cpp` on the page tables and the page allocator. */
module VirtualMemory {
  import opened Arithmetic
  import opened Options
  import opened PageAllocator
  import opened PageTables

  const TWO_63: nat := 0x8000_0000_0000_0000

  type Word = w: nat | w < TWO_64

  // ---------------------------------------------------------------------------------------- addresses

  /** va_to_pa. */
  function ToPhysical(va: nat): nat { if va < HIGHER_HALF then va else va - HIGHER_HALF }

  /** The direct map can be undone exactly below 2^47. */
  lemma DirectMapRoundTrip(pa: Word)
    ensures ToPhysical(ToVirtual(pa)) == pa <==> pa < TWO_64 - HIGHER_HALF
  {
  }

  function Pml4Index(va: Word): nat { va / 0x80_0000_0000 % 512 }
  function PdptIndex(va: Word): nat { va / 0x4000_0000 % 512 }
  function PdIndex(va: Word): nat { va / 0x20_0000 % 512 }
  function PtIndex(va: Word): nat { va / 0x1000 % 512 }

  /** The number of the page of a 48-bit address. */
  function PageOf(va: Word): (v: nat)
    ensures v < VIRTUAL_PAGES
  {
    va / 0x1000 % VIRTUAL_PAGES
  }

  /** The four fields of an address are the four indices of its page. */
  lemma Indices(va: Word)
    ensures Pml4Index(va) == Index(4, PageOf(va)) && PdptIndex(va) == Index(3, PageOf(va))
    ensures PdIndex(va) == Index(2, PageOf(va)) && PtIndex(va) == Index(1, PageOf(va))
  {
    var q := va / 0x1000;
    assert va / 0x80_0000_0000 == q / 0x800_0000 && va / 0x4000_0000 == q / 0x4_0000 && va / 0x20_0000 == q / 512;
    Fields(q);
  }

  lemma ModPlus(x: nat, h: nat)
    ensures (512 * h + x) % 512 == x % 512
  {
  }

  lemma Fields(q: nat)
    ensures q / 0x800_0000 % 512 == (q % VIRTUAL_PAGES) / 0x800_0000 % 512
    ensures q / 0x4_0000 % 512 == (q % VIRTUAL_PAGES) / 0x4_0000 % 512
    ensures q / 512 % 512 == (q % VIRTUAL_PAGES) / 512 % 512
    ensures q % 512 == (q % VIRTUAL_PAGES) % 512
  {
    var h, r := q / VIRTUAL_PAGES, q % VIRTUAL_PAGES;
    assert q == VIRTUAL_PAGES * h + r;
    assert q / 0x800_0000 == 512 * h + r / 0x800_0000;
    ModPlus(r / 0x800_0000, h);
    assert q / 0x4_0000 == 512 * (512 * h) + r / 0x4_0000;
    ModPlus(r / 0x4_0000, 512 * h);
    assert q / 512 == 512 * (0x4_0000 * h) + r / 512;
    ModPlus(r / 512, 0x4_0000 * h);
    ModPlus(r, 0x800_0000 * h);
  }

  function Advance(a: Word, pages: nat): Word { (a + pages * 0x1000) % TWO_64 }

  /** Wrapping at 2^64 does not show in the page number. */
  lemma WrapAround(x: nat)
    ensures x % TWO_64 / 0x1000 % VIRTUAL_PAGES == x / 0x1000 % VIRTUAL_PAGES
  {
    var h, r := x / TWO_64, x % TWO_64;
    assert x / 0x1000 == 0x10_0000_0000_0000 * h + r / 0x1000;
    PagesPlus(r / 0x1000, 0x1_0000 * h);
  }

  lemma PagesPlus(x: nat, h: nat)
    ensures (VIRTUAL_PAGES * h + x) % VIRTUAL_PAGES == x % VIRTUAL_PAGES
  {
  }

  lemma AdvancePage(va: Word, i: nat)
    ensures PageOf(Advance(va, i)) == (PageOf(va) + i) % VIRTUAL_PAGES
  {
    WrapAround(va + i * 0x1000);
    var q := va / 0x1000;
    assert (va + i * 0x1000) / 0x1000 == q + i;
    PagesPlus(q % VIRTUAL_PAGES + i, q / VIRTUAL_PAGES);
  }

  lemma AdvanceOnce(a: Word, i: nat)
    ensures Advance(Advance(a, i), 1) == Advance(a, i + 1)
  {
  }

  /** The entry that maps a page to the frame of pa: its low 12 bits and bit 63 come from the attributes,
      and bit 63 of pa stays. */
  function Leaf(pa: Word, attributes: Word): Word {
    Frame(pa) % TWO_63 + attributes % PAGE_SIZE + if pa >= TWO_63 || attributes >= TWO_63 then TWO_63 else 0
  }

  /** An entry for the frame of pa: the frame, the low 12 bits of the attributes, and bit 63 if either has it. */
  ghost predicate EntryFor(e: nat, pa: Word, attributes: Word) {
    && e % TWO_63 / 0x1000 == pa % TWO_63 / 0x1000 && e % 0x1000 == attributes % 0x1000
    && (e >= TWO_63 <==> pa >= TWO_63 || attributes >= TWO_63)
  }

  /** What the walk finds of a page that is mapped so. */
  ghost predicate MapsTo(walk: Option<nat>, pa: Word, attributes: Word) {
    if attributes % 2 == 0 then walk == None else walk.Some? && EntryFor(walk.value, pa, attributes)
  }

  lemma LeafMaps(pa: Word, attributes: Word)
    ensures EntryFor(Leaf(pa, attributes), pa, attributes) && MapsTo(IfPresent(Leaf(pa, attributes)), pa, attributes)
  {
    var low, high := attributes % 0x1000, if pa >= TWO_63 || attributes >= TWO_63 then TWO_63 else 0;
    var f := pa % TWO_63 / 0x1000;
    FrameBelow(pa);
    var e := Leaf(pa, attributes);
    assert e == 0x1000 * f + low + high;
    assert e % 0x1000 == low;
    assert e % TWO_63 == 0x1000 * f + low;
    LowBit(e);
    LowBit(attributes);
  }

  lemma FrameBelow(pa: Word)
    ensures Frame(pa) % TWO_63 == 0x1000 * (pa % TWO_63 / 0x1000)
  {
  }

  lemma LowBit(a: nat)
    ensures a % 2 == a % 0x1000 % 2
  {
    var q, r := a / 0x1000, a % 0x1000;
    assert a == 2 * (2048 * q + r / 2) + r % 2;
    DivModIs(a, 2, 2048 * q + r / 2, r % 2);
  }

  function IfPresent(e: nat): Option<nat> { if Present(e) then Some(e) else None }

  // ------------------------------------------------------------------------------------ the flat map

  /** The i-th page from v on, going round the address space. */
  function Nth(v: nat, i: nat): nat { (v + i) % VIRTUAL_PAGES }

  /** The walk of page w after n pages from page v on were mapped, one by one. */
  ghost function MappedTo(tables: Tables, root: nat, v: nat, pa: Word, attributes: Word, n: nat, w: nat): Option<nat> {
    if n == 0 then WalkPage(tables, root, w)
    else if w == Nth(v, n - 1) then IfPresent(Leaf(Advance(pa, n - 1), attributes))
    else MappedTo(tables, root, v, pa, attributes, n - 1, w)
  }

  /** Page w is one of the n pages from v on. */
  ghost predicate Among(v: nat, n: nat, w: nat) { exists i: nat :: i < n && w == Nth(v, i) }

  /** As long as the pages do not go round the address space each gets its own frame. */
  lemma {:induction false} MappedInside(tables: Tables, root: nat, v: nat, pa: Word, attributes: Word, n: nat, i: nat)
    requires i < n <= VIRTUAL_PAGES
    ensures MappedTo(tables, root, v, pa, attributes, n, Nth(v, i)) == IfPresent(Leaf(Advance(pa, i), attributes))
    ensures MapsTo(MappedTo(tables, root, v, pa, attributes, n, Nth(v, i)), Advance(pa, i), attributes)
    decreases n
  {
    LeafMaps(Advance(pa, i), attributes);
    if i < n - 1 {
      SameRemainder(v + i, v + n - 1);
      MappedInside(tables, root, v, pa, attributes, n - 1, i);
    }
  }

  /** The walks after the pages were mapped lead to their frames. */
  lemma PagesMapped(was: Tables, tables: Tables, root: nat, vaddr: Word, paddr: Word, attributes: Word, n: nat)
    requires forall w: nat :: w < VIRTUAL_PAGES ==>
               WalkPage(tables, root, w) == MappedTo(was, root, PageOf(vaddr), paddr, attributes, n, w)
    ensures n <= VIRTUAL_PAGES ==> forall i: nat :: i < n ==>
              MapsTo(WalkPage(tables, root, PageOf(Advance(vaddr, i))), Advance(paddr, i), attributes)
  {
    if n <= VIRTUAL_PAGES {
      forall i: nat | i < n
        ensures MapsTo(WalkPage(tables, root, PageOf(Advance(vaddr, i))), Advance(paddr, i), attributes)
      {
        AdvancePage(vaddr, i);
        MappedInside(was, root, PageOf(vaddr), paddr, attributes, n, i);
      }
    }
  }

  /** All other pages stay. */
  lemma {:induction false} MappedOutside(tables: Tables, root: nat, v: nat, pa: Word, attributes: Word, n: nat, w: nat)
    requires !Among(v, n, w)
    ensures MappedTo(tables, root, v, pa, attributes, n, w) == WalkPage(tables, root, w)
    decreases n
  {
    if n > 0 {
      assert Nth(v, n - 1) != w;
      MappedOutside(tables, root, v, pa, attributes, n - 1, w);
    }
  }

  lemma SameRemainder(a: nat, b: nat)
    requires a < b < a + VIRTUAL_PAGES
    ensures a % VIRTUAL_PAGES != b % VIRTUAL_PAGES
  {
  }

  /** Every frame of an active segment is aligned and in reach of the direct map, and no two coincide. */
  ghost predicate GoodMemory(segs: seq<Segment>) {
    && Apart(segs)
    && forall s :: 0 <= s < |segs| && Active(segs[s]) ==>
         segs[s].base % PAGE_SIZE == 0 && segs[s].base + segs[s].length <= TWO_64 - HIGHER_HALF
  }

  /** A page that can hold a table: its address survives the direct map and the flags of an entry. */
  ghost predicate UsableFrame(page: nat) {
    && page % PAGE_SIZE == 0 && page < TWO_64 - HIGHER_HALF
    && ToVirtual(page) == page + HIGHER_HALF && ToPhysical(ToVirtual(page)) == page
    && Frame(page + PAGE_PRESENT + PAGE_RW) == page && Present(page + PAGE_PRESENT + PAGE_RW)
  }

  lemma FrameIsUsable(segs: seq<Segment>, bits: seq<bool>, s: nat, j: nat)
    requires GoodMemory(segs) && Fits(segs, bits, false, s, j, 1)
    ensures segs[s].base + j * PAGE_SIZE > 0 && UsableFrame(segs[s].base + j * PAGE_SIZE)
  {
    var page := segs[s].base + j * PAGE_SIZE;
    AlignedFrame(segs[s].base / PAGE_SIZE + j);
    assert page < segs[s].base + segs[s].length;
  }

  /** The page handed out is new to the reserved ones, and they stay reserved. */
  lemma StaysReserved(segs: seq<Segment>, bits: seq<bool>, bits': seq<bool>, s: nat, j: nat, page: nat)
    requires Apart(segs) && Fits(segs, bits, false, s, j, 1) && Offset(segs, s) + j < |bits|
    requires page == segs[s].base + j * PAGE_SIZE && bits' == Taken(bits, Offset(segs, s) + j, 1)
    ensures !Reserved(segs, bits, page) && Reserved(segs, bits', page)
    ensures forall a :: Reserved(segs, bits, a) ==> Reserved(segs, bits', a)
  {
    assert InRun(segs, s, j, 1, page) by {
      assert PageInSegment(segs, s, Offset(segs, s) + j, page);
    }
    forall a
      ensures Reserved(segs, bits, a) ==> Reserved(segs, bits', a)
    {
      PallocIsFresh(segs, bits, false, s, j, 1, a);
    }
    PallocIsFresh(segs, bits, false, s, j, 1, page);
  }

  lemma AlignedFrame(k: nat)
    ensures var page := k * PAGE_SIZE;
            page % PAGE_SIZE == 0 && Frame(page + PAGE_PRESENT + PAGE_RW) == page
                && Present(page + PAGE_PRESENT + PAGE_RW)
  {
    var e := k * PAGE_SIZE + 3;
    assert e == 2 * (2048 * k + 1) + 1;
    Odd(2048 * k + 1);
    assert e / PAGE_SIZE == k;
  }

  lemma Odd(x: nat)
    ensures (2 * x + 1) % 2 == 1
  {
  }

  class Vmm {
    const pmm: Pmm
    var tables: Tables
    var currentPml4: nat
    ghost var home: map<nat, Home>

    ghost predicate Valid()
      reads this, pmm
    {
      && pmm.Valid() && GoodMemory(pmm.segs) && Tree(tables, home, currentPml4)
      && forall t :: t in home ==> t >= HIGHER_HALF && Reserved(pmm.segs, pmm.bits, t - HIGHER_HALF)
    }

    /** initialise: the tables that are in force are taken over. */
    constructor (allocator: Pmm, found: Tables, pml4: nat, ghost places: map<nat, Home>)
      requires allocator.Valid() && GoodMemory(allocator.segs) && Tree(found, places, pml4)
      requires forall t :: t in places ==> t >= HIGHER_HALF && Reserved(allocator.segs, allocator.bits, t - HIGHER_HALF)
      ensures Valid() && pmm == allocator && tables == found && currentPml4 == pml4
    {
      pmm, tables, currentPml4, home := allocator, found, pml4, places;
    }

    ghost predicate OutOfPages()
      reads pmm
    {
      !pmm.bitmapPresent || NoFitBefore(pmm.segs, pmm.bits, false, MAX_SEGMENTS, 1)
    }

    /** A page from the allocator, 0 if there is none. */
    method TakePage() returns (page: nat)
      requires pmm.Valid() && GoodMemory(pmm.segs)
      modifies pmm
      ensures pmm.Valid() && pmm.segs == old(pmm.segs)
      ensures page == 0 ==> OutOfPages()
      ensures page != 0 ==> UsableFrame(page)
                            && !Reserved(pmm.segs, old(pmm.bits), page) && Reserved(pmm.segs, pmm.bits, page)
      ensures forall a :: Reserved(pmm.segs, old(pmm.bits), a) ==> Reserved(pmm.segs, pmm.bits, a)
    {
      ghost var segs, bits := pmm.segs, pmm.bits;
      ghost var s, j;
      page, s, j := pmm.Palloc(1);
      if pmm.bitmapPresent && s < MAX_SEGMENTS {
        FrameIsUsable(segs, bits, s, j);
        StaysReserved(segs, bits, pmm.bits, s, j, segs[s].base + j * PAGE_SIZE);
      }
    }

    /** ensure_table_exists: the table of level l for page v, made if it is missing.  When no page is left the
        source goes on with a table at physical page 0; here the call reports failure instead. */
    method EnsureTableExists(parent: nat, index: nat, ghost l: nat, ghost v: nat) returns (table: nat, ok: bool)
      requires Valid() && 1 <= l < 4 && v < VIRTUAL_PAGES
      requires TableFor(tables, currentPml4, l + 1, v) == Some(parent) && index == Index(l + 1, v)
      modifies this, pmm
      ensures Valid() && currentPml4 == old(currentPml4)
      ensures ok ==> TableFor(tables, currentPml4, l, v) == Some(table)
      ensures !ok ==> tables == old(tables) && OutOfPages()
      // an entry that is there stays, and a new one is present and writable and nothing else
      ensures ok ==>
                && parent in old(tables) && index < |old(tables)[parent]|
                && parent in tables && index < |tables[parent]|
      ensures ok ==> if Present(old(tables)[parent][index]) then tables == old(tables)
                     else tables[parent][index] % PAGE_SIZE == PAGE_PRESENT + PAGE_RW
      ensures forall w: nat :: w < VIRTUAL_PAGES ==>
                WalkPage(tables, currentPml4, w) == WalkPage(old(tables), currentPml4, w)
    {
      TableIsHome(tables, home, currentPml4, l + 1, v);
      var e := tables[parent][index];
      if Present(e) {
        return ToVirtual(Frame(e)), true;
      }
      var page := TakePage();
      if page == 0 {
        return ToVirtual(page), false;
      }
      table := ToVirtual(page);
      e := ToPhysical(table) + PAGE_PRESENT + PAGE_RW;
      Link(parent, index, table, e, l, v);
      ok := true;
    }

    /** The new table is zeroed and linked. */
    method Link(parent: nat, index: nat, table: nat, e: nat, ghost l: nat, ghost v: nat)
      requires pmm.Valid() && GoodMemory(pmm.segs) && Tree(tables, home, currentPml4) && 1 <= l < 4 && v < VIRTUAL_PAGES
      requires forall t :: t in home || t == table ==> t >= HIGHER_HALF && Reserved(pmm.segs, pmm.bits, t - HIGHER_HALF)
      requires TableFor(tables, currentPml4, l + 1, v) == Some(parent) && index == Index(l + 1, v)
      requires parent in home && home[parent].level == l + 1
      requires CanGrow(tables, home, currentPml4, l, parent, index, table, e)
      modifies this
      ensures Valid() && currentPml4 == old(currentPml4)
      ensures TableFor(tables, currentPml4, l, v) == Some(table)
      ensures parent in tables && index < |tables[parent]| && tables[parent][index] == e
      ensures forall w: nat :: w < VIRTUAL_PAGES ==>
                WalkPage(tables, currentPml4, w) == WalkPage(old(tables), currentPml4, w)
    {
      ghost var was := tables;
      GrowKeepsTree(tables, home, currentPml4, l, parent, index, table, e);
      GrowAbove(tables, home, currentPml4, l, parent, index, table, e, l, v);
      GrowKeepsAllWalks(was, home, currentPml4, l, parent, index, table, e);
      home := home[table := Home(l, home[parent].prefix * 512 + index)];
      tables := tables[table := Zeroes()];
      tables := Written(tables, parent, index, e);
    }

    /** The leaf entry of the page of va is written. */
    method WriteLeaf(pt: nat, va: Word, e: Word)
      requires Valid() && TableFor(tables, currentPml4, 1, PageOf(va)) == Some(pt)
      modifies this
      ensures Valid() && currentPml4 == old(currentPml4)
      ensures forall w: nat :: w < VIRTUAL_PAGES ==>
                WalkPage(tables, currentPml4, w)
                == if w == PageOf(va) then IfPresent(e) else WalkPage(old(tables), currentPml4, w)
    {
      ghost var v, was := PageOf(va), tables;
      Indices(va);
      TableIsHome(tables, home, currentPml4, 1, v);
      LeafKeepsTree(tables, home, currentPml4, pt, Index(1, v), e);
      forall w: nat | w < VIRTUAL_PAGES
        ensures WalkPage(Written(was, pt, Index(1, v), e), currentPml4, w)
             == if w == v then IfPresent(e) else WalkPage(was, currentPml4, w)
      {
        LeafWrite(was, home, currentPml4, v, pt, e, w);
      }
      tables := Written(tables, pt, PtIndex(va), e);
    }

    /** One round of mmap. */
    method MapPage(pa: Word, va: Word, attributes: Word) returns (ok: bool)
      requires Valid()
      modifies this, pmm
      ensures Valid() && currentPml4 == old(currentPml4)
      ensures !ok ==> OutOfPages()
      ensures forall w: nat :: w < VIRTUAL_PAGES ==>
                WalkPage(tables, currentPml4, w)
                == if ok && w == PageOf(va) then IfPresent(Leaf(pa, attributes))
                    else WalkPage(old(tables), currentPml4, w)
    {
      ghost var v := PageOf(va);
      Indices(va);
      var pdpt, pd, pt;
      pdpt, ok := EnsureTableExists(currentPml4, Pml4Index(va), 3, v);
      if !ok {
        return;
      }
      pd, ok := EnsureTableExists(pdpt, PdptIndex(va), 2, v);
      if !ok {
        return;
      }
      pt, ok := EnsureTableExists(pd, PdIndex(va), 1, v);
      if !ok {
        return;
      }
      WriteLeaf(pt, va, Leaf(pa, attributes));
    }

    /** mmap: maps npages pages, or as many as there are page tables for.  The first entry is returned. */
    method Mmap(paddr: Word, vaddr: Word, npages: nat, attributes: Word) returns (firstEntry: Word, mapped: nat)
      requires Valid()
      modifies this, pmm
      ensures Valid() && currentPml4 == old(currentPml4)
      ensures mapped <= npages && (mapped < npages ==> OutOfPages())
      ensures firstEntry == if mapped == 0 then 0 else Leaf(paddr, attributes)
      ensures mapped > 0 ==> EntryFor(firstEntry, paddr, attributes)
      ensures forall w: nat :: w < VIRTUAL_PAGES ==>
                WalkPage(tables, currentPml4, w)
                == MappedTo(old(tables), currentPml4, PageOf(vaddr), paddr, attributes, mapped, w)
      ensures mapped <= VIRTUAL_PAGES ==> forall i: nat :: i < mapped ==>
                MapsTo(WalkPage(tables, currentPml4, PageOf(Advance(vaddr, i))), Advance(paddr, i), attributes)
    {
      var va, pa := vaddr, paddr;
      firstEntry := 0;
      mapped := 0;
      while mapped < npages
        invariant Valid() && currentPml4 == old(currentPml4) && mapped <= npages
        invariant va == Advance(vaddr, mapped) && pa == Advance(paddr, mapped)
        invariant firstEntry == if mapped == 0 then 0 else Leaf(paddr, attributes)
        invariant forall w: nat :: w < VIRTUAL_PAGES ==>
                    WalkPage(tables, currentPml4, w)
                    == MappedTo(old(tables), currentPml4, PageOf(vaddr), paddr, attributes, mapped, w)
        decreases npages - mapped
      {
        AdvancePage(vaddr, mapped);
        var ok := MapPage(pa, va, attributes);
        if !ok {
          break;
        }
        if mapped == 0 {
          firstEntry := Leaf(pa, attributes);
        }
        AdvanceOnce(vaddr, mapped);
        AdvanceOnce(paddr, mapped);
        va, pa, mapped := Advance(va, 1), Advance(pa, 1), mapped + 1;
      }
      LeafMaps(paddr, attributes);
      PagesMapped(old(tables), tables, currentPml4, vaddr, paddr, attributes, mapped);
    }

    /** The descent of is_mapped and munmap to the last table. */
    method FindTable(va: Word) returns (pt: Option<nat>)
      requires Valid()
      ensures pt == TableFor(tables, currentPml4, 1, PageOf(va))
    {
      ghost var v := PageOf(va);
      Indices(va);
      TableIsHome(tables, home, currentPml4, 4, v);
      var pml4Entry := tables[currentPml4][Pml4Index(va)];
      if !Present(pml4Entry) {
        return None;
      }
      var pdpt := ToVirtual(Frame(pml4Entry));
      TableIsHome(tables, home, currentPml4, 3, v);
      var pdptEntry := tables[pdpt][PdptIndex(va)];
      if !Present(pdptEntry) {
        return None;
      }
      var pd := ToVirtual(Frame(pdptEntry));
      TableIsHome(tables, home, currentPml4, 2, v);
      var pdEntry := tables[pd][PdIndex(va)];
      if !Present(pdEntry) {
        return None;
      }
      pt := Some(ToVirtual(Frame(pdEntry)));
    }

    /** is_mapped agrees with the walk. */
    method IsMapped(va: Word) returns (r: bool)
      requires Valid()
      ensures r <==> WalkPage(tables, currentPml4, PageOf(va)).Some?
    {
      var pt := FindTable(va);
      if pt == None {
        return false;
      }
      Indices(va);
      TableIsHome(tables, home, currentPml4, 1, PageOf(va));
      r := Present(tables[pt.value][PtIndex(va)]);
    }

    /** munmap removes exactly its pages. */
    method Munmap(vaddr: Word, npages: nat)
      requires Valid()
      modifies this
      ensures Valid() && currentPml4 == old(currentPml4)
      ensures forall w: nat :: w < VIRTUAL_PAGES ==>
                WalkPage(tables, currentPml4, w)
                == if Among(PageOf(vaddr), npages, w) then None else WalkPage(old(tables), currentPml4, w)
    {
      var va := vaddr;
      for i := 0 to npages
        invariant Valid() && currentPml4 == old(currentPml4) && va == Advance(vaddr, i)
        invariant forall w: nat :: w < VIRTUAL_PAGES ==>
                    WalkPage(tables, currentPml4, w)
                    == if Among(PageOf(vaddr), i, w) then None else WalkPage(old(tables), currentPml4, w)
      {
        AdvancePage(vaddr, i);
        AdvanceOnce(vaddr, i);
        var pt := FindTable(va);
        AmongNext(PageOf(vaddr), i);
        if pt.Some? {
          WriteLeaf(pt.value, va, 0);
        }
        va := Advance(va, 1);
      }
    }
  }

  lemma AmongNext(v: nat, n: nat)
    ensures forall w :: Among(v, n + 1, w) <==> Among(v, n, w) || w == Nth(v, n)
  {
    forall w: nat
      ensures Among(v, n + 1, w) <==> Among(v, n, w) || w == Nth(v, n)
    {
      if Among(v, n + 1, w) && w != Nth(v, n) {
        var i: nat :| i < n + 1 && w == Nth(v, i);
        assert i < n;
      }
    }
  }
}
