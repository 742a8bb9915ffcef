/** How the kernel heap (`heap.cpp`) gets its memory: the largest of the sizes it tries that can be reserved. */
module HeapStart {
  import opened Arithmetic
  import opened PageAllocator
  import opened KernelHeap
  import opened HeapBlocks

  const INITIAL_SIZE: nat := 0x1_0000_0000
  const MIN_HEAP_SIZE: nat := 0x10_0000

  /** The k-th size that is tried: each is half of the one before. */
  function SizeAt(k: nat): nat { if k == 0 then INITIAL_SIZE else SizeAt(k - 1) / 2 }

  /** The sizes that are tried are the powers of two from 4 GiB down to 1 MiB. */
  lemma {:induction false} SizesTried(k: nat)
    requires k <= 32
    ensures SizeAt(k) == Pow2(32 - k) && (SizeAt(k) >= MIN_HEAP_SIZE <==> k <= 12)
  {
    SomePowers();
    if k > 0 {
      SizesTried(k - 1);
    }
    if k <= 12 {
      PowersGrow(20, 32 - k);
    } else {
      PowersGrow(32 - k, 19);
    }
  }

  lemma SomePowers()
    ensures Pow2(19) < Pow2(20) == MIN_HEAP_SIZE && Pow2(32) == INITIAL_SIZE
  {
    TimesSixteen(0);
    TimesSixteen(4);
    TimesSixteen(8);
    TimesSixteen(12);
    TimesSixteen(16);
    TimesSixteen(20);
    TimesSixteen(24);
    TimesSixteen(28);
  }

  lemma TimesSixteen(k: nat)
    ensures Pow2(k + 4) == 16 * Pow2(k)
  {
    assert Pow2(k + 2) == 4 * Pow2(k);
  }

  lemma {:induction false} PowersGrow(a: nat, b: nat)
    requires a <= b
    ensures Pow2(a) <= Pow2(b)
    decreases b
  {
    if a < b {
      PowersGrow(a, b - 1);
    }
  }

  lemma HalfOf(x: nat, d: nat)
    requires d > 0
    ensures x / (d * 2) == x / d / 2
  {
    var q, r := x / d, x % d;
    DivModIs(x, d * 2, q / 2, d * (q % 2) + r);
  }

  /** No run of n pages is free. */
  ghost predicate Refused(segs: seq<Segment>, bits: seq<bool>, present: bool, n: nat) {
    !present || n == 0 || NoFitBefore(segs, bits, true, MAX_SEGMENTS, n)
  }

  ghost predicate AllRefused(segs: seq<Segment>, bits: seq<bool>, present: bool, k: nat) {
    forall i :: 0 <= i < k ==> Refused(segs, bits, present, SizeAt(i) / 0x1000)
  }

  /** The pages of the first fit for that many bytes are taken, at this address. */
  ghost predicate GotRun(segs: seq<Segment>, bits: seq<bool>, bits': seq<bool>, base: nat, size: nat, s: nat, j: nat) {
    var n := size / 0x1000;
    && FirstFit(segs, bits, true, s, j, n) && base == segs[s].base + j * PAGE_SIZE
    && Offset(segs, s) + j + n <= |bits| && bits' == Taken(bits, Offset(segs, s) + j, n)
  }

  /** The loop of initialise: halves the size until a run is found or the size is below 1 MiB.  A run is the first fit
      for the largest size that fits at all. */
  method ReserveLargest(pmm: Pmm) returns (base: nat, size: nat, ghost k: nat, ghost s: nat, ghost j: nat)
    requires pmm.Valid() && AboveMin(pmm.segs)
    modifies pmm
    ensures pmm.Valid() && pmm.segs == old(pmm.segs)
    ensures AllRefused(pmm.segs, old(pmm.bits), old(pmm.bitmapPresent), k)
    ensures if base == 0 then SizeAt(k) < MIN_HEAP_SIZE && pmm.bits == old(pmm.bits)
            else size == SizeAt(k) >= MIN_HEAP_SIZE && GotRun(pmm.segs, old(pmm.bits), pmm.bits, base, size, s, j)
  {
    var divisor: nat := 1;
    base, size, k, s, j := 0, 0, 0, 0, 0;
    while base == 0 && INITIAL_SIZE / divisor >= MIN_HEAP_SIZE
      invariant divisor > 0 && pmm.Valid() && pmm.segs == old(pmm.segs) && pmm.bitmapPresent == old(pmm.bitmapPresent)
      invariant AllRefused(pmm.segs, old(pmm.bits), pmm.bitmapPresent, k)
      invariant if base == 0 then INITIAL_SIZE / divisor == SizeAt(k) && pmm.bits == old(pmm.bits)
                else size == SizeAt(k) >= MIN_HEAP_SIZE && GotRun(pmm.segs, old(pmm.bits), pmm.bits, base, size, s, j)
      decreases base == 0, INITIAL_SIZE / divisor
    {
      size := INITIAL_SIZE / divisor;
      base, s, j := pmm.ReserveHeap(size / 0x1000);
      HalfOf(INITIAL_SIZE, divisor);
      divisor := divisor * 2;
      if base == 0 {
        k := k + 1;
      }
    }
  }

  /** initialise.  Without a run, or with one that the direct map takes to address 0, there is no heap; the source
      writes its first header at the direct map of what it got all the same. */
  method Initialise(pmm: Pmm) returns (heap: Heap?, run: nat, ghost k: nat, ghost s: nat, ghost j: nat)
    requires pmm.Valid() && AboveMin(pmm.segs)
    modifies pmm
    ensures pmm.Valid() && pmm.segs == old(pmm.segs)
    ensures AllRefused(pmm.segs, old(pmm.bits), old(pmm.bitmapPresent), k)
    ensures run == 0 <==> SizeAt(k) < MIN_HEAP_SIZE
    ensures if run == 0 then pmm.bits == old(pmm.bits)
            else GotRun(pmm.segs, old(pmm.bits), pmm.bits, run, SizeAt(k), s, j)
    ensures heap == null <==> run == 0 || ToVirtual(run) == 0
    ensures heap != null ==>
              && fresh(heap) && heap.Valid() && heap.heapBase == ToVirtual(run) && heap.heapSize == SizeAt(k)
              && heap.blocks == [Block(heap.heapBase, heap.heapSize - HDR, true)]
  {
    var size;
    run, size, k, s, j := ReserveLargest(pmm);
    if run == 0 || ToVirtual(run) == 0 {
      return null, run, k, s, j;
    }
    heap := new Heap(ToVirtual(run), size);
  }

  /** While the pages of the heap are in use, no allocation hands out one of them: bits'' is any later bitmap. */
  lemma HeapIsKept(segs: seq<Segment>, bits: seq<bool>, bits': seq<bool>, bits'': seq<bool>, run: nat, size: nat,
                   s: nat, j: nat, low: bool, s': nat, j': nat, n: nat, addr: nat)
    requires Apart(segs) && GotRun(segs, bits, bits', run, size, s, j) && |bits''| == |bits'|
    requires forall i :: Offset(segs, s) + j <= i < Offset(segs, s) + j + size / 0x1000 ==> bits''[i]
    requires PageAllocator.Fits(segs, bits'', low, s', j', n) && Offset(segs, s') + j' + n <= |bits''|
    requires run <= addr < run + size && (addr - run) % PAGE_SIZE == 0 && size % 0x1000 == 0
    ensures !InRun(segs, s', j', n, addr)
  {
    var i := Offset(segs, s) + j + (addr - run) / PAGE_SIZE;
    PageOfRun(addr - run, size);
    assert PageInSegment(segs, s, i, addr);
    if InRun(segs, s', j', n, addr) {
      PallocIsFresh(segs, bits'', low, s', j', n, addr);
      forall i': nat | PageAt(segs, i', addr) && i' < |bits''|
        ensures bits''[i']
      {
        PagesDistinct(segs, i, i', addr);
      }
      assert false;
    }
  }

  lemma PageOfRun(x: nat, size: nat)
    requires x < size && x % PAGE_SIZE == 0 && size % 0x1000 == 0
    ensures x / PAGE_SIZE < size / 0x1000 && x / PAGE_SIZE * PAGE_SIZE == x
  {
  }
}
