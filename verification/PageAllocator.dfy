/** The physical page allocator of `pmm.cpp`: a bitmap over the pages of up to eight memory segments. */
module PageAllocator {
  import opened Arithmetic
  import opened Options

  const PAGE_SIZE: nat := 4096
  const MAX_SEGMENTS: nat := 8
  const MIN_ALLOC_ADDR: nat := 0x100000
  const HIGHER_HALF: nat := 0xFFFF_8000_0000_0000

  datatype Segment = Segment(base: nat, length: nat, isBitmap: bool)

  /** Pages are handed out from here. */
  predicate Active(s: Segment) { s.length != 0 && !s.isBitmap }

  function Pages(s: Segment): nat { s.length / PAGE_SIZE }

  /** The bit of the first page of segment k. */
  function Offset(segs: seq<Segment>, k: nat): nat
    requires k <= |segs|
  {
    if k == 0 then 0 else Offset(segs, k - 1) + if Active(segs[k - 1]) then Pages(segs[k - 1]) else 0
  }

  /** The first page of a segment that `palloc` considers; `reserve_heap` starts at page 0. */
  function From(s: Segment, low: bool): nat {
    if low then 0
    else if s.base + s.length <= MIN_ALLOC_ADDR then Pages(s)
    else if s.base < MIN_ALLOC_ADDR then (MIN_ALLOC_ADDR - s.base) / PAGE_SIZE
    else 0
  }

  ghost predicate Clear(bits: seq<bool>, a: nat, n: nat) { forall i :: a <= i < a + n && i < |bits| ==> !bits[i] }

  /** n pages from page j of segment s on are free. */
  ghost predicate Fits(segs: seq<Segment>, bits: seq<bool>, low: bool, s: nat, j: nat, n: nat) {
    && s < |segs| && Active(segs[s]) && From(segs[s], low) <= j && j + n <= Pages(segs[s])
    && Clear(bits, Offset(segs, s) + j, n)
  }

  /** ... and no lower run of n pages in this or an earlier segment is. */
  ghost predicate FirstFit(segs: seq<Segment>, bits: seq<bool>, low: bool, s: nat, j: nat, n: nat) {
    && Fits(segs, bits, low, s, j, n)
    && (forall j': nat :: j' < j ==> !Fits(segs, bits, low, s, j', n))
    && NoFitBefore(segs, bits, low, s, n)
  }

  ghost predicate NoFitBefore(segs: seq<Segment>, bits: seq<bool>, low: bool, k: nat, n: nat) {
    forall s: nat, j: nat :: s < k ==> !Fits(segs, bits, low, s, j, n)
  }

  // --------------------------------------------------------------------------------------- counting

  function Tally(bits: seq<bool>): nat {
    if bits == [] then 0 else Tally(bits[1..]) + if bits[0] then 1 else 0
  }

  lemma {:induction false} TallySet(bits: seq<bool>, i: nat, b: bool)
    requires i < |bits|
    ensures Tally(bits[i := b]) == Tally(bits) - (if bits[i] then 1 else 0) + (if b then 1 else 0)
  {
    if i > 0 {
      assert bits[i := b][1..] == bits[1..][i - 1 := b];
      TallySet(bits[1..], i - 1, b);
    } else {
      assert bits[i := b][1..] == bits[1..];
    }
  }

  lemma {:induction false} TallyBound(bits: seq<bool>, k: nat)
    requires k <= |bits| && forall i :: k <= i < |bits| ==> !bits[i]
    ensures Tally(bits) <= k
    decreases |bits|
  {
    if bits != [] {
      TallyBound(bits[1..], if k == 0 then 0 else k - 1);
    }
  }

  /** The bits with n of them set from a on. */
  function Taken(bits: seq<bool>, a: nat, n: nat): (r: seq<bool>)
    requires a + n <= |bits|
    ensures |r| == |bits| && forall i :: 0 <= i < |r| ==> r[i] == (bits[i] || a <= i < a + n)
  {
    seq(|bits|, i requires 0 <= i < |bits| => bits[i] || a <= i < a + n)
  }

  lemma {:induction false} TallyTaken(bits: seq<bool>, a: nat, n: nat)
    requires a + n <= |bits| && Clear(bits, a, n)
    ensures Tally(Taken(bits, a, n)) == Tally(bits) + n
    decreases n
  {
    if n == 0 {
      assert Taken(bits, a, 0) == bits;
    } else {
      TallyTaken(bits, a, n - 1);
      assert Taken(bits, a, n) == Taken(bits, a, n - 1)[a + n - 1 := true];
      TallySet(Taken(bits, a, n - 1), a + n - 1, true);
    }
  }

  lemma {:induction false} OffsetGrows(segs: seq<Segment>, s: nat, k: nat)
    requires s < k <= |segs|
    ensures Offset(segs, s) + (if Active(segs[s]) then Pages(segs[s]) else 0) <= Offset(segs, k)
    decreases k
  {
    if s + 1 < k {
      OffsetGrows(segs, s, k - 1);
    }
  }

  /** The bits with n of them cleared from a on. */
  function Given(bits: seq<bool>, a: nat, n: nat): (r: seq<bool>)
    requires a + n <= |bits|
    ensures |r| == |bits| && forall i :: 0 <= i < |r| ==> r[i] == (bits[i] && !(a <= i < a + n))
  {
    seq(|bits|, i requires 0 <= i < |bits| => bits[i] && !(a <= i < a + n))
  }

  // ----------------------------------------------------------------------------------- looking pages up

  /** pa_to_va, on 64-bit addresses. */
  function ToVirtual(pa: nat): nat { if pa >= HIGHER_HALF then pa else (pa + HIGHER_HALF) % TWO_64 }

  predicate Holds(s: Segment, addr: nat) { Active(s) && s.base <= addr < s.base + s.length }

  /** Segment s is the first to hold the address; none does if s is MAX_SEGMENTS. */
  ghost predicate FirstHolding(segs: seq<Segment>, addr: nat, s: nat) {
    && |segs| == MAX_SEGMENTS && (forall i :: 0 <= i < s && i < |segs| ==> !Holds(segs[i], addr))
    && (s < MAX_SEGMENTS ==> Holds(segs[s], addr))
  }

  function PageIn(s: Segment, addr: nat): nat
    requires s.base <= addr
  {
    (addr - s.base) / PAGE_SIZE
  }

  /** The first bit that free clears; s is the first segment to hold the address. */
  function FreedBit(segs: seq<Segment>, s: nat, ptr: nat): nat
    requires s < |segs| && segs[s].base <= ToVirtual(ptr)
  {
    Offset(segs, s) + PageIn(segs[s], ToVirtual(ptr))
  }

  /** free goes on to look for the segment. */
  predicate LooksUp(ptr: nat, n: nat) { ptr != 0 && n != 0 && ToVirtual(ptr) >= MIN_ALLOC_ADDR }

  /** The bitmap after free(ptr, n); None if the run reaches behind it, where free would go on in other memory. */
  ghost function AfterFree(segs: seq<Segment>, bits: seq<bool>, ptr: nat, n: nat, s: nat): Option<seq<bool>>
    requires LooksUp(ptr, n) ==> FirstHolding(segs, ToVirtual(ptr), s)
  {
    if !LooksUp(ptr, n) || s >= MAX_SEGMENTS then Some(bits)
    else if FreedBit(segs, s, ptr) + n > |bits| then None
    else Some(Given(bits, FreedBit(segs, s, ptr), n))
  }

  // -------------------------------------------------------------------------------------- memory map

  datatype Entry = Entry(base: nat, length: nat, usable: bool)

  /** The part of an entry that is at or above the first MiB. */
  function Clip(e: Entry): Segment {
    if e.base >= MIN_ALLOC_ADDR then Segment(e.base, e.length, false)
    else
      var end := e.base + e.length;
      Segment(MIN_ALLOC_ADDR, if end > MIN_ALLOC_ADDR then end - MIN_ALLOC_ADDR else 0, false)
  }

  /** The first MAX_SEGMENTS usable entries that have such a part. */
  function SegmentsOf(entries: seq<Entry>): (r: seq<Segment>)
    ensures |r| <= MAX_SEGMENTS && AllProper(r)
  {
    if entries == [] then []
    else
      var before := SegmentsOf(entries[..|entries| - 1]);
      var e := entries[|entries| - 1];
      if !e.usable || |before| >= MAX_SEGMENTS || Clip(e).length == 0 then before else before + [Clip(e)]
  }

  /** The part of an entry is what the name says. */
  lemma ClipMeans(e: Entry, a: nat)
    ensures Within(Clip(e), a) <==> a >= MIN_ALLOC_ADDR && e.base <= a < e.base + e.length
  {
  }

  ghost predicate Within(s: Segment, a: nat) { s.base <= a < s.base + s.length }

  /** The address lies in one of the segments. */
  ghost predicate InSegments(segs: seq<Segment>, a: nat) { exists i :: 0 <= i < |segs| && Within(segs[i], a) }

  ghost predicate UsableAt(e: Entry, a: nat) { e.usable && e.base <= a < e.base + e.length }

  /** The address lies in a usable entry. */
  ghost predicate InUsable(entries: seq<Entry>, a: nat) {
    exists i :: 0 <= i < |entries| && UsableAt(entries[i], a)
  }

  /** The segments are usable memory above the first MiB, and all of it unless there are more entries than segments. */
  lemma {:induction false} SegmentsAreUsable(entries: seq<Entry>, a: nat)
    ensures InSegments(SegmentsOf(entries), a) ==> a >= MIN_ALLOC_ADDR && InUsable(entries, a)
    ensures |SegmentsOf(entries)| < MAX_SEGMENTS && a >= MIN_ALLOC_ADDR && InUsable(entries, a) ==>
              InSegments(SegmentsOf(entries), a)
    decreases |entries|
  {
    if entries != [] {
      var init, e := entries[..|entries| - 1], entries[|entries| - 1];
      var before, segs := SegmentsOf(init), SegmentsOf(entries);
      SegmentsAreUsable(init, a);
      ClipMeans(e, a);
      assert segs == before || segs == before + [Clip(e)];
      if InSegments(before, a) {
        var i :| 0 <= i < |before| && Within(before[i], a);
        assert segs[i] == before[i];
      }
      if InUsable(init, a) {
        var i :| 0 <= i < |init| && UsableAt(init[i], a);
        assert entries[i] == init[i];
      }
      if InUsable(entries, a) {
        var i :| 0 <= i < |entries| && UsableAt(entries[i], a);
        assert i < |init| ==> init[i] == entries[i];
      }
      if InSegments(segs, a) {
        var i :| 0 <= i < |segs| && Within(segs[i], a);
        assert i < |before| ==> before[i] == segs[i];
      }
      assert |segs| > |before| ==> segs[|before|] == Clip(e);
    }
  }

  /** No address is in two usable entries. */
  ghost predicate EntriesApart(entries: seq<Entry>) {
    forall i, j, a :: 0 <= i < j < |entries| && UsableAt(entries[i], a) ==> !UsableAt(entries[j], a)
  }

  /** Then none is in two segments. */
  lemma {:induction false} SegmentsApart(entries: seq<Entry>, i: nat, j: nat, a: nat)
    requires EntriesApart(entries) && i < j < |SegmentsOf(entries)| && Within(SegmentsOf(entries)[i], a)
    ensures !Within(SegmentsOf(entries)[j], a)
    decreases |entries|
  {
    var init, e := entries[..|entries| - 1], entries[|entries| - 1];
    var before, segs := SegmentsOf(init), SegmentsOf(entries);
    assert forall k :: 0 <= k < |init| ==> init[k] == entries[k];
    if j < |before| {
      SegmentsApart(init, i, j, a);
    } else {
      assert segs == before + [Clip(e)] && before[i] == segs[i];
      assert InSegments(before, a);
      SegmentsAreUsable(init, a);
      ClipMeans(e, a);
      var k :| 0 <= k < |init| && UsableAt(init[k], a);
      assert UsableAt(entries[k], a) && !UsableAt(entries[|entries| - 1], a);
    }
  }

  /** What an allocator that was made from a memory map hands out is usable memory above the first MiB, and no part of
      the segment that holds the bitmap. */
  lemma RunIsUsable(entries: seq<Entry>, b: nat, bits: seq<bool>, low: bool, s: nat, j: nat, n: nat, a: nat)
    requires var segs := Marked(Padded(SegmentsOf(entries)), b);
             Fits(segs, bits, low, s, j, n) && segs[s].base + j * PAGE_SIZE <= a < segs[s].base + (j + n) * PAGE_SIZE
    ensures a >= MIN_ALLOC_ADDR && InUsable(entries, a)
    ensures EntriesApart(entries) && b < MAX_SEGMENTS ==> !Within(Padded(SegmentsOf(entries))[b], a)
  {
    var found, segs := SegmentsOf(entries), Marked(Padded(SegmentsOf(entries)), b);
    assert Pages(segs[s]) * PAGE_SIZE <= segs[s].length;
    assert s < |found| && segs[s] == found[s] && Within(found[s], a);
    assert InSegments(found, a);
    SegmentsAreUsable(entries, a);
    if EntriesApart(entries) && b < |found| {
      assert b != s;
      if s < b {
        SegmentsApart(entries, s, b, a);
      } else if Within(found[b], a) {
        SegmentsApart(entries, b, s, a);
      }
    }
  }

  predicate AllProper(segs: seq<Segment>) {
    forall i :: 0 <= i < |segs| ==> segs[i].base >= MIN_ALLOC_ADDR && segs[i].length > 0 && !segs[i].isBitmap
  }

  function Length(segs: seq<Segment>): nat { if segs == [] then 0 else segs[0].length + Length(segs[1..]) }

  lemma {:induction false} LengthSnoc(segs: seq<Segment>, s: Segment)
    ensures Length(segs + [s]) == Length(segs) + s.length
  {
    if segs != [] {
      assert (segs + [s])[1..] == segs[1..] + [s];
      LengthSnoc(segs[1..], s);
    }
  }

  /** The segment array: what is not filled in is zero. */
  function Padded(found: seq<Segment>): (r: seq<Segment>)
    ensures |r| == MAX_SEGMENTS
  {
    seq(MAX_SEGMENTS, i requires i >= 0 => if i < |found| then found[i] else Segment(0, 0, false))
  }

  ghost predicate AboveMin(segs: seq<Segment>) {
    forall i :: 0 <= i < |segs| && Active(segs[i]) ==> segs[i].base >= MIN_ALLOC_ADDR
  }

  /** Of the first k segments that can hold `size` bytes b is the first shortest, or MAX_SEGMENTS if none can. */
  ghost predicate BestAmong(segs: seq<Segment>, size: nat, b: nat, k: nat)
    requires |segs| == MAX_SEGMENTS
  {
    && (b < MAX_SEGMENTS ==> !segs[b].isBitmap && segs[b].length >= size)
    && forall i :: 0 <= i < k && i < |segs| && !segs[i].isBitmap && segs[i].length >= size ==>
         && b < MAX_SEGMENTS && segs[b].length <= segs[i].length
         && (i < b ==> segs[b].length < segs[i].length)
  }

  ghost predicate BestFor(segs: seq<Segment>, size: nat, b: nat)
    requires |segs| == MAX_SEGMENTS
  {
    BestAmong(segs, size, b, MAX_SEGMENTS)
  }

  function Marked(segs: seq<Segment>, b: nat): seq<Segment> {
    if b < |segs| then segs[b := segs[b].(isBitmap := true)] else segs
  }

  lemma {:induction false} NoPages(segs: seq<Segment>, k: nat)
    requires k <= |segs| && forall i :: 0 <= i < |segs| ==> segs[i].length == 0
    ensures Offset(segs, k) == 0
  {
    if k > 0 {
      NoPages(segs, k - 1);
    }
  }

  lemma {:induction false} PagesFit(found: seq<Segment>, k: nat, b: nat)
    requires |found| <= MAX_SEGMENTS && k <= MAX_SEGMENTS
    ensures Offset(Marked(Padded(found), b), k) * PAGE_SIZE <= Length(found[..if k < |found| then k else |found|])
    ensures k == MAX_SEGMENTS ==> Offset(Marked(Padded(found), b), k) * PAGE_SIZE <= Length(found)
    decreases k
  {
    if k > 0 {
      PagesFit(found, k - 1, b);
      if k <= |found| {
        assert found[..k] == found[..k - 1] + [found[k - 1]];
        LengthSnoc(found[..k - 1], found[k - 1]);
      }
    }
    assert found[..|found|] == found;
  }

  /** The loop of initialise over the memory map: the segments it fills in, in order, and their total. */
  method BuildSegments(entries: seq<Entry>) returns (found: seq<Segment>, total: nat)
    ensures found == SegmentsOf(entries) && total == Length(found)
  {
    found, total := [], 0;
    for i := 0 to |entries|
      invariant found == SegmentsOf(entries[..i]) && total == Length(found)
    {
      assert entries[..i + 1][..i] == entries[..i];
      var e := entries[i];
      if !e.usable || |found| >= MAX_SEGMENTS {
        continue;
      }
      var segBase := if e.base < MIN_ALLOC_ADDR then MIN_ALLOC_ADDR else e.base;
      var segLen := if e.base < MIN_ALLOC_ADDR
        then if e.length > MIN_ALLOC_ADDR - e.base then e.length - (MIN_ALLOC_ADDR - e.base) else 0
        else e.length;
      if segLen == 0 {
        continue;
      }
      LengthSnoc(found, Segment(segBase, segLen, false));
      found := found + [Segment(segBase, segLen, false)];
      total := total + segLen;
    }
    assert entries[..|entries|] == entries;
  }

  /** The loop of prepare_bitmap. */
  method FindBest(segs: seq<Segment>, size: nat) returns (best: nat)
    requires |segs| == MAX_SEGMENTS
    ensures best <= MAX_SEGMENTS && BestFor(segs, size, best)
  {
    best := MAX_SEGMENTS;
    for i := 0 to MAX_SEGMENTS
      invariant best == MAX_SEGMENTS || best < i
      invariant BestAmong(segs, size, best, i)
    {
      if !segs[i].isBitmap && segs[i].length >= size {
        if best == MAX_SEGMENTS || segs[i].length < segs[best].length {
          best := i;
        }
      }
    }
  }

  /** The loop of free: clears n bits from start on and counts the bytes of those that were set, and the
      others. */
  method ClearBits(before: seq<bool>, start: nat, n: nat) returns (bits: seq<bool>, actuallyFreed: nat, misses: nat)
    requires start + n <= |before|
    ensures bits == Given(before, start, n)
    ensures actuallyFreed == PAGE_SIZE * (Tally(before) - Tally(bits)) == PAGE_SIZE * (n - misses)
  {
    bits, actuallyFreed, misses := before, 0, 0;
    for i := 0 to n
      invariant bits == Given(before, start, i)
      invariant actuallyFreed == PAGE_SIZE * (Tally(before) - Tally(bits)) == PAGE_SIZE * (i - misses)
    {
      if bits[start + i] {
        TallySet(bits, start + i, false);
        bits := bits[start + i := false];
        actuallyFreed := actuallyFreed + PAGE_SIZE;
      } else {
        misses := misses + 1;
      }
    }
  }

  /** Where the bitmap has been put, given the segments before. */
  ghost predicate BitmapIn(before: seq<Segment>, size: nat, after: seq<Segment>, present: bool)
    requires |before| == MAX_SEGMENTS
  {
    exists b: nat :: b <= MAX_SEGMENTS && BestFor(before, size, b) && after == Marked(before, b)
                     && present == (b < MAX_SEGMENTS && before[b].base != 0)
  }

  /** prepare_bitmap: one bit per byte of memory, in the smallest segment that is large enough. */
  method PrepareBitmap(found: seq<Segment>, mem: nat) returns (segs: seq<Segment>, present: bool, bits: seq<bool>)
    requires |found| <= MAX_SEGMENTS && AllProper(found) && mem == Length(found)
    ensures BitmapIn(Padded(found), mem / 8, segs, present) && AboveMin(segs) && |segs| == MAX_SEGMENTS
    ensures Offset(segs, |segs|) * PAGE_SIZE <= mem && (present ==> Offset(segs, |segs|) <= |bits|)
    ensures (forall i :: 0 <= i < |bits| ==> !bits[i]) && Tally(bits) == 0
  {
    var before := Padded(found);
    var bitmapSize := mem / 8;
    var best := FindBest(before, bitmapSize);
    PagesFit(found, MAX_SEGMENTS, best);
    if best == MAX_SEGMENTS {
      return before, false, [];
    }
    segs := before[best := before[best].(isBitmap := true)];
    present := segs[best].base != 0;
    bits := seq(8 * bitmapSize, i => false);
    TallyBound(bits, 0);
  }

  class Pmm {
    var segs: seq<Segment>
    var bitmapPresent: bool
    var bits: seq<bool>
    var totalMem: nat
    var usedMem: nat
    var freeMem: nat
    var allocationCount: nat
    var failedAllocationCount: nat
    var freeCount: nat
    var failedFreeCount: nat

    /** The books balance: every set bit is a page of an active segment and is accounted for once. */
    ghost predicate Valid()
      reads this
    {
      && |segs| == MAX_SEGMENTS
      && Offset(segs, |segs|) * PAGE_SIZE <= totalMem
      && (bitmapPresent ==> Offset(segs, |segs|) <= |bits|)
      && (forall i :: Offset(segs, |segs|) <= i < |bits| ==> !bits[i])
      && usedMem == PAGE_SIZE * Tally(bits)
      && usedMem + freeMem == totalMem
    }

    /** The state after n pages were taken from bit a on. */
    ghost predicate Took(segs0: seq<Segment>, bits0: seq<bool>, used0: nat, total0: nat, a: nat, n: nat)
      reads this
    {
      && a + n <= |bits0| && bits == Taken(bits0, a, n)
      && segs == segs0 && bitmapPresent && totalMem == total0 && usedMem == used0 + n * PAGE_SIZE
    }

    /** The inner loop of palloc and reserve_heap: the lowest run in one segment. */
    method ScanSegment(s: nat, pageOffset: nat, from: nat, needed: nat, ghost low: bool) returns (start: Option<nat>)
      requires Valid() && bitmapPresent && needed > 0 && s < |segs| && Active(segs[s])
      requires pageOffset == Offset(segs, s) && from == From(segs[s], low)
      ensures start.Some? ==> Fits(segs, bits, low, s, start.value, needed)
      ensures start.Some? ==> forall j: nat :: j < start.value ==> !Fits(segs, bits, low, s, j, needed)
      ensures start.None? ==> forall j: nat :: !Fits(segs, bits, low, s, j, needed)
    {
      OffsetGrows(segs, s, |segs|);
      var segPages := Pages(segs[s]);
      var found, first := 0, 0;
      var j := from;
      while j < segPages
        invariant from <= j && 0 <= found < needed && found <= j - from && (j <= segPages || found == 0)
        invariant found > 0 ==> first == j - found
        invariant Clear(bits, pageOffset + j - found, found)
        invariant forall j': nat :: j' < j - found ==> !Fits(segs, bits, low, s, j', needed)
        decreases segPages - j
      {
        if !bits[pageOffset + j] {
          if found == 0 {
            first := j;
          }
          found := found + 1;
          if found == needed {
            return Some(first);
          }
        } else {
          found := 0;
        }
        j := j + 1;
      }
      start := None;
    }

    /** The bits of a run that was found are set and the run is accounted for. */
    method Take(start: nat, needed: nat)
      requires Valid() && bitmapPresent && start + needed <= Offset(segs, |segs|) && Clear(bits, start, needed)
      modifies this
      ensures Valid() && Took(old(segs), old(bits), old(usedMem), old(totalMem), start, needed)
      ensures allocationCount == old(allocationCount) + 1 && failedAllocationCount == old(failedAllocationCount)
      ensures freeCount == old(freeCount) && failedFreeCount == old(failedFreeCount)
    {
      ghost var was := bits;
      TallyTaken(was, start, needed);
      for k := 0 to needed
        invariant bits == Taken(was, start, k)
        invariant unchanged(`segs, `bitmapPresent, `totalMem, `usedMem, `freeMem)
        invariant unchanged(`allocationCount, `failedAllocationCount, `freeCount, `failedFreeCount)
      {
        bits := bits[start + k := true];
      }
      TallyBound(bits, Offset(segs, |segs|));
      usedMem := usedMem + needed * PAGE_SIZE;
      freeMem := freeMem - needed * PAGE_SIZE;
      allocationCount := allocationCount + 1;
    }

    /** The outcome of palloc and reserve_heap: null, or the address of the run at page j of segment s. */
    twostate predicate Allocated(low: bool, needed: nat, r: nat, s: nat, j: nat)
      reads this
      requires old(Valid())
    {
      && |old(segs)| == MAX_SEGMENTS
      && if !old(bitmapPresent) || needed == 0 then r == 0 && unchanged(this)
         else if s < MAX_SEGMENTS then
           && FirstFit(old(segs), old(bits), low, s, j, needed) && r == old(segs)[s].base + j * PAGE_SIZE
           && Took(old(segs), old(bits), old(usedMem), old(totalMem), Offset(old(segs), s) + j, needed)
           && allocationCount == old(allocationCount) + 1 && failedAllocationCount == old(failedAllocationCount)
         else
           && NoFitBefore(old(segs), old(bits), low, MAX_SEGMENTS, needed) && r == 0
           && unchanged(`segs, `bitmapPresent, `bits, `totalMem, `usedMem, `freeMem, `allocationCount)
           && failedAllocationCount == old(failedAllocationCount) + 1
    }

    /** palloc: the lowest run of free pages in the first segment that has one. */
    method Palloc(npages: nat) returns (r: nat, ghost s: nat, ghost j: nat)
      requires Valid()
      modifies this
      ensures Valid() && Allocated(false, npages, r, s, j)
      ensures freeCount == old(freeCount) && failedFreeCount == old(failedFreeCount)
    {
      if !bitmapPresent || npages == 0 {
        return 0, 0, 0;
      }
      var pageOffset := 0;
      for segid := 0 to MAX_SEGMENTS
        invariant unchanged(this) && |segs| == MAX_SEGMENTS && pageOffset == Offset(segs, segid)
        invariant NoFitBefore(segs, bits, false, segid, npages)
      {
        var seg := segs[segid];
        if seg.length == 0 || seg.isBitmap {
          continue;
        }
        if seg.base + seg.length <= MIN_ALLOC_ADDR {
          pageOffset := pageOffset + seg.length / PAGE_SIZE;
          continue;
        }
        var from := 0;
        if seg.base < MIN_ALLOC_ADDR {
          from := (MIN_ALLOC_ADDR - seg.base) / PAGE_SIZE;
        }
        var start := ScanSegment(segid, pageOffset, from, npages, false);
        if start.Some? {
          OffsetGrows(segs, segid, |segs|);
          Take(pageOffset + start.value, npages);
          return seg.base + start.value * PAGE_SIZE, segid, start.value;
        }
        pageOffset := pageOffset + Pages(seg);
      }
      failedAllocationCount := failedAllocationCount + 1;
      return 0, MAX_SEGMENTS, 0;
    }

    /** reserve_heap: the same without the lower address bound. */
    method ReserveHeap(npages: nat) returns (r: nat, ghost s: nat, ghost j: nat)
      requires Valid()
      modifies this
      ensures Valid() && Allocated(true, npages, r, s, j)
      ensures freeCount == old(freeCount) && failedFreeCount == old(failedFreeCount)
    {
      if !bitmapPresent || npages == 0 {
        return 0, 0, 0;
      }
      var pageOffset := 0;
      for segid := 0 to MAX_SEGMENTS
        invariant unchanged(this) && |segs| == MAX_SEGMENTS && pageOffset == Offset(segs, segid)
        invariant NoFitBefore(segs, bits, true, segid, npages)
      {
        var seg := segs[segid];
        if seg.length == 0 || seg.isBitmap {
          continue;
        }
        var start := ScanSegment(segid, pageOffset, 0, npages, true);
        if start.Some? {
          OffsetGrows(segs, segid, |segs|);
          Take(pageOffset + start.value, npages);
          return seg.base + start.value * PAGE_SIZE, segid, start.value;
        }
        pageOffset := pageOffset + Pages(seg);
      }
      failedAllocationCount := failedAllocationCount + 1;
      return 0, MAX_SEGMENTS, 0;
    }

    /** The search of free for the segment that holds an address, and the bit of its first page. */
    method FindHolder(addr: nat) returns (s: nat, pageOffset: nat)
      requires |segs| == MAX_SEGMENTS
      ensures s <= MAX_SEGMENTS && FirstHolding(segs, addr, s) && pageOffset == Offset(segs, s)
    {
      s, pageOffset := 0, 0;
      while s < MAX_SEGMENTS && !Holds(segs[s], addr)
        invariant 0 <= s <= MAX_SEGMENTS && pageOffset == Offset(segs, s)
        invariant forall i :: 0 <= i < s ==> !Holds(segs[i], addr)
      {
        if Active(segs[s]) {
          pageOffset := pageOffset + segs[s].length / PAGE_SIZE;
        }
        s := s + 1;
      }
    }

    /** free: clears the run that the pointer, taken as a higher-half address, falls on.  The bitmap is read
        without a bound; a run that reaches behind it is reported and nothing is done. */
    method Free(ptr: nat, npages: nat) returns (inside: bool, s: nat)
      requires Valid() && ptr < TWO_64
      modifies this
      ensures Valid() && unchanged(`segs, `bitmapPresent, `totalMem, `allocationCount, `failedAllocationCount)
      ensures s <= MAX_SEGMENTS && (bitmapPresent && LooksUp(ptr, npages) ==> FirstHolding(segs, ToVirtual(ptr), s))
      ensures !bitmapPresent || !inside ==> unchanged(this)
      ensures bitmapPresent ==> AfterFree(segs, old(bits), ptr, npages, s) == if inside then Some(bits) else None
      ensures Accounted(npages, !LooksUp(ptr, npages) || s == MAX_SEGMENTS, ptr != 0 && inside)
    {
      inside, s := true, MAX_SEGMENTS;
      if !bitmapPresent || ptr == 0 || npages == 0 {
        return;
      }
      var addr := ToVirtual(ptr);
      if addr < MIN_ALLOC_ADDR {
        failedFreeCount := failedFreeCount + 1;
        return;
      }
      var pageOffset;
      s, pageOffset := FindHolder(addr);
      if s == MAX_SEGMENTS {
        failedFreeCount := failedFreeCount + 1;
        return;
      }
      var start := pageOffset + PageIn(segs[s], addr);
      if start + npages > |bits| {
        inside := false;
        return;
      }
      ClearRun(start, npages);
    }

    /** What free counts: a failure for an address that is not found, and otherwise a free and a failure for every
        page that was not in use. */
    twostate predicate Accounted(npages: nat, lost: bool, done: bool)
      reads this
    {
      if !old(bitmapPresent) || npages == 0 || !done then unchanged(`freeCount, `failedFreeCount)
      else if lost then unchanged(`freeCount) && failedFreeCount == old(failedFreeCount) + 1
      else && freeCount == old(freeCount) + 1
           && PAGE_SIZE * (npages - (failedFreeCount - old(failedFreeCount))) == old(usedMem) - usedMem
    }

    /** The clearing loop of free and the accounting after it. */
    method ClearRun(start: nat, npages: nat)
      requires Valid() && bitmapPresent && start + npages <= |bits|
      modifies this
      ensures Valid() && unchanged(`segs, `bitmapPresent, `totalMem, `allocationCount, `failedAllocationCount)
      ensures bits == Given(old(bits), start, npages) && freeCount == old(freeCount) + 1
      ensures PAGE_SIZE * (npages - (failedFreeCount - old(failedFreeCount))) == old(usedMem) - usedMem
    {
      ghost var was := bits;
      var cleared, actuallyFreed, misses := ClearBits(bits, start, npages);
      bits := cleared;
      failedFreeCount := failedFreeCount + misses;
      usedMem := usedMem - if usedMem >= actuallyFreed then actuallyFreed else usedMem;
      freeMem := freeMem + actuallyFreed;
      freeCount := freeCount + 1;
    }

    /** initialise: the usable entries of the memory map, above the first MiB, become segments, and the
        bitmap goes into the smallest one that can hold it. */
    constructor (memmap: Option<seq<Entry>>)
      ensures Valid() && AboveMin(segs) && usedMem == 0 && Tally(bits) == 0 && Clear(bits, 0, |bits|)
      ensures allocationCount == failedAllocationCount == freeCount == failedFreeCount == 0
      ensures memmap.None? || memmap.value == [] ==> segs == Padded([]) && totalMem == 0 && !bitmapPresent
      ensures memmap.Some? && memmap.value != [] ==>
                var found := SegmentsOf(memmap.value);
                totalMem == Length(found) && BitmapIn(Padded(found), totalMem / 8, segs, bitmapPresent)
    {
      var segments, present, bitmap, total := Padded([]), false, [], 0;
      NoPages(Padded([]), MAX_SEGMENTS);
      if memmap.Some? && memmap.value != [] {
        segments, total := BuildSegments(memmap.value);
        segments, present, bitmap := PrepareBitmap(segments, total);
      }
      segs, bitmapPresent, bits := segments, present, bitmap;
      totalMem, usedMem, freeMem := total, 0, total;
      allocationCount, failedAllocationCount, freeCount, failedFreeCount := 0, 0, 0, 0;
    }
  }

  /** On an initialised allocator palloc and reserve_heap look at the same runs. */
  lemma SameRuns(segs: seq<Segment>, bits: seq<bool>, s: nat, j: nat, n: nat)
    requires AboveMin(segs)
    ensures Fits(segs, bits, false, s, j, n) <==> Fits(segs, bits, true, s, j, n)
  {
  }

  /** ... so they answer alike. */
  lemma ReserveHeapIsPalloc(segs: seq<Segment>, bits: seq<bool>, n: nat, s: nat, j: nat)
    requires AboveMin(segs)
    ensures FirstFit(segs, bits, false, s, j, n) <==> FirstFit(segs, bits, true, s, j, n)
    ensures NoFitBefore(segs, bits, false, s, n) <==> NoFitBefore(segs, bits, true, s, n)
  {
    forall s': nat, j': nat
      ensures Fits(segs, bits, false, s', j', n) <==> Fits(segs, bits, true, s', j', n)
    {
      SameRuns(segs, bits, s', j', n);
    }
  }

  /** The first fit is unique. */
  lemma FirstFitUnique(segs: seq<Segment>, bits: seq<bool>, low: bool, n: nat, s: nat, j: nat, s': nat, j': nat)
    requires FirstFit(segs, bits, low, s, j, n) && FirstFit(segs, bits, low, s', j', n)
    ensures s == s' && j == j'
  {
  }

  // ------------------------------------------------------------------------------------ page addresses

  /** Segment s has the page of bit i at this address. */
  ghost predicate PageInSegment(segs: seq<Segment>, s: nat, i: nat, addr: nat) {
    && s < |segs| && Active(segs[s]) && Offset(segs, s) <= i < Offset(segs, s) + Pages(segs[s])
    && addr == segs[s].base + (i - Offset(segs, s)) * PAGE_SIZE
  }

  /** The page of bit i is at this address. */
  ghost predicate PageAt(segs: seq<Segment>, i: nat, addr: nat) {
    exists s: nat :: PageInSegment(segs, s, i, addr)
  }

  ghost predicate Apart(segs: seq<Segment>) {
    forall s, s' :: 0 <= s < s' < |segs| && Active(segs[s]) && Active(segs[s']) ==>
      segs[s].base + segs[s].length <= segs[s'].base || segs[s'].base + segs[s'].length <= segs[s].base
  }

  /** Different bits stand for different pages. */
  lemma PagesDistinct(segs: seq<Segment>, i: nat, k: nat, addr: nat)
    requires Apart(segs) && PageAt(segs, i, addr) && PageAt(segs, k, addr)
    ensures i == k
  {
  }

  /** The page is in no segment or has been handed out. */
  ghost predicate Reserved(segs: seq<Segment>, bits: seq<bool>, addr: nat) {
    forall i: nat :: PageAt(segs, i, addr) && i < |bits| ==> bits[i]
  }

  /** A bit stands for one page. */
  lemma OnePage(segs: seq<Segment>, s: nat, i: nat, addr: nat, addr': nat)
    requires PageInSegment(segs, s, i, addr) && PageAt(segs, i, addr')
    ensures addr == addr'
  {
    var s': nat :| PageInSegment(segs, s', i, addr');
    if s < s' {
      OffsetGrows(segs, s, s');
    } else if s' < s {
      OffsetGrows(segs, s', s);
    }
  }

  /** One of n pages from page j of segment s on. */
  ghost predicate InRun(segs: seq<Segment>, s: nat, j: nat, n: nat, addr: nat) {
    s < |segs| && exists i: nat :: Offset(segs, s) + j <= i < Offset(segs, s) + j + n && PageInSegment(segs, s, i, addr)
  }

  /** The pages that palloc hands out were not reserved before and are now, and no other page changes. */
  lemma PallocIsFresh(segs: seq<Segment>, bits: seq<bool>, low: bool, s: nat, j: nat, n: nat, addr: nat)
    requires Apart(segs) && Fits(segs, bits, low, s, j, n) && Offset(segs, s) + j + n <= |bits|
    ensures InRun(segs, s, j, n, addr) ==> !Reserved(segs, bits, addr)
    ensures Reserved(segs, Taken(bits, Offset(segs, s) + j, n), addr) <==>
            Reserved(segs, bits, addr) || InRun(segs, s, j, n, addr)
  {
    var first := Offset(segs, s) + j;
    var bits' := Taken(bits, first, n);
    if InRun(segs, s, j, n, addr) {
      var i: nat :| first <= i < first + n && PageInSegment(segs, s, i, addr);
      assert PageAt(segs, i, addr) && !bits[i];
      forall i': nat | PageAt(segs, i', addr)
        ensures i' == i
      {
        PagesDistinct(segs, i, i', addr);
      }
    } else {
      forall i: nat | PageAt(segs, i, addr) && i < |bits|
        ensures bits'[i] == bits[i]
      {
        if first <= i < first + n {
          OnePage(segs, s, i, segs[s].base + (i - Offset(segs, s)) * PAGE_SIZE, addr);
          assert false;
        }
      }
    }
  }

  // --------------------------------------------------------------------------- freeing what was allocated

  /** Segments of whole pages that do not overlap and end below 2^64. */
  ghost predicate WholePages(segs: seq<Segment>) {
    && |segs| == MAX_SEGMENTS && Apart(segs)
    && forall s :: 0 <= s < |segs| && Active(segs[s]) ==>
         segs[s].length % PAGE_SIZE == 0 && segs[s].base + segs[s].length < TWO_64
  }

  /** The address that free looks up is the one it was given only in the higher half; otherwise it is 2^47 or more
      away, in a page with another bit. */
  lemma FreedBitIs(segs: seq<Segment>, s: nat, j: nat, s': nat)
    requires WholePages(segs) && s < MAX_SEGMENTS && Active(segs[s]) && j < Pages(segs[s])
    requires s' < MAX_SEGMENTS && Holds(segs[s'], ToVirtual(segs[s].base + j * PAGE_SIZE))
    ensures FreedBit(segs, s', segs[s].base + j * PAGE_SIZE) == Offset(segs, s) + j <==>
            segs[s].base + j * PAGE_SIZE >= HIGHER_HALF
  {
    var r := segs[s].base + j * PAGE_SIZE;
    var k := PageIn(segs[s'], ToVirtual(r));
    InPages(segs[s'], ToVirtual(r));
    InPages(segs[s], r);
    if s < s' {
      OffsetGrows(segs, s, s');
    } else if s' < s {
      OffsetGrows(segs, s', s);
    }
  }

  lemma InPages(s: Segment, addr: nat)
    requires Holds(s, addr) && s.length % PAGE_SIZE == 0
    ensures PageIn(s, addr) < Pages(s)
  {
  }

  /** free(palloc(n), n) restores the bitmap if and only if the run lies in the higher half. */
  lemma FreeUndoesPalloc(segs: seq<Segment>, bits: seq<bool>, low: bool, s: nat, j: nat, n: nat, s': nat)
    requires WholePages(segs) && n > 0 && Fits(segs, bits, low, s, j, n) && Offset(segs, s) + j + n <= |bits|
    requires FirstHolding(segs, ToVirtual(segs[s].base + j * PAGE_SIZE), s')
    ensures AfterFree(segs, Taken(bits, Offset(segs, s) + j, n), segs[s].base + j * PAGE_SIZE, n, s') == Some(bits) <==>
            segs[s].base + j * PAGE_SIZE >= HIGHER_HALF
  {
    HighIsHeld(segs, s, j, s');
    if s' < MAX_SEGMENTS {
      FreedBitIs(segs, s, j, s');
    }
    FreedRun(segs, bits, Offset(segs, s) + j, segs[s].base + j * PAGE_SIZE, n, s');
  }

  /** A page in the higher half is looked up where it is. */
  lemma HighIsHeld(segs: seq<Segment>, s: nat, j: nat, s': nat)
    requires s < |segs| && Active(segs[s]) && j < Pages(segs[s])
    requires FirstHolding(segs, ToVirtual(segs[s].base + j * PAGE_SIZE), s')
    ensures segs[s].base + j * PAGE_SIZE >= HIGHER_HALF ==> s' < MAX_SEGMENTS
  {
    var r := segs[s].base + j * PAGE_SIZE;
    if r >= HIGHER_HALF {
      assert Holds(segs[s], r);
    }
  }

  lemma FreedRun(segs: seq<Segment>, bits: seq<bool>, a: nat, r: nat, n: nat, s': nat)
    requires n > 0 && a + n <= |bits| && Clear(bits, a, n) && FirstHolding(segs, ToVirtual(r), s')
    requires s' < MAX_SEGMENTS ==> (FreedBit(segs, s', r) == a <==> r >= HIGHER_HALF)
    requires r >= HIGHER_HALF ==> s' < MAX_SEGMENTS
    ensures AfterFree(segs, Taken(bits, a, n), r, n, s') == Some(bits) <==> r >= HIGHER_HALF
  {
    assert Taken(bits, a, n)[a] && !bits[a];
    if s' < MAX_SEGMENTS {
      GivenBack(bits, a, FreedBit(segs, s', r), n);
    }
  }

  /** Clearing n bits undoes setting n clear ones exactly when they are the same. */
  lemma GivenBack(bits: seq<bool>, a: nat, b: nat, n: nat)
    requires n > 0 && a + n <= |bits| && Clear(bits, a, n)
    ensures b + n <= |bits| ==> (Given(Taken(bits, a, n), b, n) == bits <==> a == b)
  {
    if b + n <= |bits| {
      var back := Given(Taken(bits, a, n), b, n);
      if a < b {
        assert back[a] && !bits[a];
      } else if b < a {
        assert back[a + n - 1] && !bits[a + n - 1];
      }
    }
  }

  /** That pair of calls on any allocator. */
  method PallocThenFree(pmm: Pmm, n: nat) returns (r: nat)
    requires pmm.Valid() && WholePages(pmm.segs)
    modifies pmm
    ensures pmm.Valid() && pmm.segs == old(pmm.segs)
    ensures r != 0 ==> (pmm.bits == old(pmm.bits) <==> r >= HIGHER_HALF)
  {
    ghost var segs, bits := pmm.segs, pmm.bits;
    ghost var s, j;
    r, s, j := pmm.Palloc(n);
    if r == 0 {
      return;
    }
    RunInside(segs, s, j, n);
    var inside, s' := pmm.Free(r, n);
    Undone(segs, bits, s, j, n, s', r);
  }

  lemma Undone(segs: seq<Segment>, bits: seq<bool>, s: nat, j: nat, n: nat, s': nat, r: nat)
    requires WholePages(segs) && n > 0 && Fits(segs, bits, false, s, j, n) && Offset(segs, s) + j + n <= |bits|
    requires r == segs[s].base + j * PAGE_SIZE && r != 0 && (LooksUp(r, n) ==> FirstHolding(segs, ToVirtual(r), s'))
    ensures var taken := Taken(bits, Offset(segs, s) + j, n);
            taken != bits && (AfterFree(segs, taken, r, n, s') == Some(bits) <==> r >= HIGHER_HALF)
  {
    var taken := Taken(bits, Offset(segs, s) + j, n);
    assert taken[Offset(segs, s) + j] && !bits[Offset(segs, s) + j];
    if LooksUp(r, n) {
      FreeUndoesPalloc(segs, bits, false, s, j, n, s');
    }
  }

  lemma RunInside(segs: seq<Segment>, s: nat, j: nat, n: nat)
    requires WholePages(segs) && s < |segs| && Active(segs[s]) && 0 < n && j + n <= Pages(segs[s])
    ensures segs[s].base + j * PAGE_SIZE < TWO_64
  {
  }

  /** Two usable entries of ordinary memory, the second one just large enough for the bitmap. */
  const SMALL_MAP: seq<Entry> := [Entry(0x20_0000, 0x4000, true), Entry(0x40_0000, 0x1000, true)]

  lemma SmallSegments(segs: seq<Segment>, present: bool)
    requires BitmapIn(Padded(SegmentsOf(SMALL_MAP)), Length(SegmentsOf(SMALL_MAP)) / 8, segs, present)
    ensures present && segs == Marked(Padded([Segment(0x20_0000, 0x4000, false), Segment(0x40_0000, 0x1000, false)]), 1)
    ensures WholePages(segs)
  {
    var found := [Segment(0x20_0000, 0x4000, false), Segment(0x40_0000, 0x1000, false)];
    SmallFound();
    var before := Padded(found);
    var b: nat :| b <= MAX_SEGMENTS && BestFor(before, 0x5000 / 8, b) && segs == Marked(before, b)
                  && present == (b < MAX_SEGMENTS && before[b].base != 0);
    assert before[0].length == 0x4000 && before[1].length == 0x1000;
    assert b == 1;
  }

  lemma SmallFound()
    ensures SegmentsOf(SMALL_MAP) == [Segment(0x20_0000, 0x4000, false), Segment(0x40_0000, 0x1000, false)]
    ensures Length(SegmentsOf(SMALL_MAP)) == 0x5000
  {
    assert SMALL_MAP[..1] == [SMALL_MAP[0]] && SMALL_MAP[..1][..0] == [];
    assert SegmentsOf([SMALL_MAP[0]]) == [Segment(0x20_0000, 0x4000, false)];
    var found := [Segment(0x20_0000, 0x4000, false), Segment(0x40_0000, 0x1000, false)];
    assert found[1..] == [found[1]] && found[1..][1..] == [];
  }

  /** A page of ordinary memory that is allocated and freed stays in use, and the call counts as failed. */
  method FreeMisses() returns (pmm: Pmm, r: nat)
    ensures fresh(pmm) && pmm.Valid() && r == 0x20_0000 && pmm.usedMem == PAGE_SIZE && Tally(pmm.bits) == 1
    ensures pmm.freeCount == 0 && pmm.failedFreeCount == 1
  {
    pmm := new Pmm(Some(SMALL_MAP));
    SmallSegments(pmm.segs, pmm.bitmapPresent);
    ghost var segs, bits := pmm.segs, pmm.bits;
    FirstPage(segs, bits);
    ghost var s, j;
    r, s, j := pmm.Palloc(1);
    assert s < MAX_SEGMENTS;
    FirstFitUnique(segs, bits, false, 1, s, j, 0, 0);
    assert r == 0x20_0000;
    var inside, s' := pmm.Free(r, 1);
    NobodyHolds(segs, s');
  }

  lemma NobodyHolds(segs: seq<Segment>, s: nat)
    requires segs == Marked(Padded([Segment(0x20_0000, 0x4000, false), Segment(0x40_0000, 0x1000, false)]), 1)
    requires FirstHolding(segs, ToVirtual(0x20_0000), s)
    ensures s >= MAX_SEGMENTS
  {
  }

  lemma FirstPage(segs: seq<Segment>, bits: seq<bool>)
    requires |segs| == MAX_SEGMENTS && segs[0] == Segment(0x20_0000, 0x4000, false) && Clear(bits, 0, |bits|)
    ensures FirstFit(segs, bits, false, 0, 0, 1)
  {
  }
}
