/** The kernel heap of `heap.cpp`: a doubly linked list of headers in front of their payloads. */
module KernelHeap {
  import opened Arithmetic
  import opened HeapBlocks

  /** struct heap_block. */
  datatype Header = Header(base: nat, length: nat, isFree: bool, prev: nat, next: nat)

  /** The headers by their address. */
  type Headers = map<nat, Header>

  /** A byte that is part of a header. */
  const HEADER_BYTE: nat := 256

  function PrevOf(bs: seq<Block>, i: nat): nat
    requires i < |bs|
  {
    if i == 0 then 0 else bs[i - 1].addr
  }

  function NextOf(bs: seq<Block>, i: nat): nat { if i + 1 < |bs| then bs[i + 1].addr else 0 }

  ghost predicate NodeAt(hs: Headers, bs: seq<Block>, i: nat)
    requires i < |bs|
  {
    && bs[i].addr in hs
    && hs[bs[i].addr] == Header(Payload(bs[i]), bs[i].len, bs[i].free, PrevOf(bs, i), NextOf(bs, i))
  }

  /** The headers spell out the blocks. */
  ghost predicate Linked(hs: Headers, bs: seq<Block>) {
    forall i {:trigger NodeAt(hs, bs, i)} :: 0 <= i < |bs| ==> NodeAt(hs, bs, i)
  }

  // ------------------------------------------------------------------------- what happens to the links

  /** The block at a swallows the one behind it. */
  function Absorbed(hs: Headers, a: nat): Headers
    requires a in hs && hs[a].next in hs && (hs[hs[a].next].next != 0 ==> hs[hs[a].next].next in hs)
  {
    var b := hs[hs[a].next];
    var h1 := hs[a := hs[a].(length := hs[a].length + b.length + HDR, next := b.next)];
    if b.next != 0 then h1[b.next := h1[b.next].(prev := a)] else h1
  }

  lemma AbsorbedLinks(hs: Headers, bs: seq<Block>, base: nat, end: nat, i: nat)
    requires Linked(hs, bs) && Ordered(bs, base, end) && base > 0 && i + 1 < |bs|
    ensures var a := bs[i].addr;
            && a in hs && hs[a].next in hs && hs[a].next != 0
            && (hs[hs[a].next].next != 0 ==> hs[hs[a].next].next in hs)
            && Linked(Absorbed(hs, a), Merged(bs, i))
  {
    var a, m := bs[i].addr, Merged(bs, i);
    assert NodeAt(hs, bs, i) && NodeAt(hs, bs, i + 1) && (i + 2 < |bs| ==> NodeAt(hs, bs, i + 2));
    Nonzero(bs, base, end);
    var hs' := Absorbed(hs, a);
    forall j | 0 <= j < |m|
      ensures NodeAt(hs', m, j)
    {
      var k := if j <= i then j else j + 1;
      assert NodeAt(hs, bs, k);
      Distinct(bs, base, end, k, i);
      if i + 2 < |bs| {
        Distinct(bs, base, end, k, i + 2);
        Distinct(bs, base, end, i, i + 2);
      }
    }
  }

  lemma Nonzero(bs: seq<Block>, base: nat, end: nat)
    requires Ordered(bs, base, end) && base > 0
    ensures forall i :: 0 <= i < |bs| ==> bs[i].addr > 0
  {
    forall i | 0 <= i < |bs|
      ensures bs[i].addr > 0
    {
      InHeap(bs, base, end, i);
    }
  }

  /** The block at a is cut to n bytes and a free block made of the rest. */
  function Cut(hs: Headers, a: nat, n: nat): Headers
    requires a in hs && hs[a].length >= n + HDR && (hs[a].next != 0 ==> hs[a].next in hs)
  {
    var c, rest := a + HDR + n, hs[a].next;
    var h1 := hs[c := Header(c + HDR, hs[a].length - n - HDR, true, a, rest)];
    var h2 := if rest != 0 then h1[rest := h1[rest].(prev := c)] else h1;
    h2[a := h2[a].(next := c, length := n)]
  }

  function Flagged(hs: Headers, a: nat, free: bool): Headers
    requires a in hs
  {
    hs[a := hs[a].(isFree := free)]
  }

  lemma FlaggedLinks(hs: Headers, bs: seq<Block>, base: nat, end: nat, i: nat, free: bool)
    requires Linked(hs, bs) && Ordered(bs, base, end) && i < |bs|
    ensures bs[i].addr in hs && Linked(Flagged(hs, bs[i].addr, free), bs[i := bs[i].(free := free)])
  {
    assert NodeAt(hs, bs, i);
    var hs', bs' := Flagged(hs, bs[i].addr, free), bs[i := bs[i].(free := free)];
    forall j | 0 <= j < |bs|
      ensures NodeAt(hs', bs', j)
    {
      assert NodeAt(hs, bs, j);
      Distinct(bs, base, end, i, j);
    }
  }

  function CutParts(b: Block, n: nat): seq<Block>
    requires b.len >= n + HDR
  {
    [b.(len := n), Block(b.addr + HDR + n, b.len - n - HDR, true)]
  }

  /** Block i cut in two, the first part still free. */
  function CutAt(bs: seq<Block>, i: nat, n: nat): seq<Block>
    requires i < |bs| && bs[i].len >= n + HDR
  {
    Splice(bs, i, 1, CutParts(bs[i], n))
  }

  lemma CutLinks(hs: Headers, bs: seq<Block>, base: nat, end: nat, i: nat, n: nat)
    requires Linked(hs, bs) && Ordered(bs, base, end) && base > 0 && i < |bs| && bs[i].len >= n + HDR
    ensures var a := bs[i].addr;
            && a in hs && hs[a].length >= n + HDR && (hs[a].next != 0 ==> hs[a].next in hs)
            && Linked(Cut(hs, a, n), CutAt(bs, i, n))
  {
    var a, c := bs[i].addr, bs[i].addr + HDR + n;
    assert NodeAt(hs, bs, i) && (i + 1 < |bs| ==> NodeAt(hs, bs, i + 1));
    Nonzero(bs, base, end);
    if i + 1 < |bs| {
      CutElsewhere(bs, base, end, i, n, i + 1);
    }
    var hs', bs' := Cut(hs, a, n), CutAt(bs, i, n);
    forall j | 0 <= j < |bs'|
      ensures NodeAt(hs', bs', j)
    {
      if j != i + 1 {
        var k := if j <= i then j else j - 1;
        assert NodeAt(hs, bs, k);
        CutElsewhere(bs, base, end, i, n, k);
      }
    }
  }

  lemma CutElsewhere(bs: seq<Block>, base: nat, end: nat, i: nat, n: nat, k: nat)
    requires Ordered(bs, base, end) && i < |bs| && k < |bs| && bs[i].len >= n + HDR
    ensures bs[k].addr == bs[i].addr <==> k == i
    ensures bs[k].addr != bs[i].addr + HDR + n
    ensures i + 1 < |bs| ==> (bs[k].addr == bs[i + 1].addr <==> k == i + 1)
  {
    Distinct(bs, base, end, i, k);
    if i + 1 < |bs| {
      Distinct(bs, base, end, i + 1, k);
    }
    if k < i {
      AddressesGrow(bs, base, end, k, i);
    } else if i < k {
      AddressesGrow(bs, base, end, i, k);
    }
  }

  function Resized(hs: Headers, a: nat, n: nat): Headers
    requires a in hs
  {
    hs[a := hs[a].(length := n)]
  }

  lemma ResizedLinks(hs: Headers, bs: seq<Block>, base: nat, end: nat, i: nat, n: nat)
    requires Linked(hs, bs) && Ordered(bs, base, end) && i < |bs|
    ensures bs[i].addr in hs && Linked(Resized(hs, bs[i].addr, n), Shrunk(bs, i, n))
  {
    assert NodeAt(hs, bs, i);
    var hs', bs' := Resized(hs, bs[i].addr, n), Shrunk(bs, i, n);
    forall j | 0 <= j < |bs|
      ensures NodeAt(hs', bs', j)
    {
      assert NodeAt(hs, bs, j);
      Distinct(bs, base, end, i, j);
    }
  }

  // --------------------------------------------------------------------------------------------- bytes

  /** The bytes from `at` on are overwritten. */
  function Stamped(bytes: seq<nat>, at: nat, n: nat, value: nat): (r: seq<nat>)
    requires at + n <= |bytes|
    ensures |r| == |bytes|
    ensures forall i :: 0 <= i < |r| ==> r[i] == if at <= i < at + n then value else bytes[i]
  {
    seq(|bytes|, i requires 0 <= i < |bytes| => if at <= i < at + n then value else bytes[i])
  }

  /** n bytes are copied from `from` to `to`. */
  function Copied(bytes: seq<nat>, to: nat, from: nat, n: nat): (r: seq<nat>)
    requires to + n <= |bytes| && from + n <= |bytes|
    ensures |r| == |bytes|
    ensures forall i :: 0 <= i < |r| ==> r[i] == if to <= i < to + n then bytes[from + i - to] else bytes[i]
  {
    seq(|bytes|, i requires 0 <= i < |bytes| => if to <= i < to + n then bytes[from + i - to] else bytes[i])
  }

  // --------------------------------------------------------------------------------- data of live blocks

  /** The payload at addr + HDR has not changed. */
  ghost predicate SameData(base: nat, bytes: seq<nat>, bytes': seq<nat>, addr: nat, len: nat) {
    |bytes'| == |bytes| && forall a :: 0 <= a < |bytes| && addr + HDR <= base + a < addr + HDR + len ==>
        bytes'[a] == bytes[a]
  }

  /** Every live block but the one at `except` is still there and has its data. */
  ghost predicate KeepsLive(base: nat, bs: seq<Block>, bytes: seq<nat>, bs': seq<Block>, bytes': seq<nat>,
                            except: nat) {
    forall addr, len {:trigger Live(bs, addr, len)} :: Live(bs, addr, len) && addr != except ==>
      Live(bs', addr, len) && SameData(base, bytes, bytes', addr, len)
  }

  /** Nothing outside the payload of block i has changed. */
  ghost predicate TouchesOnly(base: nat, bytes: seq<nat>, bytes': seq<nat>, b: Block) {
    && |bytes'| == |bytes|
    && forall a :: 0 <= a < |bytes| && !(Payload(b) <= base + a < End(b)) ==> bytes'[a] == bytes[a]
  }

  lemma UsedKeepsLive(bs: seq<Block>, base: nat, end: nat, i: nat, n: nat, bytes: seq<nat>, bytes': seq<nat>)
    requires Ordered(bs, base, end) && i < |bs| && bs[i].free && TouchesOnly(base, bytes, bytes', bs[i])
    ensures forall except :: KeepsLive(base, bs, bytes, Used(bs, i, n), bytes', except)
  {
    forall addr, len | Live(bs, addr, len)
      ensures Live(Used(bs, i, n), addr, len) && SameData(base, bytes, bytes', addr, len)
    {
      var j :| 0 <= j < |bs| && bs[j] == Block(addr, len, false);
      PayloadsDisjoint(bs, base, end, i, j);
      UsedLive(bs, i, n, addr, len);
    }
  }

  /** Where block i is after block k was taken. */
  function Shifted(bs: seq<Block>, k: nat, n: nat, i: nat): (i': nat)
    requires k < |bs| && i < |bs| && i != k
    ensures i' < |Used(bs, k, n)| && Used(bs, k, n)[i'] == bs[i] && i' != k
  {
    if i < k then i else i + |UsedParts(bs[k], n)| - 1
  }

  class Heap {
    const heapBase: nat
    const heapSize: nat
    var headers: Headers
    var bytes: seq<nat>          // heapBase is at index 0
    ghost var blocks: seq<Block>
    ghost var dropped: nat       // bytes given up by shrinking reallocs

    ghost function End(): nat { heapBase + heapSize }

    /** The list is in order. */
    ghost predicate InOrder()
      reads this
    {
      && heapBase > 0 && Linked(headers, blocks) && Ordered(blocks, heapBase, End())
      && Total(blocks) + dropped == heapSize && |bytes| == heapSize
    }

    ghost predicate Valid()
      reads this
    {
      InOrder() && Calm(blocks)
    }

    /** initialise: one free block. */
    constructor (base: nat, size: nat)
      requires base > 0 && size >= HDR
      ensures Valid() && heapBase == base && heapSize == size && dropped == 0
      ensures blocks == [Block(base, size - HDR, true)]
    {
      heapBase, heapSize := base, size;
      headers := map[base := Header(base + HDR, size - HDR, true, 0, 0)];
      bytes := seq(size, i => if i < HDR then HEADER_BYTE else 0);
      blocks, dropped := [Block(base, size - HDR, true)], 0;
      TotalOne(Block(base, size - HDR, true));
    }

    /** The search of malloc: the first of the smallest free blocks that are large enough. */
    method FindBest(n: nat) returns (best: nat, ghost i: nat)
      requires InOrder()
      ensures BestFit(blocks, n, i) && best == if i < |blocks| then blocks[i].addr else 0
    {
      var current := heapBase;
      best, i := 0, |blocks|;
      ghost var k := 0;
      Nonzero(blocks, heapBase, End());
      while current != 0
        invariant 0 <= k <= |blocks| && current == (if k < |blocks| then blocks[k].addr else 0)
        invariant i <= |blocks| && best == (if i < |blocks| then blocks[i].addr else 0)
        invariant i < |blocks| ==> i < k
        invariant BestAmong(blocks, n, i, k)
        decreases |blocks| - k
      {
        assert NodeAt(headers, blocks, k) && (i < |blocks| ==> NodeAt(headers, blocks, i));
        if headers[current].isFree && headers[current].length >= n {
          if best == 0 || headers[current].length < headers[best].length {
            best, i := current, k;
          }
        }
        current, k := headers[current].next, k + 1;
      }
    }

    /** A free block is made of what is left of the block at best after n bytes. */
    method CutBlock(best: nat, n: nat)
      requires best in headers && headers[best].length >= n + HDR
      requires headers[best].next != 0 ==> headers[best].next in headers
      requires heapBase <= best && best + HDR + n + HDR <= heapBase + |bytes| && best != headers[best].next
      requires headers[best].next != best + HDR + n
      modifies `headers, `bytes
      ensures headers == Cut(old(headers), best, n)
      ensures bytes == Stamped(old(bytes), best + HDR + n - heapBase, HDR, HEADER_BYTE)
    {
      var newBlock, rest := best + HDR + n, headers[best].next;
      headers := headers[newBlock := Header(newBlock + HDR, headers[best].length - n - HDR, true, best, rest)];
      if rest != 0 {
        headers := headers[rest := headers[rest].(prev := newBlock)];
      }
      headers := headers[best := headers[best].(next := newBlock)];
      headers := headers[best := headers[best].(length := n)];
      bytes := Stamped(bytes, newBlock - heapBase, HDR, HEADER_BYTE);
    }

    /** The second half of malloc: block i is cut if it is long enough, and marked as used. */
    method TakeBlock(best: nat, n: nat, ghost i: nat)
      requires InOrder() && i < |blocks| && best == blocks[i].addr && blocks[i].free
      modifies this
      ensures InOrder() && dropped == old(dropped) && (old(Calm(blocks)) ==> Calm(blocks))
      ensures blocks == Used(old(blocks), i, n)
      ensures TouchesOnly(heapBase, old(bytes), bytes, old(blocks)[i])
    {
      ghost var b := blocks[i];
      InHeap(blocks, heapBase, End(), i);
      UsedKeeps(blocks, heapBase, End(), i, n);
      ghost var goal := Used(blocks, i, n);
      assert NodeAt(headers, blocks, i);
      if headers[best].length > n + HDR {
        CutLinks(headers, blocks, heapBase, End(), i, n);
        CutIsOrdered(blocks, heapBase, End(), i, n);
        if i + 1 < |blocks| {
          CutElsewhere(blocks, heapBase, End(), i, n, i + 1);
        }
        Nonzero(blocks, heapBase, End());
        CutBlock(best, n);
        blocks := CutAt(blocks, i, n);
      }
      assert goal == blocks[i := blocks[i].(free := false)];
      FlaggedLinks(headers, blocks, heapBase, End(), i, false);
      headers := Flagged(headers, best, false);
      blocks := goal;
    }

    /** Null and nothing changed when no free block has n bytes; otherwise the first of the smallest that do,
        with no byte outside it touched and every live block as it was. */
    ghost predicate MallocDone(bs: seq<Block>, was: seq<nat>, n: nat, r: nat, i: nat)
      reads this
    {
      && BestFit(bs, n, i)
      && if i == |bs| then r == 0 && blocks == bs && bytes == was
         else && r == Payload(bs[i]) && r > 0 && blocks == Used(bs, i, n)
              && TouchesOnly(heapBase, was, bytes, bs[i])
              && KeepsLive(heapBase, bs, was, blocks, bytes, 0)
    }

    /** malloc. */
    method Malloc(n: nat) returns (r: nat, ghost i: nat)
      requires Valid()
      modifies this
      ensures Valid() && dropped == old(dropped) && MallocDone(old(blocks), old(bytes), n, r, i)
      ensures r == 0 ==> unchanged(this)
    {
      var best;
      best, i := FindBest(n);
      Nonzero(blocks, heapBase, End());
      if best == 0 {
        return 0, i;
      }
      assert NodeAt(headers, blocks, i);
      r := headers[best].base;
      TakeBlock(best, n, i);
      UsedKeepsLive(old(blocks), heapBase, End(), i, n, old(bytes), bytes);
    }

    /** The search of free and realloc: the block whose payload is at ptr, or null. */
    method FindBlock(ptr: nat) returns (current: nat, ghost i: nat)
      requires InOrder()
      ensures i <= |blocks| && (i < |blocks| ==> Payload(blocks[i]) == ptr && current == blocks[i].addr)
      ensures i == |blocks| ==> current == 0 && forall j :: 0 <= j < |blocks| ==> Payload(blocks[j]) != ptr
    {
      current, i := heapBase, 0;
      Nonzero(blocks, heapBase, End());
      while current != 0
        invariant i <= |blocks| && current == (if i < |blocks| then blocks[i].addr else 0)
        invariant forall j :: 0 <= j < i ==> Payload(blocks[j]) != ptr
        decreases |blocks| - i
      {
        assert NodeAt(headers, blocks, i);
        if headers[current].base == ptr {
          return;
        }
        current, i := headers[current].next, i + 1;
      }
    }

    /** The block at a, the i-th, swallows the one behind it. */
    method Absorb(a: nat, ghost i: nat)
      requires InOrder() && i + 1 < |blocks| && a == blocks[i].addr
      modifies `headers, `blocks
      ensures InOrder() && blocks == Merged(old(blocks), i)
    {
      AbsorbedLinks(headers, blocks, heapBase, End(), i);
      MergedKeeps(blocks, heapBase, End(), i);
      var b := headers[a].next;
      headers := headers[a := headers[a].(length := headers[a].length + headers[b].length + HDR)];
      headers := headers[a := headers[a].(next := headers[b].next)];
      if headers[a].next != 0 {
        headers := headers[headers[a].next := headers[headers[a].next].(prev := a)];
      }
      Distinct(blocks, heapBase, End(), i, i + 1);
      assert NodeAt(old(headers), blocks, i);
      assert headers == Absorbed(old(headers), a);
      blocks := Merged(blocks, i);
    }

    /** free: the block is merged with free neighbours.  A pointer that is no payload is ignored, and so is
        one to a block that is already free. */
    method Free(ptr: nat) returns (ghost i: nat)
      requires Valid()
      modifies `headers, `blocks
      ensures Valid() && i <= |old(blocks)|
      ensures i == |old(blocks)| ==>
                unchanged(this) && (ptr == 0 || forall j :: 0 <= j < |blocks| ==> Payload(blocks[j]) != ptr)
      ensures i < |old(blocks)| ==> Payload(old(blocks)[i]) == ptr && blocks == Freed(old(blocks), i)
      ensures i < |old(blocks)| ==> KeepsLive(heapBase, old(blocks), bytes, blocks, bytes, old(blocks)[i].addr)
      ensures i < |old(blocks)| ==> Released(blocks, old(blocks)[i])
    {
      if ptr == 0 {
        return |blocks|;
      }
      var current;
      current, i := FindBlock(ptr);
      if current == 0 {
        Nonzero(blocks, heapBase, End());
        return;
      }
      FreedKeeps(blocks, heapBase, End(), i);
      FreedKeepsLive(heapBase, blocks, i, bytes);
      FreedIsReleased(blocks, heapBase, End(), i);
      UnusedKeeps(blocks, heapBase, End(), i);
      FlaggedLinks(headers, blocks, heapBase, End(), i, true);
      headers := Flagged(headers, current, true);
      blocks := Unused(blocks, i);
      Join(current, i);
    }

    /** The two merges of free. */
    method Join(current: nat, ghost i: nat)
      requires InOrder() && i < |blocks| && current == blocks[i].addr
      modifies `headers, `blocks
      ensures InOrder() && blocks == Joined(old(blocks), i)
    {
      assert NodeAt(headers, blocks, i) && (i + 1 < |blocks| ==> NodeAt(headers, blocks, i + 1));
      Nonzero(blocks, heapBase, End());
      if headers[current].next != 0 && headers[headers[current].next].isFree {
        Absorb(current, i);
      }
      assert NodeAt(headers, blocks, i) && (i > 0 ==> NodeAt(headers, blocks, i - 1));
      Nonzero(blocks, heapBase, End());
      if headers[current].prev != 0 && headers[headers[current].prev].isFree {
        Absorb(headers[current].prev, i - 1);
      }
    }

    /** defragment: free blocks that meet are merged; in every state that the other operations reach there are
        none and nothing changes. */
    method Defragment()
      requires InOrder()
      modifies `headers, `blocks
      ensures Valid() && blocks == Defragmented(old(blocks), 0)
      ensures old(Calm(blocks)) ==> unchanged(this)
      ensures forall addr, len :: Live(blocks, addr, len) <==> Live(old(blocks), addr, len)
    {
      forall addr, len
        ensures Live(Defragmented(blocks, 0), addr, len) <==> Live(blocks, addr, len)
      {
        DefragmentedLive(blocks, 0, addr, len);
      }
      DefragmentedIsCalm(blocks, heapBase, End(), 0);
      var current := heapBase;
      ghost var k := 0;
      Nonzero(blocks, heapBase, End());
      while current != 0
        invariant InOrder() && 0 <= k <= |blocks| && current == (if k < |blocks| then blocks[k].addr else 0)
        invariant Defragmented(blocks, k) == Defragmented(old(blocks), 0)
        invariant old(Calm(blocks)) ==> unchanged(this)
        decreases |blocks| - k
      {
        assert NodeAt(headers, blocks, k) && (k + 1 < |blocks| ==> NodeAt(headers, blocks, k + 1));
        Nonzero(blocks, heapBase, End());
        if headers[current].isFree && headers[current].next != 0 && headers[headers[current].next].isFree {
          assert !NotBoth(blocks, k);
          Absorb(current, k);
        } else {
          current, k := headers[current].next, k + 1;
        }
      }
      Nonzero(blocks, heapBase, End());
    }

    /** memcpy between two places that do not overlap. */
    method CopyBytes(to: nat, from: nat, n: nat)
      requires heapBase <= to && to + n <= heapBase + |bytes| && heapBase <= from && from + n <= heapBase + |bytes|
      requires to + n <= from || from + n <= to
      modifies `bytes
      ensures bytes == Copied(old(bytes), to - heapBase, from - heapBase, n)
    {
      ghost var was := bytes;
      for i := 0 to n
        invariant bytes == Copied(was, to - heapBase, from - heapBase, i)
      {
        bytes := bytes[to - heapBase + i := bytes[from - heapBase + i]];
      }
    }

    /** The growing branch of realloc for block i: a new block is filled with its data and it is freed.  k is
        the block that is used. */
    method MoveBlock(current: nat, n: nat, ghost i: nat) returns (r: nat, ghost k: nat)
      requires Valid() && i < |blocks| && current == blocks[i].addr && blocks[i].len < n
      modifies this
      ensures Valid() && BestFit(old(blocks), n, k) && dropped == old(dropped)
      ensures k == |old(blocks)| ==> r == 0 && unchanged(this)
      ensures k < |old(blocks)| ==> r == Payload(old(blocks)[k]) && DataMoved(old(blocks), old(bytes), i, k, n)
    {
      r, k := Malloc(n);
      if r == 0 {
        return;
      }
      CopyThenFree(current, r, n, old(blocks), old(bytes), i, k);
    }

    /** The end of that branch.  bs and was are the state before block k was taken. */
    method CopyThenFree(current: nat, r: nat, n: nat, ghost bs: seq<Block>, ghost was: seq<nat>, ghost i: nat,
                        ghost k: nat)
      requires Valid() && Ordered(bs, heapBase, End()) && i < |bs|
      requires k < |bs| && i != k && bs[i].len < n && Suits(bs[k], n)
      requires blocks == Used(bs, k, n) && TouchesOnly(heapBase, was, bytes, bs[k]) && |was| == heapSize
      requires current == bs[i].addr && r == Payload(bs[k])
      modifies `headers, `blocks, `bytes
      ensures Valid() && DataMoved(bs, was, i, k, n)
    {
      var ptr := current + HDR;
      ghost var full, used, i' := bytes, blocks, Shifted(bs, k, n, i);
      InHeap(bs, heapBase, End(), i);
      InHeap(bs, heapBase, End(), k);
      PayloadsDisjoint(bs, heapBase, End(), i, k);
      assert NodeAt(headers, blocks, i');
      CopyBytes(r, ptr, headers[current].length);
      AfterMove(bs, heapBase, End(), i, k, n, was, full, bytes);
      FreeBlock(ptr, i');
    }

    /** free on the pointer to block i. */
    method FreeBlock(ptr: nat, ghost i: nat)
      requires Valid() && i < |blocks| && Payload(blocks[i]) == ptr
      modifies `headers, `blocks
      ensures Valid() && blocks == Freed(old(blocks), i)
    {
      ghost var j := Free(ptr);
      Distinct(old(blocks), heapBase, End(), j, i);
    }

    ghost predicate DataMoved(bs: seq<Block>, was: seq<nat>, i: nat, k: nat, n: nat)
      reads this
    {
      && i < |bs| && k < |bs| && |was| == |bytes| && heapBase <= bs[i].addr && heapBase <= bs[k].addr
      && HeapBlocks.End(bs[i]) <= heapBase + |bytes| && Payload(bs[k]) + bs[i].len <= heapBase + |bytes|
      && HeapBlocks.End(bs[k]) <= heapBase + |bytes|
      && Moved(heapBase, bs, was, blocks, bytes, i, bs[k], n)
    }

    /** realloc.  i is the block whose payload is at ptr, k the one that malloc finds where it is called. */
    method Realloc(ptr: nat, n: nat) returns (r: nat, ghost i: nat, ghost k: nat)
      requires Valid()
      modifies this
      ensures Valid()
      // a null pointer: malloc
      ensures ptr == 0 ==> MallocDone(old(blocks), old(bytes), n, r, k) && dropped == old(dropped)
      // a pointer that is no payload: nothing
      ensures ptr != 0 ==> i <= |old(blocks)| && (i < |old(blocks)| ==> Payload(old(blocks)[i]) == ptr)
      ensures ptr != 0 && i == |old(blocks)| ==>
                r == 0 && unchanged(this) && forall j :: 0 <= j < |blocks| ==> Payload(blocks[j]) != ptr
      // no bytes: free
      ensures ptr != 0 && i < |old(blocks)| && n == 0 ==>
                && r == 0 && blocks == Freed(old(blocks), i) && bytes == old(bytes) && dropped == old(dropped)
                && Released(blocks, old(blocks)[i])
      // no more bytes than there are: the rest is dropped
      ensures ptr != 0 && i < |old(blocks)| && 0 < n <= old(blocks)[i].len ==>
                && r == ptr && blocks == Shrunk(old(blocks), i, n) && bytes == old(bytes)
                && dropped == old(dropped) + old(blocks)[i].len - n
      // more bytes: the data moves
      ensures ptr != 0 && i < |old(blocks)| && old(blocks)[i].len < n ==>
                && BestFit(old(blocks), n, k) && dropped == old(dropped)
                && (k == |old(blocks)| ==> r == 0 && unchanged(this))
                && (k < |old(blocks)| ==> r == Payload(old(blocks)[k]) && DataMoved(old(blocks), old(bytes), i, k, n))
    {
      i, k := 0, 0;
      if ptr == 0 {
        r, k := Malloc(n);
        return;
      }
      if n == 0 {
        i := Free(ptr);
        return 0, i, 0;
      }
      var current;
      current, i := FindBlock(ptr);
      Nonzero(blocks, heapBase, End());
      if current == 0 {
        return 0, i, 0;
      }
      assert NodeAt(headers, blocks, i);
      if headers[current].length >= n {
        ShrunkKeeps(blocks, heapBase, End(), i, n);
        ResizedLinks(headers, blocks, heapBase, End(), i, n);
        dropped := dropped + headers[current].length - n;
        headers := Resized(headers, current, n);
        blocks := Shrunk(blocks, i, n);
        return headers[current].base, i, 0;
      }
      r, k := MoveBlock(current, n, i);
    }

    /** calloc: as malloc, with the product taken modulo 2^64 and the payload zeroed. */
    method Calloc(n: nat, size: nat) returns (r: nat, ghost i: nat)
      requires Valid()
      modifies this
      ensures Valid() && dropped == old(dropped) && MallocDone(old(blocks), old(bytes), n * size % TWO_64, r, i)
      ensures r != 0 ==> forall a :: r <= heapBase + a < r + n * size % TWO_64 ==> 0 <= a < |bytes| && bytes[a] == 0
    {
      var total := n * size % TWO_64;
      r, i := Malloc(total);
      if r != 0 {
        InHeap(old(blocks), heapBase, End(), i);
        ZeroBytes(r, total);
        UsedKeepsLive(old(blocks), heapBase, End(), i, total, old(bytes), bytes);
      }
    }

    /** malloc_aligned: what becomes of the list and what is returned, by cases; the list stays in order, no two
        adjacent blocks become free, and no live block changes.  A request that is larger than a word together with
        its alignment is reported and nothing is done; the source goes on with the wrapped sum. */
    method MallocAligned(n: nat, alignment: nat) returns (r: nat, wrapped: bool, ghost i: nat)
      requires Valid() && End() < TWO_64
      modifies this
      ensures Valid() && dropped == old(dropped)
      ensures KeepsLive(heapBase, old(blocks), old(bytes), blocks, bytes, 0)
      ensures wrapped <==> PowerOfTwoOrZero(alignment) && n + alignment >= TWO_64
      ensures !wrapped ==> AlignedDone(old(blocks), blocks, n, alignment, i, r)
      ensures r == 0 ==> unchanged(this)
    {
      wrapped := false;
      if !PowerOfTwoOrZero(alignment) {
        return 0, false, 0;
      }
      if n + alignment >= TWO_64 {
        return 0, true, 0;
      }
      var best;
      best, i := FindBest(n + alignment);
      Nonzero(blocks, heapBase, End());
      if best == 0 {
        return 0, false, i;
      }
      assert NodeAt(headers, blocks, i);
      InHeap(blocks, heapBase, End(), i);
      var padding := Padding(headers[best].base, alignment);
      if padding == 0 {
        r := headers[best].base;
        TakeBlock(best, n, i);
        UsedKeepsLive(old(blocks), heapBase, End(), i, n, old(bytes), bytes);
        return;
      }
      if headers[best].length <= padding + HDR {
        return 0, false, i;
      }
      ghost var bs, was := blocks, bytes;
      Pad(best, padding, i);
      assert NodeAt(headers, blocks, i + 1);
      best := best + HDR + padding;
      r := headers[best].base;
      ghost var padded := bytes;
      CutUsedCalm(bs, i, padding, n);
      TakeBlock(best, n, i + 1);
      PaddedKeepsLive(bs, heapBase, End(), i, padding, n, was, padded, bytes);
    }

    /** The block is cut so that the second part starts behind the padding. */
    method Pad(best: nat, padding: nat, ghost i: nat)
      requires InOrder() && i < |blocks| && best == blocks[i].addr && blocks[i].free && blocks[i].len > padding + HDR
      modifies this
      ensures InOrder() && dropped == old(dropped) && blocks == CutAt(old(blocks), i, padding)
      ensures TouchesOnly(heapBase, old(bytes), bytes, old(blocks)[i])
    {
      InHeap(blocks, heapBase, End(), i);
      assert NodeAt(headers, blocks, i);
      CutLinks(headers, blocks, heapBase, End(), i, padding);
      CutIsOrdered(blocks, heapBase, End(), i, padding);
      CutTotal(blocks, i, padding);
      if i + 1 < |blocks| {
        CutElsewhere(blocks, heapBase, End(), i, padding, i + 1);
      }
      Nonzero(blocks, heapBase, End());
      CutBlock(best, padding);
      blocks := CutAt(blocks, i, padding);
    }

    /** memset to zero. */
    method ZeroBytes(to: nat, n: nat)
      requires heapBase <= to && to + n <= heapBase + |bytes|
      modifies `bytes
      ensures bytes == Stamped(old(bytes), to - heapBase, n, 0)
    {
      ghost var was := bytes;
      for i := 0 to n
        invariant bytes == Stamped(was, to - heapBase, i, 0)
      {
        bytes := bytes[to - heapBase + i := 0];
      }
    }
  }

  /** malloc and then free: the list is as before. */
  method MallocThenFree(heap: Heap, n: nat) returns (r: nat)
    requires heap.Valid()
    modifies heap
    ensures heap.Valid() && heap.blocks == old(heap.blocks)
  {
    ghost var i, j;
    ghost var bs := heap.blocks;
    r, i := heap.Malloc(n);
    if r != 0 {
      ghost var used := heap.blocks;
      UsedMeans(bs, i, n);
      FreeUndoesMalloc(bs, i, n);
      j := heap.Free(r);
      Distinct(used, heap.heapBase, heap.End(), i, j);
    }
  }

  /** free and then malloc: a request for no more than the block had succeeds. */
  method FreeThenMalloc(heap: Heap, ptr: nat, n: nat) returns (r: nat, ghost i: nat)
    requires heap.Valid() && ptr != 0
    modifies heap
    ensures heap.Valid() && i <= |old(heap.blocks)|
    ensures i == |old(heap.blocks)| ==> forall j :: 0 <= j < |old(heap.blocks)| ==> Payload(old(heap.blocks)[j]) != ptr
    ensures i < |old(heap.blocks)| ==>
              Payload(old(heap.blocks)[i]) == ptr && (n <= old(heap.blocks)[i].len ==> r != 0)
  {
    ghost var k;
    i := heap.Free(ptr);
    ghost var freed := heap.blocks;
    r, k := heap.Malloc(n);
    if i < |old(heap.blocks)| && n <= old(heap.blocks)[i].len {
      RoomIsFound(freed, old(heap.blocks)[i], n, k);
    }
  }

  lemma FreedKeepsLive(base: nat, bs: seq<Block>, i: nat, bytes: seq<nat>)
    requires i < |bs|
    ensures KeepsLive(base, bs, bytes, Freed(bs, i), bytes, bs[i].addr)
  {
    forall addr, len | Live(bs, addr, len) && addr != bs[i].addr
      ensures Live(Freed(bs, i), addr, len)
    {
      FreedLive(bs, i, addr, len);
    }
  }

  /** A live block of at least n bytes. */
  ghost predicate LiveAtLeast(bs: seq<Block>, addr: nat, n: nat) {
    exists b :: b in bs && !b.free && b.addr == addr && b.len >= n
  }

  function Data(base: nat, bytes: seq<nat>, at: nat, len: nat): seq<nat>
    requires base <= at && at + len <= base + |bytes|
  {
    bytes[at - base..at - base + len]
  }

  /** The data of block i is now in the live block b of at least n bytes, its old place is free, and no other live
      block has changed. */
  ghost predicate Moved(base: nat, bs: seq<Block>, bytes: seq<nat>, bs': seq<Block>, bytes': seq<nat>, i: nat,
                        b: Block, n: nat)
    requires i < |bs| && base <= bs[i].addr && base <= b.addr && |bytes| == |bytes'|
    requires End(bs[i]) <= base + |bytes| && Payload(b) + bs[i].len <= base + |bytes|
  {
    && LiveAtLeast(bs', b.addr, n) && Released(bs', bs[i])
    && Data(base, bytes', Payload(b), bs[i].len) == Data(base, bytes, Payload(bs[i]), bs[i].len)
    && KeepsLive(base, bs, bytes, bs', bytes', bs[i].addr)
  }

  /** Block k is taken for n bytes, the data of block i is copied there, and block i is freed. */
  ghost predicate Moving(bs: seq<Block>, base: nat, end: nat, i: nat, k: nat, n: nat,
                         bytes: seq<nat>, full: seq<nat>, bytes': seq<nat>) {
    && Ordered(bs, base, end) && |bytes| == end - base && i < |bs| && k < |bs| && i != k && bs[i].len < n
    && Suits(bs[k], n)
    && TouchesOnly(base, bytes, full, bs[k]) && base <= bs[k].addr && base <= bs[i].addr && End(bs[k]) <= end
    && End(bs[i]) <= end
    && bytes' == Copied(full, Payload(bs[k]) - base, Payload(bs[i]) - base, bs[i].len)
  }

  lemma MovedData(bs: seq<Block>, base: nat, end: nat, i: nat, k: nat, n: nat,
                  bytes: seq<nat>, full: seq<nat>, bytes': seq<nat>)
    requires Moving(bs, base, end, i, k, n, bytes, full, bytes')
    ensures Data(base, bytes', Payload(bs[k]), bs[i].len) == Data(base, bytes, Payload(bs[i]), bs[i].len)
  {
    PayloadsDisjoint(bs, base, end, i, k);
  }

  lemma MovedOther(bs: seq<Block>, base: nat, end: nat, i: nat, k: nat, n: nat,
                   bytes: seq<nat>, full: seq<nat>, bytes': seq<nat>, addr: nat, len: nat)
    requires Moving(bs, base, end, i, k, n, bytes, full, bytes') && Live(bs, addr, len)
    ensures SameData(base, bytes, bytes', addr, len)
  {
    var j :| 0 <= j < |bs| && bs[j] == Block(addr, len, false);
    PayloadsDisjoint(bs, base, end, j, k);
  }

  lemma AfterMove(bs: seq<Block>, base: nat, end: nat, i: nat, k: nat, n: nat,
                  bytes: seq<nat>, full: seq<nat>, bytes': seq<nat>)
    requires Moving(bs, base, end, i, k, n, bytes, full, bytes')
    ensures var i' := Shifted(bs, k, n, i);
            Moved(base, bs, bytes, Freed(Used(bs, k, n), i'), bytes', i, bs[k], n)
  {
    var used, i' := Used(bs, k, n), Shifted(bs, k, n, i);
    MovedData(bs, base, end, i, k, n, bytes, full, bytes');
    var b := used[k];
    Distinct(bs, base, end, i, k);
    assert b == Block(bs[k].addr, b.len, false) && b.len >= n;
    FreedLive(used, i', b.addr, b.len);
    assert LiveAtLeast(Freed(used, i'), b.addr, n);
    UsedOrdered(bs, base, end, k, n);
    FreedIsReleased(used, base, end, i');
    forall addr, len | Live(bs, addr, len) && addr != bs[i].addr
      ensures Live(Freed(used, i'), addr, len) && SameData(base, bytes, bytes', addr, len)
    {
      MovedOther(bs, base, end, i, k, n, bytes, full, bytes', addr, len);
      UsedLive(bs, k, n, addr, len);
      FreedLive(used, i', addr, len);
    }
  }

  function Pow2(k: nat): nat { if k == 0 then 1 else 2 * Pow2(k - 1) }

  /** alignment & (alignment - 1) is 0. */
  predicate PowerOfTwoOrZero(alignment: nat) { alignment == 0 || exists k | 0 <= k < 64 :: alignment == Pow2(k) }

  /** How far the next aligned address is, in 64-bit arithmetic. */
  function Padding(raw: nat, alignment: nat): nat
    requires raw < TWO_64
  {
    if alignment == 0 then TWO_64 - raw else (alignment - raw % alignment) % alignment
  }

  /** What malloc_aligned does to the list and returns: null for an alignment that is no power of two, for want of a
      free block of n + alignment bytes, and when the padding leaves no room for a second header. */
  ghost predicate AlignedDone(bs: seq<Block>, bs': seq<Block>, n: nat, alignment: nat, i: nat, r: nat) {
    if !PowerOfTwoOrZero(alignment) then r == 0 && bs' == bs
    else if i == |bs| then BestFit(bs, n + alignment, i) && r == 0 && bs' == bs
    else
      && BestFit(bs, n + alignment, i) && Payload(bs[i]) < TWO_64
      && var p := Padding(Payload(bs[i]), alignment);
         if p == 0 then r == Payload(bs[i]) && bs' == Used(bs, i, n)
         else if bs[i].len <= p + HDR then r == 0 && bs' == bs
         else r == Payload(bs[i]) + p + HDR && bs' == Used(CutAt(bs, i, p), i + 1, n)
  }

  /** What it returns is aligned exactly when the block found was, or the alignment is 8 at most: the second header
      lies between the aligned address and the payload.  It has n bytes exactly when the block found had room for
      the padding and that header as well. */
  lemma AlignedExactly(bs: seq<Block>, bs': seq<Block>, n: nat, alignment: nat, i: nat, r: nat)
    requires AlignedDone(bs, bs', n, alignment, i, r) && r != 0 && 0 < alignment
    ensures i < |bs| && (r % alignment == 0 <==> Payload(bs[i]) % alignment == 0 || alignment <= 8)
    ensures var k := if Payload(bs[i]) % alignment == 0 then i else i + 1;
            && k < |bs'| && !bs'[k].free && Payload(bs'[k]) == r
            && (bs'[k].len >= n <==> bs[i].len >= n + r - Payload(bs[i]))
  {
    var raw := Payload(bs[i]);
    var p := Padding(raw, alignment);
    PaddingAligns(raw, alignment);
    HeaderAligned(alignment);
    if p != 0 {
      SkipMultiple(raw + p, HDR, alignment);
    }
  }

  lemma PaddingAligns(raw: nat, alignment: nat)
    requires raw < TWO_64 && alignment > 0
    ensures (raw + Padding(raw, alignment)) % alignment == 0
    ensures Padding(raw, alignment) == 0 <==> raw % alignment == 0
  {
    var q, d := raw / alignment, raw % alignment;
    if d == 0 {
      DivModIs(alignment, alignment, 1, 0);
    } else {
      DivModIs(alignment - d, alignment, 0, alignment - d);
      DivModIs(raw + (alignment - d), alignment, q + 1, 0);
    }
  }

  lemma SkipMultiple(x: nat, y: nat, a: nat)
    requires a > 0 && x % a == 0
    ensures (x + y) % a == y % a
  {
    DivModIs(x + y, a, x / a + y / a, y % a);
  }

  lemma HeaderAligned(alignment: nat)
    requires alignment > 0 && PowerOfTwoOrZero(alignment)
    ensures HDR % alignment == 0 <==> alignment <= 8
  {
    var k :| 0 <= k < 64 && alignment == Pow2(k);
    if k >= 6 {
      AtLeast64(k);
      DivModIs(HDR, alignment, 0, HDR);
    } else {
      SmallPowers();
      var q := [40, 20, 10, 5, 2, 1][k];
      DivModIs(HDR, alignment, q, if k <= 3 then 0 else 8);
    }
  }

  lemma SmallPowers()
    ensures Pow2(0) == 1 && Pow2(1) == 2 && Pow2(2) == 4 && Pow2(3) == 8 && Pow2(4) == 16 && Pow2(5) == 32
  {
  }

  lemma {:induction false} AtLeast64(k: nat)
    requires k >= 6
    ensures Pow2(k) >= 64
  {
    if k > 6 {
      AtLeast64(k - 1);
    } else {
      SmallPowers();
    }
  }

  /** On every fresh heap of whole pages a request for 64 bytes at a multiple of 16 is answered with an address that is
      none. */
  lemma AlignedMisses(bs: seq<Block>, base: nat, size: nat)
    requires size >= 0x10_0000 && base > 0 && base % 4096 == 0 && base + size < TWO_64
    requires bs == [Block(base, size - HDR, true)]
    ensures AlignedDone(bs, Used(CutAt(bs, 0, 8), 1, 64), 64, 16, 0, base + 88) && (base + 88) % 16 != 0
  {
    assert Pow2(4) == 16;
  }

  lemma CutTotal(bs: seq<Block>, i: nat, n: nat)
    requires i < |bs| && bs[i].len >= n + HDR
    ensures Total(CutAt(bs, i, n)) == Total(bs)
  {
    var parts := CutParts(bs[i], n);
    TotalSplice(bs, i, 1, [bs[i]], parts);
    TotalOne(bs[i]);
    TotalTwo(parts[0], parts[1]);
    assert parts == [parts[0], parts[1]];
  }

  /** Cutting and using the second part leaves no two adjacent blocks free. */
  lemma CutUsedCalm(bs: seq<Block>, i: nat, m: nat, n: nat)
    requires Calm(bs) && i < |bs| && bs[i].free && bs[i].len >= m + HDR
    ensures Calm(Used(CutAt(bs, i, m), i + 1, n))
  {
    var c, u := CutAt(bs, i, m), Used(CutAt(bs, i, m), i + 1, n);
    var d := |u| - |bs|;
    forall j | 0 <= j < |u| - 1
      ensures NotBoth(u, j)
    {
      if j < i {
        assert NotBoth(bs, j);
      } else if j >= i + d {
        assert NotBoth(bs, j - d);
      }
    }
  }

  lemma PaddedKeepsLive(bs: seq<Block>, base: nat, end: nat, i: nat, m: nat, n: nat,
                        bytes: seq<nat>, padded: seq<nat>, bytes': seq<nat>)
    requires Ordered(bs, base, end) && i < |bs| && bs[i].free && bs[i].len >= m + HDR
    requires TouchesOnly(base, bytes, padded, bs[i]) && TouchesOnly(base, padded, bytes', CutAt(bs, i, m)[i + 1])
    ensures KeepsLive(base, bs, bytes, Used(CutAt(bs, i, m), i + 1, n), bytes', 0)
  {
    var c := CutAt(bs, i, m);
    forall addr, len | Live(bs, addr, len)
      ensures Live(Used(c, i + 1, n), addr, len) && SameData(base, bytes, bytes', addr, len)
    {
      var j :| 0 <= j < |bs| && bs[j] == Block(addr, len, false);
      PayloadsDisjoint(bs, base, end, i, j);
      assert c[if j < i then j else j + 1] == bs[j];
      UsedLive(c, i + 1, n, addr, len);
    }
  }

  lemma CutIsOrdered(bs: seq<Block>, base: nat, end: nat, i: nat, n: nat)
    requires Ordered(bs, base, end) && i < |bs| && bs[i].len >= n + HDR
    ensures Ordered(CutAt(bs, i, n), base, end)
  {
    var bs' := CutAt(bs, i, n);
    forall j | 0 <= j < |bs'|
      ensures Fits(bs', j, end)
    {
      if j < i {
        assert Fits(bs, j, end);
      } else if j > i + 1 {
        assert Fits(bs, j - 1, end);
      } else {
        assert Fits(bs, i, end);
      }
    }
  }
}
