/** The block list of the kernel heap (`heap.cpp`) as a sequence of blocks: what the operations do to it
    and what every one of them keeps. */
module HeapBlocks {
  /** sizeof(heap_block). */
  const HDR: nat := 40

  /** A header at addr, followed by len bytes. */
  datatype Block = Block(addr: nat, len: nat, free: bool)

  function Payload(b: Block): nat { b.addr + HDR }
  function End(b: Block): nat { b.addr + HDR + b.len }

  /** Where block i must end. */
  function Limit(bs: seq<Block>, i: nat, end: nat): nat { if i + 1 < |bs| then bs[i + 1].addr else end }

  ghost predicate Fits(bs: seq<Block>, i: nat, end: nat)
    requires i < |bs|
  {
    End(bs[i]) <= Limit(bs, i, end)
  }

  /** The blocks lie in the heap one behind the other, perhaps with gaps. */
  ghost predicate Ordered(bs: seq<Block>, base: nat, end: nat) {
    && bs != [] && bs[0].addr == base
    && forall i {:trigger Fits(bs, i, end)} :: 0 <= i < |bs| ==> Fits(bs, i, end)
  }

  /** Blocks i and i + 1 are not both free. */
  ghost predicate NotBoth(bs: seq<Block>, i: nat)
    requires i + 1 < |bs|
  {
    !(bs[i].free && bs[i + 1].free)
  }

  /** No two adjacent blocks are free. */
  ghost predicate Calm(bs: seq<Block>) {
    forall i {:trigger NotBoth(bs, i)} :: 0 <= i < |bs| - 1 ==> NotBoth(bs, i)
  }

  /** Headers plus lengths. */
  function Total(bs: seq<Block>): nat { if bs == [] then 0 else HDR + bs[0].len + Total(bs[1..]) }

  lemma {:induction false} TotalConcat(a: seq<Block>, b: seq<Block>)
    ensures Total(a + b) == Total(a) + Total(b)
  {
    if a == [] {
      assert a + b == b;
    } else {
      assert (a + b)[1..] == a[1..] + b;
      TotalConcat(a[1..], b);
    }
  }

  /** Blocks i.. i + k replaced. */
  function Splice(bs: seq<Block>, i: nat, k: nat, mid: seq<Block>): seq<Block>
    requires i + k <= |bs|
  {
    bs[..i] + mid + bs[i + k..]
  }

  lemma TotalThree(a: seq<Block>, b: seq<Block>, c: seq<Block>)
    ensures Total(a + b + c) == Total(a) + Total(b) + Total(c)
  {
    TotalConcat(a + b, c);
    TotalConcat(a, b);
  }

  lemma TotalSplice(bs: seq<Block>, i: nat, k: nat, gone: seq<Block>, mid: seq<Block>)
    requires i + k <= |bs| && gone == bs[i..i + k]
    ensures Total(Splice(bs, i, k, mid)) == Total(bs) - Total(gone) + Total(mid)
  {
    assert bs[..i] + gone == bs[..i + k];
    assert bs[..i] + gone + bs[i + k..] == bs;
    TotalThree(bs[..i], mid, bs[i + k..]);
    TotalThree(bs[..i], gone, bs[i + k..]);
  }

  lemma {:induction false} TotalSet(bs: seq<Block>, i: nat, b: Block)
    requires i < |bs|
    ensures Total(bs[i := b]) + bs[i].len == Total(bs) + b.len
  {
    if i > 0 {
      assert bs[i := b][1..] == bs[1..][i - 1 := b];
      TotalSet(bs[1..], i - 1, b);
    } else {
      assert bs[i := b][1..] == bs[1..];
    }
  }

  lemma TotalOne(b: Block)
    ensures Total([b]) == HDR + b.len
  {
    assert [b][1..] == [];
  }

  lemma TotalTwo(b: Block, c: Block)
    ensures Total([b, c]) == HDR + b.len + HDR + c.len
  {
    assert [b, c][1..] == [c];
    TotalOne(c);
  }

  lemma {:induction false} AddressesGrow(bs: seq<Block>, base: nat, end: nat, i: nat, j: nat)
    requires Ordered(bs, base, end) && i < j < |bs|
    ensures End(bs[i]) <= bs[j].addr
    decreases j
  {
    if i + 1 < j {
      AddressesGrow(bs, base, end, i, j - 1);
      assert Fits(bs, j - 1, end);
    } else {
      assert Fits(bs, i, end);
    }
  }

  lemma Distinct(bs: seq<Block>, base: nat, end: nat, i: nat, j: nat)
    requires Ordered(bs, base, end) && i < |bs| && j < |bs|
    ensures bs[i].addr == bs[j].addr <==> i == j
  {
    if i < j {
      AddressesGrow(bs, base, end, i, j);
    } else if j < i {
      AddressesGrow(bs, base, end, j, i);
    }
  }

  lemma {:induction false} InHeap(bs: seq<Block>, base: nat, end: nat, i: nat)
    requires Ordered(bs, base, end) && i < |bs|
    ensures base <= bs[i].addr && End(bs[i]) <= end
  {
    if i > 0 {
      AddressesGrow(bs, base, end, 0, i);
    }
    if i + 1 < |bs| {
      AddressesGrow(bs, base, end, i, |bs| - 1);
    }
    assert Fits(bs, |bs| - 1, end);
  }

  /** Payloads lie in the heap and overlap neither each other nor any header. */
  lemma PayloadsDisjoint(bs: seq<Block>, base: nat, end: nat, i: nat, j: nat)
    requires Ordered(bs, base, end) && i < |bs| && j < |bs| && i != j
    ensures base <= Payload(bs[i]) && End(bs[i]) <= end
    ensures End(bs[i]) <= bs[j].addr || End(bs[j]) <= bs[i].addr
  {
    InHeap(bs, base, end, i);
    if i < j {
      AddressesGrow(bs, base, end, i, j);
    } else {
      AddressesGrow(bs, base, end, j, i);
    }
  }

  // ------------------------------------------------------------------------------------------- malloc

  predicate Suits(b: Block, n: nat) { b.free && b.len >= n }

  /** Of the first k blocks i is the first of the smallest that suit; i is |bs| if none does. */
  ghost predicate BestAmong(bs: seq<Block>, n: nat, i: nat, k: nat) {
    && (i < |bs| ==> Suits(bs[i], n))
    && forall j :: 0 <= j < k && j < |bs| && Suits(bs[j], n) ==>
         i < |bs| && bs[i].len <= bs[j].len && (j < i ==> bs[i].len < bs[j].len)
  }

  ghost predicate BestFit(bs: seq<Block>, n: nat, i: nat) { i <= |bs| && BestAmong(bs, n, i, |bs|) }

  /** Block i is used for n bytes; what is left over becomes a block when it is more than a header. */
  function Used(bs: seq<Block>, i: nat, n: nat): seq<Block>
    requires i < |bs|
  {
    Splice(bs, i, 1, UsedParts(bs[i], n))
  }

  /** A long block is cut: what is in use is at most a header larger than asked for, and the rest is free. */
  lemma UsedMeans(bs: seq<Block>, i: nat, n: nat)
    requires i < |bs| && bs[i].len >= n
    ensures var u := Used(bs, i, n);
            && i < |u| && !u[i].free && u[i].addr == bs[i].addr && n <= u[i].len <= n + HDR && u[..i] == bs[..i]
            && if bs[i].len <= n + HDR then u[i].len == bs[i].len && u[i + 1..] == bs[i + 1..]
               else
                 && u[i].len == n && i + 1 < |u| && u[i + 2..] == bs[i + 1..]
                 && u[i + 1].free && u[i + 1].addr == End(u[i]) && End(u[i + 1]) == End(bs[i])
  {
  }

  /** What block i becomes. */
  function UsedParts(b: Block, n: nat): seq<Block> {
    if b.len > n + HDR then [Block(b.addr, n, false), Block(b.addr + HDR + n, b.len - n - HDR, true)]
    else [b.(free := false)]
  }

  lemma PartsTotal(b: Block, n: nat)
    ensures Total(UsedParts(b, n)) == HDR + b.len
  {
    if b.len > n + HDR {
      TotalTwo(Block(b.addr, n, false), Block(b.addr + HDR + n, b.len - n - HDR, true));
    } else {
      TotalOne(b.(free := false));
    }
  }

  lemma UsedTotal(bs: seq<Block>, i: nat, n: nat)
    requires i < |bs|
    ensures Total(Used(bs, i, n)) == Total(bs)
  {
    TotalSplice(bs, i, 1, [bs[i]], UsedParts(bs[i], n));
    TotalOne(bs[i]);
    PartsTotal(bs[i], n);
  }

  lemma UsedKeeps(bs: seq<Block>, base: nat, end: nat, i: nat, n: nat)
    requires Ordered(bs, base, end) && i < |bs| && bs[i].free
    ensures Ordered(Used(bs, i, n), base, end) && (Calm(bs) ==> Calm(Used(bs, i, n)))
    ensures Total(Used(bs, i, n)) == Total(bs)
  {
    UsedTotal(bs, i, n);
    UsedOrdered(bs, base, end, i, n);
    if Calm(bs) {
      UsedCalm(bs, i, n);
    }
  }

  lemma UsedOrdered(bs: seq<Block>, base: nat, end: nat, i: nat, n: nat)
    requires Ordered(bs, base, end) && i < |bs|
    ensures Ordered(Used(bs, i, n), base, end)
  {
    var bs', d := Used(bs, i, n), |UsedParts(bs[i], n)| - 1;
    forall j | 0 <= j < |bs'|
      ensures Fits(bs', j, end)
    {
      if j < i {
        assert Fits(bs, j, end);
      } else if j > i + d {
        assert Fits(bs, j - d, end);
      } else {
        assert Fits(bs, i, end);
      }
    }
  }

  lemma UsedCalm(bs: seq<Block>, i: nat, n: nat)
    requires Calm(bs) && i < |bs| && bs[i].free
    ensures Calm(Used(bs, i, n))
  {
    var bs', d := Used(bs, i, n), |UsedParts(bs[i], n)| - 1;
    forall j | 0 <= j < |bs'| - 1
      ensures NotBoth(bs', j)
    {
      if j + 1 < i {
        assert NotBoth(bs, j);
      } else if j >= i + d {
        assert NotBoth(bs, j - d);
      }
    }
  }

  // --------------------------------------------------------------------------------------------- free

  /** Block i + 1 becomes part of block i. */
  function Merged(bs: seq<Block>, i: nat): seq<Block>
    requires i + 1 < |bs|
  {
    Splice(bs, i, 2, [bs[i].(len := bs[i].len + bs[i + 1].len + HDR)])
  }

  lemma MergedTotal(bs: seq<Block>, i: nat)
    requires i + 1 < |bs|
    ensures Total(Merged(bs, i)) == Total(bs)
  {
    var b := bs[i].(len := bs[i].len + bs[i + 1].len + HDR);
    TotalSplice(bs, i, 2, [bs[i], bs[i + 1]], [b]);
    TotalTwo(bs[i], bs[i + 1]);
    TotalOne(b);
  }

  lemma MergedKeeps(bs: seq<Block>, base: nat, end: nat, i: nat)
    requires Ordered(bs, base, end) && i + 1 < |bs|
    ensures Ordered(Merged(bs, i), base, end) && Total(Merged(bs, i)) == Total(bs)
  {
    MergedTotal(bs, i);
    MergedOrdered(bs, base, end, i);
  }

  lemma MergedOrdered(bs: seq<Block>, base: nat, end: nat, i: nat)
    requires Ordered(bs, base, end) && i + 1 < |bs|
    ensures Ordered(Merged(bs, i), base, end)
  {
    var bs' := Merged(bs, i);
    forall j | 0 <= j < |bs'|
      ensures Fits(bs', j, end)
    {
      if j < i {
        assert Fits(bs, j, end);
      } else {
        assert Fits(bs, j + 1, end);
        assert Fits(bs, i, end);
      }
    }
  }

  function Unused(bs: seq<Block>, i: nat): seq<Block>
    requires i < |bs|
  {
    bs[i := bs[i].(free := true)]
  }

  /** Block i merged with a free block behind it. */
  function JoinedForward(bs: seq<Block>, i: nat): (r: seq<Block>)
    requires i < |bs|
    ensures i < |r|
  {
    if i + 1 < |bs| && bs[i + 1].free then Merged(bs, i) else bs
  }

  /** ... and with a free block in front of it. */
  function Joined(bs: seq<Block>, i: nat): seq<Block>
    requires i < |bs|
  {
    var f := JoinedForward(bs, i);
    if i > 0 && f[i - 1].free then Merged(f, i - 1) else f
  }

  /** Block i is freed and merged with its free neighbours. */
  function Freed(bs: seq<Block>, i: nat): seq<Block>
    requires i < |bs|
  {
    Joined(Unused(bs, i), i)
  }

  /** At most the pairs at i - 1 and i may be free together. */
  ghost predicate CalmBut(bs: seq<Block>, i: nat, both: bool) {
    forall j {:trigger NotBoth(bs, j)} :: 0 <= j < |bs| - 1 && j + 1 != i && (both ==> j != i) ==> NotBoth(bs, j)
  }

  lemma UnusedKeeps(bs: seq<Block>, base: nat, end: nat, i: nat)
    requires Ordered(bs, base, end) && Calm(bs) && i < |bs|
    ensures Ordered(Unused(bs, i), base, end) && CalmBut(Unused(bs, i), i, true) && Total(Unused(bs, i)) == Total(bs)
  {
    TotalSet(bs, i, bs[i].(free := true));
    var u := Unused(bs, i);
    forall j | 0 <= j < |u|
      ensures Fits(u, j, end)
    {
      assert Fits(bs, j, end);
    }
    forall j | 0 <= j < |u| - 1 && j + 1 != i && j != i
      ensures NotBoth(u, j)
    {
      assert NotBoth(bs, j);
    }
  }

  lemma MergedForwardCalm(u: seq<Block>, i: nat)
    requires CalmBut(u, i, true) && i + 1 < |u| && u[i].free && u[i + 1].free
    ensures CalmBut(Merged(u, i), i, false)
  {
    var m := Merged(u, i);
    forall j | 0 <= j < |m| - 1 && j + 1 != i
      ensures NotBoth(m, j)
    {
      if j + 1 < i {
        assert NotBoth(u, j);
      } else {
        assert NotBoth(u, j + 1);
      }
    }
  }

  lemma MergedBackwardCalm(f: seq<Block>, i: nat)
    requires CalmBut(f, i, false) && 0 < i < |f| && f[i].free
    ensures Calm(Merged(f, i - 1))
  {
    var m := Merged(f, i - 1);
    forall j | 0 <= j < |m| - 1
      ensures NotBoth(m, j)
    {
      if j + 1 < i {
        assert j + 1 < i - 1 ==> NotBoth(f, j);
        assert j + 1 == i - 1 ==> NotBoth(f, j);
      } else {
        assert NotBoth(f, j + 1);
      }
    }
  }

  lemma FreedKeeps(bs: seq<Block>, base: nat, end: nat, i: nat)
    requires Ordered(bs, base, end) && Calm(bs) && i < |bs|
    ensures Ordered(Freed(bs, i), base, end) && Calm(Freed(bs, i)) && Total(Freed(bs, i)) == Total(bs)
  {
    var u := Unused(bs, i);
    var f := JoinedForward(u, i);
    UnusedKeeps(bs, base, end, i);
    if i + 1 < |u| && u[i + 1].free {
      MergedKeeps(u, base, end, i);
      MergedForwardCalm(u, i);
    }
    assert CalmBut(f, i, false) && f[i].free;
    if i > 0 && f[i - 1].free {
      MergedKeeps(f, base, end, i - 1);
      MergedBackwardCalm(f, i);
    }
  }

  /** Freeing a free block changes nothing. */
  lemma FreedTwice(bs: seq<Block>, i: nat)
    requires Calm(bs) && i < |bs| && bs[i].free
    ensures Freed(bs, i) == bs
  {
    assert Unused(bs, i) == bs;
    assert i + 1 < |bs| ==> NotBoth(bs, i);
    assert i > 0 ==> NotBoth(bs, i - 1);
  }

  // ------------------------------------------------------------------------------------------ realloc

  function Shrunk(bs: seq<Block>, i: nat, n: nat): seq<Block>
    requires i < |bs|
  {
    bs[i := bs[i].(len := n)]
  }

  lemma ShrunkKeeps(bs: seq<Block>, base: nat, end: nat, i: nat, n: nat)
    requires Ordered(bs, base, end) && Calm(bs) && i < |bs| && n <= bs[i].len
    ensures Ordered(Shrunk(bs, i, n), base, end) && Calm(Shrunk(bs, i, n))
    ensures Total(Shrunk(bs, i, n)) + (bs[i].len - n) == Total(bs)
  {
    TotalSet(bs, i, bs[i].(len := n));
    var s := Shrunk(bs, i, n);
    forall j | 0 <= j < |s|
      ensures Fits(s, j, end)
    {
      assert Fits(bs, j, end);
    }
    forall j | 0 <= j < |s| - 1
      ensures NotBoth(s, j)
    {
      assert NotBoth(bs, j);
    }
  }

  // --------------------------------------------------------------------------------------- live blocks

  /** A block in use. */
  ghost predicate Live(bs: seq<Block>, addr: nat, len: nat) { Block(addr, len, false) in bs }

  lemma UsedLive(bs: seq<Block>, i: nat, n: nat, addr: nat, len: nat)
    requires i < |bs| && bs[i].free && Live(bs, addr, len)
    ensures Live(Used(bs, i, n), addr, len)
  {
    var j :| 0 <= j < |bs| && bs[j] == Block(addr, len, false);
    var u := Used(bs, i, n);
    assert u[if j < i then j else j + |u| - |bs|] == bs[j];
  }

  lemma MergedLive(bs: seq<Block>, i: nat, addr: nat, len: nat)
    requires i + 1 < |bs| && bs[i].free && bs[i + 1].free && Live(bs, addr, len)
    ensures Live(Merged(bs, i), addr, len)
  {
    var j :| 0 <= j < |bs| && bs[j] == Block(addr, len, false);
    assert Merged(bs, i)[if j < i then j else j - 1] == bs[j];
  }

  lemma FreedLive(bs: seq<Block>, i: nat, addr: nat, len: nat)
    requires i < |bs| && Live(bs, addr, len) && bs[i].addr != addr
    ensures Live(Freed(bs, i), addr, len)
  {
    var j :| 0 <= j < |bs| && bs[j] == Block(addr, len, false);
    var u := Unused(bs, i);
    var f := JoinedForward(u, i);
    assert u[j] == bs[j];
    if i + 1 < |u| && u[i + 1].free {
      MergedLive(u, i, addr, len);
    }
    if i > 0 && f[i - 1].free {
      MergedLive(f, i - 1, addr, len);
    }
  }

  lemma MergedLiveOnly(bs: seq<Block>, i: nat, addr: nat, len: nat)
    requires i + 1 < |bs| && bs[i].free && Live(Merged(bs, i), addr, len)
    ensures Live(bs, addr, len)
  {
    var m := Merged(bs, i);
    var j :| 0 <= j < |m| && m[j] == Block(addr, len, false);
    assert m[j] == bs[if j < i then j else j + 1];
  }

  /** The blocks in use after a call of free are those before, without the one that was freed. */
  lemma FreedLiveExactly(bs: seq<Block>, base: nat, end: nat, i: nat, addr: nat, len: nat)
    requires Ordered(bs, base, end) && i < |bs|
    ensures Live(Freed(bs, i), addr, len) <==> Live(bs, addr, len) && addr != bs[i].addr
  {
    if Live(bs, addr, len) && addr != bs[i].addr {
      FreedLive(bs, i, addr, len);
    }
    if Live(Freed(bs, i), addr, len) {
      var u := Unused(bs, i);
      var f := JoinedForward(u, i);
      if i > 0 && f[i - 1].free {
        MergedLiveOnly(f, i - 1, addr, len);
      }
      if i + 1 < |u| && u[i + 1].free {
        MergedLiveOnly(u, i, addr, len);
      }
      var j :| 0 <= j < |u| && u[j] == Block(addr, len, false);
      Distinct(bs, base, end, i, j);
    }
  }

  /** There is a free block as long as b that starts with it or in front of it. */
  ghost predicate HasRoom(bs: seq<Block>, b: Block) {
    exists j :: 0 <= j < |bs| && bs[j].free && bs[j].addr <= b.addr && bs[j].len >= b.len
  }

  /** Block b is given back: nothing in use is at its address, and its bytes can be had again. */
  ghost predicate Released(bs: seq<Block>, b: Block) {
    HasRoom(bs, b) && forall len :: !Live(bs, b.addr, len)
  }

  lemma FreedIsReleased(bs: seq<Block>, base: nat, end: nat, i: nat)
    requires Ordered(bs, base, end) && i < |bs|
    ensures Released(Freed(bs, i), bs[i])
  {
    var r := Freed(bs, i);
    var f := JoinedForward(Unused(bs, i), i);
    assert f[i].free && f[i].addr == bs[i].addr && f[i].len >= bs[i].len;
    if i > 0 {
      AddressesGrow(bs, base, end, i - 1, i);
    }
    if i > 0 && f[i - 1].free {
      assert r[i - 1].free && r[i - 1].addr <= bs[i].addr && r[i - 1].len >= bs[i].len;
    } else {
      assert r[i] == f[i];
    }
    forall len
      ensures !Live(r, bs[i].addr, len)
    {
      FreedLiveExactly(bs, base, end, i, bs[i].addr, len);
    }
  }

  /** A request for no more bytes than b has is met. */
  lemma RoomIsFound(bs: seq<Block>, b: Block, n: nat, k: nat)
    requires HasRoom(bs, b) && n <= b.len && BestFit(bs, n, k)
    ensures k < |bs| && bs[k].len >= n
  {
    var j :| 0 <= j < |bs| && bs[j].free && bs[j].addr <= b.addr && bs[j].len >= b.len;
    assert Suits(bs[j], n);
  }

  /** Freeing what was allocated restores the list. */
  lemma FreeUndoesMalloc(bs: seq<Block>, i: nat, n: nat)
    requires Calm(bs) && i < |bs| && bs[i].free && bs[i].len >= n
    ensures i < |Used(bs, i, n)| && Freed(Used(bs, i, n), i) == bs
  {
    var u := Used(bs, i, n);
    assert i > 0 ==> NotBoth(bs, i - 1) && u[i - 1] == bs[i - 1];
    var b := Unused(u, i);
    if bs[i].len > n + HDR {
      assert b[i + 2..] == bs[i + 1..] && b[..i] == bs[..i];
      assert Merged(b, i) == bs;
    } else {
      assert b == bs;
      assert i + 1 < |bs| ==> NotBoth(bs, i);
    }
  }

  // --------------------------------------------------------------------------------------- defragment

  /** Free blocks that meet are merged, from block k on. */
  function Defragmented(bs: seq<Block>, k: nat): seq<Block>
    decreases |bs| - k
  {
    if k + 1 >= |bs| then bs
    else if bs[k].free && bs[k + 1].free then Defragmented(Merged(bs, k), k)
    else Defragmented(bs, k + 1)
  }

  /** The first k blocks are settled. */
  ghost predicate CalmUpTo(bs: seq<Block>, k: nat) {
    forall j {:trigger NotBoth(bs, j)} :: 0 <= j < k && j + 1 < |bs| ==> NotBoth(bs, j)
  }

  lemma {:induction false} DefragmentedIsCalm(bs: seq<Block>, base: nat, end: nat, k: nat)
    requires Ordered(bs, base, end) && CalmUpTo(bs, k)
    ensures var r := Defragmented(bs, k);
            Ordered(r, base, end) && Calm(r) && Total(r) == Total(bs)
    decreases |bs| - k
  {
    if k + 1 < |bs| {
      if bs[k].free && bs[k + 1].free {
        var m := Merged(bs, k);
        MergedKeeps(bs, base, end, k);
        forall j | 0 <= j < k && j + 1 < |m|
          ensures NotBoth(m, j)
        {
          assert NotBoth(bs, j);
        }
        DefragmentedIsCalm(m, base, end, k);
      } else {
        assert NotBoth(bs, k);
        DefragmentedIsCalm(bs, base, end, k + 1);
      }
    }
  }

  /** Where no two adjacent blocks are free nothing is left to do. */
  lemma {:induction false} DefragmentedIdle(bs: seq<Block>, k: nat)
    requires Calm(bs)
    ensures Defragmented(bs, k) == bs
    decreases |bs| - k
  {
    if k + 1 < |bs| {
      assert NotBoth(bs, k);
      DefragmentedIdle(bs, k + 1);
    }
  }

  /** The blocks in use stay. */
  lemma {:induction false} DefragmentedLive(bs: seq<Block>, k: nat, addr: nat, len: nat)
    ensures Live(Defragmented(bs, k), addr, len) <==> Live(bs, addr, len)
    decreases |bs| - k
  {
    if k + 1 < |bs| {
      if bs[k].free && bs[k + 1].free {
        DefragmentedLive(Merged(bs, k), k, addr, len);
        if Live(bs, addr, len) {
          MergedLive(bs, k, addr, len);
        }
        if Live(Merged(bs, k), addr, len) {
          MergedLiveOnly(bs, k, addr, len);
        }
      } else {
        DefragmentedLive(bs, k + 1, addr, len);
      }
    }
  }
}
