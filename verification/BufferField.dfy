/** Buffer fields of `io.c`: a run of bits inside a buffer object. */
module BufferField {
  import opened Bits
  import opened BitSpans

  /** The number of bytes that hold n bits. */
  function RoundUp(n: nat): nat { (n + 7) / 8 }

  lemma WholeAndTail(n: nat)
    ensures 8 * RoundUp(n) == if n % 8 == 0 then n else n - n % 8 + 8
  {
  }

  /** Bit i lies in byte `offset` behind the bits of a field that ends there. */
  predicate InTail(i: nat, offset: int, bitLength: nat) {
    bitLength % 8 != 0 && 8 * offset + bitLength % 8 <= i < 8 * offset + 8
  }

  /** The bits behind the field in its last byte are cleared, and no other bit changes. */
  ghost predicate TailCut(was: seq<Byte>, now: seq<Byte>, offset: int, bitLength: nat) {
    |now| == |was| && forall i :: 0 <= i < 8 * |was| ==>
        BitAt(now, i) == (BitAt(was, i) && !InTail(i, offset, bitLength))
  }

  /** Keep only the field's bits of the last byte. */
  method CutMisalignedTail(data: array<Byte>, offset: int, bitLength: nat)
    requires bitLength % 8 != 0 ==> 0 <= offset < data.Length
    modifies data
    ensures TailCut(old(data[..]), data[..], offset, bitLength)
  {
    var remainder := bitLength % 8;
    if remainder == 0 {
      return;
    }
    data[offset] := And(data[offset], LowMask(remainder, 8));
  }

  /** memcpy of n bytes. */
  method CopyBytes(dst: array<Byte>, at: nat, src: seq<Byte>, from: nat, n: nat)
    requires at + n <= dst.Length && from + n <= |src|
    modifies dst
    ensures dst[..] == old(dst[..at]) + src[from..from + n] + old(dst[at + n..])
  {
    forall k | 0 <= k < n {
      dst[at + k] := src[from + k];
    }
  }

  /** The byte-aligned read agrees with bit_copy. */
  lemma AlignedRead(was: seq<Byte>, copied: seq<Byte>, now: seq<Byte>, backing: seq<Byte>, p: nat, bitLength: nat)
    requires 8 * p + bitLength <= 8 * |backing| && RoundUp(bitLength) <= |was|
    requires copied == backing[p..p + RoundUp(bitLength)] + was[RoundUp(bitLength)..]
    requires TailCut(copied, now, RoundUp(bitLength) - 1, bitLength)
    ensures Copied(was, now, 0, 8 * RoundUp(bitLength), backing, 8 * p, bitLength)
  {
    WholeAndTail(bitLength);
    forall i | 0 <= i < 8 * |was|
      ensures BitAt(now, i) == CopiedBit(was, 0, 8 * RoundUp(bitLength), backing, 8 * p, bitLength, i)
    {
      var k := i / 8;
      assert BitAt(now, i) == (BitAt(copied, i) && !InTail(i, RoundUp(bitLength) - 1, bitLength));
      if k < RoundUp(bitLength) {
        assert copied[k] == backing[p + k];
        assert i < bitLength ==> BitAt(backing, 8 * p + i) == backing[p + k][i % 8];
      }
    }
  }

  lemma AtTheStart(was: seq<Byte>, copied: seq<Byte>, part: seq<Byte>, count: nat)
    requires count <= |was| && copied == was[..0] + part + was[0 + count..]
    ensures copied == part + was[count..]
  {
  }

  /** The bytes of a field that starts at byte p. */
  lemma BytesFit(p: nat, bitLength: nat, n: nat)
    requires 8 * p + bitLength <= 8 * n
    ensures p + RoundUp(bitLength) <= n && (bitLength % 8 != 0 ==> RoundUp(bitLength) > 0)
  {
  }

  /** The part of it for fields that start at byte p. */
  method ReadBytes(backing: seq<Byte>, p: nat, bitLength: nat, dst: array<Byte>)
    requires 8 * p + bitLength <= 8 * |backing| && RoundUp(bitLength) <= dst.Length
    modifies dst
    ensures Copied(old(dst[..]), dst[..], 0, 8 * RoundUp(bitLength), backing, 8 * p, bitLength)
  {
    ghost var was := dst[..];
    var count: int := RoundUp(bitLength);
    BytesFit(p, bitLength, |backing|);
    CopyBytes(dst, 0, backing, p, count);
    ghost var copied := dst[..];
    CutMisalignedTail(dst, count - 1, bitLength);
    AtTheStart(was, copied, backing[p..p + count], count);
    AlignedRead(was, copied, dst[..], backing, p, bitLength);
  }

  /** uacpi_read_buffer_field: the field's bits, zero-extended to whole bytes. */
  method Read(backing: seq<Byte>, bitIndex: nat, bitLength: nat, dst: array<Byte>)
    requires bitIndex + bitLength <= 8 * |backing| && RoundUp(bitLength) <= dst.Length
    modifies dst
    ensures Copied(old(dst[..]), dst[..], 0, 8 * RoundUp(bitLength), backing, bitIndex, bitLength)
  {
    if bitIndex % 8 == 0 {
      assert 8 * (bitIndex / 8) == bitIndex;
      ReadBytes(backing, bitIndex / 8, bitLength, dst);
      return;
    }
    BitCopy(dst, 0, 8 * RoundUp(bitLength), backing, bitIndex, bitLength);
  }

  /** The last byte of a byte-aligned write: the field's bits of b, the other bits of the old byte. */
  function MergeTail(b: Byte, last: Byte, tail: nat): (r: Byte)
    requires 0 < tail < 8
    ensures forall j :: 0 <= j < 8 ==> r[j] == if j < tail then b[j] else last[j]
  {
    Or(Shr(Shl(b, 8 - tail), 8 - tail), Shl(Shr(last, tail), tail))
  }

  /** The bytes that the aligned write stores before it mends the last one. */
  ghost predicate Filled(was: seq<Byte>, copied: seq<Byte>, p: nat, count: nat, src: seq<Byte>) {
    && |copied| == |was|
    && forall k :: 0 <= k < |was| ==>
         copied[k] == if p <= k < p + count then (if k - p < |src| then src[k - p] else ZERO) else was[k]
  }

  lemma FilledBit(was: seq<Byte>, copied: seq<Byte>, p: nat, count: nat, src: seq<Byte>, i: nat)
    requires Filled(was, copied, p, count, src) && i < 8 * |was|
    ensures BitAt(copied, i) == CopiedBit(was, 8 * p, 8 * count, src, 0, 8 * |src|, i)
  {
  }

  /** The mended last byte, at bit i. */
  lemma MendedBit(was: seq<Byte>, copied: seq<Byte>, last: nat, tail: nat, i: nat)
    requires last < |was| == |copied| && 0 < tail < 8 && i < 8 * |was|
    ensures BitAt(copied[last := MergeTail(copied[last], was[last], tail)], i) ==
            if 8 * last + tail <= i < 8 * last + 8 then BitAt(was, i) else BitAt(copied, i)
  {
  }

  /** The byte-aligned write agrees with bit_copy. */
  lemma AlignedWrite(was: seq<Byte>, copied: seq<Byte>, now: seq<Byte>, p: nat, count: nat, bitLength: nat,
                     src: seq<Byte>)
    requires 0 < bitLength && 8 * p + bitLength <= 8 * |was| && count == RoundUp(bitLength)
    requires Filled(was, copied, p, count, src)
    requires if bitLength % 8 == 0 then now == copied
             else
               var last := p + count - 1;
               now == copied[last := MergeTail(copied[last], was[last], bitLength % 8)]
    ensures Copied(was, now, 8 * p, bitLength, src, 0, 8 * |src|)
  {
    WholeAndTail(bitLength);
    forall i | 0 <= i < 8 * |was|
      ensures BitAt(now, i) == CopiedBit(was, 8 * p, bitLength, src, 0, 8 * |src|, i)
    {
      FilledBit(was, copied, p, count, src, i);
      if bitLength % 8 != 0 {
        MendedBit(was, copied, p + count - 1, bitLength % 8, i);
      }
      CutToLength(was, p, count, bitLength, src, i);
    }
  }

  /** A copy of whole bytes, at the bits of a field that does not fill the last one. */
  lemma CutToLength(was: seq<Byte>, p: nat, count: nat, bitLength: nat, src: seq<Byte>, i: nat)
    requires i < 8 * |was| && 8 * p + 8 * count <= 8 * |was| && bitLength <= 8 * count
    ensures CopiedBit(was, 8 * p, bitLength, src, 0, 8 * |src|, i)
            == if 8 * p + bitLength <= i < 8 * p + 8 * count then BitAt(was, i)
               else CopiedBit(was, 8 * p, 8 * count, src, 0, 8 * |src|, i)
  {
  }

  /** uacpi_memcpy_zerout into a part of a buffer. */
  method CopyZeroOut(dst: array<Byte>, at: nat, n: nat, src: seq<Byte>)
    requires at + n <= dst.Length
    modifies dst
    ensures Filled(old(dst[..]), dst[..], at, n, src)
  {
    forall k | 0 <= k < n {
      dst[at + k] := if k < |src| then src[k] else ZERO;
    }
  }

  /** uacpi_write_buffer_field: the source zero-extended or cut to the field; no other bit changes. */
  method Write(backing: array<Byte>, bitIndex: nat, bitLength: nat, src: seq<Byte>)
    requires 0 < bitLength && bitIndex + bitLength <= 8 * backing.Length
    modifies backing
    ensures Copied(old(backing[..]), backing[..], bitIndex, bitLength, src, 0, 8 * |src|)
  {
    if bitIndex % 8 == 0 {
      WriteAligned(backing, bitIndex / 8, bitLength, src);
      return;
    }
    BitCopy(backing, bitIndex, bitLength, src, 0, 8 * |src|);
  }

  /** Its byte-aligned branch. */
  method WriteAligned(backing: array<Byte>, p: nat, bitLength: nat, src: seq<Byte>)
    requires 0 < bitLength && 8 * p + bitLength <= 8 * backing.Length
    modifies backing
    ensures Copied(old(backing[..]), backing[..], 8 * p, bitLength, src, 0, 8 * |src|)
  {
    ghost var was := backing[..];
    WholeAndTail(bitLength);
    var count := RoundUp(bitLength);
    var last := p + count - 1;
    var lastByte := backing[last];
    var tail := bitLength % 8;
    CopyZeroOut(backing, p, count, src);
    ghost var copied := backing[..];
    if tail != 0 {
      backing[last] := MergeTail(backing[last], lastByte, tail);
      assert backing[..] == copied[last := MergeTail(copied[last], was[last], tail)];
    }
    AlignedWrite(was, copied, backing[..], p, count, bitLength, src);
  }

  /** Reading back a written field gives the source, cut to the field and zero-extended. */
  lemma ReadAfterWrite(was: seq<Byte>, mid: seq<Byte>, bitIndex: nat, bitLength: nat, src: seq<Byte>,
                       d0: seq<Byte>, d1: seq<Byte>, i: nat)
    requires bitIndex + bitLength <= 8 * |was|
    requires Copied(was, mid, bitIndex, bitLength, src, 0, 8 * |src|)
    requires Copied(d0, d1, 0, 8 * RoundUp(bitLength), mid, bitIndex, bitLength)
    requires i < 8 * RoundUp(bitLength) <= 8 * |d0|
    ensures BitAt(d1, i) == (i < bitLength && i < 8 * |src| && BitAt(src, i))
  {
  }

  /** Writes to fields that do not share a bit commute. */
  lemma DisjointWritesCommute(a: seq<Byte>, i1: nat, l1: nat, s1: seq<Byte>, i2: nat, l2: nat, s2: seq<Byte>,
                              b: seq<Byte>, c: seq<Byte>, b': seq<Byte>, c': seq<Byte>)
    requires i1 + l1 <= i2 || i2 + l2 <= i1
    requires Copied(a, b, i1, l1, s1, 0, 8 * |s1|) && Copied(b, c, i2, l2, s2, 0, 8 * |s2|)
    requires Copied(a, b', i2, l2, s2, 0, 8 * |s2|) && Copied(b', c', i1, l1, s1, 0, 8 * |s1|)
    ensures c == c'
  {
    forall i | 0 <= i < 8 * |a|
      ensures BitAt(c, i) == BitAt(c', i)
    {
      assert BitAt(b, i) == CopiedBit(a, i1, l1, s1, 0, 8 * |s1|, i);
      assert BitAt(b', i) == CopiedBit(a, i2, l2, s2, 0, 8 * |s2|, i);
      assert BitAt(c, i) == CopiedBit(b, i2, l2, s2, 0, 8 * |s2|, i);
      assert BitAt(c', i) == CopiedBit(b', i1, l1, s1, 0, 8 * |s1|, i);
    }
    SameBuffers(c, c');
  }
}
