/** Operation-region fields of `io.c` on a region that behaves like memory.

    A field is accessed in units of 1, 2, 4 or 8 bytes.  Reading gathers the field's bits unit by
    unit; writing builds each unit from the source and, where the unit is only partly covered, from
    what the update rule says about its other bits. */
module FieldUnit {
  import opened Bits
  import opened BitSpans
  import opened BufferField

  datatype UpdateRule = Preserve | WriteAsOnes | WriteAsZeros

  /** bitOffset is bit_offset_within_first_byte, which counts from the start of the first unit. */
  datatype Field = Field(byteOffset: nat, bitOffset: nat, bitLength: nat, width: nat, rule: UpdateRule)

  predicate ValidWidth(w: nat) { w == 1 || w == 2 || w == 4 || w == 8 }

  ghost predicate Valid(f: Field) { 0 < f.width <= 8 && f.bitOffset < 8 * f.width }

  /** The field's first bit within the region. */
  function FirstBit(f: Field): nat { 8 * f.byteOffset + f.bitOffset }

  function AlignDown(x: nat, w: nat): nat
    requires ValidWidth(w)
  {
    if w == 1 then x else if w == 2 then x / 2 * 2 else if w == 4 then x / 4 * 4 else x / 8 * 8
  }

  /** x & (n - 1) for the unit sizes in bits. */
  function LowBits(x: nat, w: nat): nat
    requires ValidWidth(w)
  {
    if w == 1 then x % 8 else if w == 2 then x % 16 else if w == 4 then x % 32 else x % 64
  }

  lemma UnitAndBit(x: nat, w: nat)
    requires ValidWidth(w)
    ensures 8 * AlignDown(x / 8, w) + LowBits(x, w) == x && LowBits(x, w) < 8 * w
  {
    if w == 2 {
      assert x / 8 / 2 == x / 16;
    } else if w == 4 {
      assert x / 8 / 4 == x / 32;
    } else if w == 8 {
      assert x / 8 / 8 == x / 64;
    }
  }

  /** The offset arithmetic of handle_create_field. */
  function CreateField(bitOffset: nat, bitLength: nat, width: nat, rule: UpdateRule): (f: Field)
    requires ValidWidth(width)
    ensures Valid(f) && FirstBit(f) == bitOffset && f.bitLength == bitLength
  {
    UnitAndBit(bitOffset, width);
    Field(AlignDown(bitOffset / 8, width), LowBits(bitOffset, width), bitLength, width, rule)
  }

  /** The number of w-byte units that hold n bits. */
  function Units(n: nat, w: nat): nat
    requires w > 0
  {
    if n == 0 then 0 else 1 + Units(n - Min(n, 8 * w), w)
  }

  /** The number of bytes in those units. */
  function Span(n: nat, w: nat): nat
    requires w > 0
  {
    if n == 0 then 0 else w + Span(n - Min(n, 8 * w), w)
  }

  /** UACPI_ALIGN_UP(n, 8 * w) / (8 * w). */
  function AlignedUnits(n: nat, w: nat): nat
    requires ValidWidth(w)
  {
    if w == 1 then (n + 7) / 8 else if w == 2 then (n + 15) / 16 else if w == 4 then (n + 31) / 32 else (n + 63) / 64
  }

  lemma {:induction false} UnitsByDivision(n: nat, w: nat)
    requires ValidWidth(w)
    ensures AlignedUnits(n, w) == Units(n, w)
  {
    if n > 0 {
      UnitsByDivision(n - Min(n, 8 * w), w);
    }
  }

  /** The w bytes at off as a 64-bit integer. */
  function UnitAt(region: seq<Byte>, off: nat, w: nat): (u: seq<Byte>)
    requires w <= 8 && off + w <= |region|
    ensures |u| == 8
  {
    region[off..off + w] + seq(8 - w, k => ZERO)
  }

  function Put(region: seq<Byte>, off: nat, w: nat, u: seq<Byte>): (r: seq<Byte>)
    requires w <= 8 == |u| && off + w <= |region|
    ensures |r| == |region|
  {
    region[..off] + u[..w] + region[off + w..]
  }

  lemma UnitBit(region: seq<Byte>, off: nat, w: nat, j: nat)
    requires w <= 8 && off + w <= |region| && j < 64
    ensures BitAt(UnitAt(region, off, w), j) == (j < 8 * w && BitAt(region, 8 * off + j))
  {
    var k := j / 8;
    assert (8 * off + j) / 8 == off + k && (8 * off + j) % 8 == j % 8;
  }

  lemma PutBit(region: seq<Byte>, off: nat, w: nat, u: seq<Byte>, i: nat)
    requires w <= 8 == |u| && off + w <= |region| && i < 8 * |region|
    ensures BitAt(Put(region, off, w, u), i) ==
            if 8 * off <= i < 8 * off + 8 * w then BitAt(u, i - 8 * off) else BitAt(region, i)
  {
    var k := i / 8;
    if off <= k < off + w {
      assert (i - 8 * off) / 8 == k - off && (i - 8 * off) % 8 == i % 8;
    }
  }

  /** access_field_unit, reading: fails outside the region. */
  method AccessRead(region: array<Byte>, off: nat, w: nat, out: array<Byte>) returns (ok: bool)
    requires w <= 8 == out.Length && out != region
    modifies out
    ensures ok <==> off + w <= region.Length
    ensures ok ==> out[..] == UnitAt(region[..], off, w)
  {
    if region.Length < off + w {
      return false;
    }
    forall k | 0 <= k < 8 {
      out[k] := if k < w then region[off + k] else ZERO;
    }
    return true;
  }

  /** access_field_unit, writing: fails outside the region. */
  method AccessWrite(region: array<Byte>, off: nat, w: nat, data: array<Byte>) returns (ok: bool)
    requires w <= 8 == data.Length && data != region
    modifies region
    ensures ok <==> off + w <= region.Length
    ensures region[..] == if ok then Put(old(region[..]), off, w, data[..]) else old(region[..])
  {
    if region.Length < off + w {
      return false;
    }
    forall k | 0 <= k < w {
      region[off + k] := data[k];
    }
    return true;
  }

  // ------------------------------------------------------------------------------ reading

  /** dst holds the field's bits, zero-extended or cut to its size. */
  ghost predicate Holds(dst: seq<Byte>, region: seq<Byte>, f: Field) {
    && FirstBit(f) + f.bitLength <= 8 * |region|
    && forall i :: 0 <= i < 8 * |dst| ==> BitAt(dst, i) == (i < f.bitLength && BitAt(region, FirstBit(f) + i))
  }

  /** The first `done` bits of the field are in dst, zeros after them. */
  ghost predicate HoldsSome(dst: seq<Byte>, region: seq<Byte>, f: Field, done: nat)
    requires FirstBit(f) + done <= 8 * |region|
  {
    forall i :: 0 <= i < 8 * |dst| ==> BitAt(dst, i) == (i < done && BitAt(region, FirstBit(f) + i))
  }

  ghost predicate HoldsKnown(dst: seq<Byte>, region: seq<Byte>, f: Field, done: nat) {
    FirstBit(f) + done <= 8 * |region| && HoldsSome(dst, region, f, done)
  }

  /** One more unit is copied behind the bits already there. */
  lemma ReadRound(dst: seq<Byte>, now: seq<Byte>, region: seq<Byte>, f: Field, off: nat, idx: nat, done: nat, len: nat)
    requires Valid(f) && off + f.width <= |region| && idx + len <= 8 * f.width
    requires 8 * off + idx == FirstBit(f) + done && FirstBit(f) + done <= 8 * |region|
    requires done > 0 ==> HoldsSome(dst, region, f, done)
    requires var di := Min(done, 8 * |dst|);
             Copied(dst, now, di, 8 * |dst| - di, UnitAt(region, off, f.width), idx, len)
    ensures FirstBit(f) + done + len <= 8 * |region| && HoldsSome(now, region, f, done + len)
  {
    var di := Min(done, 8 * |dst|);
    var u := UnitAt(region, off, f.width);
    forall i | 0 <= i < 8 * |now|
      ensures BitAt(now, i) == (i < done + len && BitAt(region, FirstBit(f) + i))
    {
      assert BitAt(now, i) == CopiedBit(dst, di, 8 * |dst| - di, u, idx, len, i);
      if done <= i < done + len {
        UnitBit(region, off, f.width, idx + i - done);
        assert 8 * off + (idx + i - done) == FirstBit(f) + i;
      }
    }
  }

  /** The end of the last unit of the field. */
  function EndByte(f: Field): nat
    requires f.width > 0
  {
    f.byteOffset + Span(f.bitOffset + f.bitLength, f.width)
  }

  /** The loop variables of both directions: the unit's offset, the first bit used in it, the bits of
      the field still to go and those done. */
  datatype Cursor = Cursor(off: nat, idx: nat, left: nat, done: nat)

  function Start(f: Field): Cursor { Cursor(f.byteOffset, f.bitOffset, f.bitLength, 0) }

  /** The bits of the field in the unit at the cursor. */
  function Len(c: Cursor, f: Field): nat
    requires c.idx < 8 * f.width
  {
    Min(c.left, 8 * f.width - c.idx)
  }

  function Advance(c: Cursor, f: Field): Cursor
    requires c.idx < 8 * f.width
  {
    Cursor(c.off + f.width, 0, c.left - Len(c, f), c.done + Len(c, f))
  }

  ghost predicate OnTrack(c: Cursor, f: Field) {
    && Valid(f) && c.idx < 8 * f.width && c.done + c.left == f.bitLength
    && c.off + Span(c.idx + c.left, f.width) == EndByte(f)
    && (c.idx + c.left > 0 ==> 8 * c.off + c.idx == FirstBit(f) + c.done)
  }

  lemma StaysOnTrack(c: Cursor, f: Field)
    requires OnTrack(c, f) && c.idx + c.left > 0
    ensures OnTrack(Advance(c, f), f)
    ensures Units(c.idx + c.left, f.width) == Units(Advance(c, f).left, f.width) + 1
  {
    assert c.idx + c.left - Min(c.idx + c.left, 8 * f.width) == c.left - Len(c, f);
  }

  /** One round of the slow read; dst bits from di on are still to be filled. */
  method ReadOne(region: array<Byte>, f: Field, dst: array<Byte>, di: nat, dl: nat, c: Cursor) returns (ok: bool)
    requires Valid(f) && dst != region && di == Min(c.done, 8 * dst.Length) && di + dl == 8 * dst.Length
    requires c.idx < 8 * f.width && 8 * c.off + c.idx == FirstBit(f) + c.done
    requires c.done > 0 ==> HoldsKnown(dst[..], region[..], f, c.done)
    modifies dst
    ensures ok <==> c.off + f.width <= region.Length
    ensures ok ==> HoldsKnown(dst[..], region[..], f, Advance(c, f).done)
  {
    var out := new Byte[8](k => ZERO);
    ok := AccessRead(region, c.off, f.width, out);
    if ok {
      ghost var was := dst[..];
      BitCopy(dst, di, dl, out[..], c.idx, Len(c, f));
      ReadRound(was, dst[..], region[..], f, c.off, c.idx, c.done, Len(c, f));
    }
  }

  /** do_read_misaligned_field_unit: one access per unit. */
  method ReadSlow(region: array<Byte>, f: Field, dst: array<Byte>) returns (ok: bool)
    requires Valid(f) && ValidWidth(f.width) && dst != region && f.bitOffset + f.bitLength > 0
    modifies dst
    ensures ok <==> EndByte(f) <= region.Length
    ensures ok ==> Holds(dst[..], region[..], f)
  {
    var units := AlignedUnits(f.bitOffset + f.bitLength, f.width);
    UnitsByDivision(f.bitOffset + f.bitLength, f.width);
    ok := ReadUnits(region, f, dst, units);
  }

  /** Its loop. */
  method ReadUnits(region: array<Byte>, f: Field, dst: array<Byte>, units: nat) returns (ok: bool)
    requires Valid(f) && dst != region && f.bitOffset + f.bitLength > 0
    requires units == Units(f.bitOffset + f.bitLength, f.width)
    modifies dst
    ensures ok <==> EndByte(f) <= region.Length
    ensures ok ==> Holds(dst[..], region[..], f)
  {
    var c := Start(f);
    var di: nat, dl: nat := 0, 8 * dst.Length;
    var toDo := units;
    while toDo > 0
      invariant OnTrack(c, f) && toDo == Units(c.idx + c.left, f.width)
      invariant di == Min(c.done, 8 * dst.Length) && di + dl == 8 * dst.Length
      invariant if c.off == f.byteOffset then c == Start(f)
                else c.off <= region.Length && HoldsKnown(dst[..], region[..], f, c.done)
    {
      StaysOnTrack(c, f);
      ok := ReadOne(region, f, dst, di, dl, c);
      if !ok {
        return false;
      }
      var delta := Min(dl, Len(c, f));
      di, dl := di + delta, dl - delta;
      c, toDo := Advance(c, f), toDo - 1;
    }
    return true;
  }

  /** The single-access read: the field starts its unit and fits in it. */
  method ReadFast(region: array<Byte>, f: Field, dst: array<Byte>) returns (ok: bool)
    requires Valid(f) && dst != region && f.bitOffset == 0 && RoundUp(f.bitLength) <= f.width
    modifies dst
    ensures ok <==> f.byteOffset + f.width <= region.Length
    ensures ok ==> Holds(dst[..], region[..], f)
  {
    var out := new Byte[8](k => ZERO);
    ok := AccessRead(region, f.byteOffset, f.width, out);
    if !ok {
      return;
    }
    var count: int := RoundUp(f.bitLength);
    ghost var was := dst[..];
    CopyZeroOut(dst, 0, dst.Length, out[..count]);
    ghost var copied := dst[..];
    forall k | 0 <= k < |copied|
      ensures copied[k] == if k < count then region[f.byteOffset + k] else ZERO
    {
      assert Filled(was, copied, 0, dst.Length, out[..count]);
    }
    if dst.Length >= count {
      CutMisalignedTail(dst, count - 1, f.bitLength);
    }
    FastHolds(copied, dst[..], region[..], f);
  }

  lemma FastHolds(copied: seq<Byte>, now: seq<Byte>, region: seq<Byte>, f: Field)
    requires Valid(f) && f.bitOffset == 0 && RoundUp(f.bitLength) <= f.width && f.byteOffset + f.width <= |region|
    requires forall k :: 0 <= k < |copied| ==>
               copied[k] == if k < RoundUp(f.bitLength) then region[f.byteOffset + k] else ZERO
    requires if RoundUp(f.bitLength) <= |copied| then TailCut(copied, now, RoundUp(f.bitLength) - 1, f.bitLength)
             else now == copied
    ensures Holds(now, region, f)
  {
    WholeAndTail(f.bitLength);
    forall i | 0 <= i < 8 * |now|
      ensures BitAt(now, i) == (i < f.bitLength && BitAt(region, FirstBit(f) + i))
    {
      var k := i / 8;
      assert RoundUp(f.bitLength) <= |copied| ==>
          BitAt(now, i) == (BitAt(copied, i) && !InTail(i, RoundUp(f.bitLength) - 1, f.bitLength));
      assert copied[k] == if k < RoundUp(f.bitLength) then region[f.byteOffset + k] else ZERO;
      assert (FirstBit(f) + i) / 8 == f.byteOffset + k && (FirstBit(f) + i) % 8 == i % 8;
    }
  }

  /** The two paths agree: what a read leaves in a buffer of a given size is determined. */
  lemma FastReadIsSlowRead(fast: seq<Byte>, slow: seq<Byte>, region: seq<Byte>, f: Field)
    requires |fast| == |slow| && Holds(fast, region, f) && Holds(slow, region, f)
    ensures fast == slow
  {
    SameBuffers(fast, slow);
  }

  /** Where the accesses of a read end: even an empty field that starts its unit costs one. */
  function LastByte(f: Field): nat
    requires Valid(f)
  {
    if f.bitOffset == 0 && f.bitLength == 0 then f.byteOffset + f.width else EndByte(f)
  }

  /** uacpi_read_field_unit: whichever path is taken, dst gets the field's bits. */
  method Read(region: array<Byte>, f: Field, dst: array<Byte>) returns (ok: bool)
    requires Valid(f) && ValidWidth(f.width) && dst != region
    modifies dst
    ensures ok <==> LastByte(f) <= region.Length
    ensures ok ==> Holds(dst[..], region[..], f)
  {
    if f.bitOffset == 0 && RoundUp(f.bitLength) <= f.width {
      WholeAndTail(f.bitLength);
      if f.bitLength > 0 {
        assert f.bitLength - Min(f.bitLength, 8 * f.width) == 0;
        assert Span(f.bitLength, f.width) == f.width;
      }
      ok := ReadFast(region, f, dst);
      return;
    }
    ok := ReadSlow(region, f, dst);
  }

  // ------------------------------------------------------------------------------ writing

  /** What a bit of a touched unit outside the field becomes. */
  predicate Filler(rule: UpdateRule, was: bool) {
    match rule
    case Preserve => was
    case WriteAsOnes => true
    case WriteAsZeros => false
  }

  /** Bit i of the region once the first `done` bits of the field, in the units up to byte `end`, are
      written. */
  ghost predicate WrittenBit(was: seq<Byte>, f: Field, src: seq<Byte>, done: nat, end: nat, i: nat)
    requires i < 8 * |was|
  {
    var first := FirstBit(f);
    if first <= i < first + done then i - first < 8 * |src| && BitAt(src, i - first)
    else if 8 * f.byteOffset <= i < 8 * end then Filler(f.rule, BitAt(was, i))
    else BitAt(was, i)
  }

  ghost predicate Written(was: seq<Byte>, now: seq<Byte>, f: Field, src: seq<Byte>, done: nat, end: nat) {
    && |now| == |was|
    && forall i {:trigger WrittenBit(was, f, src, done, end, i)} :: 0 <= i < 8 * |was| ==>
         BitAt(now, i) == WrittenBit(was, f, src, done, end, i)
  }

  /** The unit before the source bits go in. */
  ghost predicate Prepared(u: seq<Byte>, region: seq<Byte>, f: Field, c: Cursor)
    requires c.off + f.width <= |region| && f.width <= 8
  {
    && |u| == 8
    && forall j :: 0 <= j < 8 * f.width ==> BitAt(u, j) == Filler(f.rule, BitAt(region, 8 * c.off + j))
  }

  /** One round of the write at bit i. */
  lemma WriteRoundBit(was: seq<Byte>, mid: seq<Byte>, f: Field, src: seq<Byte>, c: Cursor, u: seq<Byte>,
                      u': seq<Byte>, i: nat)
    requires Valid(f) && c.idx < 8 * f.width && 8 * c.off + c.idx == FirstBit(f) + c.done && c.left > 0
    requires c.off + f.width <= |mid| && Written(was, mid, f, src, c.done, c.off) && i < 8 * |was|
    requires c.idx != 0 || Len(c, f) < 8 * f.width ==> Prepared(u, mid, f, c)
    requires |u| == 8 && c.off >= f.byteOffset && (c.idx == 0 || c.done == 0)
    requires var si := Min(c.done, 8 * |src|); Copied(u, u', c.idx, Len(c, f), src, si, 8 * |src| - si)
    ensures BitAt(Put(mid, c.off, f.width, u'), i) == WrittenBit(was, f, src, c.done + Len(c, f), c.off + f.width, i)
  {
    PutBit(mid, c.off, f.width, u', i);
    var si := Min(c.done, 8 * |src|);
    assert BitAt(mid, i) == WrittenBit(was, f, src, c.done, c.off, i);
    if 8 * c.off <= i < 8 * c.off + 8 * f.width {
      var j := i - 8 * c.off;
      assert BitAt(u', j) == CopiedBit(u, c.idx, Len(c, f), src, si, 8 * |src| - si, j);
    }
  }

  lemma WriteRound(was: seq<Byte>, mid: seq<Byte>, f: Field, src: seq<Byte>, c: Cursor, u: seq<Byte>, u': seq<Byte>)
    requires Valid(f) && c.idx < 8 * f.width && 8 * c.off + c.idx == FirstBit(f) + c.done && c.left > 0
    requires c.off + f.width <= |mid| && Written(was, mid, f, src, c.done, c.off)
    requires c.idx != 0 || Len(c, f) < 8 * f.width ==> Prepared(u, mid, f, c)
    requires |u| == 8 && c.off >= f.byteOffset && (c.idx == 0 || c.done == 0)
    requires var si := Min(c.done, 8 * |src|); Copied(u, u', c.idx, Len(c, f), src, si, 8 * |src| - si)
    ensures Written(was, Put(mid, c.off, f.width, u'), f, src, Advance(c, f).done, Advance(c, f).off)
  {
    var now := Put(mid, c.off, f.width, u');
    forall i | 0 <= i < 8 * |was|
      ensures BitAt(now, i) == WrittenBit(was, f, src, c.done + Len(c, f), c.off + f.width, i)
    {
      WriteRoundBit(was, mid, f, src, c, u, u', i);
    }
  }

  lemma PreparedByRead(region: seq<Byte>, f: Field, c: Cursor)
    requires f.width <= 8 && c.off + f.width <= |region| && f.rule == Preserve
    ensures Prepared(UnitAt(region, c.off, f.width), region, f, c)
  {
    var u := UnitAt(region, c.off, f.width);
    forall j | 0 <= j < 8 * f.width
      ensures BitAt(u, j) == Filler(f.rule, BitAt(region, 8 * c.off + j))
    {
      UnitBit(region, c.off, f.width, j);
    }
  }

  /** The bits around the field in a partly covered unit, by the update rule; data is zero on entry. */
  method Prepare(region: array<Byte>, f: Field, c: Cursor, data: array<Byte>) returns (ok: bool)
    requires Valid(f) && c.idx < 8 * f.width && data.Length == 8 && data != region
    requires forall k :: 0 <= k < 8 ==> data[k] == ZERO
    modifies data
    ensures ok || region.Length < c.off + f.width
    ensures ok && c.off + f.width <= region.Length && (c.idx != 0 || Len(c, f) < 8 * f.width) ==>
              Prepared(data[..], region[..], f, c)
  {
    ok := true;
    if c.idx != 0 || Len(c, f) < 8 * f.width {
      match f.rule
      case Preserve =>
        ok := AccessRead(region, c.off, f.width, data);
        if ok {
          PreparedByRead(region[..], f, c);
        }
      case WriteAsOnes =>
        forall k | 0 <= k < 8 {
          data[k] := ONES;
        }
      case WriteAsZeros =>
    }
  }

  /** One round of write_generic_field_unit. */
  method WriteOne(region: array<Byte>, f: Field, src: seq<Byte>, si: nat, sl: nat, c: Cursor, ghost was: seq<Byte>)
    returns (ok: bool)
    requires Valid(f) && c.idx < 8 * f.width && 8 * c.off + c.idx == FirstBit(f) + c.done && c.left > 0
    requires c.off >= f.byteOffset && (c.idx == 0 || c.done == 0)
    requires si == Min(c.done, 8 * |src|) && si + sl == 8 * |src|
    requires Written(was, region[..], f, src, c.done, c.off)
    modifies region
    ensures ok <==> c.off + f.width <= region.Length
    ensures !ok ==> region[..] == old(region[..])
    ensures ok ==> Written(was, region[..], f, src, Advance(c, f).done, Advance(c, f).off)
  {
    var data := new Byte[8](k => ZERO);
    ok := Prepare(region, f, c, data);
    if !ok {
      return;
    }
    ghost var u, mid := data[..], region[..];
    BitCopy(data, c.idx, Len(c, f), src, si, sl);
    ok := AccessWrite(region, c.off, f.width, data);
    if ok {
      WriteRound(was, mid, f, src, c, u, data[..]);
    }
  }

  /** The first k units have been written, and the next one does not fit the region. */
  ghost predicate StoppedAt(was: seq<Byte>, now: seq<Byte>, f: Field, src: seq<Byte>, k: nat) {
    var end := f.byteOffset + k * f.width;
    var done := if k == 0 then 0 else 8 * end - FirstBit(f);
    && 0 <= done < f.bitLength && (k > 0 ==> end <= |was|) && |was| < end + f.width
    && Written(was, now, f, src, done, end)
  }

  /** write_generic_field_unit.  An access outside the region stops the write between two units. */
  method Write(region: array<Byte>, f: Field, src: seq<Byte>) returns (ok: bool, ghost k: nat)
    requires Valid(f)
    modifies region
    ensures ok <==> f.bitLength == 0 || EndByte(f) <= region.Length
    ensures ok && f.bitLength > 0 ==> Written(old(region[..]), region[..], f, src, f.bitLength, EndByte(f))
    ensures ok && f.bitLength == 0 ==> region[..] == old(region[..])
    ensures !ok ==> StoppedAt(old(region[..]), region[..], f, src, k)
  {
    k := 0;
    var c := Start(f);
    var si: nat, sl: nat := 0, 8 * |src|;
    ghost var was := region[..];
    while c.left > 0
      invariant Midway(was, region[..], f, src, c, si, sl, k)
    {
      ok := WriteNext(region, f, src, si, sl, c, was, k);
      if !ok {
        return;
      }
      var delta := Min(sl, Len(c, f));
      si, sl := si + delta, sl - delta;
      c := Advance(c, f);
      k := k + 1;
    }
    ok := true;
    MidwayEnds(was, region[..], f, src, c, si, sl, k);
  }

  /** That round, with where it leaves the loop. */
  method WriteNext(region: array<Byte>, f: Field, src: seq<Byte>, si: nat, sl: nat, c: Cursor, ghost was: seq<Byte>,
                   ghost k: nat)
    returns (ok: bool)
    requires Midway(was, region[..], f, src, c, si, sl, k) && c.left > 0
    modifies region
    ensures ok ==> var delta := Min(sl, Len(c, f));
                   Midway(was, region[..], f, src, Advance(c, f), si + delta, sl - delta, k + 1)
    ensures !ok ==> StoppedAt(was, region[..], f, src, k) && EndByte(f) > region.Length
  {
    ok := WriteOne(region, f, src, si, sl, c, was);
    if ok {
      MidwayAdvances(was, region[..], f, src, c, si, sl, k);
    } else {
      MidwayStops(was, region[..], f, src, c, si, sl, k);
    }
  }

  /** What holds between two units: c, si and sl stand at the same place of field and source, k units on. */
  ghost predicate Midway(was: seq<Byte>, now: seq<Byte>, f: Field, src: seq<Byte>, c: Cursor, si: nat, sl: nat,
                         k: nat) {
    && OnPace(f, src, c, si, sl, k) && Written(was, now, f, src, c.done, c.off)
    && if c == Start(f) then now == was else c.off <= |now| && c.idx == 0 && c.done > 0
  }

  ghost predicate OnPace(f: Field, src: seq<Byte>, c: Cursor, si: nat, sl: nat, k: nat) {
    && OnTrack(c, f) && c.off == f.byteOffset + k * f.width && (c.idx == 0 || c.done == 0)
    && si == Min(c.done, 8 * |src|) && si + sl == 8 * |src|
  }

  lemma MidwayAdvances(was: seq<Byte>, now: seq<Byte>, f: Field, src: seq<Byte>, c: Cursor, si: nat, sl: nat, k: nat)
    requires OnPace(f, src, c, si, sl, k) && c.left > 0 && c.off + f.width <= |now|
    requires Written(was, now, f, src, Advance(c, f).done, Advance(c, f).off)
    ensures var delta := Min(sl, Len(c, f));
            Midway(was, now, f, src, Advance(c, f), si + delta, sl - delta, k + 1)
  {
    StaysOnTrack(c, f);
    OneUnitMore(k, f.width);
  }

  lemma MidwayStops(was: seq<Byte>, now: seq<Byte>, f: Field, src: seq<Byte>, c: Cursor, si: nat, sl: nat, k: nat)
    requires Midway(was, now, f, src, c, si, sl, k) && c.left > 0 && |now| < c.off + f.width
    ensures StoppedAt(was, now, f, src, k) && EndByte(f) > |was|
  {
    OneUnitMore(k, f.width);
    assert Span(c.idx + c.left, f.width) >= f.width;
  }

  lemma MidwayEnds(was: seq<Byte>, now: seq<Byte>, f: Field, src: seq<Byte>, c: Cursor, si: nat, sl: nat, k: nat)
    requires Midway(was, now, f, src, c, si, sl, k) && c.left == 0
    ensures if f.bitLength == 0 then now == was
            else Written(was, now, f, src, f.bitLength, EndByte(f)) && EndByte(f) <= |was|
  {
  }

  lemma OneUnitMore(k: nat, w: nat)
    ensures (k + 1) * w == k * w + w && (w > 0 ==> (k == 0 <==> k * w == 0))
  {
  }

  /** Reading back a written field gives the source, cut to the field and zero-extended. */
  lemma ReadAfterWrite(was: seq<Byte>, now: seq<Byte>, f: Field, src: seq<Byte>, end: nat, dst: seq<Byte>, i: nat)
    requires Written(was, now, f, src, f.bitLength, end) && Holds(dst, now, f) && i < 8 * |dst|
    ensures BitAt(dst, i) == (i < f.bitLength && i < 8 * |src| && BitAt(src, i))
  {
    if i < f.bitLength {
      assert BitAt(now, FirstBit(f) + i) == WrittenBit(was, f, src, f.bitLength, end, FirstBit(f) + i);
    }
  }

  /** Under Preserve a field write is exactly the bit copy into the region: no other bit changes. */
  lemma PreservingWriteIsBitCopy(was: seq<Byte>, now: seq<Byte>, f: Field, src: seq<Byte>, end: nat)
    requires f.rule == Preserve && Written(was, now, f, src, f.bitLength, end)
    ensures Copied(was, now, FirstBit(f), f.bitLength, src, 0, 8 * |src|)
  {
    forall i | 0 <= i < 8 * |was|
      ensures BitAt(now, i) == CopiedBit(was, FirstBit(f), f.bitLength, src, 0, 8 * |src|, i)
    {
      assert BitAt(now, i) == WrittenBit(was, f, src, f.bitLength, end, i);
    }
  }

  /** The units that hold n bits reach less than one unit beyond them. */
  lemma {:induction false} SpanIsTight(n: nat, w: nat)
    requires w > 0
    ensures n <= 8 * Span(n, w) && (n > 0 ==> 8 * Span(n, w) < n + 8 * w)
    decreases n
  {
    if n > 0 {
      SpanIsTight(n - Min(n, 8 * w), w);
    }
  }

  /** Whatever the rule, a write changes no bit outside the field but in front of it in its first unit or
      behind it in its last one, and those only to what the rule says. */
  lemma OnlyEdgesChange(was: seq<Byte>, now: seq<Byte>, f: Field, src: seq<Byte>, i: nat)
    requires Valid(f) && f.bitLength > 0 && Written(was, now, f, src, f.bitLength, EndByte(f)) && i < 8 * |was|
    requires !(FirstBit(f) <= i < FirstBit(f) + f.bitLength) && BitAt(now, i) != BitAt(was, i)
    ensures f.rule != Preserve && BitAt(now, i) == (f.rule == WriteAsOnes)
    ensures || 8 * f.byteOffset <= i < FirstBit(f) < 8 * (f.byteOffset + f.width)
            || 8 * (EndByte(f) - f.width) < FirstBit(f) + f.bitLength <= i < 8 * EndByte(f)
  {
    assert BitAt(now, i) == WrittenBit(was, f, src, f.bitLength, EndByte(f), i);
    SpanIsTight(f.bitOffset + f.bitLength, f.width);
  }

  /** What a write touches outside the field is filled with ones or zeroes by the rules that say so. */
  lemma EdgesAreFilled(was: seq<Byte>, now: seq<Byte>, f: Field, src: seq<Byte>, i: nat)
    requires Valid(f) && f.bitLength > 0 && Written(was, now, f, src, f.bitLength, EndByte(f)) && i < 8 * |was|
    requires 8 * f.byteOffset <= i < 8 * EndByte(f) && !(FirstBit(f) <= i < FirstBit(f) + f.bitLength)
    ensures f.rule == WriteAsOnes ==> BitAt(now, i)
    ensures f.rule == WriteAsZeros ==> !BitAt(now, i)
    ensures f.rule == Preserve ==> BitAt(now, i) == BitAt(was, i)
  {
    assert BitAt(now, i) == WrittenBit(was, f, src, f.bitLength, EndByte(f), i);
  }
}
