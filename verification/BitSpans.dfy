/** Bit spans and `bit_copy` of `io.c`. */
module BitSpans {
  import opened Bits

  /** Bit i of the destination after copying sl source bits, zero-extended or cut to dl bits. */
  ghost predicate CopiedBit(was: seq<Byte>, di: nat, dl: nat, src: seq<Byte>, si: nat, sl: nat, i: nat)
    requires si + sl <= 8 * |src| && i < 8 * |was|
  {
    if di <= i < di + dl then i - di < sl && BitAt(src, si + i - di) else BitAt(was, i)
  }

  /** `now` is `was` with bits di .. di + dl replaced by bits si .. si + sl of src, zeros beyond. */
  ghost predicate Copied(was: seq<Byte>, now: seq<Byte>, di: nat, dl: nat, src: seq<Byte>, si: nat, sl: nat)
    requires si + sl <= 8 * |src|
  {
    && |now| == |was|
    && forall i :: 0 <= i < 8 * |was| ==> BitAt(now, i) == CopiedBit(was, di, dl, src, si, sl, i)
  }

  /** The next source bits, at most eight, from bit `shift` of byte p on. */
  method Gather(src: seq<Byte>, p: nat, shift: nat, count: nat) returns (bits: Byte)
    requires shift < 8 && 0 < count && 8 * p + shift + count <= 8 * |src|
    ensures forall j :: 0 <= j < 8 ==> bits[j] == (j < count && BitAt(src, 8 * p + shift + j))
  {
    bits := Shr(src[p], shift);
    if shift != 0 && count > 8 - shift {
      bits := Or(bits, Shl(src[p + 1], 8 - shift));
    }
    if count < 8 {
      bits := And(bits, LowMask(count, 8));
    }
  }

  /** The 16-bit destination mask. */
  function Mask(count: nat, shift: nat): (m: Word)
    requires shift < 8
    ensures |m| == 16
  {
    Shl(LowMask(if count < 8 then count else 8, 16), shift)
  }

  /** Replace the bits of a destination byte from `shift` on. */
  function MergeLow(d: Byte, bits: Byte, shift: nat, count: nat): (r: Byte)
    requires shift < 8
    ensures forall j :: 0 <= j < 8 ==> r[j] == if shift <= j < shift + count then bits[j - shift] else d[j]
  {
    var mask := Mask(count, shift)[..8];
    Or(And(d, Not(mask)), And(Shl(bits, shift), mask))
  }

  /** Replace the low bits of the following destination byte. */
  function MergeHigh(d: Byte, bits: Byte, shift: nat, count: nat): (r: Byte)
    requires 1 <= shift < 8
    ensures forall j :: 0 <= j < 8 ==> r[j] == if j < shift && j + 8 < shift + count then bits[j + 8 - shift] else d[j]
  {
    var mask := Shr(Mask(count, shift), 8)[..8];
    Or(And(d, Not(mask)), And(Shr(bits, 8 - shift), mask))
  }

  /** Up to eight destination bits are written from bit `shift` of byte p on. */
  function Stored(d: seq<Byte>, p: nat, shift: nat, count: nat, bits: Byte): (r: seq<Byte>)
    requires shift < 8 && 0 < count && 8 * p + shift + count <= 8 * |d|
    ensures |r| == |d|
  {
    var first := d[p := MergeLow(d[p], bits, shift, count)];
    if shift != 0 && count > 8 - shift then first[p + 1 := MergeHigh(first[p + 1], bits, shift, count)] else first
  }

  lemma StoredBits(d: seq<Byte>, p: nat, shift: nat, count: nat, bits: Byte, i: nat)
    requires shift < 8 && 0 < count && 8 * p + shift + count <= 8 * |d| && i < 8 * |d|
    ensures var at := 8 * p + shift;
            BitAt(Stored(d, p, shift, count, bits), i) ==
            if at <= i < at + count && i < at + 8 then bits[i - at] else BitAt(d, i)
  {
  }

  function Min(a: nat, b: nat): nat { if a < b then a else b }
  /** a - b, but not below zero. */
  function Left(a: nat, b: nat): nat { if b < a then a - b else 0 }

  /** One round of the copy loop, which writes `bits` at di + done, at bit i. */
  lemma RoundBit(was: seq<Byte>, mid: seq<Byte>, now: seq<Byte>, di: nat, dl: nat, src: seq<Byte>, si: nat, sl: nat,
                 done: nat, bits: Byte, i: nat)
    requires di + dl <= 8 * |was| && si + sl <= 8 * |src| && |mid| == |now| == |was|
    requires done < dl && i < 8 * |was| && NextBits(src, si, sl, done, bits)
    requires BitAt(mid, i) == CopiedBit(was, di, done, src, si, sl, i)
    requires BitAt(now, i) == if di + done <= i < di + dl && i < di + done + 8 then bits[i - (di + done)]
                              else BitAt(mid, i)
    ensures BitAt(now, i) == CopiedBit(was, di, done + Min(8, dl - done), src, si, sl, i)
  {
    if di + done <= i < di + done + Min(8, dl - done) {
      assert si + done + (i - (di + done)) == si + i - di;
    }
  }

  /** One round of the copy loop extends the copied part by up to eight bits. */
  lemma CopyRound(was: seq<Byte>, mid: seq<Byte>, di: nat, dl: nat, src: seq<Byte>, si: nat, sl: nat,
                  done: nat, p: nat, shift: nat, bits: Byte)
    requires di + dl <= 8 * |was| && si + sl <= 8 * |src|
    requires done < dl && shift < 8 && 8 * p + shift == di + done
    requires NextBits(src, si, sl, done, bits)
    requires Copied(was, mid, di, done, src, si, sl)
    ensures Copied(was, Stored(mid, p, shift, dl - done, bits), di, done + Min(8, dl - done), src, si, sl)
  {
    var now := Stored(mid, p, shift, dl - done, bits);
    forall i | 0 <= i < 8 * |was|
      ensures BitAt(now, i) == CopiedBit(was, di, done + Min(8, dl - done), src, si, sl, i)
    {
      StoredBits(mid, p, shift, dl - done, bits, i);
      RoundBit(was, mid, now, di, dl, src, si, sl, done, bits, i);
    }
  }

  /** The two read-modify-write byte stores of one round. */
  method StoreBits(dst: array<Byte>, p: nat, shift: nat, count: nat, bits: Byte)
    requires shift < 8 && 0 < count && 8 * p + shift + count <= 8 * dst.Length
    modifies dst
    ensures dst[..] == Stored(old(dst[..]), p, shift, count, bits)
  {
    dst[p] := MergeLow(dst[p], bits, shift, count);
    if shift != 0 && count > 8 - shift {
      dst[p + 1] := MergeHigh(dst[p + 1], bits, shift, count);
    }
  }

  /** The bits of one round are the next ones of the source run, zeros past its end. */
  ghost predicate NextBits(src: seq<Byte>, si: nat, sl: nat, done: nat, bits: Byte)
    requires si + sl <= 8 * |src|
  {
    forall j :: 0 <= j < 8 ==> bits[j] == (j < Left(sl, done) && BitAt(src, si + done + j))
  }

  /** The one or two byte loads of one round. */
  method LoadBits(src: seq<Byte>, ghost si: nat, ghost sl: nat, ghost done: nat, p: nat, shift: nat, count: nat)
    returns (bits: Byte)
    requires si + sl <= 8 * |src| && shift < 8 && done < sl && 8 * p + shift == si + done && count == sl - done
    ensures NextBits(src, si, sl, done, bits)
  {
    bits := Gather(src, p, shift, count);
  }

  /** bit_copy: the copy loop over bytes, on buffers that do not overlap. */
  method BitCopy(dst: array<Byte>, di: nat, dl: nat, src: seq<Byte>, si: nat, sl: nat)
    requires di + dl <= 8 * dst.Length && si + sl <= 8 * |src|
    modifies dst
    ensures Copied(old(dst[..]), dst[..], di, dl, src, si, sl)
  {
    var dp, sp := di / 8, si / 8;
    var dc, ds := dl, di % 8;
    var sc, ss := sl, si % 8;
    ghost var was := dst[..];
    ghost var done := 0;
    while dc > 0
      invariant 0 <= dc && 0 <= done && done + dc == dl && (dc > 0 ==> 8 * dp + ds == di + done)
      invariant 0 <= sp && 0 <= sc && (dc > 0 ==> sc == Left(sl, done))
      invariant dc > 0 && sc > 0 ==> 8 * sp + ss == si + done
      invariant Copied(was, dst[..], di, done, src, si, sl)
    {
      var bits := ZERO;
      if sc > 0 {
        bits := LoadBits(src, si, sl, done, sp, ss, sc);
        if sc < 8 {
          sc := 0;
        } else {
          sc := sc - 8;
          sp := sp + 1;
        }
      }
      CopyRound(was, dst[..], di, dl, src, si, sl, done, dp, ds, bits);
      StoreBits(dst, dp, ds, dc, bits);
      done := done + Min(8, dc);
      dc := if dc > 8 then dc - 8 else 0;
      dp := dp + 1;
    }
  }
}
