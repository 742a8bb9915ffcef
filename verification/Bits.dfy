/** Machine words as their bits, least significant first, and buffers of bytes as runs of bits.

    The C operators &, |, ~, << and >> are bitwise, so they are defined bit by bit. */
module Bits {
  type Word = seq<bool>
  type Byte = w: seq<bool> | |w| == 8 witness [false, false, false, false, false, false, false, false]

  function And(a: Word, b: Word): (r: Word)
    requires |a| == |b|
    ensures |r| == |a| && forall j :: 0 <= j < |a| ==> r[j] == (a[j] && b[j])
  {
    seq(|a|, j requires 0 <= j < |a| => a[j] && b[j])
  }

  function Or(a: Word, b: Word): (r: Word)
    requires |a| == |b|
    ensures |r| == |a| && forall j :: 0 <= j < |a| ==> r[j] == (a[j] || b[j])
  {
    seq(|a|, j requires 0 <= j < |a| => a[j] || b[j])
  }

  function Not(a: Word): (r: Word)
    ensures |r| == |a| && forall j :: 0 <= j < |a| ==> r[j] == !a[j]
  {
    seq(|a|, j requires 0 <= j < |a| => !a[j])
  }

  /** a << n, within the width of a. */
  function Shl(a: Word, n: nat): (r: Word)
    ensures |r| == |a| && forall j :: 0 <= j < |a| ==> r[j] == (n <= j && a[j - n])
  {
    seq(|a|, j requires 0 <= j < |a| => n <= j && a[j - n])
  }

  /** a >> n. */
  function Shr(a: Word, n: nat): (r: Word)
    ensures |r| == |a| && forall j :: 0 <= j < |a| ==> r[j] == (j + n < |a| && a[j + n])
  {
    seq(|a|, j requires 0 <= j < |a| => j + n < |a| && a[j + n])
  }

  /** (1 << n) - 1 in the given width. */
  function LowMask(n: nat, width: nat): (r: Word)
    ensures |r| == width && forall j :: 0 <= j < width ==> r[j] == (j < n)
  {
    seq(width, j requires 0 <= j < width => j < n)
  }

  const ZERO: Byte := LowMask(0, 8)
  const ONES: Byte := LowMask(8, 8)

  /** Bit i of a buffer. */
  predicate BitAt(s: seq<Byte>, i: nat)
    requires i < 8 * |s|
  {
    s[i / 8][i % 8]
  }

  /** Buffers with equal bits are equal. */
  lemma SameBuffers(s: seq<Byte>, t: seq<Byte>)
    requires |s| == |t| && forall i :: 0 <= i < 8 * |s| ==> BitAt(s, i) == BitAt(t, i)
    ensures s == t
  {
    forall k | 0 <= k < |s|
      ensures s[k] == t[k]
    {
      forall j | 0 <= j < 8
        ensures s[k][j] == t[k][j]
      {
        assert BitAt(s, 8 * k + j) == BitAt(t, 8 * k + j);
        assert (8 * k + j) / 8 == k && (8 * k + j) % 8 == j;
      }
    }
  }
}
