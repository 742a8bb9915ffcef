/** The FromBCD and ToBCD operators of the interpreter on 64-bit integers.

    A word is looked at as its sixteen nibbles and a number as its decimal digits, both least
    significant first; the two loops are proved to move between these two views. */
module Bcd {
  import opened Arithmetic

  /** 2 to the power of 60, the weight of the top nibble. */
  const TOP: nat := 0x1000_0000_0000_0000
  const TEN16: nat := 10_000_000_000_000_000

  type U64 = x: nat | x < TWO_64

  /** The number with the given digits in the given base. */
  function Value(s: seq<nat>, base: nat): nat {
    if s == [] then 0 else s[0] + base * Value(s[1..], base)
  }

  /** The low n nibbles of b. */
  function Nibbles(b: nat, n: nat): (s: seq<nat>)
    ensures |s| == n && forall i :: 0 <= i < n ==> s[i] < 16
  {
    if n == 0 then [] else [b % 16] + Nibbles(b / 16, n - 1)
  }

  /** The decimal digits of x, none for 0. */
  function Digits(x: nat): (s: seq<nat>)
    ensures forall i :: 0 <= i < |s| ==> s[i] < 10
  {
    if x == 0 then [] else [x % 10] + Digits(x / 10)
  }

  /** The sequence of n zeros. */
  function Zeros(n: nat): (s: seq<nat>)
    ensures |s| == n && forall i :: 0 <= i < n ==> s[i] == 0
  {
    seq(n, i => 0)
  }

  predicate ValidBcd(b: U64) { forall i :: 0 <= i < 16 ==> Nibbles(b, 16)[i] <= 9 }

  /** x >> 4k. */
  function Shifted(x: nat, k: nat): nat {
    if k == 0 then x else Shifted(x, k - 1) / 16
  }

  lemma {:induction false} NibbleAt(b: nat, n: nat, k: nat)
    requires k < n
    ensures Nibbles(b, n)[k] == Shifted(b, k) % 16
  {
    if k > 0 {
      NibbleAt(b / 16, n - 1, k - 1);
      ShiftedFirst(b, k);
    }
  }

  lemma {:induction false} ShiftedBound(x: nat, k: nat)
    ensures Shifted(x, k) <= x
  {
    if k > 0 {
      ShiftedBound(x, k - 1);
    }
  }

  lemma {:induction false} ShiftedFirst(x: nat, k: nat)
    requires k > 0
    ensures Shifted(x, k) == Shifted(x / 16, k - 1)
  {
    if k > 1 {
      ShiftedFirst(x, k - 1);
    }
  }

  /** The loop of FromBCD: the nibbles are taken as decimal digits from the top, valid or not. */
  method FromBcd(src: U64) returns (dst: U64)
    ensures dst == Value(Nibbles(src, 16), 10)
  {
    var i: nat := 64;
    dst := 0;
    ghost var k: nat := 16;
    assert Tail(src, 16) == 0;
    while i > 0
      invariant k <= 16 && i == 4 * k && dst == Tail(src, k)
    {
      i := i - 4;
      TakeNibble(src, k);
      k := k - 1;
      dst := dst * 10 + Shifted(src, i / 4) % 16;
    }
    assert Nibbles(src, 16)[0..] == Nibbles(src, 16);
  }

  /** The nibbles from the k-th on as a decimal number. */
  ghost function Tail(b: nat, k: nat): nat
    requires k <= 16
  {
    Value(Nibbles(b, 16)[k..], 10)
  }

  /** One more nibble from the top. */
  lemma TakeNibble(b: nat, k: nat)
    requires 0 < k <= 16
    ensures Tail(b, k - 1) == Tail(b, k) * 10 + Shifted(b, k - 1) % 16 && Tail(b, k - 1) < TWO_64
  {
    var s := Nibbles(b, 16);
    NibbleAt(b, 16, k - 1);
    assert s[k - 1..][1..] == s[k..];
    FromBcdFits(s[k - 1..]);
  }

  /** Sixteen nibbles read as decimal digits fit a word even when some exceed 9. */
  lemma {:induction false} FromBcdBound(s: seq<nat>)
    requires |s| <= 16 && forall i :: 0 <= i < |s| ==> s[i] < 16
    ensures 9 * Value(s, 10) <= 15 * (Power10(|s|) - 1) && Power10(|s|) <= TEN16
  {
    if s != [] {
      FromBcdBound(s[1..]);
    }
    Power10Mono(|s|, 16);
    PowerConstants();
  }

  function Power10(n: nat): nat {
    if n == 0 then 1 else 10 * Power10(n - 1)
  }

  function Power16(n: nat): nat {
    if n == 0 then 1 else 16 * Power16(n - 1)
  }

  lemma FromBcdFits(s: seq<nat>)
    requires |s| <= 16 && forall i :: 0 <= i < |s| ==> s[i] < 16
    ensures Value(s, 10) < TWO_64
  {
    FromBcdBound(s);
  }

  lemma PowerConstants()
    ensures Power10(16) == TEN16 && Power10(20) > TWO_64 && Power16(15) == TOP
  {
    assert Power10(4) == 10_000;
    assert Power10(8) == 100_000_000;
    assert Power10(12) == 1_000_000_000_000;
    assert Power16(4) == 0x1_0000;
    assert Power16(8) == 0x1_0000_0000;
    assert Power16(12) == 0x1_0000_0000_0000;
  }

  lemma {:induction false} Power10Mono(m: nat, n: nat)
    requires m <= n
    ensures Power10(m) <= Power10(n)
  {
    if m < n {
      Power10Mono(m, n - 1);
    }
  }

  lemma {:induction false} DigitsBound(x: nat, n: nat)
    ensures |Digits(x)| <= n <==> x < Power10(n)
  {
    Power10Mono(0, n);
    if x != 0 && n != 0 {
      DigitsBound(x / 10, n - 1);
    }
  }

  lemma {:induction false} ValueSnoc(s: seq<nat>, d: nat)
    requires |s| == 15
    ensures Value(s + [d], 16) == Value(s, 16) + TOP * d
  {
    ValueSnocAny(s, d);
    PowerConstants();
  }

  lemma {:induction false} ValueSnocAny(s: seq<nat>, d: nat)
    ensures Value(s + [d], 16) == Value(s, 16) + Power16(|s|) * d
  {
    if s == [] {
      assert s + [d] == [d];
      assert Value([d][1..], 16) == 0;
    } else {
      ValueSnocAny(s[1..], d);
      assert (s + [d])[1..] == s[1..] + [d];
    }
  }

  /** Shifting a word right by j nibbles drops its j low nibbles. */
  lemma {:induction false} ShiftedValue(s: seq<nat>, j: nat)
    requires j <= |s| && forall i :: 0 <= i < |s| ==> s[i] < 16
    ensures Shifted(Value(s, 16), j) == Value(s[j..], 16)
  {
    if j == 0 {
      assert s[0..] == s;
    } else {
      ShiftedValue(s, j - 1);
      var t := s[j - 1..];
      assert t[1..] == s[j..];
    }
  }

  /** The sixteen nibbles of dst after the digits in `taken` were pushed in from the top. */
  function Window(taken: seq<nat>): (w: seq<nat>)
    ensures |w| == 16
  {
    (Zeros(16) + taken)[|taken|..]
  }

  lemma WindowPush(taken: seq<nat>, d: nat)
    ensures Window(taken + [d]) == Window(taken)[1..] + [d]
  {
  }

  /** What ToBCD makes of x: the digits of x or, beyond sixteen digits, only those above the
      sixteen low ones. */
  function Kept(x: U64): seq<nat> {
    if |Digits(x)| <= 16 then Digits(x) else Digits(x)[16..]
  }

  /** Pushing the next digit in from the top of the word. */
  lemma PushDigit(taken: seq<nat>, d: nat)
    requires d < 10 && forall i :: 0 <= i < |taken| ==> taken[i] < 10
    ensures Value(Window(taken), 16) / 16 < TOP
    ensures Value(Window(taken + [d]), 16) == Value(Window(taken), 16) / 16 + d * TOP
  {
    var w := Window(taken);
    WindowPush(taken, d);
    ValueSnoc(w[1..], d);
    WindowBound(w[1..]);
  }

  /** The shift count after k digits: it wraps around below zero. */
  function Count(k: nat): U64
    requires k <= 20
  {
    if k <= 16 then 64 - 4 * k else TWO_64 + 64 - 4 * k
  }

  lemma CountInNibbles(k: nat)
    requires k <= 20
    ensures Count(k) % 64 / 4 == if k == 0 then 0 else if k <= 16 then 16 - k else 32 - k
  {
  }

  /** The final shift leaves the kept digits. */
  lemma FinalShift(x: U64)
    requires |Digits(x)| <= 20
    ensures Shifted(Value(Window(Digits(x)), 16), Count(|Digits(x)|) % 64 / 4) == Value(Kept(x), 16)
  {
    var w := Window(Digits(x));
    var j := Count(|Digits(x)|) % 64 / 4;
    CountInNibbles(|Digits(x)|);
    ShiftedValue(w, j);
    if x == 0 {
      assert w == Zeros(16);
      WindowZero(16);
    } else {
      assert w[j..] == Kept(x);
    }
  }

  /** One more digit of `all` moves from what is left to what was taken. */
  lemma TakeDigit(all: seq<nat>, k: nat, rest: nat)
    requires rest != 0 && k <= |all| && Digits(rest) == all[k..]
    ensures k < |all| && all[k] == rest % 10
    ensures Digits(rest / 10) == all[k + 1..] && all[..k + 1] == all[..k] + [rest % 10]
  {
  }

  /** The loop of ToBCD, including its wrap-around of the shift count for large numbers. */
  method ToBcd(src: U64) returns (dst: U64)
    ensures dst == Value(Kept(src), 16)
  {
    var rest: nat := src;
    var i: U64 := 64;
    dst := 0;
    ghost var k: nat := 0;
    StartDigits(src);
    while rest != 0
      invariant k <= |Digits(src)| <= 20 && Digits(rest) == Digits(src)[k..]
      invariant dst == Pushed(src, k) && i == Count(k)
    {
      NextDigit(src, k, rest);
      dst := dst / 16;
      i := if i >= 4 then i - 4 else i + TWO_64 - 4;
      dst := dst + rest % 10 * TOP;
      rest := rest / 10;
      k := k + 1;
    }
    assert Digits(src)[..k] == Digits(src);
    FinalShift(src);
    ShiftedBound(dst, i % 64 / 4);
    dst := Shifted(dst, i % 64 / 4);
  }

  /** The word after the k low digits of x were pushed in. */
  ghost function Pushed(x: nat, k: nat): nat
    requires k <= |Digits(x)|
  {
    Value(Window(Digits(x)[..k]), 16)
  }

  lemma StartDigits(x: U64)
    ensures |Digits(x)| <= 20 && Digits(x)[0..] == Digits(x) && Pushed(x, 0) == 0
  {
    PowerConstants();
    DigitsBound(x, 20);
    assert Window(Digits(x)[..0]) == Zeros(16);
    WindowZero(16);
  }

  lemma NextDigit(x: nat, k: nat, rest: nat)
    requires rest != 0 && k <= |Digits(x)| && Digits(rest) == Digits(x)[k..]
    ensures k < |Digits(x)| && Digits(rest / 10) == Digits(x)[k + 1..]
    ensures Pushed(x, k) / 16 < TOP && Pushed(x, k + 1) == Pushed(x, k) / 16 + rest % 10 * TOP
  {
    TakeDigit(Digits(x), k, rest);
    PushDigit(Digits(x)[..k], rest % 10);
  }

  lemma {:induction false} WindowZero(n: nat)
    ensures Value(Zeros(n), 16) == 0 && Value(Zeros(n), 10) == 0
  {
    if n > 0 {
      WindowZero(n - 1);
      assert Zeros(n)[1..] == Zeros(n - 1);
    }
  }

  lemma {:induction false} WindowBound(s: seq<nat>)
    requires |s| <= 15 && forall i :: 0 <= i < |s| ==> s[i] < 16
    ensures Value(s, 16) < Power16(|s|) <= TOP
  {
    if s != [] {
      WindowBound(s[1..]);
    }
    PowerConstants();
    Power16Mono(|s|, 15);
  }

  lemma {:induction false} Power16Mono(m: nat, n: nat)
    requires m <= n
    ensures Power16(m) <= Power16(n)
  {
    if m < n {
      Power16Mono(m, n - 1);
    }
  }

  lemma {:induction false} DigitsValue(x: nat)
    ensures Value(Digits(x), 10) == x
  {
    if x != 0 {
      DigitsValue(x / 10);
    }
  }

  /** Nibbles inverts Value: the word with given nibbles has those nibbles and zeros above. */
  lemma {:induction false} NibblesOfValue(s: seq<nat>, n: nat)
    requires |s| <= n && forall i :: 0 <= i < |s| ==> s[i] < 16
    ensures Nibbles(Value(s, 16), n) == s + Zeros(n - |s|)
  {
    if n > 0 {
      if s == [] {
        NibblesOfValue([], n - 1);
        assert [0] + Zeros(n - 1) == Zeros(n);
      } else {
        NibblesOfValue(s[1..], n - 1);
        assert Value(s, 16) / 16 == Value(s[1..], 16) && Value(s, 16) % 16 == s[0];
        assert s == [s[0]] + s[1..];
      }
    }
  }

  lemma {:induction false} ValueWithZeros(s: seq<nat>, n: nat)
    ensures Value(s + Zeros(n), 10) == Value(s, 10) && Value(s + Zeros(n), 16) == Value(s, 16)
  {
    if s == [] {
      assert s + Zeros(n) == Zeros(n);
      WindowZero(n);
    } else {
      ValueWithZeros(s[1..], n);
      assert (s + Zeros(n))[1..] == s[1..] + Zeros(n);
    }
  }

  lemma DivByTenMore(x: nat, p: nat)
    requires p > 0
    ensures x / p / 10 == x / (10 * p)
  {
    var q, r := x / p, x % p;
    var q2, r2 := q / 10, q % 10;
    Regroup(p, q2, r2, r);
    assert x == p * q + r && q == 10 * q2 + r2;
    DivModIs(x, 10 * p, q2, p * r2 + r);
  }

  lemma Regroup(p: nat, q: nat, d: nat, r: nat)
    requires d < 10 && r < p
    ensures p * (10 * q + d) + r == 10 * p * q + (p * d + r) && p * d + r < 10 * p
  {
  }

  /** x without its n low decimal digits. */
  function DropDigits(x: nat, n: nat): nat {
    if n == 0 then x else DropDigits(x, n - 1) / 10
  }

  lemma {:induction false} HighDigits(x: nat, n: nat)
    requires |Digits(x)| >= n
    ensures Digits(x)[n..] == Digits(DropDigits(x, n))
  {
    if n == 0 {
      assert Digits(x)[0..] == Digits(x);
    } else {
      HighDigits(x, n - 1);
      assert Digits(x)[n..] == Digits(x)[n - 1..][1..];
    }
  }

  lemma {:induction false} DropDigitsDivides(x: nat, n: nat, p: nat)
    requires p == Power10(n) && p > 0
    ensures DropDigits(x, n) == x / p
  {
    if n > 0 {
      Power10Mono(0, n - 1);
      DropDigitsDivides(x, n - 1, Power10(n - 1));
      DivByTenMore(x, Power10(n - 1));
    }
  }

  /** What the two operators compute, by the contracts of their loops. */
  function FromBcdOf(b: U64): nat { Value(Nibbles(b, 16), 10) }
  function ToBcdOf(x: U64): nat { Value(Kept(x), 16) }

  lemma KeptFits(x: U64)
    ensures |Kept(x)| <= 16 && ToBcdOf(x) < TWO_64 && Nibbles(ToBcdOf(x), 16) == Kept(x) + Zeros(16 - |Kept(x)|)
  {
    assert |Digits(x)| <= 20 by {
      PowerConstants();
      DigitsBound(x, 20);
    }
    NibblesOfValue(Kept(x), 16);
    WordBound(Kept(x));
  }

  lemma WordBound(s: seq<nat>)
    requires |s| <= 16 && forall i :: 0 <= i < |s| ==> s[i] < 16
    ensures Value(s, 16) < TWO_64
  {
    if s != [] {
      WindowBound(s[1..]);
    }
  }

  lemma ToBcdIsValid(x: U64)
    ensures ToBcdOf(x) < TWO_64 && ValidBcd(ToBcdOf(x))
  {
    KeptFits(x);
    var n := Nibbles(ToBcdOf(x), 16);
    forall i | 0 <= i < 16
      ensures n[i] <= 9
    {
      assert n[i] == (Kept(x) + Zeros(16 - |Kept(x)|))[i];
    }
  }

  /** FromBCD after ToBCD gives x back exactly below 10^16; from there on ToBCD keeps only x / 10^16. */
  lemma FromAfterTo(x: U64)
    ensures ToBcdOf(x) < TWO_64 && ValidBcd(ToBcdOf(x))
    ensures FromBcdOf(ToBcdOf(x)) == if x < TEN16 then x else x / TEN16
    ensures FromBcdOf(ToBcdOf(x)) == x <==> x < TEN16
  {
    ToBcdIsValid(x);
    FromKept(x);
    DigitsBound(x, 16);
    PowerConstants();
    if x < TEN16 {
      DigitsValue(x);
    } else {
      HighValue(x);
      assert x / TEN16 < x;
    }
  }

  lemma FromKept(x: U64)
    ensures ToBcdOf(x) < TWO_64 && FromBcdOf(ToBcdOf(x)) == Value(Kept(x), 10)
  {
    KeptFits(x);
    ValueWithZeros(Kept(x), 16 - |Kept(x)|);
  }

  lemma HighValue(x: U64)
    requires |Digits(x)| > 16
    ensures Value(Kept(x), 10) == x / TEN16
  {
    HighDigits(x, 16);
    PowerConstants();
    DropDigitsDivides(x, 16, TEN16);
    DigitsValue(x / TEN16);
  }

  lemma {:induction false} ValueOfNibbles(b: nat, n: nat)
    requires b < Power16(n)
    ensures Value(Nibbles(b, n), 16) == b
  {
    if n > 0 {
      ValueOfNibbles(b / 16, n - 1);
      assert Nibbles(b, n)[1..] == Nibbles(b / 16, n - 1);
    }
  }

  /** Valid digits are the digits of their value, up to leading zeros. */
  lemma {:induction false} DigitsOfValue(s: seq<nat>)
    requires forall i :: 0 <= i < |s| ==> s[i] <= 9
    ensures |Digits(Value(s, 10))| <= |s|
    ensures s == Digits(Value(s, 10)) + Zeros(|s| - |Digits(Value(s, 10))|)
  {
    if s != [] {
      DigitsOfValue(s[1..]);
      var v := Value(s, 10);
      assert v / 10 == Value(s[1..], 10) && v % 10 == s[0];
      assert s == [s[0]] + s[1..];
    }
  }

  /** ToBCD after FromBCD gives the word back exactly when every nibble is a decimal digit. */
  lemma ToAfterFrom(b: U64)
    ensures FromBcdOf(b) < TWO_64
    ensures ToBcdOf(FromBcdOf(b)) == b <==> ValidBcd(b)
  {
    FromBcdFits(Nibbles(b, 16));
    ToBcdIsValid(FromBcdOf(b));
    if ValidBcd(b) {
      ValidComesBack(b);
    }
  }

  lemma ValidComesBack(b: U64)
    requires ValidBcd(b) && FromBcdOf(b) < TWO_64
    ensures ToBcdOf(FromBcdOf(b)) == b
  {
    var s, x := Nibbles(b, 16), FromBcdOf(b);
    DigitsOfValue(s);
    ValueWithZeros(Digits(x), 16 - |Digits(x)|);
    PowerConstants();
    ValueOfNibbles(b, 16);
  }
}
