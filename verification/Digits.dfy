/** Integers as digits: what the digit loops of `printf.c` write and what `_atoi` reads. */
module Digits {
  import opened Arithmetic

  const NTOA_BUFFER_SIZE: nat := 32

  predicate IsBase(base: nat) { base == 2 || base == 8 || base == 10 || base == 16 }

  function DigitChar(d: nat, upper: bool): char
    requires d < 16
  {
    if d < 10 then ('0' as int + d) as char else ((if upper then 'A' else 'a') as int + d - 10) as char
  }

  /** The value of a digit character. */
  function DigitValue(c: char): nat {
    if '0' <= c <= '9' then c as int - '0' as int
    else if 'a' <= c <= 'f' then c as int - 'a' as int + 10
    else if 'A' <= c <= 'F' then c as int - 'A' as int + 10
    else 0
  }

  /** The digits of a value, the last one first, no more than `room` of them. */
  function DigitsOf(value: nat, base: nat, upper: bool, room: nat): (r: seq<char>)
    requires IsBase(base)
    ensures |r| <= room
    decreases room
  {
    if room == 0 then []
    else
      [DigitChar(value % base, upper)] + if value / base == 0 then [] else DigitsOf(value / base, base, upper, room - 1)
  }

  function Reversed(s: seq<char>): (r: seq<char>)
    ensures |r| == |s|
    ensures forall i :: 0 <= i < |s| ==> r[i] == s[|s| - 1 - i]
  {
    seq(|s|, i requires 0 <= i < |s| => s[|s| - 1 - i])
  }

  /** The value of digits, the first one being the most significant. */
  function Evaluate(s: seq<char>, base: nat): nat {
    if s == [] then 0 else Evaluate(s[..|s| - 1], base) * base + DigitValue(s[|s| - 1])
  }

  function Power(base: nat, n: nat): nat { if n == 0 then 1 else base * Power(base, n - 1) }

  lemma {:induction false} PowerPositive(base: nat, n: nat)
    requires base > 0
    ensures Power(base, n) > 0
  {
    if n > 0 {
      PowerPositive(base, n - 1);
    }
  }

  /** The value of all digits but the last. */
  function Front(value: nat, base: nat, upper: bool, room: nat): nat
    requires IsBase(base) && room > 0
  {
    if value / base == 0 then 0 else Evaluate(Reversed(DigitsOf(value / base, base, upper, room - 1)), base)
  }

  /** What is left of a value when only `room` digits are kept. */
  lemma {:induction false} EvaluateDigits(value: nat, base: nat, upper: bool, room: nat)
    requires IsBase(base)
    ensures Power(base, room) > 0
    ensures Evaluate(Reversed(DigitsOf(value, base, upper, room)), base) == value % Power(base, room)
    decreases room, 1
  {
    PowerPositive(base, room);
    if room > 0 {
      FrontDigits(value, base, upper, room);
      LastDigit(value, base, upper, room);
    }
  }

  lemma {:induction false} FrontDigits(value: nat, base: nat, upper: bool, room: nat)
    requires IsBase(base) && room > 0
    ensures Power(base, room) > 0
    ensures Front(value, base, upper, room) * base + value % base == value % Power(base, room)
    decreases room, 0
  {
    var q, p, x := value / base, Power(base, room - 1), Front(value, base, upper, room);
    PowerPositive(base, room - 1);
    assert x == if q == 0 then 0 else q % p by {
      if q != 0 {
        EvaluateDigits(q, base, upper, room - 1);
      }
    }
    Assemble(value, base, p, q, value % base, x);
  }

  /** The value of the digits before the last, times the base, and the last one. */
  lemma LastDigit(value: nat, base: nat, upper: bool, room: nat)
    requires IsBase(base) && room > 0
    ensures Evaluate(Reversed(DigitsOf(value, base, upper, room)), base)
         == Front(value, base, upper, room) * base + value % base
  {
    var q, d, x := value / base, value % base, Front(value, base, upper, room);
    var more := if q == 0 then [] else DigitsOf(q, base, upper, room - 1);
    assert x == Evaluate(Reversed(more), base);
    Below16(value, base);
    DigitsStep(value, base, upper, room, d, more);
    LastDigitOf(d, upper, more, base);
  }

  lemma Assemble(value: nat, base: nat, p: nat, q: nat, d: nat, x: nat)
    requires base > 0 && p > 0 && q == value / base && d == value % base && x == if q == 0 then 0 else q % p
    ensures base * p > 0 && x * base + d == value % (base * p)
  {
    DivModPower(value, base, p);
  }

  lemma Below16(value: nat, base: nat)
    requires IsBase(base)
    ensures value % base < 16
  {
  }

  lemma DigitsStep(value: nat, base: nat, upper: bool, room: nat, d: nat, more: seq<char>)
    requires IsBase(base) && room > 0 && d == value % base && d < 16
    requires more == if value / base == 0 then [] else DigitsOf(value / base, base, upper, room - 1)
    ensures DigitsOf(value, base, upper, room) == [DigitChar(d, upper)] + more
  {
  }

  lemma LastDigitOf(d: nat, upper: bool, more: seq<char>, base: nat)
    requires d < 16
    ensures Evaluate(Reversed([DigitChar(d, upper)] + more), base) == Evaluate(Reversed(more), base) * base + d
  {
    EvaluateCons(DigitChar(d, upper), more, base);
  }

  lemma EvaluateSnoc(s: seq<char>, c: char, base: nat)
    ensures Evaluate(s + [c], base) == Evaluate(s, base) * base + DigitValue(c)
  {
    assert (s + [c])[..|s|] == s;
  }

  lemma EvaluateCons(c: char, more: seq<char>, base: nat)
    ensures Evaluate(Reversed([c] + more), base) == Evaluate(Reversed(more), base) * base + DigitValue(c)
  {
    var r := Reversed([c] + more);
    assert r[..|r| - 1] == Reversed(more);
  }

  lemma DivModPower(value: nat, base: nat, p: nat)
    requires base > 0 && p > 0
    ensures base * p > 0
    ensures value % (base * p) == value / base % p * base + value % base
  {
    var q, d := value / base, value % base;
    var h, r := q / p, q % p;
    assert value == base * q + d && q == p * h + r;
    assert base * (p * h) == (base * p) * h;
    assert base * q == (base * p) * h + base * r;
    assert value == (base * p) * h + (base * r + d);
    Small(base, r, d, p);
    Remainder(value, base * p, h, base * r + d);
  }

  lemma Small(base: nat, r: nat, d: nat, p: nat)
    requires base > 0 && r < p && d < base
    ensures base * p > 0 && base * r + d < base * p
  {
    assert base * (r + 1) <= base * p;
  }

  lemma Times(m: nat, a: nat, b: nat)
    ensures a < b ==> m * a + m <= m * b
  {
    if a < b {
      assert m * (a + 1) <= m * b;
    }
  }

  lemma Remainder(value: nat, m: nat, h: nat, r: nat)
    requires m > 0 && value == m * h + r && r < m
    ensures value % m == r
  {
    var h' := value / m;
    assert value == m * h' + value % m;
    Times(m, h, h');
    Times(m, h', h);
  }

  // ---------------------------------------------------------------------------------------- round trips

  lemma {:induction false} PowerAdd(base: nat, m: nat, n: nat)
    ensures Power(base, m + n) == Power(base, m) * Power(base, n)
    decreases m
  {
    if m > 0 {
      PowerAdd(base, m - 1, n);
      assert base * (Power(base, m - 1) * Power(base, n)) == (base * Power(base, m - 1)) * Power(base, n);
    }
  }

  lemma {:induction false} PowerMonotone(a: nat, b: nat, n: nat)
    requires a <= b
    ensures Power(a, n) <= Power(b, n)
  {
    if n > 0 {
      PowerMonotone(a, b, n - 1);
      Product(a, b, Power(a, n - 1), Power(b, n - 1));
    }
  }

  lemma Product(a: nat, b: nat, x: nat, y: nat)
    requires a <= b && x <= y
    ensures a * x <= b * y
  {
  }

  lemma PowersOfTwo()
    ensures Power(2, 32) == TWO_32 && Power(8, 32) >= TWO_64
  {
    assert Power(2, 8) == 256;
    PowerAdd(2, 8, 8);
    PowerAdd(2, 16, 16);
    assert Power(8, 4) == 4096;
    PowerAdd(8, 4, 4);
    PowerAdd(8, 8, 8);
    PowerAdd(8, 16, 16);
  }

  /** What a plain conversion prints. */
  function Plain(value: nat, base: nat, upper: bool): string
    requires IsBase(base)
  {
    Reversed(DigitsOf(value, base, upper, NTOA_BUFFER_SIZE))
  }

  /** Plain octal, decimal and hexadecimal output evaluates back to any 64-bit value. */
  lemma PlainRoundTrip(value: nat, base: nat, upper: bool)
    requires value < TWO_64 && (base == 8 || base == 10 || base == 16)
    ensures Evaluate(Plain(value, base, upper), base) == value
  {
    EvaluateDigits(value, base, upper, NTOA_BUFFER_SIZE);
    PowersOfTwo();
    PowerMonotone(8, base, NTOA_BUFFER_SIZE);
    SmallMod(value, Power(base, NTOA_BUFFER_SIZE));
  }

  lemma PlainKeeps(value: nat, base: nat, upper: bool)
    requires IsBase(base)
    ensures Power(base, NTOA_BUFFER_SIZE) > 0
    ensures Evaluate(Plain(value, base, upper), base) == value % Power(base, NTOA_BUFFER_SIZE)
  {
    EvaluateDigits(value, base, upper, NTOA_BUFFER_SIZE);
  }

  /** Binary output does exactly when the value fits the 32 characters of the buffer. */
  lemma BinaryRoundTrip(value: nat, upper: bool)
    ensures Evaluate(Plain(value, 2, upper), 2) == value % TWO_32
    ensures Evaluate(Plain(value, 2, upper), 2) == value <==> value < TWO_32
  {
    PlainKeeps(value, 2, upper);
    PowersOfTwo();
    SmallMod(value, TWO_32);
  }

  // --------------------------------------------------------------------------------------------- _atoi

  predicate IsDigit(c: char) { '0' <= c <= '9' }

  /** The digits at the start of s. */
  function DigitCount(s: string): (k: nat)
    ensures k <= |s| && (forall i :: 0 <= i < k ==> IsDigit(s[i])) && (k < |s| ==> !IsDigit(s[k]))
  {
    if s == "" || !IsDigit(s[0]) then 0 else 1 + DigitCount(s[1..])
  }

  /** _atoi: the digits at the start, in 32-bit arithmetic, and where they end. */
  method Atoi(s: string, start: nat) returns (value: nat, next: nat)
    requires start <= |s|
    ensures next == start + DigitCount(s[start..])
    ensures value == Evaluate(s[start..next], 10) % TWO_32
  {
    value, next := 0, start;
    while next < |s| && IsDigit(s[next])
      invariant start <= next <= |s| && forall i :: start <= i < next ==> IsDigit(s[i])
      invariant value == Evaluate(s[start..next], 10) % TWO_32
    {
      AtoiStep(s, start, next);
      value := (value * 10 + (s[next] as int - '0' as int)) % TWO_32;
      next := next + 1;
    }
  }

  lemma AtoiStep(s: string, start: nat, next: nat)
    requires start <= next < |s|
    ensures Evaluate(s[start..next + 1], 10) % TWO_32
         == (Evaluate(s[start..next], 10) % TWO_32 * 10 + DigitValue(s[next])) % TWO_32
  {
    assert s[start..next + 1] == s[start..next] + [s[next]];
    EvaluateSnoc(s[start..next], s[next], 10);
    WrapStep(Evaluate(s[start..next], 10), DigitValue(s[next]));
  }

  lemma WrapStep(x: nat, d: nat)
    ensures (x % TWO_32 * 10 + d) % TWO_32 == (x * 10 + d) % TWO_32
  {
  }

  lemma {:induction false} DecimalDigits(value: nat, upper: bool, room: nat)
    requires room > 0
    ensures DigitsOf(value, 10, upper, room) != []
    ensures forall i :: 0 <= i < |DigitsOf(value, 10, upper, room)| ==> IsDigit(DigitsOf(value, 10, upper, room)[i])
    decreases room
  {
    if value / 10 != 0 && room > 1 {
      DecimalDigits(value / 10, upper, room - 1);
    }
  }

  /** _atoi reads plain decimal output of a 32-bit value back, whatever other text follows. */
  lemma AtoiInvertsPlain(value: nat, upper: bool, rest: string)
    requires value < TWO_32 && (rest == "" || !IsDigit(rest[0]))
    ensures DigitCount(Plain(value, 10, upper) + rest) == |Plain(value, 10, upper)|
    ensures Evaluate((Plain(value, 10, upper) + rest)[..|Plain(value, 10, upper)|], 10) % TWO_32 == value
  {
    DecimalDigits(value, upper, NTOA_BUFFER_SIZE);
    PlainRoundTrip(value, 10, upper);
    AtoiReads(Plain(value, 10, upper), rest, value);
  }

  lemma AtoiReads(p: string, rest: string, value: nat)
    requires (forall i :: 0 <= i < |p| ==> IsDigit(p[i])) && (rest == "" || !IsDigit(rest[0]))
    requires Evaluate(p, 10) == value < TWO_32
    ensures DigitCount(p + rest) == |p| && Evaluate((p + rest)[..|p|], 10) % TWO_32 == value
  {
    forall i | 0 <= i < |p|
      ensures IsDigit((p + rest)[i])
    {
      assert (p + rest)[i] == p[i];
    }
    TakeFront(p, rest);
    SmallMod(value, TWO_32);
  }

  lemma TakeFront(p: string, rest: string)
    ensures (p + rest)[..|p|] == p
  {
  }
}
