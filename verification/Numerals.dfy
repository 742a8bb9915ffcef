/** Texts read as integers, the way a reader of `printf.c`'s output would: spaces around, a sign, a base prefix, digits.
    Nothing here knows how the text was made. */
module Numerals {
  import opened Options
  import opened Digits

  function TrimLeft(t: string): string { if t != "" && t[0] == ' ' then TrimLeft(t[1..]) else t }
  function TrimRight(t: string): string { if t != "" && t[|t| - 1] == ' ' then TrimRight(t[..|t| - 1]) else t }

  /** A digit of the base, in either case. */
  predicate IsDigitOf(c: char, base: nat) {
    ('0' <= c <= '9' || 'a' <= c <= 'f' || 'A' <= c <= 'F') && DigitValue(c) < base
  }

  predicate AllDigits(t: string, base: nat) { forall i :: 0 <= i < |t| ==> IsDigitOf(t[i], base) }

  /** The letter of a base prefix. */
  predicate IsMark(c: char, base: nat) { (base == 16 && (c == 'x' || c == 'X')) || (base == 2 && c == 'b') }

  predicate IsSign(c: char) { c == '-' || c == '+' }

  function DropSign(t: string): string { if t != "" && IsSign(t[0]) then t[1..] else t }
  function DropPrefix(t: string, base: nat): string {
    if |t| >= 2 && t[0] == '0' && IsMark(t[1], base) then t[2..] else t
  }

  function Signed(negative: bool, n: nat): int { if negative then -(n as int) else n }

  function ReadUnsigned(v: string, negative: bool, base: nat): Option<int> {
    var digits := DropPrefix(v, base);
    if AllDigits(digits, base) then Some(Signed(negative, Evaluate(digits, base))) else None
  }

  /** The integer that a text stands for; no digits at all are 0. */
  function ReadInteger(t: string, base: nat): Option<int> {
    var core := TrimRight(TrimLeft(t));
    ReadUnsigned(DropSign(core), core != "" && core[0] == '-', base)
  }

  predicate AllSpaces(t: string) { forall i :: 0 <= i < |t| ==> t[i] == ' ' }

  lemma {:induction false} TrimLeftOf(a: string, core: string)
    requires AllSpaces(a) && (core == "" || core[0] != ' ')
    ensures TrimLeft(a + core) == core
  {
    if a == "" {
      assert a + core == core;
    } else {
      assert (a + core)[1..] == a[1..] + core;
      TrimLeftOf(a[1..], core);
    }
  }

  lemma {:induction false} TrimRightOf(core: string, c: string)
    requires AllSpaces(c) && (core == "" || core[|core| - 1] != ' ')
    ensures TrimRight(core + c) == core
    decreases |c|
  {
    if c == "" {
      assert core + c == core;
    } else {
      assert (core + c)[..|core + c| - 1] == core + c[..|c| - 1];
      TrimRightOf(core, c[..|c| - 1]);
    }
  }

  /** Spaces around a text that has none at its ends do not count. */
  lemma Trimmed(a: string, core: string, c: string)
    requires AllSpaces(a) && AllSpaces(c) && (core == "" || (core[0] != ' ' && core[|core| - 1] != ' '))
    ensures TrimRight(TrimLeft(a + core + c)) == core
  {
    if core == "" {
      assert a + core + c == (a + c) + "";
      TrimLeftOf(a + c, "");
    } else {
      assert a + core + c == a + (core + c);
      TrimLeftOf(a, core + c);
      TrimRightOf(core, c);
    }
  }

  lemma {:induction false} EvaluateZeroes(zeroes: string, t: string, base: nat)
    requires forall i :: 0 <= i < |zeroes| ==> zeroes[i] == '0'
    ensures Evaluate(zeroes + t, base) == Evaluate(t, base)
    decreases |zeroes| + |t|
  {
    var s := zeroes + t;
    if t != "" {
      assert s[..|s| - 1] == zeroes + t[..|t| - 1];
      EvaluateZeroes(zeroes, t[..|t| - 1], base);
    } else if zeroes != "" {
      assert s[..|s| - 1] == zeroes[..|zeroes| - 1] + t;
      EvaluateZeroes(zeroes[..|zeroes| - 1], t, base);
    }
  }

  /** What stands in front of the digits. */
  datatype Prefix = NoPrefix | Zero | Full(mark: char) | Broken(mark: char)

  function PrefixText(p: Prefix): string {
    match p
    case NoPrefix => ""
    case Zero => "0"
    case Full(m) => ['0', m]
    case Broken(m) => [m]
  }

  /** A text of sign, prefix and digits is read as that; a prefix that has lost its 0 makes it unreadable. */
  lemma ReadParts(a: string, sign: string, p: Prefix, digits: string, c: string, base: nat)
    requires AllSpaces(a) && AllSpaces(c) && IsBase(base) && AllDigits(digits, base)
    requires sign == "" || sign == "-" || sign == "+"
    requires p.Full? || p.Broken? ==> IsMark(p.mark, base)
    ensures ReadInteger(a + (sign + (PrefixText(p) + digits)) + c, base)
         == if p.Broken? then None else Some(Signed(sign == "-", Evaluate(digits, base)))
  {
    NoSpaces(p, digits, base);
    PrefixDropped(p, digits, base);
    ReadSigned(a, sign, PrefixText(p) + digits, c, base);
  }

  lemma ReadSigned(a: string, sign: string, v: string, c: string, base: nat)
    requires AllSpaces(a) && AllSpaces(c) && (sign == "" || sign == "-" || sign == "+")
    requires v == "" || (v[0] != ' ' && v[|v| - 1] != ' ' && !IsSign(v[0]))
    ensures ReadInteger(a + (sign + v) + c, base) == ReadUnsigned(v, sign == "-", base)
  {
    SignDropped(sign, v);
    Trimmed(a, sign + v, c);
  }

  lemma SignDropped(sign: string, v: string)
    requires sign == "" || sign == "-" || sign == "+"
    requires v == "" || (v[0] != ' ' && v[|v| - 1] != ' ' && !IsSign(v[0]))
    ensures var core := sign + v;
            && DropSign(core) == v && (core != "" && core[0] == '-' <==> sign == "-")
            && (core == "" || (core[0] != ' ' && core[|core| - 1] != ' '))
  {
    var core := sign + v;
    if sign == "" {
      assert core == v;
    } else {
      assert core[1..] == v;
    }
  }

  lemma NoSpaces(p: Prefix, digits: string, base: nat)
    requires IsBase(base) && AllDigits(digits, base) && (p.Full? || p.Broken? ==> IsMark(p.mark, base))
    ensures var v := PrefixText(p) + digits;
            v == "" || (v[0] != ' ' && v[|v| - 1] != ' ' && !IsSign(v[0]))
  {
    var v := PrefixText(p) + digits;
    if digits != "" {
      assert v[|v| - 1] == digits[|digits| - 1];
    }
  }

  lemma PrefixDropped(p: Prefix, digits: string, base: nat)
    requires IsBase(base) && AllDigits(digits, base) && (p.Full? || p.Broken? ==> IsMark(p.mark, base))
    ensures var w := DropPrefix(PrefixText(p) + digits, base);
            if p.Broken? then !AllDigits(w, base) else AllDigits(w, base) && Evaluate(w, base) == Evaluate(digits, base)
  {
    var v := PrefixText(p) + digits;
    match p
    case NoPrefix => assert v == digits;
    case Zero => ZeroDropped(digits, base);
    case Full(m) => assert v[2..] == digits;
    case Broken(m) => assert v[0] == m && DropPrefix(v, base) == v;
  }

  lemma ZeroDropped(digits: string, base: nat)
    requires IsBase(base) && AllDigits(digits, base)
    ensures var v := "0" + digits;
            DropPrefix(v, base) == v && AllDigits(v, base) && Evaluate(v, base) == Evaluate(digits, base)
  {
    var v := "0" + digits;
    EvaluateZeroes("0", digits, base);
    if |v| >= 2 {
      assert v[1] == digits[0] && IsDigitOf(digits[0], base);
    }
  }

  // ---------------------------------------------------------------------------------------- digit counts

  /** How many digits a value has. */
  function DigitsIn(value: nat, base: nat): (n: nat)
    requires base >= 2
    ensures n > 0
  {
    if value < base then 1
    else
      QuotientLess(value, base);
      1 + DigitsIn(value / base, base)
  }

  lemma QuotientLess(value: nat, base: nat)
    requires 2 <= base <= value
    ensures value / base < value
  {
    BelowProduct(value, base, value);
    Product(2, base, value, value);
  }

  /** k digits are enough exactly for the values below base to the k. */
  lemma {:induction false} EnoughDigits(value: nat, base: nat, k: nat)
    requires base >= 2 && (k > 0 || value > 0)
    ensures DigitsIn(value, base) <= k <==> value < Power(base, k)
    decreases k
  {
    if k > 0 {
      PowerPositive(base, k - 1);
      if value < base {
        Product(base, base, 1, Power(base, k - 1));
      } else {
        BelowProduct(value, base, Power(base, k - 1));
        EnoughDigits(value / base, base, k - 1);
      }
    }
  }

  lemma BelowProduct(value: nat, base: nat, p: nat)
    requires base > 0
    ensures value / base < p <==> value < base * p
  {
    var q, r := value / base, value % base;
    if q < p {
      Product(base, base, q + 1, p);
      assert base * (q + 1) == base * q + base;
    } else {
      Product(base, base, p, q);
    }
  }

  /** The first k digits of the longer row are the row of k. */
  lemma {:induction false} DigitsPrefix(value: nat, base: nat, upper: bool, room: nat, k: nat)
    requires IsBase(base) && k <= |DigitsOf(value, base, upper, room)|
    ensures DigitsOf(value, base, upper, room)[..k] == DigitsOf(value, base, upper, k)
    decreases room
  {
    if k > 0 {
      var c, q, more, less := Unfold(value, base, upper, room, k);
      if q != 0 {
        MoreThan(c, more, DigitsOf(value, base, upper, room), k);
        DigitsPrefix(q, base, upper, room - 1, k - 1);
      }
      PrefixOf(c, more, less, DigitsOf(value, base, upper, room), DigitsOf(value, base, upper, k), k);
    }
  }

  /** Two rows of one value, opened up. */
  lemma Unfold(value: nat, base: nat, upper: bool, room: nat, k: nat)
    returns (c: char, q: nat, more: string, less: string)
    requires IsBase(base) && room > 0 && k > 0
    ensures DigitsOf(value, base, upper, room) == [c] + more && DigitsOf(value, base, upper, k) == [c] + less
    ensures if q == 0 then more == less == []
            else more == DigitsOf(q, base, upper, room - 1) && less == DigitsOf(q, base, upper, k - 1)
  {
    Below16(value, base);
    c, q := DigitChar(value % base, upper), value / base;
    more := if q == 0 then [] else DigitsOf(q, base, upper, room - 1);
    less := if q == 0 then [] else DigitsOf(q, base, upper, k - 1);
    DigitsStep(value, base, upper, room, value % base, more);
    DigitsStep(value, base, upper, k, value % base, less);
  }

  lemma MoreThan(c: char, more: string, row: string, k: nat)
    requires row == [c] + more && k <= |row|
    ensures k <= |more| + 1
  {
  }

  lemma PrefixOf(c: char, more: string, less: string, row: string, part: string, k: nat)
    requires row == [c] + more && part == [c] + less && 0 < k <= |row| && more[..k - 1] == less
    ensures row[..k] == part
  {
  }

  lemma {:induction false} DigitsLength(value: nat, base: nat, upper: bool, room: nat)
    requires IsBase(base) && room > 0
    ensures |DigitsOf(value, base, upper, room)|
         == if DigitsIn(value, base) < room then DigitsIn(value, base) else room
    decreases room
  {
    DivZero(value, base);
    if value >= base && room > 1 {
      DigitsLength(value / base, base, upper, room - 1);
    }
  }

  lemma DivZero(value: nat, base: nat)
    requires base > 0
    ensures value / base == 0 <==> value < base
  {
  }

  lemma {:induction false} DigitsAreDigits(value: nat, base: nat, upper: bool, room: nat)
    requires IsBase(base)
    ensures AllDigits(DigitsOf(value, base, upper, room), base)
    decreases room
  {
    if room > 0 {
      Below16(value, base);
      var q, d := value / base, value % base;
      var more := if q == 0 then [] else DigitsOf(q, base, upper, room - 1);
      if q != 0 {
        DigitsAreDigits(q, base, upper, room - 1);
      }
      OneDigitMore(d, more, base, upper);
      DigitsStep(value, base, upper, room, d, more);
    }
  }

  lemma OneDigitMore(d: nat, more: string, base: nat, upper: bool)
    requires d < base <= 16 && AllDigits(more, base)
    ensures AllDigits([DigitChar(d, upper)] + more, base)
  {
    DigitCharIs(d, base, upper);
  }

  lemma DigitCharIs(d: nat, base: nat, upper: bool)
    requires d < base <= 16
    ensures IsDigitOf(DigitChar(d, upper), base)
  {
  }
}
