/** What a format and its arguments say, without any buffer: the text that `_vsnprintf` of `printf.c`
    produces.  Float conversions are compiled out there. */
module PrintfText {
  import opened Arithmetic
  import opened Digits

  datatype Flag = ZeroPad | Left | Plus | Space | Hash | Upper | Char | Short | Long | LongLong | Precision

  type Flags = set<Flag>

  /** A string of C, without its terminator. */
  type CText = s: string | '\0' !in s

  /** A 64-bit slot of the argument list, or a string. */
  datatype Arg = Word(w: nat) | Text(s: CText)

  function Repeat(c: char, n: int): (r: string)
    ensures |r| == (if n > 0 then n else 0) && forall i :: 0 <= i < |r| ==> r[i] == c
  {
    seq(if n > 0 then n else 0, i => c)
  }

  function Min(a: nat, b: nat): nat { if a < b then a else b }

  // ------------------------------------------------------------------------------------------ integers

  /** Zeroes are added up to a length, as far as the conversion buffer goes. */
  function ZeroesTo(b: string, length: nat): string { b + Repeat('0', Min(length, NTOA_BUFFER_SIZE) - |b|) }

  function PutIfRoom(b: string, c: char): string { if |b| < NTOA_BUFFER_SIZE then b + [c] else b }

  /** The width that is left when a sign goes in front of padding zeroes. */
  function WidthLeft(negative: bool, width: nat, f: Flags): nat {
    if Left !in f && width != 0 && ZeroPad in f && (negative || Plus in f || Space in f) then width - 1 else width
  }

  function Zeroed(b: string, prec: nat, width: nat, f: Flags): string {
    if Left in f then b else if ZeroPad in f then ZeroesTo(ZeroesTo(b, prec), width) else ZeroesTo(b, prec)
  }

  /** Padding zeroes make room for the prefix. */
  function MakeRoom(b: string, base: nat, prec: nat, width: nat, f: Flags): string {
    if Precision !in f && |b| > 0 && (|b| == prec || |b| == width)
    then if |b| > 1 && base == 16 then b[..|b| - 2] else b[..|b| - 1]
    else b
  }

  /** The prefix of the alternative form, back to front. */
  function Hashed(b: string, base: nat, prec: nat, width: nat, f: Flags): string {
    if Hash !in f then b
    else
      var b1 := MakeRoom(b, base, prec, width, f);
      var b2 := if base == 16 then PutIfRoom(b1, if Upper in f then 'X' else 'x')
                else if base == 2 then PutIfRoom(b1, 'b')
                else b1;
      PutIfRoom(b2, '0')
  }

  function Signed(b: string, negative: bool, f: Flags): string {
    if negative then PutIfRoom(b, '-')
    else if Plus in f then PutIfRoom(b, '+')
    else if Space in f then PutIfRoom(b, ' ')
    else b
  }

  /** The buffer turned round and padded with spaces. */
  function Turned(b: string, width: nat, f: Flags): string {
    (if Left !in f && ZeroPad !in f then Repeat(' ', width - |b|) else "") + Reversed(b)
    + (if Left in f then Repeat(' ', width - |b|) else "")
  }

  /** _ntoa_format on a buffer of digits. */
  function FormatDigits(b: string, negative: bool, base: nat, prec: nat, width: nat, f: Flags): string {
    var w := WidthLeft(negative, width, f);
    Turned(Signed(Hashed(Zeroed(b, prec, w, f), base, prec, w, f), negative, f), w, f)
  }

  /** _ntoa_long and _ntoa_long_long. */
  function Integer(value: nat, negative: bool, base: nat, prec: nat, width: nat, f: Flags): string
    requires IsBase(base)
  {
    var b := if Precision !in f || value != 0 then DigitsOf(value, base, Upper in f, NTOA_BUFFER_SIZE) else "";
    FormatDigits(b, negative, base, prec, width, if value == 0 then f - {Hash} else f)
  }

  /** Without flags, width and precision the digits are all there is. */
  lemma PlainInteger(value: nat, base: nat, upper: bool)
    requires IsBase(base)
    ensures Integer(value, false, base, 0, 0, if upper then {Upper} else {}) == Plain(value, base, upper)
  {
    PlainFormat(DigitsOf(value, base, upper, NTOA_BUFFER_SIZE), base, if upper then {Upper} else {});
  }

  lemma PlainFormat(b: string, base: nat, f: Flags)
    requires f == {} || f == {Upper}
    ensures FormatDigits(b, false, base, 0, 0, f) == Reversed(b)
  {
    assert Zeroed(b, 0, 0, f) == b;
    assert Hashed(b, base, 0, 0, f) == b && Signed(b, false, f) == b;
  }

  // ---------------------------------------------------------------------------------------- directives

  /** The character at i; a string ends in NUL. */
  function At(s: string, i: nat): char { if i < |s| then s[i] else '\0' }

  function FlagOf(c: char, f: Flags): Flags {
    match c
    case '0' => f + {ZeroPad}
    case '-' => f + {Left}
    case '+' => f + {Plus}
    case ' ' => f + {Space}
    case '#' => f + {Hash}
    case _ => f
  }

  predicate IsFlag(c: char) { c == '0' || c == '-' || c == '+' || c == ' ' || c == '#' }

  function FlagsFrom(s: string, i: nat, f: Flags): (Flags, nat)
    decreases |s| - i
  {
    if i < |s| && IsFlag(s[i]) then FlagsFrom(s, i + 1, FlagOf(s[i], f)) else (f, i)
  }

  function NextWord(args: seq<Arg>): nat { if args != [] && args[0].Word? then args[0].w % TWO_64 else 0 }
  function NextText(args: seq<Arg>): CText { if args != [] && args[0].Text? then args[0].s else "" }
  function Rest(args: seq<Arg>): seq<Arg> { if args == [] then [] else args[1..] }

  /** The low bits of a word as a signed number; m is a power of two. */
  function AsSigned(w: nat, m: nat): int
    requires m > 0
  {
    if w % m >= m / 2 then w % m - m else w % m
  }

  /** The number written at i, and where it ends. */
  function NumberAt(s: string, i: nat): (nat, nat)
    requires i <= |s|
  {
    var k := DigitCount(s[i..]);
    (Evaluate(s[i..i + k], 10) % TWO_32, i + k)
  }

  datatype Directive = Directive(f: Flags, width: nat, prec: nat, next: nat, args: seq<Arg>)

  function WithWidth(s: string, d: Directive): (r: Directive)
    requires d.next <= |s|
    ensures d.next <= r.next <= |s|
  {
    if IsDigit(At(s, d.next)) then
      var (n, i) := NumberAt(s, d.next);
      d.(width := n, next := i)
    else if At(s, d.next) == '*' then
      var w := AsSigned(NextWord(d.args), TWO_32);
      if w < 0 then d.(f := d.f + {Left}, width := -w, next := d.next + 1, args := Rest(d.args))
      else d.(width := w, next := d.next + 1, args := Rest(d.args))
    else d
  }

  function WithPrecision(s: string, d: Directive): (r: Directive)
    requires d.next <= |s|
    ensures d.next <= r.next <= |s|
  {
    if At(s, d.next) != '.' then d
    else
      var d1 := d.(f := d.f + {Precision}, next := d.next + 1);
      if IsDigit(At(s, d1.next)) then
        var (n, i) := NumberAt(s, d1.next);
        d1.(prec := n, next := i)
      else if At(s, d1.next) == '*' then
        var p := AsSigned(NextWord(d1.args), TWO_32);
        d1.(prec := if p > 0 then p else 0, next := d1.next + 1, args := Rest(d1.args))
      else d1
  }

  /** long, size_t, intmax_t and ptrdiff_t have 64 bits alike. */
  function WithLength(s: string, d: Directive): (r: Directive)
    requires d.next <= |s|
    ensures d.next <= r.next <= |s|
  {
    var c := At(s, d.next);
    if c == 'l' then
      if At(s, d.next + 1) == 'l' then d.(f := d.f + {Long, LongLong}, next := d.next + 2)
      else d.(f := d.f + {Long}, next := d.next + 1)
    else if c == 'h' then
      if At(s, d.next + 1) == 'h' then d.(f := d.f + {Short, Char}, next := d.next + 2)
      else d.(f := d.f + {Short}, next := d.next + 1)
    else if c == 't' || c == 'j' || c == 'z' then d.(f := d.f + {Long}, next := d.next + 1)
    else d
  }

  /** What is written between a percent sign and the conversion character. */
  function DirectiveAt(s: string, i: nat, args: seq<Arg>): (r: Directive)
    requires i <= |s|
    ensures i <= r.next <= |s|
  {
    FlagsEnd(s, i, {});
    var (f, k) := FlagsFrom(s, i, {});
    WithLength(s, WithPrecision(s, WithWidth(s, Directive(f, 0, 0, k, args))))
  }

  lemma {:induction false} FlagsEnd(s: string, i: nat, f: Flags)
    requires i <= |s|
    ensures i <= FlagsFrom(s, i, f).1 <= |s|
    decreases |s| - i
  {
    if i < |s| && IsFlag(s[i]) {
      FlagsEnd(s, i + 1, FlagOf(s[i], f));
    }
  }

  predicate IsInteger(c: char) { c == 'd' || c == 'i' || c == 'u' || c == 'x' || c == 'X' || c == 'o' || c == 'b' }

  function BaseOf(c: char): (b: nat)
    ensures IsBase(b)
  {
    if c == 'x' || c == 'X' then 16 else if c == 'o' then 8 else if c == 'b' then 2 else 10
  }

  /** The flags that count for an integer conversion. */
  function IntegerFlags(c: char, f: Flags): Flags {
    f + (if c == 'X' then {Upper} else {})
    - (if BaseOf(c) == 10 then {Hash} else {})
    - (if c == 'i' || c == 'd' then {} else {Plus, Space})
    - (if Precision in f then {ZeroPad} else {})
  }

  /** The width of the argument of an integer conversion, as the power of two it is taken modulo. */
  function ArgModulus(f: Flags): (m: nat)
    ensures m > 0
  {
    if Long in f then TWO_64 else if Char in f then 256 else if Short in f then 0x1_0000 else TWO_32
  }

  predicate IsSigned(c: char) { c == 'i' || c == 'd' }

  /** The value of the argument, signed or unsigned and of the width that the flags give. */
  function ArgValue(c: char, w: nat, f: Flags): int {
    if IsSigned(c) then AsSigned(w, ArgModulus(f)) else w % ArgModulus(f)
  }

  function ValueText(value: int, base: nat, prec: nat, width: nat, f: Flags): string
    requires IsBase(base)
  {
    Integer(if value > 0 then value else -value, value < 0, base, prec, width, f)
  }

  function IntegerText(c: char, d: Directive): string {
    var f := IntegerFlags(c, d.f);
    ValueText(ArgValue(c, NextWord(d.args), f), BaseOf(c), d.prec, d.width, f)
  }

  /** A text in a field of the given width. */
  function InField(t: string, width: nat, left: bool): string {
    if left then t + Repeat(' ', width - |t|) else Repeat(' ', width - |t|) + t
  }

  function CharText(d: Directive): string { InField([(NextWord(d.args) % 256) as char], d.width, Left in d.f) }

  function StringText(d: Directive): string {
    var p := NextText(d.args);
    InField(if Precision in d.f then p[..Min(|p|, d.prec)] else p, d.width, Left in d.f)
  }

  function PointerText(d: Directive): string {
    Integer(NextWord(d.args), false, 16, d.prec, 16, d.f + {ZeroPad, Upper})
  }

  /** The text of a conversion.  An unknown conversion character stands for itself. */
  function Converted(c: char, d: Directive): string {
    if IsInteger(c) then IntegerText(c, d)
    else if c == 'c' then CharText(d)
    else if c == 's' then StringText(d)
    else if c == 'p' then PointerText(d)
    else [c]
  }

  /** The arguments after it. */
  function ArgsLeft(c: char, d: Directive): seq<Arg> {
    if IsInteger(c) || c == 'c' || c == 's' || c == 'p' then Rest(d.args) else d.args
  }

  /** The text of the character or directive at i, and where to go on. */
  datatype Piece = Piece(text: string, next: nat, args: seq<Arg>)

  function PieceAt(s: string, i: nat, args: seq<Arg>): (p: Piece)
    requires i < |s|
    ensures i < p.next
  {
    if s[i] != '%' then Piece([s[i]], i + 1, args)
    else
      var d := DirectiveAt(s, i + 1, args);
      var c := At(s, d.next);
      Piece(Converted(c, d), d.next + 1, ArgsLeft(c, d))
  }

  /** The whole text of a format from i on. */
  function Output(s: string, i: nat, args: seq<Arg>): string
    decreases |s| - i
  {
    if i >= |s| then "" else var p := PieceAt(s, i, args); p.text + Output(s, p.next, p.args)
  }

  predicate IsUnsigned(c: char) { c == 'u' || c == 'o' || c == 'x' || c == 'X' || c == 'b' }

  lemma PlainFlags(c: char)
    requires IsUnsigned(c)
    ensures IntegerFlags(c, {}) == (if c == 'X' then {Upper}
        else {}) && ArgModulus(IntegerFlags(c, {})) == TWO_32 && !IsSigned(c)
  {
  }

  lemma PlainValue(w: nat, base: nat, f: Flags, upper: bool)
    requires IsBase(base) && f == if upper then {Upper} else {}
    ensures ValueText(w, base, 0, 0, f) == Plain(w, base, upper)
  {
    PlainInteger(w, base, upper);
  }

  lemma PlainIntegerText(c: char, w: nat, d: Directive)
    requires IsUnsigned(c) && w < TWO_32 && d == Directive({}, 0, 0, 1, [Word(w)])
    ensures IntegerText(c, d) == Plain(w, BaseOf(c), c == 'X')
  {
    PlainFlags(c);
    var f := IntegerFlags(c, {});
    PlainValue(w, BaseOf(c), f, c == 'X');
    SmallMod(w, TWO_32);
    SmallMod(w, TWO_64);
    assert ArgValue(c, NextWord(d.args), f) == w;
  }

  /** A plain unsigned directive prints the digits of its 32-bit argument and nothing else. */
  lemma PlainDirective(c: char, w: nat)
    requires IsUnsigned(c) && w < TWO_32
    ensures Output(['%', c], 0, [Word(w)]) == Plain(w, BaseOf(c), c == 'X')
  {
    var s, args := ['%', c], [Word(w)];
    var d := Directive({}, 0, 0, 1, args);
    assert At(s, 1) == c;
    assert FlagsFrom(s, 1, {}) == ({}, 1);
    assert DirectiveAt(s, 1, args) == d;
    PlainIntegerText(c, w, d);
    var p := PieceAt(s, 0, args);
    assert p.text == IntegerText(c, d) && p.next == 2;
    assert p.text + "" == p.text;
  }
}
