/** Directives of `printf.c` from how they are written to what a reader makes of the output. */
module PrintfDirectives {
  import opened Arithmetic
  import opened Options
  import opened Digits
  import opened Numerals
  import opened PrintfText
  import opened PrintfFormat
  import opened PrintfMeaning

  /** A width or precision: nothing, a row of digits, or a star. */
  datatype Amount = Absent | Number(digits: string) | Star

  /** What can be written between a percent sign and a conversion character. */
  datatype Spec = Spec(flags: string, width: Amount, dot: bool, precision: Amount, length: string)

  predicate IsLength(t: string) {
    t == "" || t == "h" || t == "hh" || t == "l" || t == "ll" || t == "t" || t == "j" || t == "z"
  }

  predicate ProperAmount(a: Amount) {
    a.Number? ==> a.digits != "" && forall i :: 0 <= i < |a.digits| ==> IsDigit(a.digits[i])
  }

  /** A width does not start with a 0, which would be a flag. */
  predicate Proper(spec: Spec) {
    && (forall i :: 0 <= i < |spec.flags| ==> IsFlag(spec.flags[i]))
    && ProperAmount(spec.width) && (spec.width.Number? ==> spec.width.digits[0] != '0') && ProperAmount(spec.precision)
    && (!spec.dot ==> spec.precision == Absent) && IsLength(spec.length)
  }

  function AmountText(a: Amount): string {
    match a
    case Absent => ""
    case Number(digits) => digits
    case Star => "*"
  }

  function DotText(spec: Spec): string { if spec.dot then "." + AmountText(spec.precision) else "" }

  function Spell(spec: Spec): string { spec.flags + (AmountText(spec.width) + (DotText(spec) + spec.length)) }

  /** The character does not go on with a directive. */
  predicate Terminal(c: char) {
    !IsFlag(c) && !IsDigit(c) && c != '*' && c != '.' && c != 'l' && c != 'h' && c != 't' && c != 'j' && c != 'z'
  }

  // --------------------------------------------------------------------------------------------- meaning

  function FlagSet(t: string): Flags {
    (if '0' in t then {ZeroPad} else {}) + (if '-' in t then {Left} else {}) + (if '+' in t then {Plus} else {})
    + (if ' ' in t then {Space} else {}) + (if '#' in t then {Hash} else {})
  }

  function LengthFlags(t: string): Flags {
    if t == "" then {} else if t == "h" then {Short} else if t == "hh" then {Short, Char}
    else if t == "ll" then {Long, LongLong} else {Long}
  }

  /** An int taken from the arguments. */
  function IntArg(args: seq<Arg>): int { AsSigned(NextWord(args), TWO_32) }

  function WidthMeant(a: Amount, args: seq<Arg>): nat {
    match a
    case Absent => 0
    case Number(digits) => Evaluate(digits, 10) % TWO_32
    case Star => if IntArg(args) < 0 then -IntArg(args) else IntArg(args)
  }

  function PrecisionMeant(a: Amount, args: seq<Arg>): nat {
    match a
    case Absent => 0
    case Number(digits) => Evaluate(digits, 10) % TWO_32
    case Star => if IntArg(args) < 0 then 0 else IntArg(args)
  }

  function ArgsAfter(a: Amount, args: seq<Arg>): seq<Arg> { if a == Star then Rest(args) else args }

  /** The directive that is meant, ending at `end`. */
  function Meant(spec: Spec, args: seq<Arg>, end: nat): Directive {
    var after := ArgsAfter(spec.width, args);
    Directive(
      FlagSet(spec.flags) + LeftIf(spec.width == Star && IntArg(args) < 0) + PrecisionIf(spec.dot)
      + LengthFlags(spec.length),
      WidthMeant(spec.width, args), PrecisionMeant(spec.precision, after), end, ArgsAfter(spec.precision, after))
  }

  // --------------------------------------------------------------------------------------------- reading

  /** The text t stands at position i. */
  ghost predicate Has(s: string, i: nat, t: string) {
    i + |t| <= |s| && s[i..i + |t|] == t
  }

  lemma HasBoth(s: string, i: nat, a: string, b: string)
    requires Has(s, i, a + b)
    ensures Has(s, i, a) && Has(s, i + |a|, b)
  {
    var t := s[i..i + |a + b|];
    assert s[i..i + |a|] == t[..|a|] && s[i + |a|..i + |a| + |b|] == t[|a|..];
  }

  lemma HasFirst(s: string, i: nat, t: string)
    requires Has(s, i, t) && t != ""
    ensures At(s, i) == t[0]
  {
  }

  lemma {:induction false} FlagsRead(s: string, i: nat, t: string, f: Flags)
    requires Has(s, i, t) && (forall j :: 0 <= j < |t| ==> IsFlag(t[j])) && !IsFlag(At(s, i + |t|))
    ensures FlagsFrom(s, i, f) == (f + FlagSet(t), i + |t|)
    decreases |t|
  {
    if t == "" {
      assert f + FlagSet(t) == f;
    } else {
      assert t == [t[0]] + t[1..];
      HasBoth(s, i, [t[0]], t[1..]);
      HasFirst(s, i, t);
      FlagsRead(s, i + 1, t[1..], FlagOf(t[0], f));
      OneFlagMore(t[0], t[1..], f);
    }
  }

  lemma OneFlagMore(c: char, t: string, f: Flags)
    requires IsFlag(c)
    ensures FlagOf(c, f) + FlagSet(t) == f + FlagSet([c] + t)
  {
    assert forall x :: x in [c] + t <==> x == c || x in t;
  }

  lemma CountRead(s: string, i: nat, p: string)
    requires (forall j :: 0 <= j < |p| ==> IsDigit(p[j])) && Has(s, i, p) && !IsDigit(At(s, i + |p|))
    ensures DigitCount(s[i..]) == |p|
  {
    var t := s[i..];
    forall j | 0 <= j < |p|
      ensures IsDigit(t[j])
    {
      assert t[j] == s[i + j] == p[j];
    }
    assert |p| < |t| ==> t[|p|] == s[i + |p|];
  }

  /** An amount is read from i to `end`. */
  ghost predicate AmountAt(s: string, i: nat, a: Amount, end: nat) {
    && i <= end <= |s|
    && match a
       case Absent => end == i && !IsDigit(At(s, i)) && At(s, i) != '*'
       case Number(digits) => IsDigit(At(s, i)) && end == i + DigitCount(s[i..]) && s[i..end] == digits
       case Star => end == i + 1 && At(s, i) == '*'
  }

  lemma AmountRead(s: string, i: nat, a: Amount)
    requires Has(s, i, AmountText(a)) && ProperAmount(a)
    requires !IsDigit(At(s, i + |AmountText(a)|)) && At(s, i + |AmountText(a)|) != '*'
    ensures AmountAt(s, i, a, i + |AmountText(a)|)
  {
    match a
    case Absent =>
    case Number(digits) =>
      HasFirst(s, i, digits);
      CountRead(s, i, digits);
      assert s[i..i + |digits|] == digits;
    case Star => HasFirst(s, i, "*");
  }

  function LeftIf(on: bool): Flags { if on then {Left} else {} }
  function PrecisionIf(on: bool): Flags { if on then {Precision} else {} }

  lemma WidthRead(s: string, d: Directive, a: Amount, end: nat)
    requires AmountAt(s, d.next, a, end) && d.width == 0
    ensures WithWidth(s, d)
         == Directive(d.f + LeftIf(a == Star && IntArg(d.args) < 0), WidthMeant(a, d.args), d.prec, end,
                      ArgsAfter(a, d.args))
  {
    assert d.f + {} == d.f;
  }

  /** A precision, or none, is read from i to `end`. */
  ghost predicate PrecisionAt(s: string, i: nat, dot: bool, a: Amount, end: nat) {
    if dot then i < |s| && s[i] == '.' && AmountAt(s, i + 1, a, end)
    else i == end <= |s| && a == Absent && At(s, i) != '.'
  }

  lemma PrecisionRead(s: string, d: Directive, dot: bool, a: Amount, end: nat)
    requires PrecisionAt(s, d.next, dot, a, end) && d.prec == 0
    ensures WithPrecision(s, d)
         == Directive(d.f + PrecisionIf(dot), d.width, PrecisionMeant(a, d.args), end, ArgsAfter(a, d.args))
  {
    assert d.f + {} == d.f;
  }

  lemma LengthRead(s: string, d: Directive, t: string)
    requires Has(s, d.next, t) && IsLength(t) && Terminal(At(s, d.next + |t|))
    ensures WithLength(s, d) == d.(f := d.f + LengthFlags(t), next := d.next + |t|)
  {
    if t == "" {
      assert d.f + {} == d.f;
    } else {
      HasFirst(s, d.next, t);
      if |t| == 2 {
        assert s[d.next + 1] == t[1];
      }
    }
  }

  /** The character is no part of a number or star, and no flag. */
  predicate NoAmount(c: char) { !IsFlag(c) && !IsDigit(c) && c != '*' }

  lemma LengthStarts(s: string, i: nat, t: string)
    requires Has(s, i, t) && IsLength(t) && Terminal(At(s, i + |t|))
    ensures NoAmount(At(s, i)) && At(s, i) != '.'
  {
    if t != "" {
      HasFirst(s, i, t);
    }
  }

  lemma DotStarts(s: string, i: nat, spec: Spec)
    requires Proper(spec) && Has(s, i, DotText(spec))
    requires NoAmount(At(s, i + |DotText(spec)|)) && At(s, i + |DotText(spec)|) != '.'
    ensures NoAmount(At(s, i)) && PrecisionAt(s, i, spec.dot, spec.precision, i + |DotText(spec)|)
  {
    if spec.dot {
      HasBoth(s, i, ".", AmountText(spec.precision));
      HasFirst(s, i, ".");
      AmountRead(s, i + 1, spec.precision);
    }
  }

  lemma WidthStarts(s: string, i: nat, a: Amount)
    requires Has(s, i, AmountText(a)) && ProperAmount(a) && (a.Number? ==> a.digits[0] != '0')
    requires NoAmount(At(s, i + |AmountText(a)|))
    ensures !IsFlag(At(s, i)) && AmountAt(s, i, a, i + |AmountText(a)|)
  {
    if a != Absent {
      HasFirst(s, i, AmountText(a));
    }
    AmountRead(s, i, a);
  }

  lemma SpellLength(spec: Spec)
    ensures |Spell(spec)| == |spec.flags| + |AmountText(spec.width)| + |DotText(spec)| + |spec.length|
  {
  }

  /** The four parts of a directive, each read where it stands. */
  lemma Parts(s: string, i: nat, spec: Spec) returns (i1: nat, i2: nat, i3: nat)
    requires Proper(spec) && Has(s, i, Spell(spec)) && Terminal(At(s, i + |Spell(spec)|))
    ensures FlagsFrom(s, i, {}) == ({} + FlagSet(spec.flags), i1) && AmountAt(s, i1, spec.width, i2)
    ensures PrecisionAt(s, i2, spec.dot, spec.precision, i3)
    ensures Has(s, i3, spec.length) && i3 + |spec.length| == i + |Spell(spec)|
  {
    i1 := i + |spec.flags|;
    i2 := i1 + |AmountText(spec.width)|;
    i3 := i2 + |DotText(spec)|;
    Spelled(s, i, spec);
    PartsRead(s, i, i1, i2, i3, spec);
  }

  /** Where the parts stand. */
  lemma Spelled(s: string, i: nat, spec: Spec)
    requires Has(s, i, Spell(spec))
    ensures var i1 := i + |spec.flags|;
            var i2 := i1 + |AmountText(spec.width)|;
            var i3 := i2 + |DotText(spec)|;
            && Has(s, i, spec.flags) && Has(s, i1, AmountText(spec.width)) && Has(s, i2, DotText(spec))
            && Has(s, i3, spec.length) && i3 + |spec.length| == i + |Spell(spec)|
  {
    Apart(s, i, spec.flags, AmountText(spec.width), DotText(spec), spec.length);
    SpellLength(spec);
  }

  lemma PartsRead(s: string, i: nat, i1: nat, i2: nat, i3: nat, spec: Spec)
    requires Proper(spec) && i1 == i + |spec.flags| && i2 == i1 + |AmountText(spec.width)| && i3 == i2 + |DotText(spec)|
    requires Has(s, i, spec.flags) && Has(s, i1, AmountText(spec.width)) && Has(s, i2, DotText(spec))
    requires Has(s, i3, spec.length) && Terminal(At(s, i3 + |spec.length|))
    ensures FlagsFrom(s, i, {}) == ({} + FlagSet(spec.flags), i1) && AmountAt(s, i1, spec.width, i2)
    ensures PrecisionAt(s, i2, spec.dot, spec.precision, i3)
  {
    TailRead(s, i2, i3, spec);
    FrontRead(s, i, i1, spec.flags, spec.width);
  }

  lemma FrontRead(s: string, i: nat, i1: nat, flags: string, width: Amount)
    requires Has(s, i, flags) && i1 == i + |flags| && Has(s, i1, AmountText(width))
    requires (forall j :: 0 <= j < |flags| ==> IsFlag(flags[j])) && ProperAmount(width)
    requires (width.Number? ==> width.digits[0] != '0') && NoAmount(At(s, i1 + |AmountText(width)|))
    ensures FlagsFrom(s, i, {}) == ({} + FlagSet(flags), i1) && AmountAt(s, i1, width, i1 + |AmountText(width)|)
  {
    WidthStarts(s, i1, width);
    FlagsRead(s, i, flags, {});
  }

  lemma TailRead(s: string, i2: nat, i3: nat, spec: Spec)
    requires Proper(spec) && i3 == i2 + |DotText(spec)| && Has(s, i2, DotText(spec)) && Has(s, i3, spec.length)
    requires Terminal(At(s, i3 + |spec.length|))
    ensures NoAmount(At(s, i2)) && PrecisionAt(s, i2, spec.dot, spec.precision, i3)
  {
    LengthStarts(s, i3, spec.length);
    DotStarts(s, i2, spec);
  }

  lemma Apart(s: string, i: nat, a: string, b: string, c: string, d: string)
    requires Has(s, i, a + (b + (c + d)))
    ensures Has(s, i, a) && Has(s, i + |a|, b) && Has(s, i + |a| + |b|, c) && Has(s, i + |a| + |b| + |c|, d)
  {
    HasBoth(s, i, a, b + (c + d));
    HasBoth(s, i + |a|, b, c + d);
    HasBoth(s, i + |a| + |b|, c, d);
  }

  /** A directive that is written down in front of a character that does not go on with it is read as it was meant. */
  lemma DirectiveReadsBack(s: string, i: nat, spec: Spec, args: seq<Arg>)
    requires Proper(spec) && Has(s, i, Spell(spec)) && Terminal(At(s, i + |Spell(spec)|))
    ensures i <= |s| && DirectiveAt(s, i, args) == Meant(spec, args, i + |Spell(spec)|)
  {
    var i1, i2, i3 := Parts(s, i, spec);
    Assembled(s, i, spec, args, i1, i2, i3);
  }

  lemma Assembled(s: string, i: nat, spec: Spec, args: seq<Arg>, i1: nat, i2: nat, i3: nat)
    requires i <= |s| && FlagsFrom(s, i, {}) == ({} + FlagSet(spec.flags), i1) && AmountAt(s, i1, spec.width, i2)
    requires PrecisionAt(s, i2, spec.dot, spec.precision, i3)
    requires Has(s, i3, spec.length) && IsLength(spec.length) && Terminal(At(s, i3 + |spec.length|))
    ensures DirectiveAt(s, i, args) == Meant(spec, args, i3 + |spec.length|)
  {
    var f, after := FlagSet(spec.flags), ArgsAfter(spec.width, args);
    assert {} + f == f;
    WidthRead(s, Directive(f, 0, 0, i1, args), spec.width, i2);
    var f1 := f + LeftIf(spec.width == Star && IntArg(args) < 0);
    var d1 := Directive(f1, WidthMeant(spec.width, args), 0, i2, after);
    PrecisionRead(s, d1, spec.dot, spec.precision, i3);
    var d2 := Directive(f1 + PrecisionIf(spec.dot), d1.width, PrecisionMeant(spec.precision, after), i3,
                        ArgsAfter(spec.precision, after));
    LengthRead(s, d2, spec.length);
  }

  // ----------------------------------------------------------------------------------------- conversions

  /** The directive `spec` with conversion character c stands at i. */
  ghost predicate Written(s: string, i: nat, spec: Spec, c: char) {
    && i < |s| && s[i] == '%' && Has(s, i + 1, Spell(spec)) && i + 1 + |Spell(spec)| < |s|
    && s[i + 1 + |Spell(spec)|] == c
  }

  lemma PieceIs(s: string, i: nat, spec: Spec, c: char, args: seq<Arg>)
    requires Proper(spec) && Written(s, i, spec, c) && Terminal(c)
    ensures var d := Meant(spec, args, i + 1 + |Spell(spec)|);
            PieceAt(s, i, args) == Piece(Converted(c, d), i + 2 + |Spell(spec)|, ArgsLeft(c, d))
  {
    DirectiveOf(s, i, spec, c, args);
    PieceOf(s, i, args, Meant(spec, args, i + 1 + |Spell(spec)|), c);
  }

  lemma DirectiveOf(s: string, i: nat, spec: Spec, c: char, args: seq<Arg>)
    requires Proper(spec) && Written(s, i, spec, c) && Terminal(c)
    ensures var d := Meant(spec, args, i + 1 + |Spell(spec)|);
            DirectiveAt(s, i + 1, args) == d && d.next == i + 1 + |Spell(spec)| && At(s, d.next) == c
  {
    DirectiveReadsBack(s, i + 1, spec, args);
  }

  lemma PieceOf(s: string, i: nat, args: seq<Arg>, d: Directive, c: char)
    requires i < |s| && s[i] == '%' && DirectiveAt(s, i + 1, args) == d && At(s, d.next) == c
    ensures PieceAt(s, i, args) == Piece(Converted(c, d), d.next + 1, ArgsLeft(c, d))
  {
  }

  function Magnitude(v: int): nat { if v > 0 then v else -v }

  lemma IntegerTextMeans(c: char, d: Directive)
    ensures var f := IntegerFlags(c, d.f);
            var v := ArgValue(c, NextWord(d.args), f);
            && (ReadInteger(IntegerText(c, d), BaseOf(c)) == Some(v)
                <==> Faithful(Magnitude(v), v < 0, BaseOf(c), d.prec, d.width, f))
            && (|IntegerText(c, d)| >= d.width <==> Left in f || ZeroPad !in f || d.width <= NTOA_BUFFER_SIZE)
  {
    var f := IntegerFlags(c, d.f);
    var v := ArgValue(c, NextWord(d.args), f);
    StandsForValue(Magnitude(v), v < 0, BaseOf(c), d.prec, d.width, f);
    FillsField(Magnitude(v), v < 0, BaseOf(c), d.prec, d.width, f);
    assert Numerals.Signed(v < 0, Magnitude(v)) == v;
  }

  /** An integer directive, however it is written and wherever it stands in a format, prints a text that a reader takes
      for its argument if and only if the conversion is faithful, and that fills the field if and only if that is not
      a matter of more than 32 zeroes. */
  lemma DirectiveStandsForArgument(s: string, i: nat, spec: Spec, c: char, args: seq<Arg>)
    requires Proper(spec) && Written(s, i, spec, c) && IsInteger(c)
    ensures var d := Meant(spec, args, i + 1 + |Spell(spec)|);
            var f := IntegerFlags(c, d.f);
            var v := ArgValue(c, NextWord(d.args), f);
            && (ReadInteger(PieceAt(s, i, args).text, BaseOf(c)) == Some(v)
                <==> Faithful(Magnitude(v), v < 0, BaseOf(c), d.prec, d.width, f))
            && (|PieceAt(s, i, args).text| >= d.width <==> Left in f || ZeroPad !in f || d.width <= NTOA_BUFFER_SIZE)
  {
    PieceIs(s, i, spec, c, args);
    IntegerTextMeans(c, Meant(spec, args, i + 1 + |Spell(spec)|));
  }

  /** A text in a field: the text at one end, spaces at the other, and no longer than it must be. */
  lemma FieldIs(t: string, width: nat, left: bool)
    ensures var r := InField(t, width, left);
            && |r| == Max(width, |t|)
            && (if left then r[..|t|] == t && AllSpaces(r[|t|..])
                else r[|r| - |t|..] == t && AllSpaces(r[..|r| - |t|]))
  {
  }

  /** A string directive prints its argument, cut to the precision if there is one, in a field of its width. */
  lemma StringDirective(s: string, i: nat, spec: Spec, args: seq<Arg>)
    requires Proper(spec) && Written(s, i, spec, 's')
    ensures var d := Meant(spec, args, i + 1 + |Spell(spec)|);
            var t, r := NextText(d.args), PieceAt(s, i, args).text;
            var n := if spec.dot then Min(|t|, d.prec) else |t|;
            && |r| == Max(d.width, n)
            && (if Left in d.f then r[..n] == t[..n] && AllSpaces(r[n..])
                else r[|r| - n..] == t[..n] && AllSpaces(r[..|r| - n]))
  {
    PieceIs(s, i, spec, 's', args);
    PrecisionFlag(spec, args, i + 1 + |Spell(spec)|);
    StringTextIs(Meant(spec, args, i + 1 + |Spell(spec)|), spec.dot);
  }

  lemma StringTextIs(d: Directive, cut: bool)
    requires Precision in d.f <==> cut
    ensures var t, r := NextText(d.args), StringText(d);
            var n := if cut then Min(|t|, d.prec) else |t|;
            && |r| == Max(d.width, n)
            && (if Left in d.f then r[..n] == t[..n] && AllSpaces(r[n..])
                else r[|r| - n..] == t[..n] && AllSpaces(r[..|r| - n]))
  {
    var t := NextText(d.args);
    assert t[..|t|] == t;
    FieldIs(if cut then t[..Min(|t|, d.prec)] else t, d.width, Left in d.f);
  }

  lemma PrecisionFlag(spec: Spec, args: seq<Arg>, end: nat)
    ensures Precision in Meant(spec, args, end).f <==> spec.dot
  {
  }
}
