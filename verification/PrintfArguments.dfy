/** What the directives of `printf.c` take for their argument, told without the formatter's own terms, and the letters
    they print. */
module PrintfArguments {
  import opened Arithmetic
  import opened Options
  import opened Digits
  import opened Numerals
  import opened PrintfText
  import opened PrintfMeaning
  import opened PrintfDirectives
  import opened PrintfWhole

  // ------------------------------------------------------------------------------------------ arguments

  /** The next argument is the first one. */
  lemma FirstArgument(w: nat, t: CText, rest: seq<Arg>)
    ensures NextWord([Word(w)] + rest) == w % TWO_64 && NextText([Text(t)] + rest) == t
    ensures Rest([Word(w)] + rest) == Rest([Text(t)] + rest) == rest
  {
  }

  /** The size of the argument of an integer conversion, by what is written in front of the conversion character. */
  function SizeOf(length: string): (m: nat)
    ensures m > 0 && m % 2 == 0
  {
    if length == "" then 0x1_0000_0000
    else if length == "hh" then 0x100
    else if length == "h" then 0x1_0000
    else 0x1_0000_0000_0000_0000
  }

  function RadixOf(c: char): (b: nat)
    ensures b == 2 || b == 8 || b == 10 || b == 16
  {
    match c case 'x' => 16 case 'X' => 16 case 'o' => 8 case 'b' => 2 case _ => 10
  }

  /** v is the word taken as a signed or unsigned number of that size. */
  ghost predicate StandsFor(v: int, w: nat, signed: bool, m: nat)
    requires m > 0
  {
    (v - w) % m == 0 && if signed then 0 <= 2 * v + m < 2 * m else 0 <= v < m
  }

  lemma AsSignedMeans(w: nat, m: nat)
    requires m > 0 && m % 2 == 0
    ensures StandsFor(AsSigned(w, m), w, true, m)
  {
    var q, r := w / m, w % m;
    assert w == m * q + r;
    if r >= m / 2 {
      Multiple(m, -q - 1);
      assert AsSigned(w, m) - w == m * (-q - 1);
    } else {
      Multiple(m, -q);
      assert AsSigned(w, m) - w == m * -q;
    }
  }

  lemma Multiple(m: nat, k: int)
    requires m > 0
    ensures m * k % m == 0
  {
    var r, q := m * k % m, m * k / m;
    assert m * (k - q) == r;
    SmallMultiple(m, k - q);
  }

  lemma UnsignedMeans(w: nat, m: nat)
    requires m > 0
    ensures StandsFor(w % m, w, false, m)
  {
    Multiple(m, -(w / m));
    assert w % m - w == m * -(w / m);
  }

  /** There is one such number only. */
  lemma StandsForOne(v: int, v': int, w: nat, signed: bool, m: nat)
    requires m > 0 && StandsFor(v, w, signed, m) && StandsFor(v', w, signed, m)
    ensures v == v'
  {
    var q, q' := (v - w) / m, (v' - w) / m;
    assert v - w == m * q && v' - w == m * q';
    assert v - v' == m * (q - q');
    SmallMultiple(m, q - q');
  }

  /** The flags that count: a sign only for signed conversions, a prefix only outside base 10, zeroes only without a
      precision, capitals for X. */
  lemma FlagsThatCount(c: char, f: Flags)
    requires IsInteger(c)
    ensures var r, signed := IntegerFlags(c, f), c == 'd' || c == 'i';
            && (Plus in r <==> Plus in f && signed) && (Space in r <==> Space in f && signed)
            && (Hash in r <==> Hash in f && RadixOf(c) != 10) && (ZeroPad in r <==> ZeroPad in f && Precision !in f)
            && (Upper in r <==> Upper in f || c == 'X') && (Left in r <==> Left in f)
            && (Precision in r <==> Precision in f)
            && (Long in r <==> Long in f) && (Char in r <==> Char in f) && (Short in r <==> Short in f)
  {
  }

  lemma LengthGivesSize(spec: Spec, c: char, args: seq<Arg>, end: nat)
    requires Proper(spec) && IsInteger(c)
    ensures ArgModulus(IntegerFlags(c, Meant(spec, args, end).f)) == SizeOf(spec.length)
  {
    FlagsThatCount(c, Meant(spec, args, end).f);
    OnlyLength(spec, args, end);
    LengthMeans(spec.length);
  }

  /** Nothing else in a directive says anything of the size. */
  lemma OnlyLength(spec: Spec, args: seq<Arg>, end: nat)
    ensures var f, l := Meant(spec, args, end).f, LengthFlags(spec.length);
            (Long in f <==> Long in l) && (Short in f <==> Short in l) && (Char in f <==> Char in l)
  {
  }

  lemma LengthMeans(t: string)
    requires IsLength(t)
    ensures var f := LengthFlags(t);
            && (Long in f <==> t != "" && t != "h" && t != "hh") && (Short in f <==> t == "h" || t == "hh")
            && (Char in f <==> t == "hh")
  {
  }

  lemma RadixIsBase(c: char)
    requires IsInteger(c)
    ensures RadixOf(c) == BaseOf(c)
  {
  }

  lemma ArgValueIs(c: char, w: nat, f: Flags, m: nat, v: int)
    requires IsInteger(c) && m == ArgModulus(f) && m % 2 == 0 && StandsFor(v, w, c == 'd' || c == 'i', m)
    ensures ArgValue(c, w, f) == v
  {
    if c == 'd' || c == 'i' {
      AsSignedMeans(w, m);
    } else {
      UnsignedMeans(w, m);
    }
    StandsForOne(v, ArgValue(c, w, f), w, c == 'd' || c == 'i', m);
  }

  /** An integer directive prints a text that a reader takes, in the base that the conversion character says, for its
      argument as a number of the size that the length says, signed for d and i only, if and only if the conversion is
      faithful. */
  lemma IntegerItemMeans(spec: Spec, c: char, args: seq<Arg>, v: int)
    requires Proper(spec) && IsInteger(c)
    requires StandsFor(v, NextWord(Meant(spec, args, 0).args), c == 'd' || c == 'i', SizeOf(spec.length))
    ensures var d := Meant(spec, args, 0);
            ReadInteger(SaysOne(Conversion(spec, c), args), RadixOf(c)) == Some(v)
            <==> Faithful(Magnitude(v), v < 0, RadixOf(c), d.prec, d.width, IntegerFlags(c, d.f))
  {
    var d := Meant(spec, args, 0);
    LengthGivesSize(spec, c, args, 0);
    ArgValueIs(c, NextWord(d.args), IntegerFlags(c, d.f), SizeOf(spec.length), v);
    RadixIsBase(c);
    IntegerSays(spec, c, args);
    IntegerTextMeans(c, d);
  }

  lemma IntegerSays(spec: Spec, c: char, args: seq<Arg>)
    requires IsInteger(c)
    ensures SaysOne(Conversion(spec, c), args) == IntegerText(c, Meant(spec, args, 0))
  {
  }

  // -------------------------------------------------------------------------------------------- letters

  /** The characters of digits. */
  lemma DigitTable(d: nat)
    requires d < 16
    ensures DigitChar(d, false) == "0123456789abcdef"[d] && DigitChar(d, true) == "0123456789ABCDEF"[d]
  {
  }

  predicate Capital(c: char) { 'A' <= c <= 'Z' }
  predicate Lower(c: char) { 'a' <= c <= 'z' }

  /** No letter of the other kind. */
  ghost predicate OfCase(s: string, upper: bool) {
    forall i :: 0 <= i < |s| ==> if upper then !Lower(s[i]) else !Capital(s[i])
  }

  lemma {:induction false} DigitsOfCase(value: nat, base: nat, upper: bool, room: nat)
    requires IsBase(base)
    ensures OfCase(DigitsOf(value, base, upper, room), upper)
    decreases room
  {
    if room > 0 {
      var d, q := value % base, value / base;
      if q == 0 {
        CaseCons(d, upper, []);
      } else {
        DigitsOfCase(q, base, upper, room - 1);
        CaseCons(d, upper, DigitsOf(q, base, upper, room - 1));
      }
    }
  }

  lemma CaseCons(d: nat, upper: bool, more: string)
    requires d < 16 && OfCase(more, upper)
    ensures OfCase([DigitChar(d, upper)] + more, upper)
  {
  }

  lemma HashedOfCase(b: string, base: nat, prec: nat, width: nat, f: Flags)
    requires OfCase(b, Upper in f) && (base == 2 ==> Upper !in f)
    ensures OfCase(Hashed(b, base, prec, width, f), Upper in f)
  {
  }

  lemma TurnedOfCase(b: string, width: nat, f: Flags, upper: bool)
    requires OfCase(b, upper)
    ensures OfCase(Turned(b, width, f), upper)
  {
  }

  /** Integers are printed with capital letters only, or with small ones only. */
  lemma IntegerOfCase(value: nat, negative: bool, base: nat, prec: nat, width: nat, f: Flags)
    requires IsBase(base) && (base == 2 ==> Upper !in f)
    ensures OfCase(Integer(value, negative, base, prec, width, f), Upper in f)
  {
    var b := if Precision !in f || value != 0 then DigitsOf(value, base, Upper in f, NTOA_BUFFER_SIZE) else "";
    DigitsOfCase(value, base, Upper in f, NTOA_BUFFER_SIZE);
    FormatOfCase(b, negative, base, prec, width, if value == 0 then f - {Hash} else f);
  }

  lemma FormatOfCase(b: string, negative: bool, base: nat, prec: nat, width: nat, f: Flags)
    requires OfCase(b, Upper in f) && (base == 2 ==> Upper !in f)
    ensures OfCase(FormatDigits(b, negative, base, prec, width, f), Upper in f)
  {
    var w := WidthLeft(negative, width, f);
    var z := Zeroed(b, prec, w, f);
    var h := Hashed(z, base, prec, w, f);
    assert OfCase(z, Upper in f);
    HashedOfCase(z, base, prec, w, f);
    assert OfCase(PrintfText.Signed(h, negative, f), Upper in f);
    TurnedOfCase(PrintfText.Signed(h, negative, f), w, f, Upper in f);
  }

  /** x prints small letters and X capitals. */
  lemma HexLetters(d: Directive)
    requires Upper !in d.f
    ensures OfCase(IntegerText('x', d), false) && OfCase(IntegerText('X', d), true)
  {
    HexLettersOf('x', d);
    HexLettersOf('X', d);
  }

  lemma HexLettersOf(c: char, d: Directive)
    requires Upper !in d.f && (c == 'x' || c == 'X')
    ensures OfCase(IntegerText(c, d), c == 'X')
  {
    var f := IntegerFlags(c, d.f);
    FlagsThatCount(c, d.f);
    var v := ArgValue(c, NextWord(d.args), f);
    IntegerOfCase(Magnitude(v), v < 0, 16, d.prec, d.width, f);
  }
}
