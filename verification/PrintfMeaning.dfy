/** What the integer conversions of `printf.c` mean to a reader, for all flags, widths and precisions: the layout of the
    text, when it stands for the value, and when it fills its field. */
module PrintfMeaning {
  import opened Arithmetic
  import opened Options
  import opened Digits
  import opened Numerals
  import opened PrintfText

  function Max(a: nat, b: nat): nat { if a < b then b else a }

  // --------------------------------------------------------------------------------------------- lengths

  /** The number of characters in the conversion buffer after n digits and the padding zeroes. */
  function ZeroedLength(n: nat, prec: nat, width: nat, f: Flags): nat {
    if Left in f then n
    else Max(n, Min(NTOA_BUFFER_SIZE, Max(prec, if ZeroPad in f then width else 0)))
  }

  /** How many of m characters stay when room is made for the prefix of the alternative form. */
  function Spared(m: nat, base: nat, prec: nat, width: nat, f: Flags): (r: nat)
    ensures r <= m
  {
    if Hash in f && Precision !in f && m > 0 && (m == prec || m == width)
    then if m > 1 && base == 16 then m - 2 else m - 1
    else m
  }

  /** The prefix that goes in front of m characters, as far as the buffer goes. */
  function PrefixFor(m: nat, base: nat, f: Flags): Prefix {
    var mark := if base == 2 then 'b' else if Upper in f then 'X' else 'x';
    if Hash !in f || m >= NTOA_BUFFER_SIZE then NoPrefix
    else if base != 16 && base != 2 then Zero
    else if m + 1 < NTOA_BUFFER_SIZE then Full(mark)
    else Broken(mark)
  }

  function SignFor(m: nat, negative: bool, f: Flags): string {
    if m >= NTOA_BUFFER_SIZE then ""
    else if negative then "-" else if Plus in f then "+" else if Space in f then " " else ""
  }

  // ---------------------------------------------------------------------------------------------- layout

  /** The digits, most significant first, behind zeroes that bring them to m characters; or the last m of them. */
  function Padded(b: string, m: nat): string
  {
    if m <= |b| then Reversed(b[..m]) else Repeat('0', m - |b|) + Reversed(b)
  }

  lemma ReversedConcat(a: string, b: string)
    ensures Reversed(a + b) == Reversed(b) + Reversed(a)
  {
  }

  lemma ZeroedIs(b: string, prec: nat, width: nat, f: Flags)
    requires |b| <= NTOA_BUFFER_SIZE
    ensures var m := ZeroedLength(|b|, prec, width, f);
            |b| <= m <= NTOA_BUFFER_SIZE && Zeroed(b, prec, width, f) == b + Repeat('0', m - |b|)
  {
  }

  lemma SparedIs(b: string, zeroes: nat, k: nat)
    requires k <= |b| + zeroes
    ensures Reversed((b + Repeat('0', zeroes))[..k]) == Padded(b, k)
  {
    if k <= |b| {
      assert (b + Repeat('0', zeroes))[..k] == b[..k];
    } else {
      assert (b + Repeat('0', zeroes))[..k] == b + Repeat('0', k - |b|);
      ReversedConcat(b, Repeat('0', k - |b|));
    }
  }

  lemma HashedIs(z: string, base: nat, prec: nat, width: nat, f: Flags)
    requires |z| <= NTOA_BUFFER_SIZE
    ensures var k := Spared(|z|, base, prec, width, f);
            var h := Hashed(z, base, prec, width, f);
            Reversed(h) == PrefixText(PrefixFor(k, base, f)) + Reversed(z[..k])
  {
    var k := Spared(|z|, base, prec, width, f);
    if Hash in f {
      assert MakeRoom(z, base, prec, width, f) == z[..k];
    } else {
      assert z[..k] == z;
    }
  }

  lemma SignedIs(h: string, negative: bool, f: Flags)
    requires |h| <= NTOA_BUFFER_SIZE
    ensures Reversed(PrintfText.Signed(h, negative, f)) == SignFor(|h|, negative, f) + Reversed(h)
  {
  }

  /** The characters of digits and zeroes that end up in the text, of n digits. */
  function Kept(n: nat, negative: bool, base: nat, prec: nat, width: nat, f: Flags): nat {
    var w := WidthLeft(negative, width, f);
    Spared(ZeroedLength(n, prec, w, f), base, prec, w, f)
  }

  /** The text between the spaces: sign, prefix, zeroes and digits. */
  function Core(b: string, k: nat, negative: bool, base: nat, f: Flags): string {
    var v := PrefixText(PrefixFor(k, base, f)) + Padded(b, k);
    SignFor(|v|, negative, f) + v
  }

  /** Spaces go in front, unless they are to go behind or zeroes have been put there. */
  function InSpaces(core: string, width: nat, f: Flags): string {
    var spaces := Repeat(' ', width - |core|);
    if Left in f then "" + core + spaces else if ZeroPad in f then "" + core + "" else spaces + core + ""
  }

  lemma LayoutIs(b: string, negative: bool, base: nat, prec: nat, width: nat, f: Flags)
    requires |b| <= NTOA_BUFFER_SIZE
    ensures var core := Core(b, Kept(|b|, negative, base, prec, width, f), negative, base, f);
            FormatDigits(b, negative, base, prec, width, f) == InSpaces(core, WidthLeft(negative, width, f), f)
  {
    var w := WidthLeft(negative, width, f);
    CoreIs(b, negative, base, prec, w, f);
    TurnedIs(PrintfText.Signed(Hashed(Zeroed(b, prec, w, f), base, prec, w, f), negative, f), w, f);
  }

  lemma TurnedIs(b: string, width: nat, f: Flags)
    ensures Turned(b, width, f) == InSpaces(Reversed(b), width, f)
  {
  }

  lemma CoreIs(b: string, negative: bool, base: nat, prec: nat, w: nat, f: Flags)
    requires |b| <= NTOA_BUFFER_SIZE
    ensures var k := Spared(ZeroedLength(|b|, prec, w, f), base, prec, w, f);
            Reversed(PrintfText.Signed(Hashed(Zeroed(b, prec, w, f), base, prec, w, f), negative, f))
            == Core(b, k, negative, base, f)
  {
    var z := Zeroed(b, prec, w, f);
    ZeroedIs(b, prec, w, f);
    var k := Spared(|z|, base, prec, w, f);
    var h := Hashed(z, base, prec, w, f);
    assert Reversed(h) == PrefixText(PrefixFor(k, base, f)) + Padded(b, k) by {
      HashedIs(z, base, prec, w, f);
      SparedIs(b, |z| - |b|, k);
    }
    HashedFits(z, base, prec, w, f);
    SignedIs(h, negative, f);
  }

  lemma HashedFits(z: string, base: nat, prec: nat, width: nat, f: Flags)
    requires |z| <= NTOA_BUFFER_SIZE
    ensures |Hashed(z, base, prec, width, f)| <= NTOA_BUFFER_SIZE
  {
  }

  // --------------------------------------------------------------------------------------------- meaning

  /** The digits that the conversion starts from. */
  function DigitsMade(value: nat, base: nat, f: Flags): nat
    requires base >= 2
  {
    if Precision in f && value == 0 then 0 else Min(DigitsIn(value, base), NTOA_BUFFER_SIZE)
  }

  /** Zero has no alternative form. */
  function FlagsFor(value: nat, f: Flags): Flags { if value == 0 then f - {Hash} else f }

  /** Of the characters of digits and zeroes, those that end up in the text. */
  function KeptOf(value: nat, negative: bool, base: nat, prec: nat, width: nat, f: Flags): nat
    requires base >= 2
  {
    Kept(DigitsMade(value, base, f), negative, base, prec, width, FlagsFor(value, f))
  }

  function PrefixOfText(value: nat, negative: bool, base: nat, prec: nat, width: nat, f: Flags): Prefix
    requires base >= 2
  {
    PrefixFor(KeptOf(value, negative, base, prec, width, f), base, FlagsFor(value, f))
  }

  /** There is room for the sign. */
  predicate SignFits(value: nat, negative: bool, base: nat, prec: nat, width: nat, f: Flags)
    requires base >= 2
  {
    KeptOf(value, negative, base, prec, width, f)
    + |PrefixText(PrefixOfText(value, negative, base, prec, width, f))| < NTOA_BUFFER_SIZE
  }

  function DigitsText(value: nat, base: nat, f: Flags): string
    requires IsBase(base)
  {
    if Precision !in f || value != 0 then DigitsOf(value, base, Upper in f, NTOA_BUFFER_SIZE) else ""
  }

  lemma DigitsTextIs(value: nat, base: nat, f: Flags)
    requires IsBase(base)
    ensures |DigitsText(value, base, f)| == DigitsMade(value, base, f) <= NTOA_BUFFER_SIZE
    ensures AllDigits(DigitsText(value, base, f), base)
  {
    DigitsLength(value, base, Upper in f, NTOA_BUFFER_SIZE);
    DigitsAreDigits(value, base, Upper in f, NTOA_BUFFER_SIZE);
  }

  /** The digits that are kept have the value modulo a power of the base. */
  lemma PaddedValue(value: nat, base: nat, f: Flags, k: nat)
    requires IsBase(base)
    ensures var t := Padded(DigitsText(value, base, f), k);
            && AllDigits(t, base) && |t| == k && Power(base, Min(k, DigitsMade(value, base, f))) > 0
            && Evaluate(t, base) == value % Power(base, Min(k, DigitsMade(value, base, f)))
  {
    var b := DigitsText(value, base, f);
    var n := Min(k, |b|);
    DigitsTextIs(value, base, f);
    EvaluateDigits(value, base, Upper in f, n);
    if b != "" {
      DigitsPrefix(value, base, Upper in f, NTOA_BUFFER_SIZE, n);
    }
    assert b[..n] == DigitsOf(value, base, Upper in f, n);
    PaddedEvaluates(b, k, base);
  }

  lemma PaddedEvaluates(b: string, k: nat, base: nat)
    requires AllDigits(b, base) && IsBase(base)
    ensures AllDigits(Padded(b, k), base) && |Padded(b, k)| == k
    ensures Evaluate(Padded(b, k), base) == Evaluate(Reversed(b[..Min(k, |b|)]), base)
  {
    if k > |b| {
      assert b[..|b|] == b;
      EvaluateZeroes(Repeat('0', k - |b|), Reversed(b), base);
    }
  }

  /** What the text of an integer conversion stands for: the value modulo a power of the base, negative if there was
      room for the sign; nothing if the prefix has lost its 0. */
  lemma IntegerMeans(value: nat, negative: bool, base: nat, prec: nat, width: nat, f: Flags)
    requires IsBase(base)
    ensures var n := Min(KeptOf(value, negative, base, prec, width, f), DigitsMade(value, base, f));
            && Power(base, n) > 0
            && ReadInteger(Integer(value, negative, base, prec, width, f), base)
               == if PrefixOfText(value, negative, base, prec, width, f).Broken? then None
                  else Some(Numerals.Signed(negative && SignFits(value, negative, base, prec, width, f),
                      value % Power(base, n)))
  {
    var b, g := DigitsText(value, base, f), FlagsFor(value, f);
    var k := KeptOf(value, negative, base, prec, width, f);
    DigitsTextIs(value, base, f);
    LayoutIs(b, negative, base, prec, width, g);
    PaddedValue(value, base, f, k);
    var spaces := Repeat(' ', WidthLeft(negative, width, g) - |Core(b, k, negative, base, g)|);
    var front := if Left !in g && ZeroPad !in g then spaces else "";
    var back := if Left in g then spaces else "";
    ReadLayout(front, b, k, negative, base, g, back);
  }

  lemma ReadLayout(front: string, b: string, k: nat, negative: bool, base: nat, f: Flags, back: string)
    requires IsBase(base) && AllDigits(Padded(b, k), base) && AllSpaces(front) && AllSpaces(back)
    ensures var p, digits := PrefixFor(k, base, f), Padded(b, k);
            ReadInteger(front + Core(b, k, negative, base, f) + back, base)
            == if p.Broken? then None
               else Some(Numerals.Signed(negative && |PrefixText(p) + digits| < NTOA_BUFFER_SIZE, Evaluate(digits,
                   base)))
  {
    var p, digits := PrefixFor(k, base, f), Padded(b, k);
    var v := PrefixText(p) + digits;
    var sign := SignFor(|v|, negative, f);
    if sign == " " {
      assert front + (sign + v) + back == (front + " ") + ("" + v) + back;
      ReadParts(front + " ", "", p, digits, back, base);
    } else {
      ReadParts(front, sign, p, digits, back, base);
    }
  }

  /** No digit is lost, the prefix is whole or absent, and a minus sign has found room. */
  predicate Faithful(value: nat, negative: bool, base: nat, prec: nat, width: nat, f: Flags)
    requires base >= 2
  {
    && (value > 0 ==> DigitsIn(value, base) <= KeptOf(value, negative, base, prec, width, f))
    && !PrefixOfText(value, negative, base, prec, width, f).Broken?
    && (negative && value > 0 ==> SignFits(value, negative, base, prec, width, f))
  }

  /** The text of an integer conversion stands for its value if and only if that is so. */
  lemma StandsForValue(value: nat, negative: bool, base: nat, prec: nat, width: nat, f: Flags)
    requires IsBase(base)
    ensures ReadInteger(Integer(value, negative, base, prec, width, f), base) == Some(Numerals.Signed(negative, value))
            <==> Faithful(value, negative, base, prec, width, f)
  {
    IntegerMeans(value, negative, base, prec, width, f);
    KeptFits(value, negative, base, prec, width, f);
    SameInteger(value, negative, SignFits(value, negative, base, prec, width, f), base,
                KeptOf(value, negative, base, prec, width, f), DigitsMade(value, base, f));
  }

  lemma KeptFits(value: nat, negative: bool, base: nat, prec: nat, width: nat, f: Flags)
    requires base >= 2
    ensures KeptOf(value, negative, base, prec, width, f) <= NTOA_BUFFER_SIZE
  {
  }

  /** Nothing is lost of a value when enough of its digits and its sign are there. */
  lemma SameInteger(value: nat, negative: bool, fits: bool, base: nat, k: nat, made: nat)
    requires base >= 2 && k <= NTOA_BUFFER_SIZE && (value > 0 ==> made == Min(DigitsIn(value, base), NTOA_BUFFER_SIZE))
    requires Power(base, Min(k, made)) > 0
    ensures Numerals.Signed(negative && fits, value % Power(base, Min(k, made))) == Numerals.Signed(negative,
        value) <==>
            (value > 0 ==> DigitsIn(value, base) <= k) && (negative && value > 0 ==> fits)
  {
    var p := Power(base, Min(k, made));
    if value > 0 {
      EnoughDigits(value, base, Min(k, made));
    }
    SmallMod(value, p);
  }

  /** The text fills its field if and only if the field is not filled with zeroes or is no wider than the buffer. */
  lemma FillsField(value: nat, negative: bool, base: nat, prec: nat, width: nat, f: Flags)
    requires IsBase(base)
    ensures |Integer(value, negative, base, prec, width, f)| >= width <==>
            Left in f || ZeroPad !in f || width <= NTOA_BUFFER_SIZE
  {
    var b, g := DigitsText(value, base, f), FlagsFor(value, f);
    DigitsTextIs(value, base, f);
    LayoutIs(b, negative, base, prec, width, g);
    CoreLength(b, negative, base, prec, width, g);
  }

  /** Zeroes fill the field as far as the buffer goes, whatever room is made for a prefix. */
  lemma CoreLength(b: string, negative: bool, base: nat, prec: nat, width: nat, f: Flags)
    requires |b| <= NTOA_BUFFER_SIZE
    ensures var core := Core(b, Kept(|b|, negative, base, prec, width, f), negative, base, f);
            |core| <= NTOA_BUFFER_SIZE && (Left !in f && ZeroPad in f && width <= NTOA_BUFFER_SIZE ==> |core| >= width)
  {
    var w := WidthLeft(negative, width, f);
    var m := ZeroedLength(|b|, prec, w, f);
    PrefixFills(m, base, prec, w, f);
    var k := Spared(m, base, prec, w, f);
    assert |Padded(b, k)| == k;
  }

  lemma PrefixFills(m: nat, base: nat, prec: nat, width: nat, f: Flags)
    requires m <= NTOA_BUFFER_SIZE
    ensures var k := Spared(m, base, prec, width, f);
            m <= k + |PrefixText(PrefixFor(k, base, f))| <= NTOA_BUFFER_SIZE
  {
  }

  // ------------------------------------------------------------------------------------------- examples

  /** The digits of a 64-bit word. */
  lemma WordDigits(value: nat)
    requires value < TWO_64
    ensures DigitsIn(value, 10) <= 20 && DigitsIn(value, 16) <= 16
  {
    assert Power(10, 4) == 10000 && Power(16, 4) == 0x1_0000;
    PowerAdd(10, 4, 4);
    PowerAdd(10, 8, 8);
    PowerAdd(10, 16, 4);
    PowerAdd(16, 4, 4);
    PowerAdd(16, 8, 8);
    EnoughDigits(value, 10, 20);
    EnoughDigits(value, 16, 16);
  }

  /** In the alternative form digits that fill their field exactly lose the first two of them. */
  lemma HashDropsDigits(value: nat, width: nat, f: Flags)
    requires 0 < value < TWO_64 && width == DigitsIn(value, 16) > 1
    requires Hash in f && Precision !in f && Plus !in f && Space !in f
    ensures Power(16, width - 2) > 0
    ensures ReadInteger(Integer(value, false, 16, 0, width, f), 16) == Some(value % Power(16, width - 2))
  {
    HashKeeps(value, width, f);
    IntegerMeans(value, false, 16, 0, width, f);
  }

  lemma HashKeeps(value: nat, width: nat, f: Flags)
    requires 0 < value < TWO_64 && width == DigitsIn(value, 16) > 1
    requires Hash in f && Precision !in f && Plus !in f && Space !in f
    ensures KeptOf(value, false, 16, 0, width, f) == width - 2 && DigitsMade(value, 16, f) == width
    ensures PrefixOfText(value, false, 16, 0, width, f).Full?
  {
    WordDigits(value);
  }

  /** So %#4x prints 0x34 for 0x1234. */
  lemma HashDropsExample(value: nat, width: nat)
    requires value == 0x1234 && width == 4
    ensures ReadInteger(Integer(value, false, 16, 0, width, {Hash}), 16) == Some(0x34)
  {
    assert Power(16, 3) == 0x1000 && Power(16, 4) == 0x1_0000 && Power(16, 2) == 0x100;
    EnoughDigits(value, 16, 4);
    EnoughDigits(value, 16, 3);
    HashDropsDigits(value, width, {Hash});
  }

  /** Zeroes in a field of more than 32 characters leave it short, and leave out a minus sign. */
  lemma ZeroesFallShort(value: nat, negative: bool, width: nat)
    requires 0 < value < TWO_64 && width > NTOA_BUFFER_SIZE
    ensures |Integer(value, negative, 10, 0, width, {ZeroPad})| < width
    ensures ReadInteger(Integer(value, negative, 10, 0, width, {ZeroPad}), 10) == Some(value)
  {
    WordDigits(value);
    FillsField(value, negative, 10, 0, width, {ZeroPad});
    IntegerMeans(value, negative, 10, 0, width, {ZeroPad});
    EnoughDigits(value, 10, DigitsIn(value, 10));
    SmallMod(value, Power(10, DigitsIn(value, 10)));
  }

  /** Decimal output stands for every 64-bit value, except for a minus sign that 32 zeroes leave no room for. */
  lemma DecimalIsFaithful(value: nat, negative: bool, prec: nat, width: nat, f: Flags)
    requires value < TWO_64 && Hash !in f
    ensures Faithful(value, negative, 10, prec, width, f) <==>
            !negative || value == 0 || Left in f
            || (prec < NTOA_BUFFER_SIZE && (ZeroPad in f ==> width <= NTOA_BUFFER_SIZE))
  {
    WordDigits(value);
  }

  /** Hexadecimal output in the alternative form, without a precision, does unless the digits, or with zeroes also the
      digits and one more, fill the field exactly. */
  lemma HexIsFaithful(value: nat, width: nat, f: Flags)
    requires 0 < value < TWO_64 && Hash in f && Precision !in f && Plus !in f && Space !in f
    ensures Faithful(value, false, 16, 0, width, f) <==>
            var n := DigitsIn(value, 16);
            width != n && (Left !in f && ZeroPad in f ==> width != n + 1)
  {
    WordDigits(value);
  }
}
