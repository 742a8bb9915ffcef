/** Formats of `printf.c` as a grammar: where a directive ends, and whether a format ends inside one. */
module PrintfFormat {
  import opened Arithmetic
  import opened Options
  import opened Digits
  import opened Numerals
  import opened PrintfText

  // ------------------------------------------------------------------------------------------ scanning

  function SkipFlags(s: string, i: nat): (r: nat)
    requires i <= |s|
    ensures i <= r <= |s|
    decreases |s| - i
  {
    if i < |s| && IsFlag(s[i]) then SkipFlags(s, i + 1) else i
  }

  /** Past a number or a star. */
  function SkipAmount(s: string, i: nat): (r: nat)
    requires i <= |s|
    ensures i <= r <= |s|
  {
    if IsDigit(At(s, i)) then i + DigitCount(s[i..]) else if At(s, i) == '*' then i + 1 else i
  }

  function SkipPrecision(s: string, i: nat): (r: nat)
    requires i <= |s|
    ensures i <= r <= |s|
  {
    if At(s, i) == '.' then SkipAmount(s, i + 1) else i
  }

  function SkipLength(s: string, i: nat): (r: nat)
    requires i <= |s|
    ensures i <= r <= |s|
  {
    var c := At(s, i);
    if (c == 'l' || c == 'h') && At(s, i + 1) == c then i + 2
    else if c == 'l' || c == 'h' || c == 't' || c == 'j' || c == 'z' then i + 1
    else i
  }

  /** The position of the conversion character of a directive whose percent sign is in front of i. */
  function SpecEnd(s: string, i: nat): (r: nat)
    requires i <= |s|
    ensures i <= r <= |s|
  {
    SkipLength(s, SkipPrecision(s, SkipAmount(s, SkipFlags(s, i))))
  }

  /** From i on, every directive has its conversion character. */
  predicate Closed(s: string, i: nat)
    requires i <= |s|
    decreases |s| - i
  {
    if i == |s| then true
    else if s[i] != '%' then Closed(s, i + 1)
    else SpecEnd(s, i + 1) < |s| && Closed(s, SpecEnd(s, i + 1) + 1)
  }

  lemma {:induction false} FlagsSkipped(s: string, i: nat, f: Flags)
    requires i <= |s|
    ensures FlagsFrom(s, i, f).1 == SkipFlags(s, i)
    decreases |s| - i
  {
    if i < |s| && IsFlag(s[i]) {
      FlagsSkipped(s, i + 1, FlagOf(s[i], f));
    }
  }

  lemma WidthEnds(s: string, d: Directive)
    requires d.next <= |s|
    ensures WithWidth(s, d).next == SkipAmount(s, d.next)
  {
  }

  lemma PrecisionEnds(s: string, d: Directive)
    requires d.next <= |s|
    ensures WithPrecision(s, d).next == SkipPrecision(s, d.next)
  {
  }

  lemma LengthEnds(s: string, d: Directive)
    requires d.next <= |s|
    ensures WithLength(s, d).next == SkipLength(s, d.next)
  {
  }

  /** Where a directive ends does not depend on the arguments. */
  lemma DirectiveEnds(s: string, i: nat, args: seq<Arg>)
    requires i <= |s|
    ensures DirectiveAt(s, i, args).next == SpecEnd(s, i)
  {
    FlagsSkipped(s, i, {});
    FlagsEnd(s, i, {});
    var (f, k) := FlagsFrom(s, i, {});
    var d := Directive(f, 0, 0, k, args);
    WidthEnds(s, d);
    var d1 := WithWidth(s, d);
    PrecisionEnds(s, d1);
    var d2 := WithPrecision(s, d1);
    LengthEnds(s, d2);
  }

  /** Where the format loop goes on behind the character or directive at i. */
  function NextPiece(s: string, i: nat): (r: nat)
    requires i < |s|
    ensures i < r <= |s| + 1
  {
    if s[i] != '%' then i + 1 else SpecEnd(s, i + 1) + 1
  }

  lemma PieceEnds(s: string, i: nat, args: seq<Arg>)
    requires i < |s|
    ensures PieceAt(s, i, args).next == NextPiece(s, i)
  {
    if s[i] == '%' {
      DirectiveEnds(s, i + 1, args);
    }
  }

  /** The position at which the format loop, from i on, finds no character any more. */
  function StopsAt(s: string, i: nat): nat
    decreases |s| - i
  {
    if i >= |s| then i else StopsAt(s, NextPiece(s, i))
  }

  /** That is the terminator if the format is closed, and otherwise one behind it: the loop has taken the terminator for
      a conversion character. */
  lemma {:induction false} LoopStops(s: string, i: nat)
    requires i <= |s|
    ensures StopsAt(s, i) == if Closed(s, i) then |s| else |s| + 1
    decreases |s| - i
  {
    if i < |s| && NextPiece(s, i) <= |s| {
      LoopStops(s, NextPiece(s, i));
    }
  }

  /** Formats that end inside a directive. */
  lemma OpenFormats()
    ensures !Closed("%", 0) && !Closed("abc%-", 0) && !Closed("%5l", 0)
  {
    assert !Closed("%", 0);
    assert SkipFlags("abc%-", 4) == 5;
    assert !Closed("abc%-", 3);
    assert !Closed("abc%-", 2);
    assert !Closed("abc%-", 1);
    assert SkipFlags("%5l", 1) == 1;
    assert DigitCount("%5l"[1..]) == 1;
  }
}
