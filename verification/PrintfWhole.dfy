/** Whole formats of `printf.c`: literal characters and directives in a row, each directive with its own arguments. */
module PrintfWhole {
  import opened Options
  import opened Digits
  import opened Numerals
  import opened PrintfText
  import opened PrintfMeaning
  import opened PrintfDirectives

  /** A character that stands for itself, or a directive. */
  datatype Item = Literal(c: char) | Conversion(spec: Spec, c: char)

  ghost predicate ProperItem(item: Item) {
    match item
    case Literal(c) => c != '%'
    case Conversion(spec, c) => Proper(spec) && Terminal(c)
  }

  function ItemText(item: Item): string {
    match item case Literal(c) => [c] case Conversion(spec, c) => ['%'] + Spell(spec) + [c]
  }

  /** The format that is made of the items. */
  function FormatOf(items: seq<Item>): string {
    if items == [] then "" else ItemText(items[0]) + FormatOf(items[1..])
  }

  /** A conversion that takes an argument. */
  predicate TakesArgument(c: char) { c in "diuxXobcsp" }

  function One(b: bool): nat { if b then 1 else 0 }

  /** The arguments that an item uses up: one for each star and one for the conversion. */
  function Takes(item: Item): nat {
    match item
    case Literal(_) => 0
    case Conversion(spec, c) => One(spec.width == Star) + One(spec.precision == Star) + One(TakesArgument(c))
  }

  function Skip(args: seq<Arg>, n: nat): seq<Arg> { if n <= |args| then args[n..] else [] }

  /** What one item says, given the arguments from its own on. */
  function SaysOne(item: Item, args: seq<Arg>): string {
    match item case Literal(c) => [c] case Conversion(spec, c) => Converted(c, Meant(spec, args, 0))
  }

  /** What each of the items says, with the arguments that those in front of it have left. */
  function Texts(items: seq<Item>, args: seq<Arg>): (r: seq<string>)
    ensures |r| == |items|
  {
    if items == [] then [] else [SaysOne(items[0], args)] + Texts(items[1..], Skip(args, Takes(items[0])))
  }

  function Concat(texts: seq<string>): string { if texts == [] then "" else texts[0] + Concat(texts[1..]) }

  lemma StarsTake(spec: Spec, args: seq<Arg>, end: nat)
    requires !spec.dot ==> spec.precision == Absent
    ensures Meant(spec, args, end).args == Skip(args, One(spec.width == Star) + One(spec.precision == Star))
  {
  }

  lemma ConversionTakes(c: char, d: Directive, args: seq<Arg>, n: nat)
    requires d.args == Skip(args, n)
    ensures ArgsLeft(c, d) == Skip(args, n + One(TakesArgument(c)))
  {
  }

  // ------------------------------------------------------------------------ pieces, whatever they are

  type Pieces = (nat, seq<Arg>) -> Piece
  type Outputs = (nat, seq<Arg>) -> string

  /** At the k-th place the k-th text is found, the next place and the arguments that are left. */
  ghost predicate Found(piece: Pieces, at: seq<nat>, left: seq<seq<Arg>>, texts: seq<string>, k: nat)
    requires |at| == |left| == |texts| + 1 && k < |texts|
  {
    piece(at[k], left[k]) == Piece(texts[k], at[k + 1], left[k + 1])
  }

  /** The pieces from i on have these texts and end at n. */
  ghost predicate Chain(piece: Pieces, n: nat, i: nat, args: seq<Arg>, at: seq<nat>, left: seq<seq<Arg>>,
                        texts: seq<string>) {
    && |at| == |left| == |texts| + 1 && at[0] == i && left[0] == args && at[|texts|] == n
    && (forall k :: 0 <= k < |texts| ==> at[k] < n)
    && forall k :: 0 <= k < |texts| ==> Found(piece, at, left, texts, k)
  }

  lemma ChainCons(piece: Pieces, n: nat, i: nat, args: seq<Arg>, p: Piece, at: seq<nat>, left: seq<seq<Arg>>,
                  texts: seq<string>)
    requires i < n && piece(i, args) == p && Chain(piece, n, p.next, p.args, at, left, texts)
    ensures Chain(piece, n, i, args, [i] + at, [args] + left, [p.text] + texts)
  {
    forall k | 0 <= k < |texts| + 1
      ensures Found(piece, [i] + at, [args] + left, [p.text] + texts, k)
    {
      if k > 0 {
        assert Found(piece, at, left, texts, k - 1);
      }
    }
  }

  /** The output is that of the piece at i and of what follows it. */
  ghost predicate Strings(piece: Pieces, out: Outputs, n: nat) {
    forall i: nat, args {:trigger out(i, args)} ::
      out(i, args) == if i >= n then "" else piece(i, args).text + out(piece(i, args).next, piece(i, args).args)
  }

  lemma {:induction false} OutputOfChain(piece: Pieces, out: Outputs, n: nat, i: nat, args: seq<Arg>, at: seq<nat>,
                                         left: seq<seq<Arg>>, texts: seq<string>, k: nat)
    requires Strings(piece, out, n) && Chain(piece, n, i, args, at, left, texts) && k <= |texts|
    ensures out(at[k], left[k]) == Concat(texts[k..])
    decreases |texts| - k
  {
    if k < |texts| {
      assert Found(piece, at, left, texts, k);
      OutputOfChain(piece, out, n, i, args, at, left, texts, k + 1);
      assert texts[k..][1..] == texts[k + 1..];
    }
  }

  // ------------------------------------------------------------------------------------ pieces of a format

  function PieceFrom(s: string, i: nat, args: seq<Arg>): Piece {
    if i < |s| then PieceAt(s, i, args) else Piece("", i, args)
  }

  function PiecesOf(s: string): Pieces { (i: nat, args: seq<Arg>) => PieceFrom(s, i, args) }
  function OutputsOf(s: string): Outputs { (i: nat, args: seq<Arg>) => Output(s, i, args) }

  lemma OutputStrings(s: string)
    ensures Strings(PiecesOf(s), OutputsOf(s), |s|)
  {
  }

  lemma RestOf(s: string, i: nat, first: string, rest: string)
    requires i <= |s| && s[i..] == first + rest
    ensures i + |first| <= |s| && s[i + |first|..] == rest
  {
    assert s[i..][|first|..] == s[i + |first|..];
  }

  lemma {:induction false} ItemsChain(s: string, i: nat, items: seq<Item>, args: seq<Arg>)
    returns (at: seq<nat>, left: seq<seq<Arg>>)
    requires i <= |s| && s[i..] == FormatOf(items) && forall k :: 0 <= k < |items| ==> ProperItem(items[k])
    ensures Chain(PiecesOf(s), |s|, i, args, at, left, Texts(items, args))
    decreases |items|
  {
    if items == [] {
      at, left := [i], [args];
    } else {
      var item, rest := items[0], FormatOf(items[1..]);
      RestOf(s, i, ItemText(item), rest);
      at, left := ItemsChain(s, i + |ItemText(item)|, items[1..], Skip(args, Takes(item)));
      PieceOfItem(s, i, item, rest, args);
      var p := Piece(SaysOne(item, args), i + |ItemText(item)|, Skip(args, Takes(item)));
      ChainCons(PiecesOf(s), |s|, i, args, p, at, left, Texts(items[1..], Skip(args, Takes(item))));
      at, left := [i] + at, [args] + left;
    }
  }

  lemma PieceOfItem(s: string, i: nat, item: Item, rest: string, args: seq<Arg>)
    requires i <= |s| && s[i..] == ItemText(item) + rest && ProperItem(item)
    ensures i < |s|
    ensures PiecesOf(s)(i, args) == Piece(SaysOne(item, args), i + |ItemText(item)|, Skip(args, Takes(item)))
  {
    assert s[i] == s[i..][0];
    if item.Conversion? {
      PieceOfDirective(s, i, item.spec, item.c, rest, args);
    }
  }

  lemma PieceOfDirective(s: string, i: nat, spec: Spec, c: char, rest: string, args: seq<Arg>)
    requires i < |s| && s[i..] == ItemText(Conversion(spec, c)) + rest && Proper(spec) && Terminal(c)
    ensures var item := Conversion(spec, c);
            PieceAt(s, i, args) == Piece(SaysOne(item, args), i + |ItemText(item)|, Skip(args, Takes(item)))
  {
    WrittenAt(s, i, spec, c, rest);
    PieceIs(s, i, spec, c, args);
    DirectiveSays(spec, c, args, i + 1 + |Spell(spec)|);
  }

  lemma DirectiveSays(spec: Spec, c: char, args: seq<Arg>, end: nat)
    requires !spec.dot ==> spec.precision == Absent
    ensures Converted(c, Meant(spec, args, end)) == SaysOne(Conversion(spec, c), args)
    ensures ArgsLeft(c, Meant(spec, args, end)) == Skip(args, Takes(Conversion(spec, c)))
  {
    EndIsNoMatter(spec, c, args, end);
    StarsTake(spec, args, end);
    ConversionTakes(c, Meant(spec, args, end), args, One(spec.width == Star) + One(spec.precision == Star));
  }

  lemma EndIsNoMatter(spec: Spec, c: char, args: seq<Arg>, end: nat)
    ensures Converted(c, Meant(spec, args, end)) == Converted(c, Meant(spec, args, 0))
  {
  }

  lemma WrittenAt(s: string, i: nat, spec: Spec, c: char, rest: string)
    requires i <= |s| && s[i..] == ['%'] + Spell(spec) + [c] + rest
    ensures Written(s, i, spec, c)
  {
    var t := Spell(spec);
    assert forall j :: 0 <= j < |t| ==> s[i + 1 + j] == s[i..][1 + j] == t[j];
    assert s[i] == s[i..][0] && s[i + 1 + |t|] == s[i..][1 + |t|];
  }

  /** A format that is made of literal characters and directives prints them one after the other: the characters as they
      are, and each directive with the arguments that those in front of it have left. */
  lemma FormatSays(items: seq<Item>, args: seq<Arg>)
    requires forall k :: 0 <= k < |items| ==> ProperItem(items[k])
    ensures Output(FormatOf(items), 0, args) == Concat(Texts(items, args))
  {
    var s, texts := FormatOf(items), Texts(items, args);
    assert s[0..] == s && texts[0..] == texts;
    var at, left := ItemsChain(s, 0, items, args);
    OutputStrings(s);
    OutputOfChain(PiecesOf(s), OutputsOf(s), |s|, 0, args, at, left, texts, 0);
  }

  /** A text without a percent sign is printed as it is. */
  lemma {:induction false} LiteralText(s: string, i: nat, args: seq<Arg>)
    requires i <= |s| && forall k :: i <= k < |s| ==> s[k] != '%'
    ensures Output(s, i, args) == s[i..]
    decreases |s| - i
  {
    if i < |s| {
      LiteralText(s, i + 1, args);
      assert s[i..] == [s[i]] + s[i + 1..];
    }
  }

  /** The directive %% prints one percent sign, whatever stands between. */
  lemma PercentSign(spec: Spec, args: seq<Arg>)
    ensures SaysOne(Conversion(spec, '%'), args) == "%"
  {
  }

  /** A character directive prints the low byte of its argument in a field of its width. */
  lemma CharDirective(spec: Spec, args: seq<Arg>)
    ensures var d := Meant(spec, args, 0);
            var r := SaysOne(Conversion(spec, 'c'), args);
            && |r| == Max(d.width, 1)
            && (if Left in d.f then r[0] == (NextWord(d.args) % 256) as char && AllSpaces(r[1..])
                else r[|r| - 1] == (NextWord(d.args) % 256) as char && AllSpaces(r[..|r| - 1]))
  {
    var d := Meant(spec, args, 0);
    FieldIs([(NextWord(d.args) % 256) as char], d.width, Left in d.f);
  }

  /** A pointer directive prints a hexadecimal number that a reader takes for its argument if and only if the conversion
      is faithful. */
  lemma PointerDirective(spec: Spec, args: seq<Arg>)
    ensures SaysOne(Conversion(spec, 'p'), args) == PointerText(Meant(spec, args, 0))
  {
  }

  lemma PointerTextMeans(d: Directive)
    ensures var w, f := NextWord(d.args), d.f + {ZeroPad, Upper};
            ReadInteger(PointerText(d), 16) == Some(w) <==> Faithful(w, false, 16, d.prec, 16, f)
  {
    StandsForValue(NextWord(d.args), false, 16, d.prec, 16, d.f + {ZeroPad, Upper});
  }
}
