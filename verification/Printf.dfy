/** `_vsnprintf` of `printf.c` writing into a bounded buffer, against the text of `PrintfText`. */
module Printf {
  import opened Arithmetic
  import opened Digits
  import opened PrintfText
  import opened PrintfFormat

  /** The output side: _out_buffer or, for a null buffer, _out_null, with the running index. */
  class Sink {
    const buffer: array<char>
    const isNull: bool
    var idx: nat
    ghost var text: string               // everything that was put out
    ghost const before: seq<char>        // the buffer at the start

    constructor (destination: array<char>, absent: bool)
      ensures Valid() && buffer == destination && isNull == absent && text == "" && before == destination[..]
    {
      buffer, isNull, idx, text, before := destination, absent, 0, "", destination[..];
    }

    /** The buffer holds the text as far as it goes and is untouched behind it. */
    ghost predicate Valid()
      reads this, buffer
    {
      && idx == |text| && |before| == buffer.Length
      && forall i :: 0 <= i < buffer.Length ==> buffer[i] == if i < idx && !isNull then text[i] else before[i]
    }

    /** out(character, buffer, idx++, maxlen). */
    method Out(c: char)
      requires Valid()
      modifies this, buffer
      ensures Valid() && text == old(text) + [c]
    {
      if !isNull && idx < buffer.Length {
        buffer[idx] := c;
      }
      idx := idx + 1;
      text := text + [c];
    }

    /** A loop that puts out the same character n times. */
    method OutMany(c: char, n: int)
      requires Valid()
      modifies this, buffer
      ensures Valid() && text == old(text) + Repeat(c, n)
    {
      var i := 0;
      while i < n
        invariant 0 <= i && (if n >= 0 then i <= n else i == 0) && Valid() && text == old(text) + Repeat(c, i)
        decreases n - i
      {
        Out(c);
        i := i + 1;
      }
      assert Repeat(c, i) == Repeat(c, n);
    }

    /** A loop that puts out the characters of a string. */
    method OutString(s: string)
      requires Valid()
      modifies this, buffer
      ensures Valid() && text == old(text) + s
    {
      var i := 0;
      while i < |s|
        invariant 0 <= i <= |s| && Valid() && text == old(text) + s[..i]
      {
        Out(s[i]);
        i := i + 1;
      }
    }

    /** _out_rev. */
    method OutRev(buf: array<char>, length: nat, width: nat, f: Flags)
      requires Valid() && length <= buf.Length && buf != buffer
      modifies this, buffer
      ensures Valid() && text == old(text) + Turned(buf[..length], width, f)
    {
      var b := buf[..length];
      if Left !in f && ZeroPad !in f {
        OutMany(' ', width - length);
      }
      ghost var start := text;
      var len := length;
      while len > 0
        invariant 0 <= len <= length && Valid() && buf[..length] == b
        invariant text == start + Reversed(b)[..length - len]
      {
        len := len - 1;
        assert Reversed(b)[length - len - 1] == b[len];
        Out(buf[len]);
      }
      assert Reversed(b)[..length] == Reversed(b);
      if Left in f {
        OutMany(' ', width - length);
      }
    }
  }

  /** A loop that appends zeroes up to a length. */
  method AppendZeroes(buf: array<char>, length: nat, upTo: nat) returns (len: nat)
    requires length <= buf.Length == NTOA_BUFFER_SIZE
    modifies buf
    ensures len <= buf.Length && buf[..len] == ZeroesTo(old(buf[..length]), upTo)
  {
    len := length;
    while len < upTo && len < NTOA_BUFFER_SIZE
      invariant length <= len <= NTOA_BUFFER_SIZE && (len <= upTo || len == length)
      invariant buf[..len] == old(buf[..length]) + Repeat('0', len - length)
    {
      buf[len] := '0';
      len := len + 1;
    }
  }

  method Append(buf: array<char>, length: nat, c: char) returns (len: nat)
    requires length <= buf.Length == NTOA_BUFFER_SIZE
    modifies buf
    ensures len <= buf.Length && buf[..len] == PutIfRoom(old(buf[..length]), c)
  {
    len := length;
    if len < NTOA_BUFFER_SIZE {
      buf[len] := c;
      len := len + 1;
    }
  }

  /** The alternative form in _ntoa_format. */
  method AppendHash(buf: array<char>, length: nat, base: nat, prec: nat, width: nat, f: Flags) returns (len: nat)
    requires length <= buf.Length == NTOA_BUFFER_SIZE
    modifies buf
    ensures len <= buf.Length && buf[..len] == Hashed(old(buf[..length]), base, prec, width, f)
  {
    len := length;
    if Hash in f {
      ghost var b := buf[..length];
      if Precision !in f && len > 0 && (len == prec || len == width) {
        len := len - 1;
        if len > 0 && base == 16 {
          len := len - 1;
        }
      }
      assert buf[..len] == MakeRoom(b, base, prec, width, f);
      if base == 16 && Upper !in f {
        len := Append(buf, len, 'x');
      } else if base == 16 && Upper in f {
        len := Append(buf, len, 'X');
      } else if base == 2 {
        len := Append(buf, len, 'b');
      }
      len := Append(buf, len, '0');
    }
  }

  method AppendSign(buf: array<char>, length: nat, negative: bool, f: Flags) returns (len: nat)
    requires length <= buf.Length == NTOA_BUFFER_SIZE
    modifies buf
    ensures len <= buf.Length && buf[..len] == Signed(old(buf[..length]), negative, f)
  {
    len := length;
    if negative {
      len := Append(buf, len, '-');
    } else if Plus in f {
      len := Append(buf, len, '+');
    } else if Space in f {
      len := Append(buf, len, ' ');
    }
  }

  /** _ntoa_format. */
  method NtoaFormat(sink: Sink, buf: array<char>, length: nat, negative: bool, base: nat, prec: nat, fieldWidth: nat,
                    f: Flags)
    requires sink.Valid() && length <= buf.Length == NTOA_BUFFER_SIZE && buf != sink.buffer
    modifies sink, sink.buffer, buf
    ensures sink.Valid()
    ensures sink.text == old(sink.text) + FormatDigits(old(buf[..length]), negative, base, prec, fieldWidth, f)
  {
    var len, width := length, fieldWidth;
    if Left !in f {
      if width > 0 && ZeroPad in f && (negative || Plus in f || Space in f) {
        width := width - 1;
      }
      len := AppendZeroes(buf, len, prec);
      if ZeroPad in f {
        len := AppendZeroes(buf, len, width);
      }
    }
    len := AppendHash(buf, len, base, prec, width, f);
    len := AppendSign(buf, len, negative, f);
    sink.OutRev(buf, len, width, f);
  }

  /** The digit loop of _ntoa_long and _ntoa_long_long. */
  method FillDigits(buf: array<char>, number: nat, base: nat, upper: bool) returns (len: nat)
    requires buf.Length > 0 && IsBase(base)
    modifies buf
    ensures len <= buf.Length && buf[..len] == DigitsOf(number, base, upper, buf.Length)
  {
    len := 0;
    var value: nat, more := number, true;
    ghost var all := DigitsOf(number, base, upper, buf.Length);
    assert buf[..0] + all == all;
    while more
      invariant len <= buf.Length && (more ==> len < buf.Length)
      invariant Filling(buf[..len], value, base, upper, buf.Length - len, more, all)
      decreases buf.Length - len, more
    {
      ghost var b := buf[..len];
      var d := value % base;
      NextDigit(value, base, upper, buf.Length - len, b, all);
      buf[len] := DigitChar(d, upper);
      len := len + 1;
      assert buf[..len] == b + [DigitChar(d, upper)];
      value := value / base;
      more := value != 0 && len < buf.Length;
    }
  }

  /** What is in the buffer and what is to come make up the digits. */
  ghost predicate Filling(b: string, value: nat, base: nat, upper: bool, room: nat, more: bool, all: string)
    requires IsBase(base)
  {
    all == if more then b + DigitsOf(value, base, upper, room) else b
  }

  lemma NextDigit(value: nat, base: nat, upper: bool, room: nat, b: string, all: string)
    requires IsBase(base) && room > 0 && Filling(b, value, base, upper, room, true, all)
    ensures value % base < 16
    ensures Filling(b + [DigitChar(value % base, upper)], value / base, base, upper, room - 1,
        value / base != 0 && room > 1, all)
  {
  }

  /** _ntoa_long and _ntoa_long_long. */
  method Ntoa(sink: Sink, value: nat, negative: bool, base: nat, prec: nat, width: nat, flags: Flags)
    requires sink.Valid() && IsBase(base)
    modifies sink, sink.buffer
    ensures sink.Valid() && sink.text == old(sink.text) + Integer(value, negative, base, prec, width, flags)
  {
    var buf := new char[NTOA_BUFFER_SIZE];
    var len: nat, f := 0, flags;
    if value == 0 {
      f := f - {Hash};
    }
    if Precision !in f || value != 0 {
      len := FillDigits(buf, value, base, Upper in f);
    }
    ghost var b := buf[..len];
    assert b == if Precision !in f || value != 0 then DigitsOf(value, base, Upper in f, NTOA_BUFFER_SIZE) else "";
    NtoaFormat(sink, buf, len, negative, base, prec, width, f);
  }

  /** The flag loop. */
  method ReadFlags(s: string, i: nat) returns (f: Flags, next: nat)
    requires i <= |s|
    ensures (f, next) == FlagsFrom(s, i, {}) && next <= |s|
  {
    f, next := {}, i;
    var n := true;
    while n
      invariant next <= |s| && FlagsFrom(s, i, {}) == if n then FlagsFrom(s, next, f) else (f, next)
      decreases |s| - next, n
    {
      match At(s, next) {
        case '0' => f := f + {ZeroPad};
        case '-' => f := f + {Left};
        case '+' => f := f + {Plus};
        case ' ' => f := f + {Space};
        case '#' => f := f + {Hash};
        case _ => n := false;
      }
      if n {
        next := next + 1;
      }
    }
  }

  /** Everything between the percent sign and the conversion character. */
  method ReadDirective(s: string, i: nat, args: seq<Arg>) returns (d: Directive)
    requires i <= |s|
    ensures d == DirectiveAt(s, i, args)
  {
    FlagsEnd(s, i, {});
    var f, next := ReadFlags(s, i);
    d := Directive(f, 0, 0, next, args);
    d := ReadWidth(s, d);
    d := ReadPrecision(s, d);
    d := WithLength(s, d);
  }

  method ReadWidth(s: string, d: Directive) returns (r: Directive)
    requires d.next <= |s|
    ensures r == WithWidth(s, d)
  {
    r := d;
    if IsDigit(At(s, d.next)) {
      var n, i := Atoi(s, d.next);
      r := d.(width := n, next := i);
    } else if At(s, d.next) == '*' {
      var w := AsSigned(NextWord(d.args), TWO_32);
      if w < 0 {
        r := r.(f := r.f + {Left}, width := -w);
      } else {
        r := r.(width := w);
      }
      r := r.(next := d.next + 1, args := Rest(d.args));
    }
  }

  method ReadPrecision(s: string, d: Directive) returns (r: Directive)
    requires d.next <= |s|
    ensures r == WithPrecision(s, d)
  {
    r := d;
    if At(s, d.next) == '.' {
      r := r.(f := r.f + {Precision}, next := d.next + 1);
      if IsDigit(At(s, r.next)) {
        var n, i := Atoi(s, r.next);
        r := r.(prec := n, next := i);
      } else if At(s, r.next) == '*' {
        var p := AsSigned(NextWord(r.args), TWO_32);
        r := r.(prec := if p > 0 then p else 0, next := r.next + 1, args := Rest(r.args));
      }
    }
  }

  /** The flags that do not apply to an integer conversion are dropped. */
  method AdjustFlags(c: char, flags: Flags) returns (f: Flags)
    ensures f == IntegerFlags(c, flags)
  {
    f := flags;
    if BaseOf(c) == 10 {
      f := f - {Hash};
    }
    if c == 'X' {
      f := f + {Upper};
    }
    if c != 'i' && c != 'd' {
      f := f - {Plus, Space};
    }
    if Precision in f {
      f := f - {ZeroPad};
    }
  }

  /** The conversions of integers. */
  method PutInteger(sink: Sink, c: char, d: Directive)
    requires sink.Valid()
    modifies sink, sink.buffer
    ensures sink.Valid() && sink.text == old(sink.text) + IntegerText(c, d)
  {
    var f := AdjustFlags(c, d.f);
    PutValue(sink, ArgValue(c, NextWord(d.args), f), BaseOf(c), d.prec, d.width, f);
  }

  /** The magnitude is converted and the sign handed on. */
  method PutValue(sink: Sink, value: int, base: nat, prec: nat, width: nat, f: Flags)
    requires sink.Valid() && IsBase(base)
    modifies sink, sink.buffer
    ensures sink.Valid() && sink.text == old(sink.text) + ValueText(value, base, prec, width, f)
  {
    Ntoa(sink, if value > 0 then value else -value, value < 0, base, prec, width, f);
  }

  /** Padding in front, the text, padding behind. */
  method PutInField(sink: Sink, t: string, width: nat, left: bool)
    requires sink.Valid()
    modifies sink, sink.buffer
    ensures sink.Valid() && sink.text == old(sink.text) + InField(t, width, left)
  {
    if !left {
      sink.OutMany(' ', width - |t|);
    }
    sink.OutString(t);
    if left {
      sink.OutMany(' ', width - |t|);
    }
  }

  /** The switch on the conversion character. */
  method Convert(sink: Sink, c: char, d: Directive) returns (args: seq<Arg>)
    requires sink.Valid()
    modifies sink, sink.buffer
    ensures sink.Valid() && sink.text == old(sink.text) + Converted(c, d) && args == ArgsLeft(c, d)
  {
    args := Rest(d.args);
    if IsInteger(c) {
      PutInteger(sink, c, d);
    } else if c == 'c' {
      PutInField(sink, [(NextWord(d.args) % 256) as char], d.width, Left in d.f);
    } else if c == 's' {
      var p := NextText(d.args);
      PutInField(sink, if Precision in d.f then p[..Min(|p|, d.prec)] else p, d.width, Left in d.f);
    } else if c == 'p' {
      Ntoa(sink, NextWord(d.args), false, 16, d.prec, 16, d.f + {ZeroPad, Upper});
    } else {
      sink.Out(c);
      args := d.args;
    }
  }

  /** One round of the format loop: a character, or a directive and its conversion. */
  method FormatNext(sink: Sink, format: string, i: nat, args: seq<Arg>) returns (next: nat, rest: seq<Arg>)
    requires sink.Valid() && i < |format|
    modifies sink, sink.buffer
    ensures var p := PieceAt(format, i, args);
            sink.Valid() && sink.text == old(sink.text) + p.text && next == p.next && rest == p.args
  {
    if format[i] != '%' {
      sink.Out(format[i]);
      return i + 1, args;
    }
    var d := ReadDirective(format, i + 1, args);
    rest := Convert(sink, At(format, d.next), d);
    next := d.next + 1;
  }

  /** The format loop, as far as the format goes, and where it stops. */
  method Format(sink: Sink, format: string, arguments: seq<Arg>) returns (i: nat)
    requires sink.Valid() && sink.text == ""
    modifies sink, sink.buffer
    ensures sink.Valid() && sink.text == Output(format, 0, arguments) && i == StopsAt(format, 0)
  {
    var args := arguments;
    i := 0;
    ghost var whole := Output(format, 0, arguments);
    while i < |format|
      invariant sink.Valid() && whole == sink.text + Output(format, i, args) && StopsAt(format, i) == StopsAt(format, 0)
      decreases |format| - i
    {
      ghost var text, p := sink.text, PieceAt(format, i, args);
      PieceEnds(format, i, args);
      i, args := FormatNext(sink, format, i, args);
      Joined(text, p.text, Output(format, i, args));
    }
    assert sink.text + "" == sink.text;
  }

  lemma Joined(a: string, b: string, c: string)
    ensures a + (b + c) == a + b + c
  {
  }

  /** _vsnprintf into a buffer of `count` characters, or none: the buffer gets as much of the text as fits in
      front of a terminator, and the result is the length of the whole text, as an int.  A format that ends inside a
      directive, and no other, is overrun: the loop goes on behind its terminator, and neither text nor length is
      determined. */
  method Vsnprintf(buffer: array<char>, isNull: bool, format: CText, args: seq<Arg>)
    returns (length: int, overrun: bool)
    modifies buffer
    ensures overrun <==> !Closed(format, 0)
    ensures !overrun ==> length == AsSigned(|Output(format, 0, args)|, TWO_32)
    ensures !overrun && (isNull || buffer.Length == 0) ==> buffer[..] == old(buffer[..])
    ensures !overrun && !isNull && buffer.Length > 0 ==>
              var text, n := Output(format, 0, args), Min(|Output(format, 0, args)|, buffer.Length - 1);
              && buffer[..n] == text[..n] && buffer[n] == '\0' && buffer[n + 1..] == old(buffer[n + 1..])
  {
    var sink := new Sink(buffer, isNull);
    var i := Format(sink, format, args);
    LoopStops(format, 0);
    if i > |format| {
      return 0, true;
    }
    overrun := false;
    var idx := sink.idx;
    if !isNull && (if idx < buffer.Length then idx else buffer.Length - 1) >= 0 {
      buffer[if idx < buffer.Length then idx else buffer.Length - 1] := '\0';
    }
    length := AsSigned(idx, TWO_32);
  }
}
