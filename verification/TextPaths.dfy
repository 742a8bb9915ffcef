/** Text paths such as `\_SB_.PCI0` or `^^FOO_`, as `name_string_to_path` writes them and
    `uacpi_namespace_node_resolve` reads them. */
module TextPaths {
  import opened Options
  import opened NamespaceTree
  import opened NameStrings

  /** The segments with dots in between. */
  function Dotted(segs: seq<Name>): string {
    if segs == [] then "" else if |segs| == 1 then segs[0] else segs[0] + "." + Dotted(segs[1..])
  }

  function Print(n: NameString): string { Prefix(n) + Dotted(n.segs) }

  /** The number of characters in front of the next dot, but no more than `max`. */
  function SegLength(t: string, max: nat): (k: nat)
    ensures k <= max && k <= |t| && (forall i :: 0 <= i < k ==> t[i] != '.') && (k < max && k < |t| ==> t[k] == '.')
    decreases max
  {
    if max == 0 || t == "" || t[0] == '.' then 0 else 1 + SegLength(t[1..], max - 1)
  }

  /** A segment that is too short is padded. */
  function Pad(s: string): (r: Name)
    requires |s| <= 4
  {
    s + Repeat('_', 4 - |s|)
  }

  function SkipDot(t: string): string { if t != "" && t[0] == '.' then t[1..] else t }

  /** The segments of the rest of a path. */
  function Segs(t: string): seq<Name>
    decreases |t|
  {
    if t == "" then []
    else
      var u := SkipDot(t);
      var k := SegLength(u, 4);
      [Pad(u[..k])] + Segs(u[k..])
  }

  /** What a path says. */
  function Read(path: string): NameString {
    var k := Carets(path);
    var rooted := k < |path| && path[k] == '\\';
    NameString(k, rooted, Segs(path[if rooted then k + 1 else k..]))
  }

  lemma SegLengthIs(t: string, k: nat)
    requires k <= |t| && k <= 4 && (forall i :: 0 <= i < k ==> t[i] != '.') && (k < 4 && k < |t| ==> t[k] == '.')
    ensures SegLength(t, 4) == k
  {
  }

  lemma FirstSeg(segs: seq<Name>, t: string)
    requires segs != [] && ValidSeg(segs[0]) && SkipDot(t) == Dotted(segs) && t != ""
    ensures Segs(t) == [segs[0]] + Segs(if |segs| == 1 then "" else "." + Dotted(segs[1..]))
  {
    var u := SkipDot(t);
    assert forall i :: 0 <= i < 4 ==> u[i] == segs[0][i];
    SegLengthIs(u, 4);
    assert u[..4] == segs[0];
    assert Pad(segs[0]) == segs[0];
    assert u[4..] == if |segs| == 1 then "" else "." + Dotted(segs[1..]);
  }

  lemma {:induction false} SegsDotted(segs: seq<Name>)
    requires ValidSegs(segs)
    ensures Segs(Dotted(segs)) == segs
    ensures segs != [] ==> Segs("." + Dotted(segs)) == segs
  {
    if segs != [] {
      SegsDotted(segs[1..]);
      var t := Dotted(segs);
      assert t[0] == segs[0][0];
      assert SkipDot(t) == t && SkipDot("." + t) == t;
      FirstSeg(segs, t);
      FirstSeg(segs, "." + t);
      assert segs == [segs[0]] + segs[1..];
    }
  }

  /** A printed name string is read back. */
  lemma ReadPrint(n: NameString)
    requires ValidSegs(n.segs)
    ensures Read(Print(n)) == n
  {
    var d := Dotted(n.segs);
    SegsDotted(n.segs);
    assert d != "" ==> d[0] == n.segs[0][0] && ValidSeg(n.segs[0]);
    ReadPrefixed(n, d);
  }

  /** A prefix is read in front of anything that does not go on with it. */
  lemma ReadPrefixed(n: NameString, d: string)
    requires d != "" ==> d[0] != '^' && d[0] != '\\'
    ensures Read(Prefix(n) + d) == NameString(n.carets, n.rooted, Segs(d))
  {
    var path, k, tail := Prefix(n) + d, n.carets, (if n.rooted then "\\" else "") + d;
    assert path == Repeat('^', k) + tail;
    CaretsOf(k, tail);
    assert path[k..] == tail;
    assert k < |path| ==> path[k] == tail[0];
    assert n.rooted ==> path[k + 1..] == d;
  }

  // ------------------------------------------------------------------------------------ short segments

  /** Texts with dots in between. */
  function Joined(ts: seq<string>): string {
    if ts == [] then "" else if |ts| == 1 then ts[0] else ts[0] + "." + Joined(ts[1..])
  }

  ghost predicate Short(ts: seq<string>) {
    forall i :: 0 <= i < |ts| ==> |ts[i]| <= 4 && '.' !in ts[i]
  }

  function Padded(ts: seq<string>): (r: seq<Name>)
    requires Short(ts)
  {
    seq(|ts|, i requires 0 <= i < |ts| => Pad(ts[i]))
  }

  /** What a short segment is padded to. */
  lemma PadMeans(t: string)
    requires |t| <= 4
    ensures Pad(t)[..|t|] == t && forall i :: |t| <= i < 4 ==> Pad(t)[i] == '_'
  {
  }

  /** A short text in front of a dot or of nothing. */
  lemma ShortSplit(u: string, first: string, rest: string)
    requires u == first + rest && |first| <= 4 && '.' !in first && (rest != "" ==> rest[0] == '.')
    ensures SegLength(u, 4) == |first| && u[..|first|] == first && u[|first|..] == rest
  {
    forall i | 0 <= i < |first|
      ensures u[i] != '.'
    {
      assert u[i] == first[i] && first[i] in first;
    }
    SegLengthIs(u, |first|);
  }

  lemma SegsStep(t: string, u: string, first: string, rest: string)
    requires t != "" && u == SkipDot(t) && |first| <= 4 && SegLength(u, 4) == |first|
    requires u[..|first|] == first && u[|first|..] == rest
    ensures Segs(t) == [Pad(first)] + Segs(rest)
  {
  }

  lemma FirstShort(t: string, first: string, rest: string)
    requires t != "" && SkipDot(t) == first + rest && |first| <= 4 && '.' !in first && (rest != "" ==> rest[0] == '.')
    ensures Segs(t) == [Pad(first)] + Segs(rest)
  {
    ShortSplit(first + rest, first, rest);
    SegsStep(t, first + rest, first, rest);
  }

  lemma JoinedParts(ts: seq<string>) returns (rest: string)
    requires ts != []
    ensures rest == (if |ts| == 1 then "" else "." + Joined(ts[1..])) && Joined(ts) == ts[0] + rest
  {
    rest := if |ts| == 1 then "" else "." + Joined(ts[1..]);
    if |ts| == 1 {
      assert ts[0] + "" == ts[0];
    } else {
      assert ts[0] + "." + Joined(ts[1..]) == ts[0] + ("." + Joined(ts[1..]));
    }
  }

  lemma {:induction false} SegsJoined(ts: seq<string>)
    requires Short(ts)
    ensures ts != [] && ts[0] != "" ==> Segs(Joined(ts)) == Padded(ts)
    ensures ts != [] ==> Segs("." + Joined(ts)) == Padded(ts)
    decreases |ts|
  {
    if ts != [] {
      SegsJoined(ts[1..]);
      var rest := JoinedParts(ts);
      var t := ts[0] + rest;
      PaddedParts(ts);
      assert SkipDot("." + t) == t;
      FirstShort("." + t, ts[0], rest);
      if ts[0] != "" {
        assert t[0] == ts[0][0] && t[0] in ts[0];
        FirstShort(t, ts[0], rest);
      }
    }
  }

  lemma PaddedParts(ts: seq<string>)
    requires ts != [] && Short(ts)
    ensures Padded(ts) == [Pad(ts[0])] + Padded(ts[1..])
  {
  }

  /** A path of any segments of up to four characters, with any prefix, is read as those segments, the short ones
      padded. */
  lemma ReadShort(carets: nat, rooted: bool, ts: seq<string>)
    requires Short(ts) && (ts != [] ==> ts[0] != "" && ts[0][0] != '^' && ts[0][0] != '\\')
    ensures var n := NameString(carets, rooted, Padded(ts));
            Read(Prefix(n) + Joined(ts)) == n
  {
    var d := Joined(ts);
    SegsJoined(ts);
    assert d != "" ==> d[0] == ts[0][0];
    ReadPrefixed(NameString(carets, rooted, Padded(ts)), d);
  }

  /** Names as the standard writes them, in bytes, and as text. */
  lemma NameExamples()
    ensures Encode(NameString(0, true, ["_SB_"]), NameSeg) == "\\_SB_"
    ensures Encode(NameString(0, true, ["_SB_", "PCI0"]), DualName) == "\\._SB_PCI0"
    ensures Encode(NameString(2, false, ["_SB_", "PCI0", "ISA_"]), MultiName) == "^^/" + [3 as char] + "_SB_PCI0ISA_"
    ensures Encode(NameString(0, true, []), NullName) == "\\\0"
  {
    assert Repeat('^', 2) == "^^";
    assert Join(["PCI0", "ISA_"]) == "PCI0" + Join(["ISA_"]);
  }

  lemma PathExamples()
    ensures Print(NameString(0, true, ["_SB_", "PCI0"])) == "\\_SB_.PCI0"
    ensures Print(NameString(2, false, ["FOO_"])) == "^^FOO_"
  {
    assert Repeat('^', 2) == "^^";
  }

  // ---------------------------------------------------------------------------- name_string_to_path

  /** The string up to its terminator. */
  function CString(s: string): (r: string)
    ensures forall i :: 0 <= i < |r| ==> r[i] != '\0'
  {
    if s == "" || s[0] == '\0' then "" else [s[0]] + CString(s[1..])
  }

  lemma {:induction false} CStringOf(s: string)
    requires forall i :: 0 <= i < |s| ==> s[i] != '\0'
    ensures CString(s + "\0") == s
  {
    if s != "" {
      assert (s + "\0")[1..] == s[1..] + "\0";
      CStringOf(s[1..]);
    }
  }

  lemma {:induction false} DottedHasNoNul(segs: seq<Name>)
    requires ValidSegs(segs)
    ensures forall i :: 0 <= i < |Dotted(segs)| ==> Dotted(segs)[i] != '\0'
  {
    if segs != [] {
      assert ValidSeg(segs[0]);
      DottedHasNoNul(segs[1..]);
    }
  }

  /** memcpy of the next piece of a text into a buffer that holds what comes before. */
  method Append(buf: array<char>, at: nat, piece: string, ghost whole: string)
    requires at + |piece| <= |whole| <= buf.Length && buf[..at] == whole[..at] && whole[at..at + |piece|] == piece
    modifies buf
    ensures buf[..at + |piece|] == whole[..at + |piece|]
  {
    for i := 0 to |piece|
      invariant buf[..at + i] == whole[..at + i]
    {
      assert piece[i] == whole[at + i];
      buf[at + i] := piece[i];
    }
  }

  lemma {:induction false} DottedLength(segs: seq<Name>)
    ensures |Dotted(segs)| == if segs == [] then 0 else 4 * |segs| + |segs| - 1
  {
    if |segs| > 1 {
      DottedLength(segs[1..]);
    }
  }

  lemma {:induction false} CaretsIs(s: string, k: nat)
    requires k <= |s| && (forall i :: 0 <= i < k ==> s[i] == '^') && (k < |s| ==> s[k] != '^')
    ensures Carets(s) == k
  {
  }

  /** The prefix loop of name_string_to_path: the number of prefix bytes. */
  method CountPrefix(code: string, offset: nat) returns (r: Option<nat>)
    requires offset <= |code|
    ensures r == PrefixLength(code[offset..])
  {
    var cursor := offset;
    ghost var s := code[offset..];
    while true
      invariant offset <= cursor <= |code|
      invariant forall i :: 0 <= i < cursor - offset ==> s[i] == '^'
      decreases |code| - cursor
    {
      ghost var k := cursor - offset;
      if cursor == |code| {
        CaretsIs(s, k);
        return None;
      }
      var prev := code[cursor];
      assert s[k] == prev;
      if prev == '^' || prev == '\\' {
        cursor := cursor + 1;
      }
      if prev != '^' {
        CaretsIs(s, k);
        if cursor == |code| {
          return None;
        }
        return Some(cursor - offset);
      }
    }
  }

  /** The switch on the byte after the prefix, the same in name_string_to_path and resolve_name_string: the
      form of the path, the number of its segments, and the bytes in front of them. */
  method ReadHead(code: string, offset: nat) returns (head: Option<(Form, nat, nat)>)
    requires offset < |code|
    ensures head == PathHead(code[offset..])
  {
    var cursor := offset + 1;
    if code[offset] == DUAL_NAME_PREFIX {
      return Some((DualName, 2, 1));
    }
    if code[offset] == MULTI_NAME_PREFIX {
      if cursor == |code| {
        return None;
      }
      var namesegs := code[cursor] as int;
      if namesegs == 0 {
        return None;
      }
      cursor := cursor + 1;
      return Some((MultiName, namesegs, cursor - offset));
    }
    if code[offset] == NULL_NAME {
      return Some((NullName, 0, 1));
    }
    cursor := cursor - 1;
    return Some((NameSeg, 1, cursor - offset));
  }

  /** What a name string takes. */
  lemma ParseNeeds(s: string)
    ensures PrefixLength(s) == None ==> Parse(s) == None
    ensures PrefixLength(s).Some? ==>
              var q := PrefixLength(s).value;
              var head := PathHead(s[q..]);
              Parse(s).Some? <==> head.Some? && q + head.value.2 + 4 * head.value.1 <= |s|
  {
  }

  /** The bytes of the prefix and of the segments. */
  lemma PathPieces(code: string, offset: nat, q: nat, form: Form, count: nat, start: nat)
    requires offset <= |code| && PrefixLength(code[offset..]) == Some(q)
    requires PathHead(code[offset..][q..]) == Some((form, count, start)) && offset + q + start + 4 * count <= |code|
    ensures Parse(code[offset..]).Some?
    ensures var n := Parse(code[offset..]).value.name;
            Prefix(n) == code[offset..offset + q] && n.segs == Chop(code[offset + q + start..], count)
  {
    var s := code[offset..];
    ParseAs(s, q, form, count, start);
    PrefixBytes(s);
    assert code[offset..offset + q] == s[..q];
    assert code[offset + q + start..] == s[q + start..];
  }

  /** name_string_to_path: the path of the name string at the offset, with its terminator, in a buffer of
      the size that was computed for it. */
  method NameStringToPath(code: string, offset: nat) returns (r: Option<string>)
    requires offset <= |code|
    ensures Parse(code[offset..]).None? <==> r.None?
    ensures r.Some? ==> r.value == Print(Parse(code[offset..]).value.name) + "\0"
  {
    ghost var s := code[offset..];
    ParseNeeds(s);
    var prefix := CountPrefix(code, offset);
    if prefix == None {
      return None;
    }
    ghost var q := prefix.value;
    assert s[q..] == code[offset + q..];
    var head := ReadHead(code, offset + prefix.value);
    if head == None {
      return None;
    }
    var (form, namesegs, start) := head.value;
    var cursor := offset + prefix.value + start;
    if namesegs * 4 > |code| - cursor {
      return None;
    }
    PathPieces(code, offset, q, form, namesegs, start);
    var text := FillPath(code[offset..offset + prefix.value], code[cursor..], namesegs);
    r := Some(text);
  }

  /** The end of name_string_to_path: the buffer is allocated and filled. */
  method FillPath(prefix: string, code: string, count: nat) returns (text: string)
    requires 4 * count <= |code|
    ensures text == prefix + Dotted(Chop(code, count)) + "\0"
  {
    var namesegBytes := 0;
    if count != 0 {
      namesegBytes := count * 4;
      namesegBytes := namesegBytes + (count - 1);
    }
    var buf := new char[namesegBytes + |prefix| + 1];
    ghost var segs := Chop(code, count);
    ghost var whole := prefix + Tail(segs, 0);
    TailIs(segs, 0);
    assert segs[0..] == segs;
    DottedLength(segs);
    Append(buf, 0, prefix, whole);
    FillSegs(buf, |prefix|, code, count, segs, whole);
    text := buf[..];
  }

  /** The segments from the j-th on with dots in between, and the terminator. */
  ghost function Tail(segs: seq<Name>, j: nat): string
    decreases |segs| - j
  {
    if j >= |segs| then "\0"
    else if j + 1 == |segs| then segs[j] + "\0"
    else segs[j] + ("." + Tail(segs, j + 1))
  }

  lemma {:induction false} TailIs(segs: seq<Name>, j: nat)
    requires j <= |segs|
    ensures Tail(segs, j) == Dotted(segs[j..]) + "\0"
    decreases |segs| - j
  {
    if j < |segs| {
      assert segs[j..][1..] == segs[j + 1..];
      TailIs(segs, j + 1);
    }
  }

  /** One round of it. */
  method FillSeg(buf: array<char>, base: nat, seg: string, dot: bool, ghost rest: string, ghost whole: string)
    returns (next: nat)
    requires base <= |whole| == buf.Length && buf[..base] == whole[..base]
    requires whole[base..] == seg + if dot then "." + rest else rest
    modifies buf
    ensures next <= |whole| && buf[..next] == whole[..next] && whole[next..] == rest
  {
    Advance(whole, base, seg, if dot then "." + rest else rest);
    Append(buf, base, seg, whole);
    next := base + |seg|;
    if dot {
      Advance(whole, next, ".", rest);
      Append(buf, next, ".", whole);
      next := next + 1;
    }
  }

  /** The loop that copies the segments and puts in the dots. */
  method FillSegs(buf: array<char>, start: nat, code: string, count: nat, ghost segs: seq<Name>, ghost whole: string)
    requires 4 * count <= |code| && |segs| == count
    requires forall i :: 0 <= i < count ==> segs[i] == code[4 * i..4 * i + 4]
    requires start <= |whole| == buf.Length && buf[..start] == whole[..start] && whole[start..] == Tail(segs, 0)
    modifies buf
    ensures buf[..] == whole
  {
    var base: nat, cursor, left := start, 0, count;
    while left > 0
      invariant 0 <= left <= count && cursor == 4 * (count - left)
      invariant base <= |whole| == buf.Length && buf[..base] == whole[..base]
      invariant whole[base..] == Tail(segs, count - left)
      decreases left
    {
      ghost var i := count - left;
      left := left - 1;
      base := FillSeg(buf, base, code[cursor..cursor + 4], left > 0, Tail(segs, i + 1), whole);
      cursor := cursor + 4;
    }
    Advance(whole, base, "\0", "");
    Append(buf, base, "\0", whole);
    assert whole[..base + 1] == whole;
  }

  lemma Advance(whole: string, at: nat, piece: string, rest: string)
    requires at <= |whole| && whole[at..] == piece + rest
    ensures at + |piece| <= |whole| && whole[at..at + |piece|] == piece && whole[at + |piece|..] == rest
  {
  }
}
