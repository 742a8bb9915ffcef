/** AML name strings (section 20.2.2 of ACPI 6.5) and the text paths they are translated to. */
module NameStrings {
  import opened Options
  import opened NamespaceTree

  /** Code and paths are strings of bytes. */
  ghost predicate Bytes(s: string) { forall i :: 0 <= i < |s| ==> s[i] as int < 256 }

  const DUAL_NAME_PREFIX: char := '.'
  const MULTI_NAME_PREFIX: char := '/'
  const NULL_NAME: char := '\0'

  /** What a name string says: `carets` steps up, or from the root, then down the segments. */
  datatype NameString = NameString(carets: nat, rooted: bool, segs: seq<Name>)

  /** The production of NamePath that is used. */
  datatype Form = NullName | NameSeg | DualName | MultiName

  datatype Parsed = Parsed(name: NameString, form: Form, len: nat)

  predicate ValidNameByte(c: char) { c == '_' || 'A' <= c <= 'Z' || '0' <= c <= '9' }

  predicate ValidSeg(s: Name) { forall i :: 0 <= i < 4 ==> ValidNameByte(s[i]) }

  ghost predicate ValidSegs(segs: seq<Name>) { forall i :: 0 <= i < |segs| ==> ValidSeg(segs[i]) }

  function Repeat(c: char, n: nat): (r: string)
    ensures |r| == n && forall i :: 0 <= i < n ==> r[i] == c
  {
    seq(n, i => c)
  }

  function Join(segs: seq<Name>): (r: string)
    ensures |r| == 4 * |segs|
  {
    if segs == [] then "" else segs[0] + Join(segs[1..])
  }

  function Prefix(n: NameString): string { Repeat('^', n.carets) + if n.rooted then "\\" else "" }

  ghost predicate FormFits(n: NameString, form: Form) {
    match form
    case NullName => n.segs == []
    case NameSeg => |n.segs| == 1
    case DualName => |n.segs| == 2
    case MultiName => 1 <= |n.segs| <= 255
  }

  function Lead(form: Form, count: nat): (r: string)
    requires form.MultiName? ==> count <= 255
  {
    match form
    case NullName => "\0"
    case NameSeg => ""
    case DualName => "."
    case MultiName => "/" + [count as char]
  }

  /** The bytes of a name string. */
  function Encode(n: NameString, form: Form): string
    requires form.MultiName? ==> |n.segs| <= 255
  {
    Prefix(n) + (Lead(form, |n.segs|) + Join(n.segs))
  }

  // ------------------------------------------------------------------------------------ reading bytes

  function Carets(s: string): (k: nat)
    ensures k <= |s| && (forall i :: 0 <= i < k ==> s[i] == '^') && (k < |s| ==> s[k] != '^')
  {
    if s == "" || s[0] != '^' then 0 else 1 + Carets(s[1..])
  }

  function Chop(s: string, count: nat): (segs: seq<Name>)
    requires 4 * count <= |s|
    ensures |segs| == count
  {
    seq(count, i requires 0 <= i < count => s[4 * i..4 * i + 4])
  }

  /** The length of the prefix, when a byte follows it. */
  function PrefixLength(s: string): (r: Option<nat>)
    ensures r.Some? ==> r.value < |s|
  {
    var k := Carets(s);
    if k == |s| then None
    else if s[k] != '\\' then Some(k)
    else if k + 1 == |s| then None
    else Some(k + 1)
  }

  /** The form of the name path at the start of s, its number of segments and where they start. */
  function PathHead(s: string): (r: Option<(Form, nat, nat)>)
    requires s != ""
    ensures r.Some? ==> r.value.2 <= |s| && r.value.2 <= 2
  {
    if s[0] == DUAL_NAME_PREFIX then Some((DualName, 2, 1))
    else if s[0] == MULTI_NAME_PREFIX then
      if |s| == 1 || s[1] as int == 0 then None else Some((MultiName, s[1] as int, 2))
    else if s[0] == NULL_NAME then Some((NullName, 0, 1))
    else Some((NameSeg, 1, 0))
  }

  /** The name string at the start of some code; its segments are not validated. */
  function Parse(s: string): (r: Option<Parsed>)
    ensures r.Some? ==> r.value.len <= |s|
  {
    var q := PrefixLength(s);
    if q.None? then None
    else
      var head := PathHead(s[q.value..]);
      if head.None? then None else Assemble(s, q.value, head.value.0, head.value.1, head.value.2)
  }

  function Assemble(s: string, q: nat, form: Form, count: nat, start: nat): (r: Option<Parsed>)
    requires q + start <= |s|
    ensures r.Some? <==> q + start + 4 * count <= |s|
    ensures r.Some? ==> r.value.len <= |s|
  {
    if 4 * count > |s| - q - start then None
    else Some(Parsed(NameString(Carets(s), q > Carets(s), Chop(s[q + start..], count)), form, q + start + 4 * count))
  }

  lemma ChopStep(s: string, count: nat)
    requires 4 * count <= |s| && count > 0
    ensures Chop(s, count) == [s[..4]] + Chop(s[4..], count - 1)
  {
    assert forall i :: 0 < i < count ==> s[4..][4 * (i - 1)..4 * (i - 1) + 4] == s[4 * i..4 * i + 4];
  }

  lemma {:induction false} ChopJoin(segs: seq<Name>, rest: string)
    ensures Chop(Join(segs) + rest, |segs|) == segs
  {
    if segs != [] {
      assert Join(segs) + rest == segs[0] + (Join(segs[1..]) + rest);
      assert (Join(segs) + rest)[4..] == Join(segs[1..]) + rest;
      assert (Join(segs) + rest)[..4] == segs[0];
      ChopJoin(segs[1..], rest);
      ChopStep(Join(segs) + rest, |segs|);
    }
  }

  lemma {:induction false} JoinChop(s: string, count: nat)
    requires 4 * count <= |s|
    ensures Join(Chop(s, count)) == s[..4 * count]
  {
    if count > 0 {
      JoinChop(s[4..], count - 1);
      ChopStep(s, count);
      assert Chop(s, count)[1..] == Chop(s[4..], count - 1);
      assert s[..4 * count] == s[..4] + s[4..][..4 * (count - 1)];
    }
  }

  lemma {:induction false} CaretsOf(k: nat, rest: string)
    requires rest == "" || rest[0] != '^'
    ensures Carets(Repeat('^', k) + rest) == k
    decreases k
  {
    var s := Repeat('^', k) + rest;
    if k == 0 {
      assert s == rest;
    } else {
      assert s[1..] == Repeat('^', k - 1) + rest;
      CaretsOf(k - 1, rest);
    }
  }

  /** Reading a prefix that is followed by something else. */
  lemma PrefixOf(n: NameString, rest: string)
    requires rest != "" && (n.rooted || (rest[0] != '^' && rest[0] != '\\'))
    ensures PrefixLength(Prefix(n) + rest) == Some(|Prefix(n)|) && Carets(Prefix(n) + rest) == n.carets
    ensures (Prefix(n) + rest)[|Prefix(n)|..] == rest
  {
    var s, k, tail := Prefix(n) + rest, n.carets, (if n.rooted then "\\" else "") + rest;
    assert s == Repeat('^', k) + tail;
    CaretsOf(k, tail);
    assert k < |s| && s[k] == tail[0];
    assert |Prefix(n)| == k + if n.rooted then 1 else 0;
  }

  lemma LeadNotPrefix(n: NameString, form: Form, rest: string)
    requires FormFits(n, form) && ValidSegs(n.segs)
    ensures var s := Lead(form, |n.segs|) + Join(n.segs) + rest;
            s != "" && s[0] != '^' && s[0] != '\\'
    ensures var lead := Lead(form, |n.segs|);
            PathHead(lead + Join(n.segs) + rest) == Some((form, |n.segs|, |lead|))
  {
  }

  lemma ParseAs(s: string, q: nat, form: Form, count: nat, start: nat)
    requires PrefixLength(s) == Some(q) && PathHead(s[q..]) == Some((form, count, start))
    requires q + start + 4 * count <= |s|
    ensures Parse(s).Some? && Parse(s).value.form == form && Parse(s).value.len == q + start + 4 * count
    ensures Parse(s).value.name.carets == Carets(s) && (Parse(s).value.name.rooted <==> q > Carets(s))
    ensures Parse(s).value.name.segs == Chop(s[q + start..], count)
  {
  }

  /** Every name string is read back from its bytes, whatever follows them. */
  lemma ParseEncode(n: NameString, form: Form, rest: string)
    requires FormFits(n, form) && ValidSegs(n.segs)
    ensures Parse(Encode(n, form) + rest) == Some(Parsed(n, form, |Encode(n, form)|))
  {
    var lead := Lead(form, |n.segs|);
    var tail := lead + Join(n.segs) + rest;
    LeadNotPrefix(n, form, rest);
    var s, q := Encode(n, form) + rest, |Prefix(n)|;
    SplitFour(Prefix(n), lead, Join(n.segs), rest);
    PrefixOf(n, tail);
    ChopJoin(n.segs, rest);
    ParseAs(s, q, form, |n.segs|, |lead|);
  }

  lemma SplitFour(a: string, b: string, c: string, d: string)
    ensures a + (b + c) + d == a + (b + c + d)
    ensures (a + (b + c) + d)[|a| + |b|..] == c + d
  {
  }

  lemma PrefixBytes(s: string)
    requires PrefixLength(s).Some?
    ensures var q, k := PrefixLength(s).value, Carets(s);
            s[..q] == Repeat('^', k) + if q > k then "\\" else ""
  {
  }

  lemma HeadBytes(s: string)
    requires s != "" && PathHead(s).Some? && Bytes(s)
    ensures var (form, count, start) := PathHead(s).value;
            && (form.MultiName? ==> 1 <= count <= 255) && s[..start] == Lead(form, count)
            && (form.NullName? ==> count == 0) && (form.NameSeg? ==> count == 1) && (form.DualName? ==> count == 2)
  {
  }

  /** Only the bytes of a name string are read as one. */
  lemma EncodeParse(s: string)
    requires Parse(s).Some? && Bytes(s)
    ensures var p := Parse(s).value;
            FormFits(p.name, p.form) && s[..p.len] == Encode(p.name, p.form)
  {
    var q := PrefixLength(s).value;
    var (form, count, start) := PathHead(s[q..]).value;
    ParseAs(s, q, form, count, start);
    PrefixBytes(s);
    HeadBytes(s[q..]);
    JoinChop(s[q + start..], count);
    Slices(s, q, start, 4 * count);
  }

  lemma Slices(s: string, q: nat, start: nat, n: nat)
    requires q + start + n <= |s|
    ensures s[..q + start + n] == s[..q] + (s[q..][..start] + s[q + start..][..n])
  {
  }
}
