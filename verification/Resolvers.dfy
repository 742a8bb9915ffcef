/** The resolvers as the loops they are, proved against `NameResolution`. */
module Resolvers {
  import opened Options
  import opened NamespaceTree
  import opened NameStrings
  import opened TextPaths
  import opened NameResolution

  /** How the prefix loop ends: at the end of the input, with a prefix that leads nowhere, or in front of
      the segments. */
  datatype PrefixEnd = RanOut | BadPrefix | AtPath

  /** Where the carets at the start of s lead. */
  ghost function CaretsLead(ns: Namespace, scope: Ptr, s: string): Option<Ptr>
    requires ns.Valid() && scope in ns.shape.kids
    reads ns
  {
    Climb(ns.store, ns.shape, ns.root, scope, Carets(s))
  }

  /** The loop over the prefix characters with which both resolvers start. */
  method FollowPrefix(ns: Namespace, scope: Ptr, text: string, offset: nat)
    returns (end: PrefixEnd, node: Ptr, cursor: nat)
    requires ns.Valid() && scope in ns.shape.kids && offset <= |text|
    ensures var s := text[offset..];
            var k := Carets(s);
            var lead := CaretsLead(ns, scope, s);
            var rooted := k < |s| && s[k] == '\\';
            && (end == BadPrefix <==> lead == None || (rooted && k > 0))
            && (end == RanOut ==> k == |s| && lead == Some(node) && cursor == |text|)
            && (end == AtPath ==> k < |s| && cursor == offset + (if rooted then k + 1 else k)
                                  && Some(node) == if rooted then Some(ns.root) else lead)
  {
    ghost var s := text[offset..];
    var prev := '\0';
    node, cursor := scope, offset;
    while true
      invariant offset <= cursor <= |text| && node in ns.shape.kids
      invariant forall i :: 0 <= i < cursor - offset ==> s[i] == '^'
      invariant prev == if cursor > offset then '^' else '\0'
      invariant Climb(ns.store, ns.shape, ns.root, scope, cursor - offset) == Some(node)
      decreases |text| - cursor
    {
      ghost var k := cursor - offset;
      if cursor == |text| {
        CaretsIs(s, k);
        return RanOut, node, cursor;
      }
      assert s[k] == text[cursor];
      if text[cursor] == '\\' {
        CaretsIs(s, k);
        if prev == '^' {
          return BadPrefix, node, cursor;
        }
        return AtPath, ns.root, cursor + 1;
      }
      if text[cursor] != '^' {
        CaretsIs(s, k);
        return AtPath, node, cursor;
      }
      ClimbOn(ns.store, ns.shape, ns.root, scope, k, node, 1);
      if node == ns.root {
        CaretsAtLeast(s, k + 1);
        ClimbOn(ns.store, ns.shape, ns.root, scope, k, node, Carets(s) - k);
        return BadPrefix, node, cursor;
      }
      ParentInstalled(ns.store, ns.shape, ns.root, node);
      node := ns.store[node].parent;
      prev := '^';
      cursor := cursor + 1;
    }
  }

  lemma CaretsAtLeast(s: string, k: nat)
    requires k <= |s| && forall i :: 0 <= i < k ==> s[i] == '^'
    ensures Carets(s) >= k
  {
  }

  /** The search above a scope in the AML resolver. */
  method LookAbove(ns: Namespace, scope: Ptr, name: Name) returns (node: Ptr)
    requires ns.Valid() && scope in ns.shape.kids && scope in ns.shape.depth
    ensures node == Above(ns.store, ns.shape, ns.root, scope, name)
    ensures Closest(ns.store, ns.shape, ns.root, scope, name, 1, node)
  {
    AboveIsClosest(ns.store, ns.shape, ns.root, scope, name);
    node := 0;
    var parent := scope;
    while node == 0 && parent != ns.root
      invariant parent in ns.shape.kids && parent in ns.shape.depth
      invariant Above(ns.store, ns.shape, ns.root, scope, name)
             == if node != 0 then node else Above(ns.store, ns.shape, ns.root, parent, name)
      decreases ns.shape.depth[parent]
    {
      ParentInstalled(ns.store, ns.shape, ns.root, parent);
      node := parent;
      parent := ns.store[node].parent;
      KidsStored(ns.store, ns.shape, ns.root, parent);
      node := ns.FindSubNode(parent, name);
    }
  }

  /** The search above a scope in the text resolver. */
  method SearchAbove(ns: Namespace, scope: Ptr, name: Name) returns (node: Ptr)
    requires ns.Valid() && scope in ns.shape.kids && scope in ns.shape.depth
    ensures node == Above(ns.store, ns.shape, ns.root, scope, name)
    ensures Closest(ns.store, ns.shape, ns.root, scope, name, 1, node)
  {
    AboveIsClosest(ns.store, ns.shape, ns.root, scope, name);
    ParentInstalled(ns.store, ns.shape, ns.root, scope);
    var parent := ns.store[scope].parent;
    ghost var below := scope;
    while parent != 0
      invariant below in ns.shape.kids && below in ns.shape.depth
      invariant below in ns.store && parent == ns.store[below].parent
      invariant parent == 0 <==> below == ns.root
      invariant Above(ns.store, ns.shape, ns.root, scope, name) == Above(ns.store, ns.shape, ns.root, below, name)
      decreases ns.shape.depth[below]
    {
      ParentInstalled(ns.store, ns.shape, ns.root, below);
      KidsStored(ns.store, ns.shape, ns.root, parent);
      node := ns.FindSubNode(parent, name);
      if node != 0 {
        return;
      }
      below := parent;
      ParentInstalled(ns.store, ns.shape, ns.root, below);
      parent := ns.store[parent].parent;
    }
    node := 0;
  }

  /** The loop over the segments of an AML name string. */
  method FollowSegs(ns: Namespace, start: Ptr, code: string, offset: nat, count: nat, single: bool)
    returns (out: Outcome, cursor: nat)
    requires ns.Valid() && start in ns.shape.kids && offset + 4 * count <= |code|
    ensures out == Descend(ns.store, ns.shape, ns.root, start, Chop(code[offset..], count), true, single)
    ensures out != Invalid ==> cursor == offset + 4 * count
  {
    cursor := offset;
    var node, left := start, count;
    ghost var segs := Chop(code[offset..], count);
    assert segs[0..] == segs;
    while left > 0
      invariant 0 <= left <= count && cursor == offset + 4 * (count - left) && node in ns.shape.kids
      invariant Descend(ns.store, ns.shape, ns.root, start, segs, true, single)
             == Descend(ns.store, ns.shape, ns.root, node, segs[count - left..], true, single)
      decreases left
    {
      ghost var i := count - left;
      var name: Name := code[cursor..cursor + 4];
      assert segs[i..][0] == segs[i] == name;
      assert segs[i..][1..] == segs[i + 1..];
      if !ValidSeg(name) {
        return Invalid, cursor;
      }
      var parent := node;
      KidsStored(ns.store, ns.shape, ns.root, parent);
      ParentInstalled(ns.store, ns.shape, ns.root, parent);
      node := ns.FindSubNode(parent, name);
      if single && node == 0 {
        node := LookAbove(ns, parent, name);
      }
      assert node == Seek(ns.store, ns.shape, ns.root, parent, name, single);
      if node == 0 {
        return NotFound, cursor + left * 4;
      }
      cursor := cursor + 4;
      left := left - 1;
    }
    assert segs[count..] == [];
    out := Found(node);
  }

  /** What comes of the name path at the start of s, from the node that the prefix leads to. */
  ghost function OfNamePath(ns: Namespace, start: Ptr, s: string, bare: bool): Outcome
    requires ns.Valid() && start in ns.shape.kids && s != ""
    reads ns
  {
    var head := PathHead(s);
    if head.None? then Invalid
    else
      var (form, count, lead) := head.value;
      if lead + 4 * count > |s| || (form.NullName? && bare) then Invalid
      else Descend(ns.store, ns.shape, ns.root, start, Chop(s[lead..], count), true, form.NameSeg? && bare)
  }

  /** resolve_name_string after the prefix. */
  method ResolvePath(ns: Namespace, start: Ptr, code: string, offset: nat, bare: bool) returns (out: Outcome, next: nat)
    requires ns.Valid() && start in ns.shape.kids && offset < |code|
    ensures out == OfNamePath(ns, start, code[offset..], bare)
    ensures out != Invalid ==>
              var head := PathHead(code[offset..]).value;
              next == offset + head.2 + 4 * head.1
  {
    var head := ReadHead(code, offset);
    if head == None {
      return Invalid, offset;
    }
    var (form, namesegs, lead) := head.value;
    var single := bare && !form.DualName? && !form.MultiName?;
    next := offset + lead;
    if form.NullName? {
      if single {
        return Invalid, offset;
      }
      return Found(start), next;
    }
    if namesegs * 4 > |code| - next {
      return Invalid, offset;
    }
    assert code[offset..][lead..] == code[next..];
    out, next := FollowSegs(ns, start, code, next, namesegs, single);
  }

  lemma OfCodeIs(ns: Namespace, scope: Ptr, s: string, q: nat, start: Ptr)
    requires ns.Valid() && scope in ns.shape.kids && start in ns.shape.kids
    requires PrefixLength(s) == Some(q)
    requires Start(ns.store, ns.shape, ns.root, scope, NameString(Carets(s), q > Carets(s), [])) == Some(start)
    ensures OfNamePath(ns, start, s[q..], q == 0) == OfCode(ns.store, ns.shape, ns.root, scope, s)
    ensures OfNamePath(ns, start, s[q..], q == 0) != Invalid ==>
              && Parse(s).Some? && PathHead(s[q..]).Some?
              && Parse(s).value.len == q + PathHead(s[q..]).value.2 + 4 * PathHead(s[q..]).value.1
  {
    if PathHead(s[q..]).Some? {
      var (form, count, lead) := PathHead(s[q..]).value;
      if q + lead + 4 * count <= |s| {
        ParseAs(s, q, form, count, lead);
        assert s[q..][lead..] == s[q + lead..];
      }
    }
  }

  /** resolve_name_string in lookup mode, and the code offset it leaves. */
  method ResolveNameString(ns: Namespace, scope: Ptr, code: string, offset: nat) returns (out: Outcome, next: nat)
    requires ns.Valid() && scope in ns.shape.kids && offset <= |code|
    ensures out == OfCode(ns.store, ns.shape, ns.root, scope, code[offset..])
    ensures out == Invalid ==> next == offset
    ensures out != Invalid ==> Parse(code[offset..]).Some? && next == offset + Parse(code[offset..]).value.len
  {
    var end, start, cursor := FollowPrefix(ns, scope, code, offset);
    if end != AtPath || cursor == |code| {
      return Invalid, offset;
    }
    OfCodeIs(ns, scope, code[offset..], cursor - offset, start);
    assert code[offset..][cursor - offset..] == code[cursor..];
    out, next := ResolvePath(ns, start, code, cursor, cursor == offset);
    if out == Invalid {
      next := offset;
    }
  }

  /** segment_to_name: up to four characters in front of a dot, padded. */
  method SegmentToName(path: string, start: nat) returns (name: Name, cursor: nat)
    requires start <= |path|
    ensures var u := path[start..];
            var k := SegLength(u, 4);
            name == Pad(u[..k]) && cursor == start + k
  {
    cursor := start;
    var text := "";
    ghost var u := path[start..];
    ghost var k := SegLength(u, 4);
    for offset := 0 to 4
      invariant cursor == start + if offset < k then offset else k
      invariant text == if offset <= k then u[..offset] else u[..k] + Repeat('_', offset - k)
    {
      if cursor == |path| || path[cursor] == '.' {
        text := text + "_";
      } else {
        assert u[offset] == path[cursor];
        text := text + [path[cursor]];
        cursor := cursor + 1;
      }
    }
    name := text;
  }

  lemma SkipDotAt(path: string, start: nat)
    requires start < |path|
    ensures SkipDot(path[start..]) == path[if path[start] == '.' then start + 1 else start..]
  {
  }

  lemma SegmentAt(path: string, start: nat, cursor: nat, k: nat, name: Name, end: nat)
    requires start < |path| && cursor == if path[start] == '.' then start + 1 else start
    requires k == SegLength(path[cursor..], 4) && end == cursor + k && name == Pad(path[cursor..][..k])
    ensures start < end <= |path| && Segs(path[start..]) == [name] + Segs(path[end..])
    ensures |Segs(path[start..])| == 1 <==> end == |path|
  {
    SkipDotAt(path, start);
    assert path[cursor..][k..] == path[end..];
  }

  /** The next segment of a path, past a dot in front of it. */
  method NextSegment(path: string, start: nat) returns (name: Name, cursor: nat)
    requires start < |path|
    ensures start < cursor <= |path| && Segs(path[start..]) == [name] + Segs(path[cursor..])
    ensures |Segs(path[start..])| == 1 <==> cursor == |path|
  {
    cursor := start;
    if path[cursor] == '.' {
      cursor := cursor + 1;
    }
    ghost var from := cursor;
    name, cursor := SegmentToName(path, cursor);
    SegmentAt(path, start, from, cursor - from, name, cursor);
  }

  /** The only segment of a path is not below p, and is to be looked for above. */
  ghost predicate GoesAbove(ns: Namespace, p: Ptr, segs: seq<Name>)
    requires ns.Valid() && p in ns.shape.kids
    reads ns
  {
    |segs| == 1 && Kid(ns.store, ns.shape, ns.root, p, segs[0]) == 0
  }

  /** The segment loop of uacpi_namespace_node_resolve, from the node that the prefix leads to.  Without a parent,
      an orphan's search, the loop strays when it is to look above. */
  method FollowText(ns: Namespace, scope: Ptr, start: Ptr, path: string, offset: nat, bare: bool, mayLookAbove: bool,
                    orphan: bool)
    returns (node: Ptr, strayed: bool)
    requires ns.Valid() && scope in ns.shape.kids && scope in ns.shape.depth
    requires start in ns.shape.kids && offset <= |path|
    requires (bare ==> start == scope) && (orphan ==> scope == ns.root)
    ensures node == 0 || node in ns.shape.kids
    ensures strayed <==> orphan && mayLookAbove && bare && GoesAbove(ns, start, Segs(path[offset..]))
    ensures (if node == 0 then NotFound else Found(node))
         == var segs := Segs(path[offset..]);
            Descend(ns.store, ns.shape, ns.root, start, segs, false, mayLookAbove && bare && |segs| == 1)
  {
    var single, cursor := bare, offset;
    node, strayed := start, false;
    ghost var segs := Segs(path[offset..]);
    ghost var up := mayLookAbove && bare && |segs| == 1;
    KidsStored(ns.store, ns.shape, ns.root, node);
    while cursor < |path|
      invariant offset <= cursor <= |path| && node in ns.shape.kids && node != 0
      invariant Descend(ns.store, ns.shape, ns.root, start, segs, false, up)
             == Descend(ns.store, ns.shape, ns.root, node, Segs(path[cursor..]), false, up)
      invariant if cursor == offset then node == start && single == bare else cursor < |path| ==> !single && |segs| != 1
      decreases |path| - cursor
    {
      ghost var t := path[cursor..];
      var name: Name;
      name, cursor := NextSegment(path, cursor);
      if cursor != |path| && single {
        single := false;
      }
      KidsStored(ns.store, ns.shape, ns.root, node);
      var parent := node;
      node := ns.FindSubNode(parent, name);
      if node == 0 {
        if mayLookAbove && single {
          if orphan {
            strayed := true;
          } else {
            node := SearchAbove(ns, scope, name);
          }
        }
        LastSeg(ns, parent, t, name, node, up);
        return;
      }
      KidsStored(ns.store, ns.shape, ns.root, parent);
    }
    assert path[|path|..] == "";
  }

  /** A segment that is not below p ends the search, found above or not. */
  lemma LastSeg(ns: Namespace, p: Ptr, t: string, name: Name, node: Ptr, up: bool)
    requires ns.Valid() && p in ns.shape.kids && t != "" && Segs(t)[0] == name
    requires Kid(ns.store, ns.shape, ns.root, p, name) == 0 && node == Seek(ns.store, ns.shape, ns.root, p, name, up)
    requires up ==> |Segs(t)| == 1
    ensures Descend(ns.store, ns.shape, ns.root, p, Segs(t), false, up) == if node == 0 then NotFound else Found(node)
  {
  }

  /** uacpi_namespace_node_resolve.  A null parent stands for the root, but looking above it follows the null pointer:
      the call strays for exactly the single unprefixed segments that are not below the root. */
  method ResolveText(ns: Namespace, parent: Ptr, path: string, mayLookAbove: bool, permanentOnly: bool)
    returns (out: Outcome, strayed: bool)
    requires ns.Valid() && (parent == 0 || parent in ns.shape.kids)
    ensures strayed <==> parent == 0 && mayLookAbove && Bare(Read(path)) && GoesAbove(ns, ns.root, Read(path).segs)
    ensures var scope := if parent == 0 then ns.root else parent;
            !strayed ==> out == InText(ns.store, ns.shape, ns.root, scope, Read(path), mayLookAbove, permanentOnly)
  {
    strayed := false;
    var scope := if parent == 0 then ns.root else parent;
    ParentInstalled(ns.store, ns.shape, ns.root, scope);
    var end, start, cursor := FollowPrefix(ns, scope, path, 0);
    assert path[0..] == path;
    if end == BadPrefix {
      return Invalid, false;
    }
    if end == AtPath {
      start, strayed := FollowText(ns, scope, start, path, cursor, cursor == 0, mayLookAbove, parent == 0);
      if start == 0 {
        return NotFound, strayed;
      }
    } else {
      assert path[cursor..] == "";
    }
    ParentInstalled(ns.store, ns.shape, ns.root, start);
    if ns.store[start].temporary && permanentOnly {
      return AccessDenied, strayed;
    }
    out := Found(start);
  }
}
