/** The two resolvers: `resolve_name_string` over AML bytes, in lookup mode, and
    `uacpi_namespace_node_resolve` over text. */
module NameResolution {
  import opened Options
  import opened NamespaceTree
  import opened NameStrings
  import opened TextPaths

  datatype Outcome = Found(node: Ptr) | NotFound | Invalid | AccessDenied

  lemma KidsStored(store: Store, g: Shape, root: Ptr, p: Ptr)
    requires WellFormed(store, g, root) && p in g.kids
    ensures p in store
    ensures forall i :: 0 <= i < |g.kids[p]| ==> g.kids[p][i] in store && g.kids[p][i] in g.kids && g.kids[p][i] != 0
  {
    assert NodeOk(store, g, root, p);
    forall i | 0 <= i < |g.kids[p]|
      ensures g.kids[p][i] in store && g.kids[p][i] in g.kids && g.kids[p][i] != 0
    {
      assert KidOk(store, g, root, p, i);
    }
  }

  /** The first child of p with the name, or null. */
  ghost function Kid(store: Store, g: Shape, root: Ptr, p: Ptr, name: Name): (r: Ptr)
    requires WellFormed(store, g, root) && p in g.kids
    ensures r != 0 ==> r in g.kids
  {
    KidsStored(store, g, root, p);
    FirstNamed(store, g.kids[p], name)
  }

  lemma ParentInstalled(store: Store, g: Shape, root: Ptr, p: Ptr)
    requires WellFormed(store, g, root) && p in g.kids
    ensures p in store && p in g.depth && (p == root <==> store[p].parent == 0)
    ensures p != root ==>
              store[p].parent in g.kids && store[p].parent in g.depth && g.depth[p] == g.depth[store[p].parent] + 1
  {
    assert NodeOk(store, g, root, p);
    if p != root {
      assert HasParent(store, g, p);
      var q := store[p].parent;
      var i :| 0 <= i < |g.kids[q]| && g.kids[q][i] == p;
      assert NodeOk(store, g, root, q) && KidOk(store, g, root, q, i);
    }
  }

  ghost function ParentOf(store: Store, g: Shape, root: Ptr, p: Ptr): (q: Ptr)
    requires WellFormed(store, g, root) && p in g.kids && p != root
    ensures q in g.kids && q in g.depth && p in g.depth && g.depth[p] == g.depth[q] + 1
  {
    ParentInstalled(store, g, root, p);
    store[p].parent
  }

  /** The node k levels above p, unless that is behind the root. */
  ghost function Climb(store: Store, g: Shape, root: Ptr, p: Ptr, k: nat): (r: Option<Ptr>)
    requires WellFormed(store, g, root) && p in g.kids
    ensures r.Some? ==> r.value in g.kids
    decreases k
  {
    if k == 0 then Some(p) else if p == root then None else Climb(store, g, root, ParentOf(store, g, root, p), k - 1)
  }

  lemma {:induction false} ClimbOn(store: Store, g: Shape, root: Ptr, p: Ptr, j: nat, c: Ptr, m: nat)
    requires WellFormed(store, g, root) && p in g.kids && Climb(store, g, root, p, j) == Some(c)
    ensures Climb(store, g, root, p, j + m) == Climb(store, g, root, c, m)
    decreases j
  {
    if j > 0 {
      ClimbOn(store, g, root, ParentOf(store, g, root, p), j - 1, c, m);
    }
  }

  /** The child with the name of the closest node above p that has one. */
  ghost function Above(store: Store, g: Shape, root: Ptr, p: Ptr, name: Name): (r: Ptr)
    requires WellFormed(store, g, root) && p in g.kids && p in g.depth
    ensures r != 0 ==> r in g.kids
    decreases g.depth[p]
  {
    if p == root then 0
    else
      var q := ParentOf(store, g, root, p);
      var r := Kid(store, g, root, q, name);
      if r != 0 then r else Above(store, g, root, q, name)
  }

  // ------------------------------------------------------------------------------- the search upwards

  /** The node k levels above p exists if and only if p is that deep, and the parent links lead to it. */
  lemma {:induction false} ClimbMeans(store: Store, g: Shape, root: Ptr, p: Ptr, k: nat)
    requires WellFormed(store, g, root) && p in g.kids && p in g.depth
    ensures Climb(store, g, root, p, k).Some? <==> k <= g.depth[p]
    ensures Climb(store, g, root, p, k).Some? ==>
              var q := Climb(store, g, root, p, k).value;
              q == Up(store, p, k) && q in g.depth && g.depth[q] + k == g.depth[p]
    decreases k
  {
    ParentInstalled(store, g, root, p);
    if k > 0 && p != root {
      ClimbMeans(store, g, root, ParentOf(store, g, root, p), k - 1);
    }
  }

  /** The first child with the name of the node k levels above p, null if there is none. */
  ghost function NamedAt(store: Store, g: Shape, root: Ptr, p: Ptr, name: Name, k: nat): Ptr
    requires WellFormed(store, g, root) && p in g.kids
  {
    match Climb(store, g, root, p, k) case None => 0 case Some(q) => Kid(store, g, root, q, name)
  }

  /** r is the first child with the name of the closest node that has one, among those `from` and more levels above p;
      it is null if and only if none of them has. */
  ghost predicate Closest(store: Store, g: Shape, root: Ptr, p: Ptr, name: Name, from: nat, r: Ptr)
    requires WellFormed(store, g, root) && p in g.kids
  {
    if r == 0 then forall k: nat :: k >= from ==> NamedAt(store, g, root, p, name, k) == 0
    else
      exists k: nat ::
        && k >= from && NamedAt(store, g, root, p, name, k) == r
        && forall i: nat :: from <= i < k ==> NamedAt(store, g, root, p, name, i) == 0
  }

  lemma {:induction false} AboveIsClosest(store: Store, g: Shape, root: Ptr, p: Ptr, name: Name)
    requires WellFormed(store, g, root) && p in g.kids && p in g.depth
    ensures Closest(store, g, root, p, name, 1, Above(store, g, root, p, name))
    decreases g.depth[p]
  {
    if p != root {
      var q := ParentOf(store, g, root, p);
      AboveIsClosest(store, g, root, q, name);
      ClosestOneUp(store, g, root, p, q, name, Above(store, g, root, q, name));
    }
  }

  /** What is closest among the nodes above q is so above p, a child of q, unless q itself has the name. */
  lemma ClosestOneUp(store: Store, g: Shape, root: Ptr, p: Ptr, q: Ptr, name: Name, r: Ptr)
    requires WellFormed(store, g, root) && p in g.kids && p != root && q == ParentOf(store, g, root, p)
    requires Closest(store, g, root, q, name, 1, r)
    ensures var c := Kid(store, g, root, q, name);
            Closest(store, g, root, p, name, 1, if c != 0 then c else r)
  {
    assert forall k: nat :: k > 0 ==> NamedAt(store, g, root, p, name, k) == NamedAt(store, g, root, q, name, k - 1);
    var c := Kid(store, g, root, q, name);
    if c != 0 {
      assert NamedAt(store, g, root, p, name, 1) == c;
    } else if r != 0 {
      var k: nat :| k >= 1 && NamedAt(store, g, root, q, name, k) == r
                    && forall i: nat :: 1 <= i < k ==> NamedAt(store, g, root, q, name, i) == 0;
      assert NamedAt(store, g, root, p, name, k + 1) == r;
    }
  }

  /** What a segment leads to from p: its first child of that name; where the search goes upwards, that of the closest
      node from p on that has one. */
  ghost predicate Sought(store: Store, g: Shape, root: Ptr, p: Ptr, name: Name, upward: bool, r: Ptr)
    requires WellFormed(store, g, root) && p in g.kids
  {
    if upward then Closest(store, g, root, p, name, 0, r) else r == NamedAt(store, g, root, p, name, 0)
  }

  lemma SeekMeans(store: Store, g: Shape, root: Ptr, p: Ptr, name: Name, upward: bool)
    requires WellFormed(store, g, root) && p in g.kids && p in g.depth
    ensures Sought(store, g, root, p, name, upward, Seek(store, g, root, p, name, upward))
  {
    var r := Seek(store, g, root, p, name, upward);
    AboveIsClosest(store, g, root, p, name);
    assert NamedAt(store, g, root, p, name, 0) == Kid(store, g, root, p, name);
    if upward && r != 0 && Kid(store, g, root, p, name) == 0 {
      var k: nat :| k >= 1 && NamedAt(store, g, root, p, name, k) == r
                    && forall i: nat :: 1 <= i < k ==> NamedAt(store, g, root, p, name, i) == 0;
    }
  }

  /** The i-th segment leads from nodes[i] to the next node, and is a good one if that is checked. */
  ghost predicate LeadsOn(store: Store, g: Shape, root: Ptr, nodes: seq<Ptr>, segs: seq<Name>, check: bool,
                          upward: bool, i: nat)
    requires WellFormed(store, g, root) && i + 1 < |nodes| && i < |segs|
  {
    && nodes[i] in g.kids && nodes[i + 1] != 0 && Sought(store, g, root, nodes[i], segs[i], upward, nodes[i + 1])
    && (check ==> ValidSeg(segs[i]))
  }

  /** The descent goes from node to node along the segments.  It finds the node that the last one leads to; it fails at
      the first segment that leads nowhere, or that is checked and bad. */
  lemma {:induction false} DescendMeans(store: Store, g: Shape, root: Ptr, p: Ptr, segs: seq<Name>, check: bool,
                                        upward: bool)
    returns (nodes: seq<Ptr>)
    requires WellFormed(store, g, root) && p in g.kids
    ensures 0 < |nodes| <= |segs| + 1 && nodes[0] == p && nodes[|nodes| - 1] in g.kids
    ensures forall i :: 0 <= i < |nodes| - 1 ==> LeadsOn(store, g, root, nodes, segs, check, upward, i)
    ensures var last := nodes[|nodes| - 1];
            match Descend(store, g, root, p, segs, check, upward)
            case Found(q) => |nodes| == |segs| + 1 && q == last
            case Invalid => |nodes| <= |segs| && check && !ValidSeg(segs[|nodes| - 1])
            case NotFound =>
              && |nodes| <= |segs| && (check ==> ValidSeg(segs[|nodes| - 1]))
              && Sought(store, g, root, last, segs[|nodes| - 1], upward, 0)
            case AccessDenied => false
    decreases |segs|
  {
    nodes := [p];
    if segs != [] && (check ==> ValidSeg(segs[0])) {
      ParentInstalled(store, g, root, p);
      SeekMeans(store, g, root, p, segs[0], upward);
      var r := Seek(store, g, root, p, segs[0], upward);
      if r != 0 {
        var rest := DescendMeans(store, g, root, r, segs[1..], check, upward);
        nodes := [p] + rest;
        forall i | 0 <= i < |nodes| - 1
          ensures LeadsOn(store, g, root, nodes, segs, check, upward, i)
        {
          if i > 0 {
            assert LeadsOn(store, g, root, rest, segs[1..], check, upward, i - 1);
          }
        }
      }
    }
  }

  /** A single segment without prefix means the first child with its name of the scope, or else of the closest node
      above that has one, to either resolver. */
  lemma SingleSegment(store: Store, g: Shape, root: Ptr, scope: Ptr, name: Name)
    requires WellFormed(store, g, root) && scope in g.kids && scope in g.depth && ValidSeg(name)
    ensures var n := NameString(0, false, [name]);
            var out := InAml(store, g, root, scope, n, NameSeg);
            && out == InText(store, g, root, scope, n, true, false)
            && (out.Found? || out == NotFound)
            && Closest(store, g, root, scope, name, 0, if out.Found? then out.node else 0)
            && (out.Found? ==> out.node != 0)
  {
    SeekMeans(store, g, root, scope, name, true);
    OneSeg(store, g, root, scope, name, true);
    ValidDescend(store, g, root, scope, [name], true);
  }

  /** Down the segments from p, looking above p for a segment that is not there if `upward`, and rejecting
      bad segments if `check`. */
  ghost function Descend(store: Store, g: Shape, root: Ptr, p: Ptr, segs: seq<Name>, check: bool,
                         upward: bool): (r: Outcome)
    requires WellFormed(store, g, root) && p in g.kids
    ensures r.Found? ==> r.node in g.kids
    decreases |segs|
  {
    if segs == [] then Found(p)
    else if check && !ValidSeg(segs[0]) then Invalid
    else
      var r := Seek(store, g, root, p, segs[0], upward);
      if r == 0 then NotFound else Descend(store, g, root, r, segs[1..], check, upward)
  }

  ghost function Seek(store: Store, g: Shape, root: Ptr, p: Ptr, name: Name, upward: bool): (r: Ptr)
    requires WellFormed(store, g, root) && p in g.kids
    ensures r != 0 ==> r in g.kids
  {
    var r := Kid(store, g, root, p, name);
    if r == 0 && upward then Above(store, g, root, p, name) else r
  }

  /** Where the prefix leads. */
  ghost function Start(store: Store, g: Shape, root: Ptr, scope: Ptr, n: NameString): (r: Option<Ptr>)
    requires WellFormed(store, g, root) && scope in g.kids
    ensures r.Some? ==> r.value in g.kids
  {
    if !n.rooted then Climb(store, g, root, scope, n.carets) else if n.carets > 0 then None else Some(root)
  }

  predicate Bare(n: NameString) { n.carets == 0 && !n.rooted }

  /** What the AML resolver makes of a name string. */
  ghost function InAml(store: Store, g: Shape, root: Ptr, scope: Ptr, n: NameString, form: Form): Outcome
    requires WellFormed(store, g, root) && scope in g.kids
  {
    match Start(store, g, root, scope, n)
    case None => Invalid
    case Some(p) =>
      if form.NullName? && Bare(n) then Invalid
      else Descend(store, g, root, p, n.segs, true, form.NameSeg? && Bare(n))
  }

  /** What the text resolver makes of it. */
  ghost function InText(store: Store, g: Shape, root: Ptr, scope: Ptr, n: NameString,
                        mayLookAbove: bool, permanentOnly: bool): Outcome
    requires WellFormed(store, g, root) && scope in g.kids
  {
    match Start(store, g, root, scope, n)
    case None => Invalid
    case Some(p) =>
      var r := Descend(store, g, root, p, n.segs, false, mayLookAbove && Bare(n) && |n.segs| == 1);
      if r.Found? && r.node in store && store[r.node].temporary && permanentOnly then AccessDenied else r
  }

  /** Without the search upwards every segment leads one level down. */
  lemma {:induction false} DescendGoesDown(store: Store, g: Shape, root: Ptr, p: Ptr, segs: seq<Name>, check: bool)
    requires WellFormed(store, g, root) && p in g.kids
    ensures var out := Descend(store, g, root, p, segs, check, false);
            out.Found? ==> Climb(store, g, root, out.node, |segs|) == Some(p)
    decreases |segs|
  {
    var out := Descend(store, g, root, p, segs, check, false);
    if segs != [] && out.Found? {
      var r := Kid(store, g, root, p, segs[0]);
      DescendGoesDown(store, g, root, r, segs[1..], check);
      KidsParent(store, g, root, p, r);
      ClimbOn(store, g, root, out.node, |segs| - 1, r, 1);
    }
  }

  lemma KidsParent(store: Store, g: Shape, root: Ptr, p: Ptr, r: Ptr)
    requires WellFormed(store, g, root) && p in g.kids && r in g.kids[p]
    ensures r in g.kids && r != root && ParentOf(store, g, root, r) == p
  {
    assert NodeOk(store, g, root, p);
    var i :| 0 <= i < |g.kids[p]| && g.kids[p][i] == r;
    assert KidOk(store, g, root, p, i);
  }

  /** A path with a prefix or with several segments is not looked for above, and no text path is if that is not asked
      for: what it means lies below the node that the prefix leads to, as many levels as it has segments. */
  lemma PathsGoDown(store: Store, g: Shape, root: Ptr, scope: Ptr, n: NameString, form: Form, mayLookAbove: bool,
                    permanentOnly: bool)
    requires WellFormed(store, g, root) && scope in g.kids && FormFits(n, form)
    ensures var out := InAml(store, g, root, scope, n, form);
            out.Found? && !(Bare(n) && |n.segs| == 1) ==>
              Climb(store, g, root, out.node, |n.segs|) == Start(store, g, root, scope, n)
    ensures var out := InText(store, g, root, scope, n, mayLookAbove, permanentOnly);
            out.Found? && !(mayLookAbove && Bare(n) && |n.segs| == 1) ==>
              Climb(store, g, root, out.node, |n.segs|) == Start(store, g, root, scope, n)
  {
    if Start(store, g, root, scope, n).Some? {
      var p := Start(store, g, root, scope, n).value;
      DescendGoesDown(store, g, root, p, n.segs, true);
      DescendGoesDown(store, g, root, p, n.segs, false);
    }
  }

  /** A prefix leads nowhere exactly when carets come before a backslash or lead behind the root. */
  lemma PrefixFailsExactly(store: Store, g: Shape, root: Ptr, scope: Ptr, n: NameString)
    requires WellFormed(store, g, root) && scope in g.kids && scope in g.depth
    ensures Start(store, g, root, scope, n) == None <==>
            if n.rooted then n.carets > 0 else n.carets > g.depth[scope]
    ensures n.rooted && n.carets == 0 ==> Start(store, g, root, scope, n) == Some(root)
    ensures !n.rooted && n.carets <= g.depth[scope] ==>
              Start(store, g, root, scope, n) == Some(Up(store, scope, n.carets))
  {
    ClimbMeans(store, g, root, scope, n.carets);
  }

  /** Whoever asks for permanent nodes only is denied exactly the temporary ones. */
  lemma DeniedExactly(store: Store, g: Shape, root: Ptr, scope: Ptr, n: NameString, mayLookAbove: bool)
    requires WellFormed(store, g, root) && scope in g.kids
    ensures var any := InText(store, g, root, scope, n, mayLookAbove, false);
            var out := InText(store, g, root, scope, n, mayLookAbove, true);
            && (any.Found? ==> any.node in store) && any != AccessDenied
            && out == if any.Found? && store[any.node].temporary then AccessDenied else any
  {
    match Start(store, g, root, scope, n) {
      case None =>
      case Some(p) =>
        var nodes := DescendMeans(store, g, root, p, n.segs, false, mayLookAbove && Bare(n) && |n.segs| == 1);
        ParentInstalled(store, g, root, nodes[|nodes| - 1]);
    }
  }

  // -------------------------------------------------------------------------------------- agreement

  lemma {:induction false} ValidDescend(store: Store, g: Shape, root: Ptr, p: Ptr, segs: seq<Name>, upward: bool)
    requires WellFormed(store, g, root) && p in g.kids && ValidSegs(segs)
    ensures Descend(store, g, root, p, segs, true, upward) == Descend(store, g, root, p, segs, false, upward)
    decreases |segs|
  {
    if segs != [] {
      var r := Seek(store, g, root, p, segs[0], upward);
      if r != 0 {
        ValidDescend(store, g, root, r, segs[1..], upward);
      }
    }
  }

  lemma OneSeg(store: Store, g: Shape, root: Ptr, p: Ptr, name: Name, upward: bool)
    requires WellFormed(store, g, root) && p in g.kids
    ensures Descend(store, g, root, p, [name], false, upward)
            == var r := Seek(store, g, root, p, name, upward); if r == 0 then NotFound else Found(r)
  {
  }

  /** The name strings on which the resolvers part. */
  ghost predicate Differ(store: Store, g: Shape, root: Ptr, scope: Ptr, n: NameString, form: Form)
    requires WellFormed(store, g, root) && scope in g.kids && scope in g.depth && FormFits(n, form)
  {
    && Bare(n)
    && (form.NullName? ||
        (form.MultiName? && |n.segs| == 1
         && Kid(store, g, root, scope, n.segs[0]) == 0 && Above(store, g, root, scope, n.segs[0]) != 0))
  }

  /** On the same tree and scope both resolvers give the same answer for every name string with valid
      segments, except a bare null name and a one-segment multi name that only exists further up. */
  lemma ResolversAgree(store: Store, g: Shape, root: Ptr, scope: Ptr, n: NameString, form: Form)
    requires WellFormed(store, g, root) && scope in g.kids && scope in g.depth && FormFits(n, form) && ValidSegs(n.segs)
    ensures InAml(store, g, root, scope, n, form) == InText(store, g, root, scope, n, true, false)
            <==> !Differ(store, g, root, scope, n, form)
  {
    match Start(store, g, root, scope, n) {
      case None =>
      case Some(p) =>
        ValidDescend(store, g, root, p, n.segs, form.NameSeg? && Bare(n));
        if |n.segs| == 1 {
          var name := n.segs[0];
          OneSeg(store, g, root, p, name, true);
          OneSeg(store, g, root, p, name, false);
          assert n.segs == [name];
        }
    }
  }

  /** What the AML resolver makes of some code. */
  ghost function OfCode(store: Store, g: Shape, root: Ptr, scope: Ptr, s: string): Outcome
    requires WellFormed(store, g, root) && scope in g.kids
  {
    match Parse(s) case None => Invalid case Some(p) => InAml(store, g, root, scope, p.name, p.form)
  }

  /** What comes of turning the code into a path first. */
  ghost function OfPath(store: Store, g: Shape, root: Ptr, scope: Ptr, s: string): Outcome
    requires WellFormed(store, g, root) && scope in g.kids
  {
    match Parse(s)
    case None => Invalid
    case Some(p) => InText(store, g, root, scope, Read(CString(Print(p.name) + "\0")), true, false)
  }

  lemma PrintHasNoNul(n: NameString)
    requires ValidSegs(n.segs)
    ensures CString(Print(n) + "\0") == Print(n)
  {
    DottedHasNoNul(n.segs);
    CStringOf(Print(n));
  }

  lemma ResolversAgreeOnCode(store: Store, g: Shape, root: Ptr, scope: Ptr, s: string)
    requires WellFormed(store, g, root) && scope in g.kids && scope in g.depth && Bytes(s)
    requires Parse(s).Some? ==> ValidSegs(Parse(s).value.name.segs)
    ensures Parse(s).Some? ==> FormFits(Parse(s).value.name, Parse(s).value.form)
    ensures OfCode(store, g, root, scope, s) == OfPath(store, g, root, scope, s)
            <==> Parse(s).Some? ==> !Differ(store, g, root, scope, Parse(s).value.name, Parse(s).value.form)
  {
    if Parse(s).Some? {
      var p := Parse(s).value;
      EncodeParse(s);
      PrintHasNoNul(p.name);
      ReadPrint(p.name);
      ResolversAgree(store, g, root, scope, p.name, p.form);
    }
  }
}
