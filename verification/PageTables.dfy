/** The four-level page tables of `vmm.cpp` as a tree of tables, and the flat map that they stand for. */
module PageTables {
  import opened Arithmetic
  import opened Options
  import opened PageAllocator

  /** The tables by their higher-half address: 512 entries each. */
  type Tables = map<nat, seq<nat>>

  const PAGE_PRESENT: nat := 1
  const PAGE_RW: nat := 2
  const VIRTUAL_PAGES: nat := 0x10_0000_0000   // 2^36 pages of 4 KiB make up the 48-bit space

  predicate Present(e: nat) { e % 2 == 1 }

  /** The frame address in an entry. */
  function Frame(e: nat): nat { e / PAGE_SIZE * PAGE_SIZE }

  /** The pages under a table of level l; level 0 is a page. */
  function Size(l: nat): nat {
    if l == 0 then 1 else if l == 1 then 512 else if l == 2 then 0x4_0000 else if l == 3 then 0x800_0000
    else VIRTUAL_PAGES
  }

  /** The entry for page v in a table of level l. */
  function Index(l: nat, v: nat): (i: nat)
    requires 1 <= l
    ensures i < 512
  {
    v / Size(l - 1) % 512
  }

  /** The place of a table in the tree: it serves the pages whose number divided by Size(level) is prefix. */
  datatype Home = Home(level: nat, prefix: nat)

  lemma PrefixStep(l: nat, v: nat)
    requires 1 <= l < 4
    ensures v / Size(l) == v / Size(l + 1) * 512 + Index(l + 1, v)
  {
  }

  lemma PrefixTop(v: nat)
    requires v < VIRTUAL_PAGES
    ensures v / Size(4) == 0
  {
  }

  lemma SamePage(v: nat, w: nat)
    requires v / Size(1) == w / Size(1) && Index(1, v) == Index(1, w)
    ensures v == w
  {
  }

  /** A present entry of an upper table leads to the table whose home it is. */
  ghost predicate EntryOk(tables: Tables, home: map<nat, Home>, h: Home, i: nat, e: nat) {
    Present(e) && h.level > 1 ==>
      ToVirtual(Frame(e)) in home && home[ToVirtual(Frame(e))] == Home(h.level - 1, h.prefix * 512 + i)
  }

  ghost predicate TableOk(tables: Tables, home: map<nat, Home>, t: nat) {
    && t in tables && t in home && |tables[t]| == 512 && 1 <= home[t].level <= 4
    && forall i {:trigger EntryOk(tables, home, home[t], i, tables[t][i])} ::
         0 <= i < 512 ==> EntryOk(tables, home, home[t], i, tables[t][i])
  }

  /** The tables form a tree of distinct frames. */
  ghost predicate Tree(tables: Tables, home: map<nat, Home>, root: nat) {
    && root in home && home[root] == Home(4, 0) && tables.Keys == home.Keys
    && forall t {:trigger TableOk(tables, home, t)} :: t in home ==> TableOk(tables, home, t)
  }

  /** The table of level l that serves page v, if there is one: the walk of section 4.5 of the Intel SDM,
      volume 3A. */
  function TableFor(tables: Tables, root: nat, l: nat, v: nat): Option<nat>
    requires 1 <= l <= 4
    decreases 4 - l
  {
    if l == 4 then Some(root)
    else
      match TableFor(tables, root, l + 1, v)
      case None => None
      case Some(t) =>
        if t in tables && |tables[t]| == 512 && Present(tables[t][Index(l + 1, v)])
        then Some(ToVirtual(Frame(tables[t][Index(l + 1, v)])))
        else None
  }

  /** The leaf entry of page v, if it is mapped. */
  function WalkPage(tables: Tables, root: nat, v: nat): Option<nat> {
    match TableFor(tables, root, 1, v)
    case None => None
    case Some(t) =>
      if t in tables && |tables[t]| == 512 && Present(tables[t][Index(1, v)]) then Some(tables[t][Index(1, v)])
      else None
  }

  lemma {:induction false} TableIsHome(tables: Tables, home: map<nat, Home>, root: nat, l: nat, v: nat)
    requires Tree(tables, home, root) && 1 <= l <= 4 && v < VIRTUAL_PAGES && TableFor(tables, root, l, v).Some?
    ensures var t := TableFor(tables, root, l, v).value;
            TableOk(tables, home, t) && home[t] == Home(l, v / Size(l))
    decreases 4 - l
  {
    if l == 4 {
      PrefixTop(v);
      assert TableOk(tables, home, root);
    } else {
      TableIsHome(tables, home, root, l + 1, v);
      var t, i := TableFor(tables, root, l + 1, v).value, Index(l + 1, v);
      assert EntryOk(tables, home, home[t], i, tables[t][i]);
      PrefixStep(l, v);
      assert TableOk(tables, home, TableFor(tables, root, l, v).value);
    }
  }

  // ------------------------------------------------------------------------------- writing leaf entries

  function Written(tables: Tables, t: nat, i: nat, e: nat): Tables
    requires t in tables && i < |tables[t]|
  {
    var table: seq<nat> := tables[t][i := e];
    tables[t := table]
  }

  lemma LeafKeepsTree(tables: Tables, home: map<nat, Home>, root: nat, t: nat, i: nat, e: nat)
    requires Tree(tables, home, root) && t in home && home[t].level == 1 && i < 512 && TableOk(tables, home, t)
    ensures Tree(Written(tables, t, i, e), home, root)
  {
    var tables' := Written(tables, t, i, e);
    forall u | u in home
      ensures TableOk(tables', home, u)
    {
      assert TableOk(tables, home, u);
      forall k | 0 <= k < 512
        ensures EntryOk(tables', home, home[u], k, tables'[u][k])
      {
        assert u != t ==> EntryOk(tables, home, home[u], k, tables[u][k]);
      }
    }
  }

  lemma {:induction false} LeafKeepsTables(tables: Tables, home: map<nat, Home>, root: nat, t: nat, i: nat, e: nat,
                                           l: nat, v: nat)
    requires Tree(tables, home, root) && t in home && home[t].level == 1 && i < 512 && TableOk(tables, home, t)
    requires 1 <= l <= 4 && v < VIRTUAL_PAGES
    ensures TableFor(Written(tables, t, i, e), root, l, v) == TableFor(tables, root, l, v)
    decreases 4 - l
  {
    if l < 4 {
      LeafKeepsTables(tables, home, root, t, i, e, l + 1, v);
      if TableFor(tables, root, l + 1, v).Some? {
        TableIsHome(tables, home, root, l + 1, v);
      }
    }
  }

  /** Writing the leaf entry of page v changes the walk of v alone. */
  lemma LeafWrite(tables: Tables, home: map<nat, Home>, root: nat, v: nat, t: nat, e: nat, w: nat)
    requires Tree(tables, home, root) && v < VIRTUAL_PAGES
    requires w < VIRTUAL_PAGES && TableFor(tables, root, 1, v) == Some(t)
    ensures TableOk(tables, home, t)
    ensures WalkPage(Written(tables, t, Index(1, v), e), root, w)
         == if w == v then (if Present(e) then Some(e) else None) else WalkPage(tables, root, w)
  {
    TableIsHome(tables, home, root, 1, v);
    LeafKeepsTables(tables, home, root, t, Index(1, v), e, 1, w);
    if TableFor(tables, root, 1, w) == Some(t) && w != v {
      TableIsHome(tables, home, root, 1, w);
      if Index(1, w) == Index(1, v) {
        SamePage(v, w);
      }
    }
  }

  // ----------------------------------------------------------------------------------- adding a table

  function Zeroes(): (r: seq<nat>)
    ensures |r| == 512
  {
    seq(512, i => 0)
  }

  /** Entry i of t is made to lead to the new table n. */
  function Grown(tables: Tables, t: nat, i: nat, n: nat, e: nat): Tables
    requires t in tables && i < |tables[t]| && t != n
  {
    Written(tables[n := Zeroes()], t, i, e)
  }

  /** t is a table of level l + 1 whose entry i is free; n is a new table. */
  ghost predicate CanGrow(tables: Tables, home: map<nat, Home>, root: nat, l: nat, t: nat, i: nat, n: nat, e: nat) {
    && Tree(tables, home, root) && 1 <= l < 4 && t in home && home[t].level == l + 1 && i < 512
    && TableOk(tables, home, t)
    && !Present(tables[t][i]) && n !in tables && Present(e) && ToVirtual(Frame(e)) == n
  }

  lemma GrowKeepsTree(tables: Tables, home: map<nat, Home>, root: nat, l: nat, t: nat, i: nat, n: nat, e: nat)
    requires CanGrow(tables, home, root, l, t, i, n, e)
    ensures Tree(Grown(tables, t, i, n, e), home[n := Home(l, home[t].prefix * 512 + i)], root)
  {
    var tables', home' := Grown(tables, t, i, n, e), home[n := Home(l, home[t].prefix * 512 + i)];
    forall u | u in home'
      ensures TableOk(tables', home', u)
    {
      if u != n {
        assert TableOk(tables, home, u);
        forall k | 0 <= k < 512
          ensures EntryOk(tables', home', home'[u], k, tables'[u][k])
        {
          assert EntryOk(tables, home, home[u], k, tables[u][k]);
        }
      }
    }
  }

  /** The tables above the new one stay, and the new one serves the pages under its entry. */
  lemma {:induction false} GrowAbove(tables: Tables, home: map<nat, Home>, root: nat, l: nat, t: nat, i: nat, n: nat,
                                     e: nat, k: nat, v: nat)
    requires CanGrow(tables, home, root, l, t, i, n, e) && l <= k <= 4 && v < VIRTUAL_PAGES
    ensures k > l ==> TableFor(Grown(tables, t, i, n, e), root, k, v) == TableFor(tables, root, k, v)
    ensures k == l ==>
              TableFor(Grown(tables, t, i, n, e), root, k, v)
              == if TableFor(tables, root, l + 1, v) == Some(t) && Index(l + 1, v) == i then Some(n)
                 else TableFor(tables, root, k, v)
    ensures k == l && TableFor(tables, root, l + 1, v) == Some(t) && Index(l + 1, v) == i ==>
        TableFor(tables, root, k, v) == None
    decreases 4 - k
  {
    if k < 4 {
      GrowAbove(tables, home, root, l, t, i, n, e, k + 1, v);
      if TableFor(tables, root, k + 1, v).Some? {
        TableIsHome(tables, home, root, k + 1, v);
      }
    }
  }

  /** Below it nothing changes either: what was not mapped still is not. */
  lemma {:induction false} GrowBelow(tables: Tables, home: map<nat, Home>, root: nat, l: nat, t: nat, i: nat, n: nat,
                                     e: nat, k: nat, v: nat)
    requires CanGrow(tables, home, root, l, t, i, n, e) && 1 <= k < l && v < VIRTUAL_PAGES
    ensures TableFor(Grown(tables, t, i, n, e), root, k, v) == TableFor(tables, root, k, v)
    decreases 4 - k
  {
    if k + 1 == l {
      GrowAbove(tables, home, root, l, t, i, n, e, l, v);
    } else {
      GrowBelow(tables, home, root, l, t, i, n, e, k + 1, v);
    }
    if TableFor(tables, root, k + 1, v).Some? {
      TableIsHome(tables, home, root, k + 1, v);
    }
  }

  lemma GrowKeepsWalks(tables: Tables, home: map<nat, Home>, root: nat, l: nat, t: nat, i: nat, n: nat, e: nat, v: nat)
    requires CanGrow(tables, home, root, l, t, i, n, e) && v < VIRTUAL_PAGES
    ensures WalkPage(Grown(tables, t, i, n, e), root, v) == WalkPage(tables, root, v)
  {
    if l == 1 {
      GrowAbove(tables, home, root, l, t, i, n, e, 1, v);
    } else {
      GrowBelow(tables, home, root, l, t, i, n, e, 1, v);
    }
    if TableFor(tables, root, 1, v).Some? {
      TableIsHome(tables, home, root, 1, v);
    }
  }

  lemma GrowKeepsAllWalks(tables: Tables, home: map<nat, Home>, root: nat, l: nat, t: nat, i: nat, n: nat, e: nat)
    requires CanGrow(tables, home, root, l, t, i, n, e)
    ensures forall v: nat :: v < VIRTUAL_PAGES ==>
        WalkPage(Grown(tables, t, i, n, e), root, v) == WalkPage(tables, root, v)
  {
    forall v: nat | v < VIRTUAL_PAGES
      ensures WalkPage(Grown(tables, t, i, n, e), root, v) == WalkPage(tables, root, v)
    {
      GrowKeepsWalks(tables, home, root, l, t, i, n, e, v);
    }
  }
}
