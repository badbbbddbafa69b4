/**
  Four-level page tables as a graph of 512-entry tables in frames, and what the operations
  of stuos/src/memory.c do to it. The walk is that of the Intel SDM, Volume 3A, section 4.5.
 */
module PageTables {
  import opened Options

  /** One 64-bit word of a frame, read as a page table entry; `addr` is a frame number. */
  datatype Pte = Pte(present: bool, readWrite: bool, user: bool, pwt: bool, pcd: bool, accessed: bool, dirty: bool,
                     huge: bool, global: bool, ignored1: nat, addr: nat, ignored2: nat, nx: bool)

  /** Physical memory: frame number to the 512 words of the frame. */
  type Ram = map<nat, seq<Pte>>

  /** Table indices from the top down; a page is a path of four. */
  type Path = seq<nat>

  predicate PageOk(p: Path) {
    |p| == 4 && forall k :: 0 <= k < 4 ==> p[k] < 512
  }

  /** Pages behind the upper half of the top table belong to the kernel. */
  predicate IsKernel(p: Path) {
    p != [] && p[0] >= 256
  }

  /** The processor's walk from frame `f`, at depth `n`: the entry that maps the page, if any. */
  function Walk(ram: Ram, f: nat, page: Path, n: nat): Option<Pte>
    requires |page| == 4 && n < 4
    decreases 4 - n
  {
    if f in ram && page[n] < |ram[f]| then
      var e := ram[f][page[n]];
      if !e.present then None
      else if n == 3 || e.huge then Some(e)
      else Walk(ram, e.addr, page, n + 1)
    else None
  }

  /** Where a frame is used: under which root, behind which path, and in which table (`up`) its entry is. */
  datatype Place = Place(root: nat, path: Path, up: nat)

  /** Memory, and what every table and every mapped frame of RAM is used for. */
  datatype Trees = Trees(ram: Ram, own: map<nat, Place>, kernel: nat) {

    ghost predicate IsRoot(f: nat) {
      f in own && own[f].path == []
    }

    ghost predicate IsTable(f: nat) {
      f in own && |own[f].path| < 4
    }

    /** An owned frame has a sane place, and the entry its place names points to it. */
    ghost predicate NodeOk(f: nat)
      requires f in own
    {
      var p, r := own[f].path, own[f].root;
      && |p| <= 4 && (forall k :: 0 <= k < |p| ==> p[k] < 512)
      && f in ram && |ram[f]| == 512
      && IsRoot(r)
      && (p == [] ==> r == f)
      && (IsKernel(p) ==> r == kernel)
      && (p != [] && !IsKernel(p) ==> r != kernel)
      && (p != [] ==> UpOk(f))
    }

    ghost predicate UpOk(f: nat)
      requires f in own && own[f].path != []
    {
      var n := |own[f].path| - 1;
      var u, i := own[f].up, own[f].path[n];
      && u in own && own[u].root == own[f].root && own[u].path == own[f].path[..n]
      && u in ram && i < |ram[u]|
      && ram[u][i].present && ram[u][i].addr == f && (n < 3 ==> !ram[u][i].huge)
    }

    /** The root under which `f`'s entry `i` is recorded: the kernel half is the kernel's under any root. */
    function Home(f: nat, i: nat): nat
      requires f in own
    {
      if IsKernel(own[f].path + [i]) then kernel else own[f].root
    }

    /** The place of what `f`'s entry `i` points to. */
    function PlaceBelow(f: nat, i: nat): Place
      requires f in own
    {
      Place(Home(f, i), own[f].path + [i],
            if own[f].path == [] && IsKernel([i]) then kernel else f)
    }

    /** A present entry points to what is recorded there. Kernel pages may be of any memory, or huge. */
    ghost predicate DownOk(f: nat, i: nat) {
      && f in own && f in ram && i < |ram[f]|
      && var e, p := ram[f][i], own[f].path + [i];
      e.present ==>
        && (!IsKernel(p) ==> !e.huge && e.addr in own && own[e.addr] == PlaceBelow(f, i))
        && (IsKernel(p) && |p| < 4 && !e.huge ==> e.addr in own && own[e.addr] == PlaceBelow(f, i))
    }

    ghost predicate Ok() {
      && IsRoot(kernel)
      && (forall f :: f in own ==> NodeOk(f))
      && (forall f, i :: f in own && |own[f].path| < 4 && 0 <= i < 512 ==> DownOk(f, i))
      && (forall r :: IsRoot(r) ==> Shares(r))
      && UserEmpty()
    }

    /** Every root has the kernel's entries in its upper half. */
    ghost predicate Shares(r: nat) {
      && r in ram && kernel in ram && |ram[r]| == |ram[kernel]| == 512
      && forall i :: 256 <= i < 512 ==> ram[r][i] == ram[kernel][i]
    }

    /** The kernel's own root maps no user page. */
    ghost predicate UserEmpty() {
      kernel in ram && |ram[kernel]| == 512 && forall i :: 0 <= i < 256 ==> !ram[kernel][i].present
    }

    /** The whole kernel half of the top table is there. */
    ghost predicate Filled() {
      kernel in ram && |ram[kernel]| == 512 &&
      forall i :: 256 <= i < 512 ==> ram[kernel][i].present && !ram[kernel][i].huge
    }

    /** Overwrite one entry. */
    function Put(f: nat, i: nat, e: Pte): Trees
      requires f in ram && i < |ram[f]|
    {
      this.(ram := ram[f := ram[f][i := e]])
    }

    /** A new empty table at frame `g` behind `f`'s entry `i`. */
    function Grown(f: nat, i: nat, e: Pte, g: nat, blank: seq<Pte>): Trees
      requires f in own && f in ram && i < |ram[f]|
    {
      Trees(ram[g := blank][f := ram[f][i := e]], own[g := PlaceBelow(f, i)], kernel)
    }

    /** Entry `i` of the last-level table `f` maps a page; `ours` tells that the frame is RAM to be recorded. */
    function Mapped(f: nat, i: nat, e: Pte, ours: bool): Trees
      requires f in own && f in ram && i < |ram[f]|
    {
      Trees(ram[f := ram[f][i := e]], if ours then own[e.addr := PlaceBelow(f, i)] else own, kernel)
    }

    /** The entry is dropped, with the record of the frame behind it. */
    function Unmapped(f: nat, i: nat, e: Pte): Trees
      requires f in ram && i < |ram[f]|
    {
      Trees(ram[f := ram[f][i := e]], own - {e.addr}, kernel)
    }

    /** A new root at frame `g`, a copy of the kernel's. */
    function Rooted(g: nat): Trees
      requires kernel in ram
    {
      Trees(ram[g := ram[kernel]], own[g := Place(g, [], g)], kernel)
    }
  }

  /**
    Tables for the kernel half as a boot loader builds them: `path` says where each is, `up`
    in which table its entry is. Entries may be absent, map huge pages, or, at the last
    level, any memory; every other points to a table that is in no second place.
   */
  ghost predicate LoaderTables(ram: Ram, root: nat, path: map<nat, Path>, up: map<nat, nat>) {
    && up.Keys == path.Keys && root in path
    && (forall f :: f in path ==> f in ram && |ram[f]| == 512 && |path[f]| < 4)
    && (forall f :: f in path ==> (path[f] == [] <==> f == root))
    && (forall f :: f in path && f != root ==> EntryFrom(ram, path, up[f], f))
    && (forall i :: 0 <= i < 256 ==> !ram[root][i].present)
    && (forall f, i :: f in path && |path[f]| < 3 && 0 <= i < 512 && ram[f][i].present && !ram[f][i].huge ==>
          ram[f][i].addr in path && path[ram[f][i].addr] == path[f] + [i] && up[ram[f][i].addr] == f)
  }

  /** Table `f` is behind an entry of table `u`, as their paths say. */
  ghost predicate EntryFrom(ram: Ram, path: map<nat, Path>, u: nat, f: nat) {
    && f in path && path[f] != [] && u in path && path[u] == path[f][..|path[f]| - 1]
    && path[f][0] >= 256 && (forall k :: 0 <= k < |path[f]| ==> path[f][k] < 512)
    && u in ram && var i := path[f][|path[f]| - 1];
    i < |ram[u]| && ram[u][i].present && ram[u][i].addr == f && !ram[u][i].huge
  }

  function LoaderTrees(ram: Ram, root: nat, path: map<nat, Path>, up: map<nat, nat>): Trees
    requires up.Keys == path.Keys
  {
    Trees(ram, map f | f in path :: Place(root, path[f], up[f]), root)
  }

  /** Such tables satisfy the invariant: where every run starts. */
  lemma LoaderTablesOk(ram: Ram, root: nat, path: map<nat, Path>, up: map<nat, nat>)
    requires LoaderTables(ram, root, path, up)
    ensures LoaderTrees(ram, root, path, up).Ok()
  {
    hide Trees.NodeOk, Trees.DownOk, EntryFrom;
    var t := LoaderTrees(ram, root, path, up);
    forall f | f in t.own
      ensures t.NodeOk(f)
    {
      LoaderNodeOk(ram, root, path, up, f);
    }
    forall f, i | f in t.own && |t.own[f].path| < 4 && 0 <= i < 512
      ensures t.DownOk(f, i)
    {
      LoaderDownOk(ram, root, path, up, f, i);
    }
  }

  lemma LoaderNodeOk(ram: Ram, root: nat, path: map<nat, Path>, up: map<nat, nat>, f: nat)
    requires LoaderTables(ram, root, path, up) && f in path
    ensures LoaderTrees(ram, root, path, up).NodeOk(f)
  {
    assert f != root ==> EntryFrom(ram, path, up[f], f);
  }

  lemma LoaderDownOk(ram: Ram, root: nat, path: map<nat, Path>, up: map<nat, nat>, f: nat, i: nat)
    requires LoaderTables(ram, root, path, up) && f in path && i < 512
    ensures LoaderTrees(ram, root, path, up).DownOk(f, i)
  {
    assert f != root ==> EntryFrom(ram, path, up[f], f);
    var e, p := ram[f][i], path[f] + [i];
    if e.present {
      assert IsKernel(p) by {
        assert p[0] == if f == root then i else path[f][0];
      }
    }
  }

  // --- Reading the invariant ---

  lemma NodeFacts(t: Trees, f: nat)
    requires t.Ok() && f in t.own
    ensures t.NodeOk(f)
  {
  }

  lemma DownFacts(t: Trees, f: nat, i: nat)
    requires t.Ok() && t.IsTable(f) && i < 512
    ensures f in t.ram && i < |t.ram[f]| && t.DownOk(f, i)
  {
    assert t.NodeOk(f);
  }

  lemma KernelFacts(t: Trees, r: nat)
    requires t.Ok() && t.IsRoot(r)
    ensures t.IsRoot(t.kernel)
    ensures t.Shares(r) && t.UserEmpty()
  {
  }

  lemma KernelIsItself(t: Trees)
    requires t.Ok()
    ensures t.kernel in t.own && t.own[t.kernel].root == t.kernel && t.own[t.kernel].path == []
  {
    assert t.NodeOk(t.kernel);
  }

  // --- Walks that are not concerned ---

  /** The entry is on no walk for `page` under root `r`. */
  predicate Missed(t: Trees, f: nat, i: nat, r: nat, page: Path)
    requires f in t.own
  {
    || !(t.own[f].path + [i] <= page)
    || (!IsKernel(page) && r != t.own[f].root)
  }

  lemma {:induction false} WriteMissed(t: Trees, f0: nat, i0: nat, e: Pte, f: nat, page: Path, n: nat)
    requires t.Ok() && t.IsTable(f0) && f0 in t.ram && i0 < |t.ram[f0]| && !(t.own[f0].path == [] && i0 >= 256)
    requires PageOk(page) && n < 4 && t.IsTable(f) && t.own[f].path == page[..n]
    requires Missed(t, f0, i0, t.own[f].root, page)
    ensures Walk(t.Put(f0, i0, e).ram, f, page, n) == Walk(t.ram, f, page, n)
    decreases 4 - n
  {
    hide Trees.Ok, Trees.NodeOk;
    DownFacts(t, f, page[n]);
    assert page[..n + 1] == page[..n] + [page[n]];
    var d := t.ram[f][page[n]];
    if f == f0 && page[n] == i0 {
      assert false;
    } else if d.present && n < 3 && !d.huge {
      WriteMissed(t, f0, i0, e, d.addr, page, n + 1);
    }
  }

  /** A walk reads nothing but the tables of its root and of the kernel. */
  lemma {:induction false} WalkSame(t: Trees, ram: Ram, f: nat, page: Path, n: nat)
    requires t.Ok() && PageOk(page) && n < 4 && t.IsTable(f) && t.own[f].path == page[..n]
    requires forall g :: t.IsTable(g) && (t.own[g].root == t.own[f].root || t.own[g].root == t.kernel) && g in t.ram ==>
               g in ram && ram[g] == t.ram[g]
    ensures Walk(ram, f, page, n) == Walk(t.ram, f, page, n)
    decreases 4 - n
  {
    hide Trees.Ok, Trees.NodeOk;
    DownFacts(t, f, page[n]);
    assert page[..n + 1] == page[..n] + [page[n]];
    var d := t.ram[f][page[n]];
    if d.present && n < 3 && !d.huge {
      WalkSame(t, ram, d.addr, page, n + 1);
    }
  }

  // --- A new table ---

  ghost predicate Empty(table: seq<Pte>) {
    |table| == 512 && forall i :: 0 <= i < 512 ==> !table[i].present
  }

  ghost predicate CanGrow(t: Trees, f: nat, i: nat, e: Pte, g: nat, blank: seq<Pte>) {
    && t.Ok() && f in t.own && |t.own[f].path| < 3 && i < 512
    && f in t.ram && |t.ram[f]| == 512 && !t.ram[f][i].present
    && (t.own[f].path == [] && i < 256 ==> f != t.kernel)
    && (t.own[f].path == [] && i >= 256 ==> forall r :: t.IsRoot(r) ==> r == t.kernel)
    && g in t.ram && g !in t.own && Empty(blank)
    && e.present && !e.huge && e.addr == g
  }

  lemma GrownNode(t: Trees, f: nat, i: nat, e: Pte, g: nat, blank: seq<Pte>, h: nat)
    requires CanGrow(t, f, i, e, g, blank) && (h in t.own || h == g)
    ensures t.Grown(f, i, e, g, blank).NodeOk(h)
  {
    hide Trees.Ok;
    NodeFacts(t, f);
    NodeFacts(t, t.own[f].root);
    KernelFacts(t, t.own[f].root);
    if h != g {
      NodeFacts(t, h);
    }
  }

  lemma GrownDown(t: Trees, f: nat, i: nat, e: Pte, g: nat, blank: seq<Pte>, h: nat, j: nat)
    requires CanGrow(t, f, i, e, g, blank) && j < 512
    requires var t' := t.Grown(f, i, e, g, blank); t'.IsTable(h) && h in t'.ram && j < |t'.ram[h]|
    ensures t.Grown(f, i, e, g, blank).DownOk(h, j)
  {
    hide Trees.Ok, Trees.NodeOk;
    NodeFacts(t, f);
    if h != g {
      DownFacts(t, h, j);
    }
  }

  lemma GrownShares(t: Trees, f: nat, i: nat, e: Pte, g: nat, blank: seq<Pte>, r: nat)
    requires CanGrow(t, f, i, e, g, blank) && t.Grown(f, i, e, g, blank).IsRoot(r)
    ensures t.Grown(f, i, e, g, blank).Shares(r) && t.Grown(f, i, e, g, blank).UserEmpty()
  {
    hide Trees.NodeOk, Trees.DownOk;
    assert |t.own[f].path + [i]| > 0;
    assert r != g && t.IsRoot(r);
    KernelFacts(t, r);
    KernelFacts(t, t.kernel);
    NodeFacts(t, f);
  }

  lemma GrownOk(t: Trees, f: nat, i: nat, e: Pte, g: nat, blank: seq<Pte>)
    requires CanGrow(t, f, i, e, g, blank)
    ensures t.Grown(f, i, e, g, blank).Ok()
  {
    hide Trees.NodeOk, Trees.DownOk;
    var t' := t.Grown(f, i, e, g, blank);
    forall h | h in t'.own
      ensures t'.NodeOk(h)
    {
      GrownNode(t, f, i, e, g, blank, h);
    }
    forall h, j | h in t'.own && |t'.own[h].path| < 4 && 0 <= j < 512
      ensures t'.DownOk(h, j)
    {
      assert t'.NodeOk(h);
      SizeFacts(t', h);
      GrownDown(t, f, i, e, g, blank, h, j);
    }
    forall r | t'.IsRoot(r)
      ensures t'.Shares(r)
    {
      GrownShares(t, f, i, e, g, blank, r);
    }
    GrownShares(t, f, i, e, g, blank, t.kernel);
  }

  lemma SizeFacts(t: Trees, f: nat)
    requires f in t.own && t.NodeOk(f)
    ensures f in t.ram && |t.ram[f]| == 512
  {
  }

  /** An empty table maps nothing: no walk changes. */
  lemma {:induction false} GrownWalk(t: Trees, f0: nat, i0: nat, e: Pte, g: nat, blank: seq<Pte>,
                                     f: nat, page: Path, n: nat)
    requires CanGrow(t, f0, i0, e, g, blank)
    requires PageOk(page) && n < 4 && t.IsTable(f) && t.own[f].path == page[..n]
    ensures Walk(t.Grown(f0, i0, e, g, blank).ram, f, page, n) == Walk(t.ram, f, page, n)
    decreases 4 - n
  {
    hide Trees.Ok, Trees.NodeOk;
    DownFacts(t, f, page[n]);
    assert page[..n + 1] == page[..n] + [page[n]];
    var d := t.ram[f][page[n]];
    if f == f0 && page[n] == i0 {
      assert Walk(t.Grown(f0, i0, e, g, blank).ram, g, page, n + 1).None?;
    } else if d.present && n < 3 && !d.huge {
      GrownWalk(t, f0, i0, e, g, blank, d.addr, page, n + 1);
    }
  }

  // --- Mapping a page ---

  ghost predicate CanMap(t: Trees, f: nat, i: nat, e: Pte, ours: bool) {
    && t.Ok() && f in t.own && |t.own[f].path| == 3 && i < 512
    && f in t.ram && |t.ram[f]| == 512 && !t.ram[f][i].present
    && e.present && !e.huge
    && (ours ==> e.addr !in t.own && e.addr in t.ram && |t.ram[e.addr]| == 512)
    && (!ours ==> IsKernel(t.own[f].path))
  }

  lemma MappedOk(t: Trees, f: nat, i: nat, e: Pte, ours: bool)
    requires CanMap(t, f, i, e, ours)
    ensures t.Mapped(f, i, e, ours).Ok()
  {
    hide Trees.NodeOk, Trees.DownOk;
    var t' := t.Mapped(f, i, e, ours);
    forall h | h in t'.own
      ensures t'.NodeOk(h)
    {
      MappedNode(t, f, i, e, ours, h);
    }
    forall h, j | h in t'.own && |t'.own[h].path| < 4 && 0 <= j < 512
      ensures t'.DownOk(h, j)
    {
      MappedDown(t, f, i, e, ours, h, j);
    }
    forall r | t'.IsRoot(r)
      ensures t'.Shares(r)
    {
      assert |t.own[f].path + [i]| > 0;
      KernelFacts(t, r);
    }
    KernelFacts(t, t.kernel);
  }

  lemma MappedNode(t: Trees, f: nat, i: nat, e: Pte, ours: bool, h: nat)
    requires CanMap(t, f, i, e, ours) && (h in t.own || (ours && h == e.addr))
    ensures t.Mapped(f, i, e, ours).NodeOk(h)
  {
    hide Trees.Ok;
    NodeFacts(t, f);
    NodeFacts(t, t.own[f].root);
    KernelFacts(t, t.own[f].root);
    if h in t.own {
      NodeFacts(t, h);
    }
  }

  lemma MappedDown(t: Trees, f: nat, i: nat, e: Pte, ours: bool, h: nat, j: nat)
    requires CanMap(t, f, i, e, ours) && t.IsTable(h) && j < 512
    ensures t.Mapped(f, i, e, ours).DownOk(h, j)
  {
    hide Trees.Ok, Trees.NodeOk;
    NodeFacts(t, f);
    DownFacts(t, h, j);
  }

  // --- Unmapping a page ---

  ghost predicate CanUnmap(t: Trees, f: nat, i: nat, e: Pte) {
    && t.Ok() && f in t.own && |t.own[f].path| == 3 && i < 512
    && f in t.ram && |t.ram[f]| == 512 && t.ram[f][i].present
    && !e.present && e.addr == t.ram[f][i].addr
    && e.addr in t.own && t.own[e.addr] == t.PlaceBelow(f, i)
  }

  lemma UnmappedOk(t: Trees, f: nat, i: nat, e: Pte)
    requires CanUnmap(t, f, i, e)
    ensures t.Unmapped(f, i, e).Ok()
  {
    hide Trees.NodeOk, Trees.DownOk;
    var t' := t.Unmapped(f, i, e);
    forall h | h in t'.own
      ensures t'.NodeOk(h)
    {
      UnmappedNode(t, f, i, e, h);
    }
    forall h, j | h in t'.own && |t'.own[h].path| < 4 && 0 <= j < 512
      ensures t'.DownOk(h, j)
    {
      UnmappedDown(t, f, i, e, h, j);
    }
    assert |t.own[f].path + [i]| == 4;
    forall r | t'.IsRoot(r)
      ensures t'.Shares(r)
    {
      KernelFacts(t, r);
    }
    KernelFacts(t, t.kernel);
  }

  lemma UnmappedNode(t: Trees, f: nat, i: nat, e: Pte, h: nat)
    requires CanUnmap(t, f, i, e) && h in t.own && h != e.addr
    ensures t.Unmapped(f, i, e).NodeOk(h)
  {
    hide Trees.Ok;
    NodeFacts(t, h);
    NodeFacts(t, f);
    assert |t.own[f].path + [i]| == 4;
  }

  lemma UnmappedDown(t: Trees, f: nat, i: nat, e: Pte, h: nat, j: nat)
    requires CanUnmap(t, f, i, e) && t.IsTable(h) && j < 512
    ensures t.Unmapped(f, i, e).DownOk(h, j)
  {
    hide Trees.Ok, Trees.NodeOk;
    NodeFacts(t, f);
    DownFacts(t, h, j);
    assert |t.own[f].path + [i]| == 4;
    PathsEqual(t.own[f].path, i, t.own[h].path, j);
  }

  lemma PathsEqual(p: Path, i: nat, q: Path, j: nat)
    ensures p + [i] == q + [j] ==> p == q && i == j
  {
    if p + [i] == q + [j] {
      assert (p + [i])[..|p|] == p && (q + [j])[..|q|] == q;
      assert (p + [i])[|p|] == i && (q + [j])[|q|] == j;
    }
  }

  // --- A new root ---

  lemma RootedOk(t: Trees, g: nat)
    requires t.Ok() && t.Filled() && g !in t.own
    ensures t.Rooted(g).Ok()
  {
    hide Trees.NodeOk, Trees.DownOk;
    KernelFacts(t, t.kernel);
    var t' := t.Rooted(g);
    forall h | h in t'.own
      ensures t'.NodeOk(h)
    {
      if h in t.own {
        RootedNode(t, g, h);
      } else {
        FreshRootNode(t', g);
      }
    }
    forall h, j | h in t'.own && |t'.own[h].path| < 4 && 0 <= j < 512
      ensures t'.DownOk(h, j)
    {
      RootedDown(t, g, h, j);
    }
    forall r | t'.IsRoot(r)
      ensures t'.Shares(r)
    {
      if r != g {
        KernelFacts(t, r);
      }
    }
  }

  lemma FreshRootNode(t: Trees, g: nat)
    requires g in t.own && t.own[g] == Place(g, [], g) && g in t.ram && |t.ram[g]| == 512
    ensures t.NodeOk(g)
  {
  }

  lemma RootedNode(t: Trees, g: nat, h: nat)
    requires t.Ok() && g !in t.own && h in t.own && t.kernel in t.ram
    ensures t.Rooted(g).NodeOk(h)
  {
    hide Trees.Ok;
    NodeFacts(t, h);
  }

  lemma RootedDown(t: Trees, g: nat, h: nat, j: nat)
    requires t.Ok() && t.Filled() && g !in t.own && (h == g || t.IsTable(h)) && j < 512
    ensures t.Rooted(g).DownOk(h, j)
  {
    hide Trees.Ok, Trees.NodeOk;
    KernelIsItself(t);
    KernelFacts(t, t.kernel);
    NodeFacts(t, t.kernel);
    if h == g {
      DownFacts(t, t.kernel, j);
      assert [] + [j] == [j];
    } else {
      DownFacts(t, h, j);
    }
  }

  /** A new root sees the kernel as the kernel does, and no user page. */
  lemma RootedWalk(t: Trees, g: nat, page: Path)
    requires t.Ok() && t.Filled() && g !in t.own && PageOk(page)
    ensures t.kernel in t.ram
    ensures Walk(t.Rooted(g).ram, g, page, 0) == if IsKernel(page) then Walk(t.ram, t.kernel, page, 0) else None
  {
    hide Trees.Ok, Trees.NodeOk;
    KernelIsItself(t);
    KernelFacts(t, t.kernel);
    DownFacts(t, t.kernel, page[0]);
    assert page[..1] == [page[0]] == [] + [page[0]];
    var d := t.ram[t.kernel][page[0]];
    if IsKernel(page) && !d.huge {
      WalkSame(t, t.Rooted(g).ram, d.addr, page, 1);
    }
  }

  // --- Taking a root away ---

  /** Everything recorded under root `r` is gone. */
  function Without(own: map<nat, Place>, r: nat): map<nat, Place> {
    map f | f in own && own[f].root != r :: own[f]
  }

  lemma WithoutOk(t: Trees, r: nat, ram: Ram)
    requires t.Ok() && r != t.kernel
    requires forall f :: f in t.own && t.own[f].root != r ==> f in ram && f in t.ram && ram[f] == t.ram[f]
    ensures Trees(ram, Without(t.own, r), t.kernel).Ok()
  {
    hide Trees.NodeOk, Trees.DownOk;
    var t' := Trees(ram, Without(t.own, r), t.kernel);
    NodeFacts(t, t.kernel);
    KernelIsItself(t);
    forall h | h in t'.own
      ensures t'.NodeOk(h)
    {
      WithoutNode(t, r, ram, h);
    }
    forall h, j | h in t'.own && |t'.own[h].path| < 4 && 0 <= j < 512
      ensures t'.DownOk(h, j)
    {
      WithoutDown(t, r, ram, h, j);
    }
    forall q | t'.IsRoot(q)
      ensures t'.Shares(q)
    {
      KernelFacts(t, q);
    }
    KernelFacts(t, t.kernel);
  }

  lemma WithoutNode(t: Trees, r: nat, ram: Ram, h: nat)
    requires t.Ok() && r != t.kernel && h in t.own && t.own[h].root != r
    requires forall f :: f in t.own && t.own[f].root != r ==> f in ram && f in t.ram && ram[f] == t.ram[f]
    ensures Trees(ram, Without(t.own, r), t.kernel).NodeOk(h)
  {
    hide Trees.Ok;
    NodeFacts(t, h);
    NodeFacts(t, t.own[h].root);
  }

  lemma WithoutDown(t: Trees, r: nat, ram: Ram, h: nat, j: nat)
    requires t.Ok() && r != t.kernel && t.IsTable(h) && t.own[h].root != r && j < 512
    requires forall f :: f in t.own && t.own[f].root != r ==> f in ram && f in t.ram && ram[f] == t.ram[f]
    ensures Trees(ram, Without(t.own, r), t.kernel).DownOk(h, j)
  {
    hide Trees.Ok, Trees.NodeOk;
    DownFacts(t, h, j);
  }

  // --- The frames below a table ---

  /** The frames recorded under root `r` behind path `p`. */
  ghost function Below(own: map<nat, Place>, r: nat, p: Path): set<nat> {
    set f | f in own && own[f].root == r && p <= own[f].path
  }

  /** No two frames share a place. */
  lemma {:induction false} PlaceUnique(t: Trees, f: nat, g: nat)
    requires t.Ok() && f in t.own && g in t.own
    requires t.own[f].root == t.own[g].root && t.own[f].path == t.own[g].path
    ensures f == g
    decreases |t.own[f].path|
  {
    hide Trees.Ok, Trees.DownOk;
    NodeFacts(t, f);
    NodeFacts(t, g);
    if t.own[f].path != [] {
      PlaceUnique(t, t.own[f].up, t.own[g].up);
    }
  }

  /** Behind an entry that is not present there is nothing. */
  lemma {:induction false} NothingBelow(t: Trees, f: nat, i: nat, h: nat)
    requires t.Ok() && t.IsTable(f) && i < 512 && f in t.ram && i < |t.ram[f]| && !t.ram[f][i].present
    requires h in t.own && t.own[h].root == t.own[f].root
    ensures !(t.own[f].path + [i] <= t.own[h].path)
    decreases |t.own[h].path|
  {
    hide Trees.Ok, Trees.DownOk;
    var p := t.own[f].path + [i];
    if p <= t.own[h].path {
      NodeFacts(t, h);
      NodeFacts(t, f);
      assert |p| > 0;
      var u := t.own[h].up;
      if |p| == |t.own[h].path| {
        assert t.own[h].path == p && p[..|p| - 1] == t.own[f].path;
        PlaceUnique(t, u, f);
      } else {
        assert p <= t.own[u].path;
        NothingBelow(t, f, i, u);
      }
    }
  }
}
