/**
  Whole runs of address-space calls (stuos/src/memory.c): over any run each address space is a
  map from pages to what they hold, and no call on one reaches into another.
 */
module PageRuns {
  import opened Options
  import opened FrameAllocators
  import opened PageTables
  import opened PageSteps
  import opened PageCopies
  import opened PageRights
  import opened AddressSpaces

  /** A page: the words it holds, and whether programs may run code from it. */
  datatype Page = Page(words: seq<Pte>, execute: bool)

  /** The pages of each address space by its root; those the kernel got are listed under its own. */
  type Spaces = map<nat, map<Path, Page>>

  datatype View = View(spaces: Spaces, current: nat, kernel: nat) {

    /** The space a page of the current address space is listed under. */
    function Home(page: Path): nat {
      if IsKernel(page) then kernel else current
    }

    predicate Has(page: Path) {
      Home(page) in spaces && page in spaces[Home(page)]
    }

    function With(page: Path, p: Page): View
      requires Home(page) in spaces
    {
      this.(spaces := spaces[Home(page) := spaces[Home(page)][page := p]])
    }
  }

  // --- What the tables hold ---

  /** Root `r` maps the page as it is described, by a frame recorded for just that page. */
  ghost predicate Shown(t: Trees, r: nat, page: Path, p: Page)
    requires |page| == 4
  {
    var e := Walk(t.ram, r, page, 0);
    && e.Some? && !e.value.huge && p.execute == !e.value.nx
    && FrameShows(t, r, page, e.value.addr, p.words)
  }

  ghost predicate FrameShows(t: Trees, r: nat, page: Path, g: nat, words: seq<Pte>) {
    && g in t.own && t.own[g].path == page && t.own[g].root == r
    && g in t.ram && t.ram[g] == words && |words| == 512
  }

  ghost predicate RootHolds(t: Trees, r: nat, pages: map<Path, Page>) {
    && (forall p :: p in pages ==> PageOk(p) && (IsKernel(p) <==> r == t.kernel) && Shown(t, r, p, pages[p]))
    && (forall p :: PageOk(p) && !IsKernel(p) && Walk(t.ram, r, p, 0).Some? ==> p in pages)
  }

  /** The tables hold exactly these address spaces, and of each exactly these user pages. */
  ghost predicate Holds(t: Trees, s: Spaces) {
    && (forall r :: r in s <==> t.IsRoot(r))
    && (forall r :: r in s ==> RootHolds(t, r, s[r]))
  }

  /** With the kernel's root alone no user page is mapped, and nothing is listed for the kernel. */
  lemma StartHolds(t: Trees)
    requires t.Ok() && forall r :: t.IsRoot(r) ==> r == t.kernel
    ensures Holds(t, map[t.kernel := map[]])
  {
    hide Trees.NodeOk, Trees.DownOk;
    forall p | PageOk(p) && !IsKernel(p)
      ensures Walk(t.ram, t.kernel, p, 0).None?
    {
      KernelFacts(t, t.kernel);
    }
  }

  // --- What a call keeps ---

  lemma ShownKept(t: Trees, t': Trees, r: nat, page: Path, p: Page)
    requires |page| == 4 && Shown(t, r, page, p) && Walk(t'.ram, r, page, 0) == Walk(t.ram, r, page, 0)
    requires FrameKept(t, t', Walk(t.ram, r, page, 0).value.addr)
    ensures Shown(t', r, page, p)
  {
  }

  /** A recorded frame is recorded for the same place still, and holds the same. */
  ghost predicate FrameKept(t: Trees, t': Trees, g: nat) {
    && g in t.own && g in t'.own && t'.own[g] == t.own[g]
    && g in t.ram && g in t'.ram && t'.ram[g] == t.ram[g]
  }

  /** Nothing about the address space at `r` has changed. */
  lemma RootKept(t: Trees, t': Trees, r: nat, pages: map<Path, Page>)
    requires RootHolds(t, r, pages) && t'.kernel == t.kernel
    requires forall page :: PageOk(page) && (r == t.kernel || !IsKernel(page)) ==>
               Walk(t'.ram, r, page, 0) == Walk(t.ram, r, page, 0)
    requires forall g :: g in t.own && |t.own[g].path| == 4 && t.own[g].root == r ==> FrameKept(t, t', g)
    ensures RootHolds(t', r, pages)
  {
    hide Walk;
    forall p | p in pages
      ensures Shown(t', r, p, pages[p])
    {
      ShownKept(t, t', r, p, pages[p]);
    }
  }

  /** One page of one address space has become `now`, or is gone. */
  lemma RootChanged(t: Trees, t': Trees, r: nat, pages: map<Path, Page>, page: Path, now: Option<Page>)
    requires RootHolds(t, r, pages) && t'.kernel == t.kernel && PageOk(page) && (IsKernel(page) <==> r == t.kernel)
    requires forall p :: PageOk(p) && p != page && (r == t.kernel || !IsKernel(p)) ==>
               Walk(t'.ram, r, p, 0) == Walk(t.ram, r, p, 0)
    requires forall g :: g in t.own && |t.own[g].path| == 4 && t.own[g].root == r && t.own[g].path != page ==>
               FrameKept(t, t', g)
    requires if now.Some? then Shown(t', r, page, now.value) else Walk(t'.ram, r, page, 0).None?
    ensures RootHolds(t', r, if now.Some? then pages[page := now.value] else pages - {page})
  {
    hide Walk;
    var pages' := if now.Some? then pages[page := now.value] else pages - {page};
    forall p | p in pages'
      ensures PageOk(p) && (IsKernel(p) <==> r == t.kernel) && Shown(t', r, p, pages'[p])
    {
      if p != page {
        ShownKept(t, t', r, p, pages[p]);
      }
    }
  }

  lemma PagesAreKept(t: Trees, t': Trees, added: set<nat>, home: nat)
    requires t.Ok() && Extends(t, t', added, home)
    ensures forall g :: g in t.own && |t.own[g].path| == 4 ==> FrameKept(t, t', g)
  {
    hide Trees.Ok;
    OwnedInRam(t);
  }

  /** Where a page is listed that is mapped under `cr3`. */
  function HomeOf(t: Trees, cr3: nat, page: Path): nat {
    if IsKernel(page) then t.kernel else cr3
  }

  lemma HomeIsRoot(t: Trees, cr3: nat, page: Path)
    requires t.Ok() && t.IsRoot(cr3) && (IsKernel(page) || cr3 != t.kernel)
    ensures t.IsRoot(HomeOf(t, cr3, page)) && (IsKernel(page) <==> HomeOf(t, cr3, page) == t.kernel)
  {
    KernelIsRoot(t);
  }

  lemma AllocatedHolds(t: Trees, t': Trees, s: Spaces, added: set<nat>, cr3: nat, page: Path, e: Pte, execute: bool)
    requires t.Ok() && t'.Ok() && t.IsRoot(cr3) && Holds(t, s) && PageOk(page)
    requires IsKernel(page) || cr3 != t.kernel
    requires OnePageChanged(t, t', cr3, page, Some(e)) && Extends(t, t', added, HomeOf(t, cr3, page))
    requires Maps(e, e.addr, true, execute) && e.addr in added && e.addr in t'.own && t'.own[e.addr].path == page
    ensures var home := HomeOf(t, cr3, page);
            && home in s && e.addr in t'.ram && |t'.ram[e.addr]| == 512
            && Holds(t', s[home := s[home][page := Page(t'.ram[e.addr], execute)]])
  {
    hide Trees.Ok, Walk, RootHolds, Extends, FrameKept;
    var home := HomeOf(t, cr3, page);
    HomeIsRoot(t, cr3, page);
    OwnedInRam(t');
    SameRoots(t, t', added, home);
    PagesAreKept(t, t', added, home);
    var now := Page(t'.ram[e.addr], execute);
    NewPageShown(t, t', added, home, page, e, execute);
    forall r | r in s
      ensures RootHolds(t', r, if r == home then s[r][page := now] else s[r])
    {
      if r == home {
        RootChanged(t, t', r, s[r], page, Some(now));
      } else {
        RootKept(t, t', r, s[r]);
      }
    }
  }

  lemma NewPageShown(t: Trees, t': Trees, added: set<nat>, home: nat, page: Path, e: Pte, execute: bool)
    requires t'.Ok() && PageOk(page) && Extends(t, t', added, home) && Walk(t'.ram, home, page, 0) == Some(e)
    requires Maps(e, e.addr, true, execute) && e.addr in added && e.addr in t'.own && t'.own[e.addr].path == page
    ensures e.addr in t'.ram && Shown(t', home, page, Page(t'.ram[e.addr], execute))
  {
    hide Trees.Ok;
    OwnedInRam(t');
  }

  lemma SameRoots(t: Trees, t': Trees, added: set<nat>, home: nat)
    requires Extends(t, t', added, home)
    ensures t'.kernel == t.kernel && forall r :: t'.IsRoot(r) <==> t.IsRoot(r)
  {
  }

  lemma DeallocatedHolds(t: Trees, t': Trees, s: Spaces, cr3: nat, page: Path)
    requires t.Ok() && t'.kernel == t.kernel && t.IsRoot(cr3) && Holds(t, s) && PageOk(page)
    requires IsKernel(page) || cr3 != t.kernel
    requires HomeOf(t, cr3, page) in s && page in s[HomeOf(t, cr3, page)]
    requires Walk(t.ram, cr3, page, 0).Some? && OnePageChanged(t, t', cr3, page, None)
    requires t'.own == t.own - {Walk(t.ram, cr3, page, 0).value.addr}
    requires forall f :: f in t.own && |t.own[f].path| == 4 ==> f in t.ram && f in t'.ram && t'.ram[f] == t.ram[f]
    ensures var home := HomeOf(t, cr3, page); Holds(t', s[home := s[home] - {page}])
  {
    hide Trees.Ok, Walk, RootHolds;
    var home := HomeOf(t, cr3, page);
    HomeIsRoot(t, cr3, page);
    FrameOfListed(t, s, cr3, page);
    forall r | r in s
      ensures RootHolds(t', r, if r == home then s[r] - {page} else s[r])
    {
      if r == home {
        RootChanged(t, t', r, s[r], page, None);
      } else {
        RootKept(t, t', r, s[r]);
      }
    }
  }

  lemma FrameOfListed(t: Trees, s: Spaces, cr3: nat, page: Path)
    requires t.Ok() && t.IsRoot(cr3) && Holds(t, s) && PageOk(page)
    requires HomeOf(t, cr3, page) in s && page in s[HomeOf(t, cr3, page)]
    requires Walk(t.ram, cr3, page, 0).Some?
    ensures var g := Walk(t.ram, cr3, page, 0).value.addr;
            g in t.own && t.own[g].path == page && t.own[g].root == HomeOf(t, cr3, page)
  {
    hide Trees.Ok, Walk;
    var home := HomeOf(t, cr3, page);
    if IsKernel(page) {
      KernelShared(t, cr3, page);
    }
    assert RootHolds(t, home, s[home]) && Shown(t, home, page, s[home][page]);
  }

  lemma GeneratedHolds(t: Trees, s: Spaces, root: nat)
    requires t.Ok() && t.Filled() && Holds(t, s) && root !in t.own && t.kernel in t.ram && root != t.kernel
    requires SameWalks(t, t.Rooted(root))
    requires forall page :: PageOk(page) && !IsKernel(page) ==> Walk(t.Rooted(root).ram, root, page, 0).None?
    ensures Holds(t.Rooted(root), s[root := map[]])
  {
    hide Trees.Ok, Trees.Filled, Walk, RootHolds, SameWalks, Trees.Rooted;
    RootedRoots(t, root);
    forall r | r in s
      ensures RootHolds(t.Rooted(root), r, s[r])
    {
      RootedKeeps(t, s[r], root, r);
    }
    NothingMapped(t.Rooted(root), root);
  }

  lemma RootedRoots(t: Trees, root: nat)
    requires root !in t.own && t.kernel in t.ram
    ensures !t.IsRoot(root) && forall r :: t.Rooted(root).IsRoot(r) <==> t.IsRoot(r) || r == root
  {
  }

  lemma RootedKeeps(t: Trees, pages: map<Path, Page>, root: nat, r: nat)
    requires t.Ok() && t.IsRoot(r) && RootHolds(t, r, pages) && root !in t.own && t.kernel in t.ram
    requires SameWalks(t, t.Rooted(root))
    ensures RootHolds(t.Rooted(root), r, pages)
  {
    hide Trees.Ok, Walk, RootHolds;
    OwnedInRam(t);
    RootKept(t, t.Rooted(root), r, pages);
  }

  lemma NothingMapped(t: Trees, r: nat)
    requires forall page :: PageOk(page) && !IsKernel(page) ==> Walk(t.ram, r, page, 0).None?
    ensures RootHolds(t, r, map[])
  {
  }

  lemma StoredHolds(t: Trees, s: Spaces, r: nat, page: Path, words: seq<Pte>)
    requires t.Ok() && Holds(t, s) && r in s && page in s[r] && |words| == 512
    ensures PageOk(page) && Walk(t.ram, r, page, 0).Some?
    ensures var g := Walk(t.ram, r, page, 0).value.addr;
            && g in t.own && |t.own[g].path| == 4 && g in t.ram && t.ram[g] == s[r][page].words
            && Holds(t.(ram := t.ram[g := words]), s[r := s[r][page := s[r][page].(words := words)]])
  {
    hide Trees.Ok, Walk;
    assert RootHolds(t, r, s[r]) && Shown(t, r, page, s[r][page]);
    var g := Walk(t.ram, r, page, 0).value.addr;
    var t', now := t.(ram := t.ram[g := words]), s[r][page].(words := words);
    DataWritten(t, t', g, words);
    OwnedInRam(t);
    assert t.IsRoot(r) && Shown(t', r, page, now);
    forall q | q in s
      ensures RootHolds(t', q, if q == r then s[q][page := now] else s[q])
    {
      assert t.IsRoot(q);
      if q == r {
        RootChanged(t, t', q, s[q], page, Some(now));
      } else {
        RootKept(t, t', q, s[q]);
      }
    }
  }

  lemma RemovedHolds(t: Trees, t': Trees, s: Spaces, root: nat)
    requires t.Ok() && Holds(t, s) && t.IsRoot(root) && root != t.kernel && t'.kernel == t.kernel
    requires t'.own == Without(t.own, root) && SameBut(t.ram, t'.ram, Below(t.own, root, []))
    requires forall r, page :: r != root && t.IsRoot(r) && PageOk(page) ==>
               Walk(t'.ram, r, page, 0) == Walk(t.ram, r, page, 0)
    ensures Holds(t', s - {root})
  {
    hide Trees.Ok, Walk;
    OwnedInRam(t);
    forall r
      ensures r in s - {root} <==> t'.IsRoot(r)
    {
      RootIsItself(t, r);
    }
    forall r | r in s - {root}
      ensures RootHolds(t', r, s[r])
    {
      assert t.IsRoot(r);
      RootKept(t, t', r, s[r]);
    }
  }

  /** A clone made at `root` shows the pages of the original. */
  ghost predicate CloneMade(t: Trees, t': Trees, used: set<nat>, orig: nat, root: nat, added: set<nat>) {
    && t'.Ok() && t'.kernel == t.kernel && t'.IsRoot(root) && root in added && SameWalks(t, t')
    && (forall page :: PageOk(page) && !IsKernel(page) ==> Cloned(t, used, t'.ram, orig, root, page))
    && (forall f :: f in t.ram && f !in added ==> f in t'.ram && t'.ram[f] == t.ram[f])
    && t'.own.Keys == t.own.Keys + added && added !! t.own.Keys
    && (forall f :: f in t'.own ==> if f in t.own then t'.own[f] == t.own[f] else t'.own[f].root == root)
  }

  lemma ClonedHolds(t: Trees, t': Trees, s: Spaces, used: set<nat>, orig: nat, root: nat, added: set<nat>)
    requires t.Ok() && Holds(t, s) && t.IsRoot(orig) && orig != t.kernel
    requires CloneMade(t, t', used, orig, root, added)
    ensures orig in s && root !in s && Holds(t', s[root := s[orig]])
  {
    hide Trees.Ok, Walk, Cloned, RootHolds, CloneMade;
    OldRootsKept(t, t', s, used, orig, root, added);
    RootCloned(t, t', s[orig], used, orig, root, added);
    CloneRoots(t, t', used, orig, root, added);
  }

  lemma CloneRoots(t: Trees, t': Trees, used: set<nat>, orig: nat, root: nat, added: set<nat>)
    requires t.Ok() && CloneMade(t, t', used, orig, root, added)
    ensures root !in t.own && forall r :: t'.IsRoot(r) <==> t.IsRoot(r) || r == root
  {
    hide Trees.Ok, Walk, Cloned;
    forall r
      ensures t'.IsRoot(r) <==> t.IsRoot(r) || r == root
    {
      RootIsItself(t', r);
    }
  }

  lemma OldRootsKept(t: Trees, t': Trees, s: Spaces, used: set<nat>, orig: nat, root: nat, added: set<nat>)
    requires t.Ok() && Holds(t, s) && CloneMade(t, t', used, orig, root, added)
    ensures forall r :: r in s ==> RootHolds(t', r, s[r])
  {
    hide Trees.Ok, Walk, Cloned;
    OwnedInRam(t);
    forall r | r in s
      ensures RootHolds(t', r, s[r])
    {
      assert t.IsRoot(r);
      RootKept(t, t', r, s[r]);
    }
  }

  lemma RootCloned(t: Trees, t': Trees, pages: map<Path, Page>, used: set<nat>, orig: nat, root: nat, added: set<nat>)
    requires t.Ok() && RootHolds(t, orig, pages) && t.IsRoot(orig) && orig != t.kernel
    requires CloneMade(t, t', used, orig, root, added)
    ensures RootHolds(t', root, pages)
  {
    hide Trees.Ok, Walk;
    CloneRoots(t, t', used, orig, root, added);
    KernelIsRoot(t);
    forall p | p in pages
      ensures Shown(t', root, p, pages[p])
    {
      assert Shown(t, orig, p, pages[p]) && Cloned(t, used, t'.ram, orig, root, p);
      RootIsItself(t', root);
      WalkEnds(t', root, p, 0);
    }
    forall p | PageOk(p) && !IsKernel(p) && Walk(t'.ram, root, p, 0).Some?
      ensures p in pages
    {
      assert Cloned(t, used, t'.ram, orig, root, p);
    }
  }

  // --- Calls ---

  datatype Call =
    | Allocate(page: Path, execute: bool)
    | Deallocate(page: Path)
    | Generate
    | Clone(root: nat)
    | Remove
    | Switch(root: nat)
    | Store(page: Path, i: nat, word: Pte)

  /**
    What the source does not halt on: only absent pages are mapped, only mapped ones given
    back, and the kernel's own address space has no user page and is not removed.
   */
  predicate Legal(ram: Ram, v: View, c: Call) {
    match c
    case Allocate(page, _) =>
      PageOk(page) && (IsKernel(page) || v.current != v.kernel) && Walk(ram, v.current, page, 0).None?
    case Deallocate(page) => v.Has(page)
    case Generate => true
    case Clone(root) => root in v.spaces && root != v.kernel
    case Remove => v.current != v.kernel
    case Switch(root) => root in v.spaces
    case Store(page, i, _) => v.Has(page) && i < |v.spaces[v.Home(page)][page].words|
  }

  /** What a call may do: to one page, or to one address space as a whole. After a clone the original is current. */
  ghost predicate Step(v: View, c: Call, v': View) {
    match c
    case Allocate(page, execute) =>
      && v.Home(page) in v.spaces && !v.Has(page)
      && exists words :: |words| == 512 && v' == v.With(page, Page(words, execute))
    case Deallocate(page) =>
      v.Has(page) && v' == v.(spaces := v.spaces[v.Home(page) := v.spaces[v.Home(page)] - {page}])
    case Generate => exists root: nat :: root !in v.spaces && v' == v.(spaces := v.spaces[root := map[]])
    case Clone(o) =>
      o in v.spaces && exists root: nat :: root !in v.spaces && v' == View(v.spaces[root := v.spaces[o]], o, v.kernel)
    case Remove => v' == View(v.spaces - {v.current}, v.kernel, v.kernel)
    case Switch(root) => v' == v.(current := root)
    case Store(page, i, word) =>
      v.Has(page)
      && var p := v.spaces[v.Home(page)][page];
      i < |p.words| && v' == v.With(page, p.(words := p.words[i := word]))
  }

  /** The frames of the kernel's listed pages are of the pool. */
  ghost predicate FromPool(t: Trees, pages: map<Path, Page>, lo: nat, hi: nat) {
    forall p :: p in pages ==> PageOk(p) && InRange(Walk(t.ram, t.kernel, p, 0), lo, hi)
  }

  predicate InRange(e: Option<Pte>, lo: nat, hi: nat) {
    e.Some? && lo <= e.value.addr < hi
  }

  lemma StillFromPool(t: Trees, t': Trees, pages: map<Path, Page>, pages': map<Path, Page>, lo: nat, hi: nat)
    requires FromPool(t, pages, lo, hi) && t'.kernel == t.kernel
    requires forall p :: p in pages' ==>
               && PageOk(p)
               && (InRange(Walk(t'.ram, t.kernel, p, 0), lo, hi)
                   || (p in pages && Walk(t'.ram, t.kernel, p, 0) == Walk(t.ram, t.kernel, p, 0)))
    ensures FromPool(t', pages', lo, hi)
  {
  }

  /** The tables show what is seen from the current root. */
  ghost predicate Shows(t: Trees, current: nat, v: View, lo: nat, hi: nat) {
    && Holds(t, v.spaces) && v.current == current && v.kernel == t.kernel && t.IsRoot(current)
    && v.kernel in v.spaces && FromPool(t, v.spaces[v.kernel], lo, hi)
  }

  /** The memory is sound and shows what is seen. */
  ghost predicate Serves(m: Memory, v: View)
    reads m, m.frames, m.frames.flags
  {
    m.Valid() && Shows(m.Tree(), m.cr3, v, m.frames.baseFrame, m.frames.baseFrame + m.frames.flags.Length)
  }

  /** Along the whole walk a listed user page may be read and written by programs, and executed if it says so. */
  ghost predicate RightsHold(t: Trees, s: Spaces) {
    forall r, page :: r in s && page in s[r] && !IsKernel(page) ==> RightsAre(t, r, page, s[r][page].execute)
  }

  ghost predicate RightsAre(t: Trees, r: nat, page: Path, execute: bool) {
    |page| == 4 && Access(t.ram, r, page, 0) == Some(Rights(true, true, execute))
  }

  lemma HeldRights(t: Trees, s: Spaces)
    requires t.Ok() && Open(t) && Holds(t, s)
    ensures RightsHold(t, s)
  {
    hide Trees.Ok, Open, Walk, Access;
    forall r, page | r in s && page in s[r] && !IsKernel(page)
      ensures RightsAre(t, r, page, s[r][page].execute)
    {
      assert t.IsRoot(r) && RootHolds(t, r, s[r]);
      assert Shown(t, r, page, s[r][page]);
      RootRights(t, r, page);
    }
  }

  /** The 256 entries of the kernel half, which every root has alike. */
  ghost predicate SameKernelEntries(t: Trees, t': Trees) {
    t'.kernel == t.kernel && SameKernelHalf(t, t', t.kernel)
  }

  // --- Each call shows what it should ---

  lemma ChangedHere(t: Trees, t': Trees, cr3: nat, page: Path, now: Option<Pte>)
    requires OnePageChanged(t, t', cr3, page, now) && t.IsRoot(cr3) && PageOk(page)
    ensures Walk(t'.ram, cr3, page, 0) == now
  {
  }

  lemma NotYetThere(t: Trees, s: Spaces, cr3: nat, page: Path)
    requires t.Ok() && Holds(t, s) && t.IsRoot(cr3) && PageOk(page) && Walk(t.ram, cr3, page, 0).None?
    ensures HomeOf(t, cr3, page) in s ==> page !in s[HomeOf(t, cr3, page)]
  {
    hide Trees.Ok, Walk;
    if IsKernel(page) {
      KernelShared(t, cr3, page);
    }
    assert HomeOf(t, cr3, page) in s ==> RootHolds(t, HomeOf(t, cr3, page), s[HomeOf(t, cr3, page)]);
  }

  lemma KeptByExtending(t: Trees, t': Trees, added: set<nat>, home: nat, cr3: nat)
    requires t.Ok() && Extends(t, t', added, home) && t.IsRoot(cr3)
    ensures SameKernelEntries(t, t') && t'.IsRoot(cr3)
  {
    KernelIsRoot(t);
  }

  lemma AllocatedShows(t: Trees, t': Trees, v: View, lo: nat, hi: nat, added: set<nat>, page: Path, e: Pte,
                       execute: bool)
    requires t.Ok() && t'.Ok() && Shows(t, v.current, v, lo, hi) && Legal(t.ram, v, Allocate(page, execute))
    requires OnePageChanged(t, t', v.current, page, Some(e)) && Extends(t, t', added, v.Home(page))
    requires Maps(e, e.addr, true, execute) && e.addr in added && e.addr in t'.own && t'.own[e.addr].path == page
    requires lo <= e.addr < hi
    ensures Walk(t'.ram, v.current, page, 0) == Some(e) && e.addr in t'.ram && v.Home(page) in v.spaces
    ensures var v' := v.With(page, Page(t'.ram[e.addr], execute));
            Shows(t', v.current, v', lo, hi) && Step(v, Allocate(page, execute), v')
    ensures SameKernelEntries(t, t')
  {
    hide Trees.Ok, Walk, RootHolds, Extends, Maps, FromPool;
    ChangedHere(t, t', v.current, page, Some(e));
    AllocatedHolds(t, t', v.spaces, added, v.current, page, e, execute);
    NotYetThere(t, v.spaces, v.current, page);
    KeptByExtending(t, t', added, v.Home(page), v.current);
    KernelIsRoot(t);
    var v' := v.With(page, Page(t'.ram[e.addr], execute));
    FromPoolThere(t, v.spaces[v.kernel], lo, hi);
    StillFromPool(t, t', v.spaces[v.kernel], v'.spaces[v.kernel], lo, hi);
  }

  lemma FromPoolThere(t: Trees, pages: map<Path, Page>, lo: nat, hi: nat)
    requires FromPool(t, pages, lo, hi)
    ensures forall p :: p in pages ==> PageOk(p)
  {
  }

  // --- Runs ---

  method PerformAllocate(m: Memory, v: View, page: Path, execute: bool) returns (ok: bool, v': View)
    requires Serves(m, v) && Legal(m.ram, v, Allocate(page, execute))
    modifies m`ram, m`own, m.frames, m.frames.flags
    ensures !ok ==> m.frames.Exhausted()
    ensures ok ==> Serves(m, v') && Step(v, Allocate(page, execute), v')
    ensures ok ==> SameKernelEntries(old(m.Tree()), m.Tree())
  {
    hide Trees.Ok, Open, Trees.Filled, Pooled, FrameAllocator.Exhausted, OnePageChanged, Extends, Holds, Walk, Step,
      Maps, SameKernelEntries, FromPool;
    ghost var t := m.Tree();
    ghost var e, added;
    v' := v;
    ok, e, added := m.AllocateRamPage(page, execute);
    if ok {
      assert e.addr in m.frames.used;
      AllocatedShows(t, m.Tree(), v, m.frames.baseFrame, m.frames.baseFrame + m.frames.flags.Length, added, page, e,
                     execute);
      var g := Walk(m.ram, m.cr3, page, 0).value.addr;
      v' := v.With(page, Page(m.ram[g], execute));
    }
  }

  /** A listed page is mapped from the current root; one of the kernel's by a frame of the pool. */
  lemma ListedPage(t: Trees, v: View, lo: nat, hi: nat, page: Path)
    requires t.Ok() && Shows(t, v.current, v, lo, hi) && v.Has(page)
    ensures PageOk(page) && (IsKernel(page) || v.current != v.kernel)
    ensures Walk(t.ram, v.current, page, 0).Some?
            && Walk(t.ram, v.Home(page), page, 0) == Walk(t.ram, v.current, page, 0)
    ensures var e := Walk(t.ram, v.current, page, 0).value;
            && !e.huge && FrameShows(t, v.Home(page), page, e.addr, v.spaces[v.Home(page)][page].words)
            && (IsKernel(page) ==> lo <= e.addr < hi)
  {
    hide Trees.Ok, Walk;
    assert RootHolds(t, v.Home(page), v.spaces[v.Home(page)]);
    assert Shown(t, v.Home(page), page, v.spaces[v.Home(page)][page]);
    if IsKernel(page) {
      KernelShared(t, v.current, page);
      assert InRange(Walk(t.ram, t.kernel, page, 0), lo, hi);
    }
  }

  lemma DeallocatedShows(t: Trees, t': Trees, v: View, lo: nat, hi: nat, page: Path)
    requires t.Ok() && Shows(t, v.current, v, lo, hi) && v.Has(page) && PageOk(page)
    requires Walk(t.ram, v.current, page, 0).Some?
    requires t'.kernel == t.kernel && OnePageChanged(t, t', v.current, page, None)
    requires t'.own == t.own - {Walk(t.ram, v.current, page, 0).value.addr}
    requires forall f :: f in t.own && |t.own[f].path| == 4 ==> f in t.ram && f in t'.ram && t'.ram[f] == t.ram[f]
    requires forall r :: t.IsRoot(r) ==> t'.IsRoot(r) && SameKernelHalf(t, t', r)
    ensures var v' := v.(spaces := v.spaces[v.Home(page) := v.spaces[v.Home(page)] - {page}]);
            Shows(t', v.current, v', lo, hi) && Step(v, Deallocate(page), v')
    ensures SameKernelEntries(t, t')
  {
    hide Trees.Ok, Walk, RootHolds, FromPool;
    ListedPage(t, v, lo, hi, page);
    DeallocatedHolds(t, t', v.spaces, v.current, page);
    KernelIsRoot(t);
    var v' := v.(spaces := v.spaces[v.Home(page) := v.spaces[v.Home(page)] - {page}]);
    FromPoolThere(t, v.spaces[v.kernel], lo, hi);
    StillFromPool(t, t', v.spaces[v.kernel], v'.spaces[v.kernel], lo, hi);
  }

  method PerformDeallocate(m: Memory, v: View, page: Path) returns (v': View)
    requires Serves(m, v) && Legal(m.ram, v, Deallocate(page))
    modifies m`ram, m`own, m.frames, m.frames.flags
    ensures Serves(m, v') && Step(v, Deallocate(page), v') && SameKernelEntries(old(m.Tree()), m.Tree())
  {
    hide Trees.Ok, Open, Trees.Filled, Pooled, OnePageChanged, Holds, Walk, Step, SameKernelEntries, FromPool;
    ghost var t := m.Tree();
    ListedPage(t, v, m.frames.baseFrame, m.frames.baseFrame + m.frames.flags.Length, page);
    m.DeallocatePage(page);
    DeallocatedShows(t, m.Tree(), v, m.frames.baseFrame, m.frames.baseFrame + m.frames.flags.Length, page);
    v' := v.(spaces := v.spaces[v.Home(page) := v.spaces[v.Home(page)] - {page}]);
  }

  /** Where walks and what is listed for the kernel stay, its frames are of the pool as before. */
  lemma StillFromPoolSame(t: Trees, t': Trees, pages: map<Path, Page>, lo: nat, hi: nat)
    requires FromPool(t, pages, lo, hi) && t'.kernel == t.kernel
    requires forall p :: p in pages && PageOk(p) ==> Walk(t'.ram, t.kernel, p, 0) == Walk(t.ram, t.kernel, p, 0)
    ensures FromPool(t', pages, lo, hi)
  {
  }

  method PerformGenerate(m: Memory, v: View) returns (ok: bool, v': View)
    requires Serves(m, v)
    modifies m`ram, m`own, m.frames, m.frames.flags
    ensures !ok ==> m.frames.Exhausted()
    ensures ok ==> Serves(m, v') && Step(v, Generate, v') && SameKernelEntries(old(m.Tree()), m.Tree())
  {
    hide Trees.Ok, Open, Trees.Filled, Pooled, FrameAllocator.Exhausted, RootHolds, Walk, FromPool;
    ghost var t, lo, hi := m.Tree(), m.frames.baseFrame, m.frames.baseFrame + m.frames.flags.Length;
    v' := v;
    var root;
    KernelIsRoot(t);
    OwnedInRam(t);
    ok, root := m.GenerateCleanVirtualAddressing();
    if ok {
      GeneratedHolds(t, v.spaces, root);
      assert !t.IsRoot(root) && root !in v.spaces;
      StillFromPoolSame(t, m.Tree(), v.spaces[v.kernel], lo, hi);
      v' := v.(spaces := v.spaces[root := map[]]);
    }
  }

  method PerformClone(m: Memory, v: View, orig: nat) returns (ok: bool, v': View)
    requires Serves(m, v) && Legal(m.ram, v, Clone(orig))
    modifies m`ram, m`own, m`cr3, m.frames, m.frames.flags
    ensures !ok ==> m.frames.Exhausted()
    ensures ok ==> Serves(m, v') && Step(v, Clone(orig), v') && SameKernelEntries(old(m.Tree()), m.Tree())
  {
    hide Trees.Ok, Open, Trees.Filled, Pooled, FrameAllocator.Exhausted, RootHolds, Walk, Cloned, FromPool;
    ghost var t, used := m.Tree(), m.frames.used;
    ghost var lo, hi := m.frames.baseFrame, m.frames.baseFrame + m.frames.flags.Length;
    v' := v;
    var root;
    ghost var added;
    KernelIsRoot(t);
    OwnedInRam(t);
    ok, root, added := m.CloneVirtualAddressing(orig);
    if ok {
      ClonedHolds(t, m.Tree(), v.spaces, used, orig, root, added);
      StillFromPoolSame(t, m.Tree(), v.spaces[v.kernel], lo, hi);
      v' := View(v.spaces[root := v.spaces[orig]], orig, v.kernel);
    }
  }

  method PerformRemove(m: Memory, v: View) returns (v': View)
    requires Serves(m, v) && Legal(m.ram, v, Remove)
    modifies m, m.frames, m.frames.flags
    ensures Serves(m, v') && Step(v, Remove, v') && SameKernelEntries(old(m.Tree()), m.Tree())
  {
    hide Trees.Ok, Open, Trees.Filled, Pooled, RootHolds, Walk, FromPool, Lists;
    ghost var t, current := m.Tree(), m.cr3;
    ghost var lo, hi := m.frames.baseFrame, m.frames.baseFrame + m.frames.flags.Length;
    KernelIsRoot(t);
    OwnedInRam(t);
    ghost var s := m.RemoveVirtualAddressing();
    RemovedHolds(t, m.Tree(), v.spaces, current);
    StillFromPoolSame(t, m.Tree(), v.spaces[v.kernel], lo, hi);
    KernelHalfKept(t, m.Tree(), current);
    v' := View(v.spaces - {v.current}, v.kernel, v.kernel);
  }

  lemma KernelHalfKept(t: Trees, t': Trees, root: nat)
    requires t.Ok() && t.IsRoot(root) && root != t.kernel && t'.kernel == t.kernel
    requires SameBut(t.ram, t'.ram, Below(t.own, root, []))
    ensures SameKernelEntries(t, t')
  {
    hide Trees.Ok;
    KernelIsRoot(t);
    RootIsItself(t, t.kernel);
    OwnedInRam(t);
  }

  /** A program stores a word into a page it may write, that is, into any it has. */
  method PerformStore(m: Memory, v: View, page: Path, i: nat, word: Pte) returns (v': View)
    requires Serves(m, v) && Legal(m.ram, v, Store(page, i, word))
    modifies m`ram
    ensures Serves(m, v') && Step(v, Store(page, i, word), v') && SameKernelEntries(old(m.Tree()), m.Tree())
  {
    hide Trees.Ok, Open, Trees.Filled, Pooled, RootHolds, FromPool, Walk;
    ghost var t, lo, hi := m.Tree(), m.frames.baseFrame, m.frames.baseFrame + m.frames.flags.Length;
    ListedPage(t, v, lo, hi, page);
    KernelIsRoot(t);
    OwnedInRam(t);
    var g := Walk(m.ram, m.cr3, page, 0).value.addr;
    var p := v.spaces[v.Home(page)][page];
    StoredHolds(t, v.spaces, v.Home(page), page, p.words[i := word]);
    DataWritten(t, t.(ram := t.ram[g := p.words[i := word]]), g, p.words[i := word]);
    DataOpen(t, g, p.words[i := word]);
    PooledData(t, g, p.words[i := word], m.frames.used, lo, hi);
    m.ram := m.ram[g := m.ram[g][i := word]];
    v' := v.With(page, p.(words := p.words[i := word]));
    FromPoolThere(t, v.spaces[v.kernel], lo, hi);
    StillFromPool(t, m.Tree(), v.spaces[v.kernel], v'.spaces[v.kernel], lo, hi);
  }

  lemma SameEntriesAtOnce(t: Trees)
    requires t.Ok()
    ensures SameKernelEntries(t, t)
  {
    KernelIsRoot(t);
    OwnedInRam(t);
  }

  lemma SameEntriesThen(t: Trees, t1: Trees, t2: Trees)
    requires SameKernelEntries(t, t1) && SameKernelEntries(t1, t2)
    ensures SameKernelEntries(t, t2)
  {
  }

  /** `set_pml4_phys`. */
  method PerformSwitch(m: Memory, v: View, root: nat) returns (v': View)
    requires Serves(m, v) && Legal(m.ram, v, Switch(root))
    modifies m`cr3
    ensures Serves(m, v') && Step(v, Switch(root), v') && SameKernelEntries(old(m.Tree()), m.Tree())
  {
    hide Trees.Ok, Open, Trees.Filled, Pooled, RootHolds, FromPool, Walk;
    SameEntriesAtOnce(m.Tree());
    m.cr3 := root;
    v' := v.(current := root);
  }

  /** One call: what is seen changes by a permitted step. */
  method Perform(m: Memory, v: View, c: Call) returns (ok: bool, v': View)
    requires Serves(m, v) && Legal(m.ram, v, c)
    modifies m, m.frames, m.frames.flags
    ensures !ok ==> m.frames.Exhausted()
    ensures ok ==> Serves(m, v') && Step(v, c, v') && SameKernelEntries(old(m.Tree()), m.Tree())
  {
    hide Memory.Valid, Holds, FromPool, FrameAllocator.Exhausted, SameKernelEntries, Walk;
    ok := true;
    match c
    case Allocate(page, execute) =>
      ok, v' := PerformAllocate(m, v, page, execute);
    case Deallocate(page) =>
      v' := PerformDeallocate(m, v, page);
    case Generate =>
      ok, v' := PerformGenerate(m, v);
    case Clone(root) =>
      ok, v' := PerformClone(m, v, root);
    case Remove =>
      v' := PerformRemove(m, v);
    case Switch(root) =>
      v' := PerformSwitch(m, v, root);
    case Store(page, i, word) =>
      v' := PerformStore(m, v, page, i, word);
  }

  /**
    Any run: after every call each address space has exactly the pages, with the contents and
    the permission to execute, that the steps say, and the kernel half of every root is as it
    was at the start. The run goes on to the first call that breaks a rule, or until no frame
    is left.
   */
  method Run(m: Memory, v: View, calls: seq<Call>) returns (n: nat, views: seq<View>, ghost states: seq<Trees>)
    requires Serves(m, v)
    modifies m, m.frames, m.frames.flags
    ensures n <= |calls| && |views| == |states| == n + 1 && views[0] == v && states[0] == old(m.Tree())
    ensures forall i :: 0 <= i <= n ==>
              && states[i].Ok() && SameKernelEntries(states[0], states[i])
              && Holds(states[i], views[i].spaces) && RightsHold(states[i], views[i].spaces)
              && states[i].IsRoot(views[i].current)
    ensures forall i, j :: 0 <= i < n && j == i + 1 ==> Step(views[i], calls[i], views[j])
    ensures n < |calls| ==> !Legal(states[n].ram, views[n], calls[n]) || m.frames.Exhausted()
    ensures n == |calls| ==> Serves(m, views[n]) && states[n] == m.Tree()
  {
    hide Trees.Ok, Memory.Valid, Holds, RightsHold, FromPool, FrameAllocator.Exhausted, SameKernelEntries, Step, Legal;
    n, views, states := 0, [v], [m.Tree()];
    ServesParts(m, v);
    while n < |calls| && Legal(m.ram, views[n], calls[n])
      invariant n <= |calls| && |views| == |states| == n + 1 && views[0] == v && states[0] == old(m.Tree())
      invariant Serves(m, views[n]) && states[n] == m.Tree()
      invariant forall i :: 0 <= i <= n ==>
                  && states[i].Ok() && SameKernelEntries(states[0], states[i])
                  && Holds(states[i], views[i].spaces) && RightsHold(states[i], views[i].spaces)
                  && states[i].IsRoot(views[i].current)
      invariant forall i, j :: 0 <= i < n && j == i + 1 ==> Step(views[i], calls[i], views[j])
      decreases |calls| - n
    {
      var ok, next := Perform(m, views[n], calls[n]);
      if !ok {
        return;
      }
      SameEntriesThen(states[0], states[n], m.Tree());
      ServesParts(m, next);
      views, states := views + [next], states + [m.Tree()];
      n := n + 1;
    }
  }

  lemma ServesParts(m: Memory, v: View)
    requires Serves(m, v)
    ensures m.Tree().Ok() && SameKernelEntries(m.Tree(), m.Tree())
    ensures Holds(m.Tree(), v.spaces) && RightsHold(m.Tree(), v.spaces) && m.Tree().IsRoot(v.current)
  {
    hide Trees.Ok, Open, Holds, RightsHold;
    HeldRights(m.Tree(), v.spaces);
    SameEntriesAtOnce(m.Tree());
  }
}
