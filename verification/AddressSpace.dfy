/**
  Mapping, sharing, cloning and tearing down address spaces (stuos/src/memory.c).
  Addresses of tables are frame numbers; a virtual page is its path of four indices.
  Where the source halts on a broken rule the model asserts the rule; where it halts
  because no frame is left, the method returns `ok` false.
 */
module AddressSpaces {
  import opened Options
  import opened FrameAllocators
  import opened PageTables
  import opened PageSteps
  import opened PageCopies
  import opened PageRights

  /** What `setup_page_table_entry` makes of the entry for a new table at frame `g`. */
  function TableEntry(was: Pte, g: nat): Pte {
    was.(global := false, addr := g, huge := false, pcd := false, pwt := true, user := true, readWrite := true,
          present := true, nx := false)
  }

  /** What `map_page` makes of the last-level entry. */
  function LeafEntry(was: Pte, g: nat, canCache: bool, canExecute: bool): Pte {
    was.(global := false, addr := g, huge := false, pcd := !canCache, pwt := true, user := true, readWrite := true,
          present := true, nx := !canExecute)
  }

  /** An entry that maps frame `g` as asked. */
  predicate Maps(e: Pte, g: nat, canCache: bool, canExecute: bool) {
    e.present && e.addr == g && !e.huge && !e.global && e.pcd == !canCache && e.pwt && e.user && e.readWrite
    && e.nx == !canExecute
  }

  /** The word that 0xEE in every byte makes. */
  const POISON: Pte := Pte(false, true, true, true, false, true, true, true, false, 7, 0xEE_EEEE_EEEE, 0x6EE, true)

  /** Frames of the pool exist; recorded ones are in use; only the kernel records others. */
  ghost predicate Pooled(t: Trees, used: set<nat>, lo: nat, hi: nat) {
    && (forall f :: lo <= f < hi ==> f in t.ram && |t.ram[f]| == 512)
    && (forall f :: f in t.own && lo <= f < hi ==> f in used)
    && (forall f :: f in t.own && t.own[f].root != t.kernel ==> lo <= f < hi)
  }

  lemma PooledGrown(t: Trees, f: nat, i: nat, e: Pte, g: nat, blank: seq<Pte>, used: set<nat>, lo: nat, hi: nat)
    requires Pooled(t, used, lo, hi) && f in t.own && f in t.ram && |t.ram[f]| == 512 && i < 512
    requires lo <= g < hi && |blank| == 512
    ensures Pooled(t.Grown(f, i, e, g, blank), used + {g}, lo, hi)
  {
  }

  lemma PooledFrame(t: Trees, used: set<nat>, lo: nat, hi: nat, g: nat)
    requires Pooled(t, used, lo, hi) && lo <= g < hi
    ensures g in t.ram && |t.ram[g]| == 512 && (g !in used ==> g !in t.own)
  {
  }

  class Memory {
    const frames: FrameAllocator
    var ram: Ram
    /** The frame of the current root. */
    var cr3: nat
    /** The original kernel page table. */
    var kernelRoot: nat
    ghost var own: map<nat, Place>

    /** The tables as the boot loader left them; `own` records what they are used for. */
    constructor (frames: FrameAllocator, ram: Ram, root: nat, ghost own: map<nat, Place>)
      ensures this.frames == frames && Tree() == Trees(ram, own, root) && cr3 == root
    {
      this.frames, this.ram, cr3, kernelRoot, this.own := frames, ram, root, root, own;
    }

    ghost function Tree(): Trees
      reads this
    {
      Trees(ram, own, kernelRoot)
    }

    ghost predicate Sound()
      reads this, frames, frames.flags
    {
      && frames.Valid()
      && Tree().Ok()
      && Tree().IsRoot(cr3)
      && Open(Tree())
      && Pooled(Tree(), frames.used, frames.baseFrame, frames.baseFrame + frames.flags.Length)
    }

    ghost predicate Valid()
      reads this, frames, frames.flags
    {
      Sound() && Tree().Filled()
    }

    /** Mark all entries of a new table absent; other bits stay as the frame held them. */
    method ClearTable(g: nat) returns (ghost blank: seq<Pte>)
      requires g in ram && |ram[g]| == 512
      modifies this`ram
      ensures ram == old(ram)[g := blank] && Empty(blank)
    {
      var table := ram[g];
      var i := 0;
      while i < 512
        invariant 0 <= i <= 512 && |table| == 512
        invariant forall k :: 0 <= k < i ==> !table[k].present
      {
        table := table[i := table[i].(present := false, addr := 0)];
        i := i + 1;
      }
      ram := ram[g := table];
      blank := table;
    }

    method SetupPageTableEntry(f: nat, i: nat) returns (ok: bool, ghost g: nat, ghost e: Pte, ghost blank: seq<Pte>)
      requires Sound() && f in own && |own[f].path| < 3 && i < 512
      requires f in ram && |ram[f]| == 512 && !ram[f][i].present
      requires own[f].path == [] && i < 256 ==> f != kernelRoot
      requires own[f].path == [] && i >= 256 ==> forall r :: Tree().IsRoot(r) ==> r == kernelRoot
      modifies this`ram, this`own, frames, frames.flags
      ensures ok ==> Sound() && CanGrow(old(Tree()), f, i, e, g, blank)
      ensures ok ==> e.user && e.readWrite && !e.nx
      ensures ok ==> Tree() == old(Tree()).Grown(f, i, e, g, blank)
      ensures ok ==> g !in old(frames.used) && frames.used == old(frames.used) + {g}
      ensures frames.freed == old(frames.freed)
      ensures !ok ==> frames.Exhausted()
    {
      hide Trees.Ok, Open, Trees.Grown, Trees.PlaceBelow, Pooled, FrameAllocator.Exhausted, Empty;
      ghost var t, used := Tree(), frames.used;
      g, e, blank := 0, TableEntry(ram[f][i], 0), [];
      var phys;
      ok, phys := frames.Malloc4k();
      if !ok {
        return;
      }
      g := FrameOf(phys);
      e := TableEntry(ram[f][i], g);
      PooledFrame(t, used, frames.baseFrame, frames.baseFrame + frames.flags.Length, g);
      blank := ClearTable(FrameOf(phys));
      ram := ram[f := ram[f][i := TableEntry(ram[f][i], FrameOf(phys))]];
      own := own[g := t.PlaceBelow(f, i)];
      GrownStep(t, f, i, e, g, blank);
      GrownOpen(t, f, i, e, g, blank);
      PooledGrown(t, f, i, e, g, blank, used, frames.baseFrame, frames.baseFrame + frames.flags.Length);
      GrownIs(t, Tree(), f, i, e, g, blank);
    }

    /** Give the original table all 256 top entries of the kernel half, so that every root can share them. */
    method FillKernelPml4() returns (ok: bool)
      requires Sound() && cr3 == kernelRoot && forall r :: Tree().IsRoot(r) ==> r == kernelRoot
      requires kernelRoot in ram && |ram[kernelRoot]| == 512
      requires forall i :: 256 <= i < 512 && ram[kernelRoot][i].present ==> !ram[kernelRoot][i].huge
      modifies this`ram, this`own, frames, frames.flags
      ensures ok ==> Valid() && SameWalks(old(Tree()), Tree())
      ensures ok ==> kernelRoot in ram && |ram[kernelRoot]| == 512 && forall i :: 0 <= i < 512 ==>
                && (i < 256 || old(ram[kernelRoot][i]).present ==> ram[kernelRoot][i] == old(ram[kernelRoot][i]))
                && (i >= 256 ==> ram[kernelRoot][i].present)
      ensures !ok ==> frames.Exhausted()
    {
      hide Trees.Ok, Open, Trees.Grown, Pooled, FrameAllocator.Exhausted, FrameAllocator.Valid, Empty, SameWalks;
      ghost var t0 := Tree();
      ExtendsNot(t0, 0);
      KernelIsItself(t0);
      ok := true;
      var i := 256;
      while i <= 511
        invariant 256 <= i <= 512 && ok
        invariant Sound() && cr3 == kernelRoot && SameWalks(t0, Tree())
        invariant Tree().kernel == t0.kernel && forall f :: f in t0.own ==> f in own && own[f] == t0.own[f]
        invariant forall r :: Tree().IsRoot(r) ==> r == kernelRoot
        invariant kernelRoot in ram && |ram[kernelRoot]| == 512 && kernelRoot in own && own[kernelRoot].path == []
        invariant forall k :: 256 <= k < i ==> ram[kernelRoot][k].present && !ram[kernelRoot][k].huge
        invariant forall k :: 0 <= k < 512 && (k < 256 || k >= i || t0.ram[kernelRoot][k].present) ==>
                    ram[kernelRoot][k] == t0.ram[kernelRoot][k]
      {
        if !ram[cr3][i].present {
          ghost var t, g, e, blank := Tree(), 0, TableEntry(ram[cr3][i], 0), [];
          ok, g, e, blank := SetupPageTableEntry(cr3, i);
          if !ok {
            return;
          }
          GrownStep(t, cr3, i, e, g, blank);
          SameWalksThen(t0, t, Tree());
          GrownKeeps(t, cr3, i, e, g, blank);
        }
        i := i + 1;
      }
      NowFilled(Tree());
    }

    /** The next table on the way to `page`, set up if it is missing. */
    method EnsureTable(f: nat, page: Path, n: nat, ghost home: nat) returns (ok: bool, next: nat, ghost added: set<nat>)
      requires Valid() && PageOk(page) && n < 3
      requires f in own && own[f].path == page[..n] && home == (if IsKernel(page) then kernelRoot else own[f].root)
      requires n == 0 && !IsKernel(page) ==> f != kernelRoot
      requires Walk(ram, f, page, n).None?
      modifies this`ram, this`own, frames, frames.flags
      ensures frames.freed == old(frames.freed)
      ensures ok ==> Valid() && SameWalks(old(Tree()), Tree())
      ensures ok ==> next in own && own[next].path == page[..n + 1] && own[next].root == home
      ensures ok ==> Walk(ram, next, page, n + 1).None?
      ensures ok ==> Extends(old(Tree()), Tree(), added, home)
      ensures ok ==> added !! old(frames.used) && frames.used == old(frames.used) + added
      ensures !ok ==> frames.Exhausted()
    {
      hide Trees.Ok, Open, Trees.Grown, Trees.Filled, Pooled, FrameAllocator.Exhausted, FrameAllocator.Valid, SameWalks,
        Extends;
      ghost var t := Tree();
      DownFacts(t, f, page[n]);
      TopFacts(t, f, page, n);
      ExtendsNot(t, home);
      ok, added := true, {};
      if !ram[f][page[n]].present {
        ghost var g, e, blank := 0, TableEntry(ram[f][page[n]], 0), [];
        ok, g, e, blank := SetupPageTableEntry(f, page[n]);
        if !ok {
          next := 0;
          return;
        }
        GrownStep(t, f, page[n], e, g, blank);
        GrownKeeps(t, f, page[n], e, g, blank);
        added := {g};
      }
      next := ram[f][page[n]].addr;
      DownFacts(Tree(), f, page[n]);
      TopFacts(Tree(), f, page, n);
    }

    /** The last-level table for `page` under the current root: up to three tables are set up. */
    method EnsureTables(page: Path, ghost home: nat) returns (ok: bool, pt: nat, ghost added: set<nat>)
      requires Valid() && PageOk(page) && Walk(ram, cr3, page, 0).None?
      requires !IsKernel(page) ==> cr3 != kernelRoot
      requires home == if IsKernel(page) then kernelRoot else cr3
      modifies this`ram, this`own, frames, frames.flags
      ensures frames.freed == old(frames.freed)
      ensures ok ==> Valid() && SameWalks(old(Tree()), Tree())
      ensures ok ==> pt in own && own[pt].path == page[..3] && own[pt].root == home
      ensures ok ==> Walk(ram, pt, page, 3).None?
      ensures ok ==> Extends(old(Tree()), Tree(), added, home)
      ensures ok ==> added !! old(frames.used) && frames.used == old(frames.used) + added
      ensures !ok ==> frames.Exhausted()
    {
      hide Trees.Ok, Open, Trees.Filled, Pooled, FrameAllocator.Exhausted, FrameAllocator.Valid, SameWalks, Walk,
        Extends;
      ghost var t := Tree();
      RootIsItself(t, cr3);
      var pdpt, pd;
      ghost var a1, a2, a3;
      pt, added := 0, {};
      ok, pdpt, a1 := EnsureTable(cr3, page, 0, home);
      if !ok {
        return;
      }
      ghost var t1 := Tree();
      ok, pd, a2 := EnsureTable(pdpt, page, 1, home);
      if !ok {
        return;
      }
      ghost var t2 := Tree();
      ok, pt, a3 := EnsureTable(pd, page, 2, home);
      if !ok {
        return;
      }
      added := a1 + a2 + a3;
      ExtendsThen(t, t1, t2, a1, a2, home);
      ExtendsThen(t, t2, Tree(), a1 + a2, a3, home);
      ExtendsOwn(t, t1, a1, home);
      ExtendsOwn(t, t2, a1 + a2, home);
      SameWalksThen(t, t1, t2);
      SameWalksThen(t, t2, Tree());
    }

    /**
      One page more under the current root, or under all roots for a kernel page. The
      source halts on a page already mapped and on an unaligned frame. Memory of the pool
      must have been allocated; only the kernel maps other memory.
     */
    method MapPage(phys: nat, page: Path, canCache: bool, canExecute: bool)
      returns (ok: bool, ghost e: Pte, ghost added: set<nat>)
      requires Valid() && PageOk(page) && phys % 4096 == 0 && Walk(ram, cr3, page, 0).None?
      requires !IsKernel(page) ==> cr3 != kernelRoot && frames.InPool(FrameOf(phys))
      requires frames.InPool(FrameOf(phys)) ==> FrameOf(phys) in frames.used && FrameOf(phys) !in own
      modifies this`ram, this`own, frames, frames.flags
      ensures frames.freed == old(frames.freed)
      ensures ok ==> Valid() && Maps(e, FrameOf(phys), canCache, canExecute)
      ensures ok ==> OnePageChanged(old(Tree()), Tree(), cr3, page, Some(e))
      ensures ok ==>
                Extends(old(Tree()), Tree(), added + (if frames.InPool(FrameOf(phys)) then {FrameOf(phys)} else {}),
                        if IsKernel(page) then kernelRoot else cr3)
      ensures ok ==> added !! old(frames.used) && frames.used == old(frames.used) + added
      ensures ok && frames.InPool(FrameOf(phys)) ==> FrameOf(phys) in own && own[FrameOf(phys)].path == page
      ensures ok && !IsKernel(page) ==> Access(ram, cr3, page, 0) == Some(Rights(true, true, canExecute))
      ensures ok ==> e.pcd == !canCache && e.addr == FrameOf(phys)
      ensures !ok ==> frames.Exhausted()
    {
      hide Trees.Ok, Open, Trees.Filled, Pooled, FrameAllocator.Exhausted, FrameAllocator.Valid, SameWalks,
        OnePageChanged, Trees.Home, Extends, Access;
      ghost var t, home := Tree(), if IsKernel(page) then kernelRoot else cr3;
      ghost var g := FrameOf(phys);
      ghost var ours := frames.InPool(g);
      var pt;
      e := TableEntry(POISON, 0);
      ok, pt, added := EnsureTables(page, home);
      if !ok {
        return;
      }
      ghost var t1, used1 := Tree(), frames.used;
      var i := page[3];
      assert page == page[..3] + [i];
      TableSize(t1, pt);
      if ours {
        ExtendsOwn(t, t1, added, home);
        PooledFrame(t1, used1, frames.baseFrame, frames.baseFrame + frames.flags.Length, g);
      }
      e := LeafEntry(ram[pt][i], g, canCache, canExecute);
      ram := ram[pt := ram[pt][i := LeafEntry(ram[pt][i], FrameOf(phys), canCache, canExecute)]];
      own := if ours then own[g := t1.PlaceBelow(pt, i)] else own;
      MappedStep(t1, pt, i, e, ours, page, cr3);
      MappedOpen(t1, pt, i, e, ours);
      MappedIs(t1, Tree(), pt, i, e, ours);
      PooledMapped(t1, pt, i, e, ours, used1, frames.baseFrame, frames.baseFrame + frames.flags.Length);
      ExtendsOwn(t, t1, added, home);
      ExtendsThen(t, t1, Tree(), added, if ours then {g} else {}, home);
      ChangedAfterSame(t, t1, Tree(), cr3, page, Some(e));
      ChangedHere(t, Tree(), cr3, page, e);
      if !IsKernel(page) {
        RootRights(Tree(), cr3, page);
      }
    }

    /** A page of RAM, fresh from the frame allocator; what it holds is not known. */
    method AllocateRamPage(page: Path, canExecute: bool) returns (ok: bool, ghost e: Pte, ghost added: set<nat>)
      requires Valid() && PageOk(page) && Walk(ram, cr3, page, 0).None?
      requires !IsKernel(page) ==> cr3 != kernelRoot
      modifies this`ram, this`own, frames, frames.flags
      ensures frames.freed == old(frames.freed)
      ensures ok ==> Valid() && Maps(e, e.addr, true, canExecute) && e.addr in added
      ensures ok ==> e.addr in own && own[e.addr].path == page
      ensures ok && !IsKernel(page) ==> Access(ram, cr3, page, 0) == Some(Rights(true, true, canExecute))
      ensures ok ==> OnePageChanged(old(Tree()), Tree(), cr3, page, Some(e))
      ensures ok ==> Extends(old(Tree()), Tree(), added, if IsKernel(page) then kernelRoot else cr3)
      ensures ok ==> added !! old(frames.used) && frames.used == old(frames.used) + added
      ensures !ok ==> frames.Exhausted()
    {
      hide Trees.Ok, Open, Trees.Filled, Pooled, FrameAllocator.Exhausted, FrameAllocator.Valid, OnePageChanged,
        Extends;
      ghost var t, used := Tree(), frames.used;
      e, added := TableEntry(POISON, 0), {};
      var phys;
      ok, phys := frames.Malloc4k();
      if !ok {
        return;
      }
      PooledFrame(t, used, frames.baseFrame, frames.baseFrame + frames.flags.Length, FrameOf(phys));
      PooledMore(t, used, frames.used, frames.baseFrame, frames.baseFrame + frames.flags.Length);
      ok, e, added := MapPage(phys, page, true, canExecute);
      added := added + {FrameOf(phys)};
    }

    /** A new root: the kernel's half shared, the user half empty. */
    method GenerateCleanVirtualAddressing() returns (ok: bool, root: nat)
      requires Valid()
      modifies this`ram, this`own, frames, frames.flags
      ensures frames.freed == old(frames.freed)
      ensures ok ==> Valid() && kernelRoot in old(ram) && root !in old(own) && Tree() == old(Tree()).Rooted(root)
      ensures ok ==> root !in old(frames.used) && frames.used == old(frames.used) + {root}
      ensures ok ==> SameWalks(old(Tree()), Tree())
      ensures ok ==> forall page :: PageOk(page) ==>
                Walk(ram, root, page, 0) == if IsKernel(page) then Walk(old(ram), kernelRoot, page, 0) else None
      ensures !ok ==> frames.Exhausted()
    {
      hide Trees.Ok, Open, Trees.Filled, Pooled, FrameAllocator.Exhausted, FrameAllocator.Valid, SameWalks;
      ghost var t, used := Tree(), frames.used;
      root := 0;
      var phys;
      ok, phys := frames.Malloc4k();
      if !ok {
        return;
      }
      root := FrameOf(phys);
      PooledFrame(t, used, frames.baseFrame, frames.baseFrame + frames.flags.Length, root);
      KernelIsItself(t);
      KernelFacts(t, kernelRoot);
      ram := ram[root := ram[kernelRoot]];
      var i := 0;
      while i < 256
      {
        assert !ram[root][0].present;
        i := i + 1;
      }
      own := own[root := Place(root, [], root)];
      RootedStep(t, root);
      RootedOpen(t, root);
      PooledRooted(t, root, used, frames.baseFrame, frames.baseFrame + frames.flags.Length);
    }

    /**
      A kernel page mapped under one root is seen under all others, and under a root made
      afterwards; a user page only under its own.
     */
    method MapThenGenerate(phys: nat, page: Path, canCache: bool, canExecute: bool)
      returns (ok: bool, root: nat, ghost e: Pte)
      requires Valid() && PageOk(page) && phys % 4096 == 0 && Walk(ram, cr3, page, 0).None?
      requires !IsKernel(page) ==> cr3 != kernelRoot && frames.InPool(FrameOf(phys))
      requires frames.InPool(FrameOf(phys)) ==> FrameOf(phys) in frames.used && FrameOf(phys) !in own
      modifies this`ram, this`own, frames, frames.flags
      ensures ok ==> Valid() && Maps(e, FrameOf(phys), canCache, canExecute)
      ensures ok ==> Walk(ram, root, page, 0) == if IsKernel(page) then Some(e) else None
      ensures ok ==> forall r :: old(Tree()).IsRoot(r) ==>
                Walk(ram, r, page, 0) == if r == cr3 || IsKernel(page) then Some(e) else Walk(old(ram), r, page, 0)
      ensures !ok ==> frames.Exhausted()
    {
      hide Trees.Ok, Open, Trees.Filled, Pooled, FrameAllocator.Exhausted, FrameAllocator.Valid, Walk;
      ghost var t := Tree();
      root := 0;
      ghost var added;
      ok, e, added := MapPage(phys, page, canCache, canExecute);
      if !ok {
        return;
      }
      ghost var t1 := Tree();
      ok, root := GenerateCleanVirtualAddressing();
      if ok {
        KernelIsRoot(t);
        KernelIsRoot(t1);
      }
    }

    /** The state while the tree of `orig`, as it was in `t0`, is copied to the current root. */
    ghost predicate Copying(t0: Trees, used0: set<nat>, orig: nat)
      reads this, frames, frames.flags
    {
      && Valid() && t0.Ok() && t0.IsRoot(orig) && cr3 != kernelRoot
      && used0 <= frames.used && Intact(t0, Tree(), cr3)
    }

    /** Allocate the page and copy the old frame's bytes to wherever the processor now finds it. */
    method ClonePage(f: nat, page: Path, ghost t0: Trees, ghost used0: set<nat>, ghost orig: nat)
      returns (ok: bool, ghost added: set<nat>)
      requires Copying(t0, used0, orig) && PageOk(page) && !IsKernel(page)
      requires f in t0.own && t0.own[f].root == orig && t0.own[f].path == page[..3]
      requires f in ram && |ram[f]| == 512 && ram[f][page[3]].present
      requires ClonedUpTo(t0, used0, ram, orig, cr3, page[..3], page[3])
      modifies this`ram, this`own, frames, frames.flags
      ensures frames.freed == old(frames.freed)
      ensures ok ==> Copying(t0, used0, orig)
      ensures ok ==> ClonedUpTo(t0, used0, ram, orig, cr3, page[..3], page[3] + 1)
      ensures ok ==> SameElsewhere(old(Tree()), Tree(), cr3, page[..3] + [page[3]])
      ensures ok ==> Extends(old(Tree()), Tree(), added, cr3)
      ensures ok ==> added !! old(frames.used) && frames.used == old(frames.used) + added
      ensures !ok ==> frames.Exhausted()
    {
      hide Trees.Ok, Open, Trees.Filled, Trees.NodeOk, Pooled, FrameAllocator.Exhausted, FrameAllocator.Valid,
        SameWalks, Walk, Extends, ClonedUpTo, SameElsewhere, OnePageChanged, Intact;
      ghost var t := Tree();
      var d := ram[f][page[3]];
      IntactFrame(t0, t, cr3, f);
      ChildFacts(t0, f, page[..3], page[3]);
      IntactFrame(t0, t, cr3, d.addr);
      NotYet(t0, used0, ram, orig, cr3, page);
      ghost var e;
      ok, e, added := AllocateRamPage(page, !d.nx);
      if !ok {
        return;
      }
      ghost var t1 := Tree();
      IntactKept(t0, t, t1, added, cr3);
      IntactFrame(t0, t1, cr3, d.addr);
      ChangedHere(t, t1, cr3, page, e);
      WalkEnds(t1, cr3, page, 0);
      var g := Walk(ram, cr3, page, 0).value.addr;
      ram := ram[g := ram[d.addr]];
      PageCloned(t0, used0, t, t1, Tree(), added, orig, cr3, f, page, e, ram[g]);
      IntactKept(t0, t, Tree(), added, cr3);
      DataOpen(t1, g, ram[g]);
      PooledData(t1, g, ram[g], frames.used, frames.baseFrame, frames.baseFrame + frames.flags.Length);
      ExtendsOwn(t, t1, added, cr3);
    }

    /**
      The four nested loops of the walk, one level per call: below table `f` at path `p`,
      every mapped page gets a page of its own under the current root, with the same bytes.
     */
    method CloneTable(f: nat, p: Path, ghost t0: Trees, ghost used0: set<nat>, ghost orig: nat)
      returns (ok: bool, ghost added: set<nat>)
      requires Copying(t0, used0, orig) && |p| < 4 && !IsKernel(p)
      requires f in t0.own && t0.own[f].root == orig && t0.own[f].path == p
      requires ClonedUpTo(t0, used0, ram, orig, cr3, p, 0)
      modifies this`ram, this`own, frames, frames.flags
      ensures frames.freed == old(frames.freed)
      ensures ok ==> Copying(t0, used0, orig)
      ensures ok ==> ClonedUpTo(t0, used0, ram, orig, cr3, p, 512) && SameElsewhere(old(Tree()), Tree(), cr3, p)
      ensures ok ==> Extends(old(Tree()), Tree(), added, cr3)
      ensures ok ==> added !! old(frames.used) && frames.used == old(frames.used) + added
      ensures !ok ==> frames.Exhausted()
      decreases 4 - |p|
    {
      hide Trees.Ok, Open, Trees.Filled, Trees.NodeOk, Pooled, FrameAllocator.Exhausted, FrameAllocator.Valid,
        SameWalks, Walk, Extends, ClonedUpTo, SameElsewhere, OnePageChanged, Maps, Intact;
      ghost var t := Tree();
      var n := if p == [] then 256 else 512;
      ok, added := true, {};
      ExtendsNot(t, cr3);
      SameElsewhereNot(t, cr3, p);
      var i := 0;
      while i < n
        invariant 0 <= i <= n && ok
        invariant Copying(t0, used0, orig) && frames.freed == old(frames.freed)
        invariant ClonedUpTo(t0, used0, ram, orig, cr3, p, i) && SameElsewhere(t, Tree(), cr3, p)
        invariant Extends(t, Tree(), added, cr3)
        invariant added !! old(frames.used) && frames.used == old(frames.used) + added
      {
        TableSize(t0, f);
        IntactFrame(t0, Tree(), cr3, f);
        if !ram[f][i].present {
          SkipAbsent(t0, used0, ram, orig, cr3, f, p, i);
        } else {
          ghost var a, t1 := {}, Tree();
          ChildFacts(t0, f, p, i);
          if |p| == 3 {
            assert (p + [i])[..3] == p;
            ok, a := ClonePage(f, p + [i], t0, used0, orig);
          } else {
            ClonedFrom(t0, used0, ram, orig, cr3, p, i);
            ok, a := CloneTable(ram[f][i].addr, p + [i], t0, used0, orig);
          }
          if !ok {
            return;
          }
          if |p| < 3 {
            SubtreeCloned(t0, used0, t1, Tree(), a, orig, cr3, p, i);
          }
          SameElsewhereThen(t, t1, Tree(), cr3, p, i);
          ExtendsThen(t, t1, Tree(), added, a, cr3);
          added := added + a;
        }
        i := i + 1;
      }
      AllCloned(t0, used0, ram, orig, cr3, p, n);
    }

    /**
      A second address space with the same user pages: same contents, same execute
      permission, every frame new. Nothing that existed before is written, and the kernel
      half is shared.
     */
    method CloneVirtualAddressing(orig: nat) returns (ok: bool, root: nat, ghost added: set<nat>)
      requires Valid() && Tree().IsRoot(orig) && orig != kernelRoot
      modifies this`ram, this`own, this`cr3, frames, frames.flags
      ensures frames.freed == old(frames.freed)
      ensures ok ==> Valid() && cr3 == orig && Tree().IsRoot(root) && root != kernelRoot && root in added
      ensures ok ==> forall page :: PageOk(page) && !IsKernel(page) ==>
                Cloned(old(Tree()), old(frames.used), ram, orig, root, page)
      ensures ok ==> forall page :: PageOk(page) && !IsKernel(page) ==>
                Access(ram, root, page, 0) == Access(old(ram), orig, page, 0)
      ensures ok ==> forall page :: PageOk(page) && IsKernel(page) ==>
                Walk(ram, root, page, 0) == Walk(old(ram), kernelRoot, page, 0)
      ensures ok ==> SameWalks(old(Tree()), Tree())
      ensures ok ==> forall f :: f in old(ram) && f !in added ==> f in ram && ram[f] == old(ram[f])
      ensures ok ==> own.Keys == old(own.Keys) + added && added !! old(own.Keys)
      ensures ok ==> forall f :: f in own ==> if f in old(own) then own[f] == old(own[f]) else own[f].root == root
      ensures ok ==> added !! old(frames.used) && frames.used == old(frames.used) + added
      ensures !ok ==> frames.Exhausted()
    {
      hide Trees.Ok, Open, Trees.Filled, Trees.NodeOk, Pooled, FrameAllocator.Exhausted, FrameAllocator.Valid,
        SameWalks, Walk, Extends, ClonedUpTo, SameElsewhere, Cloned, Intact, Trees.Rooted;
      ghost var t0, used0 := Tree(), frames.used;
      added := {};
      ok, root := GenerateCleanVirtualAddressing();
      if !ok {
        return;
      }
      ghost var t1 := Tree();
      cr3 := root;
      RootedFacts(t0, t1, root);
      NothingClonedYet(t0, used0, ram, orig, root);
      RootIsItself(t0, orig);
      ok, added := CloneTable(orig, [], t0, used0, orig);
      if !ok {
        return;
      }
      CloneDone(t0, t1, Tree(), used0, orig, root, added);
      CloneFrames(t0, t1, Tree(), root, added);
      ExtendsOwn(t1, Tree(), added, root);
      cr3 := orig;
      StillRoot(t0, Tree(), orig);
      StillRoot(t1, Tree(), root);
      RightsCloned(t0, Tree(), used0, orig, root);
      added := added + {root};
    }

    /** One user page: overwrite it with 0xEE and give the frame back. */
    method RemovePage(g: nat)
      requires frames.Valid() && frames.InPool(g) && g in ram
      modifies this`ram, frames, frames.flags
      ensures frames.Valid() && frames.used == old(frames.used) - {g} && frames.freed == old(frames.freed) + [g]
      ensures ram == old(ram)[g := seq(512, _ => POISON)]
    {
      var phys := PhysOf(g);
      FrameOfPhys(g);
      ram := ram[g := seq(512, _ => POISON)];
      frames.Free4k(phys);
    }

    /**
      The four nested loops of the walk, one level per call: every page and every table
      below table `f`, and the table itself, is given back once.
     */
    method RemoveTable(f: nat, p: Path, ghost t0: Trees, ghost root: nat) returns (ghost s: seq<nat>)
      requires frames.Valid() && t0.Ok() && root != t0.kernel && |p| < 4 && !IsKernel(p)
      requires f in t0.own && t0.own[f].root == root && t0.own[f].path == p
      requires TablesIntact(t0, ram, root)
      requires forall g :: g in Below(t0.own, root, p) ==> frames.InPool(g) && g in ram
      modifies this`ram, frames, frames.flags
      ensures frames.Valid() && TablesIntact(t0, ram, root)
      ensures frames.used == old(frames.used) - Below(t0.own, root, p)
      ensures frames.freed == old(frames.freed) + s && Lists(s, Below(t0.own, root, p))
      ensures SameBut(old(ram), ram, Below(t0.own, root, p))
      decreases 4 - |p|
    {
      hide Trees.Ok, Open, FrameAllocator.Valid, TablesIntact, Below, BelowUpTo, Lists, SameBut;
      var n := if p == [] then 256 else 512;
      s := [];
      BelowNext(t0.own, root, p, 0);
      ListsOne(f);
      SameButNot(ram, {});
      BelowAll(t0, f, p, n);
      var i := 0;
      while i < n
        invariant 0 <= i <= n
        invariant frames.Valid() && TablesIntact(t0, ram, root)
        invariant frames.used == old(frames.used) - BelowUpTo(t0.own, root, p, i)
        invariant frames.freed == old(frames.freed) + s && Lists(s, BelowUpTo(t0.own, root, p, i))
        invariant SameBut(old(ram), ram, BelowUpTo(t0.own, root, p, i))
      {
        BelowNext(t0.own, root, p, i);
        StillTable(t0, ram, root, f);
        if !ram[f][i].present {
          BelowAbsent(t0, f, p, i);
          assert BelowUpTo(t0.own, root, p, i + 1) == BelowUpTo(t0.own, root, p, i);
        } else {
          ChildFacts(t0, f, p, i);
          ghost var ram1, child := ram, Below(t0.own, root, p + [i]);
          SameButHas(old(ram), ram, BelowUpTo(t0.own, root, p, i), child);
          ghost var u;
          var c := ram[f][i].addr;
          if |p| == 3 {
            BelowPage(t0, c, p + [i]);
            RemovePage(c);
            u := [c];
            ListsOne(c);
            PageGone(t0, ram1, ram, root, c);
          } else {
            u := RemoveTable(c, p + [i], t0, root);
          }
          ListsBoth(s, BelowUpTo(t0.own, root, p, i), u, child);
          SameButThen(old(ram), ram1, ram, BelowUpTo(t0.own, root, p, i), child);
          s := s + u;
        }
        i := i + 1;
      }
      FrameOfPhys(f);
      frames.Free4k(PhysOf(f));
      ListsBoth(s, BelowUpTo(t0.own, root, p, n), [f], {f});
      SameButMore(old(ram), ram, BelowUpTo(t0.own, root, p, n), Below(t0.own, root, p));
      s := s + [f];
    }

    /**
      The current address space is gone and its frames are free: every user page, every
      user table and the root, each once, and nothing else. The kernel's root is current.
     */
    method RemoveVirtualAddressing() returns (ghost s: seq<nat>)
      requires Valid() && cr3 != kernelRoot
      modifies this, frames, frames.flags
      ensures Valid() && cr3 == kernelRoot == old(kernelRoot)
      ensures var gone := Below(old(own), old(cr3), []);
              && frames.used == old(frames.used) - gone
              && frames.freed == old(frames.freed) + s && Lists(s, gone)
              && SameBut(old(ram), ram, gone)
      ensures own == Without(old(own), old(cr3))
      ensures forall r, page :: r != old(cr3) && old(Tree()).IsRoot(r) && PageOk(page) ==>
                Walk(ram, r, page, 0) == Walk(old(ram), r, page, 0)
    {
      hide Trees.Ok, Open, FrameAllocator.Valid, TablesIntact, Lists, SameBut, Trees.Filled, Trees.IsRoot, Pooled, Walk;
      ghost var t0, used0 := Tree(), frames.used;
      var root := cr3;
      RootIsItself(t0, root);
      RootInOwn(t0, root);
      AllTables(t0, root);
      ghost var gone := Below(t0.own, root, []);
      PooledBelow(t0, used0, frames.baseFrame, frames.baseFrame + frames.flags.Length, root);
      cr3 := kernelRoot;
      s := RemoveTable(root, [], t0, root);
      own := Without(own, root);
      WithoutIntact(t0, Tree(), root);
      IntactOutside(t0, ram, root);
      WithoutOpen(t0, root, ram);
      PooledWithout(t0, Tree(), used0, frames.baseFrame, frames.baseFrame + frames.flags.Length, root, gone);
    }

    /** Removing a fresh clone restores the frame flags bit for bit, and every translation and frame there was. */
    method CloneThenRemove() returns (ok: bool)
      requires Valid() && cr3 != kernelRoot
      modifies this, frames, frames.flags
      ensures ok ==> Valid() && frames.flags[..] == old(frames.flags[..]) && own == old(own)
      ensures ok ==> SameWalks(old(Tree()), Tree())
      ensures ok ==> forall f :: f in old(ram) && (f in old(own) || f in old(frames.used)) ==>
                f in ram && ram[f] == old(ram[f])
      ensures !ok ==> frames.Exhausted()
    {
      hide Trees.Ok, Open, Trees.Filled, Pooled, FrameAllocator.Exhausted, Lists, Walk, Cloned, Below, SameBut;
      ghost var t0, used0, flags0 := Tree(), frames.used, frames.flags[..];
      ghost var added;
      var root;
      ok, root, added := CloneVirtualAddressing(cr3);
      if !ok {
        return;
      }
      ghost var t1, used1 := Tree(), frames.used;
      cr3 := root;
      ghost var s := RemoveVirtualAddressing();
      RootIsItself(t0, old(cr3));
      CloneGone(t0, t1, root, added);
      CloneLeavesFrames(t0.ram, t1.ram, ram, t1.own, root, added);
      RootsOfOthers(t0, t1, root);
      assert frames.used == used0;
    }

    /** Drop the page and give its frame back. The source halts if the page is not mapped. */
    method DeallocatePage(page: Path)
      requires Valid() && PageOk(page) && Walk(ram, cr3, page, 0).Some?
      requires var e := Walk(ram, cr3, page, 0).value;
               IsKernel(page) ==> !e.huge && frames.InPool(e.addr)
                                  && e.addr in own && own[e.addr].path == page && own[e.addr].root == kernelRoot
      modifies this`ram, this`own, frames, frames.flags
      ensures Valid() && OnePageChanged(old(Tree()), Tree(), cr3, page, None)
      ensures forall r :: old(Tree()).IsRoot(r) ==> Tree().IsRoot(r) && SameKernelHalf(old(Tree()), Tree(), r)
      ensures forall f :: f in old(own) && |old(own)[f].path| == 4 ==>
                f in old(ram) && f in ram && ram[f] == old(ram)[f]
      ensures var e := Walk(old(ram), cr3, page, 0).value;
              && e.addr in old(own) && own == old(own) - {e.addr}
              && frames.used == old(frames.used) - {e.addr} && frames.freed == old(frames.freed) + [e.addr]
    {
      hide Trees.Ok, Open, Trees.Filled, Pooled, FrameAllocator.Valid, OnePageChanged, Walk, Trees.PlaceBelow;
      ghost var t, used := Tree(), frames.used;
      ghost var home := if IsKernel(page) then kernelRoot else cr3;
      ghost var d := Walk(ram, cr3, page, 0).value;
      RootIsItself(t, cr3);
      if !IsKernel(page) {
        WalkEnds(t, cr3, page, 0);
        NodeFacts(t, d.addr);
      }
      NextOnWalk(t, cr3, page, 0, d);
      assert ram[cr3][page[0]].present;
      var pdpt := ram[cr3][page[0]].addr;
      NextOnWalk(t, pdpt, page, 1, d);
      assert ram[pdpt][page[1]].present;
      var pd := ram[pdpt][page[1]].addr;
      NextOnWalk(t, pd, page, 2, d);
      assert ram[pd][page[2]].present;
      var pt := ram[pd][page[2]].addr;
      LastOnWalk(t, pt, page, d);
      assert ram[pt][page[3]].present;
      var phys := PhysOf(ram[pt][page[3]].addr);
      FrameOfPhys(d.addr);
      PooledUser(t, used, frames.baseFrame, frames.baseFrame + frames.flags.Length, d.addr);
      frames.Free4k(phys);
      ghost var e := ram[pt][page[3]].(present := false);
      ram := ram[pt := ram[pt][page[3] := ram[pt][page[3]].(present := false)]];
      own := own - {d.addr};
      UnmappedStep(t, pt, page[3], e, page, cr3);
      UnmappedOpen(t, pt, page[3], e);
      OwnedInRam(t);
      PooledUnmapped(t, pt, page[3], e, used, frames.baseFrame, frames.baseFrame + frames.flags.Length);
      assert Tree() == t.Unmapped(pt, page[3], e);
    }
  }

  /** Deallocating a page undoes its mapping, as far as any translation can tell. */
  lemma UnmapUndoesMap(t: Trees, t1: Trees, t2: Trees, root: nat, page: Path, e: Pte)
    requires t.Ok() && t.IsRoot(root) && PageOk(page) && Walk(t.ram, root, page, 0).None?
    requires OnePageChanged(t, t1, root, page, Some(e)) && OnePageChanged(t1, t2, root, page, None)
    requires forall f :: f in t.own ==> f in t1.own && t1.own[f] == t.own[f]
    ensures SameWalks(t, t2)
  {
    hide Trees.Ok, Walk;
    forall r, p | t.IsRoot(r) && PageOk(p)
      ensures Walk(t2.ram, r, p, 0) == Walk(t.ram, r, p, 0)
    {
      assert t1.IsRoot(r);
      if p == page && IsKernel(page) {
        KernelShared(t, r, page);
        KernelShared(t, root, page);
      }
    }
  }

  lemma OwnedInRam(t: Trees)
    requires t.Ok()
    ensures forall f :: f in t.own ==> f in t.ram && |t.ram[f]| == 512
  {
    forall f | f in t.own
      ensures f in t.ram && |t.ram[f]| == 512
    {
      ChildSize(t, f);
    }
  }

  lemma KernelIsRoot(t: Trees)
    requires t.Ok()
    ensures t.IsRoot(t.kernel)
  {
  }

  /** One step of a walk that ends at a 4096-byte page. */
  lemma NextOnWalk(t: Trees, f: nat, page: Path, n: nat, d: Pte)
    requires t.Ok() && PageOk(page) && n < 3 && f in t.own && t.own[f].path == page[..n]
    requires Walk(t.ram, f, page, n) == Some(d) && (d.huge ==> !IsKernel(page))
    ensures f in t.ram && |t.ram[f]| == 512 && t.ram[f][page[n]].present && !t.ram[f][page[n]].huge
    ensures var c := t.ram[f][page[n]].addr;
            && c in t.own && t.own[c].path == page[..n + 1] && Walk(t.ram, c, page, n + 1) == Some(d)
            && t.own[c].root == if IsKernel(page) then t.kernel else t.own[f].root
  {
    hide Trees.Ok, Trees.NodeOk;
    DownFacts(t, f, page[n]);
    TopFacts(t, f, page, n);
  }

  lemma LastOnWalk(t: Trees, f: nat, page: Path, d: Pte)
    requires t.Ok() && PageOk(page) && f in t.own && t.own[f].path == page[..3] && Walk(t.ram, f, page, 3) == Some(d)
    requires IsKernel(page) ==> d.addr in t.own && t.own[d.addr].path == page && t.own[d.addr].root == t.kernel
    ensures f in t.ram && |t.ram[f]| == 512 && t.ram[f][page[3]] == d && d.present
    ensures d.addr in t.own && page == t.own[f].path + [page[3]]
    ensures t.own[d.addr] == t.PlaceBelow(f, page[3]) && (IsKernel(page) ==> t.own[f].root == t.kernel)
  {
    hide Trees.Ok;
    DownFacts(t, f, page[3]);
    NodeFacts(t, f);
    assert page == page[..3] + [page[3]];
    if IsKernel(page) {
      NodeFacts(t, d.addr);
      assert t.own[d.addr].path[..3] == page[..3];
      PlaceUnique(t, t.own[d.addr].up, f);
    }
  }

  lemma PooledUser(t: Trees, used: set<nat>, lo: nat, hi: nat, g: nat)
    requires Pooled(t, used, lo, hi) && g in t.own
    ensures t.own[g].root != t.kernel ==> lo <= g < hi
  {
  }

  lemma PooledUnmapped(t: Trees, f: nat, i: nat, e: Pte, used: set<nat>, lo: nat, hi: nat)
    requires Pooled(t, used, lo, hi) && f in t.ram && i < |t.ram[f]|
    ensures Pooled(t.Unmapped(f, i, e), used - {e.addr}, lo, hi)
  {
  }

  /** What the clone added is what its removal takes away. */
  lemma CloneGone(t0: Trees, t1: Trees, root: nat, added: set<nat>)
    requires t0.Ok() && root !in t0.own && t1.own.Keys == t0.own.Keys + added && added !! t0.own.Keys
    requires forall f :: f in t1.own ==> if f in t0.own then t1.own[f] == t0.own[f] else t1.own[f].root == root
    ensures Below(t1.own, root, []) == added && Without(t1.own, root) == t0.own
  {
    hide Trees.Ok;
    forall f | f in t0.own
      ensures t0.own[f].root != root
    {
      RootRecorded(t0, f);
    }
    assert Without(t1.own, root).Keys == t0.own.Keys;
  }

  lemma RootRecorded(t: Trees, f: nat)
    requires t.Ok() && f in t.own
    ensures t.own[f].root in t.own
  {
    assert t.NodeOk(f);
  }

  lemma CloneLeavesFrames(ram0: Ram, ram1: Ram, ram2: Ram, own: map<nat, Place>, root: nat, added: set<nat>)
    requires forall f :: f in ram0 && f !in added ==> f in ram1 && ram1[f] == ram0[f]
    requires SameBut(ram1, ram2, added)
    ensures forall f :: f in ram0 && f !in added ==> f in ram2 && ram2[f] == ram0[f]
  {
  }

  lemma RootsOfOthers(t0: Trees, t1: Trees, root: nat)
    requires root !in t0.own && forall f :: f in t0.own ==> f in t1.own && t1.own[f] == t0.own[f]
    ensures forall r :: t0.IsRoot(r) ==> t1.IsRoot(r) && r != root
  {
  }

  ghost predicate SameBut(ram: Ram, ram': Ram, a: set<nat>) {
    && ram'.Keys == ram.Keys
    && (forall g :: g in ram && g !in a ==> ram'[g] == ram[g])
    && (forall g :: g in ram && |ram[g]| == 512 ==> |ram'[g]| == 512)
  }

  lemma SameButNot(ram: Ram, a: set<nat>)
    ensures SameBut(ram, ram, a)
  {
  }

  lemma SameButThen(ram: Ram, ram1: Ram, ram2: Ram, a: set<nat>, b: set<nat>)
    requires SameBut(ram, ram1, a) && SameBut(ram1, ram2, b)
    ensures SameBut(ram, ram2, a + b)
  {
  }

  lemma SameButMore(ram: Ram, ram': Ram, a: set<nat>, b: set<nat>)
    requires SameBut(ram, ram', a) && a <= b
    ensures SameBut(ram, ram', b)
  {
  }

  lemma SameButHas(ram: Ram, ram': Ram, a: set<nat>, b: set<nat>)
    requires SameBut(ram, ram', a)
    ensures forall g :: g in b && g in ram ==> g in ram'
  {
  }

  lemma StillTable(t0: Trees, ram: Ram, root: nat, f: nat)
    requires t0.Ok() && TablesIntact(t0, ram, root) && t0.IsTable(f)
    ensures f in ram && f in t0.ram && ram[f] == t0.ram[f] && |ram[f]| == 512
  {
    assert t0.NodeOk(f);
  }

  lemma PageGone(t0: Trees, ram: Ram, ram': Ram, root: nat, g: nat)
    requires TablesIntact(t0, ram, root) && g in t0.own && t0.own[g].root == root && |t0.own[g].path| == 4
    requires g in ram && ram' == ram[g := seq(512, _ => POISON)]
    ensures TablesIntact(t0, ram', root) && SameBut(ram, ram', {g})
  {
  }

  lemma RootInOwn(t: Trees, r: nat)
    requires t.Ok() && t.IsRoot(r)
    ensures r in t.own && t.own[r].path == [] && t.IsTable(r)
  {
  }

  lemma AllTables(t: Trees, root: nat)
    requires t.Ok()
    ensures TablesIntact(t, t.ram, root)
  {
    forall g | g in t.own
      ensures g in t.ram
    {
      assert t.NodeOk(g);
    }
  }

  lemma PooledBelow(t: Trees, used: set<nat>, lo: nat, hi: nat, root: nat)
    requires Pooled(t, used, lo, hi) && root != t.kernel
    ensures forall g :: g in Below(t.own, root, []) ==> lo <= g < hi && g in t.ram
  {
  }

  lemma WithoutIntact(t0: Trees, t: Trees, root: nat)
    requires t0.Ok() && t0.Filled() && root != t0.kernel && TablesIntact(t0, t.ram, root)
    requires t == Trees(t.ram, Without(t0.own, root), t0.kernel)
    ensures t.Ok() && t.Filled() && t.IsRoot(t.kernel)
    ensures forall r, page :: r != root && t0.IsRoot(r) && PageOk(page) ==>
              Walk(t.ram, r, page, 0) == Walk(t0.ram, r, page, 0)
  {
    hide Trees.Ok, Trees.NodeOk, Walk;
    WithoutOk(t0, root, t.ram);
    KernelIsItself(t0);
    KernelFacts(t0, t0.kernel);
    forall r, page | r != root && t0.IsRoot(r) && PageOk(page)
      ensures Walk(t.ram, r, page, 0) == Walk(t0.ram, r, page, 0)
    {
      RootIsItself(t0, r);
      WalkSame(t0, t.ram, r, page, 0);
    }
  }

  /** Pages cloned with their last entry's permission give programs the same rights as the originals. */
  lemma RightsCloned(t0: Trees, t: Trees, used0: set<nat>, orig: nat, root: nat)
    requires t0.Ok() && Open(t0) && t0.IsRoot(orig) && t.Ok() && Open(t) && t.IsRoot(root)
    requires forall page :: PageOk(page) && !IsKernel(page) ==> Cloned(t0, used0, t.ram, orig, root, page)
    ensures forall page :: PageOk(page) && !IsKernel(page) ==>
              Access(t.ram, root, page, 0) == Access(t0.ram, orig, page, 0)
  {
    hide Trees.Ok, Open, Walk, Access;
    forall page | PageOk(page) && !IsKernel(page)
      ensures Access(t.ram, root, page, 0) == Access(t0.ram, orig, page, 0)
    {
      assert Cloned(t0, used0, t.ram, orig, root, page);
      RootRights(t0, orig, page);
      RootRights(t, root, page);
    }
  }

  lemma IntactOutside(t0: Trees, ram: Ram, root: nat)
    requires TablesIntact(t0, ram, root)
    ensures forall f :: f in t0.own && t0.own[f].root != root ==> f in ram && f in t0.ram && ram[f] == t0.ram[f]
  {
  }

  lemma PooledWithout(t0: Trees, t: Trees, used: set<nat>, lo: nat, hi: nat, root: nat, gone: set<nat>)
    requires Pooled(t0, used, lo, hi) && t == Trees(t.ram, Without(t0.own, root), t0.kernel)
    requires gone == Below(t0.own, root, []) && SameBut(t0.ram, t.ram, gone)
    ensures Pooled(t, used - gone, lo, hi)
  {
  }

  lemma RootedFacts(t: Trees, t': Trees, root: nat)
    requires t.Ok() && t.kernel in t.ram && root !in t.own && t' == t.Rooted(root)
    ensures t'.IsRoot(root) && root != t.kernel && Intact(t, t', root) && t'.kernel == t.kernel
    ensures t'.own.Keys == t.own.Keys + {root} && t'.own[root] == Place(root, [], root)
  {
    forall f | f in t.own
      ensures f in t.ram && t'.ram[f] == t.ram[f] && f in t'.own && t'.own[f].root != root
    {
      assert t.NodeOk(f);
    }
  }

  lemma StillRoot(t: Trees, t': Trees, r: nat)
    requires t.IsRoot(r) && forall f :: f in t.own ==> f in t'.own && t'.own[f] == t.own[f]
    ensures t'.IsRoot(r)
  {
  }

  lemma ExtendsOwn(t: Trees, t': Trees, added: set<nat>, home: nat)
    requires Extends(t, t', added, home)
    ensures t'.kernel == t.kernel && forall f :: f in t.own ==> f in t'.own && t'.own[f] == t.own[f]
    ensures t'.own.Keys == t.own.Keys + added && t.own.Keys !! added
    ensures forall f :: f in added ==> t'.own[f].root == home && t'.own[f].path != []
    ensures forall r :: t'.IsRoot(r) <==> t.IsRoot(r)
  {
  }

  lemma IntactFrame(t0: Trees, t: Trees, root: nat, f: nat)
    requires Intact(t0, t, root) && f in t0.own
    ensures f in t0.ram && f in t.ram && t.ram[f] == t0.ram[f] && f in t.own
  {
  }

  lemma ChangedHere(t: Trees, t': Trees, root: nat, page: Path, e: Pte)
    requires OnePageChanged(t, t', root, page, Some(e)) && t.IsRoot(root) && PageOk(page)
    ensures Walk(t'.ram, root, page, 0) == Some(e)
  {
  }

  lemma PooledData(t: Trees, g: nat, data: seq<Pte>, used: set<nat>, lo: nat, hi: nat)
    requires Pooled(t, used, lo, hi) && |data| == 512
    ensures Pooled(t.(ram := t.ram[g := data]), used, lo, hi)
  {
  }

  lemma PooledRooted(t: Trees, g: nat, used: set<nat>, lo: nat, hi: nat)
    requires Pooled(t, used, lo, hi) && lo <= g < hi && t.kernel in t.ram && |t.ram[t.kernel]| == 512
    ensures Pooled(t.Rooted(g), used + {g}, lo, hi)
  {
  }

  lemma TableSize(t: Trees, f: nat)
    requires t.Ok() && f in t.own
    ensures f in t.ram && |t.ram[f]| == 512
  {
    assert t.NodeOk(f);
  }

  lemma MappedIs(t: Trees, t': Trees, f: nat, i: nat, e: Pte, ours: bool)
    requires f in t.own && f in t.ram && i < |t.ram[f]|
    requires t' == Trees(t.ram[f := t.ram[f][i := e]],
                         if ours then t.own[e.addr := t.PlaceBelow(f, i)] else t.own, t.kernel)
    ensures t' == t.Mapped(f, i, e, ours)
  {
  }

  lemma PooledMapped(t: Trees, f: nat, i: nat, e: Pte, ours: bool, used: set<nat>, lo: nat, hi: nat)
    requires Pooled(t, used, lo, hi) && CanMap(t, f, i, e, ours) && (ours ==> lo <= e.addr < hi && e.addr in used)
    ensures Pooled(t.Mapped(f, i, e, ours), used, lo, hi)
  {
    hide Trees.Ok;
  }

  lemma PooledMore(t: Trees, used: set<nat>, used': set<nat>, lo: nat, hi: nat)
    requires Pooled(t, used, lo, hi) && used <= used'
    ensures Pooled(t, used', lo, hi)
  {
  }

  /** Where the table behind a page's entry belongs; the kernel half of a root is there already. */
  lemma TopFacts(t: Trees, f: nat, page: Path, n: nat)
    requires t.Ok() && PageOk(page) && n < 3 && f in t.own && t.own[f].path == page[..n]
    ensures f in t.ram && |t.ram[f]| == 512
    ensures page[..n + 1] == t.own[f].path + [page[n]] && |t.own[f].path| == n
    ensures IsKernel(t.own[f].path + [page[n]]) == IsKernel(page)
    ensures t.Filled() && n == 0 && IsKernel(page) ==> t.ram[f][page[n]].present
    ensures t.Home(f, page[n]) == if IsKernel(page) then t.kernel else t.own[f].root
    ensures t.PlaceBelow(f, page[n]).root == t.Home(f, page[n])
    ensures t.PlaceBelow(f, page[n]).path == page[..n + 1]
  {
    hide Trees.Ok, Trees.DownOk;
    NodeFacts(t, f);
    if n == 0 {
      KernelFacts(t, f);
    }
    assert page[..n + 1] == page[..n] + [page[n]];
  }

  /** What `Grown` leaves alone, and what it makes. */
  lemma GrownKeeps(t: Trees, f: nat, i: nat, e: Pte, g: nat, blank: seq<Pte>)
    requires CanGrow(t, f, i, e, g, blank)
    ensures var t' := t.Grown(f, i, e, g, blank);
            && t'.kernel == t.kernel && (forall h :: h in t.own ==> h in t'.own && t'.own[h] == t.own[h])
            && (forall r :: t'.IsRoot(r) ==> t.IsRoot(r))
            && f in t'.ram && t'.ram[f] == t.ram[f][i := e]
            && g in t'.own && t'.own[g] == t.PlaceBelow(f, i)
            && g in t'.ram && Empty(t'.ram[g])
  {
    hide Trees.Ok;
    assert |t.own[f].path + [i]| > 0;
  }

  lemma NowFilled(t: Trees)
    requires t.kernel in t.ram && |t.ram[t.kernel]| == 512
    requires forall k :: 256 <= k < 512 ==> t.ram[t.kernel][k].present && !t.ram[t.kernel][k].huge
    ensures t.Filled()
  {
  }

  lemma GrownIs(t: Trees, t': Trees, f: nat, i: nat, e: Pte, g: nat, blank: seq<Pte>)
    requires f in t.own && f in t.ram && i < |t.ram[f]| && f != g
    requires t' == Trees(t.ram[g := blank][f := t.ram[f][i := e]], t.own[g := t.PlaceBelow(f, i)], t.kernel)
    ensures t' == t.Grown(f, i, e, g, blank)
  {
  }
}
