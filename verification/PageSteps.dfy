/**
  What one operation on page tables does to all translations at once: the abstract map from
  roots and pages to entries (stuos/src/memory.c).
 */
module PageSteps {
  import opened Options
  import opened PageTables

  /** No translation under any root changes. */
  ghost predicate SameWalks(t: Trees, t': Trees) {
    forall r, page :: t.IsRoot(r) && PageOk(page) ==> Walk(t'.ram, r, page, 0) == Walk(t.ram, r, page, 0)
  }

  /** One page is mapped or unmapped, for a user page under `root` only, for a kernel page under all roots. */
  ghost predicate OnePageChanged(t: Trees, t': Trees, root: nat, page: Path, now: Option<Pte>) {
    forall r, p :: t.IsRoot(r) && PageOk(p) ==>
      Walk(t'.ram, r, p, 0) == if p == page && (r == root || IsKernel(page)) then now else Walk(t.ram, r, p, 0)
  }

  /**
    The frames `added` are newly recorded under `home`; besides them only tables recorded
    under `home` were written, and no root's kernel half.
   */
  ghost predicate Extends(t: Trees, t': Trees, added: set<nat>, home: nat) {
    && t'.kernel == t.kernel
    && (forall f :: f in t.own ==> f in t'.own && t'.own[f] == t.own[f] && f !in added)
    && (forall f :: f in added ==> f in t'.own && t'.own[f].root == home && t'.own[f].path != [])
    && (forall f :: f in t'.own ==> f in t.own || f in added)
    && (forall f :: f in t.ram ==> f in t'.ram)
    && (forall f :: f in t.ram && f !in added && !(t.IsTable(f) && t.own[f].root == home) ==> t'.ram[f] == t.ram[f])
    && (forall r :: t.IsRoot(r) ==> SameKernelHalf(t, t', r))
  }

  ghost predicate SameKernelHalf(t: Trees, t': Trees, r: nat) {
    && r in t.ram && r in t'.ram && |t.ram[r]| == |t'.ram[r]| == 512
    && forall i :: 256 <= i < 512 ==> t'.ram[r][i] == t.ram[r][i]
  }

  lemma ExtendsNot(t: Trees, home: nat)
    requires t.Ok()
    ensures Extends(t, t, {}, home) && SameWalks(t, t)
  {
    forall r | t.IsRoot(r)
      ensures SameKernelHalf(t, t, r)
    {
      KernelFacts(t, r);
    }
  }

  lemma ExtendsThen(t: Trees, t1: Trees, t2: Trees, a: set<nat>, b: set<nat>, home: nat)
    requires Extends(t, t1, a, home) && Extends(t1, t2, b, home)
    ensures Extends(t, t2, a + b, home)
  {
    forall r | t.IsRoot(r)
      ensures SameKernelHalf(t, t2, r)
    {
      assert t1.IsRoot(r) && SameKernelHalf(t, t1, r) && SameKernelHalf(t1, t2, r);
    }
  }

  lemma SameWalksThen(t: Trees, t1: Trees, t2: Trees)
    requires SameWalks(t, t1) && SameWalks(t1, t2) && forall f :: f in t.own ==> f in t1.own && t1.own[f] == t.own[f]
    ensures SameWalks(t, t2)
  {
    forall r, page | t.IsRoot(r) && PageOk(page)
      ensures Walk(t2.ram, r, page, 0) == Walk(t.ram, r, page, 0)
    {
      assert t1.IsRoot(r);
    }
  }

  lemma ChangedAfterSame(t: Trees, t1: Trees, t2: Trees, root: nat, page: Path, now: Option<Pte>)
    requires SameWalks(t, t1) && OnePageChanged(t1, t2, root, page, now)
    requires forall f :: f in t.own ==> f in t1.own && t1.own[f] == t.own[f]
    ensures OnePageChanged(t, t2, root, page, now)
  {
    forall r, p | t.IsRoot(r) && PageOk(p)
      ensures Walk(t2.ram, r, p, 0) == if p == page && (r == root || IsKernel(page)) then now else Walk(t.ram, r, p, 0)
    {
      assert t1.IsRoot(r);
    }
  }

  // --- The tables on the way to a page ---

  /** A walk passes every table recorded on its way. */
  lemma {:induction false} WalkThrough(t: Trees, r: nat, f: nat, page: Path, n: nat)
    requires t.Ok() && t.IsRoot(r) && PageOk(page) && n < 4
    requires f in t.own && t.own[f].path == page[..n] && t.own[f].root == (if IsKernel(page)
             && n > 0 then t.kernel else r)
    ensures Walk(t.ram, r, page, 0) == Walk(t.ram, f, page, n)
    decreases n
  {
    hide Trees.Ok, Trees.DownOk;
    NodeFacts(t, f);
    if n == 0 {
    } else {
      var u := t.own[f].up;
      assert page[..n][..n - 1] == page[..n - 1];
      if n == 1 {
        NodeFacts(t, u);
        KernelFacts(t, r);
      } else {
        WalkThrough(t, r, u, page, n - 1);
      }
    }
  }

  /** The frame that maps a user page is recorded for it. */
  lemma {:induction false} WalkEnds(t: Trees, f: nat, page: Path, n: nat)
    requires t.Ok() && PageOk(page) && n < 4 && !IsKernel(page)
    requires t.IsTable(f) && t.own[f].path == page[..n]
    ensures match Walk(t.ram, f, page, n)
      case None => true
      case Some(e) => !e.huge && e.addr in t.own && t.own[e.addr].root == t.own[f].root && t.own[e.addr].path == page
    decreases 4 - n
  {
    hide Trees.Ok, Trees.NodeOk;
    DownFacts(t, f, page[n]);
    assert page[..n + 1] == page[..n] + [page[n]];
    var d := t.ram[f][page[n]];
    if n == 3 {
      assert page[..4] == page;
    } else if d.present {
      WalkEnds(t, d.addr, page, n + 1);
    }
  }

  // --- The steps ---

  lemma GrownStep(t: Trees, f: nat, i: nat, e: Pte, g: nat, blank: seq<Pte>)
    requires CanGrow(t, f, i, e, g, blank)
    ensures var t' := t.Grown(f, i, e, g, blank);
            && t'.Ok() && SameWalks(t, t')
            && (!(t.own[f].path == [] && i >= 256) ==> Extends(t, t', {g}, t.Home(f, i)))
            && (!(t.own[f].path == [] && i >= 256) && t.Filled() ==> t'.Filled())
  {
    hide Trees.Ok, Trees.NodeOk, Trees.DownOk;
    var t' := t.Grown(f, i, e, g, blank);
    GrownOk(t, f, i, e, g, blank);
    forall r, page | t.IsRoot(r) && PageOk(page)
      ensures Walk(t'.ram, r, page, 0) == Walk(t.ram, r, page, 0)
    {
      GrownWalk(t, f, i, e, g, blank, r, page, 0);
    }
    forall r | t.IsRoot(r)
      ensures !(t.own[f].path == [] && i >= 256) ==> SameKernelHalf(t, t', r)
    {
      KernelFacts(t, r);
      RootIsItself(t, f);
    }
    KernelIsItself(t);
    HomeFacts(t, f);
    assert |t.own[f].path + [i]| > 0;
  }

  lemma RootIsItself(t: Trees, f: nat)
    requires t.Ok()
    ensures t.IsRoot(f) ==> t.own[f].root == f
  {
    if t.IsRoot(f) {
      assert t.NodeOk(f);
    }
  }

  /** The kernel's tables belong to the kernel. */
  lemma HomeFacts(t: Trees, f: nat)
    requires t.Ok() && f in t.own
    ensures IsKernel(t.own[f].path) ==> t.own[f].root == t.kernel
    ensures forall i :: t.own[f].path != [] ==> t.Home(f, i) == t.own[f].root
  {
    assert t.NodeOk(f);
  }

  lemma MappedStep(t: Trees, f: nat, i: nat, e: Pte, ours: bool, page: Path, r0: nat)
    requires CanMap(t, f, i, e, ours) && PageOk(page) && page == t.own[f].path + [i] && t.IsRoot(r0)
    requires t.own[f].root == if IsKernel(page) then t.kernel else r0
    ensures var t' := t.Mapped(f, i, e, ours);
            && t'.Ok() && OnePageChanged(t, t', r0, page, Some(e))
            && Extends(t, t', if ours then {e.addr} else {}, t.own[f].root)
            && (t.Filled() ==> t'.Filled())
  {
    hide Trees.Ok, Trees.NodeOk, Trees.DownOk;
    var t' := t.Mapped(f, i, e, ours);
    MappedOk(t, f, i, e, ours);
    HomeFacts(t, f);
    forall r, p | t.IsRoot(r) && PageOk(p)
      ensures Walk(t'.ram, r, p, 0) == if p == page
              && (r == r0 || IsKernel(page)) then Some(e) else Walk(t.ram, r, p, 0)
    {
      RootIsItself(t, r);
      if p == page && (r == r0 || IsKernel(page)) {
        assert page[..3] == t.own[f].path;
        WalkThrough(t', r, f, page, 3);
      } else {
        SamePathIfPrefix(t.own[f].path + [i], p);
        WriteMissed(t, f, i, e, r, p, 0);
      }
    }
    forall r | t.IsRoot(r)
      ensures SameKernelHalf(t, t', r)
    {
      KernelFacts(t, r);
    }
    KernelIsItself(t);
    KernelFacts(t, t.kernel);
  }

  lemma SamePathIfPrefix(a: Path, b: Path)
    requires |a| == |b|
    ensures a <= b ==> a == b
  {
  }

  lemma UnmappedStep(t: Trees, f: nat, i: nat, e: Pte, page: Path, r0: nat)
    requires CanUnmap(t, f, i, e) && PageOk(page) && page == t.own[f].path + [i] && t.IsRoot(r0)
    requires t.own[f].root == if IsKernel(page) then t.kernel else r0
    ensures var t' := t.Unmapped(f, i, e);
            && t'.Ok() && OnePageChanged(t, t', r0, page, None)
            && (t.Filled() ==> t'.Filled())
            && forall r :: t.IsRoot(r) ==> SameKernelHalf(t, t', r) && t'.IsRoot(r)
  {
    hide Trees.Ok, Trees.NodeOk, Trees.DownOk;
    var t' := t.Unmapped(f, i, e);
    UnmappedOk(t, f, i, e);
    HomeFacts(t, f);
    assert t.own[e.addr].path == page;
    forall r, p | t.IsRoot(r) && PageOk(p)
      ensures Walk(t'.ram, r, p, 0) == if p == page && (r == r0 || IsKernel(page)) then None else Walk(t.ram, r, p, 0)
    {
      RootIsItself(t, r);
      if p == page && (r == r0 || IsKernel(page)) {
        assert page[..3] == t.own[f].path;
        WalkThrough(t', r, f, page, 3);
      } else {
        SamePathIfPrefix(t.own[f].path + [i], p);
        WriteMissed(t, f, i, e, r, p, 0);
      }
    }
    forall r | t.IsRoot(r)
      ensures SameKernelHalf(t, t', r)
    {
      KernelFacts(t, r);
    }
    KernelIsItself(t);
    KernelFacts(t, t.kernel);
  }

  lemma RootedStep(t: Trees, g: nat)
    requires t.Ok() && t.Filled() && g !in t.own
    ensures t.kernel in t.ram
    ensures var t' := t.Rooted(g);
            && t'.Ok() && t'.Filled() && SameWalks(t, t') && t'.IsRoot(g)
            && forall page :: PageOk(page) ==>
                 Walk(t'.ram, g, page, 0) == if IsKernel(page) then Walk(t.ram, t.kernel, page, 0) else None
  {
    hide Trees.Ok, Trees.NodeOk, Trees.DownOk;
    RootedOk(t, g);
    KernelIsItself(t);
    KernelFacts(t, t.kernel);
    var t' := t.Rooted(g);
    forall r, page | t.IsRoot(r) && PageOk(page)
      ensures Walk(t'.ram, r, page, 0) == Walk(t.ram, r, page, 0)
    {
      WalkSame(t, t'.ram, r, page, 0);
    }
    forall page | PageOk(page)
      ensures Walk(t'.ram, g, page, 0) == if IsKernel(page) then Walk(t.ram, t.kernel, page, 0) else None
    {
      RootedWalk(t, g, page);
    }
  }

  /** All roots see the kernel alike. */
  lemma KernelShared(t: Trees, r: nat, page: Path)
    requires t.Ok() && t.IsRoot(r) && PageOk(page) && IsKernel(page)
    ensures Walk(t.ram, r, page, 0) == Walk(t.ram, t.kernel, page, 0)
  {
    KernelFacts(t, r);
  }
}
