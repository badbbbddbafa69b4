/**
  Cloning and tearing down a tree of page tables, as relations between the trees before and
  after (stuos/src/memory.c).
 */
module PageCopies {
  import opened Options
  import opened PageTables
  import opened PageSteps

  /**
    What root `orig` maps at `page` in `t0`, `root` maps in `ram`: with the same contents and
    execute permission, but in a frame that was not in use.
   */
  ghost predicate Cloned(t0: Trees, used0: set<nat>, ram: Ram, orig: nat, root: nat, page: Path)
    requires |page| == 4
  {
    var a, b := Walk(t0.ram, orig, page, 0), Walk(ram, root, page, 0);
    && (a.None? ==> b.None?)
    && (a.Some? ==> b.Some? && b.value.nx == a.value.nx && b.value.addr !in used0
                    && a.value.addr in t0.ram && b.value.addr in ram && ram[b.value.addr] == t0.ram[a.value.addr])
  }

  /**
    How far the copy below path `p` has come: pages with index below `i` there are cloned, the
    rest is still unmapped.
   */
  ghost predicate ClonedUpTo(t0: Trees, used0: set<nat>, ram: Ram, orig: nat, root: nat, p: Path, i: nat)
    requires |p| < 4
  {
    forall page :: PageOk(page) && !IsKernel(page) && p <= page ==>
      if page[|p|] < i then Cloned(t0, used0, ram, orig, root, page) else Walk(ram, root, page, 0).None?
  }

  /** Nothing happened to `root`'s pages elsewhere. */
  ghost predicate SameElsewhere(t: Trees, t': Trees, root: nat, p: Path) {
    forall page :: PageOk(page) && !IsKernel(page) && !(p <= page) ==>
      Walk(t'.ram, root, page, 0) == Walk(t.ram, root, page, 0)
  }

  lemma SameElsewhereNot(t: Trees, root: nat, p: Path)
    ensures SameElsewhere(t, t, root, p)
  {
  }

  lemma SameElsewhereThen(t: Trees, t1: Trees, t2: Trees, root: nat, p: Path, i: nat)
    requires SameElsewhere(t, t1, root, p) && SameElsewhere(t1, t2, root, p + [i])
    ensures SameElsewhere(t, t2, root, p)
  {
    forall page | PageOk(page) && !IsKernel(page) && !(p <= page)
      ensures Walk(t2.ram, root, page, 0) == Walk(t.ram, root, page, 0)
    {
      ShorterPrefix(p, i, page);
    }
  }

  /** What is cloned stays cloned while more is mapped. */
  lemma ClonedKept(t0: Trees, used0: set<nat>, t: Trees, t': Trees, added: set<nat>, orig: nat, root: nat, page: Path)
    requires t.Ok() && t.IsRoot(root) && PageOk(page) && !IsKernel(page)
    requires Extends(t, t', added, root) && Walk(t'.ram, root, page, 0) == Walk(t.ram, root, page, 0)
    requires Cloned(t0, used0, t.ram, orig, root, page)
    ensures Cloned(t0, used0, t'.ram, orig, root, page)
  {
    hide Trees.Ok;
    WalkEnds(t, root, page, 0);
  }

  /** An entry that is not present: nothing to clone behind it. */
  lemma SkipAbsent(t0: Trees, used0: set<nat>, ram: Ram, orig: nat, root: nat, f: nat, p: Path, i: nat)
    requires t0.Ok() && t0.IsRoot(orig) && |p| < 4 && i < 512 && f in t0.own && t0.own[f].root == orig
             && t0.own[f].path == p
    requires f in t0.ram && i < |t0.ram[f]| && !t0.ram[f][i].present
    requires ClonedUpTo(t0, used0, ram, orig, root, p, i)
    ensures ClonedUpTo(t0, used0, ram, orig, root, p, i + 1)
  {
    hide Trees.Ok;
    forall page | PageOk(page) && !IsKernel(page) && p <= page && page[|p|] == i
      ensures Cloned(t0, used0, ram, orig, root, page)
    {
      WalkThrough(t0, orig, f, page, |p|);
    }
  }

  /** The subtree behind entry `i` has been cloned. */
  lemma SubtreeCloned(t0: Trees, used0: set<nat>, t: Trees, t': Trees, added: set<nat>, orig: nat, root: nat,
                      p: Path, i: nat)
    requires t.Ok() && t.IsRoot(root) && |p| < 3 && Extends(t, t', added, root)
    requires ClonedUpTo(t0, used0, t.ram, orig, root, p, i)
    requires ClonedUpTo(t0, used0, t'.ram, orig, root, p + [i], 512) && SameElsewhere(t, t', root, p + [i])
    ensures ClonedUpTo(t0, used0, t'.ram, orig, root, p, i + 1)
  {
    hide Trees.Ok, Cloned, Extends;
    forall page | PageOk(page) && !IsKernel(page) && p <= page
      ensures if page[|p|] < i + 1 then Cloned(t0, used0, t'.ram, orig, root, page)
              else Walk(t'.ram, root, page, 0).None?
    {
      PrefixLonger(p, i, page);
      if page[|p|] != i && page[|p|] < i {
        ClonedKept(t0, used0, t, t', added, orig, root, page);
      }
    }
  }

  lemma ShorterPrefix(p: Path, i: nat, page: Path)
    ensures p + [i] <= page ==> p <= page
  {
  }

  lemma PrefixLonger(p: Path, i: nat, page: Path)
    requires p <= page && |p| < |page|
    ensures p + [i] <= page <==> page[|p|] == i
  {
  }

  /** One page has been cloned. */
  lemma PageCloned(t0: Trees, used0: set<nat>, t: Trees, t1: Trees, t2: Trees, added: set<nat>, orig: nat, root: nat,
                   f: nat, page: Path, e: Pte, data: seq<Pte>)
    requires t0.Ok() && t0.IsRoot(orig) && PageOk(page) && !IsKernel(page)
    requires f in t0.own && t0.own[f].root == orig && t0.own[f].path == page[..3]
    requires f in t0.ram && |t0.ram[f]| == 512 && t0.ram[f][page[3]].present
    requires t.Ok() && t.IsRoot(root)
    requires OnePageChanged(t, t1, root, page, Some(e)) && Extends(t, t1, added, root) && e.addr in added
    requires e.addr !in used0 && e.nx == t0.ram[f][page[3]].nx
    requires t0.ram[f][page[3]].addr in t0.ram && data == t0.ram[t0.ram[f][page[3]].addr] && |data| == 512
    requires t2 == t1.(ram := t1.ram[e.addr := data]) && t1.Ok() && e.addr in t1.own && t1.own[e.addr].path == page
    requires ClonedUpTo(t0, used0, t.ram, orig, root, page[..3], page[3])
    ensures t2.Ok() && Extends(t, t2, added, root) && (t1.Filled() ==> t2.Filled())
    ensures SameElsewhere(t, t2, root, page[..3]) && SameElsewhere(t, t2, root, page[..3] + [page[3]])
    ensures ClonedUpTo(t0, used0, t2.ram, orig, root, page[..3], page[3] + 1)
  {
    hide Trees.Ok, Trees.NodeOk, Cloned;
    var p, i := page[..3], page[3];
    DataWritten(t1, t2, e.addr, data);
    ExtendsData(t, t1, t2, added, root, e.addr, data);
    forall q | PageOk(q) && !IsKernel(q)
      ensures Walk(t2.ram, root, q, 0) == if q == page then Some(e) else Walk(t.ram, root, q, 0)
    {
      assert t1.IsRoot(root);
    }
    forall q | PageOk(q) && !IsKernel(q) && p <= q
      ensures if q[3] < i + 1 then Cloned(t0, used0, t2.ram, orig, root, q) else Walk(t2.ram, root, q, 0).None?
    {
      if q[3] == i {
        assert q == page;
        WalkThrough(t0, orig, f, page, 3);
        ClonedHere(t0, used0, t2.ram, orig, root, page, t0.ram[f][i], e);
      } else if q[3] < i {
        ClonedKept(t0, used0, t, t2, added, orig, root, q);
      }
    }
  }

  lemma ClonedHere(t0: Trees, used0: set<nat>, ram: Ram, orig: nat, root: nat, page: Path, d: Pte, e: Pte)
    requires |page| == 4 && Walk(t0.ram, orig, page, 0) == Some(d) && Walk(ram, root, page, 0) == Some(e)
    requires e.nx == d.nx && e.addr !in used0 && d.addr in t0.ram && e.addr in ram && ram[e.addr] == t0.ram[d.addr]
    ensures Cloned(t0, used0, ram, orig, root, page)
  {
  }

  /** Writing into a mapped frame changes no table. */
  lemma DataWritten(t: Trees, t': Trees, g: nat, data: seq<Pte>)
    requires t.Ok() && g in t.own && |t.own[g].path| == 4 && |data| == 512
    requires t' == t.(ram := t.ram[g := data])
    ensures t'.Ok() && SameWalks(t, t') && (t.Filled() ==> t'.Filled())
  {
    hide Trees.NodeOk, Trees.DownOk;
    forall h | h in t'.own
      ensures t'.NodeOk(h)
    {
      DataNode(t, t', g, data, h);
    }
    forall h, j | h in t'.own && |t'.own[h].path| < 4 && 0 <= j < 512
      ensures t'.DownOk(h, j)
    {
      DataDown(t, t', g, data, h, j);
    }
    forall r | t'.IsRoot(r)
      ensures t'.Shares(r)
    {
      KernelFacts(t, r);
    }
    KernelIsItself(t);
    KernelFacts(t, t.kernel);
    forall r, page | t.IsRoot(r) && PageOk(page)
      ensures Walk(t'.ram, r, page, 0) == Walk(t.ram, r, page, 0)
    {
      WalkSame(t, t'.ram, r, page, 0);
    }
  }

  lemma DataNode(t: Trees, t': Trees, g: nat, data: seq<Pte>, h: nat)
    requires t.Ok() && g in t.own && |t.own[g].path| == 4 && |data| == 512 && h in t.own
    requires t' == t.(ram := t.ram[g := data])
    ensures t'.NodeOk(h)
  {
    hide Trees.Ok;
    NodeFacts(t, h);
    NodeFacts(t, g);
  }

  lemma DataDown(t: Trees, t': Trees, g: nat, data: seq<Pte>, h: nat, j: nat)
    requires t.Ok() && g in t.own && |t.own[g].path| == 4 && |data| == 512 && t.IsTable(h) && j < 512
    requires t' == t.(ram := t.ram[g := data])
    ensures t'.DownOk(h, j)
  {
    hide Trees.Ok, Trees.NodeOk;
    DownFacts(t, h, j);
  }

  lemma ExtendsData(t: Trees, t1: Trees, t2: Trees, added: set<nat>, home: nat, g: nat, data: seq<Pte>)
    requires Extends(t, t1, added, home) && g in added
    requires t2 == t1.(ram := t1.ram[g := data])
    ensures Extends(t, t2, added, home)
  {
    forall r | t.IsRoot(r)
      ensures SameKernelHalf(t, t2, r)
    {
      assert SameKernelHalf(t, t1, r) && r in t.own;
    }
  }

  /** Before anything is cloned, the new root maps no user page. */
  lemma NothingClonedYet(t0: Trees, used0: set<nat>, ram: Ram, orig: nat, root: nat)
    requires forall page :: PageOk(page) ==>
               Walk(ram, root, page, 0) == if IsKernel(page) then Walk(t0.ram, t0.kernel, page, 0) else None
    ensures ClonedUpTo(t0, used0, ram, orig, root, [], 0)
  {
  }

  /** All that was recorded at the start is still there, unwritten, and not the new root's. */
  ghost predicate Intact(t0: Trees, t: Trees, root: nat) {
    forall f :: f in t0.own ==>
      f in t0.ram && f in t.ram && t.ram[f] == t0.ram[f] && f in t.own && t.own[f].root != root
  }

  lemma IntactKept(t0: Trees, t: Trees, t': Trees, added: set<nat>, root: nat)
    requires Intact(t0, t, root) && Extends(t, t', added, root)
    ensures Intact(t0, t', root)
  {
  }

  /** The page a last-level entry is cloned to is not mapped yet. */
  lemma NotYet(t0: Trees, used0: set<nat>, ram: Ram, orig: nat, root: nat, page: Path)
    requires PageOk(page) && !IsKernel(page) && ClonedUpTo(t0, used0, ram, orig, root, page[..3], page[3])
    ensures Walk(ram, root, page, 0).None?
  {
  }

  lemma ClonedFrom(t0: Trees, used0: set<nat>, ram: Ram, orig: nat, root: nat, p: Path, i: nat)
    requires |p| < 3 && ClonedUpTo(t0, used0, ram, orig, root, p, i)
    ensures ClonedUpTo(t0, used0, ram, orig, root, p + [i], 0)
  {
    hide Cloned, Walk;
    forall page | PageOk(page) && !IsKernel(page) && p + [i] <= page
      ensures Walk(ram, root, page, 0).None?
    {
      ShorterPrefix(p, i, page);
      PrefixLonger(p, i, page);
    }
  }

  lemma AllCloned(t0: Trees, used0: set<nat>, ram: Ram, orig: nat, root: nat, p: Path, n: nat)
    requires |p| < 4 && ClonedUpTo(t0, used0, ram, orig, root, p, n) && (n == 512 || (p == [] && n == 256))
    ensures ClonedUpTo(t0, used0, ram, orig, root, p, 512)
  {
    hide Cloned, Walk;
  }

  /** A present user entry points to the table or page recorded behind it. */
  lemma ChildFacts(t: Trees, f: nat, p: Path, i: nat)
    requires t.Ok() && f in t.own && t.own[f].path == p && |p| < 4 && i < 512 && f in t.ram && i < |t.ram[f]|
    requires t.ram[f][i].present && !IsKernel(p) && (p == [] ==> i < 256)
    ensures !IsKernel(p + [i]) && !t.ram[f][i].huge
    ensures var c := t.ram[f][i].addr; c in t.own && t.own[c].root == t.own[f].root && t.own[c].path == p + [i]
    ensures t.ram[f][i].addr in t.ram && |t.ram[t.ram[f][i].addr]| == 512
    ensures |p| == 3 ==> PageOk(p + [i])
  {
    hide Trees.Ok, Trees.NodeOk;
    DownFacts(t, f, i);
    ChildSize(t, t.ram[f][i].addr);
  }

  lemma ChildSize(t: Trees, f: nat)
    requires t.Ok() && f in t.own
    ensures f in t.ram && |t.ram[f]| == 512
    ensures forall k :: 0 <= k < |t.own[f].path| ==> t.own[f].path[k] < 512
  {
    assert t.NodeOk(f);
  }

  // --- The whole clone ---

  /** A clone `t2` of root `orig` of `t0`, made on the new root of `t1`. */
  lemma CloneDone(t0: Trees, t1: Trees, t2: Trees, used0: set<nat>, orig: nat, root: nat, added: set<nat>)
    requires t0.Ok() && t0.Filled() && root !in t0.own && t0.kernel in t0.ram && t1 == t0.Rooted(root) && t1.Ok()
    requires forall page :: PageOk(page) ==>
               Walk(t1.ram, root, page, 0) == if IsKernel(page) then Walk(t0.ram, t0.kernel, page, 0) else None
    requires SameWalks(t0, t1) && Extends(t1, t2, added, root) && t2.Ok()
    requires ClonedUpTo(t0, used0, t2.ram, orig, root, [], 512)
    ensures forall page :: PageOk(page) && !IsKernel(page) ==> Cloned(t0, used0, t2.ram, orig, root, page)
    ensures forall page :: PageOk(page) && IsKernel(page) ==>
              Walk(t2.ram, root, page, 0) == Walk(t0.ram, t0.kernel, page, 0)
    ensures SameWalks(t0, t2)
  {
    hide Trees.Ok, Trees.NodeOk, Trees.DownOk, Cloned, Trees.Filled, Extends, Walk;
    KernelIsItself(t0);
    forall page | PageOk(page) && !IsKernel(page)
      ensures Cloned(t0, used0, t2.ram, orig, root, page)
    {
      assert [] <= page;
    }
    forall page | PageOk(page) && IsKernel(page)
      ensures Walk(t2.ram, root, page, 0) == Walk(t0.ram, t0.kernel, page, 0)
    {
      KernelWalkKept(t1, t2, added, root, root, page);
    }
    forall r, page | t0.IsRoot(r) && PageOk(page)
      ensures Walk(t2.ram, r, page, 0) == Walk(t0.ram, r, page, 0)
    {
      RootIsItself(t0, r);
      if IsKernel(page) {
        KernelWalkKept(t1, t2, added, root, r, page);
      } else {
        UserWalkKept(t1, t2, added, root, r, page);
      }
    }
  }

  lemma CloneFrames(t0: Trees, t1: Trees, t2: Trees, root: nat, added: set<nat>)
    requires t0.Ok() && root !in t0.own && t0.kernel in t0.ram && t1 == t0.Rooted(root) && Extends(t1, t2, added, root)
    ensures forall f :: f in t0.ram && f !in added && f != root ==> f in t2.ram && t2.ram[f] == t0.ram[f]
    ensures t2.own.Keys == t0.own.Keys + added + {root} && added !! t0.own.Keys
    ensures forall f :: f in t2.own ==> if f in t0.own then t2.own[f] == t0.own[f] else t2.own[f].root == root
  {
    hide Trees.Ok;
    forall f | f in t0.ram && f !in added && f != root
      ensures f in t2.ram && t2.ram[f] == t0.ram[f]
    {
      if f in t0.own {
        NodeFacts(t0, f);
      }
    }
  }

  /** What happens under one user root leaves kernel pages alone, seen from any root. */
  lemma KernelWalkKept(t: Trees, t': Trees, added: set<nat>, home: nat, r: nat, page: Path)
    requires t.Ok() && t.IsRoot(r) && home != t.kernel && Extends(t, t', added, home) && PageOk(page) && IsKernel(page)
    ensures Walk(t'.ram, r, page, 0) == Walk(t.ram, r, page, 0)
  {
    hide Trees.Ok, Trees.NodeOk;
    assert SameKernelHalf(t, t', r);
    KernelFacts(t, r);
    KernelIsItself(t);
    DownFacts(t, r, page[0]);
    var d := t.ram[r][page[0]];
    assert page[..1] == [page[0]] == [] + [page[0]];
    if d.present && !d.huge {
      WalkSame(t, t'.ram, d.addr, page, 1);
    }
  }

  /** Nor does it touch user pages of other roots. */
  lemma UserWalkKept(t: Trees, t': Trees, added: set<nat>, home: nat, r: nat, page: Path)
    requires t.Ok() && t.IsRoot(r) && t.own[r].root != home && home != t.kernel && Extends(t, t', added, home)
             && PageOk(page)
    ensures Walk(t'.ram, r, page, 0) == Walk(t.ram, r, page, 0)
  {
    hide Trees.Ok, Trees.NodeOk;
    WalkSame(t, t'.ram, r, page, 0);
  }

  // --- Taking a tree down ---

  /** `s` lists the elements of `a`, each once. */
  ghost predicate Lists(s: seq<nat>, a: set<nat>) {
    && (forall x :: x in s <==> x in a)
    && (forall i, j :: 0 <= i < j < |s| ==> s[i] != s[j])
  }

  lemma ListsBoth(s: seq<nat>, a: set<nat>, u: seq<nat>, b: set<nat>)
    requires Lists(s, a) && Lists(u, b) && a !! b
    ensures Lists(s + u, a + b)
  {
    forall i, j | 0 <= i < j < |s + u|
      ensures (s + u)[i] != (s + u)[j]
    {
      if i < |s| <= j {
        assert s[i] in s && u[j - |s|] in u;
      }
    }
  }

  lemma ListsOne(x: nat)
    ensures Lists([x], {x}) && Lists([], {})
  {
  }

  /** The frames behind the entries below index `i` of the table at path `p`. */
  ghost function BelowUpTo(own: map<nat, Place>, r: nat, p: Path, i: nat): set<nat> {
    set f | f in own && own[f].root == r && p <= own[f].path && |p| < |own[f].path| && own[f].path[|p|] < i
  }

  lemma BelowNext(own: map<nat, Place>, r: nat, p: Path, i: nat)
    ensures BelowUpTo(own, r, p, i + 1) == BelowUpTo(own, r, p, i) + Below(own, r, p + [i])
    ensures BelowUpTo(own, r, p, i) !! Below(own, r, p + [i])
    ensures Below(own, r, p + [i]) <= Below(own, r, p)
    ensures BelowUpTo(own, r, p, 0) == {}
  {
    forall f | f in own
      ensures p + [i] <= own[f].path <==> p <= own[f].path && |p| < |own[f].path| && own[f].path[|p|] == i
    {
      if p <= own[f].path && |p| < |own[f].path| {
        PrefixLonger(p, i, own[f].path);
      }
      ShorterPrefix(p, i, own[f].path);
    }
  }

  lemma BelowAbsent(t: Trees, f: nat, p: Path, i: nat)
    requires t.Ok() && t.IsTable(f) && t.own[f].path == p && i < 512
    requires f in t.ram && i < |t.ram[f]| && !t.ram[f][i].present
    ensures Below(t.own, t.own[f].root, p + [i]) == {}
  {
    forall h | h in t.own && t.own[h].root == t.own[f].root
      ensures !(p + [i] <= t.own[h].path)
    {
      NothingBelow(t, f, i, h);
    }
  }

  /** Behind a last-level entry there is exactly the page's frame. */
  lemma BelowPage(t: Trees, g: nat, page: Path)
    requires t.Ok() && g in t.own && t.own[g].path == page && |page| == 4
    ensures Below(t.own, t.own[g].root, page) == {g}
  {
    hide Trees.DownOk;
    forall h | h in Below(t.own, t.own[g].root, page)
      ensures h == g
    {
      NodeFacts(t, h);
      PlaceUnique(t, g, h);
    }
  }

  /** A table's subtree is what lies behind its entries, and the table. */
  lemma BelowAll(t: Trees, f: nat, p: Path, n: nat)
    requires t.Ok() && t.IsTable(f) && t.own[f].path == p && t.own[f].root != t.kernel
    requires n == if p == [] then 256 else 512
    ensures Below(t.own, t.own[f].root, p) == BelowUpTo(t.own, t.own[f].root, p, n) + {f}
    ensures f !in BelowUpTo(t.own, t.own[f].root, p, n)
  {
    hide Trees.Ok, Trees.DownOk;
    forall h | h in Below(t.own, t.own[f].root, p)
      ensures h == f || h in BelowUpTo(t.own, t.own[f].root, p, n)
    {
      NodeFacts(t, h);
      if |t.own[h].path| == |p| {
        assert t.own[h].path == p;
        PlaceUnique(t, f, h);
      }
    }
  }

  /** The tables of the tree that is going, and all other frames recorded, are as they were. */
  ghost predicate TablesIntact(t0: Trees, ram: Ram, root: nat) {
    forall g :: g in t0.own && (t0.own[g].root != root || |t0.own[g].path| < 4) ==>
      g in ram && g in t0.ram && ram[g] == t0.ram[g]
  }
}
