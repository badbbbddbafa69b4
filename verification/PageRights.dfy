/**
  What a program may do with a page: the rights that the entries on the way to it leave
  (stuos/src/memory.c; Intel SDM, Volume 3A, section 4.6).
 */
module PageRights {
  import opened Options
  import opened PageTables
  import opened PageSteps

  datatype Rights = Rights(user: bool, write: bool, execute: bool)

  /** The rights along the walk from frame `f` at depth `n`: each entry can only take some away. */
  function Access(ram: Ram, f: nat, page: Path, n: nat): Option<Rights>
    requires |page| == 4 && n < 4
    decreases 4 - n
  {
    if f !in ram || page[n] >= |ram[f]| || !ram[f][page[n]].present then None
    else
      var e := ram[f][page[n]];
      if n == 3 || e.huge then Some(Rights(e.user, e.readWrite, !e.nx))
      else match Access(ram, e.addr, page, n + 1)
        case None => None
        case Some(below) => Some(Rights(e.user && below.user, e.readWrite && below.write, !e.nx && below.execute))
  }

  /** An entry for programs; one for a table, at a depth below 3, must not forbid execution behind it. */
  predicate Grants(e: Pte, depth: nat) {
    e.user && e.readWrite && (depth < 3 ==> !e.nx)
  }

  ghost predicate EntryOpen(t: Trees, f: nat, i: nat) {
    f in t.own && f in t.ram && i < |t.ram[f]| && t.ram[f][i].present && !IsKernel(t.own[f].path + [i]) ==>
      Grants(t.ram[f][i], |t.own[f].path|)
  }

  /** No table on the way to a user page takes rights away. */
  ghost predicate Open(t: Trees) {
    forall f, i :: t.IsTable(f) && 0 <= i < 512 ==> EntryOpen(t, f, i)
  }

  /** Of a user page the last entry alone decides: programs may read and write it, and execute it if that says so. */
  lemma {:induction false} UserRights(t: Trees, f: nat, page: Path, n: nat)
    requires t.Ok() && Open(t) && PageOk(page) && n < 4 && !IsKernel(page)
    requires t.IsTable(f) && t.own[f].path == page[..n]
    ensures match Walk(t.ram, f, page, n)
      case None => Access(t.ram, f, page, n).None?
      case Some(e) => Access(t.ram, f, page, n) == Some(Rights(true, true, !e.nx))
    decreases 4 - n
  {
    hide Trees.Ok, Trees.NodeOk;
    DownFacts(t, f, page[n]);
    assert page[..n + 1] == page[..n] + [page[n]];
    assert EntryOpen(t, f, page[n]);
    var d := t.ram[f][page[n]];
    if d.present && n < 3 {
      UserRights(t, d.addr, page, n + 1);
    }
  }

  /** The rights to a user page, from its root. */
  lemma RootRights(t: Trees, r: nat, page: Path)
    requires t.Ok() && Open(t) && PageOk(page) && !IsKernel(page) && t.IsRoot(r)
    ensures Walk(t.ram, r, page, 0).None? ==> Access(t.ram, r, page, 0).None?
    ensures Walk(t.ram, r, page, 0).Some? ==>
              Access(t.ram, r, page, 0) == Some(Rights(true, true, !Walk(t.ram, r, page, 0).value.nx))
  {
    hide Trees.Ok, Open;
    UserRights(t, r, page, 0);
  }

  // --- The steps keep tables open ---

  lemma GrownOpen(t: Trees, f: nat, i: nat, e: Pte, g: nat, blank: seq<Pte>)
    requires Open(t) && CanGrow(t, f, i, e, g, blank)
    requires !IsKernel(t.own[f].path + [i]) ==> Grants(e, |t.own[f].path|)
    ensures Open(t.Grown(f, i, e, g, blank))
  {
    hide Trees.Ok;
    var t' := t.Grown(f, i, e, g, blank);
    forall h, j | t'.IsTable(h) && 0 <= j < 512
      ensures EntryOpen(t', h, j)
    {
      if h != g {
        assert EntryOpen(t, h, j);
      }
    }
  }

  lemma MappedOpen(t: Trees, f: nat, i: nat, e: Pte, ours: bool)
    requires Open(t) && CanMap(t, f, i, e, ours) && Grants(e, 3)
    ensures Open(t.Mapped(f, i, e, ours))
  {
    hide Trees.Ok;
    var t' := t.Mapped(f, i, e, ours);
    forall h, j | t'.IsTable(h) && 0 <= j < 512
      ensures EntryOpen(t', h, j)
    {
      assert |t.own[f].path + [i]| == 4;
      assert EntryOpen(t, h, j);
    }
  }

  lemma UnmappedOpen(t: Trees, f: nat, i: nat, e: Pte)
    requires Open(t) && CanUnmap(t, f, i, e)
    ensures Open(t.Unmapped(f, i, e))
  {
    hide Trees.Ok;
    var t' := t.Unmapped(f, i, e);
    forall h, j | t'.IsTable(h) && 0 <= j < 512
      ensures EntryOpen(t', h, j)
    {
      assert EntryOpen(t, h, j);
    }
  }

  lemma RootedOpen(t: Trees, g: nat)
    requires t.Ok() && Open(t) && g !in t.own && t.kernel in t.ram
    ensures Open(t.Rooted(g))
  {
    hide Trees.NodeOk, Trees.DownOk;
    var t' := t.Rooted(g);
    forall h, j | t'.IsTable(h) && 0 <= j < 512
      ensures EntryOpen(t', h, j)
    {
      if h != g {
        assert EntryOpen(t, h, j);
      }
    }
  }

  /** Writing into a mapped page opens and closes nothing. */
  lemma DataOpen(t: Trees, g: nat, data: seq<Pte>)
    requires Open(t) && g in t.own && |t.own[g].path| == 4
    ensures Open(t.(ram := t.ram[g := data]))
  {
    var t' := t.(ram := t.ram[g := data]);
    forall h, j | t'.IsTable(h) && 0 <= j < 512
      ensures EntryOpen(t', h, j)
    {
      assert EntryOpen(t, h, j);
    }
  }

  lemma WithoutOpen(t: Trees, r: nat, ram: Ram)
    requires Open(t)
    requires forall f :: f in t.own && t.own[f].root != r ==> f in ram && f in t.ram && ram[f] == t.ram[f]
    ensures Open(Trees(ram, Without(t.own, r), t.kernel))
  {
    var t' := Trees(ram, Without(t.own, r), t.kernel);
    forall h, j | t'.IsTable(h) && 0 <= j < 512
      ensures EntryOpen(t', h, j)
    {
      assert EntryOpen(t, h, j);
    }
  }

  /** Nothing is mapped for programs in the boot loader's tables. */
  lemma LoaderOpen(ram: Ram, root: nat, path: map<nat, Path>, up: map<nat, nat>)
    requires LoaderTables(ram, root, path, up)
    ensures Open(LoaderTrees(ram, root, path, up))
  {
    var t := LoaderTrees(ram, root, path, up);
    forall f, i | t.IsTable(f) && 0 <= i < 512
      ensures EntryOpen(t, f, i)
    {
      assert f != root ==> EntryFrom(ram, path, up[f], f);
      assert f != root ==> (path[f] + [i])[0] == path[f][0];
    }
  }
}
