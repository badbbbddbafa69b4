/**
  Whole runs of file-system calls: a volume that starts empty behaves, for as long as its
  clusters last, as a tree of named directories and byte strings (stuos/src/fs_fat.c).
 */
module FatRuns {
  import opened Options
  import opened Bytes
  import opened FatLayout
  import opened FatChains
  import opened FatVolumes
  import opened FatFiles
  import opened FatNames
  import opened FatCreate
  import opened FatSystems

  // --- Every directory and file in order ---

  /** A directory's recorded size is that of its listing, a file's does not run past its clusters. */
  ghost predicate NodeReady(fs: Fs, ino: Inode) {
    && HasDirent(fs.t, ino)
    && if IsDirectory(fs.Entry(ino)) then SizeMatches(fs, ino) else SizeInside(fs, ino)
  }

  ghost predicate AllReady(fs: Fs) {
    && DirReady(fs, PARENT_IS_ROOT_DIR)
    && (forall d :: d in fs.dirs ==> DirReady(fs, d))
    && (forall ino :: ino in fs.nodes ==> NodeReady(fs, ino))
  }

  /** Every write keeps everything in order, unless it writes nothing beyond the file's clusters. */
  lemma WriteKeepsReady(r: Regions, before: Fs, after: Fs, ino: Inode, off: nat, buf: seq<byte>)
    requires before.Ok(r) && AllReady(before) && before.IsFile(ino) && off + |buf| <= UINT32_MAX
    requires FileWritten(r, before, after, ino, off, buf) && ListingsKept(before, after)
    requires NodeReady(before, ino) && (buf != [] || off <= Extent(r, before, ino))
    ensures AllReady(after)
  {
    hide Tables.Ok, DirReady, SizeInside, FileBytes, FileUpdated, OwnChainGrown, Extent, ListingOf, SizeMatches;
    hide Fs.OneOwner, Fs.AllOwned;
    forall other | other in after.nodes
      ensures NodeReady(after, other)
    {
      if other != ino {
        assert SameEntry(before, after, other) && SameFile(before, after, other);
        assert NodeReady(before, other) && before.NodeOk(other);
        if IsDirectory(before.Entry(other)) {
          assert DirReady(before, before.Cluster(other));
          SizeStillMatches(before, after, other);
        }
      }
    }
  }

  lemma SizeStillMatches(before: Fs, after: Fs, own: Inode)
    requires SizeMatches(before, own) && SameEntry(before, after, own)
    requires SameListing(before, after, before.Cluster(own))
    ensures SizeMatches(after, own)
  {
  }

  /** The parent of a creation, as `create_inode` found it. */
  ghost predicate InPlace(fs: Fs, c: Creation) {
    && c.Ok() && DirReady(fs, c.dir)
    && (c.dir != PARENT_IS_ROOT_DIR ==> c.own in fs.nodes && HasDirent(fs.t, c.own) && fs.Cluster(c.own) == c.dir)
  }

  /** Every creation keeps everything in order. */
  lemma CreateKeepsReady(r: Regions, before: Fs, after: Fs, c: Creation)
    requires before.Ok(r) && AllReady(before) && InPlace(before, c) && InodeCreated(r, before, after, c)
    ensures AllReady(after)
  {
    hide Fs.Ok, DirReady, Resembles, NodeReady, EntryKept, SameFile, ListingOf, SizeMatches, Creation.Ok;
    forall d | d in after.dirs || d == PARENT_IS_ROOT_DIR
      ensures DirReady(after, d)
    {
      if d != c.dir && (d in before.dirs || d == PARENT_IS_ROOT_DIR) {
        OthersStayReady(r, before, after, c, d);
      }
    }
    forall ino | ino in after.nodes
      ensures NodeReady(after, ino)
    {
      CreateNodeReady(r, before, after, c, ino);
    }
  }

  lemma ReadyIsDir(fs: Fs, d: nat)
    requires DirReady(fs, d)
    ensures IsDir(fs, d) && ListingOf(fs.t, d).Names?
  {
  }

  lemma OthersStayReady(r: Regions, before: Fs, after: Fs, c: Creation, d: nat)
    requires InPlace(before, c) && InodeCreated(r, before, after, c) && DirReady(before, d) && d != c.dir
    ensures DirReady(after, d) && SameListing(before, after, d)
  {
    hide Fs.Ok, Resembles, EntryKept, SameFile, SizeMatches, ListingOf, NoEarlyEnd, Creation.Ok;
    ResemblingReady(before, after, d);
  }

  lemma CreateNodeReady(r: Regions, before: Fs, after: Fs, c: Creation, ino: Inode)
    requires before.Ok(r) && AllReady(before) && InPlace(before, c) && InodeCreated(r, before, after, c)
    requires ino in after.nodes
    ensures NodeReady(after, ino)
  {
    hide Fs.Ok, DirReady, Resembles, ListingOf, SameFile, EntryKept, SizeMatches, SizeInside, Creation.Ok, NodeReady,
      DirectoryCreated;
    ReadyIsDir(before, c.dir);
    if ino == c.Node(before) {
      NewNodeReady(r, before, after, c);
    } else {
      OldNodeReady(r, before, after, c, ino);
    }
  }

  lemma OldNodeReady(r: Regions, before: Fs, after: Fs, c: Creation, ino: Inode)
    requires before.Ok(r) && AllReady(before) && InPlace(before, c) && InodeCreated(r, before, after, c)
    requires ino in before.nodes
    ensures NodeReady(after, ino)
  {
    hide Tables.Ok, DirReady, Resembles, ListingOf, FileBytes, SizeInside, SizeMatches, Creation.Ok, DirectoryCreated,
      Fs.AllOwned;
    assert EntryKept(before, after, c, ino) && SameFile(before, after, ino);
    assert NodeReady(before, ino) && before.NodeOk(ino);
    if IsDirectory(before.Entry(ino)) && !(c.dir != PARENT_IS_ROOT_DIR && ino == c.own) {
      HomeElsewhere(r, before, c, ino);
      OthersStayReady(r, before, after, c, before.Cluster(ino));
      SizeStillMatches(before, after, ino);
    }
  }

  /** Only the parent of a creation has the parent's first cluster. */
  lemma HomeElsewhere(r: Regions, fs: Fs, c: Creation, ino: Inode)
    requires fs.Ok(r) && AllReady(fs) && InPlace(fs, c) && ino in fs.nodes && HasDirent(fs.t, ino)
    requires IsDirectory(fs.Entry(ino)) && !(c.dir != PARENT_IS_ROOT_DIR && ino == c.own)
    ensures fs.Cluster(ino) != c.dir && fs.Cluster(ino) in fs.dirs && DirReady(fs, fs.Cluster(ino))
  {
    hide Tables.Ok, DirReady, ListingOf, NodeReady, Creation.Ok, Fs.AllOwned;
    assert fs.NodeOk(ino);
    NoChainAtZero(r, fs.t, fs.Cluster(ino));
  }

  lemma NewNodeReady(r: Regions, before: Fs, after: Fs, c: Creation)
    requires InPlace(before, c) && InodeCreated(r, before, after, c)
    ensures NodeReady(after, c.Node(before))
  {
    hide Fs.Ok, DirReady, Resembles, ListingOf, SameFile, EntryKept, SizeMatches;
  }

  /** An empty volume is in order. */
  lemma FormattedReady(r: Regions, v: View)
    requires Formatted(r, v)
    ensures var fs := Fs(Tables(v, map[]), {}, {});
            fs.Ok(r) && AllReady(fs) && Serves(fs, Tree(map[PARENT_IS_ROOT_DIR := []], map[], map[]))
  {
    hide Fs.Ok, DirReady, ListingOf, Formatted;
    FormattedOk(r, v);
    ReadyIsDir(Fs(Tables(v, map[]), {}, {}), PARENT_IS_ROOT_DIR);
  }

  // --- What a program sees of the volume ---

  /**
    The directories by first cluster, each with its listing, where those other than the root
    have their own entries, and the bytes of the files.
   */
  datatype Tree = Tree(lists: map<nat, seq<Listed>>, homes: map<Inode, nat>, files: map<Inode, seq<byte>>) {

    ghost predicate Sound() {
      && PARENT_IS_ROOT_DIR in lists && homes.Keys !! files.Keys
      && ListsExactly(lists, homes.Keys + files.Keys) && Housed(lists, homes)
    }

    function Dir(parent: Option<Inode>): nat
      requires parent.Some? ==> parent.value in homes
    {
      if parent.None? then PARENT_IS_ROOT_DIR else homes[parent.value]
    }
  }

  /** What is in use is exactly what is listed. */
  ghost predicate ListsExactly(lists: map<nat, seq<Listed>>, nodes: set<Inode>) {
    forall ino :: ino in nodes <==> ino.parent in lists && At(lists[ino.parent], ino.index)
  }

  /** Every directory but the root has exactly one entry of its own. */
  ghost predicate Housed(lists: map<nat, seq<Listed>>, homes: map<Inode, nat>) {
    && (forall ino :: ino in homes ==> homes[ino] in lists && homes[ino] != PARENT_IS_ROOT_DIR)
    && (forall a, b :: a in homes && b in homes && homes[a] == homes[b] ==> a == b)
    && (forall d :: d in lists && d != PARENT_IS_ROOT_DIR ==> HasHome(homes, d))
  }

  ghost predicate HasHome(homes: map<Inode, nat>, d: nat) {
    exists ino :: ino in homes && homes[ino] == d
  }

  ghost predicate At(es: seq<Listed>, index: nat) {
    exists k :: 0 <= k < |es| && es[k].index == index
  }

  ghost predicate ListsAs(fs: Fs, d: nat, es: seq<Listed>) {
    IsDir(fs, d) && ListingOf(fs.t, d).Names? && ListingOf(fs.t, d).entries == es
  }

  ghost predicate IsHome(fs: Fs, ino: Inode, d: nat) {
    HasDirent(fs.t, ino) && IsDirectory(fs.Entry(ino)) && fs.Cluster(ino) == d
  }

  ghost predicate HasBytes(fs: Fs, ino: Inode, b: seq<byte>) {
    HasDirent(fs.t, ino) && !IsDirectory(fs.Entry(ino)) && SizeInside(fs, ino) && FileBytes(fs, ino) == b
  }

  /** The volume is in order and holds just what the program sees. */
  ghost predicate Serves(fs: Fs, tree: Tree) {
    && AllReady(fs) && tree.Sound()
    && tree.lists.Keys == fs.dirs + {PARENT_IS_ROOT_DIR}
    && tree.homes.Keys + tree.files.Keys == fs.nodes
    && (forall d :: d in tree.lists ==> ListsAs(fs, d, tree.lists[d]))
    && (forall ino :: ino in tree.homes ==> IsHome(fs, ino, tree.homes[ino]))
    && (forall ino :: ino in tree.files ==> HasBytes(fs, ino, tree.files[ino]))
  }

  // --- Calls ---

  datatype Call =
    | Write(ino: Inode, off: nat, input: seq<byte>)
    | Create(parent: Option<Inode>, isDirectory: bool, name: seq<byte>)

  /** Files and directories are used as what they are, and no empty write starts behind a file's end. */
  predicate Legal(tree: Tree, call: Call) {
    match call
    case Write(ino, off, input) => ino in tree.files && (input != [] || off <= |tree.files[ino]|)
    case Create(parent, _, name) => IsName(name) && (parent.Some? ==> parent.value in tree.homes)
  }

  /** What a completed call does to what the program sees. */
  ghost predicate Step(tree: Tree, call: Call, tree': Tree) {
    match call
    case Write(ino, off, input) =>
      && ino in tree.files && ino in tree'.files
      && tree' == tree.(files := tree.files[ino := tree'.files[ino]])
      && FileUpdated(tree.files[ino], tree'.files[ino], off, input)
    case Create(parent, isDirectory, name) =>
      && (parent.Some? ==> parent.value in tree.homes) && tree.Dir(parent) in tree.lists
      && exists index, x :: Adds(tree, tree.Dir(parent), isDirectory, name, index, x, tree')
  }

  /** One more name in the directory `d`, that of a new empty file or of a new empty directory at `x`. */
  ghost predicate Adds(tree: Tree, d: nat, isDirectory: bool, name: seq<byte>, index: nat, x: nat, tree': Tree)
    requires d in tree.lists
  {
    && tree' == WithNew(tree, d, isDirectory, name, index, x)
    && Inode(d, index) !in tree.homes.Keys + tree.files.Keys
    && (isDirectory ==> x !in tree.lists)
  }

  function WithNew(tree: Tree, d: nat, isDirectory: bool, name: seq<byte>, index: nat, x: nat): Tree
    requires d in tree.lists
  {
    var lists := tree.lists[d := tree.lists[d] + [Listed(name, index)]];
    if isDirectory then Tree(lists[x := []], tree.homes[Inode(d, index) := x], tree.files)
    else Tree(lists, tree.homes, tree.files[Inode(d, index) := []])
  }

  /**
    The source does not halt, and no size wraps: the end fits 32 bits, and there are clusters,
    or room in the root directory.
   */
  ghost predicate Enough(r: Regions, fs: Fs, call: Call)
    requires fs.Ok(r)
  {
    match call
    case Write(ino, off, input) =>
      fs.IsFile(ino) && off + |input| <= UINT32_MAX && ClustersNeeded(r, fs, ino, off, |input|) <= fs.t.Free()
    case Create(parent, isDirectory, name) =>
      ParentReady(fs, parent, name) && ParentIsDirectory(fs, parent) && RoomToCreate(r, fs, parent, isDirectory, name)
  }

  // --- A call keeps the volume in step with what the program sees ---

  lemma ServesParts(fs: Fs, tree: Tree)
    requires Serves(fs, tree)
    ensures fs.nodes == tree.homes.Keys + tree.files.Keys
    ensures tree.homes.Keys !! tree.files.Keys
    ensures forall ino :: ino in tree.files ==> HasBytes(fs, ino, tree.files[ino])
    ensures forall ino :: ino in tree.homes ==> IsHome(fs, ino, tree.homes[ino])
  {
  }

  lemma AddsKeepsSound(tree: Tree, d: nat, isDirectory: bool, name: seq<byte>, index: nat, x: nat)
    requires tree.Sound() && d in tree.lists && Inode(d, index) !in tree.homes.Keys + tree.files.Keys
    requires isDirectory ==> x !in tree.lists
    ensures WithNew(tree, d, isDirectory, name, index, x).Sound()
  {
    hide ListsExactly, Housed;
    var tree', node := WithNew(tree, d, isDirectory, name, index, x), Inode(d, index);
    assert tree'.homes.Keys + tree'.files.Keys == tree.homes.Keys + tree.files.Keys + {node};
    AddsKeepsLists(tree.lists, tree.homes.Keys + tree.files.Keys, node, name);
    if isDirectory {
      EmptyKeepsLists(tree.lists[d := tree.lists[d] + [Listed(name, index)]], tree'.homes.Keys + tree'.files.Keys, x);
    }
    AddsKeepsHoused(tree, d, isDirectory, name, index, x);
  }

  lemma AddsKeepsLists(lists: map<nat, seq<Listed>>, nodes: set<Inode>, node: Inode, name: seq<byte>)
    requires ListsExactly(lists, nodes) && node.parent in lists
    ensures ListsExactly(lists[node.parent := lists[node.parent] + [Listed(name, node.index)]], nodes + {node})
  {
    hide At;
    forall ino: Inode
      ensures At(lists[node.parent] + [Listed(name, node.index)], ino.index)
              <==> At(lists[node.parent], ino.index) || ino.index == node.index
    {
      AtAppended(lists[node.parent], Listed(name, node.index), ino.index);
    }
  }

  lemma EmptyKeepsLists(lists: map<nat, seq<Listed>>, nodes: set<Inode>, x: nat)
    requires ListsExactly(lists, nodes) && x !in lists
    ensures ListsExactly(lists[x := []], nodes)
  {
    hide At;
    forall index
      ensures !At([], index)
    {
      NothingAt(index);
    }
  }

  lemma AddsKeepsHoused(tree: Tree, d: nat, isDirectory: bool, name: seq<byte>, index: nat, x: nat)
    requires tree.Sound() && d in tree.lists && Inode(d, index) !in tree.homes.Keys + tree.files.Keys
    requires isDirectory ==> x !in tree.lists
    ensures var tree' := WithNew(tree, d, isDirectory, name, index, x); Housed(tree'.lists, tree'.homes)
  {
    hide At, ListsExactly;
    var tree', node := WithNew(tree, d, isDirectory, name, index, x), Inode(d, index);
    forall d' | d' in tree'.lists && d' != PARENT_IS_ROOT_DIR
      ensures HasHome(tree'.homes, d')
    {
      if d' in tree.lists {
        assert HasHome(tree.homes, d');
        var ino :| ino in tree.homes && tree.homes[ino] == d';
        assert ino in tree'.homes && tree'.homes[ino] == d';
      } else {
        assert node in tree'.homes && tree'.homes[node] == d';
      }
    }
  }

  lemma NothingAt(index: nat)
    ensures !At([], index)
  {
  }

  lemma AtAppended(es: seq<Listed>, e: Listed, index: nat)
    ensures At(es + [e], index) <==> At(es, index) || index == e.index
  {
    if At(es, index) {
      var k :| 0 <= k < |es| && es[k].index == index;
      assert (es + [e])[k].index == index;
    }
    if index == e.index {
      assert (es + [e])[|es|].index == index;
    }
  }

  lemma WriteServes(r: Regions, before: Fs, after: Fs, tree: Tree, ino: Inode, off: nat, buf: seq<byte>)
    requires before.Ok(r) && Serves(before, tree) && before.IsFile(ino) && off + |buf| <= UINT32_MAX
    requires FileWritten(r, before, after, ino, off, buf) && ListingsKept(before, after)
    requires Legal(tree, Write(ino, off, buf))
    ensures SizeInside(after, ino)
    ensures var tree' := tree.(files := tree.files[ino := FileBytes(after, ino)]);
            Serves(after, tree') && Step(tree, Write(ino, off, buf), tree')
  {
    hide Fs.Ok, AllReady, FileBytes, FileWritten, ListingsKept, SizeInside, Tree.Sound, ListsAs, IsHome, HasBytes,
      FileUpdated, Fs.IsFile, Extent;
    ServesParts(before, tree);
    InsideExtent(r, before, ino, tree.files[ino]);
    AllNodesReady(before, ino);
    WriteKeepsReady(r, before, after, ino, off, buf);
    WrittenHas(r, before, after, tree, ino, off, buf);
    var tree' := tree.(files := tree.files[ino := FileBytes(after, ino)]);
    SameShapeSound(tree, tree');
    forall d | d in tree'.lists
      ensures ListsAs(after, d, tree'.lists[d])
    {
      ListedAfterWrite(before, after, tree, d);
    }
    forall other | other in tree'.homes || other in tree'.files
      ensures other in tree'.homes ==> IsHome(after, other, tree'.homes[other])
      ensures other in tree'.files ==> HasBytes(after, other, tree'.files[other])
    {
      if other != ino {
        assert other in tree.homes ==> IsHome(before, other, tree.homes[other]);
        assert other in tree.files ==> HasBytes(before, other, tree.files[other]);
        OtherHasAfterWrite(r, before, after, ino, off, buf, other);
      }
    }
  }

  lemma SameShapeSound(tree: Tree, tree': Tree)
    requires tree.Sound() && tree'.lists == tree.lists && tree'.homes == tree.homes
    requires tree'.files.Keys == tree.files.Keys
    ensures tree'.Sound()
  {
    hide ListsExactly, Housed;
  }

  lemma ListedAfterWrite(before: Fs, after: Fs, tree: Tree, d: nat)
    requires Serves(before, tree) && ListingsKept(before, after) && d in tree.lists
    ensures ListsAs(after, d, tree.lists[d])
  {
    hide AllReady, DirReady, ListingOf, Tree.Sound, IsHome, HasBytes;
    AllDirsReady(before, d);
    assert SameListing(before, after, d);
  }

  lemma WrittenHas(r: Regions, before: Fs, after: Fs, tree: Tree, ino: Inode, off: nat, buf: seq<byte>)
    requires before.Ok(r) && before.IsFile(ino) && off + |buf| <= UINT32_MAX
    requires FileWritten(r, before, after, ino, off, buf) && ino in tree.files && HasBytes(before, ino, tree.files[ino])
    requires SizeInside(before, ino) && (buf != [] || off <= Extent(r, before, ino))
    ensures after.nodes == before.nodes && after.dirs == before.dirs && SizeInside(after, ino)
    ensures HasBytes(after, ino, FileBytes(after, ino))
    ensures FileUpdated(tree.files[ino], FileBytes(after, ino), off, buf)
  {
    hide Fs.Ok, SizeInside, FileBytes, FileUpdated, OwnChainGrown, OthersKept, Extent;
  }

  lemma OtherHasAfterWrite(r: Regions, before: Fs, after: Fs, ino: Inode, off: nat, buf: seq<byte>, other: Inode)
    requires before.Ok(r) && before.IsFile(ino) && off + |buf| <= UINT32_MAX
    requires FileWritten(r, before, after, ino, off, buf) && other in before.nodes && other != ino
    ensures forall d :: IsHome(before, other, d) ==> IsHome(after, other, d)
    ensures forall b :: HasBytes(before, other, b) ==> HasBytes(after, other, b)
  {
    hide Fs.Ok, SizeInside, FileBytes, FileUpdated, OwnChainGrown, ContentUpdated;
    assert SameEntry(before, after, other) && SameFile(before, after, other);
  }

  lemma InsideExtent(r: Regions, fs: Fs, ino: Inode, b: seq<byte>)
    requires HasBytes(fs, ino, b)
    ensures SizeInside(fs, ino) && |b| <= Extent(r, fs, ino)
  {
  }

  lemma AllDirsReady(fs: Fs, d: nat)
    requires AllReady(fs) && d in fs.dirs + {PARENT_IS_ROOT_DIR}
    ensures DirReady(fs, d)
  {
  }

  lemma AllNodesReady(fs: Fs, ino: Inode)
    requires AllReady(fs) && ino in fs.nodes
    ensures NodeReady(fs, ino)
  {
  }

  /** The tree after a creation. */
  ghost function TreeAfter(tree: Tree, before: Fs, c: Creation): Tree
    requires c.dir in tree.lists && IsDir(before, c.dir) && ListingOf(before.t, c.dir).Names?
  {
    WithNew(tree, c.dir, c.isDirectory, c.name, c.Node(before).index, c.cluster)
  }

  lemma CreateServes(r: Regions, before: Fs, after: Fs, tree: Tree, c: Creation)
    requires before.Ok(r) && Serves(before, tree) && InPlace(before, c) && InodeCreated(r, before, after, c)
    requires c.dir in tree.lists
    ensures IsDir(before, c.dir) && ListingOf(before.t, c.dir).Names?
    ensures Serves(after, TreeAfter(tree, before, c))
    ensures Adds(tree, c.dir, c.isDirectory, c.name, c.Node(before).index, c.cluster, TreeAfter(tree, before, c))
  {
    hide Fs.Ok, DirReady, ListingOf, AllReady, Resembles, Tree.Sound, EntryKept, SameFile, ListsAs, HasBytes, IsHome,
      Creation.Ok, DirectoryCreated;
    ReadyIsDir(before, c.dir);
    CreateKeepsReady(r, before, after, c);
    NewIsNew(r, before, after, tree, c);
    AddsKeepsSound(tree, c.dir, c.isDirectory, c.name, c.Node(before).index, c.cluster);
    var tree' := TreeAfter(tree, before, c);
    forall d | d in tree'.lists
      ensures ListsAs(after, d, tree'.lists[d])
    {
      ListedAfterCreate(r, before, after, tree, c, d);
    }
    forall ino | ino in tree'.homes || ino in tree'.files
      ensures NodeServed(after, tree', ino)
    {
      NodeAfterCreate(r, before, after, tree, c, ino);
    }
  }

  ghost predicate NodeServed(fs: Fs, tree: Tree, ino: Inode) {
    && (ino in tree.homes ==> IsHome(fs, ino, tree.homes[ino]))
    && (ino in tree.files ==> HasBytes(fs, ino, tree.files[ino]))
  }

  lemma NodeAfterCreate(r: Regions, before: Fs, after: Fs, tree: Tree, c: Creation, ino: Inode)
    requires before.Ok(r) && Serves(before, tree) && InPlace(before, c) && InodeCreated(r, before, after, c)
    requires c.dir in tree.lists && IsDir(before, c.dir) && ListingOf(before.t, c.dir).Names?
    requires ino in TreeAfter(tree, before, c).homes || ino in TreeAfter(tree, before, c).files
    ensures NodeServed(after, TreeAfter(tree, before, c), ino)
  {
    hide Fs.Ok, DirReady, ListingOf, AllReady, Tree.Sound, ListsAs, HasBytes, IsHome, InodeCreated, Creation.Ok;
    NewIsNew(r, before, after, tree, c);
    if ino == c.Node(before) {
      NewNodeHas(r, before, after, c);
    } else {
      assert NodeServed(before, tree, ino);
      OldNodeHas(r, before, after, c, ino);
    }
  }

  lemma NewIsNew(r: Regions, before: Fs, after: Fs, tree: Tree, c: Creation)
    requires before.Ok(r) && Serves(before, tree) && InPlace(before, c) && InodeCreated(r, before, after, c)
    ensures IsDir(before, c.dir) && ListingOf(before.t, c.dir).Names?
    ensures c.Node(before) !in tree.homes.Keys + tree.files.Keys
    ensures c.isDirectory ==> c.cluster !in tree.lists
  {
    hide Tables.Ok, DirReady, ListingOf, NodeReady, AllReady, SizeMatches, Resembles, Tree.Sound, EntryKept, SameFile,
      ListsAs, HasBytes, IsHome, Creation.Ok;
    ReadyIsDir(before, c.dir);
  }

  lemma ListedAfterCreate(r: Regions, before: Fs, after: Fs, tree: Tree, c: Creation, d: nat)
    requires before.Ok(r) && Serves(before, tree) && InPlace(before, c) && InodeCreated(r, before, after, c)
    requires c.dir in tree.lists && IsDir(before, c.dir) && ListingOf(before.t, c.dir).Names?
    requires d in TreeAfter(tree, before, c).lists
    ensures ListsAs(after, d, TreeAfter(tree, before, c).lists[d])
  {
    hide Fs.Ok, DirReady, ListingOf, NodeReady, AllReady, SizeMatches, Resembles, Tree.Sound, EntryKept, SameFile,
      HasBytes, IsHome, Creation.Ok;
    if c.isDirectory && d == c.cluster {
      ReadyIsDir(after, d);
    } else if d == c.dir {
      ReadyIsDir(after, d);
    } else {
      AllDirsReady(before, d);
      OthersStayReady(r, before, after, c, d);
    }
  }

  lemma NewNodeHas(r: Regions, before: Fs, after: Fs, c: Creation)
    requires InPlace(before, c) && InodeCreated(r, before, after, c)
    ensures IsDir(before, c.dir) && ListingOf(before.t, c.dir).Names?
    ensures if c.isDirectory then IsHome(after, c.Node(before), c.cluster) else HasBytes(after, c.Node(before), [])
  {
    hide Fs.Ok, DirReady, ListingOf, SizeMatches, Resembles, EntryKept, SameFile, DirectoryCreated;
    ReadyIsDir(before, c.dir);
  }

  lemma OldNodeHas(r: Regions, before: Fs, after: Fs, c: Creation, ino: Inode)
    requires before.Ok(r) && InPlace(before, c) && InodeCreated(r, before, after, c) && ino in before.nodes
    ensures forall d :: IsHome(before, ino, d) ==> IsHome(after, ino, d)
    ensures forall b :: HasBytes(before, ino, b) ==> HasBytes(after, ino, b)
  {
    hide Fs.Ok, DirReady, ListingOf, SizeMatches, Resembles, DirectoryCreated, SizeInside, FileBytes, Creation.Ok;
    assert EntryKept(before, after, c, ino) && SameFile(before, after, ino);
  }

  // --- Runs ---

  method PerformWrite(fs: FileSystem, tree: Tree, ino: Inode, off: nat, input: seq<byte>)
    returns (ok: bool, tree': Tree)
    requires fs.Valid() && Serves(fs.S(), tree) && Legal(tree, Write(ino, off, input))
    modifies fs.vol`t, fs.vol.dev, fs.vol.dev.cacheData
    ensures ok <==> Enough(fs.vol.R(), old(fs.S()), Write(ino, off, input))
    ensures ok ==> fs.Valid() && Serves(fs.S(), tree') && Step(tree, Write(ino, off, input), tree')
  {
    hide Shows, Tables.Ok, Fs.Ok, Serves, FileWritten, ListingsKept, Step, FileBytes, SizeInside, ClustersNeeded;
    ghost var before := fs.S();
    ServesParts(before, tree);
    ok := fs.WriteFile(ino, off, input);
    tree' := tree;
    if ok {
      WriteServes(fs.vol.R(), before, fs.S(), tree, ino, off, input);
      WrittenIsOk(fs.vol.R(), before, fs.S(), ino, off, input);
      var bytes := fs.ReadFile(ino, 0, UINT32_MAX);
      WholeFile(fs.S(), ino);
      tree' := tree.(files := tree.files[ino := bytes]);
    }
  }

  lemma WrittenIsOk(r: Regions, before: Fs, after: Fs, ino: Inode, off: nat, buf: seq<byte>)
    requires before.Ok(r) && before.IsFile(ino) && off + |buf| <= UINT32_MAX
    requires FileWritten(r, before, after, ino, off, buf)
    ensures after.Ok(r) && after.IsFile(ino)
  {
    hide Tables.Ok, Fs.NodesOk, Fs.OneOwner, Fs.AllOwned;
  }

  lemma WholeFile(fs: Fs, ino: Inode)
    requires SizeInside(fs, ino)
    ensures |FileBytes(fs, ino)| <= UINT32_MAX
    ensures FileBytes(fs, ino)[0..|FileBytes(fs, ino)|] == FileBytes(fs, ino)
  {
  }

  /** A parent the program knows is the directory it takes it for; only its size may be too large. */
  lemma ServedParent(fs: Fs, tree: Tree, parent: Option<Inode>, name: seq<byte>)
    requires Serves(fs, tree) && (parent.Some? ==> parent.value in tree.homes)
    ensures ParentIsDirectory(fs, parent) && DirOf(fs, parent) == tree.Dir(parent) && tree.Dir(parent) in tree.lists
    ensures ListsAs(fs, tree.Dir(parent), tree.lists[tree.Dir(parent)])
    ensures parent.Some? ==> parent.value in fs.nodes
    ensures ParentReady(fs, parent, name) <==>
              (parent.Some? ==> SizeOf(fs.Entry(parent.value)) + DIRENT * (LfnCount(name) + 1) <= UINT32_MAX)
  {
    hide DirReady, ListingOf, SizeMatches, LfnCount, HasBytes, ListsAs, ListsExactly;
    assert ListsAs(fs, tree.Dir(parent), tree.lists[tree.Dir(parent)]);
    AllDirsReady(fs, tree.Dir(parent));
    if parent.Some? {
      assert IsHome(fs, parent.value, tree.homes[parent.value]);
      AllNodesReady(fs, parent.value);
    }
  }

  /** The recorded size of the parent directory does not wrap when the entries of the name are added. */
  method SizeFits(fs: FileSystem, tree: Tree, parent: Option<Inode>, name: seq<byte>) returns (fits: bool)
    requires fs.Valid() && Serves(fs.S(), tree) && (parent.Some? ==> parent.value in tree.homes)
    modifies fs.vol.dev`cacheSector, fs.vol.dev`cacheValid, fs.vol.dev.cacheData
    ensures fs.Valid()
    ensures fits <==> ParentReady(fs.S(), parent, name)
  {
    hide Shows, Tables.Ok, Fs.Ok, Serves, DirReady, SizeMatches, LfnCount, ParentReady, ListsAs;
    OkParts(fs.vol.R(), fs.S());
    ServedParent(fs.S(), tree, parent, name);
    fits := true;
    if parent.Some? {
      var own := fs.ReadParentDirent(parent.value);
      fits := SizeOf(own) + DIRENT * (LfnCount(name) + 1) <= UINT32_MAX;
    }
  }

  lemma DescribedInPlace(fs: Fs, c: Creation, parent: Option<Inode>, isDirectory: bool, name: seq<byte>)
    requires ParentReady(fs, parent, name) && ParentIsDirectory(fs, parent)
    requires Describes(c, fs, parent, isDirectory, name) && c.Ok()
    ensures InPlace(fs, c)
  {
    hide DirReady, SizeMatches, LfnCount, Creation.Ok;
  }

  lemma LastInWindow<T>(es: seq<T>, e: T)
    ensures Window(es + [e], |es|, 1) == [e]
  {
  }

  lemma NoHomeOfFile(tree: Tree, d: nat, name: seq<byte>, index: nat, x: nat, y: nat)
    requires d in tree.lists
    ensures WithNew(tree, d, false, name, index, x) == WithNew(tree, d, false, name, index, y)
  {
  }

  lemma AddsIsStep(tree: Tree, parent: Option<Inode>, isDirectory: bool, name: seq<byte>, index: nat, x: nat,
                   tree': Tree)
    requires (parent.Some? ==> parent.value in tree.homes) && tree.Dir(parent) in tree.lists
    requires Adds(tree, tree.Dir(parent), isDirectory, name, index, x, tree')
    ensures Step(tree, Create(parent, isDirectory, name), tree')
  {
  }

  /** After a creation, the place where the new entry is found. */
  ghost predicate FoundAt(fs: Fs, tree: Tree, parent: Option<Inode>, name: seq<byte>, index: nat) {
    && (parent.Some? ==> parent.value in fs.nodes && parent.value in tree.homes) && ParentIsDirectory(fs, parent)
    && DirOf(fs, parent) == tree.Dir(parent) && tree.Dir(parent) in tree.lists
    && IsDir(fs, DirOf(fs, parent)) && ListingOf(fs.t, DirOf(fs, parent)).Names?
    && Window(ListingOf(fs.t, DirOf(fs, parent)).entries, |tree.lists[tree.Dir(parent)]|, 1) == [Listed(name, index)]
  }

  lemma NewIsFound(r: Regions, before: Fs, after: Fs, tree: Tree, parent: Option<Inode>, isDirectory: bool,
                   name: seq<byte>, c: Creation)
    requires before.Ok(r) && Serves(before, tree) && (parent.Some? ==> parent.value in tree.homes)
    requires ParentReady(before, parent, name) && ParentIsDirectory(before, parent)
    requires Describes(c, before, parent, isDirectory, name) && c.Ok()
    requires DirReady(before, c.dir) && InodeCreated(r, before, after, c)
    ensures IsDir(before, c.dir) && ListingOf(before.t, c.dir).Names?
    ensures FoundAt(after, tree, parent, name, c.Node(before).index)
  {
    hide Fs.Ok, Serves, DirReady, SizeMatches, LfnCount, ParentReady, InodeCreated, ListingOf, Creation.Ok, Window;
    ServedParent(before, tree, parent, name);
    ReadyIsDir(before, c.dir);
    ParentLists(r, before, after, c, parent, name);
    ReadyIsDir(after, DirOf(after, parent));
    LastInWindow(tree.lists[tree.Dir(parent)], Listed(name, c.Node(before).index));
  }

  /** And the tree with it. */
  lemma CreatedInTree(r: Regions, before: Fs, after: Fs, tree: Tree, parent: Option<Inode>, isDirectory: bool,
                      name: seq<byte>, c: Creation) returns (index: nat)
    requires before.Ok(r) && Serves(before, tree) && (parent.Some? ==> parent.value in tree.homes)
    requires ParentReady(before, parent, name) && ParentIsDirectory(before, parent)
    requires Describes(c, before, parent, isDirectory, name) && c.Ok()
    requires DirReady(before, c.dir) && InodeCreated(r, before, after, c)
    ensures after.Ok(r) && FoundAt(after, tree, parent, name, index)
    ensures isDirectory ==> IsHome(after, Inode(tree.Dir(parent), index), c.cluster)
    ensures var tree' := WithNew(tree, tree.Dir(parent), isDirectory, name, index, c.cluster);
            Serves(after, tree') && Step(tree, Create(parent, isDirectory, name), tree')
  {
    hide Fs.Ok, Serves, DirReady, LfnCount, ParentReady, InodeCreated, ListingOf, Creation.Ok, FoundAt, WithNew, Step,
      IsHome;
    ServedParent(before, tree, parent, name);
    NewIsFound(r, before, after, tree, parent, isDirectory, name, c);
    DescribedInPlace(before, c, parent, isDirectory, name);
    CreatedOk(r, before, after, c);
    CreateServes(r, before, after, tree, c);
    NewNodeHas(r, before, after, c);
    index := c.Node(before).index;
    AddsIsStep(tree, parent, isDirectory, name, index, c.cluster, TreeAfter(tree, before, c));
  }

  /** Look the new entry up behind the old ones, and if it is a directory read where that is. */
  method LookUpNew(fs: FileSystem, tree: Tree, parent: Option<Inode>, isDirectory: bool, name: seq<byte>,
                   ghost before: Fs, ghost c: Creation) returns (tree': Tree)
    requires fs.Valid() && before.Ok(fs.vol.R()) && Serves(before, tree)
    requires parent.Some? ==> parent.value in tree.homes
    requires ParentReady(before, parent, name) && ParentIsDirectory(before, parent)
    requires Describes(c, before, parent, isDirectory, name) && c.Ok()
    requires DirReady(before, c.dir) && InodeCreated(fs.vol.R(), before, fs.S(), c)
    modifies fs.vol.dev`cacheSector, fs.vol.dev`cacheValid, fs.vol.dev.cacheData
    ensures fs.Valid()
    ensures Serves(fs.S(), tree') && Step(tree, Create(parent, isDirectory, name), tree')
  {
    hide Shows, Tables.Ok, Fs.Ok, Serves, DirReady, ParentReady, InodeCreated, ListingOf, Creation.Ok, Window,
      WithNew, Step;
    ghost var place := CreatedInTree(fs.vol.R(), before, fs.S(), tree, parent, isDirectory, name, c);
    OkParts(fs.vol.R(), fs.S());
    var d := tree.Dir(parent);
    var names := fs.ReadDirents(parent, |tree.lists[d]|, 1);
    var index, x := names[0].index, 0;
    if isDirectory {
      var e := fs.ReadParentDirent(Inode(d, index));
      x := ClusterOf(e);
    }
    tree' := WithNew(tree, d, isDirectory, name, index, x);
    NoHomeOfFile(tree, d, name, index, x, c.cluster);
  }

  method PerformCreate(fs: FileSystem, tree: Tree, parent: Option<Inode>, isDirectory: bool, name: seq<byte>)
    returns (ok: bool, tree': Tree)
    requires fs.Valid() && Serves(fs.S(), tree) && Legal(tree, Create(parent, isDirectory, name))
    modifies fs, fs.vol`t, fs.vol.dev, fs.vol.dev.cacheData
    ensures ok <==> Enough(fs.vol.R(), old(fs.S()), Create(parent, isDirectory, name))
    ensures ok ==> fs.Valid() && Serves(fs.S(), tree') && Step(tree, Create(parent, isDirectory, name), tree')
  {
    hide Shows, Tables.Ok, Fs.Ok, Serves, InodeCreated, DirReady, SizeMatches, LfnCount, IsName, RoomToCreate, Step,
      ListingOf, Creation.Ok, ParentReady;
    ghost var before := fs.S();
    tree' := tree;
    ServedParent(before, tree, parent, name);
    ok := SizeFits(fs, tree, parent, name);
    if !ok {
      return;
    }
    ghost var c;
    ok, c := fs.CreateInode(parent, isDirectory, name);
    if ok {
      DescribedInPlace(before, c, parent, isDirectory, name);
      CreatedOk(fs.vol.R(), before, fs.S(), c);
      tree' := LookUpNew(fs, tree, parent, isDirectory, name, before, c);
    }
  }

  /** One call: the volume still holds what the program sees, which changes by a permitted step. */
  method Perform(fs: FileSystem, tree: Tree, call: Call) returns (ok: bool, tree': Tree)
    requires fs.Valid() && Serves(fs.S(), tree) && Legal(tree, call)
    modifies fs, fs.vol`t, fs.vol.dev, fs.vol.dev.cacheData
    ensures ok <==> Enough(fs.vol.R(), old(fs.S()), call)
    ensures ok ==> fs.Valid() && Serves(fs.S(), tree') && Step(tree, call, tree')
  {
    hide Shows, Fs.Ok, Serves, Step, Enough, Legal;
    match call
    case Write(ino, off, input) =>
      ok, tree' := PerformWrite(fs, tree, ino, off, input);
    case Create(parent, isDirectory, name) =>
      ok, tree' := PerformCreate(fs, tree, parent, isDirectory, name);
  }

  /**
    Any run: after every call each directory lists, and each file reads, as the steps say,
    and everything is in order. The run goes on to the first call the program may not make,
    or for which there is no room.
   */
  method Run(fs: FileSystem, tree: Tree, calls: seq<Call>) returns (n: nat, trees: seq<Tree>, ghost states: seq<Fs>)
    requires fs.Valid() && Serves(fs.S(), tree)
    modifies fs, fs.vol`t, fs.vol.dev, fs.vol.dev.cacheData
    ensures n <= |calls| && |trees| == |states| == n + 1 && trees[0] == tree && states[0] == old(fs.S())
    ensures forall i :: 0 <= i <= n ==> states[i].Ok(fs.vol.R()) && Serves(states[i], trees[i])
    ensures forall i, j :: 0 <= i < n && j == i + 1 ==> Step(trees[i], calls[i], trees[j])
    ensures n < |calls| ==> !(Legal(trees[n], calls[n]) && Enough(fs.vol.R(), states[n], calls[n]))
    ensures n == |calls| ==> fs.Valid() && states[n] == fs.S()
  {
    hide Shows, Fs.Ok, Serves, Step, Enough, Legal;
    n, trees, states := 0, [tree], [fs.S()];
    while n < |calls| && Legal(trees[n], calls[n])
      invariant n <= |calls| && |trees| == |states| == n + 1 && trees[0] == tree && states[0] == old(fs.S())
      invariant fs.Valid() && states[n] == fs.S()
      invariant forall i :: 0 <= i <= n ==> states[i].Ok(fs.vol.R()) && Serves(states[i], trees[i])
      invariant forall i, j :: 0 <= i < n && j == i + 1 ==> Step(trees[i], calls[i], trees[j])
      decreases |calls| - n
    {
      var ok, next := Perform(fs, trees[n], calls[n]);
      if !ok {
        return;
      }
      trees, states := trees + [next], states + [fs.S()];
      n := n + 1;
    }
  }
}
