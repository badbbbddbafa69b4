/** The file operations of a mounted FAT16 volume (stuos/src/fs_fat.c). */
module FatSystems {
  import opened Options
  import opened Bytes
  import opened FatArithmetic
  import opened FatLayout
  import opened FatChains
  import opened FatVolumes
  import opened FatFiles
  import opened FatNames
  import opened FatNameLoops
  import opened FatCreate

  /** How many free clusters `write_file` takes: for the file's first, its directory, and its data. */
  ghost function ClustersNeeded(r: Regions, fs: Fs, ino: Inode, off: nat, n: nat): nat
    requires fs.Ok(r) && fs.IsFile(ino)
  {
    assert fs.NodeOk(ino);
    var length := if IsInvalidCluster(fs.Cluster(ino)) then 1 else |fs.t.chains[fs.Cluster(ino)]|;
    ClustersToPrepare(r, fs, ino) + LengthAfterWrite(length, r.clusterSize, off, n) - length
  }

  ghost function ClustersToPrepare(r: Regions, fs: Fs, ino: Inode): nat
    requires 0 < r.clusterSize && HasDirent(fs.t, ino)
  {
    (if IsInvalidCluster(fs.Cluster(ino)) then 1 else 0) + DirectoryGrowth(r, fs.t, ino)
  }

  lemma PreparingIsNeeded(r: Regions, fs: Fs, ino: Inode, off: nat, n: nat)
    requires fs.Ok(r) && fs.IsFile(ino)
    ensures ClustersToPrepare(r, fs, ino) <= ClustersNeeded(r, fs, ino, off, n)
  {
  }

  lemma CostOfClaim(r: Regions, fs: Fs, ino: Inode, k: nat, t1: Tables)
    requires Claimed(r, fs, ino, k, t1)
    ensures t1.Free() == fs.t.Free() - if IsInvalidCluster(fs.Cluster(ino)) then 1 else 0
    ensures DirectoryGrowth(r, t1, ino) == DirectoryGrowth(r, fs.t, ino)
  {
    hide Tables.Ok, Tables.Free;
    ClaimedFacts(r, fs, ino, k, t1);
  }

  lemma CostOfEntry(r: Regions, fs: Fs, ino: Inode, end: nat, k: nat, t1: Tables, t2: Tables)
    requires Claimed(r, fs, ino, k, t1) && end <= UINT32_MAX
    requires DirentWritten(r, t1, t2, ino, NewEntry(fs.Entry(ino), k, end))
    ensures Prepared(r, fs, ino, end, k, t1, t2)
    ensures t2.Free() + DirectoryGrowth(r, t1, ino) == t1.Free()
  {
    hide Tables.Ok;
    ClaimedFacts(r, fs, ino, k, t1);
    DirentWriteKeepsKeys(r, t1, t2, ino, NewEntry(fs.Entry(ino), k, end));
  }

  /** What is left to be done, and the clusters it takes, once the entry is rewritten. */
  lemma ReadyForData(r: Regions, fs: Fs, ino: Inode, off: nat, n: nat, k: nat, t1: Tables, t2: Tables)
    requires Prepared(r, fs, ino, off + n, k, t1, t2)
    ensures fs.Ok(r) && fs.IsFile(ino) && t2.Ok(r) && k in t2.chains
    ensures ClustersNeeded(r, fs, ino, off, n) == ClustersToPrepare(r, fs, ino)
            + LengthAfterWrite(|t2.chains[k]|, r.clusterSize, off, n) - |t2.chains[k]|
  {
    hide Tables.Ok, ClustersToPrepare, LengthAfterWrite, Prepared, Content, Fs.NodesOk, Fs.OneOwner, Fs.AllOwned;
    PreparedIsOfFile(r, fs, ino, off + n, k, t1, t2);
    OwnChainBeforeData(r, fs, ino, off + n, k, t1, t2);
  }

  lemma DataWritten(r: Regions, fs: Fs, ino: Inode, off: nat, buf: seq<byte>,
                    k: nat, t1: Tables, t2: Tables, t3: Tables)
    requires Prepared(r, fs, ino, off + |buf|, k, t1, t2)
    requires ChainWritten(r, t2, t3, k, off, buf)
    ensures fs.Ok(r) && fs.IsFile(ino)
    ensures FileWritten(r, fs, fs.(t := t3), ino, off, buf)
    ensures ListingsKept(fs, fs.(t := t3))
  {
    hide FileWritten, ListingsKept;
    StepsWriteFile(r, fs, ino, off, buf, k, t1, t2, t3);
    ListingsAfterWrite(r, fs, ino, off, buf, k, t1, t2, t3);
  }

  lemma ListingsAfterWrite(r: Regions, fs: Fs, ino: Inode, off: nat, buf: seq<byte>,
                           k: nat, t1: Tables, t2: Tables, t3: Tables)
    requires WriteSteps(r, fs, ino, off, buf, k, t1, t2, t3)
    ensures ListingsKept(fs, fs.(t := t3))
  {
    hide WriteSteps, DirReady, ListingOf;
    forall dir | DirReady(fs, dir)
      ensures DirReady(fs.(t := t3), dir) && SameListing(fs, fs.(t := t3), dir)
    {
      ListingAfterWrite(r, fs, ino, off, buf, k, t1, t2, t3, dir);
    }
  }

  lemma ListingAfterWrite(r: Regions, fs: Fs, ino: Inode, off: nat, buf: seq<byte>,
                          k: nat, t1: Tables, t2: Tables, t3: Tables, dir: nat)
    requires WriteSteps(r, fs, ino, off, buf, k, t1, t2, t3) && DirReady(fs, dir)
    ensures DirReady(fs.(t := t3), dir) && SameListing(fs, fs.(t := t3), dir)
  {
    hide WriteSteps, ListingOf;
    FileWriteKeepsListings(r, fs, ino, off, buf, k, t1, t2, t3, dir);
  }

  /** Every directory that was ready lists as before, and is still ready. */
  ghost predicate ListingsKept(before: Fs, after: Fs) {
    forall dir :: DirReady(before, dir) ==> DirReady(after, dir) && SameListing(before, after, dir)
  }

  ghost predicate SameListing(before: Fs, after: Fs, dir: nat) {
    && IsDir(before, dir) && IsDir(after, dir)
    && ListingOf(after.t, dir) == ListingOf(before.t, dir)
  }

  /** There is room for the second half of a creation. */
  ghost predicate HasRoom(r: Regions, fs: Fs, c: Creation, t1: Tables)
    requires Started(r, fs, c, t1)
  {
    StartedFacts(r, fs, c, t1);
    var at, n := ListingOf(fs.t, c.dir).end, LfnCount(c.name) + 2;
    if c.dir == PARENT_IS_ROOT_DIR then DIRENT * (at + n) < |fs.t.view.root|
    else ClustersToAppend(r, t1, c.dir, c.own, at, n) <= t1.Free()
  }

  lemma AllocatingTakesOne(r: Regions)
    requires 0 < r.clusterSize
    ensures 1 <= LengthAfterWrite(1, r.clusterSize, 0, DIRENT)
  {
  }

  lemma CostOfOwnEntry(r: Regions, t1: Tables, t2: Tables, own: Inode, e: DirentBytes, dir: nat)
    requires t1.Ok(r) && 0 < r.clusterSize && HasDirent(t1, own) && DirentWritten(r, t1, t2, own, e)
    requires dir in t1.chains && own.parent != dir
    ensures t2.Ok(r) && dir in t2.chains && t2.chains[dir] == t1.chains[dir]
    ensures t2.Free() + DirectoryGrowth(r, t1, own) == t1.Free()
  {
    hide Tables.Ok;
    DirentWriteKeepsKeys(r, t1, t2, own, e);
    DirentWriteKeepsChain(r, t1, t2, own, e, dir);
  }

  lemma OkParts(r: Regions, fs: Fs)
    requires fs.Ok(r)
    ensures fs.t.Ok(r) && 0 < r.clusterSize && r.clusters < BAD_CLUSTER
    ensures fs.NodesOk()
  {
  }

  // --- Listing a directory ---

  /** The part of a list that a reader asking for `count` items from `index` on gets. */
  function Window<T>(s: seq<T>, index: nat, count: nat): seq<T> {
    if index >= |s| then [] else if |s| - index < count then s[index..] else s[index..index + count]
  }

  /** As many as are asked for and there are, in their places. */
  lemma WindowIs<T>(s: seq<T>, index: nat, count: nat, k: nat)
    ensures var w := Window(s, index, count);
            && |w| <= count && (|w| < count ==> |s| <= index + |w|)
            && (k < |w| ==> index + k < |s| && w[k] == s[index + k])
  {
  }

  lemma WindowGrows<T>(s: seq<T>, n: nat, index: nat, count: nat)
    requires n < |s|
    ensures Window(s[..n + 1], index, count)
            == if n < index || |Window(s[..n], index, count)| >= count then Window(s[..n], index, count)
               else Window(s[..n], index, count) + [s[n]]
  {
  }

  lemma WindowIsFull<T>(s: seq<T>, n: nat, index: nat, count: nat)
    requires index <= n <= |s| && |Window(s[..n], index, count)| >= count
    ensures Window(s, index, count) == Window(s[..n], index, count)
  {
  }

  /** A listing that is not halted takes the step its next entry calls for. */
  lemma ListTakesStep(dir: seq<DirentBytes>, i: nat, pending: seq<byte>, step: Step)
    requires List(dir, i, pending).Names? && step == ListStep(dir, i, pending)
    ensures !step.Halt?
    ensures step.End? ==> List(dir, i, pending).entries == []
    ensures step.LongName? ==> List(dir, step.next, step.name) == List(dir, i, pending)
    ensures step.Entry? ==>
              List(dir, i + 1, []).Names?
              && List(dir, i, pending).entries == [Listed(step.name, i)] + List(dir, i + 1, []).entries
  {
  }

  /** The reader is before entry `i`, has passed `read` entries, and has put `names` out. */
  ghost predicate Reading(dir: seq<DirentBytes>, i: nat, pending: seq<byte>, read: nat, names: seq<Listed>,
                          index: nat, count: nat)
  {
    && List(dir, 0, []).Names? && List(dir, i, pending).Names?
    && read <= |List(dir, 0, []).entries|
    && List(dir, i, pending).entries == List(dir, 0, []).entries[read..]
    && names == Window(List(dir, 0, []).entries[..read], index, count)
  }

  lemma ReadingStarts(dir: seq<DirentBytes>, index: nat, count: nat)
    requires List(dir, 0, []).Names?
    ensures Reading(dir, 0, [], 0, [], index, count)
  {
  }

  /** One step of the reader, and that it may stop at the end and when it has put out enough. */
  lemma ReadingStep(dir: seq<DirentBytes>, i: nat, pending: seq<byte>, read: nat, names: seq<Listed>,
                    index: nat, count: nat, step: Step)
    requires Reading(dir, i, pending, read, names, index, count) && step == ListStep(dir, i, pending)
    ensures List(dir, 0, []).Names? && !step.Halt?
    ensures step.End? ==> names == Window(List(dir, 0, []).entries, index, count)
    ensures step.LongName? ==> Reading(dir, step.next, step.name, read, names, index, count)
    ensures step.Entry? && read < index ==> Reading(dir, i + 1, [], read + 1, names, index, count)
    ensures step.Entry? && read >= index && |names| >= count ==> names == Window(List(dir, 0, []).entries, index, count)
    ensures step.Entry? && read >= index && |names| < count ==>
              Reading(dir, i + 1, [], read + 1, names + [Listed(step.name, i)], index, count)
  {
    hide List, ListStep, Window;
    var all := List(dir, 0, []).entries;
    ListTakesStep(dir, i, pending, step);
    if step.End? {
      assert all[..read] == all;
    } else if step.Entry? {
      assert all[read] == all[read..][0] == Listed(step.name, i);
      assert all[read..][1..] == all[read + 1..];
      WindowGrows(all, read, index, count);
      if read >= index && |names| >= count {
        WindowIsFull(all, read, index, count);
      }
    }
  }

  function Split(bytes: seq<byte>, n: nat): seq<DirentBytes>
    requires |bytes| == DIRENT * n
  {
    seq(n, k requires 0 <= k < n => bytes[DIRENT * k..DIRENT * k + DIRENT])
  }

  lemma SplitIsEntries(t: Tables, dir: nat, i: nat, n: nat)
    requires dir != PARENT_IS_ROOT_DIR ==> dir in t.chains && Inside(t.chains[dir], |t.view.data|)
    requires i + n <= |DirEntries(t, dir)| && DIRENT * (i + n) <= |DirBytes(t, dir)|
    ensures Split(DirBytes(t, dir)[DIRENT * i..DIRENT * i + DIRENT * n], n) == DirEntries(t, dir)[i..i + n]
  {
    hide Slots, Content;
    var es := Split(DirBytes(t, dir)[DIRENT * i..DIRENT * i + DIRENT * n], n);
    forall k | 0 <= k < n
      ensures es[k] == DirEntries(t, dir)[i..i + n][k]
    {
      SliceOfSlice(DirBytes(t, dir), DIRENT * i, DIRENT * (i + n), DIRENT * k, DIRENT * k + DIRENT);
    }
  }

  lemma EntriesReadable(r: Regions, fs: Fs, dir: nat, i: nat, n: nat)
    requires fs.Ok(r) && IsDir(fs, dir) && 0 < n && i + n <= |DirEntries(fs.t, dir)|
    ensures dir == PARENT_IS_ROOT_DIR ==> DIRENT * i + DIRENT * n < |fs.t.view.root|
    ensures dir != PARENT_IS_ROOT_DIR ==> Readable(r, fs.t, dir, DIRENT * i, DIRENT * n)
    ensures DIRENT * (i + n) <= |DirBytes(fs.t, dir)|
  {
    hide Fs.NodesOk, Fs.OneOwner, Fs.AllOwned;
    assert i + n - 1 < Slots(fs.t, dir);
    if dir != PARENT_IS_ROOT_DIR {
      SizedOk(r, fs.t);
      ContentLength(fs.t.view.data, r.clusterSize, fs.t.chains[dir]);
    }
  }

  // --- Where something is created ---

  ghost predicate ParentIsDirectory(fs: Fs, parent: Option<Inode>) {
    parent.Some? ==> HasDirent(fs.t, parent.value) && IsDirectory(fs.Entry(parent.value))
  }

  /** The directory an inode names; the root for none. */
  ghost function DirOf(fs: Fs, parent: Option<Inode>): nat
    requires parent.Some? ==> HasDirent(fs.t, parent.value)
  {
    if parent.None? then PARENT_IS_ROOT_DIR else fs.Cluster(parent.value)
  }

  /** A parent that is a directory is as `create_inode` leaves directories, and its size does not wrap. */
  ghost predicate ParentReady(fs: Fs, parent: Option<Inode>, name: seq<byte>) {
    && (parent.Some? ==> parent.value in fs.nodes && HasDirent(fs.t, parent.value))
    && (ParentIsDirectory(fs, parent) ==>
          && DirReady(fs, DirOf(fs, parent))
          && (parent.Some? ==>
                && SizeMatches(fs, parent.value)
                && SizeOf(fs.Entry(parent.value)) + DIRENT * (LfnCount(name) + 1) <= UINT32_MAX))
  }

  /** Enough free clusters, and in the root directory enough room before its last entry. */
  ghost predicate RoomToCreate(r: Regions, fs: Fs, parent: Option<Inode>, isDirectory: bool, name: seq<byte>)
    requires fs.Ok(r) && ParentReady(fs, parent, name) && ParentIsDirectory(fs, parent)
  {
    var at, n := ListingOf(fs.t, DirOf(fs, parent)).end, LfnCount(name) + 2;
    if parent.None? then
      ClustersToAllocate(r, isDirectory) <= fs.t.Free() && DIRENT * (at + n) < |fs.t.view.root|
    else
      ClustersToAllocate(r, isDirectory)
      + ClustersToAppend(r, fs.t, DirOf(fs, parent), parent.value, at, n) <= fs.t.Free()
  }

  ghost function TheCreation(fs: Fs, parent: Option<Inode>, name: seq<byte>, shortName: seq<byte>,
                             isDirectory: bool, cluster: nat): Creation
    requires parent.Some? ==> HasDirent(fs.t, parent.value)
  {
    Creation(DirOf(fs, parent), if parent.Some? then parent.value else Inode(0, 0), name, shortName, isDirectory,
             cluster)
  }

  ghost predicate Describes(c: Creation, fs: Fs, parent: Option<Inode>, isDirectory: bool, name: seq<byte>)
    requires parent.Some? ==> HasDirent(fs.t, parent.value)
  {
    && c.dir == DirOf(fs, parent) && c.name == name && c.isDirectory == isDirectory
    && (parent.Some? ==> c.own == parent.value)
  }

  /** After a creation the parent is the same directory, whose listing has the new name at its end. */
  lemma ParentLists(r: Regions, before: Fs, after: Fs, c: Creation, parent: Option<Inode>, name: seq<byte>)
    requires before.Ok(r) && ParentReady(before, parent, name) && ParentIsDirectory(before, parent)
    requires Describes(c, before, parent, c.isDirectory, name) && c.Ok()
    requires InodeCreated(r, before, after, c)
    ensures ParentIsDirectory(after, parent) && DirOf(after, parent) == DirOf(before, parent)
    ensures parent.Some? ==> parent.value in after.nodes && SizeMatches(after, parent.value)
    ensures DirReady(after, DirOf(after, parent))
    ensures ListingOf(after.t, DirOf(after, parent)).entries == ListingWith(before, parent, name)
  {
    hide Fs.Ok, NoEarlyEnd, ListingOf, SizeMatches, DirectoryCreated, Resembles, SameFile, LfnCount, IsName;
    if parent.Some? {
      NotTheRoot(before, parent.value);
      assert EntryKept(before, after, c, parent.value);
    }
  }

  lemma NotTheRoot(fs: Fs, own: Inode)
    requires SizeMatches(fs, own)
    ensures HasDirent(fs.t, own) && fs.Cluster(own) != PARENT_IS_ROOT_DIR
  {
  }

  ghost function ListingWith(fs: Fs, parent: Option<Inode>, name: seq<byte>): seq<Listed>
    requires ParentReady(fs, parent, name) && ParentIsDirectory(fs, parent)
  {
    var l := ListingOf(fs.t, DirOf(fs, parent));
    l.entries + [Listed(name, l.end + LfnCount(name))]
  }

  /** With its cluster allocated, the creation is started, and what it needs has become less by that much. */
  lemma CreationStarts(r: Regions, fs: Fs, parent: Option<Inode>, name: seq<byte>, shortName: seq<byte>,
                       isDirectory: bool, cluster: nat, t1: Tables)
    requires fs.Ok(r) && ParentReady(fs, parent, name) && ParentIsDirectory(fs, parent)
    requires IsName(name) && |shortName| == 11 && shortName[0] == 82 && cluster < 0x10000
    requires Allocated(r, fs.t, t1, isDirectory, cluster) && t1.Ok(r)
    ensures var c := TheCreation(fs, parent, name, shortName, isDirectory, cluster);
            && Started(r, fs, c, t1)
            && (parent.Some? <==> c.dir != PARENT_IS_ROOT_DIR)
            && (RoomToCreate(r, fs, parent, isDirectory, name) <==> HasRoom(r, fs, c, t1))
  {
    hide Tables.Ok, Fs.Ok, Tables.Free, ClustersToAllocate, DirectoryGrowth, LengthAfterWrite, DirReady, Allocated,
      List;
    hide GroupName, NameEntries, NoEarlyEnd, Content;
    NameRoundTrip(name, 0);
    OkParts(r, fs);
    var c := TheCreation(fs, parent, name, shortName, isDirectory, cluster);
    assert Started(r, fs, c, t1);
    StartedFacts(r, fs, c, t1);
    AllocatedCost(r, fs.t, t1, isDirectory, cluster, c.own, c.dir);
  }

  /** Without clusters for the first half there is no room. */
  lemma AllocatingIsNeeded(r: Regions, fs: Fs, parent: Option<Inode>, isDirectory: bool, name: seq<byte>)
    requires fs.Ok(r) && ParentReady(fs, parent, name) && ParentIsDirectory(fs, parent)
    ensures RoomToCreate(r, fs, parent, isDirectory, name) ==> ClustersToAllocate(r, isDirectory) <= fs.t.Free()
  {
  }

  class FileSystem {
    const vol: Volume
    ghost var nodes: set<Inode>
    ghost var dirs: set<nat>
    var createIdx: nat

    ghost predicate Valid()
      reads this, vol, vol.dev, vol.dev.cacheData
    {
      vol.Mounted() && S().Ok(vol.R())
    }

    /** The state the volume's bytes and the record of what is in use amount to. */
    ghost function S(): Fs
      reads this, vol
    {
      Fs(vol.t, nodes, dirs)
    }

    constructor (vol: Volume, ghost nodes: set<Inode>, ghost dirs: set<nat>)
      requires vol.Mounted() && Fs(vol.t, nodes, dirs).Ok(vol.R())
      ensures Valid() && this.vol == vol && this.nodes == nodes && this.dirs == dirs
    {
      this.vol, this.nodes, this.dirs, this.createIdx := vol, nodes, dirs, 0;
    }

    lemma DirentReadable(t: Tables, ino: Inode)
      requires t.Ok(vol.R()) && 0 < vol.R().clusterSize && HasDirent(t, ino)
      ensures ino.parent != PARENT_IS_ROOT_DIR ==> Readable(vol.R(), t, ino.parent, DIRENT * ino.index, DIRENT)
    {
      if ino.parent != PARENT_IS_ROOT_DIR {
        ContentLength(t.view.data, vol.R().clusterSize, t.chains[ino.parent]);
      }
    }

    /** `read_parent_dirent`. */
    method ReadParentDirent(ino: Inode) returns (e: DirentBytes)
      requires vol.Mounted() && vol.t.Ok(vol.R()) && 0 < vol.R().clusterSize && HasDirent(vol.t, ino)
      modifies vol.dev`cacheSector, vol.dev`cacheValid, vol.dev.cacheData
      ensures vol.Mounted()
      ensures e == Dirent(vol.t, ino)
    {
      hide Tables.Ok, Shows, Readable, Content, Regions.Fit, Geometry.Fits;
      DirentReadable(vol.t, ino);
      if ino.parent == PARENT_IS_ROOT_DIR {
        var bytes := vol.ReadRootDir(DIRENT * ino.index, DIRENT);
        e := bytes.value;
      } else {
        e := vol.ReadChain(ino.parent, DIRENT * ino.index, DIRENT);
      }
    }

    /** `write_parent_dirent`; `ok` is false where the directory cannot grow. */
    method WriteParentDirent(ino: Inode, e: DirentBytes) returns (ok: bool)
      requires vol.Mounted() && vol.t.Ok(vol.R()) && 0 < vol.R().clusterSize && HasDirent(vol.t, ino)
      modifies vol`t, vol.dev, vol.dev.cacheData
      ensures vol.Mounted()
      ensures ok <==> DirectoryGrowth(vol.R(), old(vol.t), ino) <= old(vol.t.Free())
      ensures ok ==> DirentWritten(vol.R(), old(vol.t), vol.t, ino, e)
    {
      hide Shows, Tables.Ok, Tables.Free;
      if ino.parent == PARENT_IS_ROOT_DIR {
        ok := vol.WriteRootDir(DIRENT * ino.index, e);
      } else {
        ok := vol.WriteChain(ino.parent, DIRENT * ino.index, e);
      }
    }

    /** The file's first cluster, a fresh one if it has none yet. */
    method ClaimFirstCluster(ino: Inode, e: DirentBytes) returns (r: Option<nat>)
      requires Valid() && S().IsFile(ino) && e == S().Entry(ino)
      modifies vol`t, vol.dev, vol.dev.cacheData
      ensures vol.Mounted()
      ensures r.None? ==> IsInvalidCluster(ClusterOf(e)) && old(vol.t.Free()) == 0
      ensures r.Some? ==> Claimed(vol.R(), old(S()), ino, r.value, vol.t)
    {
      hide Shows, Tables.Ok, FreeClusters, Tables.Free, Fs.Ok;
      OkParts(vol.R(), S());
      var k := ClusterOf(e);
      if IsInvalidCluster(k) {
        r := vol.FindFreeCluster();
        if r.Some? {
          k := r.value;
          StartFrame(vol.R(), vol.t, k, ino.parent);
          StartKeepsDirent(vol.R(), vol.t, k, ino);
          vol.StartFresh(k);
        }
      } else {
        r := Some(k);
      }
    }

    /** Claim the first cluster and rewrite the file's entry for a write ending at `end`. */
    method PrepareWrite(ino: Inode, e: DirentBytes, end: nat) returns (r: Option<nat>, ghost t1: Tables)
      requires Valid() && S().IsFile(ino) && e == S().Entry(ino)
      modifies vol`t, vol.dev, vol.dev.cacheData
      ensures vol.Mounted()
      ensures r.Some? <==> end <= UINT32_MAX && ClustersToPrepare(vol.R(), old(S()), ino) <= old(vol.t.Free())
      ensures r.Some? ==> Prepared(vol.R(), old(S()), ino, end, r.value, t1, vol.t)
      ensures r.Some? ==> vol.t.Free() + ClustersToPrepare(vol.R(), old(S()), ino) == old(vol.t.Free())
    {
      hide Shows, Tables.Ok, DirentWritten, Tables.Free, DirectoryGrowth;
      ghost var fs := S();
      r := ClaimFirstCluster(ino, e);
      t1 := vol.t;
      if r.None? {
        return;
      }
      CostOfClaim(vol.R(), fs, ino, r.value, t1);
      var size := SizeOf(e);
      if end > size {
        if end > UINT32_MAX {
          r := None;
          return;
        }
        size := end;
      }
      var ok := WriteParentDirent(ino, WithClusterAndSize(e, r.value, size));
      if ok {
        CostOfEntry(vol.R(), fs, ino, end, r.value, t1, vol.t);
      } else {
        r := None;
      }
    }

    /**
      `write_file`. `ok` is false where the source halts: on a directory, when the file
      would exceed 4 GiB, or for want of clusters.
     */
    method WriteFile(ino: Inode, off: nat, input: seq<byte>) returns (ok: bool)
      requires Valid() && ino in nodes
      modifies vol`t, vol.dev, vol.dev.cacheData
      ensures vol.Mounted()
      ensures ok <==> old(S().IsFile(ino)) && off + |input| <= UINT32_MAX
                      && ClustersNeeded(vol.R(), old(S()), ino, off, |input|) <= old(vol.t.Free())
      ensures ok ==> FileWritten(vol.R(), old(S()), S(), ino, off, input)
      ensures ok ==> ListingsKept(old(S()), S())
    {
      hide Shows, Tables.Ok, FileWritten, ListingsKept, Tables.Free, ChainWritten, Prepared, DirectoryGrowth;
      hide ClustersNeeded, ClustersToPrepare, LengthAfterWrite, Fs.Ok;
      OkParts(vol.R(), S());
      assert S().NodeOk(ino);
      var e := ReadParentDirent(ino);
      if IsDirectory(e) {
        return false;
      }
      ghost var fs := S();
      PreparingIsNeeded(vol.R(), fs, ino, off, |input|);
      var k, t1 := PrepareWrite(ino, e, off + |input|);
      if k.None? {
        return false;
      }
      ghost var t2 := vol.t;
      ReadyForData(vol.R(), fs, ino, off, |input|, k.value, t1, t2);
      ok := vol.WriteChain(k.value, off, input);
      if ok {
        DataWritten(vol.R(), fs, ino, off, input, k.value, t1, t2, vol.t);
      }
    }

    method NextShortName() returns (shortName: seq<byte>)
      modifies this`createIdx
      ensures shortName == NthShortName(old(createIdx)) && createIdx == (old(createIdx) + 1) % 0x1_0000_0000
    {
      var i := createIdx;
      shortName := [82, 69, 65, 68, 95, 76, 70, 78, 65 + i % 26, 65 + i / 26 % 26, 65 + i / 26 / 26 % 26];
      createIdx := (createIdx + 1) % 0x1_0000_0000;
    }

    /** For a directory, a chain whose first entry is the end of the directory. */
    method AllocateFor(isDirectory: bool) returns (r: Option<nat>)
      requires vol.Mounted() && vol.t.Ok(vol.R()) && 0 < vol.R().clusterSize
      modifies vol`t, vol.dev, vol.dev.cacheData
      ensures vol.Mounted()
      ensures r.Some? <==> ClustersToAllocate(vol.R(), isDirectory) <= old(vol.t.Free())
      ensures r.Some? ==>
                r.value < 0x10000 && vol.t.Ok(vol.R()) && Allocated(vol.R(), old(vol.t), vol.t, isDirectory, r.value)
    {
      hide Shows, Tables.Ok, ChainEffect, LengthAfterWrite, Tables.Free;
      AllocatingTakesOne(vol.R());
      if !isDirectory {
        return Some(0);
      }
      ghost var t0 := vol.t;
      r := vol.FindFreeCluster();
      if r.Some? {
        var x := r.value;
        StartFrame(vol.R(), vol.t, x, x);
        vol.StartFresh(x);
        var ok := vol.WriteChain(x, 0, ZERO_DIRENT);
        if ok {
          AllocatedKeys(vol.R(), t0, vol.t, true, x);
        } else {
          r := None;
        }
      }
    }

    /** The end of the root directory: its first entry whose first byte is zero. */
    method FindRootEnd() returns (at: nat)
      requires vol.Mounted() && ListingOf(vol.t, PARENT_IS_ROOT_DIR).Names? && NoEarlyEnd(vol.t, PARENT_IS_ROOT_DIR)
      modifies vol.dev`cacheSector, vol.dev`cacheValid, vol.dev.cacheData
      ensures vol.Mounted()
      ensures at == ListingOf(vol.t, PARENT_IS_ROOT_DIR).end
    {
      hide Shows, List, EntriesOf, Tables.Ok, Content;
      ghost var end := ListingOf(vol.t, PARENT_IS_ROOT_DIR).end;
      ListEndsLater(DirEntries(vol.t, PARENT_IS_ROOT_DIR), 0, []);
      at := 0;
      while true
        invariant vol.Mounted() && 0 <= at <= end
        decreases end - at
      {
        var e := vol.ReadRootDir(DIRENT * at, DIRENT);
        assert e.value == DirEntries(vol.t, PARENT_IS_ROOT_DIR)[at];
        if e.value[0] == 0 {
          return;
        }
        at := at + 1;
      }
    }

    /** Grow the directory's own entry, then write the new entries over its end. */
    method AppendToDirectory(own: Inode, es: seq<DirentBytes>, ghost dir: nat, ghost at: nat) returns (ok: bool,
                             ghost t2: Tables)
      requires vol.Mounted() && vol.t.Ok(vol.R()) && 0 < vol.R().clusterSize && es != []
      requires HasDirent(vol.t, own) && ClusterOf(Dirent(vol.t, own)) == dir
      requires dir != PARENT_IS_ROOT_DIR && dir in vol.t.chains && own.parent != dir
      requires SizeOf(Dirent(vol.t, own)) == DIRENT * (at + 1)
      requires DIRENT * (at + |es|) <= UINT32_MAX
      modifies vol`t, vol.dev, vol.dev.cacheData
      ensures vol.Mounted()
      ensures ok <==> ClustersToAppend(vol.R(), old(vol.t), dir, own, at, |es|) <= old(vol.t.Free())
      ensures ok ==> Appended(vol.R(), old(vol.t), t2, vol.t, dir, own,
                              WithClusterAndSize(old(Dirent(vol.t, own)), dir, DIRENT * (at + |es|)), at, es)
    {
      hide Shows, Tables.Ok, ChainEffect, LengthAfterWrite, Tables.Free, DirectoryGrowth, DirentWritten, Flatten;
      ghost var t1 := vol.t;
      var e := ReadParentDirent(own);
      var offset := SizeOf(e) - DIRENT;
      LengthNeverShrinks(|t1.chains[dir]|, vol.R().clusterSize, offset, DIRENT * |es|);
      var grown := WithClusterAndSize(e, ClusterOf(e), SizeOf(e) + DIRENT * (|es| - 1));
      ok := WriteParentDirent(own, grown);
      t2 := vol.t;
      if ok {
        CostOfOwnEntry(vol.R(), t1, t2, own, grown, dir);
        ok := vol.WriteChain(ClusterOf(e), offset, Flatten(es));
      }
    }

    /** Append the entries of a started creation, whose place is `parent`. */
    method AppendNew(parent: Option<Inode>, es: seq<DirentBytes>, ghost checksum: byte, ghost fs: Fs, ghost c: Creation)
      returns (ok: bool)
      requires vol.Mounted() && nodes == fs.nodes && dirs == fs.dirs
      requires Started(vol.R(), fs, c, vol.t)
      requires if parent.Some? then c.own == parent.value
               && c.dir != PARENT_IS_ROOT_DIR else c.dir == PARENT_IS_ROOT_DIR
      requires es == EntriesFor(c.name, checksum, c.Entry())
      modifies this, vol`t, vol.dev, vol.dev.cacheData
      ensures vol.Mounted()
      ensures ok <==> HasRoom(vol.R(), fs, c, old(vol.t))
      ensures ok ==> InodeCreated(vol.R(), fs, S(), c) && PutBehind(fs, vol.t, c, checksum)
    {
      hide Shows, Tables.Ok, Tables.Free, Fs.Ok, ClustersToAppend, InodeCreated, Allocated, DirReady, Started,
        PutBehind;
      hide SizeMatches, LfnCount, IsName, Flatten, List, EntriesFor, Creation.Entry, NoEarlyEnd, DirEntries;
      hide Slots, EntriesOf, ChainWritten, DirentWritten, Content, HasDirent, Dirent, Geometry.Regions, Geometry.Fits;
      ghost var t1, t2 := vol.t, vol.t;
      StartedFacts(vol.R(), fs, c, t1);
      EntriesForLength(c.name, checksum, c.Entry());
      if parent.None? {
        StartedKeepsListing(vol.R(), fs, c, t1);
        var at := FindRootEnd();
        ok := vol.WriteRootDir(DIRENT * at, Flatten(es));
      } else {
        ok, t2 := AppendToDirectory(parent.value, es, c.dir, ListingOf(fs.t, c.dir).end);
      }
      if ok {
        StartedThenAppended(vol.R(), fs, c, checksum, t1, t2, vol.t);
        nodes := nodes + {c.Node(fs)};
        dirs := dirs + if c.isDirectory then {c.cluster} else {};
      }
    }

    /**
      `create_inode`. `ok` is false where the source halts: on a parent that is no
      directory, for want of clusters, or of room in the root directory.
     */
    method CreateInode(parent: Option<Inode>, isDirectory: bool, name: seq<byte>) returns (ok: bool, ghost c: Creation)
      requires Valid() && IsName(name) && ParentReady(S(), parent, name)
      modifies this, vol`t, vol.dev, vol.dev.cacheData
      ensures vol.Mounted()
      ensures ok <==> old(ParentIsDirectory(S(), parent)) && RoomToCreate(vol.R(), old(S()), parent, isDirectory, name)
      ensures ok ==> Describes(c, old(S()), parent, isDirectory, name) && c.Ok()
      ensures ok ==> InodeCreated(vol.R(), old(S()), S(), c)
      ensures ok ==> c.shortName == NthShortName(old(createIdx))
                     && PutBehind(old(S()), vol.t, c, Checksum(c.shortName))
    {
      hide Shows, Tables.Ok, Tables.Free, Fs.Ok, ClustersToAllocate, ClustersToAppend, InodeCreated, Allocated,
        Appended, PutBehind;
      hide RoomToCreate, HasRoom, DirReady, SizeMatches, LfnCount, IsName, Flatten, NewDirent, Checksum, GroupName;
      ghost var fs := S();
      OkParts(vol.R(), fs);
      if parent.Some? {
        var own := ReadParentDirent(parent.value);
        if !IsDirectory(own) {
          return false, TheCreation(fs, parent, name, [], isDirectory, 0);
        }
      }
      NameRoundTrip(name, 0);
      var shortName := NextShortName();
      var longName := FillNameEntries(name, Checksum(shortName));
      AllocatingIsNeeded(vol.R(), fs, parent, isDirectory, name);
      var x := AllocateFor(isDirectory);
      if x.None? {
        return false, TheCreation(fs, parent, name, [], isDirectory, 0);
      }
      c := TheCreation(fs, parent, name, shortName, isDirectory, x.value);
      CreationStarts(vol.R(), fs, parent, name, shortName, isDirectory, x.value, vol.t);
      var e := NewDirent(shortName, isDirectory, if isDirectory then x.value else 0, if isDirectory then DIRENT else 0);
      ok := AppendNew(parent, longName[..] + [e, ZERO_DIRENT], Checksum(shortName), fs, c);
    }

    /** Entries `i` to `i + n` of a directory, as they are. */
    method ReadEntries(dir: nat, i: nat, n: nat) returns (es: seq<DirentBytes>)
      requires Valid() && IsDir(S(), dir) && 0 < n && i + n <= |DirEntries(vol.t, dir)|
      modifies vol.dev`cacheSector, vol.dev`cacheValid, vol.dev.cacheData
      ensures vol.Mounted()
      ensures es == DirEntries(vol.t, dir)[i..i + n]
    {
      hide Shows, Tables.Ok, Fs.Ok, EntriesOf, Slots, ListStep, Content;
      OkParts(vol.R(), S());
      EntriesReadable(vol.R(), S(), dir, i, n);
      var bytes: seq<byte>;
      if dir == PARENT_IS_ROOT_DIR {
        var r := vol.ReadRootDir(DIRENT * i, DIRENT * n);
        bytes := r.value;
      } else {
        bytes := vol.ReadChain(dir, DIRENT * i, DIRENT * n);
      }
      es := Split(bytes, n);
      SplitIsEntries(vol.t, dir, i, n);
    }

    /**
      `read_dirents` of a directory: the entries from `index` on, at most `count` of them,
      each with its name and its place.
     */
    method ReadDirents(parent: Option<Inode>, index: nat, count: nat) returns (names: seq<Listed>)
      requires Valid() && (parent.Some? ==>
                 parent.value in nodes && HasDirent(vol.t, parent.value) && IsDirectory(S().Entry(parent.value)))
      requires IsDir(S(), DirOf(S(), parent)) && ListingOf(vol.t, DirOf(S(), parent)).Names?
      modifies vol.dev`cacheSector, vol.dev`cacheValid, vol.dev.cacheData
      ensures Valid()
      ensures names == Window(ListingOf(vol.t, DirOf(S(), parent)).entries, index, count)
    {
      hide Shows, Tables.Ok, Fs.Ok, ListStep, DirEntries, List, Reading, Window;
      OkParts(vol.R(), S());
      var dir := PARENT_IS_ROOT_DIR;
      if parent.Some? {
        var own := ReadParentDirent(parent.value);
        dir := ClusterOf(own);
      }
      ghost var es := DirEntries(vol.t, dir);
      var i, read, pending := 0, 0, [];
      names := [];
      ReadingStarts(es, index, count);
      while true
        invariant Valid() && Reading(es, i, pending, read, names, index, count)
        decreases |es| - i
      {
        ReadingStep(es, i, pending, read, names, index, count, ListStep(es, i, pending));
        var step := ReadStepAt(dir, i, pending);
        if step.End? {
          return;
        } else if step.LongName? {
          pending, i := step.name, step.next;
        } else {
          read := read + 1;
          if read > index {
            if |names| >= count {
              return;
            }
            names := names + [Listed(step.name, i)];
          }
          pending, i := [], i + 1;
        }
      }
    }

    /** What was created is what is listed, in the root directory or any other, behind what was there. */
    method CreateThenList(parent: Option<Inode>, isDirectory: bool, name: seq<byte>, index: nat, count: nat)
      returns (ok: bool, names: seq<Listed>)
      requires Valid() && IsName(name) && ParentReady(S(), parent, name)
      modifies this, vol`t, vol.dev, vol.dev.cacheData
      ensures vol.Mounted()
      ensures ok ==> Valid() && old(ParentIsDirectory(S(), parent))
      ensures ok ==> names == Window(ListingWith(old(S()), parent, name), index, count)
    {
      hide Fs.Ok, Tables.Ok, Shows, InodeCreated, DirReady, SizeMatches, LfnCount, IsName, Window, RoomToCreate;
      ghost var fs := S();
      ghost var c;
      ok, c := CreateInode(parent, isDirectory, name);
      names := [];
      if ok {
        ParentLists(vol.R(), fs, S(), c, parent, name);
        CreatedOk(vol.R(), fs, S(), c);
        ReadyLists(S(), DirOf(S(), parent));
        names := ReadDirents(parent, index, count);
      }
    }

    /** What the reader makes of entry `i`, with the rest of a long name's entries read along. */
    method ReadStepAt(dir: nat, i: nat, pending: seq<byte>) returns (step: Step)
      requires Valid() && IsDir(S(), dir)
      requires !ListStep(DirEntries(vol.t, dir), i, pending).Halt?
      modifies vol.dev`cacheSector, vol.dev`cacheValid, vol.dev.cacheData
      ensures Valid()
      ensures step == ListStep(DirEntries(vol.t, dir), i, pending)
    {
      hide Shows, Tables.Ok, Fs.Ok, DirEntries, GroupName, ShortName;
      var e := ReadEntries(dir, i, 1);
      if e[0][0] == 0 {
        return End;
      }
      if Attributes(e[0]) == ATTRIBUTES_LFN {
        var n := (e[0][0] as int) % 64;
        var group := ReadEntries(dir, i, n);
        var name := DecodeGroup(group);
        return LongName(name.value, i + n);
      }
      var name := pending;
      if pending == [] {
        name := DecodeShortName(e[0]);
      }
      return Entry(name);
    }

    /**
      `read_file` on a regular file, the offset being at or below the file's size: the
      request is cut off at the end of the file.
     */
    method ReadFile(ino: Inode, off: nat, numBytes: nat) returns (output: seq<byte>)
      requires Valid() && S().IsFile(ino) && SizeInside(S(), ino)
      requires off <= |FileBytes(S(), ino)|
      modifies vol.dev`cacheSector, vol.dev`cacheValid, vol.dev.cacheData
      ensures Valid()
      ensures var size := |FileBytes(S(), ino)|;
              output == FileBytes(S(), ino)[off..if off + numBytes > size then size else off + numBytes]
    {
      hide Shows, Tables.Ok, Fs.Ok;
      OkParts(vol.R(), S());
      assert S().NodeOk(ino);
      var e := ReadParentDirent(ino);
      var n := numBytes;
      if off + n > SizeOf(e) {
        n := SizeOf(e) - off;
      }
      output := [];
      if n != 0 {
        FileReadable(vol.R(), vol.t, ClusterOf(e), SizeOf(e), off, n);
        output := vol.ReadChain(ClusterOf(e), off, n);
      }
    }

    /** What was written is what is read back. */
    method WriteThenRead(ino: Inode, off: nat, input: seq<byte>) returns (ok: bool, output: seq<byte>)
      requires Valid() && ino in nodes && SizeInside(S(), ino) && input != []
      modifies vol`t, vol.dev, vol.dev.cacheData
      ensures vol.Mounted()
      ensures ok ==> output == input
    {
      hide Fs.Ok, Tables.Ok, Shows, FileWritten, SizeInside, FileBytes;
      ghost var fs := S();
      ok := WriteFile(ino, off, input);
      output := [];
      if ok {
        WrittenReadsBack(vol.R(), fs, S(), ino, off, input);
        output := ReadFile(ino, off, |input|);
      }
    }
  }

  lemma CreatedOk(r: Regions, before: Fs, after: Fs, c: Creation)
    requires c.Ok() && DirReady(before, c.dir) && InodeCreated(r, before, after, c)
    ensures after.Ok(r)
  {
  }

  lemma ReadyLists(fs: Fs, dir: nat)
    requires DirReady(fs, dir)
    ensures IsDir(fs, dir) && ListingOf(fs.t, dir).Names?
  {
  }

  lemma FileReadable(r: Regions, t: Tables, k: nat, size: nat, off: nat, n: nat)
    requires t.Ok(r) && 0 < r.clusterSize && k in t.chains && Inside(t.chains[k], |t.view.data|)
    requires size <= |t.Bytes(k)| && off + n <= size
    ensures Readable(r, t, k, off, n)
    ensures t.Bytes(k)[..size][off..off + n] == t.Bytes(k)[off..off + n]
  {
    hide Tables.Ok;
    SizedOk(r, t);
    SliceOfSlice(t.Bytes(k), 0, size, off, off + n);
    ContentLength(t.view.data, r.clusterSize, t.chains[k]);
  }

  lemma WrittenReadsBack(r: Regions, before: Fs, after: Fs, ino: Inode, off: nat, buf: seq<byte>)
    requires before.Ok(r) && before.IsFile(ino) && off + |buf| <= UINT32_MAX && SizeInside(before, ino)
    requires FileWritten(r, before, after, ino, off, buf) && buf != []
    ensures after.Ok(r) && after.IsFile(ino) && SizeInside(after, ino)
    ensures off + |buf| <= |FileBytes(after, ino)| && FileBytes(after, ino)[off..off + |buf|] == buf
  {
    hide Tables.Ok;
  }
}
