/** Directory entries, and what writing entries and files leaves unchanged (stuos/src/fs_fat.c). */
module FatFiles {
  import opened Options
  import opened Bytes
  import opened FatArithmetic
  import opened FatLayout
  import opened FatChains
  import opened FatVolumes

  /** The number standing for the root directory where a directory's first cluster is expected. */
  const PARENT_IS_ROOT_DIR: nat := 0
  const UINT32_MAX: nat := 0xFFFF_FFFF

  type DirentBytes = e: seq<byte> | |e| == DIRENT witness seq(DIRENT, _ => 0)

  function Attributes(e: DirentBytes): byte { e[11] }
  function ClusterOf(e: DirentBytes): nat { Le16(e, 26) }
  function SizeOf(e: DirentBytes): nat { Le32(e, 28) }
  predicate IsDirectory(e: DirentBytes) { Attributes(e) / 16 % 2 == 1 }

  /** Read-only, hidden, system and volume entries halt the source (`read_fat_mode`). */
  predicate IsPlain(e: DirentBytes) { Attributes(e) % 16 == 0 }

  function WithClusterAndSize(e: DirentBytes, cluster: nat, size: nat): (r: DirentBytes)
    requires cluster < 0x10000 && size <= UINT32_MAX
    ensures ClusterOf(r) == cluster && SizeOf(r) == size
    ensures r[..26] == e[..26] && Attributes(r) == Attributes(e)
  {
    var r := e[..26] + ToLe16(cluster) + ToLe32(size);
    assert Le16(r, 26) == Le16(ToLe16(cluster), 0);
    assert Le32(r, 28) == Le32(ToLe32(size), 0);
    assert r[..26] == e[..26];
    r
  }

  /** A file or directory is known by the directory holding its entry and the entry's place there. */
  datatype Inode = Inode(parent: nat, index: nat)

  // --- Entries of a directory ---

  /** The bytes of the root directory, or of the directory starting at a cluster. */
  ghost function DirBytes(t: Tables, parent: nat): seq<byte>
    requires parent != PARENT_IS_ROOT_DIR ==> parent in t.chains && Inside(t.chains[parent], |t.view.data|)
  {
    if parent == PARENT_IS_ROOT_DIR then t.view.root else t.Bytes(parent)
  }

  /** The entry lies inside its directory (and not at the very end of the root, which halts). */
  ghost predicate HasDirent(t: Tables, ino: Inode) {
    if ino.parent == PARENT_IS_ROOT_DIR then DIRENT * ino.index + DIRENT < |t.view.root|
    else
      && ino.parent in t.chains && Inside(t.chains[ino.parent], |t.view.data|)
      && DIRENT * ino.index + DIRENT <= |t.Bytes(ino.parent)|
  }

  ghost function Dirent(t: Tables, ino: Inode): DirentBytes
    requires HasDirent(t, ino)
  {
    DirBytes(t, ino.parent)[DIRENT * ino.index..DIRENT * ino.index + DIRENT]
  }

  /** `after` is `before` with the entry `ino` replaced by `e`. */
  ghost predicate DirentWritten(r: Regions, before: Tables, after: Tables, ino: Inode, e: DirentBytes)
    requires before.Ok(r) && 0 < r.clusterSize && HasDirent(before, ino)
  {
    if ino.parent == PARENT_IS_ROOT_DIR then
      after == before.(view := before.view.(root := Splice(before.view.root, DIRENT * ino.index, e)))
    else
      ChainWritten(r, before, after, ino.parent, DIRENT * ino.index, e)
  }

  // --- What a write leaves unchanged ---

  /** Writing one chain leaves every other chain and its bytes alone. */
  lemma OtherChainUntouched(r: Regions, before: Tables, after: Tables, first: nat, off: nat, buf: seq<byte>, k: nat)
    requires before.Ok(r) && first in before.chains && ChainEffect(r, before, after, first, off, buf)
    requires k in before.chains && k != first
    ensures k in after.chains && after.chains[k] == before.chains[k]
    ensures |before.view.data| == |after.view.data| == r.clusters
    ensures Inside(before.chains[k], r.clusters) && after.Bytes(k) == before.Bytes(k)
  {
    hide Tables.Ok, ChainEffect;
    ChainFacts(r, before, k);
    EffectOnChains(r, before, after, first, off, buf, k);
    ChainsApart(r, after, k, first);
    SeparateNotIn(after.chains[k], after.chains[first]);
    ContentFrame(before.view.data, after.view.data, before.chains[k]);
  }

  lemma ChainFacts(r: Regions, t: Tables, k: nat)
    requires t.Ok(r) && k in t.chains
    ensures |t.view.data| == r.clusters && 0 < |t.chains[k]| && t.chains[k][0] == k
    ensures Inside(t.chains[k], r.clusters)
  {
    assert IsChain(t.view.fat, t.chains[k]);
  }

  lemma ChainsApart(r: Regions, t: Tables, k: nat, l: nat)
    requires t.Ok(r) && k in t.chains && l in t.chains && k != l
    ensures Separate(t.chains[k], t.chains[l])
  {
  }

  lemma EffectOnChains(r: Regions, before: Tables, after: Tables, first: nat, off: nat, buf: seq<byte>, k: nat)
    requires before.Ok(r) && first in before.chains && ChainEffect(r, before, after, first, off, buf)
    requires k in before.chains && k != first
    ensures after.Ok(r) && first in after.chains && k in after.chains && after.chains[k] == before.chains[k]
    ensures SameOutside(before.view.data, after.view.data, after.chains[first])
  {
    hide Tables.Ok, BytesWritten;
    assert before.chains[first := after.chains[first]][k] == before.chains[k];
  }

  lemma SeparateNotIn(a: seq<nat>, b: seq<nat>)
    requires Separate(a, b)
    ensures forall i :: 0 <= i < |a| ==> a[i] !in b
  {
  }

  /** Within the written chain, the addressed bytes are the new ones and the other old bytes stay. */
  lemma WrittenChainBytes(r: Regions, before: Tables, after: Tables, first: nat, off: nat, buf: seq<byte>)
    requires before.Ok(r) && first in before.chains && ChainEffect(r, before, after, first, off, buf)
    ensures first in after.chains && |before.view.data| == |after.view.data| == r.clusters
    ensures Inside(before.chains[first], r.clusters) && Inside(after.chains[first], r.clusters)
    ensures |before.Bytes(first)| <= |after.Bytes(first)|
    ensures buf != [] ==> off + |buf| <= |after.Bytes(first)| && after.Bytes(first)[off..off + |buf|] == buf
    ensures forall j :: 0 <= j < |before.Bytes(first)| && !(off <= j < off + |buf|) ==>
              after.Bytes(first)[j] == before.Bytes(first)[j]
  {
    hide Tables.Ok, SameOutside, FreeClusters;
    ChainFacts(r, before, first);
    ChainFacts(r, after, first);
    var c := after.chains[first];
    ContentOfPrefix(before.view.data, c, before.chains[first]);
    if buf != [] {
      SpliceReadBack(Content(before.view.data, c), off, buf);
    }
  }

  /** After an entry is written it reads back, and every other entry reads as before. */
  lemma DirentFrame(r: Regions, before: Tables, after: Tables, ino: Inode, e: DirentBytes, other: Inode)
    requires before.Ok(r) && 0 < r.clusterSize && HasDirent(before, ino) && HasDirent(before, other)
    requires DirentWritten(r, before, after, ino, e)
    ensures after.Ok(r) && HasDirent(after, other)
    ensures Dirent(after, other) == if other == ino then e else Dirent(before, other)
  {
    hide ChainEffect, Tables.Ok;
    assert after.Ok(r) by {
      DirentWriteKeepsKeys(r, before, after, ino, e);
    }
    if ino.parent == PARENT_IS_ROOT_DIR {
      if other.parent == PARENT_IS_ROOT_DIR {
        EntryAfterWrite(before.view.root, after.view.root, ino.index, e, other.index);
      }
    } else {
      WrittenChainBytes(r, before, after, ino.parent, DIRENT * ino.index, e);
      if other.parent == ino.parent {
        EntryAfterWrite(before.Bytes(ino.parent), after.Bytes(ino.parent), ino.index, e, other.index);
      } else if other.parent != PARENT_IS_ROOT_DIR {
        OtherChainUntouched(r, before, after, ino.parent, DIRENT * ino.index, e, other.parent);
      } else {
        RootUntouched(r, before, after, ino.parent, DIRENT * ino.index, e);
      }
    }
  }

  lemma RootUntouched(r: Regions, before: Tables, after: Tables, first: nat, off: nat, buf: seq<byte>)
    requires before.Ok(r) && first in before.chains && ChainEffect(r, before, after, first, off, buf)
    ensures after.view.root == before.view.root
  {
  }

  lemma EntryAfterWrite(dir: seq<byte>, dir': seq<byte>, i: nat, e: DirentBytes, j: nat)
    requires |dir| <= |dir'| && DIRENT * i + DIRENT <= |dir| && DIRENT * j + DIRENT <= |dir|
    requires dir'[DIRENT * i..DIRENT * i + DIRENT] == e
    requires forall k :: 0 <= k < |dir| && !(DIRENT * i <= k < DIRENT * i + DIRENT) ==> dir'[k] == dir[k]
    ensures dir'[DIRENT * j..DIRENT * j + DIRENT] == if i == j then e else dir[DIRENT * j..DIRENT * j + DIRENT]
  {
  }

  /** Writing a file's chain changes no entry of the directories. */
  lemma ChainWriteKeepsDirent(r: Regions, before: Tables, after: Tables, first: nat, off: nat, buf: seq<byte>,
                              ino: Inode)
    requires before.Ok(r) && first in before.chains && ChainEffect(r, before, after, first, off, buf)
    requires HasDirent(before, ino) && ino.parent != first
    ensures HasDirent(after, ino) && Dirent(after, ino) == Dirent(before, ino)
  {
    if ino.parent != PARENT_IS_ROOT_DIR {
      OtherChainUntouched(r, before, after, first, off, buf, ino.parent);
    }
  }

  /** Writing an entry changes no chain but that of the entry's own directory. */
  lemma DirentWriteKeepsChain(r: Regions, before: Tables, after: Tables, ino: Inode, e: DirentBytes, k: nat)
    requires before.Ok(r) && 0 < r.clusterSize && HasDirent(before, ino)
    requires DirentWritten(r, before, after, ino, e)
    requires k in before.chains && k != ino.parent
    ensures k in after.chains && after.chains[k] == before.chains[k]
    ensures Inside(before.chains[k], r.clusters) && |after.view.data| == r.clusters && after.Bytes(k) == before.Bytes(k)
  {
    assert IsChain(before.view.fat, before.chains[k]);
    if ino.parent != PARENT_IS_ROOT_DIR {
      OtherChainUntouched(r, before, after, ino.parent, DIRENT * ino.index, e, k);
    }
  }

  /** Which chains there are, and the free clusters, after an entry is written. */
  lemma DirentWriteKeepsKeys(r: Regions, before: Tables, after: Tables, ino: Inode, e: DirentBytes)
    requires before.Ok(r) && 0 < r.clusterSize && HasDirent(before, ino)
    requires DirentWritten(r, before, after, ino, e)
    ensures after.Ok(r) && after.chains.Keys == before.chains.Keys
  {
    if ino.parent != PARENT_IS_ROOT_DIR {
      assert after.chains == before.chains[ino.parent := after.chains[ino.parent]];
    }
  }

  lemma StartFrame(r: Regions, t: Tables, x: nat, k: nat)
    requires t.Ok(r) && 2 <= x < r.clusters && IsFreeEntry(t.view.fat[x])
    ensures |t.view.fat| == r.clusters
    ensures t.Started(x).Ok(r) && x !in t.chains && t.Started(x).Free() == t.Free() - 1
    ensures k in t.chains ==> k != x && Inside(t.chains[k], r.clusters) && t.Started(x).Bytes(k) == t.Bytes(k)
  {
    StartKeepsPartition(t.view.fat, t.chains, x);
    TakeShrinksFree(t.view.fat, x, END_OF_CHAIN);
    if k in t.chains {
      ChainFacts(r, t, k);
    }
  }

  lemma StartKeepsDirent(r: Regions, t: Tables, x: nat, ino: Inode)
    requires t.Ok(r) && 2 <= x < r.clusters && IsFreeEntry(t.view.fat[x]) && HasDirent(t, ino)
    ensures HasDirent(t.Started(x), ino) && Dirent(t.Started(x), ino) == Dirent(t, ino)
  {
    StartFrame(r, t, x, ino.parent);
  }

  // --- The file system ---

  /** The tables, the files and directories in use, and the first clusters of directories. */
  datatype Fs = Fs(t: Tables, nodes: set<Inode>, dirs: set<nat>) {

    ghost function Entry(ino: Inode): DirentBytes
      requires HasDirent(t, ino)
    {
      Dirent(t, ino)
    }

    ghost function Cluster(ino: Inode): nat
      requires HasDirent(t, ino)
    {
      ClusterOf(Dirent(t, ino))
    }

    ghost predicate IsFile(ino: Inode) {
      ino in nodes && HasDirent(t, ino) && !IsDirectory(Entry(ino))
    }

    /** An entry in a directory in use; a directory has a directory's chain, a file its own or none yet. */
    ghost predicate NodeOk(ino: Inode) {
      && (ino.parent == PARENT_IS_ROOT_DIR || ino.parent in dirs)
      && HasDirent(t, ino)
      && IsPlain(Entry(ino))
      && if IsDirectory(Entry(ino)) then Cluster(ino) in dirs && Cluster(ino) != ino.parent
         else IsInvalidCluster(Cluster(ino)) || (Cluster(ino) in t.chains && Cluster(ino) !in dirs)
    }

    ghost predicate NodesOk() {
      forall ino :: ino in nodes ==> NodeOk(ino)
    }

    ghost predicate OneOwner()
      requires NodesOk()
    {
      forall a, b :: a in nodes && b in nodes && a != b && Cluster(a) == Cluster(b) ==> IsInvalidCluster(Cluster(a))
    }

    /** No chain is leaked: each belongs to a file or directory. */
    ghost predicate AllOwned()
      requires NodesOk()
    {
      forall k :: k in t.chains ==> Owned(k)
    }

    ghost predicate Owned(k: nat)
      requires NodesOk()
    {
      exists ino :: ino in nodes && Cluster(ino) == k
    }

    ghost predicate Ok(r: Regions) {
      && t.Ok(r) && 0 < r.clusterSize
      && dirs <= t.chains.Keys
      && NodesOk() && OneOwner() && AllOwned()
    }
  }

  /** The file has a first cluster `k`: its own, or the free cluster just started. */
  ghost predicate Claimed(r: Regions, fs: Fs, ino: Inode, k: nat, t1: Tables) {
    && fs.Ok(r) && fs.IsFile(ino) && k < 0x10000
    && (if IsInvalidCluster(fs.Cluster(ino)) then
          2 <= k < r.clusters && IsFreeEntry(fs.t.view.fat[k]) && t1 == fs.t.Started(k)
        else
          k == fs.Cluster(ino) && t1 == fs.t)
    && t1.Ok(r) && HasDirent(t1, ino)
  }

  /** The file's entry is rewritten for a write that ends at `end`. */
  ghost predicate Prepared(r: Regions, fs: Fs, ino: Inode, end: nat, k: nat, t1: Tables, t2: Tables) {
    && end <= UINT32_MAX
    && Claimed(r, fs, ino, k, t1)
    && DirentWritten(r, t1, t2, ino, NewEntry(fs.Entry(ino), k, end))
    && t2.Ok(r) && k in t2.chains
  }

  /** The steps of `write_file`: a first cluster if the file has none, its entry, its bytes. */
  ghost predicate WriteSteps(r: Regions, fs: Fs, ino: Inode, off: nat, buf: seq<byte>,
                             k: nat, t1: Tables, t2: Tables, t3: Tables)
  {
    && Prepared(r, fs, ino, off + |buf|, k, t1, t2)
    && ChainWritten(r, t2, t3, k, off, buf)
  }

  lemma ClaimedFacts(r: Regions, fs: Fs, ino: Inode, k: nat, t1: Tables)
    requires Claimed(r, fs, ino, k, t1)
    ensures k in t1.chains && t1.chains.Keys == fs.t.chains.Keys + {k}
    ensures k !in fs.dirs && 2 <= k < BAD_CLUSTER && ino.parent != k
    ensures t1.Free() == fs.t.Free() - if IsInvalidCluster(fs.Cluster(ino)) then 1 else 0
    ensures ino.parent != PARENT_IS_ROOT_DIR ==>
              ino.parent in fs.t.chains && ino.parent in t1.chains && t1.chains[ino.parent] == fs.t.chains[ino.parent]
  {
    hide Tables.Ok, Tables.Free;
    assert fs.NodeOk(ino);
    if IsInvalidCluster(fs.Cluster(ino)) {
      StartFrame(r, fs.t, k, k);
    }
    NoChainAtZero(r, t1, k);
  }

  function NewEntry(e: DirentBytes, k: nat, end: nat): DirentBytes
    requires k < 0x10000 && end <= UINT32_MAX
  {
    WithClusterAndSize(e, k, if end > SizeOf(e) then end else SizeOf(e))
  }

  /** Every entry after a file write: the file's own has the new cluster and size, the others stay. */
  lemma EntryAfterFileWrite(r: Regions, fs: Fs, ino: Inode, off: nat, buf: seq<byte>,
                            k: nat, t1: Tables, t2: Tables, t3: Tables, other: Inode)
    requires WriteSteps(r, fs, ino, off, buf, k, t1, t2, t3)
    requires other in fs.nodes
    ensures HasDirent(fs.t, other) && HasDirent(t3, other)
    ensures Dirent(t3, other) == if other == ino then NewEntry(fs.Entry(ino), k, off + |buf|) else fs.Entry(other)
  {
    hide Tables.Ok, ChainEffect;
    assert fs.NodeOk(other) && fs.NodeOk(ino);
    if IsInvalidCluster(fs.Cluster(ino)) {
      StartKeepsDirent(r, fs.t, k, other);
      StartFrame(r, fs.t, k, k);
    }
    DirentFrame(r, t1, t2, ino, NewEntry(fs.Entry(ino), k, off + |buf|), other);
    ChainWriteKeepsDirent(r, t2, t3, k, off, buf, other);
  }

  /** Every chain but the file's own and those of directories keeps its clusters and bytes. */
  lemma BytesAfterFileWrite(r: Regions, fs: Fs, ino: Inode, off: nat, buf: seq<byte>,
                            k: nat, t1: Tables, t2: Tables, t3: Tables, other: nat)
    requires WriteSteps(r, fs, ino, off, buf, k, t1, t2, t3)
    requires other in fs.t.chains && other != k && other !in fs.dirs
    ensures other in t3.chains && t3.chains[other] == fs.t.chains[other]
    ensures Inside(fs.t.chains[other], r.clusters) && |fs.t.view.data| == |t3.view.data| == r.clusters
    ensures t3.Bytes(other) == fs.t.Bytes(other)
  {
    hide Tables.Ok, ChainEffect;
    assert fs.NodeOk(ino);
    ChainFacts(r, fs.t, other);
    NoChainAtZero(r, fs.t, other);
    if IsInvalidCluster(fs.Cluster(ino)) {
      StartFrame(r, fs.t, k, other);
    }
    DirentWriteKeepsChain(r, t1, t2, ino, NewEntry(fs.Entry(ino), k, off + |buf|), other);
    OtherChainUntouched(r, t2, t3, k, off, buf, other);
  }

  lemma NoChainAtZero(r: Regions, t: Tables, k: nat)
    requires t.Ok(r) && k in t.chains
    ensures k != PARENT_IS_ROOT_DIR && 2 <= k < r.clusters < BAD_CLUSTER
  {
    assert IsChain(t.view.fat, t.chains[k]);
  }

  /** The file's own bytes after a file write: the written ones, and all others it had. */
  lemma OwnBytesAfterFileWrite(r: Regions, fs: Fs, ino: Inode, off: nat, buf: seq<byte>,
                               k: nat, t1: Tables, t2: Tables, t3: Tables)
    requires WriteSteps(r, fs, ino, off, buf, k, t1, t2, t3)
    ensures k in t3.chains && Inside(t3.chains[k], r.clusters) && |fs.t.view.data| == |t3.view.data| == r.clusters
    ensures buf != [] ==> off + |buf| <= |t3.Bytes(k)| && t3.Bytes(k)[off..off + |buf|] == buf
    ensures IsInvalidCluster(fs.Cluster(ino)) ==>
              |t3.chains[k]| == LengthAfterWrite(1, r.clusterSize, off, |buf|)
    ensures !IsInvalidCluster(fs.Cluster(ino)) ==>
              && k in fs.t.chains && Inside(fs.t.chains[k], r.clusters)
              && |t3.chains[k]| == LengthAfterWrite(|fs.t.chains[k]|, r.clusterSize, off, |buf|)
              && fs.t.chains[k] <= t3.chains[k]
              && |fs.t.Bytes(k)| <= |t3.Bytes(k)|
              && forall j :: 0 <= j < |fs.t.Bytes(k)| && !(off <= j < off + |buf|) ==>
                   t3.Bytes(k)[j] == fs.t.Bytes(k)[j]
  {
    hide Tables.Ok, ChainEffect, DirentWritten;
    WrittenChainBytes(r, t2, t3, k, off, buf);
    ChainOnlyGrows(r, t2, t3, k, off, buf);
    OwnChainBeforeData(r, fs, ino, off + |buf|, k, t1, t2);
  }

  /** When the data is about to be written, the file's chain is still the old one, or a fresh one of one cluster. */
  lemma OwnChainBeforeData(r: Regions, fs: Fs, ino: Inode, end: nat, k: nat, t1: Tables, t2: Tables)
    requires Prepared(r, fs, ino, end, k, t1, t2)
    ensures |fs.t.view.data| == |t2.view.data| == r.clusters && Inside(t2.chains[k], r.clusters)
    ensures IsInvalidCluster(fs.Cluster(ino)) ==> t2.chains[k] == [k]
    ensures !IsInvalidCluster(fs.Cluster(ino)) ==>
              && k == fs.Cluster(ino) && k in fs.t.chains
              && t2.chains[k] == fs.t.chains[k] && t2.Bytes(k) == fs.t.Bytes(k)
  {
    hide Tables.Ok, ChainEffect;
    ClaimedFacts(r, fs, ino, k, t1);
    ChainFacts(r, t1, k);
    SameData(r, fs.t, t1);
    DirentWriteKeepsChain(r, t1, t2, ino, NewEntry(fs.Entry(ino), k, end), k);
  }

  lemma PreparedIsOfFile(r: Regions, fs: Fs, ino: Inode, end: nat, k: nat, t1: Tables, t2: Tables)
    requires Prepared(r, fs, ino, end, k, t1, t2)
    ensures fs.Ok(r) && fs.IsFile(ino) && t2.Ok(r) && k in t2.chains && 0 < r.clusterSize
  {
  }

  lemma SameData(r: Regions, t: Tables, t1: Tables)
    requires t.Ok(r) && t1.Ok(r)
    ensures |t.view.data| == |t1.view.data| == r.clusters
  {
  }

  lemma ChainOnlyGrows(r: Regions, before: Tables, after: Tables, first: nat, off: nat, buf: seq<byte>)
    requires before.Ok(r) && first in before.chains && ChainEffect(r, before, after, first, off, buf)
    ensures first in after.chains && before.chains[first] <= after.chains[first]
  {
  }

  /** Which chains there are after a file write. */
  lemma KeysAfterFileWrite(r: Regions, fs: Fs, ino: Inode, off: nat, buf: seq<byte>,
                           k: nat, t1: Tables, t2: Tables, t3: Tables)
    requires WriteSteps(r, fs, ino, off, buf, k, t1, t2, t3)
    ensures t3.Ok(r) && t3.chains.Keys == fs.t.chains.Keys + {k}
    ensures k !in fs.dirs && 2 <= k < BAD_CLUSTER
  {
    hide Tables.Ok, ChainEffect, Claimed;
    ClaimedFacts(r, fs, ino, k, t1);
    ClaimedIsOfFile(r, fs, ino, k, t1);
    DirentWriteKeepsKeys(r, t1, t2, ino, NewEntry(fs.Entry(ino), k, off + |buf|));
    EffectKeepsKeys(r, t2, t3, k, off, buf);
  }

  lemma ClaimedIsOfFile(r: Regions, fs: Fs, ino: Inode, k: nat, t1: Tables)
    requires Claimed(r, fs, ino, k, t1)
    ensures fs.Ok(r) && fs.IsFile(ino) && k < 0x10000 && t1.Ok(r) && HasDirent(t1, ino)
  {
  }

  lemma EffectKeepsKeys(r: Regions, before: Tables, after: Tables, first: nat, off: nat, buf: seq<byte>)
    requires before.Ok(r) && first in before.chains && ChainEffect(r, before, after, first, off, buf)
    ensures after.Ok(r) && after.chains.Keys == before.chains.Keys
  {
    assert after.chains == before.chains[first := after.chains[first]];
  }

  /** A file write keeps the file system well-formed: no chain is shared, and none is leaked. */
  lemma FileWriteKeepsOk(r: Regions, fs: Fs, ino: Inode, off: nat, buf: seq<byte>,
                         k: nat, t1: Tables, t2: Tables, t3: Tables)
    requires WriteSteps(r, fs, ino, off, buf, k, t1, t2, t3)
    ensures fs.(t := t3).Ok(r)
  {
    var fs' := fs.(t := t3);
    hide Tables.Ok, DirentWritten, ChainWritten;
    KeysAfterFileWrite(r, fs, ino, off, buf, k, t1, t2, t3);
    forall other | other in fs.nodes
      ensures HasDirent(fs.t, other) && fs'.NodeOk(other)
      ensures fs'.Cluster(other) == if other == ino then k else fs.Cluster(other)
    {
      assert fs.NodeOk(other);
      EntryAfterFileWrite(r, fs, ino, off, buf, k, t1, t2, t3, other);
    }
    forall a | a in fs.nodes && a != ino && fs.Cluster(a) == k
      ensures false
    {
      assert fs.NodeOk(a) && fs.NodeOk(ino);
      if IsInvalidCluster(fs.Cluster(ino)) {
        StartFrame(r, fs.t, k, k);
      }
    }
    assert fs'.OneOwner();
    forall c | c in t3.chains
      ensures fs'.Owned(c)
    {
      if c == k {
        assert ino in fs'.nodes && fs'.Cluster(ino) == c;
      } else {
        assert fs.Owned(c);
        var a :| a in fs.nodes && fs.Cluster(a) == c;
        NoChainAtZero(r, fs.t, c);
        assert a != ino;
        assert a in fs'.nodes && fs'.Cluster(a) == c;
      }
    }
  }

  // --- Files as byte sequences ---

  /** The size recorded for the file does not run past its clusters. */
  ghost predicate SizeInside(fs: Fs, ino: Inode)
  {
    && HasDirent(fs.t, ino)
    && if IsInvalidCluster(fs.Cluster(ino)) then SizeOf(fs.Entry(ino)) == 0
       else
         && fs.Cluster(ino) in fs.t.chains && Inside(fs.t.chains[fs.Cluster(ino)], |fs.t.view.data|)
         && SizeOf(fs.Entry(ino)) <= |fs.t.Bytes(fs.Cluster(ino))|
  }

  ghost function FileBytes(fs: Fs, ino: Inode): seq<byte>
    requires SizeInside(fs, ino)
  {
    if IsInvalidCluster(fs.Cluster(ino)) then [] else fs.t.Bytes(fs.Cluster(ino))[..SizeOf(fs.Entry(ino))]
  }

  /**
    The file reads as the old one with `buf` put at `off`: same bytes below its old size
    outside the written range, and the size only ever grows to the end of the write.
   */
  ghost predicate FileUpdated(before: seq<byte>, after: seq<byte>, off: nat, buf: seq<byte>) {
    && |after| == (if off + |buf| > |before| then off + |buf| else |before|)
    && after[off..off + |buf|] == buf
    && forall j :: 0 <= j < |before| && !(off <= j < off + |buf|) ==> after[j] == before[j]
  }

  /** How far the file's clusters reach when the data is about to be written. */
  ghost function Extent(r: Regions, fs: Fs, ino: Inode): nat
    requires SizeInside(fs, ino)
  {
    if IsInvalidCluster(fs.Cluster(ino)) then r.clusterSize else |fs.t.Bytes(fs.Cluster(ino))|
  }

  /**
    A file write updates that file as asked, except that a write of no bytes beyond the
    file's clusters records a size the file has no clusters for.
   */
  lemma FileWriteUpdates(r: Regions, fs: Fs, ino: Inode, off: nat, buf: seq<byte>,
                         k: nat, t1: Tables, t2: Tables, t3: Tables)
    requires WriteSteps(r, fs, ino, off, buf, k, t1, t2, t3)
    requires SizeInside(fs, ino)
    ensures SizeInside(fs.(t := t3), ino) <==> buf != [] || off <= Extent(r, fs, ino)
    ensures SizeInside(fs.(t := t3), ino) ==> FileUpdated(FileBytes(fs, ino), FileBytes(fs.(t := t3), ino), off, buf)
  {
    hide Tables.Ok, DirentWritten, ChainWritten;
    EntryAfterFileWrite(r, fs, ino, off, buf, k, t1, t2, t3, ino);
    OwnBytesAfterFileWrite(r, fs, ino, off, buf, k, t1, t2, t3);
    KeysAfterFileWrite(r, fs, ino, off, buf, k, t1, t2, t3);
    if buf == [] {
      EmptyWriteKeepsLength(r, fs, ino, off, k, t1, t2, t3);
    }
    hide WriteSteps;
    if buf != [] || off <= Extent(r, fs, ino) {
      var bytes := if IsInvalidCluster(fs.Cluster(ino)) then [] else fs.t.Bytes(k);
      UpdatedPrefix(bytes, t3.Bytes(k), SizeOf(fs.Entry(ino)), off, buf);
    }
  }

  lemma EmptyWriteKeepsLength(r: Regions, fs: Fs, ino: Inode, off: nat, k: nat, t1: Tables, t2: Tables, t3: Tables)
    requires WriteSteps(r, fs, ino, off, [], k, t1, t2, t3) && SizeInside(fs, ino)
    ensures k in t3.chains && |t3.view.data| == r.clusters && Inside(t3.chains[k], r.clusters)
    ensures |t3.Bytes(k)| == Extent(r, fs, ino)
  {
    hide Tables.Ok, DirentWritten, ChainWritten;
    OwnBytesAfterFileWrite(r, fs, ino, off, [], k, t1, t2, t3);
    KeysAfterFileWrite(r, fs, ino, off, [], k, t1, t2, t3);
    SizedOk(r, t3);
    SizedOk(r, fs.t);
    hide WriteSteps;
    ContentLength(t3.view.data, r.clusterSize, t3.chains[k]);
    if !IsInvalidCluster(fs.Cluster(ino)) {
      ContentLength(fs.t.view.data, r.clusterSize, fs.t.chains[k]);
    } else {
      assert Times(1, r.clusterSize) == r.clusterSize;
    }
  }

  lemma SizedOk(r: Regions, t: Tables)
    requires t.Ok(r)
    ensures Sized(t.view.data, r.clusterSize)
  {
  }

  lemma UpdatedPrefix(bytes: seq<byte>, after: seq<byte>, size: nat, off: nat, buf: seq<byte>)
    requires size <= |bytes| <= |after| && (buf != [] || off <= |after|)
    requires buf != [] ==> off + |buf| <= |after| && after[off..off + |buf|] == buf
    requires forall j :: 0 <= j < |bytes| && !(off <= j < off + |buf|) ==> after[j] == bytes[j]
    ensures var size' := if off + |buf| > size then off + |buf| else size;
            size' <= |after| && FileUpdated(bytes[..size], after[..size'], off, buf)
  {
  }

  lemma FileWriteKeepsOthers(r: Regions, fs: Fs, ino: Inode, off: nat, buf: seq<byte>,
                             k: nat, t1: Tables, t2: Tables, t3: Tables, other: Inode)
    requires WriteSteps(r, fs, ino, off, buf, k, t1, t2, t3)
    requires fs.IsFile(other) && other != ino && SizeInside(fs, other)
    ensures fs.(t := t3).IsFile(other) && SizeInside(fs.(t := t3), other)
    ensures FileBytes(fs.(t := t3), other) == FileBytes(fs, other)
  {
    hide Tables.Ok, DirentWritten, ChainWritten;
    assert fs.NodeOk(other) && fs.NodeOk(ino);
    EntryAfterFileWrite(r, fs, ino, off, buf, k, t1, t2, t3, other);
    if !IsInvalidCluster(fs.Cluster(other)) {
      if IsInvalidCluster(fs.Cluster(ino)) {
        StartFrame(r, fs.t, k, k);
      }
      BytesAfterFileWrite(r, fs, ino, off, buf, k, t1, t2, t3, fs.Cluster(other));
    }
  }

  /**
    What a completed `write_file` amounts to: the file system stays well-formed, the file's
    entry gets its first cluster and size, its chain its length, its bytes the update, and
    every other entry and file stays as it was.
   */
  ghost predicate FileWritten(r: Regions, before: Fs, after: Fs, ino: Inode, off: nat, buf: seq<byte>)
    requires before.Ok(r) && before.IsFile(ino) && off + |buf| <= UINT32_MAX
  {
    && after.nodes == before.nodes && after.dirs == before.dirs
    && after.Ok(r)
    && HasDirent(after.t, ino) && !IsInvalidCluster(after.Cluster(ino))
    && after.Entry(ino) == NewEntry(before.Entry(ino), after.Cluster(ino), off + |buf|)
    && OwnChainGrown(r, before, after, ino, off, |buf|)
    && OthersKept(before, after, ino)
    && (SizeInside(before, ino) ==> ContentUpdated(r, before, after, ino, off, buf))
  }

  ghost predicate ContentUpdated(r: Regions, before: Fs, after: Fs, ino: Inode, off: nat, buf: seq<byte>)
    requires SizeInside(before, ino)
  {
    && (SizeInside(after, ino) <==> buf != [] || off <= Extent(r, before, ino))
    && (SizeInside(after, ino) ==> FileUpdated(FileBytes(before, ino), FileBytes(after, ino), off, buf))
  }

  ghost predicate OthersKept(before: Fs, after: Fs, ino: Inode) {
    forall other :: other in before.nodes && other != ino ==>
      SameEntry(before, after, other) && SameFile(before, after, other)
  }

  ghost predicate OwnChainGrown(r: Regions, before: Fs, after: Fs, ino: Inode, off: nat, n: nat)
    requires 0 < r.clusterSize && HasDirent(before.t, ino) && HasDirent(after.t, ino)
  {
    && after.Cluster(ino) in after.t.chains
    && if IsInvalidCluster(before.Cluster(ino)) then
         |after.t.chains[after.Cluster(ino)]| == LengthAfterWrite(1, r.clusterSize, off, n)
       else
         && before.Cluster(ino) == after.Cluster(ino) && before.Cluster(ino) in before.t.chains
         && var c, c' := before.t.chains[before.Cluster(ino)], after.t.chains[before.Cluster(ino)];
         && c <= c' && |c'| == LengthAfterWrite(|c|, r.clusterSize, off, n)
  }

  ghost predicate SameEntry(before: Fs, after: Fs, other: Inode) {
    HasDirent(before.t, other) && HasDirent(after.t, other) && after.Entry(other) == before.Entry(other)
  }

  ghost predicate SameFile(before: Fs, after: Fs, other: Inode) {
    before.IsFile(other) && SizeInside(before, other) ==>
      after.IsFile(other) && SizeInside(after, other) && FileBytes(after, other) == FileBytes(before, other)
  }

  lemma StepsWriteFile(r: Regions, fs: Fs, ino: Inode, off: nat, buf: seq<byte>,
                       k: nat, t1: Tables, t2: Tables, t3: Tables)
    requires WriteSteps(r, fs, ino, off, buf, k, t1, t2, t3)
    ensures FileWritten(r, fs, fs.(t := t3), ino, off, buf)
  {
    hide Tables.Ok, DirentWritten, ChainWritten, WriteSteps, Fs.Ok;
    hide SizeInside, SameFile, SameEntry, FileUpdated, OwnChainGrown, ContentUpdated;
    var after := fs.(t := t3);
    FileWriteKeepsOk(r, fs, ino, off, buf, k, t1, t2, t3);
    StepsAreOfFile(r, fs, ino, off, buf, k, t1, t2, t3);
    EntryAfterFileWrite(r, fs, ino, off, buf, k, t1, t2, t3, ino);
    StepsGrowChain(r, fs, ino, off, buf, k, t1, t2, t3);
    if SizeInside(fs, ino) {
      StepsUpdateContent(r, fs, ino, off, buf, k, t1, t2, t3);
    }
    forall other | other in fs.nodes && other != ino
      ensures SameEntry(fs, after, other) && SameFile(fs, after, other)
    {
      StepsKeepOther(r, fs, ino, off, buf, k, t1, t2, t3, other);
    }
  }

  lemma StepsAreOfFile(r: Regions, fs: Fs, ino: Inode, off: nat, buf: seq<byte>,
                       k: nat, t1: Tables, t2: Tables, t3: Tables)
    requires WriteSteps(r, fs, ino, off, buf, k, t1, t2, t3)
    ensures fs.Ok(r) && fs.IsFile(ino) && k < 0x10000 && off + |buf| <= UINT32_MAX
  {
  }

  lemma StepsUpdateContent(r: Regions, fs: Fs, ino: Inode, off: nat, buf: seq<byte>,
                           k: nat, t1: Tables, t2: Tables, t3: Tables)
    requires WriteSteps(r, fs, ino, off, buf, k, t1, t2, t3) && SizeInside(fs, ino)
    ensures ContentUpdated(r, fs, fs.(t := t3), ino, off, buf)
  {
    hide WriteSteps;
    FileWriteUpdates(r, fs, ino, off, buf, k, t1, t2, t3);
  }

  lemma StepsKeepOther(r: Regions, fs: Fs, ino: Inode, off: nat, buf: seq<byte>,
                       k: nat, t1: Tables, t2: Tables, t3: Tables, other: Inode)
    requires WriteSteps(r, fs, ino, off, buf, k, t1, t2, t3)
    requires other in fs.nodes && other != ino
    ensures SameEntry(fs, fs.(t := t3), other) && SameFile(fs, fs.(t := t3), other)
  {
    hide Tables.Ok, DirentWritten, ChainWritten, WriteSteps;
    EntryAfterFileWrite(r, fs, ino, off, buf, k, t1, t2, t3, other);
    if fs.IsFile(other) && SizeInside(fs, other) {
      FileWriteKeepsOthers(r, fs, ino, off, buf, k, t1, t2, t3, other);
    }
  }

  lemma StepsGrowChain(r: Regions, fs: Fs, ino: Inode, off: nat, buf: seq<byte>,
                       k: nat, t1: Tables, t2: Tables, t3: Tables)
    requires WriteSteps(r, fs, ino, off, buf, k, t1, t2, t3)
    ensures HasDirent(t3, ino) && ClusterOf(Dirent(t3, ino)) == k && !IsInvalidCluster(k)
    ensures OwnChainGrown(r, fs, fs.(t := t3), ino, off, |buf|)
  {
    hide Tables.Ok, DirentWritten, ChainWritten;
    EntryAfterFileWrite(r, fs, ino, off, buf, k, t1, t2, t3, ino);
    OwnBytesAfterFileWrite(r, fs, ino, off, buf, k, t1, t2, t3);
    KeysAfterFileWrite(r, fs, ino, off, buf, k, t1, t2, t3);
  }
}
