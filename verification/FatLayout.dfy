/**
  Where a FAT16 volume keeps its allocation table, root directory and clusters on the
  partition, and what the bytes there say (stuos/src/fs_fat.c).
 */
module FatLayout {
  import opened Bytes
  import opened FatArithmetic

  /** The mounted volume's geometry, as read from its header. */
  datatype Geometry = Geometry(
    fatsStartSector: nat, numberOfFats: nat, sectorsPerFat: nat,
    bytesPerSector: nat, sectorsPerCluster: nat, rootSectors: nat)
  {
    function RootSector(): nat {
      fatsStartSector + Times(numberOfFats, sectorsPerFat)
    }

    /** The byte offsets the geometry amounts to. */
    function Regions(): Regions {
      Region(Times(sectorsPerFat, bytesPerSector) / 2,
             Times(fatsStartSector, bytesPerSector),
             Times(RootSector(), bytesPerSector),
             Times(RootSector() + rootSectors, bytesPerSector),
             Times(sectorsPerCluster, bytesPerSector))
    }

    /** The header describes a volume of at most `size` bytes and no C computation on it wraps. */
    ghost predicate Fits(size: nat) {
      && 0 < bytesPerSector && 0 < sectorsPerCluster && 0 < numberOfFats
      && 2 < Regions().clusters < 0xFFF7
      && RootSector() + rootSectors < 0x10000
      && Regions().dataStart < 0x8000_0000
      && Regions().ClusterStart(Regions().clusters) <= size
    }
  }

  /**
    The regions of the partition: the number of clusters (and table entries), where the
    first table, the root directory and the data start, and the size of a cluster.
   */
  datatype Regions = Region(clusters: nat, fatStart: nat, rootStart: nat, dataStart: nat, clusterSize: nat) {

    /** Where cluster `n` starts; the first two table entries stand for no cluster. */
    function ClusterStart(n: nat): nat
      requires 2 <= n
    {
      if n == 2 then dataStart else ClusterStart(n - 1) + clusterSize
    }

    ghost predicate Fit(size: nat) {
      && 0 < clusterSize && 2 < clusters < 0xFFF7
      && fatStart + 2 * clusters <= rootStart <= dataStart
      && ClusterStart(clusters) <= size
    }

    /** The source's way of computing where a cluster starts. */
    lemma {:induction false} ClusterStartIsLinear(n: nat)
      requires 2 <= n
      ensures ClusterStart(n) == dataStart + clusterSize * (n - 2)
    {
      if n == 2 {
      } else {
        ClusterStartIsLinear(n - 1);
        calc {
          ClusterStart(n);
          dataStart + clusterSize * (n - 3) + clusterSize;
          dataStart + clusterSize * (n - 2);
        }
      }
    }

    lemma {:induction false} ClustersApart(m: nat, n: nat)
      requires 2 <= m < n
      ensures ClusterStart(m) + clusterSize <= ClusterStart(n)
    {
      if m + 1 == n {
      } else {
        ClustersApart(m, n - 1);
      }
    }

    /** Every cluster lies between the start of the data and the end of the volume. */
    lemma ClusterInside(size: nat, n: nat)
      requires Fit(size) && 2 <= n < clusters
      ensures dataStart <= ClusterStart(n) && ClusterStart(n) + clusterSize <= size
    {
      ClustersApart(n, clusters);
      if 2 < n {
        ClustersApart(2, n);
      }
    }
  }

  /** Tables, root directory and clusters follow one another without overlap. */
  lemma GeometryFits(g: Geometry, size: nat)
    requires g.Fits(size)
    ensures g.Regions().Fit(size)
  {
    TimesAdd(g.fatsStartSector, Times(g.numberOfFats, g.sectorsPerFat), g.bytesPerSector);
    TimesAdd(g.sectorsPerFat, Times(g.numberOfFats - 1, g.sectorsPerFat), g.bytesPerSector);
    TimesAdd(g.RootSector(), g.rootSectors, g.bytesPerSector);
  }

  /**
    The meaning of the volume's bytes: one entry per cluster, the root directory's bytes,
    and the bytes of each cluster (numbers 0 and 1 name no cluster).
   */
  datatype View = View(fat: seq<nat>, root: seq<byte>, data: seq<seq<byte>>)

  ghost predicate Shows(r: Regions, base: nat, disk: seq<byte>, v: View)
    requires base <= |disk| && r.Fit(|disk| - base)
  {
    && |v.fat| == |v.data| == r.clusters
    && ShowsFat(r, base, disk, v.fat)
    && ShowsRoot(r, base, disk, v.root)
    && forall n :: 2 <= n < r.clusters ==> ShowsCluster(r, base, disk, n, v.data[n])
  }

  ghost predicate ShowsFat(r: Regions, base: nat, disk: seq<byte>, fat: seq<nat>)
    requires base <= |disk| && r.Fit(|disk| - base)
    requires |fat| == r.clusters
  {
    r.ClusterInside(|disk| - base, 2);
    forall n :: 0 <= n < |fat| ==> fat[n] == Le16(disk, base + r.fatStart + 2 * n)
  }

  ghost predicate ShowsRoot(r: Regions, base: nat, disk: seq<byte>, root: seq<byte>)
    requires base <= |disk| && r.Fit(|disk| - base)
  {
    r.ClusterInside(|disk| - base, 2);
    root == disk[base + r.rootStart..base + r.dataStart]
  }

  ghost predicate ShowsCluster(r: Regions, base: nat, disk: seq<byte>, n: nat, cluster: seq<byte>)
    requires base <= |disk| && r.Fit(|disk| - base)
    requires 2 <= n < r.clusters
  {
    r.ClusterInside(|disk| - base, n);
    cluster == disk[base + r.ClusterStart(n)..base + r.ClusterStart(n) + r.clusterSize]
  }

  /** The view of a disk. */
  ghost function ViewOf(r: Regions, base: nat, disk: seq<byte>): (v: View)
    requires base <= |disk| && r.Fit(|disk| - base)
    ensures Shows(r, base, disk, v)
  {
    r.ClusterInside(|disk| - base, 2);
    View(FatOf(r, base, disk), disk[base + r.rootStart..base + r.dataStart], ClustersOf(r, base, disk))
  }

  ghost function FatOf(r: Regions, base: nat, disk: seq<byte>): (fat: seq<nat>)
    requires base <= |disk| && r.Fit(|disk| - base)
    ensures |fat| == r.clusters && ShowsFat(r, base, disk, fat)
  {
    r.ClusterInside(|disk| - base, 2);
    seq(r.clusters, n requires 0 <= n < r.clusters => Le16(disk, base + r.fatStart + 2 * n))
  }

  ghost function ClustersOf(r: Regions, base: nat, disk: seq<byte>): (data: seq<seq<byte>>)
    requires base <= |disk| && r.Fit(|disk| - base)
    ensures |data| == r.clusters
    ensures forall n :: 2 <= n < r.clusters ==> ShowsCluster(r, base, disk, n, data[n])
  {
    seq(r.clusters, n requires 0 <= n < r.clusters => if n < 2 then [] else BytesOf(r, base, disk, n))
  }

  ghost function BytesOf(r: Regions, base: nat, disk: seq<byte>, n: nat): (cluster: seq<byte>)
    requires base <= |disk| && r.Fit(|disk| - base) && 2 <= n < r.clusters
    ensures ShowsCluster(r, base, disk, n, cluster)
  {
    r.ClusterInside(|disk| - base, n);
    disk[base + r.ClusterStart(n)..base + r.ClusterStart(n) + r.clusterSize]
  }

  lemma EntryAfterWrite(disk: seq<byte>, at: nat, n: nat, m: nat, value: nat)
    requires value < 0x10000 && at + 2 * n + 2 <= |disk| && at + 2 * m + 2 <= |disk|
    ensures Le16(Splice(disk, at + 2 * n, ToLe16(value)), at + 2 * m)
            == if m == n then value else Le16(disk, at + 2 * m)
  {
    var b := ToLe16(value);
    assert Le16(b, 0) == value;
  }

  /** Overwriting one table entry changes that entry of the view and nothing else. */
  lemma FatWriteShows(r: Regions, base: nat, disk: seq<byte>, v: View, n: nat, value: nat)
    requires base <= |disk| && r.Fit(|disk| - base) && Shows(r, base, disk, v)
    requires n < r.clusters && value < 0x10000
    ensures base + r.fatStart + 2 * n + 2 <= |disk|
    ensures Shows(r, base, Splice(disk, base + r.fatStart + 2 * n, ToLe16(value)), v.(fat := v.fat[n := value]))
  {
    hide Regions.ClusterStart, Le16, ToLe16;
    r.ClusterInside(|disk| - base, 2);
    var after := Splice(disk, base + r.fatStart + 2 * n, ToLe16(value));
    forall m | 0 <= m < |v.fat|
      ensures v.fat[n := value][m] == Le16(after, base + r.fatStart + 2 * m)
    {
      EntryAfterWrite(disk, base + r.fatStart, n, m, value);
    }
    forall m | 2 <= m < r.clusters
      ensures ShowsCluster(r, base, after, m, v.data[m])
    {
      r.ClusterInside(|disk| - base, m);
      assert ShowsCluster(r, base, disk, m, v.data[m]);
    }
  }

  /** Overwriting bytes inside one cluster changes that cluster of the view and nothing else. */
  lemma ClusterWriteShows(r: Regions, base: nat, disk: seq<byte>, v: View, n: nat, off: nat, b: seq<byte>)
    requires base <= |disk| && r.Fit(|disk| - base) && Shows(r, base, disk, v)
    requires 2 <= n < r.clusters && off + |b| <= r.clusterSize
    ensures base + r.ClusterStart(n) + r.clusterSize <= |disk| && |v.data[n]| == r.clusterSize
    ensures Shows(r, base, Splice(disk, base + r.ClusterStart(n) + off, b),
                  v.(data := v.data[n := Splice(v.data[n], off, b)]))
  {
    hide Splice, Regions.ClusterStart;
    r.ClusterInside(|disk| - base, n);
    assert ShowsCluster(r, base, disk, n, v.data[n]);
    var after := Splice(disk, base + r.ClusterStart(n) + off, b);
    var data := v.data[n := Splice(v.data[n], off, b)];
    assert ShowsFat(r, base, after, v.fat);
    assert ShowsRoot(r, base, after, v.root) by {
      SpliceElsewhere(disk, base + r.ClusterStart(n) + off, b, base + r.rootStart, base + r.dataStart);
    }
    forall m | 2 <= m < r.clusters
      ensures ShowsCluster(r, base, after, m, data[m])
    {
      ClusterAfterWrite(r, base, disk, m, v.data[m], n, off, b);
    }
  }

  lemma ClusterAfterWrite(r: Regions, base: nat, disk: seq<byte>, m: nat, cluster: seq<byte>,
                          n: nat, off: nat, b: seq<byte>)
    requires base <= |disk| && r.Fit(|disk| - base)
    requires 2 <= m < r.clusters && ShowsCluster(r, base, disk, m, cluster)
    requires 2 <= n < r.clusters && off + |b| <= r.clusterSize
    ensures base + r.ClusterStart(n) + r.clusterSize <= |disk| && |cluster| == r.clusterSize
    ensures ShowsCluster(r, base, Splice(disk, base + r.ClusterStart(n) + off, b), m,
                         if m == n then Splice(cluster, off, b) else cluster)
  {
    hide Splice, Regions.ClusterStart, Regions.Fit;
    r.ClusterInside(|disk| - base, n);
    r.ClusterInside(|disk| - base, m);
    if m < n {
      r.ClustersApart(m, n);
    } else if n < m {
      r.ClustersApart(n, m);
    }
    SliceAfterWrite(disk, base + r.ClusterStart(m), base + r.ClusterStart(n), r.clusterSize, off, b);
  }

  /** A write inside one of two equal or disjoint ranges of `size` bytes, seen through the other. */
  lemma SliceAfterWrite(disk: seq<byte>, at: nat, written: nat, size: nat, off: nat, b: seq<byte>)
    requires at + size <= |disk| && written + size <= |disk| && off + |b| <= size
    requires at == written || at + size <= written || written + size <= at
    ensures Splice(disk, written + off, b)[at..at + size]
            == if at == written then Splice(disk[at..at + size], off, b) else disk[at..at + size]
  {
    hide Splice;
    if at == written {
      SpliceWithin(disk, at, at + size, off, b);
    } else {
      SpliceElsewhere(disk, written + off, b, at, at + size);
    }
  }

  /** Overwriting bytes inside the root directory changes the root of the view and nothing else. */
  lemma RootWriteShows(r: Regions, base: nat, disk: seq<byte>, v: View, off: nat, b: seq<byte>)
    requires base <= |disk| && r.Fit(|disk| - base) && Shows(r, base, disk, v)
    requires off + |b| <= r.dataStart - r.rootStart
    ensures base + r.rootStart + off + |b| <= |disk| && |v.root| == r.dataStart - r.rootStart
    ensures Shows(r, base, Splice(disk, base + r.rootStart + off, b), v.(root := Splice(v.root, off, b)))
  {
    r.ClusterInside(|disk| - base, 2);
    var after := Splice(disk, base + r.rootStart + off, b);
    RootWriteElsewhere(r, base, disk, v, off, b);
    SpliceWithin(disk, base + r.rootStart, base + r.dataStart, off, b);
  }

  /** Table and clusters do not meet the root directory. */
  lemma RootWriteElsewhere(r: Regions, base: nat, disk: seq<byte>, v: View, off: nat, b: seq<byte>)
    requires base <= |disk| && r.Fit(|disk| - base) && Shows(r, base, disk, v)
    requires off + |b| <= r.dataStart - r.rootStart && base + r.rootStart + off + |b| <= |disk|
    ensures var after := Splice(disk, base + r.rootStart + off, b);
            && ShowsFat(r, base, after, v.fat)
            && forall m :: 2 <= m < r.clusters ==> ShowsCluster(r, base, after, m, v.data[m])
  {
    r.ClusterInside(|disk| - base, 2);
    var after := Splice(disk, base + r.rootStart + off, b);
    forall m | 2 <= m < r.clusters
      ensures ShowsCluster(r, base, after, m, v.data[m])
    {
      r.ClusterInside(|disk| - base, m);
      assert ShowsCluster(r, base, disk, m, v.data[m]);
    }
  }
}
