/** A mounted FAT16 volume: table, cluster, chain and root directory access (stuos/src/fs_fat.c). */
module FatVolumes {
  import opened Options
  import opened Bytes
  import opened BlockDevices
  import opened FatLayout
  import opened FatArithmetic
  import opened FatChains

  const DIRENT: nat := 32

  /** What the volume holds, and the chains its table is made of. */
  datatype Tables = Tables(view: View, chains: map<nat, seq<nat>>) {
    ghost predicate Ok(r: Regions) {
      && |view.fat| == |view.data| == r.clusters
      && |view.root| + r.rootStart == r.dataStart
      && Sized(view.data, r.clusterSize)
      && Partitioned(view.fat, chains)
    }

    ghost function Free(): nat {
      |FreeClusters(view.fat)|
    }

    /** A free cluster linked behind the chain starting at `first`. */
    ghost function Grown(first: nat, x: nat): Tables
      requires first in chains && IsChain(view.fat, chains[first]) && x < |view.fat|
    {
      Tables(view.(fat := Linked(view.fat, chains[first], x)), chains[first := chains[first] + [x]])
    }

    /** A free cluster made into a chain of its own. */
    ghost function Started(x: nat): Tables
      requires x < |view.fat|
    {
      Tables(view.(fat := view.fat[x := END_OF_CHAIN]), chains[x := [x]])
    }

    /** Bytes of one cluster overwritten. */
    ghost function Overwritten(n: nat, off: nat, b: seq<byte>): Tables
      requires n < |view.data| && off + |b| <= |view.data[n]|
    {
      this.(view := view.(data := view.data[n := Splice(view.data[n], off, b)]))
    }

    /** The bytes a chain holds. */
    ghost function Bytes(first: nat): seq<byte>
      requires first in chains && Inside(chains[first], |view.data|)
    {
      Content(view.data, chains[first])
    }
  }

  /**
    `after` is `before` with `buf` written at `off` of the chain starting at `first`: fresh
    clusters are appended to that chain, and no other table entry and no byte but the
    addressed ones change.
   */
  ghost predicate ChainWritten(r: Regions, before: Tables, after: Tables, first: nat, off: nat, buf: seq<byte>)
    requires before.Ok(r) && 0 < r.clusterSize && first in before.chains
  {
    && ChainEffect(r, before, after, first, off, buf)
    && |after.chains[first]| == LengthAfterWrite(|before.chains[first]|, r.clusterSize, off, |buf|)
  }

  /** `ChainWritten`, leaving open how far the chain has grown. */
  ghost predicate ChainEffect(r: Regions, before: Tables, after: Tables, first: nat, off: nat, buf: seq<byte>)
    requires before.Ok(r) && first in before.chains
  {
    && after.Ok(r)
    && first in after.chains
    && var c := after.chains[first];
    && before.chains[first] <= c
    && after.chains == before.chains[first := c]
    && after.view.root == before.view.root
    && after.Free() + |c| == before.Free() + |before.chains[first]|
    && SameOutside(before.view.fat, after.view.fat, c)
    && SameOutside(before.view.data, after.view.data, c)
    && BytesWritten(before.view.data, after.view.data, c, off, buf)
  }

  ghost predicate SameOutside<T>(s: seq<T>, s': seq<T>, c: seq<nat>) {
    |s| == |s'| && forall n :: 0 <= n < |s| && n !in c ==> s'[n] == s[n]
  }

  lemma EffectOfNothing(r: Regions, t: Tables, first: nat, off: nat)
    requires t.Ok(r) && first in t.chains
    ensures ChainEffect(r, t, t, first, off, [])
  {
    assert t.chains == t.chains[first := t.chains[first]];
    assert IsChain(t.view.fat, t.chains[first]);
  }

  /** Linking a free cluster behind the chain extends the effect. */
  lemma EffectThenLink(r: Regions, before: Tables, mid: Tables, first: nat, off: nat, buf: seq<byte>, x: nat)
    requires before.Ok(r) && first in before.chains
    requires ChainEffect(r, before, mid, first, off, buf)
    requires 2 <= x < r.clusters && IsFreeEntry(mid.view.fat[x])
    ensures ChainEffect(r, before, mid.Grown(first, x), first, off, buf)
  {
    var c, d := mid.chains[first], mid.chains[first] + [x];
    var after := mid.Grown(first, x);
    GrownOk(r, mid, first, x);
    LinkShrinksFree(mid.view.fat, c, x);
    FreeIsUnused(mid.view.fat, mid.chains, x, first);
    UpdateTwice(before.chains, first, c, d);
    BytesThenLink(before.view.data, mid.view.data, c, off, buf, x);
    LinkSameOutside(before.view.fat, mid.view.fat, c, x);
  }

  lemma UpdateTwice<K, V>(m: map<K, V>, k: K, a: V, b: V)
    ensures m[k := a][k := b] == m[k := b]
  {
  }

  lemma GrownOk(r: Regions, t: Tables, first: nat, x: nat)
    requires t.Ok(r) && first in t.chains
    requires 2 <= x < r.clusters && IsFreeEntry(t.view.fat[x])
    ensures t.Grown(first, x).Ok(r)
  {
    LinkKeepsPartition(t.view.fat, t.chains, first, x);
  }

  lemma LinkSameOutside(before: seq<nat>, mid: seq<nat>, c: seq<nat>, x: nat)
    requires IsChain(mid, c) && x < |mid| && SameOutside(before, mid, c)
    ensures SameOutside(before, Linked(mid, c, x), c + [x])
  {
    assert c[|c| - 1] in c;
    forall n | 0 <= n < |mid| && n !in c + [x]
      ensures n !in c
    {
    }
  }

  lemma BytesThenLink(data: seq<seq<byte>>, data': seq<seq<byte>>, c: seq<nat>, off: nat, buf: seq<byte>, x: nat)
    requires BytesWritten(data, data', c, off, buf)
    requires 2 <= x < |data| && data'[x] == data[x]
    ensures BytesWritten(data, data', c + [x], off, buf)
  {
    assert (c + [x])[..|c + [x]| - 1] == c;
    if buf != [] {
      SpliceLeft(Content(data, c), data[x], off, buf);
    }
  }

  /** Overwriting the next bytes of the chain extends the effect. */
  lemma EffectThenWrite(r: Regions, before: Tables, mid: Tables, first: nat, off: nat, done: seq<byte>,
                        i: nat, o: nat, b: seq<byte>)
    requires before.Ok(r) && first in before.chains
    requires ChainEffect(r, before, mid, first, off, done)
    requires i < |mid.chains[first]| && o + |b| <= r.clusterSize && 0 < |b|
    requires off + |done| == Times(i, r.clusterSize) + o
    ensures var n := mid.chains[first][i];
            && 2 <= n < r.clusters == |mid.view.data| && |mid.view.data[n]| == r.clusterSize
            && ChainEffect(r, before, mid.Overwritten(n, o, b), first, off, done + b)
  {
    var c := mid.chains[first];
    assert IsChain(mid.view.fat, c);
    var n := c[i];
    assert n in c;
    BytesThenWrite(before.view.data, mid.view.data, r.clusterSize, c, off, done, i, o, b);
    OverwriteSameOutside(before.view.data, mid.view.data, c, i, Splice(mid.view.data[n], o, b));
    OverwrittenOk(r, mid, n, o, b);
  }

  lemma OverwrittenOk(r: Regions, t: Tables, n: nat, off: nat, b: seq<byte>)
    requires t.Ok(r) && 2 <= n < r.clusters && off + |b| <= r.clusterSize
    ensures |t.view.data[n]| == r.clusterSize
    ensures t.Overwritten(n, off, b).Ok(r)
  {
  }

  lemma OverwriteSameOutside<T>(before: seq<T>, mid: seq<T>, c: seq<nat>, i: nat, x: T)
    requires i < |c| && c[i] < |mid| && SameOutside(before, mid, c)
    ensures SameOutside(before, mid[c[i] := x], c)
  {
    assert c[i] in c;
  }

  lemma BytesThenWrite(data: seq<seq<byte>>, data': seq<seq<byte>>, size: nat, c: seq<nat>, off: nat, done: seq<byte>,
                       i: nat, o: nat, b: seq<byte>)
    requires BytesWritten(data, data', c, off, done) && Sized(data', size) && Distinct(c)
    requires i < |c| && o + |b| <= size && 0 < |b|
    requires off + |done| == Times(i, size) + o
    ensures BytesWritten(data, data'[c[i] := Splice(data'[c[i]], o, b)], c, off, done + b)
  {
    hide Content, Times, Distinct, Sized;
    ContentAfterWrite(data', size, c, i, o, b);
    if done == [] {
      assert done + b == b;
    } else {
      SpliceJoin(Content(data, c), off, done, b);
    }
  }

  ghost predicate BytesWritten(data: seq<seq<byte>>, data': seq<seq<byte>>, c: seq<nat>, off: nat, buf: seq<byte>) {
    && |data'| == |data| && Inside(c, |data|)
    && (0 < |buf| ==> off + |buf| <= |Content(data, c)|)
    && Content(data', c) == if buf == [] then Content(data, c) else Splice(Content(data, c), off, buf)
  }

  lemma ClustersSized(r: Regions, base: nat, disk: seq<byte>, v: View)
    requires base <= |disk| && r.Fit(|disk| - base) && Shows(r, base, disk, v)
    ensures Sized(v.data, r.clusterSize) && |v.root| + r.rootStart == r.dataStart
  {
    r.ClusterInside(|disk| - base, 2);
    forall n | 2 <= n < |v.data|
      ensures |v.data[n]| == r.clusterSize
    {
      r.ClusterInside(|disk| - base, n);
      assert ShowsCluster(r, base, disk, n, v.data[n]);
    }
  }

  // --- The steps of the write loop, on tables ---

  /**
    Before cluster `i` of the chain, which is `cluster`, is visited, the first `done` bytes
    of the request are written and the chain has grown as far as the walk has come.
   */
  ghost predicate Walking(r: Regions, t0: Tables, t: Tables, first: nat, off: nat, input: seq<byte>,
                          done: nat, i: nat, cluster: nat)
  {
    && t0.Ok(r) && first in t0.chains && done <= |input|
    && ChainEffect(r, t0, t, first, off, input[..done])
    && i < |t.chains[first]| && t.chains[first][i] == cluster
    && |t.chains[first]| == if i < |t0.chains[first]| then |t0.chains[first]| else i + 1
  }

  lemma WalkStarts(r: Regions, t: Tables, first: nat, off: nat, input: seq<byte>)
    requires t.Ok(r) && first in t.chains
    ensures Walking(r, t, t, first, off, input, 0, 0, first)
  {
    EffectOfNothing(r, t, first, off);
    assert IsChain(t.view.fat, t.chains[first]);
  }

  /** Writing the request's part in cluster `i` of the chain is progress, and extends the effect. */
  lemma PartWritten(r: Regions, t0: Tables, t: Tables, first: nat, off: nat, input: seq<byte>,
                    i: nat, cluster: nat, done: nat, o: nat, m: nat)
    requires Walking(r, t0, t, first, off, input, done, i, cluster) && 0 < r.clusterSize
    requires done < |input| && Div(off, r.clusterSize) <= i
    requires Progress(off, r.clusterSize, |input|, i, done)
    requires o == OffsetInCluster(off, r.clusterSize, i) <= r.clusterSize
    requires m == if |input| - done > r.clusterSize - o then r.clusterSize - o else |input| - done
    ensures 0 < m && o + m <= r.clusterSize && done + m <= |input|
    ensures Progress(off, r.clusterSize, |input|, i + 1, done + m)
    ensures 2 <= cluster < r.clusters && cluster < |t.view.data| && |t.view.data[cluster]| == r.clusterSize
    ensures Walking(r, t0, t.Overwritten(cluster, o, input[done..done + m]), first, off, input, done + m, i, cluster)
  {
    hide ChainEffect, Tables.Ok;
    ProgressTransfers(off, r.clusterSize, |input|, i, done, m);
    EffectThenWrite(r, t0, t, first, off, input[..done], i, o, input[done..done + m]);
    assert input[..done] + input[done..done + m] == input[..done + m];
  }

  /** What is known about the step behind cluster `i`. */
  lemma WalkedTo(r: Regions, t0: Tables, t: Tables, first: nat, off: nat, input: seq<byte>,
                 i: nat, cluster: nat, done: nat)
    requires Walking(r, t0, t, first, off, input, done, i, cluster)
    ensures t.Ok(r) && first in t.chains && i < |t.chains[first]| && t.chains[first][i] == cluster
    ensures i + 1 < |t.chains[first]| ==>
              Walking(r, t0, t, first, off, input, done, i + 1, t.chains[first][i + 1])
    ensures i + 1 == |t.chains[first]| && t.Free() == 0 ==> |t0.chains[first]| + t0.Free() <= i + 1
  {
  }

  lemma WalkLinks(r: Regions, t0: Tables, t: Tables, first: nat, off: nat, input: seq<byte>,
                  i: nat, cluster: nat, done: nat, x: nat)
    requires Walking(r, t0, t, first, off, input, done, i, cluster)
    requires i + 1 == |t.chains[first]| && 2 <= x < r.clusters && IsFreeEntry(t.view.fat[x])
    ensures IsChain(t.view.fat, t.chains[first])
    ensures Walking(r, t0, t.Grown(first, x), first, off, input, done, i + 1, x)
  {
    assert IsChain(t.view.fat, t.chains[first]);
    hide ChainEffect, FreeClusters, Partitioned;
    EffectThenLink(r, t0, t, first, off, input[..done], x);
  }

  /** A walk that has written everything has had the effect asked for. */
  lemma WalkEnds(r: Regions, t0: Tables, t: Tables, first: nat, off: nat, input: seq<byte>, i: nat, cluster: nat)
    requires Walking(r, t0, t, first, off, input, |input|, i, cluster) && 0 < r.clusterSize
    requires Progress(off, r.clusterSize, |input|, i, |input|) && (input == [] ==> i == 0)
    ensures ChainWritten(r, t0, t, first, off, input)
    ensures |t.chains[first]| <= |t0.chains[first]| + t0.Free()
  {
    assert input[..|input|] == input;
  }

  // --- The steps of the read loop, on tables ---

  ghost predicate Readable(r: Regions, t: Tables, first: nat, off: nat, n: nat) {
    t.Ok(r) && 0 < r.clusterSize && first in t.chains && off + n <= Times(|t.chains[first]|, r.clusterSize)
  }

  lemma ReadableBytes(r: Regions, t: Tables, first: nat, off: nat, n: nat)
    requires Readable(r, t, first, off, n)
    ensures first in t.chains && Inside(t.chains[first], |t.view.data|) && off + n <= |t.Bytes(first)|
    ensures 0 < |t.chains[first]| && t.chains[first][0] == first
    ensures Sized(t.view.data, r.clusterSize) && |t.view.data| == r.clusters
  {
    assert IsChain(t.view.fat, t.chains[first]);
    ContentLength(t.view.data, r.clusterSize, t.chains[first]);
  }

  /** The request's part in cluster `i` of the chain is the next part of the chain's bytes. */
  lemma PartRead(r: Regions, t: Tables, first: nat, off: nat, n: nat, i: nat, done: nat, o: nat, m: nat)
    requires Readable(r, t, first, off, n) && i < |t.chains[first]|
    requires done < n && Div(off, r.clusterSize) <= i && Progress(off, r.clusterSize, n, i, done)
    requires o == OffsetInCluster(off, r.clusterSize, i) <= r.clusterSize
    requires m == if n - done > r.clusterSize - o then r.clusterSize - o else n - done
    ensures 0 < m && o + m <= r.clusterSize && done + m <= n
    ensures Progress(off, r.clusterSize, n, i + 1, done + m)
    ensures 2 <= t.chains[first][i] < r.clusters == |t.view.data| && |t.view.data[t.chains[first][i]]| == r.clusterSize
    ensures Inside(t.chains[first], |t.view.data|) && off + n <= |t.Bytes(first)|
    ensures t.view.data[t.chains[first][i]][o..o + m] == t.Bytes(first)[off + done..off + done + m]
  {
    hide Progress, OffsetInCluster, Tables.Ok, Readable;
    ReadableBytes(r, t, first, off, n);
    ProgressTransfers(off, r.clusterSize, n, i, done, m);
    ClusterOfBytes(t.view.data, r.clusterSize, t.chains[first], i, o, m);
  }

  lemma ClusterOfBytes(data: seq<seq<byte>>, size: nat, c: seq<nat>, i: nat, o: nat, m: nat)
    requires Sized(data, size) && Inside(c, |data|) && i < |c| && o + m <= size
    ensures |data[c[i]]| == size && Times(i, size) + o + m <= |Content(data, c)|
    ensures data[c[i]][o..o + m] == Content(data, c)[Times(i, size) + o..Times(i, size) + o + m]
  {
    ContentOfCluster(data, size, c, i);
    SliceOfSlice(Content(data, c), Times(i, size), Times(i, size) + size, o, o + m);
  }

  /** While bytes are missing, the walk of a read has a cluster to go on to. */
  lemma ReadStep(r: Regions, t: Tables, first: nat, i: nat, off: nat, n: nat, done: nat)
    requires Readable(r, t, first, off, n)
    requires i < |t.chains[first]| && Progress(off, r.clusterSize, n, i + 1, done)
    ensures !IsInvalidCluster(t.chains[first][i]) && t.chains[first][i] < r.clusters == |t.view.fat|
    ensures done < n ==> i + 1 < |t.chains[first]| && t.view.fat[t.chains[first][i]] == t.chains[first][i + 1]
  {
    assert IsChain(t.view.fat, t.chains[first]);
    NextInChain(t.view.fat, t.chains[first], i);
    if done < n {
      DivBounds(off + n - 1, r.clusterSize);
      TimesReflects(i + 1, |t.chains[first]|, off + n - 1, r.clusterSize);
    }
  }

  class Volume {
    const g: Geometry
    const dev: BlockDevice
    const part: nat
    ghost var t: Tables

    /** The view is what the disk shows. */
    ghost predicate Mounted()
      reads this, dev, dev.cacheData
    {
      && dev.Valid()
      && part < |dev.partitions|
      && dev.Base(part) <= |dev.disk|
      && g.Fits(|dev.disk| - dev.Base(part))
      && R().Fit(|dev.disk| - dev.Base(part))
      && Shows(R(), dev.Base(part), dev.disk, t.view)
    }

    ghost predicate Valid()
      reads this, dev, dev.cacheData
    {
      && Mounted()
      && t.Ok(R())
    }

    ghost function R(): Regions {
      g.Regions()
    }

    /** Mount a partition whose table is a disjoint union of `chains`. */
    constructor (dev: BlockDevice, part: nat, g: Geometry, ghost chains: map<nat, seq<nat>>)
      requires dev.Valid() && part < |dev.partitions| && dev.Base(part) <= |dev.disk|
      requires g.Fits(|dev.disk| - dev.Base(part))
      requires (GeometryFits(g, |dev.disk| - dev.Base(part));
                Partitioned(ViewOf(g.Regions(), dev.Base(part), dev.disk).fat, chains))
      ensures Valid()
      ensures this.dev == dev && this.part == part && this.g == g
      ensures t.chains == chains
    {
      this.dev, this.part, this.g := dev, part, g;
      GeometryFits(g, |dev.disk| - dev.Base(part));
      t := Tables(ViewOf(g.Regions(), dev.Base(part), dev.disk), chains);
      new;
      ClustersSized(R(), dev.Base(part), dev.disk, t.view);
    }

    /** `read_fat`. */
    method ReadFat(cluster: nat) returns (entry: nat)
      requires Mounted()
      requires !IsInvalidCluster(cluster) && cluster < R().clusters
      modifies dev`cacheSector, dev`cacheValid, dev.cacheData
      ensures Mounted()
      ensures entry == t.view.fat[cluster]
    {
      R().ClusterInside(|dev.disk| - dev.Base(part), 2);
      var address := EntryAddress(cluster);
      var bytes := dev.ReadFile(part, address, 2);
      entry := Le16(bytes, 0);
    }

    /** `write_fat`: only the first copy of the table is written. */
    method WriteFat(cluster: nat, value: nat)
      requires Mounted()
      requires !IsInvalidCluster(cluster) && cluster < R().clusters && value < 0x10000
      modifies dev, this`t
      ensures Mounted()
      ensures t == old(t).(view := old(t.view).(fat := old(t.view.fat)[cluster := value]))
    {
      hide ShowsFat, ShowsRoot, ShowsCluster, Splice, Le16, Geometry.Fits, Geometry.Regions, BlockDevice.Valid;
      FatWriteShows(R(), dev.Base(part), dev.disk, t.view, cluster, value);
      var address := EntryAddress(cluster);
      var _ := dev.WriteFile(part, address, ToLe16(value));
      t := t.(view := t.view.(fat := t.view.fat[cluster := value]));
    }

    /** The byte offset of a table entry. */
    method EntryAddress(cluster: nat) returns (address: nat)
      ensures address == R().fatStart + 2 * cluster
    {
      TimesIsProduct(g.fatsStartSector, g.bytesPerSector);
      address := g.fatsStartSector * g.bytesPerSector + 2 * cluster;
    }

    /** The byte offset of a cluster; the first two table entries are reserved. */
    method ClusterAddress(cluster: nat) returns (address: nat)
      requires 2 <= cluster
      ensures address == R().ClusterStart(cluster)
    {
      TimesIsProduct(g.numberOfFats, g.sectorsPerFat);
      TimesIsProduct(g.RootSector() + g.rootSectors, g.bytesPerSector);
      R().ClusterStartIsLinear(cluster);
      var sector := g.fatsStartSector + g.numberOfFats * g.sectorsPerFat + g.rootSectors;
      var size := ClusterSize();
      address := sector * g.bytesPerSector + size * (cluster - 2);
    }

    method ClusterSize() returns (size: nat)
      ensures size == R().clusterSize
    {
      TimesIsProduct(g.sectorsPerCluster, g.bytesPerSector);
      size := g.bytesPerSector * g.sectorsPerCluster;
    }

    method ClusterCount() returns (n: nat)
      ensures n == R().clusters
    {
      TimesIsProduct(g.sectorsPerFat, g.bytesPerSector);
      n := g.sectorsPerFat * g.bytesPerSector / 2;
    }

    /** Overwrite bytes inside one cluster. */
    method WriteCluster(cluster: nat, off: nat, input: seq<byte>)
      requires Mounted()
      requires 2 <= cluster < R().clusters && off + |input| <= R().clusterSize && 0 < |input|
      modifies dev, this`t
      ensures Mounted()
      ensures |old(t).view.data[cluster]| == R().clusterSize
      ensures t == old(t).Overwritten(cluster, off, input)
    {
      hide Geometry.Fits, Geometry.Regions, BlockDevice.Valid, Splice, Regions.ClusterStart, ShowsFat, ShowsRoot,
        ShowsCluster;
      var start := ClusterAddress(cluster);
      R().ClusterInside(|dev.disk| - dev.Base(part), cluster);
      ClusterWriteShows(R(), dev.Base(part), dev.disk, t.view, cluster, off, input);
      var _ := dev.WriteFile(part, start + off, input);
      t := t.Overwritten(cluster, off, input);
    }

    /** Read bytes inside one cluster. */
    method ReadCluster(cluster: nat, off: nat, numBytes: nat) returns (output: seq<byte>)
      requires Mounted()
      requires 2 <= cluster < R().clusters && off + numBytes <= R().clusterSize && 0 < numBytes
      modifies dev`cacheSector, dev`cacheValid, dev.cacheData
      ensures Mounted()
      ensures |t.view.data[cluster]| == R().clusterSize
      ensures output == t.view.data[cluster][off..off + numBytes]
    {
      var start := ClusterAddress(cluster);
      R().ClusterInside(|dev.disk| - dev.Base(part), cluster);
      assert ShowsCluster(R(), dev.Base(part), dev.disk, cluster, t.view.data[cluster]);
      ghost var at := dev.Base(part) + R().ClusterStart(cluster);
      SliceOfSlice(dev.disk, at, at + R().clusterSize, off, off + numBytes);
      output := dev.ReadFile(part, start + off, numBytes);
    }

    /** `find_free_cluster_number`: the lowest free cluster; `None` is the halt when there is none. */
    method FindFreeCluster() returns (r: Option<nat>)
      requires Mounted()
      modifies dev`cacheSector, dev`cacheValid, dev.cacheData
      ensures Mounted()
      ensures r.None? ==> t.Free() == 0
      ensures r.Some? ==>
        && 2 <= r.value < R().clusters == |t.view.fat| && IsFreeEntry(t.view.fat[r.value])
        && forall n :: 2 <= n < r.value ==> !IsFreeEntry(t.view.fat[n])
    {
      var numClusters := ClusterCount();
      var i := 2;
      while i < numClusters
        invariant Mounted()
        invariant 2 <= i <= numClusters
        invariant forall n :: 2 <= n < i ==> !IsFreeEntry(t.view.fat[n])
      {
        var entry := ReadFat(i);
        if IsFreeEntry(entry) {
          return Some(i);
        }
        i := i + 1;
      }
      assert FreeClusters(t.view.fat) == {};
      return None;
    }

    /** One step along a chain, linking a fresh cluster behind its last one. */
    method NextForWrite(cluster: nat, ghost first: nat, ghost i: nat) returns (r: Option<nat>)
      requires Valid()
      requires first in t.chains && i < |t.chains[first]| && t.chains[first][i] == cluster
      modifies dev, dev.cacheData, this`t
      ensures Valid()
      ensures r.None? ==> t == old(t) && t.Free() == 0 && i + 1 == |t.chains[first]|
      ensures r.Some? && i + 1 < old(|t.chains[first]|) ==> t == old(t) && r.value == t.chains[first][i + 1]
      ensures r.Some? && i + 1 == old(|t.chains[first]|) ==>
        && 2 <= r.value < R().clusters && IsFreeEntry(old(t).view.fat[r.value])
        && t == old(t).Grown(first, r.value)
    {
      ghost var c := t.chains[first];
      assert IsChain(t.view.fat, c);
      NextInChain(t.view.fat, c, i);
      var next := ReadFat(cluster);
      if IsEndOfChain(next) {
        r := FindFreeCluster();
        if r.None? {
          return;
        }
        next := r.value;
        LinkFresh(cluster, next, first);
      }
      return Some(next);
    }

    /** Mark `next` as the last cluster, then point the chain's former last cluster at it. */
    method LinkFresh(cluster: nat, next: nat, ghost first: nat)
      requires Valid()
      requires first in t.chains && cluster == t.chains[first][|t.chains[first]| - 1]
      requires 2 <= next < R().clusters && IsFreeEntry(t.view.fat[next])
      modifies dev, this`t
      ensures Valid()
      ensures t == old(t).Grown(first, next)
    {
      hide ShowsFat, ShowsRoot, ShowsCluster, Geometry.Fits, Geometry.Regions, BlockDevice.Valid, AllSeparate,
        NoneLeaked, Distinct;
      GrownOk(R(), t, first, next);
      WriteFat(next, END_OF_CHAIN);
      WriteFat(cluster, next);
      t := t.(chains := t.chains[first := t.chains[first] + [next]]);
    }

    /** Mark a free cluster as the only, and last, of a new chain. */
    method StartFresh(cluster: nat)
      requires Mounted() && t.Ok(R())
      requires 2 <= cluster < R().clusters && IsFreeEntry(t.view.fat[cluster])
      modifies dev, this`t
      ensures Mounted()
      ensures t == old(t).Started(cluster)
    {
      assert R().clusters < BAD_CLUSTER;
      hide Shows, Partitioned;
      WriteFat(cluster, END_OF_CHAIN);
      t := t.(chains := t.chains[cluster := [cluster]]);
    }

    /**
      `write_to_cluster_chain`. The step to the next cluster is taken after the last byte
      too, so the chain always ends up with a cluster to spare; `ok` is false where the
      source halts for want of a free cluster, which is exactly when there are too few.
     */
    method WriteChain(first: nat, off: nat, input: seq<byte>) returns (ok: bool)
      requires Valid() && first in t.chains
      modifies dev, dev.cacheData, this`t
      ensures Valid()
      ensures ok <==> LengthAfterWrite(old(|t.chains[first]|), R().clusterSize, off, |input|)
                      <= old(|t.chains[first]|) + old(t).Free()
      ensures ok ==> ChainWritten(R(), old(t), t, first, off, input)
    {
      hide Shows, Tables.Ok, ChainEffect, Walking;
      var required, _, _ := Locate(off, 0);
      var cluster, i, done := first, 0, 0;
      ghost var t0 := t;
      WalkStarts(R(), t, first, off, input);
      ProgressStarts(off, R().clusterSize, |input|);
      while done < |input|
        invariant Mounted()
        invariant done <= |input| && (input == [] ==> i == 0)
        invariant Progress(off, R().clusterSize, |input|, i, done)
        invariant Walking(R(), t0, t, first, off, input, done, i, cluster)
        decreases |input| - done, if i <= required then required - i else 0
      {
        if required <= i {
          done := WritePart(cluster, first, i, off, input, done, t0);
        } else {
          ProgressSkips(off, R().clusterSize, |input|, i);
        }
        var next := Step(cluster, first, i, off, input, done, t0);
        if next.None? {
          FailsForLength(|t0.chains[first]|, R().clusterSize, off, |input|, i);
          WalkedTo(R(), t0, t, first, off, input, i, cluster, done);
          return false;
        }
        cluster, i := next.value, i + 1;
      }
      WalkEnds(R(), t0, t, first, off, input, i, cluster);
      WalkedTo(R(), t0, t, first, off, input, i, cluster, done);
      return true;
    }

    /** The first cluster of a request, and where the request's part in cluster `i` starts. */
    method Locate(off: nat, i: nat) returns (required: nat, inCluster: nat, available: nat)
      requires 0 < R().clusterSize
      ensures required == Div(off, R().clusterSize)
      ensures inCluster == OffsetInCluster(off, R().clusterSize, i) < R().clusterSize
      ensures available == R().clusterSize - inCluster
    {
      var size := ClusterSize();
      required, inCluster, available := off / size, 0, size;
      DivIsQuotient(off, size);
      DivBounds(off, size);
      if i == required {
        inCluster := off % size;
        available := size - inCluster;
      }
    }

    /** Write the part of the request that lies in cluster `i`. */
    method WritePart(cluster: nat, ghost first: nat, i: nat, off: nat, input: seq<byte>, done: nat, ghost t0: Tables)
      returns (done': nat)
      requires Mounted() && Walking(R(), t0, t, first, off, input, done, i, cluster)
      requires done < |input| && Div(off, R().clusterSize) <= i
      requires Progress(off, R().clusterSize, |input|, i, done)
      modifies dev, dev.cacheData, this`t
      ensures Mounted() && done < done' <= |input|
      ensures Progress(off, R().clusterSize, |input|, i + 1, done')
      ensures Walking(R(), t0, t, first, off, input, done', i, cluster)
    {
      hide Shows, Walking;
      var _, o, available := Locate(off, i);
      var m := if |input| - done > available then available else |input| - done;
      PartWritten(R(), t0, t, first, off, input, i, cluster, done, o, m);
      WriteCluster(cluster, o, input[done..done + m]);
      done' := done + m;
    }

    /** Go on to the next cluster, appending one where the chain ends. */
    method Step(cluster: nat, ghost first: nat, ghost i: nat, ghost off: nat, ghost input: seq<byte>, ghost done: nat,
                ghost t0: Tables) returns (next: Option<nat>)
      requires Mounted() && Walking(R(), t0, t, first, off, input, done, i, cluster)
      modifies dev, dev.cacheData, this`t
      ensures Mounted()
      ensures next.Some? ==> Walking(R(), t0, t, first, off, input, done, i + 1, next.value)
      ensures next.None? ==> Walking(R(), t0, t, first, off, input, done, i, cluster)
      ensures next.None? ==> |t0.chains[first]| + t0.Free() <= i + 1
    {
      hide Shows, Walking, Partitioned;
      ghost var mid := t;
      WalkedTo(R(), t0, t, first, off, input, i, cluster, done);
      next := NextForWrite(cluster, first, i);
      if next.Some? && i + 1 == |mid.chains[first]| {
        WalkLinks(R(), t0, mid, first, off, input, i, cluster, done, next.value);
      }
    }

    /**
      `read_from_cluster_chain`; the caller has checked the request against the chain's
      extent. The entry of the last cluster read is looked up too, but not followed.
     */
    method ReadChain(first: nat, off: nat, numBytes: nat) returns (output: seq<byte>)
      requires Valid() && Readable(R(), t, first, off, numBytes)
      modifies dev`cacheSector, dev`cacheValid, dev.cacheData
      ensures Valid() && Inside(t.chains[first], |t.view.data|)
      ensures off + numBytes <= |t.Bytes(first)| && output == t.Bytes(first)[off..off + numBytes]
    {
      hide Shows, Tables.Ok, Progress;
      ReadableBytes(R(), t, first, off, numBytes);
      output := [];
      var required, _, _ := Locate(off, 0);
      var cluster, i := first, 0;
      ProgressStarts(off, R().clusterSize, numBytes);
      while |output| < numBytes
        invariant Mounted() && |output| <= numBytes
        invariant Progress(off, R().clusterSize, numBytes, i, |output|)
        invariant |output| < numBytes ==> i < |t.chains[first]| && t.chains[first][i] == cluster
        invariant i <= required ==> |output| == 0
        invariant output == t.Bytes(first)[off..off + |output|]
        decreases numBytes - |output|, if i <= required then required - i else 0
      {
        if required <= i {
          var part := ReadPart(cluster, first, i, off, numBytes, |output|);
          output := output + part;
        } else {
          ProgressSkips(off, R().clusterSize, numBytes, i);
        }
        ReadStep(R(), t, first, i, off, numBytes, |output|);
        cluster := ReadFat(cluster);
        i := i + 1;
      }
    }

    /** Read the part of the request that lies in cluster `i`. */
    method ReadPart(cluster: nat, ghost first: nat, i: nat, off: nat, numBytes: nat,
                    done: nat) returns (output: seq<byte>)
      requires Mounted() && Readable(R(), t, first, off, numBytes)
      requires i < |t.chains[first]| && t.chains[first][i] == cluster
      requires done < numBytes && Div(off, R().clusterSize) <= i
      requires Progress(off, R().clusterSize, numBytes, i, done)
      modifies dev`cacheSector, dev`cacheValid, dev.cacheData
      ensures Mounted() && 0 < |output| <= numBytes - done
      ensures Progress(off, R().clusterSize, numBytes, i + 1, done + |output|)
      ensures Inside(t.chains[first], |t.view.data|) && off + numBytes <= |t.Bytes(first)|
      ensures output == t.Bytes(first)[off + done..off + done + |output|]
    {
      hide Shows, Readable, Progress;
      var _, o, available := Locate(off, i);
      var m := if numBytes - done > available then available else numBytes - done;
      PartRead(R(), t, first, off, numBytes, i, done, o, m);
      output := ReadCluster(cluster, o, m);
    }

    /** Where the root directory starts, and its length in bytes. */
    method RootRegion() returns (start: nat, length: nat)
      ensures start == R().rootStart && start + length == R().dataStart
    {
      TimesIsProduct(g.numberOfFats, g.sectorsPerFat);
      TimesIsProduct(g.RootSector(), g.bytesPerSector);
      TimesAdd(g.RootSector(), g.rootSectors, g.bytesPerSector);
      TimesIsProduct(g.rootSectors, g.bytesPerSector);
      start := (g.fatsStartSector + g.sectorsPerFat * g.numberOfFats) * g.bytesPerSector;
      length := g.rootSectors * g.bytesPerSector;
    }

    /** `read_from_root_dir`; `None` is the halt on a request that is not whole entries inside the directory. */
    method ReadRootDir(off: nat, numBytes: nat) returns (r: Option<seq<byte>>)
      requires Mounted() && 0 < numBytes
      modifies dev`cacheSector, dev`cacheValid, dev.cacheData
      ensures Mounted()
      ensures r.Some? <==> off % DIRENT == 0 && numBytes % DIRENT == 0 && off + numBytes < |t.view.root|
      ensures r.Some? ==> r.value == t.view.root[off..off + numBytes]
    {
      RootInside();
      var start, length := RootRegion();
      if off % DIRENT != 0 || numBytes % DIRENT != 0 || off + numBytes >= length {
        return None;
      }
      ghost var base := dev.Base(part);
      SliceOfSlice(dev.disk, base + R().rootStart, base + R().dataStart, off, off + numBytes);
      var output := dev.ReadFile(part, start + off, numBytes);
      return Some(output);
    }

    lemma RootInside()
      requires Mounted()
      ensures dev.Base(part) + R().dataStart <= |dev.disk| && |t.view.root| == R().dataStart - R().rootStart
      ensures t.view.root == dev.disk[dev.Base(part) + R().rootStart..dev.Base(part) + R().dataStart]
    {
      R().ClusterInside(|dev.disk| - dev.Base(part), 2);
    }

    /** `write_to_root_dir`; `ok` is false where the source halts, as in `ReadRootDir`. */
    method WriteRootDir(off: nat, input: seq<byte>) returns (ok: bool)
      requires Mounted() && 0 < |input|
      modifies dev, this`t
      ensures Mounted()
      ensures ok <==> off % DIRENT == 0 && |input| % DIRENT == 0 && off + |input| < |old(t).view.root|
      ensures t == if ok then old(t).(view := old(t).view.(root := Splice(old(t).view.root, off, input))) else old(t)
    {
      RootInside();
      var start, length := RootRegion();
      if off % DIRENT != 0 || |input| % DIRENT != 0 || off + |input| >= length {
        return false;
      }
      RootWriteShows(R(), dev.Base(part), dev.disk, t.view, off, input);
      var _ := dev.WriteFile(part, start + off, input);
      t := t.(view := t.view.(root := Splice(t.view.root, off, input)));
      return true;
    }
  }
}
