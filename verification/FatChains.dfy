/**
  Cluster chains in the file allocation table: shape, separation, growth, and the bytes
  a chain holds (stuos/src/fs_fat.c).
 */
module FatChains {
  import opened Bytes
  import opened FatArithmetic

  const END_OF_CHAIN: nat := 0xFFF8
  const BAD_CLUSTER: nat := 0xFFF7

  predicate IsInvalidCluster(n: nat) { n < 2 || n >= 0xFFF7 }
  predicate IsFreeEntry(n: nat) { n < 2 }
  predicate IsEndOfChain(n: nat) { n >= END_OF_CHAIN }

  ghost predicate Distinct<T>(s: seq<T>) {
    forall i, j :: 0 <= i < j < |s| ==> s[i] != s[j]
  }

  /** The clusters `c`, linked in this order by `fat`, without repetition and properly ended. */
  ghost predicate IsChain(fat: seq<nat>, c: seq<nat>) {
    && 0 < |c|
    && (forall i :: 0 <= i < |c| ==> 2 <= c[i] < |fat|)
    && Distinct(c)
    && (forall i, j :: 0 <= i && j == i + 1 < |c| ==> fat[c[i]] == c[j])
    && IsEndOfChain(fat[c[|c| - 1]])
  }

  ghost predicate Separate(a: seq<nat>, b: seq<nat>) {
    forall i, j :: 0 <= i < |a| && 0 <= j < |b| ==> a[i] != b[j]
  }

  /**
    The table is a disjoint union of chains, each listed under its first cluster, plus free
    (and bad) entries: no cluster is in two chains and none in use is leaked.
   */
  ghost predicate Partitioned(fat: seq<nat>, chains: map<nat, seq<nat>>) {
    && 2 < |fat| < BAD_CLUSTER
    && AllChains(fat, chains)
    && AllSeparate(chains)
    && NoneLeaked(fat, chains)
  }

  ghost predicate AllChains(fat: seq<nat>, chains: map<nat, seq<nat>>) {
    forall k :: k in chains ==> IsChain(fat, chains[k]) && chains[k][0] == k
  }

  ghost predicate AllSeparate(chains: map<nat, seq<nat>>) {
    forall k, l :: k in chains && l in chains && k != l ==> Separate(chains[k], chains[l])
  }

  ghost predicate NoneLeaked(fat: seq<nat>, chains: map<nat, seq<nat>>) {
    forall n :: 2 <= n < |fat| && !IsFreeEntry(fat[n]) && fat[n] != BAD_CLUSTER ==> InSomeChain(chains, n)
  }

  ghost predicate InSomeChain(chains: map<nat, seq<nat>>, n: nat) {
    exists k :: k in chains && n in chains[k]
  }

  ghost function FreeClusters(fat: seq<nat>): set<nat> {
    set n | 2 <= n < |fat| && IsFreeEntry(fat[n])
  }

  /** A table determines its chains: from one first cluster there is at most one. */
  lemma {:induction false} ChainUnique(fat: seq<nat>, a: seq<nat>, b: seq<nat>, i: nat)
    requires IsChain(fat, a) && IsChain(fat, b) && a[0] == b[0]
    requires |fat| < BAD_CLUSTER
    requires i < |a|
    ensures i < |b| && a[i] == b[i]
  {
    if i == 0 {
    } else {
      ChainUnique(fat, a, b, i - 1);
      assert fat[a[i - 1]] == a[i] < END_OF_CHAIN;
      assert i - 1 != |b| - 1;
      assert fat[b[i - 1]] == b[i];
    }
  }

  lemma ChainDetermined(fat: seq<nat>, a: seq<nat>, b: seq<nat>)
    requires IsChain(fat, a) && IsChain(fat, b) && a[0] == b[0] && |fat| < BAD_CLUSTER
    ensures a == b
  {
    ChainUnique(fat, a, b, |a| - 1);
    ChainUnique(fat, b, a, |b| - 1);
    forall i | 0 <= i < |a|
      ensures a[i] == b[i]
    {
      ChainUnique(fat, a, b, i);
    }
  }

  lemma NothingFreeInChain(fat: seq<nat>, c: seq<nat>, i: nat)
    requires IsChain(fat, c) && i < |c|
    ensures !IsFreeEntry(fat[c[i]])
  {
    if i < |c| - 1 {
      assert fat[c[i]] == c[i + 1];
    }
  }

  /** What `read_fat` finds at cluster `i` of a chain: the end exactly at its last cluster, else the next cluster. */
  lemma NextInChain(fat: seq<nat>, c: seq<nat>, i: nat)
    requires IsChain(fat, c) && |fat| < BAD_CLUSTER && i < |c|
    ensures IsEndOfChain(fat[c[i]]) <==> i + 1 == |c|
    ensures i + 1 < |c| ==> fat[c[i]] == c[i + 1] && !IsInvalidCluster(c[i + 1])
  {
    if i + 1 < |c| {
      var j := i + 1;
      assert fat[c[i]] == c[j];
    }
  }

  /** A free cluster is in no chain. */
  lemma FreeIsUnused(fat: seq<nat>, chains: map<nat, seq<nat>>, x: nat, k: nat)
    requires Partitioned(fat, chains) && k in chains
    requires x < |fat| && IsFreeEntry(fat[x])
    ensures x !in chains[k]
  {
    var c := chains[k];
    assert IsChain(fat, c);
    if x in c {
      var i :| 0 <= i < |c| && c[i] == x;
      NothingFreeInChain(fat, c, i);
      assert false;
    }
  }

  /** The table after linking the fresh cluster `x` behind the last cluster of `c`. */
  function Linked(fat: seq<nat>, c: seq<nat>, x: nat): seq<nat>
    requires 0 < |c| && c[|c| - 1] < |fat| && x < |fat|
  {
    fat[x := END_OF_CHAIN][c[|c| - 1] := x]
  }

  /** Linking a free cluster behind one chain grows that chain and keeps the table partitioned. */
  lemma LinkKeepsPartition(fat: seq<nat>, chains: map<nat, seq<nat>>, k: nat, x: nat)
    requires Partitioned(fat, chains) && k in chains
    requires 2 <= x < |fat| && IsFreeEntry(fat[x])
    ensures Partitioned(Linked(fat, chains[k], x), chains[k := chains[k] + [x]])
  {
    hide Separate, NoneLeaked, AllSeparate;
    FreeIsInNoChain(fat, chains, x);
    LinkKeepsChains(fat, chains, k, x);
    LinkKeepsSeparate(chains, k, x);
    LinkLeaksNone(fat, chains, k, x);
  }

  lemma LinkKeepsChains(fat: seq<nat>, chains: map<nat, seq<nat>>, k: nat, x: nat)
    requires AllChains(fat, chains) && AllSeparate(chains) && k in chains && IsChain(fat, chains[k])
    requires 2 <= x < |fat| && forall l :: l in chains ==> x !in chains[l]
    ensures AllChains(Linked(fat, chains[k], x), chains[k := chains[k] + [x]])
  {
    hide IsChain, Separate, Linked;
    ChainNotEmpty(fat, chains[k]);
    LinkedIsChain(fat, chains[k], x);
    forall l | l in chains && l != k
      ensures IsChain(Linked(fat, chains[k], x), chains[l])
    {
      OtherChainKept(fat, chains[k], chains[l], x);
    }
  }

  lemma ChainNotEmpty(fat: seq<nat>, c: seq<nat>)
    requires IsChain(fat, c)
    ensures 0 < |c| && c[|c| - 1] < |fat|
  {
  }

  lemma LinkKeepsSeparate(chains: map<nat, seq<nat>>, k: nat, x: nat)
    requires AllSeparate(chains) && k in chains && forall l :: l in chains ==> x !in chains[l]
    ensures AllSeparate(chains[k := chains[k] + [x]])
  {
    hide Separate;
    forall l | l in chains && l != k
      ensures Separate(chains[l], chains[k] + [x]) && Separate(chains[k] + [x], chains[l])
    {
      SeparateFromOne(chains[l], chains[k], x);
    }
  }

  lemma LinkedIsChain(fat: seq<nat>, c: seq<nat>, x: nat)
    requires IsChain(fat, c) && 2 <= x < |fat| && x !in c
    ensures IsChain(Linked(fat, c, x), c + [x])
  {
    var fat', d := Linked(fat, c, x), c + [x];
    forall i | 0 <= i < |d| - 1
      ensures fat'[d[i]] == d[i + 1]
    {
      assert c[i] in c;
    }
  }

  lemma SeparateFromOne(a: seq<nat>, c: seq<nat>, x: nat)
    requires Separate(a, c) && x !in a
    ensures Separate(a, c + [x]) && Separate(c + [x], a)
  {
  }

  lemma LinkLeaksNone(fat: seq<nat>, chains: map<nat, seq<nat>>, k: nat, x: nat)
    requires k in chains && IsChain(fat, chains[k]) && NoneLeaked(fat, chains) && x < |fat|
    ensures NoneLeaked(Linked(fat, chains[k], x), chains[k := chains[k] + [x]])
  {
    var c := chains[k];
    var fat', chains' := Linked(fat, c, x), chains[k := c + [x]];
    forall n | 2 <= n < |fat| && !IsFreeEntry(fat'[n]) && fat'[n] != BAD_CLUSTER
      ensures InSomeChain(chains', n)
    {
      if n == x || n == c[|c| - 1] {
        assert n in c + [x];
        assert k in chains' && n in chains'[k];
      } else {
        var l :| l in chains && n in chains[l];
        assert l in chains' && n in chains'[l];
      }
    }
  }

  lemma OtherChainKept(fat: seq<nat>, c: seq<nat>, other: seq<nat>, x: nat)
    requires IsChain(fat, c) && IsChain(fat, other) && Separate(other, c)
    requires 2 <= x < |fat| && x !in other
    ensures IsChain(Linked(fat, c, x), other)
  {
    forall i | 0 <= i < |other|
      ensures Linked(fat, c, x)[other[i]] == fat[other[i]]
    {
      assert other[i] in other;
    }
  }

  /** Marking a free cluster as the end of a chain starts a new chain of one cluster. */
  lemma StartKeepsPartition(fat: seq<nat>, chains: map<nat, seq<nat>>, x: nat)
    requires Partitioned(fat, chains)
    requires 2 <= x < |fat| && IsFreeEntry(fat[x])
    ensures x !in chains
    ensures Partitioned(fat[x := END_OF_CHAIN], chains[x := [x]])
  {
    hide IsChain, Separate, NoneLeaked, AllChains, AllSeparate;
    FreeIsInNoChain(fat, chains, x);
    StartKeepsChains(fat, chains, x);
    StartKeepsSeparate(chains, x);
    StartLeaksNone(fat, chains, x);
  }

  lemma FreeIsInNoChain(fat: seq<nat>, chains: map<nat, seq<nat>>, x: nat)
    requires Partitioned(fat, chains) && x < |fat| && IsFreeEntry(fat[x])
    ensures x !in chains && forall l :: l in chains ==> x !in chains[l]
  {
    forall l | l in chains
      ensures x !in chains[l]
    {
      FreeIsUnused(fat, chains, x, l);
    }
    if x in chains {
      FreeIsUnused(fat, chains, x, x);
      assert false;
    }
  }

  lemma StartKeepsChains(fat: seq<nat>, chains: map<nat, seq<nat>>, x: nat)
    requires AllChains(fat, chains) && 2 <= x < |fat| && forall l :: l in chains ==> x !in chains[l]
    ensures AllChains(fat[x := END_OF_CHAIN], chains[x := [x]])
  {
    hide IsChain;
    forall l | l in chains
      ensures IsChain(fat[x := END_OF_CHAIN], chains[l])
    {
      UnusedKeepsChain(fat, chains[l], x);
    }
    OneIsChain(fat, x);
  }

  lemma StartKeepsSeparate(chains: map<nat, seq<nat>>, x: nat)
    requires AllSeparate(chains) && forall l :: l in chains ==> x !in chains[l]
    ensures AllSeparate(chains[x := [x]])
  {
    hide Separate;
    forall l | l in chains
      ensures Separate(chains[l], [x]) && Separate([x], chains[l])
    {
      OneIsSeparate(chains[l], x);
    }
  }

  lemma OneIsSeparate(a: seq<nat>, x: nat)
    requires x !in a
    ensures Separate(a, [x]) && Separate([x], a)
  {
  }

  lemma OneIsChain(fat: seq<nat>, x: nat)
    requires 2 <= x < |fat|
    ensures IsChain(fat[x := END_OF_CHAIN], [x])
  {
  }

  lemma UnusedKeepsChain(fat: seq<nat>, c: seq<nat>, x: nat)
    requires IsChain(fat, c) && x < |fat| && x !in c
    ensures IsChain(fat[x := END_OF_CHAIN], c)
  {
    forall i | 0 <= i < |c|
      ensures fat[x := END_OF_CHAIN][c[i]] == fat[c[i]]
    {
      assert c[i] in c;
    }
  }

  lemma StartLeaksNone(fat: seq<nat>, chains: map<nat, seq<nat>>, x: nat)
    requires NoneLeaked(fat, chains) && x < |fat| && x !in chains
    ensures NoneLeaked(fat[x := END_OF_CHAIN], chains[x := [x]])
  {
    var fat', chains' := fat[x := END_OF_CHAIN], chains[x := [x]];
    forall n | 2 <= n < |fat'| && !IsFreeEntry(fat'[n]) && fat'[n] != BAD_CLUSTER
      ensures InSomeChain(chains', n)
    {
      if n == x {
        assert x in chains' && n in chains'[x];
      } else {
        var l :| l in chains && n in chains[l];
        assert l in chains' && n in chains'[l];
      }
    }
  }

  /** Taking a free cluster into use, under whatever non-free value, leaves one free cluster less. */
  lemma TakeShrinksFree(fat: seq<nat>, x: nat, value: nat)
    requires 2 <= x < |fat| && IsFreeEntry(fat[x]) && !IsFreeEntry(value)
    ensures FreeClusters(fat[x := value]) == FreeClusters(fat) - {x}
    ensures |FreeClusters(fat[x := value])| == |FreeClusters(fat)| - 1
  {
    assert FreeClusters(fat[x := value]) == FreeClusters(fat) - {x};
  }

  lemma LinkShrinksFree(fat: seq<nat>, c: seq<nat>, x: nat)
    requires IsChain(fat, c) && |fat| < BAD_CLUSTER
    requires 2 <= x < |fat| && IsFreeEntry(fat[x])
    ensures |FreeClusters(Linked(fat, c, x))| == |FreeClusters(fat)| - 1
  {
    TakeShrinksFree(fat, x, END_OF_CHAIN);
    assert c[|c| - 1] != x;
    assert FreeClusters(Linked(fat, c, x)) == FreeClusters(fat[x := END_OF_CHAIN]);
  }

  // --- The bytes of a chain ---

  ghost predicate Sized(data: seq<seq<byte>>, size: nat) {
    forall n :: 2 <= n < |data| ==> |data[n]| == size
  }

  ghost predicate Inside(c: seq<nat>, clusters: nat) {
    forall i :: 0 <= i < |c| ==> 2 <= c[i] < clusters
  }

  /** The clusters' bytes one after another. */
  ghost function Content(data: seq<seq<byte>>, c: seq<nat>): seq<byte>
    requires Inside(c, |data|)
  {
    if c == [] then [] else Content(data, c[..|c| - 1]) + data[c[|c| - 1]]
  }

  lemma {:induction false} ContentLength(data: seq<seq<byte>>, size: nat, c: seq<nat>)
    requires Sized(data, size) && Inside(c, |data|)
    ensures |Content(data, c)| == Times(|c|, size)
  {
    if c == [] {
    } else {
      ContentLength(data, size, c[..|c| - 1]);
    }
  }

  /** A chain's prefix holds a prefix of its bytes. */
  lemma {:induction false} ContentOfPrefix(data: seq<seq<byte>>, c: seq<nat>, d: seq<nat>)
    requires Inside(c, |data|) && d <= c
    ensures Inside(d, |data|) && Content(data, d) <= Content(data, c)
  {
    if c == d {
    } else {
      ContentOfPrefix(data, c[..|c| - 1], d);
    }
  }

  /** Where cluster `i` of the chain sits in its bytes. */
  lemma {:induction false} ContentOfCluster(data: seq<seq<byte>>, size: nat, c: seq<nat>, i: nat)
    requires Sized(data, size) && Inside(c, |data|) && i < |c|
    ensures Times(i, size) + size <= |Content(data, c)| == Times(|c|, size)
    ensures Content(data, c)[Times(i, size)..Times(i, size) + size] == data[c[i]]
  {
    ContentLength(data, size, c[..i]);
    ContentLength(data, size, c[..i + 1]);
    ContentLength(data, size, c);
    assert c[..i + 1][..i] == c[..i];
    ContentOfPrefix(data, c, c[..i + 1]);
    SlicePrefix(Content(data, c[..i + 1]), Content(data, c), Times(i, size), Times(i, size) + size);
  }

  lemma SlicePrefix<T>(a: seq<T>, b: seq<T>, lo: nat, hi: nat)
    requires a <= b && lo <= hi <= |a|
    ensures a[lo..hi] == b[lo..hi]
  {
  }

  /** Clusters outside the chain do not matter to it. */
  lemma {:induction false} ContentFrame(data: seq<seq<byte>>, data': seq<seq<byte>>, c: seq<nat>)
    requires |data| == |data'| && Inside(c, |data|)
    requires forall i :: 0 <= i < |c| ==> data'[c[i]] == data[c[i]]
    ensures Content(data', c) == Content(data, c)
  {
    if c == [] {
    } else {
      ContentFrame(data, data', c[..|c| - 1]);
    }
  }

  /** Overwriting bytes of one cluster overwrites the same bytes of the chain. */
  lemma {:induction false} ContentAfterWrite(data: seq<seq<byte>>, size: nat, c: seq<nat>, i: nat, off: nat,
                                             b: seq<byte>)
    requires Sized(data, size) && Inside(c, |data|) && Distinct(c) && i < |c|
    requires off + |b| <= size
    ensures Times(i, size) + off + |b| <= |Content(data, c)|
    ensures Content(data[c[i] := Splice(data[c[i]], off, b)], c) == Splice(Content(data, c), Times(i, size) + off, b)
  {
    hide Splice, Times;
    var data' := data[c[i] := Splice(data[c[i]], off, b)];
    var front, last := c[..|c| - 1], c[|c| - 1];
    ContentLength(data, size, front);
    if i == |c| - 1 {
      ContentFrame(data, data', front);
      SpliceRight(Content(data, front), data[last], off, b);
    } else {
      ContentAfterWrite(data, size, front, i, off, b);
      SpliceLeft(Content(data, front), data[last], Times(i, size) + off, b);
    }
  }

  lemma SpliceRight<T>(a: seq<T>, s: seq<T>, off: nat, b: seq<T>)
    requires off + |b| <= |s|
    ensures Splice(a + s, |a| + off, b) == a + Splice(s, off, b)
  {
  }

  lemma SpliceLeft<T>(a: seq<T>, s: seq<T>, off: nat, b: seq<T>)
    requires off + |b| <= |a|
    ensures Splice(a + s, off, b) == Splice(a, off, b) + s
  {
  }
}
