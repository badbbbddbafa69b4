/** What `create_inode` does to directories and files (stuos/src/fs_fat.c). */
module FatCreate {
  import opened Options
  import opened Bytes
  import opened FatArithmetic
  import opened FatLayout
  import opened FatChains
  import opened FatVolumes
  import opened FatFiles
  import opened FatNames

  // --- A directory as a sequence of entries ---

  ghost function EntriesOf(bytes: seq<byte>, n: nat): (es: seq<DirentBytes>)
    requires DIRENT * n <= |bytes|
    ensures |es| == n && forall i :: 0 <= i < n ==> es[i] == bytes[DIRENT * i..DIRENT * i + DIRENT]
  {
    seq(n, i requires 0 <= i < n => bytes[DIRENT * i..DIRENT * i + DIRENT])
  }

  /** How many entries can be read: the halting check leaves out the last of the root. */
  ghost function Slots(t: Tables, dir: nat): (n: nat)
    requires dir != PARENT_IS_ROOT_DIR ==> dir in t.chains && Inside(t.chains[dir], |t.view.data|)
    ensures DIRENT * n <= |DirBytes(t, dir)|
    ensures forall i: nat :: i < n <==>
              if dir == PARENT_IS_ROOT_DIR then DIRENT * i + DIRENT < |t.view.root|
              else DIRENT * i + DIRENT <= |t.Bytes(dir)|
  {
    if dir == PARENT_IS_ROOT_DIR then
      if t.view.root == [] then 0 else (|t.view.root| - 1) / DIRENT
    else |t.Bytes(dir)| / DIRENT
  }

  ghost function DirEntries(t: Tables, dir: nat): seq<DirentBytes>
    requires dir != PARENT_IS_ROOT_DIR ==> dir in t.chains && Inside(t.chains[dir], |t.view.data|)
  {
    EntriesOf(DirBytes(t, dir), Slots(t, dir))
  }

  ghost function ListingOf(t: Tables, dir: nat): Listing
    requires dir != PARENT_IS_ROOT_DIR ==> dir in t.chains && Inside(t.chains[dir], |t.view.data|)
  {
    List(DirEntries(t, dir), 0, [])
  }

  function Flatten(es: seq<DirentBytes>): (b: seq<byte>)
    ensures |b| == DIRENT * |es|
  {
    if es == [] then [] else Flatten(es[..|es| - 1]) + es[|es| - 1]
  }

  lemma {:induction false} FlattenAt(es: seq<DirentBytes>, i: nat)
    requires i < |es|
    ensures Flatten(es)[DIRENT * i..DIRENT * i + DIRENT] == es[i]
  {
    if i == |es| - 1 {
    } else {
      FlattenAt(es[..|es| - 1], i);
      SlicePrefix(Flatten(es[..|es| - 1]), Flatten(es), DIRENT * i, DIRENT * i + DIRENT);
    }
  }

  /** Whole entries written into a directory's bytes are entries of the directory; the ones before them stay. */
  lemma EntriesAfterWrite(bytes: seq<byte>, bytes': seq<byte>, n: nat, n': nat, at: nat, es: seq<DirentBytes>)
    requires DIRENT * n <= |bytes| && DIRENT * n' <= |bytes'| && at <= n && at + |es| <= n'
    requires bytes'[..DIRENT * at] == bytes[..DIRENT * at]
    requires bytes'[DIRENT * at..DIRENT * at + DIRENT * |es|] == Flatten(es)
    ensures EntriesOf(bytes', n')[..at] == EntriesOf(bytes, n)[..at]
    ensures EntriesOf(bytes', n')[at..at + |es|] == es
  {
    hide Flatten, EntriesOf;
    forall i | 0 <= i < at
      ensures EntriesOf(bytes', n')[i] == EntriesOf(bytes, n)[i]
    {
      EntryBytesKept(bytes, bytes', at, i);
    }
    forall i | 0 <= i < |es|
      ensures EntriesOf(bytes', n')[at + i] == es[i]
    {
      EntryWritten(bytes', at, es, i);
    }
  }

  lemma EntryBytesKept(bytes: seq<byte>, bytes': seq<byte>, at: nat, i: nat)
    requires DIRENT * at <= |bytes| && DIRENT * at <= |bytes'| && i < at
    requires bytes'[..DIRENT * at] == bytes[..DIRENT * at]
    ensures bytes'[DIRENT * i..DIRENT * i + DIRENT] == bytes[DIRENT * i..DIRENT * i + DIRENT]
  {
    SlicesAgree(bytes, bytes', DIRENT * i, DIRENT * i + DIRENT, DIRENT * at);
  }

  lemma EntryWritten(bytes: seq<byte>, at: nat, es: seq<DirentBytes>, i: nat)
    requires DIRENT * at + DIRENT * |es| <= |bytes| && i < |es|
    requires bytes[DIRENT * at..DIRENT * at + DIRENT * |es|] == Flatten(es)
    ensures bytes[DIRENT * (at + i)..DIRENT * (at + i) + DIRENT] == es[i]
  {
    FlattenAt(es, i);
    SliceOfSlice(bytes, DIRENT * at, DIRENT * at + DIRENT * |es|, DIRENT * i, DIRENT * i + DIRENT);
  }

  /** The directory has the same entries, up to cluster and size of ordinary ones, and perhaps more room. */
  ghost predicate Resembles(t: Tables, t': Tables, dir: nat) {
    && (dir != PARENT_IS_ROOT_DIR ==> dir in t.chains && Inside(t.chains[dir], |t.view.data|))
    && (dir != PARENT_IS_ROOT_DIR ==> dir in t'.chains && Inside(t'.chains[dir], |t'.view.data|))
    && |DirEntries(t, dir)| <= |DirEntries(t', dir)|
    && forall k :: 0 <= k < |DirEntries(t, dir)| ==> LooksTheSame(DirEntries(t, dir)[k], DirEntries(t', dir)[k])
  }

  /** No entry before the end of the listing looks like the end. */
  ghost predicate NoEarlyEnd(t: Tables, dir: nat)
    requires dir != PARENT_IS_ROOT_DIR ==> dir in t.chains && Inside(t.chains[dir], |t.view.data|)
    requires ListingOf(t, dir).Names?
  {
    var es, end := DirEntries(t, dir), ListingOf(t, dir).end;
    end <= |es| && forall i :: 0 <= i < end ==> es[i][0] != 0
  }

  lemma ResemblingLists(t: Tables, t': Tables, dir: nat)
    requires Resembles(t, t', dir) && ListingOf(t, dir).Names?
    ensures ListingOf(t', dir) == ListingOf(t, dir)
    ensures NoEarlyEnd(t, dir) ==> NoEarlyEnd(t', dir)
  {
    var es, es' := DirEntries(t, dir), DirEntries(t', dir);
    ListStable(es, es', 0, []);
    if NoEarlyEnd(t, dir) {
      forall i | 0 <= i < ListingOf(t, dir).end
        ensures es'[i][0] != 0
      {
        SameFront(es[i], es'[i]);
      }
    }
  }

  /** A directory whose bytes at most grow, all old ones staying. */
  lemma GrownResembles(t: Tables, t': Tables, dir: nat)
    requires dir != PARENT_IS_ROOT_DIR ==> dir in t.chains && Inside(t.chains[dir], |t.view.data|)
    requires dir != PARENT_IS_ROOT_DIR ==> dir in t'.chains && Inside(t'.chains[dir], |t'.view.data|)
    requires DirBytes(t, dir) <= DirBytes(t', dir)
    ensures Resembles(t, t', dir)
  {
    SlotsGrow(t, t', dir);
    var es, es' := DirEntries(t, dir), DirEntries(t', dir);
    forall k | 0 <= k < |es|
      ensures LooksTheSame(es[k], es'[k])
    {
      SlicePrefix(DirBytes(t, dir), DirBytes(t', dir), DIRENT * k, DIRENT * k + DIRENT);
    }
  }

  lemma SlotsGrow(t: Tables, t': Tables, dir: nat)
    requires dir != PARENT_IS_ROOT_DIR ==> dir in t.chains && Inside(t.chains[dir], |t.view.data|)
    requires dir != PARENT_IS_ROOT_DIR ==> dir in t'.chains && Inside(t'.chains[dir], |t'.view.data|)
    requires |DirBytes(t, dir)| <= |DirBytes(t', dir)|
    ensures Slots(t, dir) <= Slots(t', dir)
  {
  }

  // --- The first step: a cluster for a new directory ---

  ghost predicate Allocated(r: Regions, t0: Tables, t1: Tables, isDirectory: bool, x: nat)
    requires t0.Ok(r) && 0 < r.clusterSize
  {
    if isDirectory then
      && 2 <= x < r.clusters && IsFreeEntry(t0.view.fat[x])
      && t0.Started(x).Ok(r)
      && ChainWritten(r, t0.Started(x), t1, x, 0, ZERO_DIRENT)
    else t1 == t0
  }

  lemma AllocatedKeeps(r: Regions, t0: Tables, t1: Tables, isDirectory: bool, x: nat, k: nat)
    requires t0.Ok(r) && 0 < r.clusterSize && Allocated(r, t0, t1, isDirectory, x)
    requires k in t0.chains
    ensures k in t1.chains && t1.chains[k] == t0.chains[k] && (isDirectory ==> k != x)
    ensures |t0.view.data| == |t1.view.data| == r.clusters && Inside(t0.chains[k], r.clusters)
    ensures t1.Bytes(k) == t0.Bytes(k)
  {
    hide Tables.Ok, ChainEffect, Tables.Free;
    ChainFacts(r, t0, k);
    if isDirectory {
      StartFrame(r, t0, x, k);
      OtherChainUntouched(r, t0.Started(x), t1, x, 0, ZERO_DIRENT, k);
    }
  }

  lemma AllocatedKeepsRoot(r: Regions, t0: Tables, t1: Tables, isDirectory: bool, x: nat)
    requires t0.Ok(r) && 0 < r.clusterSize && Allocated(r, t0, t1, isDirectory, x)
    ensures t1.view.root == t0.view.root
  {
    hide Tables.Ok;
  }

  lemma AllocatedKeys(r: Regions, t0: Tables, t1: Tables, isDirectory: bool, x: nat)
    requires t0.Ok(r) && 0 < r.clusterSize && Allocated(r, t0, t1, isDirectory, x)
    ensures t1.Ok(r) && |t1.view.data| == r.clusters
    ensures t1.chains.Keys == t0.chains.Keys + if isDirectory then {x} else {}
    ensures isDirectory ==> x !in t0.chains && 2 <= x < BAD_CLUSTER
  {
    hide Tables.Ok, ChainEffect, Tables.Free;
    if isDirectory {
      StartFrame(r, t0, x, x);
      EffectKeepsKeys(r, t0.Started(x), t1, x, 0, ZERO_DIRENT);
      NoChainAtZero(r, t0.Started(x), x);
    }
    SameData(r, t0, t1);
  }

  lemma AllocatedKeepsDirent(r: Regions, t0: Tables, t1: Tables, isDirectory: bool, x: nat, ino: Inode)
    requires t0.Ok(r) && 0 < r.clusterSize && Allocated(r, t0, t1, isDirectory, x)
    requires HasDirent(t0, ino)
    ensures HasDirent(t1, ino) && Dirent(t1, ino) == Dirent(t0, ino)
  {
    hide Tables.Ok, Allocated;
    AllocatedKeepsRoot(r, t0, t1, isDirectory, x);
    if ino.parent != PARENT_IS_ROOT_DIR {
      AllocatedKeeps(r, t0, t1, isDirectory, x, ino.parent);
    }
  }

  /** The new directory lists as empty. */
  lemma AllocatedListsEmpty(r: Regions, t0: Tables, t1: Tables, x: nat)
    requires t0.Ok(r) && 0 < r.clusterSize && Allocated(r, t0, t1, true, x)
    ensures x in t1.chains && Inside(t1.chains[x], |t1.view.data|)
    ensures ListingOf(t1, x) == Names([], 0, [])
    ensures DIRENT <= |t1.Bytes(x)|
  {
    hide Tables.Ok, ChainEffect, Tables.Free;
    StartFrame(r, t0, x, x);
    NoChainAtZero(r, t0.Started(x), x);
    WrittenChainBytes(r, t0.Started(x), t1, x, 0, ZERO_DIRENT);
    assert DirEntries(t1, x)[0] == ZERO_DIRENT;
  }

  // --- The second step: the entries behind those of the parent directory ---

  /**
    `es` is written from entry `at` on of the directory `dir`: into the root, or, after the
    directory's own entry `own` is replaced by `e`, into its chain.
   */
  ghost predicate Appended(r: Regions, t1: Tables, t2: Tables, t3: Tables, dir: nat, own: Inode, e: DirentBytes,
                           at: nat, es: seq<DirentBytes>)
    requires t1.Ok(r) && 0 < r.clusterSize
  {
    if dir == PARENT_IS_ROOT_DIR then
      && t2 == t1
      && DIRENT * at + DIRENT * |es| < |t1.view.root|
      && t3 == t1.(view := t1.view.(root := Splice(t1.view.root, DIRENT * at, Flatten(es))))
    else
      && HasDirent(t1, own) && dir in t1.chains && own.parent != dir
      && DirentWritten(r, t1, t2, own, e)
      && t2.Ok(r) && dir in t2.chains
      && ChainWritten(r, t2, t3, dir, DIRENT * at, Flatten(es))
  }

  lemma AppendedKeys(r: Regions, t1: Tables, t2: Tables, t3: Tables, dir: nat, own: Inode, e: DirentBytes,
                     at: nat, es: seq<DirentBytes>)
    requires t1.Ok(r) && 0 < r.clusterSize && Appended(r, t1, t2, t3, dir, own, e, at, es)
    ensures t3.Ok(r) && t3.chains.Keys == t1.chains.Keys && |t1.view.data| == |t3.view.data| == r.clusters
    ensures dir != PARENT_IS_ROOT_DIR && own.parent != PARENT_IS_ROOT_DIR ==> t3.view.root == t1.view.root
  {
    if dir != PARENT_IS_ROOT_DIR {
      hide Tables.Ok;
      DirentWriteKeepsKeys(r, t1, t2, own, e);
      EffectKeepsKeys(r, t2, t3, dir, DIRENT * at, Flatten(es));
    }
    SameData(r, t1, t3);
  }

  /** A chain that is neither the directory's nor holds the directory's own entry is untouched. */
  lemma AppendedKeeps(r: Regions, t1: Tables, t2: Tables, t3: Tables, dir: nat, own: Inode, e: DirentBytes,
                      at: nat, es: seq<DirentBytes>, k: nat)
    requires t1.Ok(r) && 0 < r.clusterSize && Appended(r, t1, t2, t3, dir, own, e, at, es)
    requires k in t1.chains && k != dir && (dir != PARENT_IS_ROOT_DIR ==> k != own.parent)
    ensures k in t3.chains && t3.chains[k] == t1.chains[k]
    ensures |t1.view.data| == |t3.view.data| == r.clusters && Inside(t1.chains[k], r.clusters)
    ensures t3.Bytes(k) == t1.Bytes(k)
  {
    hide Tables.Ok, ChainEffect;
    ChainFacts(r, t1, k);
    if dir != PARENT_IS_ROOT_DIR {
      DirentWriteKeepsChain(r, t1, t2, own, e, k);
      OtherChainUntouched(r, t2, t3, dir, DIRENT * at, Flatten(es), k);
    }
  }

  /** Other entries read as before; the directory's own is the new one. */
  lemma AppendedKeepsDirent(r: Regions, t1: Tables, t2: Tables, t3: Tables, dir: nat, own: Inode, e: DirentBytes,
                            at: nat, es: seq<DirentBytes>, ino: Inode)
    requires t1.Ok(r) && 0 < r.clusterSize && Appended(r, t1, t2, t3, dir, own, e, at, es)
    requires HasDirent(t1, ino) && (ino.parent == dir ==> ino.index < at)
    ensures HasDirent(t3, ino)
    ensures Dirent(t3, ino) == if dir != PARENT_IS_ROOT_DIR && ino == own then e else Dirent(t1, ino)
  {
    hide Tables.Ok, ChainEffect, Flatten;
    if dir == PARENT_IS_ROOT_DIR {
    } else {
      DirentFrame(r, t1, t2, own, e, ino);
      if ino.parent == dir {
        WrittenChainBytes(r, t2, t3, dir, DIRENT * at, Flatten(es));
        EntryBefore(t2.Bytes(dir), t3.Bytes(dir), ino.index, at);
      } else {
        ChainWriteKeepsDirent(r, t2, t3, dir, DIRENT * at, Flatten(es), ino);
      }
    }
  }

  lemma EntryBefore(bytes: seq<byte>, bytes': seq<byte>, i: nat, at: nat)
    requires i < at && DIRENT * i + DIRENT <= |bytes| <= |bytes'|
    requires forall j :: 0 <= j < |bytes| && j < DIRENT * at ==> bytes'[j] == bytes[j]
    ensures bytes'[DIRENT * i..DIRENT * i + DIRENT] == bytes[DIRENT * i..DIRENT * i + DIRENT]
  {
  }

  /** The directory's bytes: the old ones up to entry `at`, then the new entries. */
  lemma AppendedBytes(r: Regions, t1: Tables, t2: Tables, t3: Tables, dir: nat, own: Inode, e: DirentBytes,
                      at: nat, es: seq<DirentBytes>)
    requires t1.Ok(r) && 0 < r.clusterSize && Appended(r, t1, t2, t3, dir, own, e, at, es) && es != []
    requires dir != PARENT_IS_ROOT_DIR ==> dir in t1.chains && Inside(t1.chains[dir], r.clusters)
    requires |t1.view.data| == |t3.view.data| == r.clusters
    requires DIRENT * at <= |DirBytes(t1, dir)|
    ensures dir != PARENT_IS_ROOT_DIR ==> dir in t3.chains && Inside(t3.chains[dir], r.clusters)
    ensures DIRENT * at + DIRENT * |es| <= |DirBytes(t3, dir)|
    ensures dir == PARENT_IS_ROOT_DIR ==> DIRENT * at + DIRENT * |es| < |t3.view.root|
    ensures DirBytes(t3, dir)[..DIRENT * at] == DirBytes(t1, dir)[..DIRENT * at]
    ensures DirBytes(t3, dir)[DIRENT * at..DIRENT * at + DIRENT * |es|] == Flatten(es)
  {
    hide Tables.Ok, ChainEffect, Flatten, Content, DirentWritten, ChainWritten, Splice, Appended;
    AppendedParts(r, t1, t2, t3, dir, own, e, at, es);
    if dir == PARENT_IS_ROOT_DIR {
      SplicedBytes(t1.view.root, DIRENT * at, Flatten(es), t3.view.root);
    } else {
      DirentWriteKeepsChain(r, t1, t2, own, e, dir);
      WrittenAfter(r, t2, t3, dir, DIRENT * at, Flatten(es));
    }
  }

  lemma AppendedParts(r: Regions, t1: Tables, t2: Tables, t3: Tables, dir: nat, own: Inode, e: DirentBytes,
                      at: nat, es: seq<DirentBytes>)
    requires t1.Ok(r) && 0 < r.clusterSize && Appended(r, t1, t2, t3, dir, own, e, at, es)
    ensures dir == PARENT_IS_ROOT_DIR ==>
              && DIRENT * at + DIRENT * |es| < |t1.view.root|
              && t3.view.root == Splice(t1.view.root, DIRENT * at, Flatten(es))
    ensures dir != PARENT_IS_ROOT_DIR ==>
              && HasDirent(t1, own) && dir in t1.chains && own.parent != dir && DirentWritten(r, t1, t2, own, e)
              && t2.Ok(r) && dir in t2.chains && ChainWritten(r, t2, t3, dir, DIRENT * at, Flatten(es))
  {
    hide Tables.Ok, DirentWritten, ChainWritten, Flatten, Splice;
  }

  lemma SplicedBytes(s: seq<byte>, off: nat, b: seq<byte>, after: seq<byte>)
    requires off + |b| <= |s| && after == Splice(s, off, b)
    ensures |after| == |s| && after[..off] == s[..off] && after[off..off + |b|] == b
  {
    SpliceKeepsFront(s, off, b);
    SpliceReadBack(s, off, b);
  }

  lemma WrittenAfter(r: Regions, before: Tables, after: Tables, first: nat, off: nat, buf: seq<byte>)
    requires before.Ok(r) && 0 < r.clusterSize && first in before.chains
             && ChainWritten(r, before, after, first, off, buf)
    requires buf != [] && Inside(before.chains[first], |before.view.data|) && off <= |before.Bytes(first)|
    ensures first in after.chains && |after.view.data| == r.clusters && Inside(after.chains[first], r.clusters)
    ensures off + |buf| <= |after.Bytes(first)|
    ensures after.Bytes(first)[..off] == before.Bytes(first)[..off]
    ensures after.Bytes(first)[off..off + |buf|] == buf
  {
    hide Tables.Ok, ChainEffect, Content;
    WrittenChainBytes(r, before, after, first, off, buf);
    KeptFront(before.Bytes(first), after.Bytes(first), off);
  }

  lemma KeptFront(bytes: seq<byte>, bytes': seq<byte>, at: nat)
    requires at <= |bytes| <= |bytes'| && forall j :: 0 <= j < |bytes| && j < at ==> bytes'[j] == bytes[j]
    ensures bytes'[..at] == bytes[..at]
  {
  }

  /** Creating a file or directory appends its exact name to the listing of its directory. */
  lemma AppendedLists(r: Regions, t1: Tables, t2: Tables, t3: Tables, dir: nat, own: Inode, e: DirentBytes,
                      name: seq<byte>, checksum: byte, entry: DirentBytes)
    requires t1.Ok(r) && 0 < r.clusterSize
    requires dir != PARENT_IS_ROOT_DIR ==> dir in t1.chains && Inside(t1.chains[dir], |t1.view.data|)
    requires IsName(name) && IsOrdinary(entry) && LfnCount(name) < 64
    requires ListingOf(t1, dir).Names? && ListingOf(t1, dir).leftover == []
    requires Appended(r, t1, t2, t3, dir, own, e, ListingOf(t1, dir).end, EntriesFor(name, checksum, entry))
    ensures dir != PARENT_IS_ROOT_DIR ==> dir in t3.chains && Inside(t3.chains[dir], |t3.view.data|)
    ensures var l := ListingOf(t1, dir);
            ListingOf(t3, dir)
            == Names(l.entries + [Listed(name, l.end + LfnCount(name))], l.end + LfnCount(name) + 1, [])
  {
    hide Tables.Ok, Appended, List, EntriesFor, LfnCount, EntriesOf, Flatten;
    var end, es := ListingOf(t1, dir).end, EntriesFor(name, checksum, entry);
    ListEndsLater(DirEntries(t1, dir), 0, []);
    AppendedKeys(r, t1, t2, t3, dir, own, e, end, es);
    EntriesForLength(name, checksum, entry);
    AppendedBytes(r, t1, t2, t3, dir, own, e, end, es);
    SlotsHold(t3, dir, end + |es|);
    EntriesAfterWrite(DirBytes(t1, dir), DirBytes(t3, dir), Slots(t1, dir), Slots(t3, dir), end, es);
    ListAfterCreate(DirEntries(t1, dir), DirEntries(t3, dir), name, checksum, entry);
  }

  lemma EntriesForLength(name: seq<byte>, checksum: byte, e: DirentBytes)
    requires LfnCount(name) < 64
    ensures |EntriesFor(name, checksum, e)| == LfnCount(name) + 2
  {
  }

  lemma SlotsHold(t: Tables, dir: nat, n: nat)
    requires dir != PARENT_IS_ROOT_DIR ==> dir in t.chains && Inside(t.chains[dir], |t.view.data|)
    requires DIRENT * n <= |DirBytes(t, dir)| && (dir == PARENT_IS_ROOT_DIR ==> DIRENT * n < |t.view.root|)
    ensures n <= Slots(t, dir)
  {
  }

  /** Every other directory keeps its entries, though that of the parent itself is rewritten. */
  lemma AppendedResembles(r: Regions, t1: Tables, t2: Tables, t3: Tables, dir: nat, own: Inode, e: DirentBytes,
                          at: nat, es: seq<DirentBytes>, other: nat)
    requires t1.Ok(r) && 0 < r.clusterSize && Appended(r, t1, t2, t3, dir, own, e, at, es)
    requires other != dir && (other == PARENT_IS_ROOT_DIR || other in t1.chains)
    requires dir != PARENT_IS_ROOT_DIR ==> LooksTheSame(Dirent(t1, own), e)
    requires other != PARENT_IS_ROOT_DIR ==> Inside(t1.chains[other], |t1.view.data|)
    ensures Resembles(t1, t3, other)
  {
    hide Tables.Ok, ChainEffect, Resembles;
    AppendedKeys(r, t1, t2, t3, dir, own, e, at, es);
    if dir == PARENT_IS_ROOT_DIR || other != own.parent {
      if other == PARENT_IS_ROOT_DIR {
      } else {
        AppendedKeeps(r, t1, t2, t3, dir, own, e, at, es, other);
      }
      GrownResembles(t1, t3, other);
    } else {
      DirentWriteGrows(r, t1, t2, own, e);
      DirentWriteResembles(r, t1, t2, own, e);
      ChainWriteResembles(r, t2, t3, dir, DIRENT * at, Flatten(es), other);
      ResemblesTwice(t1, t2, t3, other);
    }
  }

  lemma ResemblesTwice(t1: Tables, t2: Tables, t3: Tables, dir: nat)
    requires Resembles(t1, t2, dir) && Resembles(t2, t3, dir)
    ensures Resembles(t1, t3, dir)
  {
    hide DirEntries;
    forall k | 0 <= k < |DirEntries(t1, dir)|
      ensures LooksTheSame(DirEntries(t1, dir)[k], DirEntries(t3, dir)[k])
    {
      assert LooksTheSame(DirEntries(t1, dir)[k], DirEntries(t2, dir)[k]);
      assert LooksTheSame(DirEntries(t2, dir)[k], DirEntries(t3, dir)[k]);
      SameFront(DirEntries(t1, dir)[k], DirEntries(t2, dir)[k]);
    }
  }

  /** Writing another chain changes no entry of the directory. */
  lemma ChainWriteResembles(r: Regions, t: Tables, t': Tables, first: nat, off: nat, buf: seq<byte>, dir: nat)
    requires t.Ok(r) && 0 < r.clusterSize && first in t.chains && ChainWritten(r, t, t', first, off, buf)
    requires dir != first && (dir == PARENT_IS_ROOT_DIR || dir in t.chains)
    ensures Resembles(t, t', dir)
  {
    hide Tables.Ok, ChainEffect, Resembles;
    if dir == PARENT_IS_ROOT_DIR {
      RootUntouched(r, t, t', first, off, buf);
    } else {
      OtherChainUntouched(r, t, t', first, off, buf, dir);
    }
    GrownResembles(t, t', dir);
  }

  /** Rewriting cluster and size of an entry does not change how its directory looks. */
  lemma DirentWriteResembles(r: Regions, t: Tables, t': Tables, ino: Inode, e: DirentBytes)
    requires t.Ok(r) && 0 < r.clusterSize && HasDirent(t, ino) && DirentWritten(r, t, t', ino, e)
    requires LooksTheSame(Dirent(t, ino), e)
    ensures Resembles(t, t', ino.parent)
  {
    hide Tables.Ok, ChainEffect, DirentWritten;
    DirentWriteGrows(r, t, t', ino, e);
    var d := ino.parent;
    SlotsGrow(t, t', d);
    forall k | 0 <= k < Slots(t, d)
      ensures LooksTheSame(DirEntries(t, d)[k], DirEntries(t', d)[k])
    {
      DirentFrame(r, t, t', ino, e, Inode(d, k));
    }
  }

  lemma DirentWriteGrows(r: Regions, before: Tables, after: Tables, ino: Inode, e: DirentBytes)
    requires before.Ok(r) && 0 < r.clusterSize && HasDirent(before, ino) && DirentWritten(r, before, after, ino, e)
    ensures ino.parent != PARENT_IS_ROOT_DIR ==>
              ino.parent in after.chains && Inside(after.chains[ino.parent], |after.view.data|)
    ensures |DirBytes(before, ino.parent)| <= |DirBytes(after, ino.parent)|
    ensures ino.parent == PARENT_IS_ROOT_DIR ==> |after.view.root| == |before.view.root|
  {
    hide Tables.Ok, ChainEffect;
    if ino.parent != PARENT_IS_ROOT_DIR {
      WrittenChainBytes(r, before, after, ino.parent, DIRENT * ino.index, e);
    }
  }

  // --- The whole of `create_inode` ---

  /** A directory of the file system. */
  ghost predicate IsDir(fs: Fs, dir: nat) {
    dir == PARENT_IS_ROOT_DIR || (dir in fs.dirs && dir in fs.t.chains && Inside(fs.t.chains[dir], |fs.t.view.data|))
  }

  /**
    The directory can be listed to its end, no entry before the end looks like the end, no
    long name is left over there, and no entry in use lies beyond it.
   */
  ghost predicate DirReady(fs: Fs, dir: nat) {
    && IsDir(fs, dir)
    && ListingOf(fs.t, dir).Names? && ListingOf(fs.t, dir).leftover == []
    && NoEarlyEnd(fs.t, dir)
    && forall ino :: ino in fs.nodes && ino.parent == dir ==> ino.index < ListingOf(fs.t, dir).end
  }

  datatype Creation = Creation(dir: nat, own: Inode, name: seq<byte>, shortName: seq<byte>, isDirectory: bool,
                               cluster: nat) {
    function Entry(): DirentBytes
      requires |shortName| == 11 && cluster < 0x10000
    {
      NewDirent(shortName, isDirectory, if isDirectory then cluster else 0, if isDirectory then DIRENT else 0)
    }

    ghost predicate Ok() {
      && IsName(name) && LfnCount(name) <= MAX_LFN_ENTRIES
      && |shortName| == 11 && shortName[0] != 0 && shortName[0] != DELETED
      && cluster < 0x10000
    }

    /** The inode of what is created. */
    ghost function Node(fs: Fs): Inode
      requires IsDir(fs, dir) && ListingOf(fs.t, dir).Names?
    {
      Inode(dir, ListingOf(fs.t, dir).end + LfnCount(name))
    }

    /** The parent directory's own entry, grown by what is added. */
    ghost function OwnEntry(e: DirentBytes): DirentBytes {
      var size := SizeOf(e) + DIRENT * (LfnCount(name) + 1);
      WithClusterAndSize(e, ClusterOf(e), if size <= UINT32_MAX then size else 0)
    }
  }

  /** The new entry of the parent directory itself; the root has none. */
  ghost function NewOwnEntry(fs: Fs, c: Creation): DirentBytes
    requires c.dir != PARENT_IS_ROOT_DIR ==> HasDirent(fs.t, c.own)
  {
    if c.dir == PARENT_IS_ROOT_DIR then ZERO_DIRENT else c.OwnEntry(fs.Entry(c.own))
  }

  ghost predicate CreateSteps(r: Regions, fs: Fs, c: Creation, checksum: byte, t1: Tables, t2: Tables, t3: Tables) {
    && fs.Ok(r) && c.Ok() && DirReady(fs, c.dir)
    && (c.dir != PARENT_IS_ROOT_DIR ==>
          c.own in fs.nodes && HasDirent(fs.t, c.own) && IsDirectory(fs.Entry(c.own)) && fs.Cluster(c.own) == c.dir)
    && Allocated(r, fs.t, t1, c.isDirectory, c.cluster)
    && t1.Ok(r)
    && Appended(r, t1, t2, t3, c.dir, c.own, NewOwnEntry(fs, c),
                ListingOf(fs.t, c.dir).end, EntriesFor(c.name, checksum, c.Entry()))
  }

  ghost function Created(fs: Fs, c: Creation, t3: Tables): Fs
    requires IsDir(fs, c.dir) && ListingOf(fs.t, c.dir).Names?
  {
    Fs(t3, fs.nodes + {c.Node(fs)}, fs.dirs + if c.isDirectory then {c.cluster} else {})
  }

  /** Entries in use after a creation. */
  lemma CreateKeepsDirent(r: Regions, fs: Fs, c: Creation, checksum: byte, t1: Tables, t2: Tables, t3: Tables,
                          ino: Inode)
    requires CreateSteps(r, fs, c, checksum, t1, t2, t3) && ino in fs.nodes
    ensures HasDirent(fs.t, ino) && HasDirent(t3, ino)
    ensures Dirent(t3, ino) == if c.dir != PARENT_IS_ROOT_DIR
            && ino == c.own then c.OwnEntry(fs.Entry(ino)) else fs.Entry(ino)
  {
    hide Tables.Ok, Appended, Allocated, EntriesFor, List, NoEarlyEnd;
    assert fs.NodeOk(ino);
    AllocatedKeepsDirent(r, fs.t, t1, c.isDirectory, c.cluster, ino);
    AppendedKeepsDirent(r, t1, t2, t3, c.dir, c.own, NewOwnEntry(fs, c),
                        ListingOf(fs.t, c.dir).end, EntriesFor(c.name, checksum, c.Entry()), ino);
  }

  /** The directory's state between the two steps is the old one. */
  lemma BetweenSteps(r: Regions, fs: Fs, t1: Tables, isDirectory: bool, x: nat, dir: nat)
    requires fs.t.Ok(r) && 0 < r.clusterSize && Allocated(r, fs.t, t1, isDirectory, x)
    requires IsDir(fs, dir)
    ensures dir != PARENT_IS_ROOT_DIR ==> dir in t1.chains && Inside(t1.chains[dir], |t1.view.data|)
    ensures DirEntries(t1, dir) == DirEntries(fs.t, dir) && DirBytes(t1, dir) == DirBytes(fs.t, dir)
  {
    hide Tables.Ok, Allocated;
    if dir == PARENT_IS_ROOT_DIR {
      AllocatedKeepsRoot(r, fs.t, t1, isDirectory, x);
    } else {
      AllocatedKeeps(r, fs.t, t1, isDirectory, x, dir);
    }
  }

  /** The full listing of the directory is the old one with the exact name appended. */
  lemma CreateLists(r: Regions, fs: Fs, c: Creation, checksum: byte, t1: Tables, t2: Tables, t3: Tables)
    requires CreateSteps(r, fs, c, checksum, t1, t2, t3)
    ensures c.dir != PARENT_IS_ROOT_DIR ==> c.dir in t3.chains && Inside(t3.chains[c.dir], |t3.view.data|)
    ensures var l := ListingOf(fs.t, c.dir);
            ListingOf(t3, c.dir)
            == Names(l.entries + [Listed(c.name, c.Node(fs).index)], l.end + LfnCount(c.name) + 1, [])
  {
    hide CreateSteps, Tables.Ok, Appended, Allocated, EntriesFor, List, LfnCount, IsName, NewOwnEntry, Creation.Entry;
    hide DirEntries, NoEarlyEnd, Fs.Ok;
    OfCreation(r, fs, c, checksum, t1, t2, t3);
    AppendsToOld(r, fs, c, checksum, t1, t2, t3);
    NewEntryIsOrdinary(c);
    AppendedLists(r, t1, t2, t3, c.dir, c.own, NewOwnEntry(fs, c), c.name, checksum, c.Entry());
  }

  /** The second step starts from the directory as it was. */
  lemma AppendsToOld(r: Regions, fs: Fs, c: Creation, checksum: byte, t1: Tables, t2: Tables, t3: Tables)
    requires CreateSteps(r, fs, c, checksum, t1, t2, t3)
    ensures c.dir != PARENT_IS_ROOT_DIR ==> c.dir in t1.chains && Inside(t1.chains[c.dir], |t1.view.data|)
    ensures ListingOf(t1, c.dir) == ListingOf(fs.t, c.dir) && DirBytes(t1, c.dir) == DirBytes(fs.t, c.dir)
    ensures t1.Ok(r) && 0 < r.clusterSize
    ensures Appended(r, t1, t2, t3, c.dir, c.own, NewOwnEntry(fs, c), ListingOf(fs.t, c.dir).end,
                     EntriesFor(c.name, checksum, c.Entry()))
  {
    hide Tables.Ok, Appended, Allocated, EntriesFor, List, NoEarlyEnd, LfnCount, IsName, NewOwnEntry, Creation.Entry;
    BetweenSteps(r, fs, t1, c.isDirectory, c.cluster, c.dir);
  }

  lemma NewEntryIsOrdinary(c: Creation)
    requires c.Ok()
    ensures IsOrdinary(c.Entry())
  {
  }

  /** The new entry is where the listing says. */
  lemma CreateAddsDirent(r: Regions, fs: Fs, c: Creation, checksum: byte, t1: Tables, t2: Tables, t3: Tables)
    requires CreateSteps(r, fs, c, checksum, t1, t2, t3)
    ensures HasDirent(t3, c.Node(fs)) && Dirent(t3, c.Node(fs)) == c.Entry()
  {
    hide CreateSteps, Tables.Ok, Allocated, EntriesFor, List, NoEarlyEnd, LfnCount, IsName, Creation.Entry,
      NewOwnEntry, Appended;
    hide EntriesOf, Flatten, Content, Fs.Ok;
    OfCreation(r, fs, c, checksum, t1, t2, t3);
    AppendsToOld(r, fs, c, checksum, t1, t2, t3);
    var end, es := ListingOf(fs.t, c.dir).end, EntriesFor(c.name, checksum, c.Entry());
    var e := NewOwnEntry(fs, c);
    ListEndsLater(DirEntries(fs.t, c.dir), 0, []);
    AppendedKeys(r, t1, t2, t3, c.dir, c.own, e, end, es);
    EntriesForLength(c.name, checksum, c.Entry());
    AppendedBytes(r, t1, t2, t3, c.dir, c.own, e, end, es);
    EntryWritten(DirBytes(t3, c.dir), end, es, LfnCount(c.name));
    EntryBehindName(c.name, checksum, c.Entry());
  }

  lemma EntryBehindName(name: seq<byte>, checksum: byte, e: DirentBytes)
    requires LfnCount(name) < 64
    ensures EntriesFor(name, checksum, e)[LfnCount(name)] == e
  {
  }

  /** Chains after a creation. */
  lemma CreateKeepsChain(r: Regions, fs: Fs, c: Creation, checksum: byte, t1: Tables, t2: Tables, t3: Tables, k: nat)
    requires CreateSteps(r, fs, c, checksum, t1, t2, t3)
    requires k in fs.t.chains && k !in fs.dirs
    ensures k in t3.chains && t3.chains[k] == fs.t.chains[k] && (c.isDirectory ==> k != c.cluster)
    ensures |fs.t.view.data| == |t3.view.data| == r.clusters && Inside(fs.t.chains[k], r.clusters)
    ensures t3.Bytes(k) == fs.t.Bytes(k)
  {
    hide Tables.Ok, Appended, Allocated, EntriesFor, List, NoEarlyEnd, Creation.OwnEntry, Creation.Entry;
    AllocatedKeeps(r, fs.t, t1, c.isDirectory, c.cluster, k);
    NoChainAtZero(r, fs.t, k);
    if c.dir != PARENT_IS_ROOT_DIR {
      assert fs.NodeOk(c.own);
    }
    AppendedKeeps(r, t1, t2, t3, c.dir, c.own, NewOwnEntry(fs, c),
                  ListingOf(fs.t, c.dir).end, EntriesFor(c.name, checksum, c.Entry()), k);
  }

  lemma CreateKeys(r: Regions, fs: Fs, c: Creation, checksum: byte, t1: Tables, t2: Tables, t3: Tables)
    requires CreateSteps(r, fs, c, checksum, t1, t2, t3)
    ensures t3.Ok(r) && t3.chains.Keys == fs.t.chains.Keys + if c.isDirectory then {c.cluster} else {}
    ensures |fs.t.view.data| == |t3.view.data| == r.clusters
    ensures c.isDirectory ==> c.cluster !in fs.t.chains && 2 <= c.cluster < BAD_CLUSTER
  {
    hide Tables.Ok, Appended, Allocated, EntriesFor, List, NoEarlyEnd, Creation.OwnEntry, Creation.Entry;
    AllocatedKeys(r, fs.t, t1, c.isDirectory, c.cluster);
    AppendedKeys(r, t1, t2, t3, c.dir, c.own, NewOwnEntry(fs, c),
                 ListingOf(fs.t, c.dir).end, EntriesFor(c.name, checksum, c.Entry()));
    SameData(r, fs.t, t3);
  }

  /** Every file keeps its bytes. */
  lemma CreateKeepsFile(r: Regions, fs: Fs, c: Creation, checksum: byte, t1: Tables, t2: Tables, t3: Tables,
                        other: Inode)
    requires CreateSteps(r, fs, c, checksum, t1, t2, t3)
    requires other in fs.nodes
    ensures SameFile(fs, Created(fs, c, t3), other)
  {
    hide CreateSteps, Fs.Ok, List, Creation.OwnEntry, SizeInside, FileBytes, NoEarlyEnd;
    OfCreation(r, fs, c, checksum, t1, t2, t3);
    CreateKeepsDirent(r, fs, c, checksum, t1, t2, t3, other);
    if fs.IsFile(other) {
      FileOnOwnChain(r, fs, other);
      if !IsInvalidCluster(fs.Cluster(other)) {
        CreateKeepsChain(r, fs, c, checksum, t1, t2, t3, fs.Cluster(other));
      }
      OnSameChain(fs, Created(fs, c, t3), other);
    }
  }

  lemma FileOnOwnChain(r: Regions, fs: Fs, ino: Inode)
    requires fs.Ok(r) && fs.IsFile(ino)
    ensures !IsInvalidCluster(fs.Cluster(ino)) ==> fs.Cluster(ino) in fs.t.chains && fs.Cluster(ino) !in fs.dirs
  {
    hide Tables.Ok, Fs.OneOwner, Fs.AllOwned;
    assert fs.NodeOk(ino);
  }

  /** A file with the same entry and the same bytes in its chain. */
  lemma OnSameChain(before: Fs, after: Fs, ino: Inode)
    requires before.IsFile(ino) && ino in after.nodes && SameEntry(before, after, ino)
    requires var k := before.Cluster(ino);
             IsInvalidCluster(k) ||
             (k in before.t.chains && k in after.t.chains && after.t.chains[k] == before.t.chains[k]
              && |after.t.view.data| == |before.t.view.data| && Inside(before.t.chains[k], |before.t.view.data|)
              && after.t.Bytes(k) == before.t.Bytes(k))
    ensures SameFile(before, after, ino)
  {
    hide Content, Dirent;
  }

  /** What is created, and where, is sound. */
  lemma OfCreation(r: Regions, fs: Fs, c: Creation, checksum: byte, t1: Tables, t2: Tables, t3: Tables)
    requires CreateSteps(r, fs, c, checksum, t1, t2, t3)
    ensures fs.Ok(r) && c.Ok() && DirReady(fs, c.dir)
    ensures c.dir != PARENT_IS_ROOT_DIR ==>
              c.own in fs.nodes && HasDirent(fs.t, c.own) && IsDirectory(fs.Entry(c.own)) && fs.Cluster(c.own) == c.dir
    ensures Allocated(r, fs.t, t1, c.isDirectory, c.cluster) && t1.Ok(r)
  {
  }

  /** Every other directory keeps its entries. */
  lemma CreateResembles(r: Regions, fs: Fs, c: Creation, checksum: byte, t1: Tables, t2: Tables, t3: Tables, other: nat)
    requires CreateSteps(r, fs, c, checksum, t1, t2, t3)
    requires other != c.dir && IsDir(fs, other)
    ensures Resembles(fs.t, t3, other)
  {
    hide CreateSteps, Tables.Ok, Appended, Allocated, EntriesFor, List, NoEarlyEnd, Creation.Entry, NewOwnEntry,
      DirEntries, Resembles;
    OfCreation(r, fs, c, checksum, t1, t2, t3);
    AppendsToOld(r, fs, c, checksum, t1, t2, t3);
    BetweenSteps(r, fs, t1, c.isDirectory, c.cluster, other);
    OwnEntryLooksTheSame(r, fs, c, t1);
    GrownResembles(fs.t, t1, other);
    AppendedResembles(r, t1, t2, t3, c.dir, c.own, NewOwnEntry(fs, c), ListingOf(fs.t, c.dir).end,
                      EntriesFor(c.name, checksum, c.Entry()), other);
    ResemblesTwice(fs.t, t1, t3, other);
  }

  lemma OwnEntryLooksTheSame(r: Regions, fs: Fs, c: Creation, t1: Tables)
    requires fs.Ok(r) && Allocated(r, fs.t, t1, c.isDirectory, c.cluster)
    requires c.dir != PARENT_IS_ROOT_DIR ==> c.own in fs.nodes
    ensures c.dir != PARENT_IS_ROOT_DIR ==>
              HasDirent(fs.t, c.own) && HasDirent(t1, c.own) && LooksTheSame(Dirent(t1, c.own), NewOwnEntry(fs, c))
  {
    hide Tables.Ok, Allocated, Dirent;
    if c.dir != PARENT_IS_ROOT_DIR {
      assert fs.NodeOk(c.own);
      AllocatedKeepsDirent(r, fs.t, t1, c.isDirectory, c.cluster, c.own);
    }
  }

  /** A creation keeps the file system well-formed. */
  lemma CreateKeepsOk(r: Regions, fs: Fs, c: Creation, checksum: byte, t1: Tables, t2: Tables, t3: Tables)
    requires CreateSteps(r, fs, c, checksum, t1, t2, t3)
    ensures Created(fs, c, t3).Ok(r)
  {
    hide CreateSteps, Tables.Ok, List, Creation.OwnEntry, Creation.Entry, LfnCount, IsName, NoEarlyEnd, Allocated;
    hide EntriesOf, Slots, Content, Dirent, ListingOf;
    OfCreation(r, fs, c, checksum, t1, t2, t3);
    CreateKeys(r, fs, c, checksum, t1, t2, t3);
    var fs' := Created(fs, c, t3);
    forall other | other in fs'.nodes
      ensures fs'.NodeOk(other)
      ensures fs'.Cluster(other) == CreatedCluster(fs, c, other)
      ensures other in fs.nodes ==> HasDirent(fs.t, other)
    {
      CreateNodeOk(r, fs, c, checksum, t1, t2, t3, other);
    }
    assert c.Node(fs) !in fs.nodes;
    assert fs'.OneOwner() by {
      forall a, b | a in fs'.nodes && b in fs'.nodes && a != b && CreatedCluster(fs, c, a) == CreatedCluster(fs, c, b)
        ensures IsInvalidCluster(CreatedCluster(fs, c, a))
      {
        ClustersDiffer(r, fs, c, a, b);
      }
    }
    forall k | k in t3.chains
      ensures fs'.Owned(k)
    {
      if k in fs.t.chains {
        assert fs.Owned(k);
        var a :| a in fs.nodes && fs.Cluster(a) == k;
        assert a in fs'.nodes && fs'.Cluster(a) == k;
      } else {
        assert c.Node(fs) in fs'.nodes && fs'.Cluster(c.Node(fs)) == k;
      }
    }
  }

  /** First clusters after a creation. */
  ghost function CreatedCluster(fs: Fs, c: Creation, ino: Inode): nat
    requires IsDir(fs, c.dir) && ListingOf(fs.t, c.dir).Names?
    requires ino == c.Node(fs) || HasDirent(fs.t, ino)
  {
    if ino == c.Node(fs) then (if c.isDirectory then c.cluster else 0) else fs.Cluster(ino)
  }

  lemma ClustersDiffer(r: Regions, fs: Fs, c: Creation, a: Inode, b: Inode)
    requires fs.Ok(r) && DirReady(fs, c.dir)
    requires c.isDirectory ==> c.cluster !in fs.t.chains && 2 <= c.cluster < BAD_CLUSTER
    requires a in fs.nodes || a == c.Node(fs)
    requires b in fs.nodes || b == c.Node(fs)
    requires a != b && (a != c.Node(fs) ==> HasDirent(fs.t, a)) && (b != c.Node(fs) ==> HasDirent(fs.t, b))
    requires CreatedCluster(fs, c, a) == CreatedCluster(fs, c, b)
    ensures IsInvalidCluster(CreatedCluster(fs, c, a))
  {
    hide Tables.Ok, List, LfnCount;
    if a in fs.nodes {
      assert fs.NodeOk(a);
    }
    if b in fs.nodes {
      assert fs.NodeOk(b);
    }
  }

  lemma CreateNodeOk(r: Regions, fs: Fs, c: Creation, checksum: byte, t1: Tables, t2: Tables, t3: Tables, ino: Inode)
    requires CreateSteps(r, fs, c, checksum, t1, t2, t3)
    requires ino in fs.nodes || ino == c.Node(fs)
    ensures Created(fs, c, t3).NodeOk(ino)
    ensures ino in fs.nodes ==> HasDirent(fs.t, ino)
    ensures ino == c.Node(fs) || HasDirent(fs.t, ino)
    ensures ClusterOf(Dirent(t3, ino)) == CreatedCluster(fs, c, ino)
  {
    hide CreateSteps, Tables.Ok, List, LfnCount, IsName, NoEarlyEnd, Allocated, Fs.OneOwner, Fs.AllOwned;
    OfCreation(r, fs, c, checksum, t1, t2, t3);
    CreateKeys(r, fs, c, checksum, t1, t2, t3);
    if ino in fs.nodes {
      assert fs.NodeOk(ino);
      CreateKeepsDirent(r, fs, c, checksum, t1, t2, t3, ino);
    } else {
      CreateAddsDirent(r, fs, c, checksum, t1, t2, t3);
      if c.isDirectory && c.dir != PARENT_IS_ROOT_DIR {
        assert c.dir in fs.t.chains;
      }
    }
  }

  // --- The result ---

  /** A directory's recorded size covers its entries and the end behind them (`create_inode` relies on it). */
  ghost predicate SizeMatches(fs: Fs, own: Inode) {
    && HasDirent(fs.t, own) && fs.Cluster(own) != PARENT_IS_ROOT_DIR && IsDir(fs, fs.Cluster(own))
    && ListingOf(fs.t, fs.Cluster(own)).Names?
    && SizeOf(fs.Entry(own)) == DIRENT * (ListingOf(fs.t, fs.Cluster(own)).end + 1)
  }

  /**
    What a completed `create_inode` amounts to: the file system stays well-formed; the
    directory's full listing is the old one with the exact name appended, and is ready for
    the next creation; a new directory takes a cluster no chain had, lists as empty and is
    ready too; every old entry stays as it was, except that the parent directory's own
    records the new size; every other directory's listing and every file stays as it was.
   */
  ghost predicate InodeCreated(r: Regions, before: Fs, after: Fs, c: Creation)
    requires c.Ok() && DirReady(before, c.dir)
  {
    && after == Created(before, c, after.t) && after.Ok(r)
    && c.Node(before) !in before.nodes
    && HasDirent(after.t, c.Node(before)) && after.Entry(c.Node(before)) == c.Entry()
    && DirReady(after, c.dir)
    && ListingOf(after.t, c.dir).entries == ListingOf(before.t, c.dir).entries + [Listed(c.name, c.Node(before).index)]
    && (c.dir != PARENT_IS_ROOT_DIR && SizeMatches(before, c.own) ==> SizeMatches(after, c.own))
    && (c.isDirectory ==> DirectoryCreated(before, after, c))
    && (forall ino :: ino in before.nodes ==> EntryKept(before, after, c, ino) && SameFile(before, after, ino))
    && (forall d :: IsDir(before, d) && d != c.dir ==> Resembles(before.t, after.t, d))
  }

  ghost predicate DirectoryCreated(before: Fs, after: Fs, c: Creation)
    requires DirReady(before, c.dir)
  {
    && c.cluster !in before.t.chains && c.cluster != PARENT_IS_ROOT_DIR && c.cluster != c.dir
    && DirReady(after, c.cluster) && SizeMatches(after, c.Node(before)) && ListingOf(after.t, c.cluster).entries == []
  }

  /** An old entry after a creation: that of the parent directory has grown, every other is the same. */
  ghost predicate EntryKept(before: Fs, after: Fs, c: Creation, ino: Inode) {
    && HasDirent(before.t, ino) && HasDirent(after.t, ino)
    && after.Entry(ino) == if c.dir != PARENT_IS_ROOT_DIR && ino == c.own then c.OwnEntry(before.Entry(ino))
                           else before.Entry(ino)
  }

  /** Other directories are as ready as before, whatever resembles. */
  lemma ResemblingReady(before: Fs, after: Fs, dir: nat)
    requires Resembles(before.t, after.t, dir) && DirReady(before, dir)
    requires before.dirs <= after.dirs
    requires forall ino :: ino in after.nodes && ino.parent == dir ==> ino in before.nodes
    ensures DirReady(after, dir) && ListingOf(after.t, dir) == ListingOf(before.t, dir)
  {
    hide Resembles, NoEarlyEnd;
    ResemblingLists(before.t, after.t, dir);
    ResemblesIsDir(before.t, after.t, dir);
  }

  lemma ResemblesIsDir(t: Tables, t': Tables, dir: nat)
    requires Resembles(t, t', dir)
    ensures dir != PARENT_IS_ROOT_DIR ==> dir in t'.chains && Inside(t'.chains[dir], |t'.view.data|)
  {
  }

  /** The directory itself is ready again. */
  lemma CreateReady(r: Regions, fs: Fs, c: Creation, checksum: byte, t1: Tables, t2: Tables, t3: Tables)
    requires CreateSteps(r, fs, c, checksum, t1, t2, t3)
    ensures DirReady(Created(fs, c, t3), c.dir)
  {
    hide CreateSteps, Tables.Ok, List, LfnCount, IsName, Allocated, Fs.Ok, EntriesFor, NoEarlyEnd, NameEntry;
    OfCreation(r, fs, c, checksum, t1, t2, t3);
    CreateLists(r, fs, c, checksum, t1, t2, t3);
    CreateNoEarlyEnd(r, fs, c, checksum, t1, t2, t3);
  }

  lemma CreateNoEarlyEnd(r: Regions, fs: Fs, c: Creation, checksum: byte, t1: Tables, t2: Tables, t3: Tables)
    requires CreateSteps(r, fs, c, checksum, t1, t2, t3)
    ensures c.dir != PARENT_IS_ROOT_DIR ==> c.dir in t3.chains && Inside(t3.chains[c.dir], |t3.view.data|)
    ensures ListingOf(t3, c.dir).Names? && NoEarlyEnd(t3, c.dir)
  {
    hide CreateSteps, Tables.Ok, List, LfnCount, IsName, Allocated, Fs.Ok, EntriesFor, Appended, NewOwnEntry,
      Creation.Entry, EntriesOf, Flatten, Content, Slots, NoEarlyEnd;
    OfCreation(r, fs, c, checksum, t1, t2, t3);
    CreateLists(r, fs, c, checksum, t1, t2, t3);
    ListEndsLater(DirEntries(t3, c.dir), 0, []);
    CreatedEntries(r, fs, c, checksum, t1, t2, t3);
    NoEndBefore(fs, c, checksum, t3);
  }

  /** The entries of the directory: the old ones up to its end, then the new ones. */
  lemma CreatedEntries(r: Regions, fs: Fs, c: Creation, checksum: byte, t1: Tables, t2: Tables, t3: Tables)
    requires CreateSteps(r, fs, c, checksum, t1, t2, t3)
    requires c.dir != PARENT_IS_ROOT_DIR ==> c.dir in t3.chains && Inside(t3.chains[c.dir], |t3.view.data|)
    requires ListingOf(t3, c.dir).Names?
             && ListingOf(t3, c.dir).end == ListingOf(fs.t, c.dir).end + LfnCount(c.name) + 1 < |DirEntries(t3, c.dir)|
    ensures AppendedAt(DirEntries(fs.t, c.dir), DirEntries(t3, c.dir), ListingOf(fs.t, c.dir).end,
                       EntriesFor(c.name, checksum, c.Entry()))
  {
    hide CreateSteps, Tables.Ok, List, LfnCount, IsName, Allocated, Fs.Ok, EntriesFor, Appended, NewOwnEntry,
      Creation.Entry, EntriesOf, Flatten, Content, Slots, NoEarlyEnd;
    OfCreation(r, fs, c, checksum, t1, t2, t3);
    AppendsToOld(r, fs, c, checksum, t1, t2, t3);
    var end, es := ListingOf(fs.t, c.dir).end, EntriesFor(c.name, checksum, c.Entry());
    AppendedKeys(r, t1, t2, t3, c.dir, c.own, NewOwnEntry(fs, c), end, es);
    EntriesForLength(c.name, checksum, c.Entry());
    ListEndsLater(DirEntries(fs.t, c.dir), 0, []);
    AppendedBytes(r, t1, t2, t3, c.dir, c.own, NewOwnEntry(fs, c), end, es);
    EntriesAfterWrite(DirBytes(fs.t, c.dir), DirBytes(t3, c.dir), Slots(fs.t, c.dir), Slots(t3, c.dir), end, es);
  }

  ghost predicate AppendedAt(dir: seq<DirentBytes>, dir': seq<DirentBytes>, at: nat, es: seq<DirentBytes>) {
    at <= |dir| && at + |es| <= |dir'| && dir'[..at] == dir[..at] && dir'[at..at + |es|] == es
  }

  /** The directory's entries are the old ones up to its end, and behind them the new ones. */
  ghost predicate PutBehind(before: Fs, after: Tables, c: Creation, checksum: byte) {
    && c.Ok() && IsDir(before, c.dir) && ListingOf(before.t, c.dir).Names?
    && (c.dir != PARENT_IS_ROOT_DIR ==> c.dir in after.chains && Inside(after.chains[c.dir], |after.view.data|))
    && AppendedAt(DirEntries(before.t, c.dir), DirEntries(after, c.dir), ListingOf(before.t, c.dir).end,
                  EntriesFor(c.name, checksum, c.Entry()))
  }

  lemma StepsPutBehind(r: Regions, fs: Fs, c: Creation, checksum: byte, t1: Tables, t2: Tables, t3: Tables)
    requires CreateSteps(r, fs, c, checksum, t1, t2, t3)
    ensures PutBehind(fs, t3, c, checksum)
  {
    hide CreateSteps, Tables.Ok, List, Creation.Entry, EntriesFor, DirEntries, AppendedAt, NoEarlyEnd;
    OfCreation(r, fs, c, checksum, t1, t2, t3);
    CreateLists(r, fs, c, checksum, t1, t2, t3);
    ListEndsLater(DirEntries(t3, c.dir), 0, []);
    CreatedEntries(r, fs, c, checksum, t1, t2, t3);
  }

  lemma NoEndBefore(fs: Fs, c: Creation, checksum: byte, t3: Tables)
    requires c.Ok() && DirReady(fs, c.dir)
    requires c.dir != PARENT_IS_ROOT_DIR ==> c.dir in t3.chains && Inside(t3.chains[c.dir], |t3.view.data|)
    requires ListingOf(t3, c.dir).Names?
             && ListingOf(t3, c.dir).end == ListingOf(fs.t, c.dir).end + LfnCount(c.name) + 1 < |DirEntries(t3, c.dir)|
    requires AppendedAt(DirEntries(fs.t, c.dir), DirEntries(t3, c.dir), ListingOf(fs.t, c.dir).end,
                        EntriesFor(c.name, checksum, c.Entry()))
    ensures NoEarlyEnd(t3, c.dir)
  {
    hide List, LfnCount, IsName, EntriesFor, Creation.Entry, DirEntries;
    var end, es := ListingOf(fs.t, c.dir).end, EntriesFor(c.name, checksum, c.Entry());
    EntriesForLength(c.name, checksum, c.Entry());
    forall i | 0 <= i < ListingOf(t3, c.dir).end
      ensures DirEntries(t3, c.dir)[i][0] != 0
    {
      if i < end {
        assert DirEntries(t3, c.dir)[i] == DirEntries(t3, c.dir)[..end][i] == DirEntries(fs.t, c.dir)[i];
      } else {
        assert DirEntries(t3, c.dir)[i] == DirEntries(t3, c.dir)[end..end + |es|][i - end] == es[i - end];
        NotTheEnd(c, checksum, i - end);
      }
    }
  }

  lemma NotTheEnd(c: Creation, checksum: byte, s: nat)
    requires c.Ok() && s <= LfnCount(c.name)
    ensures EntriesFor(c.name, checksum, c.Entry())[s][0] != 0
  {
    NewEntryIsOrdinary(c);
    if s < LfnCount(c.name) {
      NameEntryFields(c.name, checksum, LfnCount(c.name), s);
    }
  }

  /** A new directory lists as empty, and is ready for creations in it. */
  lemma CreateNewDirectory(r: Regions, fs: Fs, c: Creation, checksum: byte, t1: Tables, t2: Tables, t3: Tables)
    requires CreateSteps(r, fs, c, checksum, t1, t2, t3) && c.isDirectory
    ensures DirReady(fs, c.dir) && DirectoryCreated(fs, Created(fs, c, t3), c)
  {
    hide CreateSteps, Tables.Ok, List, LfnCount, IsName, Fs.Ok, EntriesFor, Appended, NewOwnEntry, Allocated,
      NoEarlyEnd;
    hide EntriesOf, Flatten, Content, Resembles;
    OfCreation(r, fs, c, checksum, t1, t2, t3);
    CreateKeys(r, fs, c, checksum, t1, t2, t3);
    AllocatedKeys(r, fs.t, t1, true, c.cluster);
    AllocatedListsEmpty(r, fs.t, t1, c.cluster);
    AppendsToOld(r, fs, c, checksum, t1, t2, t3);
    NotYetInUse(r, fs, c);
    AppendedKeeps(r, t1, t2, t3, c.dir, c.own, NewOwnEntry(fs, c), ListingOf(fs.t, c.dir).end,
                  EntriesFor(c.name, checksum, c.Entry()), c.cluster);
    GrownResembles(t1, t3, c.cluster);
    ResemblingLists(t1, t3, c.cluster);
    EmptyHasNoEarlyEnd(t3, c.cluster);
    CreateAddsDirent(r, fs, c, checksum, t1, t2, t3);
    ResemblesIsDir(t1, t3, c.cluster);
  }

  lemma EmptyHasNoEarlyEnd(t: Tables, dir: nat)
    requires dir != PARENT_IS_ROOT_DIR ==> dir in t.chains && Inside(t.chains[dir], |t.view.data|)
    requires ListingOf(t, dir) == Names([], 0, [])
    ensures NoEarlyEnd(t, dir)
  {
  }

  lemma NotYetInUse(r: Regions, fs: Fs, c: Creation)
    requires fs.Ok(r) && DirReady(fs, c.dir) && c.cluster !in fs.t.chains && c.cluster != PARENT_IS_ROOT_DIR
    requires c.dir != PARENT_IS_ROOT_DIR ==> c.own in fs.nodes
    ensures c.cluster != c.dir && (c.dir != PARENT_IS_ROOT_DIR ==> c.cluster != c.own.parent)
    ensures forall ino :: ino in fs.nodes ==> ino.parent != c.cluster
  {
    forall ino | ino in fs.nodes
      ensures ino.parent != c.cluster
    {
      assert fs.NodeOk(ino);
    }
  }

  lemma CreateOwnSize(r: Regions, fs: Fs, c: Creation, checksum: byte, t1: Tables, t2: Tables, t3: Tables)
    requires CreateSteps(r, fs, c, checksum, t1, t2, t3)
    requires c.dir != PARENT_IS_ROOT_DIR && SizeMatches(fs, c.own)
    requires SizeOf(fs.Entry(c.own)) + DIRENT * (LfnCount(c.name) + 1) <= UINT32_MAX
    ensures SizeMatches(Created(fs, c, t3), c.own)
  {
    hide CreateSteps, Tables.Ok, List, LfnCount, IsName, Fs.Ok, EntriesFor, Appended, Allocated, NoEarlyEnd;
    OfCreation(r, fs, c, checksum, t1, t2, t3);
    CreateLists(r, fs, c, checksum, t1, t2, t3);
    CreateKeepsDirent(r, fs, c, checksum, t1, t2, t3, c.own);
  }

  lemma CreateKeepsEntry(r: Regions, fs: Fs, c: Creation, checksum: byte, t1: Tables, t2: Tables, t3: Tables,
                         ino: Inode)
    requires CreateSteps(r, fs, c, checksum, t1, t2, t3) && ino in fs.nodes
    ensures IsDir(fs, c.dir) && ListingOf(fs.t, c.dir).Names? && EntryKept(fs, Created(fs, c, t3), c, ino)
  {
    hide CreateSteps, Creation.OwnEntry;
    OfCreation(r, fs, c, checksum, t1, t2, t3);
    CreateKeepsDirent(r, fs, c, checksum, t1, t2, t3, ino);
  }

  /** The steps of `create_inode` have the result it is for. */
  lemma StepsCreateInode(r: Regions, fs: Fs, c: Creation, checksum: byte, t1: Tables, t2: Tables, t3: Tables)
    requires CreateSteps(r, fs, c, checksum, t1, t2, t3)
    requires c.dir != PARENT_IS_ROOT_DIR ==>
               SizeOf(fs.Entry(c.own)) + DIRENT * (LfnCount(c.name) + 1) <= UINT32_MAX
    ensures c.Ok() && DirReady(fs, c.dir) && InodeCreated(r, fs, Created(fs, c, t3), c)
  {
    hide CreateSteps, Tables.Ok, List, LfnCount, IsName, Fs.Ok, EntriesFor, Allocated, NoEarlyEnd, Creation.Entry,
      Resembles, SameFile, EntryKept, DirectoryCreated;
    hide EntriesOf, Slots, Content;
    OfCreation(r, fs, c, checksum, t1, t2, t3);
    CreateKeepsOk(r, fs, c, checksum, t1, t2, t3);
    CreateAddsDirent(r, fs, c, checksum, t1, t2, t3);
    CreateLists(r, fs, c, checksum, t1, t2, t3);
    CreateReady(r, fs, c, checksum, t1, t2, t3);
    if c.isDirectory {
      CreateNewDirectory(r, fs, c, checksum, t1, t2, t3);
    }
    if c.dir != PARENT_IS_ROOT_DIR && SizeMatches(fs, c.own) {
      CreateOwnSize(r, fs, c, checksum, t1, t2, t3);
    }
    forall d | IsDir(fs, d) && d != c.dir
      ensures Resembles(fs.t, t3, d)
    {
      CreateResembles(r, fs, c, checksum, t1, t2, t3, d);
    }
    forall ino | ino in fs.nodes
      ensures EntryKept(fs, Created(fs, c, t3), c, ino) && SameFile(fs, Created(fs, c, t3), ino)
    {
      CreateKeepsEntry(r, fs, c, checksum, t1, t2, t3, ino);
      CreateKeepsFile(r, fs, c, checksum, t1, t2, t3, ino);
    }
  }

  // --- File writes and listings ---

  /** Writing a file changes no directory's listing. */
  lemma FileWriteKeepsListings(r: Regions, fs: Fs, ino: Inode, off: nat, buf: seq<byte>,
                               k: nat, t1: Tables, t2: Tables, t3: Tables, dir: nat)
    requires WriteSteps(r, fs, ino, off, buf, k, t1, t2, t3) && DirReady(fs, dir)
    ensures DirReady(fs.(t := t3), dir) && ListingOf(t3, dir) == ListingOf(fs.t, dir)
  {
    FileWriteResembles(r, fs, ino, off, buf, k, t1, t2, t3, dir);
    ResemblingReady(fs, fs.(t := t3), dir);
  }

  lemma FileWriteResembles(r: Regions, fs: Fs, ino: Inode, off: nat, buf: seq<byte>,
                           k: nat, t1: Tables, t2: Tables, t3: Tables, dir: nat)
    requires WriteSteps(r, fs, ino, off, buf, k, t1, t2, t3) && IsDir(fs, dir)
    ensures Resembles(fs.t, t3, dir)
  {
    hide Tables.Ok, ChainWritten, DirentWritten, Resembles, Fs.OneOwner, Fs.AllOwned;
    assert fs.NodeOk(ino);
    ClaimedFacts(r, fs, ino, k, t1);
    KeysAfterFileWrite(r, fs, ino, off, buf, k, t1, t2, t3);
    if IsInvalidCluster(fs.Cluster(ino)) {
      StartFrame(r, fs.t, k, dir);
      StartKeepsDirent(r, fs.t, k, ino);
    }
    SameData(r, fs.t, t1);
    GrownResembles(fs.t, t1, dir);
    var e := NewEntry(fs.Entry(ino), k, off + |buf|);
    if dir == ino.parent {
      DirentWriteResembles(r, t1, t2, ino, e);
    } else {
      DirentWriteElsewhere(r, t1, t2, ino, e, dir);
    }
    ResemblesTwice(fs.t, t1, t2, dir);
    ResemblesIsDir(t1, t2, dir);
    ChainWriteResembles(r, t2, t3, k, off, buf, dir);
    ResemblesTwice(fs.t, t2, t3, dir);
  }

  lemma DirentWriteElsewhere(r: Regions, t: Tables, t': Tables, ino: Inode, e: DirentBytes, dir: nat)
    requires t.Ok(r) && 0 < r.clusterSize && HasDirent(t, ino) && DirentWritten(r, t, t', ino, e)
    requires dir != ino.parent && (dir == PARENT_IS_ROOT_DIR || dir in t.chains)
    ensures Resembles(t, t', dir)
  {
    hide Tables.Ok, ChainEffect, Resembles;
    if dir == PARENT_IS_ROOT_DIR {
      RootUntouched(r, t, t', ino.parent, DIRENT * ino.index, e);
    } else {
      ChainFacts(r, t, dir);
      DirentWriteKeepsChain(r, t, t', ino, e, dir);
    }
    GrownResembles(t, t', dir);
  }

  // --- The clusters a creation takes ---

  ghost function DirectoryGrowth(r: Regions, t: Tables, ino: Inode): nat
    requires 0 < r.clusterSize && HasDirent(t, ino)
  {
    if ino.parent == PARENT_IS_ROOT_DIR then 0 else
      LengthAfterWrite(|t.chains[ino.parent]|, r.clusterSize, DIRENT * ino.index, DIRENT) - |t.chains[ino.parent]|
  }

  /** A new directory takes a cluster and the spare one behind it. */
  ghost function ClustersToAllocate(r: Regions, isDirectory: bool): nat
    requires 0 < r.clusterSize
  {
    if isDirectory then LengthAfterWrite(1, r.clusterSize, 0, DIRENT) else 0
  }

  /** Appending to a directory that is not the root may grow it, and the directory holding its entry. */
  ghost function ClustersToAppend(r: Regions, t: Tables, dir: nat, own: Inode, at: nat, n: nat): nat
    requires 0 < r.clusterSize && dir in t.chains && HasDirent(t, own)
  {
    DirectoryGrowth(r, t, own)
    + LengthAfterWrite(|t.chains[dir]|, r.clusterSize, DIRENT * at, DIRENT * n) - |t.chains[dir]|
  }

  lemma AllocatedCost(r: Regions, t0: Tables, t1: Tables, isDirectory: bool, x: nat, own: Inode, dir: nat)
    requires t0.Ok(r) && 0 < r.clusterSize && Allocated(r, t0, t1, isDirectory, x)
    ensures t1.Free() + ClustersToAllocate(r, isDirectory) == t0.Free()
    ensures HasDirent(t0, own) ==> HasDirent(t1, own) && DirectoryGrowth(r, t1, own) == DirectoryGrowth(r, t0, own)
    ensures dir in t0.chains ==> dir in t1.chains && |t1.chains[dir]| == |t0.chains[dir]|
  {
    hide Tables.Ok, FreeClusters, Content;
    if isDirectory {
      StartFrame(r, t0, x, x);
    }
    if HasDirent(t0, own) {
      AllocatedKeepsDirent(r, t0, t1, isDirectory, x, own);
      if own.parent != PARENT_IS_ROOT_DIR {
        AllocatedKeeps(r, t0, t1, isDirectory, x, own.parent);
      }
    }
    if dir in t0.chains {
      AllocatedKeeps(r, t0, t1, isDirectory, x, dir);
    }
  }

  /** Half of `create_inode` is done: a new directory has its cluster, nothing is appended yet. */
  ghost predicate Started(r: Regions, fs: Fs, c: Creation, t1: Tables) {
    && fs.Ok(r) && c.Ok() && DirReady(fs, c.dir)
    && (c.dir != PARENT_IS_ROOT_DIR ==>
          && c.own in fs.nodes && HasDirent(fs.t, c.own) && IsDirectory(fs.Entry(c.own)) && fs.Cluster(c.own) == c.dir
          && SizeMatches(fs, c.own)
          && SizeOf(fs.Entry(c.own)) + DIRENT * (LfnCount(c.name) + 1) <= UINT32_MAX)
    && Allocated(r, fs.t, t1, c.isDirectory, c.cluster)
    && t1.Ok(r)
  }

  /** Where the rest of a started creation finds things. */
  lemma StartedFacts(r: Regions, fs: Fs, c: Creation, t1: Tables)
    requires Started(r, fs, c, t1)
    ensures t1.Ok(r) && 0 < r.clusterSize && c.Ok() && IsDir(fs, c.dir) && ListingOf(fs.t, c.dir).Names?
    ensures c.dir == PARENT_IS_ROOT_DIR ==> t1.view.root == fs.t.view.root
    ensures c.dir != PARENT_IS_ROOT_DIR ==>
              && HasDirent(fs.t, c.own) && HasDirent(t1, c.own) && Dirent(t1, c.own) == fs.Entry(c.own)
              && ClusterOf(Dirent(t1, c.own)) == c.dir && c.dir in t1.chains && c.own.parent != c.dir
              && SizeOf(Dirent(t1, c.own)) == DIRENT * (ListingOf(fs.t, c.dir).end + 1)
              && SizeOf(fs.Entry(c.own)) + DIRENT * (LfnCount(c.name) + 1) <= UINT32_MAX
  {
    hide Tables.Ok, Allocated, List, NoEarlyEnd, LfnCount, Creation.Ok;
    if c.dir == PARENT_IS_ROOT_DIR {
      AllocatedKeepsRoot(r, fs.t, t1, c.isDirectory, c.cluster);
    } else {
      assert fs.NodeOk(c.own);
      AllocatedKeepsDirent(r, fs.t, t1, c.isDirectory, c.cluster, c.own);
      AllocatedKeeps(r, fs.t, t1, c.isDirectory, c.cluster, c.dir);
    }
  }

  /** Appending the entries completes a started creation. */
  lemma StartedThenAppended(r: Regions, fs: Fs, c: Creation, checksum: byte, t1: Tables, t2: Tables, t3: Tables)
    requires Started(r, fs, c, t1)
    requires c.dir != PARENT_IS_ROOT_DIR ==> HasDirent(fs.t, c.own)
    requires t1.Ok(r) && 0 < r.clusterSize && c.Ok()
    requires IsDir(fs, c.dir) && ListingOf(fs.t, c.dir).Names?
    requires Appended(r, t1, t2, t3, c.dir, c.own, NewOwnEntry(fs, c), ListingOf(fs.t, c.dir).end,
                      EntriesFor(c.name, checksum, c.Entry()))
    ensures DirReady(fs, c.dir) && InodeCreated(r, fs, Created(fs, c, t3), c)
    ensures PutBehind(fs, t3, c, checksum)
  {
    StartedAppended(r, fs, c, checksum, t1, t2, t3);
    hide CreateSteps, InodeCreated, Tables.Ok, Fs.Ok, DirReady, SizeMatches, Allocated, List, LfnCount, PutBehind;
    StepsCreateInode(r, fs, c, checksum, t1, t2, t3);
    StepsPutBehind(r, fs, c, checksum, t1, t2, t3);
  }

  lemma StartedAppended(r: Regions, fs: Fs, c: Creation, checksum: byte, t1: Tables, t2: Tables, t3: Tables)
    requires Started(r, fs, c, t1)
    requires c.dir != PARENT_IS_ROOT_DIR ==> HasDirent(fs.t, c.own)
    requires t1.Ok(r) && 0 < r.clusterSize && c.Ok()
    requires IsDir(fs, c.dir) && ListingOf(fs.t, c.dir).Names?
    requires Appended(r, t1, t2, t3, c.dir, c.own, NewOwnEntry(fs, c), ListingOf(fs.t, c.dir).end,
                      EntriesFor(c.name, checksum, c.Entry()))
    ensures CreateSteps(r, fs, c, checksum, t1, t2, t3)
  {
    hide Tables.Ok, Allocated, List, NoEarlyEnd, LfnCount, Appended, EntriesFor, NewOwnEntry, Creation.Entry;
  }

  lemma StartedKeepsListing(r: Regions, fs: Fs, c: Creation, t1: Tables)
    requires Started(r, fs, c, t1)
    ensures IsDir(fs, c.dir) && ListingOf(fs.t, c.dir).Names?
    ensures c.dir != PARENT_IS_ROOT_DIR ==> c.dir in t1.chains && Inside(t1.chains[c.dir], |t1.view.data|)
    ensures ListingOf(t1, c.dir) == ListingOf(fs.t, c.dir) && NoEarlyEnd(t1, c.dir)
  {
    hide Tables.Ok, Allocated, List, LfnCount, Fs.NodesOk, Fs.OneOwner, Fs.AllOwned, EntriesOf, Slots;
    BetweenSteps(r, fs, t1, c.isDirectory, c.cluster, c.dir);
  }

  // --- Where every run starts ---

  /** An empty volume: a table without chains, a blank root directory. */
  ghost predicate Formatted(r: Regions, v: View) {
    && 0 < r.clusterSize && 2 < r.clusters < BAD_CLUSTER
    && |v.fat| == |v.data| == r.clusters && Sized(v.data, r.clusterSize)
    && (forall n :: 2 <= n < |v.fat| ==> v.fat[n] == 0)
    && |v.root| + r.rootStart == r.dataStart && 2 * DIRENT < |v.root|
    && (forall k :: 0 <= k < |v.root| ==> v.root[k] == 0)
  }

  /** An empty volume is well-formed, and its root directory lists as empty and is ready for a creation. */
  lemma FormattedOk(r: Regions, v: View)
    requires Formatted(r, v)
    ensures var fs := Fs(Tables(v, map[]), {}, {});
            fs.Ok(r) && DirReady(fs, PARENT_IS_ROOT_DIR) && ListingOf(fs.t, PARENT_IS_ROOT_DIR).entries == []
  {
    var t := Tables(v, map[]);
    var e := DirEntries(t, PARENT_IS_ROOT_DIR)[0];
    assert e == v.root[0..DIRENT];
    assert Attributes(e) == v.root[11] && e[0] == v.root[0];
    assert ListStep(DirEntries(t, PARENT_IS_ROOT_DIR), 0, []) == End;
  }
}
