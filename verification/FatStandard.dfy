/**
  File names as the Microsoft FAT Specification (2005, sections 6 and 7) lays them out, next to
  what stuos/src/fs_fat.c reads and writes: short names, checksums and long-name entries.
 */
module FatStandard {
  import opened Options
  import opened Bytes
  import opened FatArithmetic
  import opened FatLayout
  import opened FatVolumes
  import opened FatFiles
  import opened FatNames
  import opened FatCreate

  // --- Where things are ---

  function LowHigh(low: int, high: int): int {
    low + 256 * high
  }

  /** The first sector of the root directory: behind the reserved sectors and all tables. */
  function RootAt(g: Geometry): nat {
    g.fatsStartSector + g.numberOfFats * g.sectorsPerFat
  }

  /** The first sector of a cluster, counted from cluster 2 behind the root directory. */
  function ClusterAt(g: Geometry, n: nat): nat
    requires 2 <= n
  {
    RootAt(g) + g.rootSectors + (n - 2) * g.sectorsPerCluster
  }

  lemma TimesAre(g: Geometry)
    ensures Times(g.numberOfFats, g.sectorsPerFat) == g.numberOfFats * g.sectorsPerFat
    ensures g.RootSector() == RootAt(g)
    ensures Times(g.sectorsPerFat, g.bytesPerSector) == g.sectorsPerFat * g.bytesPerSector
    ensures Times(g.fatsStartSector, g.bytesPerSector) == g.fatsStartSector * g.bytesPerSector
    ensures Times(RootAt(g), g.bytesPerSector) == RootAt(g) * g.bytesPerSector
    ensures Times(RootAt(g) + g.rootSectors, g.bytesPerSector) == (RootAt(g) + g.rootSectors) * g.bytesPerSector
    ensures Times(g.sectorsPerCluster, g.bytesPerSector) == g.sectorsPerCluster * g.bytesPerSector
  {
    TimesIsProduct(g.numberOfFats, g.sectorsPerFat);
    TimesIsProduct(g.sectorsPerFat, g.bytesPerSector);
    TimesIsProduct(g.fatsStartSector, g.bytesPerSector);
    TimesIsProduct(RootAt(g), g.bytesPerSector);
    TimesIsProduct(RootAt(g) + g.rootSectors, g.bytesPerSector);
    TimesIsProduct(g.sectorsPerCluster, g.bytesPerSector);
  }

  lemma Distribute(a: int, b: int, c: int, d: int)
    ensures a * d + (b * d) * c == (a + c * b) * d
  {
  }

  /** Bytes from the start of the partition to a sector, and in a number of sectors. */
  function Sectors(g: Geometry, n: nat): nat {
    n * g.bytesPerSector
  }

  /** The offsets of the regions are those of the header's sector numbers. */
  lemma RegionsAre(g: Geometry, n: nat)
    requires 2 <= n
    ensures g.Regions().clusters == Sectors(g, g.sectorsPerFat) / 2
    ensures g.Regions().fatStart == Sectors(g, g.fatsStartSector)
    ensures g.Regions().rootStart == Sectors(g, RootAt(g))
    ensures g.Regions().dataStart == Sectors(g, RootAt(g) + g.rootSectors)
    ensures g.Regions().clusterSize == Sectors(g, g.sectorsPerCluster)
    ensures g.Regions().ClusterStart(n) == Sectors(g, ClusterAt(g, n))
  {
    TimesAre(g);
    g.Regions().ClusterStartIsLinear(n);
    Distribute(RootAt(g) + g.rootSectors, g.sectorsPerCluster, n - 2, g.bytesPerSector);
  }

  /** What the program takes for a table entry, a cluster and the root directory is on the disk where it belongs. */
  lemma OnDisk(g: Geometry, base: nat, disk: seq<byte>, v: View, n: nat)
    requires base <= |disk| && g.Fits(|disk| - base)
    requires g.Regions().Fit(|disk| - base) && Shows(g.Regions(), base, disk, v)
    requires 2 <= n < g.Regions().clusters
    ensures var entry := base + Sectors(g, g.fatsStartSector) + 2 * n;
            entry + 1 < |disk| && v.fat[n] == LowHigh(disk[entry], disk[entry + 1])
    ensures var start, size := base + Sectors(g, ClusterAt(g, n)), Sectors(g, g.sectorsPerCluster);
            start + size <= |disk| && v.data[n] == disk[start..start + size]
    ensures var start, end := base + Sectors(g, RootAt(g)), base + Sectors(g, RootAt(g) + g.rootSectors);
            start <= end <= |disk| && v.root == disk[start..end]
  {
    hide Geometry.Regions, ClusterAt, RootAt, Sectors;
    RegionsAre(g, n);
    ShownAt(g.Regions(), base, disk, v, n);
  }

  lemma ShownAt(r: Regions, base: nat, disk: seq<byte>, v: View, n: nat)
    requires base <= |disk| && r.Fit(|disk| - base) && Shows(r, base, disk, v) && 2 <= n < r.clusters
    ensures base + r.fatStart + 2 * n + 1 < |disk|
    ensures v.fat[n] == LowHigh(disk[base + r.fatStart + 2 * n], disk[base + r.fatStart + 2 * n + 1])
    ensures base + r.ClusterStart(n) + r.clusterSize <= |disk|
    ensures v.data[n] == disk[base + r.ClusterStart(n)..base + r.ClusterStart(n) + r.clusterSize]
    ensures base + r.rootStart <= base + r.dataStart <= |disk|
    ensures v.root == disk[base + r.rootStart..base + r.dataStart]
  {
    r.ClusterInside(|disk| - base, n);
    r.ClusterInside(|disk| - base, 2);
    assert ShowsCluster(r, base, disk, n, v.data[n]);
  }

  /** Attributes, first cluster and size of a directory entry. */
  lemma FieldsAre(e: DirentBytes)
    ensures Attributes(e) == e[11] && ClusterOf(e) == LowHigh(e[26], e[27])
    ensures SizeOf(e) == LowHigh(e[28], e[29]) + 0x10000 * LowHigh(e[30], e[31])
  {
  }

  // --- Short names ---

  function ToUpper(c: byte): byte {
    if 97 <= c <= 122 then c - 32 else c
  }

  /** Capitals, and spaces up to `n` bytes. */
  function Capitals(s: seq<byte>, n: nat): (r: seq<byte>)
    requires |s| <= n
  {
    seq<byte>(n, (k: nat) => if k < |s| then ToUpper(s[k]) else 32)
  }

  /** Printable ASCII but spaces and capitals. */
  predicate IsPart(s: seq<byte>) {
    forall k :: 0 <= k < |s| ==> 32 < s[k] < 0x7F && !(65 <= s[k] <= 90)
  }

  /** A name of the 8.3 form, as people write it. */
  function Dotted(base: seq<byte>, extension: seq<byte>): seq<byte> {
    if extension == [] then base else base + [46] + extension
  }

  /** Padding ends the name; before it every character counts. */
  lemma {:induction false} PaddedIs(field: seq<byte>)
    ensures var r := Padded(field);
            && |r| <= |field| && (|r| < |field| ==> field[|r|] == 32)
            && forall k :: 0 <= k < |r| ==> field[k] != 32 && r[k] == ToLower(field[k])
  {
    if field != [] && field[0] != 32 {
      PaddedIs(field[1..]);
    }
  }

  lemma PaddedCapitals(s: seq<byte>, n: nat)
    requires IsPart(s) && |s| <= n
    ensures Padded(Capitals(s, n)) == s
  {
    var field := Capitals(s, n);
    PaddedIs(field);
    assert forall k :: 0 <= k < |s| ==> field[k] == ToUpper(s[k]) != 32;
    assert |s| < n ==> field[|s|] == 32;
  }

  /** An 8.3 name, stored in capitals and padded with spaces, is read as it is written. */
  lemma ShortNameRoundTrip(e: DirentBytes, base: seq<byte>, extension: seq<byte>)
    requires IsPart(base) && 1 <= |base| <= 8 && IsPart(extension) && |extension| <= 3
    requires e[..11] == Capitals(base, 8) + Capitals(extension, 3)
    ensures ShortName(e) == Dotted(base, extension)
  {
    hide Padded;
    SliceOfSlice(e, 0, 11, 0, 8);
    SliceOfSlice(e, 0, 11, 8, 11);
    PaddedCapitals(base, 8);
    PaddedCapitals(extension, 3);
    ExtensionStarts(e, extension);
  }

  lemma ExtensionStarts(e: DirentBytes, extension: seq<byte>)
    requires IsPart(extension) && |extension| <= 3 && e[8..11] == Capitals(extension, 3)
    ensures e[8] == 32 <==> extension == []
  {
    assert e[8] == e[8..11][0];
  }

  /** Where no long name comes before it, the listing has an entry's short name. */
  lemma ListsShortName(dir: seq<DirentBytes>, i: nat, base: seq<byte>, extension: seq<byte>)
    requires IsPart(base) && 1 <= |base| <= 8 && IsPart(extension) && |extension| <= 3
    requires i < |dir| && dir[i][..11] == Capitals(base, 8) + Capitals(extension, 3) && IsOrdinary(dir[i])
    ensures match List(dir, i + 1, [])
            case Halts => List(dir, i, []) == Halts
            case Names(rest, end, leftover) =>
              List(dir, i, []) == Names([Listed(Dotted(base, extension), i)] + rest, end, leftover)
  {
    hide ShortName;
    ShortNameRoundTrip(dir[i], base, extension);
  }

  lemma ThreeDigits(i: nat)
    ensures i % 17576 == i % 26 + 26 * (i / 26 % 26) + 676 * (i / 26 / 26 % 26)
  {
  }

  /** Two of the short names the program makes up are the same exactly if 26 * 26 * 26 lies between their numbers. */
  lemma ShortNamesRepeat(i: nat, j: nat)
    ensures NthShortName(i) == NthShortName(j) <==> i % 17576 == j % 17576
  {
    var a, b := NthShortName(i), NthShortName(j);
    assert a == b <==> a[8] == b[8] && a[9] == b[9] && a[10] == b[10];
    ThreeDigits(i);
    ThreeDigits(j);
  }

  // --- Checksums ---

  /** The lowest `n` bits of a number, the lowest first. */
  function Bits(c: nat, n: nat): (bits: seq<bool>)
    ensures |bits| == n
  {
    if n == 0 then [] else [c % 2 == 1] + Bits(c / 2, n - 1)
  }

  function Binary(bits: seq<bool>): nat {
    if bits == [] then 0 else (if bits[0] then 1 else 0) + 2 * Binary(bits[1..])
  }

  function Power2(n: nat): nat {
    if n == 0 then 1 else 2 * Power2(n - 1)
  }

  /** One bit to the right, the lowest coming in at the top. */
  function RotatedRight(c: byte): nat {
    var bits := Bits(c, 8);
    Binary(bits[1..] + [bits[0]])
  }

  /** Rotate, then add, byte by byte, in eight bits. */
  function Sum(s: seq<byte>): byte {
    if s == [] then 0 else (RotatedRight(Sum(s[..|s| - 1])) + s[|s| - 1]) % 256
  }

  lemma {:induction false} BinaryOfBits(c: nat, n: nat)
    requires c < Power2(n)
    ensures Binary(Bits(c, n)) == c
  {
    if n > 0 {
      BinaryOfBits(c / 2, n - 1);
    }
  }

  lemma {:induction false} BinaryWithTop(bits: seq<bool>, top: bool)
    ensures Binary(bits + [top]) == Binary(bits) + (if top then Power2(|bits|) else 0)
  {
    if bits != [] {
      assert (bits + [top])[1..] == bits[1..] + [top];
      BinaryWithTop(bits[1..], top);
    }
  }

  lemma RotationIs(c: byte)
    ensures RotatedRight(c) == (if c % 2 == 1 then 128 else 0) + c / 2
  {
    assert Power2(7) == 128;
    BinaryOfBits(c / 2, 7);
    BinaryWithTop(Bits(c / 2, 7), c % 2 == 1);
  }

  /** The checksum is the specification's. */
  lemma {:induction false} ChecksumIs(s: seq<byte>)
    ensures Checksum(s) == Sum(s)
  {
    hide RotatedRight;
    if s != [] {
      ChecksumIs(s[..|s| - 1]);
      RotationIs(Sum(s[..|s| - 1]));
    }
  }

  // --- Long names ---

  /** Where an entry has its thirteen characters. */
  const PLACES: seq<nat> := [1, 3, 5, 7, 9, 14, 16, 18, 20, 22, 24, 28, 30]

  /** Character `p` of a name as it is stored: behind its end a NUL, then ones. */
  function Stored(name: seq<byte>, p: nat): nat {
    if p < |name| then name[p] else if p == |name| then 0 else 0xFFFF
  }

  /** The `number`th piece of a name, byte by byte, with or without the mark of the last one. */
  ghost predicate IsPiece(e: DirentBytes, name: seq<byte>, checksum: byte, number: nat, marked: bool)
    requires number > 0
  {
    && (e[0] as int) == number + (if marked then 0x40 else 0)
    && e[11] == 0x0F && e[12] == 0 && e[13] == checksum && e[26] == 0 && e[27] == 0
    && forall i :: 0 <= i < 13 ==>
         LowHigh(e[PLACES[i]], e[PLACES[i] + 1]) == Stored(name, 13 * (number - 1) + i)
  }

  /** The pieces of a name, the last of them first and marked; no piece for a terminator alone. */
  ghost predicate IsLongName(group: seq<DirentBytes>, name: seq<byte>, checksum: byte) {
    && |group| == (|name| + 12) / 13
    && forall s :: 0 <= s < |group| ==> IsPiece(group[s], name, checksum, |group| - s, s == 0)
  }

  lemma PieceChar(e: DirentBytes, name: seq<byte>, checksum: byte, number: nat, marked: bool, i: nat)
    requires number > 0 && IsPiece(e, name, checksum, number, marked) && i < 13
    ensures LfnChar(e, i) == Stored(name, 13 * (number - 1) + i)
  {
    assert PLACES[i] == if i < 5 then 1 + 2 * i else if i < 11 then 14 + 2 * (i - 5) else 28 + 2 * (i - 11);
  }

  /** One piece's characters from `i` on. */
  lemma {:induction false} PieceChars(e: DirentBytes, name: seq<byte>, checksum: byte, number: nat, marked: bool,
                                      i: nat)
    requires number > 0 && IsPiece(e, name, checksum, number, marked)
    requires i <= 13 && 13 * (number - 1) + i <= |name| && forall p :: 0 <= p < |name| ==> 0 < name[p]
    requires i < 13 || 13 * number <= |name|
    ensures EntryChars(e, i) == Some((name + [0])[13 * (number - 1) + i..Held(|name| + 1, number)])
    decreases 13 - i
  {
    hide IsPiece, LfnChar;
    var text, lo := name + [0], 13 * (number - 1) + i;
    var hi := Held(|name| + 1, number);
    if i == 13 {
      assert text[lo..hi] == [];
    } else {
      PieceChar(e, name, checksum, number, marked, i);
      if lo == |name| {
        assert text[lo..hi] == [0];
      } else {
        PieceChars(e, name, checksum, number, marked, i + 1);
        assert text[lo..hi] == [text[lo]] + text[lo + 1..hi];
      }
    }
  }

  /** The pieces from `s` on hold the first characters of the name. */
  lemma {:induction false} PiecesChars(group: seq<DirentBytes>, name: seq<byte>, checksum: byte, s: nat)
    requires IsLongName(group, name, checksum) && s <= |group| && forall p :: 0 <= p < |name| ==> 0 < name[p]
    ensures GroupChars(group[s..]) == Some((name + [0])[..Held(|name| + 1, |group| - s)])
    decreases |group| - s
  {
    hide EntryChars, IsPiece;
    var text, n := name + [0], |group| - s;
    if s == |group| {
      assert group[s..] == [];
    } else {
      PiecesChars(group, name, checksum, s + 1);
      assert group[s..][1..] == group[s + 1..];
      assert group[s..][0] == group[s];
      PieceFields(group[s], name, checksum, n, s == 0);
      PieceChars(group[s], name, checksum, n, s == 0, 0);
      assert text[..13 * (n - 1)] + text[13 * (n - 1)..Held(|text|, n)] == text[..Held(|text|, n)];
    }
  }

  lemma PieceFields(e: DirentBytes, name: seq<byte>, checksum: byte, number: nat, marked: bool)
    requires number > 0 && IsPiece(e, name, checksum, number, marked)
    ensures Attributes(e) == ATTRIBUTES_LFN && e[12] == 0 && e[26] == 0 && e[27] == 0
    ensures e[0] != 0 && (marked && number < 64 ==> e[0] as int % 64 == number)
  {
  }

  /** A C string with or without its terminator. */
  lemma {:induction false} CStringWhole(name: seq<byte>)
    requires forall p :: 0 <= p < |name| ==> 0 < name[p]
    ensures CString(name) == name
  {
    if name != [] {
      CStringWhole(name[1..]);
    }
  }

  /** Names as the specification stores them, by whatever system, are read back exactly. */
  lemma LongNameRead(group: seq<DirentBytes>, name: seq<byte>, checksum: byte)
    requires IsName(name) && IsLongName(group, name, checksum)
    ensures GroupName(group) == Some(name)
  {
    hide IsPiece;
    PiecesChars(group, name, checksum, 0);
    assert group[0..] == group;
    var text := name + [0];
    if |name| % 13 == 0 {
      assert text[..|name|] == name;
      CStringWhole(name);
    } else {
      assert text[..|name| + 1] == text;
      CStringOfText(name);
    }
  }

  lemma PieceWritten(name: seq<byte>, checksum: byte, count: nat, s: nat)
    requires s < count < 64
    ensures IsPiece(NameEntry(name, checksum, count, s), name, checksum, count - s, s == 1)
  {
    hide LfnEntry;
    var e, c := NameEntry(name, checksum, count, s), Chunk(name, count - 1 - s);
    EntryHead(count - s, s == 1, c, checksum);
    forall i | 0 <= i < 13
      ensures LowHigh(e[PLACES[i]], e[PLACES[i] + 1]) == Stored(name, 13 * (count - s - 1) + i)
    {
      EntryPlaces(count - s, s == 1, c, checksum, i);
      assert c[i] == NameChar(name, 13 * (count - 1 - s) + i);
    }
  }

  lemma EntryHead(number: nat, isLast: bool, c: seq<u16>, checksum: byte)
    requires number < 64 && |c| == 13
    ensures var e := LfnEntry(number, isLast, c, checksum);
            && e[0] as int == number + (if isLast then 0x40 else 0)
            && e[11] == 0x0F && e[12] == 0 && e[13] == checksum && e[26] == 0 && e[27] == 0
  {
  }

  lemma EntryPlaces(number: nat, isLast: bool, c: seq<u16>, checksum: byte, i: nat)
    requires number < 64 && |c| == 13 && i < 13
    ensures var e := LfnEntry(number, isLast, c, checksum);
            LowHigh(e[PLACES[i]], e[PLACES[i] + 1]) == c[i]
  {
  }

  /** The pieces of a name, the last of them first; the one behind it has the mark. */
  ghost predicate ArePieces(group: seq<DirentBytes>, name: seq<byte>, checksum: byte) {
    forall s :: 0 <= s < |group| ==> IsPiece(group[s], name, checksum, |group| - s, s == 1)
  }

  /**
    What the program writes for a name differs from the specification in two points. The mark
    of the last piece stands in the second entry, not in the first; and a name that fills its
    last piece gets one more for its terminator. So no name is stored as the specification has it.
   */
  lemma WrittenPieces(name: seq<byte>, checksum: byte)
    requires IsName(name)
    ensures var count, group := LfnCount(name), NameEntries(name, checksum, LfnCount(name));
            && ArePieces(group, name, checksum)
            && count == (|name| + 12) / 13 + (if |name| % 13 == 0 then 1 else 0)
            && !IsLongName(group, name, checksum)
  {
    hide IsPiece, NameEntry;
    var count, group := LfnCount(name), NameEntries(name, checksum, LfnCount(name));
    forall s | 0 <= s < count
      ensures IsPiece(group[s], name, checksum, count - s, s == 1)
    {
      PieceWritten(name, checksum, count, s);
    }
    OneMark(group[0], name, checksum, count);
  }

  lemma OneMark(e: DirentBytes, name: seq<byte>, checksum: byte, number: nat)
    requires number > 0 && IsPiece(e, name, checksum, number, false)
    ensures !IsPiece(e, name, checksum, number, true)
  {
  }

  /** The pieces of a name from entry `at` on, the entry they belong to, and an end behind it. */
  ghost predicate Stands(dir: seq<DirentBytes>, at: nat, count: nat, name: seq<byte>, e: DirentBytes) {
    && at + count + 1 < |dir| && dir[at + count] == e && dir[at + count + 1][0] == 0
    && ArePieces(dir[at..at + count], name, Sum(e[..11]))
  }

  /**
    A creation leaves the pieces of the name at the former end of the directory, each with the
    checksum of the short name in the entry behind them.
   */
  lemma CreatedStands(before: Fs, after: Tables, c: Creation)
    requires PutBehind(before, after, c, Checksum(c.shortName))
    ensures Stands(DirEntries(after, c.dir), ListingOf(before.t, c.dir).end, LfnCount(c.name), c.name, c.Entry())
    ensures c.Entry()[..11] == c.shortName
  {
    hide ArePieces, NameEntry, LfnCount, DirEntries, List, Checksum, Sum, Creation.Entry;
    var dir, at, count := DirEntries(after, c.dir), ListingOf(before.t, c.dir).end, LfnCount(c.name);
    var es := EntriesFor(c.name, Checksum(c.shortName), c.Entry());
    ShortNameInFront(c);
    ChecksumIs(c.shortName);
    WrittenPieces(c.name, Checksum(c.shortName));
    assert dir[at + count] == es[count] && dir[at + count + 1] == es[count + 1];
    SliceOfSlice(dir, at, at + |es|, 0, count);
    assert dir[at..at + count] == es[0..count] == NameEntries(c.name, Checksum(c.shortName), count);
  }

  lemma ShortNameInFront(c: Creation)
    requires |c.shortName| == 11 && c.cluster < 0x10000
    ensures c.Entry()[..11] == c.shortName
  {
  }
}
