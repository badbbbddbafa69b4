/**
  Long file names in FAT directories: the entries `create_inode` writes for a name, what
  `read_dirents` makes of a directory, and that the two undo each other
  (stuos/src/fs_fat.c; section 7 of the Microsoft FAT Specification, 2005).
 */
module FatNames {
  import opened Options
  import opened Bytes
  import opened FatVolumes
  import opened FatFiles

  const CHARS_PER_LFN: nat := 13
  const ATTRIBUTES_LFN: byte := 0x0F
  const DELETED: byte := 0xE5
  /** The reader's buffers: 20 long-name entries, 256 characters with the terminator. */
  const MAX_LFN_ENTRIES: nat := 20
  const MAX_PATH_LEN: nat := 256

  // --- One long-name entry ---

  type u16 = c: int | 0 <= c < 0x10000

  function Lo(c: u16): byte { c % 256 }
  function Hi(c: u16): byte { c / 256 }

  /** The packed structure: sequence byte, five, six and two characters around the other fields. */
  function LfnEntry(number: nat, isLast: bool, c: seq<u16>, checksum: byte): DirentBytes
    requires number < 64 && |c| == CHARS_PER_LFN
  {
    [if isLast then number + 64 else number,
     Lo(c[0]), Hi(c[0]), Lo(c[1]), Hi(c[1]), Lo(c[2]), Hi(c[2]), Lo(c[3]), Hi(c[3]), Lo(c[4]), Hi(c[4]),
     ATTRIBUTES_LFN, 0, checksum,
     Lo(c[5]), Hi(c[5]), Lo(c[6]), Hi(c[6]), Lo(c[7]), Hi(c[7]), Lo(c[8]), Hi(c[8]), Lo(c[9]), Hi(c[9]),
     Lo(c[10]), Hi(c[10]),
     0, 0,
     Lo(c[11]), Hi(c[11]), Lo(c[12]), Hi(c[12])]
  }

  /** Character `i` of a long-name entry. */
  function LfnChar(e: DirentBytes, i: nat): nat
    requires i < CHARS_PER_LFN
  {
    if i < 5 then Le16(e, 1 + 2 * i) else if i < 11 then Le16(e, 14 + 2 * (i - 5)) else Le16(e, 28 + 2 * (i - 11))
  }

  lemma LfnCharOfEntry(number: nat, isLast: bool, c: seq<u16>, checksum: byte, i: nat)
    requires number < 64 && |c| == CHARS_PER_LFN && i < CHARS_PER_LFN
    ensures LfnChar(LfnEntry(number, isLast, c, checksum), i) == c[i]
  {
  }

  // --- Writing a name ---

  /** `checksum`: a rotate and an add per byte of the short name. */
  function Checksum(shortName: seq<byte>): (val: byte)
    decreases |shortName|
  {
    if shortName == [] then 0 else
      var val: int := Checksum(shortName[..|shortName| - 1]);
      ((if val % 2 == 1 then 0x80 else 0) + val / 2 + shortName[|shortName| - 1]) % 256
  }

  /** READ_LFNAAA, READ_LFNBAA and so on: only there to make short names unique. */
  function NthShortName(i: nat): (shortName: seq<byte>)
    ensures |shortName| == 11 && shortName[0] == 82
  {
    [82, 69, 65, 68, 95, 76, 70, 78, 65 + i % 26, 65 + i / 26 % 26, 65 + i / 26 / 26 % 26]
  }

  /** Names of 1 to 255 ASCII characters other than NUL. */
  predicate IsName(name: seq<byte>) {
    1 <= |name| <= 255 && forall i :: 0 <= i < |name| ==> 0 < name[i] < 0x80
  }

  function LfnCount(name: seq<byte>): nat {
    (|name| + CHARS_PER_LFN) / CHARS_PER_LFN
  }

  /** The name, its terminator, and filling. */
  function NameChar(name: seq<byte>, p: nat): u16
  {
    if p < |name| then name[p] else if p == |name| then 0 else 0xFFFF
  }

  function Chunk(name: seq<byte>, j: nat): (c: seq<u16>)
    ensures |c| == CHARS_PER_LFN
  {
    seq<u16>(CHARS_PER_LFN, (i: nat) => NameChar(name, CHARS_PER_LFN * j + i))
  }

  /** Entry `s` of a name of `count` entries: the chunks of the name come last first. */
  function NameEntry(name: seq<byte>, checksum: byte, count: nat, s: nat): DirentBytes
    requires s < count < 64
  {
    LfnEntry(count - s, s == 1, Chunk(name, count - 1 - s), checksum)
  }

  function NameEntries(name: seq<byte>, checksum: byte, count: nat): (r: seq<DirentBytes>)
    requires count < 64
    ensures |r| == count
  {
    seq(count, s requires 0 <= s < count => NameEntry(name, checksum, count, s))
  }

  // --- Reading a name ---

  /** The characters of one entry, up to and with its terminator; `None` where the reader halts. */
  function EntryChars(e: DirentBytes, i: nat): Option<seq<byte>>
    requires i <= CHARS_PER_LFN
    decreases CHARS_PER_LFN - i
  {
    if i == CHARS_PER_LFN then Some([]) else
      var c := LfnChar(e, i);
      if c >= 256 then None
      else if c == 0 then Some([0])
      else match EntryChars(e, i + 1)
        case None => None
        case Some(rest) => Some([c] + rest)
  }

  /** What the reader collects from the entries, taking the last one first. */
  function GroupChars(group: seq<DirentBytes>): Option<seq<byte>> {
    if group == [] then Some([])
    else match GroupChars(group[1..])
      case None => None
      case Some(front) =>
        var e := group[0];
        if e[12] != 0 || e[26] != 0 || e[27] != 0 || Attributes(e) != ATTRIBUTES_LFN then None
        else match EntryChars(e, 0)
          case None => None
          case Some(chars) => Some(front + chars)
  }

  /** A C string: the bytes before the first NUL. */
  function CString(s: seq<byte>): seq<byte> {
    if s == [] || s[0] == 0 then [] else [s[0]] + CString(s[1..])
  }

  /** The long name, if it fits the reader's buffer. */
  function GroupName(group: seq<DirentBytes>): Option<seq<byte>> {
    match GroupChars(group)
    case None => None
    case Some(chars) => if |chars| > MAX_PATH_LEN then None else Some(CString(chars))
  }

  function ToLower(c: byte): byte {
    if 65 <= c <= 90 then c + 32 else c
  }

  /** The characters of a padded field, in lower case, up to the first space. */
  function Padded(field: seq<byte>): seq<byte> {
    if field == [] || field[0] == 32 then [] else [ToLower(field[0])] + Padded(field[1..])
  }

  function ShortName(e: DirentBytes): seq<byte> {
    Padded(e[..8]) + (if e[8] != 32 then [46] else []) + Padded(e[8..11])
  }

  // --- Listing a directory ---

  /** A listed file or directory: its name and the place of its entry. */
  datatype Listed = Listed(name: seq<byte>, index: nat)

  /**
    What a full `read_dirents` gives: the entries, where the listing ended, and a long name
    still waiting for its entry there; or a halt (or endless loop, on a deleted entry).
   */
  datatype Listing = Halts | Names(entries: seq<Listed>, end: nat, leftover: seq<byte>)

  /** What the reader makes of entry `i`, a long name waiting for its entry or not. */
  datatype Step = Halt | End | LongName(name: seq<byte>, next: nat) | Entry(name: seq<byte>)

  function ListStep(dir: seq<DirentBytes>, i: nat, pending: seq<byte>): (s: Step)
    ensures s.LongName? ==> i < s.next <= |dir|
    ensures !s.Halt? ==> i < |dir|
  {
    if i >= |dir| then Halt else
      var e := dir[i];
      if Attributes(e) >= 64 then Halt
      else if e[0] == 0 then End
      else if e[0] == DELETED then Halt
      else if Attributes(e) == ATTRIBUTES_LFN then
        var n := (e[0] as int) % 64;
        if pending != [] || n == 0 || n > MAX_LFN_ENTRIES || i + n > |dir| then Halt
        else match GroupName(dir[i..i + n])
          case None => Halt
          case Some(name) => LongName(name, i + n)
      else if e[20] != 0 || e[21] != 0 then Halt
      else Entry(if pending == [] then ShortName(e) else pending)
  }

  function List(dir: seq<DirentBytes>, i: nat, pending: seq<byte>): Listing
    decreases |dir| - i
  {
    match ListStep(dir, i, pending)
    case Halt => Halts
    case End => Names([], i, pending)
    case LongName(name, next) => List(dir, next, name)
    case Entry(name) =>
      match List(dir, i + 1, [])
      case Halts => Halts
      case Names(rest, end, leftover) => Names([Listed(name, i)] + rest, end, leftover)
  }

  // --- Reading undoes writing ---

  /** One entry's characters: its chunk of the name, with the terminator if it falls into the chunk. */
  lemma {:induction false} EntryCharsOfChunk(name: seq<byte>, checksum: byte, number: nat, isLast: bool, j: nat, i: nat)
    requires number < 64 && i <= CHARS_PER_LFN && CHARS_PER_LFN * j + i <= |name|
    requires forall p :: 0 <= p < |name| ==> 0 < name[p]
    ensures EntryChars(LfnEntry(number, isLast, Chunk(name, j), checksum), i)
            == Some((name + [0])[CHARS_PER_LFN * j + i..Held(|name| + 1, j + 1)])
    decreases CHARS_PER_LFN - i
  {
    hide LfnEntry, LfnChar;
    var text, lo := name + [0], CHARS_PER_LFN * j + i;
    var hi := Held(|name| + 1, j + 1);
    if i == CHARS_PER_LFN {
      assert text[lo..hi] == [];
    } else {
      LfnCharOfEntry(number, isLast, Chunk(name, j), checksum, i);
      assert Chunk(name, j)[i] == NameChar(name, lo);
      if lo == |name| {
        assert text[lo..hi] == [0];
      } else {
        EntryCharsOfChunk(name, checksum, number, isLast, j, i + 1);
        assert text[lo..hi] == [text[lo]] + text[lo + 1..hi];
      }
    }
  }

  /** How much of a text of `length` bytes the first `n` chunks hold. */
  function Held(length: nat, n: nat): nat {
    if length < CHARS_PER_LFN * n then length else CHARS_PER_LFN * n
  }

  /** The entries from `s` on hold the first chunks of the name. */
  lemma {:induction false} GroupCharsOfName(name: seq<byte>, checksum: byte, s: nat)
    requires s <= LfnCount(name) < 64
    requires forall p :: 0 <= p < |name| ==> 0 < name[p]
    ensures GroupChars(NameEntries(name, checksum, LfnCount(name))[s..])
            == Some((name + [0])[..Held(|name| + 1, LfnCount(name) - s)])
    decreases LfnCount(name) - s
  {
    hide NameEntry, EntryChars, LfnCount;
    var count, text := LfnCount(name), name + [0];
    var group := NameEntries(name, checksum, count);
    if s == count {
      assert group[s..] == [];
    } else {
      GroupCharsOfName(name, checksum, s + 1);
      assert group[s..][1..] == group[s + 1..];
      assert group[s..][0] == NameEntry(name, checksum, count, s);
      NameEntryFields(name, checksum, count, s);
      NameEntryChars(name, checksum, s);
      var j := count - 1 - s;
      assert text[..CHARS_PER_LFN * j] + text[CHARS_PER_LFN * j..Held(|text|, j + 1)] == text[..Held(|text|, j + 1)];
    }
  }

  lemma NameEntryChars(name: seq<byte>, checksum: byte, s: nat)
    requires s < LfnCount(name) < 64
    requires forall p :: 0 <= p < |name| ==> 0 < name[p]
    ensures var j := LfnCount(name) - 1 - s;
            && CHARS_PER_LFN * j <= Held(|name| + 1, j + 1) <= |name| + 1
            && EntryChars(NameEntry(name, checksum, LfnCount(name), s), 0)
               == Some((name + [0])[CHARS_PER_LFN * j..Held(|name| + 1, j + 1)])
  {
    var count := LfnCount(name);
    EntryCharsOfChunk(name, checksum, count - s, s == 1, count - 1 - s, 0);
  }

  lemma NameEntryFields(name: seq<byte>, checksum: byte, count: nat, s: nat)
    requires s < count < 64
    ensures var e := NameEntry(name, checksum, count, s);
            && Attributes(e) == ATTRIBUTES_LFN && e[12] == 0 && e[26] == 0 && e[27] == 0
            && e[0] != 0 && e[0] != DELETED && (e[0] as int) % 64 == count - s
  {
  }

  lemma {:induction false} CStringOfText(name: seq<byte>)
    requires forall p :: 0 <= p < |name| ==> 0 < name[p]
    ensures CString(name + [0]) == name
  {
    if name == [] {
    } else {
      CStringOfText(name[1..]);
      assert (name + [0])[1..] == name[1..] + [0];
    }
  }

  /** The long-name decoder undoes the encoder. */
  lemma NameRoundTrip(name: seq<byte>, checksum: byte)
    requires IsName(name)
    ensures 1 <= LfnCount(name) <= MAX_LFN_ENTRIES
    ensures GroupName(NameEntries(name, checksum, LfnCount(name))) == Some(name)
  {
    var group := NameEntries(name, checksum, LfnCount(name));
    GroupCharsOfName(name, checksum, 0);
    assert group[0..] == group;
    assert (name + [0])[..|name| + 1] == name + [0];
    CStringOfText(name);
  }

  // --- Appending to a directory, and rewriting an entry ---

  /** The entry behind the long-name entries; the short name is only there to be unique. */
  function NewDirent(shortName: seq<byte>, isDirectory: bool, cluster: nat, size: nat): (e: DirentBytes)
    requires |shortName| == 11 && cluster < 0x10000 && size <= UINT32_MAX
    ensures Attributes(e) == (if isDirectory then 0x10 else 0) && IsDirectory(e) == isDirectory && IsPlain(e)
    ensures ClusterOf(e) == cluster && SizeOf(e) == size
    ensures e[0] == shortName[0] && e[20] == e[21] == 0
  {
    var e := shortName + [if isDirectory then 0x10 else 0, 0, 0, 0, 0, 0, 0, 0, 0, 0, 0, 0, 0, 0, 0]
             + ToLe16(cluster) + ToLe32(size);
    assert Le16(e, 26) == Le16(ToLe16(cluster), 0);
    assert Le32(e, 28) == Le32(ToLe32(size), 0);
    e
  }

  const ZERO_DIRENT: DirentBytes :=
    [0, 0, 0, 0, 0, 0, 0, 0, 0, 0, 0, 0, 0, 0, 0, 0, 0, 0, 0, 0, 0, 0, 0, 0, 0, 0, 0, 0, 0, 0, 0, 0]

  /** Everything `create_inode` writes: the long name, the entry, and a new end of directory. */
  function EntriesFor(name: seq<byte>, checksum: byte, e: DirentBytes): seq<DirentBytes>
    requires LfnCount(name) < 64
  {
    NameEntries(name, checksum, LfnCount(name)) + [e, ZERO_DIRENT]
  }

  /** An ordinary entry in use, as opposed to a long-name, deleted, or end entry. */
  ghost predicate IsOrdinary(e: DirentBytes) {
    && e[0] != 0 && e[0] != DELETED
    && Attributes(e) < 64 && Attributes(e) != ATTRIBUTES_LFN
    && e[20] == e[21] == 0
  }

  lemma {:induction false} ListEndsLater(dir: seq<DirentBytes>, i: nat, pending: seq<byte>)
    requires List(dir, i, pending).Names?
    ensures i <= List(dir, i, pending).end < |dir| && dir[List(dir, i, pending).end][0] == 0
    decreases |dir| - i
  {
    hide GroupName, ShortName;
    match ListStep(dir, i, pending)
    case Halt =>
    case End =>
    case LongName(name, next) => ListEndsLater(dir, next, name);
    case Entry(_) => ListEndsLater(dir, i + 1, []);
  }

  /** What is made of an entry depends only on the entries up to the place where the step leads. */
  lemma StepAgrees(dir: seq<DirentBytes>, dir': seq<DirentBytes>, i: nat, pending: seq<byte>, end: nat)
    requires !ListStep(dir, i, pending).Halt?
    requires i < end <= |dir'| && end <= |dir| && dir'[..end] == dir[..end]
    requires ListStep(dir, i, pending).LongName? ==> ListStep(dir, i, pending).next <= end
    ensures ListStep(dir', i, pending) == ListStep(dir, i, pending)
  {
    hide GroupName, ShortName;
    assert dir'[i] == dir'[..end][i] == dir[..end][i] == dir[i];
    if ListStep(dir, i, pending).LongName? {
      SlicesAgree(dir, dir', i, ListStep(dir, i, pending).next, end);
    }
  }

  /** A listing depends on the entries before its end only: beyond them it is continued. */
  lemma {:induction false} ListContinues(dir: seq<DirentBytes>, dir': seq<DirentBytes>, i: nat, pending: seq<byte>)
    requires List(dir, i, pending).Names?
    requires var end := List(dir, i, pending).end;
             end <= |dir'| && end <= |dir| && dir'[..end] == dir[..end]
    requires List(dir', List(dir, i, pending).end, List(dir, i, pending).leftover).Names?
    ensures var l := List(dir, i, pending);
            var l' := List(dir', l.end, l.leftover);
            List(dir', i, pending) == Names(l.entries + l'.entries, l'.end, l'.leftover)
    decreases |dir| - i
  {
    hide ListStep;
    var l := List(dir, i, pending);
    var l' := List(dir', l.end, l.leftover);
    match ListStep(dir, i, pending)
    case Halt =>
    case End =>
      assert [] + l'.entries == l'.entries;
    case LongName(name, next) =>
      ListEndsLater(dir, next, name);
      StepAgrees(dir, dir', i, pending, l.end);
      ListContinues(dir, dir', next, name);
    case Entry(name) =>
      ListEndsLater(dir, i + 1, []);
      StepAgrees(dir, dir', i, pending, l.end);
      ListContinues(dir, dir', i + 1, []);
      assert [Listed(name, i)] + (l.entries[1..] + l'.entries) == l.entries + l'.entries;
  }

  lemma SlicesAgree<T>(a: seq<T>, b: seq<T>, lo: nat, hi: nat, end: nat)
    requires lo <= hi <= end <= |a| && end <= |b| && a[..end] == b[..end]
    ensures a[lo..hi] == b[lo..hi]
  {
    SliceOfSlice(a, 0, end, lo, hi);
    SliceOfSlice(b, 0, end, lo, hi);
  }

  /** The listing from the place where a name's entries are. */
  lemma ListOfNew(dir: seq<DirentBytes>, at: nat, name: seq<byte>, checksum: byte, e: DirentBytes)
    requires IsName(name) && IsOrdinary(e) && LfnCount(name) < 64
    requires at + LfnCount(name) + 2 <= |dir|
    requires dir[at..at + LfnCount(name) + 2] == EntriesFor(name, checksum, e)
    ensures List(dir, at, []) == Names([Listed(name, at + LfnCount(name))], at + LfnCount(name) + 1, [])
  {
    hide NameEntry, GroupName, IsName, LfnCount;
    NameIsNotEmpty(name);
    NameRoundTrip(name, checksum);
    var count := LfnCount(name);
    var written := EntriesFor(name, checksum, e);
    NameEntryFields(name, checksum, count, 0);
    assert dir[at] == written[0];
    assert dir[at + count] == written[count] == e;
    assert dir[at + count + 1] == written[count + 1] == ZERO_DIRENT;
    SliceOfSlice(dir, at, at + count + 2, 0, count);
    assert written[..count] == NameEntries(name, checksum, count);
    assert dir[at..at + count] == written[0..count];
    assert List(dir, at + count + 1, []) == Names([], at + count + 1, []);
    assert List(dir, at + count, name) == Names([Listed(name, at + count)], at + count + 1, []);
  }

  lemma NameIsNotEmpty(name: seq<byte>)
    requires IsName(name)
    ensures name != []
  {
  }

  /** Creating a file appends its exact name to the directory's listing. */
  lemma ListAfterCreate(dir: seq<DirentBytes>, dir': seq<DirentBytes>, name: seq<byte>, checksum: byte, e: DirentBytes)
    requires IsName(name) && IsOrdinary(e) && LfnCount(name) < 64
    requires List(dir, 0, []).Names? && List(dir, 0, []).leftover == []
    requires var end := List(dir, 0, []).end;
             && end <= |dir| && end + LfnCount(name) + 2 <= |dir'|
             && dir'[..end] == dir[..end]
             && dir'[end..end + LfnCount(name) + 2] == EntriesFor(name, checksum, e)
    ensures var l := List(dir, 0, []);
            List(dir', 0, [])
            == Names(l.entries + [Listed(name, l.end + LfnCount(name))], l.end + LfnCount(name) + 1, [])
  {
    hide List, LfnCount, EntriesFor, IsName, IsOrdinary;
    ListOfNew(dir', List(dir, 0, []).end, name, checksum, e);
    ListContinues(dir, dir', 0, []);
  }

  lemma {:induction false} GroupIsLfn(group: seq<DirentBytes>, k: nat)
    requires GroupChars(group).Some? && k < |group|
    ensures Attributes(group[k]) == ATTRIBUTES_LFN
  {
    if k == 0 {
    } else {
      GroupIsLfn(group[1..], k - 1);
    }
  }

  /** The entry is the same, or an ordinary one of which only cluster and size were rewritten. */
  ghost predicate LooksTheSame(e: DirentBytes, e': DirentBytes) {
    e == e' || (Attributes(e) != ATTRIBUTES_LFN && e'[..26] == e[..26])
  }

  /** Rewriting cluster and size of ordinary entries changes no listing. */
  lemma {:induction false} ListStable(dir: seq<DirentBytes>, dir': seq<DirentBytes>, i: nat, pending: seq<byte>)
    requires |dir| <= |dir'| && forall k :: 0 <= k < |dir| ==> LooksTheSame(dir[k], dir'[k])
    requires List(dir, i, pending).Names?
    ensures List(dir', i, pending) == List(dir, i, pending)
    decreases |dir| - i
  {
    hide ListStep;
    StepStable(dir, dir', i, pending);
    match ListStep(dir, i, pending)
    case Halt =>
    case End =>
    case LongName(name, next) => ListStable(dir, dir', next, name);
    case Entry(name) => ListStable(dir, dir', i + 1, []);
  }

  lemma StepStable(dir: seq<DirentBytes>, dir': seq<DirentBytes>, i: nat, pending: seq<byte>)
    requires |dir| <= |dir'| && forall k :: 0 <= k < |dir| ==> LooksTheSame(dir[k], dir'[k])
    requires !ListStep(dir, i, pending).Halt?
    ensures ListStep(dir', i, pending) == ListStep(dir, i, pending)
  {
    hide GroupName, ShortName;
    assert LooksTheSame(dir[i], dir'[i]);
    SameFront(dir[i], dir'[i]);
    if ListStep(dir, i, pending).LongName? {
      var n := ListStep(dir, i, pending).next - i;
      GroupNameIsOfGroup(dir[i..i + n]);
      GroupUnchanged(dir, dir', i, n);
    }
  }

  lemma GroupNameIsOfGroup(group: seq<DirentBytes>)
    ensures GroupName(group).Some? ==> GroupChars(group).Some?
  {
  }

  lemma GroupUnchanged(dir: seq<DirentBytes>, dir': seq<DirentBytes>, i: nat, n: nat)
    requires |dir| <= |dir'| && i + n <= |dir| && forall k :: 0 <= k < |dir| ==> LooksTheSame(dir[k], dir'[k])
    requires GroupChars(dir[i..i + n]).Some?
    ensures dir'[i..i + n] == dir[i..i + n]
  {
    var group, group' := dir[i..i + n], dir'[i..i + n];
    forall k | 0 <= k < n
      ensures group'[k] == group[k]
    {
      GroupIsLfn(group, k);
      assert LooksTheSame(dir[i + k], dir'[i + k]);
    }
  }

  lemma SameFront(e: DirentBytes, e': DirentBytes)
    requires LooksTheSame(e, e')
    ensures Attributes(e') == Attributes(e) && e'[0] == e[0] && e'[20] == e[20] && e'[21] == e[21]
    ensures ShortName(e') == ShortName(e)
  {
    if e != e' {
      assert forall k :: 0 <= k < 26 ==> e'[k] == e'[..26][k] && e[k] == e[..26][k];
      assert e'[..8] == e[..8] && e'[8..11] == e[8..11];
    }
  }
}
