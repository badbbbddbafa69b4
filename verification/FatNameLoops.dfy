/** The loops that fill long-name entries and collect them again (stuos/src/fs_fat.c). */
module FatNameLoops {
  import opened Options
  import opened Bytes
  import opened FatVolumes
  import opened FatFiles
  import opened FatNames

  /** One chunk: characters up to and with the terminator, the rest left as filling. */
  method FillChunk(name: seq<byte>, from: nat) returns (chars: array<u16>, upto: nat)
    requires from % CHARS_PER_LFN == 0 && from <= |name|
    ensures fresh(chars) && chars.Length == CHARS_PER_LFN
    ensures chars[..] == Chunk(name, from / CHARS_PER_LFN)
    ensures from + CHARS_PER_LFN <= |name| ==> upto == from + CHARS_PER_LFN
  {
    chars := new u16[CHARS_PER_LFN](_ => 0xFFFF);
    var done := false;
    var i := 0;
    upto := from;
    while i < CHARS_PER_LFN && !done
      invariant 0 <= i <= CHARS_PER_LFN && upto == from + i
      invariant done <==> |name| < upto
      invariant done ==> upto == |name| + 1
      invariant forall k :: 0 <= k < CHARS_PER_LFN ==> chars[k] == if k < i then NameChar(name, from + k) else 0xFFFF
    {
      done := upto == |name|;
      chars[i] := if done then 0 else name[upto];
      upto := upto + 1;
      i := i + 1;
    }
    forall k | 0 <= k < CHARS_PER_LFN
      ensures chars[..][k] == Chunk(name, from / CHARS_PER_LFN)[k]
    {
      assert CHARS_PER_LFN * (from / CHARS_PER_LFN) == from;
      assert chars[k] == NameChar(name, from + k);
    }
  }

  /** The entries of a name, filled from the last one backwards. */
  method FillNameEntries(name: seq<byte>, checksum: byte) returns (entries: array<DirentBytes>)
    requires LfnCount(name) < 64
    ensures entries[..] == NameEntries(name, checksum, LfnCount(name))
  {
    var count := (|name| + CHARS_PER_LFN) / CHARS_PER_LFN;
    entries := new DirentBytes[count](_ => ZERO_DIRENT);
    var s := count;
    var position := 0;
    while s > 0
      invariant 0 <= s <= count && entries.Length == count == LfnCount(name)
      invariant s > 0 ==> position == CHARS_PER_LFN * (count - s)
      invariant forall k :: s <= k < count ==> entries[k] == NameEntry(name, checksum, count, k)
    {
      s := s - 1;
      var chars, upto := FillChunk(name, position);
      assert position / CHARS_PER_LFN == count - 1 - s;
      entries[s] := LfnEntry(count - s, s == 1, chars[..], checksum);
      position := upto;
    }
  }

  /** The characters of one entry, added behind what was collected from later ones. */
  method CollectChars(e: DirentBytes, collected: seq<byte>) returns (r: Option<seq<byte>>)
    ensures EntryChars(e, 0).None? ==> r.None?
    ensures EntryChars(e, 0).Some? ==> r == Some(collected + EntryChars(e, 0).value)
  {
    var chars := collected;
    var foundZero := false;
    var i := 0;
    while i < CHARS_PER_LFN && !foundZero
      invariant 0 <= i <= CHARS_PER_LFN
      invariant !foundZero && EntryChars(e, 0).Some? ==>
        EntryChars(e, i).Some? && collected + EntryChars(e, 0).value == chars + EntryChars(e, i).value
      invariant !foundZero && EntryChars(e, 0).None? ==> EntryChars(e, i).None?
      invariant foundZero ==> EntryChars(e, 0).Some? && chars == collected + EntryChars(e, 0).value
    {
      var c := LfnChar(e, i);
      if c >= 256 {
        return None;
      }
      if c != 0 && EntryChars(e, 0).Some? {
        assert chars + ([c as byte] + EntryChars(e, i + 1).value) == (chars + [c as byte]) + EntryChars(e, i + 1).value;
      }
      chars := chars + [c as byte];
      foundZero := c == 0;
      i := i + 1;
    }
    if !foundZero && EntryChars(e, 0).Some? {
      assert chars + [] == chars;
    }
    return Some(chars);
  }

  /** The long name spread over a group of entries, the last entry holding its beginning. */
  method DecodeGroup(group: seq<DirentBytes>) returns (r: Option<seq<byte>>)
    ensures r == GroupName(group)
  {
    var chars := [];
    var s := |group|;
    assert group[|group|..] == [];
    while s > 0
      invariant 0 <= s <= |group|
      invariant GroupChars(group[s..]) == Some(chars)
    {
      s := s - 1;
      var e := group[s];
      assert group[s..][1..] == group[s + 1..];
      if e[12] != 0 || e[26] != 0 || e[27] != 0 || Attributes(e) != ATTRIBUTES_LFN {
        FailsEarlier(group, s);
        return None;
      }
      var next := CollectChars(e, chars);
      if next.None? {
        FailsEarlier(group, s);
        return None;
      }
      chars := next.value;
    }
    assert group[0..] == group;
    if |chars| > MAX_PATH_LEN {
      return None;
    }
    var name := [];
    var i := 0;
    assert chars[0..] == chars;
    while i < |chars| && chars[i] != 0
      invariant 0 <= i <= |chars|
      invariant CString(chars) == name + CString(chars[i..])
    {
      assert chars[i..][1..] == chars[i + 1..];
      name := name + [chars[i]];
      i := i + 1;
    }
    assert name + [] == name;
    return Some(name);
  }

  /** A padded field, in lower case, behind what is there already. */
  method DecodeField(e: DirentBytes, lo: nat, hi: nat, front: seq<byte>) returns (name: seq<byte>)
    requires lo <= hi <= 11
    ensures name == front + Padded(e[lo..hi])
  {
    name := front;
    ghost var field := e[lo..hi];
    var i := lo;
    assert field[0..] == field;
    while i < hi && e[i] != 32
      invariant lo <= i <= hi && front + Padded(field) == name + Padded(field[i - lo..])
    {
      FieldStep(field, i - lo, name);
      name := name + [ToLower(e[i])];
      i := i + 1;
    }
    assert name + [] == name;
  }

  lemma FieldStep(field: seq<byte>, i: nat, name: seq<byte>)
    requires i < |field| && field[i] != 32
    ensures name + Padded(field[i..]) == name + [ToLower(field[i])] + Padded(field[i + 1..])
  {
    assert field[i..][1..] == field[i + 1..];
  }

  /** The short name: both fields up to their padding, with a dot between them if there is an extension. */
  method DecodeShortName(e: DirentBytes) returns (name: seq<byte>)
    ensures name == ShortName(e)
  {
    hide Padded;
    name := DecodeField(e, 0, 8, []);
    assert e[0..8] == e[..8] && [] + Padded(e[..8]) == Padded(e[..8]);
    if e[8] != 32 {
      name := name + [46];
    } else {
      assert name + [] == name;
    }
    name := DecodeField(e, 8, 11, name);
  }

  /** A halt inside the group is a halt for the group. */
  lemma {:induction false} FailsEarlier(group: seq<DirentBytes>, s: nat)
    requires s <= |group| && GroupChars(group[s..]).None?
    ensures GroupChars(group).None?
  {
    if s == 0 {
      assert group[0..] == group;
    } else {
      assert group[s - 1..][1..] == group[s..];
      FailsEarlier(group, s - 1);
    }
  }
}
