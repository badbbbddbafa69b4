/**
  The block device layer: partitions of a disk, reached through whole 512-byte
  sectors with a one-sector read cache (stuos/src/fs_dev.c).
 */
module BlockDevices {
  import opened Bytes

  const SECTOR: nat := 512

  /** The length of a partition is recorded by the source but never consulted. */
  datatype Partition = Partition(byteOffset: nat, byteLength: nat)

  class BlockDevice {
    const sectorCount: nat
    const partitions: seq<Partition>
    /** The sector buffer, allocated once when the device is added. */
    const cacheData: array<byte>
    var cacheSector: nat
    var cacheValid: bool
    /** What is on the medium. */
    var disk: seq<byte>

    /** A valid cache always equals its sector on disk. */
    ghost predicate Valid()
      reads this, cacheData
    {
      && cacheData.Length == SECTOR
      && |disk| == SECTOR * sectorCount
      && (cacheValid ==>
            cacheSector < sectorCount
            && cacheData[..] == disk[SECTOR * cacheSector..SECTOR * cacheSector + SECTOR])
    }

    constructor (sectorCount: nat, partitions: seq<Partition>, disk: seq<byte>)
      requires |disk| == SECTOR * sectorCount
      ensures Valid() && fresh(cacheData)
      ensures this.sectorCount == sectorCount && this.partitions == partitions && this.disk == disk
    {
      this.sectorCount := sectorCount;
      this.partitions := partitions;
      this.disk := disk;
      cacheData := new byte[SECTOR](_ => 0);
      cacheSector := 0;
      cacheValid := false;
    }

    /** The driver's whole-sector read. */
    method BlockRead(sector: nat, output: array<byte>)
      requires |disk| == SECTOR * sectorCount
      requires sector < sectorCount && output.Length == SECTOR
      modifies output
      ensures output[..] == disk[SECTOR * sector..SECTOR * sector + SECTOR]
    {
      var i := 0;
      while i < SECTOR
        invariant 0 <= i <= SECTOR
        invariant disk == old(disk)
        invariant output[..i] == disk[SECTOR * sector..SECTOR * sector + i]
      {
        output[i] := disk[SECTOR * sector + i];
        i := i + 1;
      }
    }

    /** The driver's whole-sector write. */
    method BlockWrite(sector: nat, input: array<byte>)
      requires |disk| == SECTOR * sectorCount
      requires sector < sectorCount && input.Length == SECTOR
      modifies this`disk
      ensures disk == Splice(old(disk), SECTOR * sector, input[..])
    {
      disk := disk[..SECTOR * sector] + input[..] + disk[SECTOR * sector + SECTOR..];
    }

    /** Where byte `offset` of partition `part` lies on the disk. */
    function Base(part: nat): nat
      requires part < |partitions|
    {
      partitions[part].byteOffset
    }

    method WriteFile(part: nat, offset: nat, input: seq<byte>) returns (written: nat)
      requires Valid()
      requires part < |partitions| && 0 < |input|
      requires Base(part) + offset + |input| <= |disk|
      modifies this
      ensures Valid()
      ensures disk == Splice(old(disk), Base(part) + offset, input)
      ensures written == |input|
    {
      var start := offset + partitions[part].byteOffset;
      var sector := start / SECTOR;
      var lastSector := (start + |input| - 1) / SECTOR;
      var bytesWritten := 0;
      var offsetInSector: nat := start % SECTOR;
      ghost var disk0 := disk;
      while sector <= lastSector
        invariant Valid()
        invariant 0 <= bytesWritten <= |input|
        invariant offsetInSector < SECTOR
        invariant start / SECTOR <= sector <= lastSector + 1
        invariant sector <= lastSector ==>
          start + bytesWritten == SECTOR * sector + offsetInSector && bytesWritten < |input|
        invariant sector == lastSector + 1 ==> bytesWritten == |input|
        invariant disk == Splice(disk0, start, input[..bytesWritten])
        decreases lastSector + 1 - sector
      {
        var done := bytesWritten;
        bytesWritten := WriteSector(sector, offsetInSector, input, bytesWritten);
        assert input[..done] + input[done..bytesWritten] == input[..bytesWritten];
        SpliceJoin(disk0, start, input[..done], input[done..bytesWritten]);
        offsetInSector := 0;
        sector := sector + 1;
      }
      assert input[..|input|] == input;
      written := |input|;
    }

    /** One round of the write loop: read the sector, overwrite part of it, write it back. */
    method WriteSector(sector: nat, offsetInSector: nat, input: seq<byte>, from: nat) returns (upto: nat)
      requires Valid()
      requires sector < sectorCount && offsetInSector < SECTOR && from <= |input|
      modifies this
      ensures Valid()
      ensures upto == if |input| - from <= SECTOR - offsetInSector then |input| else from + SECTOR - offsetInSector
      ensures disk == Splice(old(disk), SECTOR * sector + offsetInSector, input[from..upto])
    {
      var data := new byte[SECTOR];
      BlockRead(sector, data);
      ghost var original := data[..];
      upto := Overwrite(data, offsetInSector, input, from);
      BlockWrite(sector, data);
      cacheValid := false;
      SpliceInSector(old(disk), SECTOR * sector, original, offsetInSector, input[from..upto]);
    }

    /** Fill the sector buffer from `offsetInSector` on, as far as sector and input go. */
    method Overwrite(data: array<byte>, offsetInSector: nat, input: seq<byte>, from: nat) returns (upto: nat)
      requires data.Length == SECTOR && offsetInSector < SECTOR && from <= |input|
      modifies data
      ensures upto == if |input| - from <= SECTOR - offsetInSector then |input| else from + SECTOR - offsetInSector
      ensures data[..] == Splice(old(data[..]), offsetInSector, input[from..upto])
    {
      var k := offsetInSector;
      upto := from;
      while k < SECTOR && upto < |input|
        invariant offsetInSector <= k <= SECTOR && from <= upto <= |input|
        invariant k - offsetInSector == upto - from
        invariant forall j :: 0 <= j < SECTOR ==>
          data[j] == if offsetInSector <= j < k then input[from + j - offsetInSector] else old(data[j])
      {
        data[k] := input[upto];
        k, upto := k + 1, upto + 1;
      }
    }

    method ReadFile(part: nat, offset: nat, numBytes: nat) returns (output: seq<byte>)
      requires Valid()
      requires part < |partitions| && 0 < numBytes
      requires Base(part) + offset + numBytes <= |disk|
      modifies this`cacheSector, this`cacheValid, cacheData
      ensures Valid()
      ensures output == disk[Base(part) + offset..Base(part) + offset + numBytes]
    {
      var start := offset + partitions[part].byteOffset;
      var sector := start / SECTOR;
      var lastSector := (start + numBytes - 1) / SECTOR;
      var offsetInSector: nat := start % SECTOR;
      output := [];
      while sector <= lastSector
        invariant Valid()
        invariant disk == old(disk)
        invariant |output| <= numBytes
        invariant offsetInSector < SECTOR
        invariant start / SECTOR <= sector <= lastSector + 1
        invariant sector <= lastSector ==>
          start + |output| == SECTOR * sector + offsetInSector && |output| < numBytes
        invariant sector == lastSector + 1 ==> |output| == numBytes
        invariant output == disk[start..start + |output|]
        decreases lastSector + 1 - sector
      {
        if cacheSector != sector || !cacheValid {
          cacheSector := sector;
          cacheValid := true;
          BlockRead(sector, cacheData);
        }
        while offsetInSector < SECTOR && |output| < numBytes
          invariant Valid() && cacheValid && cacheSector == sector
          invariant offsetInSector <= SECTOR && |output| <= numBytes
          invariant start + |output| == SECTOR * sector + offsetInSector
          invariant output == disk[start..start + |output|]
        {
          assert cacheData[offsetInSector] == cacheData[..][offsetInSector];
          NextByte(disk, start, |output|, SECTOR * sector, offsetInSector);
          output := output + [cacheData[offsetInSector]];
          offsetInSector := offsetInSector + 1;
        }
        offsetInSector := 0;
        sector := sector + 1;
      }
    }

    /**
      Bytes written through one partition are what any other reads: a read sees the written
      bytes where the two ranges meet on the disk and the former contents elsewhere.
     */
    method WriteThenReadElsewhere(part: nat, offset: nat, input: seq<byte>, other: nat, at: nat, n: nat)
      returns (output: seq<byte>)
      requires Valid() && part < |partitions| && other < |partitions| && input != [] && 0 < n
      requires Base(part) + offset + |input| <= |disk| && Base(other) + at + n <= |disk|
      modifies this, cacheData
      ensures Valid() && |output| == n
      ensures forall k :: 0 <= k < n ==>
                var place := Base(other) + at + k - (Base(part) + offset);
                output[k] == if 0 <= place < |input| then input[place] else old(disk)[Base(other) + at + k]
    {
      SpliceSeenFrom(disk, Base(part) + offset, input, Base(other) + at, n);
      var _ := WriteFile(part, offset, input);
      output := ReadFile(other, at, n);
    }
  }

  lemma NextByte(disk: seq<byte>, start: nat, n: nat, at: nat, off: nat)
    requires start + n == at + off && off < SECTOR && at + SECTOR <= |disk|
    ensures disk[start..start + (n + 1)] == disk[start..start + n] + [disk[at..at + SECTOR][off]]
  {
  }

  /** Writing back a sector overwritten in part changes only that part of the disk. */
  lemma SpliceInSector(disk: seq<byte>, at: nat, sector: seq<byte>, off: nat, b: seq<byte>)
    requires at + |sector| <= |disk| && sector == disk[at..at + |sector|] && off + |b| <= |sector|
    ensures Splice(disk, at, Splice(sector, off, b)) == Splice(disk, at + off, b)
  {
    forall k | 0 <= k < |disk|
      ensures Splice(disk, at, Splice(sector, off, b))[k] == Splice(disk, at + off, b)[k]
    {
    }
  }

  lemma SpliceSeenFrom(disk: seq<byte>, off: nat, b: seq<byte>, lo: nat, n: nat)
    requires off + |b| <= |disk| && lo + n <= |disk|
    ensures var after := Splice(disk, off, b)[lo..lo + n];
            forall k :: 0 <= k < n ==> after[k] == if off <= lo + k < off + |b| then b[lo + k - off] else disk[lo + k]
  {
  }
}
