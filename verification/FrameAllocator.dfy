/**
  The physical frame allocator: one flag per 4096-byte frame, first fit
  (stuos/src/physical_slab_allocation.c).
 */
module FrameAllocators {

  const UINT64_MAX: nat := 0xFFFF_FFFF_FFFF_FFFF

  function RoundUpPages(bytes: nat): (pages: nat)
    ensures 4096 * (pages - 1) < bytes <= 4096 * pages
  {
    (bytes + 4095) / 4096
  }

  /** Frame numbers are physical addresses without their low 12 bits. */
  function PhysOf(frame: nat): nat { 4096 * frame }
  function FrameOf(phys: nat): nat { phys / 4096 }

  lemma FrameOfPhys(frame: nat)
    ensures FrameOf(PhysOf(frame)) == frame && PhysOf(frame) % 4096 == 0
  {
  }

  function Frames(first: nat, n: nat): set<nat> {
    if n == 0 then {} else Frames(first, n - 1) + {first + n - 1}
  }

  /** A run of `n` free flags starting at `start`. */
  ghost predicate FreeRun(flags: seq<bool>, start: nat, n: nat) {
    start + n <= |flags| && forall k :: start <= k < start + n ==> !flags[k]
  }

  /** `flags` with `n` of them set from `start` on. */
  ghost predicate SetRun(flags: seq<bool>, flags': seq<bool>, start: nat, n: nat) {
    && |flags'| == |flags|
    && forall k :: 0 <= k < |flags| ==> flags'[k] == (flags[k] || start <= k < start + n)
  }

  class FrameAllocator {
    const flags: array<bool>
    /** The first frame that can be handed out. */
    const baseFrame: nat
    /** The frames whose flag is set. */
    ghost var used: set<nat>
    /** Every frame ever given back, in order. */
    ghost var freed: seq<nat>

    ghost predicate Valid()
      reads this, flags
    {
      && (forall f :: f in used ==> InPool(f))
      && (forall n :: 0 <= n < flags.Length ==> (flags[n] <==> baseFrame + n in used))
    }

    predicate InPool(f: int) {
      baseFrame <= f < baseFrame + flags.Length
    }

    /** No frame left: the source halts. */
    ghost predicate Exhausted()
      reads this
    {
      forall f: nat :: InPool(f) ==> f in used
    }

    /**
      The flags themselves occupy the first pages of the memory range. They fit there, and
      everything else of the range can be handed out.
     */
    constructor (basePhys: nat, memSizeBytes: nat)
      requires basePhys % 4096 == 0
      ensures Valid() && fresh(flags) && used == {} && freed == []
      ensures flags.Length <= PhysOf(baseFrame) - basePhys
      ensures PhysOf(baseFrame + flags.Length) <= basePhys + memSizeBytes < PhysOf(baseFrame + flags.Length) + 4096
    {
      var totalPageCount := memSizeBytes / 4096;
      var pagesForFlags := RoundUpPages(totalPageCount);
      flags := new bool[totalPageCount - pagesForFlags](_ => false);
      baseFrame := basePhys / 4096 + pagesForFlags;
      used, freed := {}, [];
    }

    method Malloc4k() returns (ok: bool, phys: nat)
      requires Valid()
      modifies this`used, flags
      ensures Valid()
      ensures ok ==> phys == PhysOf(FrameOf(phys)) && InPool(FrameOf(phys))
      ensures ok ==> FrameOf(phys) !in old(used) && used == old(used) + {FrameOf(phys)}
      ensures ok ==> forall g: nat :: InPool(g) && g < FrameOf(phys) ==> g in old(used)
      ensures !ok ==> Exhausted() && used == old(used)
    {
      var pageNum := 0;
      while pageNum < flags.Length
        invariant 0 <= pageNum <= flags.Length
        invariant forall n :: 0 <= n < pageNum ==> flags[n]
      {
        if !flags[pageNum] {
          flags[pageNum] := true;
          used := used + {baseFrame + pageNum};
          FrameOfPhys(baseFrame + pageNum);
          forall g: nat | InPool(g) && g < baseFrame + pageNum
            ensures g in old(used)
          {
            assert old(flags[g - baseFrame]);
          }
          return true, PhysOf(baseFrame + pageNum);
        }
        pageNum := pageNum + 1;
      }
      forall f: nat | InPool(f)
        ensures f in used
      {
        assert flags[f - baseFrame];
      }
      ok, phys := false, 0;
    }

    /** The lowest run of free frames, or none because there is none. */
    method MallocContiguous(numPages: nat) returns (ok: bool, phys: nat, ghost start: nat)
      requires Valid() && 0 < numPages && flags.Length < UINT64_MAX
      modifies this`used, flags
      ensures Valid()
      ensures ok ==> phys == PhysOf(baseFrame + start)
                     && FreeRun(old(flags[..]), start, numPages) && SetRun(old(flags[..]), flags[..], start, numPages)
                     && forall s: nat :: s < start ==> !FreeRun(old(flags[..]), s, numPages)
      ensures !ok ==> flags[..] == old(flags[..]) && forall s: nat :: !FreeRun(flags[..], s, numPages)
    {
      var runStart: nat, runLength: nat, pageNum: nat := UINT64_MAX, 0, 0;
      while pageNum < flags.Length
        invariant 0 <= pageNum <= flags.Length
        invariant Valid() && flags[..] == old(flags[..])
        invariant runStart == UINT64_MAX ==> runLength == 0 && (pageNum == 0 || flags[pageNum - 1])
        invariant runStart != UINT64_MAX ==> runStart + runLength == pageNum && FreeRun(flags[..], runStart, runLength)
                                             && (runStart == 0 || flags[runStart - 1])
        invariant runLength < numPages
        invariant forall s: nat :: s + numPages <= pageNum ==> !FreeRun(flags[..], s, numPages)
      {
        if !flags[pageNum] {
          if runStart == UINT64_MAX {
            runStart, runLength := pageNum, 0;
          }
          runLength := runLength + 1;
        } else {
          runLength, runStart := 0, UINT64_MAX;
        }
        ghost var blocker := if runStart == UINT64_MAX then pageNum else runStart - 1;
        assert blocker >= 0 ==> flags[..][blocker];
        if runLength == numPages {
          SetFlags(runStart, runLength);
          start := runStart;
          return true, PhysOf(baseFrame + runStart), start;
        }
        pageNum := pageNum + 1;
      }
      ok, phys, start := false, 0, 0;
    }

    /** The inner loop of the contiguous allocation. */
    method SetFlags(start: nat, n: nat)
      requires Valid() && start + n <= flags.Length
      modifies this`used, flags
      ensures Valid() && SetRun(old(flags[..]), flags[..], start, n)
    {
      var i := start;
      while i < start + n
        invariant start <= i <= start + n
        invariant Valid() && SetRun(old(flags[..]), flags[..], start, i - start)
      {
        flags[i] := true;
        used := used + {baseFrame + i};
        i := i + 1;
      }
    }

    /** Halts unless `phys` is the start of a page. */
    method Free4k(phys: nat)
      requires Valid() && phys % 4096 == 0 && InPool(FrameOf(phys))
      modifies this, flags
      ensures Valid()
      ensures used == old(used) - {FrameOf(phys)} && freed == old(freed) + [FrameOf(phys)]
    {
      var pageOffset := (phys - PhysOf(baseFrame)) / 4096;
      flags[pageOffset] := false;
      used := used - {FrameOf(phys)};
      freed := freed + [FrameOf(phys)];
    }

    method FreeContiguous(phys: nat, numPages: nat)
      requires Valid() && phys % 4096 == 0 && 0 < numPages
      requires baseFrame <= FrameOf(phys) && FrameOf(phys) + numPages <= baseFrame + flags.Length
      modifies this, flags
      ensures Valid()
      ensures used == old(used) - Frames(FrameOf(phys), numPages)
    {
      var i := 0;
      while i < numPages
        invariant 0 <= i <= numPages && Valid()
        invariant used == old(used) - Frames(FrameOf(phys), i)
      {
        assert FrameOf(phys + 4096 * i) == FrameOf(phys) + i;
        Free4k(phys + 4096 * i);
        i := i + 1;
      }
    }
  }
}
