/**
  The allocator's operations on its own headers (custom_malloc/library.c,
  custom_malloc/linked_list_item.c) and the page-wise growth below it (custom_libc/init.c).
  Where the source checks something and halts, the model asserts it.
 */
module HeapAllocators {
  import opened Bytes
  import opened HeapLayout
  import opened Heaps

  /** No run of free regions fits, and there are fewer pages than the free regions at the end lack. */
  ghost predicate Refused(l: Layout, size: nat, pages: nat) {
    NoFitBefore(l, |l.nodes|, size) && pages < PagesFor(Lacking(l, size) + HEADER)
  }

  class Allocator {
    var mem: map<nat, Cell>
    var head: nat
    var tail: nat
    var heapEnd: nat
    ghost var l: Layout

    ghost predicate Valid()
      reads this
    {
      && Shows(mem, l)
      && head == l.nodes[0].addr
      && tail == LastAddr(l)
      && heapEnd == l.end
      && PageAligned(heapEnd) && heapEnd < LIMIT
    }

    /** The program has no allocator yet: all of it is zero. */
    constructor ()
    {
      mem, head, tail, heapEnd, l := map[], 0, 0, 0, Layout([], 0);
    }

    // --- linked_list_item.c ---

    method GetNext(self: nat, ghost i: nat) returns (next: nat)
      requires Valid() && i < |l.nodes| && self == l.nodes[i].addr
      ensures next == if i + 1 < |l.nodes| then l.nodes[i + 1].addr else 0
      ensures self in mem && next == NextOf(mem[self])
    {
      assert HeaderAt(mem, l, i);
      assert CanaryOf(mem[self]) == LL_CANARY;
      next := NextOf(mem[self]);
    }

    method IsFree(self: nat, ghost i: nat) returns (free: bool)
      requires Valid() && i < |l.nodes| && self == l.nodes[i].addr
      ensures free == l.nodes[i].free
    {
      assert HeaderAt(mem, l, i);
      assert CanaryOf(mem[self]) == LL_CANARY;
      free := IsFreeOf(mem[self]);
    }

    method RegionSize(self: nat, ghost i: nat) returns (size: nat)
      requires Valid() && i < |l.nodes| && self == l.nodes[i].addr
      ensures size == l.Size(i)
    {
      var next := GetNext(self, i);
      var regionEnd := if next != 0 then next else heapEnd;
      var bytes: int := regionEnd - (self + HEADER);
      assert 0 <= bytes;
      size := bytes;
    }

    method MarkAs(self: nat, free: bool, ghost i: nat)
      requires Valid() && i < |l.nodes| && self == l.nodes[i].addr
      modifies this
      ensures Valid() && l == old(l).Marked(i, free)
      ensures SameExcept(old(mem), mem, self, self)
      ensures heapEnd == old(heapEnd)
    {
      MarkShows(mem, l, i, free);
      assert HeaderAt(mem, l, i);
      assert CanaryOf(mem[self]) == LL_CANARY;
      mem := mem[self := WithFree(mem[self], free)];
      l := l.Marked(i, free);
    }

    /** Put a new free header behind `self`, inside its region. */
    method InsertAfter(self: nat, toInsert: nat, ghost i: nat)
      requires Valid() && i < |l.nodes| && self == l.nodes[i].addr
      requires Aligned(toInsert) && self + HEADER <= toInsert && toInsert + HEADER <= l.End(i)
      modifies this
      ensures Valid() && l == old(l).Inserted(i, toInsert)
      ensures SameExcept(old(mem), mem, self, toInsert)
      ensures heapEnd == old(heapEnd)
    {
      hide Linked, Layout.Ok, Layout.Inserted, SameExcept, NextOf, HeaderAt, Backed;
      InsertStep(mem, l, i, toInsert);
      AddressesPositive(l, i);
      var after := GetNext(self, i);
      assert toInsert != 0 && self + HEADER <= toInsert;
      mem := Linked(mem, self, toInsert, after);
      if after == 0 {
        tail := toInsert;
      } else {
        assert toInsert + HEADER <= after;
      }
      l := l.Inserted(i, toInsert);
    }

    /** Take the header behind `self` away if both regions are free. */
    method TryMergeAfter(self: nat, ghost i: nat) returns (merged: bool)
      requires Valid() && i < |l.nodes| && self == l.nodes[i].addr
      modifies this
      ensures Valid()
      ensures merged <==> i + 1 < |old(l.nodes)| && old(l.nodes[i].free) && old(l.nodes[i + 1].free)
      ensures l == if merged then old(l).Merged(i) else old(l)
      ensures l.Blocks() == old(l.Blocks())
      ensures DataKept(old(l.Blocks()), old(mem), mem)
      ensures heapEnd == old(heapEnd)
    {
      hide HeaderAt, Backed, Layout.Ok, Layout.Merged, Layout.Blocks, SameExcept, DataKept, Outside, NextOf,
        WithNext, Destroyed;
      AddressesPositive(l, i);
      DataStays(l.Blocks(), mem);
      var toDestroy := GetNext(self, i);
      if toDestroy == 0 {
        return false;
      }
      var selfFree := IsFree(self, i);
      var nextFree := IsFree(toDestroy, i + 1);
      if !selfFree || !nextFree {
        return false;
      }
      MergeStep(mem, l, i);
      var afterRemoved := GetNext(toDestroy, i + 1);
      mem := mem[self := WithNext(mem[self], afterRemoved)];
      if toDestroy == tail {
        tail := self;
      }
      mem := mem[toDestroy := Destroyed(mem[toDestroy])];
      l := l.Merged(i);
      merged := true;
    }

    // --- init.c and library.c ---

    /**
      Map pages one by one behind `end`; the kernel grants those in `supply` and then has
      no memory left.
     */
    method MallocExpandHeap(end: nat, bytes: nat, supply: seq<Page>) returns (granted: nat)
      requires PageAligned(end)
      modifies this`mem
      ensures granted == Pages(if PagesFor(bytes) <= |supply| then PagesFor(bytes) else |supply|)
      ensures Extended(old(mem), mem, end, end + granted)
    {
      var roundedUpPages := PagesFor(bytes);
      var i := 0;
      while i < roundedUpPages
        invariant i <= roundedUpPages && i <= |supply|
        invariant Extended(old(mem), mem, end, end + Pages(i))
      {
        if i == |supply| {
          return Pages(i);
        }
        PageExtends(old(mem), mem, end, end + Pages(i), supply[i]);
        mem := WithPage(mem, end + Pages(i), supply[i]);
        i := i + 1;
      }
      granted := Pages(i);
    }

    /** Grow the heap; only if all of the growth was granted, a new free region is made of it. */
    method ExpandHeap(requested: nat, supply: seq<Page>) returns (ok: bool)
      requires Valid() && heapEnd + requested + HEADER + PAGE_SIZE < LIMIT
      modifies this
      ensures Valid()
      ensures ok <==> PagesFor(requested + HEADER) <= |supply|
      ensures old(heapEnd) <= heapEnd
      ensures ok ==> old(heapEnd) + requested + HEADER <= heapEnd
      ensures ok ==> l == old(l).(end := heapEnd).Inserted(|old(l).nodes| - 1, old(heapEnd))
      ensures !ok ==> l == old(l).(end := heapEnd)
      ensures ok ==> l.Blocks() == old(l.Blocks())
      ensures DataKept(old(l.Blocks()), old(mem), mem)
    {
      hide HeaderAt, Backed, Layout.Ok, Layout.Inserted, LiveBlocks, DataKept;
      var needed := requested + HEADER;
      ghost var l0, mem0 := l, mem;
      var granted := MallocExpandHeap(heapEnd, needed, supply);
      var oldHeapEnd := heapEnd;
      heapEnd := heapEnd + granted;
      PageSums(oldHeapEnd, granted);
      GrowthShows(mem0, mem, l0, heapEnd);
      l := l0.(end := heapEnd);
      if granted < needed {
        return false;
      }
      ghost var mem1 := mem;
      GrowthBehindHeader(l0, heapEnd);
      InsertAfter(tail, oldHeapEnd, |l.nodes| - 1);
      HeaderBehindKeepsData(l0, mem0, mem1, mem);
      ok := true;
    }

    /**
      No run fits: ask for what the free region at the end, if any, lacks. The source
      halts unless the last region then is free and large enough.
     */
    method GrowForRequest(size: nat, supply: seq<Page>) returns (found: nat, ghost at: nat)
      requires Valid() && 0 < size && heapEnd + size + HEADER + PAGE_SIZE < LIMIT
      requires l.nodes[|l.nodes| - 1].free ==> l.Size(|l.nodes| - 1) < size
      modifies this
      ensures Valid()
      ensures DataKept(old(l.Blocks()), old(mem), mem)
      ensures found != 0 ==> heapEnd != old(heapEnd) && l.Blocks() == old(l.Blocks())
      ensures found != 0 ==> at < |l.nodes| && l.nodes[at] == Node(found, true) && size <= l.Size(at)
      ensures found == 0 ==> Grew(old(l.Blocks()), l.Blocks())
      ensures var last := |old(l).nodes| - 1;
              var lacking := size - if old(l).nodes[last].free then old(l).Size(last) else 0;
              found == 0 <==> |supply| < PagesFor(lacking + HEADER)
    {
      hide HeaderAt, Backed, Layout.Ok, LiveBlocks, DataKept, Layout.Blocks, Layout.Inserted, Layout.Merged,
        PagesFor, Aligned, PageAligned;
      ListStarts(mem, l);
      ghost var l0, mem0, last := l, mem, |l.nodes| - 1;
      var oldLast := tail;
      var lastFree := IsFree(oldLast, last);
      var lastSize := 0;
      if lastFree {
        lastSize := RegionSize(oldLast, last);
      }
      var ok := ExpandHeap(size - lastSize, supply);
      if !ok {
        GrowthOfLast(l0, heapEnd);
        return 0, 0;
      }
      GrownNodes(l0, heapEnd);
      ghost var mem1 := mem;
      ghost var merged := TryMergeAfter(oldLast, last);
      DataKeptThen(l0.Blocks(), mem0, mem1, mem);
      at := |l.nodes| - 1;
      AddressesPositive(l, at);
      var tailFree := IsFree(tail, at);
      assert tailFree;
      var tailSize := RegionSize(tail, at);
      assert size <= tailSize;
      found := tail;
    }

    /** Merge the region at the cursor with all free ones behind it. */
    method MergeRun(cursor: nat, ghost l0: Layout, ghost c: nat, ghost j: nat, ghost size: nat) returns (ghost m: nat)
      requires Valid() && c < |l.nodes| && l.nodes[c].addr == cursor && Searching(l0, l, c, j, size)
      modifies this
      ensures Valid() && heapEnd == old(heapEnd)
      ensures l.Blocks() == old(l.Blocks()) && DataKept(old(l.Blocks()), old(mem), mem)
      ensures c < |l.nodes| && l.nodes[c].addr == cursor && j < m <= |l0.nodes|
      ensures Merging(l0, l, c, j, m, size)
      ensures !(l.nodes[c].free && c + 1 < |l.nodes| && l.nodes[c + 1].free)
    {
      hide HeaderAt, Backed, Layout.Ok, DataKept, Layout.Blocks, Searching, Layout.Merged;
      ghost var blocks, mem0 := l.Blocks(), mem;
      m := j + 1;
      StartMerging(l0, l, c, j, size);
      DataStays(blocks, mem);
      var merged := true;
      while merged
        invariant Valid() && heapEnd == old(heapEnd)
        invariant l.Blocks() == blocks && DataKept(blocks, mem0, mem)
        invariant Merging(l0, l, c, j, m, size) && l.nodes[c].addr == cursor
        invariant !merged ==> !(l.nodes[c].free && c + 1 < |l.nodes| && l.nodes[c + 1].free)
        decreases |l0.nodes| - m, merged
      {
        ghost var l1, mem1 := l, mem;
        merged := TryMergeAfter(cursor, c);
        DataKeptThen(blocks, mem0, mem1, mem);
        if merged {
          MergingGoesOn(l0, l1, c, j, m, size);
          m := m + 1;
        }
      }
    }

    /**
      First fit, merging free regions on the way. The heap grows exactly if no run of
      adjacent free regions can hold the request; otherwise the first such run is taken.
      It asks for what the free regions at the end of the heap lack.
     */
    method FindOrMakeFree(size: nat, supply: seq<Page>) returns (found: nat, ghost at: nat)
      requires Valid() && 0 < size && heapEnd + size + HEADER + PAGE_SIZE < LIMIT
      modifies this
      ensures Valid()
      ensures DataKept(old(l.Blocks()), old(mem), mem)
      ensures found != 0 ==> l.Blocks() == old(l.Blocks())
      ensures found != 0 ==> at < |l.nodes| && l.nodes[at] == Node(found, true) && size <= l.Size(at)
      ensures found != 0 && heapEnd == old(heapEnd) ==> FirstFit(old(l), found, size)
      ensures heapEnd != old(heapEnd) || found == 0 ==> NoFitBefore(old(l), |old(l).nodes|, size)
      ensures found == 0 ==> Grew(old(l.Blocks()), l.Blocks())
      ensures found == 0 <==> Refused(old(l), size, |supply|)
    {
      hide Shows, Layout.Ok, LiveBlocks, DataKept, Layout.Blocks, RunEnd, NoFitBefore, FirstFit, Grew, Searching,
        Merging, PagesFor, PageAligned, FreeBefore, Lacking;
      ghost var l0, mem0 := l, mem;
      var cursor := head;
      ghost var c, j := 0, 0;
      ListStarts(mem, l);
      StartSearch(l, size);
      DataStays(l.Blocks(), mem);
      while cursor != 0
        invariant Valid() && heapEnd == l0.end
        invariant c <= |l.nodes| && j <= |l0.nodes| && (c == 0 ==> cursor != 0) && Searching(l0, l, c, j, size)
        invariant cursor == if c < |l.nodes| then l.nodes[c].addr else 0
        invariant cursor == 0 ==> c == |l.nodes|
        invariant l.Blocks() == l0.Blocks() && DataKept(l0.Blocks(), mem0, mem)
        decreases |l0.nodes| - j
      {
        ghost var mem1 := mem;
        ghost var m := MergeRun(cursor, l0, c, j, size);
        DataKeptThen(l0.Blocks(), mem0, mem1, mem);
        var regionSize := RegionSize(cursor, c);
        var free := IsFree(cursor, c);
        if regionSize >= size && free {
          FitFound(l0, l, c, j, m, size);
          FirstFitIsFit(l0, cursor, size);
          HeadersPositive(mem, l, c);
          return cursor, c;
        }
        NotFound(l0, l, c, j, m, size);
        HeadersPositive(mem, l, c);
        cursor := GetNext(cursor, c);
        c, j := c + 1, m;
      }
      SearchExhausted(l0, l, c, j, size);
      ListStarts(mem, l);
      LackingIs(l0, l, size);
      ghost var mem1 := mem;
      found, at := GrowForRequest(size, supply);
      DataKeptThen(l0.Blocks(), mem0, mem1, mem);
    }

    /** The first header, alone on the first page. Without a page there is no heap; the source halts. */
    method Init(heapStart: nat, supply: seq<Page>) returns (ok: bool)
      requires PageAligned(heapStart) && 0 < heapStart && heapStart + PAGE_SIZE < LIMIT
      modifies this
      ensures ok <==> supply != []
      ensures ok ==> Valid() && l.Blocks() == map[] && heapEnd == heapStart + PAGE_SIZE
    {
      hide Shows, Layout.Blocks, Aligned, PageAligned, Backed, NewHeader, PagesFor, Pages;
      var granted := MallocExpandHeap(heapStart, HEADER, supply);
      OnePage();
      if granted < HEADER {
        return false;
      }
      PageSums(heapStart, granted);
      OneRegion(mem, heapStart, heapStart + granted);
      mem := mem[heapStart := NewHeader(0)];
      heapEnd, head, tail := heapStart + granted, heapStart, heapStart;
      l := Layout([Node(heapStart, true)], heapEnd);
      ok := true;
    }

    /**
      A new block of exactly the rounded size, aligned, apart from every live block and
      first fit; or none, exactly when no run of free regions fits and the kernel refuses
      the pages that the free regions at the end lack. What live blocks hold is kept either way.
     */
    method Malloc(size: nat, supply: seq<Page>) returns (r: nat)
      requires Valid() && heapEnd + Rounded(size) + HEADER + PAGE_SIZE < LIMIT
      modifies this
      ensures Valid()
      ensures DataKept(old(l.Blocks()), old(mem), mem)
      ensures size == 0 ==> r == 0 && l == old(l) && mem == old(mem)
      ensures r != 0 ==> HEADER < r && Aligned(r) && r - HEADER !in old(l.Blocks())
      ensures r != 0 ==> l.Blocks() == old(l.Blocks())[r - HEADER := r + Rounded(size)]
      ensures r != 0 && heapEnd == old(heapEnd) ==> FirstFit(old(l), r - HEADER, Rounded(size))
      ensures heapEnd != old(heapEnd) || (r == 0 && size != 0) ==> NoFitBefore(old(l), |old(l).nodes|, Rounded(size))
      ensures r == 0 ==> Grew(old(l.Blocks()), l.Blocks())
      ensures r == 0 <==> size == 0 || Refused(old(l), Rounded(size), |supply|)
    {
      hide HeaderAt, Backed, Layout.Ok, LiveBlocks, DataKept, Layout.Blocks, FirstFit, NoFitBefore, Layout.Marked,
        Refused, Layout.Inserted, PagesFor, Aligned, PageAligned, Outside, SameExcept;
      ghost var blocks, mem0 := l.Blocks(), mem;
      DataStays(blocks, mem);
      if size == 0 {
        return 0;
      }
      var rounded := Rounded(size);
      ghost var at;
      var reserved;
      reserved, at := FindOrMakeFree(rounded, supply);
      if reserved == 0 {
        return 0;
      }
      ghost var mem1 := mem;
      TakeRegion(l, at, rounded);
      MarkAs(reserved, false, at);
      ghost var mem2 := mem;
      var reservedSize := RegionSize(reserved, at);
      var data := reserved + HEADER;
      if reservedSize >= rounded + HEADER {
        InsertAfter(reserved, data + rounded, at);
        StoresKeepData(blocks, mem1, mem2, mem, reserved, data + rounded);
      } else {
        WritesOutsideKeepData(blocks, mem1, mem2, reserved, reserved);
      }
      DataKeptThen(blocks, mem0, mem1, mem);
      r := data;
    }

    method Free(ptr: nat)
      requires Valid() && (ptr == 0 || (HEADER <= ptr && ptr - HEADER in l.Blocks()))
      modifies this
      ensures Valid() && heapEnd == old(heapEnd)
      ensures l.Blocks() == if ptr == 0 then old(l.Blocks()) else old(l.Blocks()) - {ptr - HEADER}
      ensures DataKept(old(l.Blocks()), old(mem), mem)
    {
      hide HeaderAt, Backed, Layout.Ok, LiveBlocks, DataKept, Layout.Blocks, Layout.Marked, Outside, SameExcept;
      DataStays(l.Blocks(), mem);
      if ptr == 0 {
        return;
      }
      ghost var i := NodeOfBlock(l, ptr - HEADER);
      MarkChangesBlock(l, i, true);
      ghost var l0, mem0 := l, mem;
      HeaderIsOutside(l, i);
      MarkAs(ptr - HEADER, true, i);
      WritesOutsideKeepData(l0.Blocks(), mem0, mem, ptr - HEADER, ptr - HEADER);
    }

    /** `memcpy`, between cells that do not meet. */
    method CopyBytes(dest: nat, src: nat, n: nat)
      requires Aligned(dest) && Aligned(src) && (dest + n <= src || src + n <= dest)
      requires Backed(mem, dest, dest + n) && Backed(mem, src, src + n)
      modifies this`mem
      ensures SameOutside(old(mem), mem, dest, dest + n)
      ensures CopiedTo(old(mem), mem, dest, src, n)
    {
      hide ByteAt, CellOf, Aligned, WithByte, Backed;
      var i := 0;
      while i < n
        invariant 0 <= i <= n
        invariant SameOutside(old(mem), mem, dest, dest + n)
        invariant CopiedTo(old(mem), mem, dest, src, i)
      {
        CopyStep(old(mem), mem, dest, src, i, n);
        mem := WithByte(mem, dest + i, ByteAt(mem, src, i));
        i := i + 1;
      }
    }

    /**
      A new block holding what of the old one fits, the old one freed. If there is no new
      block, also when `size` is 0, the old one stays.
     */
    method Realloc(ptr: nat, size: nat, supply: seq<Page>) returns (r: nat)
      requires Valid() && heapEnd + Rounded(size) + HEADER + PAGE_SIZE < LIMIT
      requires ptr == 0 || (HEADER <= ptr && ptr - HEADER in l.Blocks())
      modifies this
      ensures Valid()
      ensures r == 0 <==> size == 0 || Refused(old(l), Rounded(size), |supply|)
      ensures r == 0 ==> Grew(old(l.Blocks()), l.Blocks()) && DataKept(old(l.Blocks()), old(mem), mem)
      ensures r != 0 ==> HEADER < r && Aligned(r) && r - HEADER !in old(l.Blocks())
      ensures r != 0 && ptr == 0 ==> l.Blocks() == old(l.Blocks())[r - HEADER := r + Rounded(size)]
      ensures r != 0 && ptr == 0 ==> DataKept(old(l.Blocks()), old(mem), mem)
      ensures r != 0 && ptr != 0 ==>
                && l.Blocks() == old(l.Blocks())[r - HEADER := r + Rounded(size)] - {ptr - HEADER}
                && DataKept(old(l.Blocks()) - {ptr - HEADER}, old(mem), mem)
                && ptr <= old(l.Blocks())[ptr - HEADER]
                && var held := old(l.Blocks())[ptr - HEADER] - ptr;
                   CopiedTo(old(mem), mem, r, ptr, if size < held then size else held)
    {
      hide Shows, Layout.Ok, LiveBlocks, DataKept, Layout.Blocks, FirstFit, NoFitBefore, Grew, PagesFor, Aligned,
        PageAligned, SameOutside, CopiedTo, Backed, Refused, Rounded, NoFitBefore;
      ghost var blocks, mem0 := l.Blocks(), mem;
      if ptr != 0 {
        BlockBacked(mem, l, ptr - HEADER);
      }
      r := Malloc(size, supply);
      if ptr == 0 || r == 0 {
        return;
      }
      ghost var l1, mem1 := l, mem;
      ListStarts(mem, l);
      ghost var i := NodeOfBlock(l, ptr - HEADER);
      BlockOfNode(l, i);
      var currSize := RegionSize(ptr - HEADER, i);
      var smallest := if currSize > size then size else currSize;
      BlocksApart(l, r - HEADER, ptr - HEADER);
      BlockBacked(mem, l, r - HEADER);
      BlockBacked(mem, l, ptr - HEADER);
      BackedFront(mem, r, r + smallest, r + Rounded(size));
      BackedFront(mem, ptr, ptr + smallest, ptr + currSize);
      CopyBytes(r, ptr, smallest);
      CopyKeepsHeap(blocks, mem0, mem1, mem, l, r - HEADER, r + Rounded(size), r + smallest);
      BlockBacked(mem, l, r - HEADER);
      ghost var mem2 := mem;
      Free(ptr);
      BytesMoved(blocks, mem0, mem1, mem2, mem, ptr - HEADER, r - HEADER, r + Rounded(size), smallest);
      FewerBlocksKept(blocks, l1.Blocks(), mem0, mem2, mem, ptr - HEADER);
    }
  }

  lemma LackingIs(l0: Layout, l: Layout, size: nat)
    requires l.Ok()
    requires var last := |l.nodes| - 1;
             && (l.nodes[last].free ==> l.Size(last) < size)
             && FreeBefore(l0, |l0.nodes|) == if l.nodes[last].free then l.Size(last) else 0
    ensures var last := |l.nodes| - 1;
            Lacking(l0, size) == size - if l.nodes[last].free then l.Size(last) else 0
  {
    hide FreeBefore;
  }

  lemma PageSums(a: nat, b: nat)
    requires PageAligned(a) && PageAligned(b)
    ensures PageAligned(a + b) && Aligned(a + b) && Aligned(a)
  {
    hide PageAligned, Aligned;
    var x := PageNumber(a);
    var y := PageNumber(b);
    Multiple4096(x + y);
    Multiple4096(x);
  }

  lemma PageNumber(a: nat) returns (x: nat)
    requires PageAligned(a)
    ensures a == 4096 * x
  {
    x := a / 4096;
  }

  lemma Multiple4096(n: nat)
    ensures PageAligned(4096 * n) && Aligned(4096 * n)
  {
    calc {
      (4096 * n) % 16;
      { assert 4096 * n == 16 * (256 * n); }
      (16 * (256 * n)) % 16;
      { Multiple16(256 * n); }
      0;
    }
  }
}
