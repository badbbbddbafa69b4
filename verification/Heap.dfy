/**
  The memory of the heap, cell by cell: when it shows a list of regions by headers in its own
  cells, and what the stores of each list operation, of growth, and of the program inside its
  blocks do to the list shown and to the data of live blocks (custom_malloc/linked_list_item.c,
  custom_malloc/library.c, custom_libc/init.c).
 */
module Heaps {
  import opened Bytes
  import opened HeapLayout

  const PAGE_SIZE: nat := 4096

  predicate PageAligned(a: nat) {
    a % 4096 == 0
  }

  const LL_CANARY: nat := 0xDEADBEEF
  /** No address or size computation wraps below this. */
  const LIMIT: nat := 0x8000_0000_0000_0000

  /** Sixteen aligned bytes: user data, or a header with next pointer, free flag and canary. */
  type Cell = c: seq<byte> | |c| == HEADER witness seq(HEADER, _ => 0)

  function NextOf(c: Cell): nat { Le64(c, 0) }
  function IsFreeOf(c: Cell): bool { c[8] != 0 }
  function CanaryOf(c: Cell): nat { Le32(c, 12) }

  function NewHeader(next: nat): (c: Cell)
    requires next < LIMIT
    ensures NextOf(c) == next && IsFreeOf(c) && CanaryOf(c) == LL_CANARY
  {
    var c := ToLe64(next) + [1, 0, 0, 0] + ToLe32(LL_CANARY);
    assert Le64(c, 0) == Le64(ToLe64(next), 0);
    assert Le32(c, 12) == Le32(ToLe32(LL_CANARY), 0);
    c
  }

  function WithNext(c: Cell, next: nat): (r: Cell)
    requires next < LIMIT
    ensures NextOf(r) == next && IsFreeOf(r) == IsFreeOf(c) && CanaryOf(r) == CanaryOf(c)
  {
    var r := ToLe64(next) + c[8..];
    assert Le64(r, 0) == Le64(ToLe64(next), 0);
    r
  }

  function WithFree(c: Cell, free: bool): (r: Cell)
    ensures NextOf(r) == NextOf(c) && IsFreeOf(r) == free && CanaryOf(r) == CanaryOf(c)
  {
    c[8 := if free then 1 else 0]
  }

  /** What `destroy` leaves of a header. */
  function Destroyed(c: Cell): (r: Cell)
    ensures CanaryOf(r) != LL_CANARY
  {
    var r := ToLe64(0xCAFE_CAFE_CAFE_CAFE) + c[8..12] + ToLe32(0xABAB_ABAB);
    assert Le32(r, 12) == Le32(ToLe32(0xABAB_ABAB), 0);
    r
  }

  // --- Memory that holds a list ---

  ghost predicate HeaderAt(mem: map<nat, Cell>, l: Layout, i: nat)
    requires i < |l.nodes|
  {
    && l.nodes[i].addr in mem
    && var c := mem[l.nodes[i].addr];
    && CanaryOf(c) == LL_CANARY
    && IsFreeOf(c) == l.nodes[i].free
    && NextOf(c) == if i + 1 < |l.nodes| then l.nodes[i + 1].addr else 0
  }

  ghost predicate Shows(mem: map<nat, Cell>, l: Layout) {
    && l.Ok()
    && (forall i :: 0 <= i < |l.nodes| ==> HeaderAt(mem, l, i))
    && Backed(mem, l.nodes[0].addr, l.end)
  }

  ghost predicate Backed(mem: map<nat, Cell>, from: nat, to: nat) {
    forall a :: from <= a < to && Aligned(a) ==> a in mem
  }

  /** At most the cells at `x` and `y` differ. */
  ghost predicate SameExcept(mem: map<nat, Cell>, mem': map<nat, Cell>, x: nat, y: nat) {
    forall a :: a in mem && a != x && a != y ==> a in mem' && mem'[a] == mem[a]
  }

  /** Every live block of `blocks` holds what it held. */
  ghost predicate DataKept(blocks: map<nat, nat>, mem: map<nat, Cell>, mem': map<nat, Cell>) {
    forall n, a :: n in blocks && n + HEADER <= a < blocks[n] && a in mem ==> a in mem' && mem'[a] == mem[a]
  }

  /** An address that is not inside the data of a live block. */
  ghost predicate Outside(blocks: map<nat, nat>, x: nat) {
    forall n :: n in blocks ==> x < n + HEADER || blocks[n] <= x
  }

  lemma DataStays(blocks: map<nat, nat>, mem: map<nat, Cell>)
    ensures DataKept(blocks, mem, mem)
  {
  }

  lemma DataKeptThen(blocks: map<nat, nat>, mem: map<nat, Cell>, mem1: map<nat, Cell>, mem2: map<nat, Cell>)
    requires DataKept(blocks, mem, mem1) && DataKept(blocks, mem1, mem2)
    ensures DataKept(blocks, mem, mem2)
  {
  }

  lemma WritesOutsideKeepData(blocks: map<nat, nat>, mem: map<nat, Cell>, mem': map<nat, Cell>, x: nat, y: nat)
    requires SameExcept(mem, mem', x, y) && Outside(blocks, x) && Outside(blocks, y)
    ensures DataKept(blocks, mem, mem')
  {
  }

  /** Headers are outside all data, and so is everything in a free region. */
  lemma FreeIsOutside(l: Layout, i: nat, x: nat)
    requires l.Ok() && i < |l.nodes| && l.nodes[i].addr <= x < l.End(i)
    requires l.nodes[i].free || x < l.nodes[i].addr + HEADER
    ensures Outside(l.Blocks(), x)
  {
    forall n | n in l.Blocks()
      ensures x < n + HEADER || l.Blocks()[n] <= x
    {
      var k := NodeOfBlock(l, n);
      BlockOfNode(l, k);
    }
  }

  lemma HeaderIsOutside(l: Layout, i: nat)
    requires l.Ok() && i < |l.nodes|
    ensures Outside(l.Blocks(), l.nodes[i].addr)
  {
    FreeIsOutside(l, i, l.nodes[i].addr);
  }

  lemma BeyondIsOutside(l: Layout, x: nat)
    requires l.Ok() && l.end <= x
    ensures Outside(l.Blocks(), x)
  {
    forall n | n in l.Blocks()
      ensures l.Blocks()[n] <= x
    {
      var k := NodeOfBlock(l, n);
      BlockOfNode(l, k);
    }
  }

  // --- What the list operations do to the memory ---

  lemma MergeShows(mem: map<nat, Cell>, l: Layout, i: nat)
    requires Shows(mem, l) && l.end < LIMIT && i + 1 < |l.nodes|
    ensures var x, y := l.nodes[i].addr, l.nodes[i + 1].addr;
            && x in mem && y in mem && NextOf(mem[y]) < LIMIT
            && Shows(mem[x := WithNext(mem[x], NextOf(mem[y]))][y := Destroyed(mem[y])], l.Merged(i))
  {
    hide NextOf, IsFreeOf, CanaryOf, WithNext, Destroyed, Layout.Ok;
    var x, y := l.nodes[i].addr, l.nodes[i + 1].addr;
    assert HeaderAt(mem, l, i) && HeaderAt(mem, l, i + 1);
    NodesApart(l, i);
    NodesApart(l, i + 1);
    var mem', l' := mem[x := WithNext(mem[x], NextOf(mem[y]))][y := Destroyed(mem[y])], l.Merged(i);
    MergeOk(l, i);
    forall k | 0 <= k < |l'.nodes|
      ensures HeaderAt(mem', l', k)
    {
      if k < i {
        assert HeaderAt(mem, l, k);
      } else if k > i {
        assert HeaderAt(mem, l, k + 1);
      }
    }
  }

  /** No other header shares region `i` or its address. */
  lemma NodesApart(l: Layout, i: nat)
    requires l.Ok() && i < |l.nodes|
    ensures forall k :: 0 <= k < |l.nodes| && k != i ==>
              l.nodes[k].addr < l.nodes[i].addr || l.End(i) <= l.nodes[k].addr
    ensures 0 < l.nodes[i].addr && l.nodes[i].addr + HEADER <= l.End(i) <= l.end
    ensures forall k :: i < k < |l.nodes| ==> l.End(i) <= l.nodes[k].addr < l.end
  {
  }

  /** The two stores of `lli_insert_after`: `self->next`, and the new header itself. */
  function Linked(mem: map<nat, Cell>, self: nat, addr: nat, after: nat): map<nat, Cell>
    requires self in mem && addr < LIMIT && after < LIMIT
  {
    mem[self := WithNext(mem[self], addr)][addr := NewHeader(after)]
  }

  lemma InsertShows(mem: map<nat, Cell>, l: Layout, i: nat, addr: nat)
    requires Shows(mem, l) && l.end < LIMIT && i < |l.nodes|
    requires Aligned(addr) && l.nodes[i].addr + HEADER <= addr && addr + HEADER <= l.End(i)
    ensures var x := l.nodes[i].addr;
            && x in mem && NextOf(mem[x]) < LIMIT && addr < LIMIT
            && Shows(Linked(mem, x, addr, NextOf(mem[x])), l.Inserted(i, addr))
  {
    hide NextOf, IsFreeOf, CanaryOf, WithNext, NewHeader, Layout.Ok, Aligned;
    var x := l.nodes[i].addr;
    NodesApart(l, i);
    assert HeaderAt(mem, l, i);
    var mem', l' := Linked(mem, x, addr, NextOf(mem[x])), l.Inserted(i, addr);
    InsertOk(l, i, addr);
    forall k | 0 <= k < |l'.nodes|
      ensures HeaderAt(mem', l', k)
    {
      if k < i {
        assert HeaderAt(mem, l, k);
      } else if k > i + 1 {
        assert HeaderAt(mem, l, k - 1);
      }
    }
  }

  lemma MarkShows(mem: map<nat, Cell>, l: Layout, i: nat, free: bool)
    requires Shows(mem, l) && i < |l.nodes|
    ensures l.nodes[i].addr in mem
    ensures Shows(mem[l.nodes[i].addr := WithFree(mem[l.nodes[i].addr], free)], l.Marked(i, free))
  {
    hide NextOf, IsFreeOf, CanaryOf, WithFree;
    var x := l.nodes[i].addr;
    assert HeaderAt(mem, l, i);
    var mem', l' := mem[x := WithFree(mem[x], free)], l.Marked(i, free);
    forall k | 0 <= k < |l'.nodes|
      ensures HeaderAt(mem', l', k)
    {
      assert HeaderAt(mem, l, k);
    }
  }

  /** The address of the last header, which the allocator's `tail` points to. */
  function LastAddr(l: Layout): nat
    requires 0 < |l.nodes|
  {
    l.nodes[|l.nodes| - 1].addr
  }

  /** Unlinking a free header behind a free one: the list is still there, and no live block notices. */
  lemma MergeStep(mem: map<nat, Cell>, l: Layout, i: nat)
    requires Shows(mem, l) && l.end < LIMIT && i + 1 < |l.nodes| && l.nodes[i].free && l.nodes[i + 1].free
    ensures var x, y, l' := l.nodes[i].addr, l.nodes[i + 1].addr, l.Merged(i);
            && x in mem && y in mem && x != y && NextOf(mem[y]) < LIMIT
            && var mem' := mem[x := WithNext(mem[x], NextOf(mem[y]))][y := Destroyed(mem[y])];
            && Shows(mem', l') && DataKept(l.Blocks(), mem, mem') && l'.Blocks() == l.Blocks()
            && 0 < |l'.nodes| && l'.end == l.end && l'.nodes[0].addr == l.nodes[0].addr
            && LastAddr(l') == if y == LastAddr(l) then x else LastAddr(l)
  {
    var x, y := l.nodes[i].addr, l.nodes[i + 1].addr;
    MergeShows(mem, l, i);
    MergeKeepsBlocks(l, i);
    FreeIsOutside(l, i, x);
    FreeIsOutside(l, i + 1, y);
    hide NextOf, WithNext, Destroyed, Layout.Blocks;
    WritesOutsideKeepData(l.Blocks(), mem, mem[x := WithNext(mem[x], NextOf(mem[y]))][y := Destroyed(mem[y])], x, y);
  }

  /** Linking a new free header in. */
  lemma InsertStep(mem: map<nat, Cell>, l: Layout, i: nat, addr: nat)
    requires Shows(mem, l) && l.end < LIMIT && i < |l.nodes|
    requires Aligned(addr) && l.nodes[i].addr + HEADER <= addr && addr + HEADER <= l.End(i)
    ensures var x, l' := l.nodes[i].addr, l.Inserted(i, addr);
            && x in mem && NextOf(mem[x]) < LIMIT && addr < LIMIT
            && var mem' := Linked(mem, x, addr, NextOf(mem[x]));
            && Shows(mem', l') && SameExcept(mem, mem', x, addr)
            && 0 < |l'.nodes| && l'.end == l.end && l'.nodes[0].addr == l.nodes[0].addr
            && LastAddr(l') == if i + 1 < |l.nodes| then LastAddr(l) else addr
  {
    InsertShows(mem, l, i, addr);
  }

  lemma ListStarts(mem: map<nat, Cell>, l: Layout)
    requires Shows(mem, l)
    ensures 0 < |l.nodes| && l.Ok() && 0 < l.nodes[0].addr
  {
  }

  lemma HeadersPositive(mem: map<nat, Cell>, l: Layout, i: nat)
    requires Shows(mem, l) && i < |l.nodes|
    ensures 0 < |l.nodes| && (i + 1 < |l.nodes| ==> 0 < l.nodes[i + 1].addr)
  {
  }

  lemma AddressesPositive(l: Layout, i: nat)
    requires l.Ok() && i < |l.nodes|
    ensures 0 < l.nodes[i].addr
    ensures i + 1 < |l.nodes| ==> 0 < l.nodes[i + 1].addr
  {
  }

  // --- Growth ---

  /** What the kernel hands out on one page request: cells holding anything. */
  type Page = nat -> Cell

  function PagesFor(bytes: nat): (n: nat)
    ensures bytes <= Pages(n) < bytes + PAGE_SIZE
    ensures forall k: nat :: bytes <= Pages(k) <==> n <= k
  {
    (bytes + 4095) / 4096
  }

  function Pages(n: nat): (bytes: nat)
    ensures PageAligned(bytes)
  {
    4096 * n
  }

  lemma OnePage()
    ensures PagesFor(HEADER) == 1 && Pages(0) == 0 && Pages(1) == PAGE_SIZE
  {
    assert HEADER <= Pages(1);
  }

  /** The memory once a page is mapped at `at`. */
  function WithPage(mem: map<nat, Cell>, at: nat, page: Page): map<nat, Cell> {
    mem + map a: nat | at <= a < at + 4096 && Aligned(a) :: page(a - at)
  }

  ghost predicate Extended(mem: map<nat, Cell>, mem': map<nat, Cell>, from: nat, to: nat) {
    && (forall a :: a in mem && !(from <= a < to) ==> a in mem' && mem'[a] == mem[a])
    && Backed(mem', from, to)
  }

  lemma PageExtends(mem: map<nat, Cell>, now: map<nat, Cell>, from: nat, to: nat, page: Page)
    requires from <= to && Extended(mem, now, from, to)
    ensures Extended(mem, WithPage(now, to, page), from, to + 4096)
  {
  }

  lemma GrowthShows(mem: map<nat, Cell>, mem': map<nat, Cell>, l: Layout, end: nat)
    requires Shows(mem, l) && l.end <= end && Aligned(end) && Extended(mem, mem', l.end, end)
    ensures Shows(mem', l.(end := end)) && DataKept(l.Blocks(), mem, mem')
    ensures LastAddr(l) + HEADER <= l.end && LastAddr(l.(end := end)) == LastAddr(l)
  {
    hide NextOf, IsFreeOf, CanaryOf, LiveBlocks;
    forall k | 0 <= k < |l.nodes|
      ensures HeaderAt(mem', l.(end := end), k)
    {
      assert HeaderAt(mem, l, k);
    }
    forall n | n in l.Blocks()
      ensures l.Blocks()[n] <= l.end
    {
      var k := NodeOfBlock(l, n);
      BlockOfNode(l, k);
    }
  }

  /** Data kept over two steps, the second a store into the last header and one behind the old heap. */
  lemma HeaderBehindKeepsData(l: Layout, mem: map<nat, Cell>, mem1: map<nat, Cell>, mem2: map<nat, Cell>)
    requires l.Ok() && DataKept(l.Blocks(), mem, mem1) && SameExcept(mem1, mem2, LastAddr(l), l.end)
    ensures DataKept(l.Blocks(), mem, mem2)
  {
    FreeIsOutside(l, |l.nodes| - 1, LastAddr(l));
    BeyondIsOutside(l, l.end);
    WritesOutsideKeepData(l.Blocks(), mem1, mem2, LastAddr(l), l.end);
  }

  // --- Blocks taken and given back ---

  /** A request rounded up to a multiple of 16. */
  function Rounded(size: nat): (r: nat)
    ensures Aligned(r) && size <= r < size + HEADER
  {
    (size + 15) / 16 * 16
  }

  lemma AlignedSums(a: nat, b: nat)
    requires Aligned(a) && Aligned(b)
    ensures Aligned(a + b) && Aligned(a + HEADER)
    ensures a < b ==> a + HEADER <= b
  {
    hide Aligned;
    var x := Sixteenth(a);
    var y := Sixteenth(b);
    SumOfSixteens(a, b, x, y);
    SumOfSixteens(a, HEADER, x, 1);
    if a < b {
      assert x < y;
    }
  }

  lemma SumOfSixteens(a: nat, b: nat, x: nat, y: nat)
    requires a == 16 * x && b == 16 * y
    ensures Aligned(a + b)
  {
    Multiple16(x + y);
  }

  lemma Sixteenth(a: nat) returns (x: nat)
    requires Aligned(a)
    ensures a == 16 * x
  {
    x := a / 16;
  }

  lemma Multiple16(n: nat)
    ensures (16 * n) % 16 == 0
  {
  }

  /** Taking all of a free region, or its front with a new header behind. */
  lemma TakeRegion(l: Layout, at: nat, size: nat)
    requires l.Ok() && at < |l.nodes| && l.nodes[at].free && size <= l.Size(at) && Aligned(size)
    ensures var p, used := l.nodes[at].addr, l.Marked(at, false);
            && p !in l.Blocks() && Outside(l.Blocks(), p) && Aligned(p + HEADER)
            && 0 < |used.nodes| == |l.nodes| && used.nodes[at].addr == p && used.Size(at) == l.Size(at)
            && (l.Size(at) < size + HEADER ==> used.Blocks() == l.Blocks()[p := p + HEADER + size])
            && (size + HEADER <= l.Size(at) ==>
                  && Aligned(p + HEADER + size) && p + HEADER + size + HEADER <= used.End(at)
                  && Outside(l.Blocks(), p + HEADER + size)
                  && used.Inserted(at, p + HEADER + size).Blocks() == l.Blocks()[p := p + HEADER + size])
  {
    hide LiveBlocks, Aligned;
    var p, used := l.nodes[at].addr, l.Marked(at, false);
    MarkChangesBlock(l, at, false);
    BlockOfNode(l, at);
    FreeIsOutside(l, at, p);
    AlignedSums(p, size);
    AlignedSums(p + size, size);
    if size + HEADER <= l.Size(at) {
      FreeIsOutside(l, at, p + HEADER + size);
      assert used.Ok();
      InsertChangesBlock(used, at, p + HEADER + size);
    } else {
      NothingLeft(l, at, size);
    }
  }

  /** Region sizes are multiples of 16, so less than a header left over is nothing left over. */
  lemma NothingLeft(l: Layout, at: nat, size: nat)
    requires l.Ok() && at < |l.nodes| && Aligned(size) && size <= l.Size(at) < size + HEADER
    ensures l.Size(at) == size
  {
    assert Aligned(l.End(at)) && Aligned(l.nodes[at].addr);
  }

  /** Two stores outside a set of blocks keep their data. */
  lemma StoresKeepData(blocks: map<nat, nat>, mem: map<nat, Cell>, mem1: map<nat, Cell>, mem2: map<nat, Cell>,
                       x: nat, y: nat)
    requires SameExcept(mem, mem1, x, x) && SameExcept(mem1, mem2, x, y)
    requires Outside(blocks, x) && Outside(blocks, y)
    ensures DataKept(blocks, mem, mem2)
  {
    WritesOutsideKeepData(blocks, mem, mem1, x, x);
    WritesOutsideKeepData(blocks, mem1, mem2, x, y);
  }

  // --- What the program itself stores ---

  /** At most the cells from `from` to `to` differ. */
  ghost predicate SameOutside(mem: map<nat, Cell>, mem': map<nat, Cell>, from: nat, to: nat) {
    forall a :: a in mem ==> a in mem' && (a < from || to <= a ==> mem'[a] == mem[a])
  }

  /** Stores into a live block disturb neither the list nor any other block. */
  lemma StoresIntoBlock(mem: map<nat, Cell>, mem': map<nat, Cell>, l: Layout, n: nat)
    requires Shows(mem, l) && n in l.Blocks() && SameOutside(mem, mem', n + HEADER, l.Blocks()[n])
    ensures Shows(mem', l)
    ensures DataKept(l.Blocks() - {n}, mem, mem')
  {
    hide NextOf, IsFreeOf, CanaryOf, LiveBlocks;
    var i := NodeOfBlock(l, n);
    BlockOfNode(l, i);
    forall k | 0 <= k < |l.nodes|
      ensures HeaderAt(mem', l, k)
    {
      assert HeaderAt(mem, l, k);
    }
    forall m | m in l.Blocks() - {n}
      ensures l.Blocks()[m] <= n || l.Blocks()[n] <= m
    {
      BlocksApart(l, m, n);
    }
  }

  /** Byte `k` of what lies at `base`. */
  function ByteAt(mem: map<nat, Cell>, base: nat, k: nat): byte {
    var c := CellOf(base + k);
    if c in mem then mem[c][(base + k) % 16] else 0
  }

  /** The aligned address of the cell a byte lies in. */
  function CellOf(a: nat): (c: nat)
    ensures Aligned(c) && c <= a < c + HEADER
  {
    a - a % 16
  }

  /** A fresh heap is one free region. */
  lemma OneRegion(mem: map<nat, Cell>, start: nat, end: nat)
    requires Backed(mem, start, end) && 0 < start && Aligned(start) && Aligned(end) && start + HEADER <= end
    ensures var l := Layout([Node(start, true)], end);
            Shows(mem[start := NewHeader(0)], l) && l.Blocks() == map[] && LastAddr(l) == start
  {
    hide NextOf, IsFreeOf, CanaryOf, Aligned, NewHeader, LiveBlocks;
    NoBlocksInFree([Node(start, true)], end);
    assert HeaderAt(mem[start := NewHeader(0)], Layout([Node(start, true)], end), 0);
  }

  // --- Copying bytes ---

  function WithByte(mem: map<nat, Cell>, a: nat, v: byte): map<nat, Cell>
    requires CellOf(a) in mem
  {
    mem[CellOf(a) := mem[CellOf(a)][a % 16 := v]]
  }

  ghost predicate CopiedTo(mem0: map<nat, Cell>, mem: map<nat, Cell>, dest: nat, src: nat, n: nat) {
    forall k :: 0 <= k < n ==> ByteAt(mem, dest, k) == ByteAt(mem0, src, k)
  }

  /** One byte more, at aligned places that do not meet. */
  lemma CopyStep(mem0: map<nat, Cell>, mem: map<nat, Cell>, dest: nat, src: nat, i: nat, n: nat)
    requires Aligned(dest) && Aligned(src) && (dest + n <= src || src + n <= dest)
    requires Backed(mem0, dest, dest + n) && Backed(mem0, src, src + n)
    requires i < n && SameOutside(mem0, mem, dest, dest + n) && CopiedTo(mem0, mem, dest, src, i)
    ensures CellOf(dest + i) in mem && CellOf(src + i) in mem
    ensures var mem' := WithByte(mem, dest + i, ByteAt(mem, src, i));
            SameOutside(mem0, mem', dest, dest + n) && CopiedTo(mem0, mem', dest, src, i + 1)
  {
    hide CellOf, Aligned, WithByte, ByteAt;
    CellsOfRange(dest, i, n);
    CellsOfRange(src, i, n);
    var mem' := WithByte(mem, dest + i, ByteAt(mem, src, i));
    ByteKept(mem0, mem, src, i);
    forall k | 0 <= k <= i
      ensures ByteAt(mem', dest, k) == ByteAt(mem0, src, k)
    {
      ByteWritten(mem, dest, i, ByteAt(mem, src, i), k);
    }
    WritesOneCell(mem, dest + i, ByteAt(mem, src, i));
  }

  lemma CellsOfRange(from: nat, i: nat, n: nat)
    requires Aligned(from) && i < n
    ensures from <= CellOf(from + i) < from + n && Aligned(CellOf(from + i))
  {
  }

  lemma ByteKept(mem: map<nat, Cell>, mem': map<nat, Cell>, base: nat, k: nat)
    requires var c := CellOf(base + k); c in mem && c in mem' && mem[c] == mem'[c]
    ensures ByteAt(mem', base, k) == ByteAt(mem, base, k)
  {
  }

  lemma WritesOneCell(mem: map<nat, Cell>, a: nat, v: byte)
    requires CellOf(a) in mem
    ensures SameExcept(mem, WithByte(mem, a, v), CellOf(a), CellOf(a)) && WithByte(mem, a, v).Keys == mem.Keys
  {
  }

  lemma ByteWritten(mem: map<nat, Cell>, base: nat, i: nat, v: byte, k: nat)
    requires CellOf(base + i) in mem
    ensures ByteAt(WithByte(mem, base + i, v), base, k) == if k == i then v else ByteAt(mem, base, k)
  {
    if CellOf(base + k) == CellOf(base + i) && k != i {
      assert (base + k) % 16 != (base + i) % 16;
    }
  }

  /** A live block is aligned and backed by memory. */
  lemma BlockBacked(mem: map<nat, Cell>, l: Layout, n: nat)
    requires Shows(mem, l) && n in l.Blocks()
    ensures Aligned(n + HEADER) && n + HEADER <= l.Blocks()[n] && Backed(mem, n + HEADER, l.Blocks()[n])
  {
    hide NextOf, IsFreeOf, CanaryOf, LiveBlocks;
    var i := NodeOfBlock(l, n);
    BlockOfNode(l, i);
    NodesApart(l, i);
    NodesApart(l, 0);
  }

  lemma BackedFront(mem: map<nat, Cell>, from: nat, to: nat, end: nat)
    requires Backed(mem, from, end) && to <= end
    ensures Backed(mem, from, to)
  {
  }

  lemma BlockBytesKept(blocks: map<nat, nat>, mem: map<nat, Cell>, mem': map<nat, Cell>, n: nat)
    requires DataKept(blocks, mem, mem') && n in blocks && n + HEADER <= blocks[n]
    requires Aligned(n + HEADER) && Backed(mem, n + HEADER, blocks[n])
    ensures CopiedTo(mem, mem', n + HEADER, n + HEADER, blocks[n] - (n + HEADER))
  {
    hide CellOf, Aligned, ByteAt;
    var p := n + HEADER;
    forall k: nat | k < blocks[n] - p
      ensures ByteAt(mem', p, k) == ByteAt(mem, p, k)
    {
      CellsOfRange(p, k, blocks[n] - p);
      ByteKept(mem, mem', p, k);
    }
  }

  /** The copy into the new block leaves the list and all old blocks alone. */
  lemma CopyKeepsHeap(blocks: map<nat, nat>, mem0: map<nat, Cell>, mem1: map<nat, Cell>, mem2: map<nat, Cell>,
                      l: Layout, n: nat, end: nat, to: nat)
    requires Shows(mem1, l) && n !in blocks && l.Blocks() == blocks[n := end] && to <= end
    requires DataKept(blocks, mem0, mem1) && SameOutside(mem1, mem2, n + HEADER, to)
    ensures Shows(mem2, l) && DataKept(blocks, mem0, mem2)
  {
    hide HeaderAt, Backed, LiveBlocks, Layout.Ok;
    assert SameOutside(mem1, mem2, n + HEADER, l.Blocks()[n]);
    StoresIntoBlock(mem1, mem2, l, n);
    assert l.Blocks() - {n} == blocks;
    DataKeptThen(blocks, mem0, mem1, mem2);
  }

  /** What the new block of a reallocation holds once the old one `o` is freed. */
  lemma BytesMoved(blocks: map<nat, nat>, mem0: map<nat, Cell>, mem1: map<nat, Cell>, mem2: map<nat, Cell>,
                   mem3: map<nat, Cell>, o: nat, n: nat, end: nat, count: nat)
    requires DataKept(blocks, mem0, mem1) && CopiedTo(mem1, mem2, n + HEADER, o + HEADER, count)
    requires DataKept(blocks[n := end], mem2, mem3)
    requires o in blocks && n !in blocks && o + HEADER + count <= blocks[o] && n + HEADER + count <= end
    requires Aligned(o + HEADER) && Backed(mem0, o + HEADER, blocks[o])
    requires Aligned(n + HEADER) && Backed(mem2, n + HEADER, end)
    ensures CopiedTo(mem0, mem3, n + HEADER, o + HEADER, count)
  {
    hide ByteAt, CellOf, Aligned, Backed, DataKept;
    BlockBytesKept(blocks, mem0, mem1, o);
    BlockBytesKept(blocks[n := end], mem2, mem3, n);
  }

  lemma FewerBlocksKept(blocks: map<nat, nat>, blocks': map<nat, nat>, mem: map<nat, Cell>, mem1: map<nat, Cell>,
                        mem2: map<nat, Cell>, o: nat)
    requires DataKept(blocks, mem, mem1) && DataKept(blocks', mem1, mem2)
    requires forall n :: n in blocks ==> n in blocks' && blocks'[n] == blocks[n]
    ensures DataKept(blocks - {o}, mem, mem2)
  {
  }
}
