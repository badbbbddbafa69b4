/**
  The heap of custom_malloc as an abstract list of regions: order, merging, splitting,
  live blocks, and the runs of free regions a request is matched against
  (custom_malloc/library.c, custom_malloc/linked_list_item.c).
 */
module HeapLayout {

  /** The header size, which is also the alignment of everything. */
  const HEADER: nat := 16

  predicate Aligned(a: nat) {
    a % 16 == 0
  }

  /** A header's address, and whether the region behind it is free. */
  datatype Node = Node(addr: nat, free: bool)

  /** The headers in list order, and where the heap ends. */
  datatype Layout = Layout(nodes: seq<Node>, end: nat) {

    /** Where region `i` ends: at the next header, or with the heap. Regions so tile the heap. */
    function End(i: nat): nat
      requires i < |nodes|
    {
      if i + 1 < |nodes| then nodes[i + 1].addr else end
    }

    /** Address-ordered, 16-byte aligned, every region at least a header long. */
    ghost predicate Ok() {
      && 0 < |nodes| && 0 < nodes[0].addr
      && Aligned(end)
      && (forall i :: 0 <= i < |nodes| ==> Aligned(nodes[i].addr))
      && (forall i, j :: 0 <= i < j < |nodes| ==> nodes[i].addr + HEADER <= nodes[j].addr)
      && nodes[|nodes| - 1].addr + HEADER <= end
    }

    /** The bytes of region `i`, its header excluded. */
    function Size(i: nat): int
      requires i < |nodes|
    {
      End(i) - nodes[i].addr - HEADER
    }

    function Merged(i: nat): Layout
      requires i + 1 < |nodes|
    {
      this.(nodes := nodes[..i + 1] + nodes[i + 2..])
    }

    function Inserted(i: nat, addr: nat): Layout
      requires i < |nodes|
    {
      this.(nodes := nodes[..i + 1] + [Node(addr, true)] + nodes[i + 1..])
    }

    function Marked(i: nat, free: bool): Layout
      requires i < |nodes|
    {
      this.(nodes := nodes[i := nodes[i].(free := free)])
    }

    /** The live blocks: header address to end of region. */
    function Blocks(): map<nat, nat> {
      LiveBlocks(nodes, end)
    }
  }

  function LiveBlocks(nodes: seq<Node>, end: nat): map<nat, nat>
    decreases |nodes|
  {
    if nodes == [] then map[] else
      var last := nodes[|nodes| - 1];
      var rest := LiveBlocks(nodes[..|nodes| - 1], last.addr);
      if last.free then rest else rest[last.addr := end]
  }

  // --- Live blocks under the list operations ---

  /** Blocks of a list are those of its two parts. */
  lemma {:induction false} BlocksOfParts(a: seq<Node>, b: seq<Node>, end: nat)
    requires b != []
    ensures LiveBlocks(a + b, end) == LiveBlocks(a, b[0].addr) + LiveBlocks(b, end)
    decreases |b|
  {
    var b' := b[..|b| - 1];
    assert (a + b)[..|a + b| - 1] == a + b';
    if b' == [] {
      assert a + b' == a;
    } else {
      BlocksOfParts(a, b', b[|b| - 1].addr);
    }
  }

  /** Merging two free regions changes no live block. */
  lemma MergeKeepsBlocks(l: Layout, i: nat)
    requires i + 1 < |l.nodes| && l.nodes[i].free && l.nodes[i + 1].free
    ensures l.Merged(i).Blocks() == l.Blocks()
  {
    var a, x, y, b := l.nodes[..i], l.nodes[i], l.nodes[i + 1], l.nodes[i + 2..];
    assert l.nodes == a + ([x, y] + b);
    assert l.Merged(i).nodes == a + ([x] + b);
    BlocksOfParts(a, [x, y] + b, l.end);
    BlocksOfParts(a, [x] + b, l.end);
    FreeFrontHasNoBlocks([x, y], b, l.end);
    FreeFrontHasNoBlocks([x], b, l.end);
  }

  lemma FreeFrontHasNoBlocks(a: seq<Node>, b: seq<Node>, end: nat)
    requires 0 < |a| <= 2 && forall k :: 0 <= k < |a| ==> a[k].free
    ensures LiveBlocks(a + b, end) == LiveBlocks(b, end)
  {
    if b == [] {
      assert a + b == a;
      NoBlocksInFree(a, end);
    } else {
      BlocksOfParts(a, b, end);
      NoBlocksInFree(a, b[0].addr);
    }
  }

  lemma {:induction false} NoBlocksInFree(a: seq<Node>, end: nat)
    requires forall k :: 0 <= k < |a| ==> a[k].free
    ensures LiveBlocks(a, end) == map[]
    decreases |a|
  {
    if a == [] {
    } else {
      NoBlocksInFree(a[..|a| - 1], a[|a| - 1].addr);
    }
  }

  /** Splitting the region of a header in two: only its own block, if live, gets a new end. */
  lemma InsertChangesBlock(l: Layout, i: nat, addr: nat)
    requires l.Ok() && i < |l.nodes|
    ensures l.Inserted(i, addr).Blocks() == if l.nodes[i].free then l.Blocks() else l.Blocks()[l.nodes[i].addr := addr]
  {
    hide LiveBlocks;
    var a, x, y, b := l.nodes[..i], l.nodes[i], Node(addr, true), l.nodes[i + 1..];
    BlocksAround(l, i);
    BlocksAround(l.Inserted(i, addr), i);
    assert l.Inserted(i, addr).nodes[..i] == a && l.Inserted(i, addr).nodes[i + 1..] == [y] + b;
    FreeFrontHasNoBlocks([y], b, l.end);
    NotABlockLater(l, i);
    PutMiddle(LiveBlocks(a, x.addr), LiveBlocks(b, l.end), x.addr, l.End(i));
    PutMiddle(LiveBlocks(a, x.addr), LiveBlocks(b, l.end), x.addr, addr);
  }

  /** Blocks as those before, at, and behind a header. */
  lemma BlocksAround(l: Layout, i: nat)
    requires i < |l.nodes|
    ensures l.Blocks() == LiveBlocks(l.nodes[..i], l.nodes[i].addr)
                          + ((if l.nodes[i].free then map[] else map[l.nodes[i].addr := l.End(i)])
                             + LiveBlocks(l.nodes[i + 1..], l.end))
  {
    var a, x, b := l.nodes[..i], l.nodes[i], l.nodes[i + 1..];
    assert l.nodes == a + ([x] + b);
    BlocksOfParts(a, [x] + b, l.end);
    BlockOfFirst(x, b, l.end);
  }

  lemma PutMiddle(a: map<nat, nat>, b: map<nat, nat>, k: nat, v: nat)
    requires k !in a && k !in b
    ensures a + (map[k := v] + b) == (a + (map[] + b))[k := v]
    ensures (a + (map[k := v] + b)) - {k} == a + (map[] + b)
    ensures k !in a + (map[] + b)
  {
  }

  lemma BlockOfFirst(x: Node, b: seq<Node>, end: nat)
    ensures LiveBlocks([x] + b, end)
            == (if x.free then map[] else map[x.addr := if b == [] then end else b[0].addr]) + LiveBlocks(b, end)
  {
    if b == [] {
      assert [x] + b == [x];
    } else {
      BlocksOfParts([x], b, end);
    }
    assert LiveBlocks([x], end) == if x.free then map[] else map[x.addr := end];
  }

  /** A header is no block of the regions behind it. */
  lemma NotABlockLater(l: Layout, i: nat)
    requires l.Ok() && i < |l.nodes|
    ensures l.nodes[i].addr !in LiveBlocks(l.nodes[i + 1..], l.end)
    ensures forall h: nat :: l.nodes[i].addr !in LiveBlocks(l.nodes[..i], h)
  {
    BlocksAreHeaders(l.nodes[i + 1..], l.end, l.nodes[i].addr);
    forall h: nat
      ensures l.nodes[i].addr !in LiveBlocks(l.nodes[..i], h)
    {
      BlocksAreHeaders(l.nodes[..i], h, l.nodes[i].addr);
    }
  }

  lemma {:induction false} BlocksAreHeaders(nodes: seq<Node>, end: nat, n: nat)
    ensures n in LiveBlocks(nodes, end) ==> exists k :: 0 <= k < |nodes| && nodes[k] == Node(n, false)
    decreases |nodes|
  {
    if nodes == [] {
    } else {
      BlocksAreHeaders(nodes[..|nodes| - 1], nodes[|nodes| - 1].addr, n);
      if n in LiveBlocks(nodes, end) && n != nodes[|nodes| - 1].addr {
        var k :| 0 <= k < |nodes| - 1 && nodes[..|nodes| - 1][k] == Node(n, false);
        assert nodes[k] == Node(n, false);
      }
    }
  }

  /** Marking a region used adds its block; marking it free removes it. */
  lemma MarkChangesBlock(l: Layout, i: nat, free: bool)
    requires l.Ok() && i < |l.nodes|
    ensures l.Marked(i, free).Blocks()
            == if free then l.Blocks() - {l.nodes[i].addr} else l.Blocks()[l.nodes[i].addr := l.End(i)]
  {
    hide LiveBlocks;
    var a, x, b := l.nodes[..i], l.nodes[i], l.nodes[i + 1..];
    BlocksAround(l, i);
    BlocksAround(l.Marked(i, free), i);
    assert l.Marked(i, free).nodes[..i] == a && l.Marked(i, free).nodes[i + 1..] == b;
    NotABlockLater(l, i);
    PutMiddle(LiveBlocks(a, x.addr), LiveBlocks(b, l.end), x.addr, l.End(i));
    NothingToRemove(LiveBlocks(a, x.addr) + (map[] + LiveBlocks(b, l.end)), x.addr);
  }

  lemma NothingToRemove(m: map<nat, nat>, k: nat)
    requires k !in m
    ensures m - {k} == m
  {
  }

  /** A live header's block ends with its region. */
  lemma BlockOfNode(l: Layout, i: nat)
    requires l.Ok() && i < |l.nodes|
    ensures l.nodes[i].addr in l.Blocks() <==> !l.nodes[i].free
    ensures !l.nodes[i].free ==> l.Blocks()[l.nodes[i].addr] == l.End(i)
  {
    hide LiveBlocks;
    BlocksAround(l, i);
    NotABlockLater(l, i);
    PutMiddle(LiveBlocks(l.nodes[..i], l.nodes[i].addr), LiveBlocks(l.nodes[i + 1..], l.end),
              l.nodes[i].addr, l.End(i));
  }

  lemma NodeOfBlock(l: Layout, n: nat) returns (i: nat)
    requires n in l.Blocks()
    ensures i < |l.nodes| && l.nodes[i] == Node(n, false)
  {
    BlocksAreHeaders(l.nodes, l.end, n);
    i :| 0 <= i < |l.nodes| && l.nodes[i] == Node(n, false);
  }

  /** Live blocks never overlap, and lie inside the heap. */
  lemma BlocksApart(l: Layout, m: nat, n: nat)
    requires l.Ok() && m in l.Blocks() && n in l.Blocks() && m != n
    ensures l.Blocks()[m] <= n || l.Blocks()[n] <= m
    ensures m + HEADER <= l.Blocks()[m] <= l.end
  {
    var i := NodeOfBlock(l, m);
    var j := NodeOfBlock(l, n);
    BlockOfNode(l, i);
    BlockOfNode(l, j);
  }

  /** Growing the heap: only a live last block follows. */
  lemma GrowthOfLast(l: Layout, end: nat)
    requires l.Ok() && l.end <= end
    ensures l.(end := end).Blocks().Keys == l.Blocks().Keys
    ensures forall n :: n in l.Blocks() ==> l.(end := end).Blocks()[n] >= l.Blocks()[n]
  {
    var last := |l.nodes| - 1;
    NotABlockLater(l, last);
  }

  /** A header put where the heap used to end gives every block its old end back. */
  lemma GrowthBehindHeader(l: Layout, end: nat)
    requires l.Ok() && l.end <= end && Aligned(end)
    ensures l.(end := end).Ok()
    ensures l.(end := end).Inserted(|l.nodes| - 1, l.end).Blocks() == l.Blocks()
  {
    InsertChangesBlock(l.(end := end), |l.nodes| - 1, l.end);
  }

  // --- The order is kept ---

  lemma MergeOk(l: Layout, i: nat)
    requires l.Ok() && i + 1 < |l.nodes|
    ensures l.Merged(i).Ok()
    ensures l.Merged(i).End(i) == l.End(i + 1)
  {
  }

  /** A header may be put anywhere into a region that leaves room for it. */
  lemma InsertOk(l: Layout, i: nat, addr: nat)
    requires l.Ok() && i < |l.nodes|
    requires Aligned(addr) && l.nodes[i].addr + HEADER <= addr && addr + HEADER <= l.End(i)
    ensures l.Inserted(i, addr).Ok()
    ensures l.Inserted(i, addr).End(i) == addr && l.Inserted(i, addr).End(i + 1) == l.End(i)
  {
  }

  // --- Runs of free regions ---

  /** Where the maximal run of adjacent free regions from region `i` on ends. */
  function RunEnd(l: Layout, i: nat): nat
    requires i < |l.nodes|
    decreases |l.nodes| - i
  {
    if i + 1 < |l.nodes| && l.nodes[i + 1].free then RunEnd(l, i + 1) else l.End(i)
  }

  /** What merging the run would make of region `i`: headers in between count too. */
  function RunSize(l: Layout, i: nat): int
    requires i < |l.nodes|
  {
    RunEnd(l, i) - l.nodes[i].addr - HEADER
  }

  /** No run of free regions can hold `size` bytes among the regions before `i`. */
  ghost predicate NoFitBefore(l: Layout, i: nat, size: nat)
    requires i <= |l.nodes|
  {
    forall k :: 0 <= k < i && l.nodes[k].free ==> RunSize(l, k) < size
  }

  /** A run has one end, whichever of its regions one starts from. */
  lemma {:induction false} RunEndShared(l: Layout, i: nat, j: nat)
    requires i <= j < |l.nodes| && forall k :: i < k <= j ==> l.nodes[k].free
    ensures RunEnd(l, i) == RunEnd(l, j)
    decreases j - i
  {
    if i == j {
    } else {
      RunEndShared(l, i + 1, j);
    }
  }

  lemma {:induction false} RunEndInOrder(l: Layout, i: nat)
    requires l.Ok() && i < |l.nodes|
    ensures l.End(i) <= RunEnd(l, i) <= l.end
    decreases |l.nodes| - i
  {
    if i + 1 < |l.nodes| && l.nodes[i + 1].free {
      RunEndInOrder(l, i + 1);
    }
  }

  /** If the run from `i` to `j` cannot hold the request, no region of it starts one that can. */
  lemma RunTooSmall(l: Layout, i: nat, j: nat, size: nat)
    requires l.Ok() && i < j <= |l.nodes| && NoFitBefore(l, i, size)
    requires forall k :: i < k < j ==> l.nodes[k].free
    requires l.nodes[i].free ==> RunSize(l, i) < size
    requires !l.nodes[i].free ==> j == i + 1
    ensures NoFitBefore(l, j, size)
  {
    forall k | 0 <= k < j && l.nodes[k].free
      ensures RunSize(l, k) < size
    {
      if i < k {
        RunEndShared(l, i, k);
      }
    }
  }

  // --- The free regions in front of a place ---

  /** Where the maximal run of adjacent free regions up to region `i` starts. */
  function RunStart(l: Layout, i: nat): (s: nat)
    requires i < |l.nodes|
    ensures s <= i
  {
    if 0 < i && l.nodes[i - 1].free then RunStart(l, i - 1) else i
  }

  /** What merging the free regions right before region `j` would make of them. */
  function FreeBefore(l: Layout, j: nat): int
    requires j <= |l.nodes|
  {
    if j == 0 || !l.nodes[j - 1].free then 0 else l.End(j - 1) - l.nodes[RunStart(l, j - 1)].addr - HEADER
  }

  /** How much of a request for `size` bytes the free regions at the end of the heap leave to be asked for. */
  function Lacking(l: Layout, size: nat): nat {
    var tail := FreeBefore(l, |l.nodes|);
    if 0 <= tail <= size then size - tail else 0
  }

  /** Region `j` does not go on with a run of free regions. */
  predicate RunStarts(l: Layout, j: nat) {
    0 < j < |l.nodes| ==> !(l.nodes[j - 1].free && l.nodes[j].free)
  }

  lemma {:induction false} RunStartIs(l: Layout, j: nat, i: nat)
    requires j <= i < |l.nodes| && RunStarts(l, j) && forall k :: j <= k <= i ==> l.nodes[k].free
    ensures RunStart(l, i) == j
    decreases i
  {
    if i > j {
      RunStartIs(l, j, i - 1);
    }
  }

  // --- The first-fit search ---

  /** `found` is the first region whose run of free regions can hold the request. */
  ghost predicate FirstFit(l: Layout, found: nat, size: nat) {
    exists j ::
      0 <= j < |l.nodes| && l.nodes[j] == Node(found, true) && size <= RunSize(l, j) && NoFitBefore(l, j, size)
  }

  /**
    The cursor stands at region `c` of the list as merged so far, which is region `j` of
    the list as found; what lies behind is as found, and nothing before could serve.
   */
  ghost predicate Searching(l0: Layout, l: Layout, c: nat, j: nat, size: nat) {
    && l0.Ok() && c <= |l.nodes| && j <= |l0.nodes| && l.end == l0.end
    && l.nodes[c..] == l0.nodes[j..]
    && NoFitBefore(l0, j, size) && RunStarts(l0, j)
    && (0 < c ==> FreeBefore(l0, j) == if l.nodes[c - 1].free then l.Size(c - 1) else 0)
    && (0 < c && l.nodes[c - 1].free ==> l.Size(c - 1) < size)
  }

  /** Regions `j + 1` to `m` of the list as found have been merged into the one at the cursor. */
  ghost predicate Merging(l0: Layout, l: Layout, c: nat, j: nat, m: nat, size: nat) {
    && l0.Ok() && c < |l.nodes| && j < m <= |l0.nodes| && l.end == l0.end
    && l.nodes[c] == l0.nodes[j]
    && l.nodes[c + 1..] == l0.nodes[m..]
    && NoFitBefore(l0, j, size) && RunStarts(l0, j)
    && (m > j + 1 ==> l0.nodes[j].free)
    && (forall k :: j < k < m ==> l0.nodes[k].free)
  }

  lemma StartSearch(l: Layout, size: nat)
    requires l.Ok()
    ensures Searching(l, l, 0, 0, size)
  {
  }

  lemma StartMerging(l0: Layout, l: Layout, c: nat, j: nat, size: nat)
    requires Searching(l0, l, c, j, size) && c < |l.nodes|
    ensures Merging(l0, l, c, j, j + 1, size)
  {
    assert l.nodes[c] == l.nodes[c..][0] == l0.nodes[j..][0];
    assert l.nodes[c + 1..] == l.nodes[c..][1..] == l0.nodes[j..][1..];
  }

  lemma MergingGoesOn(l0: Layout, l: Layout, c: nat, j: nat, m: nat, size: nat)
    requires Merging(l0, l, c, j, m, size) && c + 1 < |l.nodes| && l.nodes[c].free && l.nodes[c + 1].free
    ensures m < |l0.nodes| && Merging(l0, l.Merged(c), c, j, m + 1, size)
  {
    assert l.nodes[c + 1] == l.nodes[c + 1..][0] == l0.nodes[m..][0];
    assert l.nodes[c + 2..] == l.nodes[c + 1..][1..] == l0.nodes[m..][1..];
    assert l.Merged(c).nodes[c + 1..] == l.nodes[c + 2..];
  }

  /** Once nothing more merges, a free region at the cursor is its whole run. */
  lemma RunMerged(l0: Layout, l: Layout, c: nat, j: nat, m: nat, size: nat)
    requires Merging(l0, l, c, j, m, size) && l.nodes[c].free
    requires !(c + 1 < |l.nodes| && l.nodes[c + 1].free)
    ensures RunSize(l0, j) == l.Size(c)
  {
    RunEndShared(l0, j, m - 1);
    if m < |l0.nodes| {
      assert l.nodes[c + 1] == l.nodes[c + 1..][0] == l0.nodes[m..][0];
    }
  }

  lemma FitFound(l0: Layout, l: Layout, c: nat, j: nat, m: nat, size: nat)
    requires Merging(l0, l, c, j, m, size) && l.nodes[c].free && size <= l.Size(c)
    requires !(c + 1 < |l.nodes| && l.nodes[c + 1].free)
    ensures FirstFit(l0, l.nodes[c].addr, size)
  {
    RunMerged(l0, l, c, j, m, size);
    assert l0.nodes[j] == Node(l.nodes[c].addr, true);
  }

  lemma NotFound(l0: Layout, l: Layout, c: nat, j: nat, m: nat, size: nat)
    requires Merging(l0, l, c, j, m, size) && (l.nodes[c].free ==> l.Size(c) < size)
    requires !(l.nodes[c].free && c + 1 < |l.nodes| && l.nodes[c + 1].free)
    ensures Searching(l0, l, c + 1, m, size)
  {
    hide NoFitBefore, Layout.Ok;
    if l.nodes[c].free {
      RunMerged(l0, l, c, j, m, size);
    }
    MergedIsBefore(l0, l, c, j, m, size);
    RunTooSmall(l0, j, m, size);
  }

  /** The region at the cursor is what the free regions before the next one amount to. */
  lemma MergedIsBefore(l0: Layout, l: Layout, c: nat, j: nat, m: nat, size: nat)
    requires Merging(l0, l, c, j, m, size)
    requires !(l.nodes[c].free && c + 1 < |l.nodes| && l.nodes[c + 1].free)
    ensures RunStarts(l0, m) && FreeBefore(l0, m) == if l.nodes[c].free then l.Size(c) else 0
  {
    hide NoFitBefore, Layout.Ok;
    if m < |l0.nodes| {
      assert l.nodes[c + 1] == l.nodes[c + 1..][0] == l0.nodes[m..][0];
    }
    if l.nodes[c].free {
      RunStartIs(l0, j, m - 1);
    }
  }

  lemma SearchExhausted(l0: Layout, l: Layout, c: nat, j: nat, size: nat)
    requires Searching(l0, l, c, j, size) && c == |l.nodes| && 0 < c
    ensures NoFitBefore(l0, |l0.nodes|, size)
    ensures l.nodes[c - 1].free ==> l.Size(c - 1) < size
    ensures FreeBefore(l0, |l0.nodes|) == if l.nodes[c - 1].free then l.Size(c - 1) else 0
  {
    assert |l0.nodes[j..]| == 0;
  }

  /** A first fit is a fit. */
  lemma FirstFitIsFit(l: Layout, found: nat, size: nat)
    requires FirstFit(l, found, size)
    ensures !NoFitBefore(l, |l.nodes|, size)
  {
  }

  /** The list once a free region is put behind the grown heap's last one, and once those two are merged. */
  lemma GrownNodes(l: Layout, end: nat)
    requires 0 < |l.nodes| && l.end <= end
    ensures var last, g := |l.nodes| - 1, l.(end := end).Inserted(|l.nodes| - 1, l.end);
            && |g.nodes| == last + 2 && g.end == end
            && g.nodes[last] == l.nodes[last] && g.nodes[last + 1] == Node(l.end, true)
            && g.Merged(last).nodes == l.nodes && g.Merged(last).end == end
  {
  }

  /** The same live blocks, some perhaps longer. */
  ghost predicate Grew(blocks: map<nat, nat>, blocks': map<nat, nat>) {
    && blocks'.Keys == blocks.Keys
    && forall n :: n in blocks ==> blocks[n] <= blocks'[n]
  }
}
