/**
  Whole runs of a program on the heap: what any sequence of calls and stores looks like
  from outside is a map from pointers to byte strings (custom_malloc/library.c).
 */
module HeapRuns {
  import opened Bytes
  import opened HeapLayout
  import opened Heaps
  import opened HeapAllocators

  /** What the program holds behind each pointer it was given. */
  type View = map<nat, seq<byte>>

  /** `supply` is what the kernel would grant should the heap have to grow. */
  datatype Call =
    | Malloc(size: nat, supply: seq<Page>)
    | Free(ptr: nat)
    | Realloc(ptr: nat, size: nat, supply: seq<Page>)
    | Store(ptr: nat, at: nat, value: byte)

  /** Pointers are given back once, and stores stay inside the block asked for. */
  predicate Legal(view: View, c: Call) {
    match c
    case Malloc(_, _) => true
    case Free(ptr) => ptr == 0 || ptr in view
    case Realloc(ptr, _, _) => ptr == 0 || ptr in view
    case Store(ptr, at, _) => ptr in view && at < |view[ptr]|
  }

  /** How much of the old block a reallocation has to preserve. */
  function Common(a: nat, b: nat): nat {
    if a < b then a else b
  }

  function Put(view: View, ptr: nat, at: nat, v: byte): View
    requires ptr in view && at < |view[ptr]|
  {
    var b: seq<byte> := view[ptr][at := v];
    view[ptr := b]
  }

  /** What a call that returns `r` may do to the view. */
  ghost predicate Step(view: View, c: Call, r: nat, view': View) {
    match c
    case Malloc(size, _) => Fresh(view, size, r, view')
    case Free(ptr) => view' == view - {ptr}
    case Realloc(ptr, size, _) =>
      if r == 0 then view' == view
      else if ptr == 0 then Fresh(view, size, r, view')
      else
        && r !in view && Aligned(r) && ptr in view && r in view' && |view'[r]| == size
        && view' == (view - {ptr})[r := view'[r]]
        && var n := Common(size, |view[ptr]|); view'[r][..n] == view[ptr][..n]
    case Store(ptr, at, value) =>
      ptr in view && at < |view[ptr]| && view' == Put(view, ptr, at, value)
  }

  ghost predicate Fresh(view: View, size: nat, r: nat, view': View) {
    if r == 0 then view' == view
    else r !in view && Aligned(r) && r in view' && |view'[r]| == size && view' == view[r := view'[r]]
  }

  /** The bytes `b` lie behind `p`, inside a live block. */
  ghost predicate Served(mem: map<nat, Cell>, blocks: map<nat, nat>, p: nat, b: seq<byte>) {
    && HEADER <= p && p - HEADER in blocks && p + |b| <= blocks[p - HEADER]
    && forall k :: 0 <= k < |b| ==> ByteAt(mem, p, k) == b[k]
  }

  ghost predicate Serves(mem: map<nat, Cell>, blocks: map<nat, nat>, view: View) {
    && (forall p :: p in view ==> Served(mem, blocks, p, view[p]))
    && (forall n :: n in blocks ==> n + HEADER in view)
  }

  function Seen(mem: map<nat, Cell>, p: nat, n: nat): (b: seq<byte>)
    ensures |b| == n && forall k :: 0 <= k < n ==> ByteAt(mem, p, k) == b[k]
  {
    if n == 0 then [] else Seen(mem, p, n - 1) + [ByteAt(mem, p, n - 1)]
  }

  /** A block whose data is kept still serves its pointer. */
  lemma StillServed(mem: map<nat, Cell>, mem': map<nat, Cell>, l: Layout, kept: map<nat, nat>, blocks': map<nat, nat>,
                    p: nat, b: seq<byte>)
    requires Shows(mem, l) && Served(mem, l.Blocks(), p, b) && DataKept(kept, mem, mem')
    requires p - HEADER in kept && kept[p - HEADER] == l.Blocks()[p - HEADER]
    requires p - HEADER in blocks' && l.Blocks()[p - HEADER] <= blocks'[p - HEADER]
    ensures Served(mem', blocks', p, b)
  {
    hide Shows, DataKept, Layout.Blocks, ByteAt, Aligned;
    BlockBacked(mem, l, p - HEADER);
    BlockBytesKept(kept, mem, mem', p - HEADER);
  }

  /** Nothing taken away, nothing moved: the whole view is still served. */
  lemma AllStillServed(mem: map<nat, Cell>, mem': map<nat, Cell>, l: Layout, blocks': map<nat, nat>, view: View)
    requires Shows(mem, l) && Serves(mem, l.Blocks(), view) && DataKept(l.Blocks(), mem, mem')
    requires forall n :: n in l.Blocks() ==> n in blocks' && l.Blocks()[n] <= blocks'[n]
    ensures forall p :: p in view ==> Served(mem', blocks', p, view[p])
  {
    hide Shows, DataKept, Layout.Blocks, Served;
    forall p | p in view
      ensures Served(mem', blocks', p, view[p])
    {
      assert Served(mem, l.Blocks(), p, view[p]);
      PointerOf(mem, l.Blocks(), p, view[p]);
      StillServed(mem, mem', l, l.Blocks(), blocks', p, view[p]);
    }
  }

  lemma PointerOf(mem: map<nat, Cell>, blocks: map<nat, nat>, p: nat, b: seq<byte>)
    requires Served(mem, blocks, p, b)
    ensures HEADER <= p && p - HEADER in blocks && p + |b| <= blocks[p - HEADER]
  {
  }

  /** A pointer of the view, taken back to its header. */
  lemma ViewPointer(mem: map<nat, Cell>, blocks: map<nat, nat>, view: View, ptr: nat)
    requires Serves(mem, blocks, view)
    ensures ptr in view ==> HEADER <= ptr && ptr - HEADER in blocks
  {
    if ptr in view {
      PointerOf(mem, blocks, ptr, view[ptr]);
    }
  }

  lemma GrownServes(mem: map<nat, Cell>, mem': map<nat, Cell>, l: Layout, blocks': map<nat, nat>, view: View)
    requires Shows(mem, l) && Serves(mem, l.Blocks(), view) && DataKept(l.Blocks(), mem, mem')
    requires Grew(l.Blocks(), blocks')
    ensures Serves(mem', blocks', view)
  {
    hide Shows, DataKept, Layout.Blocks, Served;
    AllStillServed(mem, mem', l, blocks', view);
    forall n | n in blocks'
      ensures n + HEADER in view
    {
      assert n in l.Blocks().Keys;
    }
  }

  lemma FreshServes(mem: map<nat, Cell>, mem': map<nat, Cell>, l: Layout, view: View, r: nat, size: nat)
    requires Shows(mem, l) && Serves(mem, l.Blocks(), view) && DataKept(l.Blocks(), mem, mem')
    requires HEADER < r && Aligned(r) && r - HEADER !in l.Blocks()
    ensures var view' := view[r := Seen(mem', r, size)];
            && Serves(mem', l.Blocks()[r - HEADER := r + Rounded(size)], view')
            && Fresh(view, size, r, view')
  {
    hide Shows, DataKept, Layout.Blocks, Aligned, Rounded, Seen, ByteAt;
    AllStillServed(mem, mem', l, l.Blocks()[r - HEADER := r + Rounded(size)], view);
    var view' := view[r := Seen(mem', r, size)];
    ViewPointer(mem, l.Blocks(), view, r);
  }

  lemma FreedServes(mem: map<nat, Cell>, mem': map<nat, Cell>, l: Layout, view: View, ptr: nat)
    requires Shows(mem, l) && Serves(mem, l.Blocks(), view) && DataKept(l.Blocks(), mem, mem') && ptr in view
    ensures HEADER <= ptr && Serves(mem', l.Blocks() - {ptr - HEADER}, view - {ptr})
  {
    hide Shows, DataKept, Layout.Blocks, Served;
    PointerOf(mem, l.Blocks(), ptr, view[ptr]);
    var blocks' := l.Blocks() - {ptr - HEADER};
    forall p | p in view - {ptr}
      ensures Served(mem', blocks', p, view[p])
    {
      assert Served(mem, l.Blocks(), p, view[p]);
      PointerOf(mem, l.Blocks(), p, view[p]);
      StillServed(mem, mem', l, l.Blocks(), blocks', p, view[p]);
    }
  }

  lemma MovedServes(mem: map<nat, Cell>, mem': map<nat, Cell>, l: Layout, view: View, ptr: nat, r: nat, size: nat)
    requires Shows(mem, l) && Serves(mem, l.Blocks(), view) && ptr in view && HEADER <= ptr
    requires HEADER < r && Aligned(r) && r - HEADER !in l.Blocks()
    requires ptr - HEADER in l.Blocks() && ptr <= l.Blocks()[ptr - HEADER]
    requires DataKept(l.Blocks() - {ptr - HEADER}, mem, mem')
    requires CopiedTo(mem, mem', r, ptr, Common(size, l.Blocks()[ptr - HEADER] - ptr))
    ensures var view' := (view - {ptr})[r := Seen(mem', r, size)];
            && Serves(mem', l.Blocks()[r - HEADER := r + Rounded(size)] - {ptr - HEADER}, view')
            && Step(view, Realloc(ptr, size, []), r, view')
  {
    hide Shows, DataKept, Layout.Blocks, Aligned, Rounded, Seen, ByteAt, Served;
    var blocks' := l.Blocks()[r - HEADER := r + Rounded(size)] - {ptr - HEADER};
    var view' := (view - {ptr})[r := Seen(mem', r, size)];
    PointerOf(mem, l.Blocks(), ptr, view[ptr]);
    ViewPointer(mem, l.Blocks(), view, r);
    forall p | p in view'
      ensures Served(mem', blocks', p, view'[p])
    {
      if p == r {
        SeenServed(mem', blocks', r, size);
      } else {
        PointerOf(mem, l.Blocks(), p, view[p]);
        StillServed(mem, mem', l, l.Blocks() - {ptr - HEADER}, blocks', p, view[p]);
      }
    }
    SamePrefix(mem, mem', l.Blocks(), view[ptr], ptr, r, size);
  }

  lemma SeenServed(mem: map<nat, Cell>, blocks: map<nat, nat>, p: nat, n: nat)
    requires HEADER <= p && p - HEADER in blocks && p + n <= blocks[p - HEADER]
    ensures Served(mem, blocks, p, Seen(mem, p, n))
  {
  }

  lemma SamePrefix(mem: map<nat, Cell>, mem': map<nat, Cell>, blocks: map<nat, nat>, b: seq<byte>, ptr: nat,
                   r: nat, size: nat)
    requires Served(mem, blocks, ptr, b)
    requires CopiedTo(mem, mem', r, ptr, Common(size, blocks[ptr - HEADER] - ptr))
    ensures var n := Common(size, |b|); Seen(mem', r, size)[..n] == b[..n]
  {
    hide ByteAt, Seen;
  }

  ghost predicate StoreServed(mem: map<nat, Cell>, l: Layout, view: View, ptr: nat, at: nat, v: byte) {
    && ptr in view && at < |view[ptr]| && CellOf(ptr + at) in mem
    && Shows(WithByte(mem, ptr + at, v), l)
    && Serves(WithByte(mem, ptr + at, v), l.Blocks(), Put(view, ptr, at, v))
  }

  /** A store into one block. */
  lemma StoreServes(mem: map<nat, Cell>, l: Layout, view: View, ptr: nat, at: nat, v: byte)
    requires Shows(mem, l) && Serves(mem, l.Blocks(), view) && ptr in view && at < |view[ptr]|
    ensures StoreServed(mem, l, view, ptr, at, v)
  {
    hide Shows, DataKept, Layout.Blocks, Aligned, ByteAt, WithByte, CellOf, Served;
    var view' := Put(view, ptr, at, v);
    PointerOf(mem, l.Blocks(), ptr, view[ptr]);
    BlockBacked(mem, l, ptr - HEADER);
    CellsOfRange(ptr, at, l.Blocks()[ptr - HEADER] - ptr);
    WritesOneCell(mem, ptr + at, v);
    var mem' := WithByte(mem, ptr + at, v);
    StoresIntoBlock(mem, mem', l, ptr - HEADER);
    StoredServed(mem, l.Blocks(), ptr, view[ptr], at, v);
    forall p | p in view'
      ensures Served(mem', l.Blocks(), p, view'[p])
    {
      if p != ptr {
        PointerOf(mem, l.Blocks(), p, view[p]);
        StillServed(mem, mem', l, l.Blocks() - {ptr - HEADER}, l.Blocks(), p, view[p]);
      }
    }
  }

  lemma StoredServed(mem: map<nat, Cell>, blocks: map<nat, nat>, p: nat, b: seq<byte>, at: nat, v: byte)
    requires Served(mem, blocks, p, b) && at < |b| && CellOf(p + at) in mem
    ensures Served(WithByte(mem, p + at, v), blocks, p, b[at := v])
  {
    hide ByteAt, WithByte, CellOf;
    var b' := b[at := v];
    forall k | 0 <= k < |b|
      ensures ByteAt(WithByte(mem, p + at, v), p, k) == b'[k]
    {
      ByteWritten(mem, p, at, v, k);
    }
  }

  /** No size computation of the call wraps. */
  predicate InRange(c: Call, heapEnd: nat) {
    match c
    case Malloc(size, _) => heapEnd + Rounded(size) + HEADER + PAGE_SIZE < LIMIT
    case Realloc(_, size, _) => heapEnd + Rounded(size) + HEADER + PAGE_SIZE < LIMIT
    case _ => true
  }

  lemma NullRemoved(view: View)
    requires 0 !in view
    ensures view - {0} == view
  {
  }

  lemma SameGrew(blocks: map<nat, nat>)
    ensures Grew(blocks, blocks)
  {
  }

  /** One call: the allocator still serves the program, whose view changes by a permitted step. */
  method Perform(a: Allocator, view: View, c: Call) returns (r: nat, view': View)
    requires a.Valid() && Serves(a.mem, a.l.Blocks(), view) && Legal(view, c) && InRange(c, a.heapEnd)
    modifies a
    ensures a.Valid() && Serves(a.mem, a.l.Blocks(), view')
    ensures Step(view, c, r, view')
  {
    hide Shows, Layout.Blocks, Serves, Aligned, Rounded, PageAligned;
    match c
    case Malloc(size, supply) =>
      r, view' := PerformMalloc(a, view, size, supply);
    case Free(ptr) =>
      r := 0;
      view' := PerformFree(a, view, ptr);
    case Realloc(ptr, size, supply) =>
      r, view' := PerformRealloc(a, view, ptr, size, supply);
    case Store(ptr, at, value) =>
      StoreServes(a.mem, a.l, view, ptr, at, value);
      a.mem := WithByte(a.mem, ptr + at, value);
      r, view' := 0, Put(view, ptr, at, value);
  }

  method PerformMalloc(a: Allocator, view: View, size: nat, supply: seq<Page>) returns (r: nat, view': View)
    requires a.Valid() && Serves(a.mem, a.l.Blocks(), view) && a.heapEnd + Rounded(size) + HEADER + PAGE_SIZE < LIMIT
    modifies a
    ensures a.Valid() && Serves(a.mem, a.l.Blocks(), view')
    ensures Fresh(view, size, r, view')
  {
    hide Shows, DataKept, Layout.Blocks, Aligned, Serves, Grew, PagesFor, NoFitBefore, FirstFit, Rounded, Seen;
    ghost var l0, mem0 := a.l, a.mem;
    r := a.Malloc(size, supply);
    if r == 0 {
      GrownServes(mem0, a.mem, l0, a.l.Blocks(), view);
      view' := view;
    } else {
      FreshServes(mem0, a.mem, l0, view, r, size);
      view' := view[r := Seen(a.mem, r, size)];
    }
  }

  method PerformFree(a: Allocator, view: View, ptr: nat) returns (view': View)
    requires a.Valid() && Serves(a.mem, a.l.Blocks(), view) && (ptr == 0 || ptr in view)
    modifies a
    ensures a.Valid() && Serves(a.mem, a.l.Blocks(), view')
    ensures view' == view - {ptr}
  {
    hide Shows, DataKept, Layout.Blocks, Serves, Grew;
    ghost var l0, mem0 := a.l, a.mem;
    ViewPointer(mem0, l0.Blocks(), view, ptr);
    a.Free(ptr);
    if ptr == 0 {
      NullRemoved(view);
      SameGrew(l0.Blocks());
      GrownServes(mem0, a.mem, l0, a.l.Blocks(), view);
    } else {
      FreedServes(mem0, a.mem, l0, view, ptr);
    }
    view' := view - {ptr};
  }

  method PerformRealloc(a: Allocator, view: View, ptr: nat, size: nat, supply: seq<Page>) returns (r: nat, view': View)
    requires a.Valid() && Serves(a.mem, a.l.Blocks(), view) && (ptr == 0 || ptr in view)
    requires a.heapEnd + Rounded(size) + HEADER + PAGE_SIZE < LIMIT
    modifies a
    ensures a.Valid() && Serves(a.mem, a.l.Blocks(), view')
    ensures Step(view, Realloc(ptr, size, supply), r, view')
  {
    hide Shows, DataKept, Layout.Blocks, Aligned, Serves, Grew, PagesFor, NoFitBefore, FirstFit, Rounded, Seen,
      CopiedTo;
    ghost var l0, mem0 := a.l, a.mem;
    ViewPointer(mem0, l0.Blocks(), view, ptr);
    r := a.Realloc(ptr, size, supply);
    if r == 0 {
      GrownServes(mem0, a.mem, l0, a.l.Blocks(), view);
      view' := view;
    } else if ptr == 0 {
      FreshServes(mem0, a.mem, l0, view, r, size);
      view' := view[r := Seen(a.mem, r, size)];
    } else {
      MovedServes(mem0, a.mem, l0, view, ptr, r, size);
      view' := (view - {ptr})[r := Seen(a.mem, r, size)];
    }
  }

  /**
    Any run: every answer is one the map of byte strings permits, and at the end every
    pointer's block still holds what the program put there. The run goes on to the first
    call the program may not make.
   */
  method Run(a: Allocator, view: View, calls: seq<Call>) returns (n: nat, views: seq<View>, results: seq<nat>)
    requires a.Valid() && Serves(a.mem, a.l.Blocks(), view)
    modifies a
    ensures a.Valid() && n <= |calls| && |views| == n + 1 && |results| == n && views[0] == view
    ensures Serves(a.mem, a.l.Blocks(), views[n])
    ensures forall i, j :: 0 <= i < n && j == i + 1 ==> Step(views[i], calls[i], results[i], views[j])
    ensures n < |calls| ==> !(Legal(views[n], calls[n]) && InRange(calls[n], a.heapEnd))
  {
    hide Shows, Layout.Blocks, Serves, Step, Legal, InRange;
    n, views, results := 0, [view], [];
    while n < |calls| && Legal(views[n], calls[n]) && InRange(calls[n], a.heapEnd)
      invariant n <= |calls| && |views| == n + 1 && |results| == n && views[0] == view
      invariant a.Valid() && Serves(a.mem, a.l.Blocks(), views[n])
      invariant forall i, j :: 0 <= i < n && j == i + 1 ==> Step(views[i], calls[i], results[i], views[j])
      decreases |calls| - n
    {
      var r, next := Perform(a, views[n], calls[n]);
      views, results := views + [next], results + [r];
      n := n + 1;
    }
  }
}
