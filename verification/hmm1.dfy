/**
 HMM1/heap.c: a heap inside a static array of `VHEAP_MAX_SIZE` bytes, with a
 doubly linked free list whose `length` field EXCLUDES the node header, so a
 node at `off` spans `[off, off + META + length)`.

 The source has several defects; the functions below follow the code as
 written and each defect is recorded where it occurs:
  - `addfnode` stores `newNode` into `node->next` and then reads
    `node->next` back as if it were still the old successor (lines 48 and
    57), so a node added in the middle of the list gets length
    `0 - META_DATA_SIZE` wrapped to `2^64 - 24`; only the tail case is sound.
  - `firstFit` never unlinks the node it returns (lines 92-95), and splits
    whenever `length > blockSize`, even when the residual cannot hold a header.
  - `HmmAlloc` does not check the retried `firstFit` for NULL (lines 123-126).
  - `HmmFree` pushes the payload pointer itself as a header (line 134).
  - `mergeNodes` is an empty stub (lines 68-71) and is never called.
 */
module Hmm1 {
  import opened FreeList
  import opened Arena

  const PAGE: nat := 4096
  const VHEAP_MAX_SIZE: nat := 1024 * 1024 * 1024
  /** `sizeof(fnode)` on LP64: `length`, `prev`, `next`, eight bytes each. */
  const META: nat := 24

  /** The allocator's globals: the break cursor, the free list from `Head`,
      and `Tail`, which `firstFit` can move independently of the list. */
  datatype Heap = Heap(arena: Cursor, list: seq<Node>, tail: Option<nat>)

  /** Before the first call: the break at `heapBase`, `Head == Tail == NULL`. */
  const Start: Heap := Heap(Cursor(0, VHEAP_MAX_SIZE), [], None)

  /** One past the last byte of a node's block. */
  function End(n: Node): nat { n.off + META + n.len }

  /** Nodes in list order tile the arena up to the break: each block ends
      where the next begins, the last ends at the break, and `Tail` names it. */
  ghost predicate Tiled(h: Heap)
  {
    && |h.list| > 0
    && (forall k :: 0 <= k < |h.list| - 1 ==> End(h.list[k]) == h.list[k + 1].off)
    && End(h.list[|h.list| - 1]) == h.arena.brk
    && h.tail == Some(h.list[|h.list| - 1].off)
    && h.arena.Valid() && h.arena.cap <= VHEAP_MAX_SIZE
  }

  /** `freeListInit`: take one page from the break and make it the only free
      node, `Head == Tail`. A failed `sbreak` returns `(void *)-1`, which the
      code then writes through: undefined behaviour. */
  function FreeListInit(h: Heap): (r: Outcome<Heap>)
    ensures r.Ok? <==> h.arena.brk + PAGE <= h.arena.cap
    ensures r.Undefined? <==> !r.Ok?
    ensures r.Ok? ==> && |r.value.list| == 1
                      && r.value.list[0].off == h.arena.brk
                      && r.value.arena == Cursor(h.arena.brk + PAGE, h.arena.cap)
    ensures r.Ok? && h.arena.cap <= VHEAP_MAX_SIZE ==> Tiled(r.value)
  {
    var (prior, a) := Sbreak(h.arena, PAGE);
    if prior.None? then Undefined
    else
      var head := prior.value;
      // `sbreak(0) - Head - sizeof(fnode)`: the break is `a.brk`.
      Ok(Heap(a, [Node(head, SizeT(a.brk - head - META))], Some(head)))
  }

  /** `addfnode(node)` for the node at index `i`: a new node at the end of
      `node`'s block, linked right after it. Returns the new state and the
      new node's offset. */
  function AddFnode(h: Heap, i: nat): (r: (Heap, nat))
    requires i < |h.list|
    ensures r.1 == End(h.list[i])
    ensures r.0.arena == h.arena
    ensures |r.0.list| >= i + 2 && r.0.list[..i + 1] == h.list[..i + 1]
    ensures r.0.list[i + 1].off == r.1
    // The sound case: `node` is `Tail`. The new node runs to the break and
    // becomes `Tail`; `newNode->next = NULL` cuts off whatever followed `node`.
    ensures h.tail == Some(h.list[i].off) ==>
              && |r.0.list| == i + 2
              && r.0.tail == Some(r.1)
              && (r.1 + META <= h.arena.brk < WORD ==> End(r.0.list[i + 1]) == h.arena.brk)
    // `node` has a successor but is not `Tail`: the length is computed from
    // `node->next`, which is already the new node, and wraps around.
    ensures h.tail != Some(h.list[i].off) && i + 1 < |h.list| ==>
              && r.0.list[i + 1].len == WORD - META
              && r.0.list[i + 2..] == h.list[i + 1..]
              && r.0.tail == h.tail
    // `node` is last without being `Tail`: appended, `Tail` untouched.
    ensures h.tail != Some(h.list[i].off) && i + 1 == |h.list| ==>
              && |r.0.list| == i + 2
              && r.0.tail == h.tail
              && (r.1 + META <= h.arena.brk < WORD ==> End(r.0.list[i + 1]) == h.arena.brk)
  {
    var node := h.list[i];
    var newOff := node.off + META + node.len;
    if h.tail == Some(node.off) then
      var n := Node(newOff, SizeT(h.arena.brk - newOff - META));
      (h.(list := h.list[..i + 1] + [n], tail := Some(newOff)), newOff)
    else if i + 1 < |h.list| then
      // `(char*)node->next - (char*)newNode - META_DATA_SIZE` with
      // `node->next == newNode`.
      var n := Node(newOff, SizeT(newOff - newOff - META));
      (h.(list := h.list[..i + 1] + [n] + h.list[i + 1..]), newOff)
    else
      var n := Node(newOff, SizeT(h.arena.brk - newOff - META));
      (h.(list := h.list + [n]), newOff)
  }

  /** `split(node, blockSize)` for the node at index `i`: the node keeps
      `blockSize` bytes and `addfnode` links the rest right after it. The
      `Head == NULL` branch cannot be reached for a node on the list. */
  function Split(h: Heap, i: nat, blockSize: nat): (r: Heap)
    requires i < |h.list|
    ensures r.arena == h.arena
    ensures |r.list| >= i + 2 && r.list[..i] == h.list[..i]
    ensures r.list[i] == Node(h.list[i].off, blockSize)
    ensures r.list[i + 1].off == h.list[i].off + META + blockSize
    ensures i == 0 && |h.list| == 1 ==> r.tail == Some(r.list[1].off)
  {
    var node := h.list[i];
    var onlyNode := i == 0 && |h.list| == 1;
    var h1 := h.(list := h.list[i := Node(node.off, blockSize)]);
    assert h1.list[..i] == h.list[..i];
    var (h2, newNode) := AddFnode(h1, i);
    assert h2.list[i] == h2.list[..i + 1][i];
    if onlyNode then h2.(tail := Some(newNode)) else h2
  }

  /** `firstFit(blockSize)`: the first node in list order whose length is at
      least `blockSize`, split first when it is strictly larger. The chosen
      node stays on the free list. On a miss the loop's last iteration sets
      `Tail = curr->prev` (lines 99-101). The index returned names `curr`. */
  function FirstFit(h: Heap, blockSize: nat): (r: (Heap, Option<nat>))
    ensures r.0.arena == h.arena
    ensures r.1.Some? ==> && r.1.value < |h.list|
                          && h.list[r.1.value].len >= blockSize
                          && (forall j :: 0 <= j < r.1.value ==> h.list[j].len < blockSize)
    ensures r.1.None? <==> forall j :: 0 <= j < |h.list| ==> h.list[j].len < blockSize
    ensures r.1.Some? ==> && r.1.value < |r.0.list|
                          && r.0.list[r.1.value] == Node(h.list[r.1.value].off, blockSize)
    ensures r.1.Some? && h.list[r.1.value].len == blockSize ==> r.0 == h
    ensures r.1.Some? && h.list[r.1.value].len > blockSize ==>
              && r.1.value + 1 < |r.0.list|
              && r.0.list[r.1.value + 1].off == End(r.0.list[r.1.value])
    ensures r.1.None? ==> r.0.list == h.list
    ensures r.1.None? && |h.list| >= 2 ==> r.0.tail == Some(h.list[|h.list| - 2].off)
    ensures r.1.None? && |h.list| == 1 ==> r.0.tail == None
    ensures r.1.None? && |h.list| == 0 ==> r.0 == h
  {
    match FirstAtLeast(h.list, blockSize)
    case Some(k) =>
      if h.list[k].len > blockSize then (Split(h, k, blockSize), Some(k))
      else (h, Some(k))
    case None =>
      var n := |h.list|;
      if n == 0 then (h, None)
      else (h.(tail := if n >= 2 then Some(h.list[n - 2].off) else None), None)
  }

  /** The result of `HmmAlloc`: the new state and the returned pointer. */
  datatype Alloc = Alloc(heap: Heap, ptr: Option<nat>)

  /** A pointer was returned, one header past a free-list node whose length
      field is the request. */
  predicate Returns(a: Alloc, blockSize: nat)
  {
    && a.ptr.Some? && a.ptr.value >= META
    && Node(a.ptr.value - META, blockSize) in a.heap.list
  }

  /** The break moved by at most one page, below the same cap. */
  predicate GrewAtMostPage(before: Cursor, after: Cursor)
  {
    && after.cap == before.cap
    && (after.brk == before.brk || after.brk == before.brk + PAGE)
  }

  /** `allocBlock->length = blockSize` and the pointer past the header. */
  function Found(h: Heap, k: nat, blockSize: nat): (r: Alloc)
    requires k < |h.list|
    ensures Returns(r, blockSize)
    ensures r.heap.arena == h.arena
  {
    assert h.list[k := Node(h.list[k].off, blockSize)][k] == Node(h.list[k].off, blockSize);
    Alloc(h.(list := h.list[k := Node(h.list[k].off, blockSize)]), Some(h.list[k].off + META))
  }

  /** `HmmAlloc(blockSize)`: zero is refused, the list is initialised on
      first use, then first fit with one page of growth on a miss. */
  function HmmAlloc(h: Heap, blockSize: nat): (r: Outcome<Alloc>)
    ensures blockSize == 0 ==> r == Ok(Alloc(h, None))
    ensures r.Ok? && r.value.ptr.Some? ==> Returns(r.value, blockSize)
    ensures r.Ok? && r.value.ptr.None? && blockSize > 0 ==>
              r.value.heap.arena.brk + PAGE > r.value.heap.arena.cap
    ensures r.Ok? ==> GrewAtMostPage(h.arena, r.value.heap.arena)
  {
    if blockSize == 0 then Ok(Alloc(h, None))
    else if |h.list| == 0 then
      match FreeListInit(h)
      case Ok(h0) => AllocFrom(h0, blockSize)
      case _ => Undefined
    else AllocFrom(h, blockSize)
  }

  /** The body of `HmmAlloc` once `Head` is set (lines 117-130). */
  function AllocFrom(h: Heap, blockSize: nat): (r: Outcome<Alloc>)
    ensures r.Ok? && r.value.ptr.Some? ==> Returns(r.value, blockSize)
    ensures r.Ok? && r.value.ptr.None? ==>
              && r.value.heap.arena == h.arena
              && h.arena.brk + PAGE > h.arena.cap
    ensures r.Ok? ==> GrewAtMostPage(h.arena, r.value.heap.arena)
  {
    var fit := FirstFit(h, blockSize);
    Serve(fit.0, fit.1, blockSize)
  }

  /** What follows the first `firstFit` on the heap it left: the hit is
      returned, the miss grows the heap and retries. */
  function Serve(h: Heap, fit: Option<nat>, blockSize: nat): (r: Outcome<Alloc>)
    requires fit.Some? ==> fit.value < |h.list|
    ensures r.Ok? && r.value.ptr.Some? ==> Returns(r.value, blockSize)
    ensures r.Ok? && r.value.ptr.None? ==>
              && r.value.heap.arena == h.arena
              && h.arena.brk + PAGE > h.arena.cap
    ensures r.Ok? ==> GrewAtMostPage(h.arena, r.value.heap.arena)
  {
    if fit.Some? then Ok(Found(h, fit.value, blockSize))
    else GrowAndRetry(h, blockSize)
  }

  /** The miss path (lines 118-124): one more page, `addfnode(Tail)`, and a
      second `firstFit` whose result is used without a NULL check. */
  function GrowAndRetry(h: Heap, blockSize: nat): (r: Outcome<Alloc>)
    ensures r.Ok? && r.value.ptr.None? <==> h.arena.brk + PAGE > h.arena.cap
    ensures r.Ok? && r.value.ptr.None? ==> r.value.heap == h
    ensures r.Ok? && r.value.ptr.Some? ==>
              && Returns(r.value, blockSize)
              && r.value.heap.arena == Cursor(h.arena.brk + PAGE, h.arena.cap)
  {
    var (prior, a) := Sbreak(h.arena, PAGE);
    if prior.None? then Ok(Alloc(h, None))
    else
      match h.tail
      case None => Undefined      // addfnode(NULL)
      case Some(t) =>
        match IndexOf(h.list, t)
        case None => Undefined    // `Tail` is not a node on the list
        case Some(ti) =>
          Retry(AddFnode(h.(arena := a), ti).0, blockSize)
  }

  /** The second `firstFit`: its NULL result is not checked, and
      `allocBlock->length = blockSize` then writes through NULL. */
  function Retry(h: Heap, blockSize: nat): (r: Outcome<Alloc>)
    ensures r.Ok? ==> Returns(r.value, blockSize) && r.value.heap.arena == h.arena
  {
    var (h1, fit) := FirstFit(h, blockSize);
    if fit.None? then Undefined
    else Ok(Found(h1, fit.value, blockSize))
  }

  /** `HmmFree(ptr)`. `word` is the value found in the eight bytes at `ptr`,
      which the code reads as the freed node's `length`; memory contents are
      not part of this model. The payload pointer itself becomes the node. */
  function HmmFree(h: Heap, ptr: Option<nat>, word: nat): (r: Outcome<Heap>)
    requires word < WORD
    ensures ptr.None? ==> r == Ok(h)
    ensures ptr.Some? && |h.list| == 0 ==>
              r.Ok? ==> |r.value.list| == 1 && r.value.list[0].off == h.arena.brk
    ensures ptr.Some? && |h.list| > 0 && ptr.value !in Offsets(h.list) ==>
              && r.Ok?
              && r.value.list == [Node(ptr.value, word)] + h.list
              && r.value.tail == h.tail
              && r.value.arena == h.arena
    ensures ptr.Some? && ptr.value in Offsets(h.list) ==> r.Undefined?
  {
    match ptr
    case None => Ok(h)
    case Some(p) =>
      if |h.list| == 0 then FreeListInit(h)
      // Pushing a node that is already linked makes the list cyclic,
      // which the model does not represent.
      else if p in Offsets(h.list) then Undefined
      else Ok(h.(list := [Node(p, word)] + h.list))
  }

  // ---------------------------------------------------------------------
  // Properties of the sound paths, and the defects stated as facts.

  /** `HmmAlloc` sets the header length to the request, but `firstFit`
      already left the chosen node at exactly that length: on a hit the write
      changes nothing, and the block stays on the free list. */
  lemma AllocHitLeavesFreeList(h: Heap, blockSize: nat)
    requires FirstFit(h, blockSize).1.Some?
    ensures AllocFrom(h, blockSize) ==
              Ok(Alloc(FirstFit(h, blockSize).0,
                       Some(h.list[FirstFit(h, blockSize).1.value].off + META)))
  {
    var (h1, fit) := FirstFit(h, blockSize);
    FoundRewritesNothing(h1, fit.value, blockSize);
  }

  lemma FoundRewritesNothing(h: Heap, k: nat, blockSize: nat)
    requires k < |h.list| && h.list[k].len == blockSize
    ensures Found(h, k, blockSize) == Alloc(h, Some(h.list[k].off + META))
  {
    assert h.list[k := Node(h.list[k].off, blockSize)] == h.list;
  }

  /** Splitting the tail node of a tiled heap, with room for the new header,
      keeps the heap tiled: the two halves cover the old block exactly. */
  lemma SplitTailKeepsTiling(h: Heap, blockSize: nat)
    requires Tiled(h)
    requires blockSize + META <= h.list[|h.list| - 1].len
    ensures var r := Split(h, |h.list| - 1, blockSize);
            && Tiled(r)
            && |r.list| == |h.list| + 1
            && r.list[..|h.list| - 1] == h.list[..|h.list| - 1]
            && End(r.list[|h.list| - 1]) == r.list[|h.list|].off
  {
    var i := |h.list| - 1;
    var r := Split(h, i, blockSize);
    assert r.list[..i] == h.list[..i];
    forall k | 0 <= k < |r.list| - 1
      ensures End(r.list[k]) == r.list[k + 1].off
    {
      if k < i - 1 {
        assert r.list[k] == h.list[k] && r.list[k + 1] == h.list[k + 1];
      } else if k == i - 1 {
        assert r.list[k] == h.list[k];
      }
    }
  }

  /** The defect in `firstFit`: it splits whenever `length > blockSize`, so a
      residual smaller than a header gets a wrapped, enormous length. On a
      freshly initialised heap a request of 4070 bytes shows it. */
  lemma SplitResidualWraps()
    ensures var h := FreeListInit(Start).value;
            var r := FirstFit(h, 4070);
            && r.1 == Some(0)
            && r.0.list == [Node(0, 4070), Node(4094, WORD - 22)]
  {
    var h := FreeListInit(Start).value;
    assert h.list == [Node(0, 4072)];
    var r := FirstFit(h, 4070);
    assert r.1 == Some(0);
  }

  /** A tiled heap grown by one page, with its last node stretched to the
      new break. */
  function GrownLast(h: Heap): Heap
    requires |h.list| > 0
  {
    var last := h.list[|h.list| - 1];
    Heap(Cursor(h.arena.brk + PAGE, h.arena.cap),
         h.list[..|h.list| - 1] + [Node(last.off, last.len + PAGE)],
         Some(last.off))
  }

  /** Growth on a tiled heap of two or more nodes: the miss sets `Tail` to
      the next-to-last node, so `addfnode(Tail)` re-creates the last node in
      place, now reaching the new break one page further on. The retry then
      runs on that heap, which is tiled again. */
  lemma {:induction false} MissGrowsLastByPage(h: Heap, blockSize: nat)
    requires Tiled(h) && |h.list| >= 2
    requires forall j :: 0 <= j < |h.list| ==> h.list[j].len < blockSize
    requires h.arena.brk + PAGE <= h.arena.cap
    ensures Tiled(GrownLast(h))
    ensures AllocFrom(h, blockSize) == Retry(GrownLast(h), blockSize)
  {
    var n := |h.list|;
    var h1 := h.(tail := Some(h.list[n - 2].off));
    MissMovesTail(h, blockSize);
    GrowthRebuildsLast(h, h1, blockSize);
    GrownLastTiled(h);
  }

  /** A miss on two or more nodes hands the growth path the same list with
      `Tail` on the next-to-last node. */
  lemma MissMovesTail(h: Heap, blockSize: nat)
    requires |h.list| >= 2
    requires forall j :: 0 <= j < |h.list| ==> h.list[j].len < blockSize
    ensures AllocFrom(h, blockSize) == GrowAndRetry(h.(tail := Some(h.list[|h.list| - 2].off)), blockSize)
  {
    var (h1, fit) := FirstFit(h, blockSize);
    assert fit.None? && h1 == h.(tail := Some(h.list[|h.list| - 2].off));
  }

  /** With `Tail` on the next-to-last node of a tiled heap, growth rebuilds
      the last node one page longer and retries on that heap. */
  lemma GrowthRebuildsLast(h: Heap, h1: Heap, blockSize: nat)
    requires Tiled(h) && |h.list| >= 2
    requires h.arena.brk + PAGE <= h.arena.cap
    requires h1 == h.(tail := Some(h.list[|h.list| - 2].off))
    ensures GrowAndRetry(h1, blockSize) == Retry(GrownLast(h), blockSize)
  {
    var n := |h.list|;
    var h2 := h1.(arena := Cursor(h.arena.brk + PAGE, h.arena.cap));
    assert IndexOf(h1.list, h.list[n - 2].off) == Some(n - 2) by {
      forall j | 0 <= j < n - 2
        ensures h.list[j].off != h.list[n - 2].off
      {
        OffsetsIncrease(h, j, n - 2);
      }
    }
    assert h1.(arena := Cursor(h1.arena.brk + PAGE, h1.arena.cap)) == h2;
    GrowAndRetryAt(h1, blockSize, n - 2);
    AddAfterPrevRebuildsLast(h, h2);
    var g := AddFnode(h2, n - 2).0;
    assert GrowAndRetry(h1, blockSize) == Retry(g, blockSize);
  }

  /** The miss path when the page is granted and `Tail` names node `ti`. */
  lemma GrowAndRetryAt(h: Heap, blockSize: nat, ti: nat)
    requires h.arena.brk + PAGE <= h.arena.cap
    requires h.tail.Some? && IndexOf(h.list, h.tail.value) == Some(ti)
    ensures GrowAndRetry(h, blockSize)
            == Retry(AddFnode(h.(arena := Cursor(h.arena.brk + PAGE, h.arena.cap)), ti).0, blockSize)
  {
  }

  lemma AddAfterPrevRebuildsLast(h: Heap, h2: Heap)
    requires Tiled(h) && |h.list| >= 2
    requires h2 == Heap(Cursor(h.arena.brk + PAGE, h.arena.cap), h.list, Some(h.list[|h.list| - 2].off))
    ensures AddFnode(h2, |h.list| - 2).0 == GrownLast(h)
  {
    var n := |h.list|;
    assert End(h.list[n - 2]) == h.list[n - 1].off;
    var (h3, newOff) := AddFnode(h2, n - 2);
    assert h3.list == h.list[..n - 1] + [Node(h.list[n - 1].off, h.list[n - 1].len + PAGE)];
  }

  lemma GrownLastTiled(h: Heap)
    requires Tiled(h) && h.arena.brk + PAGE <= h.arena.cap
    ensures Tiled(GrownLast(h))
  {
    var g := GrownLast(h);
    var n := |h.list|;
    forall k | 0 <= k < |g.list| - 1
      ensures End(g.list[k]) == g.list[k + 1].off
    {
      assert g.list[k] == h.list[k];
      if k < n - 2 {
        assert g.list[k + 1] == h.list[k + 1];
      }
    }
  }

  /** In a tiled heap offsets strictly increase along the list. */
  lemma {:induction false} OffsetsIncrease(h: Heap, i: nat, j: nat)
    requires Tiled(h)
    requires i < j < |h.list|
    ensures h.list[i].off < h.list[j].off
    decreases j - i
  {
    assert End(h.list[j - 1]) == h.list[j].off;
    if i < j - 1 {
      OffsetsIncrease(h, i, j - 1);
    }
  }

  /** On a one-node list a miss sets `Tail = curr->prev == NULL`, and the
      growth path then calls `addfnode(NULL)`. */
  lemma SingleNodeMissIsUndefined(h: Heap, blockSize: nat)
    requires |h.list| == 1 && h.list[0].len < blockSize
    requires h.arena.brk + PAGE <= h.arena.cap
    ensures HmmAlloc(h, blockSize) == Undefined
  {
  }

  /** The first allocation on a fresh heap, when the page has room for the
      request and a second header: the page is split into the block and a
      tail node that runs to the break. */
  lemma FirstAllocOnFreshHeap(blockSize: nat)
    requires 0 < blockSize <= PAGE - 2 * META
    ensures HmmAlloc(Start, blockSize) ==
              Ok(Alloc(Heap(Cursor(PAGE, VHEAP_MAX_SIZE),
                            [Node(0, blockSize), Node(META + blockSize, PAGE - 2 * META - blockSize)],
                            Some(META + blockSize)),
                       Some(META)))
  {
    var h := FreeListInit(Start).value;
    assert h.list == [Node(0, PAGE - META)];
    var (h1, fit) := FirstFit(h, blockSize);
    assert fit == Some(0);
    var s := Split(h, 0, blockSize);
    assert s.list == [Node(0, blockSize), Node(META + blockSize, PAGE - 2 * META - blockSize)];
    assert h1 == s;
    assert s.list[0 := Node(0, blockSize)] == s.list;
    assert AllocFrom(h, blockSize) == Ok(Found(s, 0, blockSize));
  }

  /** The defect in `HmmFree`: freeing the first block of a fresh heap
      pushes a node at the payload address, inside the block whose own
      header is still linked, so the two list nodes overlap. */
  lemma FreeOnFreshHeapOverlaps(blockSize: nat, word: nat)
    requires 0 < blockSize <= PAGE - 2 * META && word < WORD
    ensures var a := HmmAlloc(Start, blockSize).value;
            var f := HmmFree(a.heap, a.ptr, word);
            && f.Ok?
            && f.value.list == [Node(META, word), Node(0, blockSize)] + a.heap.list[1..]
            && 0 < f.value.list[0].off < End(f.value.list[1])
  {
    FirstAllocOnFreshHeap(blockSize);
    var a := HmmAlloc(Start, blockSize).value;
    assert a.heap.list == [Node(0, blockSize), Node(META + blockSize, PAGE - 2 * META - blockSize)];
    assert META !in Offsets(a.heap.list);
  }

  /** The same defect for every heap: freeing a pointer `HmmAlloc` returned
      succeeds exactly when no node sits at that address, and then pushes a
      node at the payload address while the block's own header stays
      linked, so the new node starts strictly inside that block. */
  lemma FreeAfterAllocOverlaps(h: Heap, blockSize: nat, word: nat)
    requires word < WORD
    requires HmmAlloc(h, blockSize).Ok? && HmmAlloc(h, blockSize).value.ptr.Some?
    ensures var a := HmmAlloc(h, blockSize).value;
            var p := a.ptr.value;
            var f := HmmFree(a.heap, a.ptr, word);
            && (f.Ok? <==> p !in Offsets(a.heap.list))
            && (f.Ok? ==>
                  && f.value.list[0] == Node(p, word)
                  && Node(p - META, blockSize) in f.value.list[1..]
                  && p - META < p < End(Node(p - META, blockSize)))
  {
    var a := HmmAlloc(h, blockSize).value;
    assert Returns(a, blockSize);
    assert |a.heap.list| > 0;
  }
}
