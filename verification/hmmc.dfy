/**
 HMM_1/HMM_C.c: a singly linked free list kept in address order over a
 static array of `VHEAP_MAX_SIZE` (1 MiB) bytes. A node's `size` excludes
 its 16-byte header `{ size, next }`, so node `n` spans
 `[n.off, n.off + HDR + n.len)`. An `int available` counts free bytes.

 `freeListHead` starts NULL; the caller is expected to run `freeListInit`
 first. Defects of the code as written, all modelled as written:
   - `freeListInit` sizes the first node as the whole array although its
     header is excluded, so the node claims `HDR` bytes past the array (38);
   - the split path of `HmmAlloc` shrinks `bestFit` and links the
     remainder after it, but leaves `bestFit` itself on the list (70-75);
     `HmmAllocFixed` is the corrected version, which replaces `bestFit` by
     the remainder;
   - `available` is a 32-bit `int` mixed with `size_t` arithmetic.
 */
module HmmC {
  import opened FreeList

  /** `sizeof(struct fnode)`: a `size_t` and a pointer. */
  const HDR: nat := 16
  const VHEAP_MAX_SIZE: nat := 1024 * 1024

  datatype Heap = Heap(list: seq<Node>, available: int)

  /** The first byte past node `n` and its payload. */
  function End(n: Node): nat { n.off + HDR + n.len }

  /** An `int` is 32 bits wide: a `size_t` value converted to it keeps its
      low 32 bits, read as two's complement. */
  function Int32(x: int): (r: int)
    ensures -0x8000_0000 <= r < 0x8000_0000
    ensures -0x8000_0000 <= x < 0x8000_0000 ==> r == x
    ensures (r - x) % 0x1_0000_0000 == 0
  {
    var m := x % 0x1_0000_0000;
    if m < 0x8000_0000 then m else m - 0x1_0000_0000
  }

  /** The static initial state: `freeListHead == NULL` and
      `available == VHEAP_MAX_SIZE`. */
  const Start: Heap := Heap([], VHEAP_MAX_SIZE)

  /** `freeListInit`: one node at the array's start, sized as the array. */
  function FreeListInit(h: Heap): (r: Heap)
    ensures |r.list| == 1 && r.list[0].off == 0 && r.available == h.available
    ensures Ordered(r.list)
  {
    Heap([Node(0, VHEAP_MAX_SIZE)], h.available)
  }

  /** The initial node reaches `HDR` bytes beyond the end of `vHeap`. */
  lemma InitOverrunsArray(h: Heap)
    ensures End(FreeListInit(h).list[0]) == VHEAP_MAX_SIZE + HDR
    ensures Total(FreeListInit(h).list) > VHEAP_MAX_SIZE
  {
    SumOne(Node(0, VHEAP_MAX_SIZE));
  }

  // ---------------------------------------------------------------------
  // List shape

  /** Address order with no two neighbours touching: the shape that
      coalescing on free is meant to keep. */
  ghost predicate Ordered(xs: seq<Node>)
  {
    forall i :: 0 <= i < |xs| - 1 ==> End(xs[i]) < xs[i + 1].off
  }

  /** Every node ends inside the `size_t` range, so no length sum wraps. */
  ghost predicate Fits(xs: seq<Node>)
  {
    forall i :: 0 <= i < |xs| ==> End(xs[i]) < WORD
  }

  /** Node `n` overlaps no node of `xs`. */
  ghost predicate Apart(xs: seq<Node>, n: Node)
  {
    forall i :: 0 <= i < |xs| ==> End(xs[i]) <= n.off || End(n) <= xs[i].off
  }

  /** Bytes the list accounts for: every payload plus every header. */
  function Total(xs: seq<Node>): nat
  {
    Sum(xs) + HDR * |xs|
  }

  lemma TotalConcat(a: seq<Node>, b: seq<Node>)
    ensures Total(a + b) == Total(a) + Total(b)
  {
    SumConcat(a, b);
  }

  lemma TotalOne(n: Node)
    ensures Total([n]) == n.len + HDR
  {
    SumOne(n);
  }

  lemma {:induction false} OrderedSorted(xs: seq<Node>, i: nat, j: nat)
    requires Ordered(xs) && i < j < |xs|
    ensures End(xs[i]) < xs[j].off
    decreases j - i
  {
    if j > i + 1 {
      OrderedSorted(xs, i + 1, j);
    }
  }

  lemma OrderedConcat(a: seq<Node>, b: seq<Node>)
    requires Ordered(a) && Ordered(b)
    requires |a| > 0 && |b| > 0 ==> End(a[|a| - 1]) < b[0].off
    ensures Ordered(a + b)
  {
    var c := a + b;
    forall i | 0 <= i < |c| - 1
      ensures End(c[i]) < c[i + 1].off
    {
      if i + 1 < |a| {
        assert c[i] == a[i] && c[i + 1] == a[i + 1];
      } else if i + 1 == |a| {
        assert c[i] == a[|a| - 1] && c[i + 1] == b[0];
      } else {
        assert c[i] == b[i - |a|] && c[i + 1] == b[i - |a| + 1];
      }
    }
  }

  lemma OrderedSlice(xs: seq<Node>, i: nat, j: nat)
    requires Ordered(xs) && i <= j <= |xs|
    ensures Ordered(xs[i..j])
  {
    var s := xs[i..j];
    forall m | 0 <= m < |s| - 1
      ensures End(s[m]) < s[m + 1].off
    {
      assert s[m] == xs[i + m] && s[m + 1] == xs[i + m + 1];
    }
  }

  // ---------------------------------------------------------------------
  // Allocation

  /** Lines 49: a zero request, or one above `available` converted to
      `size_t`, is refused. */
  predicate Refused(h: Heap, size: nat)
  {
    size == 0 || size > SizeT(h.available)
  }

  /** Line 70: the block is split when it exceeds the request plus a header
      (a `size_t` comparison). */
  predicate Splits(b: Node, a: nat)
  {
    b.len > SizeT(a + HDR)
  }

  /** Lines 71-72: the remainder starts right after the kept payload. */
  function Residual(b: Node, a: nat): Node
  {
    Node(b.off + HDR + a, SizeT(b.len - a - HDR))
  }

  /** The split conserves bytes: the kept block, one header and the
      remainder make up the old block, and the remainder starts where the
      kept block ends. */
  lemma SplitConserves(b: Node, a: nat)
    requires Splits(b, a) && a + HDR < WORD && b.len < WORD
    ensures var k := Node(b.off, a);
            var m := Residual(b, a);
            && k.len + HDR + m.len == b.len
            && m.off == End(k)
            && End(m) == End(b)
  {
  }

  /** `HmmAlloc` also returns the value it left in the block's `size`
      field, which is what a later `HmmFree` reads back. */
  datatype Alloc = Alloc(heap: Heap, ptr: Option<nat>, blockSize: nat)

  /** The value `HmmAlloc` leaves in the chosen block's `size` field: the
      aligned request after a split, the whole block otherwise. */
  function Granted(b: Node, a: nat): nat
  {
    if Splits(b, a) then a else b.len
  }

  /** The free list after lines 69-85 as written take block `k`: on a split
      `bestFit->next = newNode` keeps `bestFit` linked ahead of the
      remainder; otherwise `bestFit` is unlinked. */
  function CarvedAsWritten(xs: seq<Node>, k: nat, a: nat): seq<Node>
    requires k < |xs|
  {
    if Splits(xs[k], a) then xs[..k] + [Node(xs[k].off, a), Residual(xs[k], a)] + xs[k + 1..]
    else xs[..k] + xs[k + 1..]
  }

  /** Lines 69-85 corrected: on a split the remainder takes `bestFit`'s
      place in its predecessor (or in `freeListHead`). */
  function Carved(xs: seq<Node>, k: nat, a: nat): seq<Node>
    requires k < |xs|
  {
    if Splits(xs[k], a) then xs[..k] + [Residual(xs[k], a)] + xs[k + 1..]
    else xs[..k] + xs[k + 1..]
  }

  /** `HmmAlloc(size)` as written (lines 48-86): NULL when refused or when
      no block is large enough; otherwise the first block that fits is
      carved, its payload returned, and `available` drops by what its
      header now says. */
  function HmmAlloc(h: Heap, size: nat): (r: Alloc)
    ensures r.ptr.None? <==> Refused(h, size) || FirstAtLeast(h.list, Align8(size)).None?
    ensures r.ptr.None? ==> r == Alloc(h, None, 0)
    ensures r.ptr.Some? ==>
              var k := FirstAtLeast(h.list, Align8(size)).value;
              && r.ptr.value == h.list[k].off + HDR
              && r.blockSize == Granted(h.list[k], Align8(size))
              && r.heap.available == Int32(h.available - r.blockSize)
              && r.heap.list == CarvedAsWritten(h.list, k, Align8(size))
    ensures r.ptr.Some? && size + 7 < WORD ==> r.blockSize >= size
  {
    if Refused(h, size) then Alloc(h, None, 0)
    else
      match FirstAtLeast(h.list, Align8(size))
      case None => Alloc(h, None, 0)
      case Some(k) =>
        var g := Granted(h.list[k], Align8(size));
        Alloc(Heap(CarvedAsWritten(h.list, k, Align8(size)), Int32(h.available - g)), Some(h.list[k].off + HDR), g)
  }

  /** `HmmAlloc` with the corrected split. */
  function HmmAllocFixed(h: Heap, size: nat): (r: Alloc)
    ensures r.ptr.None? <==> Refused(h, size) || FirstAtLeast(h.list, Align8(size)).None?
    ensures r.ptr.None? ==> r == Alloc(h, None, 0)
    ensures r.ptr.Some? ==>
              var k := FirstAtLeast(h.list, Align8(size)).value;
              && r.ptr.value == h.list[k].off + HDR
              && r.blockSize == Granted(h.list[k], Align8(size))
              && r.heap.available == Int32(h.available - r.blockSize)
              && r.heap.list == Carved(h.list, k, Align8(size))
    ensures r.ptr.Some? && size + 7 < WORD ==> r.blockSize >= size
  {
    if Refused(h, size) then Alloc(h, None, 0)
    else
      match FirstAtLeast(h.list, Align8(size))
      case None => Alloc(h, None, 0)
      case Some(k) =>
        var g := Granted(h.list[k], Align8(size));
        Alloc(Heap(Carved(h.list, k, Align8(size)), Int32(h.available - g)), Some(h.list[k].off + HDR), g)
  }

  // ---------------------------------------------------------------------
  // Release

  /** The loop at lines 106-109: the first position, in list order, whose
      node does not lie below `p`. */
  function InsertPos(xs: seq<Node>, p: nat): (k: nat)
    ensures k <= |xs|
    ensures forall j :: 0 <= j < k ==> xs[j].off < p
    ensures k < |xs| ==> xs[k].off >= p
  {
    InsertPosFrom(xs, p, 0)
  }

  function InsertPosFrom(xs: seq<Node>, p: nat, i: nat): (k: nat)
    requires i <= |xs|
    requires forall j :: 0 <= j < i ==> xs[j].off < p
    ensures i <= k <= |xs|
    ensures forall j :: 0 <= j < k ==> xs[j].off < p
    ensures k < |xs| ==> xs[k].off >= p
    decreases |xs| - i
  {
    if i == |xs| || xs[i].off >= p then i
    else InsertPosFrom(xs, p, i + 1)
  }

  /** Lines 124-127: absorb the successor when `node` ends where it starts. */
  function MergeNext(before: seq<Node>, node: Node, after: seq<Node>): seq<Node>
  {
    if |after| > 0 && End(node) == after[0].off then
      before + [Node(node.off, SizeT(node.len + after[0].len + HDR))] + after[1..]
    else before + [node] + after
  }

  /** `updateFreeList(node)` (lines 101-128). Linking a node in front of
      itself makes the list cyclic, which the model does not represent. */
  function UpdateFreeList(xs: seq<Node>, n: Node): (r: Outcome<seq<Node>>)
    ensures r.Undefined? <==> (var k := InsertPos(xs, n.off);
                               && !(k > 0 && End(xs[k - 1]) == n.off)
                               && k < |xs| && xs[k].off == n.off)
    ensures r.Ok? ==> |r.value| > 0
  {
    var k := InsertPos(xs, n.off);
    if k > 0 && End(xs[k - 1]) == n.off then
      // `prev->size += node->size + sizeof(struct fnode); node = prev`
      var merged := Node(xs[k - 1].off, SizeT(xs[k - 1].len + n.len + HDR));
      Ok(MergeNext(xs[..k - 1], merged, xs[k..]))
    else if k < |xs| && xs[k].off == n.off then Undefined
    else Ok(MergeNext(xs[..k], n, xs[k..]))
  }

  /** `HmmFree(ptr)`. `word` is the `size` field of the header at
      `ptr - HDR`, which `HmmAlloc` wrote; memory contents are not part of
      this model. */
  function HmmFree(h: Heap, ptr: Option<nat>, word: nat): (r: Outcome<Heap>)
    requires word < WORD
    ensures ptr.None? ==> r == Ok(h)
    ensures ptr.Some? && r.Ok? ==>
              && ptr.value >= HDR
              && r.value.available == Int32(h.available + word)
              && Ok(r.value.list) == UpdateFreeList(h.list, Node(ptr.value - HDR, word))
  {
    match ptr
    case None => Ok(h)
    case Some(p) =>
      if p < HDR then Undefined     // the header would lie before `vHeap`
      else
        match UpdateFreeList(h.list, Node(p - HDR, word))
        case Ok(list) => Ok(Heap(list, Int32(h.available + word)))
        case _ => Undefined
  }

  // ---------------------------------------------------------------------
  // Properties of the release path

  /** Lines 124-127 keep the order and add `node`'s bytes. */
  lemma MergeNextKeeps(before: seq<Node>, node: Node, after: seq<Node>)
    requires Ordered(before) && Ordered(after) && Fits(after) && End(node) < WORD
    requires |before| > 0 ==> End(before[|before| - 1]) < node.off
    requires |after| > 0 ==> End(node) <= after[0].off
    ensures var r := MergeNext(before, node, after);
            && Ordered(r)
            && Total(r) == Total(before) + node.len + HDR + Total(after)
            && |r| > |before| && r[..|before|] == before && r[|before|].off == node.off
            && End(node) <= End(r[|before|])
  {
    if |after| > 0 && End(node) == after[0].off {
      AbsorbKeeps(before, node, after);
    } else {
      LinkKeeps(before, node, after);
    }
  }

  /** The merging branch of `MergeNext`: `node` absorbs `after[0]`. */
  lemma AbsorbKeeps(before: seq<Node>, node: Node, after: seq<Node>)
    requires Ordered(before) && Ordered(after) && Fits(after)
    requires |before| > 0 ==> End(before[|before| - 1]) < node.off
    requires |after| > 0 && End(node) == after[0].off
    ensures var m := Node(node.off, SizeT(node.len + after[0].len + HDR));
            var r := before + [m] + after[1..];
            && Ordered(r)
            && Total(r) == Total(before) + node.len + HDR + Total(after)
            && End(node) <= End(m)
  {
    var m := Node(node.off, SizeT(node.len + after[0].len + HDR));
    assert End(after[0]) < WORD;
    assert End(m) == End(after[0]) && m.len == node.len + after[0].len + HDR;
    JoinKeeps(before, m, after);
    TotalAround(after, 0);
    assert after[..0] == [];
  }

  /** `before + [m] + after[1..]`, where `m` replaces `after[0]` and ends
      where it ends. */
  lemma JoinKeeps(before: seq<Node>, m: Node, after: seq<Node>)
    requires Ordered(before) && Ordered(after) && |after| > 0 && End(m) == End(after[0])
    requires |before| > 0 ==> End(before[|before| - 1]) < m.off
    ensures var r := before + [m] + after[1..];
            && Ordered(r)
            && Total(r) == Total(before) + m.len + HDR + Total(after[1..])
  {
    OrderedSlice(after, 1, |after|);
    if |after| > 1 {
      assert after[1..][0] == after[1];
    }
    OrderedConcat([m], after[1..]);
    OrderedConcat(before, [m] + after[1..]);
    assert before + [m] + after[1..] == before + ([m] + after[1..]);
    TotalConcat(before, [m] + after[1..]);
    TotalConcat([m], after[1..]);
    TotalOne(m);
  }

  /** `before + [node] + after` with a gap on both sides of `node`. */
  lemma LinkKeeps(before: seq<Node>, node: Node, after: seq<Node>)
    requires Ordered(before) && Ordered(after)
    requires |before| > 0 ==> End(before[|before| - 1]) < node.off
    requires |after| > 0 ==> End(node) < after[0].off
    ensures var r := before + [node] + after;
            && Ordered(r)
            && Total(r) == Total(before) + node.len + HDR + Total(after)
  {
    OrderedConcat([node], after);
    OrderedConcat(before, [node] + after);
    assert before + [node] + after == before + ([node] + after);
    TotalConcat(before, [node] + after);
    TotalConcat([node], after);
    TotalOne(node);
  }

  /** Freeing a block that overlaps no free node into an ordered list keeps
      the list ordered with no neighbours touching, and the bytes the list
      accounts for grow by exactly the block and its header. */
  lemma UpdateKeepsOrdered(xs: seq<Node>, n: Node)
    requires Ordered(xs) && Fits(xs) && End(n) < WORD && Apart(xs, n)
    ensures UpdateFreeList(xs, n).Ok?
    ensures Ordered(UpdateFreeList(xs, n).value)
    ensures Total(UpdateFreeList(xs, n).value) == Total(xs) + n.len + HDR
    ensures Holds(UpdateFreeList(xs, n).value, n)
  {
    var k := InsertPos(xs, n.off);
    if k < |xs| {
      assert End(n) <= xs[k].off;
    }
    if k > 0 {
      assert End(xs[k - 1]) <= n.off;
    }
    if k > 0 && End(xs[k - 1]) == n.off {
      var merged := Node(xs[k - 1].off, SizeT(xs[k - 1].len + n.len + HDR));
      assert UpdateFreeList(xs, n) == Ok(MergeNext(xs[..k - 1], merged, xs[k..]));
      UpdateMergesPrev(xs, n, k);
    } else {
      assert UpdateFreeList(xs, n) == Ok(MergeNext(xs[..k], n, xs[k..]));
      UpdateLinks(xs, n, k);
    }
  }

  /** Some node of `ys` spans all of `n`: its bytes are free memory again. */
  ghost predicate Holds(ys: seq<Node>, n: Node)
  {
    exists j :: 0 <= j < |ys| && ys[j].off <= n.off && End(n) <= End(ys[j])
  }

  lemma FitsSlice(xs: seq<Node>, k: nat)
    requires Fits(xs) && k <= |xs|
    ensures Fits(xs[k..])
  {
    forall i | 0 <= i < |xs| - k
      ensures End(xs[k..][i]) < WORD
    {
      assert xs[k..][i] == xs[k + i];
    }
  }

  lemma TotalSplit(xs: seq<Node>, k: nat)
    requires k <= |xs|
    ensures Total(xs) == Total(xs[..k]) + Total(xs[k..])
  {
    assert xs == xs[..k] + xs[k..];
    TotalConcat(xs[..k], xs[k..]);
  }

  /** The branch at lines 112-114: the freed block extends `xs[k - 1]`. */
  lemma UpdateMergesPrev(xs: seq<Node>, n: Node, k: nat)
    requires Ordered(xs) && Fits(xs) && End(n) < WORD
    requires 0 < k <= |xs| && End(xs[k - 1]) == n.off
    requires k < |xs| ==> End(n) <= xs[k].off
    ensures var r := MergeNext(xs[..k - 1], Node(xs[k - 1].off, SizeT(xs[k - 1].len + n.len + HDR)), xs[k..]);
            && Ordered(r)
            && Total(r) == Total(xs) + n.len + HDR
            && Holds(r, n)
  {
    var before, p, after := xs[..k - 1], xs[k - 1], xs[k..];
    PrevParts(xs, k);
    TotalAround(xs, k - 1);
    assert xs[k - 1 + 1..] == after;
    PrevAbsorbs(before, p, n, after);
  }

  /** `p` absorbs the freed block `n` that starts where `p` ends. */
  lemma PrevAbsorbs(before: seq<Node>, p: Node, n: Node, after: seq<Node>)
    requires Ordered(before) && Ordered(after) && Fits(after) && End(n) < WORD
    requires |before| > 0 ==> End(before[|before| - 1]) < p.off
    requires End(p) == n.off
    requires |after| > 0 ==> End(n) <= after[0].off
    ensures var r := MergeNext(before, Node(p.off, SizeT(p.len + n.len + HDR)), after);
            && Ordered(r)
            && Total(r) == Total(before) + p.len + HDR + n.len + HDR + Total(after)
            && Holds(r, n)
  {
    var merged := Node(p.off, SizeT(p.len + n.len + HDR));
    assert merged.len == p.len + n.len + HDR && End(merged) == End(n);
    MergeNextKeeps(before, merged, after);
    HoldsAt(MergeNext(before, merged, after), |before|, n);
  }

  /** The slices on either side of `xs[k - 1]` keep the list's properties. */
  lemma PrevParts(xs: seq<Node>, k: nat)
    requires Ordered(xs) && Fits(xs) && 0 < k <= |xs|
    ensures Ordered(xs[..k - 1]) && Ordered(xs[k..]) && Fits(xs[k..])
    ensures k > 1 ==> End(xs[..k - 1][k - 2]) < xs[k - 1].off
  {
    OrderedSlice(xs, 0, k - 1);
    OrderedSlice(xs, k, |xs|);
    FitsSlice(xs, k);
    if k > 1 {
      assert End(xs[k - 2]) < xs[k - 1].off;
    }
  }

  /** The bytes of a list are those before node `i`, node `i` with its
      header, and those after it. */
  lemma TotalAround(xs: seq<Node>, i: nat)
    requires i < |xs|
    ensures Total(xs) == Total(xs[..i]) + xs[i].len + HDR + Total(xs[i + 1..])
  {
    Around(xs, i);
    TotalConcat(xs[..i] + [xs[i]], xs[i + 1..]);
    TotalConcat(xs[..i], [xs[i]]);
    TotalOne(xs[i]);
  }

  lemma HoldsAt(ys: seq<Node>, j: nat, n: Node)
    requires j < |ys| && ys[j].off <= n.off && End(n) <= End(ys[j])
    ensures Holds(ys, n)
  {
  }

  /** The branch at lines 116-121: the freed block is linked at `k`. */
  lemma UpdateLinks(xs: seq<Node>, n: Node, k: nat)
    requires Ordered(xs) && Fits(xs) && End(n) < WORD
    requires k <= |xs| && (k > 0 ==> End(xs[k - 1]) < n.off)
    requires k < |xs| ==> End(n) <= xs[k].off
    ensures var r := MergeNext(xs[..k], n, xs[k..]);
            && Ordered(r)
            && Total(r) == Total(xs) + n.len + HDR
            && Holds(r, n)
  {
    OrderedSlice(xs, 0, k);
    OrderedSlice(xs, k, |xs|);
    FitsSlice(xs, k);
    MergeNextKeeps(xs[..k], n, xs[k..]);
    TotalSplit(xs, k);
  }

  // ---------------------------------------------------------------------
  // Allocation followed by release

  /** Converting `available - d` to `int` and adding `d` back restores any
      `int` value. */
  lemma Int32RoundTrip(x: int, d: int)
    requires -0x8000_0000 <= x < 0x8000_0000
    ensures Int32(Int32(x - d) + d) == x
  {
    var y := Int32(x - d);
    var q := (y - (x - d)) / 0x1_0000_0000;
    assert y + d == x + q * 0x1_0000_0000;
    Int32Shift(x, q);
  }

  lemma Int32Shift(x: int, q: int)
    requires -0x8000_0000 <= x < 0x8000_0000
    ensures Int32(x + q * 0x1_0000_0000) == x
  {
    assert (x + q * 0x1_0000_0000) % 0x1_0000_0000 == x % 0x1_0000_0000;
  }

  /** `size_t` arithmetic undoes the split: kept payload, remainder and one
      header add up to the old size, even when `a + HDR` wraps. */
  lemma SizeTRejoin(a: nat, l: nat)
    requires l < WORD
    ensures SizeT(a + SizeT(l - a - HDR) + HDR) == l
  {
    var t := l - a - HDR;
    var q := (SizeT(t) - t) / WORD;
    assert a + SizeT(t) + HDR == l + q * WORD;
    assert (l + q * WORD) % WORD == l % WORD;
  }

  /** In an ordered list, the insertion point for `xs[k]`'s offset is `k`. */
  lemma InsertPosAt(xs: seq<Node>, k: nat, p: nat)
    requires k <= |xs|
    requires forall j :: 0 <= j < k ==> xs[j].off < p
    requires k < |xs| ==> xs[k].off >= p
    ensures InsertPos(xs, p) == k
  {
  }

  lemma BeforeIsBelow(xs: seq<Node>, k: nat)
    requires Ordered(xs) && k < |xs|
    ensures forall j :: 0 <= j < k ==> End(xs[j]) < xs[k].off
  {
    forall j | 0 <= j < k
      ensures End(xs[j]) < xs[k].off
    {
      OrderedSorted(xs, j, k);
    }
  }

  /** Freeing an unlinked node of an ordered list puts it back in place. */
  lemma RelinkRestores(xs: seq<Node>, k: nat)
    requires Ordered(xs) && k < |xs|
    ensures UpdateFreeList(xs[..k] + xs[k + 1..], xs[k]) == Ok(xs)
  {
    var b := xs[k];
    var ys := xs[..k] + xs[k + 1..];
    assert ys[..k] == xs[..k] && ys[k..] == xs[k + 1..];
    BeforeIsBelow(xs, k);
    forall j | 0 <= j < k
      ensures ys[j].off < b.off
    {
      assert ys[j] == xs[j];
    }
    if k < |ys| {
      OrderedSorted(xs, k, k + 1);
      assert ys[k] == xs[k + 1];
    }
    if k > 0 {
      assert ys[k - 1] == xs[k - 1];
    }
    LinkAt(ys, b, k);
    Around(xs, k);
  }

  /** A node with a gap on both sides of position `k` is linked there. */
  lemma LinkAt(ys: seq<Node>, n: Node, k: nat)
    requires k <= |ys|
    requires forall j :: 0 <= j < k ==> ys[j].off < n.off
    requires k > 0 ==> End(ys[k - 1]) < n.off
    requires k < |ys| ==> End(n) < ys[k].off
    ensures UpdateFreeList(ys, n) == Ok(ys[..k] + [n] + ys[k..])
  {
    InsertPosAt(ys, k, n.off);
    assert UpdateFreeList(ys, n) == Ok(MergeNext(ys[..k], n, ys[k..]));
  }

  /** Freeing the kept part of a split block in front of its remainder
      rejoins the two into the original block. */
  lemma RejoinRestores(xs: seq<Node>, k: nat, a: nat)
    requires Ordered(xs) && Fits(xs) && k < |xs| && Splits(xs[k], a)
    ensures UpdateFreeList(xs[..k] + [Residual(xs[k], a)] + xs[k + 1..], Node(xs[k].off, a)) == Ok(xs)
  {
    var b := xs[k];
    var m := Residual(b, a);
    var n := Node(b.off, a);
    var before, after := xs[..k], xs[k + 1..];
    var ys := before + [m] + after;
    assert xs == before + [b] + after;
    BeforeIsBelow(xs, k);
    assert ys[k] == m;
    InsertPosAt(ys, k, b.off);
    if k > 0 {
      assert ys[k - 1] == xs[k - 1];
    }
    assert ys[k..] == [m] + after && ys[..k] == before;
    assert UpdateFreeList(ys, n) == Ok(MergeNext(before, n, [m] + after));
    SizeTRejoin(a, b.len);
    assert ([m] + after)[1..] == after;
    assert Node(n.off, SizeT(n.len + m.len + HDR)) == b;
  }

  /** The corrected allocation and `HmmFree` are inverse: on an ordered free
      list, allocating and then freeing the returned pointer with the size
      the allocation wrote restores the list and the counter exactly. */
  lemma AllocFreeRoundTrip(h: Heap, size: nat)
    requires Ordered(h.list) && Fits(h.list)
    requires -0x8000_0000 <= h.available < 0x8000_0000
    requires HmmAllocFixed(h, size).ptr.Some?
    ensures var r := HmmAllocFixed(h, size);
            HmmFree(r.heap, r.ptr, r.blockSize) == Ok(h)
  {
    var a := Align8(size);
    var k := FirstAtLeast(h.list, a).value;
    var n := Node(h.list[k].off, Granted(h.list[k], a));
    var r := Alloc(Heap(Carved(h.list, k, a), Int32(h.available - n.len)), Some(n.off + HDR), n.len);
    FixedServes(h, size, k);
    assert HmmAllocFixed(h, size) == r;
    CarvedRelinks(h.list, k, a);
    FreeRestores(h, r, n);
  }

  /** What `HmmAllocFixed` hands out when node `k` is the first fit. */
  lemma FixedServes(h: Heap, size: nat, k: nat)
    requires HmmAllocFixed(h, size).ptr.Some? && FirstAtLeast(h.list, Align8(size)) == Some(k)
    ensures var g := Granted(h.list[k], Align8(size));
            HmmAllocFixed(h, size) == Alloc(Heap(Carved(h.list, k, Align8(size)), Int32(h.available - g)), Some(h.list[k].off + HDR), g)
  {
  }

  /** Linking the carved block back in, with the size written into its
      header, gives back the list before the carve. */
  lemma CarvedRelinks(xs: seq<Node>, k: nat, a: nat)
    requires Ordered(xs) && Fits(xs) && k < |xs|
    ensures UpdateFreeList(Carved(xs, k, a), Node(xs[k].off, Granted(xs[k], a))) == Ok(xs)
  {
    if Splits(xs[k], a) {
      RejoinRestores(xs, k, a);
    } else {
      RelinkRestores(xs, k);
    }
  }

  /** `HmmFree` undoes an allocation whose block `n` relinks into the list
      it left to give back the list before. */
  lemma FreeRestores(h: Heap, r: Alloc, n: Node)
    requires -0x8000_0000 <= h.available < 0x8000_0000
    requires r.ptr == Some(n.off + HDR) && r.blockSize == n.len && n.len < WORD
    requires r.heap.available == Int32(h.available - n.len)
    requires UpdateFreeList(r.heap.list, n) == Ok(h.list)
    ensures HmmFree(r.heap, r.ptr, r.blockSize) == Ok(h)
  {
    Int32RoundTrip(h.available, n.len);
  }

  /** The defect as written: on an ordered list, when the split path runs,
      freeing the returned block finds its header still linked and would
      link it in front of itself. */
  lemma AllocSplitThenFreeIsUndefined(h: Heap, size: nat)
    requires Ordered(h.list) && Fits(h.list)
    requires HmmAlloc(h, size).ptr.Some?
    requires Splits(h.list[FirstAtLeast(h.list, Align8(size)).value], Align8(size))
    ensures var r := HmmAlloc(h, size);
            HmmFree(r.heap, r.ptr, r.blockSize) == Undefined
  {
    SplitRelinkIsUndefined(h.list, FirstAtLeast(h.list, Align8(size)).value, Align8(size));
  }

  /** On the list as written, the kept part of a split block is still
      linked at its own offset, so relinking it is refused. */
  lemma SplitRelinkIsUndefined(xs: seq<Node>, k: nat, a: nat)
    requires Ordered(xs) && k < |xs| && Splits(xs[k], a)
    ensures UpdateFreeList(CarvedAsWritten(xs, k, a), Node(xs[k].off, a)) == Undefined
  {
    var b := xs[k];
    BeforeIsBelow(xs, k);
    var ys := CarvedAsWritten(xs, k, a);
    assert ys[k] == Node(b.off, a);
    InsertPosAt(ys, k, b.off);
    if k > 0 {
      assert ys[k - 1] == xs[k - 1];
    }
  }

  /** The defect as written, seen from the allocator: after a split, the
      same request is served by the same block again. */
  lemma AllocSplitServesTwice(h: Heap, size: nat)
    requires HmmAlloc(h, size).ptr.Some?
    requires Splits(h.list[FirstAtLeast(h.list, Align8(size)).value], Align8(size))
    requires !Refused(HmmAlloc(h, size).heap, size)
    ensures HmmAlloc(HmmAlloc(h, size).heap, size).ptr == HmmAlloc(h, size).ptr
  {
    SplitStaysFirst(h.list, FirstAtLeast(h.list, Align8(size)).value, Align8(size));
  }

  /** After the split as written, the first fit for the same request is the
      same node, at the same offset. */
  lemma SplitStaysFirst(xs: seq<Node>, k: nat, a: nat)
    requires FirstAtLeast(xs, a) == Some(k) && Splits(xs[k], a)
    ensures var ys := CarvedAsWritten(xs, k, a);
            && FirstAtLeast(ys, a) == Some(k)
            && ys[k].off == xs[k].off
  {
    var ys := CarvedAsWritten(xs, k, a);
    assert ys[k] == Node(xs[k].off, a);
    assert forall j :: 0 <= j < k ==> ys[j] == xs[j];
  }
}
